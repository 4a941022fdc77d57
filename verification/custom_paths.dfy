/**
 Consumer overrides from the root package's `installer-paths` extra
 (`AbstractInstaller::mapCustomInstallPaths`): an ordered map from a path
 template to the tokens it applies to. A token is a full package name,
 `type:<type>` or `vendor:<vendor>`; tokens are compared as exact strings.
 */
module CustomPaths {
  import opened Wrappers

  /** (template, tokens) pairs in the order the consumer wrote them. */
  type PathRules = seq<(string, seq<string>)>

  predicate RuleMatches(tokens: seq<string>, prettyName: string, packageType: string, vendor: string)
  {
    prettyName in tokens || ("type:" + packageType) in tokens || ("vendor:" + vendor) in tokens
  }

  /** Entry `i` matches and no earlier entry does. */
  ghost predicate FirstMatchAt(rules: PathRules, i: int, prettyName: string, packageType: string, vendor: string)
  {
    && 0 <= i < |rules|
    && RuleMatches(rules[i].1, prettyName, packageType, vendor)
    && forall j :: 0 <= j < i ==> !RuleMatches(rules[j].1, prettyName, packageType, vendor)
  }

  /**
   The template of the first matching entry, not yet rendered, or `None` when
   no entry matches so that the caller falls through to the default location.
   */
  function MapCustomInstallPaths(rules: PathRules, prettyName: string, packageType: string, vendor: string)
    : (r: Option<string>)
    ensures r.None? <==>
      forall i :: 0 <= i < |rules| ==> !RuleMatches(rules[i].1, prettyName, packageType, vendor)
    ensures r.Some? ==>
      exists i :: FirstMatchAt(rules, i, prettyName, packageType, vendor) && rules[i].0 == r.value
    decreases |rules|
  {
    if |rules| == 0 then None
    else if RuleMatches(rules[0].1, prettyName, packageType, vendor) then
      assert FirstMatchAt(rules, 0, prettyName, packageType, vendor);
      Some(rules[0].0)
    else
      var r := MapCustomInstallPaths(rules[1..], prettyName, packageType, vendor);
      assert forall i :: 0 < i < |rules| ==> rules[i] == rules[1..][i - 1];
      assert r.Some? ==>
        exists i :: FirstMatchAt(rules, i, prettyName, packageType, vendor) && rules[i].0 == r.value
      by {
        if r.Some? {
          var i :| FirstMatchAt(rules[1..], i, prettyName, packageType, vendor) && rules[1..][i].0 == r.value;
          assert FirstMatchAt(rules, i + 1, prettyName, packageType, vendor);
        }
      }
      r
  }

  /**
   The function as written: it is declared to return a string, so under PHP's
   default coercive typing its `return false` arrives as "" at the caller.
   */
  function MapCustomInstallPathsAsWritten(rules: PathRules, prettyName: string, packageType: string, vendor: string)
    : (r: string)
    ensures MapCustomInstallPaths(rules, prettyName, packageType, vendor).None? ==> r == ""
    ensures MapCustomInstallPaths(rules, prettyName, packageType, vendor).Some? ==>
      r == MapCustomInstallPaths(rules, prettyName, packageType, vendor).value
    decreases |rules|
  {
    if |rules| == 0 then ""
    else if RuleMatches(rules[0].1, prettyName, packageType, vendor) then rules[0].0
    else MapCustomInstallPathsAsWritten(rules[1..], prettyName, packageType, vendor)
  }
}
