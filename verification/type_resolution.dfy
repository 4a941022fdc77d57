/**
 Choosing the resolver for a package type (`Installer::findInstallerType`) and
 deciding whether a type is supported (`Installer::supports` with
 `getLocationPattern`). The registry keys are sorted in descending order
 (`krsort`) and the first key that is a leading substring of the type wins;
 no separator is checked at this step.
 */
module TypeResolution {
  import opened Wrappers
  import opened Strings
  import opened Resolvers

  /** Every later key is at most the earlier one. */
  ghost predicate Descending(s: seq<string>)
  {
    forall i, j :: 0 <= i < j < |s| ==> !Below(s[i], s[j])
  }

  /** `!Below` is transitive: it is the reflexive "at least" of a total order. */
  lemma AtLeastTransitive(a: string, b: string, c: string)
    ensures !Below(a, b) && !Below(b, c) ==> !Below(a, c)
  {
    if !Below(a, b) && !Below(b, c) && Below(a, c) {
      BelowTotal(a, b);
      BelowTotal(b, c);
      if a == b {
      } else if b == c {
      } else {
        BelowTransitive(b, a, c);
      }
    }
  }

  function Insert(k: string, s: seq<string>): (r: seq<string>)
    requires Descending(s)
    ensures Descending(r)
    ensures multiset(r) == multiset(s) + multiset{k}
    decreases |s|
  {
    if |s| == 0 then [k]
    else if !Below(k, s[0]) then
      assert forall j :: 0 <= j < |s| ==> !Below(k, s[j]) by {
        forall j | 0 <= j < |s| ensures !Below(k, s[j]) {
          if j > 0 {
            AtLeastTransitive(k, s[0], s[j]);
          }
        }
      }
      ConsDescending(k, s);
      [k] + s
    else
      DropDescending(s);
      var tail := Insert(k, s[1..]);
      assert forall x :: x in multiset(tail) ==> !Below(s[0], x) by {
        BelowAsymmetric(k, s[0]);
        forall x | x in multiset(tail) ensures !Below(s[0], x) {
          if x != k {
            assert x in multiset(s[1..]);
            var j :| 0 <= j < |s[1..]| && s[1..][j] == x;
            assert s[j + 1] == x;
          }
        }
      }
      forall j | 0 <= j < |tail| ensures !Below(s[0], tail[j]) {
        assert tail[j] in multiset(tail);
      }
      ConsDescending(s[0], tail);
      assert s == [s[0]] + s[1..];
      [s[0]] + tail
  }

  /** A key at least every element of a descending list may go in front of it. */
  lemma ConsDescending(k: string, s: seq<string>)
    requires Descending(s)
    requires forall j :: 0 <= j < |s| ==> !Below(k, s[j])
    ensures Descending([k] + s)
  {
    var r := [k] + s;
    forall i, j | 0 <= i < j < |r| ensures !Below(r[i], r[j]) {
      assert r[j] == s[j - 1];
      if i > 0 {
        assert r[i] == s[i - 1];
      }
    }
  }

  lemma DropDescending(s: seq<string>)
    requires Descending(s) && |s| > 0
    ensures Descending(s[1..])
  {
    forall i, j | 0 <= i < j < |s[1..]| ensures !Below(s[1..][i], s[1..][j]) {
      assert s[1..][i] == s[i + 1] && s[1..][j] == s[j + 1];
    }
  }

  /** `krsort` on the keys: descending, and a permutation of the input. */
  function SortDescending(s: seq<string>): (r: seq<string>)
    ensures Descending(r)
    ensures multiset(r) == multiset(s)
    decreases |s|
  {
    if |s| == 0 then []
    else
      assert s == [s[0]] + s[1..];
      Insert(s[0], SortDescending(s[1..]))
  }

  /** The first key of `keys` that is a leading substring of `t`. */
  function FirstPrefix(keys: seq<string>, t: string): (r: Option<nat>)
    ensures r.None? <==> forall i :: 0 <= i < |keys| ==> !IsPrefix(keys[i], t)
    ensures r.Some? ==> r.value < |keys| && IsPrefix(keys[r.value], t)
    ensures r.Some? ==> forall i :: 0 <= i < r.value ==> !IsPrefix(keys[i], t)
    decreases |keys|
  {
    if |keys| == 0 then None
    else if IsPrefix(keys[0], t) then Some(0)
    else
      match FirstPrefix(keys[1..], t)
      case None => None
      case Some(i) => Some(i + 1)
  }

  /** Reference definition: `k` is the longest registered key that is a leading substring of `t`. */
  ghost predicate LongestPrefix(reg: Registry, t: string, k: string)
  {
    && k in Keys(reg)
    && IsPrefix(k, t)
    && forall k' :: k' in Keys(reg) && IsPrefix(k', t) ==> |k'| <= |k|
  }

  /**
   `findInstallerType`: scan the keys in descending order for a prefix of the
   type. The key found is the longest registered one that leads the type.
   */
  function FindInstallerType(reg: Registry, t: string): (r: Option<string>)
    ensures r.None? <==> forall k :: k in Keys(reg) ==> !IsPrefix(k, t)
    ensures r.Some? ==> r.value in Keys(reg) && IsPrefix(r.value, t)
    ensures r.Some? ==> LongestPrefix(reg, t, r.value)
  {
    var sorted := SortDescending(Keys(reg));
    assert forall k :: k in Keys(reg) <==> k in sorted by {
      assert forall k :: k in Keys(reg) <==> k in multiset(Keys(reg));
      assert forall k :: k in sorted <==> k in multiset(sorted);
    }
    match FirstPrefix(sorted, t)
    case None => None
    case Some(i) =>
      FirstOfDescendingIsLongest(sorted, t, i);
      Some(sorted[i])
  }

  /** In a descending list, the first leading substring of `t` is the longest one. */
  lemma FirstOfDescendingIsLongest(sorted: seq<string>, t: string, i: nat)
    requires Descending(sorted) && i < |sorted| && IsPrefix(sorted[i], t)
    requires forall j :: 0 <= j < i ==> !IsPrefix(sorted[j], t)
    ensures forall k :: k in sorted && IsPrefix(k, t) ==> |k| <= |sorted[i]|
  {
    forall k | k in sorted && IsPrefix(k, t) ensures |k| <= |sorted[i]| {
      var j :| 0 <= j < |sorted| && sorted[j] == k;
      if i < j {
        AtLeastPrefixIsLonger(sorted[i], k, t);
      }
    }
  }

  /** Of two leading substrings of one string, the one not below the other is the longer. */
  lemma AtLeastPrefixIsLonger(a: string, b: string, t: string)
    requires IsPrefix(a, t) && IsPrefix(b, t) && !Below(a, b)
    ensures |b| <= |a|
  {
    if |b| > |a| {
      assert b[..|a|] == t[..|a|];
      ProperPrefixIsBelow(a, b);
    }
  }

  /**
   The descending scan returns exactly the longest registered prefix: when two
   keys both lead the type ("foo" and "foobar" for "foobar-plugin") the longer
   one is the larger in byte order and is met first.
   */
  lemma FindInstallerTypeIsLongest(reg: Registry, t: string, k: string)
    ensures FindInstallerType(reg, t) == Some(k) <==> LongestPrefix(reg, t, k)
  {
    var found := FindInstallerType(reg, t);
    if found.Some? {
      assert LongestPrefix(reg, t, found.value);
      if LongestPrefix(reg, t, k) {
        PrefixesOfSameLength(k, found.value, t);
      }
    }
  }

  /**
   The unanchored pattern `prefix-(k1|k2|...)` over the location keys, or
   `prefix-(\w+)` when the resolver has no locations.
   */
  predicate LocationPatternMatches(prefix: string, locations: set<string>, t: string)
  {
    if |locations| > 0 then
      exists k :: k in locations && Occurs(prefix + "-" + k, t)
    else
      exists i :: 0 <= i && i + |prefix| + 1 < |t| &&
        IsPrefix(prefix + "-", t[i..]) && IsWordChar(t[i + |prefix| + 1])
  }

  /** `supports`: a resolver is found and the location pattern matches the type. */
  predicate Supports(reg: Registry, t: string)
  {
    match FindInstallerType(reg, t)
    case None => false
    case Some(p) =>
      match Get(reg, p)
      case None => false
      case Some(res) => LocationPatternMatches(p, res.locations.Keys, t)
  }

  /**
   A type supported by the registry names a registered resolver by prefix and
   contains `prefix-location` for one of that resolver's locations (when it has any).
   */
  lemma SupportsNamesALocation(reg: Registry, t: string)
    requires Supports(reg, t)
    ensures exists p :: LongestPrefix(reg, t, p)
    ensures forall p, res :: LongestPrefix(reg, t, p) && Get(reg, p) == Some(res) && |res.locations| > 0 ==>
      exists k :: k in res.locations && Occurs(p + "-" + k, t)
  {
    var p := FindInstallerType(reg, t).value;
    FindInstallerTypeIsLongest(reg, t, p);
    forall p', res | LongestPrefix(reg, t, p') && Get(reg, p') == Some(res) && |res.locations| > 0
      ensures exists k :: k in res.locations && Occurs(p' + "-" + k, t)
    {
      FindInstallerTypeIsLongest(reg, t, p');
    }
  }

  /** Every declared `prefix-location` type of the longest matching resolver is supported. */
  lemma DeclaredTypeIsSupported(reg: Registry, p: string, res: Resolver, k: string)
    requires Get(reg, p) == Some(res) && k in res.locations
    requires LongestPrefix(reg, p + "-" + k, p)
    ensures Supports(reg, p + "-" + k)
  {
    var t := p + "-" + k;
    FindInstallerTypeIsLongest(reg, t, p);
    assert IsPrefix(t, t);
    assert |res.locations.Keys| > 0 by { assert k in res.locations.Keys; }
  }

  /**
   The converse of `SupportsNamesALocation`: a type in which `p-k` occurs
   anywhere, for the longest registered prefix `p` and a location `k` of its
   resolver, is supported (so `imscp-tool-extra` is).
   */
  lemma OccurrenceIsSupported(reg: Registry, t: string, p: string, res: Resolver, k: string)
    requires LongestPrefix(reg, t, p) && Get(reg, p) == Some(res)
    requires k in res.locations && Occurs(p + "-" + k, t)
    ensures Supports(reg, t)
  {
    FindInstallerTypeIsLongest(reg, t, p);
    assert k in res.locations.Keys;
  }
}
