/**
 The install path of one package (`Installer::getInstallPath` delegating to
 `AbstractInstaller::getInstallPath`). In order: find the resolver by type
 prefix; split the pretty name into vendor and name; inflect; apply the
 package's `installer-name`; try the consumer's custom paths; otherwise look up
 the resolver's location for the subtype; render the chosen template.
 */
module Installer {
  import opened Wrappers
  import opened Strings
  import opened Template
  import opened Inflection
  import opened Resolvers
  import opened Disabling
  import opened TypeResolution
  import opened CustomPaths

  datatype PathError =
    | UnsupportedType(packageType: string)     // no registered prefix leads the type
    | UnsupportedSubtype(packageType: string)  // the resolver has no location for the subtype

  /** A package: pretty name, declared type, and its `installer-name` extra ("" when unset). */
  datatype Package = Package(prettyName: string, packageType: string, installerName: string)

  /** The root package's extras the engine reads. */
  datatype RootExtra = RootExtra(installerPaths: PathRules, installerDisable: DisableSetting)

  /** The longest leading part of `s` free of `c`. */
  function TakeUntil(s: string, c: char): (r: string)
    ensures IsPrefix(r, s) && c !in r
    ensures |r| < |s| ==> s[|r|] == c
    decreases |s|
  {
    if |s| == 0 || s[0] == c then []
    else
      var rest := TakeUntil(s[1..], c);
      assert s[..1 + |rest|] == [s[0]] + s[1..][..|rest|];
      [s[0]] + rest
  }

  /**
   `list($vendor, $name) = explode('/', $prettyName)` when the name holds a `/`:
   vendor is the first segment and name the SECOND one; otherwise vendor is ""
   and name the whole string.
   */
  function SplitName(prettyName: string): (r: (string, string))
    ensures '/' !in prettyName ==> r == ("", prettyName)
    ensures '/' in prettyName ==>
      && '/' !in r.0 && '/' !in r.1
      && IsPrefix(r.0 + "/" + r.1, prettyName)
      && (|r.0| + 1 + |r.1| < |prettyName| ==> prettyName[|r.0| + 1 + |r.1|] == '/')
  {
    if '/' in prettyName then
      var vendor := TakeUntil(prettyName, '/');
      assert |vendor| < |prettyName|;
      var rest := prettyName[|vendor| + 1..];
      var name := TakeUntil(rest, '/');
      JoinIsPrefix(prettyName, vendor, name);
      (vendor, name)
    else ("", prettyName)
  }

  /** The vendor, a `/` and the leading part of what follows, read back from the name. */
  lemma JoinIsPrefix(prettyName: string, vendor: string, name: string)
    requires IsPrefix(vendor, prettyName) && |vendor| < |prettyName| && prettyName[|vendor|] == '/'
    requires IsPrefix(name, prettyName[|vendor| + 1..])
    ensures IsPrefix(vendor + "/" + name, prettyName)
    ensures |vendor| + 1 + |name| < |prettyName| ==>
      prettyName[|vendor| + 1 + |name|] == prettyName[|vendor| + 1..][|name|]
  {
    var rest := prettyName[|vendor| + 1..];
    assert prettyName == prettyName[..|vendor|] + [prettyName[|vendor|]] + rest;
    assert prettyName[..|vendor| + 1 + |name|] == vendor + "/" + name;
  }

  lemma {:induction false} TakeUntilOfJoin(a: string, c: char, rest: string)
    requires c !in a && (rest == [] || rest[0] == c)
    ensures TakeUntil(a + rest, c) == a
    decreases |a|
  {
    if |a| > 0 {
      assert (a + rest)[1..] == a[1..] + rest;
      TakeUntilOfJoin(a[1..], c, rest);
    } else {
      assert a + rest == rest;
    }
  }

  /** Splitting inverts joining: `vendor/name` followed by nothing or by more `/`-segments. */
  lemma SplitNameOfJoin(vendor: string, name: string, tail: string)
    requires '/' !in vendor && '/' !in name
    requires tail == [] || tail[0] == '/'
    ensures SplitName(vendor + "/" + name + tail) == (vendor, name)
  {
    var s := vendor + "/" + name + tail;
    assert s == vendor + ("/" + name + tail);
    assert s[|vendor|] == '/';
    TakeUntilOfJoin(vendor, '/', "/" + name + tail);
    assert s[|vendor| + 1..] == name + tail;
    TakeUntilOfJoin(name, '/', tail);
  }

  /** The template variables: split, inflected, then `installer-name` applied. */
  function PackageVars(res: Resolver, pkg: Package): (v: Vars)
    ensures v.vendor == SplitName(pkg.prettyName).0
    ensures v.packageType == pkg.packageType
    ensures pkg.installerName != "" ==> v.name == pkg.installerName
    ensures pkg.installerName == "" && res.inflection == Verbatim ==> v.name == SplitName(pkg.prettyName).1
    ensures pkg.installerName == "" && res.inflection == LowerSnake ==>
      v.name == SnakeName(SplitName(pkg.prettyName).1)
  {
    var (vendor, name) := SplitName(pkg.prettyName);
    var vars := Inflect(res.inflection, Vars(name, vendor, pkg.packageType));
    if pkg.installerName != "" then vars.(name := pkg.installerName) else vars
  }

  /**
   `substr($type, strlen($installerType) + 1)` for a prefix that leads the
   type. Both functions count the bytes of the UTF-8 text, so the cut drops the
   prefix and one byte. When the character after the prefix is ASCII, that byte
   is the whole character and the rest of the type is the subtype. Otherwise
   the cut falls inside that character and the subtype starts with a UTF-8
   continuation byte, which no text starts with, so it names no location:
   `None` stands for such a subtype.
   */
  function Subtype(packageType: string, prefix: string): (r: Option<string>)
    ensures |prefix| < |packageType| ==> (r.Some? <==> IsOneByte(packageType[|prefix|]))
    ensures |prefix| < |packageType| && r.Some? ==> packageType == packageType[..|prefix| + 1] + r.value
    ensures |packageType| <= |prefix| ==> r == Some("")
  {
    if |packageType| <= |prefix| then Some("")
    else if IsOneByte(packageType[|prefix|]) then Some(packageType[|prefix| + 1..])
    else None
  }

  /** `isset($locations[$packageType])`: the resolver has a location for the package's subtype. */
  predicate HasLocation(res: Resolver, prefix: string, packageType: string)
    ensures HasLocation(res, prefix, packageType) && |prefix| < |packageType| ==> IsOneByte(packageType[|prefix|])
    ensures |packageType| <= |prefix| ==> (HasLocation(res, prefix, packageType) <==> "" in res.locations)
  {
    var sub := Subtype(packageType, prefix);
    sub.Some? && sub.value in res.locations
  }

  /** The default location of the resolver for the package's subtype. */
  function DefaultPath(res: Resolver, prefix: string, pkg: Package): (r: Result<string, PathError>)
    ensures r.Success? <==> HasLocation(res, prefix, pkg.packageType)
    ensures r.Failure? ==> r.error == UnsupportedSubtype(pkg.packageType)
  {
    if HasLocation(res, prefix, pkg.packageType) then
      Success(Render(res.locations[Subtype(pkg.packageType, prefix).value], PackageVars(res, pkg)))
    else Failure(UnsupportedSubtype(pkg.packageType))
  }

  /** `AbstractInstaller::getInstallPath`: a matching custom path first, else the default location. */
  function ResolverInstallPath(res: Resolver, prefix: string, pkg: Package, rules: PathRules)
    : (r: Result<string, PathError>)
    ensures r.Failure? ==> r.error == UnsupportedSubtype(pkg.packageType)
    ensures r.Failure? ==> !HasLocation(res, prefix, pkg.packageType)
  {
    var vendor := SplitName(pkg.prettyName).0;
    var custom := if |rules| > 0 then MapCustomInstallPaths(rules, pkg.prettyName, pkg.packageType, vendor)
                  else None;
    match custom
    case Some(t) => Success(Render(t, PackageVars(res, pkg)))
    case None => DefaultPath(res, prefix, pkg)
  }

  /** `Installer::getInstallPath`: an unsupported type fails before anything else is consulted. */
  function InstallPath(reg: Registry, rules: PathRules, pkg: Package): (r: Result<string, PathError>)
    ensures FindInstallerType(reg, pkg.packageType).None? <==> r == Failure(UnsupportedType(pkg.packageType))
  {
    match FindInstallerType(reg, pkg.packageType)
    case None => Failure(UnsupportedType(pkg.packageType))
    case Some(prefix) =>
      match Get(reg, prefix)
      case Some(res) => ResolverInstallPath(res, prefix, pkg, rules)
      case None => Failure(UnsupportedType(pkg.packageType))
  }

  /** One host session: disable resolvers as the root extras say, then resolve. */
  function SessionInstallPath(extra: RootExtra, pkg: Package): (r: Result<string, PathError>)
    ensures HasGlobal(Tokens(extra.installerDisable)) ==> r == Failure(UnsupportedType(pkg.packageType))
  {
    var reg := RemoveDisabledInstallers(DefaultRegistry, extra.installerDisable);
    InstallPath(reg, extra.installerPaths, pkg)
  }

  // ---------------------------------------------------------------------------
  // The source as written: an unmatched custom lookup yields "" instead of
  // falling through, because `false` is coerced to the declared `string`
  // return type and the caller's `!== false` test never fails.

  function ResolverInstallPathAsWritten(res: Resolver, prefix: string, pkg: Package, rules: PathRules)
    : (r: Result<string, PathError>)
    ensures |rules| > 0 ==> r.Success?
    ensures |rules| == 0 ==> r == DefaultPath(res, prefix, pkg)
  {
    var vendor := SplitName(pkg.prettyName).0;
    if |rules| > 0 then
      var custom := MapCustomInstallPathsAsWritten(rules, pkg.prettyName, pkg.packageType, vendor);
      Success(Render(custom, PackageVars(res, pkg)))
    else DefaultPath(res, prefix, pkg)
  }

  function InstallPathAsWritten(reg: Registry, rules: PathRules, pkg: Package): (r: Result<string, PathError>)
    ensures FindInstallerType(reg, pkg.packageType).None? ==> r == Failure(UnsupportedType(pkg.packageType))
  {
    match FindInstallerType(reg, pkg.packageType)
    case None => Failure(UnsupportedType(pkg.packageType))
    case Some(prefix) =>
      match Get(reg, prefix)
      case Some(res) => ResolverInstallPathAsWritten(res, prefix, pkg, rules)
      case None => Failure(UnsupportedType(pkg.packageType))
  }

  // ---------------------------------------------------------------------------
  // Precedence.

  /** A matching custom path wins, even when the subtype has no default location. */
  lemma CustomPathWins(reg: Registry, rules: PathRules, pkg: Package, prefix: string, res: Resolver, t: string)
    requires FindInstallerType(reg, pkg.packageType) == Some(prefix) && Get(reg, prefix) == Some(res)
    requires MapCustomInstallPaths(rules, pkg.prettyName, pkg.packageType, SplitName(pkg.prettyName).0) == Some(t)
    ensures InstallPath(reg, rules, pkg) == Success(Render(t, PackageVars(res, pkg)))
  {
  }

  /** Without a matching custom path the default location decides, or the subtype is unsupported. */
  lemma NoCustomMatchFallsThrough(reg: Registry, rules: PathRules, pkg: Package, prefix: string, res: Resolver)
    requires FindInstallerType(reg, pkg.packageType) == Some(prefix) && Get(reg, prefix) == Some(res)
    requires MapCustomInstallPaths(rules, pkg.prettyName, pkg.packageType, SplitName(pkg.prettyName).0).None?
    ensures InstallPath(reg, rules, pkg) ==
      if HasLocation(res, prefix, pkg.packageType) then
        Success(Render(res.locations[Subtype(pkg.packageType, prefix).value], PackageVars(res, pkg)))
      else Failure(UnsupportedSubtype(pkg.packageType))
  {
  }

  /** Custom paths that match nothing change nothing. */
  lemma UnmatchedRulesAreIgnored(reg: Registry, rules: PathRules, pkg: Package)
    requires MapCustomInstallPaths(rules, pkg.prettyName, pkg.packageType, SplitName(pkg.prettyName).0).None?
    ensures InstallPath(reg, rules, pkg) == InstallPath(reg, [], pkg)
  {
  }

  /**
   After the prefix, a one-byte separator is dropped whatever it is and the
   rest is the subtype; a wider separator leaves part of itself behind, and the
   subtype names no location.
   */
  lemma SubtypeAfterSeparator(prefix: string, sep: char, k: string)
    ensures Subtype(prefix + [sep] + k, prefix) == if IsOneByte(sep) then Some(k) else None
  {
    assert (prefix + [sep] + k)[|prefix|] == sep;
    assert (prefix + [sep] + k)[|prefix| + 1..] == k;
  }

  /** The type `prefix-k` of a location `k` of the matched resolver always resolves. */
  lemma DeclaredTypeResolves(reg: Registry, rules: PathRules, pkg: Package, prefix: string, res: Resolver, k: string)
    requires FindInstallerType(reg, pkg.packageType) == Some(prefix) && Get(reg, prefix) == Some(res)
    requires pkg.packageType == prefix + "-" + k && k in res.locations
    ensures InstallPath(reg, rules, pkg).Success?
  {
    SubtypeAfterSeparator(prefix, '-', k);
  }
}
