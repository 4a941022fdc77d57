/**
 What the built-in resolvers make of concrete package types: the iMSCP and
 Roundcube location tables, the `supports` answers, the effect of disabling,
 and the consumer overrides, each stated for all package names where the
 name is free.
 */
module ResolverPaths {
  import opened Wrappers
  import opened Strings
  import opened Template
  import opened Inflection
  import opened Resolvers
  import opened Disabling
  import opened TypeResolution
  import opened CustomPaths
  import opened Installer

  const NoRules: PathRules := []

  lemma NameIsIdent()
    ensures IsIdent("name")
  {
  }

  lemma ImscpTypeShape(k: string)
    ensures "imscp-" + k == "imscp" + ['-'] + k
    ensures ("imscp-" + k)[..5] == "imscp"
  {
  }

  /** Any type starting with "imscp" goes to the iMSCP resolver. */
  lemma ImscpPrefixFound(reg: Registry, t: string)
    requires IsPrefix("imscp", t)
    requires Keys(reg) == ["imscp", "roundcube"]
    ensures FindInstallerType(reg, t) == Some("imscp")
  {
    assert t[0] == 'i';
    assert !IsPrefix("roundcube", t) by { assert "roundcube"[0] == 'r'; }
    FindInstallerTypeIsLongest(reg, t, "imscp");
  }

  /** Any type starting with "roundcube" goes to the Roundcube resolver. */
  lemma RoundcubePrefixFound(reg: Registry, t: string)
    requires IsPrefix("roundcube", t)
    requires Keys(reg) == ["imscp", "roundcube"] || Keys(reg) == ["roundcube"]
    ensures FindInstallerType(reg, t) == Some("roundcube")
  {
    assert t[0] == 'r';
    assert !IsPrefix("imscp", t) by { assert "imscp"[0] == 'i'; }
    FindInstallerTypeIsLongest(reg, t, "roundcube");
  }

  /** The iMSCP locations are exactly plugin, theme and tool. */
  lemma ImscpLocations()
    ensures IMSCP.locations.Keys == {"plugin", "theme", "tool"}
    ensures IMSCP.inflection == Verbatim
    ensures Roundcube.locations.Keys == {"plugin"}
  {
  }

  /** A default location of the form `dir{$name}/` renders to the directory of the package name. */
  lemma OneMarkerLocation(reg: Registry, pkg: Package, prefix: string, res: Resolver, k: string, dir: string)
    requires FindInstallerType(reg, pkg.packageType) == Some(prefix) && Get(reg, prefix) == Some(res)
    requires Subtype(pkg.packageType, prefix) == Some(k) && k in res.locations
    requires res.locations[k] == dir + Marker("name") + "/" && '{' !in dir
    ensures InstallPath(reg, NoRules, pkg) == Success(dir + PackageVars(res, pkg).name + "/")
  {
    var vars := PackageVars(res, pkg);
    assert InstallPath(reg, NoRules, pkg) == Success(Render(res.locations[k], vars)) by {
      NoCustomMatchFallsThrough(reg, NoRules, pkg, prefix, res);
    }
    assert Render(dir + Marker("name") + "/", vars) == dir + vars.name + "/" by {
      NameIsIdent();
      RenderOneMarker(dir, "name", "/", vars);
    }
  }

  /** A subtype cut inside a multi-byte separator names no location, so the type is rejected. */
  lemma SplitSeparatorRejected(reg: Registry, pkg: Package, prefix: string, res: Resolver)
    requires FindInstallerType(reg, pkg.packageType) == Some(prefix) && Get(reg, prefix) == Some(res)
    requires Subtype(pkg.packageType, prefix).None?
    ensures InstallPath(reg, NoRules, pkg) == Failure(UnsupportedSubtype(pkg.packageType))
  {
    NoCustomMatchFallsThrough(reg, NoRules, pkg, prefix, res);
  }

  lemma ImscpTemplates(k: string, dir: string)
    requires (k, dir) in [("plugin", "plugins/"), ("theme", "theme/"), ("tool", "public/tools/")]
    ensures k in IMSCP.locations && IMSCP.locations[k] == dir + Marker("name") + "/" && '{' !in dir
  {
  }

  /**
   iMSCP packages land in `plugins/`, `theme/` or `public/tools/` under their
   name taken verbatim (or their `installer-name`), vendor or not. Any one-byte
   character after "imscp" is dropped unchecked, so `imscp_tool` resolves like
   `imscp-tool`; a wider one leaves bytes in the subtype, and the type is
   rejected.
   */
  lemma ImscpDefaultPath(prettyName: string, installerName: string, sep: char, k: string, dir: string)
    requires (k, dir) in [("plugin", "plugins/"), ("theme", "theme/"), ("tool", "public/tools/")]
    ensures var name := if installerName != "" then installerName else SplitName(prettyName).1;
      var t := "imscp" + [sep] + k;
      InstallPath(DefaultRegistry, NoRules, Package(prettyName, t, installerName))
        == if IsOneByte(sep) then Success(dir + name + "/") else Failure(UnsupportedSubtype(t))
  {
    var pkg := Package(prettyName, "imscp" + [sep] + k, installerName);
    DefaultRegistryWellFormed();
    assert pkg.packageType[..5] == "imscp";
    ImscpPrefixFound(DefaultRegistry, pkg.packageType);
    SubtypeAfterSeparator("imscp", sep, k);
    if IsOneByte(sep) {
      ImscpTemplates(k, dir);
      OneMarkerLocation(DefaultRegistry, pkg, "imscp", IMSCP, k, dir);
    } else {
      SplitSeparatorRejected(DefaultRegistry, pkg, "imscp", IMSCP);
    }
  }

  /** An iMSCP type whose subtype is not a location fails, whatever the package name. */
  lemma ImscpUnknownSubtype(prettyName: string, sep: char, k: string)
    requires k !in IMSCP.locations
    ensures var t := "imscp" + [sep] + k;
      InstallPath(DefaultRegistry, NoRules, Package(prettyName, t, "")) == Failure(UnsupportedSubtype(t))
  {
    var t := "imscp" + [sep] + k;
    DefaultRegistryWellFormed();
    assert t[..5] == "imscp";
    ImscpPrefixFound(DefaultRegistry, t);
    SubtypeAfterSeparator("imscp", sep, k);
  }

  /**
   Roundcube plugins land in `plugins/` under the inflected name (lower-case,
   `-` turned into `_`), unless `installer-name` gives the name as it is. As
   with iMSCP, a one-byte character after "roundcube" is not checked, and a
   wider one gets the type rejected.
   */
  lemma RoundcubePluginPath(prettyName: string, installerName: string, sep: char)
    ensures var name := if installerName != "" then installerName else SnakeName(SplitName(prettyName).1);
      var t := "roundcube" + [sep] + "plugin";
      InstallPath(DefaultRegistry, NoRules, Package(prettyName, t, installerName))
        == if IsOneByte(sep) then Success("plugins/" + name + "/") else Failure(UnsupportedSubtype(t))
  {
    var pkg := Package(prettyName, "roundcube" + [sep] + "plugin", installerName);
    RoundcubeSelected(pkg);
    SubtypeAfterSeparator("roundcube", sep, "plugin");
    if IsOneByte(sep) {
      RoundcubeTemplate();
      OneMarkerLocation(DefaultRegistry, pkg, "roundcube", Roundcube, "plugin", "plugins/");
    } else {
      SplitSeparatorRejected(DefaultRegistry, pkg, "roundcube", Roundcube);
    }
  }

  /** A type that `roundcube` leads selects the Roundcube record of the built-in table. */
  lemma RoundcubeSelected(pkg: Package)
    requires IsPrefix("roundcube", pkg.packageType)
    ensures FindInstallerType(DefaultRegistry, pkg.packageType) == Some("roundcube")
    ensures Get(DefaultRegistry, "roundcube") == Some(Roundcube)
  {
    DefaultRegistryWellFormed();
    RoundcubePrefixFound(DefaultRegistry, pkg.packageType);
  }

  lemma RoundcubeTemplate()
    ensures "plugin" in Roundcube.locations
    ensures Roundcube.locations["plugin"] == "plugins/" + Marker("name") + "/"
    ensures '{' !in "plugins/"
  {
  }

  /** Every `imscp-<location>` type is supported. */
  lemma ImscpTypeSupported(k: string)
    requires k in IMSCP.locations
    ensures Supports(DefaultRegistry, "imscp-" + k)
  {
    var t := "imscp-" + k;
    DefaultRegistryWellFormed();
    assert t == "imscp" + "-" + k;
    ImscpPrefixFound(DefaultRegistry, t);
    FindInstallerTypeIsLongest(DefaultRegistry, t, "imscp");
    DeclaredTypeIsSupported(DefaultRegistry, "imscp", IMSCP, k);
  }

  /** Every `roundcube-<location>` type is supported. */
  lemma RoundcubeTypeSupported(k: string)
    requires k in Roundcube.locations
    ensures Supports(DefaultRegistry, "roundcube-" + k)
  {
    var t := "roundcube-" + k;
    DefaultRegistryWellFormed();
    assert t == "roundcube" + "-" + k;
    RoundcubePrefixFound(DefaultRegistry, t);
    FindInstallerTypeIsLongest(DefaultRegistry, t, "roundcube");
    DeclaredTypeIsSupported(DefaultRegistry, "roundcube", Roundcube, k);
  }

  /**
   A type shorter than `imscp-tool`, the shortest `imscp-<location>`, names
   the iMSCP resolver but none of its locations (`imscp-foo`, say).
   */
  lemma ShortImscpTypeUnsupported(t: string)
    requires IsPrefix("imscp", t) && |t| < 10
    ensures !Supports(DefaultRegistry, t)
  {
    forall k | k in IMSCP.locations ensures !Occurs("imscp" + "-" + k, t) {
      NotOccursWhenLonger("imscp" + "-" + k, t);
    }
    NoImscpLocationOccurs(t);
  }

  /** A type that starts with neither `i` nor `r` (`foo-bar`, say) has no registered prefix. */
  lemma ForeignTypeUnsupported(t: string)
    requires |t| > 0 && t[0] != 'i' && t[0] != 'r'
    ensures !Supports(DefaultRegistry, t)
  {
    DefaultRegistryWellFormed();
    FirstCharacterDiffers("imscp", t);
    FirstCharacterDiffers("roundcube", t);
    assert FindInstallerType(DefaultRegistry, t).None?;
  }

  lemma FirstCharacterDiffers(p: string, s: string)
    requires |p| > 0 && |s| > 0 && p[0] != s[0]
    ensures !IsPrefix(p, s)
  {
    if |p| <= |s| {
      assert s[..|p|][0] == s[0];
    }
  }

  /**
   A type without a dash (`imscp_tool`, say) has no `imscp-<location>` in
   it, although it resolves (see ImscpDefaultPath).
   */
  lemma DashlessTypeUnsupported(t: string)
    requires IsPrefix("imscp", t) && '-' !in t
    ensures !Supports(DefaultRegistry, t)
  {
    forall k | k in IMSCP.locations ensures !Occurs("imscp" + "-" + k, t) {
      DashAfterPrefix("imscp", k);
      NoDashNoOccurrence("imscp" + "-" + k, t, 5);
    }
    NoImscpLocationOccurs(t);
  }

  lemma {:induction false} NotOccursWhenLonger(p: string, s: string)
    requires |p| > |s|
    ensures !Occurs(p, s)
    decreases |s|
  {
    if |s| > 0 {
      NotOccursWhenLonger(p, s[1..]);
    }
  }

  /** An iMSCP type is unsupported when no `imscp-<location>` occurs in it. */
  lemma NoImscpLocationOccurs(t: string)
    requires IsPrefix("imscp", t)
    requires forall k :: k in IMSCP.locations ==> !Occurs("imscp" + "-" + k, t)
    ensures !Supports(DefaultRegistry, t)
  {
    DefaultRegistryWellFormed();
    assert "plugin" in IMSCP.locations.Keys;
    ImscpPrefixFound(DefaultRegistry, t);
  }

  lemma DashAfterPrefix(p: string, k: string)
    ensures (p + "-" + k)[|p|] == '-'
  {
  }

  /** A pattern whose character at `at` never appears in `s` does not occur in `s`. */
  lemma NoDashNoOccurrence(p: string, s: string, at: nat)
    requires at < |p| && p[at] !in s
    ensures !Occurs(p, s)
  {
    OccursIffSomePosition(p, s);
    forall i | 0 <= i <= |s| ensures !IsPrefix(p, s[i..]) {
      if i + at < |s| {
        assert s[i..][at] == s[i + at];
        assert s[i + at] in s;
      }
    }
  }

  // ---------------------------------------------------------------------------
  // Disabling, as the root package's `installer-disable` drives it.

  /** Absent, `false`, or names that are not registered: the table stays whole. */
  lemma DisableNothing(names: seq<string>)
    requires forall i :: 0 <= i < |names| ==> names[i] != "imscp" && names[i] != "roundcube"
    requires forall i :: 0 <= i < |names| ==> names[i] != "1" && names[i] != "all" && names[i] != "*"
    ensures RemoveDisabledInstallers(DefaultRegistry, Unset) == DefaultRegistry
    ensures RemoveDisabledInstallers(DefaultRegistry, Single(Bool(false))) == DefaultRegistry
    ensures RemoveDisabledInstallers(DefaultRegistry, List(StrTokens(names))) == DefaultRegistry
  {
    var ts := StrTokens(names);
    assert !HasGlobal(ts);
    DefaultRegistryWellFormed();
    assert "imscp" !in Named(ts) && "roundcube" !in Named(ts);
    var r := Keep(DefaultRegistry, Named(ts));
    assert DefaultRegistry[1..][1..] == [];
    assert r == [DefaultRegistry[0]] + Keep(DefaultRegistry[1..], Named(ts));
  }

  function StrTokens(names: seq<string>): (ts: seq<Token>)
    ensures |ts| == |names|
    ensures forall i :: 0 <= i < |ts| ==> ts[i] == Str(names[i])
  {
    seq(|names|, i requires 0 <= i < |names| => Str(names[i]))
  }

  /** Naming the Roundcube resolver, alone or beside unknown names such as "true", keeps only iMSCP. */
  lemma DisableRoundcube(names: seq<string>)
    requires "roundcube" in names && "imscp" !in names
    requires forall i :: 0 <= i < |names| ==> names[i] != "1" && names[i] != "all" && names[i] != "*"
    ensures RemoveDisabledInstallers(DefaultRegistry, List(StrTokens(names))) == [("imscp", IMSCP)]
  {
    var ts := StrTokens(names);
    assert !HasGlobal(ts);
    var i :| 0 <= i < |names| && names[i] == "roundcube";
    assert ts[i].s == "roundcube";
    var n := Named(ts);
    assert "roundcube" in n && "imscp" !in n;
    var reg := DefaultRegistry;
    assert reg[1..][1..] == [];
    assert Keep(reg[1..], n) == Keep(reg[1..][1..], n) == [];
    assert Keep(reg, n) == [reg[0]] + Keep(reg[1..], n);
  }

  /** Naming the iMSCP resolver keeps only Roundcube. */
  lemma DisableImscp(names: seq<string>)
    requires "imscp" in names && "roundcube" !in names
    requires forall i :: 0 <= i < |names| ==> names[i] != "1" && names[i] != "all" && names[i] != "*"
    ensures RemoveDisabledInstallers(DefaultRegistry, List(StrTokens(names))) == [("roundcube", Roundcube)]
  {
    var ts := StrTokens(names);
    assert !HasGlobal(ts);
    var i :| 0 <= i < |names| && names[i] == "imscp";
    assert ts[i].s == "imscp";
    var n := Named(ts);
    assert "imscp" in n && "roundcube" !in n;
    var reg := DefaultRegistry;
    assert reg[1..][1..] == [];
    assert Keep(reg[1..], n) == [reg[1..][0]] + Keep(reg[1..][1..], n) == [reg[1]];
    assert Keep(reg, n) == Keep(reg[1..], n);
  }

  /** With every resolver disabled, every type is unsupported. */
  lemma DisabledEverything(rules: PathRules, pkg: Package, before: seq<Token>, t: Token, after: seq<Token>)
    requires IsGlobal(t)
    ensures SessionInstallPath(RootExtra(rules, Single(t)), pkg) == Failure(UnsupportedType(pkg.packageType))
    ensures SessionInstallPath(RootExtra(rules, List(before + [t] + after)), pkg)
         == Failure(UnsupportedType(pkg.packageType))
  {
    assert HasGlobal(Tokens(Single(t))) by {
      assert Tokens(Single(t))[0] == t;
    }
    assert HasGlobal(Tokens(List(before + [t] + after))) by {
      assert (before + [t] + after)[|before|] == t;
    }
  }

  /** With Roundcube disabled, iMSCP types still resolve to their default locations. */
  lemma DisableRoundcubeKeepsImscp(prettyName: string, names: seq<string>, k: string, dir: string)
    requires "roundcube" in names && "imscp" !in names
    requires forall i :: 0 <= i < |names| ==> names[i] != "1" && names[i] != "all" && names[i] != "*"
    requires (k, dir) in [("plugin", "plugins/"), ("theme", "theme/"), ("tool", "public/tools/")]
    ensures SessionInstallPath(RootExtra(NoRules, List(StrTokens(names))), Package(prettyName, "imscp-" + k, ""))
         == Success(dir + SplitName(prettyName).1 + "/")
  {
    var reg: Registry := [("imscp", IMSCP)];
    DisableRoundcube(names);
    assert Keys(reg) == ["imscp"];
    var pkg := Package(prettyName, "imscp-" + k, "");
    ImscpTypeShape(k);
    FindInstallerTypeIsLongest(reg, pkg.packageType, "imscp");
    assert Get(reg, "imscp") == Some(IMSCP);
    SubtypeAfterSeparator("imscp", '-', k);
    ImscpTemplates(k, dir);
    OneMarkerLocation(reg, pkg, "imscp", IMSCP, k, dir);
  }

  // ---------------------------------------------------------------------------
  // Consumer overrides.

  /**
   A custom path listed for `vendor/name` by its full name, by `type:` or by
   `vendor:` replaces the default location of any iMSCP type, even one whose
   subtype has no location, and is rendered with the package's name.
   */
  lemma CustomPathByToken(vendor: string, name: string, packageType: string, dir: string, tokens: seq<string>)
    requires '/' !in vendor && '/' !in name && '{' !in dir && IsPrefix("imscp", packageType)
    requires (vendor + "/" + name) in tokens || ("type:" + packageType) in tokens || ("vendor:" + vendor) in tokens
    ensures InstallPath(DefaultRegistry, [(dir + Marker("name") + "/", tokens)],
                        Package(vendor + "/" + name, packageType, ""))
         == Success(dir + name + "/")
  {
    DefaultRegistryWellFormed();
    ImscpPrefixFound(DefaultRegistry, packageType);
    assert RuleMatches(tokens, vendor + "/" + name, packageType, vendor);
    CustomPathByTokenIn(DefaultRegistry, "imscp", IMSCP, vendor, name, packageType, dir, tokens);
  }

  /** The same for any registry whose selected resolver keeps names as written. */
  lemma CustomPathByTokenIn(reg: Registry, prefix: string, res: Resolver,
                            vendor: string, name: string, packageType: string, dir: string, tokens: seq<string>)
    requires '/' !in vendor && '/' !in name && '{' !in dir
    requires FindInstallerType(reg, packageType) == Some(prefix) && Get(reg, prefix) == Some(res)
    requires res.inflection == Verbatim
    requires RuleMatches(tokens, vendor + "/" + name, packageType, vendor)
    ensures InstallPath(reg, [(dir + Marker("name") + "/", tokens)], Package(vendor + "/" + name, packageType, ""))
         == Success(dir + name + "/")
  {
    var pkg := Package(vendor + "/" + name, packageType, "");
    var t := dir + Marker("name") + "/";
    TokenSelectsRule(vendor, name, packageType, t, tokens);
    NameLocationRendered(dir, PackageVars(res, pkg));
    CustomPathWins(reg, [(t, tokens)], pkg, prefix, res, t);
  }

  /** A location `dir{$name}/` renders as `dir`, the name and a slash. */
  lemma NameLocationRendered(dir: string, vars: Vars)
    requires '{' !in dir
    ensures Render(dir + Marker("name") + "/", vars) == dir + vars.name + "/"
  {
    NameIsIdent();
    RenderOneMarker(dir, "name", "/", vars);
  }

  /** The one rule listing `vendor/name` by any of its three tokens is selected. */
  lemma TokenSelectsRule(vendor: string, name: string, packageType: string, t: string, tokens: seq<string>)
    requires '/' !in vendor && '/' !in name
    requires RuleMatches(tokens, vendor + "/" + name, packageType, vendor)
    ensures SplitName(vendor + "/" + name) == (vendor, name)
    ensures MapCustomInstallPaths([(t, tokens)], vendor + "/" + name, packageType, vendor) == Some(t)
  {
    assert vendor + "/" + name + [] == vendor + "/" + name;
    SplitNameOfJoin(vendor, name, []);
  }

  /**
   As written, custom paths that list only other packages still decide the
   path: the lookup answers "" and an iMSCP package is installed at "" instead
   of under its location directory, which is where the corrected lookup sends
   it when the separator is one byte (a wider one gets the type rejected).
   */
  lemma UnmatchedCustomPathsAsWritten(prettyName: string, rules: PathRules, sep: char, k: string, dir: string)
    requires (k, dir) in [("plugin", "plugins/"), ("theme", "theme/"), ("tool", "public/tools/")]
    requires |rules| > 0
    requires forall i :: 0 <= i < |rules| ==>
      !RuleMatches(rules[i].1, prettyName, "imscp" + [sep] + k, SplitName(prettyName).0)
    ensures InstallPathAsWritten(DefaultRegistry, rules, Package(prettyName, "imscp" + [sep] + k, "")) == Success("")
    ensures var t := "imscp" + [sep] + k;
      InstallPath(DefaultRegistry, rules, Package(prettyName, t, ""))
        == if IsOneByte(sep) then Success(dir + SplitName(prettyName).1 + "/") else Failure(UnsupportedSubtype(t))
  {
    var pkg := Package(prettyName, "imscp" + [sep] + k, "");
    var vendor := SplitName(prettyName).0;
    DefaultRegistryWellFormed();
    assert pkg.packageType[..5] == "imscp";
    ImscpPrefixFound(DefaultRegistry, pkg.packageType);
    assert MapCustomInstallPaths(rules, prettyName, pkg.packageType, vendor).None?;
    assert MapCustomInstallPathsAsWritten(rules, prettyName, pkg.packageType, vendor) == "";
    assert InstallPathAsWritten(DefaultRegistry, rules, pkg) == Success(Render("", PackageVars(IMSCP, pkg)));
    UnmatchedRulesAreIgnored(DefaultRegistry, rules, pkg);
    ImscpDefaultPath(prettyName, "", sep, k, dir);
  }
}
