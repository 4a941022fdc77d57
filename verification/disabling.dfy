/**
 Disabling resolvers from the root package's `installer-disable` extra
 (`Installer::removeDisabledInstallers`). The setting may be absent, a single
 value or a list of values; a value is a boolean or a string.
 */
module Disabling {
  import opened Resolvers

  datatype Token = Bool(b: bool) | Str(s: string)

  /** Absent (or null), a single value, or a list of values. */
  datatype DisableSetting = Unset | Single(token: Token) | List(tokens: seq<Token>)

  /** PHP's `(string)` cast, which `array_intersect` compares by. */
  function StringForm(t: Token): string
  {
    match t
    case Bool(b) => if b then "1" else ""
    case Str(s) => s
  }

  /**
   Equal as a string to one of `true`, `"all"` or `"*"`: exactly `true` and
   the strings "1", "all" and "*".
   */
  predicate IsGlobal(t: Token)
    ensures IsGlobal(t) <==> t == Bool(true) || t == Str("1") || t == Str("all") || t == Str("*")
  {
    StringForm(t) == "1" || StringForm(t) == "all" || StringForm(t) == "*"
  }

  /** The setting as a list: a single value becomes a one-element list. */
  function Tokens(setting: DisableSetting): seq<Token>
  {
    match setting
    case Unset => []
    case Single(t) => [t]
    case List(ts) => ts
  }

  predicate HasGlobal(ts: seq<Token>)
  {
    exists i :: 0 <= i < |ts| && IsGlobal(ts[i])
  }

  /** The strings of a token list, the names it may disable. */
  ghost function Named(ts: seq<Token>): set<string>
  {
    set i | 0 <= i < |ts| && ts[i].Str? :: ts[i].s
  }

  /** Reference definition: the entries whose key is not in `names`, in order. */
  function Keep(reg: Registry, names: set<string>): (r: Registry)
    ensures forall e :: e in r <==> e in reg && e.0 !in names
    decreases |reg|
  {
    if |reg| == 0 then []
    else if reg[0].0 in names then Keep(reg[1..], names)
    else [reg[0]] + Keep(reg[1..], names)
  }

  /** `unset($supportedTypes[$key])`. */
  function Unset(reg: Registry, key: string): (r: Registry)
    ensures forall e :: e in r <==> e in reg && e.0 != key
    decreases |reg|
  {
    if |reg| == 0 then []
    else if reg[0].0 == key then Unset(reg[1..], key)
    else [reg[0]] + Unset(reg[1..], key)
  }

  /** The `foreach` over the list: each string token unsets its key. */
  function UnsetEach(reg: Registry, ts: seq<Token>): (r: Registry)
    ensures forall e :: e in r ==> e in reg
    ensures forall i :: 0 <= i < |ts| && ts[i].Str? ==> forall e :: e in r ==> e.0 != ts[i].s
    decreases |ts|
  {
    if |ts| == 0 then reg
    else UnsetEach(if ts[0].Str? then Unset(reg, ts[0].s) else reg, ts[1..])
  }

  function RemoveDisabledInstallers(reg: Registry, setting: DisableSetting): (r: Registry)
    ensures setting.Unset? || setting == Single(Bool(false)) ==> r == reg
    ensures HasGlobal(Tokens(setting)) ==> r == []
    ensures !HasGlobal(Tokens(setting)) ==> r == Keep(reg, Named(Tokens(setting)))
  {
    if setting.Unset? || setting == Single(Bool(false)) then
      assert Named(Tokens(setting)) == {};
      KeepNothing(reg);
      reg
    else
      var ts := Tokens(setting);
      if HasGlobal(ts) then []
      else
        UnsetEachIsKeep(reg, ts);
        UnsetEach(reg, ts)
  }

  // ---------------------------------------------------------------------------

  lemma {:induction false} KeepNothing(reg: Registry)
    ensures Keep(reg, {}) == reg
    decreases |reg|
  {
    if |reg| > 0 {
      KeepNothing(reg[1..]);
    }
  }

  lemma {:induction false} UnsetIsKeep(reg: Registry, key: string)
    ensures Unset(reg, key) == Keep(reg, {key})
    decreases |reg|
  {
    if |reg| > 0 {
      UnsetIsKeep(reg[1..], key);
    }
  }

  lemma {:induction false} KeepKeep(reg: Registry, a: set<string>, b: set<string>)
    ensures Keep(Keep(reg, a), b) == Keep(reg, a + b)
    decreases |reg|
  {
    if |reg| > 0 {
      KeepKeep(reg[1..], a, b);
    }
  }

  /** Unsetting the named keys one by one keeps exactly the unnamed entries. */
  lemma {:induction false} UnsetEachIsKeep(reg: Registry, ts: seq<Token>)
    ensures UnsetEach(reg, ts) == Keep(reg, Named(ts))
    decreases |ts|
  {
    if |ts| == 0 {
      assert Named(ts) == {};
      KeepNothing(reg);
    } else {
      var first: set<string> := if ts[0].Str? then {ts[0].s} else {};
      var reg' := if ts[0].Str? then Unset(reg, ts[0].s) else reg;
      if ts[0].Str? {
        UnsetIsKeep(reg, ts[0].s);
      } else {
        KeepNothing(reg);
      }
      assert reg' == Keep(reg, first);
      UnsetEachIsKeep(reg', ts[1..]);
      KeepKeep(reg, first, Named(ts[1..]));
      NamedCons(ts);
    }
  }

  lemma NamedCons(ts: seq<Token>)
    requires |ts| > 0
    ensures Named(ts) == (if ts[0].Str? then {ts[0].s} else {}) + Named(ts[1..])
  {
    var first: set<string> := if ts[0].Str? then {ts[0].s} else {};
    forall n | n in Named(ts) ensures n in first + Named(ts[1..]) {
      var i :| 0 <= i < |ts| && ts[i].Str? && ts[i].s == n;
      if i > 0 {
        assert ts[1..][i - 1] == ts[i];
      }
    }
    forall n | n in Named(ts[1..]) ensures n in Named(ts) {
      var i :| 0 <= i < |ts[1..]| && ts[1..][i].Str? && ts[1..][i].s == n;
      assert ts[i + 1] == ts[1..][i];
    }
  }

  /** A single value is treated exactly like the one-element list holding it. */
  lemma SingleIsOneElementList(reg: Registry, t: Token)
    ensures RemoveDisabledInstallers(reg, Single(t)) == RemoveDisabledInstallers(reg, List([t]))
  {
    if t == Bool(false) {
      assert !HasGlobal([t]);
      assert Named([t]) == {};
    }
  }

  /** A global token disables everything wherever it sits in the list. */
  lemma GlobalAnywhereDisablesAll(reg: Registry, before: seq<Token>, t: Token, after: seq<Token>)
    requires IsGlobal(t)
    ensures RemoveDisabledInstallers(reg, List(before + [t] + after)) == []
  {
    var ts := before + [t] + after;
    assert ts[|before|] == t;
  }

  /** `true` is global (its string form is "1", so the string "1" is too); the string "true" is not. */
  lemma GlobalTokens()
    ensures IsGlobal(Bool(true)) && IsGlobal(Str("1")) && IsGlobal(Str("all")) && IsGlobal(Str("*"))
    ensures !IsGlobal(Bool(false)) && !IsGlobal(Str("true"))
  {
  }

  /** Disabling keeps keys unique. */
  lemma {:induction false} KeepDistinct(reg: Registry, names: set<string>)
    requires DistinctKeys(reg)
    ensures DistinctKeys(Keep(reg, names))
    decreases |reg|
  {
    if |reg| > 0 {
      assert DistinctKeys(reg[1..]);
      KeepDistinct(reg[1..], names);
      var rest := Keep(reg[1..], names);
      forall e | e in rest ensures e.0 != reg[0].0 {
        var j :| 0 <= j < |reg[1..]| && reg[1..][j] == e;
        assert reg[j + 1] == e;
      }
      if reg[0].0 !in names {
        var r := [reg[0]] + rest;
        forall i, j | 0 <= i < j < |r| ensures r[i].0 != r[j].0 {
          if i == 0 {
            assert r[j] == rest[j - 1] && r[j] in rest;
          } else {
            assert r[i] == rest[i - 1] && r[j] == rest[j - 1];
          }
        }
      }
    }
  }
}
