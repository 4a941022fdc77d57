/**
 Per-resolver rewriting of the template variables before rendering
 (`inflectPackageVars`). The default leaves them alone; the Roundcube
 resolver turns the package name into a lower-case, underscore-separated one.
 */
module Inflection {
  import opened Template

  /** The inflection hook a resolver record carries. */
  datatype Inflection = Verbatim | LowerSnake

  predicate IsAsciiUpper(c: char)
  {
    'A' <= c <= 'Z'
  }

  /** PHP `strtolower` on one character: ASCII letters only. */
  function AsciiLower(c: char): (r: char)
    ensures !IsAsciiUpper(r)
    ensures IsAsciiUpper(c) ==> r as int == c as int + 32
    ensures !IsAsciiUpper(c) ==> r == c
  {
    if IsAsciiUpper(c) then (c as int + 32) as char else c
  }

  /** PHP `str_replace('-', '_', s)`. */
  function DashesToUnderscores(s: string): (r: string)
    decreases |s|
  {
    if |s| == 0 then [] else [if s[0] == '-' then '_' else s[0]] + DashesToUnderscores(s[1..])
  }

  /** PHP `strtolower(s)`. */
  function LowerCase(s: string): string
    decreases |s|
  {
    if |s| == 0 then [] else [AsciiLower(s[0])] + LowerCase(s[1..])
  }

  /** The Roundcube name inflection: `strtolower(str_replace('-', '_', name))`. */
  function SnakeName(s: string): string
  {
    LowerCase(DashesToUnderscores(s))
  }

  function Inflect(inflection: Inflection, vars: Vars): (r: Vars)
    ensures r.vendor == vars.vendor && r.packageType == vars.packageType
    ensures inflection == Verbatim ==> r == vars
  {
    match inflection
    case Verbatim => vars
    case LowerSnake => vars.(name := SnakeName(vars.name))
  }

  /**
   The Roundcube name keeps its length and, position by position, holds `_`
   where the input held `-` and the ASCII lower-case of every other character.
   */
  lemma {:induction false} SnakeNamePointwise(s: string)
    ensures |SnakeName(s)| == |s|
    ensures forall i :: 0 <= i < |s| ==>
      SnakeName(s)[i] == (if s[i] == '-' then '_' else AsciiLower(s[i]))
    decreases |s|
  {
    if |s| > 0 {
      SnakeNamePointwise(s[1..]);
      var d := DashesToUnderscores(s);
      assert d[1..] == DashesToUnderscores(s[1..]);
      assert SnakeName(s) == [AsciiLower(d[0])] + SnakeName(s[1..]);
      forall i | 0 <= i < |s|
        ensures SnakeName(s)[i] == (if s[i] == '-' then '_' else AsciiLower(s[i]))
      {
        if i > 0 {
          assert SnakeName(s)[i] == SnakeName(s[1..])[i - 1];
          assert s[1..][i - 1] == s[i];
        }
      }
    }
  }

  /** The Roundcube name contains no `-` and no ASCII upper-case letter. */
  lemma SnakeNameIsNormal(s: string)
    ensures '-' !in SnakeName(s)
    ensures forall i :: 0 <= i < |SnakeName(s)| ==> !IsAsciiUpper(SnakeName(s)[i])
  {
    SnakeNamePointwise(s);
    forall i | 0 <= i < |s| ensures SnakeName(s)[i] != '-' {
      if s[i] != '-' {
        assert !IsAsciiUpper(s[i]) ==> AsciiLower(s[i]) == s[i];
      }
    }
  }

  /** Inflecting an already inflected name changes nothing. */
  lemma SnakeNameIdempotent(s: string)
    ensures SnakeName(SnakeName(s)) == SnakeName(s)
  {
    var t := SnakeName(s);
    SnakeNamePointwise(s);
    SnakeNamePointwise(t);
    SnakeNameIsNormal(s);
    forall i | 0 <= i < |t| ensures SnakeName(t)[i] == t[i] {
      assert t[i] != '-' && !IsAsciiUpper(t[i]);
    }
  }
}
