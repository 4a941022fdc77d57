/**
 Plain string facts the resolution engine relies on: leading substrings,
 unanchored occurrences and the byte-wise order PHP uses to sort string keys.
 */
module Strings {

  /**
   A word character: PCRE's `\w` without the `u` modifier, which is also the
   `[A-Za-z0-9_]` class of template identifiers.
   */
  predicate IsWordChar(c: char)
  {
    ('A' <= c <= 'Z') || ('a' <= c <= 'z') || ('0' <= c <= '9') || c == '_'
  }

  /** UTF-8 encodes `c` in a single byte: `c` is ASCII. */
  predicate IsOneByte(c: char)
  {
    c as int < 0x80
  }

  /** `p` is a leading substring of `s` (`substr($s, 0, strlen($p)) === $p`). */
  predicate IsPrefix(p: string, s: string)
  {
    |p| <= |s| && s[..|p|] == p
  }

  /** The literal `p` occurs somewhere in `s`, scanning from the left. */
  predicate Occurs(p: string, s: string)
    decreases |s|
  {
    IsPrefix(p, s) || (|s| > 0 && Occurs(p, s[1..]))
  }

  /** The scan finds `p` exactly when some suffix of `s` starts with `p`. */
  lemma {:induction false} OccursIffSomePosition(p: string, s: string)
    ensures Occurs(p, s) <==> exists i :: 0 <= i <= |s| && IsPrefix(p, s[i..])
    decreases |s|
  {
    if Occurs(p, s) {
      if IsPrefix(p, s) {
        assert s[0..] == s;
      } else {
        OccursIffSomePosition(p, s[1..]);
        var j :| 0 <= j <= |s[1..]| && IsPrefix(p, s[1..][j..]);
        assert s[1..][j..] == s[1 + j..];
      }
    }
    if exists i :: 0 <= i <= |s| && IsPrefix(p, s[i..]) {
      var i :| 0 <= i <= |s| && IsPrefix(p, s[i..]);
      if i == 0 {
        assert s[0..] == s;
      } else {
        assert s[1..][i - 1..] == s[i..];
        OccursIffSomePosition(p, s[1..]);
      }
    }
  }

  /**
   Strict lexicographic order on code points. For UTF-8 text this agrees with
   PHP's byte-wise comparison of non-numeric string keys.
   */
  predicate Below(a: string, b: string)
    decreases |a|
  {
    if |a| == 0 then |b| > 0
    else if |b| == 0 then false
    else a[0] < b[0] || (a[0] == b[0] && Below(a[1..], b[1..]))
  }

  lemma {:induction false} BelowIrreflexive(a: string)
    ensures !Below(a, a)
    decreases |a|
  {
    if |a| > 0 {
      BelowIrreflexive(a[1..]);
    }
  }

  lemma {:induction false} BelowAsymmetric(a: string, b: string)
    ensures Below(a, b) ==> !Below(b, a)
    decreases |a|
  {
    if |a| > 0 && |b| > 0 {
      BelowAsymmetric(a[1..], b[1..]);
    }
  }

  lemma {:induction false} BelowTransitive(a: string, b: string, c: string)
    ensures Below(a, b) && Below(b, c) ==> Below(a, c)
    decreases |a|
  {
    if |a| > 0 && |b| > 0 && |c| > 0 {
      BelowTransitive(a[1..], b[1..], c[1..]);
    }
  }

  lemma {:induction false} BelowTotal(a: string, b: string)
    ensures a == b || Below(a, b) || Below(b, a)
    decreases |a|
  {
    if |a| > 0 && |b| > 0 && a[0] == b[0] {
      BelowTotal(a[1..], b[1..]);
      if a[1..] == b[1..] {
        assert a == [a[0]] + a[1..] && b == [b[0]] + b[1..];
      }
    }
  }

  /** A proper leading substring sorts before the longer string. */
  lemma {:induction false} ProperPrefixIsBelow(a: string, b: string)
    requires IsPrefix(a, b) && |a| < |b|
    ensures Below(a, b)
    decreases |a|
  {
    if |a| > 0 {
      assert a[0] == b[0];
      assert b[1..][..|a[1..]|] == a[1..];
      ProperPrefixIsBelow(a[1..], b[1..]);
    }
  }

  /** Two leading substrings of the same string are equal when equally long. */
  lemma PrefixesOfSameLength(a: string, b: string, s: string)
    requires IsPrefix(a, s) && IsPrefix(b, s) && |a| == |b|
    ensures a == b
  {
  }
}
