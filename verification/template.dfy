/**
 Path templates (`AbstractInstaller::templatePath`). A template names package
 variables with `{$ident}` markers, where `ident` is made of ASCII letters,
 digits and `_`. Rendering collects the markers of the ORIGINAL template in
 order of occurrence and then, for each one in turn, replaces every occurrence
 of that marker in the CURRENT string by the variable's value. Values written
 by an earlier step can therefore be rewritten by a later one.
 */
module Template {
  import opened Wrappers
  import opened Strings

  /** The variables a template may use: PHP's `compact('name', 'vendor', 'type')`. */
  datatype Vars = Vars(name: string, vendor: string, packageType: string)

  /** The value a marker stands for; any other identifier renders as "". */
  function Lookup(vars: Vars, id: string): string
  {
    if id == "name" then vars.name
    else if id == "vendor" then vars.vendor
    else if id == "type" then vars.packageType
    else ""
  }

  /** An identifier of the marker pattern: word characters only. */
  predicate IsIdent(id: string)
  {
    forall i :: 0 <= i < |id| ==> IsWordChar(id[i])
  }

  /** The marker text `{$id}`. */
  function Marker(id: string): string
  {
    "{$" + id + "}"
  }

  /** Length of the longest run of identifier characters at the start of `s`. */
  function IdentRun(s: string): (n: nat)
    ensures n <= |s|
    ensures IsIdent(s[..n])
    ensures n < |s| ==> !IsWordChar(s[n])
    decreases |s|
  {
    if |s| > 0 && IsWordChar(s[0]) then
      var n := 1 + IdentRun(s[1..]);
      assert s[..n] == [s[0]] + s[1..][..n - 1];
      n
    else 0
  }

  /** The identifier of the marker `s` starts with, if it starts with one. */
  function MarkerAt(s: string): (r: Option<string>)
    ensures r.Some? ==> IsIdent(r.value) && IsPrefix(Marker(r.value), s)
  {
    if |s| >= 2 && s[0] == '{' && s[1] == '$' then
      var n := IdentRun(s[2..]);
      if 2 + n < |s| && s[2 + n] == '}' then
        var id := s[2..2 + n];
        assert id == s[2..][..n];
        assert s[..|Marker(id)|] == Marker(id);
        Some(id)
      else None
    else None
  }

  /** The identifiers of all markers, left to right (`preg_match_all`). */
  function Placeholders(s: string): (ids: seq<string>)
    ensures forall i :: 0 <= i < |ids| ==> IsIdent(ids[i])
    decreases |s|
  {
    if |s| == 0 then []
    else match MarkerAt(s)
      case Some(id) => [id] + Placeholders(s[|Marker(id)|..])
      case None => Placeholders(s[1..])
  }

  /** PHP `str_replace` for one non-empty needle: left to right, replaced text is not rescanned. */
  function ReplaceAll(s: string, needle: string, rep: string): (r: string)
    requires |needle| > 0
    ensures !Occurs(needle, s) ==> r == s
    decreases |s|
  {
    if |s| == 0 then []
    else if IsPrefix(needle, s) then rep + ReplaceAll(s[|needle|..], needle, rep)
    else [s[0]] + ReplaceAll(s[1..], needle, rep)
  }

  /** The loop over the collected markers: one replace-all per marker, in order. */
  function ReplaceEach(ids: seq<string>, s: string, vars: Vars): string
    decreases |ids|
  {
    if |ids| == 0 then s
    else ReplaceEach(ids[1..], ReplaceAll(s, Marker(ids[0]), Lookup(vars, ids[0])), vars)
  }

  /** `templatePath`: a template without `{` is returned as it is. */
  function Render(t: string, vars: Vars): (r: string)
    ensures '{' !in t ==> r == t
  {
    if '{' !in t then t else ReplaceEach(Placeholders(t), t, vars)
  }

  // ---------------------------------------------------------------------------
  // An independent reading of templates: a sequence of literal text and markers,
  // expanded in a single left-to-right pass.

  datatype Segment = Text(text: string) | Var(id: string)

  /** Every `{` of the flattened template opens a marker. */
  ghost predicate WellFormed(segs: seq<Segment>)
  {
    forall i :: 0 <= i < |segs| ==>
      match segs[i]
      case Text(t) => '{' !in t
      case Var(id) => IsIdent(id)
  }

  function Piece(seg: Segment): string
  {
    match seg
    case Text(t) => t
    case Var(id) => Marker(id)
  }

  function Flatten(segs: seq<Segment>): string
    decreases |segs|
  {
    if |segs| == 0 then [] else Piece(segs[0]) + Flatten(segs[1..])
  }

  /** One-pass substitution: each marker becomes its variable's value. */
  function Expand(segs: seq<Segment>, vars: Vars): string
    decreases |segs|
  {
    if |segs| == 0 then []
    else
      match segs[0]
      case Text(t) => t + Expand(segs[1..], vars)
      case Var(id) => Lookup(vars, id) + Expand(segs[1..], vars)
  }

  function Ids(segs: seq<Segment>): seq<string>
    decreases |segs|
  {
    if |segs| == 0 then []
    else
      match segs[0]
      case Text(_) => Ids(segs[1..])
      case Var(id) => [id] + Ids(segs[1..])
  }

  /** Every marker of `x` becomes the literal `v`. */
  function Fill(segs: seq<Segment>, x: string, v: string): seq<Segment>
    decreases |segs|
  {
    if |segs| == 0 then []
    else
      var head := if segs[0] == Var(x) then Text(v) else segs[0];
      [head] + Fill(segs[1..], x, v)
  }

  /** No value can open a new marker. */
  predicate BraceFree(vars: Vars)
  {
    '{' !in vars.name && '{' !in vars.vendor && '{' !in vars.packageType
  }

  // ---------------------------------------------------------------------------
  // Scanning facts.

  lemma {:induction false} PlaceholdersSkipText(a: string, rest: string)
    requires '{' !in a
    ensures Placeholders(a + rest) == Placeholders(rest)
    decreases |a|
  {
    if |a| > 0 {
      assert (a + rest)[1..] == a[1..] + rest;
      PlaceholdersSkipText(a[1..], rest);
    } else {
      assert a + rest == rest;
    }
  }

  lemma {:induction false} IdentRunStopsAtBrace(id: string, rest: string)
    requires IsIdent(id)
    ensures IdentRun(id + "}" + rest) == |id|
    decreases |id|
  {
    if |id| > 0 {
      assert (id + "}" + rest)[1..] == id[1..] + "}" + rest;
      IdentRunStopsAtBrace(id[1..], rest);
    }
  }

  lemma PlaceholdersReadMarker(id: string, rest: string)
    requires IsIdent(id)
    ensures Placeholders(Marker(id) + rest) == [id] + Placeholders(rest)
  {
    var s := Marker(id) + rest;
    assert s[2..] == id + "}" + rest;
    IdentRunStopsAtBrace(id, rest);
    assert s[2..2 + |id|] == id;
    assert MarkerAt(s) == Some(id);
    assert s[|Marker(id)|..] == rest;
  }

  /** Scanning a well-formed template finds exactly its markers, in order. */
  lemma {:induction false} PlaceholdersOfFlatten(segs: seq<Segment>)
    requires WellFormed(segs)
    ensures Placeholders(Flatten(segs)) == Ids(segs)
    decreases |segs|
  {
    if |segs| > 0 {
      assert WellFormed(segs[1..]) by {
        forall i | 0 <= i < |segs[1..]| ensures segs[1..][i] == segs[i + 1] { }
      }
      PlaceholdersOfFlatten(segs[1..]);
      match segs[0]
      case Text(t) =>
        assert WellFormed(segs) ==> '{' !in t by { assert segs[0] == Text(t); }
        PlaceholdersSkipText(t, Flatten(segs[1..]));
      case Var(id) =>
        assert IsIdent(id) by { assert segs[0] == Var(id); }
        PlaceholdersReadMarker(id, Flatten(segs[1..]));
    }
  }

  // ---------------------------------------------------------------------------
  // Replacement facts.

  lemma {:induction false} ReplaceAllSkipsText(a: string, rest: string, needle: string, rep: string)
    requires |needle| > 0 && needle[0] == '{' && '{' !in a
    ensures ReplaceAll(a + rest, needle, rep) == a + ReplaceAll(rest, needle, rep)
    decreases |a|
  {
    if |a| > 0 {
      assert (a + rest)[0] == a[0];
      assert !IsPrefix(needle, a + rest);
      assert (a + rest)[1..] == a[1..] + rest;
      ReplaceAllSkipsText(a[1..], rest, needle, rep);
      assert a == [a[0]] + a[1..];
    } else {
      assert a + rest == rest;
    }
  }

  /** The marker of one identifier never starts the marker of another. */
  lemma MarkerNotPrefix(x: string, y: string, rest: string)
    requires IsIdent(x) && IsIdent(y) && x != y
    ensures !IsPrefix(Marker(x), Marker(y) + rest)
  {
    var s := Marker(y) + rest;
    if |Marker(x)| <= |s| {
      if |x| < |y| {
        assert IsWordChar(y[|x|]);
        assert s[..|Marker(x)|][2 + |x|] == y[|x|];
        assert s[..|Marker(x)|][2 + |x|] != Marker(x)[2 + |x|];
      } else if |x| > |y| {
        assert IsWordChar(x[|y|]);
        assert s[..|Marker(x)|][2 + |y|] == '}';
        assert s[..|Marker(x)|][2 + |y|] != Marker(x)[2 + |y|];
      } else {
        assert s[..|Marker(x)|][2..2 + |x|] == y;
        assert Marker(x)[2..2 + |x|] == x;
      }
    }
  }

  lemma ReplaceAllAtMarker(y: string, rest: string, x: string, v: string)
    requires IsIdent(x) && IsIdent(y)
    ensures ReplaceAll(Marker(y) + rest, Marker(x), v)
         == (if y == x then v else Marker(y)) + ReplaceAll(rest, Marker(x), v)
  {
    var s := Marker(y) + rest;
    if y == x {
      assert s[..|Marker(x)|] == Marker(x);
      assert s[|Marker(x)|..] == rest;
    } else {
      ReplaceAllPastOtherMarker(y, rest, x, v);
    }
  }

  /** After its `{`, a marker holds no further `{`. */
  lemma MarkerTailBraceFree(y: string)
    requires IsIdent(y)
    ensures '{' !in "$" + y + "}"
  {
    forall i | 0 <= i < |"$" + y + "}"| ensures ("$" + y + "}")[i] != '{' {
      if 1 <= i < 1 + |y| {
        assert ("$" + y + "}")[i] == y[i - 1];
        assert IsWordChar(y[i - 1]);
      }
    }
  }

  lemma ReplaceAllPastOtherMarker(y: string, rest: string, x: string, v: string)
    requires IsIdent(x) && IsIdent(y) && x != y
    ensures ReplaceAll(Marker(y) + rest, Marker(x), v) == Marker(y) + ReplaceAll(rest, Marker(x), v)
  {
    var s := Marker(y) + rest;
    MarkerNotPrefix(x, y, rest);
    assert s[1..] == ("$" + y + "}") + rest;
    MarkerTailBraceFree(y);
    ReplaceAllSkipsText("$" + y + "}", rest, Marker(x), v);
    assert Marker(y) == "{" + ("$" + y + "}");
  }

  /** Replacing the markers of `x` in a well-formed template fills them in. */
  lemma {:induction false} ReplaceAllFills(segs: seq<Segment>, x: string, v: string)
    requires WellFormed(segs) && IsIdent(x)
    ensures ReplaceAll(Flatten(segs), Marker(x), v) == Flatten(Fill(segs, x, v))
    decreases |segs|
  {
    if |segs| > 0 {
      assert WellFormed(segs[1..]) by {
        forall i | 0 <= i < |segs[1..]| ensures segs[1..][i] == segs[i + 1] { }
      }
      ReplaceAllFills(segs[1..], x, v);
      var rest := Flatten(segs[1..]);
      match segs[0]
      case Text(t) =>
        assert '{' !in t by { assert segs[0] == Text(t); }
        ReplaceAllSkipsText(t, rest, Marker(x), v);
      case Var(y) =>
        assert IsIdent(y) by { assert segs[0] == Var(y); }
        ReplaceAllAtMarker(y, rest, x, v);
    }
  }

  lemma {:induction false} FillKeepsShape(segs: seq<Segment>, x: string, v: string, vars: Vars)
    requires WellFormed(segs) && '{' !in v && v == Lookup(vars, x)
    ensures WellFormed(Fill(segs, x, v))
    ensures Expand(Fill(segs, x, v), vars) == Expand(segs, vars)
    ensures forall y :: y in Ids(Fill(segs, x, v)) ==> y in Ids(segs) && y != x
    decreases |segs|
  {
    if |segs| > 0 {
      assert WellFormed(segs[1..]) by {
        forall i | 0 <= i < |segs[1..]| ensures segs[1..][i] == segs[i + 1] { }
      }
      FillKeepsShape(segs[1..], x, v, vars);
      var f := Fill(segs, x, v);
      assert f[1..] == Fill(segs[1..], x, v);
      assert WellFormed(f) by {
        forall i | 0 <= i < |f|
          ensures match f[i] case Text(t) => '{' !in t case Var(id) => IsIdent(id)
        {
          if i > 0 {
            assert f[i] == f[1..][i - 1];
          } else {
            assert segs[0] == Var(x) || f[0] == segs[0];
          }
        }
      }
    }
  }

  lemma {:induction false} NoIdsFlattenIsExpand(segs: seq<Segment>, vars: Vars)
    requires Ids(segs) == []
    ensures Flatten(segs) == Expand(segs, vars)
    decreases |segs|
  {
    if |segs| > 0 {
      NoIdsFlattenIsExpand(segs[1..], vars);
    }
  }

  lemma {:induction false} IdsShowBrace(segs: seq<Segment>)
    requires Ids(segs) != []
    ensures '{' in Flatten(segs)
    decreases |segs|
  {
    if segs[0].Var? {
      assert Flatten(segs)[0] == '{';
    } else {
      IdsShowBrace(segs[1..]);
      var i :| 0 <= i < |Flatten(segs[1..])| && Flatten(segs[1..])[i] == '{';
      assert Flatten(segs)[|segs[0].text| + i] == '{';
    }
  }

  /** Replacing each marker of `ids` in turn completes the one-pass substitution. */
  lemma {:induction false} ReplaceEachExpands(ids: seq<string>, segs: seq<Segment>, vars: Vars)
    requires WellFormed(segs) && BraceFree(vars)
    requires forall i :: 0 <= i < |ids| ==> IsIdent(ids[i])
    requires forall y :: y in Ids(segs) ==> y in ids
    ensures ReplaceEach(ids, Flatten(segs), vars) == Expand(segs, vars)
    decreases |ids|
  {
    if |ids| == 0 {
      assert |Ids(segs)| > 0 ==> Ids(segs)[0] in Ids(segs);
      NoIdsFlattenIsExpand(segs, vars);
    } else {
      var x := ids[0];
      var v := Lookup(vars, x);
      ReplaceAllFills(segs, x, v);
      FillKeepsShape(segs, x, v, vars);
      var segs' := Fill(segs, x, v);
      forall y | y in Ids(segs') ensures y in ids[1..] {
        assert y in ids && y != ids[0];
      }
      ReplaceEachExpands(ids[1..], segs', vars);
    }
  }

  /**
   For a template in which every `{` opens a marker, and values that contain
   no `{`, the sequential replacement equals one-pass substitution: each marker
   is replaced by its value and all other text is kept.
   */
  lemma RenderIsSubstitution(segs: seq<Segment>, vars: Vars)
    requires WellFormed(segs) && BraceFree(vars)
    ensures Render(Flatten(segs), vars) == Expand(segs, vars)
  {
    var t := Flatten(segs);
    if '{' !in t {
      if Ids(segs) != [] {
        IdsShowBrace(segs);
      }
      NoIdsFlattenIsExpand(segs, vars);
    } else {
      PlaceholdersOfFlatten(segs);
      ReplaceEachExpands(Ids(segs), segs, vars);
    }
  }

  /**
   A template with a single marker between `{`-free text renders to that text
   around the variable's value, whatever the value contains.
   */
  lemma RenderOneMarker(a: string, id: string, b: string, vars: Vars)
    requires '{' !in a && '{' !in b && IsIdent(id)
    ensures Render(a + Marker(id) + b, vars) == a + Lookup(vars, id) + b
  {
    var t := a + Marker(id) + b;
    var v := Lookup(vars, id);
    OneMarkerPlaceholders(a, id, b);
    OneMarkerReplaced(a, id, b, v);
    assert ReplaceEach([id], t, vars) == ReplaceEach([], ReplaceAll(t, Marker(id), v), vars);
  }

  lemma OneMarkerPlaceholders(a: string, id: string, b: string)
    requires '{' !in a && '{' !in b && IsIdent(id)
    ensures Placeholders(a + Marker(id) + b) == [id]
    ensures '{' in a + Marker(id) + b
  {
    var t := a + Marker(id) + b;
    assert t == a + (Marker(id) + b);
    assert t[|a|] == '{';
    PlaceholdersSkipText(a, Marker(id) + b);
    PlaceholdersReadMarker(id, b);
    PlaceholdersSkipText(b, []);
    assert b + [] == b;
  }

  lemma OneMarkerReplaced(a: string, id: string, b: string, v: string)
    requires '{' !in a && '{' !in b && IsIdent(id)
    ensures ReplaceAll(a + Marker(id) + b, Marker(id), v) == a + v + b
  {
    var t := a + Marker(id) + b;
    assert t == a + (Marker(id) + b);
    ReplaceAllSkipsText(a, Marker(id) + b, Marker(id), v);
    ReplaceAllAtMarker(id, b, id, v);
    ReplaceAllSkipsText(b, [], Marker(id), v);
    assert ReplaceAll([], Marker(id), v) == [];
    assert b + [] == b;
  }

  lemma PlaceholdersOfTwoMarkers(x: string, mid: string, y: string)
    requires IsIdent(x) && IsIdent(y) && '{' !in mid
    ensures Placeholders(Marker(x) + (mid + Marker(y))) == [x, y]
  {
    PlaceholdersReadMarker(x, mid + Marker(y));
    PlaceholdersSkipText(mid, Marker(y));
    PlaceholdersReadMarker(y, []);
    assert Marker(y) + [] == Marker(y);
  }

  lemma ReplaceAllTwoMarkers(x: string, mid: string, y: string, z: string, v: string)
    requires IsIdent(x) && IsIdent(y) && IsIdent(z) && '{' !in mid
    ensures ReplaceAll(Marker(x) + (mid + Marker(y)), Marker(z), v)
         == (if x == z then v else Marker(x)) + (mid + (if y == z then v else Marker(y)))
  {
    ReplaceAllAtMarker(x, mid + Marker(y), z, v);
    ReplaceAllSkipsText(mid, Marker(y), Marker(z), v);
    ReplaceAllAtMarker(y, [], z, v);
    assert Marker(y) + [] == Marker(y);
    assert ReplaceAll([], Marker(z), v) == [];
  }

  /**
   A later marker rewrites text an earlier value introduced: when the value of
   `x` is itself the marker of `y`, and `y`'s marker comes later in the
   template, both places end up holding `y`'s value.
   */
  lemma ValuesAreRescanned(x: string, mid: string, y: string, vars: Vars)
    requires IsIdent(x) && IsIdent(y) && x != y && '{' !in mid
    requires Lookup(vars, x) == Marker(y)
    ensures Render(Marker(x) + mid + Marker(y), vars)
         == Lookup(vars, y) + mid + Lookup(vars, y)
  {
    var vy := Lookup(vars, y);
    var t := Marker(x) + (mid + Marker(y));
    assert Marker(x) + mid + Marker(y) == t;
    assert Render(t, vars) == ReplaceEach([x, y], t, vars) by {
      PlaceholdersOfTwoMarkers(x, mid, y);
      assert t[0] == '{';
    }
    ReplaceEachTwoMarkers(x, mid, y, vars);
    assert vy + (mid + vy) == vy + mid + vy;
  }

  /** The fold over the markers of `{$x}mid{$y}`, when `x`'s value is `y`'s marker. */
  lemma ReplaceEachTwoMarkers(x: string, mid: string, y: string, vars: Vars)
    requires IsIdent(x) && IsIdent(y) && x != y && '{' !in mid
    requires Lookup(vars, x) == Marker(y)
    ensures ReplaceEach([x, y], Marker(x) + (mid + Marker(y)), vars)
         == Lookup(vars, y) + (mid + Lookup(vars, y))
  {
    var vy := Lookup(vars, y);
    var t := Marker(x) + (mid + Marker(y));
    var s1 := Marker(y) + (mid + Marker(y));
    var s2 := vy + (mid + vy);
    assert ReplaceAll(t, Marker(x), Marker(y)) == s1 by {
      ReplaceAllTwoMarkers(x, mid, y, x, Marker(y));
    }
    assert ReplaceAll(s1, Marker(y), vy) == s2 by {
      ReplaceAllTwoMarkers(y, mid, y, y, vy);
    }
    assert ReplaceEach([y], s1, vars) == s2 by {
      assert ReplaceEach([y], s1, vars) == ReplaceEach([], ReplaceAll(s1, Marker(y), vy), vars);
    }
    assert ReplaceEach([x, y], t, vars) == ReplaceEach([y], s1, vars) by {
      assert [x, y][1..] == [y];
    }
  }
}
