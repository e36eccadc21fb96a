/**
 * Java's `String.split("_")`: the one-character pattern `_` with the default
 * limit 0. The string is cut at every `_`; when there is no `_` at all the
 * result is the whole string as its only element; otherwise every piece is
 * kept except the empty pieces at the very end, which are removed.
 */
module JavaSplit {

  /** The separator of the stored business-hours encoding. */
  const Sep: char := '_'

  /** No piece contains the separator. */
  predicate NoSep(ps: seq<string>) {
    forall i :: 0 <= i < |ps| ==> Sep !in ps[i]
  }

  /** `n` separators in a row. */
  function Underscores(n: nat): (u: string)
    ensures |u| == n
  {
    if n == 0 then [] else Underscores(n - 1) + [Sep]
  }

  /** `n` empty pieces. */
  function Empties(n: nat): (es: seq<string>)
    ensures |es| == n
  {
    if n == 0 then [] else Empties(n - 1) + [""]
  }

  /** Position of the first separator in `s`. */
  function FirstSep(s: string): (i: nat)
    requires Sep in s
    ensures i < |s| && s[i] == Sep && Sep !in s[..i]
  {
    if s[0] == Sep then 0
    else
      assert s == [s[0]] + s[1..];
      var j := FirstSep(s[1..]);
      assert s[..1 + j] == [s[0]] + s[1..][..j];
      1 + j
  }

  /** Every piece between separators, empty ones included: what split returns
      before trailing empty pieces are removed. */
  function Pieces(s: string): (ps: seq<string>)
    ensures |ps| >= 1
    decreases |s|
  {
    if Sep !in s then [s]
    else
      var i := FirstSep(s);
      [s[..i]] + Pieces(s[i + 1..])
  }

  /** The pieces glued back together with one separator between neighbours. */
  function Join(ps: seq<string>): string {
    if |ps| == 0 then ""
    else if |ps| == 1 then ps[0]
    else ps[0] + [Sep] + Join(ps[1..])
  }

  /** Removes the empty pieces at the end. */
  function DropTrailingEmpty(ps: seq<string>): seq<string> {
    if |ps| == 0 then []
    else if ps[|ps| - 1] == "" then DropTrailingEmpty(ps[..|ps| - 1])
    else ps
  }

  /** `s.split("_")` in Java. */
  function JavaSplitUnderscore(s: string): seq<string> {
    if Sep !in s then [s] else DropTrailingEmpty(Pieces(s))
  }

  /** What a split result must be, stated without cutting anything: with no
      separator, the string itself; otherwise pieces free of separators, not
      ending in an empty piece, that glue back to `s` up to the separators
      trailing at its end. */
  predicate IsJavaSplit(s: string, r: seq<string>) {
    if Sep !in s then r == [s]
    else
      NoSep(r) && (r == [] || r[|r| - 1] != "") &&
      |Join(r)| <= |s| && s == Join(r) + Underscores(|s| - |Join(r)|)
  }

  // ---------------------------------------------------------------------
  // What cutting and trimming produce.

  /** No piece cut out of a string contains the separator. */
  lemma {:induction false} PiecesNoSep(s: string)
    ensures NoSep(Pieces(s))
    decreases |s|
  {
    if Sep in s {
      var i := FirstSep(s);
      PiecesNoSep(s[i + 1..]);
      NoSepAppend([s[..i]], Pieces(s[i + 1..]));
    }
  }

  /** The trimming leaves a list that does not end in an empty piece, and
      the input is that list followed by empty pieces only. */
  lemma {:induction false} DropTrailingEmptySpec(ps: seq<string>)
    ensures var r := DropTrailingEmpty(ps);
      && (r == [] || r[|r| - 1] != "")
      && |r| <= |ps| && ps == r + Empties(|ps| - |r|)
  {
    if |ps| > 0 && ps[|ps| - 1] == "" {
      var init := ps[..|ps| - 1];
      var r := DropTrailingEmpty(init);
      DropTrailingEmptySpec(init);
      assert ps == init + [""];
      assert r + Empties(|ps| - |r|) == (r + Empties(|init| - |r|)) + [""];
    } else if |ps| > 0 {
      assert ps + Empties(0) == ps;
    }
  }

  // ---------------------------------------------------------------------
  // Pieces and Join are inverse to each other.

  lemma {:induction false} JoinPieces(s: string)
    ensures Join(Pieces(s)) == s
    decreases |s|
  {
    if Sep in s {
      var i := FirstSep(s);
      var rest := s[i + 1..];
      JoinPieces(rest);
      assert Pieces(s) == [s[..i]] + Pieces(rest);
      assert s == s[..i] + [Sep] + rest;
    }
  }

  /** Cutting at a first separator after a separator-free piece. */
  lemma {:induction false} PiecesCons(a: string, b: string)
    requires Sep !in a
    ensures Pieces(a + [Sep] + b) == [a] + Pieces(b)
  {
    var s := a + [Sep] + b;
    assert s[|a|] == Sep;
    assert s[..|a|] == a;
    assert FirstSep(s) == |a|;
    assert s[|a| + 1..] == b;
  }

  lemma {:induction false} PiecesJoin(ps: seq<string>)
    requires |ps| >= 1 && NoSep(ps)
    ensures Pieces(Join(ps)) == ps
  {
    if |ps| == 1 {
      assert Join(ps) == ps[0];
    } else {
      assert Join(ps) == ps[0] + [Sep] + Join(ps[1..]);
      PiecesCons(ps[0], Join(ps[1..]));
      PiecesJoin(ps[1..]);
      assert ps == [ps[0]] + ps[1..];
    }
  }

  /** Two splittings into separator-free pieces that glue to the same string
      are the same splitting. */
  lemma {:induction false} JoinInjective(ps: seq<string>, qs: seq<string>)
    requires |ps| >= 1 && NoSep(ps) && |qs| >= 1 && NoSep(qs)
    requires Join(ps) == Join(qs)
    ensures ps == qs
  {
    PiecesJoin(ps);
    PiecesJoin(qs);
  }

  // ---------------------------------------------------------------------
  // Helpers about separators and trailing pieces.

  lemma {:induction false} UnderscoresAt(n: nat, i: nat)
    requires i < n
    ensures Underscores(n)[i] == Sep
  {
    if i < n - 1 {
      UnderscoresAt(n - 1, i);
    }
  }

  lemma {:induction false} NoSepAppend(a: seq<string>, b: seq<string>)
    ensures NoSep(a + b) <==> NoSep(a) && NoSep(b)
  {
    if NoSep(a + b) {
      forall i | 0 <= i < |a| ensures Sep !in a[i] { assert a[i] == (a + b)[i]; }
      forall i | 0 <= i < |b| ensures Sep !in b[i] { assert b[i] == (a + b)[|a| + i]; }
    }
  }

  lemma {:induction false} NoSepEmpties(n: nat)
    ensures NoSep(Empties(n))
  {
    if n > 0 {
      NoSepEmpties(n - 1);
      NoSepAppend(Empties(n - 1), [""]);
    }
  }

  lemma {:induction false} JoinSnoc(ps: seq<string>, p: string)
    requires |ps| >= 1
    ensures Join(ps + [p]) == Join(ps) + [Sep] + p
  {
    if |ps| > 1 {
      JoinSnoc(ps[1..], p);
      assert (ps + [p])[1..] == ps[1..] + [p];
    }
  }

  lemma {:induction false} JoinAppendEmpties(r: seq<string>, k: nat)
    requires |r| >= 1
    ensures Join(r + Empties(k)) == Join(r) + Underscores(k)
  {
    if k == 0 {
      assert r + Empties(0) == r;
    } else {
      JoinAppendEmpties(r, k - 1);
      assert r + Empties(k) == (r + Empties(k - 1)) + [""];
      JoinSnoc(r + Empties(k - 1), "");
    }
  }

  lemma {:induction false} JoinEmpties(k: nat)
    requires k >= 1
    ensures Join(Empties(k)) == Underscores(k - 1)
  {
    if k == 1 {
      assert Empties(1) == [""];
    } else {
      JoinEmpties(k - 1);
      JoinSnoc(Empties(k - 1), "");
    }
  }

  lemma {:induction false} DropAppendEmpties(r: seq<string>, k: nat)
    requires r == [] || r[|r| - 1] != ""
    ensures DropTrailingEmpty(r + Empties(k)) == r
  {
    if k == 0 {
      assert r + Empties(0) == r;
    } else {
      var ps := r + Empties(k);
      assert ps == (r + Empties(k - 1)) + [""];
      assert ps[..|ps| - 1] == r + Empties(k - 1);
      DropAppendEmpties(r, k - 1);
    }
  }

  // ---------------------------------------------------------------------
  // The split meets its characterisation, and nothing else does.

  lemma {:induction false} JavaSplitSound(s: string)
    ensures IsJavaSplit(s, JavaSplitUnderscore(s))
  {
    if Sep in s {
      var ps := Pieces(s);
      var r := DropTrailingEmpty(ps);
      assert JavaSplitUnderscore(s) == r;
      JoinPieces(s);
      PiecesNoSep(s);
      TrimmedPieces(ps);
      assert IsJavaSplit(Join(ps), r);
    }
  }

  /** Trimming separator-free pieces gives the split of their glued form. */
  lemma {:induction false} TrimmedPieces(ps: seq<string>)
    requires |ps| >= 1 && NoSep(ps)
    requires Sep in Join(ps)
    ensures IsJavaSplit(Join(ps), DropTrailingEmpty(ps))
  {
    var r := DropTrailingEmpty(ps);
    DropTrailingEmptySpec(ps);
    var k := |ps| - |r|;
    NoSepAppend(r, Empties(k));
    TrimmedCases(ps, r, k);
  }

  lemma {:induction false} TrimmedCases(ps: seq<string>, r: seq<string>, k: nat)
    requires |ps| >= 1 && ps == r + Empties(k)
    requires NoSep(r) && (r == [] || r[|r| - 1] != "")
    requires Sep in Join(ps)
    ensures IsJavaSplit(Join(ps), r)
  {
    if r == [] {
      assert ps == Empties(k);
      JoinEmpties(k);
      assert Join(ps) == Underscores(k - 1);
      IsJavaSplitOfSeparators(k - 1);
    } else {
      JoinAppendEmpties(r, k);
      assert Join(ps) == Join(r) + Underscores(k);
      IsJavaSplitOfParts(r, k);
    }
  }

  lemma {:induction false} IsJavaSplitOfSeparators(k: nat)
    requires k >= 1
    ensures IsJavaSplit(Underscores(k), [])
  {
    UnderscoresAt(k, 0);
    assert Underscores(k) == Join([]) + Underscores(k);
  }

  lemma {:induction false} IsJavaSplitOfParts(r: seq<string>, k: nat)
    requires |r| >= 1 && NoSep(r) && r[|r| - 1] != ""
    requires Sep in Join(r) + Underscores(k)
    ensures IsJavaSplit(Join(r) + Underscores(k), r)
  {
  }

  /** A non-empty string of separators only splits into nothing. */
  lemma {:induction false} OnlySeparators(n: nat)
    requires n >= 1
    ensures JavaSplitUnderscore(Underscores(n)) == []
  {
    var u := Underscores(n);
    var es := Empties(n + 1);
    UnderscoresAt(n, 0);
    assert Sep in u;
    JoinEmpties(n + 1);
    NoSepEmpties(n + 1);
    PiecesJoin(es);
    assert Pieces(u) == es;
    DropAppendEmpties([], n + 1);
    assert [] + es == es;
    assert JavaSplitUnderscore(u) == DropTrailingEmpty(Pieces(u));
  }

  /** Separator-free pieces, the last one not empty, glued and followed by
      any number of separators, split back to those pieces. */
  lemma {:induction false} SplitOfPiecesAndTrailing(r: seq<string>, k: nat)
    requires |r| >= 1 && NoSep(r) && r[|r| - 1] != ""
    requires Sep in Join(r) + Underscores(k)
    ensures JavaSplitUnderscore(Join(r) + Underscores(k)) == r
  {
    var ps := r + Empties(k);
    JoinAppendEmpties(r, k);
    NoSepEmpties(k);
    NoSepAppend(r, Empties(k));
    PiecesJoin(ps);
    DropAppendEmpties(r, k);
  }

  lemma {:induction false} JavaSplitUnique(s: string, r: seq<string>)
    requires IsJavaSplit(s, r)
    ensures r == JavaSplitUnderscore(s)
  {
    if Sep in s {
      if r == [] {
        assert s == Underscores(|s|);
        OnlySeparators(|s|);
      } else {
        SplitOfPiecesAndTrailing(r, |s| - |Join(r)|);
      }
    }
  }

  /** The split of `s` is exactly the list of pieces meeting `IsJavaSplit`. */
  lemma {:induction false} JavaSplitCharacterised(s: string, r: seq<string>)
    ensures IsJavaSplit(s, r) <==> r == JavaSplitUnderscore(s)
  {
    JavaSplitSound(s);
    if IsJavaSplit(s, r) {
      JavaSplitUnique(s, r);
    }
  }

  // ---------------------------------------------------------------------
  // Consequences of the limit-0 rule.

  /** No piece of a split contains the separator. */
  lemma {:induction false} JavaSplitNoSep(s: string)
    ensures NoSep(JavaSplitUnderscore(s))
  {
    JavaSplitSound(s);
  }

  /** What the characterisation says of a string holding a separator, in
      the two cases of an empty and a non-empty result. */
  lemma {:induction false} SplitWithSep(s: string)
    requires Sep in s
    ensures var r := JavaSplitUnderscore(s);
      && (r == [] ==> s == Underscores(|s|))
      && (r != [] ==> NoSep(r) && r[|r| - 1] != "" && |Join(r)| <= |s|
                      && s == Join(r) + Underscores(|s| - |Join(r)|))
  {
    JavaSplitSound(s);
  }

  /** The split of pieces glued with trailing separators, and one more
      separator at the end. */
  lemma {:induction false} TrailingStep(r: seq<string>, k: nat)
    requires |r| >= 1 && NoSep(r) && r[|r| - 1] != ""
    ensures JavaSplitUnderscore(Join(r) + Underscores(k) + [Sep]) == r
  {
    var t := Join(r) + Underscores(k + 1);
    assert Join(r) + Underscores(k) + [Sep] == t;
    assert t[|t| - 1] == Sep;
    SplitOfPiecesAndTrailing(r, k + 1);
  }

  /** The split of pieces glued with trailing separators, with one more
      separator in front. */
  lemma {:induction false} LeadingStep(r: seq<string>, k: nat)
    requires |r| >= 1 && NoSep(r) && r[|r| - 1] != ""
    ensures JavaSplitUnderscore([Sep] + Join(r) + Underscores(k)) == [""] + r
  {
    ConsEmptyPiece(r);
    assert ([Sep] + Join(r) + Underscores(k))[0] == Sep;
    SplitOfPiecesAndTrailing([""] + r, k);
  }

  /** An empty piece in front of non-empty pieces adds one separator. */
  lemma {:induction false} ConsEmptyPiece(r: seq<string>)
    requires |r| >= 1 && NoSep(r)
    ensures Join([""] + r) == [Sep] + Join(r)
    ensures NoSep([""] + r)
  {
    var r' := [""] + r;
    assert r'[1..] == r;
    NoSepAppend([""], r);
  }

  /** A trailing separator adds nothing, unless the string was empty. */
  lemma {:induction false} TrailingSeparatorDropped(s: string)
    requires s != ""
    ensures JavaSplitUnderscore(s + [Sep]) == JavaSplitUnderscore(s)
  {
    if Sep !in s {
      assert s + [Sep] == Join([s]) + Underscores(0) + [Sep];
      TrailingStep([s], 0);
    } else {
      var r, k := SplitParts(s);
      if r == [] {
        assert s + [Sep] == Underscores(k + 1);
        OnlySeparators(k + 1);
        OnlySeparators(k);
      } else {
        assert s + [Sep] == Join(r) + Underscores(k) + [Sep];
        TrailingStep(r, k);
      }
    }
  }

  /** A string holding `_` is its split pieces followed by the dropped
      trailing separators; with no pieces at all, it is separators only. */
  lemma {:induction false} SplitParts(s: string) returns (r: seq<string>, k: nat)
    requires Sep in s
    ensures r == JavaSplitUnderscore(s)
    ensures r == [] ==> s == Underscores(k) && k >= 1
    ensures r != [] ==> |r| >= 1 && NoSep(r) && r[|r| - 1] != "" && s == Join(r) + Underscores(k)
  {
    r := JavaSplitUnderscore(s);
    SplitWithSep(s);
    k := if r == [] then |s| else |s| - |Join(r)|;
  }

  /** A leading separator adds one leading empty piece, as long as the rest
      is not made of separators only. */
  lemma {:induction false} LeadingSeparatorKept(s: string)
    requires exists i :: 0 <= i < |s| && s[i] != Sep
    ensures JavaSplitUnderscore([Sep] + s) == [""] + JavaSplitUnderscore(s)
  {
    if Sep !in s {
      assert [Sep] + s == [Sep] + Join([s]) + Underscores(0);
      LeadingStep([s], 0);
    } else {
      var r, k := SplitNotOnlySeparators(s);
      assert [Sep] + s == [Sep] + Join(r) + Underscores(k);
      LeadingStep(r, k);
    }
  }

  /** A string holding `_` and some other character splits into non-empty
      pieces followed by the dropped trailing separators. */
  lemma {:induction false} SplitNotOnlySeparators(s: string) returns (r: seq<string>, k: nat)
    requires Sep in s
    requires exists i :: 0 <= i < |s| && s[i] != Sep
    ensures r == JavaSplitUnderscore(s)
    ensures |r| >= 1 && NoSep(r) && r[|r| - 1] != ""
    ensures s == Join(r) + Underscores(k)
  {
    r, k := SplitParts(s);
    if r == [] {
      var i :| 0 <= i < |s| && s[i] != Sep;
      UnderscoresAt(k, i);
      assert false;
    }
  }

  /** Gluing separator-free pieces, the last one not empty, and splitting
      again gives the same pieces back: leading and inner empty pieces
      survive the split. */
  lemma {:induction false} SplitOfJoin(ps: seq<string>)
    requires |ps| >= 1 && NoSep(ps) && ps[|ps| - 1] != ""
    ensures JavaSplitUnderscore(Join(ps)) == ps
  {
    if |ps| == 1 {
      assert Join(ps) == ps[0];
      assert Sep !in ps[0];
      assert ps == [ps[0]];
    } else {
      var s := Join(ps);
      assert s == ps[0] + [Sep] + Join(ps[1..]);
      assert s[|ps[0]|] == Sep;
      assert s + Underscores(0) == s;
      SplitOfPiecesAndTrailing(ps, 0);
    }
  }
}
