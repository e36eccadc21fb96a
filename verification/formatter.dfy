/**
 * The display form of a stored business-hours string: every piece of its
 * Java split on `_`, in order, each followed by a blank-line spacer.
 */
module Formatter {
  import opened JavaSplit

  /** Appended after every piece. */
  const Spacer: string := "\n\n"

  /** Each piece followed by the spacer, in order. */
  function Render(ps: seq<string>): string {
    if ps == [] then "" else Render(ps[..|ps| - 1]) + ps[|ps| - 1] + Spacer
  }

  /** Sum of the lengths of the pieces. */
  function TotalLength(ps: seq<string>): nat {
    if ps == [] then 0 else TotalLength(ps[..|ps| - 1]) + |ps[|ps| - 1]|
  }

  /** What the controller shows in place of a stored business-hours string. */
  function FormattedHours(s: string): string {
    Render(JavaSplitUnderscore(s))
  }

  /** The formatter: walks the split pieces, appending each with the spacer
      to a growing buffer. */
  method FormatActualBusinessHours(actualBusinessHours: string) returns (formatted: string)
    ensures formatted == Render(JavaSplitUnderscore(actualBusinessHours))
    ensures Sep !in formatted
    ensures |formatted| == TotalLength(JavaSplitUnderscore(actualBusinessHours))
                            + 2 * |JavaSplitUnderscore(actualBusinessHours)|
  {
    var pieces := JavaSplitUnderscore(actualBusinessHours);
    var sb := "";
    for i := 0 to |pieces|
      invariant sb == Render(pieces[..i])
    {
      assert pieces[..i + 1][..i] == pieces[..i];
      sb := sb + pieces[i] + Spacer;
    }
    assert pieces[..|pieces|] == pieces;
    formatted := sb;
    JavaSplitNoSep(actualBusinessHours);
    RenderNoSeparator(pieces);
    RenderLength(pieces);
  }

  // ---------------------------------------------------------------------
  // Properties of the rendering.

  /** Rendering a concatenation renders each part in turn. */
  lemma {:induction false} RenderAppend(a: seq<string>, b: seq<string>)
    ensures Render(a + b) == Render(a) + Render(b)
    decreases |b|
  {
    if b != [] {
      var b' := b[..|b| - 1];
      assert (a + b)[..|a + b| - 1] == a + b';
      RenderAppend(a, b');
    } else {
      assert a + b == a;
    }
  }

  /** The output is as long as the pieces plus two characters per piece. */
  lemma {:induction false} RenderLength(ps: seq<string>)
    ensures |Render(ps)| == TotalLength(ps) + 2 * |ps|
  {
    if ps != [] {
      RenderLength(ps[..|ps| - 1]);
    }
  }

  /** Pieces free of separators render to a string free of separators. */
  lemma {:induction false} RenderNoSeparator(ps: seq<string>)
    requires NoSep(ps)
    ensures Sep !in Render(ps)
  {
    if ps != [] {
      var init := ps[..|ps| - 1];
      assert NoSep(init) by {
        forall i | 0 <= i < |init| ensures Sep !in init[i] {
          assert init[i] == ps[i];
        }
      }
      RenderNoSeparator(init);
      assert Sep !in ps[|ps| - 1];
      assert Sep !in Spacer;
    }
  }

  /** A string without `_` is shown as itself followed by the spacer; the
      empty string included. */
  lemma {:induction false} FormatWithoutSeparator(s: string)
    requires Sep !in s
    ensures FormattedHours(s) == s + Spacer
  {
    assert JavaSplitUnderscore(s) == [s];
    assert [s][..0] == [];
    assert Render([s]) == "" + s + Spacer;
    assert "" + s == s;
  }

  /** A trailing `_` changes nothing in the display of a non-empty string. */
  lemma {:induction false} FormatTrailingSeparator(s: string)
    requires s != ""
    ensures FormattedHours(s + [Sep]) == FormattedHours(s)
  {
    TrailingSeparatorDropped(s);
  }

  /** A leading `_` shows as one blank spacer in front, unless the rest is
      all separators. */
  lemma {:induction false} FormatLeadingSeparator(s: string)
    requires exists i :: 0 <= i < |s| && s[i] != Sep
    ensures FormattedHours([Sep] + s) == Spacer + FormattedHours(s)
  {
    LeadingSeparatorKept(s);
    RenderAppend([""], JavaSplitUnderscore(s));
    assert [""][..0] == [];
  }

  /** A non-empty run of `_` shows as nothing at all. */
  lemma {:induction false} FormatOnlySeparators(n: nat)
    requires n >= 1
    ensures FormattedHours(Underscores(n)) == ""
  {
    OnlySeparators(n);
  }

  /** The display of concrete stored strings. */
  lemma {:induction false} ExampleWithoutSeparator()
    ensures FormattedHours("") == "\n\n"
    ensures FormattedHours("Mon-Fri 9-17") == "Mon-Fri 9-17\n\n"
  {
    FormatWithoutSeparator("");
    FormatWithoutSeparator("Mon-Fri 9-17");
  }

  lemma {:induction false} ExampleTrailingSeparator()
    ensures FormattedHours("a_") == "a\n\n"
  {
    FormatWithoutSeparator("a");
    FormatTrailingSeparator("a");
    assert "a" + [Sep] == "a_";
  }

  lemma {:induction false} ExampleLeadingSeparator()
    ensures FormattedHours("_a") == "\n\na\n\n"
  {
    FormatWithoutSeparator("a");
    assert "a"[0] != Sep;
    FormatLeadingSeparator("a");
    assert [Sep] + "a" == "_a";
  }

  lemma {:induction false} ExampleOnlySeparators()
    ensures FormattedHours("___") == ""
  {
    assert "___" == Underscores(3);
    FormatOnlySeparators(3);
  }

  /** Two segments are shown one after the other, each with its spacer. */
  lemma {:induction false} FormatTwoSegments(first: string, second: string)
    requires Sep !in first && Sep !in second && second != ""
    ensures FormattedHours(first + [Sep] + second) == first + Spacer + second + Spacer
  {
    var pieces := [first, second];
    assert Join(pieces) == first + [Sep] + second;
    SplitOfJoin(pieces);
    RenderAppend([first], [second]);
    assert [first] + [second] == pieces;
    RenderSingle(first);
    RenderSingle(second);
  }

  lemma {:induction false} ExampleTwoSegments()
    ensures FormattedHours("Mon-Fri 9-17_Sat 9-12") == "Mon-Fri 9-17\n\nSat 9-12\n\n"
  {
    FormatTwoSegments("Mon-Fri 9-17", "Sat 9-12");
    TwoSegmentLiterals();
  }

  lemma {:induction false} TwoSegmentLiterals()
    ensures "Mon-Fri 9-17" + [Sep] + "Sat 9-12" == "Mon-Fri 9-17_Sat 9-12"
    ensures "Mon-Fri 9-17" + Spacer + "Sat 9-12" + Spacer == "Mon-Fri 9-17\n\nSat 9-12\n\n"
  {
  }

  /** Three segments, the middle one possibly empty, are shown one after
      the other, each with its spacer. */
  lemma {:induction false} FormatThreeSegments(a: string, b: string, c: string)
    requires Sep !in a && Sep !in b && Sep !in c && c != ""
    ensures FormattedHours(a + [Sep] + b + [Sep] + c) == a + Spacer + b + Spacer + c + Spacer
  {
    var pieces := [a, b, c];
    JoinThree(a, b, c);
    assert NoSep(pieces) by {
      forall i | 0 <= i < 3 ensures Sep !in pieces[i] {}
    }
    SplitOfJoin(pieces);
    RenderThree(a, b, c);
  }

  lemma {:induction false} JoinThree(a: string, b: string, c: string)
    ensures Join([a, b, c]) == a + [Sep] + b + [Sep] + c
  {
    assert [b, c][1..] == [c];
    assert Join([b, c]) == b + [Sep] + c;
    assert [a, b, c][1..] == [b, c];
    assert Join([a, b, c]) == a + [Sep] + (b + [Sep] + c);
  }

  lemma {:induction false} RenderThree(a: string, b: string, c: string)
    ensures Render([a, b, c]) == a + Spacer + b + Spacer + c + Spacer
  {
    RenderAppend([a, b], [c]);
    RenderAppend([a], [b]);
    assert [a] + [b] == [a, b];
    assert [a, b] + [c] == [a, b, c];
    RenderSingle(a);
    RenderSingle(b);
    RenderSingle(c);
  }

  lemma {:induction false} ExampleInnerEmptyPiece()
    ensures FormattedHours("a__b") == "a\n\n\n\nb\n\n"
  {
    FormatThreeSegments("a", "", "b");
    InnerEmptyPieceLiterals();
  }

  lemma {:induction false} InnerEmptyPieceLiterals()
    ensures "a" + [Sep] + "" + [Sep] + "b" == "a__b"
    ensures "a" + Spacer + "" + Spacer + "b" + Spacer == "a\n\n\n\nb\n\n"
  {
  }

  lemma {:induction false} RenderSingle(p: string)
    ensures Render([p]) == p + Spacer
  {
    assert [p][..0] == [];
    assert "" + p == p;
  }
}
