/** The `clean_text` utility of the GRN parser: strip the text, turn line
    breaks into spaces, and halve runs of spaces with one non-overlapping
    left-to-right pass of `replace('  ', ' ')`. */
module TextUtil {
  import opened Base
  import opened Description

  /** Python's `s.replace(a, b)` for one-character `a` and `b`. */
  function ReplaceChar(s: string, a: char, b: char): (r: string)
    ensures |r| == |s|
    ensures forall k :: 0 <= k < |s| ==> r[k] == (if s[k] == a then b else s[k])
  {
    seq(|s|, k requires 0 <= k < |s| => if s[k] == a then b else s[k])
  }

  /** Replacing one whitespace character by another keeps the visible
      text and the words. */
  lemma ReplaceSpaceKeepsWords(s: string, a: char, b: char)
    requires IsSpace(a) && IsSpace(b)
    ensures Visible(ReplaceChar(s, a, b)) == Visible(s)
    ensures Words(ReplaceChar(s, a, b)) == Words(s)
  {
    VisibleAgree(s, ReplaceChar(s, a, b));
    WordsAgree(s, ReplaceChar(s, a, b));
  }

  /** A string of `n` spaces. */
  function Spaces(n: nat): (r: string)
    ensures |r| == n
    ensures forall k :: 0 <= k < n ==> r[k] == ' '
  {
    seq(n, k => ' ')
  }

  /** Python's `s.replace('  ', ' ')`: each non-overlapping pair of
      spaces, taken from the left, becomes one space. */
  function ReplaceDoubleSpace(s: string): (r: string)
    ensures |s| <= 2 * |r| && |r| <= |s|
    decreases |s|
  {
    if s == [] then []
    else if |s| >= 2 && s[0] == ' ' && s[1] == ' ' then [' '] + ReplaceDoubleSpace(s[2..])
    else [s[0]] + ReplaceDoubleSpace(s[1..])
  }

  /** The pass only ever drops spaces: every other character survives, in
      order, and neither end changes unless it was a space. */
  lemma {:induction false} ReplaceDoubleSpaceKeeps(s: string)
    ensures PassKeeps(s)
    decreases |s|
  {
    if s != [] {
      if |s| >= 2 && s[0] == ' ' && s[1] == ' ' {
        ReplaceDoubleSpaceKeeps(s[2..]);
        KeepsPair(s);
      } else {
        ReplaceDoubleSpaceKeeps(s[1..]);
        KeepsSingle(s);
      }
    }
  }

  /** The pass on `s` only drops spaces: it does not grow, every
      character of the result is one of `s`, the visible text is the same,
      only the empty string gives the empty string, and an end that is not
      a space is kept. */
  ghost predicate PassKeeps(s: string) {
    var r := ReplaceDoubleSpace(s);
    && |r| <= |s|
    && (forall c :: c in r ==> c in s)
    && Visible(r) == Visible(s)
    && (r == [] <==> s == [])
    && (s != [] && s[0] != ' ' ==> r[0] == s[0])
    && (s != [] && s[|s| - 1] != ' ' ==> r[|r| - 1] == s[|s| - 1])
  }

  /** The step of `ReplaceDoubleSpaceKeeps` at a leading pair of spaces. */
  lemma KeepsPair(s: string)
    requires |s| >= 2 && s[0] == ' ' && s[1] == ' ' && PassKeeps(s[2..])
    ensures PassKeeps(s)
  {
    var rest := ReplaceDoubleSpace(s[2..]);
    HalvePair(s);
    assert s == [' '] + ([' '] + s[2..]);
    VisibleConcat([' '], [' '] + s[2..]);
    VisibleConcat([' '], s[2..]);
    VisibleConcat([' '], rest);
  }

  /** The step of `ReplaceDoubleSpaceKeeps` at a character that starts no
      pair. */
  lemma KeepsSingle(s: string)
    requires s != [] && !(|s| >= 2 && s[0] == ' ' && s[1] == ' ') && PassKeeps(s[1..])
    ensures PassKeeps(s)
  {
    var rest := ReplaceDoubleSpace(s[1..]);
    HalveSingle(s);
    assert s == [s[0]] + s[1..];
    VisibleConcat([s[0]], s[1..]);
    VisibleConcat([s[0]], rest);
  }

  /** Halving space runs keeps the words: only spaces between them are
      dropped, and never all the spaces of a run. */
  lemma {:induction false} ReplaceDoubleSpaceWords(s: string)
    ensures Words(ReplaceDoubleSpace(s)) == Words(s)
    decreases |s|
  {
    if s != [] {
      var r := ReplaceDoubleSpace(s);
      if |s| >= 2 && s[0] == ' ' && s[1] == ' ' {
        ReplaceDoubleSpaceWords(s[2..]);
        assert Words(s) == Words(s[2..]) by {
          assert s[1..][1..] == s[2..];
        }
        assert Words(r) == Words(ReplaceDoubleSpace(s[2..])) by {
          assert r[1..] == ReplaceDoubleSpace(s[2..]);
        }
      } else {
        ReplaceDoubleSpaceWords(s[1..]);
        assert r[1..] == ReplaceDoubleSpace(s[1..]);
        if |s| > 1 {
          ReplaceDoubleSpaceHead(s[1..]);
        }
        WordsStep(s, r);
      }
    }
  }

  /** The pass never changes the first character. */
  lemma ReplaceDoubleSpaceHead(s: string)
    requires s != []
    ensures ReplaceDoubleSpace(s) != [] && ReplaceDoubleSpace(s)[0] == s[0]
  {
  }

  /** The pass works piece by piece: a prefix that is empty or ends in a
      character other than the space can be replaced on its own, since no
      pair of spaces straddles the cut. */
  lemma {:induction false} ReplaceDoubleSpaceConcat(x: string, y: string)
    requires x == [] || x[|x| - 1] != ' '
    ensures ReplaceDoubleSpace(x + y) == ReplaceDoubleSpace(x) + ReplaceDoubleSpace(y)
    decreases |x|
  {
    if x == [] {
      assert x + y == y;
    } else if |x| >= 2 && x[0] == ' ' && x[1] == ' ' {
      assert |x| > 2 && x[2..][|x| - 3] == x[|x| - 1];
      ReplaceDoubleSpaceConcat(x[2..], y);
      ConcatPairStep(x, y);
    } else {
      assert x[1..] == [] || x[1..][|x| - 2] == x[|x| - 1];
      ReplaceDoubleSpaceConcat(x[1..], y);
      var xy := x + y;
      assert !(|xy| >= 2 && xy[0] == ' ' && xy[1] == ' ') by {
        if x[0] == ' ' {
          assert |x| >= 2 && xy[1] == x[1];
        }
      }
      ConcatSingleStep(x, y);
    }
  }

  /** A run of `n` spaces at the front, ended by the end of the text or a
      character other than the space, comes out halved and rounded up; the
      rest is replaced on its own. With `ReplaceDoubleSpaceConcat` this
      fixes the result of every input, cut into space runs and the
      characters after them. */
  lemma {:induction false} ReplaceDoubleSpaceRun(n: nat, y: string)
    requires y == [] || y[0] != ' '
    ensures ReplaceDoubleSpace(Spaces(n) + y) == Spaces((n + 1) / 2) + ReplaceDoubleSpace(y)
    decreases n
  {
    if n >= 2 {
      ReplaceDoubleSpaceRun(n - 2, y);
      RunPairStep(n, y);
    } else if n == 1 {
      RunLastSpace(y);
    } else {
      assert Spaces(n) + y == y;
    }
  }

  /** The step of `ReplaceDoubleSpaceRun` at a leading pair of spaces. */
  lemma RunPairStep(n: nat, y: string)
    requires n >= 2
    requires ReplaceDoubleSpace(Spaces(n - 2) + y) == Spaces((n - 1) / 2) + ReplaceDoubleSpace(y)
    ensures ReplaceDoubleSpace(Spaces(n) + y) == Spaces((n + 1) / 2) + ReplaceDoubleSpace(y)
  {
    var s := Spaces(n) + y;
    assert s[2..] == Spaces(n - 2) + y;
    HalvePair(s);
    AppendAssoc([' '], Spaces((n - 1) / 2), ReplaceDoubleSpace(y));
    assert [' '] + Spaces((n - 1) / 2) == Spaces((n + 1) / 2);
  }

  /** A single space before a character other than the space, or before
      the end, is kept. */
  lemma RunLastSpace(y: string)
    requires y == [] || y[0] != ' '
    ensures ReplaceDoubleSpace(Spaces(1) + y) == Spaces(1) + ReplaceDoubleSpace(y)
  {
    var s := Spaces(1) + y;
    assert s[1..] == y;
    HalveSingle(s);
  }

  /** One step of the pass at a leading pair of spaces. */
  lemma HalvePair(s: string)
    requires |s| >= 2 && s[0] == ' ' && s[1] == ' '
    ensures ReplaceDoubleSpace(s) == [' '] + ReplaceDoubleSpace(s[2..])
  {
  }

  /** One step of the pass at a first character that starts no pair. */
  lemma HalveSingle(s: string)
    requires s != [] && !(|s| >= 2 && s[0] == ' ' && s[1] == ' ')
    ensures ReplaceDoubleSpace(s) == [s[0]] + ReplaceDoubleSpace(s[1..])
  {
  }

  /** A leading pair of spaces of `x` is a leading pair of `x + y`. */
  lemma {:induction false} ConcatPairStep(x: string, y: string)
    requires |x| > 2 && x[0] == ' ' && x[1] == ' '
    requires ReplaceDoubleSpace(x[2..] + y) == ReplaceDoubleSpace(x[2..]) + ReplaceDoubleSpace(y)
    ensures ReplaceDoubleSpace(x + y) == ReplaceDoubleSpace(x) + ReplaceDoubleSpace(y)
  {
    var xy := x + y;
    var rt, ry := ReplaceDoubleSpace(x[2..]), ReplaceDoubleSpace(y);
    assert ReplaceDoubleSpace(x) == [' '] + rt by {
      HalvePair(x);
    }
    assert xy[0] == ' ' && xy[1] == ' ';
    assert ReplaceDoubleSpace(xy) == [' '] + ReplaceDoubleSpace(xy[2..]) by {
      HalvePair(xy);
    }
    assert xy[2..] == x[2..] + y;
    assert ReplaceDoubleSpace(xy) == [' '] + (rt + ry);
    AppendAssoc([' '], rt, ry);
  }

  /** A first character of `x` that does not start a pair does not start
      one in `x + y` either, as `x` does not end in a space. */
  lemma {:induction false} ConcatSingleStep(x: string, y: string)
    requires x != [] && !(|x| >= 2 && x[0] == ' ' && x[1] == ' ')
    requires !(|x + y| >= 2 && (x + y)[0] == ' ' && (x + y)[1] == ' ')
    requires ReplaceDoubleSpace(x[1..] + y) == ReplaceDoubleSpace(x[1..]) + ReplaceDoubleSpace(y)
    ensures ReplaceDoubleSpace(x + y) == ReplaceDoubleSpace(x) + ReplaceDoubleSpace(y)
  {
    var xy := x + y;
    var rt, ry := ReplaceDoubleSpace(x[1..]), ReplaceDoubleSpace(y);
    assert ReplaceDoubleSpace(x) == [x[0]] + rt by {
      HalveSingle(x);
    }
    assert ReplaceDoubleSpace(xy) == [xy[0]] + ReplaceDoubleSpace(xy[1..]) by {
      HalveSingle(xy);
    }
    assert xy[0] == x[0] && xy[1..] == x[1..] + y;
    assert ReplaceDoubleSpace(xy) == [x[0]] + (rt + ry);
    AppendAssoc([x[0]], rt, ry);
  }

  /** A run of `n` spaces comes out as a run of `n / 2` rounded up: a
      single pass halves runs rather than collapsing them. */
  lemma {:induction false} ReplaceDoubleSpaceHalves(n: nat)
    ensures ReplaceDoubleSpace(Spaces(n)) == Spaces((n + 1) / 2)
    decreases n
  {
    if n >= 2 {
      assert Spaces(n)[2..] == Spaces(n - 2);
      ReplaceDoubleSpaceHalves(n - 2);
      assert [' '] + Spaces((n - 1) / 2) == Spaces((n + 1) / 2);
    } else if n == 1 {
      assert Spaces(1)[1..] == [];
    }
  }

  /** The two `replace` calls for line breaks: the result has no line
      feed or carriage return and, since both are whitespace, the same
      length, ends, visible text and words. */
  lemma LineBreaksToSpaces(s: string)
    ensures var r := ReplaceChar(ReplaceChar(s, '\n', ' '), '\r', ' ');
      && |r| == |s| && '\n' !in r && '\r' !in r
      && (Trimmed(s) ==> Trimmed(r))
      && Visible(r) == Visible(s) && Words(r) == Words(s)
  {
    var noLf := ReplaceChar(s, '\n', ' ');
    var r := ReplaceChar(noLf, '\r', ' ');
    ReplaceSpaceKeepsWords(s, '\n', ' ');
    ReplaceSpaceKeepsWords(noLf, '\r', ' ');
    assert '\n' !in r by {
      forall k | 0 <= k < |r| ensures r[k] != '\n' {}
    }
    assert '\r' !in r by {
      forall k | 0 <= k < |r| ensures r[k] != '\r' {}
    }
  }

  /** The final `replace('  ', ' ')` keeps what the earlier steps
      established: no line breaks, trimmed ends, visible text, words. */
  lemma HalvingKeeps(s: string)
    requires '\n' !in s && '\r' !in s && Trimmed(s)
    ensures var r := ReplaceDoubleSpace(s);
      && '\n' !in r && '\r' !in r && |r| <= |s| && Trimmed(r)
      && Visible(r) == Visible(s) && Words(r) == Words(s)
  {
    ReplaceDoubleSpaceKeeps(s);
    ReplaceDoubleSpaceWords(s);
    var r := ReplaceDoubleSpace(s);
    if s != [] {
      assert s[0] != ' ' && s[|s| - 1] != ' ';
      assert r[0] == s[0] && r[|r| - 1] == s[|s| - 1];
    }
  }

  /** `clean_text`: the result has no line breaks, no surrounding
      whitespace, is never longer than its input, and keeps every visible
      character and every word of the input in order. */
  function CleanText(text: string): (r: string)
    ensures '\n' !in r && '\r' !in r
    ensures |r| <= |text|
    ensures Trimmed(r)
    ensures Visible(r) == Visible(text)
    ensures Words(r) == Words(text)
  {
    var stripped := Strip(text);
    var noCr := ReplaceChar(ReplaceChar(stripped, '\n', ' '), '\r', ' ');
    LineBreaksToSpaces(stripped);
    HalvingKeeps(noCr);
    ReplaceDoubleSpace(noCr)
  }

  /** As written, `clean_text` keeps a double space whenever the input has
      a run of four spaces: the single `replace` pass halves the run. */
  lemma CleanTextKeepsDoubleSpace()
    ensures CleanText("a    b") == "a  b"
  {
    StripTrimmed("a    b");
    var s := "a    b";
    assert ReplaceChar(s, '\n', ' ') == s;
    assert ReplaceChar(s, '\r', ' ') == s;
    assert s[1..][2..][2..] == "b";
    assert ReplaceDoubleSpace("b") == "b";
    assert s[1..][2..] == "  b";
    assert ReplaceDoubleSpace("  b") == " b";
    assert s[1..] == "    b";
    assert ReplaceDoubleSpace("    b") == "  b";
  }

  /** `clean_text` as evidently intended: strip, then collapse every
      whitespace run, line breaks included, to a single space. The result
      has no line breaks and no double space at all. */
  function CleanTextCollapsed(text: string): (r: string)
    ensures '\n' !in r && '\r' !in r
    ensures Trimmed(r) && NoDoubleSpace(r)
    ensures Visible(r) == Visible(text)
    ensures Words(r) == Words(text)
  {
    Normalize(text)
  }
}
