/** The clean-up applied to a captured item description:
    `re.sub(r'\s+', ' ', raw.strip())`. */
module Description {
  import opened Base

  /** No two whitespace characters are adjacent. */
  ghost predicate NoDoubleSpace(s: string) {
    forall j, k :: 0 <= j < k < |s| && k == j + 1 ==> !(IsSpace(s[j]) && IsSpace(s[k]))
  }

  /** The only whitespace character is the plain space. */
  predicate PlainSpaces(s: string) {
    forall k :: 0 <= k < |s| ==> IsSpace(s[k]) ==> s[k] == ' '
  }

  /** The normal form of a description: trimmed, single plain spaces. */
  ghost predicate Canonical(s: string) {
    Trimmed(s) && NoDoubleSpace(s) && PlainSpaces(s)
  }

  /** `re.sub(r'\s+', ' ', s)`: every maximal whitespace run becomes one
      space. Each end of the result is a space exactly when the input's
      end was whitespace, and is the input's own character otherwise. */
  function Collapse(s: string): (r: string)
    ensures NoDoubleSpace(r) && PlainSpaces(r)
    ensures r == [] <==> s == []
    ensures s != [] ==> (IsSpace(s[0]) ==> r[0] == ' ') && (NotSpace(s[0]) ==> r[0] == s[0])
    ensures s != [] ==> (IsSpace(s[|s| - 1]) ==> r[|r| - 1] == ' ')
                        && (NotSpace(s[|s| - 1]) ==> r[|r| - 1] == s[|s| - 1])
    decreases |s|
  {
    if s == [] then []
    else if IsSpace(s[0]) then
      var e := RunEnd(s, 0, IsSpace);
      [' '] + Collapse(s[e..])
    else
      [s[0]] + Collapse(s[1..])
  }

  /** Collapsing keeps the words: each whitespace run between them becomes
      one space, and no run disappears. */
  lemma {:induction false} CollapseWords(s: string)
    ensures Words(Collapse(s)) == Words(s)
    decreases |s|
  {
    if s != [] {
      var r := Collapse(s);
      if IsSpace(s[0]) {
        var e := RunEnd(s, 0, IsSpace);
        CollapseWords(s[e..]);
        assert Words(s) == Words(s[e..]) by {
          WordsDropLeading(s, e);
        }
        assert r[1..] == Collapse(s[e..]);
      } else {
        CollapseWords(s[1..]);
        assert r[1..] == Collapse(s[1..]);
        WordsStep(s, r);
      }
    }
  }

  /** The three properties of `CollapseKeepsText`, for a result `r` of
      the input `s`. */
  ghost predicate KeepsText(s: string, r: string) {
    && Visible(r) == Visible(s)
    && (forall c :: c in r ==> c in s || c == ' ')
    && |r| <= |s|
  }

  /** Results for a prefix and the rest of `s` put together give a result
      for `s`. */
  lemma KeepsTextJoin(s: string, k: nat, head: string, rest: string)
    requires 0 < k <= |s|
    requires KeepsText(s[..k], head) && KeepsText(s[k..], rest)
    ensures KeepsText(s, head + rest)
  {
    VisibleSplit(s, k);
    VisibleConcat(head, rest);
    forall c | c in head + rest ensures c in s || c == ' ' {
      if c in head {
        assert c in s[..k] || c == ' ';
      } else {
        assert c in s[k..] || c == ' ';
      }
    }
  }

  /** Collapsing only touches whitespace: the visible characters are kept
      in order, nothing new appears but the space, and nothing grows. */
  lemma {:induction false} CollapseKeepsText(s: string)
    ensures Visible(Collapse(s)) == Visible(s)
    ensures forall c :: c in Collapse(s) ==> c in s || c == ' '
    ensures |Collapse(s)| <= |s|
    decreases |s|
  {
    if s != [] {
      if IsSpace(s[0]) {
        var e := RunEnd(s, 0, IsSpace);
        CollapseKeepsText(s[e..]);
        VisibleBlankSlice(s, 0, e);
        assert s[..e] == s[0..e];
        assert Visible([' ']) == [];
        KeepsTextJoin(s, e, [' '], Collapse(s[e..]));
      } else {
        CollapseKeepsText(s[1..]);
        assert s[..1] == [s[0]];
        KeepsTextJoin(s, 1, [s[0]], Collapse(s[1..]));
      }
    }
  }

  /** The tail of a string in single-plain-space form is in that form. */
  lemma SingleSpacedTail(s: string)
    requires s != [] && NoDoubleSpace(s) && PlainSpaces(s)
    ensures NoDoubleSpace(s[1..]) && PlainSpaces(s[1..])
  {
    var tl := s[1..];
    forall j, k | 0 <= j < k < |tl| && k == j + 1
      ensures !(IsSpace(tl[j]) && IsSpace(tl[k]))
    {
      assert tl[j] == s[j + 1] && tl[k] == s[k + 1];
    }
  }

  /** A string in single-plain-space form collapses one character at a
      time. */
  lemma CollapseSingleStep(s: string)
    requires s != [] && NoDoubleSpace(s) && PlainSpaces(s)
    ensures Collapse(s) == [s[0]] + Collapse(s[1..])
  {
    if IsSpace(s[0]) {
      if |s| > 1 {
        assert !(IsSpace(s[0]) && IsSpace(s[1]));
      }
      RunEndExact(s, 0, 1, IsSpace);
    }
  }

  /** A string already in single-plain-space form is left alone. */
  lemma {:induction false} CollapseFixes(s: string)
    requires NoDoubleSpace(s) && PlainSpaces(s)
    ensures Collapse(s) == s
    decreases |s|
  {
    if s != [] {
      SingleSpacedTail(s);
      CollapseFixes(s[1..]);
      CollapseSingleStep(s);
      assert s == [s[0]] + s[1..];
    }
  }

  /** Stripping and collapsing keep a character class that contains the
      space. */
  lemma NormalizeKeepsClass(raw: string, P: char -> bool)
    ensures All(raw, P) && P(' ') ==> All(Collapse(Strip(raw)), P)
  {
    if All(raw, P) && P(' ') {
      var stripped := Strip(raw);
      assert All(stripped, P) by {
        forall k | 0 <= k < |stripped| ensures P(stripped[k]) {
          assert stripped[k] in raw;
        }
      }
      var d := Collapse(stripped);
      CollapseKeepsText(stripped);
      forall k | 0 <= k < |d| ensures P(d[k]) {
        assert d[k] in d;
      }
    }
  }

  /** The item description clean-up: strip, then collapse whitespace
      runs. The result is in normal form, keeps the visible characters of
      the capture in order, and stays inside the description class. */
  function Normalize(raw: string): (d: string)
    ensures Canonical(d)
    ensures Visible(d) == Visible(raw)
    ensures Words(d) == Words(raw)
    ensures All(raw, IsDescChar) ==> All(d, IsDescChar)
  {
    var stripped := Strip(raw);
    CollapseKeepsText(stripped);
    CollapseWords(stripped);
    NormalizeKeepsClass(raw, IsDescChar);
    Collapse(stripped)
  }

  /** A description already in normal form is left alone. */
  lemma NormalizeCanonical(s: string)
    requires Canonical(s)
    ensures Normalize(s) == s
  {
    StripTrimmed(s);
    CollapseFixes(s);
  }

  /** Cleaning a cleaned description changes nothing. */
  lemma NormalizeIdempotent(raw: string)
    ensures Normalize(Normalize(raw)) == Normalize(raw)
  {
    NormalizeCanonical(Normalize(raw));
  }
}
