/** Shared vocabulary of the GRN parser model: optional values, the
    character classes the parser's regular expressions use, maximal runs,
    case-insensitive labels, and Python's `str.strip`. */
module Base {

  /** Python's `None` or a captured string. */
  datatype Option<+T> = None | Some(value: T)

  /** A PDF byte; the text extractor's input. */
  newtype byte = b: int | 0 <= b < 256

  /** Python's `str.isspace`, which is also what `\s` and `str.strip()`
      use for `str` values: the ASCII controls 9-13 and 28-31, the space,
      and the Unicode separators. */
  predicate IsSpace(c: char) {
    var n := c as int;
    || 9 <= n <= 13
    || 28 <= n <= 32
    || n == 0x85 || n == 0xA0 || n == 0x1680
    || 0x2000 <= n <= 0x200A
    || n == 0x2028 || n == 0x2029 || n == 0x202F || n == 0x205F || n == 0x3000
  }

  /** `\S` */
  predicate NotSpace(c: char) {
    !IsSpace(c)
  }

  /** `[^\n]`, and also `.` without DOTALL */
  predicate NotNewline(c: char) {
    c != '\n'
  }

  /** `\d`, restricted to ASCII digits */
  predicate IsDigit(c: char) {
    '0' <= c <= '9'
  }

  /** `\w`, restricted to ASCII letters, digits and the underscore */
  predicate IsWord(c: char) {
    IsDigit(c) || 'a' <= c <= 'z' || 'A' <= c <= 'Z' || c == '_'
  }

  /** `[\d\.]`, the MRP column */
  predicate IsDigitOrDot(c: char) {
    IsDigit(c) || c == '.'
  }

  /** `[\w\s\.\-%#]`, the item description column */
  predicate IsDescChar(c: char) {
    IsWord(c) || IsSpace(c) || c == '.' || c == '-' || c == '%' || c == '#'
  }

  /** Every character of `s[lo..hi]` satisfies `P`. */
  predicate AllIn(s: string, lo: nat, hi: nat, P: char -> bool)
    requires lo <= hi <= |s|
  {
    forall k :: lo <= k < hi ==> P(s[k])
  }

  /** Every character of `s` satisfies `P`. */
  predicate All(s: string, P: char -> bool) {
    forall k :: 0 <= k < |s| ==> P(s[k])
  }

  /** The end of the maximal run of `P`-characters that starts at `i`:
      what a greedy `P*` starting at `i` consumes. */
  function RunEnd(s: string, i: nat, P: char -> bool): (e: nat)
    requires i <= |s|
    ensures i <= e <= |s|
    ensures AllIn(s, i, e, P)
    ensures e == |s| || !P(s[e])
    decreases |s| - i
  {
    if i < |s| && P(s[i]) then RunEnd(s, i + 1, P) else i
  }

  /** A greedy run is determined by its two ends: if `s[i..j]` is all `P`
      and `s[j]` is not, the run from `i` ends exactly at `j`. */
  lemma {:induction false} RunEndExact(s: string, i: nat, j: nat, P: char -> bool)
    requires i <= j <= |s|
    requires AllIn(s, i, j, P)
    requires j == |s| || !P(s[j])
    ensures RunEnd(s, i, P) == j
    decreases j - i
  {
    if i < j {
      RunEndExact(s, i + 1, j, P);
    }
  }

  /** ASCII upper case to lower case; the model of `re.IGNORECASE`. */
  function Fold(c: char): (d: char)
    ensures 'A' <= c <= 'Z' ==> d as int == c as int + 32
    ensures !('A' <= c <= 'Z') ==> d == c
  {
    if 'A' <= c <= 'Z' then (c as int + 32) as char else c
  }

  /** `mark` occurs at position `i` of `s`, ignoring ASCII case. */
  predicate LabelAt(s: string, i: nat, mark: string) {
    && i + |mark| <= |s|
    && forall k :: 0 <= k < |mark| ==> Fold(s[i + k]) == Fold(mark[k])
  }

  /** The characters of `s` that are not whitespace, in order. */
  function Visible(s: string): (v: string)
    ensures |v| <= |s|
  {
    if s == [] then []
    else (if IsSpace(s[0]) then [] else [s[0]]) + Visible(s[1..])
  }

  /** The visible text of a concatenation is the concatenation of the
      visible texts. */
  lemma {:induction false} VisibleConcat(a: string, b: string)
    ensures Visible(a + b) == Visible(a) + Visible(b)
    decreases |a|
  {
    if a == [] {
      assert a + b == b;
    } else {
      var head := if IsSpace(a[0]) then [] else [a[0]];
      var rest := a[1..];
      assert (a + b)[0] == a[0] && (a + b)[1..] == rest + b;
      assert Visible(a + b) == head + Visible(rest + b);
      VisibleConcat(rest, b);
      assert Visible(a) == head + Visible(rest);
      assert head + (Visible(rest) + Visible(b)) == (head + Visible(rest)) + Visible(b);
    }
  }

  lemma {:induction false} VisibleBlank(s: string)
    requires All(s, IsSpace)
    ensures Visible(s) == []
    decreases |s|
  {
    if s != [] {
      VisibleBlank(s[1..]);
    }
  }

  /** Two strings of equal length that differ only by swapping one
      whitespace character for another have the same visible text. */
  lemma {:induction false} VisibleAgree(s: string, r: string)
    requires |s| == |r|
    requires forall k :: 0 <= k < |s| ==> s[k] == r[k] || (IsSpace(s[k]) && IsSpace(r[k]))
    ensures Visible(s) == Visible(r)
    decreases |s|
  {
    if s != [] {
      VisibleAgree(s[1..], r[1..]);
    }
  }

  /** The least index from `i` on at which `xs` holds a value: the
      left-to-right scan a regular-expression search makes over the
      outcomes of trying the pattern at each position. */
  function FirstSome<T>(xs: seq<Option<T>>, i: nat): (r: Option<nat>)
    requires i <= |xs|
    ensures r.Some? ==> i <= r.value < |xs| && xs[r.value].Some?
    ensures r.Some? ==> forall q :: i <= q < r.value ==> xs[q].None?
    ensures r.None? ==> forall q :: i <= q < |xs| ==> xs[q].None?
    decreases |xs| - i
  {
    if i == |xs| then None
    else if xs[i].Some? then Some(i)
    else FirstSome(xs, i + 1)
  }

  /** The first `Some` from `i` is at `p` when `xs[p]` is one and none
      comes before it. */
  lemma FirstSomeAt<T>(xs: seq<Option<T>>, i: nat, p: nat)
    requires i <= p < |xs| && xs[p].Some?
    requires forall q :: i <= q < p ==> xs[q].None?
    ensures FirstSome(xs, i) == Some(p)
  {
  }

  /** Neither end of `s` is whitespace. */
  predicate Trimmed(s: string) {
    s == [] || (NotSpace(s[0]) && NotSpace(s[|s| - 1]))
  }

  /** The start of the trailing whitespace of `s[..j]`. */
  function TrailStart(s: string, i: nat, j: nat): (m: nat)
    requires i <= j <= |s|
    ensures i <= m <= j
    ensures AllIn(s, m, j, IsSpace)
    ensures m == i || NotSpace(s[m - 1])
    decreases j - i
  {
    if i < j && IsSpace(s[j - 1]) then TrailStart(s, i, j - 1) else j
  }

  /** Cutting `s` at `i` cuts its visible text at the same place. */
  lemma VisibleSplit(s: string, i: nat)
    requires i <= |s|
    ensures Visible(s) == Visible(s[..i]) + Visible(s[i..])
  {
    assert s == s[..i] + s[i..];
    VisibleConcat(s[..i], s[i..]);
  }

  /** A stretch of whitespace, as a string of its own. */
  lemma BlankSlice(s: string, lo: nat, hi: nat)
    requires lo <= hi <= |s| && AllIn(s, lo, hi, IsSpace)
    ensures All(s[lo..hi], IsSpace)
  {
    forall k | 0 <= k < hi - lo ensures IsSpace(s[lo..hi][k]) {
      assert s[lo..hi][k] == s[lo + k];
    }
  }

  /** A slice of whitespace has no visible text. */
  lemma VisibleBlankSlice(s: string, lo: nat, hi: nat)
    requires lo <= hi <= |s| && AllIn(s, lo, hi, IsSpace)
    ensures Visible(s[lo..hi]) == []
  {
    BlankSlice(s, lo, hi);
    VisibleBlank(s[lo..hi]);
  }

  /** Concatenation is associative. */
  lemma AppendAssoc(a: string, b: string, c: string)
    ensures a + (b + c) == (a + b) + c
  {
  }

  /** A slice equals `v` when it agrees with `v` character by character. */
  lemma SliceIs(s: string, lo: nat, v: string)
    requires lo + |v| <= |s|
    requires forall k :: 0 <= k < |v| ==> s[lo + k] == v[k]
    ensures s[lo..lo + |v|] == v
  {
    forall k | 0 <= k < |v| ensures s[lo..lo + |v|][k] == v[k] {
    }
  }

  /** Two non-empty sequences with the same head and tail are equal. */
  lemma ConsEqual<T>(a: seq<T>, b: seq<T>)
    requires a != [] && b != [] && a[0] == b[0] && a[1..] == b[1..]
    ensures a == b
  {
    assert a == [a[0]] + a[1..] && b == [b[0]] + b[1..];
  }

  lemma SliceOfSlice(s: string, i: nat, j: nat)
    requires i <= j <= |s|
    ensures s[i..][..j - i] == s[i..j] && s[i..][j - i..] == s[j..|s|]
  {
  }

  /** Leading whitespace has no visible text. */
  lemma VisibleDropLeading(s: string, i: nat)
    requires i <= |s| && AllIn(s, 0, i, IsSpace)
    ensures Visible(s[i..]) == Visible(s)
  {
    VisibleSplit(s, i);
    VisibleBlankSlice(s, 0, i);
    assert s[..i] == s[0..i];
  }

  /** Trailing whitespace has no visible text. */
  lemma VisibleDropTrailing(s: string, j: nat)
    requires j <= |s| && AllIn(s, j, |s|, IsSpace)
    ensures Visible(s[..j]) == Visible(s)
  {
    VisibleSplit(s, j);
    VisibleBlankSlice(s, j, |s|);
    assert s[j..] == s[j..|s|];
  }

  /** Trailing whitespace of a suffix has no visible text. */
  lemma VisibleCutTail(s: string, i: nat, j: nat)
    requires i <= j <= |s| && AllIn(s, j, |s|, IsSpace)
    ensures Visible(s[i..j]) == Visible(s[i..])
  {
    var t := s[i..];
    forall k | j - i <= k < |t| ensures IsSpace(t[k]) {
      assert t[k] == s[i + k];
    }
    VisibleDropTrailing(t, j - i);
    SliceOfSlice(s, i, j);
  }

  /** `s` cut into leading whitespace, middle, and trailing whitespace
      keeps its visible text in the middle. */
  lemma StripParts(s: string, i: nat, j: nat)
    requires i <= j <= |s|
    requires AllIn(s, 0, i, IsSpace) && AllIn(s, j, |s|, IsSpace)
    ensures Visible(s[i..j]) == Visible(s)
  {
    VisibleDropLeading(s, i);
    VisibleCutTail(s, i, j);
  }

  /** Every character of a slice is a character of the whole. */
  lemma SliceMembers(s: string, i: nat, j: nat)
    requires i <= j <= |s|
    ensures forall c :: c in s[i..j] ==> c in s
  {
    forall c | c in s[i..j] ensures c in s {
      var k :| 0 <= k < j - i && s[i..j][k] == c;
      assert s[i + k] == c;
    }
  }

  /** The middle `s[i..j]` between blank ends, itself with non-blank ends,
      is trimmed, keeps the visible text and has only characters of `s`. */
  lemma StripMiddle(s: string, i: nat, j: nat)
    requires i <= j <= |s|
    requires AllIn(s, 0, i, IsSpace) && AllIn(s, j, |s|, IsSpace)
    requires i == j || (NotSpace(s[i]) && NotSpace(s[j - 1]))
    ensures Trimmed(s[i..j]) && Visible(s[i..j]) == Visible(s)
    ensures forall c :: c in s[i..j] ==> c in s
  {
    assert Trimmed(s[i..j]) by {
      if i < j {
        assert s[i..j][0] == s[i] && s[i..j][j - i - 1] == s[j - 1];
      }
    }
    assert Visible(s[i..j]) == Visible(s) by {
      StripParts(s, i, j);
    }
    SliceMembers(s, i, j);
  }

  /** What `Strip` promises, for the middle `s[i..j]` between blank ends. */
  ghost predicate StripResult(s: string, r: string) {
    && Trimmed(r)
    && Visible(r) == Visible(s)
    && |r| <= |s| && (forall c :: c in r ==> c in s)
    && (exists i: nat :: i + |r| <= |s| && s[i..i + |r|] == r
                         && AllIn(s, 0, i, IsSpace) && AllIn(s, i + |r|, |s|, IsSpace))
    && Words(r) == Words(s)
  }

  /** The middle between the leading and the trailing whitespace is a
      strip result. */
  lemma StripFacts(s: string, i: nat, j: nat)
    requires i <= j <= |s|
    requires AllIn(s, 0, i, IsSpace) && AllIn(s, j, |s|, IsSpace)
    requires i == j || (NotSpace(s[i]) && NotSpace(s[j - 1]))
    ensures StripResult(s, s[i..j])
  {
    StripMiddle(s, i, j);
    WordsMiddle(s, i, j);
    var r := s[i..j];
    assert i + |r| == j && s[i..i + |r|] == r;
  }

  /** Python's `str.strip()`: drop leading and trailing whitespace. The
      result is the middle of `s`, everything cut off is whitespace, and
      no visible character or word is lost. */
  function Strip(s: string): (r: string)
    ensures Trimmed(r)
    ensures Visible(r) == Visible(s)
    ensures |r| <= |s| && forall c :: c in r ==> c in s
    ensures exists i: nat :: i + |r| <= |s| && s[i..i + |r|] == r
                             && AllIn(s, 0, i, IsSpace) && AllIn(s, i + |r|, |s|, IsSpace)
    ensures Words(r) == Words(s)
  {
    var i := RunEnd(s, 0, IsSpace);
    var j := TrailStart(s, i, |s|);
    StripFacts(s, i, j);
    s[i..j]
  }

  lemma {:induction false} StripTrimmed(s: string)
    requires Trimmed(s)
    ensures Strip(s) == s
  {
    if s != [] {
      RunEndExact(s, 0, 0, IsSpace);
    }
  }

  // ---------------------------------------------------------------------
  // Words: the maximal runs of visible characters
  // ---------------------------------------------------------------------

  /** The words of `s`: its maximal runs of non-whitespace characters, in
      order. Whitespace clean-ups may change the whitespace between words
      but must keep this sequence. */
  function Words(s: string): (w: seq<string>)
    ensures s != [] && NotSpace(s[0]) ==> |w| > 0 && w[0] != [] && w[0][0] == s[0]
    ensures forall k :: 0 <= k < |w| ==> w[k] != [] && All(w[k], NotSpace)
    decreases |s|
  {
    if s == [] then []
    else
      var w := Words(s[1..]);
      if IsSpace(s[0]) then w
      else if |s| > 1 && NotSpace(s[1]) then [[s[0]] + w[0]] + w[1..]
      else [[s[0]]] + w
  }

  /** `s` begins inside a word. */
  predicate StartsWord(s: string) {
    s != [] && NotSpace(s[0])
  }

  /** The words of a non-empty string depend only on its first
      character's class (and the character itself when visible), the
      words of the rest, and whether the rest begins inside a word. */
  lemma WordsStep(s: string, t: string)
    requires s != [] && t != []
    requires s[0] == t[0] || (IsSpace(s[0]) && IsSpace(t[0]))
    requires Words(s[1..]) == Words(t[1..]) && StartsWord(s[1..]) == StartsWord(t[1..])
    ensures Words(s) == Words(t)
  {
    assert |s| > 1 && NotSpace(s[1]) <==> StartsWord(s[1..]);
    assert |t| > 1 && NotSpace(t[1]) <==> StartsWord(t[1..]);
  }

  /** Leading whitespace is not part of any word. */
  lemma {:induction false} WordsDropLeading(s: string, e: nat)
    requires e <= |s| && AllIn(s, 0, e, IsSpace)
    ensures Words(s) == Words(s[e..])
    decreases e
  {
    if e > 0 {
      assert AllIn(s[1..], 0, e - 1, IsSpace) by {
        forall k | 0 <= k < e - 1 ensures IsSpace(s[1..][k]) {
          assert s[1..][k] == s[k + 1];
        }
      }
      WordsDropLeading(s[1..], e - 1);
      assert s[1..][e - 1..] == s[e..];
    }
  }

  /** A string of whitespace has no words. */
  lemma {:induction false} WordsBlank(s: string)
    requires All(s, IsSpace)
    ensures Words(s) == []
    decreases |s|
  {
    if s != [] {
      WordsBlank(s[1..]);
    }
  }

  /** Trailing whitespace is not part of any word. */
  lemma {:induction false} WordsAppendBlank(x: string, b: string)
    requires All(b, IsSpace)
    ensures Words(x + b) == Words(x)
    decreases |x|
  {
    if x == [] {
      assert x + b == b;
      WordsBlank(b);
    } else {
      assert (x + b)[1..] == x[1..] + b;
      WordsAppendBlank(x[1..], b);
      if x[1..] == [] {
        assert x[1..] + b == b;
      } else {
        assert (x[1..] + b)[0] == x[1..][0];
      }
      WordsStep(x + b, x);
    }
  }

  /** Swapping whitespace characters for other whitespace characters,
      position by position, keeps the words. */
  lemma {:induction false} WordsAgree(s: string, r: string)
    requires |s| == |r|
    requires forall k :: 0 <= k < |s| ==> s[k] == r[k] || (IsSpace(s[k]) && IsSpace(r[k]))
    ensures Words(s) == Words(r)
    decreases |s|
  {
    if s != [] {
      WordsAgree(s[1..], r[1..]);
      if |s| > 1 {
        assert s[1..][0] == s[1] && r[1..][0] == r[1];
      }
      WordsStep(s, r);
    }
  }

  /** Cutting off trailing whitespace keeps the words. */
  lemma WordsDropTrailing(s: string, j: nat)
    requires j <= |s| && AllIn(s, j, |s|, IsSpace)
    ensures Words(s[..j]) == Words(s)
  {
    assert All(s[j..|s|], IsSpace) by {
      BlankSlice(s, j, |s|);
    }
    WordsAppendBlank(s[..j], s[j..|s|]);
    assert s[..j] + s[j..|s|] == s;
  }

  /** The middle `s[i..j]` between blank ends has the words of `s`. */
  lemma WordsMiddle(s: string, i: nat, j: nat)
    requires i <= j <= |s|
    requires AllIn(s, 0, i, IsSpace) && AllIn(s, j, |s|, IsSpace)
    ensures Words(s[i..j]) == Words(s)
  {
    var t := s[i..];
    assert Words(s) == Words(t) by {
      WordsDropLeading(s, i);
    }
    assert AllIn(t, j - i, |t|, IsSpace) by {
      forall k | j - i <= k < |t| ensures IsSpace(t[k]) {
        assert t[k] == s[i + k];
      }
    }
    assert Words(t[..j - i]) == Words(t) by {
      WordsDropTrailing(t, j - i);
    }
    SliceOfSlice(s, i, j);
  }
}
