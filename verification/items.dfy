/** The line-item half of `extract_grn_data`. The table starts at the
    first `S No\s+Article`; from there `finditer` applies the row pattern

        (\d+)\s+(\d+)\s+([\w\s\.\-%#]+?)\s+(\d{13})\s+(\w+)\s+(\d+)\s+(\d+)\s+(\d+)\s+([\d\.]+)\b

    left to right without overlap. The regular expression is modelled by
    an explicit scanner that makes the choices Python's backtracking
    engine makes, and is proved to find a row at a position exactly when
    some way of reading the row shape starts there. */
module Items {
  import opened Base

  // ---------------------------------------------------------------------
  // The row shape
  // ---------------------------------------------------------------------

  /** `\b` at position `e`: exactly one side is a word character. */
  predicate WordBoundary(t: string, e: nat)
    requires e <= |t|
  {
    (e > 0 && IsWord(t[e - 1])) != (e < |t| && IsWord(t[e]))
  }

  /** `t[lo..hi]` is a non-empty run of `P`. */
  predicate Span(t: string, lo: nat, hi: nat, P: char -> bool) {
    lo < hi <= |t| && AllIn(t, lo, hi, P)
  }

  /** Consecutive cut points delimit non-empty runs of the given classes:
      `t[cuts[k]..cuts[k + 1]]` is a run of `classes[k]`. */
  predicate Spans(t: string, cuts: seq<nat>, classes: seq<char -> bool>) {
    && |cuts| == |classes| + 1
    && (forall k :: 0 <= k < |cuts| ==> cuts[k] <= |t|)
    && forall k {:trigger classes[k]} :: 0 <= k < |classes| ==> Span(t, cuts[k], cuts[k + 1], classes[k])
  }

  /** Every run is non-empty, so the cut points grow by at least one. */
  lemma {:induction false} SpansGrow(t: string, cuts: seq<nat>, classes: seq<char -> bool>, j: nat)
    requires Spans(t, cuts, classes) && j < |cuts|
    ensures cuts[0] + j <= cuts[j]
  {
    if j > 0 {
      SpansGrow(t, cuts, classes, j - 1);
      assert Span(t, cuts[j - 1], cuts[j], classes[j - 1]);
    }
  }

  /** Each run is maximal: the character after it is not of its class. */
  predicate Maximal(t: string, cuts: seq<nat>, classes: seq<char -> bool>)
    requires |cuts| == |classes| + 1
  {
    forall k {:trigger classes[k]} :: 0 <= k < |classes| ==> cuts[k + 1] < |t| ==> !classes[k](t[cuts[k + 1]])
  }

  /** `(\d+)\s+(\d+)`: S No, whitespace, Article. */
  const LeadClasses: seq<char -> bool> := [IsDigit, IsSpace, IsDigit]

  /** `\s+(\w+)\s+(\d+)\s+(\d+)\s+(\d+)\s+`: from after the EAN up to the
      MRP (UoM and the three quantities). */
  const CountClasses: seq<char -> bool> :=
    [IsSpace, IsWord, IsSpace, IsDigit, IsSpace, IsDigit, IsSpace, IsDigit, IsSpace]

  /** `(\d{13})` followed by the counts and `([\d\.]+)\b`, over the twelve
      cut points `e`. */
  predicate EanShape(t: string, e: seq<nat>) {
    && |e| == 12
    && Span(t, e[0], e[1], IsDigit) && e[1] == e[0] + 13
    && Spans(t, e[1..11], CountClasses)
    && Span(t, e[10], e[11], IsDigitOrDot)
    && WordBoundary(t, e[11])
  }

  /** `\s+` followed by the EAN shape, over thirteen cut points. */
  predicate TailShape(t: string, d: seq<nat>) {
    && |d| == 13
    && Span(t, d[0], d[1], IsSpace)
    && EanShape(t, d[1..])
  }

  /** One way of reading a whole row: eighteen cut points `c`, where field
      `k` is `t[c[2k]..c[2k+1]]` and the whitespace between fields fills
      the cuts in between. */
  predicate RowShape(t: string, c: seq<nat>) {
    && |c| == 18
    && Spans(t, c[..4], LeadClasses)
    && Span(t, c[3], c[4], IsSpace)
    && Span(t, c[4], c[5], IsDescChar)
    && TailShape(t, c[5..])
  }

  /** A row covers at least one character per field and separator and
      ends inside the text. */
  lemma RowShapeBounds(t: string, c: seq<nat>)
    requires RowShape(t, c)
    ensures c[0] + 17 <= c[17] <= |t|
  {
    var d := c[5..];
    var e := d[1..];
    SpansGrow(t, c[..4], LeadClasses, 3);
    SpansGrow(t, e[1..11], CountClasses, 9);
  }

  /** Some reading of the row shape starts at `p`. */
  ghost predicate StartsRow(t: string, p: nat) {
    exists c :: RowShape(t, c) && c[0] == p
  }

  // ---------------------------------------------------------------------
  // The scanner
  // ---------------------------------------------------------------------

  /** How the character classes of the row pattern nest: word characters
      and `[\d\.]` are never whitespace, and a digit is both. */
  lemma CharClassInclusions(c: char)
    ensures IsWord(c) ==> NotSpace(c)
    ensures IsDigitOrDot(c) ==> NotSpace(c)
    ensures IsDigit(c) ==> IsWord(c) && IsDigitOrDot(c)
  {
  }

  /** Greedy maximal runs of `classes`, one after another, from `i`; each
      run must be non-empty. */
  function Greedy(t: string, i: nat, classes: seq<char -> bool>): (r: Option<seq<nat>>)
    requires i <= |t|
    ensures r.Some? ==> Spans(t, r.value, classes) && r.value[0] == i
    ensures r.Some? ==> Maximal(t, r.value, classes)
    decreases |classes|
  {
    if classes == [] then Some([i])
    else
      var e := RunEnd(t, i, classes[0]);
      if e == i then None
      else
        match Greedy(t, e, classes[1..])
        case Some(rest) =>
          var cuts := [i] + rest;
          assert forall k :: 1 <= k < |classes| ==> cuts[k] == rest[k - 1] && cuts[k + 1] == rest[k] && classes[k] == classes[1..][k - 1];
          Some(cuts)
        case None => None
  }

  /** When the runs are maximal, the greedy scan finds exactly them. */
  lemma {:induction false} GreedyComplete(t: string, cuts: seq<nat>, classes: seq<char -> bool>)
    requires Spans(t, cuts, classes) && Maximal(t, cuts, classes)
    ensures Greedy(t, cuts[0], classes) == Some(cuts)
    decreases |classes|
  {
    if classes != [] {
      assert Span(t, cuts[0], cuts[1], classes[0]);
      RunEndExact(t, cuts[0], cuts[1], classes[0]);
      var rest := cuts[1..];
      assert Spans(t, rest, classes[1..]) by {
        forall k | 0 <= k < |classes[1..]|
          ensures Span(t, rest[k], rest[k + 1], classes[1..][k])
        {
          assert Span(t, cuts[k + 1], cuts[k + 2], classes[k + 1]);
        }
      }
      assert Maximal(t, rest, classes[1..]) by {
        forall k | 0 <= k < |classes[1..]| && rest[k + 1] < |t|
          ensures !classes[1..][k](t[rest[k + 1]])
        {
          assert cuts[k + 2] < |t| ==> !classes[k + 1](t[cuts[k + 2]]);
        }
      }
      GreedyComplete(t, rest, classes[1..]);
      assert [cuts[0]] + rest == cuts;
    } else {
      assert cuts == [cuts[0]];
    }
  }

  /** The longest `[\d\.]+` that ends at a word boundary: greedy, then
      given back one character at a time. */
  function LastBoundary(t: string, lo: nat, e: nat): (r: Option<nat>)
    requires lo <= e <= |t|
    ensures r.Some? ==> lo < r.value <= e && WordBoundary(t, r.value)
    ensures r.Some? ==> forall x :: r.value < x <= e ==> !WordBoundary(t, x)
    ensures r.None? ==> forall x :: lo < x <= e ==> !WordBoundary(t, x)
    decreases e
  {
    if e <= lo then None
    else if WordBoundary(t, e) then Some(e)
    else LastBoundary(t, lo, e - 1)
  }

  /** The row from its EAN (at `b`) to its end. After the 13 digits every
      field is a maximal run: giving a character back would put a
      character of the wrong class where the next field must start. */
  function EanFrom(t: string, b: nat): (r: Option<seq<nat>>)
    requires b <= |t|
    ensures r.Some? ==> EanShape(t, r.value) && r.value[0] == b
  {
    if !(b + 13 <= |t| && AllIn(t, b, b + 13, IsDigit)) then None
    else
      match Greedy(t, b + 13, CountClasses)
      case None => None
      case Some(g) =>
        var mrpStart := g[9];
        var m := RunEnd(t, mrpStart, IsDigitOrDot);
        match LastBoundary(t, mrpStart, m)
        case None => None
        case Some(e) =>
          var cuts := [b] + g + [e];
          assert cuts[1..11] == g;
          Some(cuts)
  }

  /** `\s+(\d{13})...` right after a description that ends at `de`. The
      whitespace run is maximal because the EAN that follows is not
      whitespace. */
  function Tail(t: string, de: nat): (r: Option<seq<nat>>)
    requires de <= |t|
    ensures r.Some? ==> TailShape(t, r.value) && r.value[0] == de
  {
    var b := RunEnd(t, de, IsSpace);
    if b == de then None
    else
      match EanFrom(t, b)
      case Some(e) =>
        assert ([de] + e)[1..] == e;
        Some([de] + e)
      case None => None
  }

  /** One step of the EAN scan, for a given count reading and MRP end. */
  lemma EanFromOf(t: string, b: nat, g: seq<nat>, e: nat)
    requires b + 13 <= |t| && AllIn(t, b, b + 13, IsDigit)
    requires Greedy(t, b + 13, CountClasses) == Some(g)
    requires LastBoundary(t, g[9], RunEnd(t, g[9], IsDigitOrDot)) == Some(e)
    ensures EanFrom(t, b) == Some([b] + g + [e])
  {
  }

  /** One step of the tail scan, for a given EAN reading. */
  lemma TailOf(t: string, de: nat, e: seq<nat>)
    requires de <= |t| && de < RunEnd(t, de, IsSpace) && EanFrom(t, RunEnd(t, de, IsSpace)) == Some(e)
    ensures Tail(t, de) == Some([de] + e)
  {
  }

  /** The tail read at each end up to `hi`. */
  function TailTable(t: string, hi: nat): (m: seq<Option<seq<nat>>>)
    requires hi <= |t|
    ensures |m| == hi + 1
    ensures forall q :: 0 <= q <= hi ==> m[q] == Tail(t, q)
  {
    seq(hi + 1, q requires 0 <= q <= hi => Tail(t, q))
  }

  /** The lazy description `+?`: the least end `x` in `de..hi` after which
      the rest of the row matches. */
  function LazyEnd(t: string, de: nat, hi: nat): (r: Option<nat>)
    requires de <= hi + 1 && hi <= |t|
    ensures r.Some? ==> de <= r.value <= hi && Tail(t, r.value).Some?
    ensures r.Some? ==> forall x :: de <= x < r.value ==> Tail(t, x).None?
    ensures r.None? ==> forall x :: de <= x <= hi ==> Tail(t, x).None?
  {
    FirstSome(TailTable(t, hi), de)
  }

  /** The cut points of the lazy description's end and the tail after it. */
  function LazyDescription(t: string, de: nat, hi: nat): (r: Option<seq<nat>>)
    requires de <= hi + 1 && hi <= |t|
    ensures r.Some? ==> TailShape(t, r.value) && de <= r.value[0] <= hi
    ensures r.Some? ==> forall x :: de <= x < r.value[0] ==> Tail(t, x).None?
    ensures r.Some? ==> Tail(t, r.value[0]) == r
    ensures r.None? ==> forall x :: de <= x <= hi ==> Tail(t, x).None?
  {
    match LazyEnd(t, de, hi)
    case None => None
    case Some(x) => Tail(t, x)
  }

  /** The lazy search is characterised by its result: it finds `x` exactly
      when a tail follows `x` and none follows any earlier end from `de`. */
  lemma LazyEndIs(t: string, de: nat, hi: nat, x: nat)
    requires de <= x <= hi <= |t|
    ensures LazyEnd(t, de, hi) == Some(x) <==>
      Tail(t, x).Some? && forall y :: de <= y < x ==> Tail(t, y).None?
  {
    var m := TailTable(t, hi);
    if Tail(t, x).Some? && forall y :: de <= y < x ==> Tail(t, y).None? {
      assert forall q :: de <= q < x ==> m[q].None?;
      FirstSomeAt(m, de, x);
    }
  }

  /** The lazy description is the tail after the end the search finds. */
  lemma LazyDescriptionOf(t: string, de: nat, hi: nat, x: nat)
    requires de <= hi + 1 && hi <= |t| && LazyEnd(t, de, hi) == Some(x)
    ensures LazyDescription(t, de, hi) == Tail(t, x)
  {
  }

  /** The description read from `a`, where the whitespace before it
      ends: it grows lazily up to the first end after which a tail
      follows, within the run of description characters from `a`. The
      result is `a` followed by the tail's cut points. */
  function DescriptionFrom(t: string, a: nat): (r: Option<seq<nat>>)
    requires a <= |t|
    ensures r.Some? ==> |r.value| == 14 && r.value[0] == a && TailShape(t, r.value[1..])
    ensures r.Some? ==> Span(t, a, r.value[1], IsDescChar) && Tail(t, r.value[1]) == Some(r.value[1..])
    ensures r.Some? ==> forall x :: a < x < r.value[1] ==> Tail(t, x).None?
    ensures r.None? ==> forall x :: a < x <= RunEnd(t, a, IsDescChar) ==> Tail(t, x).None?
  {
    match LazyDescription(t, a + 1, RunEnd(t, a, IsDescChar))
    case None => None
    case Some(d) =>
      assert AllIn(t, a, d[0], IsDescChar);
      assert ([a] + d)[1..] == d;
      Some([a] + d)
  }

  /** The part of the row after the Article, which ends at `c3`: the
      whitespace after it is first taken whole (up to `a`) and the
      description grows lazily from there. If no end works, the engine
      gives whitespace back before the description; the only new reading
      that can then succeed is a description made of the one whitespace
      character at `a - 2`, with the EAN at `a`. The result is the
      description start followed by the tail's cut points. */
  function DescriptionOn(t: string, c3: nat): (r: Option<seq<nat>>)
    requires c3 <= |t|
    ensures r.Some? ==> |r.value| == 14 && TailShape(t, r.value[1..])
    ensures r.Some? ==> Span(t, c3, r.value[0], IsSpace) && Span(t, r.value[0], r.value[1], IsDescChar)
    ensures r.Some? ==> Tail(t, r.value[1]) == Some(r.value[1..])
    ensures r.Some? && r.value[0] == RunEnd(t, c3, IsSpace) ==>
      forall x :: r.value[0] < x < r.value[1] ==> Tail(t, x).None?
    ensures r.Some? && r.value[0] != RunEnd(t, c3, IsSpace) ==>
      && r.value[0] + 2 == RunEnd(t, c3, IsSpace) == r.value[1] + 1 && c3 + 3 <= RunEnd(t, c3, IsSpace)
      && forall x :: RunEnd(t, c3, IsSpace) < x <= RunEnd(t, RunEnd(t, c3, IsSpace), IsDescChar) ==> Tail(t, x).None?
  {
    var a := RunEnd(t, c3, IsSpace);
    if a == c3 then None
    else
      var from := DescriptionFrom(t, a);
      if from.Some? then from
      else if a - c3 >= 3 then
        match Tail(t, a - 1)
        case Some(d) =>
          assert IsDescChar(t[a - 2]);
          assert ([a - 2] + d)[1..] == d;
          Some([a - 2] + d)
        case None => None
      else None
  }

  /** The description scan when the lazy search succeeds. */
  lemma DescriptionLazyOf(t: string, c3: nat, d: seq<nat>)
    requires c3 <= |t| && c3 < RunEnd(t, c3, IsSpace)
    requires LazyDescription(t, RunEnd(t, c3, IsSpace) + 1, RunEnd(t, RunEnd(t, c3, IsSpace), IsDescChar)) == Some(d)
    ensures DescriptionOn(t, c3) == Some([RunEnd(t, c3, IsSpace)] + d)
  {
    DescriptionFromOf(t, RunEnd(t, c3, IsSpace), d);
  }

  /** The lazy search read from `a` when it succeeds. */
  lemma DescriptionFromOf(t: string, a: nat, d: seq<nat>)
    requires a <= |t| && LazyDescription(t, a + 1, RunEnd(t, a, IsDescChar)) == Some(d)
    ensures DescriptionFrom(t, a) == Some([a] + d)
  {
  }


  /** The row pattern tried at position `p` alone: the two numbers and the
      whitespace between them are maximal runs, then the rest as above. */
  function RowAt(t: string, p: nat): (r: Option<seq<nat>>)
    requires p <= |t|
    ensures r.Some? ==> RowShape(t, r.value) && r.value[0] == p
    ensures r.Some? ==> Maximal(t, r.value[..4], LeadClasses) && DescriptionOn(t, r.value[3]) == Some(r.value[4..])
  {
    match Greedy(t, p, LeadClasses)
    case None => None
    case Some(lead) =>
      match DescriptionOn(t, lead[3])
      case None => None
      case Some(rest) =>
        RowJoin(t, lead, rest);
        Some(lead + rest)
  }

  /** The row scan for a given lead and rest. */
  lemma RowAtOf(t: string, p: nat, lead: seq<nat>, rest: seq<nat>)
    requires p <= |t|
    requires Greedy(t, p, LeadClasses) == Some(lead) && DescriptionOn(t, lead[3]) == Some(rest)
    ensures RowAt(t, p) == Some(lead + rest)
  {
  }

  /** A row is the lead (S No, whitespace, Article) followed by the rest:
      whitespace up to the description start, the description, a tail. */
  lemma RowJoin(t: string, lead: seq<nat>, rest: seq<nat>)
    requires Spans(t, lead, LeadClasses)
    requires |rest| == 14 && TailShape(t, rest[1..])
    requires Span(t, lead[3], rest[0], IsSpace) && Span(t, rest[0], rest[1], IsDescChar)
    ensures RowShape(t, lead + rest) && (lead + rest)[0] == lead[0]
  {
    var c := lead + rest;
    assert c[..4] == lead;
    assert c[5..] == rest[1..];
    assert c[3] == lead[3] && c[4] == rest[0] && c[5] == rest[1];
  }

  /** The EAN scan pins its reading: UoM and quantities are the maximal
      runs of their classes, and the MRP is the longest run of digits and
      dots that ends at a word boundary. */
  lemma EanFromChoice(t: string, b: nat)
    requires b <= |t| && EanFrom(t, b).Some?
    ensures var e := EanFrom(t, b).value;
      && Maximal(t, e[1..11], CountClasses)
      && e[11] <= RunEnd(t, e[10], IsDigitOrDot)
      && forall x :: e[11] < x <= RunEnd(t, e[10], IsDigitOrDot) ==> !WordBoundary(t, x)
  {
  }

  /** The tail takes all the whitespace after the description and reads
      the EAN from where it stops. */
  lemma TailChoice(t: string, de: nat)
    requires de <= |t| && Tail(t, de).Some?
    ensures EanFrom(t, RunEnd(t, de, IsSpace)) == Some(Tail(t, de).value[1..])
  {
  }

  /** If `t[i..j]` is all `P`, the greedy run from `i` reaches at least `j`. */
  lemma {:induction false} RunEndAtLeast(t: string, i: nat, j: nat, P: char -> bool)
    requires i <= j <= |t|
    requires AllIn(t, i, j, P)
    ensures RunEnd(t, i, P) >= j
    decreases j - i
  {
    if i < j {
      RunEndAtLeast(t, i + 1, j, P);
    }
  }

  /** The EAN part of the scanner finds a match wherever the EAN shape
      can be read. */
  lemma EanFromComplete(t: string, e: seq<nat>)
    requires EanShape(t, e)
    ensures EanFrom(t, e[0]).Some?
  {
    EanCountsMaximal(t, e);
    GreedyComplete(t, e[1..11], CountClasses);
    RunEndAtLeast(t, e[10], e[11], IsDigitOrDot);
  }

  /** In any reading of the EAN shape the UoM and quantity runs are
      maximal: each class excludes the first character of the next. */
  lemma EanCountsMaximal(t: string, e: seq<nat>)
    requires EanShape(t, e)
    ensures Maximal(t, e[1..11], CountClasses)
  {
    var g := e[1..11];
    forall k | 0 <= k < |CountClasses| && g[k + 1] < |t|
      ensures !CountClasses[k](t[g[k + 1]])
    {
      if k + 1 < |CountClasses| {
        assert Span(t, g[k + 1], g[k + 2], CountClasses[k + 1]);
      } else {
        assert Span(t, e[10], e[11], IsDigitOrDot);
      }
      CharClassInclusions(t[g[k + 1]]);
    }
  }

  lemma TailComplete(t: string, d: seq<nat>)
    requires TailShape(t, d)
    ensures Tail(t, d[0]).Some?
  {
    var e := d[1..];
    CharClassInclusions(t[e[0]]);
    RunEndExact(t, d[0], d[1], IsSpace);
    EanFromComplete(t, e);
  }

  /** In any reading of the row shape the lead runs are maximal, so the
      greedy scan finds them. */
  lemma LeadFound(t: string, c: seq<nat>)
    requires RowShape(t, c)
    ensures Greedy(t, c[0], LeadClasses) == Some(c[..4])
  {
    var lead := c[..4];
    assert Maximal(t, lead, LeadClasses) by {
      forall k | 0 <= k < 3 && lead[k + 1] < |t|
        ensures !LeadClasses[k](t[lead[k + 1]])
      {
        if k < 2 {
          assert Span(t, lead[k + 1], lead[k + 2], LeadClasses[k + 1]);
        } else {
          assert Span(t, c[3], c[4], IsSpace);
        }
        CharClassInclusions(t[lead[k + 1]]);
      }
    }
    GreedyComplete(t, lead, LeadClasses);
  }

  /** The lazy branch of the description scan succeeds when some end `x`
      past `a` is reachable through description characters. */
  lemma LazyBranchFound(t: string, c3: nat, x: nat)
    requires c3 <= |t| && x <= |t|
    requires RunEnd(t, c3, IsSpace) > c3
    requires RunEnd(t, c3, IsSpace) < x && AllIn(t, RunEnd(t, c3, IsSpace), x, IsDescChar)
    requires Tail(t, x).Some?
    ensures DescriptionOn(t, c3).Some?
  {
    RunEndAtLeast(t, RunEnd(t, c3, IsSpace), x, IsDescChar);
  }

  /** The fallback branch succeeds when the whitespace after the Article
      has at least three characters and the EAN follows it. */
  lemma FallbackBranchFound(t: string, c3: nat)
    requires c3 <= |t|
    requires RunEnd(t, c3, IsSpace) >= c3 + 3
    requires Tail(t, RunEnd(t, c3, IsSpace) - 1).Some?
    ensures DescriptionOn(t, c3).Some?
  {
  }

  /** Whether a tail follows depends only on where the whitespace before
      the EAN ends. */
  lemma TailFromSameGround(t: string, x: nat, y: nat)
    requires x <= |t| && y <= |t|
    requires RunEnd(t, x, IsSpace) == RunEnd(t, y, IsSpace) > x
    requires RunEnd(t, y, IsSpace) > y
    ensures Tail(t, x).Some? == Tail(t, y).Some?
  {
  }

  /** Any reading of whitespace, description and tail after `c3` makes
      the description scan succeed, through the lazy search or through the
      fallback. */
  lemma DescriptionFound(t: string, c3: nat, rest: seq<nat>)
    requires |rest| == 14 && TailShape(t, rest[1..])
    requires Span(t, c3, rest[0], IsSpace) && Span(t, rest[0], rest[1], IsDescChar)
    ensures DescriptionOn(t, c3).Some?
  {
    RunEndAtLeast(t, c3, rest[0], IsSpace);
    if rest[1] > RunEnd(t, c3, IsSpace) {
      DescriptionFoundLazy(t, c3, rest);
    } else {
      DescriptionFoundFallback(t, c3, rest);
    }
  }

  /** The whitespace run before the description stops before the tail:
      the lazy description reaches the tail. */
  lemma DescriptionFoundLazy(t: string, c3: nat, rest: seq<nat>)
    requires |rest| == 14 && TailShape(t, rest[1..])
    requires Span(t, c3, rest[0], IsSpace) && Span(t, rest[0], rest[1], IsDescChar)
    requires rest[0] <= RunEnd(t, c3, IsSpace) < rest[1]
    ensures DescriptionOn(t, c3).Some?
  {
    var d := rest[1..];
    TailComplete(t, d);
    assert AllIn(t, RunEnd(t, c3, IsSpace), d[0], IsDescChar);
    LazyBranchFound(t, c3, d[0]);
  }

  /** The whitespace run before the description reaches into the tail's
      own whitespace: the engine gives back one character and the fallback
      reading succeeds. */
  lemma DescriptionFoundFallback(t: string, c3: nat, rest: seq<nat>)
    requires |rest| == 14 && TailShape(t, rest[1..])
    requires Span(t, c3, rest[0], IsSpace) && Span(t, rest[0], rest[1], IsDescChar)
    requires rest[1] <= RunEnd(t, c3, IsSpace)
    ensures DescriptionOn(t, c3).Some?
  {
    var d := rest[1..];
    var e := d[1..];
    var a := RunEnd(t, c3, IsSpace);
    TailComplete(t, d);
    CharClassInclusions(t[e[0]]);
    RunEndExact(t, d[0], d[1], IsSpace);
    assert AllIn(t, d[0], a, IsSpace);
    RunEndExact(t, d[0], a, IsSpace);
    RunEndExact(t, a - 1, a, IsSpace);
    TailFromSameGround(t, d[0], a - 1);
    FallbackBranchFound(t, c3);
  }

  /** Any reading of the row shape at `c[0]` makes the scanner succeed there. */
  lemma RowFound(t: string, c: seq<nat>)
    requires RowShape(t, c)
    ensures RowAt(t, c[0]).Some?
  {
    LeadFound(t, c);
    var rest := c[4..];
    assert rest[1..] == c[5..];
    DescriptionFound(t, c[3], rest);
  }

  /** The scanner is exact: it finds a row at `p` if and only if the row
      shape can be read starting at `p`. */
  lemma RowAtComplete(t: string, p: nat)
    requires p <= |t|
    ensures RowAt(t, p).Some? <==> StartsRow(t, p)
  {
    if StartsRow(t, p) {
      var c :| RowShape(t, c) && c[0] == p;
      RowFound(t, c);
    }
  }

  // ---------------------------------------------------------------------
  // finditer
  // ---------------------------------------------------------------------

  /** The outcome of the row pattern at every position of `t`, the end
      of the text included. */
  function RowTable(t: string): (m: seq<Option<seq<nat>>>)
    ensures |m| == |t| + 1
    ensures forall q :: 0 <= q <= |t| ==> m[q] == RowAt(t, q)
  {
    seq(|t| + 1, q requires 0 <= q <= |t| => RowAt(t, q))
  }

  /** The next row at or after `pos`: the least position where one starts. */
  function NextRow(t: string, pos: nat): (r: Option<seq<nat>>)
    requires pos <= |t| + 1
    ensures r.Some? ==> RowShape(t, r.value) && pos <= r.value[0]
    ensures r.Some? ==> RowAt(t, r.value[0]) == r
    ensures r.Some? ==> forall q :: pos <= q < r.value[0] ==> RowAt(t, q).None?
    ensures r.None? ==> forall q :: pos <= q <= |t| ==> RowAt(t, q).None?
  {
    var table := RowTable(t);
    match FirstSome(table, pos)
    case Some(p) =>
      assert table[p] == RowAt(t, p);
      table[p]
    case None => None
  }

  /** The next row from `pos` is the one at `p` when no row starts
      between them. */
  lemma NextRowAt(t: string, pos: nat, p: nat)
    requires pos <= p <= |t| && RowAt(t, p).Some?
    requires forall q :: pos <= q < p ==> RowAt(t, q).None?
    ensures NextRow(t, pos) == RowAt(t, p)
  {
    FirstSomeAt(RowTable(t), pos, p);
  }

  /** What `finditer` promises about the rows it returns from `pos` on:
      each starts at the first position where any row starts, it is the
      reading the row pattern makes there, and the scan resumes where it
      ended. */
  ghost predicate Scan(t: string, pos: nat, rows: seq<seq<nat>>)
    decreases |rows|
  {
    if rows == [] then
      forall q :: pos <= q <= |t| ==> !StartsRow(t, q)
    else
      && RowShape(t, rows[0])
      && pos <= rows[0][0]
      && RowAt(t, rows[0][0]) == Some(rows[0])
      && (forall q :: pos <= q < rows[0][0] ==> !StartsRow(t, q))
      && Scan(t, rows[0][17], rows[1..])
  }

  /** Where the scanner finds no row, no reading of the row shape starts. */
  lemma NoRowStarts(t: string, lo: nat, hi: nat)
    requires hi <= |t| + 1
    requires forall q :: lo <= q < hi ==> RowAt(t, q).None?
    ensures forall q :: lo <= q < hi ==> !StartsRow(t, q)
  {
    forall q | lo <= q < hi ensures !StartsRow(t, q) {
      RowAtComplete(t, q);
    }
  }

  /** A first row found from `pos`, followed by a scan from its end, is a
      scan from `pos`. */
  lemma ScanCons(t: string, pos: nat, c: seq<nat>, rest: seq<seq<nat>>)
    requires RowShape(t, c) && pos <= c[0] && RowAt(t, c[0]) == Some(c)
    requires forall q :: pos <= q < c[0] ==> !StartsRow(t, q)
    requires Scan(t, c[17], rest)
    requires forall i :: 0 <= i < |rest| ==> RowShape(t, rest[i]) && c[17] <= rest[i][0]
    requires forall i, j :: 0 <= i < j < |rest| ==> |rest[i]| == |rest[j]| == 18 && rest[i][17] <= rest[j][0]
    ensures Scan(t, pos, [c] + rest)
    ensures forall i :: 0 <= i < |[c] + rest| ==> RowShape(t, ([c] + rest)[i]) && pos <= ([c] + rest)[i][0]
    ensures forall i, j :: 0 <= i < j < |[c] + rest| ==>
      |([c] + rest)[i]| == |([c] + rest)[j]| == 18 && ([c] + rest)[i][17] <= ([c] + rest)[j][0]
  {
    var rows := [c] + rest;
    assert rows[1..] == rest;
    RowShapeBounds(t, c);
    forall i | 0 <= i < |rows| ensures RowShape(t, rows[i]) && pos <= rows[i][0] {
      if i > 0 {
        assert rows[i] == rest[i - 1];
      }
    }
    forall i, j | 0 <= i < j < |rows|
      ensures |rows[i]| == |rows[j]| == 18 && rows[i][17] <= rows[j][0]
    {
      assert rows[j] == rest[j - 1];
      if i > 0 {
        assert rows[i] == rest[i - 1];
      }
    }
  }

  /** `finditer` from `pos`: rows left to right, each starting no earlier
      than the previous one ended. */
  function FindAll(t: string, pos: nat): (rows: seq<seq<nat>>)
    requires pos <= |t|
    ensures Scan(t, pos, rows)
    ensures forall i :: 0 <= i < |rows| ==> RowShape(t, rows[i]) && pos <= rows[i][0]
    ensures forall i, j :: 0 <= i < j < |rows| ==> |rows[i]| == |rows[j]| == 18 && rows[i][17] <= rows[j][0]
    decreases |t| - pos
  {
    var next := NextRow(t, pos);
    if next.None? then
      NoRowStarts(t, pos, |t| + 1);
      []
    else
      var c := next.value;
      RowShapeBounds(t, c);
      var rest := FindAll(t, c[17]);
      NoRowStarts(t, pos, c[0]);
      ScanCons(t, pos, c, rest);
      [c] + rest
  }

  /** The first row of a scan and the scan after it. */
  lemma ScanStep(t: string, pos: nat, rows: seq<seq<nat>>)
    requires Scan(t, pos, rows) && rows != []
    ensures RowShape(t, rows[0]) && rows[0][0] <= |t|
    ensures RowAt(t, rows[0][0]) == Some(rows[0])
    ensures Scan(t, rows[0][17], rows[1..])
  {
    RowShapeBounds(t, rows[0]);
  }

  /** A scan is empty exactly when no reading of the row shape starts at
      or after `pos`. */
  lemma ScanEmpty(t: string, pos: nat, rows: seq<seq<nat>>)
    requires Scan(t, pos, rows)
    ensures rows == [] <==> forall q :: pos <= q <= |t| ==> !StartsRow(t, q)
  {
    if rows != [] {
      RowShapeBounds(t, rows[0]);
      assert StartsRow(t, rows[0][0]);
    }
  }

  /** Two scans from `pos` that find a row find the same first row. */
  lemma ScanHeads(t: string, pos: nat, a: seq<seq<nat>>, b: seq<seq<nat>>)
    requires Scan(t, pos, a) && Scan(t, pos, b) && a != [] && b != []
    ensures a[0] == b[0]
  {
    RowShapeBounds(t, a[0]);
    RowShapeBounds(t, b[0]);
    assert StartsRow(t, a[0][0]) && StartsRow(t, b[0][0]);
    assert a[0][0] == b[0][0];
  }

  /** The scan from `pos` is unique: `finditer`'s rows are determined by
      the text. */
  lemma {:induction false} ScanUnique(t: string, pos: nat, a: seq<seq<nat>>, b: seq<seq<nat>>)
    requires Scan(t, pos, a) && Scan(t, pos, b)
    ensures a == b
    decreases |a|
  {
    ScanEmpty(t, pos, a);
    ScanEmpty(t, pos, b);
    if a != [] && b != [] {
      ScanHeads(t, pos, a, b);
      ScanStep(t, pos, a);
      ScanStep(t, pos, b);
      ScanUnique(t, a[0][17], a[1..], b[1..]);
      ConsEqual(a, b);
    }
  }

  /** No row starts at the end of the text, so the scan from there finds
      nothing. */
  lemma FindAllAtEnd(t: string)
    ensures FindAll(t, |t|) == []
  {
    RunEndExact(t, |t|, |t|, IsDigit);
    assert RowAt(t, |t|).None?;
    assert RowTable(t)[|t|].None?;
  }

  /** A text whose only row runs to its end scans to that one row. */
  lemma FindAllOne(t: string, pos: nat, c: seq<nat>)
    requires |c| == 18 && pos <= c[0] <= |t| && c[17] == |t|
    requires RowAt(t, c[0]) == Some(c)
    requires forall q :: pos <= q < c[0] ==> RowAt(t, q).None?
    ensures FindAll(t, pos) == [c]
  {
    NextRowAt(t, pos, c[0]);
    FindAllAtEnd(t);
  }
}
