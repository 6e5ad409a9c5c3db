/** The metadata half of `extract_grn_data`: a table of seven
    case-insensitive patterns, each searched for with `re.search` (the
    first position of the text at which the whole pattern matches), and
    the derived Challan number. */
module Metadata {
  import opened Base

  /** What a pattern captures after its label. */
  datatype Capture =
    | Token        // `(\S+)`
    | DayMonthYear // `(\d{2}\.\d{2}\.\d{4})`
    | RestOfLine   // `([^\n]+)\n`

  /** One row of the pattern table. `Labelled(mark, spacedColon, cap)` is
      `mark \s* : \s* cap` when `spacedColon` holds and `mark \s* cap`
      otherwise (then `mark` ends in its own colon). `PoDate` is the one
      pattern with two alternatives. */
  datatype Pattern =
    | Labelled(mark: string, spacedColon: bool, capture: Capture)
    | PoDate

  const GrnNoPattern: Pattern := Labelled("GOODS RECEIPT NOTE No.", true, Token)
  const GrnDatePattern: Pattern := Labelled("Date:", false, DayMonthYear)
  const VendorInvoicePattern: Pattern := Labelled("Vendor invoice no", true, Token)
  const ConsigneePattern: Pattern := Labelled("Consignee", true, RestOfLine)
  const PoNoPattern: Pattern := Labelled("PO Number", true, Token)
  const TruckNoPattern: Pattern := Labelled("Truck/ Lorry/ Carrier No:", false, Token)
  /** The labels of the two alternatives of the PO Date pattern. */
  const PoNumberMark := "PO Number"
  const DateMark := "Date"

  /** The fixed-schema metadata record; `None` is Python's `None`. */
  datatype GrnMetadata = GrnMetadata(
    grnNo: Option<string>,
    grnDate: Option<string>,
    vendorInvoiceNo: Option<string>,
    poNo: Option<string>,
    poDate: Option<string>,
    consigneeLocation: Option<string>,
    truckNo: Option<string>,
    challanNo: Option<string>)

  /** A `\d{2}\.\d{2}\.\d{4}` date. */
  predicate IsDate(v: string) {
    && |v| == 10
    && IsDigit(v[0]) && IsDigit(v[1]) && v[2] == '.'
    && IsDigit(v[3]) && IsDigit(v[4]) && v[5] == '.'
    && IsDigit(v[6]) && IsDigit(v[7]) && IsDigit(v[8]) && IsDigit(v[9])
  }

  /** The shape every capture of kind `cap` has. */
  predicate Shaped(v: string, cap: Capture) {
    match cap
    case Token => |v| > 0 && All(v, NotSpace)
    case DayMonthYear => IsDate(v)
    case RestOfLine => |v| > 0 && All(v, NotNewline)
  }

  /** The capture kind of a pattern. */
  function CaptureOf(pat: Pattern): Capture {
    match pat
    case Labelled(_, _, cap) => cap
    case PoDate => DayMonthYear
  }

  /** `v` occurs in `s` starting at position `q`. */
  predicate TextAt(s: string, q: nat, v: string) {
    q + |v| <= |s| && s[q..q + |v|] == v
  }

  /** After the label ends at `i`: the optional `\s*:` (greedy whitespace
      cannot be given back, a colon is not whitespace). Returns where the
      whitespace before the capture starts. */
  function AfterSeparator(s: string, i: nat, spacedColon: bool): (c: Option<nat>)
    requires i <= |s|
    ensures c.Some? ==> i <= c.value <= |s|
    ensures c.Some? && spacedColon ==> i < c.value && s[c.value - 1] == ':' && AllIn(s, i, c.value - 1, IsSpace)
    ensures c.None? ==> spacedColon && (RunEnd(s, i, IsSpace) == |s| || s[RunEnd(s, i, IsSpace)] != ':')
    ensures !spacedColon ==> c == Some(i)
  {
    if spacedColon then
      var j := RunEnd(s, i, IsSpace);
      if j < |s| && s[j] == ':' then Some(j + 1) else None
    else Some(i)
  }

  /** `[^\n]+\n` tried at `k`: the rest of the line from `k`, which must be
      non-empty and ended by a line feed. */
  function LineFrom(s: string, k: nat): (r: Option<string>)
    requires k <= |s|
    ensures r.Some? ==> Shaped(r.value, RestOfLine)
    ensures r.Some? ==> TextAt(s, k, r.value) && k + |r.value| < |s| && s[k + |r.value|] == '\n'
    ensures r.None? ==> k == |s| || s[k] == '\n' || AllIn(s, k, |s|, NotNewline)
  {
    if k < |s| && s[k] != '\n' then
      var e := RunEnd(s, k, NotNewline);
      if e < |s| then Some(s[k..e]) else None
    else None
  }

  /** `r` is the line the engine reads after giving back whitespace from
      `k` down to `c`: the line from the greatest start in `c..k` that has
      one, or `None` when no start there has one. */
  ghost predicate LastLine(s: string, c: nat, k: nat, r: Option<string>)
    requires c <= k <= |s|
  {
    match r
    case Some(_) =>
      exists x :: c <= x <= k && LineFrom(s, x) == r
                  && forall y :: x < y <= k ==> LineFrom(s, y).None?
    case None => forall x :: c <= x <= k ==> LineFrom(s, x).None?
  }

  /** `\s*([^\n]+)\n` where the whitespace run spans `s[c..k]`: the
      engine tries the longest run first and then gives characters back
      one at a time, so a capture may begin with whitespace when the text
      after it has no line feed. */
  function LineBack(s: string, c: nat, k: nat): (r: Option<string>)
    requires c <= k <= |s|
    ensures r.Some? ==> Shaped(r.value, RestOfLine)
    ensures LastLine(s, c, k, r)
    decreases k
  {
    match LineFrom(s, k)
    case Some(v) => Some(v)
    case None => if k == c then None else LineBack(s, c, k - 1)
  }

  /** The capture of kind `cap` whose leading `\s*` starts at `c`. */
  function CaptureAt(s: string, c: nat, cap: Capture): (r: Option<string>)
    requires c <= |s|
    ensures r.Some? ==> Shaped(r.value, cap)
    ensures cap != RestOfLine && r.Some? ==> TextAt(s, RunEnd(s, c, IsSpace), r.value)
    ensures cap == Token && r.Some? ==>
      var e := RunEnd(s, c, IsSpace) + |r.value|; e == |s| || IsSpace(s[e])
    ensures cap == Token && r.None? ==> RunEnd(s, c, IsSpace) == |s|
    ensures cap == RestOfLine ==> LastLine(s, c, RunEnd(s, c, IsSpace), r)
    ensures cap == DayMonthYear ==>
      (r.Some? <==> var q := RunEnd(s, c, IsSpace); q + 10 <= |s| && IsDate(s[q..q + 10]))
  {
    var q := RunEnd(s, c, IsSpace);
    match cap
    case Token =>
      var e := RunEnd(s, q, NotSpace);
      if q < e then Some(s[q..e]) else None
    case DayMonthYear =>
      if q + 10 <= |s| && IsDate(s[q..q + 10]) then Some(s[q..q + 10]) else None
    case RestOfLine =>
      LineBack(s, c, q)
  }

  /** `Date\s*:\s*(\d{2}\.\d{2}\.\d{4})` at position `j`. */
  function DateFieldAt(s: string, j: nat): (r: Option<string>)
    requires j <= |s|
    ensures r.Some? ==> IsDate(r.value) && LabelAt(s, j, DateMark)
  {
    if LabelAt(s, j, DateMark) then
      match AfterSeparator(s, j + |DateMark|, true)
      case Some(c) => CaptureAt(s, c, DayMonthYear)
      case None => None
    else None
  }

  /** A `Date` field is at `j` exactly when the label is there, then
      whitespace and a colon, then whitespace and a date; the field's value
      is that date. */
  lemma DateFieldExact(s: string, j: nat)
    requires j <= |s|
    ensures DateFieldAt(s, j).Some? <==>
      && LabelAt(s, j, DateMark)
      && var k := RunEnd(s, j + |DateMark|, IsSpace);
         && k < |s| && s[k] == ':'
         && var q := RunEnd(s, k + 1, IsSpace);
            q + 10 <= |s| && IsDate(s[q..q + 10])
    ensures DateFieldAt(s, j).Some? ==>
      var q := RunEnd(s, RunEnd(s, j + |DateMark|, IsSpace) + 1, IsSpace);
      DateFieldAt(s, j).value == s[q..q + 10]
  {
  }

  /** `.*?Date\s*:\s*(...)` from `j`: the lazy `.*?` tries the shortest
      gap first and may not cross a line feed. So the date is the one after
      the first `Date` field on the rest of the line. */
  function LazyDate(s: string, j: nat): (r: Option<string>)
    requires j <= |s|
    ensures r.Some? ==> IsDate(r.value)
    ensures r.Some? ==> exists x :: j <= x <= |s| && LabelAt(s, x, DateMark)
    decreases |s| - j
  {
    match DateFieldAt(s, j)
    case Some(v) => Some(v)
    case None =>
      if j < |s| && s[j] != '\n' then LazyDate(s, j + 1) else None
  }

  /** The lazy gap from `j` crosses a stretch of one line that holds no
      `Date` field and stops at the field at `x`. */
  lemma {:induction false} LazyDateReaches(s: string, j: nat, x: nat)
    requires j <= x <= |s| && AllIn(s, j, x, NotNewline)
    requires forall y :: j <= y < x ==> DateFieldAt(s, y).None?
    requires DateFieldAt(s, x).Some?
    ensures LazyDate(s, j) == DateFieldAt(s, x)
    decreases x - j
  {
    if j < x {
      LazyDateSkip(s, j);
      LazyDateReaches(s, j + 1, x);
    } else {
      LazyDateHit(s, j);
    }
  }

  /** A character that is not a line feed and starts no `Date` field
      joins the gap. */
  lemma LazyDateSkip(s: string, j: nat)
    requires j < |s| && s[j] != '\n' && DateFieldAt(s, j).None?
    ensures LazyDate(s, j) == LazyDate(s, j + 1)
  {
  }

  /** A `Date` field at `j` ends the gap there. */
  lemma LazyDateHit(s: string, j: nat)
    requires j <= |s| && DateFieldAt(s, j).Some?
    ensures LazyDate(s, j) == DateFieldAt(s, j)
  {
  }

  /** `r` is the date of the first `Date` field from `j` on the rest of
      the line, or `None` when the rest of the line has none. */
  ghost predicate FirstDateOnLine(s: string, j: nat, r: Option<string>)
    requires j <= |s|
  {
    match r
    case Some(_) =>
      exists x :: j <= x <= RunEnd(s, j, NotNewline) && DateFieldAt(s, x) == r
                  && forall y :: j <= y < x ==> DateFieldAt(s, y).None?
    case None => forall y :: j <= y <= RunEnd(s, j, NotNewline) ==> DateFieldAt(s, y).None?
  }

  /** The lazy gap stays on one line and stops at the first `Date` field
      there. */
  lemma {:induction false} LazyDateFirst(s: string, j: nat)
    requires j <= |s|
    ensures FirstDateOnLine(s, j, LazyDate(s, j))
    decreases |s| - j
  {
    if DateFieldAt(s, j).Some? {
      LazyDateHere(s, j);
    } else if j < |s| && s[j] != '\n' {
      LazyDateFirst(s, j + 1);
      LazyDateStep(s, j);
    } else {
      LazyDateLineEnd(s, j);
    }
  }

  /** A `Date` field right at `j` ends the gap at once. */
  lemma LazyDateHere(s: string, j: nat)
    requires j <= |s| && DateFieldAt(s, j).Some?
    ensures FirstDateOnLine(s, j, LazyDate(s, j))
  {
    assert LazyDate(s, j) == DateFieldAt(s, j);
    assert j <= j <= RunEnd(s, j, NotNewline);
  }

  /** At a line feed or the end of the text without a `Date` field the
      gap cannot grow. */
  lemma LazyDateLineEnd(s: string, j: nat)
    requires j <= |s| && DateFieldAt(s, j).None? && (j == |s| || s[j] == '\n')
    ensures FirstDateOnLine(s, j, LazyDate(s, j))
  {
    assert LazyDate(s, j).None?;
    assert RunEnd(s, j, NotNewline) == j;
    forall y | j <= y <= RunEnd(s, j, NotNewline)
      ensures DateFieldAt(s, y).None?
    {
      assert y == j;
    }
  }

  /** One step of the lazy gap over a character that is not a line feed
      and starts no `Date` field. */
  lemma LazyDateStep(s: string, j: nat)
    requires j < |s| && s[j] != '\n' && DateFieldAt(s, j).None?
    requires FirstDateOnLine(s, j + 1, LazyDate(s, j + 1))
    ensures FirstDateOnLine(s, j, LazyDate(s, j))
  {
    var r := LazyDate(s, j + 1);
    assert LazyDate(s, j) == r;
    assert RunEnd(s, j, NotNewline) == RunEnd(s, j + 1, NotNewline);
    if r.Some? {
      var x :| j + 1 <= x <= RunEnd(s, j + 1, NotNewline) && DateFieldAt(s, x) == r
               && forall y :: j + 1 <= y < x ==> DateFieldAt(s, y).None?;
      assert forall y :: j <= y < x ==> DateFieldAt(s, y).None?;
    }
  }

  /** The label a successful match of `pat` at `i` starts with. */
  predicate Anchored(s: string, i: nat, pat: Pattern)
    requires i <= |s|
  {
    match pat
    case Labelled(mark, _, _) => LabelAt(s, i, mark)
    case PoDate =>
      || LabelAt(s, i, PoNumberMark)
      || (LabelAt(s, i, DateMark) && (i == 0 || IsSpace(s[i - 1])))
  }

  /** The pattern tried at position `i` alone (what the regular
      expression engine does before advancing to `i + 1`). */
  function MatchAt(s: string, i: nat, pat: Pattern): (r: Option<string>)
    requires i <= |s|
    ensures r.Some? ==> Shaped(r.value, CaptureOf(pat))
    ensures r.Some? ==> Anchored(s, i, pat)
  {
    match pat
    case Labelled(mark, spacedColon, cap) =>
      if LabelAt(s, i, mark) then
        match AfterSeparator(s, i + |mark|, spacedColon)
        case Some(c) => CaptureAt(s, c, cap)
        case None => None
      else None
    case PoDate =>
      var first :=
        if LabelAt(s, i, PoNumberMark) then LazyDate(s, i + |PoNumberMark|) else None;
      if first.Some? then first
      else if i == 0 || IsSpace(s[i - 1]) then DateFieldAt(s, i)
      else None
  }

  /** `s[a..q]` is what a pattern skips between its label and its
      capture: whitespace, around exactly one colon when `spacedColon`
      holds. */
  ghost predicate Separator(s: string, a: nat, q: nat, spacedColon: bool)
    requires a <= q <= |s|
  {
    if spacedColon then
      exists k :: a <= k < q && AllIn(s, a, k, IsSpace) && s[k] == ':' && AllIn(s, k + 1, q, IsSpace)
    else AllIn(s, a, q, IsSpace)
  }

  /** `v` is text of `s` that follows position `a` after a separator. */
  ghost predicate CaptureAfter(s: string, a: nat, v: string, spacedColon: bool)
    requires a <= |s|
  {
    exists q :: a <= q <= |s| && Separator(s, a, q, spacedColon) && TextAt(s, q, v)
  }

  /** A capture taken from the whitespace that starts at `c` is text of
      `s` that follows `c` after whitespace. */
  lemma CaptureAtText(s: string, c: nat, cap: Capture)
    requires c <= |s| && CaptureAt(s, c, cap).Some?
    ensures exists q :: c <= q <= RunEnd(s, c, IsSpace) && TextAt(s, q, CaptureAt(s, c, cap).value)
  {
    var e := RunEnd(s, c, IsSpace);
    if cap == RestOfLine {
      var x :| c <= x <= e && LineFrom(s, x) == CaptureAt(s, c, cap)
               && forall y :: x < y <= e ==> LineFrom(s, y).None?;
      assert TextAt(s, x, CaptureAt(s, c, cap).value);
    } else {
      assert TextAt(s, e, CaptureAt(s, c, cap).value);
    }
  }

  /** The separator after a label, then the capture: the captured text
      sits in `s` after the label and its separator. */
  lemma SeparatedCapture(s: string, a: nat, spacedColon: bool, cap: Capture)
    requires a <= |s| && AfterSeparator(s, a, spacedColon).Some?
    requires CaptureAt(s, AfterSeparator(s, a, spacedColon).value, cap).Some?
    ensures CaptureAfter(s, a, CaptureAt(s, AfterSeparator(s, a, spacedColon).value, cap).value, spacedColon)
  {
    var c := AfterSeparator(s, a, spacedColon).value;
    var v := CaptureAt(s, c, cap).value;
    CaptureAtText(s, c, cap);
    var q :| c <= q <= RunEnd(s, c, IsSpace) && TextAt(s, q, v);
    assert AllIn(s, c, q, IsSpace);
    if spacedColon {
      assert a <= c - 1 < q && AllIn(s, a, c - 1, IsSpace) && s[c - 1] == ':' && AllIn(s, c, q, IsSpace);
    }
    assert Separator(s, a, q, spacedColon);
  }

  /** The capture of a labelled pattern is text of `s` that follows the
      label and its separator. */
  lemma LabelledText(s: string, i: nat, mark: string, spacedColon: bool, cap: Capture)
    requires i <= |s| && MatchAt(s, i, Labelled(mark, spacedColon, cap)).Some?
    ensures i + |mark| <= |s|
    ensures CaptureAfter(s, i + |mark|, MatchAt(s, i, Labelled(mark, spacedColon, cap)).value, spacedColon)
  {
    SeparatedCapture(s, i + |mark|, spacedColon, cap);
  }

  /** A `Date` field's date is the text after the label's separator. */
  lemma DateFieldText(s: string, x: nat)
    requires x <= |s| && DateFieldAt(s, x).Some?
    ensures x + |DateMark| <= |s| && CaptureAfter(s, x + |DateMark|, DateFieldAt(s, x).value, true)
  {
    SeparatedCapture(s, x + |DateMark|, true, DayMonthYear);
  }

  /** Where the PO date pattern matched at `i` may find its `Date` label:
      at `i` itself, or on the rest of the line of a `PO Number` label at
      `i`. */
  predicate PoDateLabel(s: string, i: nat, x: nat)
    requires i <= |s|
  {
    || x == i
    || (LabelAt(s, i, PoNumberMark) && i + |PoNumberMark| <= x <= RunEnd(s, i + |PoNumberMark|, NotNewline))
  }

  /** `v` is the date of a `Date` field whose label may serve the PO
      date pattern matched at `i`, and it is the text after that label's
      separator. */
  ghost predicate PoDateFrom(s: string, i: nat, v: string)
    requires i <= |s|
  {
    exists x :: i <= x <= |s| && PoDateLabel(s, i, x) && DateFieldAt(s, x) == Some(v)
                && CaptureAfter(s, x + |DateMark|, v, true)
  }

  /** The PO date is the date of a `Date` field, the text after that
      label's separator, where the label is the match position itself or
      lies on the line of the `PO Number` label the match starts with. */
  lemma PoDateText(s: string, i: nat)
    requires i <= |s| && MatchAt(s, i, PoDate).Some?
    ensures PoDateFrom(s, i, MatchAt(s, i, PoDate).value)
  {
    var x: nat;
    if LabelAt(s, i, PoNumberMark) && LazyDate(s, i + |PoNumberMark|).Some? {
      x := LazyDateAt(s, i + |PoNumberMark|);
    } else {
      x := i;
    }
    assert PoDateLabel(s, i, x) && DateFieldAt(s, x) == MatchAt(s, i, PoDate);
    DateFieldText(s, x);
  }

  /** Where the lazy gap of `LazyDate` ends. */
  lemma LazyDateAt(s: string, j: nat) returns (x: nat)
    requires j <= |s| && LazyDate(s, j).Some?
    ensures j <= x <= RunEnd(s, j, NotNewline) && DateFieldAt(s, x) == LazyDate(s, j)
  {
    LazyDateFirst(s, j);
    x :| j <= x <= RunEnd(s, j, NotNewline) && DateFieldAt(s, x) == LazyDate(s, j)
         && forall y :: j <= y < x ==> DateFieldAt(s, y).None?;
  }

  /** Both alternatives of the PO date pattern contain the `Date` label. */
  lemma PoDateHasDate(s: string, i: nat)
    requires i <= |s| && MatchAt(s, i, PoDate).Some?
    ensures exists x :: i <= x <= |s| && LabelAt(s, x, DateMark)
  {
    if !(LabelAt(s, i, PoNumberMark) && LazyDate(s, i + |PoNumberMark|).Some?) {
      assert LabelAt(s, i, DateMark);
    }
  }

  /** A successful search: where the match starts and what it captured. */
  datatype Hit = Hit(pos: nat, value: string)

  /** The outcome of trying `pat` at every position of `s`, the end of
      the text included. */
  function MatchTable(s: string, pat: Pattern): (m: seq<Option<string>>)
    ensures |m| == |s| + 1
    ensures forall q :: 0 <= q <= |s| ==> m[q] == MatchAt(s, q, pat)
  {
    seq(|s| + 1, q requires 0 <= q <= |s| => MatchAt(s, q, pat))
  }

  /** `re.search` from position `i`: the match at the least position
      from `i` on, or `None` when no position from `i` on matches. */
  function SearchFrom(s: string, i: nat, pat: Pattern): (r: Option<Hit>)
    requires i <= |s| + 1
    ensures r.Some? ==> i <= r.value.pos <= |s| && MatchAt(s, r.value.pos, pat) == Some(r.value.value)
    ensures r.Some? ==> forall q :: i <= q < r.value.pos ==> MatchAt(s, q, pat).None?
    ensures r.None? ==> forall q :: i <= q <= |s| ==> MatchAt(s, q, pat).None?
  {
    var m := MatchTable(s, pat);
    match FirstSome(m, i)
    case Some(p) => Some(Hit(p, m[p].value))
    case None => None
  }

  /** `v` is what `re.search(pat, s)` captures: the capture of the first
      position at which the pattern matches, or `None` if none does. */
  ghost predicate FirstCapture(s: string, pat: Pattern, v: Option<string>) {
    match v
    case None => forall q :: 0 <= q <= |s| ==> MatchAt(s, q, pat).None?
    case Some(_) =>
      exists p :: 0 <= p <= |s| && MatchAt(s, p, pat) == v
                  && forall q :: 0 <= q < p ==> MatchAt(s, q, pat).None?
  }

  /** One metadata field: the capture of the first match, or `None`. */
  function Field(s: string, pat: Pattern): (v: Option<string>)
    ensures FirstCapture(s, pat, v)
    ensures v.Some? ==> Shaped(v.value, CaptureOf(pat))
  {
    match SearchFrom(s, 0, pat)
    case Some(h) => Some(h.value)
    case None => None
  }

  /** Python truthiness of an optional string. */
  predicate Truthy(v: Option<string>) {
    v.Some? && |v.value| > 0
  }

  /** `m` is the metadata record of `text`: every field is the capture of
      the first match of its own pattern, and Challan, which no pattern
      sets, repeats the vendor invoice number. */
  ghost predicate MetadataOf(text: string, m: GrnMetadata) {
    && FirstCapture(text, GrnNoPattern, m.grnNo)
    && FirstCapture(text, GrnDatePattern, m.grnDate)
    && FirstCapture(text, VendorInvoicePattern, m.vendorInvoiceNo)
    && FirstCapture(text, PoNoPattern, m.poNo)
    && FirstCapture(text, PoDate, m.poDate)
    && FirstCapture(text, ConsigneePattern, m.consigneeLocation)
    && FirstCapture(text, TruckNoPattern, m.truckNo)
    && m.challanNo == m.vendorInvoiceNo
  }

  /** The captured fields have the shapes of their patterns: numbers are
      whitespace-free tokens, dates are `DD.MM.YYYY`, the consignee
      location is one non-empty line. */
  predicate WellShaped(m: GrnMetadata) {
    && (m.grnNo.Some? ==> Shaped(m.grnNo.value, Token))
    && (m.grnDate.Some? ==> IsDate(m.grnDate.value))
    && (m.vendorInvoiceNo.Some? ==> Shaped(m.vendorInvoiceNo.value, Token))
    && (m.poNo.Some? ==> Shaped(m.poNo.value, Token))
    && (m.poDate.Some? ==> IsDate(m.poDate.value))
    && (m.consigneeLocation.Some? ==> Shaped(m.consigneeLocation.value, RestOfLine))
    && (m.truckNo.Some? ==> Shaped(m.truckNo.value, Token))
    && (m.challanNo.Some? ==> Shaped(m.challanNo.value, Token))
  }

  /** The metadata record of `extract_grn_data`. Challan is copied from
      the vendor invoice number when that is truthy; a captured token is
      never empty, so the two always agree. */
  function ExtractMetadata(text: string): (m: GrnMetadata)
    ensures MetadataOf(text, m)
    ensures WellShaped(m)
  {
    var vendorInvoiceNo := Field(text, VendorInvoicePattern);
    GrnMetadata(
      grnNo := Field(text, GrnNoPattern),
      grnDate := Field(text, GrnDatePattern),
      vendorInvoiceNo := vendorInvoiceNo,
      poNo := Field(text, PoNoPattern),
      poDate := Field(text, PoDate),
      consigneeLocation := Field(text, ConsigneePattern),
      truckNo := Field(text, TruckNoPattern),
      challanNo := if Truthy(vendorInvoiceNo) then vendorInvoiceNo else None)
  }

  /** `re.search` has one answer: the capture is fixed by the text. */
  lemma FirstCaptureUnique(s: string, pat: Pattern, v: Option<string>, w: Option<string>)
    requires FirstCapture(s, pat, v) && FirstCapture(s, pat, w)
    ensures v == w
  {
    if v.Some? && w.Some? {
      var p :| 0 <= p <= |s| && MatchAt(s, p, pat) == v
                && forall q :: 0 <= q < p ==> MatchAt(s, q, pat).None?;
      var p' :| 0 <= p' <= |s| && MatchAt(s, p', pat) == w
                 && forall q :: 0 <= q < p' ==> MatchAt(s, q, pat).None?;
      assert !(p < p') && !(p' < p);
    }
  }

  /** The description of the record pins it down: any record meeting it
      is the one `ExtractMetadata` builds. */
  lemma MetadataUnique(text: string, m: GrnMetadata)
    requires MetadataOf(text, m)
    ensures m == ExtractMetadata(text)
  {
    var x := ExtractMetadata(text);
    FirstCaptureUnique(text, GrnNoPattern, m.grnNo, x.grnNo);
    FirstCaptureUnique(text, GrnDatePattern, m.grnDate, x.grnDate);
    FirstCaptureUnique(text, VendorInvoicePattern, m.vendorInvoiceNo, x.vendorInvoiceNo);
    FirstCaptureUnique(text, PoNoPattern, m.poNo, x.poNo);
    FirstCaptureUnique(text, PoDate, m.poDate, x.poDate);
    FirstCaptureUnique(text, ConsigneePattern, m.consigneeLocation, x.consigneeLocation);
    FirstCaptureUnique(text, TruckNoPattern, m.truckNo, x.truckNo);
  }

  /** A field is set only when the label of its pattern occurs in the
      text (for the PO date, the `Date` label that both alternatives end
      with). */
  lemma FieldNeedsLabel(text: string, pat: Pattern, v: Option<string>)
    requires FirstCapture(text, pat, v) && v.Some?
    ensures pat.Labelled? ==> exists p :: LabelAt(text, p, pat.mark)
    ensures pat.PoDate? ==> exists p :: LabelAt(text, p, DateMark)
  {
    var p :| 0 <= p <= |text| && MatchAt(text, p, pat) == v;
    if pat.PoDate? {
      PoDateHasDate(text, p);
    }
  }
}
