/** The item table of `extract_grn_data`: find the first
    `S No\s+Article` header (ignoring case), run the row scanner over the
    text from the header on, and turn each row into a line-item record
    whose description has its whitespace cleaned up. */
module Table {
  import opened Base
  import opened Items
  import opened Description

  /** One line item, with the nine columns of the source's item dict. */
  datatype LineItem = LineItem(
    sNo: string,
    article: string,
    description: string,
    ean: string,
    uom: string,
    challanQty: string,
    receivedQty: string,
    acceptedQty: string,
    mrp: string)

  /** A non-empty run of ASCII digits, the `(\d+)` columns. */
  predicate Digits(s: string) {
    |s| > 0 && All(s, IsDigit)
  }

  /** What every captured item looks like: the number columns are digit
      strings, the EAN has exactly thirteen digits, the unit is a word, the
      MRP is digits and dots, and the description is in normal form over
      the description alphabet. */
  ghost predicate ItemShape(it: LineItem) {
    && Digits(it.sNo)
    && Digits(it.article)
    && |it.ean| == 13 && All(it.ean, IsDigit)
    && |it.uom| > 0 && All(it.uom, IsWord)
    && Digits(it.challanQty)
    && Digits(it.receivedQty)
    && Digits(it.acceptedQty)
    && |it.mrp| > 0 && All(it.mrp, IsDigitOrDot)
    && Canonical(it.description)
    && All(it.description, IsDescChar)
  }

  // ---------------------------------------------------------------------
  // Fields of a row
  // ---------------------------------------------------------------------

  /** The cut points of the fixed lead of a row. */
  lemma LeadSpans(t: string, c: seq<nat>)
    requires RowShape(t, c)
    ensures Span(t, c[0], c[1], IsDigit) && Span(t, c[1], c[2], IsSpace) && Span(t, c[2], c[3], IsDigit)
    ensures Span(t, c[3], c[4], IsSpace) && Span(t, c[4], c[5], IsDescChar)
  {
    var lead := c[..4];
    assert Span(t, lead[0], lead[1], LeadClasses[0]);
    assert Span(t, lead[1], lead[2], LeadClasses[1]);
    assert Span(t, lead[2], lead[3], LeadClasses[2]);
  }

  /** The cut points of the tail of a row, from the whitespace before the
      EAN to the MRP. */
  lemma TailSpans(t: string, c: seq<nat>)
    requires RowShape(t, c)
    ensures Span(t, c[5], c[6], IsSpace)
    ensures Span(t, c[6], c[7], IsDigit) && c[7] == c[6] + 13
    ensures Span(t, c[8], c[9], IsWord)
    ensures Span(t, c[10], c[11], IsDigit) && Span(t, c[12], c[13], IsDigit) && Span(t, c[14], c[15], IsDigit)
    ensures Span(t, c[16], c[17], IsDigitOrDot) && WordBoundary(t, c[17])
  {
    var d := c[5..];
    var e := d[1..];
    var g := e[1..11];
    assert g[1] == c[8] && g[2] == c[9] && g[3] == c[10] && g[4] == c[11];
    assert g[5] == c[12] && g[6] == c[13] && g[7] == c[14] && g[8] == c[15];
    assert Span(t, g[1], g[2], CountClasses[1]);
    assert Span(t, g[3], g[4], CountClasses[3]);
    assert Span(t, g[5], g[6], CountClasses[5]);
    assert Span(t, g[7], g[8], CountClasses[7]);
  }

  /** A span read as a string is non-empty and all of its class. */
  lemma SpanSlice(t: string, lo: nat, hi: nat, P: char -> bool)
    requires Span(t, lo, hi, P)
    ensures |t[lo..hi]| > 0 && All(t[lo..hi], P)
  {
    forall k | 0 <= k < hi - lo ensures P(t[lo..hi][k]) {
      assert t[lo..hi][k] == t[lo + k];
    }
  }

  /** The item dict built from one row: each column is the text of its
      field, and the description is cleaned. */
  function ToItem(t: string, c: seq<nat>): (it: LineItem)
    requires RowShape(t, c)
    ensures ItemShape(it)
    ensures Visible(it.description) == Visible(t[c[4]..c[5]])
    ensures Words(it.description) == Words(t[c[4]..c[5]])
  {
    LeadSpans(t, c);
    TailSpans(t, c);
    SpanSlice(t, c[0], c[1], IsDigit);
    SpanSlice(t, c[2], c[3], IsDigit);
    SpanSlice(t, c[4], c[5], IsDescChar);
    SpanSlice(t, c[6], c[7], IsDigit);
    SpanSlice(t, c[8], c[9], IsWord);
    SpanSlice(t, c[10], c[11], IsDigit);
    SpanSlice(t, c[12], c[13], IsDigit);
    SpanSlice(t, c[14], c[15], IsDigit);
    SpanSlice(t, c[16], c[17], IsDigitOrDot);
    LineItem(
      sNo := t[c[0]..c[1]],
      article := t[c[2]..c[3]],
      description := Normalize(t[c[4]..c[5]]),
      ean := t[c[6]..c[7]],
      uom := t[c[8]..c[9]],
      challanQty := t[c[10]..c[11]],
      receivedQty := t[c[12]..c[13]],
      acceptedQty := t[c[14]..c[15]],
      mrp := t[c[16]..c[17]])
  }

  /** The columns of the item of a row, one by one. */
  lemma ToItemFields(t: string, c: seq<nat>)
    requires RowShape(t, c)
    ensures c[0] < c[1] < c[2] < c[3] < c[4] < c[5] < c[6] < c[7] < c[8] < c[9]
    ensures c[9] < c[10] < c[11] < c[12] < c[13] < c[14] < c[15] < c[16] < c[17] <= |t|
    ensures var it := ToItem(t, c);
      && it.sNo == t[c[0]..c[1]] && it.article == t[c[2]..c[3]]
      && it.description == Normalize(t[c[4]..c[5]])
      && it.ean == t[c[6]..c[7]] && it.uom == t[c[8]..c[9]]
      && it.challanQty == t[c[10]..c[11]] && it.receivedQty == t[c[12]..c[13]]
      && it.acceptedQty == t[c[14]..c[15]] && it.mrp == t[c[16]..c[17]]
  {
    LeadSpans(t, c);
    TailSpans(t, c);
    assert Span(t, c[7], c[8], IsSpace) by {
      var e := c[6..];
      assert Span(t, e[1..11][0], e[1..11][1], CountClasses[0]);
    }
    assert c[9] < c[10] && c[11] < c[12] && c[13] < c[14] && c[15] < c[16] by {
      var g := c[7..17];
      assert Span(t, g[2], g[3], CountClasses[2]);
      assert Span(t, g[4], g[5], CountClasses[4]);
      assert Span(t, g[6], g[7], CountClasses[6]);
      assert Span(t, g[8], g[9], CountClasses[8]);
    }
  }

  // ---------------------------------------------------------------------
  // The table header
  // ---------------------------------------------------------------------

  const SNoMark := "S No"
  const ArticleMark := "Article"

  /** The header pattern tried at `p`: `S No`, whitespace taken greedily,
      then `Article`, ignoring case. The greedy run cannot miss a header:
      `Article` does not start with whitespace, so no other split of the
      run works, and the scan finds exactly the positions where some
      reading of the header starts. */
  predicate HeaderAt(s: string, p: nat): (b: bool)
    ensures b <==> HeaderShape(s, p)
  {
    GreedyHeaderExact(s, p);
    GreedyHeader(s, p)
  }

  /** The header scan with the whitespace run taken whole. */
  predicate GreedyHeader(s: string, p: nat) {
    && LabelAt(s, p, SNoMark)
    && var w := RunEnd(s, p + |SNoMark|, IsSpace);
       w > p + |SNoMark| && LabelAt(s, w, ArticleMark)
  }

  /** Some reading of `S No\s+Article` starts at `p`. */
  ghost predicate HeaderShape(s: string, p: nat) {
    exists w :: && p + |SNoMark| < w <= |s|
                && LabelAt(s, p, SNoMark)
                && AllIn(s, p + |SNoMark|, w, IsSpace)
                && LabelAt(s, w, ArticleMark)
  }

  lemma GreedyHeaderExact(s: string, p: nat)
    ensures GreedyHeader(s, p) <==> HeaderShape(s, p)
  {
    if HeaderShape(s, p) {
      var w :| && p + |SNoMark| < w <= |s|
               && LabelAt(s, p, SNoMark)
               && AllIn(s, p + |SNoMark|, w, IsSpace)
               && LabelAt(s, w, ArticleMark);
      assert Fold(s[w + 0]) == Fold(ArticleMark[0]);
      RunEndExact(s, p + |SNoMark|, w, IsSpace);
    }
    if GreedyHeader(s, p) {
      var w := RunEnd(s, p + |SNoMark|, IsSpace);
      assert p + |SNoMark| < w <= |s| && AllIn(s, p + |SNoMark|, w, IsSpace);
    }
  }

  /** `re.search` for the header from `i`: the least position at which it
      starts. */
  function TableStart(s: string, i: nat): (r: Option<nat>)
    requires i <= |s| + 1
    ensures r.Some? ==> i <= r.value <= |s| && HeaderAt(s, r.value)
    ensures r.Some? ==> forall q :: i <= q < r.value ==> !HeaderAt(s, q)
    ensures r.None? ==> forall q :: i <= q <= |s| ==> !HeaderAt(s, q)
    decreases |s| + 1 - i
  {
    if i > |s| then None
    else if HeaderAt(s, i) then Some(i)
    else
      var r := TableStart(s, i + 1);
      assert forall q :: i <= q < i + 1 ==> !HeaderAt(s, q);
      r
  }

  // ---------------------------------------------------------------------
  // The item list
  // ---------------------------------------------------------------------

  /** The items of the rows `rows` of `t`, in order. */
  function RowItems(t: string, rows: seq<seq<nat>>): (items: seq<LineItem>)
    requires forall i :: 0 <= i < |rows| ==> RowShape(t, rows[i])
    ensures |items| == |rows|
    ensures forall i :: 0 <= i < |rows| ==> items[i] == ToItem(t, rows[i]) && ItemShape(items[i])
  {
    seq(|rows|, i requires 0 <= i < |rows| => ToItem(t, rows[i]))
  }

  /** `items` are the items of `rows`, a left-to-right scan of `t` whose
      rows do not overlap: one item per row, in order. */
  ghost predicate ScannedItems(t: string, rows: seq<seq<nat>>, items: seq<LineItem>) {
    && Scan(t, 0, rows)
    && |rows| == |items|
    && (forall i :: 0 <= i < |rows| ==> RowShape(t, rows[i]) && items[i] == ToItem(t, rows[i]))
    && (forall i, j :: 0 <= i < j < |rows| ==> rows[i][17] <= rows[j][0])
  }

  /** `p` is where the first header starts. */
  ghost predicate FirstHeaderAt(text: string, p: nat) {
    && p <= |text|
    && HeaderShape(text, p)
    && (forall q :: 0 <= q < p ==> !HeaderShape(text, q))
  }

  /** `items` is what the source's item loop produces for `text`: nothing
      without a header; otherwise the items of a scan of the text from the
      first header on. */
  ghost predicate TableItems(text: string, items: seq<LineItem>) {
    || ((forall q :: 0 <= q <= |text| ==> !HeaderShape(text, q)) && items == [])
    || exists p: nat, rows: seq<seq<nat>> ::
         FirstHeaderAt(text, p) && ScannedItems(text[p..], rows, items)
  }

  /** The header found by the search is the first reading of the header. */
  lemma FirstHeader(text: string, p: nat)
    requires p <= |text| && HeaderAt(text, p)
    requires forall q :: 0 <= q < p ==> !HeaderAt(text, q)
    ensures FirstHeaderAt(text, p)
  {
    assert forall q :: 0 <= q < p ==> !HeaderShape(text, q) by {
      forall q | 0 <= q < p ensures !HeaderShape(text, q) {
        assert !HeaderAt(text, q);
      }
    }
  }

  /** The scanner's rows of a table text, made into items, are its scanned
      items. */
  lemma RowItemsScanned(t: string)
    ensures ScannedItems(t, FindAll(t, 0), RowItems(t, FindAll(t, 0)))
  {
    var rows := FindAll(t, 0);
    var items := RowItems(t, rows);
    assert forall i :: 0 <= i < |rows| ==> items[i] == ToItem(t, rows[i]);
  }

  /** The item half of `extract_grn_data`. */
  function ExtractItems(text: string): (items: seq<LineItem>)
    ensures TableItems(text, items)
    ensures (forall q :: 0 <= q <= |text| ==> !HeaderShape(text, q)) ==> items == []
    ensures forall i :: 0 <= i < |items| ==> ItemShape(items[i])
  {
    match TableStart(text, 0)
    case None =>
      assert forall q :: 0 <= q <= |text| ==> !HeaderShape(text, q) by {
        forall q | 0 <= q <= |text| ensures !HeaderShape(text, q) {
          assert !HeaderAt(text, q);
        }
      }
      []
    case Some(p) =>
      var tableText := text[p..];
      var rows := FindAll(tableText, 0);
      var items := RowItems(tableText, rows);
      FirstHeader(text, p);
      RowItemsScanned(tableText);
      items
  }

  /** The scanned items of a table text are determined by it. */
  lemma ScannedItemsUnique(t: string, rows: seq<seq<nat>>, items: seq<LineItem>,
                           rows2: seq<seq<nat>>, items2: seq<LineItem>)
    requires ScannedItems(t, rows, items) && ScannedItems(t, rows2, items2)
    ensures items == items2
  {
    ScanUnique(t, 0, rows, rows2);
    assert forall i :: 0 <= i < |items| ==> items[i] == ToItem(t, rows[i]) == items2[i];
  }

  /** The first header is determined by the text. */
  lemma FirstHeaderUnique(text: string, p: nat, p2: nat)
    requires FirstHeaderAt(text, p) && FirstHeaderAt(text, p2)
    ensures p == p2
  {
  }

  /** `TableItems` pins the item list down: any list meeting it is the
      one `ExtractItems` returns. */
  lemma TableItemsUnique(text: string, items: seq<LineItem>)
    requires TableItems(text, items)
    ensures items == ExtractItems(text)
  {
    var found := ExtractItems(text);
    if exists p :: 0 <= p <= |text| && HeaderShape(text, p) {
      var p: nat, rows :| FirstHeaderAt(text, p) && ScannedItems(text[p..], rows, items);
      var p2: nat, rows2 :| FirstHeaderAt(text, p2) && ScannedItems(text[p2..], rows2, found);
      FirstHeaderUnique(text, p, p2);
      ScannedItemsUnique(text[p..], rows, items, rows2, found);
    }
  }

  /** A text whose header is at its very start and whose scan finds one
      row has that row's item as its only item. */
  lemma SingleItem(text: string, c: seq<nat>)
    requires TableStart(text, 0) == Some(0) && FindAll(text, 0) == [c]
    ensures RowShape(text, c) && ExtractItems(text) == [ToItem(text, c)]
  {
    assert text[0..] == text;
  }
}
