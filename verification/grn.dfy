/** `extract_grn_data`: the metadata record and the item list of one
    document's text. */
module Grn {
  import opened Base
  import opened Metadata
  import opened Table
  import opened Items
  import opened Description

  /** The pair `(metadata, items)` the function returns. */
  datatype GrnData = GrnData(metadata: GrnMetadata, items: seq<LineItem>)

  /** The record with every field unset, as the function starts out. */
  const NoMetadata := GrnMetadata(None, None, None, None, None, None, None, None)

  /** The metadata is the first match of each pattern, the items are the
      rows scanned from the first table header on, and every captured value
      has the shape of its pattern. */
  function ExtractGrnData(text: string): (r: GrnData)
    ensures MetadataOf(text, r.metadata) && WellShaped(r.metadata)
    ensures TableItems(text, r.items)
    ensures forall i :: 0 <= i < |r.items| ==> ItemShape(r.items[i])
  {
    GrnData(ExtractMetadata(text), ExtractItems(text))
  }

  /** The description pins the result down: any metadata record and item
      list meeting it are the ones `extract_grn_data` returns. */
  lemma ExtractGrnDataUnique(text: string, d: GrnData)
    requires MetadataOf(text, d.metadata) && TableItems(text, d.items)
    ensures d == ExtractGrnData(text)
  {
    MetadataUnique(text, d.metadata);
    TableItemsUnique(text, d.items);
  }

  /** A metadata field is set only when its label occurs in the text. */
  lemma SetFieldsHaveLabels(text: string)
    ensures var m := ExtractGrnData(text).metadata;
      && (m.grnNo.Some? ==> exists p :: LabelAt(text, p, GrnNoPattern.mark))
      && (m.grnDate.Some? ==> exists p :: LabelAt(text, p, GrnDatePattern.mark))
      && (m.vendorInvoiceNo.Some? ==> exists p :: LabelAt(text, p, VendorInvoicePattern.mark))
      && (m.poNo.Some? ==> exists p :: LabelAt(text, p, PoNoPattern.mark))
      && (m.poDate.Some? ==> exists p :: LabelAt(text, p, DateMark))
      && (m.consigneeLocation.Some? ==> exists p :: LabelAt(text, p, ConsigneePattern.mark))
      && (m.truckNo.Some? ==> exists p :: LabelAt(text, p, TruckNoPattern.mark))
      && (m.challanNo.Some? ==> exists p :: LabelAt(text, p, VendorInvoicePattern.mark))
  {
    var m := ExtractGrnData(text).metadata;
    if m.grnNo.Some? { FieldNeedsLabel(text, GrnNoPattern, m.grnNo); }
    if m.grnDate.Some? { FieldNeedsLabel(text, GrnDatePattern, m.grnDate); }
    if m.vendorInvoiceNo.Some? { FieldNeedsLabel(text, VendorInvoicePattern, m.vendorInvoiceNo); }
    if m.poNo.Some? { FieldNeedsLabel(text, PoNoPattern, m.poNo); }
    if m.poDate.Some? { FieldNeedsLabel(text, PoDate, m.poDate); }
    if m.consigneeLocation.Some? { FieldNeedsLabel(text, ConsigneePattern, m.consigneeLocation); }
    if m.truckNo.Some? { FieldNeedsLabel(text, TruckNoPattern, m.truckNo); }
  }

  /** A text in which none of the labels occurs yields the empty record and
      no items; in particular the empty text does (it is what a PDF that
      cannot be read is turned into). */
  lemma NoLabelsNoData(text: string)
    requires forall p :: !LabelAt(text, p, GrnNoPattern.mark) && !LabelAt(text, p, GrnDatePattern.mark)
    requires forall p :: !LabelAt(text, p, VendorInvoicePattern.mark) && !LabelAt(text, p, PoNoPattern.mark)
    requires forall p :: !LabelAt(text, p, DateMark) && !LabelAt(text, p, ConsigneePattern.mark)
    requires forall p :: !LabelAt(text, p, TruckNoPattern.mark) && !LabelAt(text, p, SNoMark)
    ensures ExtractGrnData(text) == GrnData(NoMetadata, [])
  {
    SetFieldsHaveLabels(text);
    assert forall q :: 0 <= q <= |text| ==> !HeaderShape(text, q);
  }

  lemma EmptyText()
    ensures ExtractGrnData("") == GrnData(NoMetadata, [])
  {
    NoLabelsNoData("");
  }

  /** A labelled token at the very start of the text is its first match. */
  lemma FirstAtStart(s: string, pat: Pattern, v: string)
    requires MatchAt(s, 0, pat) == Some(v)
    ensures Field(s, pat) == Some(v)
  {
    FirstCaptureUnique(s, pat, Field(s, pat), Some(v));
  }

  lemma GrnNoMatch(s: string)
    requires s == "GOODS RECEIPT NOTE No.: GRN1234"
    ensures MatchAt(s, 0, GrnNoPattern) == Some("GRN1234")
  {
    assert LabelAt(s, 0, GrnNoPattern.mark);
    RunEndExact(s, 22, 22, IsSpace);
    RunEndExact(s, 23, 24, IsSpace);
    RunEndExact(s, 24, 31, NotSpace);
    assert AfterSeparator(s, 22, true) == Some(23);
    assert CaptureAt(s, 23, Token) == Some(s[24..31]);
    assert s[24..31] == "GRN1234";
    assert |GrnNoPattern.mark| == 22;
  }

  /** A labelled token is captured: the GRN number after its label. */
  lemma GrnNoExample()
    ensures ExtractGrnData("GOODS RECEIPT NOTE No.: GRN1234").metadata.grnNo == Some("GRN1234")
  {
    GrnNoMatch("GOODS RECEIPT NOTE No.: GRN1234");
    FirstAtStart("GOODS RECEIPT NOTE No.: GRN1234", GrnNoPattern, "GRN1234");
  }

  lemma VendorInvoiceMatch(s: string)
    requires s == "Vendor invoice no : INV555"
    ensures MatchAt(s, 0, VendorInvoicePattern) == Some("INV555")
  {
    assert LabelAt(s, 0, VendorInvoicePattern.mark);
    RunEndExact(s, 17, 18, IsSpace);
    RunEndExact(s, 19, 20, IsSpace);
    RunEndExact(s, 20, 26, NotSpace);
    assert AfterSeparator(s, 17, true) == Some(19);
    assert CaptureAt(s, 19, Token) == Some(s[20..26]);
    assert s[20..26] == "INV555";
    assert |VendorInvoicePattern.mark| == 17;
  }

  /** The Challan number follows the vendor invoice number, with
      whitespace on both sides of the colon. */
  lemma ChallanExample()
    ensures var m := ExtractGrnData("Vendor invoice no : INV555").metadata;
      m.vendorInvoiceNo == Some("INV555") && m.challanNo == Some("INV555")
  {
    VendorInvoiceMatch("Vendor invoice no : INV555");
    FirstAtStart("Vendor invoice no : INV555", VendorInvoicePattern, "INV555");
  }

  /** The date field of `Date: 05.06.2023`, read after the label `Date`
      and its colon. */
  lemma DateCapture(s: string)
    requires s == "Date: 05.06.2023"
    ensures CaptureAt(s, 5, DayMonthYear) == Some("05.06.2023")
  {
    RunEndExact(s, 5, 6, IsSpace);
    assert s[6..16] == "05.06.2023";
  }

  lemma DateMatches(s: string)
    requires s == "Date: 05.06.2023"
    ensures MatchAt(s, 0, GrnDatePattern) == Some("05.06.2023")
    ensures MatchAt(s, 0, PoDate) == Some("05.06.2023")
  {
    DateCapture(s);
    assert LabelAt(s, 0, GrnDatePattern.mark) && |GrnDatePattern.mark| == 5;
    assert !LabelAt(s, 0, PoNumberMark) by { assert Fold(s[0]) != Fold(PoNumberMark[0]); }
    assert LabelAt(s, 0, DateMark) && |DateMark| == 4;
    RunEndExact(s, 4, 4, IsSpace);
    assert AfterSeparator(s, 4, true) == Some(5);
  }

  /** A date after `Date:` is both the GRN date and, as the second
      alternative of its pattern, the PO date. */
  lemma DateExample()
    ensures var m := ExtractGrnData("Date: 05.06.2023").metadata;
      m.grnDate == Some("05.06.2023") && m.poDate == Some("05.06.2023")
  {
    DateMatches("Date: 05.06.2023");
    FirstAtStart("Date: 05.06.2023", GrnDatePattern, "05.06.2023");
    FirstAtStart("Date: 05.06.2023", PoDate, "05.06.2023");
  }

  /** A `PO Number` line that carries a `Date` field further on. */
  const PoText := "PO Number: P1 " + "Date: 05.06.2023"

  /** After `PO Number` the lazy gap reaches the `Date` field on the same
      line: the first alternative of the PO date pattern. */
  lemma PoDateExample()
    ensures ExtractGrnData(PoText).metadata.poDate == Some("05.06.2023")
  {
    PoDateMatch(PoText);
    FirstAtStart(PoText, PoDate, "05.06.2023");
  }

  lemma PoDateMatch(s: string)
    requires s == PoText
    ensures MatchAt(s, 0, PoDate) == Some("05.06.2023")
  {
    assert LabelAt(s, 0, PoNumberMark) && |PoNumberMark| == 9;
    PoDateField(s);
    PoDateGap(s);
    LazyDateReaches(s, 9, 14);
  }

  lemma PoDateField(s: string)
    requires s == PoText
    ensures DateFieldAt(s, 14) == Some("05.06.2023")
  {
    PoDateCapture(s);
    assert LabelAt(s, 14, DateMark) && |DateMark| == 4;
    RunEndExact(s, 18, 18, IsSpace);
    assert AfterSeparator(s, 18, true) == Some(19);
  }

  lemma PoDateCapture(s: string)
    requires s == PoText
    ensures CaptureAt(s, 19, DayMonthYear) == Some("05.06.2023")
  {
    RunEndExact(s, 19, 20, IsSpace);
    assert s[20..30] == "05.06.2023";
  }

  /** The gap `: P1 ` between the two labels holds no line feed and no
      `Date` field. */
  lemma PoDateGap(s: string)
    requires s == PoText
    ensures AllIn(s, 9, 14, NotNewline)
    ensures forall y :: 9 <= y < 14 ==> DateFieldAt(s, y).None?
  {
    forall y | 9 <= y < 14 ensures NotNewline(s[y]) && !LabelAt(s, y, DateMark) {
      assert s[y] in ": P1 " && DateMark[0] == 'D';
      assert Fold(s[y]) != Fold(DateMark[0]);
    }
  }

  // ---------------------------------------------------------------------
  // One item row
  // ---------------------------------------------------------------------

  /** A header line and one row: S No 1, Article 2001, a description with
      a `#`, the EAN, the UoM, three quantities and the MRP. */
  const ItemText := "S No Article\n" + "1 2001 " + "Widget Blue #5" + " 1234567890123" + " PCS 10 10 10 99.50"


  lemma ItemCutsValues()
    ensures |ItemCuts| == 18
    ensures ItemCuts[0] == 13 && ItemCuts[1] == 14 && ItemCuts[2] == 15 && ItemCuts[3] == 19
    ensures ItemCuts[4] == 20 && ItemCuts[5] == 34 && ItemCuts[6] == 35 && ItemCuts[7] == 48
    ensures ItemCuts[8] == 49 && ItemCuts[9] == 52 && ItemCuts[10] == 53 && ItemCuts[11] == 55
    ensures ItemCuts[12] == 56 && ItemCuts[13] == 58 && ItemCuts[14] == 59 && ItemCuts[15] == 61
    ensures ItemCuts[16] == 62 && ItemCuts[17] == 67
  {
  }

  lemma ItemExampleLead(t: string)
    requires t == ItemText
    ensures Greedy(t, 13, LeadClasses) == Some([13, 14, 15, 19])
  {
    var cuts := [13, 14, 15, 19];
    assert Span(t, 13, 14, IsDigit) && Span(t, 14, 15, IsSpace) && Span(t, 15, 19, IsDigit);
    assert Spans(t, cuts, LeadClasses);
    assert Maximal(t, cuts, LeadClasses);
    GreedyComplete(t, cuts, LeadClasses);
  }

  /** The cut points of the row, which starts after the newline at 12 and
      runs to the end of the text at 67: the counts, the tail from the end
      of the description, and the whole row. */
  const ItemCountCuts: seq<nat> := [48, 49, 52, 53, 55, 56, 58, 59, 61, 62]
  const ItemTailCuts: seq<nat> := [34] + ([35] + ItemCountCuts + [67])
  const ItemCuts: seq<nat> := [13, 14, 15, 19] + ([20] + ItemTailCuts)

  lemma ItemExampleCountSpans(t: string)
    requires t == ItemText
    ensures Spans(t, ItemCountCuts, CountClasses)
  {
    var g := ItemCountCuts;
    forall k | 0 <= k < |CountClasses| ensures Span(t, g[k], g[k + 1], CountClasses[k]) {
      if k % 2 == 0 {
        assert CountClasses[k] == IsSpace && g[k + 1] == g[k] + 1;
      } else if k == 1 {
        assert Span(t, 49, 52, IsWord);
      } else {
        assert CountClasses[k] == IsDigit && g[k + 1] == g[k] + 2;
      }
    }
  }

  lemma ItemExampleCountsMaximal(t: string)
    requires t == ItemText
    ensures Maximal(t, ItemCountCuts, CountClasses)
  {
    var g := ItemCountCuts;
    forall k | 0 <= k < |CountClasses| && g[k + 1] < |t| ensures !CountClasses[k](t[g[k + 1]]) {
      if k % 2 == 0 {
        assert CountClasses[k] == IsSpace;
      } else if k == 1 {
        assert t[52] == ' ';
      } else {
        assert CountClasses[k] == IsDigit && t[g[k + 1]] == ' ';
      }
    }
  }

  lemma ItemExampleCounts(t: string)
    requires t == ItemText
    ensures Greedy(t, 48, CountClasses) == Some(ItemCountCuts)
  {
    ItemExampleCountSpans(t);
    ItemExampleCountsMaximal(t);
    GreedyComplete(t, ItemCountCuts, CountClasses);
  }

  lemma ItemExampleMrp(t: string)
    requires t == ItemText
    ensures RunEnd(t, 62, IsDigitOrDot) == 67 && LastBoundary(t, 62, 67) == Some(67)
  {
    RunEndExact(t, 62, 67, IsDigitOrDot);
    assert WordBoundary(t, 67);
  }

  lemma ItemExampleEan(t: string)
    requires t == ItemText
    ensures EanFrom(t, 35) == Some([35] + ItemCountCuts + [67])
  {
    ItemExampleCounts(t);
    ItemExampleMrp(t);
    assert AllIn(t, 35, 48, IsDigit);
    EanFromOf(t, 35, ItemCountCuts, 67);
  }

  lemma ItemExampleTail(t: string)
    requires t == ItemText
    ensures Tail(t, 34) == Some(ItemTailCuts)
  {
    ItemExampleEan(t);
    RunEndExact(t, 34, 35, IsSpace);
    TailOf(t, 34, [35] + ItemCountCuts + [67]);
  }

  /** No earlier end of the description is followed by a tail: the
      whitespace after `Widget` and after `Blue` is not followed by an EAN. */
  lemma ItemExampleNoEarlierTail(t: string)
    requires t == ItemText
    ensures forall y :: 21 <= y < 34 ==> Tail(t, y).None?
  {
    forall y | 21 <= y < 34 ensures Tail(t, y).None? {
      if y == 26 || y == 31 {
        RunEndExact(t, y, y + 1, IsSpace);
        assert !IsDigit(t[y + 1]);
      } else {
        RunEndExact(t, y, y, IsSpace);
      }
    }
  }

  /** Every character from the description on is a description
      character, so the lazy search may run to the end of the text. */
  lemma ItemExampleDescRun(t: string)
    requires t == ItemText
    ensures RunEnd(t, 20, IsDescChar) == 67
  {
    forall k | 20 <= k < 67 ensures IsDescChar(t[k]) {
      if k < 34 {
        assert t[k] in "Widget Blue #5";
      } else if k < 48 {
        assert IsDigit(t[k]) || t[k] == ' ';
      } else {
        assert t[k] in " PCS 10 10 10 99.50";
      }
    }
    RunEndExact(t, 20, 67, IsDescChar);
  }

  /** The lazy description grows past `Widget` and `Blue` and stops
      before the EAN. */
  lemma ItemExampleLazy(t: string)
    requires t == ItemText
    ensures LazyDescription(t, 21, 67) == Some(ItemTailCuts)
  {
    ItemExampleNoEarlierTail(t);
    ItemExampleTail(t);
    LazyEndIs(t, 21, 67, 34);
    LazyDescriptionOf(t, 21, 67, 34);
  }

  lemma ItemExampleDescription(t: string)
    requires t == ItemText
    ensures DescriptionOn(t, 19) == Some([20] + ItemTailCuts)
  {
    RunEndExact(t, 19, 20, IsSpace);
    ItemExampleDescRun(t);
    ItemExampleTail(t);
    ItemExampleLazy(t);
    DescriptionLazyOf(t, 19, ItemTailCuts);
  }

  lemma ItemExampleRow(t: string)
    requires t == ItemText
    ensures RowAt(t, 13) == Some(ItemCuts)
  {
    ItemExampleLead(t);
    ItemExampleDescription(t);
    RowAtOf(t, 13, [13, 14, 15, 19], [20] + ItemTailCuts);
  }

  lemma ItemExampleHeader(t: string)
    requires t == ItemText
    ensures TableStart(t, 0) == Some(0)
  {
    assert LabelAt(t, 0, SNoMark);
    RunEndExact(t, 4, 5, IsSpace);
    assert LabelAt(t, 5, ArticleMark);
  }

  /** Nothing on the header line starts a row: none of its characters
      is a digit. */
  lemma ItemExampleNoRowBefore(t: string)
    requires t == ItemText
    ensures forall q :: 0 <= q < 13 ==> RowAt(t, q).None?
  {
    forall q | 0 <= q < 13 ensures RowAt(t, q).None? {
      RunEndExact(t, q, q, IsDigit);
    }
  }

  /** Only the row itself is found, and the scan stops at the end of the
      text. */
  lemma ItemExampleScan(t: string)
    requires t == ItemText
    ensures FindAll(t, 0) == [ItemCuts]
  {
    ItemExampleNoRowBefore(t);
    ItemExampleRow(t);
    FindAllOne(t, 0, ItemCuts);
  }

  /** The text of each column of the row. */
  lemma ItemExampleColumns(t: string)
    requires t == ItemText
    ensures t[13..14] == "1" && t[15..19] == "2001" && t[20..34] == "Widget Blue #5"
    ensures t[35..48] == "1234567890123" && t[49..52] == "PCS"
    ensures t[53..55] == "10" && t[56..58] == "10" && t[59..61] == "10" && t[62..67] == "99.50"
  {
    ItemExampleLeftColumns(t);
    ItemExampleRightColumns(t);
  }

  lemma ItemExampleLeftColumns(t: string)
    requires t == ItemText
    ensures t[13..14] == "1" && t[15..19] == "2001" && t[20..34] == "Widget Blue #5"
    ensures t[35..48] == "1234567890123"
  {
    SliceIs(t, 13, "1");
    SliceIs(t, 15, "2001");
    SliceIs(t, 20, "Widget Blue #5");
    SliceIs(t, 35, "1234567890123");
  }

  lemma ItemExampleRightColumns(t: string)
    requires t == ItemText
    ensures t[49..52] == "PCS"
    ensures t[53..55] == "10" && t[56..58] == "10" && t[59..61] == "10" && t[62..67] == "99.50"
  {
    SliceIs(t, 49, "PCS");
    SliceIs(t, 53, "10");
    SliceIs(t, 56, "10");
    SliceIs(t, 59, "10");
    SliceIs(t, 62, "99.50");
  }

  /** The item of a row with these cut points and these columns. */
  lemma ItemFromColumns(t: string, c: seq<nat>)
    requires RowShape(t, c)
    requires c[0] == 13 && c[1] == 14 && c[2] == 15 && c[3] == 19 && c[4] == 20 && c[5] == 34
    requires c[6] == 35 && c[7] == 48 && c[8] == 49 && c[9] == 52 && c[10] == 53 && c[11] == 55
    requires c[12] == 56 && c[13] == 58 && c[14] == 59 && c[15] == 61 && c[16] == 62 && c[17] == 67
    requires t[13..14] == "1" && t[15..19] == "2001" && t[20..34] == "Widget Blue #5"
    requires t[35..48] == "1234567890123" && t[49..52] == "PCS"
    requires t[53..55] == "10" && t[56..58] == "10" && t[59..61] == "10" && t[62..67] == "99.50"
    ensures ToItem(t, c) == LineItem("1", "2001", "Widget Blue #5", "1234567890123", "PCS", "10", "10", "10", "99.50")
  {
    ToItemFields(t, c);
    ItemExampleClean();
  }

  /** The description already has single spaces and no space at either
      end, so the clean-up keeps it. */
  lemma ItemExampleClean()
    ensures Normalize("Widget Blue #5") == "Widget Blue #5"
  {
    assert Canonical("Widget Blue #5");
    NormalizeCanonical("Widget Blue #5");
  }

  lemma ItemExampleItem(t: string)
    requires t == ItemText
    ensures RowShape(t, ItemCuts)
    ensures ToItem(t, ItemCuts) == LineItem("1", "2001", "Widget Blue #5", "1234567890123", "PCS", "10", "10", "10", "99.50")
  {
    ItemExampleRow(t);
    ItemExampleColumns(t);
    ItemCutsValues();
    ItemFromColumns(t, ItemCuts);
  }

  lemma ItemExampleItems(t: string)
    requires t == ItemText
    ensures ExtractItems(t) == [LineItem("1", "2001", "Widget Blue #5", "1234567890123", "PCS", "10", "10", "10", "99.50")]
  {
    ItemExampleHeader(t);
    ItemExampleScan(t);
    SingleItem(t, ItemCuts);
    ItemExampleItem(t);
  }

  /** The row under the header is read as one item, with the EAN, the
      description and the MRP in their own columns. */
  lemma ItemExample()
    ensures ExtractGrnData(ItemText).items ==
      [LineItem("1", "2001", "Widget Blue #5", "1234567890123", "PCS", "10", "10", "10", "99.50")]
  {
    ItemExampleItems(ItemText);
  }
}
