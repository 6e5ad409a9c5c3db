/** The batch loop of the app: every uploaded PDF is turned into text,
    parsed, and fanned out into table rows, one per line item, or a single
    metadata-only row when the document has no items. */
module Batch {
  import opened Base
  import opened Metadata
  import opened Table
  import opened Grn

  /** An uploaded file: its name and its bytes. */
  datatype Upload = Upload(name: string, content: seq<byte>)

  /** One output row: the document's metadata, the item it stands for (none
      for a document without items) and the file name. */
  datatype Row = Row(metadata: GrnMetadata, item: Option<LineItem>, fileName: string)

  // ---------------------------------------------------------------------
  // Rows of one document
  // ---------------------------------------------------------------------

  /** How many rows a document with `items` contributes: `max(1, k)`. */
  function Width(items: seq<LineItem>): nat {
    if |items| > 1 then |items| else 1
  }

  /** One row per item, in item order. */
  function ItemRows(m: GrnMetadata, items: seq<LineItem>, name: string): (rows: seq<Row>)
    ensures |rows| == |items|
    ensures forall i :: 0 <= i < |items| ==> rows[i] == Row(m, Some(items[i]), name)
  {
    seq(|items|, i requires 0 <= i < |items| => Row(m, Some(items[i]), name))
  }

  /** The rows of one document: a metadata-only row when `items` is
      empty, one row per item otherwise; every row carries the same
      metadata and file name. */
  function DocumentRows(m: GrnMetadata, items: seq<LineItem>, name: string): (rows: seq<Row>)
    ensures |rows| == Width(items)
    ensures forall i :: 0 <= i < |rows| ==> rows[i].metadata == m && rows[i].fileName == name
    ensures items == [] ==> rows == [Row(m, None, name)]
    ensures items != [] ==> forall i :: 0 <= i < |items| ==> rows[i].item == Some(items[i])
  {
    if items == [] then [Row(m, None, name)] else ItemRows(m, items, name)
  }

  /** The items the rows stand for, in row order. */
  function CarriedItems(rows: seq<Row>): (items: seq<LineItem>)
    ensures |items| <= |rows|
  {
    if rows == [] then []
    else
      (match rows[0].item
       case Some(it) => [it]
       case None => []) + CarriedItems(rows[1..])
  }

  /** The item rows give back exactly the items they were made from. */
  lemma {:induction false} CarriedItemRows(m: GrnMetadata, items: seq<LineItem>, name: string)
    ensures CarriedItems(ItemRows(m, items, name)) == items
    decreases |items|
  {
    if items != [] {
      var rows := ItemRows(m, items, name);
      assert rows[1..] == ItemRows(m, items[1..], name);
      CarriedItemRows(m, items[1..], name);
      assert items == [items[0]] + items[1..];
    }
  }

  /** The fan-out loses nothing: the rows of a document give back its
      item list, the empty one included. */
  lemma DocumentRowsInverse(m: GrnMetadata, items: seq<LineItem>, name: string)
    ensures CarriedItems(DocumentRows(m, items, name)) == items
  {
    if items == [] {
      assert DocumentRows(m, items, name)[1..] == [];
    } else {
      CarriedItemRows(m, items, name);
    }
  }

  // ---------------------------------------------------------------------
  // The batch
  // ---------------------------------------------------------------------

  /** A parsed document: the upload's file name and what
      `extract_grn_data` returned for its text. */
  datatype Document = Document(name: string, parsed: GrnData)

  /** Extract the text of one upload and parse it. The loop works the same
      for any parser; the app's parser is `ExtractGrnData`. */
  function Parse(u: Upload, extract: seq<byte> -> string, parse: string -> GrnData): (d: Document)
    ensures forall i :: 0 <= i < |RowsOf(d)| ==>
      RowsOf(d)[i].fileName == u.name && RowsOf(d)[i].metadata == parse(extract(u.content)).metadata
    ensures CarriedItems(RowsOf(d)) == parse(extract(u.content)).items
  {
    Document(u.name, parse(extract(u.content)))
  }

  /** Every upload parsed, in upload order. */
  function ParseAll(uploads: seq<Upload>, extract: seq<byte> -> string, parse: string -> GrnData)
    : (docs: seq<Document>)
    ensures |docs| == |uploads|
    ensures forall k :: 0 <= k < |uploads| ==> docs[k] == Parse(uploads[k], extract, parse)
  {
    seq(|uploads|, k requires 0 <= k < |uploads| => Parse(uploads[k], extract, parse))
  }

  /** The rows of one parsed document. */
  function RowsOf(d: Document): (rows: seq<Row>)
    ensures CarriedItems(rows) == d.parsed.items
  {
    DocumentRowsInverse(d.parsed.metadata, d.parsed.items, d.name);
    DocumentRows(d.parsed.metadata, d.parsed.items, d.name)
  }

  /** The rows of a sequence of documents: their rows one block after
      another, in document order. */
  function Rows(docs: seq<Document>): seq<Row>
    decreases |docs|
  {
    if docs == [] then [] else RowsOf(docs[0]) + Rows(docs[1..])
  }

  /** The expected row count: the sum over the documents of `max(1, k)`. */
  function TotalWidth(docs: seq<Document>): nat
    decreases |docs|
  {
    if docs == [] then 0 else Width(docs[0].parsed.items) + TotalWidth(docs[1..])
  }

  /** All rows of a batch of uploads. */
  function BatchRows(uploads: seq<Upload>, extract: seq<byte> -> string, parse: string -> GrnData)
    : seq<Row>
  {
    Rows(ParseAll(uploads, extract, parse))
  }

  /** The rows of two runs of documents are the rows of the first run
      followed by the rows of the second. */
  lemma {:induction false} RowsAppend(ds: seq<Document>, es: seq<Document>)
    ensures Rows(ds + es) == Rows(ds) + Rows(es)
    ensures TotalWidth(ds + es) == TotalWidth(ds) + TotalWidth(es)
    decreases |ds|
  {
    if ds == [] {
      assert ds + es == es;
    } else {
      assert (ds + es)[0] == ds[0];
      assert (ds + es)[1..] == ds[1..] + es;
      RowsAppend(ds[1..], es);
    }
  }

  /** A batch has one row per item of every document, plus one for every
      document without items. */
  lemma {:induction false} RowCount(docs: seq<Document>)
    ensures |Rows(docs)| == TotalWidth(docs)
    decreases |docs|
  {
    if docs != [] {
      RowCount(docs[1..]);
    }
  }

  lemma RowsSingle(d: Document)
    ensures Rows([d]) == RowsOf(d) && TotalWidth([d]) == Width(d.parsed.items)
  {
    assert [d][1..] == [];
  }

  /** One more document appends exactly its rows. */
  lemma RowsSnoc(docs: seq<Document>, i: nat)
    requires i < |docs|
    ensures Rows(docs[..i + 1]) == Rows(docs[..i]) + RowsOf(docs[i])
  {
    RowsSingle(docs[i]);
    assert docs[..i + 1] == docs[..i] + [docs[i]];
    RowsAppend(docs[..i], [docs[i]]);
  }

  /** Order is preserved: the rows of document `k` are the block that
      starts after the rows of all earlier documents. */
  lemma RowsBlock(docs: seq<Document>, k: nat)
    requires k < |docs|
    ensures var lo := TotalWidth(docs[..k]); var hi := lo + Width(docs[k].parsed.items);
      hi <= |Rows(docs)| && Rows(docs)[lo..hi] == RowsOf(docs[k])
  {
    var before, rest := docs[..k], docs[k + 1..];
    assert docs == before + [docs[k]] + rest;
    RowsAppend(before + [docs[k]], rest);
    RowsAppend(before, [docs[k]]);
    RowsSingle(docs[k]);
    RowCount(before);
  }

  /** Every row carries the file name of one of the documents. */
  lemma {:induction false} RowsNamed(docs: seq<Document>)
    ensures forall r :: r in Rows(docs) ==> exists k :: 0 <= k < |docs| && r.fileName == docs[k].name
    decreases |docs|
  {
    if docs != [] {
      RowsNamed(docs[1..]);
      forall r | r in Rows(docs) ensures exists k :: 0 <= k < |docs| && r.fileName == docs[k].name {
        if r in RowsOf(docs[0]) {
          var i :| 0 <= i < |RowsOf(docs[0])| && RowsOf(docs[0])[i] == r;
          assert r.fileName == docs[0].name;
        } else {
          assert r in Rows(docs[1..]);
          var k :| 0 <= k < |docs| - 1 && r.fileName == docs[1..][k].name;
          assert docs[1..][k] == docs[k + 1];
        }
      }
    }
  }

  /** The inner loop over the items of one document. */
  method AppendItemRows(allData: seq<Row>, m: GrnMetadata, items: seq<LineItem>, name: string)
    returns (out: seq<Row>)
    ensures out == allData + ItemRows(m, items, name)
  {
    out := allData;
    var j := 0;
    while j < |items|
      invariant 0 <= j <= |items|
      invariant out == allData + ItemRows(m, items[..j], name)
    {
      assert ItemRows(m, items[..j + 1], name) == ItemRows(m, items[..j], name) + [Row(m, Some(items[j]), name)];
      out := out + [Row(m, Some(items[j]), name)];
      j := j + 1;
    }
    assert items[..j] == items;
  }

  /** One pass of the processing loop: extract and parse one upload,
      then append one metadata-only row or one row per item. */
  method ProcessUpload(allData: seq<Row>, file: Upload, extract: seq<byte> -> string,
                       parse: string -> GrnData)
    returns (out: seq<Row>)
    ensures out == allData + RowsOf(Parse(file, extract, parse))
  {
    var text := extract(file.content);
    var parsed := parse(text);
    var metadata, items := parsed.metadata, parsed.items;
    if items == [] {
      out := allData + [Row(metadata, None, file.name)];
    } else {
      out := AppendItemRows(allData, metadata, items, file.name);
    }
  }

  /** One more upload appends exactly the rows of its document. */
  lemma BatchRowsSnoc(uploads: seq<Upload>, i: nat, extract: seq<byte> -> string,
                      parse: string -> GrnData)
    requires i < |uploads|
    ensures BatchRows(uploads[..i + 1], extract, parse)
         == BatchRows(uploads[..i], extract, parse) + RowsOf(Parse(uploads[i], extract, parse))
  {
    var docs := ParseAll(uploads[..i + 1], extract, parse);
    assert docs[..i] == ParseAll(uploads[..i], extract, parse);
    RowsSnoc(docs, i);
    assert docs[..i + 1] == docs;
  }

  /** The processing loop over the uploads, in upload order. */
  method ProcessBatch(uploads: seq<Upload>, extract: seq<byte> -> string, parse: string -> GrnData)
    returns (allData: seq<Row>)
    ensures allData == BatchRows(uploads, extract, parse)
    ensures |allData| == TotalWidth(ParseAll(uploads, extract, parse))
  {
    allData := [];
    var i := 0;
    while i < |uploads|
      invariant 0 <= i <= |uploads|
      invariant allData == BatchRows(uploads[..i], extract, parse)
    {
      allData := ProcessUpload(allData, uploads[i], extract, parse);
      BatchRowsSnoc(uploads, i, extract, parse);
      i := i + 1;
    }
    assert uploads[..i] == uploads;
    RowCount(ParseAll(uploads, extract, parse));
  }

  /** The app's button handler: the loop with `extract_grn_data` as the
      parser. */
  method ProcessGrnBatch(uploads: seq<Upload>, extract: seq<byte> -> string) returns (allData: seq<Row>)
    ensures allData == BatchRows(uploads, extract, ExtractGrnData)
    ensures |allData| == TotalWidth(ParseAll(uploads, extract, ExtractGrnData))
    ensures forall r :: r in allData ==> exists k :: 0 <= k < |uploads| && r.fileName == uploads[k].name
  {
    allData := ProcessBatch(uploads, extract, ExtractGrnData);
    RowsNamed(ParseAll(uploads, extract, ExtractGrnData));
  }

  // ---------------------------------------------------------------------
  // Rows as dictionaries
  // ---------------------------------------------------------------------

  /** The file-name column. */
  const FileNameKey := "file_name"

  /** The metadata dict with the source's eight keys. */
  function MetadataDict(m: GrnMetadata): map<string, Option<string>> {
    map[
      "GRN No" := m.grnNo,
      "GRN Date" := m.grnDate,
      "Vendor Invoice No" := m.vendorInvoiceNo,
      "PO No" := m.poNo,
      "PO Date" := m.poDate,
      "Consignee Location" := m.consigneeLocation,
      "Truck No" := m.truckNo,
      "Challan No" := m.challanNo]
  }

  /** The item dict with the source's nine keys. */
  function ItemDict(it: LineItem): map<string, Option<string>> {
    map[
      "S No" := Some(it.sNo),
      "Article" := Some(it.article),
      "Item Description" := Some(it.description),
      "EAN Number" := Some(it.ean),
      "UoM" := Some(it.uom),
      "Challan Qty" := Some(it.challanQty),
      "Received Qty" := Some(it.receivedQty),
      "Accepted Qty" := Some(it.acceptedQty),
      "MRP" := Some(it.mrp)]
  }

  /** A row as the dict the source builds: `{**metadata, **item,
      "file_name": name}`, or the metadata and the file name for a
      document without items. */
  function RowDict(r: Row): (d: map<string, Option<string>>)
    ensures r.item.None? ==> d.Keys == MetadataDict(r.metadata).Keys + {FileNameKey}
    ensures r.item.Some? ==> d.Keys == MetadataDict(r.metadata).Keys + ItemDict(r.item.value).Keys + {FileNameKey}
    ensures FileNameKey in d && d[FileNameKey] == Some(r.fileName)
    ensures forall k :: k in MetadataDict(r.metadata) ==> d[k] == MetadataDict(r.metadata)[k]
    ensures r.item.Some? ==> forall k :: k in ItemDict(r.item.value) ==> d[k] == ItemDict(r.item.value)[k]
  {
    match r.item
    case None => MetadataDict(r.metadata) + map[FileNameKey := Some(r.fileName)]
    case Some(it) =>
      KeysDisjoint(r.metadata, it);
      MetadataDict(r.metadata) + ItemDict(it) + map[FileNameKey := Some(r.fileName)]
  }

  /** Reading a row back out of its dict. */
  function RowOfDict(d: map<string, Option<string>>): (r: Option<Row>) {
    var metaKeys := MetadataDict(NoMetadata).Keys;
    if !(metaKeys <= d.Keys && FileNameKey in d && d[FileNameKey].Some?) then None
    else
      var m := GrnMetadata(
        d["GRN No"], d["GRN Date"], d["Vendor Invoice No"], d["PO No"],
        d["PO Date"], d["Consignee Location"], d["Truck No"], d["Challan No"]);
      var name := d[FileNameKey].value;
      if "S No" in d && "Article" in d && "Item Description" in d && "EAN Number" in d
         && "UoM" in d && "Challan Qty" in d && "Received Qty" in d && "Accepted Qty" in d
         && "MRP" in d
         && d["S No"].Some? && d["Article"].Some? && d["Item Description"].Some?
         && d["EAN Number"].Some? && d["UoM"].Some? && d["Challan Qty"].Some?
         && d["Received Qty"].Some? && d["Accepted Qty"].Some? && d["MRP"].Some?
      then
        var it := LineItem(
          d["S No"].value, d["Article"].value, d["Item Description"].value,
          d["EAN Number"].value, d["UoM"].value, d["Challan Qty"].value,
          d["Received Qty"].value, d["Accepted Qty"].value, d["MRP"].value);
        Some(Row(m, Some(it), name))
      else Some(Row(m, None, name))
  }

  /** The source's metadata keys, item keys and `file_name` are three
      disjoint sets of column names. */
  lemma KeysDisjoint(m: GrnMetadata, it: LineItem)
    ensures MetadataDict(m).Keys !! ItemDict(it).Keys
    ensures FileNameKey !in MetadataDict(m) && FileNameKey !in ItemDict(it)
  {
    forall k | k in MetadataDict(m) ensures k !in ItemDict(it) {
      assert k[0] in "GVPCT" && (k[0] == 'C' ==> |k| == 10 || |k| == 18);
    }
  }

  /** The merge keeps every metadata value and the file name. */
  lemma RowDictMetadata(r: Row)
    ensures var d := RowDict(r);
      && "GRN No" in d && d["GRN No"] == r.metadata.grnNo
      && "GRN Date" in d && d["GRN Date"] == r.metadata.grnDate
      && "Vendor Invoice No" in d && d["Vendor Invoice No"] == r.metadata.vendorInvoiceNo
      && "PO No" in d && d["PO No"] == r.metadata.poNo
      && "PO Date" in d && d["PO Date"] == r.metadata.poDate
      && "Consignee Location" in d && d["Consignee Location"] == r.metadata.consigneeLocation
      && "Truck No" in d && d["Truck No"] == r.metadata.truckNo
      && "Challan No" in d && d["Challan No"] == r.metadata.challanNo
      && FileNameKey in d && d[FileNameKey] == Some(r.fileName)
  {
    var md := MetadataDict(r.metadata);
    var d := RowDict(r);
    if r.item.Some? {
      KeysDisjoint(r.metadata, r.item.value);
      assert forall k :: k in md ==> k in d && d[k] == md[k];
    }
  }

  /** The merge keeps every item value. */
  lemma RowDictItem(r: Row)
    requires r.item.Some?
    ensures var d := RowDict(r); var it := r.item.value;
      && "S No" in d && d["S No"] == Some(it.sNo)
      && "Article" in d && d["Article"] == Some(it.article)
      && "Item Description" in d && d["Item Description"] == Some(it.description)
      && "EAN Number" in d && d["EAN Number"] == Some(it.ean)
      && "UoM" in d && d["UoM"] == Some(it.uom)
      && "Challan Qty" in d && d["Challan Qty"] == Some(it.challanQty)
      && "Received Qty" in d && d["Received Qty"] == Some(it.receivedQty)
      && "Accepted Qty" in d && d["Accepted Qty"] == Some(it.acceptedQty)
      && "MRP" in d && d["MRP"] == Some(it.mrp)
  {
  }

  /** A row without an item has no item columns: its dict holds the
      metadata keys and the file name, nothing else. */
  lemma RowDictNoItem(r: Row)
    requires r.item.None?
    ensures "S No" !in RowDict(r)
    ensures RowDict(r).Keys == MetadataDict(r.metadata).Keys + {FileNameKey}
    ensures forall it: LineItem :: ItemDict(it).Keys !! RowDict(r).Keys
  {
    forall it: LineItem ensures ItemDict(it).Keys !! RowDict(r).Keys {
      KeysDisjoint(r.metadata, it);
    }
  }

  /** The keys of the metadata, the item and the file name are disjoint, so
      the merge overwrites nothing and the row can be read back whole. */
  lemma RowDictRoundTrip(r: Row)
    ensures RowOfDict(RowDict(r)) == Some(r)
  {
    RowDictMetadata(r);
    if r.item.Some? {
      RowDictItem(r);
    } else {
      RowDictNoItem(r);
    }
  }
}
