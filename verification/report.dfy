/** The monthly-report filler: open a DOC/DOCX template, turn each paragraph
    holding `{titleActivities}` or `{descriptionActivities}` into an empty
    anchor paragraph followed by a generated table, substitute the text
    markers in every body paragraph, then in every cell of every top-level
    table (generated tables included), and save only when something was
    replaced. The file system is a map from path to stored file. */
module MonthlyReport {
  import opened Text
  import opened Outcomes
  import opened Docx
  import opened ReportTables
  import opened Placeholders
  import opened Paths

  /** What a path holds: a document the word-processing library can open,
      or a file it fails on with the given message. */
  datatype StoredFile = WordFile(doc: Document) | Unreadable(reason: string)

  datatype FillResult = FillResult(reply: Reply, files: map<string, StoredFile>)

  /** The document after the three passes and whether any pass replaced something. */
  datatype Filled = Filled(doc: Document, replaced: bool)

  /** The guard of the table pass. */
  predicate HasTableMarker(t: string) {
    Contains(t, TitleMarker) || Contains(t, DescriptionMarker)
  }

  predicate IsTableMarkerBlock(b: Block) {
    b.Para? && HasTableMarker(b.para.text)
  }

  /** The empty paragraph left where a table marker paragraph was. */
  const Anchor: Block := Para(Paragraph("", Inherited))

  /** The table replacing a marker paragraph: the title table wins when
      both markers are present. */
  function GeneratedTable(t: string, titles: seq<TitleActivity>, descs: seq<DescriptionActivity>): (b: Block)
    ensures b.Table?
  {
    if Contains(t, TitleMarker) then TitleTable(titles) else DescriptionTable(descs)
  }

  /** How many blocks of the body are table marker paragraphs. */
  function CountMarked(doc: Document): (n: nat)
    ensures n <= |doc|
  {
    if |doc| == 0 then 0
    else (if IsTableMarkerBlock(doc[0]) then 1 else 0) + CountMarked(doc[1..])
  }

  /** What the table pass makes of one body block. */
  function Expansion(b: Block, titles: seq<TitleActivity>, descs: seq<DescriptionActivity>): seq<Block> {
    if IsTableMarkerBlock(b) then [Anchor, GeneratedTable(b.para.text, titles, descs)] else [b]
  }

  /** The table pass, in document order. Removing the paragraph and
      inserting the anchor at its index and the table right after it keeps
      every other block in place relative to its neighbours. */
  function ExpandTableMarkers(doc: Document, titles: seq<TitleActivity>, descs: seq<DescriptionActivity>): (r: Document)
    ensures |r| == |doc| + CountMarked(doc)
  {
    if |doc| == 0 then []
    else Expansion(doc[0], titles, descs) + ExpandTableMarkers(doc[1..], titles, descs)
  }

  /** The anchor paragraph is empty, so it holds no table marker. */
  lemma AnchorUnmarked()
    ensures !IsTableMarkerBlock(Anchor)
  {
    assert !Contains("", TitleMarker) && !Contains("", DescriptionMarker);
  }

  /** After the table pass no block is a table marker paragraph. */
  lemma {:induction false} ExpandLeavesNoTableMarker(doc: Document, titles: seq<TitleActivity>, descs: seq<DescriptionActivity>)
    ensures forall b :: b in ExpandTableMarkers(doc, titles, descs) ==> !IsTableMarkerBlock(b)
  {
    if |doc| > 0 {
      ExpandLeavesNoTableMarker(doc[1..], titles, descs);
      AnchorUnmarked();
    }
  }

  /** Where block `i` of the template lands after the table pass. */
  function Shift(doc: Document, i: nat): nat
    requires i <= |doc|
  {
    i + CountMarked(doc[..i])
  }

  /** Skipping the first block moves every later landing position by the
      number of blocks the first one became. */
  lemma ShiftStep(doc: Document, titles: seq<TitleActivity>, descs: seq<DescriptionActivity>, i: nat)
    requires 0 < i <= |doc|
    ensures Shift(doc, i) == |Expansion(doc[0], titles, descs)| + Shift(doc[1..], i - 1)
  {
    assert doc[..i][1..] == doc[1..][..i - 1];
    assert doc[..i][0] == doc[0];
  }

  /** Block `i` of the template becomes the blocks of its expansion, found
      consecutively from its shifted position on. */
  lemma {:induction false} ExpansionPlaced(doc: Document, titles: seq<TitleActivity>, descs: seq<DescriptionActivity>, i: nat)
    requires i < |doc|
    ensures var r := ExpandTableMarkers(doc, titles, descs);
      var e := Expansion(doc[i], titles, descs);
      PlacedAt(r, e, Shift(doc, i))
    decreases i
  {
    var r := ExpandTableMarkers(doc, titles, descs);
    var head := Expansion(doc[0], titles, descs);
    var rest := ExpandTableMarkers(doc[1..], titles, descs);
    ExpandFront(doc, titles, descs);
    if i == 0 {
      assert doc[..0] == [];
      PlacedFront(head, rest);
    } else {
      assert doc[1..][i - 1] == doc[i];
      ExpansionPlaced(doc[1..], titles, descs, i - 1);
      ShiftStep(doc, titles, descs, i);
      PlacedAfter(head, rest, Expansion(doc[i], titles, descs), Shift(doc[1..], i - 1), r, Shift(doc, i));
    }
  }

  /** The table pass handles the first block, then the rest. */
  lemma ExpandFront(doc: Document, titles: seq<TitleActivity>, descs: seq<DescriptionActivity>)
    requires |doc| > 0
    ensures ExpandTableMarkers(doc, titles, descs)
         == Expansion(doc[0], titles, descs) + ExpandTableMarkers(doc[1..], titles, descs)
  {
  }

  /** `e` is found in `r` from position `at` on. */
  predicate PlacedAt(r: seq<Block>, e: seq<Block>, at: int) {
    0 <= at && at + |e| <= |r| && forall k :: 0 <= k < |e| ==> r[at + k] == e[k]
  }

  /** A run found at `j` in `rest` is found at `|head| + j` in `head + rest`. */
  lemma PlacedAfter(head: seq<Block>, rest: seq<Block>, e: seq<Block>, j: nat, r: seq<Block>, at: int)
    requires PlacedAt(rest, e, j) && r == head + rest && at == |head| + j
    ensures PlacedAt(r, e, at)
  {
    forall k | 0 <= k < |e|
      ensures r[at + k] == e[k]
    {
      assert r[at + k] == rest[j + k];
    }
  }

  /** A sequence starts with its own head part. */
  lemma PlacedFront(head: seq<Block>, rest: seq<Block>)
    ensures PlacedAt(head + rest, head, 0)
  {
  }

  /** The layout after the table pass: block `i` of the template is either
      kept at its shifted position or, when it is a table marker paragraph,
      replaced there by the anchor followed by its generated table. */
  lemma ExpandLayout(doc: Document, titles: seq<TitleActivity>, descs: seq<DescriptionActivity>, i: nat)
    requires i < |doc|
    ensures var r := ExpandTableMarkers(doc, titles, descs);
      var j := Shift(doc, i);
      if IsTableMarkerBlock(doc[i]) then
        j + 1 < |r| && r[j] == Anchor && r[j + 1] == GeneratedTable(doc[i].para.text, titles, descs)
      else
        j < |r| && r[j] == doc[i]
  {
    ExpansionPlaced(doc, titles, descs, i);
    var e := Expansion(doc[i], titles, descs);
    var j := Shift(doc, i);
    var r := ExpandTableMarkers(doc, titles, descs);
    assert r[j + 0] == e[0];
    if IsTableMarkerBlock(doc[i]) {
      assert r[j + 1] == e[1];
    }
  }

  /** With no table marker paragraph the table pass changes nothing. */
  lemma {:induction false} ExpandWithoutMarkers(doc: Document, titles: seq<TitleActivity>, descs: seq<DescriptionActivity>)
    ensures CountMarked(doc) == 0 <==> forall k :: 0 <= k < |doc| ==> !IsTableMarkerBlock(doc[k])
    ensures CountMarked(doc) == 0 ==> ExpandTableMarkers(doc, titles, descs) == doc
  {
    if |doc| > 0 {
      ExpandWithoutMarkers(doc[1..], titles, descs);
      assert forall k :: 1 <= k < |doc| ==> doc[k] == doc[1..][k - 1];
      if CountMarked(doc) == 0 {
        assert doc == [doc[0]] + doc[1..];
      }
    }
  }

  /** The paragraph pass: every body paragraph goes through the chain,
      tables are left alone. */
  function SubstituteParagraphs(doc: Document, v: Values): (r: Document)
    ensures |r| == |doc|
    ensures forall i :: 0 <= i < |doc| ==>
      r[i] == (if doc[i].Para? then Para(SubstituteParagraph(doc[i].para, v)) else doc[i])
  {
    seq(|doc|, i requires 0 <= i < |doc| =>
      if doc[i].Para? then Para(SubstituteParagraph(doc[i].para, v)) else doc[i])
  }

  function SubstituteRows(rows: seq<Row>, v: Values): (r: seq<Row>)
    ensures |r| == |rows|
    ensures forall i :: 0 <= i < |rows| ==> |r[i]| == |rows[i]|
    ensures forall i, j :: 0 <= i < |rows| && 0 <= j < |rows[i]| ==> r[i][j] == SubstituteCell(rows[i][j], v)
  {
    seq(|rows|, i requires 0 <= i < |rows| =>
      seq(|rows[i]|, j requires 0 <= j < |rows[i]| => SubstituteCell(rows[i][j], v)))
  }

  /** The table pass over cells: every cell of every top-level table goes
      through the chain, paragraphs are left alone. */
  function SubstituteTables(doc: Document, v: Values): (r: Document)
    ensures |r| == |doc|
    ensures forall i :: 0 <= i < |doc| ==>
      r[i] == (if doc[i].Table? then Table(SubstituteRows(doc[i].rows, v)) else doc[i])
  {
    seq(|doc|, i requires 0 <= i < |doc| =>
      if doc[i].Table? then Table(SubstituteRows(doc[i].rows, v)) else doc[i])
  }

  /** What the paragraph pass does, in terms of the unguarded chain: every
      block keeps its kind, tables stay as they were, and each paragraph's
      text becomes the four replace-alls of its old text, with its alignment
      kept or set to justified. */
  lemma ParagraphPassMeaning(doc: Document, v: Values)
    ensures var r := SubstituteParagraphs(doc, v);
      && |r| == |doc|
      && (forall i :: 0 <= i < |doc| ==> (r[i].Para? <==> doc[i].Para?))
      && (forall i :: 0 <= i < |doc| && doc[i].Table? ==> r[i] == doc[i])
      && (forall i :: 0 <= i < |doc| && doc[i].Para? ==>
            && r[i].para.text == ChainText(doc[i].para.text, v)
            && (r[i].para.align == doc[i].para.align || r[i].para.align == Justify))
  {
    var r := SubstituteParagraphs(doc, v);
    forall i | 0 <= i < |doc| && doc[i].Para?
      ensures r[i].para.text == ChainText(doc[i].para.text, v)
    {
      var p := doc[i].para;
      ParagraphAndCellAgree(p, Cell([p]), v) by {
        assert ParagraphTexts([p]) == [p.text];
      }
    }
  }

  /** What the cell pass does, in terms of the unguarded chain: body
      paragraphs stay as they were, every table keeps its number of rows
      and of cells per row, and each cell's text becomes the four
      replace-alls of its old text. */
  lemma CellPassMeaning(doc: Document, v: Values)
    ensures var r := SubstituteTables(doc, v);
      && |r| == |doc|
      && (forall i :: 0 <= i < |doc| && doc[i].Para? ==> r[i] == doc[i])
      && (forall i :: 0 <= i < |doc| && doc[i].Table? ==> r[i].Table? && |r[i].rows| == |doc[i].rows|)
      && (forall i, j :: 0 <= i < |doc| && doc[i].Table? && 0 <= j < |doc[i].rows| ==>
            |r[i].rows[j]| == |doc[i].rows[j]|)
      && (forall i, j, k :: 0 <= i < |doc| && doc[i].Table? && 0 <= j < |doc[i].rows| && 0 <= k < |doc[i].rows[j]| ==>
            CellText(r[i].rows[j][k]) == ChainText(CellText(doc[i].rows[j][k]), v))
  {
    var r := SubstituteTables(doc, v);
    forall i, j, k | 0 <= i < |doc| && doc[i].Table? && 0 <= j < |doc[i].rows| && 0 <= k < |doc[i].rows[j]|
      ensures CellText(r[i].rows[j][k]) == ChainText(CellText(doc[i].rows[j][k]), v)
    {
      var c := doc[i].rows[j][k];
      ParagraphAndCellAgree(Paragraph(CellText(c), Inherited), c, v);
    }
  }

  predicate AnyTableMarkerPara(doc: Document) {
    exists i :: 0 <= i < |doc| && IsTableMarkerBlock(doc[i])
  }

  predicate AnyTextMarkerPara(doc: Document) {
    exists i :: 0 <= i < |doc| && doc[i].Para? && HasTextMarker(doc[i].para.text)
  }

  predicate AnyTextMarkerCell(doc: Document) {
    exists i, r, c :: 0 <= i < |doc| && doc[i].Table? && 0 <= r < |doc[i].rows| && 0 <= c < |doc[i].rows[r]|
      && HasTextMarker(CellText(doc[i].rows[r][c]))
  }

  /** The three passes in order: table markers, paragraphs, cells. */
  function Passes(doc: Document, v: Values, titles: seq<TitleActivity>, descs: seq<DescriptionActivity>): Document {
    SubstituteTables(SubstituteParagraphs(ExpandTableMarkers(doc, titles, descs), v), v)
  }

  /** The `replaced` flag: raised by the table pass on a marker paragraph,
      by the paragraph pass on a paragraph with a text marker, and by the
      cell pass on a cell with a text marker, each looking at the document
      as the earlier passes left it. */
  predicate ReplacedFlag(doc: Document, v: Values, titles: seq<TitleActivity>, descs: seq<DescriptionActivity>) {
    var d1 := ExpandTableMarkers(doc, titles, descs);
    AnyTableMarkerPara(doc) || AnyTextMarkerPara(d1) || AnyTextMarkerCell(SubstituteParagraphs(d1, v))
  }

  /** When no pass fires, the passes change nothing. */
  lemma NoFlagNoChange(doc: Document, v: Values, titles: seq<TitleActivity>, descs: seq<DescriptionActivity>)
    ensures !ReplacedFlag(doc, v, titles, descs) ==> Passes(doc, v, titles, descs) == doc
  {
    if !ReplacedFlag(doc, v, titles, descs) {
      var d1 := ExpandTableMarkers(doc, titles, descs);
      var d2 := SubstituteParagraphs(d1, v);
      ExpandWithoutMarkers(doc, titles, descs);
      assert d2 == d1;
      forall i | 0 <= i < |d2| && d2[i].Table?
        ensures SubstituteRows(d2[i].rows, v) == d2[i].rows
      {
        UntouchedRows(d2[i].rows, v);
      }
      TablesUntouched(d2, v);
    }
  }

  /** The filler on an opened document: the passes and whether to save. */
  function Fill(doc: Document, v: Values, titles: seq<TitleActivity>, descs: seq<DescriptionActivity>): (r: Filled)
    ensures !r.replaced ==> r.doc == doc
  {
    NoFlagNoChange(doc, v, titles, descs);
    Filled(Passes(doc, v, titles, descs), ReplacedFlag(doc, v, titles, descs))
  }

  /** When the cell pass changes no table, it changes nothing. */
  lemma TablesUntouched(doc: Document, v: Values)
    requires forall i :: 0 <= i < |doc| && doc[i].Table? ==> SubstituteRows(doc[i].rows, v) == doc[i].rows
    ensures SubstituteTables(doc, v) == doc
  {
  }

  /** Rows none of whose cells holds a text marker come out of the cell pass unchanged. */
  lemma UntouchedRows(rows: seq<Row>, v: Values)
    requires forall r, c :: 0 <= r < |rows| && 0 <= c < |rows[r]| ==> !HasTextMarker(CellText(rows[r][c]))
    ensures SubstituteRows(rows, v) == rows
  {
    var out := SubstituteRows(rows, v);
    forall r | 0 <= r < |rows|
      ensures out[r] == rows[r]
    {
      assert forall c :: 0 <= c < |rows[r]| ==> out[r][c] == rows[r][c];
    }
  }

  /** The report tool end to end: the existence check, the extension gate,
      opening the document, the three passes, and saving when something was
      replaced. */
  function GenerateMonthlyReport(path: string, files: map<string, StoredFile>, v: Values,
                                 titles: seq<TitleActivity>, descs: seq<DescriptionActivity>): (r: FillResult)
    ensures r.files.Keys == files.Keys
    ensures forall q :: q in files && q != path ==> r.files[q] == files[q]
    ensures path !in files ==> r == FillResult(Error("File '" + path + "' does not exist."), files)
    ensures path in files && !IsSupported(path) ==> r == FillResult(Error("Only DOC or DOCX files are supported."), files)
    ensures path in files && IsSupported(path) && files[path].Unreadable? ==> r == FillResult(Error(files[path].reason), files)
    ensures r.files != files ==> r.reply == Message("Replaced placeholders and saved '" + path + "'.")
    ensures r.reply.Error? ==> r.files == files
  {
    if path !in files then FillResult(Error("File '" + path + "' does not exist."), files)
    else if !IsSupported(path) then FillResult(Error("Only DOC or DOCX files are supported."), files)
    else match files[path]
      case Unreadable(reason) => FillResult(Error(reason), files)
      case WordFile(doc) =>
        var f := Fill(doc, v, titles, descs);
        if f.replaced then FillResult(Message("Replaced placeholders and saved '" + path + "'."), files[path := WordFile(f.doc)])
        else FillResult(Message("No placeholders found in the document."), files)
  }

  /** The `replaced` flag, in terms of the template alone: some body
      paragraph holds any of the six markers, or some cell of an existing
      table holds a text marker. */
  lemma ReplacedIff(doc: Document, v: Values, titles: seq<TitleActivity>, descs: seq<DescriptionActivity>)
    ensures Fill(doc, v, titles, descs).replaced
      <==> AnyTableMarkerPara(doc) || AnyTextMarkerPara(doc) || AnyTextMarkerCell(doc)
  {
    if !AnyTableMarkerPara(doc) {
      ExpandWithoutMarkers(doc, titles, descs);
      ParagraphPassKeepsCells(doc, v);
    }
  }

  /** The paragraph pass leaves every table, and so every cell, as it was. */
  lemma ParagraphPassKeepsCells(doc: Document, v: Values)
    ensures AnyTextMarkerCell(SubstituteParagraphs(doc, v)) <==> AnyTextMarkerCell(doc)
  {
    var d2 := SubstituteParagraphs(doc, v);
    assert forall i :: 0 <= i < |doc| && doc[i].Table? ==> d2[i] == doc[i];
    assert forall i :: 0 <= i < |doc| && d2[i].Table? ==> doc[i].Table?;
    if AnyTextMarkerCell(doc) {
      var i, r, c :| 0 <= i < |doc| && doc[i].Table? && 0 <= r < |doc[i].rows| && 0 <= c < |doc[i].rows[r]|
        && HasTextMarker(CellText(doc[i].rows[r][c]));
      assert d2[i] == doc[i];
    }
    if AnyTextMarkerCell(d2) {
      var i, r, c :| 0 <= i < |d2| && d2[i].Table? && 0 <= r < |d2[i].rows| && 0 <= c < |d2[i].rows[r]|
        && HasTextMarker(CellText(d2[i].rows[r][c]));
      assert d2[i] == doc[i];
    }
  }

  /** Filling an existing, supported, readable template always answers with
      a message; it saves, and says so, exactly when the template holds a
      marker the filler acts on, and otherwise leaves every file alone. */
  lemma SavesIff(path: string, files: map<string, StoredFile>, v: Values,
                 titles: seq<TitleActivity>, descs: seq<DescriptionActivity>)
    requires path in files && IsSupported(path) && files[path].WordFile?
    ensures var r := GenerateMonthlyReport(path, files, v, titles, descs);
      var doc := files[path].doc;
      var saved := AnyTableMarkerPara(doc) || AnyTextMarkerPara(doc) || AnyTextMarkerCell(doc);
      && (saved ==> r == FillResult(Message("Replaced placeholders and saved '" + path + "'."),
                                   files[path := WordFile(Fill(doc, v, titles, descs).doc)]))
      && (!saved ==> r == FillResult(Message("No placeholders found in the document."), files))
  {
    ReplacedIff(files[path].doc, v, titles, descs);
  }

  /** Every cell of the row has flat braces. */
  predicate FlatRow(row: Row) {
    forall c :: 0 <= c < |row| ==> FlatBraces(CellText(row[c]))
  }

  /** A block whose texts have flat braces. */
  predicate FlatBlock(b: Block) {
    && (b.Para? ==> FlatBraces(b.para.text))
    && (b.Table? ==> forall r :: 0 <= r < |b.rows| ==> FlatRow(b.rows[r]))
  }

  /** Every field of every table entry has flat braces. */
  predicate FlatEntries(titles: seq<TitleActivity>, descs: seq<DescriptionActivity>) {
    && (forall k :: 0 <= k < |titles| ==> FlatBraces(titles[k].activity) && FlatBraces(titles[k].month))
    && (forall k :: 0 <= k < |descs| ==>
          FlatBraces(descs[k].activity) && FlatBraces(descs[k].description) && FlatBraces(descs[k].verifier))
  }

  /** No cell of the row holds a text marker. */
  predicate SubstitutedRow(row: Row) {
    forall c :: 0 <= c < |row| ==> !HasTextMarker(CellText(row[c]))
  }

  /** A paragraph holds no marker at all; a table has no text marker in any cell. */
  predicate SubstitutedBlock(b: Block) {
    && (b.Para? ==> !HasTextMarker(b.para.text) && !HasTableMarker(b.para.text))
    && (b.Table? ==> forall r :: 0 <= r < |b.rows| ==> SubstitutedRow(b.rows[r]))
  }

  predicate NoMarkerLeft(doc: Document) {
    forall i :: 0 <= i < |doc| ==> SubstitutedBlock(doc[i])
  }

  lemma BraceFreeIsFlat(s: string)
    requires BraceFree(s)
    ensures FlatBraces(s)
  {
    BraceFreePrefix(s, "");
    assert s + "" == s;
  }

  /** The header texts have no braces. */
  lemma TitleHeadersBraceFree()
    ensures forall k :: 0 <= k < |TitleHeaders| ==> BraceFree(TitleHeaders[k])
  {
  }

  lemma DescriptionHeadersBraceFree()
    ensures forall k :: 0 <= k < |DescriptionHeaders| ==> BraceFree(DescriptionHeaders[k])
  {
  }

  lemma HeaderRowFlat(headers: seq<string>)
    requires forall k :: 0 <= k < |headers| ==> BraceFree(headers[k])
    ensures FlatRow(HeaderRow(headers))
  {
    forall k | 0 <= k < |headers|
      ensures FlatBraces(headers[k])
    {
      BraceFreeIsFlat(headers[k]);
    }
  }

  /** A table is flat when its header row and each data row are. */
  lemma TableFlat(header: Row, body: seq<Row>)
    requires FlatRow(header)
    requires forall k :: 0 <= k < |body| ==> FlatRow(body[k])
    ensures FlatBlock(Table([header] + body))
  {
    var rows := [header] + body;
    forall r | 0 <= r < |rows|
      ensures FlatRow(rows[r])
    {
      if r > 0 {
        assert rows[r] == body[r - 1];
      }
    }
  }

  lemma TitleRowFlat(item: TitleActivity)
    requires FlatBraces(item.activity) && FlatBraces(item.month)
    ensures FlatRow(TitleRow(item))
  {
    var row := TitleRow(item);
    assert CellText(row[0]) == item.activity;
    assert CellText(row[1]) == item.month;
  }

  lemma DescriptionRowFlat(item: DescriptionActivity)
    requires FlatBraces(item.activity) && FlatBraces(item.description) && FlatBraces(item.verifier)
    ensures FlatRow(DescriptionRow(item))
  {
    var row := DescriptionRow(item);
    assert CellText(row[0]) == item.activity;
    assert CellText(row[1]) == item.description;
    assert CellText(row[2]) == item.verifier;
  }

  lemma TitleRowsFlat(titles: seq<TitleActivity>)
    requires forall k :: 0 <= k < |titles| ==> FlatBraces(titles[k].activity) && FlatBraces(titles[k].month)
    ensures forall k :: 0 <= k < |titles| ==> FlatRow(TitleRows(titles)[k])
  {
    forall k | 0 <= k < |titles|
      ensures FlatRow(TitleRows(titles)[k])
    {
      TitleRowFlat(titles[k]);
    }
  }

  lemma DescriptionRowsFlat(descs: seq<DescriptionActivity>)
    requires forall k :: 0 <= k < |descs| ==>
      FlatBraces(descs[k].activity) && FlatBraces(descs[k].description) && FlatBraces(descs[k].verifier)
    ensures forall k :: 0 <= k < |descs| ==> FlatRow(DescriptionRows(descs)[k])
  {
    forall k | 0 <= k < |descs|
      ensures FlatRow(DescriptionRows(descs)[k])
    {
      DescriptionRowFlat(descs[k]);
    }
  }

  /** Generated tables are flat when their entries are. */
  lemma GeneratedTableFlat(t: string, titles: seq<TitleActivity>, descs: seq<DescriptionActivity>)
    requires FlatEntries(titles, descs)
    ensures FlatBlock(GeneratedTable(t, titles, descs))
  {
    if Contains(t, TitleMarker) {
      TitleHeadersBraceFree();
      HeaderRowFlat(TitleHeaders);
      TitleRowsFlat(titles);
      TableFlat(HeaderRow(TitleHeaders), TitleRows(titles));
    } else {
      DescriptionHeadersBraceFree();
      HeaderRowFlat(DescriptionHeaders);
      DescriptionRowsFlat(descs);
      TableFlat(HeaderRow(DescriptionHeaders), DescriptionRows(descs));
    }
  }

  /** The empty anchor paragraph holds no marker of either kind. */
  lemma AnchorFlat()
    ensures FlatBlock(Anchor)
  {
    assert Anchor.para.text == "";
  }

  /** What one flat block becomes under the table pass is flat. */
  lemma ExpansionFlat(b: Block, titles: seq<TitleActivity>, descs: seq<DescriptionActivity>)
    requires FlatBlock(b) && FlatEntries(titles, descs)
    ensures forall x :: x in Expansion(b, titles, descs) ==> FlatBlock(x)
  {
    if IsTableMarkerBlock(b) {
      GeneratedTableFlat(b.para.text, titles, descs);
      AnchorFlat();
    }
  }

  /** The table pass keeps braces flat. */
  lemma {:induction false} ExpandKeepsFlat(doc: Document, titles: seq<TitleActivity>, descs: seq<DescriptionActivity>)
    requires forall i :: 0 <= i < |doc| ==> FlatBlock(doc[i])
    requires FlatEntries(titles, descs)
    ensures forall b :: b in ExpandTableMarkers(doc, titles, descs) ==> FlatBlock(b)
  {
    if |doc| > 0 {
      assert forall i :: 0 <= i < |doc| - 1 ==> doc[1..][i] == doc[i + 1];
      ExpandKeepsFlat(doc[1..], titles, descs);
      ExpansionFlat(doc[0], titles, descs);
      var head := Expansion(doc[0], titles, descs);
      var tail := ExpandTableMarkers(doc[1..], titles, descs);
      assert ExpandTableMarkers(doc, titles, descs) == head + tail;
    }
  }

  /** With flat-braced template texts and table entries and brace-free
      values, the filled document holds no marker in any body paragraph and
      no text marker in any top-level cell. */
  lemma CleanTemplateFillsCompletely(doc: Document, v: Values, titles: seq<TitleActivity>, descs: seq<DescriptionActivity>)
    requires forall i :: 0 <= i < |doc| ==> FlatBlock(doc[i])
    requires FlatEntries(titles, descs) && BraceFreeValues(v)
    ensures NoMarkerLeft(Fill(doc, v, titles, descs).doc)
  {
    var d1 := ExpandTableMarkers(doc, titles, descs);
    var d2 := SubstituteParagraphs(d1, v);
    var d3 := Fill(doc, v, titles, descs).doc;
    assert d3 == SubstituteTables(d2, v);
    ExpandKeepsFlat(doc, titles, descs);
    ExpandLeavesNoTableMarker(doc, titles, descs);
    assert forall i :: 0 <= i < |d1| ==> d1[i] in d1;
    forall i | 0 <= i < |d3|
      ensures SubstitutedBlock(d3[i])
    {
      assert FlatBlock(d1[i]) && !IsTableMarkerBlock(d1[i]);
      if d1[i].Para? {
        ParagraphPolicy(d1[i].para, v);
      } else {
        var rows := d1[i].rows;
        var out := SubstituteRows(rows, v);
        assert d3[i] == Table(out);
        forall r | 0 <= r < |rows|
          ensures SubstitutedRow(out[r])
        {
          forall c | 0 <= c < |rows[r]|
            ensures !HasTextMarker(CellText(out[r][c]))
          {
            assert FlatRow(rows[r]);
            if HasTextMarker(CellText(rows[r][c])) {
              CellPolicy(rows[r][c], v);
            }
          }
        }
      }
    }
  }

  /** A body consisting of one table marker paragraph becomes the anchor
      and the generated table, and the paragraph pass leaves both alone. */
  lemma SingleMarkerParagraph(p: Paragraph, v: Values, titles: seq<TitleActivity>, descs: seq<DescriptionActivity>)
    requires HasTableMarker(p.text)
    ensures ExpandTableMarkers([Para(p)], titles, descs) == [Anchor, GeneratedTable(p.text, titles, descs)]
    ensures SubstituteParagraphs([Anchor, GeneratedTable(p.text, titles, descs)], v)
         == [Anchor, GeneratedTable(p.text, titles, descs)]
  {
    var doc := [Para(p)];
    assert doc[1..] == [];
    OpenFreeHasNoTextMarker(Anchor.para.text);
  }

  lemma Overwrite(path: string, a: StoredFile, b: StoredFile)
    ensures map[path := a][path := b] == map[path := b]
  {
  }

  /** The worked example, for any text before the marker and any title
      entries without braces: a template whose only paragraph reads
      `<lead>{titleActivities}` is saved with that paragraph replaced by the
      anchor and the title table, and the reply names the path. */
  lemma TitleReportSaved(path: string, lead: string, v: Values, titles: seq<TitleActivity>)
    requires IsSupported(path)
    requires forall k :: 0 <= k < |titles| ==> '{' !in titles[k].activity && '{' !in titles[k].month
    ensures var files := map[path := WordFile([Para(Paragraph(lead + TitleMarker, Inherited))])];
      GenerateMonthlyReport(path, files, v, titles, [])
      == FillResult(Message("Replaced placeholders and saved '" + path + "'."),
                    map[path := WordFile([Anchor, TitleTable(titles)])])
  {
    var doc := [Para(Paragraph(lead + TitleMarker, Inherited))];
    var files := map[path := WordFile(doc)];
    var saved := WordFile([Anchor, TitleTable(titles)]);
    TitleReportFill(lead, v, titles);
    assert AnyTableMarkerPara(doc) by { assert ReplacedFlag(doc, v, titles, []); ReplacedIff(doc, v, titles, []); }
    SavesIff(path, files, v, titles, []);
    Overwrite(path, WordFile(doc), saved);
  }

  lemma TitleReportFill(lead: string, v: Values, titles: seq<TitleActivity>)
    requires forall k :: 0 <= k < |titles| ==> '{' !in titles[k].activity && '{' !in titles[k].month
    ensures Fill([Para(Paragraph(lead + TitleMarker, Inherited))], v, titles, [])
         == Filled([Anchor, TitleTable(titles)], true)
  {
    var p := Paragraph(lead + TitleMarker, Inherited);
    var doc := [Para(p)];
    var t := TitleTable(titles);
    var d1 := [Anchor, t];
    assert AnyTableMarkerPara(doc) && ExpandTableMarkers(doc, titles, []) == d1 && SubstituteParagraphs(d1, v) == d1 by {
      assert Contains(TitleMarker, TitleMarker) by { assert TitleMarker[..|TitleMarker|] == TitleMarker; }
      ContainsPrepend(lead, TitleMarker, TitleMarker);
      assert IsTableMarkerBlock(doc[0]);
      SingleMarkerParagraph(p, v, titles, []);
    }
    assert SubstituteTables(d1, v) == d1 by {
      OpenFreeTitleTableUntouched(titles, v);
      forall i | 0 <= i < |d1| && d1[i].Table?
        ensures SubstituteRows(d1[i].rows, v) == d1[i].rows
      {
        assert i == 1 && d1[i] == t;
      }
      TablesUntouched(d1, v);
    }
    assert Passes(doc, v, titles, []) == d1;
    assert ReplacedFlag(doc, v, titles, []);
  }

  /** With the entry `A`, `March` the saved table has two rows and its
      second row reads `A`, `March`. */
  lemma TitleReportExample(path: string, v: Values)
    requires IsSupported(path)
    ensures var titles := [TitleActivity("A", "March")];
      var t := TitleTable(titles);
      && GenerateMonthlyReport(path, map[path := WordFile([Para(Paragraph("Report: " + TitleMarker, Inherited))])], v, titles, [])
         == FillResult(Message("Replaced placeholders and saved '" + path + "'."), map[path := WordFile([Anchor, t])])
      && |t.rows| == 2 && |t.rows[1]| == 2
      && CellText(t.rows[1][0]) == "A" && CellText(t.rows[1][1]) == "March"
  {
    var titles := [TitleActivity("A", "March")];
    assert '{' !in "A" && '{' !in "March";
    TitleReportSaved(path, "Report: ", v, titles);
  }

  /** No cell of the row holds an opening brace. */
  predicate OpenFreeRow(row: Row) {
    forall c :: 0 <= c < |row| ==> '{' !in CellText(row[c])
  }

  lemma OpenFreeRowUntouched(rows: seq<Row>, v: Values)
    requires forall r :: 0 <= r < |rows| ==> OpenFreeRow(rows[r])
    ensures SubstituteRows(rows, v) == rows
  {
    forall r, c | 0 <= r < |rows| && 0 <= c < |rows[r]|
      ensures !HasTextMarker(CellText(rows[r][c]))
    {
      OpenFreeHasNoTextMarker(CellText(rows[r][c]));
    }
    UntouchedRows(rows, v);
  }

  lemma OpenFreeHeaderRow(headers: seq<string>)
    requires forall k :: 0 <= k < |headers| ==> BraceFree(headers[k])
    ensures OpenFreeRow(HeaderRow(headers))
  {
  }

  lemma OpenFreeTitleRow(item: TitleActivity)
    requires '{' !in item.activity && '{' !in item.month
    ensures OpenFreeRow(TitleRow(item))
  {
    var row := TitleRow(item);
    assert CellText(row[0]) == item.activity;
    assert CellText(row[1]) == item.month;
  }

  /** A title table whose entries hold no opening brace comes out of the
      cell pass unchanged. */
  lemma OpenFreeTitleTableUntouched(titles: seq<TitleActivity>, v: Values)
    requires forall k :: 0 <= k < |titles| ==> '{' !in titles[k].activity && '{' !in titles[k].month
    ensures SubstituteRows(TitleTable(titles).rows, v) == TitleTable(titles).rows
  {
    var rows := [HeaderRow(TitleHeaders)] + TitleRows(titles);
    assert TitleTable(titles).rows == rows;
    TitleHeadersBraceFree();
    OpenFreeHeaderRow(TitleHeaders);
    forall r | 0 <= r < |rows|
      ensures OpenFreeRow(rows[r])
    {
      if r > 0 {
        assert rows[r] == TitleRows(titles)[r - 1];
        OpenFreeTitleRow(titles[r - 1]);
      }
    }
    OpenFreeRowUntouched(rows, v);
  }

  /** A body made of one table whose single cell holds no text marker is
      left as it is and not saved. */
  lemma SingleCellQuiet(c: Cell, v: Values, titles: seq<TitleActivity>, descs: seq<DescriptionActivity>)
    requires !HasTextMarker(CellText(c))
    ensures var doc := [Table([[c]])];
      Fill(doc, v, titles, descs) == Filled(doc, false)
  {
    var doc := [Table([[c]])];
    assert !AnyTableMarkerPara(doc) && !AnyTextMarkerPara(doc);
    assert !AnyTextMarkerCell(doc);
    ReplacedIff(doc, v, titles, descs);
  }

  /** A table marker inside an existing table cell is never acted on: the
      table pass only looks at body paragraphs. */
  lemma TableMarkerInCellIgnored(v: Values, titles: seq<TitleActivity>, descs: seq<DescriptionActivity>)
    ensures var doc := [Table([[TextCell(TitleMarker)]])];
      Fill(doc, v, titles, descs) == Filled(doc, false)
  {
    TableMarkersHoldNoTextMarker();
    SingleCellQuiet(TextCell(TitleMarker), v, titles, descs);
  }

  /** Generated tables go through the cell pass too: a title entry whose
      activity is `{month}` shows the month value in the saved table. */
  lemma GeneratedCellsSubstituted(v: Values)
    requires BraceFree(v.month)
    ensures var titles := [TitleActivity(MonthMarker, "x")];
      var out := Fill([Para(Paragraph(TitleMarker, Inherited))], v, titles, []).doc;
      |out| == 2 && out[1].Table? && |out[1].rows| == 2 && |out[1].rows[1]| == 2
      && out[1].rows[1][0] == TextCell(v.month)
  {
    var titles := [TitleActivity(MonthMarker, "x")];
    var p := Paragraph(TitleMarker, Inherited);
    assert Contains(TitleMarker, TitleMarker) by { assert TitleMarker[..|TitleMarker|] == TitleMarker; }
    SingleMarkerParagraph(p, v, titles, []);
    var t := TitleTable(titles);
    assert GeneratedTable(p.text, titles, []) == t;
    assert t.rows[1] == TitleRow(titles[0]);
    MonthOnlyCell(v);
  }
}
