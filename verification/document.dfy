/** The view of a word-processor document that the report tool works on:
    the body is a sequence of blocks, each a paragraph or a table; a table is
    rows of cells and a cell holds paragraphs. Runs, styles, widths, borders
    and shading are not represented. */
module Docx {

  /** Paragraph alignment; `Inherited` is "not set on the paragraph". */
  datatype Alignment = Inherited | Left | Center | Right | Justify | Distribute

  datatype Paragraph = Paragraph(text: string, align: Alignment)

  datatype Cell = Cell(paras: seq<Paragraph>)

  type Row = seq<Cell>

  datatype Block = Para(para: Paragraph) | Table(rows: seq<Row>)

  type Document = seq<Block>

  /** `"\n".join(lines)`. */
  function JoinLines(lines: seq<string>): string
    decreases |lines|
  {
    if |lines| == 0 then ""
    else if |lines| == 1 then lines[0]
    else lines[0] + "\n" + JoinLines(lines[1..])
  }

  function ParagraphTexts(paras: seq<Paragraph>): (r: seq<string>)
    ensures |r| == |paras| && forall i :: 0 <= i < |paras| ==> r[i] == paras[i].text
  {
    seq(|paras|, i requires 0 <= i < |paras| => paras[i].text)
  }

  /** What reading `cell.text` gives: the cell's paragraph texts, one per line. */
  function CellText(c: Cell): string {
    JoinLines(ParagraphTexts(c.paras))
  }

  /** The cell left by assigning `cell.text = s`: all content is cleared and
      a single paragraph, with no alignment of its own, holds `s`. A fresh
      header cell after `add_run(header)` has the same shape. */
  function TextCell(s: string): (c: Cell)
    ensures |c.paras| == 1 && c.paras[0].align == Inherited
    ensures CellText(c) == s
  {
    var c := Cell([Paragraph(s, Inherited)]);
    assert ParagraphTexts(c.paras) == [s];
    c
  }

  /** Every paragraph of the cell set to justified, text untouched. */
  function JustifyCell(c: Cell): (r: Cell)
    ensures |r.paras| == |c.paras|
    ensures forall i :: 0 <= i < |c.paras| ==> r.paras[i] == Paragraph(c.paras[i].text, Justify)
    ensures CellText(r) == CellText(c)
  {
    var r := Cell(seq(|c.paras|, i requires 0 <= i < |c.paras| => c.paras[i].(align := Justify)));
    assert ParagraphTexts(r.paras) == ParagraphTexts(c.paras);
    r
  }
}
