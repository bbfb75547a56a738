/** The two tables the report tool generates: a header row written by
    `create_table_with_header`, then one data row per input record, appended
    in input order. Widths, the centred table alignment, bold headers,
    header shading and borders are visual only and not represented. */
module ReportTables {
  import opened Docx

  /** One entry of `title_activities`: keys "actividad" and "mes". */
  datatype TitleActivity = TitleActivity(activity: string, month: string)

  /** One entry of `description_activities`: keys "actividad", "descripcion", "verificador". */
  datatype DescriptionActivity = DescriptionActivity(activity: string, description: string, verifier: string)

  const TitleHeaders: seq<string> := ["ACTIVIDADES", "MESES"]

  const DescriptionHeaders: seq<string> := ["Actividad Planificada", "Actividad Ejecutada", "Verificador"]

  /** The header row: one cell per header, holding exactly that header. */
  function HeaderRow(headers: seq<string>): (r: Row)
    ensures |r| == |headers|
    ensures forall i :: 0 <= i < |headers| ==> CellText(r[i]) == headers[i] && r[i] == TextCell(headers[i])
  {
    seq(|headers|, i requires 0 <= i < |headers| => TextCell(headers[i]))
  }

  function TitleRow(item: TitleActivity): Row {
    [TextCell(item.activity), TextCell(item.month)]
  }

  function DescriptionRow(item: DescriptionActivity): Row {
    [TextCell(item.activity), TextCell(item.description), TextCell(item.verifier)]
  }

  /** The data rows of the title table, each appended after the ones before it. */
  function TitleRows(items: seq<TitleActivity>): (rows: seq<Row>)
    ensures |rows| == |items|
    ensures forall k :: 0 <= k < |items| ==> rows[k] == TitleRow(items[k])
    decreases |items|
  {
    if |items| == 0 then []
    else TitleRows(items[..|items| - 1]) + [TitleRow(items[|items| - 1])]
  }

  /** The data rows of the description table, each appended after the ones before it. */
  function DescriptionRows(items: seq<DescriptionActivity>): (rows: seq<Row>)
    ensures |rows| == |items|
    ensures forall k :: 0 <= k < |items| ==> rows[k] == DescriptionRow(items[k])
    decreases |items|
  {
    if |items| == 0 then []
    else DescriptionRows(items[..|items| - 1]) + [DescriptionRow(items[|items| - 1])]
  }

  /** The table that replaces `{titleActivities}`: two columns, the header
      row, then row k+1 holds the activity and month of item k. */
  function TitleTable(items: seq<TitleActivity>): (t: Block)
    ensures t.Table? && |t.rows| == |items| + 1
    ensures forall i :: 0 <= i < |t.rows| ==> |t.rows[i]| == 2
    ensures CellText(t.rows[0][0]) == "ACTIVIDADES" && CellText(t.rows[0][1]) == "MESES"
    ensures forall k :: 0 <= k < |items| ==>
      CellText(t.rows[k + 1][0]) == items[k].activity && CellText(t.rows[k + 1][1]) == items[k].month
  {
    Table([HeaderRow(TitleHeaders)] + TitleRows(items))
  }

  /** The table that replaces `{descriptionActivities}`: three columns, the
      header row, then row k+1 holds activity, description and verifier of item k. */
  function DescriptionTable(items: seq<DescriptionActivity>): (t: Block)
    ensures t.Table? && |t.rows| == |items| + 1
    ensures forall i :: 0 <= i < |t.rows| ==> |t.rows[i]| == 3
    ensures CellText(t.rows[0][0]) == "Actividad Planificada"
         && CellText(t.rows[0][1]) == "Actividad Ejecutada"
         && CellText(t.rows[0][2]) == "Verificador"
    ensures forall k :: 0 <= k < |items| ==>
      && CellText(t.rows[k + 1][0]) == items[k].activity
      && CellText(t.rows[k + 1][1]) == items[k].description
      && CellText(t.rows[k + 1][2]) == items[k].verifier
  {
    Table([HeaderRow(DescriptionHeaders)] + DescriptionRows(items))
  }
}
