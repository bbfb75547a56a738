/** The text markers of the report template and the substitution chain the
    report tool runs over each body paragraph and each table cell: replace-all
    of `{activities}`, `{month}`, `{conclusions}`, `{recommendations}`, in that
    order, each step guarded by a containment test on the current text. */
module Placeholders {
  import opened Text
  import opened Docx

  /** The placeholder written in a template for `name`. */
  function Marker(name: string): string {
    "{" + name + "}"
  }

  const ActivitiesMarker := Marker("activities")
  const MonthMarker := Marker("month")
  const ConclusionsMarker := Marker("conclusions")
  const RecommendationsMarker := Marker("recommendations")
  const TitleMarker := Marker("titleActivities")
  const DescriptionMarker := Marker("descriptionActivities")

  /** The values written in place of the text markers. */
  datatype Values = Values(activities: string, month: string, conclusions: string, recommendations: string)

  /** The guard of both substitution loops: some text marker occurs. */
  predicate HasTextMarker(t: string) {
    Contains(t, ActivitiesMarker) || Contains(t, MonthMarker)
    || Contains(t, ConclusionsMarker) || Contains(t, RecommendationsMarker)
  }

  /** A brace-free name gives a well-formed marker. */
  lemma MarkerWellFormed(name: string)
    requires BraceFree(name)
    ensures IsMarker(Marker(name))
  {
    assert Marker(name)[1..|name| + 1] == name;
  }

  /** All six markers of the template have the `{name}` shape. */
  lemma AllMarkersWellFormed()
    ensures IsMarker(ActivitiesMarker) && IsMarker(MonthMarker) && IsMarker(ConclusionsMarker)
    ensures IsMarker(RecommendationsMarker) && IsMarker(TitleMarker) && IsMarker(DescriptionMarker)
  {
    IsActivitiesMarker();
    IsMonthMarker();
    IsConclusionsMarker();
    IsRecommendationsMarker();
    IsTitleMarker();
    IsDescriptionMarker();
  }

  lemma IsActivitiesMarker() ensures IsMarker(ActivitiesMarker) { MarkerWellFormed("activities"); }
  lemma IsMonthMarker() ensures IsMarker(MonthMarker) { MarkerWellFormed("month"); }
  lemma IsConclusionsMarker() ensures IsMarker(ConclusionsMarker) { MarkerWellFormed("conclusions"); }
  lemma IsRecommendationsMarker() ensures IsMarker(RecommendationsMarker) { MarkerWellFormed("recommendations"); }
  lemma IsTitleMarker() ensures IsMarker(TitleMarker) { MarkerWellFormed("titleActivities"); }
  lemma IsDescriptionMarker() ensures IsMarker(DescriptionMarker) { MarkerWellFormed("descriptionActivities"); }

  /** A table marker holds no text marker, so a cell reading just
      `{titleActivities}` or `{descriptionActivities}` is left as it is. */
  lemma TableMarkersHoldNoTextMarker()
    ensures !HasTextMarker(TitleMarker) && !HasTextMarker(DescriptionMarker)
  {
    AllMarkersWellFormed();
    assert TitleMarker[1] != RecommendationsMarker[1];
    DistinctMarkerAbsent(TitleMarker, ActivitiesMarker);
    DistinctMarkerAbsent(TitleMarker, MonthMarker);
    DistinctMarkerAbsent(TitleMarker, ConclusionsMarker);
    DistinctMarkerAbsent(TitleMarker, RecommendationsMarker);
    DistinctMarkerAbsent(DescriptionMarker, ActivitiesMarker);
    DistinctMarkerAbsent(DescriptionMarker, MonthMarker);
    DistinctMarkerAbsent(DescriptionMarker, ConclusionsMarker);
    DistinctMarkerAbsent(DescriptionMarker, RecommendationsMarker);
  }

  /** Text without an opening brace holds no text marker. */
  lemma OpenFreeHasNoTextMarker(t: string)
    requires '{' !in t
    ensures !HasTextMarker(t)
  {
    assert t + "" == t;
    MarkerNotInOpenFree(t, "", ActivitiesMarker);
    MarkerNotInOpenFree(t, "", MonthMarker);
    MarkerNotInOpenFree(t, "", ConclusionsMarker);
    MarkerNotInOpenFree(t, "", RecommendationsMarker);
  }

  /** One guarded step `if marker in text: text = text.replace(marker, value)`:
      the new text and whether the step applied. */
  function Step(t: string, marker: string, value: string): (r: (string, bool))
    requires |marker| > 0
    ensures r.0 == ReplaceAll(t, marker, value)
    ensures r.1 == Contains(t, marker)
    ensures !r.1 ==> r.0 == t
  {
    if Contains(t, marker) then (ReplaceAll(t, marker, value), true) else (t, false)
  }

  /** The body-paragraph chain. The paragraph text setter keeps paragraph
      formatting, so the alignment is justified exactly when one of the
      `{activities}`, `{conclusions}`, `{recommendations}` steps applied, and is
      otherwise what it was. */
  function SubstituteParagraph(p: Paragraph, v: Values): (r: Paragraph)
    ensures !HasTextMarker(p.text) ==> r == p
    ensures r.align == p.align || r.align == Justify
  {
    if !HasTextMarker(p.text) then p
    else
      var (t1, a) := Step(p.text, ActivitiesMarker, v.activities);
      var (t2, _) := Step(t1, MonthMarker, v.month);
      var (t3, c) := Step(t2, ConclusionsMarker, v.conclusions);
      var (t4, r) := Step(t3, RecommendationsMarker, v.recommendations);
      Paragraph(t4, if a || c || r then Justify else p.align)
  }

  /** The table-cell chain. Each step that runs assigns `cell.text`, which
      collapses the cell to one paragraph without alignment; the
      `{activities}`, `{conclusions}`, `{recommendations}` steps then justify
      every paragraph of the cell. */
  function SubstituteCell(c: Cell, v: Values): (r: Cell)
    ensures !HasTextMarker(CellText(c)) ==> r == c
    ensures HasTextMarker(CellText(c)) ==> |r.paras| == 1
  {
    if !HasTextMarker(CellText(c)) then c
    else
      var c1 := if Contains(CellText(c), ActivitiesMarker)
        then JustifyCell(TextCell(ReplaceAll(CellText(c), ActivitiesMarker, v.activities))) else c;
      var c2 := if Contains(CellText(c1), MonthMarker)
        then TextCell(ReplaceAll(CellText(c1), MonthMarker, v.month)) else c1;
      var c3 := if Contains(CellText(c2), ConclusionsMarker)
        then JustifyCell(TextCell(ReplaceAll(CellText(c2), ConclusionsMarker, v.conclusions))) else c2;
      var c4 := if Contains(CellText(c3), RecommendationsMarker)
        then JustifyCell(TextCell(ReplaceAll(CellText(c3), RecommendationsMarker, v.recommendations))) else c3;
      c4
  }

  /** The text both chains produce: the four replace-alls in order. */
  function ChainText(t: string, v: Values): string {
    var t1 := ReplaceAll(t, ActivitiesMarker, v.activities);
    var t2 := ReplaceAll(t1, MonthMarker, v.month);
    var t3 := ReplaceAll(t2, ConclusionsMarker, v.conclusions);
    ReplaceAll(t3, RecommendationsMarker, v.recommendations)
  }

  /** A paragraph and a cell with the same text end with the same text. */
  lemma ParagraphAndCellAgree(p: Paragraph, c: Cell, v: Values)
    requires p.text == CellText(c)
    ensures SubstituteParagraph(p, v).text == ChainText(p.text, v)
    ensures CellText(SubstituteCell(c, v)) == ChainText(p.text, v)
  {
  }

  /** Values with no braces at all. */
  predicate BraceFreeValues(v: Values) {
    BraceFree(v.activities) && BraceFree(v.month) && BraceFree(v.conclusions) && BraceFree(v.recommendations)
  }

  /** What replacing one marker does to the markers of a flat-braced text:
      the replaced marker is gone, braces stay flat, and every other marker
      is present afterwards exactly when it was present before. */
  lemma StepProfile(t: string, pat: string, rep: string)
    requires IsMarker(pat) && BraceFree(rep) && FlatBraces(t)
    ensures FlatBraces(ReplaceAll(t, pat, rep))
    ensures !Contains(ReplaceAll(t, pat, rep), pat)
    ensures forall q :: IsMarker(q) && q != pat ==> (Contains(ReplaceAll(t, pat, rep), q) <==> Contains(t, q))
  {
    ReplaceKeepsFlat(t, pat, rep);
    ReplaceCreatesNoMarker(t, pat, rep, pat);
    forall q | IsMarker(q) && q != pat
      ensures Contains(ReplaceAll(t, pat, rep), q) <==> Contains(t, q)
    {
      if Contains(t, q) {
        ReplaceKeepsOtherMarker(t, pat, rep, q);
      } else {
        ReplaceCreatesNoMarker(t, pat, rep, q);
      }
    }
  }

  /** The four-step chain on a flat-braced text with brace-free values: no
      text marker survives, braces stay flat, and the table markers are
      neither created nor removed. */
  lemma ChainProfile(t: string, v: Values)
    requires FlatBraces(t) && BraceFreeValues(v)
    ensures FlatBraces(ChainText(t, v))
    ensures !HasTextMarker(ChainText(t, v))
    ensures Contains(ChainText(t, v), TitleMarker) <==> Contains(t, TitleMarker)
    ensures Contains(ChainText(t, v), DescriptionMarker) <==> Contains(t, DescriptionMarker)
  {
    AllMarkersWellFormed();
    var t1 := ReplaceAll(t, ActivitiesMarker, v.activities);
    var t2 := ReplaceAll(t1, MonthMarker, v.month);
    var t3 := ReplaceAll(t2, ConclusionsMarker, v.conclusions);
    StepProfile(t, ActivitiesMarker, v.activities);
    StepProfile(t1, MonthMarker, v.month);
    StepProfile(t2, ConclusionsMarker, v.conclusions);
    StepProfile(t3, RecommendationsMarker, v.recommendations);
  }

  /** The alignment rule for body paragraphs: with brace-free values and a
      flat-braced text, the paragraph ends justified exactly when its text
      held `{activities}`, `{conclusions}` or `{recommendations}`; `{month}`
      alone leaves the alignment as it was. No text marker is left. */
  lemma ParagraphPolicy(p: Paragraph, v: Values)
    requires FlatBraces(p.text) && BraceFreeValues(v)
    ensures var r := SubstituteParagraph(p, v);
      && !HasTextMarker(r.text)
      && (Contains(r.text, TitleMarker) <==> Contains(p.text, TitleMarker))
      && (Contains(r.text, DescriptionMarker) <==> Contains(p.text, DescriptionMarker))
      && r.align == (if Contains(p.text, ActivitiesMarker) || Contains(p.text, ConclusionsMarker)
                        || Contains(p.text, RecommendationsMarker) then Justify else p.align)
  {
    AllMarkersWellFormed();
    var t := p.text;
    var t1 := ReplaceAll(t, ActivitiesMarker, v.activities);
    var t2 := ReplaceAll(t1, MonthMarker, v.month);
    StepProfile(t, ActivitiesMarker, v.activities);
    StepProfile(t1, MonthMarker, v.month);
    ChainProfile(t, v);
    ParagraphAndCellAgree(p, Cell([p]), v) by {
      assert ParagraphTexts([p]) == [p.text];
    }
  }

  /** A body paragraph whose text holds `{activities}` always ends
      justified, whatever the values are. */
  lemma ParagraphActivitiesJustifies(p: Paragraph, v: Values)
    requires Contains(p.text, ActivitiesMarker)
    ensures SubstituteParagraph(p, v).align == Justify
  {
  }

  /** The alignment rule for table cells: with brace-free values and a
      flat-braced cell text holding some text marker, the cell ends as one
      paragraph, justified exactly when its text held `{conclusions}` or
      `{recommendations}`, or held `{activities}` but not `{month}`;
      otherwise the paragraph has no alignment of its own. */
  lemma CellPolicy(c: Cell, v: Values)
    requires FlatBraces(CellText(c)) && BraceFreeValues(v) && HasTextMarker(CellText(c))
    ensures var r := SubstituteCell(c, v);
      && |r.paras| == 1
      && !HasTextMarker(CellText(r))
      && r.paras[0].align == (if Contains(CellText(c), ConclusionsMarker)
                                 || Contains(CellText(c), RecommendationsMarker)
                                 || (Contains(CellText(c), ActivitiesMarker) && !Contains(CellText(c), MonthMarker))
                              then Justify else Inherited)
  {
    AllMarkersWellFormed();
    var t := CellText(c);
    var t1 := ReplaceAll(t, ActivitiesMarker, v.activities);
    var t2 := ReplaceAll(t1, MonthMarker, v.month);
    StepProfile(t, ActivitiesMarker, v.activities);
    StepProfile(t1, MonthMarker, v.month);
    ChainProfile(t, v);
    ParagraphAndCellAgree(Paragraph(t, Inherited), c, v);
  }

  /** A cell reading `{activities}<mid>{month}` ends holding the filled text
      without justification: the month step reassigns the cell text after
      the activities step justified it. */
  lemma CellMonthUndoesJustify(mid: string, v: Values)
    requires '{' !in mid && '{' !in v.activities && '{' !in v.month
    ensures SubstituteCell(TextCell(ActivitiesMarker + mid + MonthMarker), v)
         == TextCell(v.activities + mid + v.month)
  {
    ActivitiesFrontStep(mid, v.activities);
    MonthTailStep(v.activities + mid, v.month);
    OpenFreeHasNoTextMarker(v.activities + mid + v.month);
    var c1 := JustifyCell(TextCell(v.activities + mid + MonthMarker));
    assert CellText(c1) == v.activities + mid + MonthMarker;
  }

  /** `{activities}` at the front of `{activities}<mid>{month}` is found and
      replaced, and nothing after it is touched. */
  lemma ActivitiesFrontStep(mid: string, value: string)
    requires '{' !in mid
    ensures Contains(ActivitiesMarker + mid + MonthMarker, ActivitiesMarker)
    ensures ReplaceAll(ActivitiesMarker + mid + MonthMarker, ActivitiesMarker, value) == value + mid + MonthMarker
  {
    var rest := mid + MonthMarker;
    assert ActivitiesMarker + mid + MonthMarker == ActivitiesMarker + rest;
    ContainsAtFront(ActivitiesMarker, rest);
    ReplaceAtFront(ActivitiesMarker, rest, value);
    ReplaceSkipsOpenFree(mid, MonthMarker, ActivitiesMarker, value);
    MonthLacksActivities();
    assert value + (mid + MonthMarker) == value + mid + MonthMarker;
  }

  lemma MonthLacksActivities()
    ensures !Contains(MonthMarker, ActivitiesMarker)
  {
    IsMonthMarker();
    IsActivitiesMarker();
    assert MonthMarker[1] != ActivitiesMarker[1];
    DistinctMarkerAbsent(MonthMarker, ActivitiesMarker);
  }

  /** `{month}` at the end of a text without opening braces is found and replaced. */
  lemma MonthTailStep(pre: string, value: string)
    requires '{' !in pre
    ensures Contains(pre + MonthMarker, MonthMarker)
    ensures ReplaceAll(pre + MonthMarker, MonthMarker, value) == pre + value
  {
    assert MonthMarker + "" == MonthMarker;
    ContainsAtFront(MonthMarker, "");
    ContainsPrepend(pre, MonthMarker, MonthMarker);
    ReplaceSkipsOpenFree(pre, MonthMarker, MonthMarker, value);
    ReplaceAtFront(MonthMarker, "", value);
    assert value + "" == value;
  }

  /** A cell holding just `{month}` ends holding the month value, provided
      the value has no braces. */
  lemma MonthOnlyCell(v: Values)
    requires BraceFree(v.month)
    ensures SubstituteCell(TextCell(MonthMarker), v) == TextCell(v.month)
  {
    AllMarkersWellFormed();
    DistinctMarkerAbsent(MonthMarker, ActivitiesMarker);
    assert Contains(MonthMarker, MonthMarker) by { assert MonthMarker[..|MonthMarker|] == MonthMarker; }
    assert MonthMarker + "" == MonthMarker;
    ReplaceAtFront(MonthMarker, "", v.month);
    assert v.month + "" == v.month;
    OpenFreeHasNoTextMarker(v.month);
  }
}
