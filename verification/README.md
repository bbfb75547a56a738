# Monthly report tools, modelled in Dafny

This project models the two document tools of a small tool server (`main.py`).

- **Renaming by month.** `change_month_in_name` walks a folder. In every regular file whose name mentions a month (English or Spanish, any letter case), it replaces the first mention with the current month's Spanish name in upper case. It answers with one message per file.
- **Filling the monthly report.** `generate_monthly_report` opens a DOC/DOCX template and makes three passes:
  1. Every body paragraph holding `{titleActivities}` or `{descriptionActivities}` is turned into an empty anchor paragraph followed by a generated table. The table is a header row written by `create_table_with_header`, then one row per input entry. The anchor paragraph comes from `insert_title_table`.
  2. `{activities}`, `{month}`, `{conclusions}` and `{recommendations}` are substituted in every body paragraph, with justification for three of them.
  3. The same substitution runs in every cell of every top-level table.

  The file is saved only when some pass replaced something.

Modules, one per concern:

| file | module | what it holds |
|---|---|---|
| `outcomes.dfy` | `Outcomes` | `Option`, and the `{"message": …}` / `{"error": …}` reply |
| `text.dfy` | `Text` | `in`, `str.replace`, ASCII lower-casing, and the theory of `{name}` markers under replace-all |
| `month_rename.dfy` | `MonthRename` | the month-name regex search, the single substitution, and the folder walk |
| `paths.dfy` | `Paths` | the extension `os.path.splitext` gives on POSIX paths, and the DOC/DOCX gate |
| `document.dfy` | `Docx` | the document view: body blocks (paragraph or table), cells made of paragraphs, alignment, cell text |
| `tables.dfy` | `ReportTables` | the two generated tables |
| `placeholders.dfy` | `Placeholders` | the six markers and the substitution chain for a paragraph and for a cell |
| `report.dfy` | `MonthlyReport` | the three passes, the `replaced` flag, and the whole tool over a file map |

Inputs that come from the outside world are parameters:
- The file system of the report tool is a map from path to stored file. Saving updates that map.
- The rename tool receives the directory listing and a rename-outcome function.
- The clock is the `month` parameter.

## Model

| member | source | states |
|---|---|---|
| `MonthRename.CurrentMonthSpanish` | main.py:83-89 | The name used for month m, and written into every renamed file, is one of the twelve Spanish names. Lower-cased, it equals the Spanish alternative of the search pattern for that same month. |
| `MonthRename.Search` | main.py:91-97 | A reported match is leftmost-first: no alternative matches earlier in the name, and no earlier alternative matches at that position. Nothing is reported exactly when no month name occurs anywhere, ignoring ASCII case. |
| `MonthRename.LeftmostFirstUnique` | main.py:91 | A name has at most one leftmost-first match. |
| `MonthRename.Rewrite` | main.py:96-98 | There is no new name exactly when the name mentions no month. Otherwise the new name is the old one with a leftmost-first match replaced by the Spanish month. |
| `MonthRename.RewriteAtLeftmostFirst` | main.py:98 | Any leftmost-first match fixes the result: only that single mention is replaced (`count=1`). |
| `MonthRename.SpliceKeepsSurroundings` | main.py:98 | Only the matched characters change: they become the current month's Spanish name. The text before and after the match is kept verbatim, and the length changes by the difference of the two names. |
| `MonthRename.MayoNeverChosen` | main.py:76-91 | `may` precedes `mayo` in the pattern, so the alternative `mayo` is never the one reported. |
| `MonthRename.MayoExample` | main.py:76-98 | In June, `Mayo-mayo.docx` becomes `JUNIOo-mayo.docx`. The trailing `o` of `Mayo` stays, and the second mention is left alone. |
| `MonthRename.Renamable` | main.py:94-97 | An entry is acted on exactly when it is in the listing, is a regular file, and its name mentions a month. |
| `MonthRename.RenamableConcat` | main.py:94-104 | The entries are handled in listing order: those acted on in a listing are those acted on in its first part, followed by those acted on in the rest. |
| `MonthRename.RenamableSingle` | main.py:94-97 | A single entry is acted on once exactly when it qualifies, and is otherwise skipped. With `RenamableConcat`, this fixes the replies to follow the listing, one per qualifying entry. |
| `MonthRename.ChangeMonthInName` | main.py:71-105 | A path that is not a directory gives the "Folder '…' does not exist." error. Otherwise there is exactly one reply per renamable entry. |
| `MonthRename.RenameReplyMeaning` | main.py:94-104 | Reply k concerns the k-th renamable entry, which is a regular file from the listing. Its new name is the splice at the leftmost-first match. The reply is the "Renamed '…' to '…'." message, or, when the rename failed, the "Error renaming '…': reason" error. |
| `MonthRename.NoMonthNoReply` | main.py:96-97 | A file whose name mentions no month is neither renamed nor reported. |
| `Text.ContainsIff` | main.py:224 | The `in` test used throughout holds exactly when the pattern occurs at some position. |
| `Text.ReplaceAllInsertsValue` | main.py:260 | After replacing an occurring pattern, the replacement text occurs in the result. |
| `Text.ReplaceKeepsFlat` | main.py:259-269 | Replacing a marker by brace-free text keeps a text's braces unnested. |
| `Text.ReplaceCreatesNoMarker` | main.py:259-269 | In a text without nested braces, replacing a marker by brace-free text removes every occurrence of it and creates no marker that was absent. |
| `Text.ReplaceKeepsOtherMarker` | main.py:259-269 | Replacing one marker never destroys an occurrence of a different marker. |
| `Text.NestedBracesRecreateMarker` | main.py:262-263 | Without the no-nesting assumption, replacement can create a marker: `{{month}th}` with month `mon` becomes `{month}`. |
| `Paths.LastIndexOf` | main.py:216 | The search for the last separator or dot finds the last index holding the character, and finds none exactly when the character does not occur. |
| `Paths.ExtensionShape` | main.py:216 | A non-empty extension is a dot followed by neither dots nor slashes. The file name before it holds a non-dot character. |
| `Paths.ExtensionPresent` | main.py:216 | There is an extension exactly when the last path component splits at its last dot after a non-dot character. The extension then starts at that dot. |
| `Paths.SupportedIff` | main.py:216-218 | The gate accepts a path exactly when its last component splits that way into a name and `.doc` or `.docx`, in any letter case. |
| `Paths.HiddenFileUnsupported` | main.py:216-218 | A file named `.docx` has no extension and is refused. |
| `Paths.UpperCaseSupported` | main.py:216-218 | `Informe.DOCX` is accepted. |
| `Paths.BackupCopyUnsupported` | main.py:216-218 | `informe.docx.bak` has extension `.bak` and is refused. |
| `Paths.PlainNameSupported` | main.py:216-218 | `informe.docx` is accepted. |
| `Docx.TextCell` | main.py:235-236 | Assigning a cell's text leaves one paragraph without alignment of its own. Reading the cell text back gives the assigned text (carriage returns are not modelled; see "Left out"). |
| `Docx.JustifyCell` | main.py:279-280 | Justifying a cell sets every paragraph to justified and keeps the paragraphs and the cell text. |
| `ReportTables.HeaderRow` | main.py:156-173 | The header row has one cell per header, reading exactly that header. |
| `ReportTables.TitleRows` | main.py:233-236 | Data row k of the title table is the row built from entry k, for every entry, in input order. |
| `ReportTables.DescriptionRows` | main.py:246-250 | Data row k of the description table is the row built from entry k, for every entry, in input order. |
| `ReportTables.TitleTable` | main.py:229-239 | The title table has one more row than there are entries and two columns. The header reads `ACTIVIDADES`, `MESES`. Row k+1 reads the activity and the month of entry k. |
| `ReportTables.DescriptionTable` | main.py:241-253 | The description table has one more row than there are entries and three columns. The header reads `Actividad Planificada`, `Actividad Ejecutada`, `Verificador`. Row k+1 reads the activity, description and verifier of entry k. |
| `Placeholders.TableMarkersHoldNoTextMarker` | main.py:224-258 | `{titleActivities}` and `{descriptionActivities}` hold none of the four text markers. |
| `Placeholders.OpenFreeHasNoTextMarker` | main.py:258 | Text without `{` holds no text marker. |
| `Placeholders.Step` | main.py:259-260 | The guard makes no difference to the text: a guarded step always yields the unguarded replace-all of the marker. It reports whether it applied, which is exactly when the marker occurs. |
| `Placeholders.SubstituteParagraph` | main.py:257-270 | A paragraph without a text marker is untouched. Otherwise its alignment is what it was or justified. |
| `Placeholders.SubstituteCell` | main.py:276-291 | A cell without a text marker is untouched. Otherwise it ends as a single paragraph. |
| `Placeholders.ParagraphAndCellAgree` | main.py:257-291 | The paragraph chain and the cell chain turn the same text into the same text: the four replace-alls in order. |
| `Placeholders.StepProfile` | main.py:259-260 | On a text without nested braces, one brace-free step removes its marker and keeps braces unnested. Every other marker is present afterwards exactly when it was present before. |
| `Placeholders.ChainProfile` | main.py:257-269 | After the full chain on such a text, no text marker is left, braces stay unnested, and each table marker is present exactly when it was before. |
| `Placeholders.ParagraphPolicy` | main.py:257-270 | With brace-free values, a body paragraph ends with no text marker and with its table markers as they were. It is justified exactly when it held `{activities}`, `{conclusions}` or `{recommendations}`, and otherwise keeps its alignment. |
| `Placeholders.ParagraphActivitiesJustifies` | main.py:259-261 | A paragraph holding `{activities}` always ends justified, whatever the values. |
| `Placeholders.CellPolicy` | main.py:276-290 | With brace-free values, a cell holding a text marker ends as one paragraph with no text marker. It is justified exactly when it held `{conclusions}` or `{recommendations}`, or held `{activities}` without `{month}`; otherwise it has no alignment of its own. |
| `Placeholders.CellMonthUndoesJustify` | main.py:277-282 | A cell reading `{activities}…{month}` ends holding the filled text without justification: the month step reassigns the cell text after the activities step justified it. |
| `Placeholders.MonthOnlyCell` | main.py:281-282 | A cell holding just `{month}` ends as a plain cell holding the month value. |
| `MonthlyReport.ExpandTableMarkers` | main.py:223-254 | The table pass adds exactly one block per table-marker paragraph: the anchor and the table replace that paragraph. |
| `MonthlyReport.ExpandLeavesNoTableMarker` | main.py:223-254 | After the table pass no body paragraph holds a table marker. |
| `MonthlyReport.ExpandLayout` | main.py:223-253 | Block i of the template lands at i plus the number of marker paragraphs before it. A marker paragraph becomes the empty anchor there, with its generated table right after it; the title table wins when both markers occur. Any other block is kept as it was. |
| `MonthlyReport.ExpandWithoutMarkers` | main.py:223-224 | Without table-marker paragraphs the table pass changes nothing. |
| `MonthlyReport.ParagraphPassMeaning` | main.py:257-270 | Every block keeps its kind, and tables stay as they were. Each paragraph's text becomes the four replace-alls of its old text, and its alignment is kept or set to justified. |
| `MonthlyReport.CellPassMeaning` | main.py:272-291 | Body paragraphs stay as they were. Every top-level table keeps its number of rows and of cells per row. Each cell's text becomes the four replace-alls of its old text. |
| `MonthlyReport.Fill` | main.py:221-291 | When no pass replaced anything, the document is unchanged. |
| `MonthlyReport.ReplacedIff` | main.py:221-291 | The `replaced` flag is raised exactly when the template has a body paragraph holding any of the six markers, or a cell of an existing table holding a text marker. |
| `MonthlyReport.ParagraphPassKeepsCells` | main.py:257-276 | The paragraph pass neither adds nor removes a text marker in any cell. |
| `MonthlyReport.GenerateMonthlyReport` | main.py:212-299 | Only the report path can change, and no path is added or dropped. A missing file gives "File '…' does not exist.". An unsupported extension gives "Only DOC or DOCX files are supported.". A supported file that cannot be opened gives the error the library reported. An error never changes a file, and a change is always reported as saved. |
| `MonthlyReport.SavesIff` | main.py:293-297 | For a readable, supported template, the tool saves the filled document and answers "Replaced placeholders and saved '…'." exactly when the template holds a marker the tool acts on. Otherwise it answers "No placeholders found in the document." and changes no file. |
| `MonthlyReport.CleanTemplateFillsCompletely` | main.py:223-291 | Suppose template texts and table entries have no nested braces, and the values have no braces. Then no body paragraph of the result holds any marker, and no cell of a top-level table holds a text marker. |
| `MonthlyReport.ExpandKeepsFlat` | main.py:223-253 | The table pass keeps every text free of nested braces when the table entries are. |
| `MonthlyReport.SingleMarkerParagraph` | main.py:223-242 | A body made of one table-marker paragraph becomes the anchor and the generated table, and the paragraph pass leaves both alone. |
| `MonthlyReport.TitleReportSaved` | main.py:212-297 | A template whose only paragraph reads `<lead>{titleActivities}`, filled with entries without `{`, is saved as the anchor followed by the title table, with the saved message. |
| `MonthlyReport.TitleReportExample` | main.py:229-239 | With the entry `A`, `March`, the saved table has two rows, and its second row reads `A`, `March`. |
| `MonthlyReport.OpenFreeTitleTableUntouched` | main.py:272-291 | A title table whose entries hold no `{` comes out of the cell pass unchanged. |
| `MonthlyReport.SingleCellQuiet` | main.py:272-297 | A body made of one table whose only cell holds no text marker is left as it is and not saved. |
| `MonthlyReport.TableMarkerInCellIgnored` | main.py:223-224 | A table marker inside an existing cell is never acted on, and such a template is not saved. |
| `MonthlyReport.GeneratedCellsSubstituted` | main.py:273-282 | Generated tables go through the cell pass too: a title entry whose activity is `{month}` shows the month value in the filled table. |

### Behaviour worth knowing

The tool's docstring (main.py:196-198) says markers are replaced "with a table" or "with justified text". The code behaves as follows.

- **Anchor paragraph.** The marker paragraph is removed. `insert_title_table` puts an empty paragraph at its index, and the table goes right after it (main.py:175-182, 227, 230, 239). Both `MonthlyReport.ExpandLayout` and `MonthlyReport.TitleReportSaved` state this.
- **Generated tables.** The comment at main.py:272 speaks of existing tables. The cell pass loops over `doc.tables` after the tables were inserted, so generated tables are substituted too (`MonthlyReport.GeneratedCellsSubstituted`).
- **When markers remain.** A filled document holds no marker only under conditions.
  - A table marker inside a cell is never handled, because the table pass scans body paragraphs only (`MonthlyReport.TableMarkerInCellIgnored`).
  - Nested braces can recreate a marker (`Text.NestedBracesRecreateMarker`).
  - Values may themselves contain markers.
  - The property is proved under "no nested braces, brace-free values" (`MonthlyReport.CleanTemplateFillsCompletely`).
- **Justification in cells.** In a table cell, a `{month}` step after `{activities}` reassigns the cell text, and this drops the justification (`Placeholders.CellMonthUndoesJustify`). Body paragraphs keep it, because the paragraph text setter keeps paragraph formatting.

## Left out

- HTTP fetching, folder duplication, PDF text extraction, the prompt template and the tool-server plumbing of `main.py`: outside the two tools modelled.
- Widths, the centred table alignment, bold header runs, header shading, borders and the `Table Grid` style choice (main.py:157-172): visual only, with no effect on text or structure.
- Runs and character formatting: a paragraph is its text and its alignment. The text setter is modelled as replacing all runs, which is what python-docx does.
- Headers, footers, nested tables and merged cells: the model's document is a body of paragraphs and top-level tables. Merged cells, which python-docx reports once per grid position, are not represented.
- The catch-all `except Exception` of both tools. For the report tool it is modelled only where a template cannot be opened (`Unreadable(reason)`). A missing `actividad`/`mes`/`descripcion`/`verificador` key (a `KeyError`) cannot occur, because entries are records. A failing save is not modelled.
- The `isdir`/`listdir`/`isfile` calls and the renames: the listing and each rename's outcome are parameters. A rename that changes a later entry of the same listing is not modelled.
- `MonthRename.Search`: matches ignoring ASCII case only. Python's `re.IGNORECASE` also equates a few non-ASCII letters with letters of the month names, and these equivalences are not modelled. The long s `ſ` (U+017F) matches `s` (in august, september, agosto, septiembre). The dotless `ı` (U+0131) and the dotted `İ` (U+0130) match `i` (in april, abril, junio, julio, noviembre, diciembre, septiembre).
- `Text.ReplaceAll`: requires a non-empty pattern. Every call site passes one of the markers; Python's behaviour for an empty pattern is not modelled.
- `Docx.TextCell`: python-docx's text setters write each `\r` and `\n` of the assigned text as a line break, which reads back as `\n`. The model keeps the assigned text verbatim. A value or table entry containing `\r`, such as a Windows line ending in `activities`, therefore reads back differently in the real document. The same holds for the paragraph text setter of the body chain (main.py:260-269) and for the cell setter of the generated rows (main.py:235-236, 248-250).
- `Paths.Extension`: follows POSIX `os.path.splitext`, with `/` as the only separator. The Windows flavour, where `\` also separates, is not modelled.
- `MonthlyReport.GenerateMonthlyReport`: the reply of the outer `except` for a failed save is not modelled, because a save is a map update that cannot fail.
