/** The pure part of the `change_month_in_name` tool: every regular file of
    a folder whose name mentions a month (English or Spanish, any case) is
    renamed so that the first such mention becomes the current month's
    Spanish name in upper case.

    The directory listing, the "is a regular file" test and the outcome of
    each rename are inputs; the clock becomes the `month` parameter. */
module MonthRename {
  import opened Text
  import opened Outcomes

  /** The alternatives of the search pattern, in pattern order. */
  const MonthNames: seq<string> := [
    "january", "february", "march", "april", "may", "june",
    "july", "august", "september", "october", "november", "december",
    "enero", "febrero", "marzo", "abril", "mayo", "junio",
    "julio", "agosto", "septiembre", "octubre", "noviembre", "diciembre"
  ]

  /** The replacement text, indexed by month number minus one. */
  const SpanishMonths: seq<string> := [
    "ENERO", "FEBRERO", "MARZO", "ABRIL", "MAYO", "JUNIO",
    "JULIO", "AGOSTO", "SEPTIEMBRE", "OCTUBRE", "NOVIEMBRE", "DICIEMBRE"
  ]

  /** A calendar month as the clock reports it. */
  type MonthNumber = m: int | 1 <= m <= 12 witness 1

  /** Lower-casing a Spanish month name gives the Spanish alternative of
      the pattern for that month; one lemma per four months keeps each
      proof small. */
  lemma SpanishLowersEarly(month: MonthNumber)
    requires month <= 4
    ensures LowerAscii(SpanishMonths[month - 1]) == MonthNames[12 + month - 1]
  {
  }

  lemma SpanishLowersMiddle(month: MonthNumber)
    requires 5 <= month <= 8
    ensures LowerAscii(SpanishMonths[month - 1]) == MonthNames[12 + month - 1]
  {
  }

  lemma SpanishLowersLate(month: MonthNumber)
    requires 9 <= month
    ensures LowerAscii(SpanishMonths[month - 1]) == MonthNames[12 + month - 1]
  {
  }

  /** The Spanish upper-case name for the current month. */
  function CurrentMonthSpanish(month: MonthNumber): (r: string)
    ensures r in SpanishMonths
    ensures LowerAscii(r) == MonthNames[12 + month - 1]
  {
    if month <= 4 then SpanishLowersEarly(month); SpanishMonths[month - 1]
    else if month <= 8 then SpanishLowersMiddle(month); SpanishMonths[month - 1]
    else SpanishLowersLate(month); SpanishMonths[month - 1]
  }

  /** `name` matches `s` at `pos`, ignoring ASCII case. */
  predicate MatchesAt(s: string, pos: int, name: string) {
    0 <= pos && pos + |name| <= |s| && LowerAscii(s[pos..pos + |name|]) == name
  }

  /** No alternative of the pattern matches at `pos`. */
  predicate NoNameAt(s: string, pos: int) {
    forall j :: 0 <= j < |MonthNames| ==> !MatchesAt(s, pos, MonthNames[j])
  }

  /** Some month name occurs in `s`, ignoring ASCII case. */
  predicate HasMonthName(s: string) {
    exists pos :: 0 <= pos <= |s| && !NoNameAt(s, pos)
  }

  /** Where the pattern matched: the start position and the index of the alternative. */
  datatype MonthMatch = MonthMatch(pos: nat, which: nat)

  /** The match a backtracking regex search reports: the leftmost start
      position, and at that position the first alternative in pattern order. */
  predicate IsLeftmostFirst(s: string, m: MonthMatch) {
    && m.which < |MonthNames|
    && MatchesAt(s, m.pos, MonthNames[m.which])
    && (forall p :: 0 <= p < m.pos ==> NoNameAt(s, p))
    && (forall j :: 0 <= j < m.which ==> !MatchesAt(s, m.pos, MonthNames[j]))
  }

  /** At most one match is leftmost-first. */
  lemma LeftmostFirstUnique(s: string, a: MonthMatch, b: MonthMatch)
    requires IsLeftmostFirst(s, a) && IsLeftmostFirst(s, b)
    ensures a == b
  {
    assert !NoNameAt(s, a.pos);
    assert !NoNameAt(s, b.pos);
    assert a.pos == b.pos;
  }

  /** Tries the alternatives at `pos`, from index `from` on, in pattern order. */
  function FirstNameAt(s: string, pos: int, from: nat): (r: Option<nat>)
    requires from <= |MonthNames|
    ensures r.Some? ==> from <= r.value < |MonthNames| && MatchesAt(s, pos, MonthNames[r.value])
    ensures r.Some? ==> forall j :: from <= j < r.value ==> !MatchesAt(s, pos, MonthNames[j])
    ensures r.None? ==> forall j :: from <= j < |MonthNames| ==> !MatchesAt(s, pos, MonthNames[j])
    decreases |MonthNames| - from
  {
    if from == |MonthNames| then None
    else if MatchesAt(s, pos, MonthNames[from]) then Some(from)
    else FirstNameAt(s, pos, from + 1)
  }

  /** The search, trying start positions from `pos` on. */
  function SearchFrom(s: string, pos: nat): (r: Option<MonthMatch>)
    ensures r.Some? ==> pos <= r.value.pos && r.value.which < |MonthNames|
    ensures r.Some? ==> MatchesAt(s, r.value.pos, MonthNames[r.value.which])
    ensures r.Some? ==> forall j :: 0 <= j < r.value.which ==> !MatchesAt(s, r.value.pos, MonthNames[j])
    ensures r.Some? ==> forall p :: pos <= p < r.value.pos ==> NoNameAt(s, p)
    ensures r.None? ==> forall p :: pos <= p ==> NoNameAt(s, p)
    decreases |s| + 1 - pos
  {
    if pos > |s| then None
    else match FirstNameAt(s, pos, 0)
      case Some(j) => Some(MonthMatch(pos, j))
      case None => SearchFrom(s, pos + 1)
  }

  /** `pattern.search(filename)`: the leftmost-first match, if any. */
  function Search(s: string): (r: Option<MonthMatch>)
    ensures r.Some? ==> IsLeftmostFirst(s, r.value)
    ensures r.None? <==> !HasMonthName(s)
  {
    var r := SearchFrom(s, 0);
    assert r.Some? ==> !NoNameAt(s, r.value.pos);
    r
  }

  /** `filename` with the match `m` replaced by the Spanish name of `month`. */
  function Splice(filename: string, m: MonthMatch, month: MonthNumber): string
    requires m.which < |MonthNames| && m.pos + |MonthNames[m.which]| <= |filename|
  {
    filename[..m.pos] + CurrentMonthSpanish(month) + filename[m.pos + |MonthNames[m.which]|..]
  }

  /** `pattern.sub(current, filename, count=1)` guarded by `pattern.search`:
      the new file name, or None when no month name occurs. */
  function Rewrite(filename: string, month: MonthNumber): (r: Option<string>)
    ensures r.None? <==> !HasMonthName(filename)
    ensures r.Some? ==> exists m :: IsLeftmostFirst(filename, m) && r.value == Splice(filename, m, month)
  {
    match Search(filename)
    case None => None
    case Some(m) =>
      assert IsLeftmostFirst(filename, m);
      Some(Splice(filename, m, month))
  }

  /** Any leftmost-first match determines the rewrite. */
  lemma RewriteAtLeftmostFirst(filename: string, month: MonthNumber, m: MonthMatch)
    requires IsLeftmostFirst(filename, m)
    ensures Rewrite(filename, month) == Some(Splice(filename, m, month))
  {
    assert !NoNameAt(filename, m.pos);
    LeftmostFirstUnique(filename, m, Search(filename).value);
  }

  /** Only the matched mention changes; the text around it is kept verbatim. */
  lemma SpliceKeepsSurroundings(filename: string, m: MonthMatch, month: MonthNumber)
    requires m.which < |MonthNames| && m.pos + |MonthNames[m.which]| <= |filename|
    ensures var r := Splice(filename, m, month);
      var n := |CurrentMonthSpanish(month)|;
      && |r| == |filename| - |MonthNames[m.which]| + n
      && r[..m.pos] == filename[..m.pos]
      && r[m.pos..m.pos + n] == CurrentMonthSpanish(month)
      && r[m.pos + n..] == filename[m.pos + |MonthNames[m.which]|..]
  {
  }

  /** A match reads, character by character, as the name in lower case. */
  lemma MatchedCharacters(s: string, pos: int, name: string)
    ensures MatchesAt(s, pos, name) ==>
      forall k :: 0 <= k < |name| ==> LowerChar(s[pos + k]) == name[k]
  {
    if MatchesAt(s, pos, name) {
      forall k | 0 <= k < |name|
        ensures LowerChar(s[pos + k]) == name[k]
      {
        assert s[pos..pos + |name|][k] == s[pos + k];
      }
    }
  }

  /** Wherever `mayo` matches, `may` matches at the same position. */
  lemma MayoImpliesMay(s: string, pos: int)
    ensures MatchesAt(s, pos, "mayo") ==> MatchesAt(s, pos, "may")
  {
    if MatchesAt(s, pos, "mayo") {
      assert LowerAscii(s[pos..pos + 3]) == LowerAscii(s[pos..pos + 4])[..3];
    }
  }

  /** `may` comes before `mayo` in the pattern, so the alternative `mayo`
      never wins the search. */
  lemma MayoNeverChosen(s: string)
    ensures Search(s).Some? ==> MonthNames[Search(s).value.which] != "mayo"
  {
    assert MonthNames[16] == "mayo" && MonthNames[4] == "may";
    assert forall j :: 0 <= j < |MonthNames| && j != 16 ==> MonthNames[j] != "mayo";
    if Search(s).Some? {
      var m := Search(s).value;
      MayoImpliesMay(s, m.pos);
    }
  }

  /** None of `january`, `february`, `march`, `april` matches at the start of `Mayo-mayo.docx`. */
  lemma MayoExampleEarlierNames(j: nat)
    requires j < 4
    ensures !MatchesAt("Mayo-mayo.docx", 0, MonthNames[j])
  {
    var s := "Mayo-mayo.docx";
    assert LowerChar(s[0]) == 'm' && LowerChar(s[2]) == 'y';
    MatchedCharacters(s, 0, MonthNames[j]);
    assert |MonthNames[j]| >= 5;
    assert MonthNames[j][0] != 'm' || MonthNames[j][2] != 'y';
  }

  /** In `Mayo-mayo.docx` the search stops at position 0 on the alternative `may`. */
  lemma MayoExampleMatch()
    ensures IsLeftmostFirst("Mayo-mayo.docx", MonthMatch(0, 4))
  {
    var s := "Mayo-mayo.docx";
    assert LowerAscii(s[0..3]) == "may";
    assert MatchesAt(s, 0, MonthNames[4]);
    forall j | 0 <= j < 4
      ensures !MatchesAt(s, 0, MonthNames[j])
    {
      MayoExampleEarlierNames(j);
    }
  }

  /** A file named `Mayo-mayo.docx` renamed in June: `Mayo` is consumed as
      `May`, its trailing `o` stays, and the second `mayo` is untouched. */
  lemma MayoExample()
    ensures Rewrite("Mayo-mayo.docx", 6) == Some("JUNIOo-mayo.docx")
  {
    MayoExampleMatch();
    RewriteAtLeftmostFirst("Mayo-mayo.docx", 6, MonthMatch(0, 4));
    MayoExampleSplice();
  }

  lemma MayoExampleSplice()
    ensures Splice("Mayo-mayo.docx", MonthMatch(0, 4), 6) == "JUNIOo-mayo.docx"
  {
    var s := "Mayo-mayo.docx";
    assert s[3..] == "o-mayo.docx";
    assert "JUNIO" + s[3..] == "JUNIOo-mayo.docx";
  }

  // ---------------------------------------------------------------------
  // The folder walk.
  // ---------------------------------------------------------------------

  /** One name from the directory listing and whether it is a regular file. */
  datatype Entry = Entry(name: string, isFile: bool)

  /** The tool's result: one reply per renamed file, or a top-level error. */
  datatype RenameResult = Replies(items: seq<Reply>) | Failed(error: Reply)

  /** The entries the tool acts on: regular files whose name mentions a month. */
  function Renamable(entries: seq<Entry>): (r: seq<Entry>)
    ensures |r| <= |entries|
    ensures forall e :: e in r <==> e in entries && e.isFile && HasMonthName(e.name)
  {
    if |entries| == 0 then []
    else
      var e := entries[0];
      (if e.isFile && HasMonthName(e.name) then [e] else []) + Renamable(entries[1..])
  }

  /** The reply for one renamed file; `failure` is what the rename reported, if it failed. */
  function RenameReply(name: string, newName: string, failure: Option<string>): Reply {
    match failure
    case None => Message("Renamed '" + name + "' to '" + newName + "'.")
    case Some(reason) => Error("Error renaming '" + name + "': " + reason)
  }

  /** The rename of one renamable entry: its new name, and the reply. */
  function ReplyFor(e: Entry, month: MonthNumber,
                    renameFailure: (string, string) -> Option<string>): Reply
    requires HasMonthName(e.name)
  {
    var newName := Rewrite(e.name, month).value;
    RenameReply(e.name, newName, renameFailure(e.name, newName))
  }

  /** The loop over the listing: one reply per renamable entry, in listing order. */
  function RenameReplies(entries: seq<Entry>, month: MonthNumber,
                         renameFailure: (string, string) -> Option<string>): (r: seq<Reply>)
    ensures |r| == |Renamable(entries)|
    ensures forall k :: 0 <= k < |r| ==> r[k] == ReplyFor(Renamable(entries)[k], month, renameFailure)
  {
    var todo := Renamable(entries);
    seq(|todo|, k requires 0 <= k < |todo| => (assert todo[k] in todo; ReplyFor(todo[k], month, renameFailure)))
  }

  /** The whole tool. `listing` is None when the path is not a directory. */
  function ChangeMonthInName(folder: string, listing: Option<seq<Entry>>, month: MonthNumber,
                             renameFailure: (string, string) -> Option<string>): (r: RenameResult)
    ensures listing.None? ==> r == Failed(Error("Folder '" + folder + "' does not exist."))
    ensures listing.Some? ==> r.Replies? && |r.items| == |Renamable(listing.value)|
  {
    match listing
    case None => Failed(Error("Folder '" + folder + "' does not exist."))
    case Some(entries) => Replies(RenameReplies(entries, month, renameFailure))
  }

  /** Reply `k` of the folder walk is about the `k`-th renamable entry in
      listing order: its new name is the old one with the leftmost-first
      month mention replaced, and the reply is a success message naming both
      or, when the rename failed, an error carrying the reason. */
  lemma RenameReplyMeaning(folder: string, entries: seq<Entry>, month: MonthNumber,
                           renameFailure: (string, string) -> Option<string>, k: nat)
    requires k < |Renamable(entries)|
    ensures var e := Renamable(entries)[k];
      var r := ChangeMonthInName(folder, Some(entries), month, renameFailure);
      && e in entries && e.isFile
      && exists m :: IsLeftmostFirst(e.name, m) &&
           var newName := Splice(e.name, m, month);
           r.items[k] == (match renameFailure(e.name, newName)
                          case None => Message("Renamed '" + e.name + "' to '" + newName + "'.")
                          case Some(reason) => Error("Error renaming '" + e.name + "': " + reason))
  {
    var e := Renamable(entries)[k];
    assert e in Renamable(entries);
    var m := Search(e.name).value;
    RewriteAtLeftmostFirst(e.name, month, m);
  }

  /** The filter works entry by entry in listing order: the entries acted
      on in a listing are those acted on in its first part followed by those
      acted on in the rest. */
  lemma {:induction false} RenamableConcat(a: seq<Entry>, b: seq<Entry>)
    ensures Renamable(a + b) == Renamable(a) + Renamable(b)
    decreases |a|
  {
    if |a| == 0 {
      assert a + b == b;
    } else {
      assert (a + b)[0] == a[0];
      assert (a + b)[1..] == a[1..] + b;
      RenamableConcat(a[1..], b);
    }
  }

  /** A single entry is kept, once, exactly when it qualifies. Together with
      `RenamableConcat` this fixes the result as the qualifying entries in
      listing order, each as often as it is listed. */
  lemma RenamableSingle(e: Entry)
    ensures Renamable([e]) == (if e.isFile && HasMonthName(e.name) then [e] else [])
  {
    assert [e][1..] == [];
  }

  /** A file whose name mentions no month is neither renamed nor reported. */
  lemma NoMonthNoReply(entries: seq<Entry>, e: Entry)
    requires e in entries && !HasMonthName(e.name)
    ensures e !in Renamable(entries)
  {
  }
}
