/** The directory-diff text report of `iDiff/differs/package.go`: `Package`
    diffs two directories and writes the added, deleted and changed entries
    into a buffer, three headed sections with one entry per line and "none"
    for an empty list, or the single line "No files to diff" when the added
    list is nil. Reading the directory descriptions from JSON files is left
    out: the directories are inputs. */
module PackageReport {
  import opened Wrappers
  import opened FsUtils
  import FileSetDiff

  /** Go's `bytes.Buffer`, as `Package` uses it: text is only appended. */
  class Buffer {
    var text: string

    constructor()
      ensures text == ""
    {
      text := "";
    }

    method WriteString(s: string)
      modifies this
      ensures text == old(text) + s
    {
      text := text + s;
    }
  }

  /** Lines written one after another, each followed by "\n". */
  function JoinLines(lines: seq<string>): string {
    if lines == [] then "" else lines[0] + "\n" + JoinLines(lines[1..])
  }

  lemma {:induction false} JoinLinesAppend(a: seq<string>, b: seq<string>)
    ensures JoinLines(a + b) == JoinLines(a) + JoinLines(b)
  {
    if a != [] {
      assert (a + b)[1..] == a[1..] + b;
      JoinLinesAppend(a[1..], b);
    } else {
      assert a + b == b;
    }
  }

  /** The index of the first "\n" of a text that has one. */
  function FirstNewline(s: string): (i: nat)
    requires '\n' in s
    ensures i < |s| && s[i] == '\n' && '\n' !in s[..i]
  {
    if s[0] == '\n' then 0
    else
      var i := 1 + FirstNewline(s[1..]);
      assert s[..i] == [s[0]] + s[1..][..i - 1];
      i
  }

  /** The lines of a text: the pieces between the "\n"s, a final piece
      without "\n" counting as a line too. */
  function SplitLines(s: string): seq<string>
    decreases |s|
  {
    if s == [] then []
    else if '\n' !in s then [s]
    else
      var i := FirstNewline(s);
      [s[..i]] + SplitLines(s[i + 1..])
  }

  predicate NoNewlines(lines: seq<string>) {
    forall i :: 0 <= i < |lines| ==> '\n' !in lines[i]
  }

  /** Splitting undoes joining, as long as no line holds a "\n". */
  lemma {:induction false} SplitJoin(lines: seq<string>)
    requires NoNewlines(lines)
    ensures SplitLines(JoinLines(lines)) == lines
  {
    if lines != [] {
      var l := lines[0];
      var s := JoinLines(lines);
      assert s == l + ("\n" + JoinLines(lines[1..]));
      assert s[|l|] == '\n' && s[..|l|] == l;
      assert '\n' in s;
      var i := FirstNewline(s);
      assert s[i + 1..] == JoinLines(lines[1..]);
      SplitJoin(lines[1..]);
    }
  }

  const NoFiles := "No files to diff"

  function AddedHeader(d1name: string): string {
    "These files have been added to " + d1name
  }

  function DeletedHeader(d1name: string): string {
    "These files have been deleted from " + d1name
  }

  function ChangedHeader(d1name: string, d2name: string): string {
    "These files have been changed between " + d1name + " and " + d2name
  }

  /** What a section lists: its entries, or "none" for an empty list. */
  function Entries(entries: seq<string>): (r: seq<string>)
    ensures |r| == if |entries| == 0 then 1 else |entries|
  {
    if |entries| == 0 then ["none"] else entries
  }

  /** The lines of one section: its header, then what it lists. */
  function Section(header: string, entries: seq<string>): seq<string> {
    [header] + Entries(entries)
  }

  /** Three sections one after another. */
  function Sections(h1: string, e1: seq<string>, h2: string, e2: seq<string>, h3: string, e3: seq<string>): seq<string> {
    Section(h1, e1) + Section(h2, e2) + Section(h3, e3)
  }

  /** The lines of the three sections, in their fixed order. */
  function SectionLines(adds: seq<string>, dels: seq<string>, mods: seq<string>, d1name: string, d2name: string): seq<string> {
    Sections(AddedHeader(d1name), adds, DeletedHeader(d1name), dels, ChangedHeader(d1name, d2name), mods)
  }

  /** The fixed header texts hold no "\n" of their own. */
  lemma HeadersOneLine(d1name: string, d2name: string)
    requires '\n' !in d1name && '\n' !in d2name
    ensures '\n' !in AddedHeader(d1name) && '\n' !in DeletedHeader(d1name)
    ensures '\n' !in ChangedHeader(d1name, d2name)
  {
    var added, deleted := "These files have been added to ", "These files have been deleted from ";
    var changed, and := "These files have been changed between ", " and ";
    assert '\n' !in added && '\n' !in deleted && '\n' !in changed && '\n' !in and;
    assert AddedHeader(d1name) == added + d1name && DeletedHeader(d1name) == deleted + d1name;
    assert ChangedHeader(d1name, d2name) == changed + d1name + and + d2name;
  }

  /** The text of one section: the header line, then each entry verbatim
      on its own line in list order, or the line "none". */
  function SectionText(header: string, entries: seq<string>): string {
    header + "\n" + (if |entries| == 0 then "none\n" else JoinLines(entries))
  }

  /** The text of three sections, one after another. */
  function SectionsText(h1: string, e1: seq<string>, h2: string, e2: seq<string>, h3: string, e3: seq<string>): string {
    SectionText(h1, e1) + SectionText(h2, e2) + SectionText(h3, e3)
  }

  /** The report: the line "No files to diff", or the three sections. */
  function Report(nothing: bool, adds: seq<string>, dels: seq<string>, mods: seq<string>, d1name: string, d2name: string): string {
    if nothing then NoFiles + "\n"
    else SectionsText(AddedHeader(d1name), adds, DeletedHeader(d1name), dels, ChangedHeader(d1name, d2name), mods)
  }

  /** Writes one section. */
  method WriteSection(buffer: Buffer, header: string, entries: seq<string>)
    modifies buffer
    ensures buffer.text == old(buffer.text) + SectionText(header, entries)
  {
    buffer.WriteString(header + "\n");
    if |entries| == 0 {
      buffer.WriteString("none\n");
    } else {
      ghost var start := buffer.text;
      for i := 0 to |entries|
        invariant buffer.text == start + JoinLines(entries[..i])
      {
        JoinLinesAppend(entries[..i], [entries[i]]);
        assert entries[..i + 1] == entries[..i] + [entries[i]];
        buffer.WriteString(entries[i] + "\n");
      }
      assert entries[..|entries|] == entries;
    }
  }

  /** Writes three sections in order. */
  method WriteSections(buffer: Buffer, h1: string, e1: seq<string>, h2: string, e2: seq<string>, h3: string, e3: seq<string>)
    modifies buffer
    ensures buffer.text == old(buffer.text) + SectionsText(h1, e1, h2, e2, h3, e3)
  {
    WriteSection(buffer, h1, e1);
    WriteSection(buffer, h2, e2);
    WriteSection(buffer, h3, e3);
  }

  /** Writes the report: "No files to diff", or the three sections in order. */
  method WriteReport(buffer: Buffer, nothing: bool, adds: seq<string>, dels: seq<string>, mods: seq<string>, d1name: string, d2name: string)
    modifies buffer
    ensures buffer.text == old(buffer.text) + Report(nothing, adds, dels, mods, d1name, d2name)
  {
    if nothing {
      buffer.WriteString(NoFiles + "\n");
    } else {
      WriteSections(buffer, AddedHeader(d1name), adds, DeletedHeader(d1name), dels, ChangedHeader(d1name, d2name), mods);
    }
  }

  /** The report as `Package` writes it, the diff already computed: the
      "No files to diff" line stands for a nil added list. */
  method RenderReport(adds: GoSlice<string>, dels: GoSlice<string>, mods: GoSlice<string>, d1name: string, d2name: string)
    returns (out: string)
    ensures out == Report(adds.Nil?, adds.Elems(), dels.Elems(), mods.Elems(), d1name, d2name)
  {
    var buffer := new Buffer();
    WriteReport(buffer, adds.Nil?, adds.Elems(), dels.Elems(), mods.Elems(), d1name, d2name);
    out := buffer.text;
  }

  lemma NoFilesText()
    ensures JoinLines([NoFiles]) == NoFiles + "\n"
  {
    assert [NoFiles][1..] == [];
  }

  /** A section's text is its lines joined. */
  lemma SectionTextLines(header: string, entries: seq<string>)
    ensures SectionText(header, entries) == JoinLines(Section(header, entries))
  {
    assert Section(header, entries)[1..] == Entries(entries);
    if |entries| == 0 {
      assert ["none"][1..] == [];
    }
  }

  /** The three sections' text is their lines joined. */
  lemma SectionsTextLines(h1: string, e1: seq<string>, h2: string, e2: seq<string>, h3: string, e3: seq<string>)
    ensures SectionsText(h1, e1, h2, e2, h3, e3) == JoinLines(Sections(h1, e1, h2, e2, h3, e3))
  {
    SectionTextLines(h1, e1);
    SectionTextLines(h2, e2);
    SectionTextLines(h3, e3);
    JoinLinesAppend(Section(h1, e1), Section(h2, e2));
    JoinLinesAppend(Section(h1, e1) + Section(h2, e2), Section(h3, e3));
  }

  /** The report's lines: "No files to diff" alone, or the three headers in
      fixed order, each followed by its entries verbatim or by "none"; so
      3 + max(1, |adds|) + max(1, |dels|) + max(1, |mods|) lines. */
  lemma ReportLines(nothing: bool, adds: seq<string>, dels: seq<string>, mods: seq<string>, d1name: string, d2name: string)
    requires NoNewlines(adds) && NoNewlines(dels) && NoNewlines(mods)
    requires '\n' !in d1name && '\n' !in d2name
    ensures nothing ==> SplitLines(Report(nothing, adds, dels, mods, d1name, d2name)) == [NoFiles]
    ensures !nothing ==> SplitLines(Report(nothing, adds, dels, mods, d1name, d2name)) == SectionLines(adds, dels, mods, d1name, d2name)
    ensures !nothing ==> (|SplitLines(Report(nothing, adds, dels, mods, d1name, d2name))| ==
      3 + (if |adds| == 0 then 1 else |adds|) + (if |dels| == 0 then 1 else |dels|) + (if |mods| == 0 then 1 else |mods|))
  {
    if nothing {
      assert '\n' !in NoFiles;
      NoFilesText();
      SplitJoin([NoFiles]);
    } else {
      HeadersOneLine(d1name, d2name);
      SectionsOneLine(AddedHeader(d1name), adds, DeletedHeader(d1name), dels, ChangedHeader(d1name, d2name), mods);
      SectionsTextLines(AddedHeader(d1name), adds, DeletedHeader(d1name), dels, ChangedHeader(d1name, d2name), mods);
      SplitJoin(SectionLines(adds, dels, mods, d1name, d2name));
    }
  }

  lemma SectionsOneLine(h1: string, e1: seq<string>, h2: string, e2: seq<string>, h3: string, e3: seq<string>)
    requires '\n' !in h1 && '\n' !in h2 && '\n' !in h3
    requires NoNewlines(e1) && NoNewlines(e2) && NoNewlines(e3)
    ensures NoNewlines(Sections(h1, e1, h2, e2, h3, e3))
  {
    assert '\n' !in "none";
    var s1, s2, s3 := Section(h1, e1), Section(h2, e2), Section(h3, e3);
    assert NoNewlines(s1) && NoNewlines(s2) && NoNewlines(s3);
    assert forall i :: 0 <= i < |s1 + s2| ==> (s1 + s2)[i] in s1 || (s1 + s2)[i] in s2;
  }

  // ------------------------------------------------------- Package as written

  /** `Package` as written: the diff of `DiffDirectory`, reported as "No files
      to diff" whenever the added list is nil. */
  function PackageOutput(fs: FileSystem, d1: Directory, d2: Directory, matches: seq<Match>, groups: seq<seq<OpCode>>)
    : Result<string, IoError>
    requires MatcherOutputFits(d1, d2, matches, groups)
  {
    match DirectoryDiff(fs, d1, d2, matches, groups)
    case Failure(e) => Failure(e)
    case Success(d) => Success(Report(d.adds.Nil?, d.adds.Elems(), d.dels.Elems(), d.mods.Elems(), d1.name, d2.name))
  }

  method Package(fs: FileSystem, d1: Directory, d2: Directory, matches: seq<Match>, groups: seq<seq<OpCode>>)
    returns (r: Result<string, IoError>)
    requires MatcherOutputFits(d1, d2, matches, groups)
    ensures r == PackageOutput(fs, d1, d2, matches, groups)
  {
    var diff := DiffDirectory(fs, d1, d2, matches, groups);
    match diff
    case Failure(e) =>
      r := Failure(e);
      assert r == PackageOutput(fs, d1, d2, matches, groups);
    case Success(d) =>
      var out := RenderReport(d.adds, d.dels, d.mods, d1.name, d2.name);
      r := Success(out);
      assert r == PackageOutput(fs, d1, d2, matches, groups);
  }

  /** A directory whose one entry was deleted: the matcher's only opcode
      deletes it and its only matching block is the sentinel. */
  const OneEntry := Directory("d1/", ["file1"], [])
  const NoEntry := Directory("d2/", [], [])
  const DeleteAll := [[OpCode('d', 0, 1, 0, 0)]]
  const SentinelOnly := [Match(1, 0, 0)]

  /** As written, `Package` reports "No files to diff" for a diff that
      deleted a file, because nothing was added and the added list is nil. */
  lemma DeletionHidden()
    ensures MatcherOutputFits(OneEntry, NoEntry, SentinelOnly, DeleteAll)
    ensures DirectoryDiff(map[], OneEntry, NoEntry, SentinelOnly, DeleteAll) ==
      Success(DirDiff(Nil, List(["file1"]), Nil))
    ensures PackageOutput(map[], OneEntry, NoEntry, SentinelOnly, DeleteAll) == Success(NoFiles + "\n")
  {
    var ops := DeleteAll[0];
    assert Blocks(SentinelOnly) == [];
    assert OpInBounds(ops[0], Old, OneEntry.files) && OpInBounds(ops[0], New, NoEntry.files);
    assert GroupsInBounds(DeleteAll, Old, OneEntry.files) && GroupsInBounds(DeleteAll, New, NoEntry.files);
    assert ops[..0] == [] && DeleteAll[..0] == [];
    assert OpsLines(OneEntry.files, ops, Old) == ["file1"];
    assert OpsLines(NoEntry.files, ops, New) == [];
    assert ScriptLines(OneEntry.files, DeleteAll, Old) == ["file1"];
    assert ScriptLines(NoEntry.files, DeleteAll, New) == [];
  }

  // -------------------------------------------------------- Package corrected

  /** `Package` with the evident intent: "No files to diff" exactly when
      neither directory has an entry, and the three sections otherwise. */
  function CorrectedOutput(fs: FileSystem, d1: Directory, d2: Directory, matches: seq<Match>, groups: seq<seq<OpCode>>)
    : Result<string, IoError>
    requires MatcherOutputFits(d1, d2, matches, groups)
  {
    match DirectoryDiff(fs, d1, d2, matches, groups)
    case Failure(e) => Failure(e)
    case Success(d) =>
      Success(Report(d1.files == [] && d2.files == [], d.adds.Elems(), d.dels.Elems(), d.mods.Elems(), d1.name, d2.name))
  }

  method PackageCorrected(fs: FileSystem, d1: Directory, d2: Directory, matches: seq<Match>, groups: seq<seq<OpCode>>)
    returns (r: Result<string, IoError>)
    requires MatcherOutputFits(d1, d2, matches, groups)
    ensures r == CorrectedOutput(fs, d1, d2, matches, groups)
  {
    var diff := DiffDirectory(fs, d1, d2, matches, groups);
    match diff
    case Failure(e) =>
      r := Failure(e);
      assert r == CorrectedOutput(fs, d1, d2, matches, groups);
    case Success(d) =>
      var buffer := new Buffer();
      WriteReport(buffer, d1.files == [] && d2.files == [], d.adds.Elems(), d.dels.Elems(), d.mods.Elems(), d1.name, d2.name);
      assert buffer.text == Report(d1.files == [] && d2.files == [], d.adds.Elems(), d.dels.Elems(), d.mods.Elems(), d1.name, d2.name);
      r := Success(buffer.text);
      assert r == CorrectedOutput(fs, d1, d2, matches, groups);
  }

  /** The sections never read as the "No files to diff" report. */
  lemma SectionsNotNoFiles(adds: seq<string>, dels: seq<string>, mods: seq<string>, d1name: string, d2name: string)
    ensures Report(false, adds, dels, mods, d1name, d2name) != NoFiles + "\n"
  {
    assert AddedHeader(d1name)[0] == 'T';
    assert Report(false, adds, dels, mods, d1name, d2name)[0] == 'T';
    assert (NoFiles + "\n")[0] == 'N';
  }

  /** Every deleted entry is a line of the sections. */
  lemma DeletedListed(adds: seq<string>, dels: seq<string>, mods: seq<string>, d1name: string, d2name: string, x: string)
    requires x in dels
    ensures x in SectionLines(adds, dels, mods, d1name, d2name)
  {
    assert x in Section(DeletedHeader(d1name), dels);
  }

  /** Corrected: the report is "No files to diff" exactly when both
      directories are empty, and otherwise every deleted entry is one of
      its lines. */
  lemma CorrectedReport(fs: FileSystem, d1: Directory, d2: Directory, matches: seq<Match>, groups: seq<seq<OpCode>>, x: string)
    requires MatcherOutputFits(d1, d2, matches, groups)
    requires CorrectedOutput(fs, d1, d2, matches, groups).Success?
    requires NoNewlines(d1.files) && NoNewlines(d2.files) && '\n' !in d1.name && '\n' !in d2.name
    ensures CorrectedOutput(fs, d1, d2, matches, groups).value == NoFiles + "\n" <==> d1.files == [] && d2.files == []
    ensures x in DirectoryDiff(fs, d1, d2, matches, groups).value.dels.Elems() ==>
      x in SplitLines(CorrectedOutput(fs, d1, d2, matches, groups).value)
  {
    var d := DirectoryDiff(fs, d1, d2, matches, groups).value;
    var adds, dels, mods := d.adds.Elems(), d.dels.Elems(), d.mods.Elems();
    var out := CorrectedOutput(fs, d1, d2, matches, groups).value;
    var nothing := d1.files == [] && d2.files == [];
    assert out == Report(nothing, adds, dels, mods, d1.name, d2.name);
    if nothing {
      assert dels == [] by {
        if dels != [] { FirstIsIn(dels); }
      }
    } else {
      assert NoNewlines(adds) && NoNewlines(dels) && NoNewlines(mods) by {
        EntriesOf(adds, d2.files);
        EntriesOf(dels, d1.files);
        EntriesOf(mods, d1.files);
      }
      SectionsNotNoFiles(adds, dels, mods, d1.name, d2.name);
      ReportLines(nothing, adds, dels, mods, d1.name, d2.name);
      if x in dels {
        DeletedListed(adds, dels, mods, d1.name, d2.name, x);
      }
    }
  }

  lemma FirstIsIn(s: seq<string>)
    ensures s != [] ==> s[0] in s
  {
  }

  /** Entries drawn from a directory listing have no "\n" either. */
  lemma EntriesOf(entries: seq<string>, files: seq<string>)
    requires NoNewlines(files)
    requires forall x :: x in entries ==> x in files
    ensures NoNewlines(entries)
  {
    forall i | 0 <= i < |entries|
      ensures '\n' !in entries[i]
    {
      assert entries[i] in files;
    }
  }

  /** With the set-difference differ the as-written nil test is the intended
      one: its added list is nil exactly when both directories are empty. */
  lemma SetDifferNilMeansEmpty(d1: Directory, d2: Directory)
    ensures FileSetDiff.AddedFiles(d1, d2).Nil? <==> d1.files == [] && d2.files == []
  {
  }
}
