/** The directory-entry differ of `iDiff/utils/fs_utils.go`.

    The sequence matcher that aligns the two entry lists is a foreign library;
    its output (grouped opcodes and matching blocks) is taken as input here,
    with the bounds the matcher guarantees as preconditions. The file system is
    an abstract map from path to file: a missing path is a failed `os.Stat`, an
    unreadable file a failed `ioutil.ReadFile`. Go's panics on those failures
    are error results. */
module FsUtils {
  import opened Wrappers

  newtype byte = b: int | 0 <= b < 256

  /** A directory description: its root path, its entry list, sub-directories. */
  datatype Directory = Directory(name: string, files: seq<string>, dirs: seq<Directory>)

  /** One opcode of the matcher: tag 'r' replaces a[i1:i2] by b[j1:j2], 'd'
      deletes a[i1:i2], 'i' inserts b[j1:j2], 'e' marks them equal. */
  datatype OpCode = OpCode(tag: char, i1: int, i2: int, j1: int, j2: int)

  /** A matching block: a[a:a+size] equals b[b:b+size]. */
  datatype Match = Match(a: int, b: int, size: int)

  datatype FileEntry = FileEntry(contents: seq<byte>, readable: bool)
  type FileSystem = map<string, FileEntry>

  datatype IoError = StatFailed(path: string) | ReadFailed(path: string)

  /** The result of a directory diff: added, deleted and modified entries. */
  datatype DirDiff = DirDiff(adds: GoSlice<string>, dels: GoSlice<string>, mods: GoSlice<string>)

  // ---------------------------------------------------------------------------
  // Opcodes to additions and deletions (GetAddsAndDels)
  // ---------------------------------------------------------------------------

  /** `Old` is the first entry list (deletions), `New` the second (additions). */
  datatype Side = Old | New

  /** Whether an opcode copies lines of that side: 'r' and 'd' delete lines of
      the old list, 'r' and 'i' insert lines of the new one. */
  predicate Contributes(c: OpCode, side: Side) {
    if side.Old? then c.tag == 'r' || c.tag == 'd' else c.tag == 'r' || c.tag == 'i'
  }

  function Lo(c: OpCode, side: Side): int { if side.Old? then c.i1 else c.j1 }
  function Hi(c: OpCode, side: Side): int { if side.Old? then c.i2 else c.j2 }

  /** The slice the opcode takes of `src` exists (Go would panic otherwise). */
  predicate OpInBounds(c: OpCode, side: Side, src: seq<string>) {
    Contributes(c, side) ==> 0 <= Lo(c, side) <= Hi(c, side) <= |src|
  }

  predicate OpsInBounds(ops: seq<OpCode>, side: Side, src: seq<string>) {
    forall i :: 0 <= i < |ops| ==> OpInBounds(ops[i], side, src)
  }

  predicate GroupsInBounds(groups: seq<seq<OpCode>>, side: Side, src: seq<string>) {
    forall i :: 0 <= i < |groups| ==> OpsInBounds(groups[i], side, src)
  }

  /** The lines one opcode contributes on one side. */
  function OpLines(src: seq<string>, c: OpCode, side: Side): seq<string>
    requires OpInBounds(c, side, src)
  {
    if Contributes(c, side) then src[Lo(c, side)..Hi(c, side)] else []
  }

  /** The lines a group of opcodes contributes, in opcode order. */
  function OpsLines(src: seq<string>, ops: seq<OpCode>, side: Side): seq<string>
    requires OpsInBounds(ops, side, src)
  {
    if ops == [] then []
    else OpsLines(src, ops[..|ops| - 1], side) + OpLines(src, ops[|ops| - 1], side)
  }

  /** The lines all groups contribute, in group order. */
  function ScriptLines(src: seq<string>, groups: seq<seq<OpCode>>, side: Side): seq<string>
    requires GroupsInBounds(groups, side, src)
  {
    if groups == [] then []
    else ScriptLines(src, groups[..|groups| - 1], side) + OpsLines(src, groups[|groups| - 1], side)
  }

  /** Collects the deleted lines of `a` and the inserted lines of `b` named by
      the opcodes; each result is nil when no opcode contributed a line. */
  method GetAddsAndDels(a: seq<string>, b: seq<string>, groups: seq<seq<OpCode>>)
    returns (adds: GoSlice<string>, dels: GoSlice<string>)
    requires GroupsInBounds(groups, Old, a) && GroupsInBounds(groups, New, b)
    ensures adds == FromSeq(ScriptLines(b, groups, New))
    ensures dels == FromSeq(ScriptLines(a, groups, Old))
  {
    adds, dels := Nil, Nil;
    for gi := 0 to |groups|
      invariant dels == FromSeq(ScriptLines(a, groups[..gi], Old))
      invariant adds == FromSeq(ScriptLines(b, groups[..gi], New))
    {
      var g := groups[gi];
      assert OpsInBounds(g, Old, a) && OpsInBounds(g, New, b);
      PrefixInBounds(groups, gi + 1, Old, a);
      PrefixInBounds(groups, gi + 1, New, b);
      ghost var delsBefore := ScriptLines(a, groups[..gi], Old);
      ghost var addsBefore := ScriptLines(b, groups[..gi], New);
      for ci := 0 to |g|
        invariant dels == FromSeq(delsBefore + OpsLines(a, g[..ci], Old))
        invariant adds == FromSeq(addsBefore + OpsLines(b, g[..ci], New))
      {
        var c := g[ci];
        assert OpInBounds(c, Old, a) && OpInBounds(c, New, b);
        OpsLinesSnoc(a, g, ci, Old);
        OpsLinesSnoc(b, g, ci, New);
        ghost var delsMid := OpsLines(a, g[..ci], Old);
        ghost var addsMid := OpsLines(b, g[..ci], New);
        if c.tag == 'r' || c.tag == 'd' {
          dels := AppendAll(dels, a[c.i1..c.i2]);
        } else {
          assert OpLines(a, c, Old) == [];
          assert delsBefore + delsMid + [] == delsBefore + delsMid;
        }
        assert dels == FromSeq(delsBefore + delsMid + OpLines(a, c, Old));
        ConcatAssoc(delsBefore, delsMid, OpLines(a, c, Old));
        if c.tag == 'r' || c.tag == 'i' {
          adds := AppendAll(adds, b[c.j1..c.j2]);
        } else {
          assert OpLines(b, c, New) == [];
          assert addsBefore + addsMid + [] == addsBefore + addsMid;
        }
        assert adds == FromSeq(addsBefore + addsMid + OpLines(b, c, New));
        ConcatAssoc(addsBefore, addsMid, OpLines(b, c, New));
      }
      assert g[..|g|] == g;
      assert groups[..gi + 1][..gi] == groups[..gi];
    }
    assert groups[..|groups|] == groups;
  }

  lemma ConcatAssoc(x: seq<string>, y: seq<string>, z: seq<string>)
    ensures x + y + z == x + (y + z)
  {
  }

  lemma OpsLinesSnoc(src: seq<string>, ops: seq<OpCode>, n: nat, side: Side)
    requires n < |ops| && OpsInBounds(ops, side, src)
    ensures OpsInBounds(ops[..n], side, src) && OpsInBounds(ops[..n + 1], side, src)
    ensures OpsLines(src, ops[..n + 1], side) == OpsLines(src, ops[..n], side) + OpLines(src, ops[n], side)
  {
    assert ops[..n + 1][..n] == ops[..n];
  }

  lemma PrefixInBounds(groups: seq<seq<OpCode>>, n: nat, side: Side, src: seq<string>)
    requires n <= |groups| && GroupsInBounds(groups, side, src)
    ensures GroupsInBounds(groups[..n], side, src)
    ensures forall i :: 0 <= i <= n ==> GroupsInBounds(groups[..i], side, src)
  {
  }

  /** The `for _, line := range lines { s = append(s, line) }` loop: a slice
      that is nil only when empty stays so after the appends. */
  method AppendAll(s: GoSlice<string>, lines: seq<string>) returns (r: GoSlice<string>)
    requires s == FromSeq(s.Elems())
    ensures r == FromSeq(s.Elems() + lines)
  {
    r := s;
    for k := 0 to |lines|
      invariant r == FromSeq(s.Elems() + lines[..k])
    {
      assert lines[..k + 1] == lines[..k] + [lines[k]];
      r := r.Append(lines[k]);
    }
    assert lines[..|lines|] == lines;
  }

  /** Opcode order is kept: the lines of a script split in two are the lines of
      the first part followed by those of the second. */
  lemma {:induction false} ScriptLinesSplit(src: seq<string>, groups: seq<seq<OpCode>>, n: nat, side: Side)
    requires GroupsInBounds(groups, side, src) && n <= |groups|
    ensures GroupsInBounds(groups[..n], side, src) && GroupsInBounds(groups[n..], side, src)
    ensures ScriptLines(src, groups, side) == ScriptLines(src, groups[..n], side) + ScriptLines(src, groups[n..], side)
    decreases |groups|
  {
    SlicesInBounds(src, groups, n, side);
    if n == |groups| {
      assert groups[..n] == groups;
      assert groups[n..] == [];
      assert ScriptLines(src, groups, side) + [] == ScriptLines(src, groups, side);
    } else {
      var m := |groups| - 1;
      var init, tail := groups[..m], groups[n..];
      ScriptLinesLast(src, groups, side);
      ScriptLinesLast(src, tail, side);
      SplitSlices(groups, n);
      SlicesInBounds(src, init, n, side);
      ScriptLinesSplit(src, init, n, side);
      ConcatAssoc(ScriptLines(src, groups[..n], side), ScriptLines(src, init[n..], side), OpsLines(src, groups[m], side));
    }
  }

  lemma SlicesInBounds(src: seq<string>, groups: seq<seq<OpCode>>, n: nat, side: Side)
    requires GroupsInBounds(groups, side, src) && n <= |groups|
    ensures GroupsInBounds(groups[..n], side, src) && GroupsInBounds(groups[n..], side, src)
  {
    assert forall i :: 0 <= i < |groups[n..]| ==> groups[n..][i] == groups[n + i];
  }

  /** Cutting before the last group, the two halves line up with the cut of
      the shorter script. */
  lemma SplitSlices<T>(xs: seq<T>, n: nat)
    requires n < |xs|
    ensures xs[..|xs| - 1][..n] == xs[..n]
    ensures xs[n..][..|xs[n..]| - 1] == xs[..|xs| - 1][n..]
    ensures xs[n..][|xs[n..]| - 1] == xs[|xs| - 1]
  {
  }

  /** The definition of ScriptLines for a non-empty script. */
  lemma ScriptLinesLast(src: seq<string>, groups: seq<seq<OpCode>>, side: Side)
    requires GroupsInBounds(groups, side, src) && groups != []
    ensures GroupsInBounds(groups[..|groups| - 1], side, src)
    ensures ScriptLines(src, groups, side) == ScriptLines(src, groups[..|groups| - 1], side) + OpsLines(src, groups[|groups| - 1], side)
  {
  }

  /** Opcode `c` copies line `k` of its side. */
  predicate Covers(c: OpCode, side: Side, k: int) {
    Contributes(c, side) && Lo(c, side) <= k < Hi(c, side)
  }

  /** No contributing opcode of the group has a non-empty range. */
  predicate OpsSilent(ops: seq<OpCode>, side: Side) {
    forall i :: 0 <= i < |ops| && Contributes(ops[i], side) ==> Lo(ops[i], side) == Hi(ops[i], side)
  }

  /** No group contributes a line. */
  predicate ScriptSilent(groups: seq<seq<OpCode>>, side: Side) {
    forall gi :: 0 <= gi < |groups| ==> OpsSilent(groups[gi], side)
  }

  lemma OpsSilentSnoc(ops: seq<OpCode>, side: Side)
    requires ops != []
    ensures OpsSilent(ops, side) <==>
      OpsSilent(ops[..|ops| - 1], side) && (Contributes(ops[|ops| - 1], side) ==> Lo(ops[|ops| - 1], side) == Hi(ops[|ops| - 1], side))
  {
    var init := ops[..|ops| - 1];
    assert forall i :: 0 <= i < |init| ==> init[i] == ops[i];
  }

  lemma ScriptSilentSnoc(groups: seq<seq<OpCode>>, side: Side)
    requires groups != []
    ensures ScriptSilent(groups, side) <==> ScriptSilent(groups[..|groups| - 1], side) && OpsSilent(groups[|groups| - 1], side)
  {
    var init := groups[..|groups| - 1];
    assert forall gi :: 0 <= gi < |init| ==> init[gi] == groups[gi];
  }

  /** A group contributes nothing exactly when each of its contributing
      opcodes has an empty range. */
  lemma {:induction false} OpsLinesEmptyIff(src: seq<string>, ops: seq<OpCode>, side: Side)
    requires OpsInBounds(ops, side, src)
    ensures OpsLines(src, ops, side) == [] <==> OpsSilent(ops, side)
    decreases |ops|
  {
    if ops != [] {
      var init, last := ops[..|ops| - 1], ops[|ops| - 1];
      assert OpsInBounds(init, side, src);
      OpsLinesEmptyIff(src, init, side);
      OpsSilentSnoc(ops, side);
      assert OpsLines(src, ops, side) == OpsLines(src, init, side) + OpLines(src, last, side);
    }
  }

  /** Nil-ness of GetAddsAndDels' results: a side's slice is nil exactly when
      no opcode of any group contributes a line to it ('e' opcodes and empty
      ranges never do). */
  lemma {:induction false} ScriptLinesEmptyIff(src: seq<string>, groups: seq<seq<OpCode>>, side: Side)
    requires GroupsInBounds(groups, side, src)
    ensures FromSeq(ScriptLines(src, groups, side)).Nil? <==> ScriptSilent(groups, side)
    decreases |groups|
  {
    if groups != [] {
      var init, last := groups[..|groups| - 1], groups[|groups| - 1];
      assert GroupsInBounds(init, side, src);
      ScriptLinesEmptyIff(src, init, side);
      OpsLinesEmptyIff(src, last, side);
      ScriptSilentSnoc(groups, side);
      assert ScriptLines(src, groups, side) == ScriptLines(src, init, side) + OpsLines(src, last, side);
    }
  }

  /** Line `x` is a line of `src` that opcode `c` copies. */
  predicate OpCovers(src: seq<string>, c: OpCode, side: Side, x: string) {
    exists k :: 0 <= k < |src| && Covers(c, side, k) && src[k] == x
  }

  /** Line `x` is a line of `src` that some opcode of the group copies. */
  predicate OpsCover(src: seq<string>, ops: seq<OpCode>, side: Side, x: string) {
    exists i :: 0 <= i < |ops| && OpCovers(src, ops[i], side, x)
  }

  /** Line `x` is a line of `src` that some opcode of some group copies. */
  predicate ScriptCovers(src: seq<string>, groups: seq<seq<OpCode>>, side: Side, x: string) {
    exists gi :: 0 <= gi < |groups| && OpsCover(src, groups[gi], side, x)
  }

  lemma OpLinesMembers(src: seq<string>, c: OpCode, side: Side, x: string)
    requires OpInBounds(c, side, src)
    ensures x in OpLines(src, c, side) <==> OpCovers(src, c, side, x)
  {
    if x in OpLines(src, c, side) {
      var j :| 0 <= j < |OpLines(src, c, side)| && OpLines(src, c, side)[j] == x;
      assert Covers(c, side, Lo(c, side) + j) && src[Lo(c, side) + j] == x;
    }
    if OpCovers(src, c, side, x) {
      var k :| 0 <= k < |src| && Covers(c, side, k) && src[k] == x;
      assert OpLines(src, c, side)[k - Lo(c, side)] == x;
    }
  }

  lemma OpsCoverSnoc(src: seq<string>, ops: seq<OpCode>, side: Side, x: string)
    requires ops != []
    ensures OpsCover(src, ops, side, x) <==>
      OpsCover(src, ops[..|ops| - 1], side, x) || OpCovers(src, ops[|ops| - 1], side, x)
  {
    var init := ops[..|ops| - 1];
    if OpsCover(src, ops, side, x) {
      var i :| 0 <= i < |ops| && OpCovers(src, ops[i], side, x);
      if i < |init| { assert init[i] == ops[i]; }
    }
    if OpsCover(src, init, side, x) {
      var i :| 0 <= i < |init| && OpCovers(src, init[i], side, x);
      assert ops[i] == init[i];
    }
  }

  lemma ScriptCoversSnoc(src: seq<string>, groups: seq<seq<OpCode>>, side: Side, x: string)
    requires groups != []
    ensures ScriptCovers(src, groups, side, x) <==>
      ScriptCovers(src, groups[..|groups| - 1], side, x) || OpsCover(src, groups[|groups| - 1], side, x)
  {
    var init := groups[..|groups| - 1];
    if ScriptCovers(src, groups, side, x) {
      var gi :| 0 <= gi < |groups| && OpsCover(src, groups[gi], side, x);
      if gi < |init| { assert init[gi] == groups[gi]; }
    }
    if ScriptCovers(src, init, side, x) {
      var gi :| 0 <= gi < |init| && OpsCover(src, init[gi], side, x);
      assert groups[gi] == init[gi];
    }
  }

  /** A group's contribution holds exactly the lines its contributing opcodes cover. */
  lemma {:induction false} OpsLinesMembers(src: seq<string>, ops: seq<OpCode>, side: Side, x: string)
    requires OpsInBounds(ops, side, src)
    ensures x in OpsLines(src, ops, side) <==> OpsCover(src, ops, side, x)
    decreases |ops|
  {
    if ops != [] {
      var init, last := ops[..|ops| - 1], ops[|ops| - 1];
      assert OpsInBounds(init, side, src);
      OpsLinesMembers(src, init, side, x);
      OpLinesMembers(src, last, side, x);
      OpsCoverSnoc(src, ops, side, x);
      assert OpsLines(src, ops, side) == OpsLines(src, init, side) + OpLines(src, last, side);
    }
  }

  /** Every added line is a line of the new list inside an 'r'/'i' range, and
      every deleted line one of the old list inside an 'r'/'d' range; and
      conversely every such line is reported. */
  lemma {:induction false} ScriptLinesMembers(src: seq<string>, groups: seq<seq<OpCode>>, side: Side, x: string)
    requires GroupsInBounds(groups, side, src)
    ensures x in ScriptLines(src, groups, side) <==> ScriptCovers(src, groups, side, x)
    decreases |groups|
  {
    if groups != [] {
      var init, last := groups[..|groups| - 1], groups[|groups| - 1];
      assert GroupsInBounds(init, side, src);
      ScriptLinesMembers(src, init, side, x);
      OpsLinesMembers(src, last, side, x);
      ScriptCoversSnoc(src, groups, side, x);
      assert ScriptLines(src, groups, side) == ScriptLines(src, init, side) + OpsLines(src, last, side);
    }
  }

  /** A covered line is a line of the list. */
  lemma ScriptCoversIn(src: seq<string>, groups: seq<seq<OpCode>>, side: Side, x: string)
    requires ScriptCovers(src, groups, side, x)
    ensures x in src
  {
    var gi :| 0 <= gi < |groups| && OpsCover(src, groups[gi], side, x);
    var i :| 0 <= i < |groups[gi]| && OpCovers(src, groups[gi][i], side, x);
  }

  // ---------------------------------------------------------------------------
  // Matching blocks to the common entries (GetMatchStrings)
  // ---------------------------------------------------------------------------

  /** The matching blocks proper: the matcher ends its list with a sentinel
      block of size 0, which GetMatchStrings skips. */
  function Blocks(matches: seq<Match>): seq<Match> {
    if matches == [] then [] else matches[..|matches| - 1]
  }

  predicate BlockInBounds(m: Match, a: seq<string>) {
    0 <= m.a && 0 <= m.size && m.a + m.size <= |a|
  }

  predicate BlocksInBounds(ms: seq<Match>, a: seq<string>) {
    forall i :: 0 <= i < |ms| ==> BlockInBounds(ms[i], a)
  }

  /** The lines of `a` covered by the blocks, block after block. */
  function MatchedLines(a: seq<string>, ms: seq<Match>): seq<string>
    requires BlocksInBounds(ms, a)
  {
    if ms == [] then []
    else
      var m := ms[|ms| - 1];
      MatchedLines(a, ms[..|ms| - 1]) + a[m.a..m.a + m.size]
  }

  function TotalSize(ms: seq<Match>): int {
    if ms == [] then 0 else TotalSize(ms[..|ms| - 1]) + ms[|ms| - 1].size
  }

  /** Concatenates `a[m.A : m.A+m.Size]` over every matching block except the
      last (the sentinel); nil when nothing was collected. */
  method GetMatchStrings(a: seq<string>, matches: seq<Match>) returns (matchstrings: GoSlice<string>)
    requires BlocksInBounds(Blocks(matches), a)
    ensures matchstrings == FromSeq(MatchedLines(a, Blocks(matches)))
  {
    matchstrings := Nil;
    var blocks := Blocks(matches);
    for i := 0 to |matches|
      invariant matchstrings == FromSeq(MatchedLines(a, blocks[..if i < |blocks| then i else |blocks|]))
    {
      var m := matches[i];
      if i != |matches| - 1 {
        assert blocks[i] == m;
        MatchedLinesSnoc(a, blocks, i);
        matchstrings := AppendAll(matchstrings, a[m.a..m.a + m.size]);
      }
    }
    assert blocks[..|blocks|] == blocks;
  }

  lemma MatchedLinesSnoc(a: seq<string>, ms: seq<Match>, i: int)
    requires BlocksInBounds(ms, a) && 0 <= i < |ms|
    ensures BlocksInBounds(ms[..i], a) && BlocksInBounds(ms[..i + 1], a)
    ensures MatchedLines(a, ms[..i + 1]) == MatchedLines(a, ms[..i]) + a[ms[i].a..ms[i].a + ms[i].size]
  {
    assert ms[..i + 1][..i] == ms[..i];
  }

  /** The common entries number exactly the sum of the block sizes. */
  lemma {:induction false} MatchedLinesLength(a: seq<string>, ms: seq<Match>)
    requires BlocksInBounds(ms, a)
    ensures |MatchedLines(a, ms)| == TotalSize(ms)
    decreases |ms|
  {
    if ms != [] { MatchedLinesLength(a, ms[..|ms| - 1]); }
  }

  /** Every common entry is a line of `a` inside one of the matching blocks. */
  lemma {:induction false} MatchedLinesFromBlocks(a: seq<string>, ms: seq<Match>, x: string)
    requires BlocksInBounds(ms, a)
    requires x in MatchedLines(a, ms)
    ensures exists i, k :: 0 <= i < |ms| && ms[i].a <= k < ms[i].a + ms[i].size && 0 <= k < |a| && a[k] == x
    decreases |ms|
  {
    var n := |ms| - 1;
    var init := ms[..n];
    var m := ms[n];
    if x in MatchedLines(a, init) {
      MatchedLinesFromBlocks(a, init, x);
      var i, k :| 0 <= i < |init| && init[i].a <= k < init[i].a + init[i].size && 0 <= k < |a| && a[k] == x;
      assert ms[i] == init[i];
    } else {
      var j :| 0 <= j < m.size && a[m.a..m.a + m.size][j] == x;
      assert a[m.a + j] == x;
    }
  }

  // ---------------------------------------------------------------------------
  // Content comparison (CheckSameFile, GetModifiedFiles)
  // ---------------------------------------------------------------------------

  /** Compares two files: both are stat'ed first (a missing one is an error);
      differing sizes answer false without reading; otherwise both are read
      (an unreadable one is an error) and their bytes compared. */
  function CheckSameFile(fs: FileSystem, f1: string, f2: string): (r: Result<bool, IoError>)
    ensures f1 !in fs ==> r == Failure(StatFailed(f1))
    ensures f1 in fs && f2 !in fs ==> r == Failure(StatFailed(f2))
    ensures f1 in fs && f2 in fs && |fs[f1].contents| != |fs[f2].contents| ==> r == Success(false)
    ensures r.Success? <==> Comparable(fs, f1, f2)
    ensures r.Success? ==> (r.value <==> fs[f1].contents == fs[f2].contents)
  {
    if f1 !in fs then Failure(StatFailed(f1))
    else if f2 !in fs then Failure(StatFailed(f2))
    else if |fs[f1].contents| != |fs[f2].contents| then Success(false)
    else if !fs[f1].readable then Failure(ReadFailed(f1))
    else if !fs[f2].readable then Failure(ReadFailed(f2))
    else Success(fs[f1].contents == fs[f2].contents)
  }

  /** Both files exist, and both can be read whenever their sizes agree:
      exactly the case in which CheckSameFile answers. */
  predicate Comparable(fs: FileSystem, f1: string, f2: string) {
    f1 in fs && f2 in fs &&
    (|fs[f1].contents| == |fs[f2].contents| ==> fs[f1].readable && fs[f2].readable)
  }

  /** GetModifiedFiles' result as a value: the entries `f` whose files
      `path1+f` and `path2+f` (plain concatenation) are not the same, in input
      order; the first failing comparison aborts with its error. */
  function Modified(fs: FileSystem, path1: string, path2: string, files: seq<string>): Result<seq<string>, IoError>
  {
    if files == [] then Success([])
    else
      var f := files[|files| - 1];
      match Modified(fs, path1, path2, files[..|files| - 1])
      case Failure(e) => Failure(e)
      case Success(mods) =>
        match CheckSameFile(fs, path1 + f, path2 + f)
        case Failure(e) => Failure(e)
        case Success(same) => Success(if same then mods else mods + [f])
  }

  predicate AllComparable(fs: FileSystem, path1: string, path2: string, files: seq<string>) {
    forall f :: f in files ==> Comparable(fs, path1 + f, path2 + f)
  }

  /** Reference definition: the entries whose contents differ, by plain
      content equality, no size shortcut, in input order. */
  function Differing(fs: FileSystem, path1: string, path2: string, files: seq<string>): seq<string>
    requires AllComparable(fs, path1, path2, files)
  {
    if files == [] then []
    else
      var f := files[|files| - 1];
      Differing(fs, path1, path2, files[..|files| - 1]) +
        (if fs[path1 + f].contents == fs[path2 + f].contents then [] else [f])
  }

  /** GetModifiedFiles fails exactly when some comparison cannot be made, and
      otherwise agrees with plain content comparison. */
  lemma {:induction false} ModifiedIsDiffering(fs: FileSystem, path1: string, path2: string, files: seq<string>)
    ensures Modified(fs, path1, path2, files).Success? <==> AllComparable(fs, path1, path2, files)
    ensures AllComparable(fs, path1, path2, files) ==>
      Modified(fs, path1, path2, files).value == Differing(fs, path1, path2, files)
    decreases |files|
  {
    if files != [] {
      var init := files[..|files| - 1];
      var f := files[|files| - 1];
      ModifiedIsDiffering(fs, path1, path2, init);
      assert files == init + [f];
    }
  }

  /** The differing entries are exactly the listed entries with different contents. */
  lemma {:induction false} DifferingMembers(fs: FileSystem, path1: string, path2: string, files: seq<string>, x: string)
    requires AllComparable(fs, path1, path2, files)
    ensures x in Differing(fs, path1, path2, files) <==>
      x in files && fs[path1 + x].contents != fs[path2 + x].contents
    decreases |files|
  {
    if files != [] {
      var init := files[..|files| - 1];
      DifferingMembers(fs, path1, path2, init, x);
      assert files == init + [files[|files| - 1]];
    }
  }

  /** Keeps the entries whose two files are not the same, in input order;
      nil when none is kept; the first failing comparison aborts. */
  method GetModifiedFiles(fs: FileSystem, path1: string, path2: string, files: seq<string>)
    returns (r: Result<GoSlice<string>, IoError>)
    ensures r.Failure? <==> Modified(fs, path1, path2, files).Failure?
    ensures r.Failure? ==> r.error == Modified(fs, path1, path2, files).error
    ensures r.Success? ==> r.value == FromSeq(Modified(fs, path1, path2, files).value)
  {
    var mods: GoSlice<string> := Nil;
    for i := 0 to |files|
      invariant Modified(fs, path1, path2, files[..i]).Success?
      invariant mods == FromSeq(Modified(fs, path1, path2, files[..i]).value)
    {
      var f := files[i];
      assert files[..i + 1][..i] == files[..i];
      var same := CheckSameFile(fs, path1 + f, path2 + f);
      if same.Failure? {
        ModifiedFailurePersists(fs, path1, path2, files, i + 1);
        return Failure(same.error);
      }
      if !same.value {
        mods := mods.Append(f);
      }
    }
    assert files[..|files|] == files;
    return Success(mods);
  }

  /** Once a prefix of the entries fails, the whole list fails with that error. */
  lemma {:induction false} ModifiedFailurePersists(fs: FileSystem, path1: string, path2: string, files: seq<string>, n: nat)
    requires n <= |files|
    requires Modified(fs, path1, path2, files[..n]).Failure?
    ensures Modified(fs, path1, path2, files) == Modified(fs, path1, path2, files[..n])
    decreases |files| - n
  {
    if n < |files| {
      assert files[..n + 1][..n] == files[..n];
      ModifiedFailurePersists(fs, path1, path2, files, n + 1);
    } else {
      assert files[..n] == files;
    }
  }

  // ---------------------------------------------------------------------------
  // The directory diff (CompareFileEntries, DiffDirectory)
  // ---------------------------------------------------------------------------

  /** What the matcher's output must satisfy for the two entry lists. */
  predicate MatcherOutputFits(d1: Directory, d2: Directory, matches: seq<Match>, groups: seq<seq<OpCode>>) {
    BlocksInBounds(Blocks(matches), d1.files) &&
    GroupsInBounds(groups, Old, d1.files) && GroupsInBounds(groups, New, d2.files)
  }

  /** The directory diff as a value: the common entries of the matching
      blocks are content-compared under the two roots; additions and
      deletions come from the opcodes. */
  function DirectoryDiff(fs: FileSystem, d1: Directory, d2: Directory, matches: seq<Match>, groups: seq<seq<OpCode>>)
    : (r: Result<DirDiff, IoError>)
    requires MatcherOutputFits(d1, d2, matches, groups)
    ensures r.Success? ==> forall x :: x in r.value.adds.Elems() ==> x in d2.files
    ensures r.Success? ==> forall x :: x in r.value.dels.Elems() ==> x in d1.files
    ensures r.Success? ==> forall x :: x in r.value.mods.Elems() ==>
      x in MatchedLines(d1.files, Blocks(matches)) && x in d1.files
  {
    var common := MatchedLines(d1.files, Blocks(matches));
    match Modified(fs, d1.name, d2.name, common)
    case Failure(e) => Failure(e)
    case Success(mods) =>
      var adds := ScriptLines(d2.files, groups, New);
      var dels := ScriptLines(d1.files, groups, Old);
      assert forall x :: x in adds ==> x in d2.files by {
        forall x | x in adds ensures x in d2.files {
          ScriptLinesMembers(d2.files, groups, New, x);
          ScriptCoversIn(d2.files, groups, New, x);
        }
      }
      assert forall x :: x in dels ==> x in d1.files by {
        forall x | x in dels ensures x in d1.files {
          ScriptLinesMembers(d1.files, groups, Old, x);
          ScriptCoversIn(d1.files, groups, Old, x);
        }
      }
      ModifiedIsDiffering(fs, d1.name, d2.name, common);
      assert forall x :: x in mods ==> x in common && x in d1.files by {
        forall x | x in mods ensures x in common && x in d1.files {
          DifferingMembers(fs, d1.name, d2.name, common, x);
          MatchedLinesFromBlocks(d1.files, Blocks(matches), x);
        }
      }
      Success(DirDiff(FromSeq(adds), FromSeq(dels), FromSeq(mods)))
  }

  /** Runs the (given) matcher output through GetMatchStrings,
      GetModifiedFiles and GetAddsAndDels. */
  method CompareFileEntries(fs: FileSystem, d1: Directory, d2: Directory, matches: seq<Match>, groups: seq<seq<OpCode>>)
    returns (r: Result<DirDiff, IoError>)
    requires MatcherOutputFits(d1, d2, matches, groups)
    ensures r == DirectoryDiff(fs, d1, d2, matches, groups)
  {
    var e1 := d1.files;
    var e2 := d2.files;
    var matchstrings := GetMatchStrings(e1, matches);
    var mods := GetModifiedFiles(fs, d1.name, d2.name, matchstrings.Elems());
    if mods.Failure? {
      return Failure(mods.error);
    }
    var adds, dels := GetAddsAndDels(e1, e2, groups);
    return Success(DirDiff(adds, dels, mods.value));
  }

  /** DiffDirectory delegates to CompareFileEntries. */
  method DiffDirectory(fs: FileSystem, d1: Directory, d2: Directory, matches: seq<Match>, groups: seq<seq<OpCode>>)
    returns (r: Result<DirDiff, IoError>)
    requires MatcherOutputFits(d1, d2, matches, groups)
    ensures r == DirectoryDiff(fs, d1, d2, matches, groups)
  {
    r := CompareFileEntries(fs, d1, d2, matches, groups);
  }
}
