/** The set-difference file differ whose behaviour `iDiff/utils/fs_utils_test.go`
    pins down: `getAddedFiles`, `getDeletedFiles` and `getModifiedFiles` over
    two directory descriptions. Entries are compared by name; additions are
    listed in the second directory's order, deletions and modifications in
    the first's; every result is nil when both entry lists are empty and a
    (possibly empty) non-nil list otherwise. */
module FileSetDiff {
  import opened Wrappers
  import opened FsUtils

  /** `r` is `xs` with some elements left out, the rest kept in order. */
  predicate IsSubsequence(r: seq<string>, xs: seq<string>)
    decreases |xs|
  {
    if r == [] then true
    else if xs == [] then false
    else if r[0] == xs[0] then IsSubsequence(r[1..], xs[1..])
    else IsSubsequence(r, xs[1..])
  }

  /** The entries of `xs` that `ys` lacks, in the order of `xs`. */
  function Without(xs: seq<string>, ys: seq<string>): (r: seq<string>)
    ensures forall x :: x in r <==> x in xs && x !in ys
    ensures IsSubsequence(r, xs)
  {
    if xs == [] then []
    else if xs[0] in ys then Without(xs[1..], ys)
    else [xs[0]] + Without(xs[1..], ys)
  }

  /** The entries of `xs` that `ys` also has, in the order of `xs`. */
  function Common(xs: seq<string>, ys: seq<string>): (r: seq<string>)
    ensures forall x :: x in r <==> x in xs && x in ys
    ensures IsSubsequence(r, xs)
  {
    if xs == [] then []
    else if xs[0] in ys then [xs[0]] + Common(xs[1..], ys)
    else Common(xs[1..], ys)
  }

  /** A longer list keeps every subsequence of its tail. */
  lemma {:induction false} SubsequenceSkip(r: seq<string>, xs: seq<string>)
    requires xs != [] && IsSubsequence(r, xs[1..])
    ensures IsSubsequence(r, xs)
    decreases |xs|, 0
  {
    if r != [] && r[0] == xs[0] {
      SubsequenceDropHead(r, xs[1..]);
    }
  }

  /** Dropping the first element of a subsequence leaves a subsequence. */
  lemma {:induction false} SubsequenceDropHead(r: seq<string>, xs: seq<string>)
    requires r != [] && IsSubsequence(r, xs)
    ensures IsSubsequence(r[1..], xs)
    decreases |xs|, 1
  {
    if r[0] == xs[0] {
      SubsequenceSkip(r[1..], xs);
    } else {
      SubsequenceDropHead(r, xs[1..]);
      SubsequenceSkip(r[1..], xs);
    }
  }

  function NoEntries(d1: Directory, d2: Directory): bool {
    d1.files == [] && d2.files == []
  }

  /** Entries of the second directory absent from the first. */
  function AddedFiles(d1: Directory, d2: Directory): (r: GoSlice<string>)
    ensures r.Nil? <==> NoEntries(d1, d2)
    ensures forall x :: x in r.Elems() <==> x in d2.files && x !in d1.files
    ensures IsSubsequence(r.Elems(), d2.files)
  {
    if NoEntries(d1, d2) then Nil else List(Without(d2.files, d1.files))
  }

  /** Entries of the first directory absent from the second. */
  function DeletedFiles(d1: Directory, d2: Directory): (r: GoSlice<string>)
    ensures r.Nil? <==> NoEntries(d1, d2)
    ensures forall x :: x in r.Elems() <==> x in d1.files && x !in d2.files
    ensures IsSubsequence(r.Elems(), d1.files)
  {
    if NoEntries(d1, d2) then Nil else List(Without(d1.files, d2.files))
  }

  /** Entries present in both directories whose files under the two roots
      differ, in the first directory's order. A failed stat or read of a
      compared file is an error. */
  function ModifiedFiles(fs: FileSystem, d1: Directory, d2: Directory): (r: Result<GoSlice<string>, IoError>)
    ensures r.Success? ==> (r.value.Nil? <==> NoEntries(d1, d2))
    ensures r.Success? <==> AllComparable(fs, d1.name, d2.name, Common(d1.files, d2.files))
    ensures r.Success? ==> forall x :: x in r.value.Elems() <==>
      x in d1.files && x in d2.files && fs[d1.name + x].contents != fs[d2.name + x].contents
    ensures r.Success? ==> IsSubsequence(r.value.Elems(), d1.files)
  {
    var common := Common(d1.files, d2.files);
    ModifiedIsDiffering(fs, d1.name, d2.name, common);
    if NoEntries(d1, d2) then Success(Nil)
    else
      match Modified(fs, d1.name, d2.name, common)
      case Failure(e) => Failure(e)
      case Success(mods) =>
        forall x ensures x in mods <==> x in common && fs[d1.name + x].contents != fs[d2.name + x].contents {
          DifferingMembers(fs, d1.name, d2.name, common, x);
        }
        DifferingSubsequence(fs, d1.name, d2.name, common);
        SubsequenceTransitive(mods, common, d1.files);
        Success(List(mods))
  }

  /** The content-differing entries keep the order of the list they filter. */
  lemma {:induction false} DifferingSubsequence(fs: FileSystem, path1: string, path2: string, files: seq<string>)
    requires AllComparable(fs, path1, path2, files)
    ensures IsSubsequence(Differing(fs, path1, path2, files), files)
    decreases |files|
  {
    if files != [] {
      var init := files[..|files| - 1];
      var f := files[|files| - 1];
      assert files == init + [f];
      assert AllComparable(fs, path1, path2, init) by {
        forall g | g in init ensures g in files { }
      }
      var d := Differing(fs, path1, path2, init);
      DifferingSubsequence(fs, path1, path2, init);
      SubsequenceSnoc(d, init, f);
      assert Differing(fs, path1, path2, files) == d || Differing(fs, path1, path2, files) == d + [f];
    }
  }

  /** A subsequence stays one when the list grows at the end, and may take
      the new element along. */
  lemma {:induction false} SubsequenceSnoc(r: seq<string>, xs: seq<string>, x: string)
    requires IsSubsequence(r, xs)
    ensures IsSubsequence(r, xs + [x]) && IsSubsequence(r + [x], xs + [x])
    decreases |xs|
  {
    if xs == [] {
      assert r == [];
      assert r + [x] == [x] && xs + [x] == [x];
      assert [x][1..] == [];
    } else {
      assert (xs + [x])[1..] == xs[1..] + [x];
      if r != [] && r[0] == xs[0] {
        SubsequenceSnoc(r[1..], xs[1..], x);
        assert (r + [x])[1..] == r[1..] + [x];
      } else {
        if r == [] {
          assert r + [x] == [x];
        }
        SubsequenceSnoc(r, xs[1..], x);
      }
    }
  }

  lemma {:induction false} SubsequenceTransitive(r: seq<string>, s: seq<string>, xs: seq<string>)
    requires IsSubsequence(r, s) && IsSubsequence(s, xs)
    ensures IsSubsequence(r, xs)
    decreases |xs|
  {
    if r != [] {
      assert s != [] && xs != [];
      if s[0] == xs[0] {
        if r[0] == s[0] {
          SubsequenceTransitive(r[1..], s[1..], xs[1..]);
        } else {
          SubsequenceTransitive(r, s[1..], xs[1..]);
          SubsequenceSkip(r, xs);
        }
      } else {
        SubsequenceTransitive(r, s, xs[1..]);
        SubsequenceSkip(r, xs);
      }
    }
  }

  /** Partition law: every entry of either directory is exactly one of added,
      deleted or common to both. */
  lemma DirectoryPartition(d1: Directory, d2: Directory, x: string)
    requires x in d1.files || x in d2.files
    ensures x in AddedFiles(d1, d2).Elems() ==> x !in DeletedFiles(d1, d2).Elems() && x !in Common(d1.files, d2.files)
    ensures x in DeletedFiles(d1, d2).Elems() ==> x !in Common(d1.files, d2.files)
    ensures x in AddedFiles(d1, d2).Elems() || x in DeletedFiles(d1, d2).Elems() || x in Common(d1.files, d2.files)
  {
  }

  /** Swapping the directories swaps additions and deletions. */
  lemma AddedDeletedSwap(d1: Directory, d2: Directory)
    ensures AddedFiles(d1, d2) == DeletedFiles(d2, d1)
  {
  }

  /** A directory compared with itself: nothing added or deleted, and nothing
      modified when its files can be read. */
  lemma {:induction false} SelfDiffEmpty(fs: FileSystem, d: Directory)
    requires AllComparable(fs, d.name, d.name, Common(d.files, d.files))
    ensures AddedFiles(d, d).Elems() == [] && DeletedFiles(d, d).Elems() == []
    ensures ModifiedFiles(fs, d, d).Success? && ModifiedFiles(fs, d, d).value.Elems() == []
  {
    WithoutCovered(d.files, d.files);
    var common := Common(d.files, d.files);
    ModifiedIsDiffering(fs, d.name, d.name, common);
    DifferingNone(fs, d.name, common);
  }

  lemma {:induction false} WithoutCovered(xs: seq<string>, ys: seq<string>)
    requires forall x :: x in xs ==> x in ys
    ensures Without(xs, ys) == []
  {
    if xs != [] {
      WithoutCovered(xs[1..], ys);
    }
  }

  /** A directory's files compared against themselves never differ. */
  lemma {:induction false} DifferingNone(fs: FileSystem, path: string, files: seq<string>)
    requires AllComparable(fs, path, path, files)
    ensures Differing(fs, path, path, files) == []
    decreases |files|
  {
    if files != [] {
      var init := files[..|files| - 1];
      assert AllComparable(fs, path, path, init) by {
        forall g | g in init ensures g in files { }
      }
      DifferingNone(fs, path, init);
    }
  }

  // The fixture directories of the test tables.
  const Dir1 := Directory("Dir1", [], [])
  const Dir2 := Directory("Dir2", ["file1"], [])
  const Dir3 := Directory("Dir2", ["file1", "file2"], [])

  /** The addition and deletion tables of the tests. */
  lemma AddedDeletedTables()
    ensures AddedFiles(Dir1, Dir1) == Nil
    ensures AddedFiles(Dir2, Dir1) == List([])
    ensures AddedFiles(Dir2, Dir3) == List(["file2"])
    ensures AddedFiles(Dir1, Dir3) == List(["file1", "file2"])
    ensures DeletedFiles(Dir1, Dir1) == Nil
    ensures DeletedFiles(Dir1, Dir2) == List([])
    ensures DeletedFiles(Dir3, Dir2) == List(["file2"])
    ensures DeletedFiles(Dir3, Dir1) == List(["file1", "file2"])
  {
    assert "file1" != "file2";
  }

  /** The third row of the modification table: {file1,file2,file3} against
      {file1,file2,file4} with only file2 differing reports only file2;
      file3 and file4 are never compared. */
  lemma ModifiedOnlyCommon(fs: FileSystem)
    requires Comparable(fs, "test_files/dir1/file1", "test_files/dir2/file1")
    requires Comparable(fs, "test_files/dir1/file2", "test_files/dir2/file2")
    requires fs["test_files/dir1/file1"].contents == fs["test_files/dir2/file1"].contents
    requires fs["test_files/dir1/file2"].contents != fs["test_files/dir2/file2"].contents
    ensures ModifiedFiles(fs, Directory("test_files/dir1/", ["file1", "file2", "file3"], []),
      Directory("test_files/dir2/", ["file1", "file2", "file4"], [])) == Success(List(["file2"]))
  {
    var e1 := ["file1", "file2", "file3"];
    var e2 := ["file1", "file2", "file4"];
    assert "test_files/dir1/" + "file1" == "test_files/dir1/file1";
    assert "test_files/dir2/" + "file1" == "test_files/dir2/file1";
    assert "test_files/dir1/" + "file2" == "test_files/dir1/file2";
    assert "test_files/dir2/" + "file2" == "test_files/dir2/file2";
    assert "file3" !in e2 && "file1" in e2 && "file2" in e2;
    var c := ["file1", "file2"];
    assert Common(e1, e2) == c;
    assert c[..1] == ["file1"] && ["file1"][..0] == [];
    assert Modified(fs, "test_files/dir1/", "test_files/dir2/", ["file1"]) == Success([]);
    assert c[..|c| - 1] == ["file1"] && c[|c| - 1] == "file2";
    assert CheckSameFile(fs, "test_files/dir1/" + "file2", "test_files/dir2/" + "file2") == Success(false);
    var p1, p2 := "test_files/dir1/", "test_files/dir2/";
    assert Modified(fs, p1, p2, c) ==
      match Modified(fs, p1, p2, ["file1"])
      case Failure(e) => Failure(e)
      case Success(mods) =>
        match CheckSameFile(fs, p1 + "file2", p2 + "file2")
        case Failure(e) => Failure(e)
        case Success(same) => Success(if same then mods else mods + ["file2"]);
    assert [] + ["file2"] == ["file2"];
  }
}
