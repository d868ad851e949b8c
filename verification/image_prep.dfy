/** The path and history helpers of `iDiff/utils/image_prep_utils.go`.

    `getHistory` scans the files of an unpacked image for the JSON file that
    carries its build history; `getImageFromTar` names the directory a tar is
    unpacked into; the registry pull names its temporary directory after the
    image reference; `GetImage` puts an image together. Directory listings,
    file reads and JSON decoding are inputs: a listed file is either
    unreadable or the history array it decodes to, which is empty when the
    file does not decode. */
module ImagePrep {
  import opened Wrappers
  import opened Strings

  // ---------------------------------------------------------------------------
  // File extensions (filepath.Ext)
  // ---------------------------------------------------------------------------

  /** The extension of `path[..n]`: from its last '.' after the last '/', or
      "" when that path element has no '.'. */
  function ExtUpTo(path: string, n: nat): string
    requires n <= |path|
  {
    if n == 0 || path[n - 1] == '/' then ""
    else if path[n - 1] == '.' then path[n - 1..]
    else ExtUpTo(path, n - 1)
  }

  /** Go's `filepath.Ext`. */
  function Ext(path: string): string {
    ExtUpTo(path, |path|)
  }

  /** A dot-extension `"." + tail` whose tail has neither a '.' nor a '/'. */
  predicate PlainExt(tail: string) {
    forall i :: 0 <= i < |tail| ==> tail[i] != '.' && tail[i] != '/'
  }

  /** The extension is the last path element's final dot and all that
      follows it, or "" when that element has no dot. Scanning starts at
      `n` with no dot or '/' beyond it. */
  lemma {:induction false} ExtShape(path: string, n: nat)
    requires n <= |path| && PlainExt(path[n..])
    ensures ExtUpTo(path, n) == "" ==> forall i :: 0 <= i < |path| && path[i] == '.' ==> exists j :: i < j < |path| && path[j] == '/'
    ensures ExtUpTo(path, n) != "" ==> exists i :: 0 <= i < n && path[i] == '.' && ExtUpTo(path, n) == path[i..] && PlainExt(path[i + 1..])
  {
    if n == 0 {
      forall i | 0 <= i < |path| ensures path[i] != '.' {
        assert path[i] == path[n..][i];
      }
    } else if path[n - 1] == '/' {
      forall i | 0 <= i < |path| && path[i] == '.' ensures exists j :: i < j < |path| && path[j] == '/' {
        assert i < n - 1;
      }
    } else if path[n - 1] != '.' {
      var t := path[n - 1..];
      assert PlainExt(t) by {
        forall i | 0 <= i < |t| ensures t[i] != '.' && t[i] != '/' {
          if i > 0 {
            assert t[i] == path[n..][i - 1];
          }
        }
      }
      ExtShape(path, n - 1);
    }
  }

  /** A path has the extension `"." + tail` exactly when it ends with it. */
  lemma {:induction false} ExtIff(path: string, tail: string)
    requires PlainExt(tail)
    ensures Ext(path) == "." + tail <==> HasSuffix(path, "." + tail)
  {
    var ext := "." + tail;
    if HasSuffix(path, ext) {
      var d := |path| - |ext|;
      assert path[d] == '.';
      forall n | d < n <= |path| ensures ExtUpTo(path, n) == path[d..] {
        ExtTail(path, tail, n);
      }
      assert Ext(path) == path[d..];
    }
    if Ext(path) == ext {
      ExtShape(path, |path|);
      var i :| 0 <= i < |path| && path[i] == '.' && ext == path[i..];
      assert path[|path| - |ext|..] == path[i..];
    }
  }

  /** Scanning down from `n`, the last dot of `path` is found at `d`. */
  lemma {:induction false} ExtTail(path: string, tail: string, n: nat)
    requires PlainExt(tail) && HasSuffix(path, "." + tail)
    requires |path| - |tail| - 1 < n <= |path|
    ensures ExtUpTo(path, n) == path[|path| - |tail| - 1..]
  {
    var d := |path| - |tail| - 1;
    assert path[d..] == "." + tail;
    if n - 1 > d {
      assert path[n - 1] == tail[n - 2 - d];
      ExtTail(path, tail, n - 1);
    } else {
      assert path[n - 1] == '.';
    }
  }

  // ---------------------------------------------------------------------------
  // Picking the history file (getHistory)
  // ---------------------------------------------------------------------------

  /** One layer record of the history array of an image's config JSON. */
  datatype HistLayer = HistLayer(created: string, createdBy: string, emptyLayer: bool)

  /** What reading and decoding a listed file gives: its read error, or the
      history array it decodes to (empty when it does not decode). */
  datatype FileRead = ReadFailed(err: string) | Decoded(history: seq<HistLayer>)

  datatype DirEntry = DirEntry(name: string, file: FileRead)

  /** Only `.json` files other than the manifest are read. */
  predicate Qualifies(name: string) {
    Ext(name) == ".json" && name != "manifest.json"
  }

  /** The command of each history record, in order. */
  function CreatedBy(layers: seq<HistLayer>): (r: seq<string>)
    ensures |r| == |layers|
    ensures forall i :: 0 <= i < |layers| ==> r[i] == layers[i].createdBy
  {
    seq(|layers|, i requires 0 <= i < |layers| => layers[i].createdBy)
  }

  /** The rest of the directory scanned with `acc` collected so far: a
      qualifying file is read first, then the scan stops if a history was
      already found, and otherwise its records are appended. */
  function HistoryFrom(acc: seq<string>, entries: seq<DirEntry>): (seq<string>, Option<string>)
    decreases |entries|
  {
    if entries == [] then (acc, None)
    else if !Qualifies(entries[0].name) then HistoryFrom(acc, entries[1..])
    else match entries[0].file
      case ReadFailed(e) => (acc, Some(e))
      case Decoded(layers) =>
        if |acc| != 0 then (acc, None) else HistoryFrom(acc + CreatedBy(layers), entries[1..])
  }

  /** What `getHistory` returns for a directory listing. */
  function History(listing: Result<seq<DirEntry>, string>): (seq<string>, Option<string>) {
    match listing
    case Failure(e) => ([], Some(e))
    case Success(entries) => HistoryFrom([], entries)
  }

  /** `getHistory` over the listed files, in listing order (`ioutil.ReadDir`
      sorts by file name). */
  method GetHistory(listing: Result<seq<DirEntry>, string>) returns (histList: seq<string>, err: Option<string>)
    ensures (histList, err) == History(listing)
    ensures listing.Failure? ==> histList == [] && err == Some(listing.error)
  {
    histList := [];
    if listing.Failure? {
      return histList, Some(listing.error);
    }
    var contents := listing.value;
    for i := 0 to |contents|
      invariant HistoryFrom(histList, contents[i..]) == History(listing)
    {
      var item := contents[i];
      HistoryFromAt(histList, contents, i);
      if Ext(item.name) == ".json" && item.name != "manifest.json" {
        match item.file {
          case ReadFailed(e) =>
            return histList, Some(e);
          case Decoded(layers) =>
            if |histList| != 0 {
              break;
            }
            assert histList == [];
            for k := 0 to |layers|
              invariant histList == CreatedBy(layers[..k])
            {
              assert CreatedBy(layers[..k + 1]) == CreatedBy(layers[..k]) + [layers[k].createdBy];
              histList := histList + [layers[k].createdBy];
            }
            assert layers[..|layers|] == layers;
        }
      }
    }
    err := None;
  }

  /** The scan from entry i on, one entry at a time. */
  lemma HistoryFromAt(acc: seq<string>, entries: seq<DirEntry>, i: nat)
    requires i < |entries|
    ensures !Qualifies(entries[i].name) ==> HistoryFrom(acc, entries[i..]) == HistoryFrom(acc, entries[i + 1..])
    ensures Qualifies(entries[i].name) && entries[i].file.ReadFailed? ==> HistoryFrom(acc, entries[i..]) == (acc, Some(entries[i].file.err))
    ensures Qualifies(entries[i].name) && entries[i].file.Decoded? && acc != [] ==> HistoryFrom(acc, entries[i..]) == (acc, None)
    ensures Qualifies(entries[i].name) && entries[i].file.Decoded? && acc == [] ==> HistoryFrom(acc, entries[i..]) == HistoryFrom(CreatedBy(entries[i].file.history), entries[i + 1..])
  {
    assert entries[i..][0] == entries[i] && entries[i..][1..] == entries[i + 1..];
    if entries[i].file.Decoded? {
      assert [] + CreatedBy(entries[i].file.history) == CreatedBy(entries[i].file.history);
    }
  }

  /** A qualifying file that contributes nothing: it reads, and its history
      is empty or did not decode. */
  predicate Quiet(e: DirEntry) {
    Qualifies(e.name) ==> e.file.Decoded? && e.file.history == []
  }

  /** Entry j supplies the history: it is the first qualifying file that is
      unreadable or has records, and it has records. */
  predicate Source(entries: seq<DirEntry>, j: int) {
    0 <= j < |entries| && Qualifies(entries[j].name) && entries[j].file.Decoded? && entries[j].file.history != []
    && forall i :: 0 <= i < j ==> Quiet(entries[i])
  }

  /** Once a history is found, it is the result: a later file can only end
      the scan or fail to read. */
  lemma {:induction false} HistoryKept(acc: seq<string>, entries: seq<DirEntry>)
    requires acc != []
    ensures HistoryFrom(acc, entries).0 == acc
    ensures HistoryFrom(acc, entries).1.Some? ==> exists j :: 0 <= j < |entries| && Qualifies(entries[j].name) && entries[j].file == ReadFailed(HistoryFrom(acc, entries).1.value)
    decreases |entries|
  {
    if entries != [] && !Qualifies(entries[0].name) {
      HistoryKept(acc, entries[1..]);
      var r := HistoryFrom(acc, entries[1..]);
      if r.1.Some? {
        var j :| 0 <= j < |entries[1..]| && Qualifies(entries[1..][j].name) && entries[1..][j].file == ReadFailed(r.1.value);
        assert entries[j + 1] == entries[1..][j];
      }
    }
  }

  /** At most one file supplies the history: the result is empty, or it is
      the records of the one file `Source` picks; an error names a
      qualifying file that could not be read. */
  lemma {:induction false} HistoryFromOneFile(entries: seq<DirEntry>)
    ensures HistoryFrom([], entries).0 != [] <==> exists j :: Source(entries, j)
    ensures forall j :: Source(entries, j) ==> HistoryFrom([], entries).0 == CreatedBy(entries[j].file.history)
    ensures HistoryFrom([], entries).1.Some? ==> exists j :: 0 <= j < |entries| && Qualifies(entries[j].name) && entries[j].file == ReadFailed(HistoryFrom([], entries).1.value)
    decreases |entries|
  {
    if entries != [] {
      var e := entries[0];
      var rest := entries[1..];
      if Quiet(e) {
        HistoryFromOneFile(rest);
        if Qualifies(e.name) {
          assert [] + CreatedBy(e.file.history) == [];
        }
        assert HistoryFrom([], entries) == HistoryFrom([], rest);
        ShiftSource(entries);
        if exists j :: Source(rest, j) {
          var j :| Source(rest, j);
          assert Source(entries, j + 1);
        }
        var r := HistoryFrom([], rest);
        if r.1.Some? {
          var j :| 0 <= j < |rest| && Qualifies(rest[j].name) && rest[j].file == ReadFailed(r.1.value);
          assert entries[j + 1] == rest[j];
        }
      } else if e.file.Decoded? {
        var h := CreatedBy(e.file.history);
        assert h != [];
        assert HistoryFrom([], entries) == HistoryFrom([] + h, rest);
        assert Source(entries, 0);
        HistoryKept(h, rest);
        assert [] + h == h;
        forall j | Source(entries, j) ensures j == 0 {
        }
        var r := HistoryFrom(h, rest);
        if r.1.Some? {
          var j :| 0 <= j < |rest| && Qualifies(rest[j].name) && rest[j].file == ReadFailed(r.1.value);
          assert entries[j + 1] == rest[j];
        }
      } else {
        forall j | Source(entries, j) ensures false {
        }
      }
    }
  }

  /** Past a quiet first entry, the source moves one place down. */
  lemma ShiftSource(entries: seq<DirEntry>)
    requires entries != [] && Quiet(entries[0])
    ensures forall j :: Source(entries, j) <==> j >= 1 && Source(entries[1..], j - 1)
  {
    forall j ensures Source(entries, j) <==> j >= 1 && Source(entries[1..], j - 1) {
      if j >= 1 && Source(entries[1..], j - 1) {
        forall i | 0 <= i < j ensures Quiet(entries[i]) {
          if i > 0 {
            assert entries[i] == entries[1..][i - 1];
          }
        }
      }
      if Source(entries, j) {
        assert j != 0;
        forall i | 0 <= i < j - 1 ensures Quiet(entries[1..][i]) {
          assert entries[1..][i] == entries[i + 1];
        }
      }
    }
  }

  // ---------------------------------------------------------------------------
  // Tar path and image name
  // ---------------------------------------------------------------------------

  /** `getImageFromTar`: once the tar is extracted (or not, with the
      extraction error), the image directory is the tar path without its
      final extension. */
  function ImageFromTar(tarPath: string, extracted: Option<string>): (r: Result<string, string>)
    ensures r.Success? <==> extracted.None?
    ensures extracted.Some? ==> r == Failure(extracted.value)
    ensures r.Success? ==> r.value + Ext(tarPath) == tarPath
  {
    match extracted
    case Some(e) => Failure(e)
    case None =>
      assert PlainExt(tarPath[|tarPath|..]);
      ExtShape(tarPath, |tarPath|);
      Success(TrimSuffix(tarPath, Ext(tarPath)))
  }

  /** An "x.tar" file unpacks into the directory "x". */
  lemma TarDirectory(base: string)
    ensures ImageFromTar(base + ".tar", None) == Success(base)
  {
    assert PlainExt("tar");
    ExtIff(base + ".tar", "tar");
    assert (base + ".tar")[|base|..] == ".tar";
  }

  /** A '/' that the pattern `^.+/(.+(:.+){0,1})$` can match: something
      before it and something after it. */
  predicate SplitSlash(s: string, i: int) {
    1 <= i < |s| - 1 && s[i] == '/'
  }

  /** The last matchable '/' before `n`. */
  function LastSlash(s: string, n: nat): (r: Option<nat>)
    requires n <= |s|
    ensures r.Some? ==> r.value < n && SplitSlash(s, r.value) && forall j :: r.value < j < n ==> !SplitSlash(s, j)
    ensures r.None? ==> forall j :: j < n ==> !SplitSlash(s, j)
  {
    if n == 0 then None
    else if SplitSlash(s, n - 1) then Some(n - 1)
    else LastSlash(s, n - 1)
  }

  /** The first submatch of `^.+/(.+(:.+){0,1})$`: '.' matches no newline,
      the greedy prefix reaches the last matchable '/', and the optional tag
      group never changes what the first group holds. */
  function ReferenceTail(image: string): Option<string> {
    if '\n' in image then None
    else match LastSlash(image, |image|)
      case None => None
      case Some(i) => Some(image[i + 1..])
  }

  /** Go's `strings.Replace(s, ":", "", -1)`. */
  function RemoveColons(s: string): (r: string)
    ensures ':' !in r
    ensures forall c :: c != ':' ==> multiset(r)[c] == multiset(s)[c]
    ensures ':' !in s ==> r == s
  {
    if s == [] then []
    else
      assert s == [s[0]] + s[1..];
      (if s[0] == ':' then [] else [s[0]]) + RemoveColons(s[1..])
  }

  /** Removing colons works piece by piece, so the kept characters stay in
      their order. */
  lemma {:induction false} RemoveColonsConcat(x: string, y: string)
    ensures RemoveColons(x + y) == RemoveColons(x) + RemoveColons(y)
  {
    if x == [] {
      assert x + y == y;
    } else {
      assert (x + y)[1..] == x[1..] + y;
      RemoveColonsConcat(x[1..], y);
      var h: string := if x[0] == ':' then [] else [x[0]];
      assert RemoveColons(x + y) == h + (RemoveColons(x[1..]) + RemoveColons(y));
      assert h + (RemoveColons(x[1..]) + RemoveColons(y)) == (h + RemoveColons(x[1..])) + RemoveColons(y);
    }
  }

  /** The directory name `pullAndSaveImage` derives from an image reference;
      None where the match is nil and indexing it panics. */
  function ImageName(image: string): Option<string> {
    match ReferenceTail(image)
    case None => None
    case Some(tail) => Some(RemoveColons(tail))
  }

  /** A reference "prefix/last" is named after its last segment with the
      colons removed ("gcr.io/repo/image:tag" gives "imagetag"); a reference
      with no '/' has no name. */
  lemma ImageNameOf(prefix: string, last: string)
    requires prefix != [] && last != [] && '/' !in last && '\n' !in prefix && '\n' !in last
    ensures ImageName(prefix + "/" + last) == Some(RemoveColons(last))
    ensures '/' !in prefix + last ==> ImageName(prefix + last).None?
  {
    var s := prefix + "/" + last;
    var i := |prefix|;
    assert SplitSlash(s, i);
    forall j | i < j < |s| ensures !SplitSlash(s, j) {
      assert s[j] == last[j - i - 1];
    }
    assert LastSlash(s, |s|) == Some(i);
    assert s[i + 1..] == last;
    var t := prefix + last;
    if '/' !in t {
      forall j | 0 <= j < |t| ensures !SplitSlash(t, j) {
        assert t[j] in t;
      }
      assert LastSlash(t, |t|).None?;
    }
  }

  // ---------------------------------------------------------------------------
  // Putting an image together (GetImage)
  // ---------------------------------------------------------------------------

  const NoSource := "Could not retrieve image from source"

  /** An image as `GetImage` returns it; its layer list is never filled in. */
  datatype Image = Image(source: string, fsPath: string, history: seq<string>, layers: GoSlice<string>)

  /** `GetImage`, given whether some source check accepted the reference,
      what its preparer's `ImageToFS` returned, and the listing of the image
      directory it produced. */
  function GetImage(source: string, accepted: bool, imageToFS: Result<string, string>, listing: Result<seq<DirEntry>, string>): (r: Result<Image, string>)
    ensures !accepted ==> r == Failure(NoSource)
    ensures accepted && imageToFS.Failure? ==> r == Failure(imageToFS.error)
    ensures r.Success? ==> r.value.layers.Nil? && r.value.source == source && History(listing).1.None?
    ensures r.Success? ==> imageToFS.Success? && r.value.fsPath == imageToFS.value && r.value.history == History(listing).0
    ensures accepted && imageToFS.Success? && History(listing).1.Some? ==> r == Failure(History(listing).1.value)
  {
    if !accepted then Failure(NoSource)
    else match imageToFS
      case Failure(e) => Failure(e)
      case Success(imgPath) =>
        var (history, err) := History(listing);
        if err.Some? then Failure(err.value) else Success(Image(source, imgPath, history, Nil))
  }

  /** A prepared image's history is non-empty exactly when some file of the
      directory supplies it, and it is then that file's records. */
  lemma ImageHistory(source: string, accepted: bool, imageToFS: Result<string, string>, entries: seq<DirEntry>)
    requires GetImage(source, accepted, imageToFS, Success(entries)).Success?
    ensures var img := GetImage(source, accepted, imageToFS, Success(entries)).value;
      img.history != [] <==> exists j :: Source(entries, j)
    ensures var img := GetImage(source, accepted, imageToFS, Success(entries)).value;
      forall j :: Source(entries, j) ==> img.history == CreatedBy(entries[j].file.history)
  {
    HistoryFromOneFile(entries);
  }
}
