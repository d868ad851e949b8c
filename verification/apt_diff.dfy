/** The dpkg status reader of `iDiff/differs/aptDiff.go` (`getPackages`).

    The image root lists one directory per layer; each layer may hold a
    `var/lib/dpkg/status` file of `Key: Value` lines. Every status file is
    scanned line by line, a "Package" line naming the current package and a
    "Version" line recording its version, and all layers are folded into one
    map from package name to version. The directory listing and the status
    files are inputs: a listing that could not be read is an error result, a
    status file is absent (a failed `os.Stat`), unopenable, or its lines. */
module AptPackages {
  import opened Wrappers

  /** The separator each status line is split on. */
  const Sep := ": "

  /** Where each layer keeps its package database. */
  const StatusSuffix := "/var/lib/dpkg/status"

  // ---------------------------------------------------------------------------
  // Splitting a line on ": " (strings.Split)
  // ---------------------------------------------------------------------------

  /** The separator starts at index i of s. */
  predicate SepAt(s: string, i: int) {
    0 <= i && i + 1 < |s| && s[i] == ':' && s[i + 1] == ' '
  }

  predicate HasSep(s: string) {
    exists i :: 0 <= i < |s| && SepAt(s, i)
  }

  /** The first occurrence of the separator at or after `from`, if any. */
  function FindSep(s: string, from: nat): (r: Option<nat>)
    ensures r.Some? ==> from <= r.value && SepAt(s, r.value)
    ensures r.Some? ==> forall j :: from <= j < r.value ==> !SepAt(s, j)
    ensures r.None? ==> forall j :: from <= j ==> !SepAt(s, j)
    decreases |s| - from
  {
    if from + 1 >= |s| then None
    else if SepAt(s, from) then Some(from)
    else FindSep(s, from + 1)
  }

  /** Go's `strings.Split(s, ": ")`: the text between successive separators,
      scanning left to right. */
  function Split(s: string): (r: seq<string>)
    ensures |r| >= 1
    decreases |s|
  {
    match FindSep(s, 0)
    case None => [s]
    case Some(i) => [s[..i]] + Split(s[i + 2..])
  }

  /** The key and value of a line that splits into exactly two parts. */
  function KeyValue(line: string): Option<(string, string)> {
    var parts := Split(line);
    if |parts| == 2 then Some((parts[0], parts[1])) else None
  }

  /** The only occurrence of the separator is at m. */
  lemma FindSepAt(s: string, m: nat)
    requires SepAt(s, m) && forall j :: 0 <= j < m ==> !SepAt(s, j)
    ensures FindSep(s, 0) == Some(m)
  {
  }

  /** A line is used exactly when it is `key: value` with no further
      separator in either part: a line with no separator, or with two or
      more, is ignored. */
  lemma KeyValueIff(line: string, key: string, value: string)
    ensures KeyValue(line) == Some((key, value)) <==> (line == key + Sep + value && !HasSep(key) && !HasSep(value))
  {
    if KeyValue(line) == Some((key, value)) {
      var i := FindSep(line, 0).value;
      var rest := line[i + 2..];
      assert Split(line) == [line[..i]] + Split(rest);
      assert FindSep(rest, 0).None?;
      assert key == line[..i] && value == rest;
      forall j | SepAt(key, j) ensures false {
        assert SepAt(line, j);
      }
      assert line == line[..i] + Sep + rest;
    }
    if line == key + Sep + value && !HasSep(key) && !HasSep(value) {
      var m := |key|;
      forall j | 0 <= j < m ensures !SepAt(line, j) {
        if j + 1 < m {
          assert !SepAt(key, j);
        } else {
          assert line[j + 1] == ':';
        }
      }
      assert SepAt(line, m);
      FindSepAt(line, m);
      assert line[..m] == key && line[m + 2..] == value;
      assert FindSep(value, 0).None?;
      assert Split(value) == [value];
      assert Split(line) == [key] + Split(value);
    }
  }

  // ---------------------------------------------------------------------------
  // Scanning one status file
  // ---------------------------------------------------------------------------

  /** The value a line gives to `key`, if the line is `key: value`. */
  function Field(line: string, key: string): Option<string> {
    match KeyValue(line)
    case Some((k, v)) => if k == key then Some(v) else None
    case None => None
  }

  /** What the scanner carries from line to line: the current package name
      and the package map. */
  datatype Scan = Scan(current: string, packages: map<string, string>)

  /** One status line: "Package" makes its value the current package,
      "Version" records its value for the current package, anything else
      leaves both alone. */
  function Step(st: Scan, line: string): Scan {
    match KeyValue(line)
    case None => st
    case Some((key, value)) =>
      var current := if key == "Package" then value else st.current;
      Scan(current, if key == "Version" then st.packages[current := value] else st.packages)
  }

  /** The first n lines of a status file, scanned from no current package
      into the map built so far. */
  function ScanUpTo(packages: map<string, string>, lines: seq<string>, n: nat): Scan
    requires n <= |lines|
  {
    if n == 0 then Scan("", packages) else Step(ScanUpTo(packages, lines, n - 1), lines[n - 1])
  }

  function ScanLines(packages: map<string, string>, lines: seq<string>): Scan {
    ScanUpTo(packages, lines, |lines|)
  }

  /** The package named by the last "Package" line before line i, or "" when
      there is none. */
  function CurrentAt(lines: seq<string>, i: nat): string
    requires i <= |lines|
  {
    if i == 0 then ""
    else match Field(lines[i - 1], "Package")
      case Some(v) => v
      case None => CurrentAt(lines, i - 1)
  }

  /** Line i is a "Version" line while k is the current package. */
  predicate Writes(lines: seq<string>, i: int, k: string) {
    0 <= i < |lines| && Field(lines[i], "Version").Some? && CurrentAt(lines, i) == k
  }

  /** Line j is the last line before n that records a version for k. */
  predicate LastWrite(lines: seq<string>, n: int, j: int, k: string) {
    j < n <= |lines| && Writes(lines, j, k) && forall i :: j < i < n ==> !Writes(lines, i, k)
  }

  /** The scan, described line by line: after n lines the current package is
      the one the last "Package" line named, a name is in the map when it was
      there before or some "Version" line was read while it was current, the
      last such line decides its version, and every other name keeps its
      value. */
  lemma {:induction false} ScanSpec(packages: map<string, string>, lines: seq<string>, n: nat)
    requires n <= |lines|
    ensures ScanUpTo(packages, lines, n).current == CurrentAt(lines, n)
    ensures forall k :: k in ScanUpTo(packages, lines, n).packages <==> k in packages || exists i :: i < n && Writes(lines, i, k)
    ensures forall k, j :: LastWrite(lines, n, j, k) ==> k in ScanUpTo(packages, lines, n).packages && ScanUpTo(packages, lines, n).packages[k] == Field(lines[j], "Version").value
    ensures forall k :: k in packages && (forall i :: 0 <= i < n ==> !Writes(lines, i, k)) ==> ScanUpTo(packages, lines, n).packages[k] == packages[k]
  {
    if n > 0 {
      ScanSpec(packages, lines, n - 1);
      var st := ScanUpTo(packages, lines, n - 1);
      StepCurrent(st, lines, n - 1, n);
      StepMembers(packages, st, lines, n - 1, n);
      StepLastWins(st, lines, n - 1, n);
      StepUntouched(packages, st, lines, n - 1, n);
    }
  }

  /** Reading line n moves the scanner to `CurrentAt(lines, n + 1)`. */
  lemma StepCurrent(st: Scan, lines: seq<string>, n: nat, n1: nat)
    requires n1 == n + 1 <= |lines|
    requires st.current == CurrentAt(lines, n)
    ensures Step(st, lines[n]).current == CurrentAt(lines, n1)
  {
  }

  lemma StepMembers(packages: map<string, string>, st: Scan, lines: seq<string>, n: nat, n1: nat)
    requires n1 == n + 1 <= |lines|
    requires st.current == CurrentAt(lines, n)
    requires forall k :: k in st.packages <==> k in packages || exists i :: i < n && Writes(lines, i, k)
    ensures forall k :: k in Step(st, lines[n]).packages <==> k in packages || exists i :: i < n1 && Writes(lines, i, k)
  {
    var next := Step(st, lines[n]);
    forall k ensures k in next.packages <==> k in packages || exists i :: i < n1 && Writes(lines, i, k) {
      if Writes(lines, n, k) {
        assert k in next.packages;
      }
      if exists i :: i < n1 && Writes(lines, i, k) {
        var i :| i < n1 && Writes(lines, i, k);
        if i < n {
          assert k in st.packages;
        }
      }
    }
  }

  lemma StepLastWins(st: Scan, lines: seq<string>, n: nat, n1: nat)
    requires n1 == n + 1 <= |lines|
    requires st.current == CurrentAt(lines, n)
    requires forall k, j :: LastWrite(lines, n, j, k) ==> k in st.packages && st.packages[k] == Field(lines[j], "Version").value
    ensures forall k, j :: LastWrite(lines, n1, j, k) ==> k in Step(st, lines[n]).packages && Step(st, lines[n]).packages[k] == Field(lines[j], "Version").value
  {
    var next := Step(st, lines[n]);
    forall k, j | LastWrite(lines, n1, j, k)
      ensures k in next.packages && next.packages[k] == Field(lines[j], "Version").value
    {
      if !Writes(lines, n, k) {
        assert LastWrite(lines, n, j, k);
        assert next.packages == st.packages || next.packages == st.packages[st.current := Field(lines[n], "Version").value];
      }
    }
  }

  lemma StepUntouched(packages: map<string, string>, st: Scan, lines: seq<string>, n: nat, n1: nat)
    requires n1 == n + 1 <= |lines|
    requires st.current == CurrentAt(lines, n)
    requires forall k :: k in packages ==> k in st.packages
    requires forall k :: k in packages && (forall i :: 0 <= i < n ==> !Writes(lines, i, k)) ==> st.packages[k] == packages[k]
    ensures forall k :: k in packages && (forall i :: 0 <= i < n1 ==> !Writes(lines, i, k)) ==> Step(st, lines[n]).packages[k] == packages[k]
  {
    var next := Step(st, lines[n]);
    forall k | k in packages && (forall i :: 0 <= i < n1 ==> !Writes(lines, i, k))
      ensures next.packages[k] == packages[k]
    {
      assert !Writes(lines, n, k);
      assert next.packages == st.packages || next.packages == st.packages[st.current := Field(lines[n], "Version").value];
    }
  }

  // ---------------------------------------------------------------------------
  // Folding the layers
  // ---------------------------------------------------------------------------

  /** A layer's status file as `os.Stat` and `os.Open` find it. */
  datatype StatusFile = Absent | Unopenable(err: string) | Lines(lines: seq<string>)

  /** The status file of a layer directory under the image root. */
  function StatusPath(root: string, layer: string): string {
    root + "/" + layer + StatusSuffix
  }

  /** One status path per layer directory, in listing order (`ioutil.ReadDir`
      sorts by file name). */
  function StatusPaths(root: string, layers: seq<string>): seq<string> {
    seq(|layers|, i requires 0 <= i < |layers| => StatusPath(root, layers[i]))
  }

  /** A path with no file behind it fails `os.Stat`. */
  function StatusOf(files: map<string, StatusFile>, path: string): StatusFile {
    if path in files then files[path] else Absent
  }

  /** The status files in order, from the map built so far: absent files are
      skipped, the first unopenable one stops the fold with its error. */
  function FoldLayers(acc: map<string, string>, stems: seq<string>, files: map<string, StatusFile>): (map<string, string>, Option<string>)
    decreases |stems|
  {
    if stems == [] then (acc, None)
    else match StatusOf(files, stems[0])
      case Absent => FoldLayers(acc, stems[1..], files)
      case Unopenable(e) => (acc, Some(e))
      case Lines(lines) => FoldLayers(ScanLines(acc, lines).packages, stems[1..], files)
  }

  /** What `getPackages` returns for an image root: an unreadable root gives
      the empty map and its error. */
  function Packages(root: string, listing: Result<seq<string>, string>, files: map<string, StatusFile>): (map<string, string>, Option<string>)
  {
    match listing
    case Failure(e) => (map[], Some(e))
    case Success(layers) => FoldLayers(map[], StatusPaths(root, layers), files)
  }

  /** Distinct layer directories have distinct status files. */
  lemma StatusPathInjective(root: string, a: string, b: string)
    requires StatusPath(root, a) == StatusPath(root, b)
    ensures a == b
  {
    var p := StatusPath(root, a);
    assert |a| == |b|;
    assert a == p[|root| + 1..|root| + 1 + |a|];
    assert b == p[|root| + 1..|root| + 1 + |b|];
  }

  /** `getPackages`: one status path per layer, then every status file
      scanned in turn into one map. */
  method GetPackages(root: string, listing: Result<seq<string>, string>, files: map<string, StatusFile>)
    returns (packages: map<string, string>, err: Option<string>)
    ensures (packages, err) == Packages(root, listing, files)
    ensures listing.Failure? ==> packages == map[] && err == Some(listing.error)
  {
    packages := map[];
    if listing.Failure? {
      return packages, Some(listing.error);
    }
    var layers := listing.value;
    var layerStems: seq<string> := [];
    for i := 0 to |layers|
      invariant |layerStems| == i
      invariant forall j :: 0 <= j < i ==> layerStems[j] == StatusPath(root, layers[j])
    {
      layerStems := layerStems + [StatusPath(root, layers[i])];
    }
    assert layerStems == StatusPaths(root, layers);
    for s := 0 to |layerStems|
      invariant FoldLayers(packages, layerStems[s..], files) == Packages(root, listing, files)
    {
      assert layerStems[s..][1..] == layerStems[s + 1..];
      match StatusOf(files, layerStems[s]) {
        case Absent =>
        case Unopenable(e) =>
          return packages, Some(e);
        case Lines(lines) =>
          packages := ScanStatusFile(packages, lines);
      }
    }
    err := None;
  }

  /** The scanner loop over one status file: each `Key: Value` line updates
      the current package or records its version in the map. */
  method ScanStatusFile(start: map<string, string>, lines: seq<string>) returns (packages: map<string, string>)
    ensures packages == ScanLines(start, lines).packages
  {
    packages := start;
    var currPackage := "";
    for j := 0 to |lines|
      invariant Scan(currPackage, packages) == ScanUpTo(start, lines, j)
    {
      var line := Split(lines[j]);
      if |line| == 2 {
        var key := line[0];
        var value := line[1];
        if key == "Package" {
          currPackage := value;
        }
        if key == "Version" {
          packages := packages[currPackage := value];
        }
      }
    }
  }

  // ---------------------------------------------------------------------------
  // Properties of the fold
  // ---------------------------------------------------------------------------

  /** The status paths whose files exist. */
  function Present(stems: seq<string>, files: map<string, StatusFile>): (r: seq<string>)
    ensures forall p :: p in r ==> p in stems && !StatusOf(files, p).Absent?
  {
    if stems == [] then []
    else if StatusOf(files, stems[0]).Absent? then Present(stems[1..], files)
    else [stems[0]] + Present(stems[1..], files)
  }

  /** Layers without a status file make no difference. */
  lemma {:induction false} SkipAbsent(acc: map<string, string>, stems: seq<string>, files: map<string, StatusFile>)
    ensures FoldLayers(acc, stems, files) == FoldLayers(acc, Present(stems, files), files)
    decreases |stems|
  {
    if stems != [] {
      match StatusOf(files, stems[0]) {
        case Absent =>
          SkipAbsent(acc, stems[1..], files);
        case Unopenable(e) =>
          assert Present(stems, files)[0] == stems[0];
        case Lines(lines) =>
          var p := Present(stems, files);
          assert p[0] == stems[0] && p[1..] == Present(stems[1..], files);
          SkipAbsent(ScanLines(acc, lines).packages, stems[1..], files);
      }
    }
  }

  predicate Opens(files: map<string, StatusFile>, stems: seq<string>) {
    forall i :: 0 <= i < |stems| ==> !StatusOf(files, stems[i]).Unopenable?
  }

  /** The first status file that cannot be opened ends the fold: the result
      is the map built from the layers before it, with its error. */
  lemma {:induction false} OpenFailure(acc: map<string, string>, stems: seq<string>, files: map<string, StatusFile>, j: nat)
    requires j < |stems| && StatusOf(files, stems[j]).Unopenable? && Opens(files, stems[..j])
    ensures FoldLayers(acc, stems, files) == (FoldLayers(acc, stems[..j], files).0, Some(StatusOf(files, stems[j]).err))
    decreases |stems|
  {
    if j > 0 {
      assert stems[..j][1..] == stems[1..][..j - 1];
      assert stems[..j][0] == stems[0];
      match StatusOf(files, stems[0]) {
        case Absent =>
          OpenFailure(acc, stems[1..], files, j - 1);
        case Lines(lines) =>
          OpenFailure(ScanLines(acc, lines).packages, stems[1..], files, j - 1);
      }
    }
  }

  /** A status file read after the others is scanned into the map they built. */
  lemma {:induction false} FoldSnoc(acc: map<string, string>, stems: seq<string>, files: map<string, StatusFile>, p: string, lines: seq<string>)
    requires Opens(files, stems) && StatusOf(files, p) == Lines(lines)
    ensures FoldLayers(acc, stems + [p], files) == (ScanLines(FoldLayers(acc, stems, files).0, lines).packages, None)
    decreases |stems|
  {
    if stems == [] {
      assert [p][1..] == [];
    } else {
      assert (stems + [p])[1..] == stems[1..] + [p];
      assert (stems + [p])[0] == stems[0];
      match StatusOf(files, stems[0]) {
        case Absent =>
          FoldSnoc(acc, stems[1..], files, p, lines);
        case Lines(ls) =>
          FoldSnoc(ScanLines(acc, ls).packages, stems[1..], files, p, lines);
      }
    }
  }

  /** A later layer overwrites: a version the last layer records for a
      package is the one in the result, whatever earlier layers said. */
  lemma LaterLayerWins(acc: map<string, string>, stems: seq<string>, files: map<string, StatusFile>, p: string, lines: seq<string>, j: nat, k: string)
    requires Opens(files, stems) && StatusOf(files, p) == Lines(lines)
    requires LastWrite(lines, |lines|, j, k)
    ensures k in FoldLayers(acc, stems + [p], files).0
    ensures FoldLayers(acc, stems + [p], files).0[k] == Field(lines[j], "Version").value
  {
    FoldSnoc(acc, stems, files, p, lines);
    ScanSpec(FoldLayers(acc, stems, files).0, lines, |lines|);
  }

  /** A "Version" line ahead of any "Package" line is stored under "". */
  lemma VersionBeforePackage(packages: map<string, string>, v: string)
    requires !HasSep(v)
    ensures ScanLines(packages, ["Version" + Sep + v]).packages == packages["" := v]
  {
    assert !HasSep("Version") by {
      forall i | SepAt("Version", i) ensures false {
      }
    }
    var line := "Version" + Sep + v;
    KeyValueIff(line, "Version", v);
    assert KeyValue(line) == Some(("Version", v));
    assert ScanLines(packages, [line]) == ScanUpTo(packages, [line], 1);
    assert ScanUpTo(packages, [line], 1) == Step(ScanUpTo(packages, [line], 0), [line][0]);
  }
}
