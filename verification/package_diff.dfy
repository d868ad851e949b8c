/** The package-map differ `diffMaps` and its shape check
    `checkPackageMapType`, as the tables of
    `iDiff/utils/package_diff_utils_test.go` fix them, together with the
    orderings the tests sort results by. A package map is flat (one
    PackageInfo per name) or layered (per name, one PackageInfo per location
    key); Go's reflection on `interface{}` arguments becomes the `PackageMap`
    variant. Results that Go builds by walking a map are listed in increasing
    name order. */
module PackageDiff {
  import opened Wrappers
  import opened Strings
  import opened LayerCorrelation

  type FlatMap = map<string, PackageInfo>
  type LayeredMap = map<string, map<string, PackageInfo>>

  /** A name whose single occurrences differ between the two images. */
  datatype Info = Info(package: string, info1: PackageInfo, info2: PackageInfo)

  datatype PackageDiff = PackageDiff(packages1: FlatMap, packages2: FlatMap, infoDiff: seq<Info>)

  /** A name present in both layered maps, with the occurrences left unpaired
      on each side. */
  datatype MultiVersionInfo = MultiVersionInfo(package: string, info1: seq<PackageInfo>, info2: seq<PackageInfo>)

  datatype MultiVersionPackageDiff = MultiVersionPackageDiff(packages1: LayeredMap, packages2: LayeredMap, infoDiff: seq<MultiVersionInfo>)

  /** The entries of `m1` whose name `m2` lacks, values untouched. */
  function OnlyIn<V>(m1: map<string, V>, m2: map<string, V>): (r: map<string, V>)
    ensures forall k :: k in r <==> k in m1 && k !in m2
    ensures forall k :: k in r ==> r[k] == m1[k]
  {
    map k | k in m1 && k !in m2 :: m1[k]
  }

  /** The names both maps hold, in increasing order: Go walks one map and
      looks each name up in the other. */
  function SharedNames<V>(m1: map<string, V>, m2: map<string, V>): (r: seq<string>)
    ensures forall k :: k in r <==> k in m1 && k in m2
    ensures StrictlySorted(r)
  {
    SortedKeys(m1.Keys * m2.Keys)
  }

  /** The names of a list of change records, in list order. */
  function Names<T>(ds: seq<T>, name: T -> string): (r: seq<string>)
    ensures |r| == |ds| && forall i :: 0 <= i < |ds| ==> r[i] == name(ds[i])
  {
    seq(|ds|, i requires 0 <= i < |ds| => name(ds[i]))
  }

  lemma NamesCons<T>(d: T, rest: seq<T>, name: T -> string)
    ensures Names([d] + rest, name) == [name(d)] + Names(rest, name)
  {
  }

  function InfoName(d: Info): string { d.package }

  function MultiName(d: MultiVersionInfo): string { d.package }

  // ---------------------------------------------------------------- flat maps

  /** A record for a name both maps hold, carrying its two PackageInfos. */
  predicate IsRecord(d: Info, m1: FlatMap, m2: FlatMap) {
    d.package in m1 && d.package in m2 && d == Info(d.package, m1[d.package], m2[d.package])
  }

  /** The change records for the shared names `keys`, in their order: one per
      name whose Version or Size differs. */
  function ChangedInfos(keys: seq<string>, m1: FlatMap, m2: FlatMap): seq<Info>
    requires forall k :: k in keys ==> k in m1 && k in m2
  {
    if keys == [] then []
    else
      var k := keys[0];
      var rest := ChangedInfos(keys[1..], m1, m2);
      if SameRelease(m1[k], m2[k]) then rest else [Info(k, m1[k], m2[k])] + rest
  }

  /** Every change record carries the two PackageInfos of its name. */
  lemma {:induction false} ChangedInfosRecords(keys: seq<string>, m1: FlatMap, m2: FlatMap)
    requires forall k :: k in keys ==> k in m1 && k in m2
    ensures forall i :: 0 <= i < |ChangedInfos(keys, m1, m2)| ==> IsRecord(ChangedInfos(keys, m1, m2)[i], m1, m2)
  {
    if keys != [] {
      var k, rest := keys[0], ChangedInfos(keys[1..], m1, m2);
      ChangedInfosRecords(keys[1..], m1, m2);
      if !SameRelease(m1[k], m2[k]) {
        RecordsCons(Info(k, m1[k], m2[k]), rest, m1, m2);
      }
    }
  }

  lemma RecordsCons(d: Info, rest: seq<Info>, m1: FlatMap, m2: FlatMap)
    requires IsRecord(d, m1, m2) && forall i :: 0 <= i < |rest| ==> IsRecord(rest[i], m1, m2)
    ensures forall i :: 0 <= i < |[d] + rest| ==> IsRecord(([d] + rest)[i], m1, m2)
  {
  }

  /** A name gets a change record exactly when it is one of `keys` and its
      Version or Size differs. */
  lemma {:induction false} ChangedInfosMembers(keys: seq<string>, m1: FlatMap, m2: FlatMap)
    requires forall k :: k in keys ==> k in m1 && k in m2
    ensures forall k :: k in Names(ChangedInfos(keys, m1, m2), InfoName) <==> k in keys && !SameRelease(m1[k], m2[k])
  {
    if keys != [] {
      ChangedInfosMembers(keys[1..], m1, m2);
      ChangedInfosMembersStep(keys, m1, m2);
    }
  }

  lemma ChangedInfosMembersStep(keys: seq<string>, m1: FlatMap, m2: FlatMap)
    requires keys != [] && forall k :: k in keys ==> k in m1 && k in m2
    requires forall k :: k in Names(ChangedInfos(keys[1..], m1, m2), InfoName) <==> k in keys[1..] && !SameRelease(m1[k], m2[k])
    ensures forall k :: k in Names(ChangedInfos(keys, m1, m2), InfoName) <==> k in keys && !SameRelease(m1[k], m2[k])
  {
    var k0, rest := keys[0], ChangedInfos(keys[1..], m1, m2);
    assert keys == [k0] + keys[1..];
    if !SameRelease(m1[k0], m2[k0]) {
      NamesCons(Info(k0, m1[k0], m2[k0]), rest, InfoName);
    }
  }

  /** Records come out in the order of `keys`, so sorted names give sorted records. */
  lemma {:induction false} ChangedInfosSorted(keys: seq<string>, m1: FlatMap, m2: FlatMap)
    requires forall k :: k in keys ==> k in m1 && k in m2
    requires StrictlySorted(keys)
    ensures StrictlySorted(Names(ChangedInfos(keys, m1, m2), InfoName))
  {
    if keys != [] {
      var k, rest := keys[0], ChangedInfos(keys[1..], m1, m2);
      assert StrictlySorted(keys[1..]);
      ChangedInfosSorted(keys[1..], m1, m2);
      if !SameRelease(m1[k], m2[k]) {
        ChangedInfosMembers(keys[1..], m1, m2);
        NamesCons(Info(k, m1[k], m2[k]), rest, InfoName);
        SortedHead(keys, Names(rest, InfoName));
        SortedCons(k, Names(rest, InfoName));
      }
    }
  }

  /** The head of a sorted list is below every element of its tail. */
  lemma SortedHead(keys: seq<string>, ps: seq<string>)
    requires keys != [] && StrictlySorted(keys)
    requires forall k :: k in ps ==> k in keys[1..]
    ensures forall i :: 0 <= i < |ps| ==> LexLess(keys[0], ps[i])
  {
    forall i | 0 <= i < |ps|
      ensures LexLess(keys[0], ps[i])
    {
      assert ps[i] in keys[1..];
      var j :| 0 <= j < |keys[1..]| && keys[1..][j] == ps[i];
      assert keys[j + 1] == ps[i];
    }
  }

  /** `diffMaps` on two flat maps: names of one map only are copied with
      their PackageInfo, and a shared name gets one record, carrying both
      PackageInfos, exactly when its Version or Size differs. */
  function FlatDiff(m1: FlatMap, m2: FlatMap): (r: PackageDiff)
    ensures forall k :: k in r.packages1 <==> k in m1 && k !in m2
    ensures forall k :: k in r.packages1 ==> r.packages1[k] == m1[k]
    ensures forall k :: k in r.packages2 <==> k in m2 && k !in m1
    ensures forall k :: k in r.packages2 ==> r.packages2[k] == m2[k]
    ensures forall i :: 0 <= i < |r.infoDiff| ==> IsRecord(r.infoDiff[i], m1, m2)
    ensures forall k :: k in Names(r.infoDiff, InfoName) <==> k in m1 && k in m2 && !SameRelease(m1[k], m2[k])
    ensures StrictlySorted(Names(r.infoDiff, InfoName))
  {
    SharedChangedInfos(m1, m2);
    PackageDiff(OnlyIn(m1, m2), OnlyIn(m2, m1), ChangedInfos(SharedNames(m1, m2), m1, m2))
  }

  /** What the flat records over the sorted shared names satisfy. */
  lemma SharedChangedInfos(m1: FlatMap, m2: FlatMap)
    ensures var changes := ChangedInfos(SharedNames(m1, m2), m1, m2);
      (forall i :: 0 <= i < |changes| ==> IsRecord(changes[i], m1, m2)) &&
      (forall k :: k in Names(changes, InfoName) <==> k in m1 && k in m2 && !SameRelease(m1[k], m2[k])) &&
      StrictlySorted(Names(changes, InfoName))
  {
    var shared := SharedNames(m1, m2);
    ChangedInfosRecords(shared, m1, m2);
    ChangedInfosMembers(shared, m1, m2);
    ChangedInfosSorted(shared, m1, m2);
  }

  /** "Missing Packages": with no shared names every entry is copied to its
      side and there are no change records. */
  lemma FlatDisjoint(m1: FlatMap, m2: FlatMap)
    requires m1.Keys * m2.Keys == {}
    ensures FlatDiff(m1, m2) == PackageDiff(m1, m2, [])
  {
    assert SharedNames(m1, m2) == [];
    assert OnlyIn(m1, m2) == m1 && OnlyIn(m2, m1) == m2;
  }

  /** "Different Versions and Sizes": over the same names nothing is copied,
      and exactly the names whose Version or Size changed get a record. */
  lemma FlatSameNames(m1: FlatMap, m2: FlatMap)
    requires m1.Keys == m2.Keys
    ensures FlatDiff(m1, m2).packages1 == map[] && FlatDiff(m1, m2).packages2 == map[]
  {
  }

  lemma {:induction false} ChangedInfosSelf(keys: seq<string>, m: FlatMap)
    requires forall k :: k in keys ==> k in m
    ensures ChangedInfos(keys, m, m) == []
  {
    if keys != [] {
      ChangedInfosSelf(keys[1..], m);
    }
  }

  /** "Identical packages, versions, and sizes": a map against itself. */
  lemma FlatSelf(m: FlatMap)
    ensures FlatDiff(m, m) == PackageDiff(map[], map[], [])
  {
    ChangedInfosSelf(SharedNames(m, m), m);
  }

  /** Each record with its two PackageInfos exchanged. */
  function Swapped(ds: seq<Info>): (r: seq<Info>)
    ensures |r| == |ds| && forall i :: 0 <= i < |ds| ==> r[i] == Info(ds[i].package, ds[i].info2, ds[i].info1)
  {
    seq(|ds|, i requires 0 <= i < |ds| => Info(ds[i].package, ds[i].info2, ds[i].info1))
  }

  lemma SwappedCons(d: Info, rest: seq<Info>)
    ensures Swapped([d] + rest) == [Info(d.package, d.info2, d.info1)] + Swapped(rest)
  {
  }

  lemma {:induction false} ChangedInfosSwap(keys: seq<string>, m1: FlatMap, m2: FlatMap)
    requires forall k :: k in keys ==> k in m1 && k in m2
    ensures ChangedInfos(keys, m2, m1) == Swapped(ChangedInfos(keys, m1, m2))
  {
    if keys != [] {
      var k := keys[0];
      ChangedInfosSwap(keys[1..], m1, m2);
      if !SameRelease(m1[k], m2[k]) {
        SwappedCons(Info(k, m1[k], m2[k]), ChangedInfos(keys[1..], m1, m2));
      }
    }
  }

  /** Swapping the maps swaps the copied sides and each record's two infos. */
  lemma FlatSwap(m1: FlatMap, m2: FlatMap)
    ensures FlatDiff(m2, m1).packages1 == FlatDiff(m1, m2).packages2
    ensures FlatDiff(m2, m1).packages2 == FlatDiff(m1, m2).packages1
    ensures FlatDiff(m2, m1).infoDiff == Swapped(FlatDiff(m1, m2).infoDiff)
  {
    assert m2.Keys * m1.Keys == m1.Keys * m2.Keys;
    ChangedInfosSwap(SharedNames(m1, m2), m1, m2);
  }

  // ------------------------------------------------------------- layered maps

  /** The occurrences of one name, one per location key. */
  function Occurrences(sub: map<string, PackageInfo>): (r: seq<Occurrence>)
    ensures |r| == |sub.Keys|
    ensures forall i :: 0 <= i < |r| ==> r[i].location in sub && r[i].info == sub[r[i].location]
    ensures forall k :: k in sub <==> k in Locations(r)
  {
    var keys := SortedKeys(sub.Keys);
    var r := seq(|keys|, i requires 0 <= i < |keys| => Occurrence(keys[i], sub[keys[i]]));
    assert Locations(r) == keys;
    r
  }

  /** The two images hold, class by class, the same number of correlating
      occurrences of the name. */
  predicate Balanced(sub1: map<string, PackageInfo>, sub2: map<string, PackageInfo>) {
    multiset(Keys(Occurrences(sub1))) == multiset(Keys(Occurrences(sub2)))
  }

  /** The record for a name present in both maps: the unpaired occurrences of
      each side, or nothing when every occurrence pairs up. */
  function Change(k: string, sub1: map<string, PackageInfo>, sub2: map<string, PackageInfo>): (r: Option<MultiVersionInfo>)
    ensures r.Some? ==> r.value.package == k
  {
    var res := Reconcile(Occurrences(sub1), Occurrences(sub2));
    if res.left == [] && res.right == [] then None
    else Some(MultiVersionInfo(k, Infos(res.left), Infos(res.right)))
  }

  /** A shared name gets no record exactly when its occurrences balance. */
  lemma ChangeNoneIffBalanced(k: string, sub1: map<string, PackageInfo>, sub2: map<string, PackageInfo>)
    ensures Change(k, sub1, sub2).None? <==> Balanced(sub1, sub2)
  {
    ReconcileBalanced(Occurrences(sub1), Occurrences(sub2));
  }

  /** The change records for the shared names `keys`, in their order. */
  function MultiChanges(keys: seq<string>, m1: LayeredMap, m2: LayeredMap): seq<MultiVersionInfo>
    requires forall k :: k in keys ==> k in m1 && k in m2
  {
    if keys == [] then []
    else
      var k := keys[0];
      var rest := MultiChanges(keys[1..], m1, m2);
      match Change(k, m1[k], m2[k])
      case None => rest
      case Some(d) => [d] + rest
  }

  /** A record for a name both maps hold: what `Change` yields for it. */
  predicate IsMultiRecord(d: MultiVersionInfo, m1: LayeredMap, m2: LayeredMap) {
    d.package in m1 && d.package in m2 && Some(d) == Change(d.package, m1[d.package], m2[d.package])
  }

  /** One step of `MultiChanges`. */
  lemma MultiChangesStep(keys: seq<string>, m1: LayeredMap, m2: LayeredMap)
    requires keys != [] && forall k :: k in keys ==> k in m1 && k in m2
    ensures var k := keys[0];
      MultiChanges(keys, m1, m2) ==
        if Change(k, m1[k], m2[k]).None? then MultiChanges(keys[1..], m1, m2)
        else [Change(k, m1[k], m2[k]).value] + MultiChanges(keys[1..], m1, m2)
  {
  }

  /** Every record is what `Change` yields for its name. */
  lemma {:induction false} MultiChangesRecords(keys: seq<string>, m1: LayeredMap, m2: LayeredMap)
    requires forall k :: k in keys ==> k in m1 && k in m2
    ensures forall i :: 0 <= i < |MultiChanges(keys, m1, m2)| ==> IsMultiRecord(MultiChanges(keys, m1, m2)[i], m1, m2)
  {
    if keys != [] {
      MultiChangesRecords(keys[1..], m1, m2);
      MultiChangesStep(keys, m1, m2);
      var k := keys[0];
      var c := Change(k, m1[k], m2[k]);
      if c.Some? {
        MultiRecordsCons(c.value, MultiChanges(keys[1..], m1, m2), m1, m2);
      }
    }
  }

  lemma MultiRecordsCons(d: MultiVersionInfo, rest: seq<MultiVersionInfo>, m1: LayeredMap, m2: LayeredMap)
    requires IsMultiRecord(d, m1, m2) && forall i :: 0 <= i < |rest| ==> IsMultiRecord(rest[i], m1, m2)
    ensures forall i :: 0 <= i < |[d] + rest| ==> IsMultiRecord(([d] + rest)[i], m1, m2)
  {
  }

  /** Whether `Change` yields a record for shared name `k`. */
  predicate Changed(k: string, m1: LayeredMap, m2: LayeredMap)
    requires k in m1 && k in m2
  {
    Change(k, m1[k], m2[k]).Some?
  }

  /** A shared name gets a record exactly when `Change` yields one. */
  lemma {:induction false} MultiChangesMembers(keys: seq<string>, m1: LayeredMap, m2: LayeredMap)
    requires forall k :: k in keys ==> k in m1 && k in m2
    ensures forall k :: k in Names(MultiChanges(keys, m1, m2), MultiName) <==> k in keys && Changed(k, m1, m2)
  {
    if keys != [] {
      MultiChangesMembers(keys[1..], m1, m2);
      MultiChangesMembersStep(keys, m1, m2);
    }
  }

  lemma MultiChangesMembersStep(keys: seq<string>, m1: LayeredMap, m2: LayeredMap)
    requires keys != [] && forall k :: k in keys ==> k in m1 && k in m2
    requires forall k :: k in Names(MultiChanges(keys[1..], m1, m2), MultiName) <==> k in keys[1..] && Changed(k, m1, m2)
    ensures forall k :: k in Names(MultiChanges(keys, m1, m2), MultiName) <==> k in keys && Changed(k, m1, m2)
  {
    assert keys == [keys[0]] + keys[1..];
    MultiChangesStep(keys, m1, m2);
    if Changed(keys[0], m1, m2) {
      ChangedStep(keys, m1, m2);
    } else {
      UnchangedStep(keys, m1, m2);
    }
  }

  lemma ChangedStep(keys: seq<string>, m1: LayeredMap, m2: LayeredMap)
    requires keys != [] && forall k :: k in keys ==> k in m1 && k in m2
    requires Changed(keys[0], m1, m2)
    requires MultiChanges(keys, m1, m2) == [Change(keys[0], m1[keys[0]], m2[keys[0]]).value] + MultiChanges(keys[1..], m1, m2)
    requires forall k :: k in Names(MultiChanges(keys[1..], m1, m2), MultiName) <==> k in keys[1..] && Changed(k, m1, m2)
    ensures forall k :: k in Names(MultiChanges(keys, m1, m2), MultiName) <==> k in [keys[0]] + keys[1..] && Changed(k, m1, m2)
  {
    var d := Change(keys[0], m1[keys[0]], m2[keys[0]]).value;
    NamesCons(d, MultiChanges(keys[1..], m1, m2), MultiName);
  }

  lemma UnchangedStep(keys: seq<string>, m1: LayeredMap, m2: LayeredMap)
    requires keys != [] && forall k :: k in keys ==> k in m1 && k in m2
    requires !Changed(keys[0], m1, m2)
    requires MultiChanges(keys, m1, m2) == MultiChanges(keys[1..], m1, m2)
    requires forall k :: k in Names(MultiChanges(keys[1..], m1, m2), MultiName) <==> k in keys[1..] && Changed(k, m1, m2)
    ensures forall k :: k in Names(MultiChanges(keys, m1, m2), MultiName) <==> k in [keys[0]] + keys[1..] && Changed(k, m1, m2)
  {
  }

  /** Records come out in the order of `keys`, so sorted names give sorted records. */
  lemma {:induction false} MultiChangesSorted(keys: seq<string>, m1: LayeredMap, m2: LayeredMap)
    requires forall k :: k in keys ==> k in m1 && k in m2
    requires StrictlySorted(keys)
    ensures StrictlySorted(Names(MultiChanges(keys, m1, m2), MultiName))
  {
    if keys != [] {
      var k, rest := keys[0], MultiChanges(keys[1..], m1, m2);
      assert StrictlySorted(keys[1..]);
      MultiChangesSorted(keys[1..], m1, m2);
      MultiChangesStep(keys, m1, m2);
      var c := Change(k, m1[k], m2[k]);
      if c.Some? {
        MultiChangesMembers(keys[1..], m1, m2);
        NamesCons(c.value, rest, MultiName);
        SortedHead(keys, Names(rest, MultiName));
        SortedCons(k, Names(rest, MultiName));
      }
    }
  }

  /** `diffMaps` on two layered maps: names of one map only are copied with
      their whole location map, and the shared names get their records in
      increasing name order. */
  function LayeredDiff(m1: LayeredMap, m2: LayeredMap): (r: MultiVersionPackageDiff)
    ensures forall k :: k in r.packages1 <==> k in m1 && k !in m2
    ensures forall k :: k in r.packages1 ==> r.packages1[k] == m1[k]
    ensures forall k :: k in r.packages2 <==> k in m2 && k !in m1
    ensures forall k :: k in r.packages2 ==> r.packages2[k] == m2[k]
    ensures StrictlySorted(Names(r.infoDiff, MultiName))
  {
    var shared := SharedNames(m1, m2);
    MultiChangesSorted(shared, m1, m2);
    MultiVersionPackageDiff(OnlyIn(m1, m2), OnlyIn(m2, m1), MultiChanges(shared, m1, m2))
  }

  /** Each layered record is the `Change` of a name both maps hold. */
  lemma LayeredRecords(m1: LayeredMap, m2: LayeredMap)
    ensures forall i :: 0 <= i < |LayeredDiff(m1, m2).infoDiff| ==> IsMultiRecord(LayeredDiff(m1, m2).infoDiff[i], m1, m2)
  {
    MultiChangesRecords(SharedNames(m1, m2), m1, m2);
  }

  /** A shared name gets one record exactly when its occurrences do not
      balance. */
  lemma LayeredChangedNames(m1: LayeredMap, m2: LayeredMap)
    ensures forall k :: k in Names(LayeredDiff(m1, m2).infoDiff, MultiName) <==> k in m1 && k in m2 && !Balanced(m1[k], m2[k])
  {
    SharedChangesUnbalanced(SharedNames(m1, m2), m1, m2);
  }

  lemma SharedChangesUnbalanced(shared: seq<string>, m1: LayeredMap, m2: LayeredMap)
    requires forall k :: k in shared <==> k in m1 && k in m2
    ensures forall k :: k in Names(MultiChanges(shared, m1, m2), MultiName) <==> k in m1 && k in m2 && !Balanced(m1[k], m2[k])
  {
    MultiChangesMembers(shared, m1, m2);
    forall k | k in m1 && k in m2 {
      ChangeNoneIffBalanced(k, m1[k], m2[k]);
    }
  }

  /** A residue lists PackageInfos found at some location of its own side. */
  lemma ResidueFromSide(sub: map<string, PackageInfo>, residue: seq<Occurrence>, p: PackageInfo)
    requires multiset(residue) <= multiset(Occurrences(sub)) && p in Infos(residue)
    ensures exists l :: l in sub && sub[l] == p
  {
    var os := Occurrences(sub);
    var i :| 0 <= i < |residue| && Infos(residue)[i] == p;
    assert residue[i] in multiset(residue);
    assert residue[i] in os;
    var j :| 0 <= j < |os| && os[j] == residue[i];
    assert os[j].location in sub && sub[os[j].location] == p;
  }

  /** A change record lists only PackageInfos of its own side and pairs off
      as many occurrences on each side. */
  lemma ChangeRecord(k: string, sub1: map<string, PackageInfo>, sub2: map<string, PackageInfo>)
    requires Change(k, sub1, sub2).Some?
    ensures forall p :: p in Change(k, sub1, sub2).value.info1 ==> exists l :: l in sub1 && sub1[l] == p
    ensures forall p :: p in Change(k, sub1, sub2).value.info2 ==> exists l :: l in sub2 && sub2[l] == p
    ensures |sub1.Keys| - |Change(k, sub1, sub2).value.info1| == |sub2.Keys| - |Change(k, sub1, sub2).value.info2|
  {
    var res := Reconcile(Occurrences(sub1), Occurrences(sub2));
    forall p | p in Infos(res.left) ensures exists l :: l in sub1 && sub1[l] == p {
      ResidueFromSide(sub1, res.left, p);
    }
    forall p | p in Infos(res.right) ensures exists l :: l in sub2 && sub2[l] == p {
      ResidueFromSide(sub2, res.right, p);
    }
  }

  lemma {:induction false} MultiChangesSelf(keys: seq<string>, m: LayeredMap)
    requires forall k :: k in keys ==> k in m
    ensures MultiChanges(keys, m, m) == []
  {
    if keys != [] {
      ChangeNoneIffBalanced(keys[0], m[keys[0]], m[keys[0]]);
      MultiChangesSelf(keys[1..], m);
    }
  }

  /** A layered map against itself copies nothing and has no records (no
      table row diffs a map against itself; this is the general fact). */
  lemma LayeredSelf(m: LayeredMap)
    ensures LayeredDiff(m, m) == MultiVersionPackageDiff(map[], map[], [])
  {
    MultiChangesSelf(SharedNames(m, m), m);
  }

  /** A name with one occurrence has exactly that occurrence. */
  lemma OneOccurrence(l: string, p: PackageInfo)
    ensures Occurrences(map[l := p]) == [Occurrence(l, p)]
  {
    var r := Occurrences(map[l := p]);
    assert |r| == 1;
  }

  /** One occurrence moved to another layer segment, same path below it,
      still balances. */
  lemma OtherLayerBalanced(l1: string, l2: string, path: string, p: PackageInfo)
    requires '/' !in l1 && '/' !in l2
    ensures Balanced(map[l1 + "/" + path := p], map[l2 + "/" + path := p])
  {
    OneOccurrence(l1 + "/" + path, p);
    OneOccurrence(l2 + "/" + path, p);
    AfterLayerSplit(l1, path);
    AfterLayerSplit(l2, path);
    assert KeyOf(Occurrence(l1 + "/" + path, p)) == KeyOf(Occurrence(l2 + "/" + path, p));
  }

  const SizedVersion := PackageInfo("version", "size", "")

  /** The first image of "MultiVersion call with identical Packages in
      different layers". */
  function AcrossLayers1(): LayeredMap {
    map["pac5" := map["hash1/globalPath" := SizedVersion],
        "pac3" := map["hash1/notquite/localPath" := SizedVersion],
        "pac4" := map["samePlace" := SizedVersion]]
  }

  /** The second image of that row. */
  function AcrossLayers2(): LayeredMap {
    map["pac5" := map["hash2/globalPath" := SizedVersion],
        "pac3" := map["hash2/notquite/localPath" := SizedVersion],
        "pac4" := map["samePlace" := SizedVersion]]
  }

  lemma Pac5Balanced()
    ensures Balanced(map["hash1/globalPath" := SizedVersion], map["hash2/globalPath" := SizedVersion])
  {
    assert "hash1/globalPath" == "hash1" + "/" + "globalPath";
    assert "hash2/globalPath" == "hash2" + "/" + "globalPath";
    OtherLayerBalanced("hash1", "hash2", "globalPath", SizedVersion);
  }

  lemma Pac3Balanced()
    ensures Balanced(map["hash1/notquite/localPath" := SizedVersion], map["hash2/notquite/localPath" := SizedVersion])
  {
    assert "hash1/notquite/localPath" == "hash1" + "/" + "notquite/localPath";
    assert "hash2/notquite/localPath" == "hash2" + "/" + "notquite/localPath";
    OtherLayerBalanced("hash1", "hash2", "notquite/localPath", SizedVersion);
  }

  /** Every name of that row balances. */
  lemma AcrossLayersBalanced()
    ensures forall k :: k in AcrossLayers1() && k in AcrossLayers2() ==> Balanced(AcrossLayers1()[k], AcrossLayers2()[k])
  {
    var m1, m2 := AcrossLayers1(), AcrossLayers2();
    forall k | k in m1 && k in m2 ensures Balanced(m1[k], m2[k]) {
      if k == "pac5" {
        assert m1[k] == map["hash1/globalPath" := SizedVersion];
        assert m2[k] == map["hash2/globalPath" := SizedVersion];
        Pac5Balanced();
      } else if k == "pac3" {
        assert m1[k] == map["hash1/notquite/localPath" := SizedVersion];
        assert m2[k] == map["hash2/notquite/localPath" := SizedVersion];
        Pac3Balanced();
      } else {
        assert m1[k] == m2[k];
      }
    }
  }

  /** Two layered maps with the same names, each balancing, give the empty
      diff. */
  lemma LayeredBalancedEmpty(m1: LayeredMap, m2: LayeredMap)
    requires m1.Keys == m2.Keys
    requires forall k :: k in m1 ==> Balanced(m1[k], m2[k])
    ensures LayeredDiff(m1, m2) == MultiVersionPackageDiff(map[], map[], [])
  {
    var shared := SharedNames(m1, m2);
    MultiChangesBalanced(shared, m1, m2);
    OnlyInSameKeys(m1, m2);
    OnlyInSameKeys(m2, m1);
  }

  /** Maps with the same names leave nothing to copy. */
  lemma OnlyInSameKeys<V>(m1: map<string, V>, m2: map<string, V>)
    requires m1.Keys == m2.Keys
    ensures OnlyIn(m1, m2) == map[]
  {
    assert forall k :: k in m1 ==> k in m2.Keys;
  }

  lemma {:induction false} MultiChangesBalanced(keys: seq<string>, m1: LayeredMap, m2: LayeredMap)
    requires forall k :: k in keys ==> k in m1 && k in m2 && Balanced(m1[k], m2[k])
    ensures MultiChanges(keys, m1, m2) == []
  {
    if keys != [] {
      ChangeNoneIffBalanced(keys[0], m1[keys[0]], m2[keys[0]]);
      MultiChangesBalanced(keys[1..], m1, m2);
    }
  }

  /** "MultiVersion call with identical Packages in different layers": the
      same names at the same paths under other layer directories pair off,
      so the diff copies nothing and has no records. */
  lemma LayeredAcrossLayers()
    ensures LayeredDiff(AcrossLayers1(), AcrossLayers2()) == MultiVersionPackageDiff(map[], map[], [])
  {
    assert AcrossLayers1().Keys == AcrossLayers2().Keys;
    AcrossLayersBalanced();
    LayeredBalancedEmpty(AcrossLayers1(), AcrossLayers2());
  }

  /** "MultiVersion Packages", name pac2: two occurrences in the first image
      and one in the second, none pairing (all Versions differ), give one
      record holding all three. */
  lemma {:induction false} NoPairsAllUnpaired(o1: seq<Occurrence>, o2: seq<Occurrence>)
    requires forall i, j :: 0 <= i < |o1| && 0 <= j < |o2| ==> o1[i].info.version != o2[j].info.version
    ensures Reconcile(o1, o2) == Residues(o1, o2)
    decreases |o1|
  {
    if o1 != [] {
      NoPairsAllUnpaired(o1[1..], o2);
      NoVersionNoPartner(o1, o2);
      ReconcileUnpaired(o1, o2);
      assert o1 == [o1[0]] + o1[1..];
    }
  }

  /** An occurrence whose Version no occurrence of the other image has finds
      no partner. */
  lemma NoVersionNoPartner(o1: seq<Occurrence>, o2: seq<Occurrence>)
    requires o1 != [] && forall j :: 0 <= j < |o2| ==> o1[0].info.version != o2[j].info.version
    ensures !FirstPairs(o1, o2)
  {
  }

  // ------------------------------------------------------------ shape check

  /** The dynamic type of an `interface{}` argument. */
  datatype PackageMap =
    | Flat(flat: FlatMap)
    | Layered(layered: LayeredMap)
    | OtherMap(typeName: string)   // a map of some other key or value type
    | NotAMap(typeName: string)

  datatype MapType = FlatType | LayeredType | OtherType(name: string)

  datatype ShapeError = NotMaps | DifferentTypes | UnsupportedType(name: string)

  function TypeOf(m: PackageMap): Option<MapType> {
    match m
    case Flat(_) => Some(FlatType)
    case Layered(_) => Some(LayeredType)
    case OtherMap(name) => Some(OtherType(name))
    case NotAMap(_) => None
  }

  /** `checkPackageMapType`: both arguments must be maps of one type; the
      result is that type and whether it is the layered shape. */
  function CheckPackageMapType(m1: PackageMap, m2: PackageMap): (r: Result<(MapType, bool), ShapeError>)
    ensures r.Success? <==> TypeOf(m1).Some? && TypeOf(m1) == TypeOf(m2)
    ensures r.Success? ==> r.value.0 == TypeOf(m1).value && (r.value.1 <==> m1.Layered? && m2.Layered?)
    ensures m1.NotAMap? || m2.NotAMap? ==> r == Failure(NotMaps)
  {
    if m1.NotAMap? || m2.NotAMap? then Failure(NotMaps)
    else if TypeOf(m1) != TypeOf(m2) then Failure(DifferentTypes)
    else Success((TypeOf(m1).value, m1.Layered?))
  }

  /** The rows of the `checkPackageMapType` test table. */
  lemma CheckPackageMapTypeTable()
    ensures CheckPackageMapType(NotAMap("string"), NotAMap("string")).Failure?
    ensures CheckPackageMapType(OtherMap("map[string]int"), OtherMap("map[int]string")).Failure?
    ensures CheckPackageMapType(Flat(map[]), Flat(map[])) == Success((FlatType, false))
    ensures CheckPackageMapType(Layered(map[]), Layered(map[])) == Success((LayeredType, true))
  {
    assert "map[string]int" != "map[int]string" by {
      assert "map[string]int"[4] != "map[int]string"[4];
    }
  }

  datatype Diff = FlatResult(flatDiff: PackageDiff) | LayeredResult(layeredDiff: MultiVersionPackageDiff)

  /** `diffMaps`: the shape check, then the flat or the layered differ. */
  function DiffMaps(m1: PackageMap, m2: PackageMap): (r: Result<Diff, ShapeError>)
    ensures CheckPackageMapType(m1, m2).Failure? ==> r == Failure(CheckPackageMapType(m1, m2).error)
    ensures m1.Flat? && m2.Flat? ==> r == Success(FlatResult(FlatDiff(m1.flat, m2.flat)))
    ensures m1.Layered? && m2.Layered? ==> r == Success(LayeredResult(LayeredDiff(m1.layered, m2.layered)))
    ensures r.Success? ==> (m1.Flat? && m2.Flat?) || (m1.Layered? && m2.Layered?)
  {
    match CheckPackageMapType(m1, m2)
    case Failure(e) => Failure(e)
    case Success((t, multi)) =>
      if multi then Success(LayeredResult(LayeredDiff(m1.layered, m2.layered)))
      else if m1.Flat? && m2.Flat? then Success(FlatResult(FlatDiff(m1.flat, m2.flat)))
      else Failure(UnsupportedType(t.name))
  }

  // --------------------------------------------------------------- orderings

  /** `ByPackage.Less` and `ByMultiPackage.Less`: Go's `<` on the names. */
  predicate PackageLess(a: Info, b: Info) {
    LexLess(a.package, b.package)
  }

  predicate MultiPackageLess(a: MultiVersionInfo, b: MultiVersionInfo) {
    LexLess(a.package, b.package)
  }

  /** `ByPackageInfo.Less`: Go's `<` on the Versions. */
  predicate VersionLess(a: PackageInfo, b: PackageInfo) {
    LexLess(a.version, b.version)
  }

  /** Go's `<` on strings is a strict weak order whose incomparable keys are
      the equal ones. */
  lemma LexStrictWeak(x: string, y: string, z: string)
    ensures !LexLess(x, x)
    ensures LexLess(x, y) && LexLess(y, z) ==> LexLess(x, z)
    ensures !LexLess(x, y) && !LexLess(y, x) <==> x == y
  {
    LexIrreflexive(x);
    if LexLess(x, y) && LexLess(y, z) { LexTransitive(x, y, z); }
    if x != y { LexTotal(x, y); } else { LexIrreflexive(y); }
  }

  /** `ByPackage.Less` is what `sort.Sort` needs: a strict weak order whose
      incomparable records are those with the same name. */
  lemma PackageLessOrder(a: Info, b: Info, c: Info)
    ensures !PackageLess(a, a)
    ensures PackageLess(a, b) && PackageLess(b, c) ==> PackageLess(a, c)
    ensures !PackageLess(a, b) && !PackageLess(b, a) <==> a.package == b.package
  {
    LexStrictWeak(a.package, b.package, c.package);
  }

  /** `ByMultiPackage.Less`: the same order on layered change records. */
  lemma MultiPackageLessOrder(a: MultiVersionInfo, b: MultiVersionInfo, c: MultiVersionInfo)
    ensures !MultiPackageLess(a, a)
    ensures MultiPackageLess(a, b) && MultiPackageLess(b, c) ==> MultiPackageLess(a, c)
    ensures !MultiPackageLess(a, b) && !MultiPackageLess(b, a) <==> a.package == b.package
  {
    LexStrictWeak(a.package, b.package, c.package);
  }

  /** `ByPackageInfo.Less`: incomparable infos are those with the same Version. */
  lemma VersionLessOrder(a: PackageInfo, b: PackageInfo, c: PackageInfo)
    ensures !VersionLess(a, a)
    ensures VersionLess(a, b) && VersionLess(b, c) ==> VersionLess(a, c)
    ensures !VersionLess(a, b) && !VersionLess(b, a) <==> a.version == b.version
  {
    LexStrictWeak(a.version, b.version, c.version);
  }

  /** `Swap` of the three sort adapters: exchanges two elements in place. */
  method Swap<T>(a: array<T>, i: int, j: int)
    requires 0 <= i < a.Length && 0 <= j < a.Length
    modifies a
    ensures a[..] == old(a[..])[i := old(a[j])][j := old(a[i])]
    ensures multiset(a[..]) == multiset(old(a[..]))
  {
    a[i], a[j] := a[j], a[i];
  }

  /** In a list sorted strictly by name, the tail holds every record but
      the first. */
  lemma TailMembers(s: seq<Info>, x: Info)
    requires s != [] && StrictlySorted(Names(s, InfoName))
    ensures x in s[1..] <==> x in s && x != s[0]
  {
    assert s == [s[0]] + s[1..];
    if x in s[1..] {
      var i :| 0 <= i < |s[1..]| && s[1..][i] == x;
      assert Names(s, InfoName)[i + 1] == x.package && Names(s, InfoName)[0] == s[0].package;
      LexIrreflexive(x.package);
    }
  }

  /** The first record of a list sorted strictly by name precedes the others. */
  lemma SortedFirst(s: seq<Info>, i: int)
    requires StrictlySorted(Names(s, InfoName)) && 0 < i < |s|
    ensures LexLess(s[0].package, s[i].package)
  {
    assert Names(s, InfoName)[0] == s[0].package && Names(s, InfoName)[i] == s[i].package;
  }

  /** Two lists sorted strictly by name with the same records start alike. */
  lemma SortedHeadsEqual(s1: seq<Info>, s2: seq<Info>)
    requires s1 != [] && s2 != []
    requires StrictlySorted(Names(s1, InfoName)) && StrictlySorted(Names(s2, InfoName))
    requires forall x :: x in s1 <==> x in s2
    ensures s1[0] == s2[0]
  {
    assert s1[0] in s1 && s2[0] in s2;
    var i :| 0 <= i < |s1| && s1[i] == s2[0];
    var j :| 0 <= j < |s2| && s2[j] == s1[0];
    if i != 0 && j != 0 {
      SortedFirst(s1, i);
      SortedFirst(s2, j);
      LexAsymmetric(s1[0].package, s2[0].package);
    }
  }

  /** Past equal heads, the tails are sorted and hold the same records. */
  lemma SortedTails(s1: seq<Info>, s2: seq<Info>)
    requires s1 != [] && s2 != [] && s1[0] == s2[0]
    requires StrictlySorted(Names(s1, InfoName)) && StrictlySorted(Names(s2, InfoName))
    requires forall x :: x in s1 <==> x in s2
    ensures StrictlySorted(Names(s1[1..], InfoName)) && StrictlySorted(Names(s2[1..], InfoName))
    ensures forall x :: x in s1[1..] <==> x in s2[1..]
  {
    assert Names(s1[1..], InfoName) == Names(s1, InfoName)[1..] && Names(s2[1..], InfoName) == Names(s2, InfoName)[1..];
    forall x
      ensures x in s1[1..] <==> x in s2[1..]
    {
      TailMembers(s1, x);
      TailMembers(s2, x);
    }
  }

  /** The tests sort both change lists by name before comparing them. Two
      lists sorted strictly by name that hold the same records are equal, so
      the already sorted `infoDiff` is what that comparison sees. */
  lemma {:induction false} SortedByPackageUnique(s1: seq<Info>, s2: seq<Info>)
    requires StrictlySorted(Names(s1, InfoName)) && StrictlySorted(Names(s2, InfoName))
    requires forall x :: x in s1 <==> x in s2
    ensures s1 == s2
    decreases |s1|
  {
    assert s1 != [] ==> s1[0] in s1;
    assert s2 != [] ==> s2[0] in s2;
    if s1 != [] && s2 != [] {
      SortedHeadsEqual(s1, s2);
      SortedTails(s1, s2);
      SortedByPackageUnique(s1[1..], s2[1..]);
      assert s1 == [s1[0]] + s1[1..] && s2 == [s2[0]] + s2[1..];
    }
  }
}
