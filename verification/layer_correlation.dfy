/** The layer correlator behind the layered package-map differ: `contains`
    pairs one occurrence of a package against a list of occurrences from the
    other image, and `Reconcile` uses it greedily to pair up the occurrences
    of one package name across two images. Two occurrences correlate when
    Version and Size agree and their location keys are identical or agree
    after the leading layer segment (the text up to the first '/'). */
module LayerCorrelation {
  import opened Wrappers

  /** One installed package: `Layer` is carried along but never compared. */
  datatype PackageInfo = PackageInfo(version: string, size: string, layer: string)

  predicate SameRelease(p: PackageInfo, q: PackageInfo) {
    p.version == q.version && p.size == q.size
  }

  /** The text of a location key after its first '/', if it has one. */
  function AfterLayer(k: string): Option<string>
  {
    if k == [] then None
    else if k[0] == '/' then Some(k[1..])
    else AfterLayer(k[1..])
  }

  /** AfterLayer finds the first '/' and returns everything after it. */
  lemma {:induction false} AfterLayerSpec(k: string)
    ensures AfterLayer(k).None? <==> '/' !in k
    ensures AfterLayer(k).Some? ==> var p := |k| - |AfterLayer(k).value| - 1;
      0 <= p && k[p] == '/' && '/' !in k[..p] && k[p + 1..] == AfterLayer(k).value
  {
    if k != [] && k[0] != '/' {
      AfterLayerSpec(k[1..]);
      assert k == [k[0]] + k[1..];
      var r := AfterLayer(k[1..]);
      assert r.Some? ==> k[..|k| - |r.value| - 1] == [k[0]] + k[1..][..|k[1..]| - |r.value| - 1];
    }
  }

  /** Location correlation: the same key, or the same path below two
      (possibly different) layer segments. */
  predicate SameLocation(k1: string, k2: string) {
    k1 == k2 || (AfterLayer(k1).Some? && AfterLayer(k1) == AfterLayer(k2))
  }

  /** What a location key says once its layer segment is dropped. */
  datatype Location = Whole(key: string) | InLayer(path: string)

  function LocationClass(k: string): Location {
    match AfterLayer(k)
    case None => Whole(k)
    case Some(path) => InLayer(path)
  }

  /** Location correlation is an equivalence: it is equality of classes. */
  lemma SameLocationClass(k1: string, k2: string)
    ensures SameLocation(k1, k2) <==> LocationClass(k1) == LocationClass(k2)
  {
  }

  /** One occurrence of a package: its location key and what is installed there. */
  datatype Occurrence = Occurrence(location: string, info: PackageInfo)

  predicate Correlates(o1: Occurrence, o2: Occurrence) {
    SameRelease(o1.info, o2.info) && SameLocation(o1.location, o2.location)
  }

  /** The correlation class of an occurrence. */
  datatype CorrKey = CorrKey(version: string, size: string, location: Location)

  function KeyOf(o: Occurrence): CorrKey {
    CorrKey(o.info.version, o.info.size, LocationClass(o.location))
  }

  lemma CorrelatesIffSameKey(o1: Occurrence, o2: Occurrence)
    ensures Correlates(o1, o2) <==> KeyOf(o1) == KeyOf(o2)
  {
    SameLocationClass(o1.location, o2.location);
  }

  /** Entry `j` of the lists pairs with the occurrence (currLayer, currVersion). */
  predicate MatchesAt(versionList: seq<PackageInfo>, layers: seq<string>, j: int, currLayer: string, currVersion: PackageInfo) {
    0 <= j < |versionList| && j < |layers| &&
    SameRelease(versionList[j], currVersion) && SameLocation(layers[j], currLayer)
  }

  /** `contains`: the first index whose entry pairs with the occurrence, with
      true; index 0 and false when none does or the lists differ in length. */
  function Contains(versionList: seq<PackageInfo>, layers: seq<string>, currLayer: string, currVersion: PackageInfo): (r: (int, bool))
    ensures r.1 ==> |versionList| == |layers| && MatchesAt(versionList, layers, r.0, currLayer, currVersion)
    ensures r.1 ==> forall j :: 0 <= j < r.0 ==> !MatchesAt(versionList, layers, j, currLayer, currVersion)
    ensures !r.1 ==> r.0 == 0
    ensures !r.1 ==> (|versionList| != |layers| ||
      forall j :: 0 <= j < |versionList| ==> !MatchesAt(versionList, layers, j, currLayer, currVersion))
  {
    if |versionList| != |layers| then (0, false)
    else FindFrom(versionList, layers, currLayer, currVersion, 0)
  }

  function FindFrom(versionList: seq<PackageInfo>, layers: seq<string>, currLayer: string, currVersion: PackageInfo, start: nat): (r: (int, bool))
    requires |versionList| == |layers| && start <= |versionList|
    ensures r.1 ==> start <= r.0 && MatchesAt(versionList, layers, r.0, currLayer, currVersion)
    ensures r.1 ==> forall j :: start <= j < r.0 ==> !MatchesAt(versionList, layers, j, currLayer, currVersion)
    ensures !r.1 ==> r.0 == 0
    ensures !r.1 ==> forall j :: start <= j < |versionList| ==> !MatchesAt(versionList, layers, j, currLayer, currVersion)
    decreases |versionList| - start
  {
    if start == |versionList| then (0, false)
    else if MatchesAt(versionList, layers, start, currLayer, currVersion) then (start, true)
    else FindFrom(versionList, layers, currLayer, currVersion, start + 1)
  }

  /** Pairing never looks at `Layer`: relabelling the layer of the sought
      occurrence or of any listed one leaves the answer of `contains` as it is. */
  lemma ContainsIgnoresLayer(versionList: seq<PackageInfo>, relabelled: seq<PackageInfo>, layers: seq<string>,
                             currLayer: string, currVersion: PackageInfo, tag: string)
    requires |relabelled| == |versionList|
    requires forall i :: 0 <= i < |versionList| ==> relabelled[i] == versionList[i].(layer := relabelled[i].layer)
    ensures Contains(relabelled, layers, currLayer, currVersion.(layer := tag)) == Contains(versionList, layers, currLayer, currVersion)
  {
    if |versionList| == |layers| {
      FindFromIgnoresLayer(versionList, relabelled, layers, currLayer, currVersion, tag, 0);
    }
  }

  lemma {:induction false} FindFromIgnoresLayer(versionList: seq<PackageInfo>, relabelled: seq<PackageInfo>, layers: seq<string>,
                                                currLayer: string, currVersion: PackageInfo, tag: string, start: nat)
    requires |relabelled| == |versionList| == |layers| && start <= |versionList|
    requires forall i :: 0 <= i < |versionList| ==> relabelled[i] == versionList[i].(layer := relabelled[i].layer)
    ensures FindFrom(relabelled, layers, currLayer, currVersion.(layer := tag), start) ==
      FindFrom(versionList, layers, currLayer, currVersion, start)
    decreases |versionList| - start
  {
    if start < |versionList| {
      assert relabelled[start] == versionList[start].(layer := relabelled[start].layer);
      FindFromIgnoresLayer(versionList, relabelled, layers, currLayer, currVersion, tag, start + 1);
    }
  }

  function Infos(os: seq<Occurrence>): (r: seq<PackageInfo>)
    ensures |r| == |os| && forall i :: 0 <= i < |os| ==> r[i] == os[i].info
  {
    seq(|os|, i requires 0 <= i < |os| => os[i].info)
  }

  function Locations(os: seq<Occurrence>): (r: seq<string>)
    ensures |r| == |os| && forall i :: 0 <= i < |os| ==> r[i] == os[i].location
  {
    seq(|os|, i requires 0 <= i < |os| => os[i].location)
  }

  function Keys(os: seq<Occurrence>): (r: seq<CorrKey>)
    ensures |r| == |os| && forall i :: 0 <= i < |os| ==> r[i] == KeyOf(os[i])
  {
    seq(|os|, i requires 0 <= i < |os| => KeyOf(os[i]))
  }

  /** The occurrences of each side that found no partner on the other side. */
  datatype Residues = Residues(left: seq<Occurrence>, right: seq<Occurrence>)

  /** Pairs each occurrence of the first image, in order, with the first
      still-unpaired occurrence of the second image that `contains` accepts;
      a paired occurrence of the second image is not offered again. The
      residues are taken from the inputs, and both sides lose the same number
      of occurrences (one per pair). */
  function Reconcile(occ1: seq<Occurrence>, occ2: seq<Occurrence>): (r: Residues)
    ensures multiset(r.left) <= multiset(occ1)
    ensures multiset(r.right) <= multiset(occ2)
    ensures |occ1| - |r.left| == |occ2| - |r.right|
    decreases |occ1|
  {
    if occ1 == [] then Residues([], occ2)
    else
      var o := occ1[0];
      assert occ1 == [o] + occ1[1..];
      var found := Contains(Infos(occ2), Locations(occ2), o.location, o.info);
      if found.1 then
        var i := found.0;
        assert occ2 == occ2[..i] + [occ2[i]] + occ2[i + 1..];
        Reconcile(occ1[1..], occ2[..i] + occ2[i + 1..])
      else
        var rest := Reconcile(occ1[1..], occ2);
        Residues([o] + rest.left, rest.right)
  }

  lemma KeysConcat(a: seq<Occurrence>, b: seq<Occurrence>)
    ensures Keys(a + b) == Keys(a) + Keys(b)
  {
  }

  /** Removing entry `i` removes exactly its key from the key bag. */
  lemma RemoveKey(os: seq<Occurrence>, i: int)
    requires 0 <= i < |os|
    ensures multiset(Keys(os[..i] + os[i + 1..])) == multiset(Keys(os)) - multiset{KeyOf(os[i])}
  {
    var front, back := os[..i], os[i + 1..];
    assert os == front + ([os[i]] + back);
    KeysConcat(front, [os[i]] + back);
    KeysConcat([os[i]], back);
    KeysConcat(front, back);
    assert Keys([os[i]]) == [KeyOf(os[i])];
    var mf, mb := multiset(Keys(front)), multiset(Keys(back));
    assert multiset(Keys(os)) == mf + multiset{KeyOf(os[i])} + mb;
  }

  lemma CancelCommon(k: CorrKey, a: multiset<CorrKey>, b: multiset<CorrKey>)
    ensures (multiset{k} + a) - (multiset{k} + b) == a - b
  {
    assert forall x :: ((multiset{k} + a) - (multiset{k} + b))[x] == (a - b)[x];
  }

  lemma AddAbsent(k: CorrKey, a: multiset<CorrKey>, b: multiset<CorrKey>)
    requires k !in b
    ensures (multiset{k} + a) - b == multiset{k} + (a - b)
    ensures b - (multiset{k} + a) == b - a
  {
    assert forall x :: ((multiset{k} + a) - b)[x] == (multiset{k} + (a - b))[x];
    assert forall x :: (b - (multiset{k} + a))[x] == (b - a)[x];
  }

  lemma InKeys(os: seq<Occurrence>, o: Occurrence)
    requires o in os
    ensures KeyOf(o) in multiset(Keys(os))
  {
    var i :| 0 <= i < |os| && os[i] == o;
    assert Keys(os)[i] == KeyOf(o);
  }

  /** No occurrence of `occ2` correlates with `o` when `contains` finds none. */
  lemma NotFoundAbsent(occ2: seq<Occurrence>, o: Occurrence)
    requires !Contains(Infos(occ2), Locations(occ2), o.location, o.info).1
    ensures KeyOf(o) !in multiset(Keys(occ2))
  {
    if KeyOf(o) in multiset(Keys(occ2)) {
      var j :| 0 <= j < |occ2| && Keys(occ2)[j] == KeyOf(o);
      CorrelatesIffSameKey(occ2[j], o);
      assert MatchesAt(Infos(occ2), Locations(occ2), j, o.location, o.info);
      assert false;
    }
  }

  /** Class-count law: whatever the order of the occurrences, the unpaired
      occurrences of each side are, class by class, the surplus of that side
      over the other. */
  lemma ReconcileKeyBags(occ1: seq<Occurrence>, occ2: seq<Occurrence>)
    ensures multiset(Keys(Reconcile(occ1, occ2).left)) == multiset(Keys(occ1)) - multiset(Keys(occ2))
    ensures multiset(Keys(Reconcile(occ1, occ2).right)) == multiset(Keys(occ2)) - multiset(Keys(occ1))
  {
    LeftKeyBag(occ1, occ2);
    RightKeyBag(occ1, occ2);
  }

  /** The key bag of an occurrence list with a first element. */
  lemma KeysFirst(os: seq<Occurrence>)
    requires os != []
    ensures multiset(Keys(os)) == multiset{KeyOf(os[0])} + multiset(Keys(os[1..]))
  {
    assert Keys(os) == [KeyOf(os[0])] + Keys(os[1..]);
  }

  /** Whether `contains` finds a partner for the first occurrence of `occ1`. */
  predicate FirstPairs(occ1: seq<Occurrence>, occ2: seq<Occurrence>)
    requires occ1 != []
  {
    Contains(Infos(occ2), Locations(occ2), occ1[0].location, occ1[0].info).1
  }

  /** The second image without the partner found for the first occurrence. */
  function PartnerRemoved(occ1: seq<Occurrence>, occ2: seq<Occurrence>): seq<Occurrence>
    requires occ1 != [] && FirstPairs(occ1, occ2)
  {
    var i := Contains(Infos(occ2), Locations(occ2), occ1[0].location, occ1[0].info).0;
    occ2[..i] + occ2[i + 1..]
  }

  /** A first occurrence that pairs off leaves the rest to be reconciled
      against the second image without its partner. */
  lemma ReconcilePaired(occ1: seq<Occurrence>, occ2: seq<Occurrence>)
    requires occ1 != [] && FirstPairs(occ1, occ2)
    ensures Reconcile(occ1, occ2) == Reconcile(occ1[1..], PartnerRemoved(occ1, occ2))
  {
  }

  /** A first occurrence without partner heads the left residue. */
  lemma ReconcileUnpaired(occ1: seq<Occurrence>, occ2: seq<Occurrence>)
    requires occ1 != [] && !FirstPairs(occ1, occ2)
    ensures Reconcile(occ1, occ2).left == [occ1[0]] + Reconcile(occ1[1..], occ2).left
    ensures Reconcile(occ1, occ2).right == Reconcile(occ1[1..], occ2).right
  {
  }

  /** The partner shares the first occurrence's key. */
  lemma PairedBag(occ1: seq<Occurrence>, occ2: seq<Occurrence>)
    requires occ1 != [] && FirstPairs(occ1, occ2)
    ensures multiset(Keys(occ2)) == multiset{KeyOf(occ1[0])} + multiset(Keys(PartnerRemoved(occ1, occ2)))
  {
    var o := occ1[0];
    var i := Contains(Infos(occ2), Locations(occ2), o.location, o.info).0;
    FoundBag(occ2, i, o);
  }

  lemma {:induction false} LeftKeyBag(occ1: seq<Occurrence>, occ2: seq<Occurrence>)
    ensures multiset(Keys(Reconcile(occ1, occ2).left)) == multiset(Keys(occ1)) - multiset(Keys(occ2))
    decreases |occ1|
  {
    if occ1 != [] {
      if FirstPairs(occ1, occ2) {
        LeftKeyBag(occ1[1..], PartnerRemoved(occ1, occ2));
        LeftPairedStep(occ1, occ2);
      } else {
        LeftKeyBag(occ1[1..], occ2);
        LeftUnpairedStep(occ1, occ2);
      }
    }
  }

  lemma LeftPairedStep(occ1: seq<Occurrence>, occ2: seq<Occurrence>)
    requires occ1 != [] && FirstPairs(occ1, occ2)
    requires multiset(Keys(Reconcile(occ1[1..], PartnerRemoved(occ1, occ2)).left)) ==
      multiset(Keys(occ1[1..])) - multiset(Keys(PartnerRemoved(occ1, occ2)))
    ensures multiset(Keys(Reconcile(occ1, occ2).left)) == multiset(Keys(occ1)) - multiset(Keys(occ2))
  {
    var k, a, b := KeyOf(occ1[0]), multiset(Keys(occ1[1..])), multiset(Keys(PartnerRemoved(occ1, occ2)));
    calc {
      multiset(Keys(occ1)) - multiset(Keys(occ2));
      { KeysFirst(occ1); PairedBag(occ1, occ2); }
      (multiset{k} + a) - (multiset{k} + b);
      { CancelCommon(k, a, b); }
      a - b;
      multiset(Keys(Reconcile(occ1[1..], PartnerRemoved(occ1, occ2)).left));
      { ReconcilePaired(occ1, occ2); }
      multiset(Keys(Reconcile(occ1, occ2).left));
    }
  }

  lemma LeftUnpairedStep(occ1: seq<Occurrence>, occ2: seq<Occurrence>)
    requires occ1 != [] && !FirstPairs(occ1, occ2)
    requires multiset(Keys(Reconcile(occ1[1..], occ2).left)) == multiset(Keys(occ1[1..])) - multiset(Keys(occ2))
    ensures multiset(Keys(Reconcile(occ1, occ2).left)) == multiset(Keys(occ1)) - multiset(Keys(occ2))
  {
    var o := occ1[0];
    var left := Reconcile(occ1[1..], occ2).left;
    KeysFirst(occ1);
    ReconcileUnpaired(occ1, occ2);
    NotFoundAbsent(occ2, o);
    AddAbsent(KeyOf(o), multiset(Keys(occ1[1..])), multiset(Keys(occ2)));
    KeysFirst([o] + left);
    assert ([o] + left)[1..] == left;
  }

  lemma {:induction false} RightKeyBag(occ1: seq<Occurrence>, occ2: seq<Occurrence>)
    ensures multiset(Keys(Reconcile(occ1, occ2).right)) == multiset(Keys(occ2)) - multiset(Keys(occ1))
    decreases |occ1|
  {
    if occ1 != [] {
      if FirstPairs(occ1, occ2) {
        RightKeyBag(occ1[1..], PartnerRemoved(occ1, occ2));
        RightPairedStep(occ1, occ2);
      } else {
        RightKeyBag(occ1[1..], occ2);
        RightUnpairedStep(occ1, occ2);
      }
    }
  }

  lemma RightPairedStep(occ1: seq<Occurrence>, occ2: seq<Occurrence>)
    requires occ1 != [] && FirstPairs(occ1, occ2)
    requires multiset(Keys(Reconcile(occ1[1..], PartnerRemoved(occ1, occ2)).right)) ==
      multiset(Keys(PartnerRemoved(occ1, occ2))) - multiset(Keys(occ1[1..]))
    ensures multiset(Keys(Reconcile(occ1, occ2).right)) == multiset(Keys(occ2)) - multiset(Keys(occ1))
  {
    var k, a, b := KeyOf(occ1[0]), multiset(Keys(occ1[1..])), multiset(Keys(PartnerRemoved(occ1, occ2)));
    calc {
      multiset(Keys(occ2)) - multiset(Keys(occ1));
      { KeysFirst(occ1); PairedBag(occ1, occ2); }
      (multiset{k} + b) - (multiset{k} + a);
      { CancelCommon(k, b, a); }
      b - a;
      multiset(Keys(Reconcile(occ1[1..], PartnerRemoved(occ1, occ2)).right));
      { ReconcilePaired(occ1, occ2); }
      multiset(Keys(Reconcile(occ1, occ2).right));
    }
  }

  lemma RightUnpairedStep(occ1: seq<Occurrence>, occ2: seq<Occurrence>)
    requires occ1 != [] && !FirstPairs(occ1, occ2)
    requires multiset(Keys(Reconcile(occ1[1..], occ2).right)) == multiset(Keys(occ2)) - multiset(Keys(occ1[1..]))
    ensures multiset(Keys(Reconcile(occ1, occ2).right)) == multiset(Keys(occ2)) - multiset(Keys(occ1))
  {
    var o := occ1[0];
    KeysFirst(occ1);
    ReconcileUnpaired(occ1, occ2);
    NotFoundAbsent(occ2, o);
    AddAbsent(KeyOf(o), multiset(Keys(occ1[1..])), multiset(Keys(occ2)));
  }

  /** The partner `contains` finds has the occurrence's key; removing it
      removes one copy of that key. */
  lemma FoundBag(occ2: seq<Occurrence>, i: int, o: Occurrence)
    requires 0 <= i < |occ2| && MatchesAt(Infos(occ2), Locations(occ2), i, o.location, o.info)
    ensures multiset(Keys(occ2)) == multiset{KeyOf(o)} + multiset(Keys(occ2[..i] + occ2[i + 1..]))
  {
    CorrelatesIffSameKey(occ2[i], o);
    RemoveKey(occ2, i);
    InKeys(occ2, occ2[i]);
  }

  /** The greedy pairing is maximal: no unpaired occurrence of the first image
      correlates with an unpaired occurrence of the second. */
  lemma ReconcileMaximal(occ1: seq<Occurrence>, occ2: seq<Occurrence>, a: Occurrence, b: Occurrence)
    requires a in Reconcile(occ1, occ2).left && b in Reconcile(occ1, occ2).right
    ensures !Correlates(a, b)
  {
    var r := Reconcile(occ1, occ2);
    ReconcileKeyBags(occ1, occ2);
    CorrelatesIffSameKey(a, b);
    InKeys(r.left, a);
    InKeys(r.right, b);
  }

  /** Nothing is left unpaired exactly when both images hold the same number
      of occurrences of every correlation class. */
  lemma ReconcileBalanced(occ1: seq<Occurrence>, occ2: seq<Occurrence>)
    ensures Reconcile(occ1, occ2).left == [] && Reconcile(occ1, occ2).right == [] <==>
      multiset(Keys(occ1)) == multiset(Keys(occ2))
  {
    var r := Reconcile(occ1, occ2);
    ReconcileKeyBags(occ1, occ2);
    NoKeys(r.left);
    NoKeys(r.right);
    NoSurplus(multiset(Keys(occ1)), multiset(Keys(occ2)));
  }

  lemma NoKeys(os: seq<Occurrence>)
    ensures multiset(Keys(os)) == multiset{} <==> os == []
  {
    if os != [] {
      assert KeyOf(os[0]) in multiset(Keys(os));
    }
  }

  /** Two bags are equal exactly when neither has a surplus over the other. */
  lemma NoSurplus(a: multiset<CorrKey>, b: multiset<CorrKey>)
    ensures a - b == multiset{} && b - a == multiset{} <==> a == b
  {
    if a - b == multiset{} && b - a == multiset{} {
      forall x ensures a[x] == b[x] {
        assert (a - b)[x] == 0 && (b - a)[x] == 0;
      }
    }
  }

  /** A key made of a layer segment without '/' and a path correlates by
      its path alone. */
  lemma {:induction false} AfterLayerSplit(layer: string, path: string)
    requires '/' !in layer
    ensures AfterLayer(layer + "/" + path) == Some(path)
    decreases |layer|
  {
    if layer == [] {
      assert layer + "/" + path == ['/'] + path;
    } else {
      AfterLayerSplit(layer[1..], path);
      assert (layer + "/" + path)[1..] == layer[1..] + "/" + path;
    }
  }

  /** The same path under two layer segments correlates, whatever the
      segments; different paths do not. */
  lemma LayerSegmentIgnored(l1: string, l2: string, path1: string, path2: string, p: PackageInfo)
    requires '/' !in l1 && '/' !in l2
    ensures Correlates(Occurrence(l1 + "/" + path1, p), Occurrence(l2 + "/" + path2, p)) <==>
      path1 == path2 || l1 + "/" + path1 == l2 + "/" + path2
  {
    AfterLayerSplit(l1, path1);
    AfterLayerSplit(l2, path2);
  }

  /** `contains` test table, "Does contain": the second entry pairs up after
      its layer segment is dropped. */
  lemma ContainsFound()
    ensures Contains([PackageInfo("2", "b", ""), PackageInfo("1", "a", "")], ["1/global", "2/local"],
      "3/local", PackageInfo("1", "a", "")) == (1, true)
  {
    var l2, l3 := "2/local", "3/local";
    assert l2 == "2" + "/" + "local";
    assert l3 == "3" + "/" + "local";
    AfterLayerSplit("2", "local");
    AfterLayerSplit("3", "local");
    assert SameLocation(l2, l3);
  }

  /** `contains` test table, the rows that find nothing: a differing Size, a
      differing path below the layer segment, and lists of unequal length. */
  lemma ContainsNotFound()
    ensures Contains([PackageInfo("1", "a", ""), PackageInfo("2", "b", "")], ["1/global", "2/local"],
      "3/global", PackageInfo("2", "a", "")) == (0, false)
    ensures Contains([PackageInfo("1", "a", ""), PackageInfo("2", "b", "")], ["1/local", "2/local"],
      "3/global", PackageInfo("1", "a", "")) == (0, false)
    ensures Contains([PackageInfo("1", "a", "L1"), PackageInfo("2", "b", "L2")], ["1/local", "2/local"],
      "3/global", PackageInfo("1", "a", "")) == (0, false)
    ensures Contains([PackageInfo("1", "a", ""), PackageInfo("2", "b", "")], ["1/local"],
      "3/global", PackageInfo("1", "a", "")) == (0, false)
  {
    var l1, g3 := "1/local", "3/global";
    assert l1 == "1" + "/" + "local";
    assert g3 == "3" + "/" + "global";
    AfterLayerSplit("1", "local");
    AfterLayerSplit("3", "global");
    assert !SameLocation(l1, g3);
  }
}
