/** The three merge stages of the hardware list manager. Each is
    `unionWith` with a stage-specific resolver, followed by the platform filter
    and the name sort. In every resolver `src` is the candidate and `ori` the
    kept element; `ori` is the one that survives. */
module Merges {
  import opened Wrappers
  import opened Seqs
  import opened Semver
  import opened Descriptors
  import opened Ordering
  import opened UnionWith

  /** `lt(valid(a), valid(b))`, throwing when either side is not a valid version. */
  function SemverLt(a: Version, b: Version): (r: Result<bool, Fault>)
    ensures r.Failure? <==> !a.Valid? || !b.Valid?
    ensures r.Success? ==> (r.value <==> Precedes(a, b))
  {
    match Lt(a, b)
    case Some(older) => Success(older)
    case None => Failure(SemverTypeError)
  }

  /** The kept element is stale against the candidate: its version is missing,
      or strictly older. */
  predicate Stale(ori: Descriptor, src: Descriptor)
  {
    ori.version.Absent? || Precedes(ori.version, src.version)
  }

  /** What every inspection by the legacy resolver does to a kept element:
      `ori.version = ori.version || '1.0.0'`. */
  function Defaulted(d: Descriptor): (r: Descriptor)
    ensures r.version != Absent && r.id == d.id
    ensures d.version == Absent ==> r == d.(version := DefaultVersion)
    ensures d.version != Absent ==> r == d
  {
    d.(version := OrDefault(d.version))
  }

  /** The resolver of `mergeHardwareListWithLegacy`. Every inspected kept
      element first has its version defaulted, whatever its id. On an id match
      the kept element takes the candidate's version and moduleName and becomes
      available when its (defaulted) version is not newer than the candidate's. */
  function ResolveLegacy(src: Descriptor, ori: Descriptor): (r: Result<Verdict<Descriptor>, Fault>)
    ensures r.Failure? <==> src.id == ori.id && (OrDefault(ori.version).Invalid? || !src.version.Valid?)
    ensures r.Success? ==> r.value.claimed == (src.id == ori.id) && r.value.kept.id == ori.id
    ensures r.Success? && !r.value.claimed ==> r.value.kept == ori.(version := OrDefault(ori.version))
    ensures r.Success? && r.value.claimed ==>
      var o := OrDefault(ori.version);
      var v := r.value.kept.version;
      && (v == o || v == src.version)
      && !Precedes(v, o) && !Precedes(v, src.version)
    ensures r.Success? && r.value.claimed ==>
      if Precedes(src.version, OrDefault(ori.version))
      then r.value.kept == ori.(version := OrDefault(ori.version))
      else r.value.kept == ori.(version := src.version, moduleName := src.moduleName, availableType := Available)
  {
    // After the default the kept version is never missing, so the match
    // condition reduces to the `lt`/`eq` tests.
    var kept := Defaulted(ori);
    if kept.id != src.id then Success(Verdict(false, kept))
    else
      var older :- SemverLt(kept.version, src.version);
      // `eq` sees the same two arguments `lt` accepted, so it cannot throw.
      var same := !older && Eq(kept.version, src.version) == Some(true);
      if older || same then
        Success(Verdict(true, kept.(version := src.version, moduleName := src.moduleName, availableType := Available)))
      else
        Success(Verdict(true, kept))
  }

  /** The resolver of `mergeHardwareList`. On an id match with a stale kept
      element, the kept element's version is defaulted (never replaced), the
      candidate's moduleName is copied and the longer platform list is taken;
      both platform lists must then exist. */
  function ResolveBase(src: Descriptor, ori: Descriptor): (r: Result<Verdict<Descriptor>, Fault>)
    ensures r.Failure? <==>
      && src.id == ori.id
      && (|| (ori.version != Absent && (ori.version.Invalid? || !src.version.Valid?))
          || (Stale(ori, src) && (ori.platform.None? || src.platform.None?)))
    ensures r.Success? ==> r.value.claimed == (src.id == ori.id)
    ensures r.Success? && !r.value.claimed ==> r.value.kept == ori
    ensures r.Success? && r.value.claimed ==>
      var k := r.value.kept;
      && k.version == OrDefault(ori.version)
      && k.(version := ori.version, moduleName := ori.moduleName, platform := ori.platform) == ori
      && (Stale(ori, src) ==>
            && k.moduleName == src.moduleName
            && k.platform.Some? && ori.platform.Some? && src.platform.Some?
            && |k.platform.value| >= |ori.platform.value|
            && |k.platform.value| >= |src.platform.value|
            && (k.platform == ori.platform || k.platform == src.platform)
            && (|ori.platform.value| < |src.platform.value| ==> k.platform == src.platform)
            && (|src.platform.value| <= |ori.platform.value| ==> k.platform == ori.platform))
      && (!Stale(ori, src) ==> k == ori)
  {
    if ori.id != src.id then Success(Verdict(false, ori))
    else
      var older :- if ori.version.Absent? then Success(true) else SemverLt(ori.version, src.version);
      if !older then Success(Verdict(true, ori))
      else if ori.platform.None? || src.platform.None? then Failure(PlatformLengthOfUndefined)
      else
        var platform := if |ori.platform.value| < |src.platform.value| then src.platform else ori.platform;
        Success(Verdict(true, ori.(version := OrDefault(ori.version), moduleName := src.moduleName, platform := platform)))
  }

  /** The resolver of `addOtherVersions`. On an id match a stale kept element
      is marked as needing an update and takes the candidate's moduleName; in
      every match a present candidate version is appended to
      `availableVersions`. */
  function ResolveVersions(src: Descriptor, ori: Descriptor): (r: Result<Verdict<Descriptor>, Fault>)
    ensures r.Failure? <==>
      src.id == ori.id && ori.version != Absent && (ori.version.Invalid? || !src.version.Valid?)
    ensures r.Success? ==> r.value.claimed == (src.id == ori.id)
    ensures r.Success? && !r.value.claimed ==> r.value.kept == ori
    ensures r.Success? && r.value.claimed ==>
      var k := r.value.kept;
      && k.availableVersions == ori.availableVersions + (if src.version.Absent? then [] else [src.version])
      && k.version == OrDefault(ori.version)
      && (k.availableType == NeedUpdate <==> Stale(ori, src) || ori.availableType == NeedUpdate)
      && (k.moduleName == src.moduleName || k.moduleName == ori.moduleName)
      && (Stale(ori, src) ==> k.moduleName == src.moduleName)
      && (!Stale(ori, src) ==> k.moduleName == ori.moduleName && k.availableType == ori.availableType)
      && k.(version := ori.version, moduleName := ori.moduleName, availableType := ori.availableType,
            availableVersions := ori.availableVersions) == ori
  {
    if ori.id != src.id then Success(Verdict(false, ori))
    else
      var older :- if ori.version.Absent? then Success(true) else SemverLt(ori.version, src.version);
      var bumped :=
        if older then ori.(version := OrDefault(ori.version), moduleName := src.moduleName, availableType := NeedUpdate)
        else ori;
      var kept :=
        if src.version.Absent? then bumped
        else bumped.(availableVersions := bumped.availableVersions + [src.version]);
      Success(Verdict(true, kept))
  }

  /** All three resolvers claim exactly the candidates whose id equals the kept
      element's and never change a kept id; the last two leave kept elements of
      other ids alone. */
  lemma ResolversClaimById()
    ensures KeyedBy(ResolveLegacy, IdOf)
    ensures KeyedBy(ResolveBase, IdOf)
    ensures KeyedBy(ResolveVersions, IdOf)
    ensures InertOnMiss(ResolveBase, IdOf)
    ensures InertOnMiss(ResolveVersions, IdOf)
  {
  }

  /** `mergeHardwareListWithLegacy(base, target)`. */
  function MergeHardwareListWithLegacy(base: seq<Descriptor>, target: seq<Descriptor>, platform: string): (r: Result<seq<Descriptor>, Fault>)
    ensures r.Success? <==> Union(base, target, ResolveLegacy).Success?
    ensures r.Success? ==> CatalogOk(r.value, platform)
    ensures r.Success? ==> forall d :: d in r.value <==> d in Union(base, target, ResolveLegacy).value && Supports(d, platform)
    ensures r.Success? ==> forall i :: i in Ids(r.value) ==> i in Ids(base + target)
  {
    var merged :- Union(base, target, ResolveLegacy);
    ResolversClaimById();
    UnionKeys(base, target, ResolveLegacy, IdOf);
    NubFromSpec(Ids(base + target), {});
    FinalizeIsCatalog(merged, platform);
    Success(Finalize(merged, platform))
  }

  /** `mergeHardwareList(base, target)`. */
  function MergeHardwareList(base: seq<Descriptor>, target: seq<Descriptor>, platform: string): (r: Result<seq<Descriptor>, Fault>)
    ensures r.Success? <==> Union(base, target, ResolveBase).Success?
    ensures r.Success? ==> CatalogOk(r.value, platform)
    ensures r.Success? ==> forall d :: d in r.value <==> d in Union(base, target, ResolveBase).value && Supports(d, platform)
    ensures r.Success? ==> forall i :: i in Ids(r.value) ==> i in Ids(base + target)
  {
    var merged :- Union(base, target, ResolveBase);
    ResolversClaimById();
    UnionKeys(base, target, ResolveBase, IdOf);
    NubFromSpec(Ids(base + target), {});
    FinalizeIsCatalog(merged, platform);
    Success(Finalize(merged, platform))
  }

  /** `addOtherVersions(base, target)`. */
  function AddOtherVersions(base: seq<Descriptor>, target: seq<Descriptor>, platform: string): (r: Result<seq<Descriptor>, Fault>)
    ensures r.Success? <==> Union(base, target, ResolveVersions).Success?
    ensures r.Success? ==> CatalogOk(r.value, platform)
    ensures r.Success? ==> forall d :: d in r.value <==> d in Union(base, target, ResolveVersions).value && Supports(d, platform)
    ensures r.Success? ==> forall i :: i in Ids(r.value) ==> i in Ids(base + target)
  {
    var merged :- Union(base, target, ResolveVersions);
    ResolversClaimById();
    UnionKeys(base, target, ResolveVersions, IdOf);
    NubFromSpec(Ids(base + target), {});
    FinalizeIsCatalog(merged, platform);
    Success(Finalize(merged, platform))
  }

  /** Merging a catalog with an empty list changes nothing but the order: the
      union claims nothing, the filter keeps everything, and the sort runs
      again. */
  lemma MergeWithEmptyOnlyResorts(base: seq<Descriptor>, platform: string)
    requires CatalogOk(base, platform)
    ensures MergeHardwareList(base, [], platform) == Success(SortByName(base))
  {
    ResolversClaimById();
    assert base + [] == base;
    UnionOfDistinctIsConcat(base, [], ResolveBase, IdOf);
    FilterKeepsSupported(base, platform);
  }

  /** A target entry whose id is new to the base and unique in the target, and
      which supports the running platform, is published exactly as it came:
      this is how an online-only module reaches the catalog with its
      `needDownload` state. */
  lemma NewEntryIsAppendedUnchanged(base: seq<Descriptor>, target: seq<Descriptor>, i: nat, platform: string)
    requires i < |target|
    requires target[i].id !in Ids(base)
    requires forall j :: 0 <= j < |target| && j != i ==> target[j].id != target[i].id
    requires Supports(target[i], platform)
    ensures MergeHardwareList(base, target, platform).Success? ==>
      target[i] in MergeHardwareList(base, target, platform).value
  {
    if MergeHardwareList(base, target, platform).Success? {
      ResolversClaimById();
      IdOccursOnce(base, target, i);
      UnionKeepsUniqueElement(base, target, |base| + i, ResolveBase, IdOf);
    }
  }

  /** An id new to `base` and found only at `target[i]` occurs in
      `base ++ target` at `|base| + i` alone. */
  lemma IdOccursOnce(base: seq<Descriptor>, target: seq<Descriptor>, i: nat)
    requires i < |target|
    requires target[i].id !in Ids(base)
    requires forall j :: 0 <= j < |target| && j != i ==> target[j].id != target[i].id
    ensures (base + target)[|base| + i] == target[i]
    ensures forall j :: 0 <= j < |base + target| && j != |base| + i ==>
      IdOf((base + target)[j]) != IdOf((base + target)[|base| + i])
  {
    var all := base + target;
    forall j | 0 <= j < |all| && j != |base| + i
      ensures IdOf(all[j]) != IdOf(all[|base| + i])
    {
      if j < |base| {
        assert all[j] == base[j];
        assert Keys(base, IdOf)[j] == IdOf(base[j]);
        assert Ids(base)[j] in Ids(base);
      } else {
        assert all[j] == target[j - |base|];
      }
    }
  }

  /** Inspections of other ids leave a kept element alone in the last two
      merges, and only default its version in the legacy merge. */
  lemma ResolversNormalOnMiss()
    ensures NormalOnMiss(ResolveLegacy, IdOf, Defaulted)
    ensures NormalOnMiss(ResolveBase, IdOf, d => d)
    ensures NormalOnMiss(ResolveVersions, IdOf, d => d)
  {
  }

  /** The only other entry with the id of `base[i]` is `target[j]`, so in
      `base ++ target` that id occurs at `i` and at `|base| + j` alone. */
  lemma IdOccursTwice(base: seq<Descriptor>, target: seq<Descriptor>, i: nat, j: nat)
    requires i < |base| && j < |target| && target[j].id == base[i].id
    requires forall k :: 0 <= k < |base| && k != i ==> base[k].id != base[i].id
    requires forall k :: 0 <= k < |target| && k != j ==> target[k].id != base[i].id
    ensures (base + target)[i] == base[i] && (base + target)[|base| + j] == target[j]
    ensures forall k :: 0 <= k < |base + target| && k != i && k != |base| + j ==>
      IdOf((base + target)[k]) != IdOf((base + target)[i])
  {
    var all := base + target;
    forall k | 0 <= k < |all| && k != i && k != |base| + j
      ensures IdOf(all[k]) != IdOf(all[i])
    {
      if k < |base| {
        assert all[k] == base[k];
      } else {
        assert all[k] == target[k - |base|];
      }
    }
  }

  /** When a legacy entry and a current entry share an id that neither list
      repeats, the legacy merge holds the legacy entry as the resolver left it
      after meeting the current one (its version defaulted, then raised to the
      current one's when not newer), and publishes it when it supports the
      running platform. */
  lemma LegacyMergeCarriesResolution(base: seq<Descriptor>, target: seq<Descriptor>, i: nat, j: nat, platform: string)
    requires i < |base| && j < |target| && target[j].id == base[i].id
    requires forall k :: 0 <= k < |base| && k != i ==> base[k].id != base[i].id
    requires forall k :: 0 <= k < |target| && k != j ==> target[k].id != base[i].id
    ensures Union(base, target, ResolveLegacy).Success? ==>
      && ResolveLegacy(target[j], base[i]).Success?
      && ResolveLegacy(target[j], base[i]).value.kept in Union(base, target, ResolveLegacy).value
      && (Supports(ResolveLegacy(target[j], base[i]).value.kept, platform) ==>
            ResolveLegacy(target[j], base[i]).value.kept in MergeHardwareListWithLegacy(base, target, platform).value)
  {
    if Union(base, target, ResolveLegacy).Success? {
      ResolversClaimById();
      ResolversNormalOnMiss();
      IdOccursTwice(base, target, i, j);
      UnionCarriesResolution(base, target, i, |base| + j, ResolveLegacy, IdOf, Defaulted);
    }
  }

  /** The same for the base merge: the kept entry as `mergeHardwareList`'s
      resolver leaves it (platform widened and moduleName taken when stale). */
  lemma BaseMergeCarriesResolution(base: seq<Descriptor>, target: seq<Descriptor>, i: nat, j: nat, platform: string)
    requires i < |base| && j < |target| && target[j].id == base[i].id
    requires forall k :: 0 <= k < |base| && k != i ==> base[k].id != base[i].id
    requires forall k :: 0 <= k < |target| && k != j ==> target[k].id != base[i].id
    ensures Union(base, target, ResolveBase).Success? ==>
      && ResolveBase(target[j], base[i]).Success?
      && ResolveBase(target[j], base[i]).value.kept in Union(base, target, ResolveBase).value
      && (Supports(ResolveBase(target[j], base[i]).value.kept, platform) ==>
            ResolveBase(target[j], base[i]).value.kept in MergeHardwareList(base, target, platform).value)
  {
    if Union(base, target, ResolveBase).Success? {
      ResolversClaimById();
      ResolversNormalOnMiss();
      IdOccursTwice(base, target, i, j);
      UnionCarriesResolution(base, target, i, |base| + j, ResolveBase, IdOf, d => d);
    }
  }

  /** The same for the version merge: the kept entry with the other entry's
      version appended to `availableVersions`. */
  lemma VersionMergeCarriesResolution(base: seq<Descriptor>, target: seq<Descriptor>, i: nat, j: nat, platform: string)
    requires i < |base| && j < |target| && target[j].id == base[i].id
    requires forall k :: 0 <= k < |base| && k != i ==> base[k].id != base[i].id
    requires forall k :: 0 <= k < |target| && k != j ==> target[k].id != base[i].id
    ensures Union(base, target, ResolveVersions).Success? ==>
      && ResolveVersions(target[j], base[i]).Success?
      && ResolveVersions(target[j], base[i]).value.kept in Union(base, target, ResolveVersions).value
      && (Supports(ResolveVersions(target[j], base[i]).value.kept, platform) ==>
            ResolveVersions(target[j], base[i]).value.kept in AddOtherVersions(base, target, platform).value)
  {
    if Union(base, target, ResolveVersions).Success? {
      ResolversClaimById();
      ResolversNormalOnMiss();
      IdOccursTwice(base, target, i, j);
      UnionCarriesResolution(base, target, i, |base| + j, ResolveVersions, IdOf, d => d);
    }
  }

  /** The versions `addOtherVersions` appends for the entries of `s` with id
      `x`: each present version, in the order of `s`. */
  function VersionsFor(s: seq<Descriptor>, x: string): seq<Version>
    decreases |s|
  {
    if s == [] then []
    else (if s[0].id == x && s[0].version != Absent then [s[0].version] else []) + VersionsFor(s[1..], x)
  }

  /** `s` holds exactly one entry with id `x`, at index `k`. */
  ghost predicate OnlyAt(s: seq<Descriptor>, x: string, k: int)
  {
    && 0 <= k < |s|
    && s[k].id == x
    && forall j :: 0 <= j < |s| && j != k ==> s[j].id != x
  }

  /** One scan by a candidate: the single entry with id `x` stays where it is
      and gains the candidate's version exactly when the candidate has id `x`
      and a present version; a candidate with id `x` is claimed. */
  lemma {:induction false} ScanAccumulates(c: Descriptor, kept: seq<Descriptor>, x: string, k: nat)
    requires OnlyAt(kept, x, k)
    requires Scan(c, kept, ResolveVersions).Success?
    ensures var s := Scan(c, kept, ResolveVersions).value;
      && OnlyAt(s.kept, x, k)
      && s.kept[k].availableVersions
         == kept[k].availableVersions + (if c.id == x && c.version != Absent then [c.version] else [])
      && (c.id == x ==> s.claimed)
    decreases |kept|
  {
    ResolversClaimById();
    var v := ResolveVersions(c, kept[0]).value;
    var s := Scan(c, kept, ResolveVersions).value;
    if v.claimed {
      assert s.kept == [v.kept] + kept[1..];
    } else {
      var rest := Scan(c, kept[1..], ResolveVersions).value;
      assert s.kept == [v.kept] + rest.kept;
      ScanKeys(c, kept[1..], ResolveVersions, IdOf);
      if k == 0 {
        assert c.id != x;
        forall j | 0 <= j < |rest.kept|
          ensures rest.kept[j].id != x
        {
          assert Keys(rest.kept, IdOf)[j] == Keys(kept[1..], IdOf)[j];
          assert kept[1..][j] == kept[j + 1];
        }
      } else {
        assert OnlyAt(kept[1..], x, k - 1) by {
          forall j | 0 <= j < |kept[1..]| && j != k - 1
            ensures kept[1..][j].id != x
          {
            assert kept[1..][j] == kept[j + 1];
          }
        }
        ScanAccumulates(c, kept[1..], x, k - 1);
      }
    }
  }

  /** Folding candidates into a kept list with a single entry of id `x`: the
      entry stays where it is and gains the present versions of the
      candidates with id `x`, in order. */
  lemma {:induction false} FoldAccumulates(kept: seq<Descriptor>, cands: seq<Descriptor>, x: string, k: nat)
    requires OnlyAt(kept, x, k)
    requires Fold(kept, cands, ResolveVersions).Success?
    ensures var r := Fold(kept, cands, ResolveVersions).value;
      OnlyAt(r, x, k) && r[k].availableVersions == kept[k].availableVersions + VersionsFor(cands, x)
    decreases |cands|
  {
    if cands == [] {
      assert kept[k].availableVersions + [] == kept[k].availableVersions;
    } else {
      var c := cands[0];
      var s := Scan(c, kept, ResolveVersions).value;
      ScanAccumulates(c, kept, x, k);
      var next := if s.claimed then s.kept else s.kept + [c];
      assert OnlyAt(next, x, k);
      FoldAccumulates(next, cands[1..], x, k);
      var added := if c.id == x && c.version != Absent then [c.version] else [];
      assert next[k] == s.kept[k];
      assert VersionsFor(cands, x) == added + VersionsFor(cands[1..], x);
      AppendAssoc(kept[k].availableVersions, added, VersionsFor(cands[1..], x));
    }
  }

  /** Version accumulation in `addOtherVersions` when the target repeats an
      id, as the online snapshot does with one entry per published version:
      the base entry with that id gains the present versions of all target
      entries with the id, in target order, and is the union's only entry
      with it. */
  lemma VersionMergeAccumulates(base: seq<Descriptor>, target: seq<Descriptor>, i: nat)
    requires i < |base| && OnlyAt(base, base[i].id, i)
    requires Union(base, target, ResolveVersions).Success?
    ensures var u := Union(base, target, ResolveVersions).value;
      && base[i].id in Ids(u)
      && forall k :: 0 <= k < |u| && u[k].id == base[i].id ==>
           u[k].availableVersions == base[i].availableVersions + VersionsFor(target, base[i].id)
  {
    var x := base[i].id;
    FoldSplit([], base, target, ResolveVersions);
    var k := BaseFoldHoldsOnlyAt(base, i);
    var k1 := Fold([], base, ResolveVersions).value;
    FoldAccumulates(k1, target, x, k);
    var u := Union(base, target, ResolveVersions).value;
    assert u == Fold(k1, target, ResolveVersions).value;
    assert u[k].id == x;
    assert Keys(u, IdOf)[k] == IdOf(u[k]);
  }

  /** Folding the base alone keeps its entry with a unique id, unchanged, as
      the only entry with that id. */
  lemma BaseFoldHoldsOnlyAt(base: seq<Descriptor>, i: nat) returns (k: nat)
    requires i < |base| && OnlyAt(base, base[i].id, i)
    requires Fold([], base, ResolveVersions).Success?
    ensures OnlyAt(Fold([], base, ResolveVersions).value, base[i].id, k)
    ensures Fold([], base, ResolveVersions).value[k] == base[i]
  {
    var x := base[i].id;
    ResolversClaimById();
    var k1 := Fold([], base, ResolveVersions).value;
    assert Keys([], IdOf) == [];
    FoldKeepsUniqueCandidate([], base, i, ResolveVersions, IdOf);
    FoldFromEmptyKeepsKeysDistinct(base, ResolveVersions, IdOf);
    k :| 0 <= k < |k1| && k1[k] == base[i];
    forall j | 0 <= j < |k1| && j != k
      ensures k1[j].id != x
    {
      assert Keys(k1, IdOf)[j] == k1[j].id && Keys(k1, IdOf)[k] == x;
    }
  }
}
