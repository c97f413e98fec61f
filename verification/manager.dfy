/** The hardware list manager: the published list, the last online snapshot,
    change notification, lookup by id, and the `updateHardwareList` pipeline
    as a pure function from the manager's state and its inputs to the next
    state. */
module HardwareListManager {
  import opened Wrappers
  import opened Seqs
  import opened Descriptors
  import opened Ordering
  import opened Merges
  import opened OnlineModules

  /** The 'hardwareListChanged' event sent to the main window. */
  datatype Event = HardwareListChanged

  /** The manager's state. `hasRouter` says whether a router was given to the
      constructor; `sent` is every event sent to the main window so far. */
  datatype Manager = Manager(
    hasRouter: bool,
    allHardwareList: seq<Descriptor>,
    allOnlineModuleList: seq<Descriptor>,
    sent: seq<Event>)

  /** The constructor: both lists start empty. */
  function NewManager(hasRouter: bool): (m: Manager)
    ensures m.allHardwareList == [] && m.allOnlineModuleList == [] && m.sent == []
    ensures m.hasRouter == hasRouter
  {
    Manager(hasRouter, [], [], [])
  }

  /** `notifyHardwareListChanged`: exactly one event when a router exists, none
      otherwise; nothing else changes. */
  function Notify(m: Manager): (r: Manager)
    ensures r.hasRouter == m.hasRouter && r.allHardwareList == m.allHardwareList
    ensures r.allOnlineModuleList == m.allOnlineModuleList
    ensures |r.sent| == |m.sent| + (if m.hasRouter then 1 else 0)
    ensures r.sent[..|m.sent|] == m.sent
    ensures forall i :: |m.sent| <= i < |r.sent| ==> r.sent[i] == HardwareListChanged
  {
    if m.hasRouter then m.(sent := m.sent + [HardwareListChanged]) else m
  }

  /** `updateAndNotifyHardwareListChanged`: the whole list is replaced, then
      the change is announced. */
  function Publish(m: Manager, list: seq<Descriptor>): (r: Manager)
    ensures r.allHardwareList == list
    ensures r.hasRouter == m.hasRouter && r.allOnlineModuleList == m.allOnlineModuleList
    ensures |r.sent| == |m.sent| + (if m.hasRouter then 1 else 0)
    ensures r.sent[..|m.sent|] == m.sent
    ensures forall i :: |m.sent| <= i < |r.sent| ==> r.sent[i] == HardwareListChanged
  {
    Notify(m.(allHardwareList := list))
  }

  /** The index of the first element with the given id, if any. */
  function FirstIndexWithId(s: seq<Descriptor>, id: string): (r: Option<nat>)
    ensures r.Some? ==> r.value < |s| && s[r.value].id == id
    ensures r.Some? ==> forall j :: 0 <= j < r.value ==> s[j].id != id
    ensures r.None? ==> forall d :: d in s ==> d.id != id
    decreases |s|
  {
    if s == [] then None
    else if s[0].id == id then Some(0)
    else match FirstIndexWithId(s[1..], id)
      case None => None
      case Some(k) => Some(k + 1)
  }

  /** `getHardwareById`: the first published element with that id, or nothing. */
  function GetHardwareById(m: Manager, id: string): (r: Option<Descriptor>)
    ensures r.Some? ==> r.value in m.allHardwareList && r.value.id == id
    ensures r.Some? ==> exists i :: 0 <= i < |m.allHardwareList| && m.allHardwareList[i] == r.value
                                   && forall j :: 0 <= j < i ==> m.allHardwareList[j].id != id
    ensures r.None? <==> forall d :: d in m.allHardwareList ==> d.id != id
  {
    match FirstIndexWithId(m.allHardwareList, id)
    case None => None
    case Some(i) => Some(m.allHardwareList[i])
  }

  /** After a publish, a lookup finds the first entry of the new list with
      that id, or nothing when the new list has none, whatever the old list
      held. */
  lemma LookupAfterPublish(m: Manager, list: seq<Descriptor>, id: string)
    ensures FirstIndexWithId(list, id).Some? ==>
      GetHardwareById(Publish(m, list), id) == Some(list[FirstIndexWithId(list, id).value])
    ensures FirstIndexWithId(list, id).None? ==> GetHardwareById(Publish(m, list), id).None?
  {
  }

  /** In a published catalog ids are distinct, so the element found is the
      only one with that id. */
  lemma LookupInCatalogIsUnique(m: Manager, id: string, platform: string)
    requires CatalogOk(m.allHardwareList, platform)
    ensures forall d :: d in m.allHardwareList && d.id == id ==> GetHardwareById(m, id) == Some(d)
  {
    var s := m.allHardwareList;
    forall d | d in s && d.id == id
      ensures GetHardwareById(m, id) == Some(d)
    {
      var k := FirstIndexWithId(s, id).value;
      var i :| 0 <= i < |s| && s[i] == d;
      assert Keys(s, IdOf)[i] == IdOf(s[i]) && Keys(s, IdOf)[k] == IdOf(s[k]);
    }
  }

  /** The local stage: the legacy merge of the two disk lists, then the merge
      with the caller's `source`. */
  function LocalStage(legacy: seq<Descriptor>, current: seq<Descriptor>, source: seq<Descriptor>, platform: string): (r: Result<seq<Descriptor>, Fault>)
    ensures r.Success? ==> CatalogOk(r.value, platform)
  {
    var availables :- MergeHardwareListWithLegacy(legacy, current, platform);
    MergeHardwareList(availables, source, platform)
  }

  /** The online stage: the published list merged with the de-duplicated
      online list, then every online entry's version recorded by
      `addOtherVersions`. */
  function OnlineStage(published: seq<Descriptor>, fetched: Fetched, platform: string): (r: Result<seq<Descriptor>, Fault>)
    ensures r.Success? ==> CatalogOk(r.value, platform)
  {
    var onlineMerged :- MergeHardwareList(published, fetched.list, platform);
    AddOtherVersions(onlineMerged, fetched.snapshot, platform)
  }

  /** `updateHardwareList(source)`. `legacy` and `current` are what the two
      disk loaders return, `fetch` what `getModuleList` resolves to (`None` if
      it throws), `platform` is `process.platform`. A throw in either stage is
      caught and logged, ending the update: what was published before it
      stays. */
  function UpdateHardwareList(
    m: Manager, legacy: seq<Descriptor>, current: seq<Descriptor>, source: seq<Descriptor>,
    fetch: Option<seq<OnlineSchema>>, platform: string): (r: Manager)
    ensures r.hasRouter == m.hasRouter
    ensures LocalStage(legacy, current, source, platform).Failure? ==> r == m
    ensures LocalStage(legacy, current, source, platform).Success? ==>
      && CatalogOk(r.allHardwareList, platform)
      && r.allOnlineModuleList == GetHardwareModulesFromOnline(fetch, m.allOnlineModuleList).snapshot
    ensures fetch.None? ==> r.allOnlineModuleList == m.allOnlineModuleList
    ensures |m.sent| <= |r.sent| <= |m.sent| + 2
    ensures r.sent[..|m.sent|] == m.sent
    ensures forall i :: |m.sent| <= i < |r.sent| ==> r.sent[i] == HardwareListChanged
    ensures !m.hasRouter ==> r.sent == m.sent
  {
    match LocalStage(legacy, current, source, platform)
    case Failure(_) => m
    case Success(localMerged) =>
      var m1 := Publish(m, localMerged);
      var fetched := GetHardwareModulesFromOnline(fetch, m1.allOnlineModuleList);
      var m2 := m1.(allOnlineModuleList := fetched.snapshot);
      match OnlineStage(m2.allHardwareList, fetched, platform)
      case Failure(_) => m2
      case Success(completeList) => Publish(m2, completeList)
  }

  /** The three outcomes of one update: nothing published, only the local
      list published (the online stage threw), or both published, the second
      replacing the first. */
  lemma UpdateOutcomes(
    m: Manager, legacy: seq<Descriptor>, current: seq<Descriptor>, source: seq<Descriptor>,
    fetch: Option<seq<OnlineSchema>>, platform: string)
    ensures var r := UpdateHardwareList(m, legacy, current, source, fetch, platform);
      match LocalStage(legacy, current, source, platform)
      case Failure(_) => r.sent == m.sent
      case Success(localMerged) =>
        var fetched := GetHardwareModulesFromOnline(fetch, m.allOnlineModuleList);
        match OnlineStage(localMerged, fetched, platform)
        case Failure(_) =>
          && r.allHardwareList == localMerged
          && |r.sent| == |m.sent| + (if m.hasRouter then 1 else 0)
        case Success(completeList) =>
          && r.allHardwareList == completeList
          && |r.sent| == |m.sent| + (if m.hasRouter then 2 else 0)
  {
  }

  /** A failed fetch means an empty online list and a reused snapshot, so the
      final list is the local list merged with nothing and then with the
      previous snapshot's versions. */
  lemma FetchFailureReusesSnapshot(
    m: Manager, legacy: seq<Descriptor>, current: seq<Descriptor>, source: seq<Descriptor>, platform: string)
    ensures LocalStage(legacy, current, source, platform).Success? ==>
      var localMerged := LocalStage(legacy, current, source, platform).value;
      var r := UpdateHardwareList(m, legacy, current, source, None, platform);
      && r.allOnlineModuleList == m.allOnlineModuleList
      && (AddOtherVersions(SortByName(localMerged), m.allOnlineModuleList, platform).Success? ==>
            r.allHardwareList == AddOtherVersions(SortByName(localMerged), m.allOnlineModuleList, platform).value)
  {
    if LocalStage(legacy, current, source, platform).Success? {
      var localMerged := LocalStage(legacy, current, source, platform).value;
      MergeWithEmptyOnlyResorts(localMerged, platform);
    }
  }

  /** Running the update a second time with the same inputs publishes the
      same lists again. */
  lemma UpdateIsIdempotent(
    m: Manager, legacy: seq<Descriptor>, current: seq<Descriptor>, source: seq<Descriptor>,
    fetch: Option<seq<OnlineSchema>>, platform: string)
    ensures var r1 := UpdateHardwareList(m, legacy, current, source, fetch, platform);
      var r2 := UpdateHardwareList(r1, legacy, current, source, fetch, platform);
      r2.allHardwareList == r1.allHardwareList && r2.allOnlineModuleList == r1.allOnlineModuleList
  {
    var r1 := UpdateHardwareList(m, legacy, current, source, fetch, platform);
    if LocalStage(legacy, current, source, platform).Success? {
      var fetched1 := GetHardwareModulesFromOnline(fetch, m.allOnlineModuleList);
      var fetched2 := GetHardwareModulesFromOnline(fetch, r1.allOnlineModuleList);
      assert fetched1 == fetched2;
    }
  }

  /** Every published list is a catalog: an update keeps the invariant. */
  lemma UpdateKeepsCatalog(
    m: Manager, legacy: seq<Descriptor>, current: seq<Descriptor>, source: seq<Descriptor>,
    fetch: Option<seq<OnlineSchema>>, platform: string)
    requires CatalogOk(m.allHardwareList, platform)
    ensures CatalogOk(UpdateHardwareList(m, legacy, current, source, fetch, platform).allHardwareList, platform)
  {
  }
}
