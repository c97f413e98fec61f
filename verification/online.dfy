/** The online registry side: `onlineModuleSchemaModifier`, the first-seen
    de-duplication by moduleName, and `getHardwareModulesFromOnline`. */
module OnlineModules {
  import opened Wrappers
  import opened Seqs
  import opened Semver
  import opened Descriptors

  /** The `properties` object of a schema, as a shallow overlay: a `Some` field
      overrides the descriptor's, a `None` field leaves it alone. */
  datatype Overlay = Overlay(
    id: Option<string>,
    name: Option<Name>,
    moduleName: Option<string>,
    version: Option<Version>,
    platform: Option<seq<string>>,
    availableType: Option<AvailableType>,
    availableVersions: Option<seq<Version>>,
    extras: map<string, string>)

  /** One schema as the registry returns it. `extras` holds its other fields,
      `files` among them. */
  datatype OnlineSchema = OnlineSchema(
    id: string,
    title: Name,
    moduleName: Option<string>,
    version: Version,
    platform: Option<seq<string>>,
    properties: Overlay,
    extras: map<string, string>)

  function Override<T>(over: Option<T>, base: T): T
  {
    if over.Some? then over.value else base
  }

  /** `merge(d, o)`, one level deep: a field the overlay carries wins, a field
      it leaves undefined keeps the descriptor's value, and the extra fields of
      both are united with the overlay's winning. */
  function ApplyOverlay(d: Descriptor, o: Overlay): (r: Descriptor)
    ensures forall k :: k in r.extras <==> k in d.extras || k in o.extras
    ensures forall k :: k in o.extras ==> r.extras[k] == o.extras[k]
    ensures forall k :: k in d.extras && k !in o.extras ==> r.extras[k] == d.extras[k]
  {
    Descriptor(
      Override(o.id, d.id),
      Override(o.name, d.name),
      if o.moduleName.Some? then o.moduleName else d.moduleName,
      Override(o.version, d.version),
      if o.platform.Some? then o.platform else d.platform,
      Override(o.availableType, d.availableType),
      Override(o.availableVersions, d.availableVersions),
      d.extras + o.extras)
  }

  /** The overlay that sets nothing. */
  const EmptyOverlay: Overlay := Overlay(None, None, None, None, None, None, None, map[])

  /** Merging with an overlay that sets nothing leaves the descriptor as it
      was. */
  lemma EmptyOverlayChangesNothing(d: Descriptor)
    ensures ApplyOverlay(d, EmptyOverlay) == d
  {
    assert d.extras + map[] == d.extras;
  }

  /** Merging the same overlay twice is merging it once. */
  lemma OverlayIsIdempotent(d: Descriptor, o: Overlay)
    ensures ApplyOverlay(ApplyOverlay(d, o), o) == ApplyOverlay(d, o)
  {
    var once := ApplyOverlay(d, o);
    assert once.extras + o.extras == once.extras;
  }

  /** `onlineModuleSchemaModifier`: the title becomes the name, the entry is
      marked as needing a download, `title` and `files` are dropped, and then
      `properties` is laid over the result, so it can override anything,
      including re-adding a `title` or `files` field. */
  function Normalize(s: OnlineSchema): (d: Descriptor)
    ensures d.name == (if s.properties.name.Some? then s.properties.name.value else s.title)
    ensures d.availableType == (if s.properties.availableType.Some? then s.properties.availableType.value else NeedDownload)
    ensures ("title" in d.extras <==> "title" in s.properties.extras)
    ensures ("files" in d.extras <==> "files" in s.properties.extras)
    ensures forall k :: k in d.extras <==> k in s.properties.extras || (k in s.extras && k != "title" && k != "files")
    ensures forall k :: k in s.properties.extras ==> d.extras[k] == s.properties.extras[k]
    ensures forall k :: k in s.extras && k !in s.properties.extras && k != "title" && k != "files" ==> d.extras[k] == s.extras[k]
    ensures d.id == (if s.properties.id.Some? then s.properties.id.value else s.id)
    ensures d.moduleName == (if s.properties.moduleName.Some? then s.properties.moduleName else s.moduleName)
    ensures d.version == (if s.properties.version.Some? then s.properties.version.value else s.version)
    ensures d.platform == (if s.properties.platform.Some? then s.properties.platform else s.platform)
    ensures d.availableVersions == (if s.properties.availableVersions.Some? then s.properties.availableVersions.value else [])
  {
    var swap := Descriptor(s.id, s.title, s.moduleName, s.version, s.platform, NeedDownload, [], s.extras - {"title", "files"});
    ApplyOverlay(swap, s.properties)
  }

  function ModuleNameOf(d: Descriptor): Option<string>
  {
    d.moduleName
  }

  function ModuleNames(s: seq<Descriptor>): seq<Option<string>>
  {
    Keys(s, ModuleNameOf)
  }

  /** First-seen de-duplication by moduleName, with the names in `seen`
      already taken. A missing moduleName is a name like any other. */
  function DedupFrom(xs: seq<Descriptor>, seen: set<Option<string>>): (r: seq<Descriptor>)
    ensures |r| <= |xs|
    ensures forall d :: d in r ==> d in xs && d.moduleName !in seen
    decreases |xs|
  {
    if xs == [] then []
    else if xs[0].moduleName in seen then DedupFrom(xs[1..], seen)
    else [xs[0]] + DedupFrom(xs[1..], seen + {xs[0].moduleName})
  }

  function FirstPerModuleName(xs: seq<Descriptor>): seq<Descriptor>
  {
    DedupFrom(xs, {})
  }

  /** No earlier entry has the same moduleName. */
  ghost predicate FirstOfItsName(xs: seq<Descriptor>, i: int)
    requires 0 <= i < |xs|
  {
    forall j :: 0 <= j < i ==> xs[j].moduleName != xs[i].moduleName
  }

  lemma {:induction false} DedupFromSpec(xs: seq<Descriptor>, seen: set<Option<string>>)
    ensures IsSubsequence(DedupFrom(xs, seen), xs)
    ensures ModuleNames(DedupFrom(xs, seen)) == NubFrom(ModuleNames(xs), seen)
    ensures forall i :: 0 <= i < |xs| && xs[i].moduleName !in seen && FirstOfItsName(xs, i) ==> xs[i] in DedupFrom(xs, seen)
    decreases |xs|
  {
    if xs != [] {
      var x := xs[0];
      var tail := xs[1..];
      assert xs == [x] + tail;
      KeysConcat([x], tail, ModuleNameOf);
      KeysSingleton(x, ModuleNameOf);
      var seen' := if x.moduleName in seen then seen else seen + {x.moduleName};
      DedupFromSpec(tail, seen');
      if x.moduleName !in seen {
        KeysConcat([x], DedupFrom(tail, seen'), ModuleNameOf);
        assert ([x] + DedupFrom(tail, seen'))[1..] == DedupFrom(tail, seen');
      }
      forall i | 0 <= i < |xs| && xs[i].moduleName !in seen && FirstOfItsName(xs, i)
        ensures xs[i] in DedupFrom(xs, seen)
      {
        if i > 0 {
          assert tail[i - 1] == xs[i];
          assert xs[i].moduleName != x.moduleName;
          assert FirstOfItsName(tail, i - 1) by {
            forall j | 0 <= j < i - 1
              ensures tail[j].moduleName != tail[i - 1].moduleName
            {
              assert tail[j] == xs[j + 1];
            }
          }
        }
      }
    }
  }

  /** The de-duplicated list is an order-preserving subsequence of its input
      whose moduleNames are those of the input in first-occurrence order
      (so pairwise distinct, and covering every moduleName of the input). */
  lemma FirstPerModuleNameSpec(xs: seq<Descriptor>)
    ensures IsSubsequence(FirstPerModuleName(xs), xs)
    ensures ModuleNames(FirstPerModuleName(xs)) == Nub(ModuleNames(xs))
    ensures Distinct(ModuleNames(FirstPerModuleName(xs)))
  {
    var none: set<Option<string>> := {};
    var r := DedupFrom(xs, none);
    DedupFromSpec(xs, none);
    NubSpec(ModuleNames(xs));
    assert FirstPerModuleName(xs) == r;
    assert ModuleNames(r) == Nub(ModuleNames(xs));
  }

  /** Each entry that is the first of its moduleName survives the de-duplication. */
  lemma FirstPerModuleNameKeepsFirsts(xs: seq<Descriptor>, i: nat)
    requires i < |xs| && FirstOfItsName(xs, i)
    ensures xs[i] in FirstPerModuleName(xs)
  {
    var none: set<Option<string>> := {};
    DedupFromSpec(xs, none);
    assert xs[i].moduleName !in none;
  }

  /** The de-duplication loop, with its `Set` of names already found. */
  method DedupByModuleName(xs: seq<Descriptor>) returns (onlineList: seq<Descriptor>)
    ensures onlineList == FirstPerModuleName(xs)
    ensures IsSubsequence(onlineList, xs)
    ensures Distinct(ModuleNames(onlineList))
  {
    onlineList := [];
    var found: set<Option<string>> := {};
    var i := 0;
    while i < |xs|
      invariant 0 <= i <= |xs|
      invariant onlineList + DedupFrom(xs[i..], found) == DedupFrom(xs, {})
    {
      assert xs[i..] == [xs[i]] + xs[i + 1..];
      if xs[i].moduleName !in found {
        found := found + {xs[i].moduleName};
        onlineList := onlineList + [xs[i]];
      }
      i := i + 1;
    }
    assert xs[i..] == [];
    FirstPerModuleNameSpec(xs);
  }

  /** What `getHardwareModulesFromOnline` returns (`list`) and leaves in
      `allOnlineModuleList` (`snapshot`). */
  datatype Fetched = Fetched(list: seq<Descriptor>, snapshot: seq<Descriptor>)

  /** `getHardwareModulesFromOnline`, with the fetch result as input (`None`
      when `getModuleList` throws). A failed fetch yields the empty list and
      keeps the previous snapshot; a successful one replaces the snapshot with
      every normalised schema and returns the first entry per moduleName. */
  function GetHardwareModulesFromOnline(fetch: Option<seq<OnlineSchema>>, previous: seq<Descriptor>): (r: Fetched)
    ensures fetch.None? ==> r.list == [] && r.snapshot == previous
    ensures fetch.Some? ==> |r.snapshot| == |fetch.value|
    ensures fetch.Some? ==> forall i :: 0 <= i < |fetch.value| ==> r.snapshot[i] == Normalize(fetch.value[i])
    ensures fetch.Some? ==> IsSubsequence(r.list, r.snapshot) && Distinct(ModuleNames(r.list))
    ensures fetch.Some? ==> ModuleNames(r.list) == Nub(ModuleNames(r.snapshot))
    ensures fetch.Some? ==> r.list == FirstPerModuleName(r.snapshot)
  {
    match fetch
    case None => Fetched([], previous)
    case Some(schemas) =>
      var all := seq(|schemas|, i requires 0 <= i < |schemas| => Normalize(schemas[i]));
      FirstPerModuleNameSpec(all);
      Fetched(FirstPerModuleName(all), all)
  }
}
