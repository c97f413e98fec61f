/** The hardware-module descriptor (`IHardwareConfig`) and the vocabulary the
    merges share: its id, the running-platform test and the invariant of a
    published catalog. */
module Descriptors {
  import opened Wrappers
  import opened Seqs
  import opened Semver

  /** `AvailableTypes`: installed, downloadable, or installed with a newer
      version online. */
  datatype AvailableType = Available | NeedDownload | NeedUpdate

  /** The `name` field: missing, a plain string, or a localised object. */
  datatype Name = Unnamed | Plain(text: string) | Localized(ko: Option<string>, en: Option<string>)

  /** One descriptor. `platform` is `None` when the field is missing; an absent
      `availableVersions` is the empty sequence; `extras` holds the opaque
      module-specific fields by name. */
  datatype Descriptor = Descriptor(
    id: string,
    name: Name,
    moduleName: Option<string>,
    version: Version,
    platform: Option<seq<string>>,
    availableType: AvailableType,
    availableVersions: seq<Version>,
    extras: map<string, string>)

  /** Why an update aborts: `semver` rejecting a null version, or reading
      `.length` of a missing `platform`. */
  datatype Fault = SemverTypeError | PlatformLengthOfUndefined

  function IdOf(d: Descriptor): string
  {
    d.id
  }

  function Ids(s: seq<Descriptor>): seq<string>
  {
    Keys(s, IdOf)
  }

  /** `Array.prototype.indexOf`: the first index holding `x`, or -1. */
  function IndexOf(s: seq<string>, x: string): (r: int)
    ensures -1 <= r < |s|
    ensures r == -1 <==> x !in s
    ensures r >= 0 ==> s[r] == x && forall j :: 0 <= j < r ==> s[j] != x
    decreases |s|
  {
    if s == [] then -1
    else if s[0] == x then 0
    else
      var i := IndexOf(s[1..], x);
      if i < 0 then -1 else i + 1
  }

  /** `platformFilter`: the `platform` field exists and `indexOf` finds the
      running platform in it. */
  predicate Supports(d: Descriptor, platform: string): (b: bool)
    ensures b <==> d.platform.Some? && platform in d.platform.value
  {
    d.platform.Some? && IndexOf(d.platform.value, platform) > -1
  }

  /** What every published list satisfies: ids are pairwise distinct and every
      entry supports the running platform. */
  ghost predicate CatalogOk(s: seq<Descriptor>, platform: string)
  {
    && Distinct(Ids(s))
    && forall d :: d in s ==> Supports(d, platform)
  }
}
