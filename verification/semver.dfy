/** Version strings as the `semver` package sees them, reduced to the
    MAJOR.MINOR.PATCH core of Semantic Versioning 2.0.0 (section 2), with
    precedence as in section 11. */
module Semver {
  import opened Wrappers

  /** `Absent` is a missing or empty (falsy) version field; `Valid` is a string
      `valid()` accepts, kept as its parsed core; `Invalid` is any other string,
      for which `valid()` returns null. */
  datatype Version = Absent | Valid(major: nat, minor: nat, patch: nat) | Invalid(raw: string)

  /** The '1.0.0' the merges substitute for a missing version. */
  const DefaultVersion: Version := Valid(1, 0, 0)

  /** `version || '1.0.0'`. */
  function OrDefault(v: Version): (r: Version)
    ensures r != Absent
    ensures v == Absent ==> r == DefaultVersion
    ensures v != Absent ==> r == v
  {
    if v.Absent? then DefaultVersion else v
  }

  /** Precedence of section 11 of Semantic Versioning 2.0.0 on version cores:
      compare major, then minor, then patch, numerically. */
  predicate Precedes(a: Version, b: Version)
  {
    && a.Valid? && b.Valid?
    && (|| a.major < b.major
        || (a.major == b.major && a.minor < b.minor)
        || (a.major == b.major && a.minor == b.minor && a.patch < b.patch))
  }

  /** Three-way comparison of two naturals, as `compareIdentifiers` does for
      numeric identifiers. */
  function CompareNat(a: nat, b: nat): int
  {
    if a < b then -1 else if a > b then 1 else 0
  }

  /** `compare(a, b)` of the `semver` package on version cores: the first
      non-zero of the major, minor and patch comparisons. `None` where an
      argument is null, for which the package throws. */
  function CompareVersions(a: Version, b: Version): (r: Option<int>)
    ensures r.Some? <==> a.Valid? && b.Valid?
    ensures r.Some? ==> -1 <= r.value <= 1
    ensures r.Some? ==> (r.value < 0 <==> Precedes(a, b))
    ensures r.Some? ==> (r.value == 0 <==> a == b)
    ensures r.Some? ==> (r.value > 0 <==> Precedes(b, a))
  {
    if a.Valid? && b.Valid? then
      var major := CompareNat(a.major, b.major);
      var minor := CompareNat(a.minor, b.minor);
      var patch := CompareNat(a.patch, b.patch);
      Some(if major != 0 then major else if minor != 0 then minor else patch)
    else None
  }

  /** `lt(valid(a), valid(b))`: `compare(a, b) < 0`, throwing (`None`) when
      either argument is null. */
  function Lt(a: Version, b: Version): (r: Option<bool>)
    ensures r.Some? <==> a.Valid? && b.Valid?
    ensures r.Some? ==> (r.value <==> Precedes(a, b))
  {
    match CompareVersions(a, b)
    case Some(c) => Some(c < 0)
    case None => None
  }

  /** `eq(valid(a), valid(b))`: `compare(a, b) == 0`, throwing like `Lt`. */
  function Eq(a: Version, b: Version): (r: Option<bool>)
    ensures r.Some? <==> a.Valid? && b.Valid?
    ensures r.Some? ==> (r.value <==> !Precedes(a, b) && !Precedes(b, a))
    ensures r.Some? ==> (r.value <==> a == b)
  {
    match CompareVersions(a, b)
    case Some(c) => Some(c == 0)
    case None => None
  }

  /** Swapping the arguments negates the comparison. */
  lemma CompareVersionsIsAntisymmetric(a: Version, b: Version)
    requires a.Valid? && b.Valid?
    ensures CompareVersions(a, b).value == -CompareVersions(b, a).value
  {
  }

  /** For two valid versions exactly one of `lt(a, b)`, `eq(a, b)` and
      `lt(b, a)` holds. */
  lemma LtEqTrichotomy(a: Version, b: Version)
    requires a.Valid? && b.Valid?
    ensures Lt(a, b).Some? && Eq(a, b).Some? && Lt(b, a).Some?
    ensures Lt(a, b).value || Eq(a, b).value || Lt(b, a).value
    ensures !(Lt(a, b).value && Eq(a, b).value)
    ensures !(Lt(a, b).value && Lt(b, a).value)
    ensures !(Eq(a, b).value && Lt(b, a).value)
  {
  }

  /** Precedence is a strict total order on valid versions. */
  lemma PrecedesIsStrictTotalOrder(a: Version, b: Version, c: Version)
    requires a.Valid? && b.Valid? && c.Valid?
    ensures !Precedes(a, a)
    ensures Precedes(a, b) && Precedes(b, c) ==> Precedes(a, c)
    ensures a == b || Precedes(a, b) || Precedes(b, a)
    ensures !(Precedes(a, b) && Precedes(b, a))
  {
  }
}
