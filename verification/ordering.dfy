/** `platformFilter`, `nameSortComparator` and the sort that follows every
    merge. The comparator is modelled as written, including its right-hand
    fallback to the LEFT operand's name. */
module Ordering {
  import opened Wrappers
  import opened Seqs
  import opened Descriptors

  /** The characters `String.prototype.trim` removes: ECMAScript WhiteSpace and
      LineTerminator. */
  predicate IsJsSpace(c: char)
  {
    || c == ' ' || c == '\t' || c == '\n' || c == '\r'
    || c == '\U{B}' || c == '\U{C}' || c == '\U{A0}' || c == '\U{FEFF}'
    || c == '\U{1680}' || ('\U{2000}' <= c <= '\U{200A}')
    || c == '\U{2028}' || c == '\U{2029}' || c == '\U{202F}'
    || c == '\U{205F}' || c == '\U{3000}'
  }

  function TrimStart(s: string): (r: string)
    ensures |r| <= |s| && r == s[|s| - |r|..]
    ensures r == [] || !IsJsSpace(r[0])
    ensures forall i :: 0 <= i < |s| - |r| ==> IsJsSpace(s[i])
    decreases |s|
  {
    if s != [] && IsJsSpace(s[0]) then TrimStart(s[1..]) else s
  }

  function TrimEnd(s: string): (r: string)
    ensures |r| <= |s| && r == s[..|r|]
    ensures r == [] || !IsJsSpace(r[|r| - 1])
    ensures forall i :: |r| <= i < |s| ==> IsJsSpace(s[i])
    decreases |s|
  {
    if s != [] && IsJsSpace(s[|s| - 1]) then TrimEnd(s[..|s| - 1]) else s
  }

  /** Every character of `s` is white space. */
  predicate AllSpace(s: string)
  {
    forall i :: 0 <= i < |s| ==> IsJsSpace(s[i])
  }

  /** `String.prototype.trim`: `s` with its leading and trailing white space
      removed, so that what is left neither starts nor ends with white space,
      and is empty exactly when `s` is all white space. */
  function Trim(s: string): (r: string)
    ensures r == [] || (!IsJsSpace(r[0]) && !IsJsSpace(r[|r| - 1]))
    ensures r == [] <==> AllSpace(s)
  {
    TrimEmptyIffAllSpace(s);
    var t := TrimStart(s);
    var r := TrimEnd(t);
    assert r != [] ==> t != [] && r[0] == t[0];
    r
  }

  lemma AllSpaceConcat(a: string, b: string)
    ensures AllSpace(a + b) <==> AllSpace(a) && AllSpace(b)
  {
    forall i | 0 <= i < |a|
      ensures (a + b)[i] == a[i]
    {
    }
    forall i | 0 <= i < |b|
      ensures (a + b)[|a| + i] == b[i]
    {
    }
    if AllSpace(a) && AllSpace(b) {
      forall i | 0 <= i < |a + b|
        ensures IsJsSpace((a + b)[i])
      {
        if i >= |a| {
          assert (a + b)[i] == b[i - |a|];
        }
      }
    }
  }

  /** The leading white space and the rest of `s`. */
  lemma TrimStartSplit(s: string)
    ensures s == s[..|s| - |TrimStart(s)|] + TrimStart(s)
    ensures AllSpace(s[..|s| - |TrimStart(s)|])
  {
    var t := TrimStart(s);
    var n := |s| - |t|;
    var lead := s[..n];
    assert s == lead + s[n..];
    forall i | 0 <= i < |lead|
      ensures IsJsSpace(lead[i])
    {
      assert lead[i] == s[i];
    }
  }

  /** The trimmed string and the trailing white space. */
  lemma TrimEndSplit(t: string)
    ensures t == TrimEnd(t) + t[|TrimEnd(t)|..]
    ensures AllSpace(t[|TrimEnd(t)|..])
  {
    var r := TrimEnd(t);
    var trail := t[|r|..];
    assert t == t[..|r|] + trail;
    forall i | 0 <= i < |trail|
      ensures IsJsSpace(trail[i])
    {
      assert trail[i] == t[|r| + i];
    }
  }

  lemma TrimEmptyIffAllSpace(s: string)
    ensures TrimEnd(TrimStart(s)) == [] <==> AllSpace(s)
  {
    var t := TrimStart(s);
    TrimStartSplit(s);
    AllSpaceConcat(s[..|s| - |t|], t);
    if TrimEnd(t) == [] {
      TrimEndSplit(t);
      assert t == t[0..];
    } else {
      assert !IsJsSpace(t[0]);
    }
  }

  /** `s` is its leading white space, then the trimmed string, then its
      trailing white space. */
  lemma TrimParts(s: string)
    ensures |Trim(s)| <= |TrimStart(s)| <= |s|
    ensures s == s[..|s| - |TrimStart(s)|] + Trim(s) + TrimStart(s)[|Trim(s)|..]
    ensures AllSpace(s[..|s| - |TrimStart(s)|]) && AllSpace(TrimStart(s)[|Trim(s)|..])
  {
    var t := TrimStart(s);
    TrimStartSplit(s);
    TrimEndSplit(t);
    ThreeParts(s, s[..|s| - |t|], t, TrimEnd(t), t[|TrimEnd(t)|..]);
  }

  lemma ThreeParts(s: string, lead: string, t: string, r: string, trail: string)
    requires s == lead + t && t == r + trail
    ensures s == lead + r + trail
  {
  }

  /** Trimming twice trims no more than trimming once. */
  lemma TrimIsIdempotent(s: string)
    ensures Trim(Trim(s)) == Trim(s)
  {
    var r := Trim(s);
    assert TrimStart(r) == r;
    assert TrimEnd(r) == r;
  }

  /** What a relational operator sees of a name: a string, or `undefined`. An
      object operand is converted to the string "[object Object]". */
  datatype Operand = Text(s: string) | Undefined

  function RawName(n: Name): Operand
  {
    match n
    case Unnamed => Undefined
    case Plain(s) => Text(s)
    case Localized(_, _) => Text("[object Object]")
  }

  /** `name?.ko?.trim()` when that is a non-empty string. */
  function KoName(n: Name): (r: Option<string>)
    ensures r.Some? <==> n.Localized? && n.ko.Some? && !AllSpace(n.ko.value)
    ensures r.Some? ==> r.value != [] && !IsJsSpace(r.value[0]) && !IsJsSpace(r.value[|r.value| - 1])
    ensures r.Some? ==> n.Localized? && n.ko.Some? && r.value == Trim(n.ko.value)
  {
    if n.Localized? && n.ko.Some? then
      var t := Trim(n.ko.value);
      if t != [] then
        assert !IsJsSpace(t[0]) && !IsJsSpace(t[|t| - 1]);
        Some(t)
      else None
    else None
  }

  /** A descriptor's sort key: the trimmed Korean name if non-empty, else the
      raw `name`; a localised name without a usable Korean text is an object,
      which compares as "[object Object]". */
  function SortKey(d: Descriptor): (r: Operand)
    ensures r.Undefined? <==> d.name.Unnamed?
    ensures KoName(d.name).Some? ==> r == Text(KoName(d.name).value)
    ensures d.name.Plain? ==> r == Text(d.name.text)
    ensures d.name.Localized? && KoName(d.name).None? ==> r == Text("[object Object]")
  {
    match KoName(d.name)
    case Some(k) => Text(k)
    case None => RawName(d.name)
  }

  /** The length of the longest common prefix of `a` and `b`. */
  function CommonPrefix(a: string, b: string): (n: nat)
    ensures n <= |a| && n <= |b| && a[..n] == b[..n]
    ensures n < |a| && n < |b| ==> a[n] != b[n]
    decreases |a|
  {
    if |a| > 0 && |b| > 0 && a[0] == b[0] then
      var n := 1 + CommonPrefix(a[1..], b[1..]);
      assert a[..n] == [a[0]] + a[1..][..n - 1];
      assert b[..n] == [b[0]] + b[1..][..n - 1];
      n
    else 0
  }

  /** JavaScript `a < b` on two strings: code-point lexicographic order. It
      holds exactly when `a` is a proper prefix of `b`, or when at the first
      position where they differ `a` has the smaller character. */
  predicate StrLess(a: string, b: string): (lt: bool)
    ensures var n := CommonPrefix(a, b);
      lt <==> if n == |a| then n < |b| else n < |b| && a[n] < b[n]
    decreases |a|
  {
    |b| > 0 && (|a| == 0 || a[0] < b[0] || (a[0] == b[0] && StrLess(a[1..], b[1..])))
  }

  lemma {:induction false} StrLessIrreflexive(a: string)
    ensures !StrLess(a, a)
    decreases |a|
  {
    if |a| > 0 {
      StrLessIrreflexive(a[1..]);
    }
  }

  lemma {:induction false} StrLessAsymmetricTotal(a: string, b: string)
    ensures !(StrLess(a, b) && StrLess(b, a))
    ensures a != b ==> StrLess(a, b) || StrLess(b, a)
    decreases |a|
  {
    if |a| > 0 && |b| > 0 {
      StrLessAsymmetricTotal(a[1..], b[1..]);
      if a != b && a[0] == b[0] {
        assert a[1..] != b[1..] by {
          assert a == [a[0]] + a[1..] && b == [b[0]] + b[1..];
        }
      }
    }
  }

  lemma {:induction false} StrLessTransitive(a: string, b: string, c: string)
    requires StrLess(a, b) && StrLess(b, c)
    ensures StrLess(a, c)
    decreases |a|
  {
    if |a| > 0 && a[0] == b[0] && b[0] == c[0] {
      StrLessTransitive(a[1..], b[1..], c[1..]);
    }
  }

  /** String `<` is a strict total order: irreflexive, asymmetric, transitive,
      and relating any two different strings one way or the other. */
  lemma StrLessIsStrictTotalOrder(a: string, b: string, c: string)
    ensures !StrLess(a, a)
    ensures !(StrLess(a, b) && StrLess(b, a))
    ensures StrLess(a, b) && StrLess(b, c) ==> StrLess(a, c)
    ensures a != b ==> StrLess(a, b) || StrLess(b, a)
  {
    StrLessIrreflexive(a);
    StrLessAsymmetricTotal(a, b);
    if StrLess(a, b) && StrLess(b, c) {
      StrLessTransitive(a, b, c);
    }
  }

  /** JavaScript `a > b` on operands; false whenever one side is `undefined`. */
  predicate Above(a: Operand, b: Operand)
  {
    a.Text? && b.Text? && StrLess(b.s, a.s)
  }

  /** The comparison the keys of both operands call for. */
  function KeyCompare(l: Operand, r: Operand): (c: int)
    ensures -1 <= c <= 1
    ensures c == 0 <==> l == r || l.Undefined? || r.Undefined?
    ensures c == 1 <==> l.Text? && r.Text? && StrLess(r.s, l.s)
    ensures c == -1 <==> l.Text? && r.Text? && StrLess(l.s, r.s)
  {
    if l.Text? && r.Text? then
      StrLessIsStrictTotalOrder(l.s, r.s, r.s);
      if Above(l, r) then 1 else if Above(r, l) then -1 else 0
    else
      0
  }

  /** `nameSortComparator` as written: the right operand falls back to the left
      operand's raw name when it has no Korean name. */
  function Compare(left: Descriptor, right: Descriptor): (r: int)
    ensures -1 <= r <= 1
    ensures SortKey(left).Undefined? ==> r == 0
    ensures KoName(right.name).Some? ==> r == KeyCompare(SortKey(left), SortKey(right))
  {
    var rName := match KoName(right.name) case Some(k) => Text(k) case None => RawName(left.name);
    KeyCompare(SortKey(left), rName)
  }

  /** The comparison of keys the comparator was meant to be is antisymmetric;
      `Compare` itself is not (see `CompareIsNotAntisymmetric`). */
  lemma KeyCompareIsAntisymmetric(l: Operand, r: Operand)
    ensures KeyCompare(l, r) == -KeyCompare(r, l)
  {
    if l.Text? && r.Text? {
      StrLessIsStrictTotalOrder(l.s, r.s, r.s);
    }
  }

  /** Where the right operand has none, the left operand is compared with its
      own raw name: two descriptors without Korean names always tie. */
  lemma CompareIgnoresRightWithoutKo(left: Descriptor, right: Descriptor)
    requires KoName(right.name).None?
    ensures Compare(left, right) == KeyCompare(SortKey(left), RawName(left.name))
    ensures KoName(left.name).None? ==> Compare(left, right) == 0
  {
    if RawName(left.name).Text? {
      StrLessIrreflexive(RawName(left.name).s);
    }
  }

  /** The comparator is not antisymmetric: each of these two descriptors
      compares greater than the other. */
  lemma CompareIsNotAntisymmetric()
    ensures var a := Descriptor("a", Plain("z"), None, Semver.Absent, None, Available, [], map[]);
            var b := Descriptor("b", Localized(Some("a"), None), None, Semver.Absent, None, Available, [], map[]);
            Compare(a, b) == 1 && Compare(b, a) == 1
  {
    var a := Descriptor("a", Plain("z"), None, Semver.Absent, None, Available, [], map[]);
    var b := Descriptor("b", Localized(Some("a"), None), None, Semver.Absent, None, Available, [], map[]);
    var obj := "[object Object]";
    assert !IsJsSpace('a');
    assert TrimStart("a") == "a";
    assert TrimEnd("a") == "a";
    assert KoName(b.name) == Some("a");
    assert KoName(a.name) == None;
    assert SortKey(a) == Text("z");
    assert SortKey(b) == Text("a");
    assert RawName(b.name) == Text(obj);
    assert "a"[0] < "z"[0];
    assert StrLess("a", "z");
    assert obj[0] == '[' && '[' < 'a';
    assert StrLess(obj, "a");
  }

  /** The binary search of V8's binary insertion sort, for a comparator
      `cmp`: the pivot goes after `sorted[mid]` unless `cmp` puts it below,
      so the result is a position in `sorted[lo..hi]`. */
  function InsertionPoint<T>(sorted: seq<T>, pivot: T, lo: nat, hi: nat, cmp: (T, T) -> int): (p: nat)
    requires lo <= hi <= |sorted|
    ensures lo <= p <= hi
    ensures lo < p ==> cmp(pivot, sorted[p - 1]) >= 0
    ensures p < hi ==> cmp(pivot, sorted[p]) < 0
    decreases hi - lo
  {
    if lo >= hi then lo
    else
      var mid := lo + (hi - lo) / 2;
      if cmp(pivot, sorted[mid]) < 0 then InsertionPoint(sorted, pivot, lo, mid, cmp)
      else InsertionPoint(sorted, pivot, mid + 1, hi, cmp)
  }

  function InsertAt(s: seq<Descriptor>, p: nat, x: Descriptor): (r: seq<Descriptor>)
    requires p <= |s|
    ensures multiset(r) == multiset(s) + multiset{x}
  {
    assert s == s[..p] + s[p..];
    s[..p] + [x] + s[p..]
  }

  /** `.sort(nameSortComparator)`, as a binary insertion sort. The comparator
      is not a consistent order, so only the permutation is promised. */
  function SortByName(s: seq<Descriptor>): (r: seq<Descriptor>)
    ensures multiset(r) == multiset(s)
    decreases |s|
  {
    if s == [] then []
    else
      var n := |s| - 1;
      var prefix := SortByName(s[..n]);
      SplitLast(s);
      InsertAt(prefix, InsertionPoint(prefix, s[n], 0, |prefix|, Compare), s[n])
  }

  lemma SplitLast<T>(s: seq<T>)
    requires |s| > 0
    ensures multiset(s) == multiset(s[..|s| - 1]) + multiset{s[|s| - 1]}
  {
    assert s == s[..|s| - 1] + [s[|s| - 1]];
  }

  /** `.filter(platformFilter)`. */
  function PlatformFilter(s: seq<Descriptor>, platform: string): (r: seq<Descriptor>)
    ensures forall d :: d in r <==> d in s && Supports(d, platform)
    ensures IsSubsequence(r, s)
    decreases |s|
  {
    if s == [] then []
    else if Supports(s[0], platform) then [s[0]] + PlatformFilter(s[1..], platform)
    else PlatformFilter(s[1..], platform)
  }

  /** The filter keeps every copy of a supported descriptor and no copy of
      another. */
  lemma {:induction false} PlatformFilterCounts(s: seq<Descriptor>, platform: string, d: Descriptor)
    ensures multiset(PlatformFilter(s, platform))[d] == if Supports(d, platform) then multiset(s)[d] else 0
    decreases |s|
  {
    if s != [] {
      assert s == [s[0]] + s[1..];
      PlatformFilterCounts(s[1..], platform, d);
    }
  }

  /** The tail every merge shares: filter by platform, then sort. */
  function Finalize(s: seq<Descriptor>, platform: string): (r: seq<Descriptor>)
    ensures forall d :: d in r <==> d in s && Supports(d, platform)
    ensures multiset(r) == multiset(PlatformFilter(s, platform))
  {
    var f := PlatformFilter(s, platform);
    SameMembers(SortByName(f), f);
    SortByName(f)
  }

  lemma {:induction false} FilterKeepsIdsDistinct(s: seq<Descriptor>, platform: string)
    requires Distinct(Ids(s))
    ensures Distinct(Ids(PlatformFilter(s, platform)))
    ensures forall i :: i in Ids(PlatformFilter(s, platform)) ==> i in Ids(s)
    decreases |s|
  {
    if s != [] {
      var rest := PlatformFilter(s[1..], platform);
      assert s == [s[0]] + s[1..];
      KeysConcat([s[0]], s[1..], IdOf);
      KeysSingleton(s[0], IdOf);
      DistinctCons(s[0].id, Ids(s[1..]));
      FilterKeepsIdsDistinct(s[1..], platform);
      if Supports(s[0], platform) {
        KeysConcat([s[0]], rest, IdOf);
        DistinctCons(s[0].id, Ids(rest));
      }
    }
  }

  /** The id of the last element of an id-distinct list does not occur in any
      rearrangement of the elements before it. */
  lemma LastIdIsFresh(s: seq<Descriptor>, t: seq<Descriptor>)
    requires |s| > 0
    requires Distinct(Ids(s))
    requires multiset(t) == multiset(s[..|s| - 1])
    ensures s[|s| - 1].id !in Ids(t)
  {
    var n := |s| - 1;
    forall q | 0 <= q < |t|
      ensures Ids(t)[q] != s[n].id
    {
      assert t[q] in multiset(s[..n]);
      var r :| 0 <= r < n && s[..n][r] == t[q];
      assert s[r] == t[q];
      assert Keys(s, IdOf)[r] == IdOf(s[r]) && Keys(s, IdOf)[n] == IdOf(s[n]);
      assert Keys(t, IdOf)[q] == IdOf(t[q]);
    }
  }

  lemma {:induction false} SortKeepsIdsDistinct(s: seq<Descriptor>)
    requires Distinct(Ids(s))
    ensures Distinct(Ids(SortByName(s)))
    decreases |s|
  {
    if s != [] {
      var n := |s| - 1;
      var x := s[n];
      var prefix := SortByName(s[..n]);
      KeysPrefix(s, n, IdOf);
      SortKeepsIdsDistinct(s[..n]);
      LastIdIsFresh(s, prefix);
      var p := InsertionPoint(prefix, x, 0, |prefix|, Compare);
      InsertIds(prefix, p, x);
      DistinctInsert(Ids(prefix), p, x.id);
    }
  }

  lemma InsertIds(s: seq<Descriptor>, p: nat, x: Descriptor)
    requires p <= |s|
    ensures Ids(InsertAt(s, p, x)) == Ids(s)[..p] + [x.id] + Ids(s)[p..]
  {
    KeysConcat(s[..p] + [x], s[p..], IdOf);
    KeysConcat(s[..p], [x], IdOf);
    KeysSingleton(x, IdOf);
    KeysPrefix(s, p, IdOf);
    KeysSuffix(s, p, IdOf);
  }

  /** Filtering and sorting a list whose ids are distinct yields a catalog. */
  lemma FinalizeIsCatalog(s: seq<Descriptor>, platform: string)
    requires Distinct(Ids(s))
    ensures CatalogOk(Finalize(s, platform), platform)
    ensures forall i :: i in Ids(Finalize(s, platform)) ==> i in Ids(s)
  {
    var f := PlatformFilter(s, platform);
    FilterKeepsIdsDistinct(s, platform);
    SortKeepsIdsDistinct(f);
    forall i | i in Ids(Finalize(s, platform))
      ensures i in Ids(s)
    {
      KeysMember(Finalize(s, platform), i, IdOf);
      KeysMember(s, i, IdOf);
    }
  }

  /** A list that already supports the platform passes the filter whole. */
  lemma {:induction false} FilterKeepsSupported(s: seq<Descriptor>, platform: string)
    requires forall d :: d in s ==> Supports(d, platform)
    ensures PlatformFilter(s, platform) == s
    decreases |s|
  {
    if s != [] {
      FilterKeepsSupported(s[1..], platform);
    }
  }
}
