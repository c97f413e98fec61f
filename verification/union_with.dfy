/** lodash `unionWith(base, target, comparator)` with a comparator that may
    rewrite the element it inspects. The candidates are the elements of
    `base ++ target` in order; each is checked against the kept list from front
    to back, and the first inspection that claims it stops the scan and drops
    it; an unclaimed candidate is appended. The resolver may throw, which
    aborts the whole union. */
module UnionWith {
  import opened Wrappers
  import opened Seqs

  /** One inspection: whether the candidate is claimed (dropped), and the kept
      element as the inspection leaves it. */
  datatype Verdict<T> = Verdict(claimed: bool, kept: T)

  /** One scan of the kept list: whether some inspection claimed the candidate,
      and the kept list as the scan leaves it. */
  datatype Scanned<T> = Scanned(claimed: bool, kept: seq<T>)

  function Scan<T, E>(cand: T, kept: seq<T>, resolve: (T, T) -> Result<Verdict<T>, E>): (r: Result<Scanned<T>, E>)
    ensures r.Success? ==> |r.value.kept| == |kept|
    decreases |kept|
  {
    if kept == [] then Success(Scanned(false, []))
    else
      var v :- resolve(cand, kept[0]);
      if v.claimed then Success(Scanned(true, [v.kept] + kept[1..]))
      else
        var rest :- Scan(cand, kept[1..], resolve);
        Success(Scanned(rest.claimed, [v.kept] + rest.kept))
  }

  /** Offers every candidate in turn to the kept list. */
  function Fold<T, E>(kept: seq<T>, cands: seq<T>, resolve: (T, T) -> Result<Verdict<T>, E>): (r: Result<seq<T>, E>)
    ensures r.Success? ==> |kept| <= |r.value| <= |kept| + |cands|
    decreases |cands|
  {
    if cands == [] then Success(kept)
    else
      var s :- Scan(cands[0], kept, resolve);
      Fold(if s.claimed then s.kept else s.kept + [cands[0]], cands[1..], resolve)
  }

  function Union<T, E>(base: seq<T>, target: seq<T>, resolve: (T, T) -> Result<Verdict<T>, E>): (r: Result<seq<T>, E>)
    ensures r.Success? ==> |r.value| <= |base| + |target|
    ensures r.Success? && |base + target| > 0 ==> |r.value| > 0
  {
    Fold([], base + target, resolve)
  }

  /** What a successful scan did: it inspected the kept elements from the
      front, each inspection before position `p` left the candidate unclaimed,
      the one at `p` (if `p` is inside the list) claimed it, and nothing after
      `p` was inspected. Each inspected element is left as its inspection made
      it. */
  lemma {:induction false} ScanStopsAtFirstClaim<T, E>(cand: T, kept: seq<T>, resolve: (T, T) -> Result<Verdict<T>, E>) returns (p: nat)
    requires Scan(cand, kept, resolve).Success?
    ensures var s := Scan(cand, kept, resolve).value;
      && p <= |kept|
      && (s.claimed <==> p < |kept|)
      && (forall j :: 0 <= j < p ==>
            resolve(cand, kept[j]).Success? && !resolve(cand, kept[j]).value.claimed
            && s.kept[j] == resolve(cand, kept[j]).value.kept)
      && (p < |kept| ==>
            resolve(cand, kept[p]).Success? && resolve(cand, kept[p]).value.claimed
            && s.kept[p] == resolve(cand, kept[p]).value.kept)
      && (forall j :: p < j < |kept| ==> s.kept[j] == kept[j])
    decreases |kept|
  {
    if kept == [] {
      p := 0;
    } else {
      var v := resolve(cand, kept[0]).value;
      if v.claimed {
        p := 0;
      } else {
        var q := ScanStopsAtFirstClaim(cand, kept[1..], resolve);
        p := q + 1;
        var s := Scan(cand, kept, resolve).value;
        var rest := Scan(cand, kept[1..], resolve).value;
        assert s.kept == [v.kept] + rest.kept;
        forall j | 0 < j < |kept|
          ensures kept[1..][j - 1] == kept[j] && s.kept[j] == rest.kept[j - 1]
        {
        }
      }
    }
  }

  /** The resolver claims a candidate exactly when its key equals the kept
      element's key, and never changes the kept element's key. */
  ghost predicate KeyedBy<T(!new), K, E>(resolve: (T, T) -> Result<Verdict<T>, E>, key: T -> K)
  {
    forall c, k :: resolve(c, k).Success? ==>
      resolve(c, k).value.claimed == (key(c) == key(k)) && key(resolve(c, k).value.kept) == key(k)
  }

  /** Inspecting an element of another key neither fails nor changes it. */
  ghost predicate InertOnMiss<T(!new), K, E>(resolve: (T, T) -> Result<Verdict<T>, E>, key: T -> K)
  {
    forall c, k :: key(c) != key(k) ==> resolve(c, k) == Success(Verdict(false, k))
  }

  lemma {:induction false} ScanKeys<T(!new), K, E>(cand: T, kept: seq<T>, resolve: (T, T) -> Result<Verdict<T>, E>, key: T -> K)
    requires KeyedBy(resolve, key)
    requires Scan(cand, kept, resolve).Success?
    ensures Keys(Scan(cand, kept, resolve).value.kept, key) == Keys(kept, key)
    ensures Scan(cand, kept, resolve).value.claimed <==> key(cand) in Keys(kept, key)
    decreases |kept|
  {
    if kept != [] {
      var v := resolve(cand, kept[0]).value;
      assert kept == [kept[0]] + kept[1..];
      KeysConcat([kept[0]], kept[1..], key);
      KeysSingleton(kept[0], key);
      KeysSingleton(v.kept, key);
      if v.claimed {
        KeysConcat([v.kept], kept[1..], key);
      } else {
        ScanKeys(cand, kept[1..], resolve, key);
        KeysConcat([v.kept], Scan(cand, kept[1..], resolve).value.kept, key);
      }
    }
  }

  lemma {:induction false} FoldKeys<T(!new), K, E>(kept: seq<T>, cands: seq<T>, resolve: (T, T) -> Result<Verdict<T>, E>, key: T -> K)
    requires KeyedBy(resolve, key)
    requires Fold(kept, cands, resolve).Success?
    ensures Keys(Fold(kept, cands, resolve).value, key) == Keys(kept, key) + NubFrom(Keys(cands, key), ToSet(Keys(kept, key)))
    decreases |cands|
  {
    if cands == [] {
      assert Keys(cands, key) == [];
      assert Keys(kept, key) + [] == Keys(kept, key);
    } else {
      var c := cands[0];
      var s := Scan(c, kept, resolve).value;
      ScanKeys(c, kept, resolve, key);
      var next := if s.claimed then s.kept else s.kept + [c];
      assert Fold(kept, cands, resolve) == Fold(next, cands[1..], resolve);
      FoldKeys(next, cands[1..], resolve, key);
      KeysCons(cands, key);
      if !s.claimed {
        KeysConcat(s.kept, [c], key);
        KeysSingleton(c, key);
      }
      NubFromStep(Keys(kept, key), Keys(next, key), key(c), Keys(cands[1..], key));
    }
  }

  /** For a keyed resolver the union's keys are the keys of `base ++ target`
      in first-occurrence order; in particular they are pairwise distinct. */
  lemma UnionKeys<T(!new), K, E>(base: seq<T>, target: seq<T>, resolve: (T, T) -> Result<Verdict<T>, E>, key: T -> K)
    requires KeyedBy(resolve, key)
    requires Union(base, target, resolve).Success?
    ensures Keys(Union(base, target, resolve).value, key) == Nub(Keys(base + target, key))
    ensures Distinct(Keys(Union(base, target, resolve).value, key))
  {
    FoldKeys([], base + target, resolve, key);
    assert Keys([], key) == [];
    assert ToSet(Keys([], key)) == {};
    NubFromSpec(Keys(base + target, key), {});
  }

  /** When the keys of `base` and of `target` are each distinct and the two key
      sets are disjoint, nothing is claimed: the union has |base| + |target|
      elements, with the keys of `base ++ target` in order. */
  lemma UnionOfDisjointKeepsAll<T(!new), K, E>(base: seq<T>, target: seq<T>, resolve: (T, T) -> Result<Verdict<T>, E>, key: T -> K)
    requires KeyedBy(resolve, key)
    requires Distinct(Keys(base, key)) && Distinct(Keys(target, key))
    requires ToSet(Keys(base, key)) !! ToSet(Keys(target, key))
    requires Union(base, target, resolve).Success?
    ensures Keys(Union(base, target, resolve).value, key) == Keys(base + target, key)
    ensures |Union(base, target, resolve).value| == |base| + |target|
  {
    UnionKeys(base, target, resolve, key);
    KeysConcat(base, target, key);
    assert forall k :: k in Keys(base, key) ==> k !in Keys(target, key) by {
      forall k | k in Keys(base, key)
        ensures k !in Keys(target, key)
      {
        assert k in ToSet(Keys(base, key));
      }
    }
    DistinctConcat(Keys(base, key), Keys(target, key));
    NubFromOfDistinct(Keys(base + target, key), {});
  }

  /** A candidate whose key is not yet kept passes an inert resolver's scan
      untouched. */
  lemma {:induction false} ScanMiss<T(!new), K, E>(cand: T, kept: seq<T>, resolve: (T, T) -> Result<Verdict<T>, E>, key: T -> K)
    requires InertOnMiss(resolve, key)
    requires key(cand) !in Keys(kept, key)
    ensures Scan(cand, kept, resolve) == Success(Scanned(false, kept))
    decreases |kept|
  {
    if kept != [] {
      assert Keys(kept, key)[0] == key(kept[0]);
      assert Keys(kept[1..], key) == Keys(kept, key)[1..];
      ScanMiss(cand, kept[1..], resolve, key);
      assert kept == [kept[0]] + kept[1..];
    }
  }

  /** With an inert resolver, a kept element of another key survives a scan. */
  lemma {:induction false} ScanKeepsOthers<T(!new), K, E>(cand: T, kept: seq<T>, x: T, resolve: (T, T) -> Result<Verdict<T>, E>, key: T -> K)
    requires InertOnMiss(resolve, key)
    requires x in kept && key(x) != key(cand)
    requires Scan(cand, kept, resolve).Success?
    ensures x in Scan(cand, kept, resolve).value.kept
    decreases |kept|
  {
    var v := resolve(cand, kept[0]).value;
    if kept[0] == x {
      assert v == Verdict(false, x);
    } else {
      assert x in kept[1..];
      if !v.claimed {
        ScanKeepsOthers(cand, kept[1..], x, resolve, key);
      }
    }
  }

  lemma {:induction false} FoldKeepsKept<T(!new), K, E>(kept: seq<T>, cands: seq<T>, x: T, resolve: (T, T) -> Result<Verdict<T>, E>, key: T -> K)
    requires InertOnMiss(resolve, key)
    requires x in kept && key(x) !in Keys(cands, key)
    requires Fold(kept, cands, resolve).Success?
    ensures x in Fold(kept, cands, resolve).value
    decreases |cands|
  {
    if cands != [] {
      assert Keys(cands, key)[0] == key(cands[0]);
      assert Keys(cands[1..], key) == Keys(cands, key)[1..];
      var s := Scan(cands[0], kept, resolve).value;
      ScanKeepsOthers(cands[0], kept, x, resolve, key);
      var next := if s.claimed then s.kept else s.kept + [cands[0]];
      FoldKeepsKept(next, cands[1..], x, resolve, key);
    }
  }

  lemma {:induction false} FoldKeepsUniqueCandidate<T(!new), K, E>(kept: seq<T>, cands: seq<T>, i: nat, resolve: (T, T) -> Result<Verdict<T>, E>, key: T -> K)
    requires KeyedBy(resolve, key) && InertOnMiss(resolve, key)
    requires i < |cands|
    requires key(cands[i]) !in Keys(kept, key)
    requires forall j :: 0 <= j < |cands| && j != i ==> key(cands[j]) != key(cands[i])
    requires Fold(kept, cands, resolve).Success?
    ensures cands[i] in Fold(kept, cands, resolve).value
    decreases |cands|
  {
    var c := cands[0];
    if i == 0 {
      ScanMiss(c, kept, resolve, key);
      forall k | k in Keys(cands[1..], key)
        ensures k != key(c)
      {
        var j :| 0 <= j < |cands[1..]| && Keys(cands[1..], key)[j] == k;
        assert cands[1..][j] == cands[j + 1];
      }
      FoldKeepsKept(kept + [c], cands[1..], c, resolve, key);
    } else {
      var s := Scan(c, kept, resolve).value;
      ScanKeys(c, kept, resolve, key);
      var next := if s.claimed then s.kept else s.kept + [c];
      if !s.claimed {
        KeysConcat(s.kept, [c], key);
        KeysSingleton(c, key);
        assert key(c) != key(cands[i]);
      }
      assert cands[1..][i - 1] == cands[i];
      FoldKeepsUniqueCandidate(next, cands[1..], i - 1, resolve, key);
    }
  }

  /** With a keyed, inert resolver, an element whose key occurs nowhere else in
      `base ++ target` reaches the union unchanged. */
  lemma UnionKeepsUniqueElement<T(!new), K, E>(base: seq<T>, target: seq<T>, i: nat, resolve: (T, T) -> Result<Verdict<T>, E>, key: T -> K)
    requires KeyedBy(resolve, key) && InertOnMiss(resolve, key)
    requires i < |base + target|
    requires forall j :: 0 <= j < |base + target| && j != i ==> key((base + target)[j]) != key((base + target)[i])
    requires Union(base, target, resolve).Success?
    ensures (base + target)[i] in Union(base, target, resolve).value
  {
    assert Keys([], key) == [];
    FoldKeepsUniqueCandidate([], base + target, i, resolve, key);
  }

  lemma {:induction false} FoldInert<T(!new), K, E>(kept: seq<T>, cands: seq<T>, resolve: (T, T) -> Result<Verdict<T>, E>, key: T -> K)
    requires InertOnMiss(resolve, key)
    requires Distinct(Keys(kept + cands, key))
    ensures Fold(kept, cands, resolve) == Success(kept + cands)
    decreases |cands|
  {
    if cands != [] {
      var c := cands[0];
      KeysConcat(kept, cands, key);
      DistinctConcat(Keys(kept, key), Keys(cands, key));
      assert Keys(cands, key)[0] == key(c);
      ScanMiss(c, kept, resolve, key);
      assert kept + cands == (kept + [c]) + cands[1..];
      FoldInert(kept + [c], cands[1..], resolve, key);
    } else {
      assert kept + cands == kept;
    }
  }

  /** An inert resolver over `base ++ target` with distinct keys claims nothing
      and rewrites nothing: the union is the concatenation. */
  lemma UnionOfDistinctIsConcat<T(!new), K, E>(base: seq<T>, target: seq<T>, resolve: (T, T) -> Result<Verdict<T>, E>, key: T -> K)
    requires InertOnMiss(resolve, key)
    requires Distinct(Keys(base + target, key))
    ensures Union(base, target, resolve) == Success(base + target)
  {
    assert [] + (base + target) == base + target;
    FoldInert([], base + target, resolve, key);
  }

  /** Inspecting an element of another key neither fails nor claims, and
      leaves the element as `norm` makes it (an inert resolver is one whose
      `norm` is the identity). */
  ghost predicate NormalOnMiss<T(!new), K, E>(resolve: (T, T) -> Result<Verdict<T>, E>, key: T -> K, norm: T -> T)
  {
    forall c, k :: key(c) != key(k) ==> resolve(c, k) == Success(Verdict(false, norm(k)))
  }

  /** Folding a concatenation folds the first part, then the second. */
  lemma {:induction false} FoldSplit<T, E>(kept: seq<T>, xs: seq<T>, ys: seq<T>, resolve: (T, T) -> Result<Verdict<T>, E>)
    requires Fold(kept, xs + ys, resolve).Success?
    ensures Fold(kept, xs, resolve).Success?
    ensures Fold(Fold(kept, xs, resolve).value, ys, resolve) == Fold(kept, xs + ys, resolve)
    decreases |xs|
  {
    if xs == [] {
      assert xs + ys == ys;
    } else {
      assert (xs + ys)[0] == xs[0];
      assert (xs + ys)[1..] == xs[1..] + ys;
      var s := Scan(xs[0], kept, resolve).value;
      var next := if s.claimed then s.kept else s.kept + [xs[0]];
      FoldSplit(next, xs[1..], ys, resolve);
    }
  }

  /** A scan by a candidate of another key leaves a kept element as it was or
      as `norm` makes it. */
  lemma {:induction false} ScanOther<T(!new), K, E>(cand: T, kept: seq<T>, y: T, resolve: (T, T) -> Result<Verdict<T>, E>, key: T -> K, norm: T -> T)
    requires NormalOnMiss(resolve, key, norm)
    requires y in kept && key(y) != key(cand)
    requires Scan(cand, kept, resolve).Success?
    ensures y in Scan(cand, kept, resolve).value.kept || norm(y) in Scan(cand, kept, resolve).value.kept
    decreases |kept|
  {
    var v := resolve(cand, kept[0]).value;
    if kept[0] == y {
      assert v == Verdict(false, norm(y));
    } else {
      assert y in kept[1..];
      if !v.claimed {
        ScanOther(cand, kept[1..], y, resolve, key, norm);
      }
    }
  }

  /** Candidates of other keys leave an element as it was or as `norm` makes
      it, provided `norm` changes neither its key nor its own result. */
  lemma {:induction false} FoldOther<T(!new), K, E>(kept: seq<T>, cands: seq<T>, y: T, resolve: (T, T) -> Result<Verdict<T>, E>, key: T -> K, norm: T -> T)
    requires NormalOnMiss(resolve, key, norm)
    requires key(norm(y)) == key(y) && norm(norm(y)) == norm(y)
    requires y in kept || norm(y) in kept
    requires key(y) !in Keys(cands, key)
    requires Fold(kept, cands, resolve).Success?
    ensures y in Fold(kept, cands, resolve).value || norm(y) in Fold(kept, cands, resolve).value
    decreases |cands|
  {
    if cands != [] {
      var c := cands[0];
      assert Keys(cands, key)[0] == key(c);
      assert Keys(cands[1..], key) == Keys(cands, key)[1..];
      if y in kept {
        ScanOther(c, kept, y, resolve, key, norm);
      } else {
        ScanOther(c, kept, norm(y), resolve, key, norm);
      }
      var s := Scan(c, kept, resolve).value;
      var next := if s.claimed then s.kept else s.kept + [c];
      FoldOther(next, cands[1..], y, resolve, key, norm);
    }
  }

  /** A scan by a candidate whose key is kept, with kept keys distinct,
      reaches that element and claims the candidate there. */
  lemma {:induction false} ScanHits<T(!new), K, E>(cand: T, kept: seq<T>, y: T, resolve: (T, T) -> Result<Verdict<T>, E>, key: T -> K, norm: T -> T)
    requires KeyedBy(resolve, key) && NormalOnMiss(resolve, key, norm)
    requires Distinct(Keys(kept, key))
    requires y in kept && key(y) == key(cand)
    requires Scan(cand, kept, resolve).Success?
    ensures resolve(cand, y).Success?
    ensures Scan(cand, kept, resolve).value.claimed
    ensures resolve(cand, y).value.kept in Scan(cand, kept, resolve).value.kept
    decreases |kept|
  {
    if kept[0] != y {
      var j :| 0 <= j < |kept| && kept[j] == y;
      assert Keys(kept, key)[0] == key(kept[0]);
      assert Keys(kept, key)[j] == key(y);
      assert key(kept[0]) != key(cand);
      assert y in kept[1..];
      assert Keys(kept[1..], key) == Keys(kept, key)[1..];
      assert Keys(kept, key) == [Keys(kept, key)[0]] + Keys(kept[1..], key);
      DistinctCons(Keys(kept, key)[0], Keys(kept[1..], key));
      ScanHits(cand, kept[1..], y, resolve, key, norm);
    }
  }

  /** Folding from nothing with a keyed resolver keeps keys distinct. */
  lemma FoldFromEmptyKeepsKeysDistinct<T(!new), K, E>(cands: seq<T>, resolve: (T, T) -> Result<Verdict<T>, E>, key: T -> K)
    requires KeyedBy(resolve, key)
    requires Fold([], cands, resolve).Success?
    ensures Distinct(Keys(Fold([], cands, resolve).value, key))
  {
    assert cands + [] == cands;
    UnionKeys(cands, [], resolve, key);
  }

  /** Folding from nothing keeps only keys of the candidates. */
  lemma KeptKeysComeFromCandidates<T(!new), K, E>(cands: seq<T>, resolve: (T, T) -> Result<Verdict<T>, E>, key: T -> K)
    requires KeyedBy(resolve, key)
    requires Fold([], cands, resolve).Success?
    ensures forall k :: k in Keys(Fold([], cands, resolve).value, key) ==> k in Keys(cands, key)
  {
    assert cands + [] == cands;
    assert Union(cands, [], resolve) == Fold([], cands, resolve);
    UnionKeys(cands, [], resolve, key);
    var kept := Keys(Fold([], cands, resolve).value, key);
    assert kept == Nub(Keys(cands, key));
    forall k | k in kept
      ensures k in Keys(cands, key)
    {
      assert k in Nub(Keys(cands, key));
      NubMember(Keys(cands, key), k);
    }
  }

  /** A candidate whose key is not kept is appended as it is. */
  lemma FoldAppendsFresh<T(!new), K, E>(kept: seq<T>, b: T, resolve: (T, T) -> Result<Verdict<T>, E>, key: T -> K)
    requires KeyedBy(resolve, key)
    requires key(b) !in Keys(kept, key)
    requires Fold(kept, [b], resolve).Success?
    ensures b in Fold(kept, [b], resolve).value
  {
    ScanKeys(b, kept, resolve, key);
  }

  /** Up to the second occurrence of its key, `b` is kept as it is or as
      `norm` makes it, among distinct keys. */
  lemma FoldBeforeResolution<T(!new), K, E>(head: seq<T>, b: T, mid: seq<T>, resolve: (T, T) -> Result<Verdict<T>, E>, key: T -> K, norm: T -> T)
    requires KeyedBy(resolve, key) && NormalOnMiss(resolve, key, norm)
    requires key(norm(b)) == key(b) && norm(norm(b)) == norm(b)
    requires key(b) !in Keys(head, key) && key(b) !in Keys(mid, key)
    requires Fold([], head + [b] + mid, resolve).Success?
    ensures var k := Fold([], head + [b] + mid, resolve).value;
      (b in k || norm(b) in k) && Distinct(Keys(k, key))
  {
    FoldSplit([], head + [b], mid, resolve);
    FoldSplit([], head, [b], resolve);
    var k1 := Fold([], head, resolve).value;
    KeptKeysComeFromCandidates(head, resolve, key);
    FoldAppendsFresh(k1, b, resolve, key);
    var k2 := Fold(k1, [b], resolve).value;
    assert k2 == Fold([], head + [b], resolve).value;
    FoldOther(k2, mid, b, resolve, key, norm);
    FoldFromEmptyKeepsKeysDistinct(head + [b] + mid, resolve, key);
  }

  /** From the second occurrence on: the candidate `t` turns the kept `b` into
      the resolver's verdict on the two, which stays when `norm` leaves it
      alone. */
  lemma FoldFromResolution<T(!new), K, E>(kept: seq<T>, b: T, t: T, tail: seq<T>, resolve: (T, T) -> Result<Verdict<T>, E>, key: T -> K, norm: T -> T)
    requires KeyedBy(resolve, key) && NormalOnMiss(resolve, key, norm)
    requires forall x :: key(norm(x)) == key(x) && norm(norm(x)) == norm(x)
    requires (b in kept || norm(b) in kept) && Distinct(Keys(kept, key))
    requires key(t) == key(b) && key(b) !in Keys(tail, key)
    requires resolve(t, norm(b)) == resolve(t, b)
    requires Fold(kept, [t] + tail, resolve).Success?
    ensures resolve(t, b).Success?
    ensures var k := resolve(t, b).value.kept;
      norm(k) == k ==> k in Fold(kept, [t] + tail, resolve).value
  {
    FoldSplit(kept, [t], tail, resolve);
    var y := if b in kept then b else norm(b);
    ScanHits(t, kept, y, resolve, key, norm);
    var kr := resolve(t, b).value.kept;
    if norm(kr) == kr {
      FoldOther(Fold(kept, [t], resolve).value, tail, kr, resolve, key, norm);
    }
  }

  lemma SplitAround<T>(s: seq<T>, p: nat, n: nat)
    requires p < n < |s|
    ensures s == (s[0..p] + [s[p]] + s[p + 1..n]) + ([s[n]] + s[n + 1..|s|])
  {
  }

  /** No element of `s[lo..hi]` has key `x`. */
  lemma KeyAbsent<T, K>(s: seq<T>, lo: nat, hi: nat, x: K, key: T -> K)
    requires lo <= hi <= |s|
    requires forall j :: lo <= j < hi ==> key(s[j]) != x
    ensures x !in Keys(s[lo..hi], key)
  {
    forall j | 0 <= j < hi - lo
      ensures Keys(s[lo..hi], key)[j] != x
    {
      assert s[lo..hi][j] == s[lo + j];
    }
  }

  /** For an element `b` of `base ++ target` at `p` whose key occurs there
      only once more, at a later `n`, the union holds what the resolver makes
      of `b` when that later candidate reaches it. `norm` is what inspections
      by other keys do to a kept element; it must not change keys, must be
      idempotent, must not change the resolver's verdict on `b`, and must leave
      the resolved element alone. */
  lemma UnionCarriesResolution<T(!new), K, E>(base: seq<T>, target: seq<T>, p: nat, n: nat, resolve: (T, T) -> Result<Verdict<T>, E>, key: T -> K, norm: T -> T)
    requires KeyedBy(resolve, key) && NormalOnMiss(resolve, key, norm)
    requires p < n < |base + target|
    requires key((base + target)[n]) == key((base + target)[p])
    requires forall j :: 0 <= j < |base + target| && j != p && j != n ==> key((base + target)[j]) != key((base + target)[p])
    requires forall x :: key(norm(x)) == key(x) && norm(norm(x)) == norm(x)
    requires resolve((base + target)[n], norm((base + target)[p])) == resolve((base + target)[n], (base + target)[p])
    requires Union(base, target, resolve).Success?
    ensures resolve((base + target)[n], (base + target)[p]).Success?
    ensures var k := resolve((base + target)[n], (base + target)[p]).value.kept;
      norm(k) == k ==> k in Union(base, target, resolve).value
  {
    var all := base + target;
    var b, t := all[p], all[n];
    var head, mid, tail := all[0..p], all[p + 1..n], all[n + 1..|all|];
    KeyAbsent(all, 0, p, key(b), key);
    KeyAbsent(all, p + 1, n, key(b), key);
    KeyAbsent(all, n + 1, |all|, key(b), key);
    SplitAround(all, p, n);
    assert Union(base, target, resolve) == Fold([], (head + [b] + mid) + ([t] + tail), resolve);
    FoldSplit([], head + [b] + mid, [t] + tail, resolve);
    FoldBeforeResolution(head, b, mid, resolve, key, norm);
    FoldFromResolution(Fold([], head + [b] + mid, resolve).value, b, t, tail, resolve, key, norm);
  }
}
