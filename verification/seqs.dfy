/** Sequence vocabulary shared by the model: projecting keys, pairwise
    distinctness, first-occurrence de-duplication and subsequences. */
module Seqs {

  /** The key of every element, in order. */
  function Keys<T, K>(s: seq<T>, key: T -> K): seq<K>
  {
    seq(|s|, i requires 0 <= i < |s| => key(s[i]))
  }

  ghost function ToSet<T>(s: seq<T>): set<T>
  {
    set x | x in s
  }

  /** No value occurs twice. */
  ghost predicate Distinct<K>(ks: seq<K>)
  {
    forall i, j :: 0 <= i < j < |ks| ==> ks[i] != ks[j]
  }

  /** `ks` without the values in `seen` and without repeats, keeping the
      first occurrence of each value. */
  function NubFrom<K(==)>(ks: seq<K>, seen: set<K>): seq<K>
    decreases |ks|
  {
    if ks == [] then []
    else if ks[0] in seen then NubFrom(ks[1..], seen)
    else [ks[0]] + NubFrom(ks[1..], seen + {ks[0]})
  }

  function Nub<K(==)>(ks: seq<K>): seq<K>
  {
    NubFrom(ks, {})
  }

  /** `a` is `b` with some elements left out, order kept. */
  predicate IsSubsequence<T(==)>(a: seq<T>, b: seq<T>)
    decreases |b|
  {
    || a == []
    || (&& b != []
        && (|| (a[0] == b[0] && IsSubsequence(a[1..], b[1..]))
            || IsSubsequence(a, b[1..])))
  }

  lemma KeysConcat<T, K>(a: seq<T>, b: seq<T>, key: T -> K)
    ensures Keys(a + b, key) == Keys(a, key) + Keys(b, key)
  {
  }

  lemma KeysPrefix<T, K>(s: seq<T>, n: nat, key: T -> K)
    requires n <= |s|
    ensures Keys(s[..n], key) == Keys(s, key)[..n]
  {
  }

  lemma KeysSuffix<T, K>(s: seq<T>, n: nat, key: T -> K)
    requires n <= |s|
    ensures Keys(s[n..], key) == Keys(s, key)[n..]
  {
  }

  lemma KeysSingleton<T, K>(x: T, key: T -> K)
    ensures Keys([x], key) == [key(x)]
  {
  }

  lemma KeysCons<T, K>(s: seq<T>, key: T -> K)
    requires s != []
    ensures Keys(s, key) == [key(s[0])] + Keys(s[1..], key)
  {
  }

  lemma ToSetSnoc<T>(s: seq<T>, x: T)
    ensures ToSet(s + [x]) == ToSet(s) + {x}
  {
  }

  lemma AppendAssoc<T>(a: seq<T>, b: seq<T>, c: seq<T>)
    ensures a + b + c == a + (b + c)
  {
  }

  /** One step of `NubFrom` on a sequence built with a first element. */
  lemma NubFromCons<K>(k: K, ks: seq<K>, seen: set<K>)
    ensures NubFrom([k] + ks, seen) == if k in seen then NubFrom(ks, seen) else [k] + NubFrom(ks, seen + {k})
  {
    assert ([k] + ks)[0] == k && ([k] + ks)[1..] == ks;
  }

  /** One step of the first-occurrence filter, seen from the accumulated
      prefix: appending `k` unless it already occurs. */
  lemma NubFromStep<K>(kk: seq<K>, nk: seq<K>, k: K, rest: seq<K>)
    requires nk == if k in kk then kk else kk + [k]
    ensures nk + NubFrom(rest, ToSet(nk)) == kk + NubFrom([k] + rest, ToSet(kk))
  {
    NubFromCons(k, rest, ToSet(kk));
    if k !in kk {
      ToSetSnoc(kk, k);
      assert nk + NubFrom(rest, ToSet(nk)) == kk + ([k] + NubFrom(rest, ToSet(kk) + {k}));
    }
  }

  /** Sequences with the same multiset have the same members. */
  lemma SameMembers<T>(a: seq<T>, b: seq<T>)
    requires multiset(a) == multiset(b)
    ensures forall x :: x in a <==> x in b
  {
    forall x
      ensures x in a <==> x in b
    {
      assert x in a <==> x in multiset(a);
      assert x in b <==> x in multiset(b);
    }
  }

  lemma KeysMember<T, K>(s: seq<T>, k: K, key: T -> K)
    ensures k in Keys(s, key) <==> exists x :: x in s && key(x) == k
  {
    if k in Keys(s, key) {
      var i :| 0 <= i < |s| && Keys(s, key)[i] == k;
      assert s[i] in s;
    }
    if exists x :: x in s && key(x) == k {
      var x :| x in s && key(x) == k;
      var i :| 0 <= i < |s| && s[i] == x;
      assert Keys(s, key)[i] == k;
    }
  }

  lemma DistinctCons<K>(k: K, ks: seq<K>)
    ensures Distinct([k] + ks) <==> k !in ks && Distinct(ks)
  {
    var s := [k] + ks;
    if k !in ks && Distinct(ks) {
      forall i, j | 0 <= i < j < |s|
        ensures s[i] != s[j]
      {
        if i > 0 {
          assert s[i] == ks[i - 1] && s[j] == ks[j - 1];
        } else {
          assert s[j] == ks[j - 1];
        }
      }
    }
    if Distinct(s) {
      forall i, j | 0 <= i < j < |ks|
        ensures ks[i] != ks[j]
      {
        assert ks[i] == s[i + 1] && ks[j] == s[j + 1];
      }
      forall j | 0 <= j < |ks|
        ensures ks[j] != k
      {
        assert s[0] == k && s[j + 1] == ks[j];
      }
    }
  }

  lemma DistinctConcat<K>(a: seq<K>, b: seq<K>)
    ensures Distinct(a + b) <==> Distinct(a) && Distinct(b) && (forall k :: k in a ==> k !in b)
  {
    var s := a + b;
    if Distinct(a) && Distinct(b) && (forall k :: k in a ==> k !in b) {
      forall i, j | 0 <= i < j < |s|
        ensures s[i] != s[j]
      {
        if j < |a| {
          assert s[i] == a[i] && s[j] == a[j];
        } else if i >= |a| {
          assert s[i] == b[i - |a|] && s[j] == b[j - |a|];
        } else {
          assert s[i] == a[i] && s[j] == b[j - |a|];
          assert a[i] in a && b[j - |a|] in b;
        }
      }
    }
    if Distinct(s) {
      forall i, j | 0 <= i < j < |a|
        ensures a[i] != a[j]
      {
        assert s[i] == a[i] && s[j] == a[j];
      }
      forall i, j | 0 <= i < j < |b|
        ensures b[i] != b[j]
      {
        assert s[|a| + i] == b[i] && s[|a| + j] == b[j];
      }
      forall i, j | 0 <= i < |a| && 0 <= j < |b|
        ensures a[i] != b[j]
      {
        assert s[i] == a[i] && s[|a| + j] == b[j];
      }
    }
  }

  /** Inserting a fresh value anywhere keeps a sequence free of repeats. */
  lemma DistinctInsert<K>(ks: seq<K>, p: nat, k: K)
    requires p <= |ks|
    requires Distinct(ks)
    requires k !in ks
    ensures Distinct(ks[..p] + [k] + ks[p..])
  {
    assert ks == ks[..p] + ks[p..];
    DistinctConcat(ks[..p], ks[p..]);
    DistinctCons(k, ks[p..]);
    DistinctConcat(ks[..p], [k] + ks[p..]);
    assert ks[..p] + [k] + ks[p..] == ks[..p] + ([k] + ks[p..]);
  }

  lemma {:induction false} NubFromSpec<K>(ks: seq<K>, seen: set<K>)
    ensures Distinct(NubFrom(ks, seen))
    ensures forall k :: k in NubFrom(ks, seen) <==> k in ks && k !in seen
    decreases |ks|
  {
    if ks != [] {
      if ks[0] in seen {
        NubFromSpec(ks[1..], seen);
        assert ks == [ks[0]] + ks[1..];
      } else {
        NubFromSpec(ks[1..], seen + {ks[0]});
        DistinctCons(ks[0], NubFrom(ks[1..], seen + {ks[0]}));
        assert ks == [ks[0]] + ks[1..];
      }
    }
  }

  /** A sequence that already has no repeats and avoids `seen` is its own
      first-occurrence de-duplication. */
  lemma {:induction false} NubFromOfDistinct<K>(ks: seq<K>, seen: set<K>)
    requires Distinct(ks)
    requires forall k :: k in ks ==> k !in seen
    ensures NubFrom(ks, seen) == ks
    decreases |ks|
  {
    if ks != [] {
      assert ks == [ks[0]] + ks[1..];
      DistinctCons(ks[0], ks[1..]);
      NubFromOfDistinct(ks[1..], seen + {ks[0]});
    }
  }

  lemma NubMember<K>(ks: seq<K>, k: K)
    requires k in Nub(ks)
    ensures k in ks
  {
    NubFromSpec(ks, {});
  }

  /** First-occurrence de-duplication keeps exactly the values of its input,
      each once. */
  lemma NubSpec<K>(ks: seq<K>)
    ensures Distinct(Nub(ks))
    ensures forall k :: k in Nub(ks) <==> k in ks
  {
    NubFromSpec(ks, {});
  }
}
