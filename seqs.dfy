/**
 * Generic sequence algorithms the task store is built from: order-preserving
 * filtering, first-occurrence deduplication on a key, and repetition.
 */
module Seqs {

  /** `sub` keeps some of the elements of `s`, in their order in `s`. */
  predicate IsSubsequence<T(==)>(sub: seq<T>, s: seq<T>)
    decreases |s|
  {
    if sub == [] then true
    else if s == [] then false
    else (sub[0] == s[0] && IsSubsequence(sub[1..], s[1..])) || IsSubsequence(sub, s[1..])
  }

  /** `xs` concatenated `n` times. */
  function Repeat<T>(xs: seq<T>, n: nat): seq<T> {
    if n == 0 then [] else Repeat(xs, n - 1) + xs
  }

  // ---------------------------------------------------------------------
  // Filtering

  /** The elements of `s` that satisfy `p`, in their order. */
  function Filter<T>(s: seq<T>, p: T -> bool): (r: seq<T>)
    ensures |r| <= |s|
    ensures forall i :: 0 <= i < |r| ==> p(r[i])
  {
    if s == [] then []
    else (if p(s[0]) then [s[0]] else []) + Filter(s[1..], p)
  }

  /** `Filter` keeps every occurrence of an element that satisfies `p` and
      none of one that does not. */
  lemma {:induction false} FilterCount<T>(s: seq<T>, p: T -> bool)
    ensures forall x :: multiset(Filter(s, p))[x] == if p(x) then multiset(s)[x] else 0
  {
    if s != [] {
      FilterCount(s[1..], p);
      assert s == [s[0]] + s[1..];
      assert multiset(s) == multiset{s[0]} + multiset(s[1..]);
      assert Filter(s, p) == (if p(s[0]) then [s[0]] else []) + Filter(s[1..], p);
    }
  }

  /** An element is kept exactly when it is in `s` and satisfies `p`, and
      then as many times as it occurs in `s`; the kept elements keep their
      order; when all satisfy `p`, all are kept. */
  lemma FilterSpec<T>(s: seq<T>, p: T -> bool)
    ensures forall x :: x in Filter(s, p) <==> x in s && p(x)
    ensures forall x :: multiset(Filter(s, p))[x] == if p(x) then multiset(s)[x] else 0
    ensures IsSubsequence(Filter(s, p), s)
    ensures (forall i :: 0 <= i < |s| ==> p(s[i])) ==> Filter(s, p) == s
  {
    FilterOrder(s, p);
    FilterCount(s, p);
  }

  lemma {:induction false} FilterOrder<T>(s: seq<T>, p: T -> bool)
    ensures forall x :: x in Filter(s, p) <==> x in s && p(x)
    ensures IsSubsequence(Filter(s, p), s)
    ensures (forall i :: 0 <= i < |s| ==> p(s[i])) ==> Filter(s, p) == s
  {
    if s != [] {
      FilterOrder(s[1..], p);
      var rest := Filter(s[1..], p);
      if p(s[0]) {
        assert ([s[0]] + rest)[1..] == rest;
      } else {
        assert Filter(s, p) == rest;
      }
      assert s == [s[0]] + s[1..];
      if forall i :: 0 <= i < |s| ==> p(s[i]) {
        assert forall i :: 0 <= i < |s[1..]| ==> p(s[1..][i]) by {
          forall i | 0 <= i < |s[1..]| ensures p(s[1..][i]) {
            assert s[1..][i] == s[i + 1];
          }
        }
      }
    }
  }

  lemma {:induction false} FilterAppend<T>(s: seq<T>, x: T, p: T -> bool)
    ensures Filter(s + [x], p) == Filter(s, p) + (if p(x) then [x] else [])
  {
    if s == [] {
      assert s + [x] == [x];
    } else {
      assert (s + [x])[0] == s[0];
      assert (s + [x])[1..] == s[1..] + [x];
      FilterAppend(s[1..], x, p);
    }
  }

  /** Filtering with two tests that agree everywhere gives the same result. */
  lemma {:induction false} FilterAgreeing<T>(s: seq<T>, p: T -> bool, q: T -> bool)
    requires forall x :: p(x) == q(x)
    ensures Filter(s, p) == Filter(s, q)
  {
    if s != [] {
      FilterAgreeing(s[1..], p, q);
    }
  }

  /** Filtering twice with the same test is filtering once. */
  lemma FilterIdempotent<T>(s: seq<T>, p: T -> bool)
    ensures Filter(Filter(s, p), p) == Filter(s, p)
  {
    FilterSpec(Filter(s, p), p);
  }

  // ---------------------------------------------------------------------
  // Deduplication on a key

  /** Removing the element at position `k` keeps the elements before it
      and after it in order, and takes away exactly one copy of it. */
  lemma RemoveAt<T>(s: seq<T>, k: int)
    requires 0 <= k < |s|
    ensures (s[..k] + s[k + 1..])[..k] == s[..k]
    ensures (s[..k] + s[k + 1..])[k..] == s[k + 1..]
    ensures multiset(s[..k] + s[k + 1..]) + multiset{s[k]} == multiset(s)
  {
    assert s == s[..k] + [s[k]] + s[k + 1..];
  }

  function KeySet<T, K>(key: T -> K, s: seq<T>): set<K> {
    if s == [] then {} else {key(s[0])} + KeySet(key, s[1..])
  }

  lemma {:induction false} KeySetMember<T, K>(key: T -> K, s: seq<T>, k: K)
    ensures k in KeySet(key, s) <==> exists i :: 0 <= i < |s| && key(s[i]) == k
  {
    if s != [] {
      KeySetMember(key, s[1..], k);
      if k in KeySet(key, s[1..]) {
        var i :| 0 <= i < |s[1..]| && key(s[1..][i]) == k;
        assert key(s[i + 1]) == k;
      }
      if exists i :: 0 <= i < |s| && key(s[i]) == k {
        var i :| 0 <= i < |s| && key(s[i]) == k;
        if i > 0 {
          assert key(s[1..][i - 1]) == k;
        }
      }
    }
  }

  lemma {:induction false} KeySetAppend<T, K>(key: T -> K, a: seq<T>, b: seq<T>)
    ensures KeySet(key, a + b) == KeySet(key, a) + KeySet(key, b)
  {
    if a == [] {
      assert a + b == b;
    } else {
      assert (a + b)[0] == a[0];
      assert (a + b)[1..] == a[1..] + b;
      KeySetAppend(key, a[1..], b);
    }
  }

  /** Walk `s` keeping an element when its key has not been met, where the
      keys in `seen` count as met already. */
  function DedupFrom<T, K>(key: T -> K, seen: set<K>, s: seq<T>): seq<T>
    decreases |s|
  {
    if s == [] then []
    else if key(s[0]) in seen then DedupFrom(key, seen, s[1..])
    else [s[0]] + DedupFrom(key, seen + {key(s[0])}, s[1..])
  }

  /** One step of a walk that computes `whole` as `DedupFrom(key, {}, s)`:
      if `kept` followed by the walk over `s[i..]` gives `whole`, so does
      `kept` with `s[i]` added when its key is unseen, followed by the walk
      over `s[i + 1..]` with that key seen. */
  lemma DedupWalkStep<T, K>(key: T -> K, seen: set<K>, s: seq<T>, i: int, kept: seq<T>, whole: seq<T>)
    requires 0 <= i < |s|
    requires kept + DedupFrom(key, seen, s[i..]) == whole
    ensures (if key(s[i]) in seen then kept else kept + [s[i]]) +
            DedupFrom(key, seen + {key(s[i])}, s[i + 1..]) == whole
  {
    assert s[i..][1..] == s[i + 1..];
    if key(s[i]) in seen {
      assert seen + {key(s[i])} == seen;
    } else {
      assert DedupFrom(key, seen, s[i..]) == [s[i]] + DedupFrom(key, seen + {key(s[i])}, s[i + 1..]);
    }
  }

  predicate DistinctKeys<T, K(==)>(key: T -> K, s: seq<T>) {
    forall i, j :: 0 <= i < j < |s| ==> key(s[i]) != key(s[j])
  }

  /** No element before position `i` has the key of `s[i]`. */
  predicate IsFirstOfKey<T, K(==)>(key: T -> K, s: seq<T>, i: int)
    requires 0 <= i < |s|
  {
    forall j :: 0 <= j < i ==> key(s[j]) != key(s[i])
  }

  lemma {:induction false} DedupFromKeys<T, K>(key: T -> K, seen: set<K>, s: seq<T>)
    ensures KeySet(key, DedupFrom(key, seen, s)) == KeySet(key, s) - seen
    decreases |s|
  {
    if s != [] {
      var k := key(s[0]);
      if k in seen {
        DedupFromKeys(key, seen, s[1..]);
      } else {
        var rest := DedupFrom(key, seen + {k}, s[1..]);
        DedupFromKeys(key, seen + {k}, s[1..]);
        assert ([s[0]] + rest)[0] == s[0];
        assert ([s[0]] + rest)[1..] == rest;
      }
    }
  }

  lemma {:induction false} DedupFromDistinct<T, K>(key: T -> K, seen: set<K>, s: seq<T>)
    ensures DistinctKeys(key, DedupFrom(key, seen, s))
    decreases |s|
  {
    if s != [] {
      var k := key(s[0]);
      if k in seen {
        DedupFromDistinct(key, seen, s[1..]);
      } else {
        var rest := DedupFrom(key, seen + {k}, s[1..]);
        DedupFromDistinct(key, seen + {k}, s[1..]);
        DedupFromKeys(key, seen + {k}, s[1..]);
        var r := [s[0]] + rest;
        forall i, j | 0 <= i < j < |r| ensures key(r[i]) != key(r[j]) {
          if i == 0 {
            KeySetMember(key, rest, key(rest[j - 1]));
          } else {
            assert r[i] == rest[i - 1] && r[j] == rest[j - 1];
          }
        }
      }
    }
  }

  lemma {:induction false} DedupFromSubsequence<T, K>(key: T -> K, seen: set<K>, s: seq<T>)
    ensures IsSubsequence(DedupFrom(key, seen, s), s)
    decreases |s|
  {
    if s != [] {
      var k := key(s[0]);
      if k in seen {
        DedupFromSubsequence(key, seen, s[1..]);
      } else {
        var rest := DedupFrom(key, seen + {k}, s[1..]);
        DedupFromSubsequence(key, seen + {k}, s[1..]);
        assert ([s[0]] + rest)[1..] == rest;
      }
    }
  }

  lemma {:induction false} DedupFromKeepsFirst<T, K>(key: T -> K, seen: set<K>, s: seq<T>, i: int)
    requires 0 <= i < |s| && IsFirstOfKey(key, s, i) && key(s[i]) !in seen
    ensures s[i] in DedupFrom(key, seen, s)
    decreases |s|
  {
    var k := key(s[0]);
    var seen' := if k in seen then seen else seen + {k};
    if i > 0 {
      assert IsFirstOfKey(key, s[1..], i - 1) by {
        forall j | 0 <= j < i - 1 ensures key(s[1..][j]) != key(s[1..][i - 1]) {
          assert key(s[j + 1]) != key(s[i]);
        }
      }
      assert key(s[0]) != key(s[i]);
      DedupFromKeepsFirst(key, seen', s[1..], i - 1);
    }
  }

  /** A sequence without repeated keys, none of them seen, passes unchanged. */
  lemma {:induction false} DedupOfDistinct<T, K>(key: T -> K, seen: set<K>, s: seq<T>)
    requires DistinctKeys(key, s) && KeySet(key, s) !! seen
    ensures DedupFrom(key, seen, s) == s
    decreases |s|
  {
    if s != [] {
      var k := key(s[0]);
      KeySetMember(key, s[1..], k);
      forall i | 0 <= i < |s[1..]| ensures key(s[1..][i]) != k {
        assert key(s[0]) != key(s[i + 1]);
      }
      DedupOfDistinct(key, seen + {k}, s[1..]);
    }
  }

  lemma {:induction false} DedupFromAppend<T, K>(key: T -> K, seen: set<K>, a: seq<T>, b: seq<T>)
    ensures DedupFrom(key, seen, a + b) ==
            DedupFrom(key, seen, a) + DedupFrom(key, seen + KeySet(key, a), b)
    decreases |a|
  {
    if a == [] {
      assert a + b == b;
      assert seen + KeySet(key, a) == seen;
    } else {
      assert (a + b)[0] == a[0];
      assert (a + b)[1..] == a[1..] + b;
      var k := key(a[0]);
      if k in seen {
        DedupFromAppend(key, seen, a[1..], b);
        assert seen + KeySet(key, a) == seen + KeySet(key, a[1..]);
      } else {
        DedupFromAppend(key, seen + {k}, a[1..], b);
        assert seen + {k} + KeySet(key, a[1..]) == seen + KeySet(key, a);
      }
    }
  }

  lemma {:induction false} DedupFromSeenAll<T, K>(key: T -> K, seen: set<K>, s: seq<T>)
    requires KeySet(key, s) <= seen
    ensures DedupFrom(key, seen, s) == []
    decreases |s|
  {
    if s != [] {
      DedupFromSeenAll(key, seen, s[1..]);
    }
  }

  /** Sequences whose keys agree position by position have the same key set. */
  lemma {:induction false} KeySetPointwise<T, K>(key: T -> K, a: seq<T>, b: seq<T>)
    requires |a| == |b|
    requires forall i :: 0 <= i < |a| ==> key(a[i]) == key(b[i])
    ensures KeySet(key, a) == KeySet(key, b)
  {
    if a != [] {
      KeySetPointwise(key, a[1..], b[1..]);
    }
  }

  /** Appending elements whose keys all occur already adds nothing to the
      deduplication. */
  lemma DedupAppendSeen<T, K>(key: T -> K, a: seq<T>, b: seq<T>)
    requires KeySet(key, b) <= KeySet(key, a)
    ensures DedupFrom(key, {}, a + b) == DedupFrom(key, {}, a)
  {
    DedupFromAppend(key, {}, a, b);
    DedupFromSeenAll(key, {} + KeySet(key, a), b);
  }
}
