/**
 * What the reference definitions of module SliceSpec mean, and the laws that
 * relate the gosplice operations to each other.
 */
module SliceLaws {
  import opened SliceSpec

  // ---------------------------------------------------------------------------
  // Small facts about Init and Last
  // ---------------------------------------------------------------------------

  lemma InitLast<T>(s: seq<T>)
    requires s != []
    ensures s == Init(s) + [Last(s)]
  {
  }

  lemma InitLastOfSnoc<T>(a: seq<T>, x: T)
    ensures Init(a + [x]) == a && Last(a + [x]) == x
  {
  }

  lemma InitLastOfPrefix<T>(s: seq<T>, k: nat)
    requires k < |s|
    ensures Init(s[..k + 1]) == s[..k] && Last(s[..k + 1]) == s[k]
  {
  }

  // ---------------------------------------------------------------------------
  // Map and Reduce
  // ---------------------------------------------------------------------------

  /** Map keeps the length and applies `f` position by position. */
  lemma {:induction false} MapAt<T, U>(s: seq<T>, f: T -> U)
    ensures |MapSeq(s, f)| == |s|
    ensures forall i | 0 <= i < |s| :: MapSeq(s, f)[i] == f(s[i])
  {
    if s != [] {
      MapAt(Init(s), f);
    }
  }

  /**
   * The fold is left to right: folding `a + b` folds `a` first and continues
   * from its result with `b`.
   */
  lemma {:induction false} FoldLeftAppend<A, T>(a: seq<T>, b: seq<T>, f: (A, T) -> A, z: A)
    ensures FoldLeft(a + b, f, z) == FoldLeft(b, f, FoldLeft(a, f, z))
  {
    if b == [] {
      assert a + b == a;
    } else {
      assert Init(a + b) == a + Init(b);
      assert Last(a + b) == Last(b);
      FoldLeftAppend(a, Init(b), f, z);
    }
  }

  /** Summing [1, 2, 3] from 0 gives 6. */
  lemma ReduceSumExample()
    ensures FoldLeft([1, 2, 3], (acc: int, n: int) => acc + n, 0) == 6
  {
    var add := (acc: int, n: int) => acc + n;
    assert [1, 2, 3] == [1, 2] + [3];
    FoldLeftAppend([1, 2], [3], add, 0);
    assert [1, 2] == [1] + [2];
    FoldLeftAppend([1], [2], add, 0);
    assert [1] == [] + [1];
    FoldLeftAppend([], [1], add, 0);
  }

  /**
   * The ForEach callback whose only effect is to append `g(x)` to a trace
   * owned by the caller, with the trace made explicit as the state.
   */
  function Recorder<T, E>(g: T -> E): (seq<E>, T) -> seq<E>
  {
    (trace: seq<E>, x: T) => trace + [g(x)]
  }

  /**
   * ForEach visits the elements in slice order: a recording callback leaves
   * the trace extended by `g` of every element, first to last.
   */
  lemma {:induction false} ForEachTraceInOrder<T, E>(s: seq<T>, g: T -> E, trace: seq<E>)
    ensures FoldLeft(s, Recorder(g), trace) == trace + MapSeq(s, g)
  {
    if s != [] {
      ForEachTraceInOrder(Init(s), g, trace);
    }
  }

  // ---------------------------------------------------------------------------
  // Subsequences
  // ---------------------------------------------------------------------------

  lemma SubseqDropLast<T>(a: seq<T>, b: seq<T>, x: T)
    requires IsSubseq(a, b)
    ensures IsSubseq(a, b + [x])
  {
    InitLastOfSnoc(b, x);
  }

  lemma SubseqKeepLast<T>(a: seq<T>, b: seq<T>, x: T)
    requires IsSubseq(a, b)
    ensures IsSubseq(a + [x], b + [x])
  {
    InitLastOfSnoc(a, x);
    InitLastOfSnoc(b, x);
  }

  // ---------------------------------------------------------------------------
  // Filter and Remove
  // ---------------------------------------------------------------------------

  /**
   * Filter keeps exactly the elements satisfying `p`: everything kept
   * satisfies `p`, and an element of `s` is kept iff it satisfies `p`.
   */
  lemma {:induction false} FilterExactly<T>(s: seq<T>, p: T -> bool)
    ensures forall x | x in FilterSeq(s, p) :: x in s && p(x)
    ensures forall i | 0 <= i < |s| :: s[i] in FilterSeq(s, p) <==> p(s[i])
  {
    if s != [] {
      FilterExactly(Init(s), p);
      InitLast(s);
    }
  }

  /** Filter keeps every occurrence of a satisfying value and none of the others. */
  lemma {:induction false} FilterCount<T>(s: seq<T>, p: T -> bool)
    ensures forall x :: multiset(FilterSeq(s, p))[x] == if p(x) then multiset(s)[x] else 0
  {
    if s != [] {
      FilterCount(Init(s), p);
      InitLast(s);
      assert multiset(s) == multiset(Init(s)) + multiset{Last(s)};
      var kept := if p(Last(s)) then [Last(s)] else [];
      assert multiset(FilterSeq(s, p)) == multiset(FilterSeq(Init(s), p)) + multiset(kept);
    }
  }

  /** Filter preserves the relative order of what it keeps. */
  lemma {:induction false} FilterSubseq<T>(s: seq<T>, p: T -> bool)
    ensures IsSubseq(FilterSeq(s, p), s)
  {
    if s != [] {
      FilterSubseq(Init(s), p);
      InitLast(s);
      if p(Last(s)) {
        SubseqKeepLast(FilterSeq(Init(s), p), Init(s), Last(s));
      } else {
        assert FilterSeq(s, p) == FilterSeq(Init(s), p);
        SubseqDropLast(FilterSeq(Init(s), p), Init(s), Last(s));
      }
    }
  }

  /** Remove is Filter with the predicate "does not occur in the removal list". */
  lemma {:induction false} RemoveIsFilter<T>(s: seq<T>, rs: seq<T>, p: T -> bool)
    requires forall x :: p(x) == (x !in rs)
    ensures Without(s, rs) == FilterSeq(s, p)
  {
    if s != [] {
      RemoveIsFilter(Init(s), rs, p);
    }
  }

  /**
   * Remove drops exactly the elements whose value occurs in `rs`, keeps the
   * rest in order, and with it every occurrence of a surviving value.
   */
  lemma RemoveExactly<T>(s: seq<T>, rs: seq<T>)
    ensures forall x | x in Without(s, rs) :: x in s && x !in rs
    ensures forall i | 0 <= i < |s| :: s[i] in Without(s, rs) <==> s[i] !in rs
    ensures forall x :: multiset(Without(s, rs))[x] == if x in rs then 0 else multiset(s)[x]
    ensures IsSubseq(Without(s, rs), s)
  {
    var p := x => x !in rs;
    RemoveIsFilter(s, rs, p);
    FilterExactly(s, p);
    FilterCount(s, p);
    FilterSubseq(s, p);
  }

  // ---------------------------------------------------------------------------
  // Some, Every, Includes
  // ---------------------------------------------------------------------------

  /** Some holds iff some element satisfies `p`. */
  lemma {:induction false} AnyIff<T>(s: seq<T>, p: T -> bool)
    ensures Any(s, p) <==> exists i | 0 <= i < |s| :: p(s[i])
  {
    if s != [] {
      AnyIff(Init(s), p);
      InitLast(s);
      if Any(s, p) && !p(Last(s)) {
        var i :| 0 <= i < |Init(s)| && p(Init(s)[i]);
        assert p(s[i]);
      }
    }
  }

  /** Every holds iff every element satisfies `p`. */
  lemma {:induction false} AllIff<T>(s: seq<T>, p: T -> bool)
    ensures All(s, p) <==> forall i | 0 <= i < |s| :: p(s[i])
  {
    if s != [] {
      AllIff(Init(s), p);
      InitLast(s);
    }
  }

  /** Every(s, p) is the negation of Some(s, not p). */
  lemma {:induction false} EveryIsNotSomeNot<T>(s: seq<T>, p: T -> bool, q: T -> bool)
    requires forall x :: q(x) == !p(x)
    ensures All(s, p) == !Any(s, q)
  {
    if s != [] {
      EveryIsNotSomeNot(Init(s), p, q);
    }
  }

  /** Includes(s, v) is Some(s, x => x == v). */
  lemma {:induction false} IncludesIsSome<T>(s: seq<T>, v: T, q: T -> bool)
    requires forall x :: q(x) == (x == v)
    ensures (v in s) == Any(s, q)
  {
    AnyIff(s, q);
  }

  // ---------------------------------------------------------------------------
  // Searches
  // ---------------------------------------------------------------------------

  /**
   * FindIndex gives -1 iff nothing matches, and otherwise the least matching
   * position: it matches and every earlier element does not.
   */
  lemma {:induction false} FirstIndexIff<T>(s: seq<T>, p: T -> bool)
    ensures FirstIndex(s, p) == -1 <==> forall i | 0 <= i < |s| :: !p(s[i])
    ensures FirstIndex(s, p) >= 0 ==>
      p(s[FirstIndex(s, p)]) && forall i | 0 <= i < FirstIndex(s, p) :: !p(s[i])
  {
    if s != [] {
      FirstIndexIff(Init(s), p);
      InitLast(s);
    }
  }

  /** The two search results agree: FindIndex finds something iff Some holds. */
  lemma {:induction false} FirstIndexFoundIffAny<T>(s: seq<T>, p: T -> bool)
    ensures FirstIndex(s, p) >= 0 <==> Any(s, p)
  {
    FirstIndexIff(s, p);
    AnyIff(s, p);
  }

  /**
   * LastIndexOf gives -1 iff nothing matches, and otherwise the greatest
   * matching position: it matches and every later element does not.
   */
  lemma {:induction false} LastIndexIff<T>(s: seq<T>, p: T -> bool)
    ensures LastIndex(s, p) == -1 <==> forall i | 0 <= i < |s| :: !p(s[i])
    ensures LastIndex(s, p) >= 0 ==>
      p(s[LastIndex(s, p)]) && forall i | LastIndex(s, p) < i < |s| :: !p(s[i])
  {
    if s != [] {
      LastIndexIff(Init(s), p);
      InitLast(s);
    }
  }

  /** Searching backwards is searching forwards in the reversed sequence. */
  lemma LastIndexViaReverse<T>(s: seq<T>, p: T -> bool)
    ensures var k := FirstIndex(Reversed(s), p);
            LastIndex(s, p) == if k == -1 then -1 else |s| - 1 - k
  {
    var r := Reversed(s);
    var k := FirstIndex(r, p);
    var m := LastIndex(s, p);
    ReversedAt(s);
    FirstIndexIff(r, p);
    LastIndexIff(s, p);
    if k == -1 {
      forall i | 0 <= i < |s| ensures !p(s[i]) {
        assert s[i] == r[|s| - 1 - i];
      }
    } else {
      // r[k] is s[|s| - 1 - k], so s has a match there ...
      assert r[k] == s[|s| - 1 - k];
      assert p(s[|s| - 1 - k]);
      assert m >= |s| - 1 - k;
      // ... and r has none before k, so s has none after it.
      forall i | |s| - 1 - k < i < |s| ensures !p(s[i]) {
        assert s[i] == r[|s| - 1 - i];
      }
      assert m <= |s| - 1 - k;
      assert m == |s| - 1 - k;
    }
  }

  // ---------------------------------------------------------------------------
  // Flat and FlatMap
  // ---------------------------------------------------------------------------

  /** Flattening a concatenation flattens each part. */
  lemma {:induction false} FlattenAppend<T>(a: seq<seq<T>>, b: seq<seq<T>>)
    ensures Flatten(a + b) == Flatten(a) + Flatten(b)
  {
    if b == [] {
      assert a + b == a;
    } else {
      var c := a + b;
      assert Init(c) == a + Init(b);
      assert Last(c) == Last(b);
      FlattenAppend(a, Init(b));
      calc {
        Flatten(c);
        Flatten(a + Init(b)) + Last(b);
        (Flatten(a) + Flatten(Init(b))) + Last(b);
        Flatten(a) + (Flatten(Init(b)) + Last(b));
        Flatten(a) + Flatten(b);
      }
    }
  }

  /** The flattened sequence is as long as all inner sequences together. */
  lemma {:induction false} FlattenLength<T>(ss: seq<seq<T>>)
    ensures |Flatten(ss)| == TotalLength(ss)
  {
    if ss != [] {
      FlattenLength(Init(ss));
    }
  }

  /** FlatMap is Flat after Map. */
  lemma {:induction false} FlatMapIsFlatOfMap<T, U>(s: seq<T>, f: T -> seq<U>)
    ensures FlatMapSeq(s, f) == Flatten(MapSeq(s, f))
  {
    if s != [] {
      FlatMapIsFlatOfMap(Init(s), f);
      InitLastOfSnoc(MapSeq(Init(s), f), f(Last(s)));
    }
  }

  /** FlatMap of [1, 2, 3] with n => [n, n] is [1, 1, 2, 2, 3, 3]. */
  lemma FlatMapExample()
    ensures FlatMapSeq([1, 2, 3], (n: int) => [n, n]) == [1, 1, 2, 2, 3, 3]
  {
    InitLastOfSnoc([1, 2], 3);
    InitLastOfSnoc([1], 2);
    InitLastOfSnoc([], 1);
  }

  // ---------------------------------------------------------------------------
  // Reverse
  // ---------------------------------------------------------------------------

  /** Position i of the reversal holds the element at the mirrored position. */
  lemma {:induction false} ReversedAt<T>(s: seq<T>)
    ensures forall i | 0 <= i < |s| :: Reversed(s)[i] == s[|s| - 1 - i]
  {
    if s != [] {
      ReversedAt(Init(s));
    }
  }

  /** Reversing twice gives the original sequence back. */
  lemma ReverseInvolution<T>(s: seq<T>)
    ensures Reversed(Reversed(s)) == s
  {
    ReversedAt(s);
    ReversedAt(Reversed(s));
  }

  /** Empty and one-element sequences are their own reversal. */
  lemma ReverseShortFixed<T>(s: seq<T>)
    requires |s| <= 1
    ensures Reversed(s) == s
  {
    ReversedAt(s);
  }

  // ---------------------------------------------------------------------------
  // Unique
  // ---------------------------------------------------------------------------

  /** Unique keeps the set of values. */
  lemma {:induction false} DedupSameValues<T>(s: seq<T>)
    ensures forall x :: x in Dedup(s) <==> x in s
  {
    if s != [] {
      DedupSameValues(Init(s));
      InitLast(s);
    }
  }

  /** Unique leaves no value twice. */
  lemma {:induction false} DedupNoDuplicates<T>(s: seq<T>)
    ensures NoDuplicates(Dedup(s))
  {
    if s != [] {
      DedupNoDuplicates(Init(s));
      DedupSameValues(Init(s));
    }
  }

  /** Unique preserves the relative order of what it keeps. */
  lemma {:induction false} DedupSubseq<T>(s: seq<T>)
    ensures IsSubseq(Dedup(s), s)
  {
    if s != [] {
      DedupSubseq(Init(s));
      InitLast(s);
      if Last(s) in Init(s) {
        SubseqDropLast(Dedup(Init(s)), Init(s), Last(s));
      } else {
        SubseqKeepLast(Dedup(Init(s)), Init(s), Last(s));
      }
    }
  }

  /** A sequence without duplicates is left unchanged by Unique. */
  lemma {:induction false} DedupOfDistinct<T>(s: seq<T>)
    requires NoDuplicates(s)
    ensures Dedup(s) == s
  {
    if s != [] {
      InitLast(s);
      assert NoDuplicates(Init(s));
      DedupOfDistinct(Init(s));
    }
  }

  /** Applying Unique a second time changes nothing. */
  lemma DedupIdempotent<T>(s: seq<T>)
    ensures Dedup(Dedup(s)) == Dedup(s)
  {
    DedupNoDuplicates(s);
    DedupOfDistinct(Dedup(s));
  }

  /**
   * First-occurrence order: the result for a prefix of `s` is a prefix of the
   * result for `s`, so the values first seen earlier in `s` come first.
   */
  lemma {:induction false} DedupPrefix<T>(s: seq<T>, k: nat)
    requires k <= |s|
    ensures Dedup(s[..k]) <= Dedup(s)
  {
    if k < |s| {
      assert s[..k] == Init(s)[..k];
      DedupPrefix(Init(s), k);
    } else {
      assert s[..k] == s;
    }
  }

  /** Unique of [1, 2, 2, 3, 4, 4, 5] is [1, 2, 3, 4, 5]. */
  lemma DedupExample()
    ensures Dedup([1, 2, 2, 3, 4, 4, 5]) == [1, 2, 3, 4, 5]
  {
    assert [1, 2] == [1] + [2];
    assert [1, 2, 2] == [1, 2] + [2];
    assert [1, 2, 2, 3] == [1, 2, 2] + [3];
    assert [1, 2, 2, 3, 4] == [1, 2, 2, 3] + [4];
    assert [1, 2, 2, 3, 4, 4] == [1, 2, 2, 3, 4] + [4];
    assert [1, 2, 2, 3, 4, 4, 5] == [1, 2, 2, 3, 4, 4] + [5];
    assert Dedup([1]) == [1];
    assert Dedup([1, 2]) == [1, 2];
    assert Dedup([1, 2, 2]) == [1, 2];
    assert Dedup([1, 2, 2, 3]) == [1, 2, 3];
    assert Dedup([1, 2, 2, 3, 4]) == [1, 2, 3, 4];
    assert Dedup([1, 2, 2, 3, 4, 4]) == [1, 2, 3, 4];
  }

  // ---------------------------------------------------------------------------
  // Chunk
  // ---------------------------------------------------------------------------

  /**
   * Every chunk is non-empty and at most `size` long, and every chunk but the
   * last is exactly `size` long.
   */
  lemma {:induction false} ChunkedShape<T>(s: seq<T>, size: int)
    requires size > 0
    ensures forall i | 0 <= i < |Chunked(s, size)| :: 0 < |Chunked(s, size)[i]| <= size
    ensures forall i | 0 <= i < |Chunked(s, size)| - 1 :: |Chunked(s, size)[i]| == size
    decreases |s|
  {
    if |s| > size {
      ChunkedShape(s[size..], size);
    }
  }

  /** There are ceil(|s| / size) chunks. */
  lemma {:induction false} ChunkedCount<T>(s: seq<T>, size: int)
    requires size > 0
    ensures |Chunked(s, size)| == (|s| + size - 1) / size
    decreases |s|
  {
    if s == [] {
      DivOfSmall(size - 1, size);
    } else if |s| <= size {
      DivStep(|s| - 1, size);
      DivOfSmall(|s| - 1, size);
    } else {
      ChunkedCount(s[size..], size);
      DivStep(|s| - 1, size);
    }
  }

  lemma DivOfSmall(x: int, n: int)
    requires 0 <= x < n
    ensures x / n == 0
  {
  }

  lemma DivStep(x: int, n: int)
    requires n > 0 && x >= 0
    ensures (x + n) / n == x / n + 1
  {
    var q := x / n;
    assert q * n <= x < q * n + n;
    assert (q + 1) * n == q * n + n;
    DivByBounds(x + n, n, q + 1);
  }

  lemma MulLe(a: int, b: int, n: int)
    requires a <= b && n > 0
    ensures a * n <= b * n
  {
    assert b * n - a * n == (b - a) * n;
  }

  /** The quotient is the k with k * n <= x < (k + 1) * n. */
  lemma DivByBounds(x: int, n: int, k: int)
    requires n > 0 && k * n <= x < k * n + n
    ensures x / n == k
  {
    var q := x / n;
    assert q * n <= x < q * n + n;
    if q < k {
      MulLe(q + 1, k, n);
    } else if q > k {
      MulLe(k + 1, q, n);
    }
  }

  /** Flattening the chunks gives the original sequence back. */
  lemma {:induction false} ChunkedFlatten<T>(s: seq<T>, size: int)
    requires size > 0
    ensures Flatten(Chunked(s, size)) == s
    decreases |s|
  {
    if s == [] {
    } else if |s| <= size {
      FlattenSingle(s);
    } else {
      var head, tail := s[..size], s[size..];
      assert Chunked(s, size) == [head] + Chunked(tail, size);
      ChunkedFlatten(tail, size);
      FlattenAppend([head], Chunked(tail, size));
      FlattenSingle(head);
      assert s == head + tail;
    }
  }

  lemma FlattenSingle<T>(a: seq<T>)
    ensures Flatten([a]) == a
  {
    assert Init([a]) == [] && Last([a]) == a;
  }

  /** Chunking [0..9] by 3 gives [[0,1,2], [3,4,5], [6,7,8], [9]]. */
  lemma ChunkedExample()
    ensures Chunked([0, 1, 2, 3, 4, 5, 6, 7, 8, 9], 3) == [[0, 1, 2], [3, 4, 5], [6, 7, 8], [9]]
  {
    var s := [0, 1, 2, 3, 4, 5, 6, 7, 8, 9];
    assert s[..3] == [0, 1, 2] && s[3..] == [3, 4, 5, 6, 7, 8, 9];
    var t := s[3..];
    assert t[..3] == [3, 4, 5] && t[3..] == [6, 7, 8, 9];
    var u := t[3..];
    assert u[..3] == [6, 7, 8] && u[3..] == [9];
  }
}
