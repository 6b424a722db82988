/**
 * Reference definitions of the gosplice slice operations.
 *
 * The operations' definitions here are pure, recursive functions over Dafny
 * sequences. The ones that describe a left-to-right loop which appends to a
 * result (Map, Reduce, Filter, Flat, FlatMap, Unique, Remove) peel off the LAST
 * element, so that "the result after processing the prefix s[..i]" is
 * literally the function applied to s[..i]. The methods in module GoSplice
 * are proved equal to these functions, and module SliceLaws proves what the
 * functions mean.
 */
module SliceSpec {

  /** All elements but the last. */
  function Init<T>(s: seq<T>): seq<T>
    requires s != []
  {
    s[..|s| - 1]
  }

  /** The last element. */
  function Last<T>(s: seq<T>): T
    requires s != []
  {
    s[|s| - 1]
  }

  /** `f` applied to every element, in order (Map). */
  function MapSeq<T, U>(s: seq<T>, f: T -> U): (r: seq<U>)
    ensures |r| == |s|
  {
    if s == [] then [] else MapSeq(Init(s), f) + [f(Last(s))]
  }

  /**
   * Left-to-right fold: the accumulator starts at `init` and is combined with
   * each element in turn (Reduce, and the state a ForEach callback threads).
   */
  function FoldLeft<A, T>(s: seq<T>, f: (A, T) -> A, init: A): A
  {
    if s == [] then init else f(FoldLeft(Init(s), f, init), Last(s))
  }

  /** The elements satisfying `p`, in their original order (Filter). */
  function FilterSeq<T>(s: seq<T>, p: T -> bool): (r: seq<T>)
    ensures |r| <= |s|
  {
    if s == [] then []
    else FilterSeq(Init(s), p) + (if p(Last(s)) then [Last(s)] else [])
  }

  /** Some element satisfies `p` (Some). */
  predicate Any<T>(s: seq<T>, p: T -> bool)
  {
    s != [] && (Any(Init(s), p) || p(Last(s)))
  }

  /** Every element satisfies `p` (Every). */
  predicate All<T>(s: seq<T>, p: T -> bool)
  {
    s == [] || (All(Init(s), p) && p(Last(s)))
  }

  /** Position of the first element satisfying `p`, or -1 (FindIndex). */
  function FirstIndex<T>(s: seq<T>, p: T -> bool): (k: int)
    ensures -1 <= k < |s|
  {
    if s == [] then -1
    else
      var k := FirstIndex(Init(s), p);
      if k >= 0 then k else if p(Last(s)) then |s| - 1 else -1
  }

  /** Position of the last element satisfying `p`, or -1 (LastIndexOf). */
  function LastIndex<T>(s: seq<T>, p: T -> bool): (k: int)
    ensures -1 <= k < |s|
  {
    if s == [] then -1
    else if p(Last(s)) then |s| - 1
    else LastIndex(Init(s), p)
  }

  /** Concatenation of the inner sequences, in order (Flat). */
  function Flatten<T>(ss: seq<seq<T>>): seq<T>
  {
    if ss == [] then [] else Flatten(Init(ss)) + Last(ss)
  }

  /** Sum of the lengths of the inner sequences. */
  function TotalLength<T>(ss: seq<seq<T>>): nat
  {
    if ss == [] then 0 else TotalLength(Init(ss)) + |Last(ss)|
  }

  /**
   * The sequences `f` yields for the elements, concatenated in order, built
   * in one pass without the intermediate nested sequence (FlatMap).
   */
  function FlatMapSeq<T, U>(s: seq<T>, f: T -> seq<U>): seq<U>
  {
    if s == [] then [] else FlatMapSeq(Init(s), f) + f(Last(s))
  }

  /** The elements in the opposite order (Reverse). */
  function Reversed<T>(s: seq<T>): (r: seq<T>)
    ensures |r| == |s|
  {
    if s == [] then [] else [Last(s)] + Reversed(Init(s))
  }

  /** The first occurrence of every value, in order of first occurrence (Unique). */
  function Dedup<T(==)>(s: seq<T>): (r: seq<T>)
    ensures |r| <= |s|
  {
    if s == [] then []
    else if Last(s) in Init(s) then Dedup(Init(s))
    else Dedup(Init(s)) + [Last(s)]
  }

  /** The elements whose value does not occur in `rs`, in order (Remove). */
  function Without<T(==)>(s: seq<T>, rs: seq<T>): (r: seq<T>)
    ensures |r| <= |s|
  {
    if s == [] then []
    else Without(Init(s), rs) + (if Last(s) in rs then [] else [Last(s)])
  }

  /**
   * Consecutive pieces of `size` elements, the last one possibly shorter;
   * no pieces at all when `size` is not positive (Chunk).
   */
  function Chunked<T>(s: seq<T>, size: int): seq<seq<T>>
    decreases |s|
  {
    if size <= 0 || s == [] then []
    else if |s| <= size then [s]
    else [s[..size]] + Chunked(s[size..], size)
  }

  /** `a` is obtained from `b` by deleting some elements. */
  predicate IsSubseq<T(==)>(a: seq<T>, b: seq<T>)
    decreases |b|
  {
    if a == [] then true
    else if b == [] then false
    else (Last(a) == Last(b) && IsSubseq(Init(a), Init(b))) || IsSubseq(a, Init(b))
  }

  /** No value occurs twice. */
  predicate NoDuplicates<T(==)>(s: seq<T>)
  {
    forall i, j | 0 <= i < j < |s| :: s[i] != s[j]
  }
}
