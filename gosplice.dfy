/**
 * The gosplice operations, one method per Go function, each written as the
 * same loop the Go code runs and proved equal to its reference definition in
 * module SliceSpec. Go slices are Dafny sequences; the callbacks are total
 * functions; Go's `comparable` constraint is Dafny's `T(==)`; the
 * `map[T]struct{}` sets kept by Unique and Remove are `set<T>`.
 */
module GoSplice {
  import opened SliceSpec
  import opened SliceLaws

  /**
   * Map: writes f(slice[i]) into a freshly allocated array of the same
   * length, position by position. `U(0)` is Go's zero value that `make`
   * fills the array with before the loop overwrites it.
   */
  method Map<T, U(0)>(slice: seq<T>, f: T -> U) returns (result: seq<U>)
    ensures |result| == |slice|
    ensures forall i | 0 <= i < |slice| :: result[i] == f(slice[i])
    ensures result == MapSeq(slice, f)
  {
    var a := new U[|slice|];
    for i := 0 to |slice|
      invariant forall j | 0 <= j < i :: a[j] == f(slice[j])
    {
      a[i] := f(slice[i]);
    }
    result := a[..];
    MapAt(slice, f);
  }

  /** Reduce: folds left to right, starting from `initial`. */
  method Reduce<T>(slice: seq<T>, f: (T, T) -> T, initial: T) returns (result: T)
    ensures result == FoldLeft(slice, f, initial)
    ensures slice == [] ==> result == initial
  {
    result := initial;
    for i := 0 to |slice|
      invariant result == FoldLeft(slice[..i], f, initial)
    {
      InitLastOfPrefix(slice, i);
      result := f(result, slice[i]);
    }
    assert slice[..|slice|] == slice;
  }

  /** Filter: appends every element that satisfies `f`. */
  method Filter<T>(slice: seq<T>, f: T -> bool) returns (result: seq<T>)
    ensures result == FilterSeq(slice, f)
    ensures forall x | x in result :: f(x)
    ensures forall i | 0 <= i < |slice| :: slice[i] in result <==> f(slice[i])
    ensures IsSubseq(result, slice)
  {
    result := [];
    for i := 0 to |slice|
      invariant result == FilterSeq(slice[..i], f)
    {
      InitLastOfPrefix(slice, i);
      if f(slice[i]) {
        result := result + [slice[i]];
      }
    }
    assert slice[..|slice|] == slice;
    FilterExactly(slice, f);
    FilterSubseq(slice, f);
  }

  /** Some: true as soon as one element satisfies `pred`; false on an empty slice. */
  method Some<T>(slice: seq<T>, pred: T -> bool) returns (b: bool)
    ensures b == Any(slice, pred)
    ensures b <==> exists i | 0 <= i < |slice| :: pred(slice[i])
  {
    AnyIff(slice, pred);
    for i := 0 to |slice|
      invariant forall j | 0 <= j < i :: !pred(slice[j])
    {
      if pred(slice[i]) {
        return true;
      }
    }
    return false;
  }

  /** Every: false as soon as one element fails `f`; true on an empty slice. */
  method Every<T>(slice: seq<T>, f: T -> bool) returns (b: bool)
    ensures b == All(slice, f)
    ensures b <==> forall i | 0 <= i < |slice| :: f(slice[i])
  {
    AllIff(slice, f);
    for i := 0 to |slice|
      invariant forall j | 0 <= j < i :: f(slice[j])
    {
      if !f(slice[i]) {
        return false;
      }
    }
    return true;
  }

  /**
   * Find: the first element satisfying `f` and true, or Go's zero value
   * (passed in as `zero`) and false.
   */
  method Find<T>(slice: seq<T>, f: T -> bool, zero: T) returns (v: T, found: bool)
    ensures found == Any(slice, f)
    ensures found ==> FirstIndex(slice, f) >= 0 && v == slice[FirstIndex(slice, f)] && f(v)
    ensures !found ==> v == zero
  {
    FirstIndexIff(slice, f);
    FirstIndexFoundIffAny(slice, f);
    for i := 0 to |slice|
      invariant forall j | 0 <= j < i :: !f(slice[j])
    {
      if f(slice[i]) {
        return slice[i], true;
      }
    }
    return zero, false;
  }

  /** FindIndex: the position of the first element satisfying `f`, or -1. */
  method FindIndex<T>(slice: seq<T>, f: T -> bool) returns (index: int)
    ensures index == FirstIndex(slice, f)
    ensures -1 <= index < |slice|
    ensures index == -1 <==> forall i | 0 <= i < |slice| :: !f(slice[i])
    ensures index >= 0 ==> f(slice[index]) && forall j | 0 <= j < index :: !f(slice[j])
  {
    FirstIndexIff(slice, f);
    for i := 0 to |slice|
      invariant forall j | 0 <= j < i :: !f(slice[j])
    {
      if f(slice[i]) {
        return i;
      }
    }
    return -1;
  }

  /**
   * ForEach: calls `f` on every element in slice order. The callback's side
   * effect is made explicit as a caller state that each call transforms; the
   * final state is that of calling `f` on slice[0], slice[1], ... in turn.
   */
  method ForEach<S, T>(slice: seq<T>, f: (S, T) -> S, state: S) returns (final: S)
    ensures final == FoldLeft(slice, f, state)
  {
    final := state;
    for i := 0 to |slice|
      invariant final == FoldLeft(slice[..i], f, state)
    {
      InitLastOfPrefix(slice, i);
      final := f(final, slice[i]);
    }
    assert slice[..|slice|] == slice;
  }

  /** Includes: whether some element equals `value`. */
  method Includes<T(==)>(slice: seq<T>, value: T) returns (b: bool)
    ensures b == (value in slice)
  {
    for i := 0 to |slice|
      invariant value !in slice[..i]
    {
      InitLastOfPrefix(slice, i);
      if slice[i] == value {
        return true;
      }
    }
    assert slice[..|slice|] == slice;
    return false;
  }

  /** IndexOf: the position of the first element equal to `value`, or -1. */
  method IndexOf<T(==)>(slice: seq<T>, value: T) returns (index: int)
    ensures index == FirstIndex(slice, x => x == value)
    ensures -1 <= index < |slice|
    ensures index == -1 <==> value !in slice
    ensures index >= 0 ==> slice[index] == value && value !in slice[..index]
  {
    FirstIndexIff(slice, x => x == value);
    for i := 0 to |slice|
      invariant value !in slice[..i]
    {
      InitLastOfPrefix(slice, i);
      if slice[i] == value {
        return i;
      }
    }
    assert slice[..|slice|] == slice;
    return -1;
  }

  /** LastIndexOf: scans from the end; the position of the last element equal to `value`, or -1. */
  method LastIndexOf<T(==)>(slice: seq<T>, value: T) returns (index: int)
    ensures index == LastIndex(slice, x => x == value)
    ensures -1 <= index < |slice|
    ensures index == -1 <==> value !in slice
    ensures index >= 0 ==> slice[index] == value && value !in slice[index + 1..]
  {
    LastIndexIff(slice, x => x == value);
    var i := |slice| - 1;
    while i >= 0
      invariant -1 <= i < |slice|
      invariant value !in slice[i + 1..]
    {
      if slice[i] == value {
        return i;
      }
      i := i - 1;
    }
    return -1;
  }

  /** Flat: appends every inner slice in turn. */
  method Flat<T>(slice: seq<seq<T>>) returns (result: seq<T>)
    ensures result == Flatten(slice)
    ensures |result| == TotalLength(slice)
  {
    result := [];
    for i := 0 to |slice|
      invariant result == Flatten(slice[..i])
    {
      InitLastOfPrefix(slice, i);
      result := result + slice[i];
    }
    assert slice[..|slice|] == slice;
    FlattenLength(slice);
  }

  /** FlatMap: appends f(v) for every element v, without building the nested slice. */
  method FlatMap<T, U>(slice: seq<T>, f: T -> seq<U>) returns (result: seq<U>)
    ensures result == FlatMapSeq(slice, f)
    ensures result == Flatten(MapSeq(slice, f))
  {
    result := [];
    for i := 0 to |slice|
      invariant result == FlatMapSeq(slice[..i], f)
    {
      InitLastOfPrefix(slice, i);
      result := result + f(slice[i]);
    }
    assert slice[..|slice|] == slice;
    FlatMapIsFlatOfMap(slice, f);
  }

  /**
   * Reverse: allocates a new array and writes slice[i] at position n-1-i;
   * the input is left as it was. `T(0)` is the zero value `make` fills with.
   */
  method Reverse<T(0)>(slice: seq<T>) returns (res: seq<T>)
    ensures res == Reversed(slice)
    ensures |res| == |slice|
    ensures forall i | 0 <= i < |slice| :: res[|slice| - 1 - i] == slice[i]
  {
    var n := |slice|;
    var a := new T[n];
    for i := 0 to n
      invariant forall j | 0 <= j < i :: a[n - 1 - j] == slice[j]
    {
      a[n - 1 - i] := slice[i];
    }
    res := a[..];
    ReversedAt(slice);
  }

  /**
   * Unique: keeps a set of the values seen so far and appends an element
   * only the first time its value is seen.
   */
  method Unique<T(==)>(slice: seq<T>) returns (result: seq<T>)
    ensures result == Dedup(slice)
    ensures NoDuplicates(result)
    ensures forall x :: x in result <==> x in slice
    ensures IsSubseq(result, slice)
  {
    var seen: set<T> := {};
    result := [];
    for i := 0 to |slice|
      invariant forall x :: x in seen <==> x in slice[..i]
      invariant result == Dedup(slice[..i])
    {
      InitLastOfPrefix(slice, i);
      if slice[i] !in seen {
        seen := seen + {slice[i]};
        result := result + [slice[i]];
      }
    }
    assert slice[..|slice|] == slice;
    DedupNoDuplicates(slice);
    DedupSameValues(slice);
    DedupSubseq(slice);
  }

  /**
   * Chunk: no chunks when `size` is not positive; otherwise the pieces
   * slice[i:min(i+size, n)] for i = 0, size, 2*size, ...
   */
  method Chunk<T>(slice: seq<T>, size: int) returns (chunks: seq<seq<T>>)
    ensures chunks == Chunked(slice, size)
    ensures size <= 0 ==> chunks == []
    ensures size > 0 ==> Flatten(chunks) == slice
    ensures size > 0 ==> |chunks| == (|slice| + size - 1) / size
    ensures forall k | 0 <= k < |chunks| :: 0 < |chunks[k]| <= size
    ensures forall k | 0 <= k < |chunks| - 1 :: |chunks[k]| == size
  {
    if size <= 0 {
      return [];
    }
    chunks := [];
    var i := 0;
    while i < |slice|
      invariant 0 <= i
      invariant chunks + Chunked(if i < |slice| then slice[i..] else [], size) == Chunked(slice, size)
      decreases |slice| - i
    {
      var end := i + size;
      if end > |slice| {
        end := |slice|;
      }
      ghost var rest := slice[i..];
      if |rest| <= size {
        assert slice[i..end] == rest;
      } else {
        assert slice[i..end] == rest[..size];
        assert slice[i + size..] == rest[size..];
      }
      chunks := chunks + [slice[i..end]];
      i := i + size;
    }
    ChunkedFlatten(slice, size);
    ChunkedCount(slice, size);
    ChunkedShape(slice, size);
  }

  /**
   * Remove: first builds the set of values to remove, returns an empty
   * result for an empty slice, and otherwise appends every element whose
   * value is not in that set.
   */
  method Remove<T(==)>(slice: seq<T>, remove: seq<T>) returns (result: seq<T>)
    ensures result == Without(slice, remove)
    ensures forall x | x in result :: x !in remove
    ensures forall i | 0 <= i < |slice| :: slice[i] in result <==> slice[i] !in remove
    ensures IsSubseq(result, slice)
  {
    var removeSet: set<T> := {};
    for j := 0 to |remove|
      invariant forall x :: x in removeSet <==> x in remove[..j]
    {
      InitLastOfPrefix(remove, j);
      removeSet := removeSet + {remove[j]};
    }
    assert remove[..|remove|] == remove;
    RemoveExactly(slice, remove);

    if |slice| == 0 {
      return [];
    }

    result := [];
    for i := 0 to |slice|
      invariant result == Without(slice[..i], remove)
    {
      InitLastOfPrefix(slice, i);
      if slice[i] !in removeSet {
        result := result + [slice[i]];
      }
    }
    assert slice[..|slice|] == slice;
  }
}
