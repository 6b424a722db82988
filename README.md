# gosplice in Dafny

gosplice is a small Go library of generic, functional-style operations on
slices: `Map`, `Reduce`, `Filter`, `Some`, `Every`, `Find`, `FindIndex`,
`ForEach`, `Includes`, `IndexOf`, `LastIndexOf`, `Flat`, `FlatMap`,
`Reverse`, `Unique`, `Chunk` and `Remove`. Each one runs one sequential
loop over an in-memory slice, with a caller-supplied callback or value;
`Remove` runs two, one to collect the values to drop and one to filter.

This project models the whole library in three modules:

- `SliceSpec` (`slice_spec.dfy`) gives a pure, recursive reference definition
  for every operation except `Includes`, which is specified with Dafny's `in`,
  and `Find`, which is specified through `Any` and `FirstIndex`. The definitions that describe an appending loop peel
  off the last element. The result for the prefix `s[..i]` is then the
  function applied to `s[..i]`.
- `SliceLaws` (`slice_laws.dfy`) proves what those definitions mean and how
  the operations relate. It covers these laws:
  - the pointwise meaning of each operation;
  - the Every/Some duality;
  - FlatMap being Flat after Map;
  - Reverse being an involution;
  - Flat undoing Chunk;
  - Remove being a Filter;
  - the deduplication properties of Unique.
- `GoSplice` (`gosplice.dfy`) has one method per Go function. Each method
  runs the same loop as the Go code, with the same early returns, the same
  index arithmetic and the same hash sets (as `set<T>`). Loop invariants
  prove it equal to its reference definition. Its postconditions also
  repeat the characterising laws, so a caller gets them directly.

Go slices are Dafny sequences, callbacks are total Dafny functions, and
`comparable` is `T(==)`. `Map` and `Reverse` write into a freshly allocated
array, as Go's `make` does. For that they need `U(0)`/`T(0)`, the Dafny
counterpart of Go's zero value. `Find` returns Go's zero value when nothing
matches; the model takes that value as an explicit parameter `zero`.

`Reverse` allocates a new slice and leaves its input alone.

## Model

| member | source | states |
|---|---|---|
| `GoSplice.Map` | gosplice.go:4-10 | the result has the input's length and holds `f(slice[i])` at every position i; it equals `MapSeq` |
| `GoSplice.Reduce` | gosplice.go:13-19 | the result is the left-to-right fold of `f` starting from `initial`; it is `initial` for an empty slice |
| `GoSplice.Filter` | gosplice.go:22-30 | the result equals `FilterSeq`: everything kept satisfies `f`, an element is kept iff it satisfies `f`, and the order is the input's |
| `GoSplice.Some` | gosplice.go:33-40 | true iff some element satisfies the predicate (so false on an empty slice) |
| `GoSplice.Every` | gosplice.go:43-50 | true iff every element satisfies `f` (so true on an empty slice) |
| `GoSplice.Find` | gosplice.go:53-61 | found iff some element matches; then the value is the element at the first matching index, and it matches; otherwise the value is the given zero value |
| `GoSplice.FindIndex` | gosplice.go:64-71 | -1 iff no element matches; otherwise the least matching index, with every earlier element failing |
| `GoSplice.ForEach` | gosplice.go:74-78 | the caller's state after the calls is that of calling `f` on the elements one after another in slice order |
| `GoSplice.Includes` | gosplice.go:81-88 | true iff the value occurs in the slice |
| `GoSplice.IndexOf` | gosplice.go:91-98 | -1 iff the value does not occur; otherwise the first index holding it |
| `GoSplice.LastIndexOf` | gosplice.go:101-108 | -1 iff the value does not occur; otherwise the last index holding it, with no later occurrence |
| `GoSplice.Flat` | gosplice.go:111-117 | the result is the ordered concatenation of the inner slices; its length is the sum of their lengths |
| `GoSplice.FlatMap` | gosplice.go:120-126 | the single-pass result equals Flat applied to Map |
| `GoSplice.Reverse` | gosplice.go:129-136 | a new sequence of the same length with `slice[i]` at position n-1-i; it equals `Reversed` |
| `GoSplice.Unique` | gosplice.go:139-150 | the result equals `Dedup`: no duplicates, the same set of values as the input, and a subsequence of the input |
| `GoSplice.Chunk` | gosplice.go:153-167 | no chunks for size <= 0; otherwise ceil(n/size) chunks, each non-empty and at most size long, all but the last exactly size long, and their concatenation is the input |
| `GoSplice.Remove` | gosplice.go:170-192 | the result equals `Without`: no surviving element occurs in `remove`, every element not in `remove` survives, and the order is kept |
| `SliceSpec.MapSeq` | gosplice.go:4-10 | Map keeps the length |
| `SliceSpec.FilterSeq` | gosplice.go:22-30 | Filter never grows the slice |
| `SliceSpec.FoldLeft` | gosplice.go:13-19 | the left-to-right fold that Reduce computes and that ForEach's callbacks apply to the caller's state; its meaning is given by `FoldLeftAppend` |
| `SliceSpec.Any` | gosplice.go:33-40 | Some: true iff some element satisfies the predicate, as `AnyIff` proves |
| `SliceSpec.All` | gosplice.go:43-50 | Every: true iff all elements satisfy the predicate, as `AllIff` proves |
| `SliceSpec.Flatten` | gosplice.go:111-117 | Flat: the ordered concatenation of the inner slices; `FlattenAppend` and `FlattenLength` give its meaning |
| `SliceSpec.TotalLength` | gosplice.go:111-117 | the sum of the inner lengths, which `FlattenLength` proves is the length of Flat's result |
| `SliceSpec.FlatMapSeq` | gosplice.go:120-126 | FlatMap's single pass, proved equal to Flat after Map by `FlatMapIsFlatOfMap` |
| `SliceSpec.Chunked` | gosplice.go:153-167 | Chunk: no chunks for size <= 0, otherwise pieces of size elements with a shorter last one; `ChunkedShape`, `ChunkedCount` and `ChunkedFlatten` give its meaning |
| `SliceSpec.FirstIndex` | gosplice.go:64-71 | the first matching index is -1 or a valid index |
| `SliceSpec.LastIndex` | gosplice.go:101-108 | the last matching index is -1 or a valid index |
| `SliceSpec.Reversed` | gosplice.go:129-136 | Reverse keeps the length |
| `SliceSpec.Dedup` | gosplice.go:139-150 | Unique never grows the slice |
| `SliceSpec.Without` | gosplice.go:170-192 | Remove never grows the slice |
| `SliceLaws.MapAt` | gosplice.go:4-10 | Map keeps the length and applies `f` position by position |
| `SliceLaws.FoldLeftAppend` | gosplice.go:13-19 | the fold runs left to right: folding `a + b` continues from the fold of `a` |
| `SliceLaws.ReduceSumExample` | gosplice_test.go:38-46 | summing [1, 2, 3] from 0 gives 6 |
| `SliceLaws.ForEachTraceInOrder` | gosplice.go:74-78 | a callback that appends g(x) to a trace yields the trace extended by g of every element in slice order |
| `SliceLaws.FilterExactly` | gosplice.go:22-30 | every kept element satisfies the predicate, and an element is kept iff it satisfies it |
| `SliceLaws.FilterCount` | gosplice.go:22-30 | every occurrence of a satisfying value is kept and no occurrence of another value |
| `SliceLaws.FilterSubseq` | gosplice.go:22-30 | the result is a subsequence of the input (relative order kept) |
| `SliceLaws.RemoveIsFilter` | gosplice.go:170-192 | Remove equals Filter with the predicate "not in the removal list" |
| `SliceLaws.RemoveExactly` | gosplice.go:170-192 | no survivor is in the removal list, every element outside it survives with all its occurrences, in order |
| `SliceLaws.AnyIff` | gosplice.go:33-40 | Some holds iff some position satisfies the predicate |
| `SliceLaws.AllIff` | gosplice.go:43-50 | Every holds iff every position satisfies the predicate |
| `SliceLaws.EveryIsNotSomeNot` | gosplice.go:33-50 | Every(s, p) equals not Some(s, not p) |
| `SliceLaws.IncludesIsSome` | gosplice.go:81-88 | Includes(s, v) equals Some(s, x => x == v) |
| `SliceLaws.FirstIndexIff` | gosplice.go:64-71 | the first index is -1 iff nothing matches, else it matches and nothing earlier does |
| `SliceLaws.FirstIndexFoundIffAny` | gosplice.go:53-71 | FindIndex finds something iff Some holds |
| `SliceLaws.LastIndexIff` | gosplice.go:101-108 | the last index is -1 iff nothing matches, else it matches and nothing later does |
| `SliceLaws.LastIndexViaReverse` | gosplice.go:101-108 | the backward scan gives the mirror of the forward scan of the reversed slice |
| `SliceLaws.FlattenAppend` | gosplice.go:111-117 | flattening a concatenation concatenates the flattenings |
| `SliceLaws.FlattenLength` | gosplice.go:111-117 | the flattened length is the sum of the inner lengths |
| `SliceLaws.FlatMapIsFlatOfMap` | gosplice.go:111-126 | FlatMap(s, f) equals Flat(Map(s, f)) |
| `SliceLaws.FlatMapExample` | gosplice_test.go:181-186 | FlatMap of [1, 2, 3] with n => [n, n] is [1, 1, 2, 2, 3, 3] |
| `SliceLaws.ReversedAt` | gosplice.go:129-136 | position i of the reversal holds the element at n-1-i |
| `SliceLaws.ReverseInvolution` | gosplice.go:129-136 | reversing twice gives the input back |
| `SliceLaws.ReverseShortFixed` | gosplice_test.go:268-278 | empty and one-element slices are their own reversal |
| `SliceLaws.DedupSameValues` | gosplice.go:139-150 | Unique keeps exactly the input's set of values |
| `SliceLaws.DedupNoDuplicates` | gosplice.go:139-150 | Unique leaves no value twice |
| `SliceLaws.DedupSubseq` | gosplice.go:139-150 | Unique's result is a subsequence of the input |
| `SliceLaws.DedupOfDistinct` | gosplice.go:139-150 | a slice without duplicates is unchanged by Unique |
| `SliceLaws.DedupIdempotent` | gosplice.go:139-150 | applying Unique twice equals applying it once |
| `SliceLaws.DedupPrefix` | gosplice.go:139-150 | first-occurrence order: Unique of a prefix is a prefix of Unique of the whole |
| `SliceLaws.DedupExample` | gosplice_test.go:311-316 | Unique of [1, 2, 2, 3, 4, 4, 5] is [1, 2, 3, 4, 5] |
| `SliceLaws.ChunkedShape` | gosplice.go:153-167 | every chunk is non-empty and at most size long; all but the last are exactly size long |
| `SliceLaws.ChunkedCount` | gosplice.go:153-167 | there are (n + size - 1) / size chunks, i.e. ceil(n / size) |
| `SliceLaws.ChunkedFlatten` | gosplice.go:153-167 | flattening the chunks gives the input back |
| `SliceLaws.ChunkedExample` | gosplice.go:153-167 | chunking [0..9] by 3 gives [[0,1,2], [3,4,5], [6,7,8], [9]] |

## Left out

- ForEach: a Go callback may have any side effect. The model makes that effect an explicit caller state, which each call transforms with `f: (S, T) -> S`. It covers effects on state the caller owns, such as the trace of the test at gosplice_test.go:134-143. Effects on the wider world (I/O, globals seen by other code) are not modelled.
- Callbacks are total, terminating Dafny functions. A Go callback that panics or loops forever is not modelled.
- A Go slice is a reference into a shared backing array; a Dafny sequence is a value. Aliasing is not modelled. For example, the chunks returned by `Chunk` share the input's storage (gosplice.go:164), while the model's chunks are independent values. For the same reason, "Reverse leaves its input unchanged" holds trivially.
- Go distinguishes a `nil` slice from an empty one. `Filter`, `Flat`, `FlatMap`, `Unique` and `Chunk` may return `nil`, and `Remove` returns `[]T{}` (gosplice.go:177). Both are the empty sequence here.
- `Remove` computes a capacity hint for its result (gosplice.go:180-184). It affects performance only and is not modelled.
- The hashing inside Go's `map[T]struct{}` sets is not modelled; they are abstract `set<T>`.
- GoSplice.Chunk: machine integers are unbounded here. Go's `int` can only overflow in `Chunk`, in `end := i + size` and `i += size` (gosplice.go:159-160). On 64-bit platforms that needs a slice of more than about 2^62 elements. On 32-bit platforms `end` wraps negative when some chunk start `i < len(slice)` has `i + size > 2^31 - 1`. That needs more than 2^30 elements and happens, for example, whenever `2^30 <= size < len(slice)`. The clamp at gosplice.go:161 then does not fire and `slice[i:end]` panics at gosplice.go:164, while the model returns the chunks.
- Unique, Includes, IndexOf, LastIndexOf, Remove: the model assumes that `==` on the element type is reflexive and never panics, as Dafny's `T(==)` is. Go's `comparable` does not guarantee this. A float64 NaN is not equal to itself, so in Go `Unique([NaN, NaN])` keeps both (gosplice.go:144), `Includes([NaN], NaN)` is false (gosplice.go:83) and `Remove([NaN], [NaN])` keeps the NaN (gosplice.go:187). Comparing interface values that hold uncomparable dynamic types panics. For such element types, `Unique`'s no-duplicates contract and the `value in slice` contracts of the other four do not describe Go's behaviour.
- Find: Go's zero value of `T` is passed in as the parameter `zero`, because Dafny has no zero value for every type.
- The floating-point and `strings.ToUpper` test cases (gosplice_test.go:20-34) and the benchmark file gosplice_benchmark_test.go are not modelled.
