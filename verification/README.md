# ExpandBuffer<T> — a verified Dafny model

VYaml's `ExpandBuffer<T>` (`VYaml/Internal/ExpandBuffer.cs`) is a growable array
and stack. It rents its backing array from .NET's shared array pool. It keeps a
logical `Length` separate from the backing capacity `buffer.Length`. When full it
grows by `max(capacity * 200 / 100, capacity + 4)`. It refuses any capacity above
`MaxCapacity = 64 * 1024 * 1024`. On a re-rent it copies only the live prefix
`[0, Length)`. The `isPooled` flag keeps it from returning a block twice.

The project has four modules:

- `Powers` (`powers.dfy`) defines `Pow2` and its monotonicity. Both the pool's
  buckets and AsSpan's doubling search use it.
- `SharedArrayPool` (`pool.dfy`) is the size rounding of .NET's shared array
  pool (`ArrayPool<T>.Shared`, .NET 6 and later). `BucketSize(n)` is 0 for a zero
  request, n rounded up to a power of two of at least 16 up to 2^30, and exactly
  n above that. Returning a block is a ghost ownership transfer that the buffer
  records itself.
- `Growth` (`growth.dfy`) holds the capacity arithmetic, in C#'s 32-bit `int`
  where the source is written that way. `Wrap32` is two's-complement
  wrap-around and `DivTrunc100` is truncating division by 100.
  - `GrowRequest` computes Grow's request exactly as written. For capacities up
    to 10,737,418 it is `max(2 * cap, cap + 4)` (`GrowRequestDoubles`). Above
    that, `cap * 200` wraps and the request is exactly `cap + 4`
    (`GrowRequestAfterOverflow`). On .NET's bucketed pool the block rented
    for `cap + 4` is still `2 * cap`, so there the overflow does not change
    the capacity (`GrowOnBucketPoolDoubles`). On a pool that hands out exactly
    the requested size it does: growth becomes linear above 10,737,418
    elements, and a full buffer within MinimumGrow of MaxCapacity can no
    longer grow (`GrowNearCeilingOverflows`).
  - `DoublingTarget` and `SpanRequest` are the doubling search of `AsSpan(int)`
    over unbounded integers.
  - `SpanLoop32` is that loop as written, on 32-bit integers, given a bound on
    the number of iterations (fuel).
- `ExpandBuffers` (`expand_buffer.dfy`) holds `Rent` and the class
  `ExpandBuffer<T>`. The buffer is proved against the contract of `Rent` alone:
  a fresh block of at least n elements, the empty array for n = 0, and at most
  MaxCapacity elements when n <= MaxCapacity. Any pool that keeps this contract
  gives the buffer the same guarantees. The body of `Rent` is .NET's bucketed
  pool. The lemmas whose Model rows say "on the bucketed pool" add what that
  pool gives on top (for example that `Add` fails only at exactly MaxCapacity elements). The
  class fields are `Length`, `buffer` and `isPooled`, plus a ghost log `Returned` of
  the blocks handed back to the pool. `Valid()` states the invariant:
  - `0 <= Length <= buffer.Length <= MaxCapacity`;
  - the buffer owns its block;
  - no block appears twice in `Returned`, and every returned block is non-empty.

  Every operation except `ReturnBuffer` preserves `Valid()` and states its whole
  new state. `ReturnBuffer` is an internal step of `SetCapacity`: it gives up
  ownership of the block, so it keeps only `Ledger()` (the no-double-return
  bookkeeping), and `SetCapacity` restores `Valid()` by adopting the new block.
  A C# exception becomes an `Err`/`Fail` result, and each of those leaves the
  state unchanged. The error kinds group the exceptions by meaning:
  - `CapacityExceeded` is the ceiling check. It is an
    `ArgumentOutOfRangeException` in the constructor and an
    `InvalidOperationException` in `SetCapacity`.
  - `Underflow` is `Pop`'s `InvalidOperationException`.
  - `IndexOutOfRange` is the runtime's `IndexOutOfRangeException` from an array
    index.
  - `ArgumentOutOfRange` is the `ArgumentOutOfRangeException` that the pool and
    `Span` raise for a negative size.

The source indexer returns `ref T`, and `AsSpan` returns `Span<T>`. The model
reads and writes the indexer by index (`Get`, `Set`). It returns the spans as
sequences of the backing array's prefix.

Two behaviours of the code are kept as written, although a reader might expect
otherwise. `Peek` has no empty check, so an empty buffer reads index -1 and fails with
IndexOutOfRange, not with an underflow error. The indexer checks only against the
backing array, so slots in `[Length, capacity)` can be read and written.

## Model

| member | source | states |
|---|---|---|
| `ExpandBuffers.ExpandBuffer.constructor` | VYaml/Internal/ExpandBuffer.cs:25-27 | the new buffer is valid and empty, owns a fresh block of at least the requested capacity (the empty array for capacity 0), and has returned nothing |
| `ExpandBuffers.ExpandBuffer.Create` | VYaml/Internal/ExpandBuffer.cs:18-28 | fails with CapacityExceeded exactly when capacity > MaxCapacity, and with ArgumentOutOfRange when the pool refuses a negative size; otherwise yields a valid, empty, owning buffer with capacity >= the request |
| `ExpandBuffers.ExpandBuffer.Get` | VYaml/Internal/ExpandBuffer.cs:30-34 | succeeds exactly when 0 <= index < capacity, so it checks against the backing array and not against Length; a live index yields the element at that position of the contents |
| `ExpandBuffers.ExpandBuffer.Set` | VYaml/Internal/ExpandBuffer.cs:30-34 | a write through the indexer's reference changes exactly one backing slot when in range; it changes the contents only when the index is live |
| `ExpandBuffers.ExpandBuffer.AsSpan` | VYaml/Internal/ExpandBuffer.cs:37 | the view is exactly the live contents, in order |
| `ExpandBuffers.ExpandBuffer.AsSpanOfLength` | VYaml/Internal/ExpandBuffer.cs:40-52 | Length and contents are unchanged; succeeds exactly when 0 <= length and either the capacity already covers it or the doubling target SpanRequest is within MaxCapacity; then capacity >= length and the view is the first `length` backing slots; growth adopts a fresh block of at least the doubling target and returns the old block once; every failure leaves the block and the return log alone |
| `ExpandBuffers.ExpandBuffer.Clear` | VYaml/Internal/ExpandBuffer.cs:55 | Length becomes 0; the backing block, its contents, ownership and the return log are untouched |
| `ExpandBuffers.ExpandBuffer.Peek` | VYaml/Internal/ExpandBuffer.cs:58 | yields the last live element when Length > 0; an empty buffer fails with IndexOutOfRange, since the code has no empty check |
| `ExpandBuffers.ExpandBuffer.Pop` | VYaml/Internal/ExpandBuffer.cs:61-66 | an empty buffer fails with Underflow and is unchanged; otherwise Length drops by one and the old top element is returned |
| `ExpandBuffers.ExpandBuffer.TryPop` | VYaml/Internal/ExpandBuffer.cs:69-78 | returns false and leaves Length alone on an empty buffer; otherwise true, the old top element, and the contents without it |
| `ExpandBuffers.ExpandBuffer.Add` | VYaml/Internal/ExpandBuffer.cs:81-88 | on success the contents become old contents + [item]; without growth the block is the same and only slot old Length changes; with growth the new block holds at least GrowRequest(old capacity) and the old block is returned once; it fails exactly when the buffer is full and GrowRequest(capacity) > MaxCapacity, leaving everything unchanged |
| `ExpandBuffers.ExpandBuffer.SetCapacity` | VYaml/Internal/ExpandBuffer.cs:91-105 | fails with CapacityExceeded before any change when newCapacity > MaxCapacity; is a no-op when capacity already suffices; otherwise adopts a fresh block of at least newCapacity with the live prefix copied, and logs the old block as returned if it was non-empty |
| `ExpandBuffers.ExpandBuffer.ReturnBuffer` | VYaml/Internal/ExpandBuffer.cs:108-115 | returns the block only when owned and non-empty, clearing ownership; keeps the no-double-return ledger |
| `ExpandBuffers.ExpandBuffer.Grow` | VYaml/Internal/ExpandBuffer.cs:118-126 | contents unchanged; fails with CapacityExceeded exactly when GrowRequest(capacity) > MaxCapacity, changing nothing; otherwise the capacity becomes at least GrowRequest(old capacity), which is strictly more than before |
| `ExpandBuffers.PushThenPop` | VYaml/Internal/ExpandBuffer.cs:61-88 | Add followed by Pop yields the added item and restores the contents (LIFO) |
| `ExpandBuffers.Rent` | VYaml/Internal/ExpandBuffer.cs:100 | the pool contract the buffer relies on: a fresh block of at least n elements, empty for n = 0, within MaxCapacity when n is |
| `ExpandBuffers.RentWithinCeiling` | VYaml/Internal/ExpandBuffer.cs:12 | on the bucketed pool, a rent of at most MaxCapacity elements yields at most MaxCapacity, because MaxCapacity is itself a bucket size |
| `ExpandBuffers.SpanRequestWithinCeiling` | VYaml/Internal/ExpandBuffer.cs:42-49 | on the bucketed pool (a bucket-sized capacity), the doubling search for a length within MaxCapacity stops within MaxCapacity, so AsSpan fails only for lengths above MaxCapacity |
| `ExpandBuffers.GrowWithinCeiling` | VYaml/Internal/ExpandBuffer.cs:118-126 | on the bucketed pool (a bucket-sized capacity), Grow's request exceeds MaxCapacity exactly when the capacity is MaxCapacity, so Add fails only at exactly MaxCapacity elements |
| `ExpandBuffers.GrowOnBucketPoolDoubles` | VYaml/Internal/ExpandBuffer.cs:118-126 | on the bucketed pool, the block rented for Grow's request is exactly twice a non-empty capacity below MaxCapacity, before and after the `cap * 200` overflow |
| `ExpandBuffers.GrowNearCeilingOverflows` | VYaml/Internal/ExpandBuffer.cs:118-126 | within MinimumGrow of MaxCapacity, Grow's request already exceeds MaxCapacity, so on a pool that rents exact sizes Add fails before MaxCapacity elements |
| `ExpandBuffers.DoublingTargetWithin` | VYaml/Internal/ExpandBuffer.cs:44-48 | doubling a power of two never passes a power of two that already covers the length |
| `ExpandBuffers.BucketAsPow2` | VYaml/Internal/ExpandBuffer.cs:25 | every non-empty bucket-sized length up to 2^30 is a power of two, 2^(bucket index + 4) |
| `Growth.Wrap32` | VYaml/Internal/ExpandBuffer.cs:120 | the result is a 32-bit int congruent to the input modulo 2^32, and equal to it when the input already fits |
| `Growth.DivTrunc100` | VYaml/Internal/ExpandBuffer.cs:120 | the quotient keeps the dividend's sign, is at most the dividend in magnitude, its product with 100 is within 100 of the dividend on the zero side, and it is 0 for every dividend in (-100, 100) |
| `Growth.GrowRequest` | VYaml/Internal/ExpandBuffer.cs:120-124 | Grow's request as written is a 32-bit int no smaller than either the wrapped `cap + 4` or the truncated wrapped `cap * 200 / 100` |
| `Growth.GrowRequestIncreases` | VYaml/Internal/ExpandBuffer.cs:120-124 | within the ceiling, Grow always asks for at least capacity + 4 |
| `Growth.GrowRequestDoubles` | VYaml/Internal/ExpandBuffer.cs:120-124 | while capacity * 200 fits in an int, Grow asks for exactly max(2 * capacity, capacity + 4) |
| `Growth.GrowRequestAfterOverflow` | VYaml/Internal/ExpandBuffer.cs:120-124 | above 10,737,418, capacity * 200 wraps and Grow asks for exactly capacity + 4 |
| `Growth.GrowRequestFromEmpty` | VYaml/Internal/ExpandBuffer.cs:120-124 | an empty buffer asks for exactly MinimumGrow = 4 |
| `Growth.DoublingTarget` | VYaml/Internal/ExpandBuffer.cs:44-48 | the target covers the length and the start, and when any doubling happened it is below twice the length |
| `Growth.DoublingTargetIsMultiple` | VYaml/Internal/ExpandBuffer.cs:44-48 | the target is start * 2^k, where k = DoublingSteps counts the doublings |
| `Growth.DoublingTargetIsFirstCover` | VYaml/Internal/ExpandBuffer.cs:44-48 | the target is start * 2^k for k = DoublingSteps, and every start * 2^j with j < k falls short of the length: it is the first power-of-two multiple of the start that covers the length |
| `Growth.SpanStart` | VYaml/Internal/ExpandBuffer.cs:44 | the search starts from a positive candidate; for a capacity in (0, MaxCapacity] it is the source's 32-bit `buffer.Length * 2` |
| `Growth.SpanRequest` | VYaml/Internal/ExpandBuffer.cs:42-49 | AsSpan's request covers the length and exceeds the current capacity |
| `Growth.SpanLoop32` | VYaml/Internal/ExpandBuffer.cs:44-48 | when the loop as written exits, its candidate covers the length, and it stays a 32-bit int when it started as one |
| `Growth.SpanLoopStuckAtZero` | VYaml/Internal/ExpandBuffer.cs:45-48 | once the candidate is 0, the loop never exits for a positive length |
| `Growth.SpanLoopFromEmptyNeverExits` | VYaml/Internal/ExpandBuffer.cs:44-48 | as written, AsSpan(length > 0) on an empty backing array never leaves its loop |
| `Growth.SpanLoopWrapNeverExits` | VYaml/Internal/ExpandBuffer.cs:44-48 | as written, AsSpan(int.MaxValue) on a full-size block never leaves its loop: the candidate wraps to 0 |
| `Growth.SpanLoopAgrees` | VYaml/Internal/ExpandBuffer.cs:44-48 | whenever the loop as written cannot overflow (positive start, length <= 2^30), it exits with exactly DoublingTarget, so the corrected method agrees with the source there |
| `SharedArrayPool.BucketIndex` | VYaml/Internal/ExpandBuffer.cs:25 | the chosen bucket holds the request and is the first from the starting one that does |
| `SharedArrayPool.BucketSize` | VYaml/Internal/ExpandBuffer.cs:25 | a block from the bucketed pool holds the request; it is empty exactly when the request is 0 |
| `SharedArrayPool.BucketSizeWithin` | VYaml/Internal/ExpandBuffer.cs:100 | a request no larger than a bucket size gets a block no larger than that bucket |
| `SharedArrayPool.BucketSizeIdempotent` | VYaml/Internal/ExpandBuffer.cs:100 | re-requesting a block's own length yields the same length |

## Findings

| source | as written | input that shows it | evidently intended | confidence | as-written member | corrected member |
|---|---|---|---|---|---|---|
| VYaml/Internal/ExpandBuffer.cs:44-48 | the doubling starts at `buffer.Length * 2`, which is 0 for an empty backing array, and `0 *= 2` stays 0 | `new ExpandBuffer<T>(0).AsSpan(1)`: `Rent(0)` yields the empty array, and the loop never exits | grow to a capacity that covers the length, as for a non-empty buffer | high; not executed | `Growth.SpanLoopFromEmptyNeverExits` | `ExpandBuffers.ExpandBuffer.AsSpanOfLength` |
| VYaml/Internal/ExpandBuffer.cs:44-48 | `newCapacity *= 2` in 32-bit `int` wraps past 2^30 to -2^31 and then 0, where it stays | `new ExpandBuffer<T>(67108864).AsSpan(int.MaxValue)`: 2^27, 2^28, 2^29, 2^30, -2^31, 0, 0, … | fail with the capacity error, which is what the loop reaches for every length in (MaxCapacity, 2^30] | high; not executed | `Growth.SpanLoopWrapNeverExits` | `ExpandBuffers.ExpandBuffer.AsSpanOfLength` |

`AsSpanOfLength` has two corrections. It fails with CapacityExceeded at once when
the length exceeds MaxCapacity. It starts the search at MinimumGrow when the
backing array is empty. On every input where the source's loop exits without
overflow, it does what the source does (`Growth.SpanLoopAgrees`). On the
bucketed pool it succeeds exactly when `0 <= length <= MaxCapacity`
(`ExpandBuffers.SpanRequestWithinCeiling`).

## Left out

- `ExpandBuffers.Rent`: the contract says `fresh(block)` even for n = 0, while .NET's `Rent(0)` returns the shared `Array.Empty<T>()` singleton. Nothing depends on this, because an empty block is never handed back to the pool and `Returned` holds only non-empty blocks.
- The shared pool's internals are not modelled: thread-safety, per-core caches, and reuse of returned blocks by other buffers. The pool is the contract of `Rent`, with .NET's bucket rounding as its body; a return is an entry in the buffer's own ghost log. So "at most one owner per block" is proved per buffer, not across buffers.
- `clearArray: !typeof(T).IsValueType` is runtime type reflection and only affects what the pool does with a returned block. It is not modelled.
- `ref` returns and `Span<T>` aliasing are not modelled. `Get`/`Set` stand for reads and writes through the indexer's reference, and spans are sequence snapshots. The rule that a reference dies at the next growth is not expressed.
- Exception messages, the exact exception class of each failure (the model only records which of the four error kinds it is), `[MethodImpl]` attributes and out-of-memory failures of `Rent` are not modelled.
- `VYaml/Tag.cs` is a plain immutable handle/suffix pair with no behaviour.
- `ExpandBuffers.ExpandBuffer.TryPop`: on an empty buffer the source sets `value` to `default(T)`. The model leaves `value` unspecified there, because Dafny cannot name the default of a generic type.
- `ExpandBuffers.ExpandBuffer.AsSpanOfLength`: on the two inputs in the Findings table the source never returns. The model follows the intended behaviour there instead.
- `ExpandBuffers.ExpandBuffer.Create`: the source constructor has a single entry point. The model splits it into `Create` (both error paths) and the constructor (success path), because a Dafny constructor cannot return an error.
- The class has no Dispose, so the final block is never returned to the pool; the model has no operation for it either.
- The size rounding of pools other than .NET's shared pool is not modelled. The buffer's own contracts hold for any pool that keeps the contract of `Rent`; the results about exact block sizes hold only for the bucketed pool.
