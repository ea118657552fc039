/**
 * ExpandBuffer<T>: a growable array and stack whose backing array is rented
 * from the shared array pool. It keeps a logical Length separate from the
 * backing capacity `buffer.Length`, grows by max(capacity * 2, capacity + 4),
 * refuses any capacity above MaxCapacity, copies only the live prefix when it
 * re-rents, and returns each rented block to the pool at most once.
 *
 * The buffer is proved against the pool contract of Rent alone. The lemmas
 * after Rent add what follows when the pool is .NET's bucketed shared pool.
 */
module ExpandBuffers {
  import opened Growth
  import opened Powers
  import opened SharedArrayPool

  /** The exceptions the buffer raises, by meaning. */
  datatype Error =
    | CapacityExceeded     // a capacity above MaxCapacity was requested
    | Underflow            // Pop on an empty buffer
    | IndexOutOfRange      // an index outside the backing array
    | ArgumentOutOfRange   // a negative size handed to the pool or to a span

  datatype Result<T> = Ok(value: T) | Err(error: Error)

  datatype Outcome = Pass | Fail(error: Error)

  /** The blocks a pool return hands back: only non-empty blocks are returned. */
  function Released<T>(block: array<T>): (r: seq<array<T>>)
    ensures r == [] <==> block.Length == 0
    ensures forall b :: b in r ==> b == block
  {
    if block.Length > 0 then [block] else []
  }

  ghost predicate NoBlockTwice<T>(blocks: seq<array<T>>)
  {
    forall i, j :: 0 <= i < j < |blocks| ==> blocks[i] != blocks[j]
  }

  /**
   * ArrayPool<T>.Shared.Rent(n) as the buffer relies on it: a fresh block that
   * holds at least n elements, the empty array for an empty request, and a
   * block within MaxCapacity for a request within MaxCapacity. The body is one
   * pool that keeps this contract, the bucketed shared pool of .NET; callers
   * see only the contract.
   */
  method Rent<T(0)>(n: nat) returns (block: array<T>)
    ensures fresh(block)
    ensures n <= block.Length
    ensures n == 0 ==> block.Length == 0
    ensures n <= MaxCapacity ==> block.Length <= MaxCapacity
  {
    if n <= MaxCapacity {
      RentWithinCeiling(n);
    }
    block := new T[BucketSize(n)];
  }

  // ---------------------------------------------------------------------------
  // Corollaries for the bucketed shared pool of .NET
  // ---------------------------------------------------------------------------

  /** MaxCapacity is itself a pool bucket, so no rent within it overshoots it. */
  lemma RentWithinCeiling(n: nat)
    requires n <= MaxCapacity
    ensures BucketSize(n) <= MaxCapacity
  {
    Pow2Values();
    BucketSizeWithin(n, 22);
  }

  /** A bucket-sized capacity, written as a power of two. */
  lemma {:induction false} BucketAsPow2(cap: nat)
    requires 0 < cap <= MaxBucket && BucketSize(cap) == cap
    ensures cap == Pow2(BucketIndex(0, cap) + 4)
  {
    var k := BucketIndex(0, cap);
    assert Pow2(k + 1) == 2 * Pow2(k);
    assert Pow2(k + 2) == 2 * Pow2(k + 1);
    assert Pow2(k + 3) == 2 * Pow2(k + 2);
    assert Pow2(k + 4) == 2 * Pow2(k + 3);
  }

  /** Doubling a power of two never overshoots a power of two that covers the length. */
  lemma {:induction false} DoublingTargetWithin(e: nat, length: int, j: nat)
    requires e <= j && length <= Pow2(j)
    ensures DoublingTarget(Pow2(e), length) <= Pow2(j)
    decreases j - e
  {
    if Pow2(e) < length {
      if e == j {
        assert false;
      }
      assert 2 * Pow2(e) == Pow2(e + 1);
      DoublingTargetWithin(e + 1, length, j);
    } else {
      Pow2Monotone(e, j);
    }
  }

  /**
   * For a capacity the pool handed out, AsSpan's doubling search stops at or
   * below MaxCapacity whenever the length itself is within MaxCapacity.
   */
  lemma SpanRequestWithinCeiling(cap: nat, length: int)
    requires BucketSize(cap) == cap <= MaxCapacity
    requires cap < length <= MaxCapacity
    ensures SpanRequest(cap, length) <= MaxCapacity
  {
    Pow2Values();
    if cap == 0 {
      assert SpanStart(cap) == Pow2(2);
      DoublingTargetWithin(2, length, 26);
    } else {
      var e := BucketIndex(0, cap) + 4;
      BucketAsPow2(cap);
      if e >= 26 {
        Pow2Monotone(26, e);
        assert false;
      }
      assert SpanStart(cap) == Pow2(e + 1);
      DoublingTargetWithin(e + 1, length, 26);
    }
  }

  /**
   * For a capacity the pool handed out, Grow's request exceeds MaxCapacity
   * exactly when the capacity already is MaxCapacity.
   */
  lemma GrowWithinCeiling(cap: nat)
    requires BucketSize(cap) == cap <= MaxCapacity
    ensures GrowRequest(cap) > MaxCapacity <==> cap == MaxCapacity
  {
    GrowRequestIncreases(cap);
    Pow2Values();
    if cap == MaxCapacity {
      GrowRequestAfterOverflow(cap);
    } else if cap > 0 {
      var e := BucketIndex(0, cap) + 4;
      BucketAsPow2(cap);
      if e >= 26 {
        Pow2Monotone(26, e);
        assert false;
      }
      Pow2Monotone(e, 25);
      if cap <= 10_737_418 {
        GrowRequestDoubles(cap);
      } else {
        GrowRequestAfterOverflow(cap);
      }
    }
  }

  /**
   * On the bucketed pool Grow exactly doubles a non-empty capacity: the request
   * lies in (cap, 2 * cap], and the next bucket up is 2 * cap, so the overflow
   * of `cap * 200` beyond 10,737,418 elements makes no difference to the block
   * the buffer ends up with.
   */
  lemma GrowOnBucketPoolDoubles(cap: nat)
    requires 0 < cap < MaxCapacity && BucketSize(cap) == cap
    ensures BucketSize(GrowRequest(cap)) == 2 * cap
  {
    Pow2Values();
    var e := BucketIndex(0, cap) + 4;
    BucketAsPow2(cap);
    if e >= 26 {
      Pow2Monotone(26, e);
      assert false;
    }
    Pow2Monotone(e, 25);
    var req := GrowRequest(cap);
    if cap <= 10_737_418 {
      GrowRequestDoubles(cap);
    } else {
      GrowRequestAfterOverflow(cap);
    }
    assert cap < req <= 2 * cap;
    var k := e - 3;
    assert MinBucket * Pow2(k) == 2 * cap by {
      assert Pow2(k + 1) == 2 * Pow2(k);
      assert Pow2(k + 2) == 2 * Pow2(k + 1);
      assert Pow2(k + 3) == 2 * Pow2(k + 2);
      assert Pow2(k + 4) == 2 * Pow2(k + 3);
    }
    Pow2Monotone(k, 26);
    BucketIndexWithin(0, req, k);
    var r := BucketIndex(0, req);
    if r < k {
      Pow2Monotone(r, k - 1);
      assert false;
    }
  }

  /**
   * With a pool that hands out exactly the requested size, Grow already asks
   * for more than MaxCapacity once the capacity is within MinimumGrow of it.
   */
  lemma GrowNearCeilingOverflows(cap: int)
    requires MaxCapacity - MinimumGrow < cap <= MaxCapacity
    ensures GrowRequest(cap) > MaxCapacity
  {
    GrowRequestAfterOverflow(cap);
  }

  class ExpandBuffer<T(0)> {
    /** The number of live elements: `buffer[0 .. Length)`. */
    var Length: int
    /** The backing array rented from the pool; its length is the capacity. */
    var buffer: array<T>
    /** Whether this buffer still owns `buffer` and must return it to the pool. */
    var isPooled: bool
    /** Every block this buffer has handed back to the pool, in order. */
    ghost var Returned: seq<array<T>>

    /**
     * The pool bookkeeping: no block is returned twice, only non-empty blocks
     * are returned, and an owned block has not been returned.
     */
    ghost predicate Ledger()
      reads this
    {
      NoBlockTwice(Returned) &&
      (forall b :: b in Returned ==> b.Length > 0) &&
      (isPooled ==> buffer !in Returned)
    }

    ghost predicate Valid()
      reads this
    {
      0 <= Length <= buffer.Length <= MaxCapacity &&
      isPooled && Ledger()
    }

    /** The live elements, in order. */
    ghost function Contents(): seq<T>
      reads this, buffer
      requires Valid()
    {
      buffer[..Length]
    }

    /** `new ExpandBuffer<T>(capacity)` once the capacity has passed the ceiling check. */
    constructor (capacity: int)
      requires 0 <= capacity <= MaxCapacity
      ensures Valid() && fresh(buffer)
      ensures Length == 0 && Contents() == []
      ensures buffer.Length >= capacity
      ensures capacity == 0 ==> buffer.Length == 0
      ensures Returned == []
    {
      var block := Rent<T>(capacity);
      buffer := block;
      isPooled := true;
      Length := 0;
      Returned := [];
    }

    /**
     * The constructor with its error paths: a capacity above MaxCapacity is
     * refused, and a negative one is refused by the pool's Rent.
     */
    static method Create(capacity: int) returns (r: Result<ExpandBuffer<T>>)
      ensures r.Ok? <==> 0 <= capacity <= MaxCapacity
      ensures r.Err? ==> r.error == if capacity > MaxCapacity then CapacityExceeded else ArgumentOutOfRange
      ensures r.Ok? ==> fresh(r.value) && fresh(r.value.buffer) && r.value.Valid()
      ensures r.Ok? ==> r.value.Length == 0 && r.value.buffer.Length >= capacity && r.value.Returned == []
    {
      if capacity > MaxCapacity {
        return Err(CapacityExceeded);
      }
      if capacity < 0 {
        return Err(ArgumentOutOfRange);
      }
      var b := new ExpandBuffer<T>(capacity);
      r := Ok(b);
    }

    /**
     * Reading through the indexer: the only check is against the backing array,
     * so an index in [Length, capacity) yields a stale element.
     */
    method Get(index: int) returns (r: Result<T>)
      requires Valid()
      ensures r.Ok? <==> 0 <= index < buffer.Length
      ensures r.Err? ==> r.error == IndexOutOfRange
      ensures r.Ok? ==> r.value == buffer[index]
      ensures 0 <= index < Length ==> r == Ok(Contents()[index])
    {
      if 0 <= index < buffer.Length {
        r := Ok(buffer[index]);
      } else {
        r := Err(IndexOutOfRange);
      }
    }

    /** Writing through the reference the indexer returns. */
    method Set(index: int, value: T) returns (r: Outcome)
      requires Valid()
      modifies buffer
      ensures Valid()
      ensures r == if 0 <= index < buffer.Length then Pass else Fail(IndexOutOfRange)
      ensures buffer[..] == if r.Pass? then old(buffer[..])[index := value] else old(buffer[..])
      ensures 0 <= index < Length ==> Contents() == old(Contents())[index := value]
      ensures index < 0 || Length <= index ==> Contents() == old(Contents())
    {
      if 0 <= index < buffer.Length {
        buffer[index] := value;
        r := Pass;
      } else {
        r := Fail(IndexOutOfRange);
      }
    }

    /** AsSpan(): a view of exactly the live elements. */
    method AsSpan() returns (s: seq<T>)
      requires Valid()
      ensures s == Contents()
    {
      s := buffer[..Length];
    }

    /**
     * AsSpan(length): make room for `length` elements and view the first
     * `length` slots of the backing array, live or not. Length is unchanged.
     * When the backing array is too small the candidate capacity doubles from
     * `2 * capacity` until it covers `length`. Two inputs on which the source's
     * loop never exits get the intended outcome here: a length above
     * MaxCapacity fails at once, and an empty backing array starts the search
     * at MinimumGrow. A request is refused exactly when the doubled capacity
     * would pass MaxCapacity.
     */
    method AsSpanOfLength(length: int) returns (r: Result<seq<T>>)
      requires Valid()
      modifies this
      ensures Valid()
      ensures Length == old(Length) && Contents() == old(Contents())
      ensures r.Ok? <==> 0 <= length && (length <= old(buffer.Length) || SpanRequest(old(buffer.Length), length) <= MaxCapacity)
      ensures r.Err? ==> r.error == if length < 0 then ArgumentOutOfRange else CapacityExceeded
      ensures r.Ok? ==> length <= buffer.Length && r.value == buffer[..length]
      ensures length <= old(buffer.Length) || r.Err? ==> buffer == old(buffer) && Returned == old(Returned)
      ensures r.Ok? && old(buffer.Length) < length ==>
                fresh(buffer) && buffer.Length >= SpanRequest(old(buffer.Length), length) &&
                Returned == old(Returned) + Released(old(buffer))
    {
      if length > buffer.Length {
        if length > MaxCapacity {
          return Err(CapacityExceeded);
        }
        ghost var cap := buffer.Length;
        var newCapacity := if buffer.Length == 0 then MinimumGrow else Wrap32(buffer.Length * 2);
        while newCapacity < length
          invariant 0 < newCapacity <= 2 * MaxCapacity
          invariant DoublingTarget(newCapacity, length) == SpanRequest(cap, length)
          decreases length - newCapacity
        {
          newCapacity := Wrap32(newCapacity * 2);
        }
        var res := SetCapacity(newCapacity);
        if res.Fail? {
          return Err(res.error);
        }
      }
      if length < 0 {
        return Err(ArgumentOutOfRange);
      }
      r := Ok(buffer[..length]);
    }

    /** Clear(): forget the live elements; capacity, storage and ownership stay. */
    method Clear()
      requires Valid()
      modifies this`Length
      ensures Valid()
      ensures Length == 0 && Contents() == []
      ensures buffer == old(buffer) && buffer[..] == old(buffer[..])
      ensures isPooled == old(isPooled) && Returned == old(Returned)
    {
      Length := 0;
    }

    /** Peek(): the top element; with no empty check, an empty buffer reads index -1. */
    method Peek() returns (r: Result<T>)
      requires Valid()
      ensures r.Ok? <==> Length > 0
      ensures r.Ok? ==> r.value == Contents()[|Contents()| - 1]
      ensures r.Err? ==> r.error == IndexOutOfRange
    {
      if 0 <= Length - 1 < buffer.Length {
        r := Ok(buffer[Length - 1]);
      } else {
        r := Err(IndexOutOfRange);
      }
    }

    /** Pop(): remove and yield the top element; an empty buffer is refused. */
    method Pop() returns (r: Result<T>)
      requires Valid()
      modifies this`Length
      ensures Valid()
      ensures r.Ok? <==> old(Length) > 0
      ensures r.Err? ==> r.error == Underflow && Length == old(Length)
      ensures r.Ok? ==> r.value == old(Contents())[old(Length) - 1] &&
                        Contents() == old(Contents())[..old(Length) - 1]
    {
      if Length == 0 {
        return Err(Underflow);
      }
      Length := Length - 1;
      r := Ok(buffer[Length]);
    }

    /** TryPop(): Pop that reports an empty buffer with `false` instead. */
    method TryPop() returns (ok: bool, value: T)
      requires Valid()
      modifies this`Length
      ensures Valid()
      ensures ok <==> old(Length) > 0
      ensures !ok ==> Length == old(Length)
      ensures ok ==> value == old(Contents())[old(Length) - 1] &&
                     Contents() == old(Contents())[..old(Length) - 1]
    {
      if Length == 0 {
        ok, value := false, *;
        return;
      }
      var popped := Pop();
      value := popped.value;
      ok := true;
    }

    /**
     * Add(item): grow when full, then store `item` at index Length. A failed
     * growth leaves the buffer exactly as it was. On the bucketed pool that
     * happens only when the buffer already holds MaxCapacity elements
     * (GrowWithinCeiling).
     */
    method Add(item: T) returns (r: Outcome)
      requires Valid()
      modifies this, buffer
      ensures Valid()
      ensures r.Fail? <==> old(Length) == old(buffer.Length) && GrowRequest(old(buffer.Length)) > MaxCapacity
      ensures r.Fail? ==> r.error == CapacityExceeded && Length == old(Length) &&
                          buffer == old(buffer) && buffer[..] == old(buffer[..]) && Returned == old(Returned)
      ensures r.Pass? ==> Length == old(Length) + 1 && Contents() == old(Contents()) + [item]
      ensures r.Pass? && old(Length) < old(buffer.Length) ==>
                buffer == old(buffer) && buffer[..] == old(buffer[..])[old(Length) := item] &&
                Returned == old(Returned)
      ensures r.Pass? && old(Length) == old(buffer.Length) ==>
                fresh(buffer) && buffer.Length >= GrowRequest(old(buffer.Length)) &&
                Returned == old(Returned) + Released(old(buffer))
    {
      if Length >= buffer.Length {
        r := Grow();
        if r.Fail? {
          return;
        }
      }
      buffer[Length] := item;
      Length := Length + 1;
      r := Pass;
    }

    /**
     * SetCapacity(newCapacity): refuse a capacity above MaxCapacity before
     * touching anything; do nothing when the backing array is large enough;
     * otherwise rent a new block, copy the live prefix into it, return the old
     * block and adopt the new one.
     */
    method SetCapacity(newCapacity: int) returns (r: Outcome)
      requires Valid()
      modifies this
      ensures Valid()
      ensures Length == old(Length) && Contents() == old(Contents())
      ensures r == if newCapacity > MaxCapacity then Fail(CapacityExceeded) else Pass
      ensures r.Fail? || newCapacity <= old(buffer.Length) ==> buffer == old(buffer) && Returned == old(Returned)
      ensures r.Pass? ==> buffer.Length >= newCapacity
      ensures r.Pass? && old(buffer.Length) < newCapacity ==>
                fresh(buffer) && Returned == old(Returned) + Released(old(buffer))
    {
      if newCapacity > MaxCapacity {
        return Fail(CapacityExceeded);
      }
      if buffer.Length >= newCapacity {
        return Pass;
      }
      var newBuffer := Rent<T>(newCapacity);
      forall i | 0 <= i < Length {
        newBuffer[i] := buffer[i];
      }
      ReturnBuffer();
      buffer := newBuffer;
      isPooled := true;
      r := Pass;
    }

    /**
     * ReturnBuffer(): hand the backing block back to the pool, but only if this
     * buffer still owns it and it is not the empty array.
     */
    method ReturnBuffer()
      requires Ledger()
      modifies this`isPooled, this`Returned
      ensures Ledger()
      ensures Returned == old(Returned) + (if old(isPooled) then Released(buffer) else [])
      ensures isPooled == (old(isPooled) && buffer.Length == 0)
    {
      if isPooled && buffer.Length > 0 {
        Returned := Returned + [buffer];
        isPooled := false;
      }
    }

    /** Grow(): ask for max(capacity * 200 / 100, capacity + 4), in `int` arithmetic. */
    method Grow() returns (r: Outcome)
      requires Valid()
      modifies this
      ensures Valid()
      ensures Length == old(Length) && Contents() == old(Contents())
      ensures r == if GrowRequest(old(buffer.Length)) > MaxCapacity then Fail(CapacityExceeded) else Pass
      ensures r.Fail? ==> buffer == old(buffer) && Returned == old(Returned)
      ensures r.Pass? ==> fresh(buffer) && buffer.Length >= GrowRequest(old(buffer.Length)) > old(buffer.Length) &&
                          Returned == old(Returned) + Released(old(buffer))
    {
      var newCapacity := DivTrunc100(Wrap32(buffer.Length * GrowFactor));
      if newCapacity < Wrap32(buffer.Length + MinimumGrow) {
        newCapacity := Wrap32(buffer.Length + MinimumGrow);
      }
      assert newCapacity == GrowRequest(buffer.Length);
      GrowRequestIncreases(buffer.Length);
      r := SetCapacity(newCapacity);
    }
  }

  /** Push then pop restores the contents and yields the pushed item (LIFO). */
  method PushThenPop<T(0)>(b: ExpandBuffer<T>, item: T) returns (pushed: Outcome, popped: Result<T>)
    requires b.Valid()
    modifies b, b.buffer
    ensures b.Valid()
    ensures pushed.Pass? ==> popped == Ok(item) && b.Contents() == old(b.Contents())
    ensures pushed.Fail? ==> popped.Ok? && b.Length == old(b.Length) - 1
  {
    pushed := b.Add(item);
    popped := b.Pop();
  }

  /**
   * A small scenario: capacity 2, push 1, 2, 3, read them back in order, pop 3;
   * then AsSpan(10) leaves Length alone and yields exactly 10 slots.
   */
  method SmallIntScenario()
  {
    var created := ExpandBuffer<int>.Create(2);
    var b := created.value;
    var a1 := b.Add(1);
    var a2 := b.Add(2);
    var a3 := b.Add(3);
    assert b.Length == 3;
    assert b.Contents() == [1, 2, 3];
    var x0 := b.Get(0);
    var x2 := b.Get(2);
    assert x0 == Ok(1) && x2 == Ok(3);
    var top := b.Pop();
    assert top == Ok(3) && b.Length == 2;
    var span := b.AsSpanOfLength(10);
    assert span.Ok? && |span.value| == 10 && b.Length == 2;
    assert b.Contents() == [1, 2];
  }
}
