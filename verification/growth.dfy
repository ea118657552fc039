/**
 * The capacity arithmetic of ExpandBuffer<T>: the constants, C#'s 32-bit `int`
 * operations it is written with, the request Grow makes, and the doubling
 * search of AsSpan(int).
 */
module Growth {

  import opened Powers

  const MinimumGrow := 4
  const GrowFactor := 200
  /** The hard ceiling on the capacity a buffer may request: 64 * 1024 * 1024. */
  const MaxCapacity := 64 * 1024 * 1024

  const Int32Min := -0x8000_0000
  const Int32Max := 0x7fff_ffff

  datatype Option<T> = None | Some(value: T)

  /** Two's-complement wrap-around of an unbounded integer into a C# `int`. */
  function Wrap32(x: int): (r: int)
    ensures Int32Min <= r <= Int32Max
    ensures (r - x) % 0x1_0000_0000 == 0
    ensures Int32Min <= x <= Int32Max ==> r == x
  {
    (x - Int32Min) % 0x1_0000_0000 + Int32Min
  }

  /**
   * C#'s `int` division by 100, as Grow writes it, which truncates toward
   * zero: the quotient keeps the dividend's sign, never exceeds it in
   * magnitude, and is zero whenever the dividend lies strictly between -100
   * and 100 (Dafny's own `/` would give -1 for a small negative dividend).
   */
  function DivTrunc100(a: int): (q: int)
    ensures 0 <= a ==> 0 <= q <= a && a - 100 < 100 * q <= a
    ensures a < 0 ==> a <= q <= 0 && a <= 100 * q < a + 100
    ensures -100 < a < 100 ==> q == 0
  {
    if a >= 0 then a / 100 else -((-a) / 100)
  }

  // ---------------------------------------------------------------------------
  // Grow
  // ---------------------------------------------------------------------------

  /**
   * The capacity Grow asks SetCapacity for when the backing array holds `cap`
   * elements, computed in 32-bit arithmetic exactly as written:
   * `cap * GrowFactor / 100`, raised to `cap + MinimumGrow` if that is larger.
   */
  function GrowRequest(cap: int): (r: int)
    ensures Int32Min <= r <= Int32Max
    ensures r >= Wrap32(cap + MinimumGrow)
    ensures r >= DivTrunc100(Wrap32(cap * GrowFactor))
  {
    var scaled := DivTrunc100(Wrap32(cap * GrowFactor));
    var floor := Wrap32(cap + MinimumGrow);
    if scaled < floor then floor else scaled
  }

  /** Grow always asks for at least MinimumGrow more than the current capacity. */
  lemma GrowRequestIncreases(cap: int)
    requires 0 <= cap <= MaxCapacity
    ensures GrowRequest(cap) >= cap + MinimumGrow > cap
  {
  }

  /** Until `cap * 200` leaves the `int` range, Grow asks for max(2 * cap, cap + 4). */
  lemma GrowRequestDoubles(cap: int)
    requires 0 <= cap <= 10_737_418
    ensures GrowRequest(cap) == if 2 * cap < cap + MinimumGrow then cap + MinimumGrow else 2 * cap
  {
  }

  /**
   * Beyond 10,737,418 elements `cap * 200` wraps around and the scaled request
   * is never larger than the floor: Grow asks for exactly `cap + 4`.
   */
  lemma GrowRequestAfterOverflow(cap: int)
    requires 10_737_418 < cap <= MaxCapacity
    ensures GrowRequest(cap) == cap + MinimumGrow
  {
  }

  /** The request from an empty buffer is exactly MinimumGrow. */
  lemma GrowRequestFromEmpty()
    ensures GrowRequest(0) == MinimumGrow
  {
  }

  // ---------------------------------------------------------------------------
  // AsSpan(int)
  // ---------------------------------------------------------------------------

  /**
   * The doubling search of AsSpan(int) over unbounded integers: starting from a
   * positive candidate, double until the candidate covers `length`.
   */
  function DoublingTarget(start: int, length: int): (r: int)
    requires start > 0
    ensures r >= start && r >= length
    ensures r == start || r < 2 * length
    decreases length - start
  {
    if start >= length then start else DoublingTarget(2 * start, length)
  }

  /** How many times the doubling search doubles `start` before it covers `length`. */
  function DoublingSteps(start: int, length: int): nat
    requires start > 0
    decreases length - start
  {
    if start >= length then 0 else 1 + DoublingSteps(2 * start, length)
  }

  /** A power-of-two multiple of `start`, written as one of `2 * start`. */
  lemma Pow2Shift(start: int, j: nat)
    requires j > 0
    ensures start * Pow2(j) == (2 * start) * Pow2(j - 1)
  {
    var p := Pow2(j - 1);
    assert Pow2(j) == 2 * p;
    assert start * (2 * p) == (2 * start) * p;
  }

  /** The doubling search ends at start * 2^k, for k its number of doublings. */
  lemma {:induction false} DoublingTargetIsMultiple(start: int, length: int)
    requires start > 0
    ensures DoublingTarget(start, length) == start * Pow2(DoublingSteps(start, length))
    decreases length - start
  {
    if start < length {
      DoublingTargetIsMultiple(2 * start, length);
      Pow2Shift(start, DoublingSteps(start, length));
    }
  }

  /**
   * The doubling search ends at the first power-of-two multiple of `start`
   * that covers `length`: every smaller multiple it passes falls short.
   */
  lemma {:induction false} DoublingTargetIsFirstCover(start: int, length: int)
    requires start > 0
    ensures DoublingTarget(start, length) == start * Pow2(DoublingSteps(start, length))
    ensures forall j: nat :: j < DoublingSteps(start, length) ==> start * Pow2(j) < length
    decreases length - start
  {
    DoublingTargetIsMultiple(start, length);
    if start < length {
      DoublingTargetIsFirstCover(2 * start, length);
      forall j: nat | j < DoublingSteps(start, length)
        ensures start * Pow2(j) < length
      {
        if j > 0 {
          Pow2Shift(start, j);
        }
      }
    }
  }

  /**
   * The first candidate of the doubling search. The source starts from
   * `buffer.Length * 2`; on an empty backing array the corrected search starts
   * from MinimumGrow instead (see SpanLoopFromEmptyNeverExits).
   */
  function SpanStart(cap: nat): (r: int)
    ensures r > 0
    ensures 0 < cap <= MaxCapacity ==> r == Wrap32(cap * 2)
  {
    if cap == 0 then MinimumGrow else 2 * cap
  }

  /** The capacity AsSpan(length) asks SetCapacity for when `length` exceeds `cap`. */
  function SpanRequest(cap: nat, length: int): (r: int)
    ensures r >= length && r > cap
  {
    DoublingTarget(SpanStart(cap), length)
  }

  /**
   * The `while` loop of AsSpan(int) as written, on 32-bit `int`s, allowed at
   * most `fuel` iterations: Some(final candidate) if it exits within them.
   */
  function SpanLoop32(newCapacity: int, length: int, fuel: nat): (r: Option<int>)
    ensures r.Some? ==> r.value >= length
    ensures r.Some? && Int32Min <= newCapacity <= Int32Max ==> Int32Min <= r.value <= Int32Max
    decreases fuel
  {
    if newCapacity >= length then Some(newCapacity)
    else if fuel == 0 then None
    else SpanLoop32(Wrap32(newCapacity * 2), length, fuel - 1)
  }

  /** Once the candidate has reached zero the loop cannot exit for any positive length. */
  lemma {:induction false} SpanLoopStuckAtZero(length: int, fuel: nat)
    requires length > 0
    ensures SpanLoop32(0, length, fuel) == None
  {
    if fuel > 0 {
      SpanLoopStuckAtZero(length, fuel - 1);
    }
  }

  /**
   * On an empty backing array the source's first candidate `0 * 2` is zero, so
   * for every positive length no number of iterations ends the loop.
   */
  lemma {:induction false} SpanLoopFromEmptyNeverExits(length: int, fuel: nat)
    requires length > 0
    ensures SpanLoop32(Wrap32(0 * 2), length, fuel) == None
  {
    SpanLoopStuckAtZero(length, fuel);
  }

  /**
   * With a full-size backing array (MaxCapacity) and length int.MaxValue the
   * candidate runs 2^27, 2^28, 2^29, 2^30, then wraps to -2^31 and to 0, where
   * it stays: the loop never exits.
   */
  lemma SpanLoopWrapNeverExits(fuel: nat)
    ensures SpanLoop32(Wrap32(MaxCapacity * 2), Int32Max, fuel) == None
  {
    var m := Int32Max;
    assert Wrap32(MaxCapacity * 2) == 0x800_0000;
    if fuel > 0 {
      assert SpanLoop32(0x800_0000, m, fuel) == SpanLoop32(0x1000_0000, m, fuel - 1);
      if fuel > 1 {
        assert SpanLoop32(0x1000_0000, m, fuel - 1) == SpanLoop32(0x2000_0000, m, fuel - 2);
        if fuel > 2 {
          assert SpanLoop32(0x2000_0000, m, fuel - 2) == SpanLoop32(0x4000_0000, m, fuel - 3);
          if fuel > 3 {
            assert Wrap32(0x4000_0000 * 2) == Int32Min;
            assert SpanLoop32(0x4000_0000, m, fuel - 3) == SpanLoop32(Int32Min, m, fuel - 4);
            if fuel > 4 {
              assert Wrap32(Int32Min * 2) == 0;
              assert SpanLoop32(Int32Min, m, fuel - 4) == SpanLoop32(0, m, fuel - 5);
              SpanLoopStuckAtZero(m, fuel - 5);
            }
          }
        }
      }
    }
  }

  /**
   * Whenever the source's loop cannot overflow (a positive candidate and a
   * length of at most 2^30), it exits within `length - start` iterations with
   * exactly the unbounded doubling target.
   */
  lemma {:induction false} SpanLoopAgrees(start: int, length: int, fuel: nat)
    requires 0 < start && length <= 0x4000_0000
    requires fuel >= length - start
    ensures SpanLoop32(start, length, fuel) == Some(DoublingTarget(start, length))
    decreases length - start
  {
    if start < length {
      assert Wrap32(start * 2) == 2 * start;
      SpanLoopAgrees(2 * start, length, fuel - 1);
    }
  }
}
