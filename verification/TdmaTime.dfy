/**
  TDMA time: timeslot 1..4, frame 1..18, multiframe 1..60 and a 16-bit
  hyperframe number, counted in slots modulo the wrap of the hyperframe.
 */
module Tdma {

  type u8 = x: nat | x < 0x100
  type u16 = x: nat | x < 0x1_0000
  type i32 = x: int | -0x8000_0000 <= x < 0x8000_0000

  datatype Time = Time(t: u8, f: u8, m: u8, h: u16) {
    predicate Valid() { 1 <= t <= 4 && 1 <= f <= 18 && 1 <= m <= 60 }
  }

  /** Slots in one turn of the hyperframe number. */
  const WRAP: i32 := 4 * 18 * 60 * 65536
  const HALF: i32 := WRAP / 2

  function ToInt(x: Time): (r: i32)
    ensures -0x1000 < r < 0x4000_0000
  {
    (x.t - 1) + (x.f - 1) * 4 + (x.m - 1) * 4 * 18 + x.h * 4 * 18 * 60
  }

  /** Euclidean digits; the cast of the hyperframe quotient to 16 bits drops everything above them. */
  function FromInt(x: i32): Time {
    Time(x % 4 + 1, x / 4 % 18 + 1, x / 72 % 60 + 1, x / 4320 % 0x1_0000)
  }

  predicate FitsI32(x: int) { -0x8000_0000 <= x < 0x8000_0000 }

  function AddTimeslots(x: Time, n: i32): Time
    requires FitsI32(ToInt(x) + n)
  {
    FromInt(ToInt(x) + n)
  }

  /** The representative of `a - b` modulo the wrap that lies in `[-HALF, HALF)`. */
  function CyclicDiff(a: int, b: int): (d: int)
    ensures -HALF <= d < HALF
  {
    (a - b + HALF) % WRAP - HALF
  }

  /** Difference of two slot counts, brought into range by repeated correction. */
  method TimeIntDiff(a: i32, b: i32) returns (diff: i32)
    requires FitsI32(a - b)
    ensures diff == CyclicDiff(a, b)
  {
    hide CyclicDiff;
    diff := a - b;
    while diff < -HALF
      invariant diff % WRAP == (a - b) % WRAP
      decreases 0 - diff
    {
      Turn(diff);
      diff := diff + WRAP;
    }
    while diff >= HALF
      invariant -HALF <= diff && diff % WRAP == (a - b) % WRAP
    {
      Turn(diff - WRAP);
      diff := diff - WRAP;
    }
    CyclicDiffUnique(a, b, diff);
  }

  lemma Turn(x: int)
    ensures (x + WRAP) % WRAP == x % WRAP
  {
  }

  function Diff(x: Time, y: Time): (d: int)
    ensures -HALF <= d < HALF
  {
    CyclicDiff(ToInt(x), ToInt(y))
  }

  /** The mixed-radix digits carry the whole number. */
  lemma Digits(x: int)
    ensures x == x % 4 + 4 * (x / 4 % 18) + 72 * (x / 72 % 60) + 4320 * (x / 4320)
  {
    assert x / 72 == x / 4 / 18;
    assert x / 4320 == x / 72 / 60;
  }

  lemma TopDigit(x: int)
    ensures 4320 * (x / 4320 % 0x1_0000) == x - x % 4320 - WRAP * (x / WRAP)
    ensures x % WRAP == x % 4320 + 4320 * (x / 4320 % 0x1_0000)
  {
    assert x / WRAP == x / 4320 / 0x1_0000;
  }

  /** Going through a TDMA time keeps a slot count up to whole turns of the hyperframe number. */
  lemma ToIntFromInt(x: i32)
    ensures FromInt(x).Valid() && ToInt(FromInt(x)) == x % WRAP
  {
    Digits(x);
    TopDigit(x);
  }

  /** Valid times and slot counts below the wrap correspond one to one. */
  lemma FromIntToInt(x: Time)
    requires x.Valid()
    ensures 0 <= ToInt(x) < WRAP && FromInt(ToInt(x)) == x
  {
    hide ToInt, FromInt;
    var p: int := (x.m - 1) + 60 * x.h;
    IntParts(x, (x.f - 1) + 18 * p, p);
    Rem18(x.f - 1, p);
    Rem60(x.m - 1, x.h);
    Assembled(ToInt(x), x);
  }

  lemma IntParts(x: Time, q: int, p: int)
    requires x.Valid() && p == (x.m - 1) + 60 * x.h && q == (x.f - 1) + 18 * p
    ensures var n := ToInt(x); 0 <= n < WRAP && n % 4 == x.t - 1 && n / 4 == q && n / 72 == p && n / 4320 == x.h
  {
    var n: int := ToInt(x);
    assert n == 4 * q + (x.t - 1);
    QuotientsAre(n, q, p, x.h, x.t - 1, 4 * (x.f - 1) + x.t - 1, 72 * (x.m - 1) + 4 * (x.f - 1) + x.t - 1);
  }

  lemma QuotientsAre(n: int, q: int, p: int, h: int, r: int, s: int, t: int)
    requires n == 4 * q + r && n == 72 * p + s && n == 4320 * h + t
    requires 0 <= r < 4 && 0 <= s < 72 && 0 <= t < 4320
    ensures n % 4 == r && n / 4 == q && n / 72 == p && n / 4320 == h
  {
  }

  lemma Rem18(r: int, p: int)
    requires 0 <= r < 18
    ensures (r + 18 * p) % 18 == r
  {
  }

  lemma Rem60(r: int, p: int)
    requires 0 <= r < 60
    ensures (r + 60 * p) % 60 == r
  {
  }

  lemma Assembled(n: i32, x: Time)
    requires n % 4 == x.t - 1 && n / 4 % 18 == x.f - 1 && n / 72 % 60 == x.m - 1 && n / 4320 == x.h
    ensures FromInt(n) == x
  {
  }

  /** A time depends on its slot count only up to the wrap. */
  lemma FromIntPeriodic(x: i32, y: i32)
    requires x % WRAP == y % WRAP
    ensures FromInt(x) == FromInt(y)
  {
    ToIntFromInt(x);
    ToIntFromInt(y);
    FromIntToInt(FromInt(x));
    FromIntToInt(FromInt(y));
  }

  lemma AddModulo(x: int, n: int)
    ensures (x % WRAP + n) % WRAP == (x + n) % WRAP
  {
  }

  /** Adding slots composes, also across the wrap. */
  lemma AddAdd(x: Time, a: i32, b: i32)
    requires FitsI32(ToInt(x) + a) && FitsI32(ToInt(x) + a + b) && FitsI32(a + b)
    requires FitsI32(ToInt(AddTimeslots(x, a)) + b)
    ensures AddTimeslots(AddTimeslots(x, a), b) == AddTimeslots(x, a + b)
  {
    hide ToInt, FromInt;
    ToIntFromInt(ToInt(x) + a);
    AddModulo(ToInt(x) + a, b);
    FromIntPeriodic(ToInt(AddTimeslots(x, a)) + b, ToInt(x) + a + b);
  }

  /** The cyclic difference is the only value in its range congruent to `a - b`. */
  lemma CyclicDiffUnique(a: int, b: int, d: int)
    requires -HALF <= d < HALF && d % WRAP == (a - b) % WRAP
    ensures d == CyclicDiff(a, b)
  {
    assert (d + HALF) % WRAP == (a - b + HALF) % WRAP by {
      AddModulo(d, HALF);
      AddModulo(a - b, HALF);
    }
  }

  lemma CyclicDiffCongruent(a: int, b: int)
    ensures CyclicDiff(a, b) % WRAP == (a - b) % WRAP
  {
    AddModulo(a - b + HALF, -HALF);
  }

  /** Advancing by `n` slots is measured as `n` exactly when `n` lies in half a turn around zero. */
  lemma DiffOfAdd(x: Time, n: i32)
    requires FitsI32(ToInt(x) + n)
    ensures Diff(AddTimeslots(x, n), x) == n <==> -HALF <= n < HALF
  {
    hide ToInt, FromInt, CyclicDiff;
    if -HALF <= n < HALF {
      var a := ToInt(x);
      ToIntFromInt(a + n);
      AddModulo(a + n, -a);
      assert ((a + n) % WRAP + -a) % WRAP == n % WRAP;
      CyclicDiffUnique((a + n) % WRAP, a, n);
    }
  }

  lemma NegModulo(x: int, y: int)
    requires x % WRAP == y % WRAP
    ensures (-x) % WRAP == (-y) % WRAP
  {
  }

  /** Differences change sign with their arguments, except for the half turn, which is its own opposite. */
  lemma DiffAntisymmetric(x: Time, y: Time)
    ensures Diff(x, y) == if Diff(y, x) == -HALF then -HALF else -Diff(y, x)
  {
    hide ToInt, CyclicDiff;
    var a: int, b: int := ToInt(x), ToInt(y);
    var d := CyclicDiff(b, a);
    CyclicDiffCongruent(b, a);
    NegModulo(d, b - a);
    if d == -HALF {
      Turn(-HALF);
      CyclicDiffUnique(a, b, -HALF);
    } else {
      CyclicDiffUnique(a, b, -d);
    }
  }

  /** The advance of `forward_to_timeslot`, with its 8-bit arithmetic. */
  /** One slot later, as on a calendar: timeslot, frame, multiframe and hyperframe carry into one another. */
  lemma NextSlot(x: Time)
    requires x.Valid()
    ensures AddTimeslots(x, 1) ==
            if x.t < 4 then x.(t := x.t + 1)
            else if x.f < 18 then x.(t := 1, f := x.f + 1)
            else if x.m < 60 then x.(t := 1, f := 1, m := x.m + 1)
            else Time(1, 1, 1, (x.h + 1) % 65536)
  {
    hide FromInt, ToInt;
    var y := Successor(x);
    NextInt(x);
    FromIntToInt(y);
    Turn(ToInt(y));
    FromIntPeriodic(ToInt(x) + 1, ToInt(y));
  }

  function Successor(x: Time): Time {
    if x.t < 4 then x.(t := x.t + 1)
    else if x.f < 18 then x.(t := 1, f := x.f + 1)
    else if x.m < 60 then x.(t := 1, f := 1, m := x.m + 1)
    else Time(1, 1, 1, (x.h + 1) % 65536)
  }

  lemma NextInt(x: Time)
    requires x.Valid()
    ensures var y := Successor(x); y.Valid() && (ToInt(x) + 1 == ToInt(y) || ToInt(x) + 1 == ToInt(y) + WRAP)
  {
  }

  function ForwardToTimeslot(x: Time, ts: u8): Time
    requires x.t <= ts + 4 < 0x100
  {
    AddTimeslots(x, (ts + 4 - x.t) % 4)
  }

  lemma SlotAfter(x: Time, k: i32)
    requires x.Valid() && FitsI32(ToInt(x) + k)
    ensures AddTimeslots(x, k).t == (x.t - 1 + k) % 4 + 1
  {
    hide FromInt;
    var q := (x.f - 1) + 18 * ((x.m - 1) + 60 * x.h);
    assert ToInt(x) + k == x.t - 1 + k + 4 * q;
    SlotOfInt(ToInt(x) + k);
    DropFours(x.t - 1 + k, q);
  }

  lemma SlotOfInt(x: i32)
    ensures FromInt(x).t == x % 4 + 1
  {
  }

  lemma DropFours(r: int, q: int)
    ensures (r + 4 * q) % 4 == r % 4
  {
  }

  /** It is the earliest time at or after `x` with the wanted timeslot. */
  lemma ForwardIsLeast(x: Time, ts: u8) returns (n: i32)
    requires x.Valid() && 1 <= ts <= 4
    ensures 0 <= n < 4 && ForwardToTimeslot(x, ts) == AddTimeslots(x, n)
    ensures AddTimeslots(x, n).t == ts
    ensures forall k: i32 :: 0 <= k < n ==> AddTimeslots(x, k).t != ts
  {
    hide FromInt;
    n := (ts + 4 - x.t) % 4;
    SlotAfter(x, n);
    forall k: i32 | 0 <= k < n ensures AddTimeslots(x, k).t != ts {
      SlotAfter(x, k);
    }
  }
}
