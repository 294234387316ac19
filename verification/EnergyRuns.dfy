/**
  What energy economy promises over time: one listening frame per cycle, and
  the station awake while contexts are open and for T.210 after activity.
 */
module EnergyRuns {
  import opened Wrappers
  import opened Tdma
  import opened EnergyEconomy

  // ---------------------------------------------------------------- one listening frame per cycle

  lemma FrameIndexOf(x: i32)
    ensures FrameIndex(FromInt(x).f, FromInt(x).m) == x / 4 % FRAMES
  {
    var q := x / 4;
    assert x / 72 == q / 18;
    assert q % FRAMES == q / 18 % 60 * 18 + q % 18;
  }

  /** The frame index `k` frames later, also across hyperframes and the 16-bit wrap. */
  lemma FrameIndexAfter(ts: Time, k: nat)
    requires ts.Valid() && k <= 360
    ensures FrameIndex(AddTimeslots(ts, 4 * k).f, AddTimeslots(ts, 4 * k).m) == (FrameIndex(ts.f, ts.m) + k) % FRAMES
  {
    hide FromInt;
    var x := ToInt(ts) + 4 * k;
    FrameIndexOf(x);
    SlotsToFrames(ts, k);
    TurnsDrop(FrameIndex(ts.f, ts.m) + k, ts.h);
  }

  lemma SlotsToFrames(ts: Time, k: nat)
    requires ts.Valid()
    ensures (ToInt(ts) + 4 * k) / 4 == FrameIndex(ts.f, ts.m) + k + FRAMES * ts.h
  {
    assert ToInt(ts) + 4 * k == (ts.t - 1) + 4 * (FrameIndex(ts.f, ts.m) + k + FRAMES * ts.h);
  }

  lemma TurnsDrop(x: int, h: nat)
    ensures (x + FRAMES * h) % FRAMES == x % FRAMES
  {
  }

  /** `k` frames later is on the cycle exactly when `k` is congruent to the distance to the start point. */
  lemma OnCycleAfter(mode: u8, frame: u8, multiframe: u8, ts: Time, k: nat)
    requires SleepFrames(mode).Some? && ts.Valid() && k <= 360
    ensures OnCycle(mode, frame, multiframe, AddTimeslots(ts, 4 * k)) <==>
            (k - (FrameIndex(frame, multiframe) - FrameIndex(ts.f, ts.m))) % Cycle(mode) == 0
  {
    hide FrameIndex, AddTimeslots, SleepFrames, Cycle;
    var s, i, c := FrameIndex(frame, multiframe), FrameIndex(ts.f, ts.m), Cycle(mode);
    FrameIndexAfter(ts, k);
    FrameTurns(i + k, s);
    ModMod(i + k - s, FRAMES, c);
    assert i + k - s == k - (s - i);
  }

  lemma FrameTurns(x: int, s: int)
    ensures (x % FRAMES - s) % FRAMES == (x - s) % FRAMES
  {
  }

  lemma ModMod(x: int, n: nat, c: nat)
    requires n > 0 && c > 0 && n % c == 0
    ensures x % n % c == x % c
  {
    var r, q := x % n, x / n;
    Multiple(n, q);
    DivTrans(n * q, n, c);
    var u, v := r / c, n * q / c;
    assert x == c * (u + v) + r % c;
    DivUnique(x, c, u + v, r % c);
  }

  /**
    Any `sleep + 1` consecutive frames contain exactly one in which a sleeping
    station listens, and it is never frame 18.
   */
  lemma OneListeningFrame(a: Assignment, ts: Time) returns (k: nat)
    requires IsEnergyEconomy(a) && a.suspensionCount == 0 && ts.Valid()
    requires forall j: nat :: j < Cycle(a.mode) ==> !HeldAwake(a, AddTimeslots(ts, 4 * j))
    ensures k < Cycle(a.mode) && ListensAt(a, AddTimeslots(ts, 4 * k))
    ensures forall j: nat :: j < Cycle(a.mode) && ListensAt(a, AddTimeslots(ts, 4 * j)) ==> j == k
    ensures AddTimeslots(ts, 4 * k).f != 18
  {
    hide FrameIndex, AddTimeslots, SleepFrames, Cycle, CycleUsesFrame, OnCycle, HeldAwake;
    var f, m, c := a.frame.value, a.multiframe.value, Cycle(a.mode);
    var d := FrameIndex(f, m) - FrameIndex(ts.f, ts.m);
    k := d % c;
    OneResidue(d, c, k);
    OnCycleAfter(a.mode, f, m, ts, k);
    forall j: nat | j < c && ListensAt(a, AddTimeslots(ts, 4 * j)) ensures j == k {
      OnCycleAfter(a.mode, f, m, ts, j);
      OneResidue(d, c, j);
    }
    var at := AddTimeslots(ts, 4 * k);
    if at.f == 18 {
      StaysValid(ts, 4 * k);
      ReachedIsUsed(a.mode, f, m, at);
    }
  }

  lemma OneResidue(d: int, c: nat, j: nat)
    requires j < c
    ensures (j - d) % c == 0 <==> j == d % c
  {
    if j == d % c {
      assert j - d == c * -(d / c);
      Multiple(c, -(d / c));
    }
    if (j - d) % c == 0 {
      assert d == c * -((j - d) / c) + j;
      DivUnique(d, c, -((j - d) / c), j);
    }
  }

  lemma StaysValid(ts: Time, n: i32)
    requires FitsI32(ToInt(ts) + n)
    ensures AddTimeslots(ts, n).Valid()
  {
  }

  // ---------------------------------------------------------------- unwrapped time

  /** The TDMA time of an unwrapped slot count. */
  function At(x: int): (ts: Time)
  {
    FromInt(x % WRAP)
  }

  lemma AtIsValid(x: int)
    ensures At(x).Valid() && ToInt(At(x)) == x % WRAP
  {
    hide FromInt, ToInt;
    ToIntFromInt(x % WRAP);
  }

  lemma AtAdd(x: int, n: i32)
    requires -HALF <= n < HALF
    ensures AddTimeslots(At(x), n) == At(x + n)
  {
    hide FromInt, ToInt;
    AtIsValid(x);
    AddModulo(x, n);
    FromIntPeriodic(x % WRAP + n, (x + n) % WRAP);
  }

  lemma AtDiff(x: int, y: int)
    requires -HALF <= x - y < HALF
    ensures Diff(At(x), At(y)) == x - y
  {
    hide FromInt, ToInt, CyclicDiff, At;
    AtIsValid(x);
    AtIsValid(y);
    SubModulo(x, y);
    CyclicDiffUnique(x % WRAP, y % WRAP, x - y);
  }

  lemma SubModulo(x: int, y: int)
    ensures (x % WRAP - y % WRAP) % WRAP == (x - y) % WRAP
  {
  }

  // ---------------------------------------------------------------- runs

  datatype Event = Suspended | Resumed(at: int) | Activity(at: int)

  function Step(a: Assignment, e: Event): Assignment {
    match e
    case Suspended => Suspend(a)
    case Resumed(t) => Resume(a, At(t))
    case Activity(t) => MarkAwake(a, At(t))
  }

  function Run(a: Assignment, es: seq<Event>): Assignment {
    if es == [] then a else Step(Run(a, es[..|es| - 1]), es[|es| - 1])
  }

  /** The machine one would write on unwrapped time: contexts counted without bound, the latest window kept. */
  datatype Plain = Plain(open: nat, awake: Option<int>)

  function Later(u: Option<int>, t: int): Option<int> {
    if u.Some? && u.value >= t then u else Some(t)
  }

  function PlainStep(p: Plain, e: Event): Plain {
    match e
    case Suspended => p.(open := p.open + 1)
    case Resumed(t) =>
      if p.open > 1 then p.(open := p.open - 1) else Plain(0, Later(p.awake, t + 72))
    case Activity(t) => p.(awake := Later(p.awake, t + 72))
  }

  function PlainRun(p: Plain, es: seq<Event>): Plain {
    if es == [] then p else PlainStep(PlainRun(p, es[..|es| - 1]), es[|es| - 1])
  }

  /** `a` is `p` wrapped, with every window ending in the half turn from `lo` on. */
  predicate Refines(a: Assignment, p: Plain, lo: int) {
    && IsEnergyEconomy(a)
    && a.suspensionCount == p.open
    && match p.awake
       case None => a.awakeUntil == None
       case Some(u) => lo <= u < lo + HALF && a.awakeUntil == Some(At(u))
  }

  predicate InSpan(e: Event, lo: int) {
    e.Suspended? || lo <= e.at < lo + HALF - T210
  }

  lemma MarkAwakeRefines(a: Assignment, p: Plain, t: int, lo: int)
    requires Refines(a, p, lo) && lo <= t < lo + HALF - T210
    ensures Refines(MarkAwake(a, At(t)), p.(awake := Later(p.awake, t + T210)), lo)
  {
    hide AddTimeslots, Diff, At, CycleUsesFrame;
    AtAdd(t, T210);
    if p.awake.Some? { AtDiff(p.awake.value, t + T210); }
  }

  lemma StepRefines(a: Assignment, p: Plain, e: Event, lo: int)
    requires Refines(a, p, lo) && InSpan(e, lo) && PlainStep(p, e).open <= 0xFFFF
    ensures Refines(Step(a, e), PlainStep(p, e), lo)
  {
    hide MarkAwake, At, CycleUsesFrame;
    match e
    case Suspended =>
    case Activity(t) => MarkAwakeRefines(a, p, t, lo);
    case Resumed(t) =>
      var b := if a.suspensionCount > 0 then a.(suspensionCount := a.suspensionCount - 1) else a;
      if b.suspensionCount == 0 { MarkAwakeRefines(b, p.(open := 0), t, lo); }
  }

  /** In half a turn of events and with at most 65535 contexts open at once, the cyclic machine is the plain one. */
  lemma {:induction false} RunRefines(a: Assignment, p: Plain, es: seq<Event>, lo: int)
    requires Refines(a, p, lo)
    requires forall i :: 0 <= i < |es| ==> InSpan(es[i], lo)
    requires forall n :: 0 <= n <= |es| ==> PlainRun(p, es[..n]).open <= 0xFFFF
    ensures Refines(Run(a, es), PlainRun(p, es), lo)
  {
    hide Refines, Step, PlainStep, InSpan;
    if es == [] {
    } else {
      var es' := es[..|es| - 1];
      forall n | 0 <= n <= |es'| ensures PlainRun(p, es'[..n]).open <= 0xFFFF {
        assert es'[..n] == es[..n];
      }
      RunRefines(a, p, es', lo);
      assert es[..|es|] == es;
      StepRefines(Run(a, es'), PlainRun(p, es'), es[|es| - 1], lo);
    }
  }

  /** When a station listens after any such run, told on the plain machine. */
  lemma RunListens(a: Assignment, p: Plain, es: seq<Event>, lo: int, x: int)
    requires Refines(a, p, lo) && lo <= x < lo + HALF
    requires forall i :: 0 <= i < |es| ==> InSpan(es[i], lo)
    requires forall n :: 0 <= n <= |es| ==> PlainRun(p, es[..n]).open <= 0xFFFF
    ensures var q := PlainRun(p, es);
            ListensAt(Run(a, es), At(x)) <==>
              || q.open > 0
              || (q.awake.Some? && x <= q.awake.value)
              || OnCycle(a.mode, a.frame.value, a.multiframe.value, At(x))
  {
    hide At, Diff, OnCycle, CycleUsesFrame, PlainRun;
    RunRefines(a, p, es, lo);
    RunKeepsCycle(a, es);
    var q := PlainRun(p, es);
    if q.awake.Some? { AtDiff(x, q.awake.value); }
  }

  lemma {:induction false} RunKeepsCycle(a: Assignment, es: seq<Event>)
    ensures var b := Run(a, es); b.mode == a.mode && b.frame == a.frame && b.multiframe == a.multiframe
  {
    hide At, IsEnergyEconomy;
    if es == [] {
    } else {
      RunKeepsCycle(a, es[..|es| - 1]);
    }
  }

  /** A window, once opened, is never cut short by what follows. */
  lemma {:induction false} WindowsOnlyGrow(p: Plain, es: seq<Event>, n: nat)
    requires n <= |es| && PlainRun(p, es[..n]).awake.Some?
    ensures var u := PlainRun(p, es).awake; u.Some? && u.value >= PlainRun(p, es[..n]).awake.value
  {
    if n == |es| {
      assert es[..n] == es;
    } else {
      var es' := es[..|es| - 1];
      assert es'[..n] == es[..n];
      WindowsOnlyGrow(p, es', n);
    }
  }

  /** Activity, or the resume that closes the last context, keeps the station awake for 72 slots, whatever follows. */
  lemma AwakeForT210(a: Assignment, p: Plain, es: seq<Event>, n: nat, lo: int, x: int)
    requires Refines(a, p, lo) && n < |es| && !es[n].Suspended?
    requires es[n].Resumed? ==> PlainRun(p, es[..n]).open <= 1
    requires forall i :: 0 <= i < |es| ==> InSpan(es[i], lo)
    requires forall n :: 0 <= n <= |es| ==> PlainRun(p, es[..n]).open <= 0xFFFF
    requires lo <= x <= es[n].at + 72
    ensures ListensAt(Run(a, es), At(x))
  {
    hide At, ListensAt, Refines, Run, OnCycle;
    assert es[..n + 1][..n] == es[..n];
    assert PlainRun(p, es[..n + 1]) == PlainStep(PlainRun(p, es[..n]), es[n]);
    WindowsOnlyGrow(p, es, n + 1);
    assert InSpan(es[n], lo);
    RunListens(a, p, es, lo, x);
  }

  // ---------------------------------------------------------------- the half-turn boundary

  /**
    The T.210 window of one activity is honoured in full unless the window already
    recorded ended between half a turn and half a turn less 72 slots ago: that one
    then compares as later, is kept, and does not cover the activity.
   */
  lemma WindowHonoured(a: Assignment, t: Time)
    requires IsEnergyEconomy(a) && t.Valid()
    ensures (forall k: i32 :: 0 <= k <= 72 ==> HeldAwake(MarkAwake(a, t), AddTimeslots(t, k))) <==>
            (a.awakeUntil.Some? ==>
               var d := Diff(a.awakeUntil.value, t); d == -HALF || d >= -HALF + 72)
  {
    hide AddTimeslots, Diff, IsEnergyEconomy;
    var b := MarkAwake(a, t);
    forall k: i32 | 0 <= k <= T210
      ensures HeldAwake(b, AddTimeslots(t, k)) <==>
              (a.awakeUntil.Some? ==>
                 var d := Diff(a.awakeUntil.value, t);
                 d >= -HALF + T210 || k - d >= HALF)
    {
      if a.awakeUntil.Some? {
        DiffOfShift(a.awakeUntil.value, t, T210);
        DiffToShift(t, k, a.awakeUntil.value);
      }
      DiffWithin(t, k, T210);
    }
    assert a.awakeUntil.Some? ==> (HeldAwake(b, AddTimeslots(t, 0)) <==>
      var d := Diff(a.awakeUntil.value, t); d >= -HALF + T210 || 0 - d >= HALF);
  }

  /** `x - (y + n)` from `x - y`. */
  lemma DiffOfShift(x: Time, y: Time, n: i32)
    requires 0 <= n <= T210
    ensures var d := Diff(x, y) - n; Diff(x, AddTimeslots(y, n)) == if d < -HALF then d + WRAP else d
  {
    hide ToInt, FromInt, CyclicDiff;
    var a: int, b: int := ToInt(x), ToInt(y);
    ToIntFromInt(b + n);
    CyclicDiffCongruent(a, b);
    var d := CyclicDiff(a, b) - n;
    ShiftCongruent(a, b, n, CyclicDiff(a, b));
    Turn(d);
    CyclicDiffUnique(a, (b + n) % WRAP, if d < -HALF then d + WRAP else d);
  }

  lemma ShiftCongruent(a: int, b: int, n: int, d: int)
    requires d % WRAP == (a - b) % WRAP
    ensures (a - (b + n) % WRAP) % WRAP == (d - n) % WRAP
  {
    SubModulo(a, b + n);
    AddModulo(a, 0 - (b + n) % WRAP);
    AddModulo(d, -n);
    AddModulo(a - b, -n);
  }

  /** `(x + k) - y` from `y - x`. */
  lemma DiffToShift(x: Time, k: i32, y: Time)
    requires 0 <= k <= T210
    ensures var d := k - Diff(y, x); Diff(AddTimeslots(x, k), y) == if d >= HALF then d - WRAP else d
  {
    hide AddTimeslots, Diff;
    DiffOfShift(y, x, k);
    DiffAntisymmetric(AddTimeslots(x, k), y);
  }

  lemma DiffWithin(t: Time, k: i32, n: i32)
    requires 0 <= k <= n <= T210
    ensures Diff(AddTimeslots(t, k), AddTimeslots(t, n)) == k - n
  {
    hide AddTimeslots, Diff;
    DiffOfShift(AddTimeslots(t, k), t, n);
    AddTimeslotsDiff(t, k);
  }

  lemma AddTimeslotsDiff(t: Time, k: i32)
    requires 0 <= k <= T210
    ensures Diff(AddTimeslots(t, k), t) == k
  {
    hide ToInt, FromInt, Diff;
    DiffOfAdd(t, k);
  }

  /** The recorded window never moves earlier, except by exactly half a turn. */
  lemma WindowNeverEarlier(a: Assignment, t: Time)
    requires IsEnergyEconomy(a) && a.awakeUntil.Some?
    ensures var b := MarkAwake(a, t);
            && b.awakeUntil.Some?
            && (Diff(b.awakeUntil.value, a.awakeUntil.value) >= 0 <==>
                Diff(a.awakeUntil.value, AddTimeslots(t, T210)) != -HALF)
  {
    hide AddTimeslots, IsEnergyEconomy;
    var u, v := a.awakeUntil.value, AddTimeslots(t, T210);
    DiffAntisymmetric(v, u);
    DiffSelf(u);
  }

  lemma DiffSelf(x: Time)
    ensures Diff(x, x) == 0
  {
  }

  // ---------------------------------------------------------------- open contexts and the 16-bit counter

  function Depth(es: seq<Event>): int {
    if es == [] then 0
    else
      var d, e := Depth(es[..|es| - 1]), es[|es| - 1];
      if e.Suspended? then d + 1 else if e.Resumed? then d - 1 else d
  }

  function Peak(es: seq<Event>): int {
    if es == [] then 0
    else
      var p, d := Peak(es[..|es| - 1]), Depth(es);
      if d > p then d else p
  }

  ghost predicate WellNested(es: seq<Event>) {
    forall n :: 0 <= n <= |es| ==> Depth(es[..n]) >= 0
  }

  /** Suspensions lost to saturation. */
  function Lost(es: seq<Event>): nat {
    if Peak(es) > 0xFFFF then Peak(es) - 0xFFFF else 0
  }

  /** As long as contexts are open, more are open than saturation has swallowed. */
  ghost predicate Covered(es: seq<Event>) {
    forall n :: 0 <= n <= |es| && Depth(es[..n]) > 0 ==> Depth(es[..n]) > Lost(es[..n])
  }

  /** The station listens at every time. */
  ghost predicate AlwaysListens(a: Assignment) {
    forall ts: Time :: ts.Valid() ==> ListensAt(a, ts)
  }

  lemma SleepsSomewhere(a: Assignment) returns (ts: Time)
    requires IsEnergyEconomy(a) && a.suspensionCount == 0
    ensures ts.Valid() && !ListensAt(a, ts)
  {
    hide AddTimeslots, Diff, OnCycle, CycleUsesFrame, SleepFrames, Cycle, FrameIndex;
    var u := if a.awakeUntil.Some? then a.awakeUntil.value else At(0);
    var x := AddTimeslots(u, 1);
    var y := AddTimeslots(x, 4);
    StaysValid(u, 1);
    StaysValid(x, 4);
    assert y == AddTimeslots(u, 5) by { FitsAfter(u); AddAdd(u, 1, 4); }
    AddTimeslotsDiff(u, 1);
    AddTimeslotsDiff(u, 5);
    NotBoth(a.mode, a.frame.value, a.multiframe.value, x);
    ts := if OnCycle(a.mode, a.frame.value, a.multiframe.value, x) then y else x;
  }

  lemma FitsAfter(u: Time)
    ensures FitsI32(ToInt(u) + 1) && FitsI32(ToInt(AddTimeslots(u, 1)) + 4)
  {
  }

  /** No two consecutive frames are both on the cycle. */
  lemma NotBoth(mode: u8, frame: u8, multiframe: u8, ts: Time)
    requires SleepFrames(mode).Some? && ts.Valid()
    ensures !(OnCycle(mode, frame, multiframe, ts) && OnCycle(mode, frame, multiframe, AddTimeslots(ts, 4)))
  {
    hide AddTimeslots, OnCycle, SleepFrames, Cycle, FrameIndex;
    var c, d := Cycle(mode), FrameIndex(frame, multiframe) - FrameIndex(ts.f, ts.m);
    OnCycleAfter(mode, frame, multiframe, ts, 0);
    OnCycleAfter(mode, frame, multiframe, ts, 1);
    assert AddTimeslots(ts, 0) == ts by { AddNothing(ts); }
    if (0 - d) % c == 0 && (1 - d) % c == 0 {
      DivSub(1 - d, 0 - d, c);
      DivUnique(1, c, 0, 1);
    }
  }

  lemma AddNothing(ts: Time)
    requires ts.Valid()
    ensures AddTimeslots(ts, 0) == ts
  {
    FromIntToInt(ts);
  }

  lemma AlwaysListensIffSuspended(a: Assignment)
    requires IsEnergyEconomy(a)
    ensures AlwaysListens(a) <==> a.suspensionCount > 0
  {
    if a.suspensionCount == 0 { var ts := SleepsSomewhere(a); }
  }

  /** The assignment's own start point is due. */
  lemma StartPointListens(a: Assignment, ts: Time)
    requires a.frame == Some(ts.f) && a.multiframe == Some(ts.m)
    ensures ListensAt(a, ts)
  {
    hide SleepFrames, Cycle, CycleUsesFrame, HeldAwake;
    if IsEnergyEconomy(a) { NoFrames(FrameIndex(ts.f, ts.m), Cycle(a.mode)); }
  }

  lemma NoFrames(i: int, c: nat)
    requires c > 0
    ensures (i - i) % FRAMES % c == 0
  {
  }

  /** Frames from frame `f` of multiframe `mf` to frame 18 of multiframe `m`. */
  function FramesTo18(f: int, mf: int, m: int): int {
    18 * m - (18 * (mf - 1) + f)
  }

  /**
    Which assignments are gated at all, told on their fields: the mode is one of table 23.9, there is a
    start point with a frame from 1 to 17, and no time in frame 18 lies a whole number of cycles after it.
   */
  lemma GatedMeans(a: Assignment)
    ensures IsEnergyEconomy(a) <==>
            && 1 <= a.mode <= 7
            && a.frame.Some? && 1 <= a.frame.value <= 17
            && a.multiframe.Some? && 1 <= a.multiframe.value <= 60
            && forall m: u8 :: 1 <= m <= 60 ==>
                 FramesTo18(a.frame.value, a.multiframe.value, m) % [2, 3, 6, 9, 18, 72, 360][a.mode - 1] != 0
  {
    hide SleepFrames, Cycle, CycleUsesFrame, OnCycle, FramesTo18;
    CycleTable(a.mode);
    if && 1 <= a.mode <= 7
       && a.frame.Some? && 1 <= a.frame.value <= 17 && a.multiframe.Some? && 1 <= a.multiframe.value <= 60
    {
      Reaches18(a.mode, a.frame.value, a.multiframe.value);
    }
  }

  lemma Reaches18(mode: u8, f: u8, mf: u8)
    requires SleepFrames(mode).Some? && 1 <= f <= 17 && 1 <= mf <= 60
    ensures CycleUsesFrame(mode, f, mf, 18) <==>
            exists m: u8 :: 1 <= m <= 60 && FramesTo18(f, mf, m) % Cycle(mode) == 0
  {
    hide SleepFrames, Cycle, CycleUsesFrame, OnCycle, FramesTo18;
    CycleUsesFrameMeans(mode, f, mf, 18);
    if CycleUsesFrame(mode, f, mf, 18) {
      var ts: Time :| ts.Valid() && ts.f == 18 && OnCycle(mode, f, mf, ts);
      Frame18OnCycle(mode, f, mf, ts);
    }
    if m: u8 :| 1 <= m <= 60 && FramesTo18(f, mf, m) % Cycle(mode) == 0 {
      Frame18OnCycle(mode, f, mf, Time(1, 18, m, 0));
    }
  }

  lemma Frame18OnCycle(mode: u8, f: u8, mf: u8, ts: Time)
    requires SleepFrames(mode).Some? && ts.f == 18
    ensures OnCycle(mode, f, mf, ts) <==> FramesTo18(f, mf, ts.m) % Cycle(mode) == 0
  {
    hide SleepFrames, Cycle;
    ModMod(FrameIndex(18, ts.m) - FrameIndex(f, mf), FRAMES, Cycle(mode));
  }

  /**
    A station listens at every time if and only if it is suspended or not gated: no mode of the table, no
    usable start point, or a cycle that reaches frame 18. Otherwise it sleeps at some time.
   */
  lemma AlwaysListensIff(a: Assignment)
    ensures AlwaysListens(a) <==>
            || a.suspensionCount > 0
            || !(1 <= a.mode <= 7)
            || a.frame.None? || !(1 <= a.frame.value <= 17)
            || a.multiframe.None? || !(1 <= a.multiframe.value <= 60)
            || exists m: u8 ::
                 && 1 <= m <= 60
                 && FramesTo18(a.frame.value, a.multiframe.value, m) % [2, 3, 6, 9, 18, 72, 360][a.mode - 1] == 0
  {
    hide IsEnergyEconomy;
    GatedMeans(a);
    if IsEnergyEconomy(a) { AlwaysListensIffSuspended(a); }
  }

  /** One event more: what happens to the counter, on its own. */
  lemma CountStep(a: Assignment, e: Event)
    requires IsEnergyEconomy(a)
    ensures var b := Step(a, e);
            && IsEnergyEconomy(b)
            && b.suspensionCount ==
                 match e
                 case Suspended => if a.suspensionCount == 0xFFFF then 0xFFFF else a.suspensionCount + 1
                 case Resumed(_) => if a.suspensionCount > 0 then a.suspensionCount - 1 else 0
                 case Activity(_) => a.suspensionCount
  {
    hide At, CycleUsesFrame;
  }

  lemma PrefixNested(es: seq<Event>)
    requires es != []
    ensures WellNested(es) ==> WellNested(es[..|es| - 1]) && Depth(es) >= 0
    ensures Covered(es) ==> Covered(es[..|es| - 1]) && (Depth(es) > 0 ==> Depth(es) > Lost(es))
  {
    hide Depth, Lost;
    var es' := es[..|es| - 1];
    assert es[..|es|] == es;
    assert forall n :: 0 <= n <= |es'| ==> es'[..n] == es[..n];
  }

  /** While every open context is covered, the counter is the depth less what saturation swallowed. */
  lemma {:induction false} CounterTracksDepth(a: Assignment, es: seq<Event>)
    requires IsEnergyEconomy(a) && a.suspensionCount == 0 && WellNested(es) && Covered(es)
    ensures IsEnergyEconomy(Run(a, es))
    ensures Run(a, es).suspensionCount == Depth(es) - Lost(es)
    ensures Lost(es) > 0 ==> Depth(es) > Lost(es)
    ensures Peak(es) >= Depth(es)
  {
    hide IsEnergyEconomy, Step, WellNested, Covered;
    if es == [] {
    } else {
      var es' := es[..|es| - 1];
      PrefixNested(es);
      CounterTracksDepth(a, es');
      CountStep(Run(a, es'), es[|es| - 1]);
    }
  }

  /** Where cover is lost first, the counter has run out with contexts still open. */
  lemma {:induction false} UncoveredIsMissed(a: Assignment, es: seq<Event>) returns (n: nat)
    requires IsEnergyEconomy(a) && a.suspensionCount == 0 && WellNested(es) && !Covered(es)
    ensures n <= |es| && Depth(es[..n]) > 0 && IsEnergyEconomy(Run(a, es[..n])) && Run(a, es[..n]).suspensionCount == 0
  {
    hide IsEnergyEconomy, Step, WellNested, Covered;
    n := 0;
    NothingCovered();
    if es == [] {
    } else {
      var es' := es[..|es| - 1];
      PrefixNested(es);
      if !Covered(es') {
        n := UncoveredIsMissed(a, es');
        assert es'[..n] == es[..n];
      } else {
        n := |es|;
        assert es[..n] == es;
        LastUncovered(es);
        CounterTracksDepth(a, es');
        CountStep(Run(a, es'), es[|es| - 1]);
      }
    }
  }

  lemma NothingCovered()
    ensures Covered([])
  {
  }

  lemma LastUncovered(es: seq<Event>)
    requires es != [] && !Covered(es) && Covered(es[..|es| - 1])
    ensures Depth(es) > 0 && Depth(es) <= Lost(es)
  {
    hide Depth, Lost;
    var es' := es[..|es| - 1];
    assert es[..|es|] == es;
    assert forall n :: 0 <= n <= |es'| ==> es'[..n] == es[..n];
  }

  /**
    Over every well-nested run, the station listens at every time while a context is
    open if and only if saturation never swallowed as many suspensions as are open;
    in particular whenever at most 65535 contexts are open at once.
   */
  lemma ListensWhileOpen(a: Assignment, es: seq<Event>)
    requires IsEnergyEconomy(a) && a.suspensionCount == 0 && WellNested(es)
    ensures (forall n :: 0 <= n <= |es| && Depth(es[..n]) > 0 ==> AlwaysListens(Run(a, es[..n]))) <==> Covered(es)
    ensures Peak(es) <= 0xFFFF ==> Covered(es)
  {
    hide IsEnergyEconomy, AlwaysListens, Run, Depth;
    if Covered(es) {
      forall n | 0 <= n <= |es| && Depth(es[..n]) > 0 ensures AlwaysListens(Run(a, es[..n])) {
        PrefixCovered(es, n);
        CounterTracksDepth(a, es[..n]);
        AlwaysListensIffSuspended(Run(a, es[..n]));
      }
    } else {
      var n := UncoveredIsMissed(a, es);
      AlwaysListensIffSuspended(Run(a, es[..n]));
    }
    if Peak(es) <= 0xFFFF {
      forall n | 0 <= n <= |es| ensures Lost(es[..n]) == 0 { PeakMonotone(es, n); }
    }
  }

  lemma PrefixCovered(es: seq<Event>, n: nat)
    requires n <= |es|
    ensures WellNested(es) ==> WellNested(es[..n])
    ensures Covered(es) ==> Covered(es[..n])
  {
    hide Depth, Lost;
    assert forall k :: 0 <= k <= n ==> es[..n][..k] == es[..k];
  }

  lemma {:induction false} PeakMonotone(es: seq<Event>, n: nat)
    requires n <= |es|
    ensures Peak(es[..n]) <= Peak(es)
  {
    if n == |es| {
      assert es[..n] == es;
    } else {
      assert es[..|es| - 1][..n] == es[..n];
      PeakMonotone(es[..|es| - 1], n);
    }
  }

  // ---------------------------------------------------------------- where the windows and the counter fail

  /** A station in mode 1 from frame 1 of multiframe 1: every other frame. */
  function Dozing(awakeUntil: Option<Time>): Assignment {
    Assignment(1, Some(1), Some(1), awakeUntil, 0)
  }

  lemma DozingEconomises(awakeUntil: Option<Time>)
    ensures IsEnergyEconomy(Dozing(awakeUntil))
  {
    GcdWith18(2);
  }

  /** A window on record that ended one slot less than half a turn ago: the station sleeps at the activity itself. */
  lemma LateActivityMissed()
    ensures var a, t := Dozing(Some(At(0))), At(HALF - 1);
            IsEnergyEconomy(a) && !ListensAt(MarkAwake(a, t), t)
  {
    hide AddTimeslots, Diff, At, CycleUsesFrame;
    var a, t := Dozing(Some(At(0))), At(HALF - 1);
    DozingEconomises(Some(At(0)));
    AtDiff(0, HALF - 1);
    AtDiff(HALF - 1, 0);
    DiffOfShift(At(0), t, T210);
    OffCycle();
  }

  lemma OffCycle()
    ensures !OnCycle(1, 1, 1, At(HALF - 1))
  {
    hide FromInt, FrameIndex;
    FrameIndexOf(HALF - 1);
    assert FrameIndex(1, 1) == 0 by { StartIndex(); }
  }

  lemma StartIndex()
    ensures FrameIndex(1, 1) == 0
  {
  }

  /** An activity whose window ends exactly half a turn after the one on record: the recorded window moves earlier. */
  lemma HalfTurnMovesEarlier()
    ensures var a, b := Dozing(Some(At(0))), MarkAwake(Dozing(Some(At(0))), At(HALF - T210));
            IsEnergyEconomy(a) && b.awakeUntil == Some(At(HALF)) && Diff(At(HALF), At(0)) < 0
  {
    hide AddTimeslots, Diff, At, CycleUsesFrame;
    DozingEconomises(Some(At(0)));
    AtAdd(HALF - T210, T210);
    AtDiff(0, HALF);
    DiffAntisymmetric(At(HALF), At(0));
  }

  /** `m` contexts opened, and then `n` of them closed. */
  function Nested(m: nat, n: nat): seq<Event> {
    seq(m, _ => Suspended) + seq(n, _ => Resumed(0))
  }

  lemma {:induction false} NestedCounts(a: Assignment, m: nat, n: nat)
    requires IsEnergyEconomy(a) && a.suspensionCount == 0 && n <= 0xFFFF
    ensures Depth(Nested(m, n)) == m - n
    ensures var c := (if m < 0xFFFF then m else 0xFFFF) - n; var b := Run(a, Nested(m, n));
            IsEnergyEconomy(b) && b.suspensionCount == if c > 0 then c else 0
    decreases m + n
  {
    hide IsEnergyEconomy, Step;
    var es := Nested(m, n);
    if m == n == 0 {
      assert es == [];
    } else {
      var es' := if n > 0 then Nested(m, n - 1) else Nested(m - 1, 0);
      assert es[..|es| - 1] == es';
      if n > 0 { NestedCounts(a, m, n - 1); } else { NestedCounts(a, m - 1, 0); }
      CountStep(Run(a, es'), es[|es| - 1]);
    }
  }

  lemma NestedIsWellNested(a: Assignment, m: nat, n: nat)
    requires IsEnergyEconomy(a) && a.suspensionCount == 0 && n <= m && n <= 0xFFFF
    ensures WellNested(Nested(m, n))
  {
    hide IsEnergyEconomy, Depth, Run;
    var es := Nested(m, n);
    forall k | 0 <= k <= |es| ensures Depth(es[..k]) >= 0 {
      var i, j := if k < m then k else m, if k < m then 0 else k - m;
      assert es[..k] == Nested(i, j);
      NestedCounts(a, i, j);
    }
  }

  /**
    More than 65535 contexts opened and 65535 of them closed again: the run is well nested and
    contexts are open, but the counter has run out and the station sleeps.
   */
  lemma SaturationLosesContexts(a: Assignment, m: nat)
    requires IsEnergyEconomy(a) && a.suspensionCount == 0 && m > 0xFFFF
    ensures var es := Nested(m, 0xFFFF);
            WellNested(es) && Depth(es) == m - 0xFFFF && !AlwaysListens(Run(a, es)) && !Covered(es)
  {
    hide IsEnergyEconomy, Depth, Run, AlwaysListens, WellNested, Covered, Nested;
    var es := Nested(m, 0xFFFF);
    NestedIsWellNested(a, m, 0xFFFF);
    NestedCounts(a, m, 0xFFFF);
    AlwaysListensIffSuspended(Run(a, es));
    assert es[..|es|] == es;
    ListensWhileOpen(a, es);
  }

  /** For one station: 65536 contexts opened and 65535 closed. */
  lemma LastContextLost()
    ensures var a, es := Dozing(None), Nested(0x1_0000, 0xFFFF);
            IsEnergyEconomy(a) && WellNested(es) && Depth(es) == 1 && !AlwaysListens(Run(a, es))
  {
    hide IsEnergyEconomy, Depth, Run, AlwaysListens, WellNested, Nested;
    DozingEconomises(None);
    SaturationLosesContexts(Dozing(None), 0x1_0000);
  }
}
