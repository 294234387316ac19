/**
  Energy economy (clause 23.7.6 and table 23.9 of EN 300 392-2): when a mobile
  station that sleeps in a negotiated cycle listens, and how signalling activity
  and assigned channels keep it awake.
 */
module EnergyEconomy {
  import opened Wrappers
  import opened Tdma

  datatype Assignment = Assignment(
    mode: u8,
    frame: Option<u8>,
    multiframe: Option<u8>,
    awakeUntil: Option<Time>,
    suspensionCount: u16)

  const T210: i32 := 18 * 4
  const FRAMES: int := 18 * 60

  function SleepFrames(mode: u8): Option<nat> {
    match mode
    case 1 => Some(1)
    case 2 => Some(2)
    case 3 => Some(5)
    case 4 => Some(8)
    case 5 => Some(17)
    case 6 => Some(71)
    case 7 => Some(359)
    case _ => None
  }

  /** Every cycle fits a whole number of times into a hyperframe, and into or around a multiframe. */
  predicate IsCycle(c: nat) {
    2 <= c <= 360 && FRAMES % c == 0 && (if c <= 18 then 18 % c == 0 else c % 18 == 0)
  }

  function Cycle(mode: u8): (c: nat)
    requires SleepFrames(mode).Some?
    ensures IsCycle(c)
  {
    SleepFrames(mode).value + 1
  }

  /** The cycles of table 23.9, in frames. */
  lemma CycleTable(mode: u8)
    ensures SleepFrames(mode).Some? <==> 1 <= mode <= 7
    ensures 1 <= mode <= 7 ==> Cycle(mode) == [2, 3, 6, 9, 18, 72, 360][mode - 1]
  {
  }

  /** Number of a frame within the hyperframe. */
  function FrameIndex(f: int, m: int): int { (m - 1) * 18 + (f - 1) }

  /** The closed-form test of `listens_at`: whole cycles have passed since the start point. */
  predicate OnCycle(mode: u8, frame: u8, multiframe: u8, ts: Time)
    requires SleepFrames(mode).Some?
  {
    (FrameIndex(ts.f, ts.m) - FrameIndex(frame, multiframe)) % FRAMES % Cycle(mode) == 0
  }

  function Gcd(a: nat, b: nat): nat
    decreases b
  {
    if b == 0 then a else Gcd(b, a % b)
  }

  lemma GcdWith18(c: nat)
    requires IsCycle(c)
    ensures Gcd(c, 18) == if c > 18 then 18 else c
  {
    if c > 18 {
      assert Gcd(c, 18) == Gcd(18, 0) == 18;
    } else if c == 18 {
      assert Gcd(c, 18) == Gcd(18, 0) == 18;
    } else {
      DivUnique(c, 18, 0, c);
      assert Gcd(c, 18) == Gcd(18, c);
      assert Gcd(18, c) == Gcd(c, 0) == c;
    }
  }

  /** A cycle reaches a frame number exactly when it differs from the start frame by a multiple of `gcd(cycle, 18)`. */
  predicate CycleUsesFrame(mode: u8, frame: u8, multiframe: u8, target: u8) {
    && SleepFrames(mode).Some?
    && 1 <= frame <= 18 && 1 <= multiframe <= 60 && 1 <= target <= 18
    && (target - frame) % Gcd(Cycle(mode), 18) == 0
  }

  /** The frame `offset` frames after the start point has the wanted frame number. */
  predicate Hits(start: int, offset: nat, target: u8) {
    (start + offset) % FRAMES % 18 + 1 == target
  }

  /** A frame number met by the cycle is congruent to the start frame. */
  lemma HitIsCongruent(c: nat, g: nat, frame: u8, multiframe: u8, offset: nat, target: u8)
    requires IsCycle(c) && g == (if c > 18 then 18 else c) && offset % c == 0
    requires 1 <= frame <= 18 && 1 <= target <= 18 && Hits(FrameIndex(frame, multiframe), offset, target)
    ensures (target - frame) % g == 0
  {
    hide FrameIndex, IsCycle;
    var n := frame - 1 + offset;
    CycleDivides(c, g);
    InMultiframe(frame, multiframe, offset);
    var q := n / 18;
    assert n == 18 * q + (target - 1);
    Multiple(18, q);
    DivTrans(18 * q, 18, g);
    DivTrans(offset, c, g);
    DivSub(offset, 18 * q, g);
  }

  lemma CycleDivides(c: nat, g: nat)
    requires IsCycle(c) && g == if c > 18 then 18 else c
    ensures g > 0 && c > 0 && c % g == 0 && 18 % g == 0
  {
    if c <= 18 { DivUnique(c, c, 1, 0); }
  }

  lemma InMultiframe(frame: u8, multiframe: u8, offset: nat)
    ensures (FrameIndex(frame, multiframe) + offset) % FRAMES % 18 == (frame - 1 + offset) % 18
  {
  }

  /** The offset at which a congruent frame number is met. */
  lemma CongruentIsHit(c: nat, g: nat, frame: u8, multiframe: u8, target: u8) returns (offset: nat)
    requires IsCycle(c) && g == (if c > 18 then 18 else c)
    requires 1 <= frame <= 18 && 1 <= target <= 18 && (target - frame) % g == 0
    ensures offset < 18 && offset % c == 0 && Hits(FrameIndex(frame, multiframe), offset, target)
  {
    hide FrameIndex;
    offset := (target - frame) % 18;
    ReachFrame(frame, target);
    InMultiframe(frame, multiframe, offset);
    if c <= 18 {
      Reduced(target - frame, c);
    } else {
      Multiple(c, 0);
    }
  }

  lemma ReachFrame(frame: u8, target: u8)
    requires 1 <= frame <= 18 && 1 <= target <= 18
    ensures (frame - 1 + (target - frame) % 18) % 18 == target - 1
  {
  }

  lemma Reduced(d: int, c: nat)
    requires c > 0 && 18 % c == 0 && d % c == 0
    ensures d % 18 % c == 0
  {
    var q := d / 18;
    Multiple(18, q);
    DivTrans(18 * q, 18, c);
    DivSub(d, 18 * q, c);
  }

  // ---- divisibility

  lemma DivUnique(x: int, c: nat, q: int, r: int)
    requires c > 0 && x == c * q + r && 0 <= r < c
    ensures x % c == r && x / c == q
  {
    var p, s := x / c, x % c;
    assert x == c * p + s;
    if p > q { Gap(c, p, q); }
    if p < q { Gap(c, q, p); }
  }

  lemma Gap(c: nat, a: int, b: int)
    requires a > b
    ensures c * a >= c * b + c
  {
    assert c * a == c * b + c * (a - b);
    assert c * (a - b) == c * (a - b - 1) + c;
  }

  lemma Multiple(c: nat, q: int)
    requires c > 0
    ensures (c * q) % c == 0
  {
    DivUnique(c * q, c, q, 0);
  }

  lemma DivTrans(x: int, c: nat, g: nat)
    requires c > 0 && g > 0 && x % c == 0 && c % g == 0
    ensures x % g == 0
  {
    var a, b := x / c, c / g;
    assert x == c * a && c == g * b;
    assert x == g * (b * a);
    Multiple(g, b * a);
  }

  lemma DivSub(x: int, y: int, g: nat)
    requires g > 0 && x % g == 0 && y % g == 0
    ensures (x - y) % g == 0
  {
    assert x - y == g * (x / g - y / g);
    Multiple(g, x / g - y / g);
  }

  /** The search loop over one hyperframe of cycle starts. */
  method ReceiveCycleUsesFrame(mode: u8, frame: u8, multiframe: u8, target: u8) returns (r: bool)
    ensures r == CycleUsesFrame(mode, frame, multiframe, target)
    ensures r ==> 1 <= mode <= 7 && 1 <= frame <= 18 && 1 <= multiframe <= 60 && 1 <= target <= 18
  {
    var sleep := SleepFrames(mode);
    if sleep.None? { return false; }
    if !(1 <= frame <= 18) || !(1 <= multiframe <= 60) || !(1 <= target <= 18) { return false; }
    var start := FrameIndex(frame, multiframe);
    var cycle: nat := sleep.value + 1;
    GcdWith18(cycle);
    var offset: nat := 0;
    while offset < FRAMES
      invariant offset % cycle == 0
      invariant forall o: nat :: o < offset && o % cycle == 0 ==> !Hits(start, o, target)
    {
      var current := (start + offset) % FRAMES;
      if current % 18 + 1 == target {
        HitIsCongruent(cycle, Gcd(cycle, 18), frame, multiframe, offset, target);
        return true;
      }
      NextMultiple(offset, cycle);
      offset := offset + cycle;
    }
    if (target - frame) % Gcd(cycle, 18) == 0 {
      var o := CongruentIsHit(cycle, Gcd(cycle, 18), frame, multiframe, target);
      assert false;
    }
    r := false;
  }

  lemma NextMultiple(o: nat, c: nat)
    requires c > 0 && o % c == 0
    ensures (o + c) % c == 0
    ensures forall p: nat :: o < p < o + c ==> p % c != 0
  {
    var q := o / c;
    assert o + c == c * (q + 1);
    Multiple(c, q + 1);
    forall p: nat | o < p < o + c ensures p % c != 0 {
      DivUnique(p, c, q, p - o);
    }
  }

  /** The frame with a given index, in hyperframe 0. */
  function FrameAt(index: nat): (ts: Time)
    requires index < FRAMES
    ensures ts.Valid() && FrameIndex(ts.f, ts.m) == index && ts.f == index % 18 + 1
  {
    Time(1, index % 18 + 1, index / 18 + 1, 0)
  }

  /** What the search loop decides: some time with the target frame number passes the closed-form test. */
  lemma CycleUsesFrameMeans(mode: u8, frame: u8, multiframe: u8, target: u8)
    requires SleepFrames(mode).Some? && 1 <= frame <= 18 && 1 <= multiframe <= 60 && 1 <= target <= 18
    ensures CycleUsesFrame(mode, frame, multiframe, target) <==>
            exists ts: Time :: ts.Valid() && ts.f == target && OnCycle(mode, frame, multiframe, ts)
  {
    hide SleepFrames, CycleUsesFrame, OnCycle, Cycle;
    if CycleUsesFrame(mode, frame, multiframe, target) {
      var ts := ReachedAt(mode, frame, multiframe, target);
    }
    forall ts: Time | ts.Valid() && ts.f == target && OnCycle(mode, frame, multiframe, ts)
      ensures CycleUsesFrame(mode, frame, multiframe, target)
    {
      ReachedIsUsed(mode, frame, multiframe, ts);
    }
  }

  lemma ReachedAt(mode: u8, frame: u8, multiframe: u8, target: u8) returns (ts: Time)
    requires CycleUsesFrame(mode, frame, multiframe, target)
    ensures ts.Valid() && ts.f == target && OnCycle(mode, frame, multiframe, ts)
  {
    hide SleepFrames, Cycle, IsCycle, FrameIndex, FrameAt;
    var c, s := Cycle(mode), FrameIndex(frame, multiframe);
    GcdWith18(c);
    var o := CongruentIsHit(c, Gcd(c, 18), frame, multiframe, target);
    ts := FrameAt((s + o) % FRAMES);
    TurnAndBack(s, o);
  }

  lemma ReachedIsUsed(mode: u8, frame: u8, multiframe: u8, ts: Time)
    requires SleepFrames(mode).Some? && 1 <= frame <= 18 && 1 <= multiframe <= 60
    requires ts.Valid() && OnCycle(mode, frame, multiframe, ts)
    ensures CycleUsesFrame(mode, frame, multiframe, ts.f)
  {
    hide SleepFrames, Cycle, IsCycle;
    var c, s, i := Cycle(mode), FrameIndex(frame, multiframe), FrameIndex(ts.f, ts.m);
    var o := (i - s) % FRAMES;
    BackToFrame(s, i, ts.f, ts.m);
    GcdWith18(c);
    HitIsCongruent(c, Gcd(c, 18), frame, multiframe, o, ts.f);
  }

  lemma BackToFrame(s: int, i: int, f: u8, m: u8)
    requires 1 <= f <= 18 && 1 <= m <= 60 && i == FrameIndex(f, m)
    ensures Hits(s, (i - s) % FRAMES, f)
  {
    hide FrameIndex;
    var q := (i - s) / FRAMES;
    assert 0 <= i < FRAMES && i % 18 + 1 == f by { IndexDigits(f, m); }
    DivUnique(s + (i - s) % FRAMES, FRAMES, -q, i);
  }

  lemma IndexDigits(f: u8, m: u8)
    requires 1 <= f <= 18 && 1 <= m <= 60
    ensures 0 <= FrameIndex(f, m) < FRAMES && FrameIndex(f, m) % 18 + 1 == f
  {
    DivUnique(FrameIndex(f, m), 18, m - 1, f - 1);
  }

  lemma TurnAndBack(s: int, o: nat)
    requires o < FRAMES
    ensures ((s + o) % FRAMES - s) % FRAMES == o
  {
  }

  /** Is the assignment one this base station gates by? Never one whose cycle reaches frame 18. */
  predicate IsEnergyEconomy(a: Assignment) {
    && SleepFrames(a.mode).Some?
    && a.frame.Some? && a.multiframe.Some?
    && 1 <= a.frame.value <= 17 && 1 <= a.multiframe.value <= 60
    && !CycleUsesFrame(a.mode, a.frame.value, a.multiframe.value, 18)
  }

  /** Open contexts do not decide whether an assignment is gated. */
  lemma GatedByCycle(a: Assignment, count: u16)
    ensures IsEnergyEconomy(a.(suspensionCount := count)) <==> IsEnergyEconomy(a)
  {
    hide CycleUsesFrame, SleepFrames;
  }

  /** Inside the window that signalling activity or the start guard opened. */
  predicate HeldAwake(a: Assignment, ts: Time) {
    a.awakeUntil.Some? && Diff(ts, a.awakeUntil.value) <= 0
  }

  predicate ListensAt(a: Assignment, ts: Time) {
    IsEnergyEconomy(a) ==>
      || a.suspensionCount > 0
      || HeldAwake(a, ts)
      || OnCycle(a.mode, a.frame.value, a.multiframe.value, ts)
  }

  function MarkAwake(a: Assignment, at: Time): Assignment {
    if !IsEnergyEconomy(a) then a
    else
      var until := AddTimeslots(at, T210);
      a.(awakeUntil := if a.awakeUntil.Some? && Diff(a.awakeUntil.value, until) >= 0 then a.awakeUntil else Some(until))
  }

  /** Saturating 16-bit count of open contexts. */
  function Suspend(a: Assignment): Assignment {
    if !IsEnergyEconomy(a) then a
    else a.(suspensionCount := if a.suspensionCount == 0xFFFF then 0xFFFF else a.suspensionCount + 1)
  }

  function Resume(a: Assignment, at: Time): Assignment {
    var b := if a.suspensionCount > 0 then a.(suspensionCount := a.suspensionCount - 1) else a;
    if b.suspensionCount == 0 then MarkAwake(b, at) else b
  }

  // ---------------------------------------------------------------- the object

  class EnergySaving {
    var mode: u8
    var frame: Option<u8>
    var multiframe: Option<u8>
    var awakeUntil: Option<Time>
    var suspensionCount: u16

    function Value(): Assignment
      reads this
    {
      Assignment(mode, frame, multiframe, awakeUntil, suspensionCount)
    }

    method Economises() returns (r: bool)
      ensures r == IsEnergyEconomy(Value())
    {
      var sleep := SleepFrames(mode);
      if sleep.None? || frame.None? || multiframe.None? { return false; }
      var uses18 := ReceiveCycleUsesFrame(mode, frame.value, multiframe.value, 18);
      r := 1 <= frame.value <= 17 && 1 <= multiframe.value <= 60 && !uses18;
    }

    method Listens(ts: Time) returns (r: bool)
      ensures r == ListensAt(Value(), ts)
    {
      hide CycleUsesFrame, SleepFrames, ToInt, CyclicDiff;
      var economy := Economises();
      if !economy { return true; }
      if suspensionCount > 0 { return true; }
      if awakeUntil.Some? {
        var d := TimeIntDiff(ToInt(ts), ToInt(awakeUntil.value));
        if d <= 0 { return true; }
      }
      var sleep := SleepFrames(mode);
      var start, current := FrameIndex(frame.value, multiframe.value), FrameIndex(ts.f, ts.m);
      var cycle: nat := Cycle(mode);
      r := (current - start) % FRAMES % cycle == 0;
    }

    method MarkAwakeFromSignallingActivity(at: Time)
      modifies this`awakeUntil
      ensures Value() == MarkAwake(old(Value()), at)
      ensures !IsEnergyEconomy(old(Value())) ==> awakeUntil == old(awakeUntil)
      ensures IsEnergyEconomy(old(Value())) ==>
                var until := AddTimeslots(at, 72);
                if old(awakeUntil).Some? && Diff(old(awakeUntil).value, until) >= 0 then awakeUntil == old(awakeUntil)
                else awakeUntil == Some(until)
    {
      hide CycleUsesFrame, ToInt, CyclicDiff, FromInt;
      var economy := Economises();
      if economy {
        var until := AddTimeslots(at, T210);
        if awakeUntil.Some? {
          var d := TimeIntDiff(ToInt(awakeUntil.value), ToInt(until));
          if d >= 0 { return; }
        }
        awakeUntil := Some(until);
      }
    }

    method SuspendForAssignedChannel()
      modifies this`suspensionCount
      ensures Value() == Suspend(old(Value()))
      ensures suspensionCount == old(if IsEnergyEconomy(Value()) && suspensionCount < 65535 then suspensionCount + 1
                                     else suspensionCount)
    {
      var economy := Economises();
      if economy {
        suspensionCount := if suspensionCount == 0xFFFF then 0xFFFF else suspensionCount + 1;
      }
    }

    method ResumeFromAssignedChannel(at: Time)
      modifies this`suspensionCount, this`awakeUntil
      ensures Value() == Resume(old(Value()), at)
      ensures suspensionCount == old(if suspensionCount > 0 then suspensionCount - 1 else 0)
      ensures suspensionCount > 0 || !IsEnergyEconomy(old(Value())) ==> awakeUntil == old(awakeUntil)
    {
      hide IsEnergyEconomy, AddTimeslots, Diff;
      if suspensionCount > 0 { suspensionCount := suspensionCount - 1; }
      GatedByCycle(old(Value()), suspensionCount);
      if suspensionCount == 0 { MarkAwakeFromSignallingActivity(at); }
    }
  }
}
