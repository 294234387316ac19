/**
  The allocator of traffic timeslots 2..4, with allocations that may take slots
  back from one preemptible owner.
 */
module TimeslotAlloc {
  import opened Wrappers

  datatype Owner = Brew | Cmce | PacketData

  datatype AllocErr =
    | InvalidTimeslot(ts: nat)
    | InUse(ts: nat, owner: Owner)
    | NotAllocated(ts: nat)
    | OwnerMismatch(ts: nat, owner: Owner, actual: Owner)

  datatype Result = Ok | Err(error: AllocErr)

  type Slot = Option<Owner>

  // ---------------------------------------------------------------- which slots are taken

  /** The indexes below `n` that hold `x`, in order. */
  function Positions(s: seq<Slot>, x: Slot, n: nat): (r: seq<nat>)
    requires n <= |s|
  {
    if n == 0 then []
    else if s[n - 1] == x then Positions(s, x, n - 1) + [n - 1]
    else Positions(s, x, n - 1)
  }

  function Free(s: seq<Slot>): seq<nat> { Positions(s, None, |s|) }
  function OwnedBy(s: seq<Slot>, o: Owner): seq<nat> { Positions(s, Some(o), |s|) }

  /** Free slots first, then the preemptible owner's. */
  function Candidates(s: seq<Slot>, preemptible: Owner): seq<nat> { Free(s) + OwnedBy(s, preemptible) }

  function Grant(s: seq<Slot>, picked: seq<nat>, owner: Owner): (r: seq<Slot>)
    ensures |r| == |s|
  {
    seq(|s|, i requires 0 <= i < |s| => if i in picked then Some(owner) else s[i])
  }

  function Timeslots(picked: seq<nat>): (r: seq<nat>)
    ensures |r| == |picked|
  {
    seq(|picked|, k requires 0 <= k < |picked| => picked[k] + 2)
  }

  /** What a request for `needed` slots picks, if it can be met. */
  function Picked(s: seq<Slot>, needed: nat, preemptible: Owner): Option<seq<nat>> {
    if needed <= |Candidates(s, preemptible)| then Some(Candidates(s, preemptible)[..needed]) else None
  }

  lemma {:induction false} PositionsAre(s: seq<Slot>, x: Slot, n: nat)
    requires n <= |s|
    ensures |Positions(s, x, n)| <= n
    ensures forall i: nat :: i in Positions(s, x, n) <==> i < n && s[i] == x
    ensures forall j, k :: 0 <= j < k < |Positions(s, x, n)| ==> Positions(s, x, n)[j] < Positions(s, x, n)[k]
  {
    if n == 0 {
    } else {
      PositionsAre(s, x, n - 1);
      var p := Positions(s, x, n - 1);
      forall j | 0 <= j < |p| ensures p[j] < n - 1 { assert p[j] in p; }
    }
  }

  lemma {:induction false} PositionsGrow(s: seq<Slot>, x: Slot, m: nat, n: nat)
    requires m <= n <= |s|
    ensures Positions(s, x, m) <= Positions(s, x, n)
  {
    if m == n {
    } else {
      PositionsGrow(s, x, m, n - 1);
    }
  }

  /** No index is a candidate twice, and the candidates are the free and the preemptible slots. */
  lemma CandidatesAre(s: seq<Slot>, p: Owner)
    ensures forall i: nat :: i in Candidates(s, p) <==> i < |s| && (s[i] == None || s[i] == Some(p))
    ensures forall j, k :: 0 <= j < k < |Candidates(s, p)| ==> Candidates(s, p)[j] != Candidates(s, p)[k]
  {
    hide Positions;
    PositionsAre(s, None, |s|);
    PositionsAre(s, Some(p), |s|);
    var c, f, o := Candidates(s, p), Free(s), OwnedBy(s, p);
    forall j, k | 0 <= j < k < |c| ensures c[j] != c[k] {
      if j < |f| { assert c[j] in f; }
      if k >= |f| { assert c[k] in o; }
    }
  }

  /** The slots a request may take. */
  function Takeable(s: seq<Slot>, p: Owner): set<nat> {
    set i: nat | i < |s| && (s[i] == None || s[i] == Some(p))
  }

  /** A request is met exactly when there are as many free or preemptible slots as it asks for. */
  lemma PickedIff(s: seq<Slot>, needed: nat, p: Owner)
    ensures Picked(s, needed, p).Some? <==> needed <= |Takeable(s, p)|
  {
    hide Candidates;
    CandidatesAre(s, p);
    var c := Candidates(s, p);
    DistinctCount(c);
    assert Elements(c) == Takeable(s, p);
  }

  function Elements(c: seq<nat>): set<nat> {
    set i | i in c
  }

  lemma {:induction false} DistinctCount(c: seq<nat>)
    requires forall j, k :: 0 <= j < k < |c| ==> c[j] != c[k]
    ensures |Elements(c)| == |c|
  {
    if c == [] {
      assert Elements(c) == {};
    } else {
      var rest, last := c[..|c| - 1], c[|c| - 1];
      DistinctCount(rest);
      assert last !in Elements(rest);
      assert Elements(c) == Elements(rest) + {last};
    }
  }

  function Max(a: int, b: int): int { if a >= b then a else b }

  /**
    What a successful request gives: exactly as many distinct slots as asked for, all of them
    free or the preemptible owner's; as few evictions as the free slots allow; nothing else moves.
   */
  lemma GrantedSlots(s: seq<Slot>, needed: nat, p: Owner, owner: Owner)
    requires Picked(s, needed, p).Some?
    ensures var g := Picked(s, needed, p).value; var s' := Grant(s, g, owner);
            && |g| == needed
            && (forall j, k :: 0 <= j < k < needed ==> g[j] != g[k])
            && (forall i :: i in g ==> i < |s| && (s[i] == None || s[i] == Some(p)) && s'[i] == Some(owner))
            && (forall i :: 0 <= i < |s| && i !in g ==> s'[i] == s[i])
  {
    hide Candidates;
    CandidatesAre(s, p);
    var c := Candidates(s, p);
    forall i | i in c[..needed] ensures i in c { }
  }

  /** Free slots go first: a slot is evicted only when no free one is left, and only `needed - free` are. */
  lemma FreeBeforeEvicting(s: seq<Slot>, needed: nat, p: Owner)
    requires Picked(s, needed, p).Some?
    ensures var g := Picked(s, needed, p).value; var free := Min(needed, |Free(s)|);
            && (forall k :: 0 <= k < free ==> g[k] < |s| && s[g[k]] == None)
            && (forall k :: free <= k < needed ==> g[k] < |s| && s[g[k]] == Some(p))
            && needed - free == Max(0, needed - |Free(s)|)
            && (free < needed ==> forall i :: 0 <= i < |s| && s[i] == None ==> i in g)
  {
    hide Positions;
    PositionsAre(s, None, |s|);
    PositionsAre(s, Some(p), |s|);
    var g, f, o := Picked(s, needed, p).value, Free(s), OwnedBy(s, p);
    forall k | 0 <= k < needed ensures g[k] < |s| && s[g[k]] == if k < |f| then None else Some(p) {
      if k < |f| { assert g[k] == f[k] && f[k] in f; } else { assert g[k] == o[k - |f|] && o[k - |f|] in o; }
    }
    if |f| < needed {
      forall i | 0 <= i < |s| && s[i] == None ensures i in g {
        assert i in f;
        var k :| 0 <= k < |f| && f[k] == i;
        assert g[k] == i;
      }
    }
  }

  function Min(a: nat, b: nat): nat { if a <= b then a else b }

  /** Among the free slots, and among the preemptible ones, the lowest are taken, in ascending order. */
  lemma LowestFirst(s: seq<Slot>, needed: nat, p: Owner)
    requires Picked(s, needed, p).Some?
    ensures var g := Picked(s, needed, p).value;
            && (forall k :: 0 <= k < needed ==> g[k] < |s|)
            && (forall j, k :: 0 <= j < k < needed && s[g[j]] == s[g[k]] ==> g[j] < g[k])
            && (forall k, i: nat :: 0 <= k < needed && i < |s| && i !in g && s[i] == s[g[k]] ==> g[k] < i)
  {
    hide Positions, Free, OwnedBy;
    PickedParts(s, needed, p);
    var g, f, o := Picked(s, needed, p).value, Free(s), OwnedBy(s, p);
    var n := Min(needed, |f|);
    forall k, i: nat | 0 <= k < needed && i < |s| && i !in g && s[i] == s[g[k]] ensures g[k] < i {
      if k < n { BeyondPrefix(f, n, i, k); } else { BeyondPrefix(o, needed - n, i, k - n); }
    }
  }

  lemma PickedParts(s: seq<Slot>, needed: nat, p: Owner)
    requires Picked(s, needed, p).Some?
    ensures var g, f, o := Picked(s, needed, p).value, Free(s), OwnedBy(s, p); var n := Min(needed, |f|);
            && needed - n <= |o| && g == f[..n] + o[..needed - n]
            && (forall k :: 0 <= k < needed ==> g[k] < |s| && s[g[k]] == if k < n then None else Some(p))
            && (forall j, k :: 0 <= j < k < |f| ==> f[j] < f[k]) && (forall j, k :: 0 <= j < k < |o| ==> o[j] < o[k])
            && (forall i: nat :: i < |s| && s[i] == None ==> i in f)
            && (forall i: nat :: i < |s| && s[i] == Some(p) ==> i in o)
  {
    hide Positions;
    PositionsAre(s, None, |s|);
    PositionsAre(s, Some(p), |s|);
    var g, f, o := Picked(s, needed, p).value, Free(s), OwnedBy(s, p);
    var n := Min(needed, |f|);
    forall k | 0 <= k < needed ensures g[k] < |s| && s[g[k]] == if k < n then None else Some(p) {
      if k < n { assert f[k] in f; } else { assert o[k - n] in o; }
    }
  }

  lemma BeyondPrefix(f: seq<nat>, n: nat, i: nat, k: nat)
    requires k < n <= |f| && i in f && i !in f[..n]
    requires forall j, k :: 0 <= j < k < |f| ==> f[j] < f[k]
    ensures f[k] < i
  {
    var m :| 0 <= m < |f| && f[m] == i;
    assert forall j :: 0 <= j < n ==> f[..n][j] == f[j];
  }

  /** The first index that holds `x` and is not excluded. */
  function FirstAllowed(s: seq<Slot>, x: Slot, excluded: seq<nat>, n: nat): Option<nat>
    requires n <= |s|
  {
    if n == 0 then None
    else
      var before := FirstAllowed(s, x, excluded, n - 1);
      if before.Some? then before
      else if s[n - 1] == x && n + 1 !in excluded then Some(n - 1)
      else None
  }

  /** What the excluding request picks. */
  function PickedExcluding(s: seq<Slot>, preemptible: Owner, excluded: seq<nat>): Option<nat> {
    var free := FirstAllowed(s, None, excluded, |s|);
    if free.Some? then free else FirstAllowed(s, Some(preemptible), excluded, |s|)
  }

  lemma {:induction false} FirstIsFirstPosition(s: seq<Slot>, x: Slot, n: nat)
    requires n <= |s|
    ensures FirstAllowed(s, x, [], n) == if Positions(s, x, n) == [] then None else Some(Positions(s, x, n)[0])
  {
    if n == 0 {
    } else {
      FirstIsFirstPosition(s, x, n - 1);
    }
  }

  /** With nothing excluded, the excluding form picks what the plain form picks. */
  lemma ExcludingNothing(s: seq<Slot>, p: Owner)
    ensures PickedExcluding(s, p, []) == match Picked(s, 1, p) case None => None case Some(g) => Some(g[0])
  {
    FirstIsFirstPosition(s, None, |s|);
    FirstIsFirstPosition(s, Some(p), |s|);
  }

  lemma {:induction false} FirstAllowedIs(s: seq<Slot>, x: Slot, excluded: seq<nat>, n: nat)
    requires n <= |s|
    ensures match FirstAllowed(s, x, excluded, n)
            case Some(i) =>
              && i < n && s[i] == x && i + 2 !in excluded
              && forall j :: 0 <= j < i ==> !(s[j] == x && j + 2 !in excluded)
            case None => forall j :: 0 <= j < n ==> !(s[j] == x && j + 2 !in excluded)
  {
    if n == 0 {
    } else {
      FirstAllowedIs(s, x, excluded, n - 1);
    }
  }

  /** The excluding form: the first free slot not excluded, else the first preemptible one, else nothing. */
  lemma ExcludingIs(s: seq<Slot>, p: Owner, excluded: seq<nat>)
    ensures match PickedExcluding(s, p, excluded)
            case Some(i) =>
              && i < |s| && i + 2 !in excluded && (s[i] == None || s[i] == Some(p))
              && (forall j: nat :: j < |s| && j + 2 !in excluded ==>
                    && (s[j] == None ==> s[i] == None && i <= j)
                    && (s[j] == s[i] ==> i <= j))
            case None => forall j: nat :: j < |s| && j + 2 !in excluded ==> s[j] != None && s[j] != Some(p)
  {
    hide FirstAllowed;
    FirstAllowedIs(s, None, excluded, |s|);
    FirstAllowedIs(s, Some(p), excluded, |s|);
  }

  // ---------------------------------------------------------------- runs

  datatype Op =
    | AllocateAny(owner: Owner)
    | AllocateMany(owner: Owner, needed: nat, preemptible: Owner)
    | AllocateExcluding(owner: Owner, preemptible: Owner, excluded: seq<nat>)
    | Reserve(owner: Owner, ts: nat)
    | Release(owner: Owner, ts: nat)
    | ReleaseAll(owner: Owner)

  function GrantOne(s: seq<Slot>, i: Option<nat>, owner: Owner): (r: seq<Slot>)
    ensures |r| == |s|
  {
    if i.Some? && i.value < |s| then s[i.value := Some(owner)] else s
  }

  function ReleaseAllOf(s: seq<Slot>, o: Owner): (r: seq<Slot>)
    ensures |r| == |s|
  {
    seq(|s|, i requires 0 <= i < |s| => if s[i] == Some(o) then None else s[i])
  }

  function Step(s: seq<Slot>, op: Op): (r: seq<Slot>)
    ensures |r| == |s|
  {
    match op
    case AllocateAny(o) => GrantOne(s, FirstAllowed(s, None, [], |s|), o)
    case AllocateMany(o, n, p) => (match Picked(s, n, p) case None => s case Some(g) => Grant(s, g, o))
    case AllocateExcluding(o, p, ex) => GrantOne(s, PickedExcluding(s, p, ex), o)
    case Reserve(o, ts) => if 2 <= ts < |s| + 2 && s[ts - 2] == None then s[ts - 2 := Some(o)] else s
    case Release(o, ts) => if 2 <= ts < |s| + 2 && s[ts - 2] == Some(o) then s[ts - 2 := None] else s
    case ReleaseAll(o) => ReleaseAllOf(s, o)
  }

  function Run(s: seq<Slot>, ops: seq<Op>): (r: seq<Slot>)
    ensures |r| == |s|
  {
    if ops == [] then s else Step(Run(s, ops[..|ops| - 1]), ops[|ops| - 1])
  }

  /** The requests that can end `o`'s hold on timeslot `ts`: its own release, or preemption of `o` by name. */
  predicate CanTake(op: Op, o: Owner, ts: nat) {
    match op
    case Release(r, t) => r == o && t == ts
    case ReleaseAll(r) => r == o
    case AllocateMany(_, _, p) => p == o
    case AllocateExcluding(_, p, _) => p == o
    case _ => false
  }

  lemma HoldSurvivesStep(s: seq<Slot>, op: Op, o: Owner, i: nat)
    requires i < |s| && s[i] == Some(o) && !CanTake(op, o, i + 2)
    ensures Step(s, op)[i] == Some(o)
  {
    hide Candidates, FirstAllowed;
    match op
    case AllocateMany(r, n, p) => if Picked(s, n, p).Some? { GrantedSlots(s, n, p, r); }
    case AllocateExcluding(r, p, ex) =>
      FirstAllowedIs(s, None, ex, |s|);
      FirstAllowedIs(s, Some(p), ex, |s|);
    case AllocateAny(r) => FirstAllowedIs(s, None, [], |s|);
    case _ =>
  }

  lemma {:induction false} HoldSurvives(s: seq<Slot>, ops: seq<Op>, o: Owner, i: nat)
    requires i < |s| && s[i] == Some(o)
    requires forall k :: 0 <= k < |ops| ==> !CanTake(ops[k], o, i + 2)
    ensures Run(s, ops)[i] == Some(o)
  {
    hide Step, CanTake;
    if ops == [] {
    } else {
      HoldSurvives(s, ops[..|ops| - 1], o, i);
      HoldSurvivesStep(Run(s, ops[..|ops| - 1]), ops[|ops| - 1], o, i);
    }
  }

  /** Why reserving is refused, if it is. */
  function ReserveRefusal(s: seq<Slot>, ts: nat): Option<AllocErr> {
    if !(2 <= ts < |s| + 2) then Some(InvalidTimeslot(ts))
    else match s[ts - 2]
      case None => None
      case Some(o) => Some(InUse(ts, o))
  }

  /**
    After an accepted reservation, whatever requests follow short of the owner's release or a
    preemption of the owner: the slot is the owner's, and every reservation of it is refused.
   */
  lemma ReservationHolds(s: seq<Slot>, o: Owner, ts: nat, ops: seq<Op>, other: Owner)
    requires ReserveRefusal(s, ts) == None
    requires forall k :: 0 <= k < |ops| ==> !CanTake(ops[k], o, ts)
    ensures 2 <= ts < |s| + 2 && s[ts - 2] == None
    ensures var t := Run(Step(s, Reserve(o, ts)), ops);
            && t[ts - 2] == Some(o)
            && ReserveRefusal(t, ts) == Some(InUse(ts, o)) && Step(t, Reserve(other, ts)) == t
  {
    hide Run;
    HoldSurvives(Step(s, Reserve(o, ts)), ops, o, ts - 2);
  }

  /** Releasing everything frees exactly the owner's slots, so a request for as many is then met. */
  lemma ReleasedCanBeGranted(s: seq<Slot>, o: Owner, p: Owner)
    ensures var t := Step(s, ReleaseAll(o));
            && (forall i :: 0 <= i < |s| ==> t[i] == if s[i] == Some(o) then None else s[i])
            && Picked(t, |set i: nat | i < |s| && s[i] == Some(o)|, p).Some?
  {
    var t := Step(s, ReleaseAll(o));
    var held := set i: nat | i < |s| && s[i] == Some(o);
    assert held <= Takeable(t, p);
    SmallerSet(held, Takeable(t, p));
    PickedIff(t, |held|, p);
  }

  lemma SmallerSet(a: set<nat>, b: set<nat>)
    requires a <= b
    ensures |a| <= |b|
  {
    assert b == a + (b - a);
  }

  /** Why releasing is refused, if it is. */
  function ReleaseRefusal(s: seq<Slot>, o: Owner, ts: nat): Option<AllocErr> {
    if !(2 <= ts < |s| + 2) then Some(InvalidTimeslot(ts))
    else match s[ts - 2]
      case None => Some(NotAllocated(ts))
      case Some(actual) => if actual != o then Some(OwnerMismatch(ts, o, actual)) else None
  }

  /**
    After a preempting allocation, whatever requests follow short of the new owner's release or a
    preemption of the new owner: the slot stays with the new owner, and the displaced owner's late
    release is refused.
   */
  lemma DisplacedCannotRelease(s: seq<Slot>, owner: Owner, needed: nat, p: Owner, i: nat, ops: seq<Op>)
    requires Picked(s, needed, p).Some? && i in Picked(s, needed, p).value && owner != p
    requires forall k :: 0 <= k < |ops| ==> !CanTake(ops[k], owner, i + 2)
    ensures i < |s|
    ensures var t := Run(Step(s, AllocateMany(owner, needed, p)), ops);
            t[i] == Some(owner) && ReleaseRefusal(t, p, i + 2) == Some(OwnerMismatch(i + 2, p, owner))
  {
    hide Candidates, Run;
    GrantedSlots(s, needed, p, owner);
    HoldSurvives(Step(s, AllocateMany(owner, needed, p)), ops, owner, i);
  }

  /** The same when the slot was taken back by the excluding form. */
  lemma DisplacedByExcluding(s: seq<Slot>, owner: Owner, p: Owner, excluded: seq<nat>, i: nat, ops: seq<Op>)
    requires PickedExcluding(s, p, excluded) == Some(i) && owner != p
    requires forall k :: 0 <= k < |ops| ==> !CanTake(ops[k], owner, i + 2)
    ensures i < |s| && (s[i] == None || s[i] == Some(p)) && i + 2 !in excluded
    ensures var t := Run(Step(s, AllocateExcluding(owner, p, excluded)), ops);
            t[i] == Some(owner) && ReleaseRefusal(t, p, i + 2) == Some(OwnerMismatch(i + 2, p, owner))
  {
    hide FirstAllowed, Run;
    FirstAllowedIs(s, None, excluded, |s|);
    FirstAllowedIs(s, Some(p), excluded, |s|);
    HoldSurvives(Step(s, AllocateExcluding(owner, p, excluded)), ops, owner, i);
  }

  /** What a request takes, the owner's release gives back: reserving or picking one free slot is undone exactly. */
  lemma ReleaseUndoes(s: seq<Slot>, o: Owner, ts: nat, p: Owner)
    requires 2 <= ts < |s| + 2 && s[ts - 2] == None
    ensures Step(Step(s, Reserve(o, ts)), Release(o, ts)) == s
    ensures forall i: nat :: Picked(s, 1, p) == Some([i]) && i < |s| && s[i] == None ==>
              Step(Step(s, AllocateMany(o, 1, p)), Release(o, i + 2)) == s
  {
    hide Candidates;
    forall i: nat | Picked(s, 1, p) == Some([i]) && i < |s| && s[i] == None
      ensures Step(Step(s, AllocateMany(o, 1, p)), Release(o, i + 2)) == s
    {
      GrantedSlots(s, 1, p, o);
      assert [i][0] == i;
    }
  }

  /** Timeslot `ts` has index `ts - 2`, and no other. */
  lemma TimeslotOf(ts: nat)
    ensures forall i: nat :: Timeslots([i]) == [ts] <==> i + 2 == ts
  {
    forall i: nat ensures Timeslots([i]) == [ts] <==> i + 2 == ts {
      assert Timeslots([i])[0] == i + 2;
      assert [ts][0] == ts;
    }
  }

  // ---------------------------------------------------------------- the allocator

  class TimeslotAllocator {
    const owners: array<Slot>

    ghost predicate Valid() { owners.Length == 3 }

    constructor ()
      ensures Valid() && fresh(owners) && owners[..] == [None, None, None]
    {
      owners := new Slot[3](_ => None);
    }

    method Idx(ts: nat) returns (r: Option<nat>)
      ensures r.Some? ==> r.value < 3 && Timeslots([r.value]) == [ts]
      ensures r.None? ==> forall i: nat :: i < 3 ==> Timeslots([i]) != [ts]
    {
      TimeslotOf(ts);
      r := if 2 <= ts <= 4 then Some(ts - 2) else None;
    }

    method AllocateAny(owner: Owner) returns (r: Option<nat>)
      requires Valid()
      modifies owners
      ensures owners[..] == Step(old(owners[..]), Op.AllocateAny(owner))
      ensures r.None? ==> owners[..] == old(owners[..]) && None !in old(owners[..])
      ensures r.Some? ==>
                && 2 <= r.value <= 4 && old(owners[..])[r.value - 2] == None && None !in old(owners[..])[..r.value - 2]
                && owners[..] == old(owners[..])[r.value - 2 := Some(owner)]
    {
      for i := 0 to 3
        invariant owners[..] == old(owners[..]) && None !in owners[..i]
        invariant FirstAllowed(owners[..], None, [], i) == None
      {
        if owners[i] == None {
          FirstStays(owners[..], None, [], i + 1);
          owners[i] := Some(owner);
          return Some(i + 2);
        }
      }
      r := None;
    }

    method CanAllocatePreempting(needed: nat, preemptible: Owner) returns (r: bool)
      requires Valid()
      ensures r <==> Picked(owners[..], needed, preemptible).Some?
      ensures r <==> needed <= |Takeable(owners[..], preemptible)|
    {
      ghost var s := owners[..];
      PositionsAre(s, None, 3);
      var count := 0;
      for i := 0 to 3
        invariant count == |Positions(s, None, i)| + |Positions(s, Some(preemptible), i)| <= i
      {
        if owners[i] == None || owners[i] == Some(preemptible) { count := count + 1; }
      }
      r := needed <= 3 && count >= needed;
      PickedIff(s, needed, preemptible);
    }

    method AllocateManyPreempting(owner: Owner, needed: nat, preemptible: Owner) returns (r: Option<seq<nat>>)
      requires Valid()
      modifies owners
      ensures owners[..] == Step(old(owners[..]), AllocateMany(owner, needed, preemptible))
      ensures var g := Picked(old(owners[..]), needed, preemptible);
              r == if g.Some? then Some(Timeslots(g.value)) else None
    {
      hide Positions, Free, OwnedBy, Timeslots;
      ghost var s := owners[..];
      if needed == 0 {
        GrantNothing(s, owner, preemptible);
        return Some([]);
      }
      var can := CanAllocatePreempting(needed, preemptible);
      if !can { return None; }
      var selected := Select(needed, preemptible);
      GrantedSlots(s, needed, preemptible, owner);
      for k := 0 to |selected|
        invariant forall i :: 0 <= i < 3 ==> owners[i] == if i in selected[..k] then Some(owner) else s[i]
      {
        assert selected[k] in selected;
        owners[selected[k]] := Some(owner);
      }
      assert selected[..|selected|] == selected;
      assert owners[..] == Grant(s, selected, owner);
      r := Some(Timeslots(selected));
    }

    /** Free indexes first, then the preemptible owner's, stopping as soon as there are enough. */
    method Select(needed: nat, preemptible: Owner) returns (selected: seq<nat>)
      requires Valid() && needed > 0 && Picked(owners[..], needed, preemptible).Some?
      ensures Picked(owners[..], needed, preemptible) == Some(selected)
    {
      hide Positions;
      ghost var s := owners[..];
      selected := Collect(None, [], needed);
      assert [] + Free(s) == Free(s);
      if |selected| < needed {
        selected := Collect(Some(preemptible), selected, needed);
        assert selected == Candidates(s, preemptible)[..needed];
      } else {
        assert selected == Free(s)[..needed] == Candidates(s, preemptible)[..needed];
      }
    }

    /** Append the indexes that hold `x` until `needed` are selected. */
    method Collect(x: Slot, before: seq<nat>, needed: nat) returns (selected: seq<nat>)
      requires Valid() && |before| < needed
      ensures var all := before + Positions(owners[..], x, 3);
              selected == if needed <= |all| then all[..needed] else all
    {
      ghost var s := owners[..];
      selected := before;
      for i := 0 to 3
        invariant selected == before + Positions(s, x, i) && |selected| < needed
      {
        if owners[i] == x {
          selected := selected + [i];
          if |selected| == needed {
            PositionsGrow(s, x, i + 1, 3);
            return;
          }
        }
      }
    }

    method AllocateAnyPreempting(owner: Owner, preemptible: Owner) returns (r: Option<nat>)
      requires Valid()
      modifies owners
      ensures owners[..] == Step(old(owners[..]), AllocateMany(owner, 1, preemptible))
      ensures var g := Picked(old(owners[..]), 1, preemptible);
              r == if g.Some? then Some(g.value[0] + 2) else None
    {
      hide Candidates;
      var slots := AllocateManyPreempting(owner, 1, preemptible);
      r := if slots.Some? then Some(slots.value[|slots.value| - 1]) else None;
    }

    method AllocateAnyPreemptingExcluding(owner: Owner, preemptible: Owner, excluded: seq<nat>) returns (r: Option<nat>)
      requires Valid()
      modifies owners
      ensures owners[..] == Step(old(owners[..]), AllocateExcluding(owner, preemptible, excluded))
      ensures var i := PickedExcluding(old(owners[..]), preemptible, excluded);
              r == if i.Some? then Some(i.value + 2) else None
    {
      var free := TakeFirst(None, owner, excluded);
      if free.Some? { return free; }
      r := TakeFirst(Some(preemptible), owner, excluded);
    }

    /** Give the first allowed slot that holds `x` to `owner`. */
    method TakeFirst(x: Slot, owner: Owner, excluded: seq<nat>) returns (r: Option<nat>)
      requires Valid()
      modifies owners
      ensures var i := FirstAllowed(old(owners[..]), x, excluded, 3);
              && r == (if i.Some? then Some(i.value + 2) else None)
              && owners[..] == GrantOne(old(owners[..]), i, owner)
    {
      for i := 0 to 3
        invariant owners[..] == old(owners[..])
        invariant FirstAllowed(owners[..], x, excluded, i) == None
      {
        if i + 2 in excluded { continue; }
        if owners[i] == x {
          FirstStays(owners[..], x, excluded, i + 1);
          owners[i] := Some(owner);
          return Some(i + 2);
        }
      }
      r := None;
    }

    method Reserve(owner: Owner, ts: nat) returns (r: Result)
      requires Valid()
      modifies owners
      ensures owners[..] == Step(old(owners[..]), Op.Reserve(owner, ts))
      ensures r == match ReserveRefusal(old(owners[..]), ts) case None => Ok case Some(e) => Err(e)
      ensures r.Ok? <==> 2 <= ts <= 4 && old(owners[..])[ts - 2] == None
      ensures r.Ok? ==> owners[..] == old(owners[..])[ts - 2 := Some(owner)]
      ensures r.Err? ==> owners[..] == old(owners[..])
      ensures r.Err? && 2 <= ts <= 4 ==>
                old(owners[..])[ts - 2].Some? && r.error == InUse(ts, old(owners[..])[ts - 2].value)
      ensures !(2 <= ts <= 4) ==> r == Err(InvalidTimeslot(ts))
    {
      var idx := Idx(ts);
      TimeslotOf(ts);
      assert 2 <= ts <= 4 ==> Timeslots([ts - 2]) == [ts];
      if idx.None? { return Err(InvalidTimeslot(ts)); }
      match owners[idx.value] {
        case None => owners[idx.value] := Some(owner); r := Ok;
        case Some(existing) => r := Err(InUse(ts, existing));
      }
    }

    method Release(owner: Owner, ts: nat) returns (r: Result)
      requires Valid()
      modifies owners
      ensures owners[..] == Step(old(owners[..]), Op.Release(owner, ts))
      ensures r == match ReleaseRefusal(old(owners[..]), owner, ts) case None => Ok case Some(e) => Err(e)
      ensures r.Ok? <==> 2 <= ts <= 4 && old(owners[..])[ts - 2] == Some(owner)
      ensures r.Ok? ==> owners[..] == old(owners[..])[ts - 2 := None]
      ensures r.Err? ==> owners[..] == old(owners[..])
      ensures !(2 <= ts <= 4) ==> r == Err(InvalidTimeslot(ts))
      ensures r.Err? && 2 <= ts <= 4 ==>
                r.error == match old(owners[..])[ts - 2]
                           case None => NotAllocated(ts)
                           case Some(actual) => OwnerMismatch(ts, owner, actual)
    {
      var idx := Idx(ts);
      TimeslotOf(ts);
      assert 2 <= ts <= 4 ==> Timeslots([ts - 2]) == [ts];
      if idx.None? { return Err(InvalidTimeslot(ts)); }
      match owners[idx.value] {
        case None => r := Err(NotAllocated(ts));
        case Some(existing) =>
          if existing != owner { return Err(OwnerMismatch(ts, owner, existing)); }
          owners[idx.value] := None;
          r := Ok;
      }
    }

    method ReleaseAll(owner: Owner)
      requires Valid()
      modifies owners
      ensures owners[..] == Step(old(owners[..]), Op.ReleaseAll(owner))
      ensures Some(owner) !in owners[..]
      ensures forall i :: 0 <= i < 3 ==>
                owners[i] == if old(owners[i]) == Some(owner) then None else old(owners[i])
    {
      for i := 0 to 3
        invariant forall j :: 0 <= j < 3 ==>
                    owners[j] == if j < i && old(owners[j]) == Some(owner) then None else old(owners[j])
      {
        if owners[i] == Some(owner) { owners[i] := None; }
      }
    }
  }

  lemma {:induction false} FirstStaysAt(s: seq<Slot>, x: Slot, excluded: seq<nat>, m: nat, n: nat)
    requires m <= n <= |s| && FirstAllowed(s, x, excluded, m).Some?
    ensures FirstAllowed(s, x, excluded, n) == FirstAllowed(s, x, excluded, m)
  {
    if m == n {
    } else {
      FirstStaysAt(s, x, excluded, m, n - 1);
    }
  }

  lemma FirstStays(s: seq<Slot>, x: Slot, excluded: seq<nat>, m: nat)
    requires m <= |s| && FirstAllowed(s, x, excluded, m).Some?
    ensures FirstAllowed(s, x, excluded, |s|) == FirstAllowed(s, x, excluded, m)
  {
    FirstStaysAt(s, x, excluded, m, |s|);
  }

  lemma GrantNothing(s: seq<Slot>, owner: Owner, p: Owner)
    ensures Picked(s, 0, p) == Some([]) && Grant(s, [], owner) == s && Timeslots([]) == []
  {
  }
}
