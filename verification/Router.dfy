/**
  The message router's queue and the stolen-half protocol that rests on it: a
  first half that decodes as signalling goes to the upper MAC ahead of everything
  queued, the upper MAC's answer comes back ahead of everything queued, and so
  reaches the lower MAC before the second half, which is still waiting.

  The upper MAC and all other entities are an environment. Inside a tick they may
  queue anything at the back; at the front only the upper MAC queues, only in
  answer to a signalling block, and only the request that marks the second half
  of the current burst as stolen.
 */
module Router {
  import opened Wrappers
  import opened Tdma
  import opened Lmac
  import LmacRuns

  // ---------------------------------------------------------------- the queue

  function PushOne(q: seq<Msg>, p: Push): seq<Msg> {
    match p
    case Front(m) => [m] + q
    case Back(m) => q + [m]
  }

  function PushAll(q: seq<Msg>, ps: seq<Push>): seq<Msg> {
    if ps == [] then q else PushOne(PushAll(q, ps[..|ps| - 1]), ps[|ps| - 1])
  }

  /** The pushed messages that end up in front, in the order in which they will be delivered. */
  function Fronts(ps: seq<Push>): seq<Msg> {
    if ps == [] then []
    else
      var rest, p := Fronts(ps[..|ps| - 1]), ps[|ps| - 1];
      if p.Front? then [p.msg] + rest else rest
  }

  function Backs(ps: seq<Push>): seq<Msg> {
    if ps == [] then []
    else
      var rest, p := Backs(ps[..|ps| - 1]), ps[|ps| - 1];
      if p.Back? then rest + [p.msg] else rest
  }

  /** Pushing never reorders what is queued. */
  lemma {:induction false} PushAllIs(q: seq<Msg>, ps: seq<Push>)
    ensures PushAll(q, ps) == Fronts(ps) + q + Backs(ps)
  {
    if ps == [] {
    } else {
      PushAllIs(q, ps[..|ps| - 1]);
    }
  }

  // ---------------------------------------------------------------- the system

  datatype Sys = Sys(lmac: State, queue: seq<Msg>)

  /** The lower MAC's reaction to a message addressed to it. */
  function Handle(st: State, dec: Decoders, m: Msg): (State, seq<Push>)
    requires st.Valid()
  {
    match m
    case TpInd(blk) => RxTp(st, dec, blk)
    case ConfigureReq(stolen, time) => (RxConfigure(st, stolen, time), [])
    case SlotReq(slot, chan, grants, encodes) =>
      (RxSlotReq(st, slot, chan, grants), if encodes then [Back(Foreign(0))] else [])
    case _ => (st, [])
  }

  /** Deliver the first message; `answer` is what an entity other than the lower MAC pushes in reaction. */
  function DeliverOne(s: Sys, dec: Decoders, answer: seq<Push>): Sys
    requires s.lmac.Valid() && s.queue != []
  {
    var m, rest := s.queue[0], s.queue[1..];
    if m.ToLmac() then
      var (st, ps) := Handle(s.lmac, dec, m);
      Sys(st, PushAll(rest, ps))
    else Sys(s.lmac, PushAll(rest, answer))
  }

  /** `deliver_message`, or, between deliveries to an empty queue, a tick or an entity's end-of-tick work. */
  datatype Action = Deliver(answer: seq<Push>) | NextTick(pushed: seq<Msg>) | EndOfTick(pushed: seq<Msg>)

  /** The front of the queue is reserved for the second-half marker of the burst being handled. */
  ghost predicate AnswerOk(s: Sys, answer: seq<Push>)
    requires s.queue != []
  {
    forall k :: 0 <= k < |answer| && answer[k].Front? ==>
      s.queue[0].TmvInd? && answer[k].msg == ConfigureReq(Some(true), Some(UlTime(s.lmac.dltime)))
  }

  /** Queued messages are all delivered before the next tick and before end-of-tick work adds more. */
  ghost predicate Enabled(s: Sys, a: Action) {
    if a.Deliver? then s.queue != [] && AnswerOk(s, a.answer) else s.queue == []
  }

  function Next(s: Sys, dec: Decoders, a: Action): Sys
    requires s.lmac.Valid()
  {
    match a
    case Deliver(answer) => if s.queue == [] then s else DeliverOne(s, dec, answer)
    case NextTick(pushed) => Sys(TickStart(s.lmac, AddTimeslots(s.lmac.dltime, 1)), s.queue + pushed)
    case EndOfTick(pushed) => Sys(s.lmac, s.queue + pushed)
  }

  lemma NextKeepsValid(s: Sys, dec: Decoders, a: Action)
    requires s.lmac.Valid()
    ensures Next(s, dec, a).lmac.Valid()
  {
    if a.Deliver? && s.queue != [] && s.queue[0].TpInd? { RxTpKeepsValid(s.lmac, dec, s.queue[0].blk); }
  }

  /** The states of a run. */
  function Run(s: Sys, dec: Decoders, acts: seq<Action>): (r: Sys)
    requires s.lmac.Valid()
    ensures r.lmac.Valid()
  {
    if acts == [] then s
    else
      var before := Run(s, dec, acts[..|acts| - 1]);
      NextKeepsValid(before, dec, acts[|acts| - 1]);
      Next(before, dec, acts[|acts| - 1])
  }

  ghost predicate Proper(s: Sys, dec: Decoders, acts: seq<Action>)
    requires s.lmac.Valid()
  {
    forall k :: 0 <= k < |acts| ==> Enabled(Run(s, dec, acts[..k]), acts[k])
  }

  lemma RunStep(s: Sys, dec: Decoders, acts: seq<Action>, k: nat)
    requires s.lmac.Valid() && k < |acts|
    ensures Run(s, dec, acts[..k + 1]) == Next(Run(s, dec, acts[..k]), dec, acts[k])
  {
    assert acts[..k + 1][..k] == acts[..k];
  }

  lemma ProperPrefix(s: Sys, dec: Decoders, acts: seq<Action>, k: nat)
    requires s.lmac.Valid() && Proper(s, dec, acts) && k <= |acts|
    ensures Proper(s, dec, acts[..k])
  {
    hide Run, Enabled;
    assert forall i :: 0 <= i < k ==> acts[..k][..i] == acts[..i];
  }

  // ---------------------------------------------------------------- what is queued together is delivered together

  /** The messages `ms` stand next to each other in the queue, from position `p` on. */
  predicate StretchAt(q: seq<Msg>, p: nat, ms: seq<Msg>) {
    ms != [] && p + |ms| <= |q| && q[p..p + |ms|] == ms
  }

  /** Whatever is delivered while they wait, they stay next to each other and in order, within the same tick. */
  lemma StretchStays(s: Sys, dec: Decoders, a: Action, p: nat, ms: seq<Msg>) returns (p': nat)
    requires s.lmac.Valid() && p > 0 && StretchAt(s.queue, p, ms) && Enabled(s, a)
    ensures a.Deliver? && StretchAt(Next(s, dec, a).queue, p', ms) && Next(s, dec, a).lmac.dltime == s.lmac.dltime
  {
    hide RxTp, UlTime, PushAll, Fronts, StretchAt;
    NotFirst(s.queue, p, ms);
    var m, rest := s.queue[0], s.queue[1..];
    var ps := if m.ToLmac() then Handle(s.lmac, dec, m).1 else a.answer;
    p' := p - 1 + |Fronts(ps)|;
    StretchInPushed(rest, ps, p - 1, ms);
    if m.TpInd? { SameDltime(s.lmac, dec, m.blk); }
  }

  lemma NotFirst(q: seq<Msg>, p: nat, ms: seq<Msg>)
    requires StretchAt(q, p, ms) && p > 0
    ensures q != [] && StretchAt(q[1..], p - 1, ms)
  {
    assert q[1..][p - 1..p - 1 + |ms|] == q[p..p + |ms|];
  }

  lemma StretchInPushed(rest: seq<Msg>, ps: seq<Push>, p: nat, ms: seq<Msg>)
    requires StretchAt(rest, p, ms)
    ensures StretchAt(PushAll(rest, ps), p + |Fronts(ps)|, ms)
  {
    hide PushAll, Fronts, Backs;
    PushAllIs(rest, ps);
    var f := |Fronts(ps)|;
    assert (Fronts(ps) + rest + Backs(ps))[p + f..p + f + |ms|] == rest[p..p + |ms|];
  }

  lemma SameDltime(st: State, dec: Decoders, blk: Block)
    requires st.Valid()
    ensures RxTp(st, dec, blk).0.dltime == st.dltime && RxTp(st, dec, blk).0.chan == st.chan
  {
  }

  /** The first `n` actions are deliveries that leave `ms` at position `q`, in the tick of `s`. */
  ghost predicate Waited(s: Sys, dec: Decoders, acts: seq<Action>, n: nat, q: nat, ms: seq<Msg>)
    requires s.lmac.Valid()
  {
    && n <= |acts| && (forall k :: 0 <= k < n ==> acts[k].Deliver?)
    && StretchAt(Run(s, dec, acts[..n]).queue, q, ms) && Run(s, dec, acts[..n]).lmac.dltime == s.lmac.dltime
  }

  /**
    In every run, messages queued together behind any backlog are either still waiting or have come to
    the front together, in the tick in which they were queued; and nothing but deliveries took place
    meanwhile, so no tick passes and no end-of-tick work is done while they wait.
   */
  lemma {:induction false} StretchReachesFront(
      s: Sys, dec: Decoders, acts: seq<Action>, p: nat, ms: seq<Msg>) returns (n: nat, q: nat)
    requires s.lmac.Valid() && StretchAt(s.queue, p, ms) && Proper(s, dec, acts)
    ensures Waited(s, dec, acts, n, q, ms) && (q == 0 || n == |acts|)
  {
    hide Next, StretchAt, Enabled, Proper;
    if acts == [] {
      n, q := 0, p;
    } else {
      var k := |acts| - 1;
      ProperPrefix(s, dec, acts, k);
      n, q := StretchReachesFront(s, dec, acts[..k], p, ms);
      assert acts[..k][..n] == acts[..n];
      if q != 0 {
        EnabledAt(s, dec, acts, k);
        q := StretchStays(Run(s, dec, acts[..k]), dec, acts[k], q, ms);
        RunStep(s, dec, acts, k);
        n := k + 1;
      }
    }
  }

  lemma EnabledAt(s: Sys, dec: Decoders, acts: seq<Action>, k: nat)
    requires s.lmac.Valid() && Proper(s, dec, acts) && k < |acts|
    ensures Enabled(Run(s, dec, acts[..k]), acts[k])
  {
  }

  /** So they come to the front, and are delivered from there, before the next action that is not a delivery. */
  lemma DrainedBeforeTick(s: Sys, dec: Decoders, acts: seq<Action>, p: nat, ms: seq<Msg>, k: nat) returns (n: nat)
    requires s.lmac.Valid() && StretchAt(s.queue, p, ms) && Proper(s, dec, acts)
    requires k < |acts| && !acts[k].Deliver?
    ensures n < k && acts[n].Deliver? && Waited(s, dec, acts, n, 0, ms)
  {
    hide Run, Proper;
    var q: nat;
    n, q := StretchReachesFront(s, dec, acts, p, ms);
    EnabledAt(s, dec, acts, n);
  }

  /** The two half-slot blocks of one burst, as the PHY queues them. */
  predicate Halves(b1: Block, b2: Block) {
    b1.burst == b2.burst == NUB && b1.train == b2.train == NormalTrainSeq2 && b1.num == Block1 && b2.num == Block2
  }

  predicate PairAt(q: seq<Msg>, p: nat, b1: Block, b2: Block) {
    StretchAt(q, p, [TpInd(b1), TpInd(b2)])
  }

  lemma PairIs(q: seq<Msg>, p: nat, b1: Block, b2: Block)
    requires PairAt(q, p, b1, b2)
    ensures p + 1 < |q| && q[p] == TpInd(b1) && q[p + 1] == TpInd(b2)
  {
    var ms := q[p..p + 2];
    assert ms[0] == q[p] && ms[1] == q[p + 1];
  }

  // ---------------------------------------------------------------- the protocol

  /** Block1 at the front: what happens to it, and that it clears the slot's marker. */
  lemma FirstHalf(st: State, dec: Decoders, b1: Block)
    requires st.Valid() && b1.burst == NUB && b1.train == NormalTrainSeq2 && b1.num == Block1
    ensures var (st', ps) := RxTp(st, dec, b1); var ul := UlTime(st.dltime);
            && 1 <= ul.t <= 4 && st'.stolenAt[ul.t - 1] == None && st'.dltime == st.dltime && st'.chan == st.chan
            && ps == match ControlMsg(dec, b1, Stch) case Some(m) => [Front(m)] case None => []
  {
    hide UlTime, TakePostGrant, Diff;
    UlTimeSlot(st.dltime);
  }

  /** How the second half is read, from the marker alone. */
  lemma SecondHalf(st: State, b2: Block)
    requires st.Valid() && b2.burst == NUB && b2.train == NormalTrainSeq2 && b2.num == Block2
    requires UlTime(st.dltime).Valid()
    ensures var i := UlTime(st.dltime).t - 1; var marked := st.stolenAt[i] == Some(UlTime(st.dltime));
            Reading(st, b2) == if !marked then Some(TchS) else if st.chan[i] == Tp then Some(Stch) else None
  {
    hide UlTime;
  }

  /** `c` marker requests for the burst being handled. */
  function Markers(c: nat, ul: Time): seq<Msg> {
    seq(c, _ => ConfigureReq(Some(true), Some(ul)))
  }

  /** One marker request delivered. */
  lemma MarkerApplied(s: Sys, dec: Decoders, a: Action, c: nat, rest: seq<Msg>)
    requires s.lmac.Valid() && Enabled(s, a) && c > 0 && s.queue == Markers(c, UlTime(s.lmac.dltime)) + rest
    ensures var ul := UlTime(s.lmac.dltime); var after := Next(s, dec, a);
            && ul.Valid() && after.queue == Markers(c - 1, ul) + rest
            && after.lmac == s.lmac.(stolenAt := s.lmac.stolenAt[ul.t - 1 := Some(ul)])
  {
    hide UlTime, TickStart, PushAll, RxTp;
    UlTimeSlot(s.lmac.dltime);
    PushAllIs(s.queue[1..], []);
    assert s.queue[0] == ConfigureReq(Some(true), Some(UlTime(s.lmac.dltime)));
    assert s.queue[1..] == Markers(c - 1, UlTime(s.lmac.dltime)) + rest;
  }

  /** What `c` applied marker requests leave of state `a`. */
  ghost predicate Marked(a: Sys, b: Sys, c: nat, rest: seq<Msg>) {
    var ul := UlTime(a.lmac.dltime);
    && a.lmac.Valid() && ul.Valid()
    && b == Sys(if c > 0 then a.lmac.(stolenAt := a.lmac.stolenAt[ul.t - 1 := Some(ul)]) else a.lmac, rest)
  }

  /** Marker requests at the front are all applied before what stands behind them is delivered. */
  lemma {:induction false} MarkersApplied(s: Sys, dec: Decoders, acts: seq<Action>, k: nat, c: nat, rest: seq<Msg>)
    requires s.lmac.Valid() && Proper(s, dec, acts) && k + c <= |acts|
    requires var now := Run(s, dec, acts[..k]); now.queue == Markers(c, UlTime(now.lmac.dltime)) + rest
    ensures Marked(Run(s, dec, acts[..k]), Run(s, dec, acts[..k + c]), c, rest)
    decreases c
  {
    hide UlTime, Next, Run, Enabled;
    var now := Run(s, dec, acts[..k]);
    UlTimeSlot(now.lmac.dltime);
    if c == 0 {
    } else {
      RunStep(s, dec, acts, k);
      MarkerApplied(now, dec, acts[k], c, rest);
      MarkersApplied(s, dec, acts, k + 1, c - 1, rest);
    }
  }

  /** Fronts of an allowed answer are all the same marker request. */
  lemma {:induction false} FrontsAreMarkers(s: Sys, answer: seq<Push>)
    requires s.queue != [] && AnswerOk(s, answer)
    ensures Fronts(answer) == Markers(|Fronts(answer)|, UlTime(s.lmac.dltime))
  {
    hide UlTime;
    if answer == [] {
    } else {
      FrontsAreMarkers(s, answer[..|answer| - 1]);
    }
  }

  /**
    In state `at` the second half is next, within the tick of `start`. On a traffic uplink it is read as
    STCH if and only if it was marked, and as TCH/S otherwise; marked on another uplink, it is dropped.
   */
  ghost predicate SecondHalfNext(start: Sys, at: Sys, b2: Block, marked: bool) {
    var ul := UlTime(start.lmac.dltime);
    && start.lmac.Valid() && at.lmac.Valid() && ul.Valid()
    && at.queue != [] && at.queue[0] == TpInd(b2) && at.lmac.dltime == start.lmac.dltime
    && Reading(at.lmac, b2) ==
         if !marked then Some(TchS) else if start.lmac.chan[ul.t - 1] == Tp then Some(Stch) else None
  }

  /** The upper MAC's answer to the first half has been delivered and applied. */
  lemma AnswerApplied(s: Sys, dec: Decoders, acts: seq<Action>, k: nat, tail: seq<Msg>)
    requires s.lmac.Valid() && Proper(s, dec, acts) && k < |acts| && acts[k].Deliver?
    requires var now := Run(s, dec, acts[..k]); now.queue != [] && now.queue[0].TmvInd? && now.queue[1..] == tail
    requires k + 1 + |Fronts(acts[k].answer)| <= |acts|
    ensures var c := |Fronts(acts[k].answer)|;
            Marked(Run(s, dec, acts[..k]), Run(s, dec, acts[..k + 1 + c]), c, tail + Backs(acts[k].answer))
  {
    hide UlTime, Run, PushAll, TickStart, Marked, RxTp;
    var now, answer := Run(s, dec, acts[..k]), acts[k].answer;
    assert Enabled(now, acts[k]);
    RunStep(s, dec, acts, k);
    PushAllIs(tail, answer);
    FrontsAreMarkers(now, answer);
    var next := Run(s, dec, acts[..k + 1]);
    assert next == Sys(now.lmac, Fronts(answer) + (tail + Backs(answer)));
    MarkersApplied(s, dec, acts, k + 1, |Fronts(answer)|, tail + Backs(answer));
    SameMarked(now, next, Run(s, dec, acts[..k + 1 + |Fronts(answer)|]), |Fronts(answer)|, tail + Backs(answer));
  }

  lemma SameMarked(a: Sys, a': Sys, b: Sys, c: nat, rest: seq<Msg>)
    requires a.lmac == a'.lmac && Marked(a', b, c, rest)
    ensures Marked(a, b, c, rest)
  {
  }

  /**
    From the moment the first half is at the front: if it decodes as signalling, the second half is
    delivered only after the upper MAC's answer has been applied, and is read by what that answer said.
   */
  lemma StolenHalfFollowsAnswer(s: Sys, dec: Decoders, acts: seq<Action>, n: nat, b1: Block, b2: Block)
    requires s.lmac.Valid() && Proper(s, dec, acts) && Halves(b1, b2)
    requires n + 2 <= |acts| && acts[n + 1].Deliver? && n + 2 + |Fronts(acts[n + 1].answer)| <= |acts|
    requires PairAt(Run(s, dec, acts[..n]).queue, 0, b1, b2)
    requires ControlMsg(dec, b1, Stch).Some?
    ensures var c := |Fronts(acts[n + 1].answer)|;
            SecondHalfNext(Run(s, dec, acts[..n]), Run(s, dec, acts[..n + 2 + c]), b2, c > 0)
  {
    hide UlTime, Run, Proper, Reading, ControlMsg;
    var start, c := Run(s, dec, acts[..n]), |Fronts(acts[n + 1].answer)|;
    AfterFirstHalf(s, dec, acts, n, b1, b2);
    var s1 := Run(s, dec, acts[..n + 1]);
    var tail := [TpInd(b2)] + start.queue[2..];
    AnswerApplied(s, dec, acts, n + 1, tail);
    SecondHalf(Run(s, dec, acts[..n + 2 + c]).lmac, b2);
  }

  /** The first half delivered: signalling goes straight to the upper MAC, with the second half right behind it. */
  lemma AfterFirstHalf(s: Sys, dec: Decoders, acts: seq<Action>, n: nat, b1: Block, b2: Block)
    requires s.lmac.Valid() && Proper(s, dec, acts) && Halves(b1, b2) && n < |acts|
    requires PairAt(Run(s, dec, acts[..n]).queue, 0, b1, b2)
    ensures var start, after := Run(s, dec, acts[..n]), Run(s, dec, acts[..n + 1]);
            var ul := UlTime(start.lmac.dltime);
            && ul.Valid() && after.lmac.stolenAt[ul.t - 1] == None
            && after.lmac.dltime == start.lmac.dltime && after.lmac.chan == start.lmac.chan
            && after.queue == (match ControlMsg(dec, b1, Stch) case Some(m) => [m] case None => [])
                              + ([TpInd(b2)] + start.queue[2..])
            && (ControlMsg(dec, b1, Stch).Some? ==> ControlMsg(dec, b1, Stch).value.TmvInd?)
  {
    hide UlTime, RxTp, TickStart, PushAll, Run, ControlMsg;
    var start := Run(s, dec, acts[..n]);
    assert Enabled(start, acts[n]);
    RunStep(s, dec, acts, n);
    UlTimeSlot(start.lmac.dltime);
    PairIs(start.queue, 0, b1, b2);
    FirstHalf(start.lmac, dec, b1);
    assert start.queue[1..] == [TpInd(b2)] + start.queue[2..];
    PushAllIs(start.queue[1..], RxTp(start.lmac, dec, b1).1);
    ControlIsTmv(dec, b1);
  }

  lemma ControlIsTmv(dec: Decoders, b: Block)
    ensures ControlMsg(dec, b, Stch).Some? ==> ControlMsg(dec, b, Stch).value.TmvInd?
  {
  }

  /** A first half that does not decode leaves the second half to be read as TCH/S. */
  lemma UndecodedFirstHalf(s: Sys, dec: Decoders, acts: seq<Action>, n: nat, b1: Block, b2: Block)
    requires s.lmac.Valid() && Proper(s, dec, acts) && Halves(b1, b2) && n < |acts|
    requires PairAt(Run(s, dec, acts[..n]).queue, 0, b1, b2)
    requires ControlMsg(dec, b1, Stch).None?
    ensures SecondHalfNext(Run(s, dec, acts[..n]), Run(s, dec, acts[..n + 1]), b2, false)
  {
    hide UlTime, Run, Proper, Reading, ControlMsg;
    AfterFirstHalf(s, dec, acts, n, b1, b2);
    SecondHalf(Run(s, dec, acts[..n + 1]).lmac, b2);
  }

  /**
    The protocol for any backlog: queued behind anything, the halves come to the front together, before
    any tick, and the law above applies.
   */
  lemma StolenHalfProtocol(
      s: Sys, dec: Decoders, acts: seq<Action>, p: nat, b1: Block, b2: Block) returns (n: nat, q: nat)
    requires s.lmac.Valid() && Proper(s, dec, acts) && Halves(b1, b2) && PairAt(s.queue, p, b1, b2)
    requires ControlMsg(dec, b1, Stch).Some?
    ensures Waited(s, dec, acts, n, q, [TpInd(b1), TpInd(b2)]) && (q == 0 || n == |acts|)
    ensures q == 0 && n + 2 <= |acts| && acts[n + 1].Deliver? && n + 2 + |Fronts(acts[n + 1].answer)| <= |acts| ==>
              var c := |Fronts(acts[n + 1].answer)|;
              SecondHalfNext(Run(s, dec, acts[..n]), Run(s, dec, acts[..n + 2 + c]), b2, c > 0)
  {
    hide UlTime, Run, Proper, Halves, SecondHalfNext;
    n, q := StretchReachesFront(s, dec, acts, p, [TpInd(b1), TpInd(b2)]);
    if q == 0 && n + 2 <= |acts| && acts[n + 1].Deliver? && n + 2 + |Fronts(acts[n + 1].answer)| <= |acts| {
      StolenHalfFollowsAnswer(s, dec, acts, n, b1, b2);
    }
  }

  // ---------------------------------------------------------------- the lower MAC's own runs

  /** What one action is to the lower MAC. */
  function Seen(s: Sys, a: Action): seq<LmacRuns.Event> {
    match a
    case NextTick(_) => [LmacRuns.Tick]
    case EndOfTick(_) => []
    case Deliver(_) =>
      if s.queue == [] then []
      else match s.queue[0]
        case TpInd(blk) => [LmacRuns.Rx(blk)]
        case ConfigureReq(stolen, time) => [LmacRuns.Configure(stolen, time)]
        case SlotReq(slot, chan, grants, _) => [LmacRuns.SlotChan(slot, chan, grants)]
        case _ => []
  }

  function AllSeen(s: Sys, dec: Decoders, acts: seq<Action>): seq<LmacRuns.Event>
    requires s.lmac.Valid()
  {
    if acts == [] then []
    else
      var acts' := acts[..|acts| - 1];
      AllSeen(s, dec, acts') + Seen(Run(s, dec, acts'), acts[|acts| - 1])
  }

  lemma SeenStep(s: Sys, dec: Decoders, a: Action)
    requires s.lmac.Valid()
    ensures var es := Seen(s, a);
            |es| <= 1 && Next(s, dec, a).lmac == if es == [] then s.lmac else LmacRuns.Step(s.lmac, dec, es[0])
  {
    hide RxTp, RxConfigure, RxSlotReq, TickStart, PushAll;
  }

  /** In every run of the system, the lower MAC goes through a run of its own. */
  lemma {:induction false} RunProjects(s: Sys, dec: Decoders, acts: seq<Action>)
    requires s.lmac.Valid()
    ensures LmacRuns.Run(s.lmac, dec, AllSeen(s, dec, acts)) == Run(s, dec, acts).lmac
  {
    hide Seen, Next, LmacRuns.Step;
    if acts == [] {
    } else {
      var acts', a := acts[..|acts| - 1], acts[|acts| - 1];
      var before, es := Run(s, dec, acts'), AllSeen(s, dec, acts');
      RunProjects(s, dec, acts');
      SeenStep(before, dec, a);
      var e := Seen(before, a);
      if e == [] {
        assert es + e == es;
      } else {
        assert (es + e)[..|es + e| - 1] == es;
      }
    }
  }

  /**
    In every run of the system from a state without markers, a Block2 is read as STCH only on a traffic
    uplink and only if the latest marker request for its slot named exactly this uplink time.
   */
  lemma StolenReadInSystem(s: Sys, dec: Decoders, acts: seq<Action>, blk: Block) returns (j: nat)
    requires s.lmac.Valid() && (forall k :: 0 <= k < 4 ==> s.lmac.stolenAt[k] == None)
    requires blk.num == Block2 && Reading(Run(s, dec, acts).lmac, blk) == Some(Stch)
    ensures var now := Run(s, dec, acts).lmac; var ul := UlTime(now.dltime);
            && 1 <= ul.t <= 4 && now.chan[ul.t - 1] == Tp
            && blk.burst == NUB && blk.train == NormalTrainSeq2
            && LmacRuns.LatestMark(s.lmac, dec, AllSeen(s, dec, acts), j, ul)
  {
    hide Run, AllSeen, Reading, UlTime, LmacRuns.Run, LmacRuns.LatestMark;
    RunProjects(s, dec, acts);
    j := LmacRuns.StolenReadIsMarked(s.lmac, dec, AllSeen(s, dec, acts), blk);
  }

  /** In every run of the system, a marker for the burst being handled is gone after the next tick. */
  lemma MarkerEndsInSystem(s: Sys, dec: Decoders, acts: seq<Action>, pushed: seq<Msg>, i: nat)
    requires s.lmac.Valid() && i < 4
    requires var now := Run(s, dec, acts).lmac; now.stolenAt[i] == Some(UlTime(now.dltime))
    ensures Run(s, dec, acts + [NextTick(pushed)]).lmac.stolenAt[i] == None
  {
    hide UlTime, LmacRuns.Run, Seen, Next;
    var all := acts + [NextTick(pushed)];
    assert all[..|acts|] == acts;
    RunProjects(s, dec, acts);
    RunProjects(s, dec, all);
    assert AllSeen(s, dec, all) == AllSeen(s, dec, acts) + [LmacRuns.Tick] by { TickSeen(Run(s, dec, acts), pushed); }
    LmacRuns.MarkerEndsWithItsBurst(s.lmac, dec, AllSeen(s, dec, acts), i);
  }

  lemma TickSeen(s: Sys, pushed: seq<Msg>)
    ensures Seen(s, NextTick(pushed)) == [LmacRuns.Tick]
  {
  }
}
