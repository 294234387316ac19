/**
  The queue, the lower MAC and the router as objects that are updated in place,
  each proved against the functions of `Lmac` and `Router`.
 */
module LmacObjects {
  import opened Wrappers
  import opened Tdma
  import opened Lmac
  import opened Router

  datatype MessagePrio = Immediate | Normal

  class MessageQueue {
    var messages: seq<Msg>

    constructor ()
      ensures messages == []
    {
      messages := [];
    }

    method PushBack(m: Msg)
      modifies this
      ensures messages == PushOne(old(messages), Back(m)) == old(messages) + [m]
    {
      messages := messages + [m];
    }

    method PushPrio(m: Msg, prio: MessagePrio)
      modifies this
      ensures messages == PushOne(old(messages), if prio.Immediate? then Front(m) else Back(m))
      ensures messages == if prio.Immediate? then [m] + old(messages) else old(messages) + [m]
    {
      match prio
      case Immediate => messages := [m] + messages;
      case Normal => messages := messages + [m];
    }

    /** The pushes of one entity, in order. */
    method PushEach(ps: seq<Push>)
      modifies this
      ensures messages == PushAll(old(messages), ps)
    {
      ghost var q := messages;
      assert ps[..0] == [];
      for k := 0 to |ps|
        invariant messages == PushAll(q, ps[..k])
      {
        match ps[k] {
          case Front(x) => PushPrio(x, Immediate);
          case Back(x) => PushPrio(x, Normal);
        }
        assert ps[..k + 1][..k] == ps[..k];
      }
      assert ps[..|ps|] == ps;
    }

    method PopFront() returns (m: Option<Msg>)
      modifies this
      ensures m == if old(messages) == [] then None else Some(old(messages)[0])
      ensures messages == if old(messages) == [] then [] else old(messages)[1..]
    {
      if messages == [] { return None; }
      m := Some(messages[0]);
      messages := messages[1..];
    }
  }

  class LmacBs {
    var dltime: Time
    const dec: Decoders
    const uplinkPhyChan: array<PhyChan>
    const blk2StolenAt: array<Option<Time>>
    const postGrantRxDiag: array<Option<Diag>>
    const controlRxDiagLast: array<Option<Time>>

    ghost function Repr(): set<object> {
      {this, uplinkPhyChan, blk2StolenAt, postGrantRxDiag, controlRxDiagLast}
    }

    function Value(): State
      reads Repr()
    {
      State(dltime, uplinkPhyChan[..], blk2StolenAt[..], postGrantRxDiag[..], controlRxDiagLast[..])
    }

    ghost predicate Valid()
      reads Repr()
    {
      blk2StolenAt != controlRxDiagLast && Value().Valid()
    }

    constructor (dec: Decoders)
      ensures Valid() && fresh(Repr()) && this.dec == dec
      ensures dltime == Time(1, 1, 1, 0)
      ensures forall i :: 0 <= i < 4 ==>
                && uplinkPhyChan[i] == Unallocated && blk2StolenAt[i] == None
                && postGrantRxDiag[i] == None && controlRxDiagLast[i] == None
    {
      this.dec := dec;
      dltime := Time(1, 1, 1, 0);
      uplinkPhyChan := new PhyChan[4](_ => Unallocated);
      blk2StolenAt := new Option<Time>[4](_ => None);
      postGrantRxDiag := new Option<Diag>[4](_ => None);
      controlRxDiagLast := new Option<Time>[4](_ => None);
    }

    method TakePostGrantRxDiagEvent(ul: Time) returns (event: Option<Diag>)
      requires Valid() && ul.Valid()
      modifies postGrantRxDiag
      ensures Valid()
      ensures var i := ul.t - 1;
              && event == TakePostGrant(old(postGrantRxDiag[i]), ul).0
              && postGrantRxDiag[..] == old(postGrantRxDiag[..])[i := TakePostGrant(old(postGrantRxDiag[i]), ul).1]
    {
      hide ToInt, CyclicDiff;
      var i := ul.t - 1;
      if postGrantRxDiag[i].None? { return None; }
      var diag := postGrantRxDiag[i].value;
      var age := TimeIntDiff(ToInt(ul), ToInt(diag.grantTime));
      if !(0 <= age <= POST_GRANT_TIMESLOTS) {
        if age > POST_GRANT_TIMESLOTS { postGrantRxDiag[i] := None; }
        return None;
      }
      if diag.remaining == 0 {
        postGrantRxDiag[i] := None;
        return None;
      }
      diag := diag.(remaining := diag.remaining - 1);
      postGrantRxDiag[i] := if diag.remaining == 0 then None else Some(diag);
      event := Some(diag);
    }

    /** Whether this block may be reported on: the last report in its slot is 72 slots old or there was none. */
    method TakeControlRxDiagEvent(ul: Time, i: nat) returns (taken: bool)
      requires Valid() && i < 4
      modifies controlRxDiagLast
      ensures Valid()
      ensures controlRxDiagLast[..] == old(controlRxDiagLast[..])[i := ControlDiagAfter(old(controlRxDiagLast[i]), ul)]
      ensures var last := old(controlRxDiagLast[i]);
              && (taken <==> last.None? || Diff(ul, last.value) >= 72)
              && controlRxDiagLast[i] == if taken then Some(ul) else last
    {
      hide ToInt, CyclicDiff;
      if controlRxDiagLast[i].Some? {
        var age := TimeIntDiff(ToInt(ul), ToInt(controlRxDiagLast[i].value));
        if age < CONTROL_DIAG_MIN_AGE { return false; }
      }
      controlRxDiagLast[i] := Some(ul);
      taken := true;
    }

    method RxBlkTraffic(queue: MessageQueue, blk: Block, lchan: LogicalChannel, ul: Time)
      modifies queue
      ensures queue.messages == PushAll(old(queue.messages), Lmac.PushBack(TrafficMsg(dec, blk, lchan, ul)))
    {
      PushedOne(queue.messages);
      if lchan != TchS { return; }
      if blk.num == Block2 {
        if |blk.bits| != 216 { return; }
        queue.PushBack(TmdInd(ul.t, blk.bits, Some(Block2)));
        return;
      }
      if blk.num != Both { return; }
      var (decoded, crcOk) := dec.tp(lchan, blk.bits);
      if decoded.None? { return; }
      if !crcOk { return; }
      queue.PushBack(TmdInd(ul.t, decoded.value, None));
    }

    method RxBlkControl(queue: MessageQueue, blk: Block, lchan: LogicalChannel, ul: Time, diag: Option<Diag>)
      returns (forwarded: bool)
      requires Valid() && ul.Valid() && lchan in {SchF, SchHu, Stch}
      modifies queue, controlRxDiagLast
      ensures Valid()
      ensures controlRxDiagLast[..] ==
                old(controlRxDiagLast[..])[ul.t - 1 := if diag.None?
                                                       then ControlDiagAfter(old(controlRxDiagLast[ul.t - 1]), ul)
                                                       else old(controlRxDiagLast[ul.t - 1])]
      ensures forwarded <==> ControlMsg(dec, blk, lchan).Some?
      ensures queue.messages ==
                if forwarded then PushAll(old(queue.messages), [Front(ControlMsg(dec, blk, lchan).value)])
                else old(queue.messages)
    {
      hide Diff;
      PushedOne(queue.messages);
      if !lchan.IsControl() || lchan == Aach { return false; }
      if diag.None? { var report := TakeControlRxDiagEvent(ul, ul.t - 1); }
      var (type1, crcPass) := dec.cp(lchan, blk);
      if type1.None? { return false; }
      if !crcPass { return false; }
      queue.PushPrio(TmvInd(type1.value, lchan, blk.num), Immediate);
      forwarded := true;
    }

    /** One block from the PHY. */
    method RxTpPrim(queue: MessageQueue, blk: Block)
      requires Valid()
      modifies Repr() - {this}, queue
      ensures Valid() && Value() == RxTp(old(Value()), dec, blk).0
      ensures queue.messages == PushAll(old(queue.messages), RxTp(old(Value()), dec, blk).1)
    {
      hide AddTimeslots, TakePostGrant, ControlDiagAfter, TrafficMsg, ControlMsg;
      ghost var st, q := Value(), queue.messages;
      var ul := UlTime(dltime);
      UlTimeSlot(dltime);
      RxTpKeepsValid(st, dec, blk);
      var i := ul.t - 1;
      var pchan := uplinkPhyChan[i];
      var stolen := blk2StolenAt[i] == Some(ul);
      var diag := TakePostGrantRxDiagEvent(ul);
      if blk2StolenAt[i].Some? && !stolen { blk2StolenAt[i] := None; }
      if blk.num == Block1 && stolen {
        blk2StolenAt[i] := None;
        stolen := false;
      }
      if pchan != Tp && stolen {
        blk2StolenAt[i] := None;
        return;
      }
      var lchan := LogicalChannelUl(blk, pchan == Tp, stolen);
      assert Reading(st, blk) == Some(lchan);
      Dispatch(queue, blk, lchan, pchan, ul, diag);
      if blk.num == Block2 && stolen { blk2StolenAt[i] := None; }
    }

    /** Hand a block to the traffic or the control path, with the speech retry. */
    method Dispatch(
        queue: MessageQueue, blk: Block, lchan: LogicalChannel, pchan: PhyChan, ul: Time, diag: Option<Diag>)
      requires Valid() && ul.Valid()
      modifies queue, controlRxDiagLast
      ensures Valid()
      ensures queue.messages == PushAll(old(queue.messages), Forward(dec, blk, lchan, pchan, ul))
      ensures controlRxDiagLast[..] ==
                old(controlRxDiagLast[..])[ul.t - 1 := if OnControlPath(Some(lchan)) && diag.None?
                                                       then ControlDiagAfter(old(controlRxDiagLast[ul.t - 1]), ul)
                                                       else old(controlRxDiagLast[ul.t - 1])]
    {
      hide ControlDiagAfter, TrafficMsg, ControlMsg;
      PushedOne(queue.messages);
      if lchan in {TchS, Tch24, Tch48, Tch72} {
        RxBlkTraffic(queue, blk, lchan, ul);
      } else if lchan in {SchF, SchHu, Stch} {
        var forwarded := RxBlkControl(queue, blk, lchan, ul, diag);
        if !forwarded && RetriesAsSpeech(blk, pchan) {
          RxBlkTraffic(queue, blk, TchS, ul);
        }
      }
    }

    method RxTmvConfigureReq(stolen: Option<bool>, time: Option<Time>)
      requires Valid()
      modifies blk2StolenAt
      ensures Valid() && Value() == RxConfigure(old(Value()), stolen, time)
      ensures var ul := if time.Some? then time.value else AddTimeslots(dltime, -2);
              blk2StolenAt[..] ==
                if stolen.None? || !(1 <= ul.t <= 4) then old(blk2StolenAt[..])
                else old(blk2StolenAt[..])[ul.t - 1 := if stolen.value then Some(ul) else None]
    {
      hide AddTimeslots;
      if stolen.Some? {
        var ul := if time.Some? then time.value else UlTime(dltime);
        if !(1 <= ul.t <= 4) { return; }
        blk2StolenAt[ul.t - 1] := if stolen.value then Some(ul) else None;
      }
    }

    /** The uplink side of a slot request; `encodes` tells whether a burst for the PHY results. */
    method RxTmvUnitdataReqSlot(queue: MessageQueue, slot: SlotTime, chan: PhyChan, grants: bool, encodes: bool)
      requires Valid()
      modifies uplinkPhyChan, postGrantRxDiag, queue
      ensures Valid() && Value() == RxSlotReq(old(Value()), slot, chan, grants)
      ensures queue.messages == PushAll(old(queue.messages), if encodes then [Back(Foreign(0))] else [])
      ensures uplinkPhyChan[..] == old(uplinkPhyChan[..])[slot.t - 1 := chan]
      ensures postGrantRxDiag[..] ==
                if grants then old(postGrantRxDiag[..])[slot.t - 1 := Some(Diag(slot, 24))]
                else old(postGrantRxDiag[..])
      ensures queue.messages == old(queue.messages) + if encodes then [Foreign(0)] else []
    {
      PushedOne(queue.messages);
      uplinkPhyChan[slot.t - 1] := chan;
      if grants { postGrantRxDiag[slot.t - 1] := Some(Diag(slot, POST_GRANT_MAX_EVENTS)); }
      if encodes { queue.PushBack(Foreign(0)); }
    }

    method TickStarted(ts: Time)
      requires Valid()
      modifies this, blk2StolenAt
      ensures Valid() && Value() == TickStart(old(Value()), ts)
    {
      hide AddTimeslots, ToInt, CyclicDiff;
      dltime := ts;
      var before := UlTime(ts);
      for i := 0 to 4
        invariant dltime == ts && blk2StolenAt.Length == 4
        invariant forall j :: 0 <= j < 4 ==>
                    blk2StolenAt[j] == if j < i && Stale(old(blk2StolenAt[j]), before) then None
                                       else old(blk2StolenAt[j])
      {
        if blk2StolenAt[i].Some? && blk2StolenAt[i].value != before {
          var d := TimeIntDiff(ToInt(blk2StolenAt[i].value), ToInt(before));
          if d < 0 { blk2StolenAt[i] := None; }
        }
      }
      assert blk2StolenAt[..] == TickStart(old(Value()), ts).stolenAt;
    }
  }

  lemma PushedOne(q: seq<Msg>)
    ensures PushAll(q, []) == q
    ensures forall p :: PushAll(q, [p]) == PushOne(q, p)
  {
    forall p ensures PushAll(q, [p]) == PushOne(q, p) {
      assert [p][..0] == [];
    }
  }

  /** The router with its queue; of its entities only the lower MAC is modelled as an object. */
  class MessageRouter {
    const lmac: LmacBs
    const queue: MessageQueue

    constructor (lmac: LmacBs, queue: MessageQueue)
      ensures this.lmac == lmac && this.queue == queue
    {
      this.lmac, this.queue := lmac, queue;
    }

    function Value(): Sys
      reads lmac.Repr(), queue
    {
      Sys(lmac.Value(), queue.messages)
    }

    /** Pop the first message and hand it to its destination; `answer` is what another entity pushes in reaction. */
    method DeliverMessage(answer: seq<Push>)
      requires lmac.Valid()
      modifies lmac.Repr(), queue
      ensures lmac.Valid() && Value() == Next(old(Value()), lmac.dec, Deliver(answer))
    {
      hide RxTp, RxConfigure, RxSlotReq, TickStart, PushAll;
      var m := queue.PopFront();
      if m.None? { return; }
      PushedOne(queue.messages);
      match m.value {
        case TpInd(blk) => lmac.RxTpPrim(queue, blk);
        case ConfigureReq(stolen, time) => lmac.RxTmvConfigureReq(stolen, time);
        case SlotReq(slot, chan, grants, encodes) =>
          lmac.RxTmvUnitdataReqSlot(queue, slot, chan, grants, encodes);
        case _ => queue.PushEach(answer);
      }
    }
  }
}
