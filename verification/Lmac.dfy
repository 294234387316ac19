/**
  Uplink handling of the lower MAC: which logical channel a received block
  carries, what is passed up, and the per-timeslot marker that the second half
  of a burst is stolen (clause 23.8.4.1.4 of EN 300 392-2).

  The channel decoders are parameters. Received blocks come from the PHY as bit
  arrays, so a block's bits are its whole window.
 */
module Lmac {
  import opened Wrappers
  import opened Tdma

  datatype BurstType = CUB | NUB | NDB | SDB
  datatype TrainSeq = NormalTrainSeq1 | NormalTrainSeq2 | NormalTrainSeq3 | ExtendedTrainSeq | SyncTrainSeq | NotFound
  datatype BlockNum = Both | Block1 | Block2 | Undefined
  datatype PhyChan = Tp | Cp | Unallocated
  datatype LogicalChannel =
    | Aach | SchHd | SchF | Stch | SchHu | TchS | Tch24 | Tch48 | Tch72 | Bsch | Bnch | Blch | Clch
  {
    predicate IsControl() { this in {Aach, Bsch, Bnch, SchHd, SchF, Stch, SchHu} }
  }

  type Bits = seq<bool>

  /** The time of a slot request names one of the four timeslots. */
  type SlotTime = x: Time | 1 <= x.t <= 4 witness Time(1, 1, 1, 0)

  /** A block handed up by the PHY. */
  datatype Block = Block(train: TrainSeq, burst: BurstType, num: BlockNum, bits: Bits)

  /** `decode_cp` and `decode_tp`: decoded bits, if any, and whether the CRC holds. */
  datatype Decoders = Decoders(
    cp: (LogicalChannel, Block) -> (Option<Bits>, bool),
    tp: (LogicalChannel, Bits) -> (Option<Bits>, bool))

  /** Messages on the router's queue. `Foreign` stands for everything that neither comes from nor goes to the LMAC. */
  datatype Msg =
    | TpInd(blk: Block)
    | TmvInd(pdu: Bits, lchan: LogicalChannel, num: BlockNum)
    | TmdInd(ts: u8, data: Bits, raw: Option<BlockNum>)
    | ConfigureReq(stolen: Option<bool>, time: Option<Time>)
    | SlotReq(slot: SlotTime, ulChan: PhyChan, grants: bool, encodes: bool)
    | Foreign(tag: nat)
  {
    predicate ToLmac() { TpInd? || ConfigureReq? || SlotReq? }
  }

  /** `push_prio` with priority Immediate, or `push_back`. */
  datatype Push = Front(msg: Msg) | Back(msg: Msg)

  datatype Diag = Diag(grantTime: Time, remaining: u8)

  const POST_GRANT_TIMESLOTS: int := 18 * 4
  const POST_GRANT_MAX_EVENTS: u8 := 24
  const CONTROL_DIAG_MIN_AGE: int := 4 * 18

  datatype State = State(
    dltime: Time,
    chan: seq<PhyChan>,
    stolenAt: seq<Option<Time>>,
    postGrant: seq<Option<Diag>>,
    controlLast: seq<Option<Time>>)
  {
    /** One entry per timeslot, and a marker under timeslot `i + 1` names that timeslot. */
    predicate Valid() {
      && |chan| == |stolenAt| == |postGrant| == |controlLast| == 4
      && forall i :: 0 <= i < 4 && stolenAt[i].Some? ==> stolenAt[i].value.t == i + 1
    }
  }

  /** The uplink burst handled now was sent two timeslots ago. */
  function UlTime(dltime: Time): Time { AddTimeslots(dltime, -2) }

  lemma UlTimeSlot(dltime: Time)
    ensures UlTime(dltime).Valid()
  {
  }

  // ---------------------------------------------------------------- classification

  function LogicalChannelUl(blk: Block, traffic: bool, stolen: bool): (c: LogicalChannel)
    ensures c == TchS <==>
              && blk.burst == NUB
              && (|| (blk.train == NormalTrainSeq1 && traffic)
                  || (blk.train == NormalTrainSeq2 && blk.num == Block2 && !stolen))
    ensures c == Stch <==> blk.burst == NUB && blk.train == NormalTrainSeq2 && (blk.num == Block2 ==> stolen)
    ensures c == SchF <==> blk.burst == NUB && blk.train == NormalTrainSeq1 && !traffic
    ensures c in {TchS, Stch, SchF, SchHu}
  {
    match blk.burst
    case CUB => SchHu
    case NUB =>
      (match blk.train
       case NormalTrainSeq1 => if traffic then TchS else SchF
       case NormalTrainSeq2 =>
         if blk.num == Block1 then Stch
         else if blk.num == Block2 then if stolen then Stch else TchS
         else Stch
       case _ => SchHu)
    case _ => SchHu
  }

  /** A block that failed as control may still be speech when the uplink marker lags behind. */
  predicate RetriesAsSpeech(blk: Block, pchan: PhyChan) {
    && pchan != Tp
    && blk.burst == NUB
    && ((blk.train == NormalTrainSeq1 && blk.num == Both) || (blk.train == NormalTrainSeq2 && blk.num == Block2))
  }

  /** What the traffic path passes up. */
  function TrafficMsg(dec: Decoders, blk: Block, lchan: LogicalChannel, ul: Time): Option<Msg> {
    if lchan != TchS then None
    else if blk.num == Block2 then
      if |blk.bits| != 216 then None else Some(TmdInd(ul.t, blk.bits, Some(Block2)))
    else if blk.num != Both then None
    else
      var (decoded, crc) := dec.tp(lchan, blk.bits);
      if decoded.None? || !crc then None else Some(TmdInd(ul.t, decoded.value, None))
  }

  /** What the control path passes up. */
  function ControlMsg(dec: Decoders, blk: Block, lchan: LogicalChannel): Option<Msg> {
    if !lchan.IsControl() || lchan == Aach then None
    else
      var (decoded, crc) := dec.cp(lchan, blk);
      if decoded.None? || !crc then None else Some(TmvInd(decoded.value, lchan, blk.num))
  }

  function PushBack(m: Option<Msg>): seq<Push> { if m.Some? then [Back(m.value)] else [] }

  /** The pushes for a block read as `lchan`. */
  function Forward(dec: Decoders, blk: Block, lchan: LogicalChannel, pchan: PhyChan, ul: Time): seq<Push> {
    match lchan
    case TchS => PushBack(TrafficMsg(dec, blk, lchan, ul))
    case Tch24 => PushBack(TrafficMsg(dec, blk, lchan, ul))
    case Tch48 => PushBack(TrafficMsg(dec, blk, lchan, ul))
    case Tch72 => PushBack(TrafficMsg(dec, blk, lchan, ul))
    case SchF => ForwardControl(dec, blk, lchan, pchan, ul)
    case SchHu => ForwardControl(dec, blk, lchan, pchan, ul)
    case Stch => ForwardControl(dec, blk, lchan, pchan, ul)
    case _ => []
  }

  function ForwardControl(dec: Decoders, blk: Block, lchan: LogicalChannel, pchan: PhyChan, ul: Time): seq<Push> {
    var m := ControlMsg(dec, blk, lchan);
    if m.Some? then [Front(m.value)]
    else if RetriesAsSpeech(blk, pchan) then PushBack(TrafficMsg(dec, blk, TchS, ul))
    else []
  }

  // ---------------------------------------------------------------- diagnostics

  /** The window after a grant: at most 24 events within 72 slots. */
  function TakePostGrant(d: Option<Diag>, ul: Time): (Option<Diag>, Option<Diag>) {
    if d.None? then (None, None)
    else
      var age := Diff(ul, d.value.grantTime);
      if !(0 <= age <= POST_GRANT_TIMESLOTS) then (None, if age > POST_GRANT_TIMESLOTS then None else d)
      else if d.value.remaining == 0 then (None, None)
      else
        var taken := d.value.(remaining := d.value.remaining - 1);
        (Some(taken), if taken.remaining == 0 then None else Some(taken))
  }

  /** A burst is reported on exactly within 72 slots of the grant and while events are left; each report uses one up. */
  lemma PostGrantExactly(d: Diag, ul: Time)
    ensures var (event, rest) := TakePostGrant(Some(d), ul); var age, left := Diff(ul, d.grantTime), d.remaining;
            && (event.Some? <==> 0 <= age <= 72 && left > 0)
            && (event.Some? ==> event == Some(d.(remaining := left - 1)))
            && rest == if age < 0 then Some(d) else if age > 72 || left <= 1 then None else event
  {
    hide Diff;
  }

  /** Events taken from one slot's window over a series of bursts. */
  function Events(d: Option<Diag>, uls: seq<Time>): nat
    decreases |uls|
  {
    if uls == [] then 0
    else
      var (event, rest) := TakePostGrant(d, uls[0]);
      (if event.Some? then 1 else 0) + Events(rest, uls[1..])
  }

  /** However many bursts follow a grant, it is reported on no more often than its budget, and only in its window. */
  lemma {:induction false} EventsWithinBudget(d: Option<Diag>, uls: seq<Time>)
    ensures Events(d, uls) <= if d.Some? then d.value.remaining else 0
    decreases |uls|
  {
    hide Diff;
    if uls == [] {
    } else {
      var (event, rest) := TakePostGrant(d, uls[0]);
      EventsWithinBudget(rest, uls[1..]);
    }
  }

  // ---------------------------------------------------------------- one burst

  /** How a received block is read: its logical channel, or `None` when it is dropped unread. */
  function Reading(st: State, blk: Block): Option<LogicalChannel>
    requires st.Valid()
  {
    var ul := UlTime(st.dltime);
    UlTimeSlot(st.dltime);
    var pchan := st.chan[ul.t - 1];
    var stolen := st.stolenAt[ul.t - 1] == Some(ul) && blk.num != Block1;
    if pchan != Tp && stolen then None
    else Some(LogicalChannelUl(blk, pchan == Tp, stolen))
  }

  /** The marker of the slot afterwards: only a current one outlives the burst, and not its own Block2 or a Block1. */
  function MarkerAfter(st: State, blk: Block): Option<Time>
    requires st.Valid()
  {
    var ul := UlTime(st.dltime);
    UlTimeSlot(st.dltime);
    var i := ul.t - 1;
    if st.stolenAt[i] != Some(ul) || blk.num == Block1 || blk.num == Block2 || st.chan[i] != Tp then None
    else st.stolenAt[i]
  }

  /** Does reading the block go down the control path? */
  predicate OnControlPath(r: Option<LogicalChannel>) {
    r.Some? && r.value in {SchF, SchHu, Stch}
  }

  function RxTp(st: State, dec: Decoders, blk: Block): (State, seq<Push>)
    requires st.Valid()
  {
    var ul := UlTime(st.dltime);
    UlTimeSlot(st.dltime);
    var i := ul.t - 1;
    var (event, rest) := TakePostGrant(st.postGrant[i], ul);
    var r := Reading(st, blk);
    var last := if OnControlPath(r) && event.None? then ControlDiagAfter(st.controlLast[i], ul) else st.controlLast[i];
    (st.(stolenAt := st.stolenAt[i := MarkerAfter(st, blk)],
         postGrant := st.postGrant[i := rest],
         controlLast := st.controlLast[i := last]),
     if r.Some? then Forward(dec, blk, r.value, st.chan[i], ul) else [])
  }

  /** Rate limit of the control diagnostics. */
  function ControlDiagAfter(last: Option<Time>, ul: Time): Option<Time> {
    if last.Some? && Diff(ul, last.value) < CONTROL_DIAG_MIN_AGE then last else Some(ul)
  }

  /** The slot a configure request addresses; the uplink time being handled when it names none. */
  function MarkTime(st: State, time: Option<Time>): Time {
    if time.Some? then time.value else UlTime(st.dltime)
  }

  function RxConfigure(st: State, stolen: Option<bool>, time: Option<Time>): State
    requires st.Valid()
  {
    var ul := MarkTime(st, time);
    if stolen.Some? && 1 <= ul.t <= 4
    then st.(stolenAt := st.stolenAt[ul.t - 1 := if stolen.value then Some(ul) else None])
    else st
  }

  /** The uplink part of a downlink slot request; one that grants the uplink arms the diagnostics window. */
  function RxSlotReq(st: State, slot: SlotTime, chan: PhyChan, grants: bool): State
    requires st.Valid()
  {
    var i := slot.t - 1;
    st.(chan := st.chan[i := chan],
        postGrant := if grants then st.postGrant[i := Some(Diag(slot, POST_GRANT_MAX_EVENTS))] else st.postGrant)
  }

  predicate Stale(marker: Option<Time>, before: Time) {
    marker.Some? && marker.value != before && Diff(marker.value, before) < 0
  }

  function TickStart(st: State, ts: Time): State
    requires st.Valid()
  {
    st.(dltime := ts,
        stolenAt := seq(4, i requires 0 <= i < 4 => if Stale(st.stolenAt[i], UlTime(ts)) then None else st.stolenAt[i]))
  }

  lemma RxTpKeepsValid(st: State, dec: Decoders, blk: Block)
    requires st.Valid()
    ensures RxTp(st, dec, blk).0.Valid()
  {
  }

  // ---------------------------------------------------------------- what may be passed up

  /**
    A block queues at most one message. Clean speech comes only from a full slot with a good CRC,
    a raw half only from a 216-bit Block2, and nothing that decoded as control is also tried as speech.
   */
  lemma AtMostOneMessage(st: State, dec: Decoders, blk: Block)
    requires st.Valid()
    ensures var out := RxTp(st, dec, blk).1;
            && |out| <= 1
            && (out != [] ==>
                  match out[0].msg
                  case TmvInd(pdu, lchan, num) =>
                    && out[0].Front? && num == blk.num && Reading(st, blk) == Some(lchan)
                    && dec.cp(lchan, blk) == (Some(pdu), true)
                  case TmdInd(ts, data, None) =>
                    && out[0].Back? && ts == UlTime(st.dltime).t
                    && blk.num == Both && dec.tp(TchS, blk.bits) == (Some(data), true)
                  case TmdInd(ts, data, Some(half)) =>
                    && out[0].Back? && ts == UlTime(st.dltime).t
                    && half == blk.num == Block2 && data == blk.bits && |data| == 216
                  case _ => false)
  {
    hide UlTime, Diff;
  }

  /** What decoding yields when it succeeds and the CRC holds. */
  function Good(r: (Option<Bits>, bool)): Option<Bits> {
    if r.1 then r.0 else None
  }

  /**
    Exactly what a received block puts on the queue, from the block, the uplink channel of the slot sent
    two slots ago, the slot's marker and the decoders alone.
   */
  lemma OutputOf(st: State, dec: Decoders, blk: Block)
    requires st.Valid()
    ensures var ul := AddTimeslots(st.dltime, -2);
            && 1 <= ul.t <= 4
            && var pchan, marked := st.chan[ul.t - 1], st.stolenAt[ul.t - 1] == Some(ul) && blk.num != Block1;
            var speech := Good(dec.tp(TchS, blk.bits));
            var raw := if |blk.bits| == 216 then [Back(TmdInd(ul.t, blk.bits, Some(Block2)))] else [];
            var full := if speech.Some? then [Back(TmdInd(ul.t, speech.value, None))] else [];
            var hu, sf, st2 := Good(dec.cp(SchHu, blk)), Good(dec.cp(SchF, blk)), Good(dec.cp(Stch, blk));
            RxTp(st, dec, blk).1 ==
              if marked && pchan != Tp then []
              else if blk.burst == NUB && blk.train == NormalTrainSeq1 then
                if pchan == Tp then (if blk.num == Both then full else if blk.num == Block2 then raw else [])
                else if sf.Some? then [Front(TmvInd(sf.value, SchF, blk.num))]
                else if blk.num == Both then full
                else []
              else if blk.burst == NUB && blk.train == NormalTrainSeq2 then
                if blk.num == Block2 && !marked then raw
                else if st2.Some? then [Front(TmvInd(st2.value, Stch, blk.num))]
                else []
              else if hu.Some? then [Front(TmvInd(hu.value, SchHu, blk.num))]
              else []
  {
    hide AddTimeslots, Diff, TakePostGrant, ControlDiagAfter;
    UlTimeSlot(st.dltime);
  }

  /** Exactly what it does to the state: the slot's own marker and diagnostics, and nothing else. */
  lemma StateAfter(st: State, dec: Decoders, blk: Block)
    requires st.Valid()
    ensures var ul, st' := AddTimeslots(st.dltime, -2), RxTp(st, dec, blk).0;
            && 1 <= ul.t <= 4
            && st'.dltime == st.dltime && st'.chan == st.chan
            && |st'.stolenAt| == |st'.postGrant| == |st'.controlLast| == 4
            && (forall i :: 0 <= i < 4 && i != ul.t - 1 ==>
                  && st'.stolenAt[i] == st.stolenAt[i]
                  && st'.postGrant[i] == st.postGrant[i]
                  && st'.controlLast[i] == st.controlLast[i])
            && (st'.stolenAt[ul.t - 1].Some? <==>
                  st.stolenAt[ul.t - 1] == Some(ul) && st.chan[ul.t - 1] == Tp && blk.num !in {Block1, Block2})
            && (st'.stolenAt[ul.t - 1].Some? ==> st'.stolenAt[ul.t - 1] == Some(ul))
            && st'.postGrant[ul.t - 1] == TakePostGrant(st.postGrant[ul.t - 1], ul).1
  {
    hide AddTimeslots, Diff, TakePostGrant, ControlDiagAfter, Forward;
    UlTimeSlot(st.dltime);
  }

  /**
    When the slot's control diagnostics are renewed: for a block tried as signalling, outside a grant's own
    window, and when the last time is 72 slots old or there was none.
   */
  lemma ControlDiagExactly(st: State, dec: Decoders, blk: Block)
    requires st.Valid()
    ensures var ul := AddTimeslots(st.dltime, -2);
            && 1 <= ul.t <= 4 && |RxTp(st, dec, blk).0.controlLast| == 4
            && var pchan, marked := st.chan[ul.t - 1], st.stolenAt[ul.t - 1] == Some(ul) && blk.num != Block1;
            var last := st.controlLast[ul.t - 1];
            var signalling := && !(marked && pchan != Tp)
                              && !(blk.burst == NUB && blk.train == NormalTrainSeq1 && pchan == Tp)
                              && !(blk.burst == NUB && blk.train == NormalTrainSeq2 && blk.num == Block2 && !marked);
            RxTp(st, dec, blk).0.controlLast[ul.t - 1] ==
              if && signalling && TakePostGrant(st.postGrant[ul.t - 1], ul).0.None?
                 && (last.None? || Diff(ul, last.value) >= 72)
              then Some(ul) else last
  {
    hide AddTimeslots, Diff, TakePostGrant, Forward;
    UlTimeSlot(st.dltime);
  }

  /** The speech retry runs only for blocks that failed as control, never for a Block2: that arm is dead. */
  lemma RetryOnlyAfterControlFailed(st: State, dec: Decoders, blk: Block)
    requires st.Valid()
    requires var r := Reading(st, blk); OnControlPath(r) && RetriesAsSpeech(blk, st.chan[UlTime(st.dltime).t - 1])
    ensures blk.train == NormalTrainSeq1 && blk.num == Both
    ensures RxTp(st, dec, blk).1 != [] && RxTp(st, dec, blk).1[0].Back? ==>
              ControlMsg(dec, blk, Reading(st, blk).value) == None
  {
    hide UlTime, Diff;
    UlTimeSlot(st.dltime);
  }
}
