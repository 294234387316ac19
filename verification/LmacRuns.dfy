/**
  The lower MAC over whole runs: every stolen-half marker in force was set by
  the latest request for its slot, and none outlives the burst it was set for.
 */
module LmacRuns {
  import opened Wrappers
  import opened Tdma
  import opened Lmac

  /** What can happen to the lower MAC; a tick moves the downlink time on by one slot. */
  datatype Event =
    | Tick
    | Rx(blk: Block)
    | Configure(stolen: Option<bool>, time: Option<Time>)
    | SlotChan(slot: SlotTime, chan: PhyChan, grants: bool)

  function Step(st: State, dec: Decoders, e: Event): State
    requires st.Valid()
  {
    match e
    case Tick => TickStart(st, AddTimeslots(st.dltime, 1))
    case Rx(blk) => RxTp(st, dec, blk).0
    case Configure(stolen, time) => RxConfigure(st, stolen, time)
    case SlotChan(slot, chan, grants) => RxSlotReq(st, slot, chan, grants)
  }

  lemma StepKeepsValid(st: State, dec: Decoders, e: Event)
    requires st.Valid()
    ensures Step(st, dec, e).Valid()
  {
    if e.Rx? { RxTpKeepsValid(st, dec, e.blk); }
  }

  function Run(st: State, dec: Decoders, es: seq<Event>): (r: State)
    requires st.Valid()
    ensures r.Valid()
  {
    if es == [] then st
    else
      var before := Run(st, dec, es[..|es| - 1]);
      StepKeepsValid(before, dec, es[|es| - 1]);
      Step(before, dec, es[|es| - 1])
  }

  // ---------------------------------------------------------------- where markers come from

  /** Event `e`, met in state `st`, marks the second half of the burst at `u` as stolen. */
  predicate Marks(st: State, e: Event, u: Time) {
    e.Configure? && e.stolen == Some(true) && MarkTime(st, e.time) == u
  }

  /** Event `e`, met in state `st`, replaces or cancels whatever marker timeslot `t` has. */
  predicate Supersedes(st: State, e: Event, t: u8) {
    || (e.Configure? && e.stolen.Some? && MarkTime(st, e.time).t == t)
    || (e.Rx? && e.blk.num == Block1 && UlTime(st.dltime).t == t)
  }

  /** Event `j` marked `u`, and nothing since has superseded it: no other marker for the slot and no Block1 in it. */
  ghost predicate LatestMark(st: State, dec: Decoders, es: seq<Event>, j: nat, u: Time)
    requires st.Valid()
  {
    && j < |es|
    && Marks(Run(st, dec, es[..j]), es[j], u)
    && forall m :: j < m < |es| ==> !Supersedes(Run(st, dec, es[..m]), es[m], u.t)
  }

  /** A step either sets the marker or leaves it alone without superseding it. */
  lemma MarkerStep(st: State, dec: Decoders, e: Event, i: nat, u: Time)
    requires st.Valid() && i < 4 && Step(st, dec, e).stolenAt[i] == Some(u)
    ensures Marks(st, e, u) || (st.stolenAt[i] == Some(u) && !Supersedes(st, e, u.t))
  {
    hide Diff, AddTimeslots, Forward, TakePostGrant;
    UlTimeSlot(st.dltime);
    StepKeepsValid(st, dec, e);
  }

  /** In every run from a state without markers, a marker in force is the latest one for its slot. */
  lemma {:induction false} MarkerIsLatest(st: State, dec: Decoders, es: seq<Event>, i: nat, u: Time) returns (j: nat)
    requires st.Valid() && (forall k :: 0 <= k < 4 ==> st.stolenAt[k] == None)
    requires i < 4 && Run(st, dec, es).stolenAt[i] == Some(u)
    ensures LatestMark(st, dec, es, j, u)
  {
    hide Step, Marks, Supersedes;
    assert es != [];
    var n, es' := |es| - 1, es[..|es| - 1];
    var before := Run(st, dec, es');
    MarkerStep(before, dec, es[n], i, u);
    assert es[..n] == es';
    if Marks(before, es[n], u) {
      j := n;
    } else {
      j := MarkerIsLatest(st, dec, es', i, u);
      assert es'[..j] == es[..j];
      forall m | j < m < |es| ensures !Supersedes(Run(st, dec, es[..m]), es[m], u.t) {
        if m < n { assert es'[..m] == es[..m]; }
      }
    }
  }

  /**
    A Block2 is read as STCH only on a traffic uplink, only in a burst that can be stolen, and only
    when the latest marker for the slot names exactly this uplink time with no Block1 handled since.
   */
  lemma StolenReadIsMarked(st: State, dec: Decoders, es: seq<Event>, blk: Block) returns (j: nat)
    requires st.Valid() && (forall k :: 0 <= k < 4 ==> st.stolenAt[k] == None)
    requires blk.num == Block2 && Reading(Run(st, dec, es), blk) == Some(Stch)
    ensures var now := Run(st, dec, es); var ul := UlTime(now.dltime);
            && 1 <= ul.t <= 4 && now.chan[ul.t - 1] == Tp
            && blk.burst == NUB && blk.train == NormalTrainSeq2
            && LatestMark(st, dec, es, j, ul)
  {
    hide Run, LatestMark, UlTime;
    var now := Run(st, dec, es);
    UlTimeSlot(now.dltime);
    j := MarkerIsLatest(st, dec, es, UlTime(now.dltime).t - 1, UlTime(now.dltime));
  }

  // ---------------------------------------------------------------- where the uplink channel comes from

  /** Event `e` is a slot request for timeslot `i + 1`. */
  predicate Requests(e: Event, i: nat) {
    e.SlotChan? && e.slot.t == i + 1
  }

  /** In every run, a slot's uplink channel is the one its latest slot request named; without one, the initial. */
  lemma {:induction false} ChannelIsLatest(st: State, dec: Decoders, es: seq<Event>, i: nat)
    requires st.Valid() && i < 4
    ensures forall j :: 0 <= j < |es| && Requests(es[j], i) && (forall m :: j < m < |es| ==> !Requests(es[m], i)) ==>
              Run(st, dec, es).chan[i] == es[j].chan
    ensures (forall m :: 0 <= m < |es| ==> !Requests(es[m], i)) ==> Run(st, dec, es).chan[i] == st.chan[i]
  {
    hide Step;
    if es == [] {
    } else {
      var n, es' := |es| - 1, es[..|es| - 1];
      ChannelIsLatest(st, dec, es', i);
      ChannelStep(Run(st, dec, es'), dec, es[n], i);
      assert forall m :: 0 <= m < n ==> es'[m] == es[m];
    }
  }

  lemma ChannelStep(st: State, dec: Decoders, e: Event, i: nat)
    requires st.Valid() && i < 4
    ensures Step(st, dec, e).Valid() && Step(st, dec, e).chan[i] == if Requests(e, i) then e.chan else st.chan[i]
  {
    hide AddTimeslots, Diff, Forward, TakePostGrant;
    StepKeepsValid(st, dec, e);
  }

  /**
    In every run, a full-slot burst is read by what the latest request for its slot said: as speech when that
    was a traffic channel, and otherwise as signalling first, and as speech only if that fails.
   */
  lemma FullSlotByRequest(st: State, dec: Decoders, es: seq<Event>, j: nat, blk: Block)
    requires st.Valid() && j < |es|
    requires var ul := UlTime(Run(st, dec, es).dltime);
             && 1 <= ul.t && Requests(es[j], ul.t - 1)
             && (forall m :: j < m < |es| ==> !Requests(es[m], ul.t - 1))
             && Run(st, dec, es).stolenAt[ul.t - 1] != Some(ul)
    requires blk.burst == NUB && blk.train == NormalTrainSeq1 && blk.num == Both
    ensures var speech, signal := Good(dec.tp(TchS, blk.bits)), Good(dec.cp(SchF, blk));
            RxTp(Run(st, dec, es), dec, blk).1 ==
              if es[j].chan != Tp && signal.Some? then [Front(TmvInd(signal.value, SchF, Both))]
              else if speech.Some? then [Back(TmdInd(UlTime(Run(st, dec, es).dltime).t, speech.value, None))]
              else []
  {
    hide Run, RxTp, AddTimeslots;
    var now := Run(st, dec, es);
    OutputOf(now, dec, blk);
    ChannelIsLatest(st, dec, es, UlTime(now.dltime).t - 1);
  }

  // ---------------------------------------------------------------- where markers end

  /** One tick later the uplink time is one slot later. */
  lemma NextUlTime(d: Time)
    ensures Diff(UlTime(d), UlTime(AddTimeslots(d, 1))) == -1
  {
    hide ToInt, FromInt, CyclicDiff;
    var u := UlTime(d);
    assert UlTime(AddTimeslots(d, 1)) == AddTimeslots(d, -1) by {
      Fits(d, 1);
      AddAdd(d, 1, -2);
    }
    assert AddTimeslots(u, 1) == AddTimeslots(d, -1) by {
      Fits(d, -2);
      AddAdd(d, -2, 1);
    }
    DiffOfAdd(u, 1);
    DiffAntisymmetric(u, AddTimeslots(u, 1));
  }

  lemma Fits(d: Time, n: i32)
    requires -2 <= n <= 2
    ensures FitsI32(ToInt(d) + n) && ToInt(AddTimeslots(d, n)) >= 0
  {
    hide FromInt;
    ToIntFromInt(ToInt(d) + n);
  }

  /** After a tick no marker is older than the uplink time now being handled. */
  lemma NoneStaleAfterTick(st: State, dec: Decoders, es: seq<Event>, i: nat)
    requires st.Valid() && es != [] && es[|es| - 1].Tick? && i < 4
    ensures var now := Run(st, dec, es);
            now.stolenAt[i].Some? ==> Diff(now.stolenAt[i].value, UlTime(now.dltime)) >= 0
  {
    hide UlTime, AddTimeslots, CyclicDiff, ToInt;
    var now := Run(st, dec, es);
    SameTime(UlTime(now.dltime));
  }

  lemma SameTime(x: Time)
    ensures Diff(x, x) == 0
  {
  }

  /** A tick sets the time and takes away exactly the markers older than the uplink time it brings. */
  lemma TickKeepsTheRest(st: State, dec: Decoders, i: nat)
    requires st.Valid() && i < 4
    ensures var st', ul := Step(st, dec, Tick), AddTimeslots(AddTimeslots(st.dltime, 1), -2);
            && st' == st.(dltime := AddTimeslots(st.dltime, 1), stolenAt := st'.stolenAt) && |st'.stolenAt| == 4
            && st'.stolenAt[i] == if st.stolenAt[i].Some? && Diff(st.stolenAt[i].value, ul) < 0 then None
                                  else st.stolenAt[i]
  {
    hide AddTimeslots, Diff;
    SameTime(AddTimeslots(AddTimeslots(st.dltime, 1), -2));
  }

  /** A marker for the burst now being handled does not survive the next tick. */
  lemma MarkerEndsWithItsBurst(st: State, dec: Decoders, es: seq<Event>, i: nat)
    requires st.Valid() && i < 4
    requires var now := Run(st, dec, es); now.stolenAt[i] == Some(UlTime(now.dltime))
    ensures Run(st, dec, es + [Tick]).stolenAt[i] == None
  {
    hide UlTime, AddTimeslots, Diff;
    var now := Run(st, dec, es);
    assert (es + [Tick])[..|es|] == es;
    NextUlTime(now.dltime);
    SameTime(UlTime(now.dltime));
  }
}
