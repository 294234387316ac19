/**
  The transmit receipt: one atomic byte shared by all clones of a reporter and
  moved by compare-and-exchange. Any interleaving of calls by any clones is a
  sequence of such exchanges on the one byte.
 */
module TxReceipt {

  type u8 = x: nat | x < 0x100

  datatype TxState = Pending | Discarded | Transmitted | Lost | Acknowledged {
    function Raw(): u8 {
      match this
      case Pending => 0
      case Discarded => 1
      case Transmitted => 2
      case Lost => 3
      case Acknowledged => 4
    }
  }

  function FromRaw(v: u8): TxState {
    match v
    case 0 => Pending
    case 1 => Discarded
    case 2 => Transmitted
    case 3 => Lost
    case _ => Acknowledged
  }

  datatype Op =
    | MarkTransmitted | TryMarkTransmitted
    | MarkDiscarded | TryMarkDiscarded
    | MarkAcknowledged
    | MarkLost | TryMarkLost
    | Reset

  /** A mark took effect, found the receipt elsewhere, or stopped the process. */
  datatype Answer = Won | Missed | Panicked

  /** Source and target of a mark. */
  function Edge(op: Op): (TxState, TxState)
    requires !op.Reset?
  {
    match op
    case MarkTransmitted => (Pending, Transmitted)
    case TryMarkTransmitted => (Pending, Transmitted)
    case MarkDiscarded => (Pending, Discarded)
    case TryMarkDiscarded => (Pending, Discarded)
    case MarkAcknowledged => (Transmitted, Acknowledged)
    case MarkLost => (Transmitted, Lost)
    case TryMarkLost => (Transmitted, Lost)
  }

  /** Marks that assert that an acknowledgement is expected. */
  predicate NeedsAck(op: Op) { op.MarkAcknowledged? || op.MarkLost? || op.TryMarkLost? }

  predicate Tries(op: Op) { op.TryMarkTransmitted? || op.TryMarkDiscarded? || op.TryMarkLost? }

  /** One call on the shared byte. */
  function Step(ack: bool, v: u8, op: Op): (u8, Answer) {
    if op.Reset? then (Pending.Raw(), Won)
    else if NeedsAck(op) && !ack then (v, Panicked)
    else if v == Edge(op).0.Raw() then (Edge(op).1.Raw(), Won)
    else (v, if Tries(op) then Missed else Panicked)
  }

  /** The byte after a sequence of calls on a new receipt. */
  function Run(ack: bool, ops: seq<Op>): u8 {
    if ops == [] then Pending.Raw() else Step(ack, Run(ack, ops[..|ops| - 1]), ops[|ops| - 1]).0
  }

  function Answered(ack: bool, ops: seq<Op>, k: nat): Answer
    requires k < |ops|
  {
    Step(ack, Run(ack, ops[..k]), ops[k]).1
  }

  /** Call `k` is one of `calls` and took effect. */
  predicate WonAt(ack: bool, ops: seq<Op>, k: nat, calls: set<Op>) {
    k < |ops| && ops[k] in calls && Answered(ack, ops, k).Won?
  }

  ghost predicate SomeWon(ack: bool, ops: seq<Op>, calls: set<Op>) {
    exists k: nat :: WonAt(ack, ops, k, calls)
  }

  predicate Final(ack: bool, v: u8) {
    match FromRaw(v)
    case Pending => false
    case Transmitted => !ack
    case _ => true
  }

  predicate NoReset(ops: seq<Op>) { forall k :: 0 <= k < |ops| ==> !ops[k].Reset? }

  // ---------------------------------------------------------------- every run

  lemma StepAlongEdges(ack: bool, v: u8, op: Op)
    requires !op.Reset? && v <= 4
    ensures var (w, a) := Step(ack, v, op);
            && w <= 4
            && (a.Won? ==> (v, w) in {(0, 1), (0, 2), (2, 3), (2, 4)})
            && (!a.Won? ==> w == v)
            && (Final(ack, v) ==> w == v && !a.Won?)
  {
  }

  lemma {:induction false} RunInRange(ack: bool, ops: seq<Op>)
    ensures Run(ack, ops) <= 4
  {
    if ops == [] {
    } else {
      RunInRange(ack, ops[..|ops| - 1]);
    }
  }

  /** When a mark takes effect, and what becomes of one that does not, by the name of the call. */
  lemma WinsExactly(ack: bool, v: u8, op: Op)
    requires !op.Reset?
    ensures Step(ack, v, op).1.Won? <==>
            || (op in {MarkTransmitted, TryMarkTransmitted, MarkDiscarded, TryMarkDiscarded} && v == 0)
            || (op in {MarkAcknowledged, MarkLost, TryMarkLost} && v == 2 && ack)
    ensures Step(ack, v, op).1.Missed? <==>
            || (op in {TryMarkTransmitted, TryMarkDiscarded} && v != 0)
            || (op == TryMarkLost && v != 2 && ack)
  {
  }

  /** A state is final exactly when no mark can take effect in it any more. */
  lemma FinalMeansStuck(ack: bool, v: u8)
    requires v <= 4
    ensures Final(ack, v) <==> forall op: Op :: !op.Reset? ==> !Step(ack, v, op).1.Won?
  {
    assert v == 0 ==> Step(ack, v, MarkTransmitted).1.Won?;
    assert v == 2 && ack ==> Step(ack, v, MarkLost).1.Won?;
  }

  /** Where the byte stands tells exactly which calls have taken effect since it was created. */
  lemma {:induction false} StateIsHistory(ack: bool, ops: seq<Op>)
    requires NoReset(ops)
    ensures var v := Run(ack, ops);
            && v <= 4
            && (v >= 2 <==> SomeWon(ack, ops, {MarkTransmitted, TryMarkTransmitted}))
            && (v == 4 <==> SomeWon(ack, ops, {MarkAcknowledged}))
            && (v == 1 <==> SomeWon(ack, ops, {MarkDiscarded, TryMarkDiscarded}))
            && (v == 3 <==> SomeWon(ack, ops, {MarkLost, TryMarkLost}))
            && (!ack ==> v <= 2)
  {
    hide SomeWon;
    if ops == [] {
      NothingWon(ack);
    } else {
      StateIsHistory(ack, ops[..|ops| - 1]);
      WonStep(ack, ops, {MarkTransmitted, TryMarkTransmitted});
      WonStep(ack, ops, {MarkAcknowledged});
      WonStep(ack, ops, {MarkDiscarded, TryMarkDiscarded});
      WonStep(ack, ops, {MarkLost, TryMarkLost});
    }
  }

  lemma NothingWon(ack: bool)
    ensures forall calls :: !SomeWon(ack, [], calls)
  {
  }

  lemma WonStep(ack: bool, ops: seq<Op>, calls: set<Op>)
    requires ops != []
    ensures var ops', op := ops[..|ops| - 1], ops[|ops| - 1];
            SomeWon(ack, ops, calls) <==>
              SomeWon(ack, ops', calls) || (op in calls && Step(ack, Run(ack, ops'), op).1.Won?)
  {
    var ops', n := ops[..|ops| - 1], |ops| - 1;
    forall k: nat | k < n ensures WonAt(ack, ops, k, calls) == WonAt(ack, ops', k, calls) {
      assert ops'[..k] == ops[..k];
    }
    if k: nat :| WonAt(ack, ops', k, calls) { assert WonAt(ack, ops, k, calls); }
    assert WonAt(ack, ops, n, calls) <==> ops[n] in calls && Step(ack, Run(ack, ops'), ops[n]).1.Won?;
  }

  /** The codes on the byte and the states they stand for. */
  lemma CodesOfStates(x: TxState)
    ensures FromRaw(x.Raw()) == x
    ensures [Pending, Discarded, Transmitted, Lost, Acknowledged][x.Raw()] == x
  {
  }

  /** Of all marks that leave the same state, at most one ever takes effect. */
  lemma AtMostOneWins(ack: bool, ops: seq<Op>, j: nat, k: nat)
    requires NoReset(ops)
    requires exists calls :: calls in {
               {MarkTransmitted, TryMarkTransmitted, MarkDiscarded, TryMarkDiscarded},
               {MarkAcknowledged, MarkLost, TryMarkLost}
             } && WonAt(ack, ops, j, calls) && WonAt(ack, ops, k, calls)
    ensures j == k
  {
    if j < k { LeftForGood(ack, ops, j, k); }
    if k < j { LeftForGood(ack, ops, k, j); }
  }

  lemma LeftForGood(ack: bool, ops: seq<Op>, j: nat, k: nat)
    requires NoReset(ops) && j < k < |ops|
    requires Answered(ack, ops, j).Won?
    ensures Run(ack, ops[..k]) > Edge(ops[j]).0.Raw()
  {
    assert ops[..j + 1][..j] == ops[..j];
    RunInRange(ack, ops[..j]);
    NeverBack(ack, ops, j + 1, k);
  }

  /** The byte never goes back. */
  lemma {:induction false} NeverBack(ack: bool, ops: seq<Op>, j: nat, k: nat)
    requires NoReset(ops) && j <= k <= |ops|
    ensures Run(ack, ops[..j]) <= Run(ack, ops[..k])
  {
    hide Step, Final;
    if j == k {
    } else {
      NeverBack(ack, ops, j, k - 1);
      assert ops[..k][..k - 1] == ops[..k - 1];
      RunInRange(ack, ops[..k - 1]);
      StepAlongEdges(ack, Run(ack, ops[..k - 1]), ops[k - 1]);
    }
  }

  /** A final state never changes again. */
  lemma {:induction false} FinalStays(ack: bool, ops: seq<Op>, j: nat, k: nat)
    requires NoReset(ops) && j <= k <= |ops| && Final(ack, Run(ack, ops[..j]))
    ensures Run(ack, ops[..k]) == Run(ack, ops[..j])
  {
    hide Step, Final;
    if j == k {
    } else {
      FinalStays(ack, ops, j, k - 1);
      assert ops[..k][..k - 1] == ops[..k - 1];
      RunInRange(ack, ops[..k - 1]);
      StepAlongEdges(ack, Run(ack, ops[..k - 1]), ops[k - 1]);
    }
  }

  /** A reset forgets everything before it, so the laws above hold from the last one on. */
  lemma {:induction false} ResetStartsOver(ack: bool, before: seq<Op>, after: seq<Op>)
    ensures Run(ack, before + [Reset] + after) == Run(ack, after)
  {
    var ops := before + [Reset] + after;
    if after == [] {
      assert ops[..|ops| - 1] == before;
    } else {
      assert ops[..|ops| - 1] == before + [Reset] + after[..|after| - 1];
      ResetStartsOver(ack, before, after[..|after| - 1]);
    }
  }

  // ---------------------------------------------------------------- the shared objects

  class AtomicByte {
    var value: u8

    constructor (v: u8)
      ensures value == v
    {
      value := v;
    }

    method CompareExchange(expected: u8, new_: u8) returns (ok: bool)
      modifies this
      ensures ok <==> old(value) == expected
      ensures value == if ok then new_ else old(value)
    {
      ok := value == expected;
      if ok { value := new_; }
    }
  }

  class TxReporter {
    const expectsAck: bool
    const state: AtomicByte

    constructor (expectsAck: bool)
      ensures fresh(state) && state.value == Pending.Raw() && this.expectsAck == expectsAck
    {
      this.expectsAck := expectsAck;
      state := new AtomicByte(Pending.Raw());
    }

    constructor Sharing(expectsAck: bool, state: AtomicByte)
      ensures this.expectsAck == expectsAck && this.state == state
    {
      this.expectsAck := expectsAck;
      this.state := state;
    }

    /** A clone observes and moves the same byte. */
    method Clone() returns (c: TxReporter)
      ensures fresh(c) && c.state == state && c.expectsAck == expectsAck
    {
      c := new TxReporter.Sharing(expectsAck, state);
    }

    /** Any of the calls, by any clone, is one step on the shared byte. */
    method Call(op: Op) returns (a: Answer)
      modifies state
      ensures (state.value, a) == Step(expectsAck, old(state.value), op)
      ensures op == Reset ==> state.value == 0
      ensures op != Reset && !a.Won? ==> state.value == old(state.value)
      ensures op != Reset && a.Won? ==>
                state.value == (match op
                                case MarkTransmitted => 2 case TryMarkTransmitted => 2
                                case MarkDiscarded => 1 case TryMarkDiscarded => 1
                                case MarkAcknowledged => 4
                                case _ => 3)
    {
      if op.Reset? {
        state.value := Pending.Raw();
        return Won;
      }
      if NeedsAck(op) && !expectsAck { return Panicked; }
      var (from, to) := Edge(op);
      var ok := state.CompareExchange(from.Raw(), to.Raw());
      a := if ok then Won else if Tries(op) then Missed else Panicked;
    }

    method IsTransmitted() returns (r: bool)
      ensures r <==> FromRaw(state.value) in {Transmitted, Lost, Acknowledged}
    {
      r := state.value >= Transmitted.Raw();
    }

    method IsInFinalState() returns (r: bool)
      ensures r <==> Final(expectsAck, state.value)
      ensures r <==> FromRaw(state.value) in {Discarded, Lost, Acknowledged} || (state.value == 2 && !expectsAck)
    {
      match FromRaw(state.value) {
        case Pending => r := false;
        case Discarded => r := true;
        case Transmitted => r := !expectsAck;
        case Lost => r := true;
        case Acknowledged => r := true;
      }
    }
  }

  /** Calls made through any clones of one reporter, in any order, run on one byte. */
  method Interleave(clones: seq<TxReporter>, who: seq<nat>, ops: seq<Op>, cell: AtomicByte, ack: bool)
    requires |who| == |ops| && cell.value == Pending.Raw()
    requires forall i :: 0 <= i < |clones| ==> clones[i].state == cell && clones[i].expectsAck == ack
    requires forall i :: 0 <= i < |who| ==> who[i] < |clones|
    modifies cell
    ensures cell.value == Run(ack, ops)
  {
    for k := 0 to |ops|
      invariant cell.value == Run(ack, ops[..k])
    {
      var a := clones[who[k]].Call(ops[k]);
      assert ops[..k + 1][..k] == ops[..k];
    }
    assert ops[..|ops|] == ops;
  }
}
