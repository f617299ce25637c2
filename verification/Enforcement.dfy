/** The enforcer's one-way latch and the one frame it ever sends. */
module Enforcement {
  import opened Types
  import opened Modbus

  /** What the network does to one attempt to send the 12-byte lock frame: no connection,
      or a write that returns how many bytes it took. */
  type Sent = n: int | -1 <= n <= 12
  datatype SendOutcome = NoSocket | NotConnected | Wrote(sent: Sent)

  datatype Action =
    | MonitoringOnly
    | AlertOperators
    | LockEngaged
    | LockFailed
    | LockActive
    | EscalationWithoutRestriction

  /** The frame that engages the safety coil. */
  const LOCK_FRAME: Frame := FrameOf(Pdu(WRITE_SINGLE_COIL, SAFETY_COIL, COIL_ON))

  predicate Demands(d: Decision) {
    d.level == High && d.restrictWrites
  }

  predicate Complete(outcome: SendOutcome) {
    outcome == Wrote(12)
  }

  /** The bytes an attempt leaves on the network. */
  function OnWire(frame: Frame, outcome: SendOutcome): seq<Frame>
    requires |frame| == 12
  {
    if outcome.Wrote? && 0 < outcome.sent then [frame[..outcome.sent]] else []
  }

  predicate LatchAfter(locked: bool, d: Decision, outcome: SendOutcome) {
    locked || (Demands(d) && Complete(outcome))
  }

  function WireAfter(locked: bool, d: Decision, outcome: SendOutcome): seq<Frame> {
    if Demands(d) && !locked then OnWire(LOCK_FRAME, outcome) else []
  }

  /** How many sends a decision calls for. */
  function AttemptsFor(locked: bool, d: Decision): nat {
    if Demands(d) && !locked then 1 else 0
  }

  function ActionFor(locked: bool, d: Decision, outcome: SendOutcome): Action {
    match d.level
    case Low => MonitoringOnly
    case Medium => AlertOperators
    case High =>
      if !d.restrictWrites then EscalationWithoutRestriction
      else if locked then LockActive
      else if Complete(outcome) then LockEngaged
      else LockFailed
  }

  class EnforcementEngine {
    var locked: bool

    constructor ()
      ensures !locked
    {
      locked := false;
    }

    /** Acts on a decision. `outcome` is what the network does if a send is attempted;
        `attempts` counts the sends attempted and `wire` collects the bytes that leave. */
    method Apply(decision: Decision, outcome: SendOutcome)
      returns (action: Action, attempts: nat, wire: seq<Frame>)
      modifies this
      ensures locked == LatchAfter(old(locked), decision, outcome)
      ensures attempts == AttemptsFor(old(locked), decision)
      ensures wire == WireAfter(old(locked), decision, outcome)
      ensures action == ActionFor(old(locked), decision, outcome)
    {
      attempts, wire := 0, [];
      match decision.level {
        case Low =>
          action := MonitoringOnly;
        case Medium =>
          action := AlertOperators;
        case High =>
          if decision.restrictWrites {
            if !locked {
              var ok, tried;
              ok, tried, wire := SendSafetyCoil(COIL_ON, outcome);
              attempts := attempts + tried;
              if ok {
                locked := true;
                action := LockEngaged;
              } else {
                action := LockFailed;
              }
            } else {
              action := LockActive;
            }
          } else {
            action := EscalationWithoutRestriction;
          }
      }
    }

    /** One attempt: a socket, a connection, one write, whatever becomes of them. */
    method SendSafetyCoil(value: Word, outcome: SendOutcome) returns (ok: bool, attempts: nat, wire: seq<Frame>)
      ensures ok <==> Complete(outcome)
      ensures attempts == 1
      ensures wire == OnWire(FrameOf(Pdu(WRITE_SINGLE_COIL, SAFETY_COIL, value)), outcome)
    {
      ok, attempts, wire := false, 1, [];
      if outcome.NoSocket? {
        return;
      }
      if outcome.NotConnected? {
        return;
      }
      var pdu := new Byte[12][
        0x00, 0x01, 0x00, 0x00, 0x00, 0x06, 0x01, 0x05, 0xFF, 0xFF, HighByte(value), LowByte(value)];
      assert pdu[..] == FrameOf(Pdu(WRITE_SINGLE_COIL, SAFETY_COIL, value));
      var sent := outcome.sent;
      wire := if 0 < sent then [pdu[..sent]] else [];
      ok := sent == pdu.Length;
    }
  }

  // ----- whole runs of decisions -----

  datatype Order = Order(decision: Decision, outcome: SendOutcome)

  function LatchOf(run: seq<Order>): bool {
    if run == [] then false
    else LatchAfter(LatchOf(run[..|run| - 1]), run[|run| - 1].decision, run[|run| - 1].outcome)
  }

  function WireOf(run: seq<Order>): seq<Frame> {
    if run == [] then []
    else
      var (before, o) := (run[..|run| - 1], run[|run| - 1]);
      WireOf(before) + WireAfter(LatchOf(before), o.decision, o.outcome)
  }

  /** How many sends `Apply` attempts over a run. */
  function AttemptsOf(run: seq<Order>): nat {
    if run == [] then 0
    else
      var before := run[..|run| - 1];
      AttemptsOf(before) + AttemptsFor(LatchOf(before), run[|run| - 1].decision)
  }

  /** How many of `frames` are exactly `f`. */
  function Occurrences(frames: seq<Frame>, f: Frame): nat {
    multiset(frames)[f]
  }

  /** How many decisions demand a lock. */
  function DemandsIn(run: seq<Order>): nat {
    if run == [] then 0
    else DemandsIn(run[..|run| - 1]) + if Demands(run[|run| - 1].decision) then 1 else 0
  }

  lemma OneSend(locked: bool, d: Decision, outcome: SendOutcome)
    ensures var wire := WireAfter(locked, d, outcome);
            && Occurrences(wire, LOCK_FRAME) == (if LatchAfter(locked, d, outcome) && !locked then 1 else 0)
            && forall f | f in wire :: f <= LOCK_FRAME && (f == LOCK_FRAME || |f| < 12)
  {
    if Complete(outcome) {
      assert LOCK_FRAME[..12] == LOCK_FRAME;
    }
  }

  /** Over any run the complete lock frame is sent once if the latch is set and never
      otherwise; whatever else was sent is cut short. */
  lemma {:induction false} AtMostOneLockFrame(run: seq<Order>)
    ensures Occurrences(WireOf(run), LOCK_FRAME) == if LatchOf(run) then 1 else 0
    ensures forall f | f in WireOf(run) :: f <= LOCK_FRAME && (f == LOCK_FRAME || |f| < 12)
  {
    if run != [] {
      var before, o := run[..|run| - 1], run[|run| - 1];
      AtMostOneLockFrame(before);
      OneSend(LatchOf(before), o.decision, o.outcome);
    }
  }

  /** A demand for a lock that the network takes completely. */
  predicate Delivers(o: Order) {
    Demands(o.decision) && Complete(o.outcome)
  }

  /** Whether some order of a run delivers. */
  ghost predicate DeliveredIn(run: seq<Order>) {
    exists j :: 0 <= j < |run| && Delivers(run[j])
  }

  /** The orders up to and including the first that delivers. */
  function UpToDelivery(run: seq<Order>): seq<Order> {
    if run == [] then []
    else if Delivers(run[0]) then [run[0]]
    else [run[0]] + UpToDelivery(run[1..])
  }

  lemma {:induction false} UpToDeliverySnoc(run: seq<Order>, o: Order)
    ensures UpToDelivery(run + [o])
            == if DeliveredIn(run) then UpToDelivery(run) else run + [o]
  {
    if run == [] {
      assert UpToDelivery([]) == [];
      assert [] + [o] == [o];
    } else if Delivers(run[0]) {
      assert (run + [o])[0] == run[0];
    } else {
      UpToDeliverySnoc(run[1..], o);
      assert (run + [o])[1..] == run[1..] + [o];
      assert forall i | 0 < i < |run| :: run[i] == run[1..][i - 1];
      assert [run[0]] + (run[1..] + [o]) == run + [o];
    }
  }

  /** The latch is set exactly when some demand for a lock was delivered. */
  lemma {:induction false} LatchMeansDelivered(run: seq<Order>)
    ensures LatchOf(run) <==> DeliveredIn(run)
  {
    if run != [] {
      var n := |run| - 1;
      LatchMeansDelivered(run[..n]);
      if LatchOf(run[..n]) {
        var i :| 0 <= i < n && Delivers(run[..n][i]);
        assert run[i] == run[..n][i];
      }
    }
  }

  /** Over any run the enforcer attempts one send for every demand up to and including the
      first delivered one, and none after it. */
  lemma {:induction false} AttemptsUpToDelivery(run: seq<Order>)
    ensures AttemptsOf(run) == DemandsIn(UpToDelivery(run))
  {
    if run != [] {
      var before, o := run[..|run| - 1], run[|run| - 1];
      assert run == before + [o];
      AttemptsUpToDelivery(before);
      LatchMeansDelivered(before);
      UpToDeliverySnoc(before, o);
      if !LatchOf(before) {
        NothingDelivered(before);
      }
    }
  }

  lemma {:induction false} NothingDelivered(run: seq<Order>)
    requires !DeliveredIn(run)
    ensures UpToDelivery(run) == run
  {
    if run != [] {
      assert forall i | 0 <= i < |run| - 1 :: run[1..][i] == run[i + 1];
      NothingDelivered(run[1..]);
    }
  }

  /** Nothing is ever attempted again after the latch is set. */
  lemma {:induction false} NoAttemptAfterLatch(run: seq<Order>, n: nat)
    requires n <= |run| && LatchOf(run[..n])
    ensures LatchOf(run) && AttemptsOf(run) == AttemptsOf(run[..n]) && WireOf(run) == WireOf(run[..n])
  {
    if n == |run| {
      assert run[..n] == run;
    } else {
      assert run[..|run| - 1][..n] == run[..n];
      NoAttemptAfterLatch(run[..|run| - 1], n);
    }
  }

  // ----- what a run reports and what it leaves on the network -----

  function ActionsOf(run: seq<Order>): (actions: seq<Action>)
    ensures |actions| == |run|
  {
    if run == [] then []
    else
      var (before, o) := (run[..|run| - 1], run[|run| - 1]);
      ActionsOf(before) + [ActionFor(LatchOf(before), o.decision, o.outcome)]
  }

  /** What a reported action says about the order it answers. */
  ghost predicate Tells(action: Action, o: Order, delivered: bool) {
    && (action == MonitoringOnly <==> o.decision.level == Low)
    && (action == AlertOperators <==> o.decision.level == Medium)
    && (action == EscalationWithoutRestriction <==> o.decision.level == High && !o.decision.restrictWrites)
    && (action == LockActive <==> Demands(o.decision) && delivered)
    && (action == LockEngaged <==> Delivers(o) && !delivered)
    && (action == LockFailed <==> Demands(o.decision) && !Delivers(o) && !delivered)
  }

  lemma OneAction(locked: bool, o: Order)
    ensures Tells(ActionFor(locked, o.decision, o.outcome), o, locked)
  {
  }

  /** Every reported action says what happened: a lock is reported as engaged by the first
      delivered demand alone, as active by every later demand, and as failed by every demand
      before it that was not delivered. */
  lemma {:induction false} ActionsTell(run: seq<Order>, i: nat)
    requires i < |run|
    ensures Tells(ActionsOf(run)[i], run[i], DeliveredIn(run[..i]))
  {
    var before := run[..|run| - 1];
    if i < |before| {
      ActionsTell(before, i);
      assert before[..i] == run[..i];
    } else {
      LatchMeansDelivered(before);
      OneAction(LatchOf(before), run[i]);
    }
  }

  function Bytes(frames: seq<Frame>): nat {
    if frames == [] then 0 else Bytes(frames[..|frames| - 1]) + |frames[|frames| - 1]|
  }

  /** How many bytes the network would take of the frames demanded. */
  function BytesTaken(run: seq<Order>): nat {
    if run == [] then 0
    else
      var o := run[|run| - 1];
      BytesTaken(run[..|run| - 1])
      + if Demands(o.decision) && o.outcome.Wrote? && 0 < o.outcome.sent then o.outcome.sent else 0
  }

  lemma BytesSnoc(frames: seq<Frame>, f: Frame)
    ensures Bytes(frames + [f]) == Bytes(frames) + |f|
  {
    assert (frames + [f])[..|frames|] == frames;
  }

  lemma OneWrite(locked: bool, o: Order, sent: seq<Frame>)
    ensures Bytes(sent + WireAfter(locked, o.decision, o.outcome))
            == Bytes(sent) + if locked then 0 else BytesTaken([o])
  {
    var wire := WireAfter(locked, o.decision, o.outcome);
    assert BytesTaken([]) == 0 && [o][..0] == [];
    if wire == [] {
      assert sent + wire == sent;
    } else {
      BytesSnoc(sent, wire[0]);
    }
  }

  lemma BytesTakenSnoc(run: seq<Order>, o: Order)
    ensures BytesTaken(run + [o]) == BytesTaken(run) + BytesTaken([o])
  {
    assert (run + [o])[..|run|] == run && [o][..0] == [];
  }

  /** Whatever the network takes of the demands up to and including the first delivered one,
      cut short or not, is what has been sent; nothing else ever is. */
  lemma {:induction false} BytesConserved(run: seq<Order>)
    ensures Bytes(WireOf(run)) == BytesTaken(UpToDelivery(run))
  {
    if run != [] {
      var before, o := run[..|run| - 1], run[|run| - 1];
      assert run == before + [o];
      BytesConserved(before);
      LatchMeansDelivered(before);
      UpToDeliverySnoc(before, o);
      OneWrite(LatchOf(before), o, WireOf(before));
      BytesTakenSnoc(before, o);
      if !LatchOf(before) {
        NothingDelivered(before);
      }
    }
  }
}
