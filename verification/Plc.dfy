/** The simulated Modbus PLC: one request per connection, and a lock that an operator
    can release. */
module Plc {
  import opened Types
  import opened Modbus

  const READ_BUFFER := 256

  predicate AddressesSafetyCoil(p: Pdu) {
    p.address == SAFETY_COIL && p.code == WRITE_SINGLE_COIL
  }

  predicate Engages(p: Pdu) {
    AddressesSafetyCoil(p) && p.value == COIL_ON
  }

  predicate Releases(p: Pdu) {
    AddressesSafetyCoil(p) && p.value == COIL_OFF
  }

  predicate LockAfter(locked: bool, p: Pdu) {
    if Engages(p) then true else if Releases(p) then false else locked
  }

  /** Requests a locked PLC refuses. */
  predicate Refused(p: Pdu) {
    IsWriteCode(p.code) && !AddressesSafetyCoil(p)
  }

  function ReplyTo(locked: bool, p: Pdu): Frame {
    if locked && Refused(p) then ExceptionOf(p.code, ILLEGAL_FUNCTION) else FrameOf(p)
  }

  class Server {
    var writeLocked: bool

    constructor ()
      ensures !writeLocked
    {
      writeLocked := false;
    }

    /** One accepted connection on which `arrived` bytes can be read. */
    method Serve(arrived: Frame) returns (reply: Option<Frame>)
      modifies this
      ensures arrived == [] ==> reply == None && writeLocked == old(writeLocked)
      ensures arrived != [] ==> writeLocked == LockAfter(old(writeLocked), PduOf(arrived))
      ensures arrived != [] ==> reply == Some(ReplyTo(old(writeLocked), PduOf(arrived)))
    {
      var v := if READ_BUFFER < |arrived| then arrived[..READ_BUFFER] else arrived;
      if |v| == 0 {
        return None;
      }
      var p := DecodeMbapPdu(v);
      if p.address == 0xFFFF && p.code == 5 {
        if p.value == 0xFF00 {
          writeLocked := true;
        } else if p.value == 0x0000 {
          writeLocked := false;
        }
        var response := EncodeMbapPdu(p);
        reply := Some(response);
      } else if writeLocked && IsWriteCode(p.code) {
        var exception := EncodeException(p.code, 0x01);
        reply := Some(exception);
      } else {
        var response := EncodeMbapPdu(p);
        reply := Some(response);
      }
    }
  }

  // ----- whole traces of processed reads -----

  /** The lock after the PLC has processed the reads in `trace`, from power-on. */
  function LockOf(trace: seq<Frame>): bool {
    trace != [] && LockAfter(LockOf(trace[..|trace| - 1]), PduOf(trace[|trace| - 1]))
  }

  /** The twelve bytes or more that write 0xFF00 to coil 0xFFFF. */
  predicate EngageBytes(b: Frame) {
    12 <= |b| && b[7..12] == [0x05, 0xFF, 0xFF, 0xFF, 0x00]
  }

  /** ... and those that write 0x0000. */
  predicate ReleaseBytes(b: Frame) {
    12 <= |b| && b[7..12] == [0x05, 0xFF, 0xFF, 0x00, 0x00]
  }

  lemma CommandBytes(b: Frame)
    ensures Engages(PduOf(b)) <==> EngageBytes(b)
    ensures Releases(PduOf(b)) <==> ReleaseBytes(b)
  {
    if 12 <= |b| {
      assert b[7..12] == [b[7], b[8], b[9], b[10], b[11]];
    }
  }

  /** The i-th read engages the lock and no later one releases it. */
  ghost predicate StandingLock(trace: seq<Frame>, i: nat) {
    && i < |trace| && EngageBytes(trace[i])
    && forall j | i < j < |trace| :: !ReleaseBytes(trace[j])
  }

  /** The lock is whatever the latest command to the safety coil made it. */
  lemma {:induction false} LockIsLatestCommand(trace: seq<Frame>)
    ensures LockOf(trace) <==> exists i :: StandingLock(trace, i)
  {
    if trace != [] {
      var n := |trace| - 1;
      var before := trace[..n];
      LockIsLatestCommand(before);
      CommandBytes(trace[n]);
      forall i: nat | i < n
        ensures StandingLock(trace, i) <==> StandingLock(before, i) && !ReleaseBytes(trace[n])
      {
        assert forall j | 0 <= j < n :: before[j] == trace[j];
      }
      if EngageBytes(trace[n]) {
        assert StandingLock(trace, n);
      } else if LockOf(trace) {
        var i :| StandingLock(before, i);
        assert StandingLock(trace, i);
      }
    }
  }

  /** A write other than one to coil 0xFFFF. */
  predicate PlainWrite(b: Frame) {
    12 <= |b| && b[7] in {5, 6, 15, 16} && b[7..10] != [0x05, 0xFF, 0xFF]
  }

  lemma PlainWriteIsRefused(b: Frame)
    ensures Refused(PduOf(b)) <==> PlainWrite(b)
  {
    if 12 <= |b| {
      assert b[7..10] == [b[7], b[8], b[9]];
    }
  }

  /** What a reply is, byte for byte. */
  lemma ReplyBytes(locked: bool, b: Frame)
    ensures ReplyTo(locked, PduOf(b))
            == if locked && PlainWrite(b) then [0, 1, 0, 0, 0, 3, 1, b[7] + 0x80, 1]
               else if 12 <= |b| then [0, 1, 0, 0, 0, 6, 1] + b[7..12]
               else [0, 1, 0, 0, 0, 6, 1, 0, 0, 0, 0, 0]
  {
    PlainWriteIsRefused(b);
    if 12 <= |b| {
      EncodeNormalises(b);
    }
  }

  /** Over any trace, and for whatever bytes are read next, the reply is the nine-byte exception
      if they are a write other than one to the safety coil and a lock is standing, their own
      echo otherwise, and the echo of zeros if they are too few. */
  lemma RepliesFollowTrace(trace: seq<Frame>, b: Frame)
    ensures var reply := ReplyTo(LockOf(trace), PduOf(b));
            reply == if PlainWrite(b) && exists i :: StandingLock(trace, i)
                     then [0, 1, 0, 0, 0, 3, 1, b[7] + 0x80, 1]
                     else [0, 1, 0, 0, 0, 6, 1] + if 12 <= |b| then b[7..12] else [0, 0, 0, 0, 0]
  {
    LockIsLatestCommand(trace);
    ReplyBytes(LockOf(trace), b);
  }
}
