/** The detector and the PLC joined by frames in flight. Any interleaving of packets seen,
    client requests, operator releases and PLC reads is a run. */
module LockProtocol {
  import opened Types
  import opened History
  import opened Reference
  import opened Features
  import opened Maths
  import opened Modbus
  import opened Plc
  import opened Scores
  import opened Enforcement
  import opened Pipeline
  import opened EndToEnd

  /** `inFlight` are frames sent and not yet read, `taken` those the PLC has accepted, and
      `trace` the bytes it managed to read of each. */
  datatype World = World(
    ids: Ids,
    inFlight: seq<Frame>,
    taken: seq<Frame>,
    trace: seq<Frame>,
    writeLocked: bool)

  /** The PLC reads the first `n` bytes of the i-th frame in flight; none at all if the
      connection is lost. */
  datatype Event =
    | Sniff(input: Input)
    | ClientRequest(frame: Frame)
    | OperatorRelease
    | PlcRead(i: nat, n: nat)

  const START := World(FRESH, [], [], [], false)
  /** The frame that releases the safety coil. */
  const RELEASE_FRAME: Frame := FrameOf(Pdu(WRITE_SINGLE_COIL, SAFETY_COIL, COIL_OFF))

  predicate Enabled(w: World, e: Event) {
    e.PlcRead? ==> e.i < |w.inFlight| && e.n <= |w.inFlight[e.i]|
  }

  /** The PLC's lock after it has read `bytes`. */
  predicate LockedBy(locked: bool, bytes: Frame) {
    LockAfter(locked, PduOf(bytes))
  }

  function Sent(judge: Judgement, w: World, input: Input): seq<Frame> {
    var out := Handle(judge, w.ids, input).1;
    if out.Some? then out.value.wire else []
  }

  function Step(judge: Judgement, w: World, e: Event): World
    requires Enabled(w, e)
  {
    match e
    case Sniff(input) =>
      w.(ids := Handle(judge, w.ids, input).0, inFlight := w.inFlight + Sent(judge, w, input))
    case ClientRequest(frame) =>
      w.(inFlight := w.inFlight + [frame])
    case OperatorRelease =>
      w.(inFlight := w.inFlight + [RELEASE_FRAME])
    case PlcRead(i, n) =>
      var bytes := w.inFlight[i][..n];
      World(
        w.ids,
        w.inFlight[..i] + w.inFlight[i + 1..],
        w.taken + [w.inFlight[i]],
        if bytes == [] then w.trace else w.trace + [bytes],
        if bytes == [] then w.writeLocked else LockedBy(w.writeLocked, bytes))
  }

  /** The world after the events of a run; events that are not enabled are skipped. */
  function After(judge: Judgement, w: World, es: seq<Event>): World {
    if es == [] then w
    else
      var before := After(judge, w, es[..|es| - 1]);
      if Enabled(before, es[|es| - 1]) then Step(judge, before, es[|es| - 1]) else before
  }

  /** Clients leave the safety coil to the detector and the operator. */
  predicate Benign(e: Event) {
    e.ClientRequest? ==> !AddressesSafetyCoil(PduOf(e.frame))
  }

  // ----- counting lock frames -----

  predicate EngagingFrame(f: Frame) {
    Engages(PduOf(f))
  }

  predicate ReleasingFrame(f: Frame) {
    Releases(PduOf(f))
  }

  function Count(p: Frame -> bool, frames: seq<Frame>): nat {
    if frames == [] then 0
    else Count(p, frames[..|frames| - 1]) + if p(frames[|frames| - 1]) then 1 else 0
  }

  lemma CountSnoc(p: Frame -> bool, frames: seq<Frame>, f: Frame)
    ensures Count(p, frames + [f]) == Count(p, frames) + if p(f) then 1 else 0
  {
    assert (frames + [f])[..|frames|] == frames;
  }

  lemma {:induction false} CountConcat(p: Frame -> bool, a: seq<Frame>, b: seq<Frame>)
    ensures Count(p, a + b) == Count(p, a) + Count(p, b)
  {
    if b == [] {
      assert a + b == a;
    } else {
      var c, f := b[..|b| - 1], b[|b| - 1];
      CountConcat(p, a, c);
      assert a + b == (a + c) + [f];
      CountSnoc(p, a + c, f);
    }
  }

  lemma CountMiddle(p: Frame -> bool, a: seq<Frame>, f: Frame, b: seq<Frame>)
    ensures Count(p, a + [f] + b) == Count(p, a + b) + if p(f) then 1 else 0
  {
    CountConcat(p, a + [f], b);
    CountConcat(p, a, b);
    CountSnoc(p, a, f);
  }

  lemma CountWithout(p: Frame -> bool, frames: seq<Frame>, i: nat)
    requires i < |frames|
    ensures Count(p, frames) == Count(p, frames[..i] + frames[i + 1..]) + if p(frames[i]) then 1 else 0
  {
    CountMiddle(p, frames[..i], frames[i], frames[i + 1..]);
    assert frames == frames[..i] + [frames[i]] + frames[i + 1..];
  }

  /** How many of `frames` would engage the lock if the PLC read them whole. */
  function Engaging(frames: seq<Frame>): nat {
    Count(EngagingFrame, frames)
  }

  /** What a framed command means to the PLC is what the command says. */
  lemma FramedCommand(p: Pdu)
    ensures EngagingFrame(FrameOf(p)) == Engages(p)
    ensures ReleasingFrame(FrameOf(p)) == Releases(p)
  {
    DecodeInvertsEncode(p);
  }

  lemma LockFrameEngages()
    ensures EngagingFrame(LOCK_FRAME)
  {
    FramedCommand(Pdu(WRITE_SINGLE_COIL, SAFETY_COIL, COIL_ON));
  }

  lemma LockFrameReleasesNothing()
    ensures !ReleasingFrame(LOCK_FRAME)
  {
    FramedCommand(Pdu(WRITE_SINGLE_COIL, SAFETY_COIL, COIL_ON));
  }

  /** The operator's frame is a release. */
  lemma ReleaseFrameReleases()
    ensures ReleasingFrame(RELEASE_FRAME)
  {
    FramedCommand(Pdu(WRITE_SINGLE_COIL, SAFETY_COIL, COIL_OFF));
  }

  lemma ReleaseFrameEngagesNothing()
    ensures !EngagingFrame(RELEASE_FRAME)
  {
    FramedCommand(Pdu(WRITE_SINGLE_COIL, SAFETY_COIL, COIL_OFF));
  }

  lemma ReadEffect(locked: bool, bytes: Frame)
    ensures LockedBy(locked, bytes)
            == if EngagingFrame(bytes) then true else if ReleasingFrame(bytes) then false else locked
  {
  }

  lemma Fragment(f: Frame, n: nat)
    requires n <= |f|
    ensures EngagingFrame(f[..n]) <==> 12 <= n && EngagingFrame(f)
    ensures ReleasingFrame(f[..n]) <==> 12 <= n && ReleasingFrame(f)
  {
    DecodePrefix(f, n);
  }

  lemma PartialSend(frame: Frame, outcome: SendOutcome)
    requires |frame| == 12 && EngagingFrame(frame)
    ensures Engaging(OnWire(frame, outcome)) == if Complete(outcome) then 1 else 0
  {
    if OnWire(frame, outcome) != [] {
      Fragment(frame, outcome.sent);
      CountSnoc(EngagingFrame, [], frame[..outcome.sent]);
      assert OnWire(frame, outcome) == [] + [frame[..outcome.sent]];
    }
  }

  lemma LockSend(outcome: SendOutcome)
    ensures Engaging(OnWire(LOCK_FRAME, outcome)) == if Complete(outcome) then 1 else 0
  {
    LockFrameEngages();
    PartialSend(LOCK_FRAME, outcome);
  }

  /** An attempt puts an engaging frame on the network exactly when it sets the latch. */
  lemma WireEngages(locked: bool, d: Decision, outcome: SendOutcome)
    ensures Engaging(WireAfter(locked, d, outcome)) == if LatchAfter(locked, d, outcome) && !locked then 1 else 0
  {
    LockSend(outcome);
  }

  lemma SentEngages(judge: Judgement, w: World, input: Input)
    ensures var locked := Handle(judge, w.ids, input).0.locked;
            && (w.ids.locked ==> locked)
            && Engaging(Sent(judge, w, input)) == if locked && !w.ids.locked then 1 else 0
  {
    var out := Handle(judge, w.ids, input).1;
    if out.Some? {
      WireEngages(w.ids.locked, out.value.decision, input.outcome);
    }
  }

  // ----- the joint invariant -----

  /** The sender's latch is set exactly when one lock frame is in flight or taken; the PLC's
      lock is what its trace says, and is never on without such a frame having been taken. */
  ghost predicate Inv(w: World) {
    && Engaging(w.inFlight) + Engaging(w.taken) == (if w.ids.locked then 1 else 0)
    && w.writeLocked == LockOf(w.trace)
    && (w.writeLocked ==> Engaging(w.taken) == 1)
  }

  lemma ReadKeepsCount(judge: Judgement, w: World, i: nat, n: nat)
    requires Enabled(w, PlcRead(i, n))
    ensures var w' := Step(judge, w, PlcRead(i, n));
            && Engaging(w'.inFlight) + Engaging(w'.taken) == Engaging(w.inFlight) + Engaging(w.taken)
            && Engaging(w'.taken) == Engaging(w.taken) + if EngagingFrame(w.inFlight[i]) then 1 else 0
  {
    CountWithout(EngagingFrame, w.inFlight, i);
    CountSnoc(EngagingFrame, w.taken, w.inFlight[i]);
  }

  lemma ReadFollowsTrace(judge: Judgement, w: World, i: nat, n: nat)
    requires Enabled(w, PlcRead(i, n)) && w.writeLocked == LockOf(w.trace)
    ensures var w' := Step(judge, w, PlcRead(i, n));
            && w'.writeLocked == LockOf(w'.trace)
            && (w'.writeLocked ==> w.writeLocked || EngagingFrame(w.inFlight[i]))
  {
    var bytes := w.inFlight[i][..n];
    Fragment(w.inFlight[i], n);
    ReadEffect(w.writeLocked, bytes);
    if bytes != [] {
      assert (w.trace + [bytes])[..|w.trace|] == w.trace;
    }
  }

  lemma ReadKeepsInv(judge: Judgement, w: World, i: nat, n: nat)
    requires Inv(w) && Enabled(w, PlcRead(i, n))
    ensures Inv(Step(judge, w, PlcRead(i, n)))
  {
    ReadKeepsCount(judge, w, i, n);
    ReadFollowsTrace(judge, w, i, n);
  }

  lemma StepKeepsInv(judge: Judgement, w: World, e: Event)
    requires Inv(w) && Enabled(w, e) && Benign(e)
    ensures Inv(Step(judge, w, e))
  {
    match e
    case Sniff(input) =>
      SentEngages(judge, w, input);
      CountConcat(EngagingFrame, w.inFlight, Sent(judge, w, input));
    case ClientRequest(frame) =>
      CountSnoc(EngagingFrame, w.inFlight, frame);
    case OperatorRelease =>
      ReleaseFrameEngagesNothing();
      CountSnoc(EngagingFrame, w.inFlight, RELEASE_FRAME);
    case PlcRead(i, n) =>
      ReadKeepsInv(judge, w, i, n);
  }

  lemma {:induction false} AfterKeepsInv(judge: Judgement, w: World, es: seq<Event>)
    requires Inv(w) && forall e | e in es :: Benign(e)
    ensures Inv(After(judge, w, es))
  {
    if es != [] {
      var before, e := es[..|es| - 1], es[|es| - 1];
      AfterKeepsInv(judge, w, before);
      if Enabled(After(judge, w, before), e) {
        StepKeepsInv(judge, After(judge, w, before), e);
      }
    }
  }

  /** In every interleaving the latch counts the lock frames, and a locked PLC implies a
      set latch. */
  lemma LatchAndLock(judge: Judgement, es: seq<Event>)
    requires forall e | e in es :: Benign(e)
    ensures var w := After(judge, START, es);
            && (w.ids.locked <==> Engaging(w.inFlight) + Engaging(w.taken) == 1)
            && (!w.ids.locked <==> Engaging(w.inFlight) + Engaging(w.taken) == 0)
            && (w.writeLocked ==> w.ids.locked)
            && (w.writeLocked <==> exists i :: StandingLock(w.trace, i))
  {
    AfterKeepsInv(judge, START, es);
    LockIsLatestCommand(After(judge, START, es).trace);
  }

  /** A read of fewer than twelve bytes, complete frame or not, leaves the PLC's lock alone. */
  lemma TruncatedReadKeepsLock(judge: Judgement, w: World, i: nat, n: nat)
    requires Enabled(w, PlcRead(i, n)) && n < 12
    ensures Step(judge, w, PlcRead(i, n)).writeLocked == w.writeLocked
  {
    Fragment(w.inFlight[i], n);
  }

  // ----- no frame is lost or made up -----

  /** What one event sends. */
  function SentBy(judge: Judgement, w: World, e: Event): seq<Frame> {
    match e
    case Sniff(input) => Sent(judge, w, input)
    case ClientRequest(frame) => [frame]
    case OperatorRelease => [RELEASE_FRAME]
    case PlcRead(_, _) => []
  }

  /** What the participants send during a run. */
  function SentIn(judge: Judgement, w: World, es: seq<Event>): seq<Frame> {
    if es == [] then []
    else
      var before := es[..|es| - 1];
      SentIn(judge, w, before) + SentBy(judge, After(judge, w, before), es[|es| - 1])
  }

  ghost predicate IsRead(b: Frame, taken: seq<Frame>) {
    b != [] && exists f | f in taken :: b <= f
  }

  /** What the PLC has read so far are non-empty starts of frames it has taken. */
  ghost predicate ReadsTaken(w: World) {
    |w.trace| <= |w.taken| && forall b | b in w.trace :: IsRead(b, w.taken)
  }

  function FramesIn(w: World): multiset<Frame> {
    multiset(w.inFlight) + multiset(w.taken)
  }

  lemma WithoutOne(frames: seq<Frame>, i: nat)
    requires i < |frames|
    ensures multiset(frames) == multiset(frames[..i] + frames[i + 1..]) + multiset{frames[i]}
  {
    assert frames == frames[..i] + [frames[i]] + frames[i + 1..];
  }

  lemma ReadMoves(judge: Judgement, w: World, i: nat, n: nat)
    requires Enabled(w, PlcRead(i, n)) && ReadsTaken(w)
    ensures FramesIn(Step(judge, w, PlcRead(i, n))) == FramesIn(w)
    ensures ReadsTaken(Step(judge, w, PlcRead(i, n)))
  {
    var f, w' := w.inFlight[i], Step(judge, w, PlcRead(i, n));
    WithoutOne(w.inFlight, i);
    assert f in w'.taken && f[..n] <= f;
    forall b | b in w'.trace
      ensures IsRead(b, w'.taken)
    {
      if b in w.trace {
        StillRead(b, w.taken, f);
      }
    }
  }

  lemma StillRead(b: Frame, taken: seq<Frame>, f: Frame)
    requires IsRead(b, taken)
    ensures IsRead(b, taken + [f])
  {
    var g :| g in taken && b <= g;
    assert g in taken + [f];
  }

  lemma SendAdds(judge: Judgement, w: World, e: Event)
    requires Enabled(w, e) && !e.PlcRead?
    ensures FramesIn(Step(judge, w, e)) == FramesIn(w) + multiset(SentBy(judge, w, e))
    ensures ReadsTaken(w) ==> ReadsTaken(Step(judge, w, e))
  {
    assert Step(judge, w, e).inFlight == w.inFlight + SentBy(judge, w, e);
  }

  /** Every frame sent is either in flight or taken, and none is there that was not sent; every
      read is the start of a taken frame. */
  lemma {:induction false} FramesConserved(judge: Judgement, w: World, es: seq<Event>)
    requires ReadsTaken(w)
    ensures ReadsTaken(After(judge, w, es))
    ensures FramesIn(After(judge, w, es)) == FramesIn(w) + multiset(SentIn(judge, w, es))
  {
    if es != [] {
      var before, e := es[..|es| - 1], es[|es| - 1];
      var v := After(judge, w, before);
      FramesConserved(judge, w, before);
      if e.PlcRead? && Enabled(v, e) {
        ReadMoves(judge, v, e.i, e.n);
      } else if !e.PlcRead? {
        SendAdds(judge, v, e);
      }
    }
  }

  // ----- after a release -----

  /** The lock frame is used up and the PLC is unlocked. */
  ghost predicate Spent(w: World) {
    w.ids.locked && Engaging(w.inFlight) == 0 && !w.writeLocked
  }

  lemma SpentStep(judge: Judgement, w: World, e: Event)
    requires Spent(w) && Enabled(w, e) && Benign(e)
    ensures Spent(Step(judge, w, e))
  {
    match e
    case Sniff(input) =>
      SentEngages(judge, w, input);
      CountConcat(EngagingFrame, w.inFlight, Sent(judge, w, input));
    case ClientRequest(frame) =>
      CountSnoc(EngagingFrame, w.inFlight, frame);
    case OperatorRelease =>
      ReleaseFrameEngagesNothing();
      CountSnoc(EngagingFrame, w.inFlight, RELEASE_FRAME);
    case PlcRead(i, n) =>
      CountWithout(EngagingFrame, w.inFlight, i);
      Fragment(w.inFlight[i], n);
      ReadEffect(w.writeLocked, w.inFlight[i][..n]);
  }

  ghost predicate AllBenign(es: seq<Event>) {
    forall e | e in es :: Benign(e)
  }

  /** Once the lock frame is used up and the PLC unlocked, the PLC stays unlocked in every
      continuation: the latch is never cleared and the detector, whatever it sees, never
      sends again. */
  lemma {:induction false} SpentForGood(judge: Judgement, w: World, es: seq<Event>)
    requires Spent(w) && AllBenign(es)
    ensures Spent(After(judge, w, es))
  {
    if es != [] {
      var before, e := es[..|es| - 1], es[|es| - 1];
      SpentForGood(judge, w, before);
      if Enabled(After(judge, w, before), e) {
        SpentStep(judge, After(judge, w, before), e);
      }
    }
  }

  lemma {:induction false} FindEngaging(frames: seq<Frame>) returns (i: nat)
    requires 0 < Engaging(frames)
    ensures i < |frames| && EngagingFrame(frames[i])
  {
    if EngagingFrame(frames[|frames| - 1]) {
      i := |frames| - 1;
    } else {
      i := FindEngaging(frames[..|frames| - 1]);
    }
  }

  lemma EngagingIsWhole(f: Frame)
    requires EngagingFrame(f)
    ensures 12 <= |f|
  {
  }

  lemma EngagingRead(judge: Judgement, w: World, i: nat)
    requires Enabled(w, PlcRead(i, 12)) && EngagingFrame(w.inFlight[i])
    ensures Step(judge, w, PlcRead(i, 12)).writeLocked
  {
    Fragment(w.inFlight[i], 12);
    ReadEffect(w.writeLocked, w.inFlight[i][..12]);
  }

  lemma AfterSnoc(judge: Judgement, w: World, es: seq<Event>, e: Event)
    requires Enabled(After(judge, w, es), e)
    ensures After(judge, w, es + [e]) == Step(judge, After(judge, w, es), e)
  {
    assert (es + [e])[..|es|] == es;
  }

  /** A release is final exactly from a spent world: with the latch set, some continuation
      still locks the PLC if and only if a lock frame is in flight or the PLC is locked. */
  lemma ReleaseIsFinal(judge: Judgement, w: World)
    requires Inv(w) && w.ids.locked
    ensures (exists es :: AllBenign(es) && After(judge, w, es).writeLocked) <==> !Spent(w)
  {
    if Spent(w) {
      forall es | AllBenign(es)
        ensures !After(judge, w, es).writeLocked
      {
        SpentForGood(judge, w, es);
      }
    } else if w.writeLocked {
      assert AllBenign([]) && After(judge, w, []) == w;
    } else {
      var i := FindEngaging(w.inFlight);
      EngagingIsWhole(w.inFlight[i]);
      EngagingRead(judge, w, i);
      AfterSnoc(judge, w, [], PlcRead(i, 12));
      assert AllBenign([] + [PlcRead(i, 12)]);
    }
  }

  /** A release that the PLC reads whole, with no lock frame left in flight, uses the latch
      up for good. */
  lemma ReleaseSpendsLatch(judge: Judgement, w: World, i: nat)
    requires Inv(w) && w.ids.locked && Engaging(w.inFlight) == 0
    requires Enabled(w, PlcRead(i, 12)) && ReleasingFrame(w.inFlight[i])
    ensures Spent(Step(judge, w, PlcRead(i, 12)))
  {
    CountWithout(EngagingFrame, w.inFlight, i);
    Fragment(w.inFlight[i], 12);
    ReadEffect(w.writeLocked, w.inFlight[i][..12]);
  }

  // ----- while nobody releases -----

  ghost predicate NoRelease(frames: seq<Frame>) {
    forall f | f in frames :: !ReleasingFrame(f)
  }

  ghost predicate Holding(w: World) {
    w.writeLocked && NoRelease(w.inFlight)
  }

  lemma PartialSendKeeps(frame: Frame, outcome: SendOutcome)
    requires |frame| == 12 && !ReleasingFrame(frame)
    ensures NoRelease(OnWire(frame, outcome))
  {
    if OnWire(frame, outcome) != [] {
      Fragment(frame, outcome.sent);
    }
  }

  lemma LockSendReleasesNothing(outcome: SendOutcome)
    ensures NoRelease(OnWire(LOCK_FRAME, outcome))
  {
    LockFrameReleasesNothing();
    PartialSendKeeps(LOCK_FRAME, outcome);
  }

  lemma WireNeverReleases(locked: bool, d: Decision, outcome: SendOutcome)
    ensures NoRelease(WireAfter(locked, d, outcome))
  {
    LockSendReleasesNothing(outcome);
  }

  lemma SentNeverReleases(judge: Judgement, w: World, input: Input)
    ensures NoRelease(Sent(judge, w, input))
  {
    var out := Handle(judge, w.ids, input).1;
    if out.Some? {
      WireNeverReleases(w.ids.locked, out.value.decision, input.outcome);
    }
  }

  lemma HoldingStep(judge: Judgement, w: World, e: Event)
    requires Holding(w) && Enabled(w, e) && Benign(e) && e != OperatorRelease
    ensures Holding(Step(judge, w, e))
  {
    match e
    case Sniff(input) =>
      SentNeverReleases(judge, w, input);
    case ClientRequest(frame) =>
    case PlcRead(i, n) =>
      Fragment(w.inFlight[i], n);
  }

  lemma {:induction false} LockHolds(judge: Judgement, w: World, es: seq<Event>)
    requires Holding(w) && forall e | e in es :: Benign(e) && e != OperatorRelease
    ensures Holding(After(judge, w, es))
  {
    if es != [] {
      var before, e := es[..|es| - 1], es[|es| - 1];
      LockHolds(judge, w, before);
      if Enabled(After(judge, w, before), e) {
        HoldingStep(judge, After(judge, w, before), e);
      }
    }
  }

  lemma LockFrameRead(judge: Judgement, w: World, i: nat)
    requires Enabled(w, PlcRead(i, 12)) && EngagingFrame(w.inFlight[i]) && NoRelease(w.inFlight)
    ensures Holding(Step(judge, w, PlcRead(i, 12)))
  {
    Fragment(w.inFlight[i], 12);
    ReadEffect(w.writeLocked, w.inFlight[i][..12]);
  }

  /** A packet that completes a write-heavy window before any lock frame was sent, with a
      network that takes the frame. */
  ghost predicate Attack(judge: Judgement, s: Ids, input: Input) {
    var out := Handle(judge, s, input).1;
    !s.locked && Complete(input.outcome) && out.Some? && WriteHeavy(out.value.window)
  }

  /** A write-heavy window puts the complete lock frame in flight and sets the latch. */
  lemma AttackSendsLock(judge: Judgement, lib: Library, w: World, input: Input)
    requires Lawful(lib) && Judges(judge, lib) && Attack(judge, w.ids, input)
    ensures Step(judge, w, Sniff(input)).inFlight == w.inFlight + [LOCK_FRAME]
    ensures Step(judge, w, Sniff(input)).ids.locked
  {
    WriteHeavyWindowLocks(judge, lib, w.ids, input);
    WholeSend(input.outcome);
  }

  lemma WholeSend(outcome: SendOutcome)
    requires Complete(outcome)
    ensures OnWire(LOCK_FRAME, outcome) == [LOCK_FRAME]
  {
    assert LOCK_FRAME[..12] == LOCK_FRAME;
  }

  /** From traffic to refused writes. A packet completes a window a third of which is writes
      and the network takes the lock frame. Then exactly one engaging frame is on its way or
      taken; and if the PLC reads it whole with no release in flight, every write request is
      refused from then on until an operator releases the lock. */
  lemma {:induction false} AttackIsContained(judge: Judgement, lib: Library, w: World, input: Input,
                          es: seq<Event>, i: nat, later: seq<Event>, p: Pdu)
    requires Lawful(lib) && Judges(judge, lib) && Inv(w) && Attack(judge, w.ids, input) && AllBenign(es)
    requires forall e | e in later :: Benign(e) && e != OperatorRelease
    requires Refused(p)
    ensures var hit := After(judge, Step(judge, w, Sniff(input)), es);
            && hit.ids.locked && Engaging(hit.inFlight) + Engaging(hit.taken) == 1
            && (Enabled(hit, PlcRead(i, 12)) && EngagingFrame(hit.inFlight[i]) && NoRelease(hit.inFlight) ==>
                  var end := After(judge, Step(judge, hit, PlcRead(i, 12)), later);
                  ReplyTo(end.writeLocked, p) == ExceptionOf(p.code, ILLEGAL_FUNCTION))
  {
    var hit := After(judge, Step(judge, w, Sniff(input)), es);
    LockUnderWay(judge, lib, w, input, es);
    if Enabled(hit, PlcRead(i, 12)) && EngagingFrame(hit.inFlight[i]) && NoRelease(hit.inFlight) {
      RefusedFromThen(judge, hit, i, later, p);
    }
  }

  lemma LockUnderWay(judge: Judgement, lib: Library, w: World, input: Input, es: seq<Event>)
    requires Lawful(lib) && Judges(judge, lib) && Inv(w) && Attack(judge, w.ids, input) && AllBenign(es)
    ensures var hit := After(judge, Step(judge, w, Sniff(input)), es);
            hit.ids.locked && Engaging(hit.inFlight) + Engaging(hit.taken) == 1
  {
    var sent := Step(judge, w, Sniff(input));
    AttackSendsLock(judge, lib, w, input);
    StepKeepsInv(judge, w, Sniff(input));
    AfterKeepsInv(judge, sent, es);
    LatchStays(judge, sent, es);
  }

  lemma RefusedFromThen(judge: Judgement, hit: World, i: nat, later: seq<Event>, p: Pdu)
    requires Enabled(hit, PlcRead(i, 12)) && EngagingFrame(hit.inFlight[i]) && NoRelease(hit.inFlight)
    requires forall e | e in later :: Benign(e) && e != OperatorRelease
    requires Refused(p)
    ensures ReplyTo(After(judge, Step(judge, hit, PlcRead(i, 12)), later).writeLocked, p)
            == ExceptionOf(p.code, ILLEGAL_FUNCTION)
  {
    LockFrameRead(judge, hit, i);
    LockHolds(judge, Step(judge, hit, PlcRead(i, 12)), later);
  }

  lemma {:induction false} LatchStays(judge: Judgement, w: World, es: seq<Event>)
    requires w.ids.locked
    ensures After(judge, w, es).ids.locked
  {
    if es != [] {
      var before, e := es[..|es| - 1], es[|es| - 1];
      LatchStays(judge, w, before);
      var v := After(judge, w, before);
      if Enabled(v, e) && e.Sniff? {
        SentEngages(judge, v, e.input);
      }
    }
  }

  // ----- a run that locks, is released, and is spent -----

  function WriteAt(t: Time): Record {
    Record(t, "Modbus", true, true, 6, 0)
  }

  const FIRST_WRITE := Sniff(Input(Some(WriteAt(0)), NoSocket))
  const SECOND_INPUT := Input(Some(WriteAt(GRID.size)), Wrote(12))
  const SECOND_WRITE := Sniff(SECOND_INPUT)

  /** Two writes five seconds apart, the lock frame read, and a release sent and read. */
  const LOCKING_RUN: seq<Event> := [FIRST_WRITE, SECOND_WRITE, PlcRead(0, 12)]
  const RELEASED_RUN: seq<Event> := LOCKING_RUN + [OperatorRelease, PlcRead(0, 12)]

  /** The detector after the first write: one record, nothing judged. */
  const AFTER_FIRST := Ids(Log([WriteAt(0)], 0, 0), false, false)

  lemma FirstWrite(judge: Judgement)
    ensures Step(judge, START, FIRST_WRITE) == START.(ids := AFTER_FIRST)
  {
    assert Grow(EMPTY, WriteAt(0)).accepted == [WriteAt(0)];
    assert Judged(EMPTY, WriteAt(0)) == None;
    assert START.inFlight + [] == START.inFlight;
  }

  lemma BothWithin(a: Record, b: Record, lo: Time, hi: Time)
    requires Within(a, lo, hi) && Within(b, lo, hi)
    ensures Between([a, b], lo, hi) == [a, b]
  {
    BetweenAll([a, b], lo, hi);
  }

  lemma TwoWrites(a: Record, b: Record)
    requires a.isWrite && b.isWrite
    ensures Writes([a, b]) == 2
  {
    assert WriteFlags([a, b]) == [true, true];
  }

  /** The second write completes the first window, which holds the two writes. */
  lemma SecondWindow()
    ensures Judged(AFTER_FIRST.log, WriteAt(GRID.size)).Some?
    ensures WriteHeavy(Judged(AFTER_FIRST.log, WriteAt(GRID.size)).value)
  {
    var a, b := WriteAt(0), WriteAt(GRID.size);
    assert Grow(AFTER_FIRST.log, b).accepted == [a, b];
    BothWithin(a, b, 0, GRID.size);
    TwoWrites(a, b);
  }

  lemma SecondWrite(judge: Judgement, lib: Library)
    requires Lawful(lib) && Judges(judge, lib)
    ensures var w := Step(judge, START.(ids := AFTER_FIRST), SECOND_WRITE);
            Inv(w) && w.ids.locked && w.inFlight == [LOCK_FRAME]
  {
    var w := START.(ids := AFTER_FIRST);
    SecondWindow();
    AttackSendsLock(judge, lib, w, SECOND_INPUT);
    StepKeepsInv(judge, w, SECOND_WRITE);
  }

  lemma OnlyFrameRead(judge: Judgement, w: World, f: Frame)
    requires Inv(w) && w.inFlight == [f] && 12 <= |f|
    ensures var w' := Step(judge, w, PlcRead(0, 12));
            Inv(w') && w'.inFlight == [] && w'.ids == w.ids && w'.writeLocked == LockedBy(w.writeLocked, f[..12])
  {
    ReadKeepsInv(judge, w, 0, 12);
  }

  lemma EngagingTaken(judge: Judgement, w: World, f: Frame)
    requires Inv(w) && w.inFlight == [f] && EngagingFrame(f)
    ensures Enabled(w, PlcRead(0, 12))
    ensures var w' := Step(judge, w, PlcRead(0, 12));
            Inv(w') && w'.inFlight == [] && w'.ids == w.ids && w'.writeLocked
  {
    EngagingIsWhole(f);
    OnlyFrameRead(judge, w, f);
    EngagingRead(judge, w, 0);
  }

  lemma LockFrameTaken(judge: Judgement, w: World)
    requires Inv(w) && w.inFlight == [LOCK_FRAME]
    ensures Enabled(w, PlcRead(0, 12))
    ensures var w' := Step(judge, w, PlcRead(0, 12));
            Inv(w') && w'.inFlight == [] && w'.ids == w.ids && w'.writeLocked
  {
    LockFrameEngages();
    EngagingTaken(judge, w, LOCK_FRAME);
  }

  lemma ReleaseTaken(judge: Judgement, w: World, f: Frame)
    requires Inv(w) && w.ids.locked && w.inFlight == [f] && ReleasingFrame(f)
    ensures Enabled(w, PlcRead(0, 12)) && Spent(Step(judge, w, PlcRead(0, 12)))
  {
    CountSnoc(EngagingFrame, [], f);
    assert w.inFlight == [] + [f];
    ReleasingIsWhole(f);
    ReleaseSpendsLatch(judge, w, 0);
  }

  lemma ReleasingIsWhole(f: Frame)
    requires ReleasingFrame(f)
    ensures 12 <= |f|
  {
  }

  lemma ThreeSteps(judge: Judgement, w: World, e1: Event, e2: Event, e3: Event)
    requires Enabled(w, e1)
    requires Enabled(Step(judge, w, e1), e2)
    requires Enabled(Step(judge, Step(judge, w, e1), e2), e3)
    ensures After(judge, w, [e1, e2, e3]) == Step(judge, Step(judge, Step(judge, w, e1), e2), e3)
  {
    assert [] + [e1] == [e1] && [e1] + [e2] == [e1, e2] && [e1, e2] + [e3] == [e1, e2, e3];
    AfterSnoc(judge, w, [], e1);
    AfterSnoc(judge, w, [e1], e2);
    AfterSnoc(judge, w, [e1, e2], e3);
  }

  /** From the start, two writes five seconds apart and one read lock the PLC. */
  lemma LockIsReachable(judge: Judgement, lib: Library)
    requires Lawful(lib) && Judges(judge, lib)
    ensures var w := After(judge, START, LOCKING_RUN);
            Inv(w) && w.ids.locked && w.writeLocked && w.inFlight == []
  {
    FirstWrite(judge);
    SecondWrite(judge, lib);
    var w := Step(judge, START.(ids := AFTER_FIRST), SECOND_WRITE);
    LockFrameTaken(judge, w);
    ThreeSteps(judge, START, FIRST_WRITE, SECOND_WRITE, PlcRead(0, 12));
  }

  lemma ReleaseInFlight(judge: Judgement, w: World)
    requires Inv(w) && w.inFlight == []
    ensures var w' := Step(judge, w, OperatorRelease);
            Inv(w') && w'.ids == w.ids && w'.inFlight == [RELEASE_FRAME]
  {
    StepKeepsInv(judge, w, OperatorRelease);
  }

  lemma ReleaseFrameTaken(judge: Judgement, w: World)
    requires Inv(w) && w.ids.locked && w.inFlight == [RELEASE_FRAME]
    ensures Enabled(w, PlcRead(0, 12)) && Spent(Step(judge, w, PlcRead(0, 12)))
  {
    ReleaseFrameReleases();
    ReleaseTaken(judge, w, RELEASE_FRAME);
  }

  lemma TwoMore(judge: Judgement, w: World, es: seq<Event>, e1: Event, e2: Event)
    requires Enabled(After(judge, w, es), e1) && Enabled(Step(judge, After(judge, w, es), e1), e2)
    ensures After(judge, w, es + [e1, e2]) == Step(judge, Step(judge, After(judge, w, es), e1), e2)
  {
    assert es + [e1] + [e2] == es + [e1, e2];
    AfterSnoc(judge, w, es, e1);
    AfterSnoc(judge, w, es + [e1], e2);
  }

  /** A release sent and read after that leaves a spent world: the latch is set, the PLC
      unlocked, and nothing can lock it again. */
  lemma SpentIsReachable(judge: Judgement, lib: Library)
    requires Lawful(lib) && Judges(judge, lib)
    ensures Spent(After(judge, START, RELEASED_RUN))
  {
    LockIsReachable(judge, lib);
    var locked := After(judge, START, LOCKING_RUN);
    ReleaseInFlight(judge, locked);
    ReleaseFrameTaken(judge, Step(judge, locked, OperatorRelease));
    TwoMore(judge, START, LOCKING_RUN, OperatorRelease, PlcRead(0, 12));
  }

  lemma ReachingRunsAreBenign()
    ensures AllBenign(LOCKING_RUN) && AllBenign(RELEASED_RUN)
  {
  }
}
