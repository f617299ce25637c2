/** The detector: one packet through parser, window, features, scores, alarm and enforcer,
    and the two loops of the main program that feed it. */
module Pipeline {
  import opened Types
  import opened History
  import opened Reference
  import opened Windowing
  import opened Maths
  import opened Features
  import opened Risk
  import opened Scores
  import opened Parsers
  import opened Enforcement

  const WINDOW_MILLIS := 5000
  const STEP_MILLIS := 1000
  const GRID := Grid(WINDOW_MILLIS * NANOS_PER_MILLI, STEP_MILLIS * NANOS_PER_MILLI)

  /** A captured packet, and what the network would do to a send attempted while it is handled. */
  datatype Arrival = Arrival(packet: Packet, outcome: SendOutcome)

  /** What is left of an arrival once its packet has been parsed. */
  datatype Input = Input(record: Option<Record>, outcome: SendOutcome)

  function InputOf(a: Arrival): Input {
    Input(Admit(a.packet), a.outcome)
  }

  function Inputs(arrivals: seq<Arrival>): seq<Input> {
    seq(|arrivals|, i requires 0 <= i < |arrivals| => InputOf(arrivals[i]))
  }

  lemma InputsSnoc(arrivals: seq<Arrival>, a: Arrival)
    ensures Inputs(arrivals + [a]) == Inputs(arrivals) + [InputOf(a)]
  {
  }

  /** What the detector remembers between packets. */
  datatype Ids = Ids(log: Log, on: bool, locked: bool)

  /** What it concludes from one non-empty window. */
  datatype Verdict = Verdict(
    window: Window,
    decision: Decision,
    action: Action,
    attempts: nat,
    wire: seq<Frame>)

  const FRESH := Ids(EMPTY, false, false)

  /** The non-empty window that a record makes the detector judge, if any. */
  function Judged(l: Log, r: Record): Option<Window> {
    var out := Emission(GRID, l, r);
    if out.Some? && out.value.records == [] then None else out
  }

  function VerdictOn(judge: Judgement, s: Ids, w: Window, outcome: SendOutcome): Verdict {
    var p := judge(w.records);
    var d := Decide(NextOn(s.on, p), p);
    Verdict(
      w,
      d,
      ActionFor(s.locked, d, outcome),
      AttemptsFor(s.locked, d),
      WireAfter(s.locked, d, outcome))
  }

  /** What one admitted record does. */
  function Consume(judge: Judgement, s: Ids, r: Record, outcome: SendOutcome): (Ids, Option<Verdict>) {
    var log := Observe(GRID, s.log, r);
    match Judged(s.log, r)
    case None => (s.(log := log), None)
    case Some(w) =>
      var v := VerdictOn(judge, s, w, outcome);
      (Ids(log, NextOn(s.on, judge(w.records)), LatchAfter(s.locked, v.decision, outcome)), Some(v))
  }

  /** What one packet does. */
  function Handle(judge: Judgement, s: Ids, input: Input): (Ids, Option<Verdict>) {
    match input.record
    case None => (s, None)
    case Some(r) => Consume(judge, s, r, input.outcome)
  }

  function RunIds(judge: Judgement, s: Ids, inputs: seq<Input>): Ids {
    if inputs == [] then s
    else Handle(judge, RunIds(judge, s, inputs[..|inputs| - 1]), inputs[|inputs| - 1]).0
  }

  function Append(vs: seq<Verdict>, out: Option<Verdict>): seq<Verdict> {
    if out.Some? then vs + [out.value] else vs
  }

  function Verdicts(judge: Judgement, s: Ids, inputs: seq<Input>): seq<Verdict> {
    if inputs == [] then []
    else
      var before := inputs[..|inputs| - 1];
      Append(Verdicts(judge, s, before), Handle(judge, RunIds(judge, s, before), inputs[|inputs| - 1]).1)
  }

  lemma RunSnoc(judge: Judgement, s: Ids, before: seq<Input>, input: Input)
    ensures RunIds(judge, s, before + [input]) == Handle(judge, RunIds(judge, s, before), input).0
    ensures Verdicts(judge, s, before + [input])
            == Append(Verdicts(judge, s, before), Handle(judge, RunIds(judge, s, before), input).1)
  {
    assert (before + [input])[..|before|] == before;
  }

  /** Running two batches one after the other is running them as one. */
  lemma {:induction false} RunConcat(judge: Judgement, s: Ids, a: seq<Input>, b: seq<Input>)
    ensures RunIds(judge, s, a + b) == RunIds(judge, RunIds(judge, s, a), b)
  {
    if b == [] {
      assert a + b == a;
    } else {
      var c, last := b[..|b| - 1], b[|b| - 1];
      RunConcat(judge, s, a, c);
      assert a + b == (a + c) + [last];
      RunSnoc(judge, s, a + c, last);
    }
  }

  lemma {:induction false} VerdictsConcat(judge: Judgement, s: Ids, a: seq<Input>, b: seq<Input>)
    ensures Verdicts(judge, s, a + b) == Verdicts(judge, s, a) + Verdicts(judge, RunIds(judge, s, a), b)
  {
    if b == [] {
      assert a + b == a;
    } else {
      var c, last := b[..|b| - 1], b[|b| - 1];
      VerdictsConcat(judge, s, a, c);
      RunConcat(judge, s, a, c);
      assert a + b == (a + c) + [last];
      RunSnoc(judge, s, a + c, last);
      var s' := RunIds(judge, s, a);
      AppendConcat(Verdicts(judge, s, a), Verdicts(judge, s', c), Handle(judge, RunIds(judge, s', c), last).1);
    }
  }

  lemma AppendConcat(x: seq<Verdict>, y: seq<Verdict>, out: Option<Verdict>)
    ensures Append(x + y, out) == x + Append(y, out)
  {
  }

  lemma InputsConcat(a: seq<Arrival>, b: seq<Arrival>)
    ensures Inputs(a + b) == Inputs(a) + Inputs(b)
  {
  }

  lemma BatchRun(judge: Judgement, s: Ids, a: seq<Arrival>, b: seq<Arrival>)
    ensures RunIds(judge, s, Inputs(a + b)) == RunIds(judge, RunIds(judge, s, Inputs(a)), Inputs(b))
  {
    InputsConcat(a, b);
    RunConcat(judge, s, Inputs(a), Inputs(b));
  }

  lemma BatchVerdicts(judge: Judgement, s: Ids, a: seq<Arrival>, b: seq<Arrival>)
    ensures Verdicts(judge, s, Inputs(a + b))
            == Verdicts(judge, s, Inputs(a)) + Verdicts(judge, RunIds(judge, s, Inputs(a)), Inputs(b))
  {
    InputsConcat(a, b);
    VerdictsConcat(judge, s, Inputs(a), Inputs(b));
  }

  lemma HandOver(done: seq<Arrival>, waiting: seq<Arrival>, n: nat)
    requires n <= |waiting|
    ensures (done + waiting[..n]) + waiting[n..] == done + waiting
  {
  }

  /** What the drain loop counts: every packet except one its parser drops and one that
      makes an empty window. */
  function Counted(l: Log, p: Packet): nat {
    if ClassifyProtocol(p) == Unknown then 1
    else match Admit(p)
      case None => 0
      case Some(r) => if Emission(GRID, l, r).Some? && Judged(l, r) == None then 0 else 1
  }

  function CountedIn(judge: Judgement, s: Ids, arrivals: seq<Arrival>): nat {
    if arrivals == [] then 0
    else
      var before := arrivals[..|arrivals| - 1];
      CountedIn(judge, s, before) + Counted(RunIds(judge, s, Inputs(before)).log, arrivals[|arrivals| - 1].packet)
  }

  lemma CountedSnoc(judge: Judgement, s: Ids, before: seq<Arrival>, a: Arrival)
    ensures CountedIn(judge, s, before + [a])
            == CountedIn(judge, s, before) + Counted(RunIds(judge, s, Inputs(before)).log, a.packet)
  {
    assert (before + [a])[..|before|] == before;
  }

  const MAX_DRAIN := 1024
  const NO_WINDOW := Window(0, 0, [])

  class Detector {
    const lib: Library
    const windowManager: WindowManager
    const extractor: FeatureExtractor
    const riskModel: RiskModel
    const enforcer: EnforcementEngine
    ghost const judge: Judgement

    ghost predicate Valid()
      reads windowManager
    {
      && Lawful(lib) && Judges(judge, lib) && extractor.lib == lib && riskModel.exp == lib.exp
      && windowManager.grid == GRID && windowManager.Valid()
    }

    ghost function State(): Ids
      reads windowManager, riskModel, enforcer
    {
      Ids(windowManager.log, riskModel.isOn, enforcer.locked)
    }

    constructor (lib: Library)
      requires Lawful(lib)
      ensures Valid() && this.lib == lib && State() == FRESH
      ensures fresh(windowManager) && fresh(riskModel) && fresh(enforcer)
    {
      this.lib := lib;
      judge := rs => ProbabilityOf(lib, rs);
      windowManager := new WindowManager(WINDOW_MILLIS, STEP_MILLIS);
      extractor := new FeatureExtractor(lib);
      riskModel := new RiskModel(lib.exp);
      enforcer := new EnforcementEngine();
    }

    /** Features, scores, alarm and enforcement for one non-empty window. */
    method Judge(window: Window, outcome: SendOutcome) returns (verdict: Verdict)
      requires Valid()
      modifies riskModel, enforcer
      ensures Valid() && windowManager.log == old(windowManager.log)
      ensures verdict == VerdictOn(judge, old(State()), window, outcome)
      ensures riskModel.isOn == NextOn(old(riskModel.isOn), judge(window.records))
      ensures enforcer.locked == LatchAfter(old(enforcer.locked), verdict.decision, outcome)
    {
      var fv := extractor.Compute(window);
      assert fv == FeatureVector(FeaturesOf(lib, window.records));
      assert judge(window.records) == Probability(lib.exp, DetectionOf(lib, window.records));
      var hstScore := HstScore(fv);
      var burstScore := BurstScore(fv);
      var detection := riskModel.Fuse(hstScore, burstScore);
      var decision := riskModel.Evaluate(detection);
      var action, attempts, wire := enforcer.Apply(decision, outcome);
      verdict := Verdict(window, decision, action, attempts, wire);
    }

    /** The part of both loop bodies that starts at the window manager. `emitted` says
        whether a window was cut, empty or not. */
    method Feed(record: Record, outcome: SendOutcome, outWindow: Window)
      returns (emitted: bool, window: Window, verdict: Option<Verdict>)
      requires Valid()
      modifies windowManager, riskModel, enforcer
      ensures Valid()
      ensures (State(), verdict) == Consume(judge, old(State()), record, outcome)
      ensures emitted == Emission(GRID, old(windowManager.log), record).Some?
    {
      verdict := None;
      emitted, window := windowManager.AddRecord(record, outWindow);
      if emitted && window.records != [] {
        var v := Judge(window, outcome);
        verdict := Some(v);
      }
    }

    /** The body of the drain loop: what one packet does, and whether the loop counts it. */
    method DrainPacket(a: Arrival, outWindow: Window) returns (window: Window, verdict: Option<Verdict>, counted: nat)
      requires Valid()
      modifies windowManager, riskModel, enforcer
      ensures Valid()
      ensures (State(), verdict) == Handle(judge, old(State()), InputOf(a))
      ensures counted == Counted(old(windowManager.log), a.packet)
    {
      window, verdict, counted := outWindow, None, 0;
      var proto := ClassifyProtocol(a.packet);
      if proto == Unknown {
        counted := 1;
        return;
      }
      var record := ParseAs(proto, a.packet);
      if Dropped(record) {
        return;
      }
      var emitted;
      emitted, window, verdict := Feed(record, a.outcome, window);
      if !emitted || verdict.Some? {
        counted := 1;
      }
    }

    /** The body of the fallback loop, which counts nothing. */
    method FallbackPacket(a: Arrival, outWindow: Window) returns (window: Window, verdict: Option<Verdict>)
      requires Valid()
      modifies windowManager, riskModel, enforcer
      ensures Valid()
      ensures (State(), verdict) == Handle(judge, old(State()), InputOf(a))
    {
      window, verdict := outWindow, None;
      var proto := ClassifyProtocol(a.packet);
      if proto == Unknown {
        return;
      }
      var record := ParseAs(proto, a.packet);
      if Dropped(record) {
        return;
      }
      var emitted;
      emitted, window, verdict := Feed(record, a.outcome, window);
    }

    /** One wake-up: drains until 1024 packets are counted or none is waiting. */
    method DrainLoop(waiting: seq<Arrival>, outWindow: Window)
      returns (rest: seq<Arrival>, window: Window, verdicts: seq<Verdict>, ghost n: nat)
      requires Valid()
      modifies windowManager, riskModel, enforcer
      ensures Valid() && n <= |waiting| && rest == waiting[n..] && (waiting != [] ==> 0 < n)
      ensures State() == RunIds(judge, old(State()), Inputs(waiting[..n]))
      ensures verdicts == Verdicts(judge, old(State()), Inputs(waiting[..n]))
      ensures CountedIn(judge, old(State()), waiting[..n]) <= 1024
      ensures rest != [] ==> CountedIn(judge, old(State()), waiting[..n]) == 1024
    {
      rest, window, verdicts, n := waiting, outWindow, [], 0;
      var drained := 0;
      while drained < MAX_DRAIN && rest != []
        invariant n <= |waiting| && rest == waiting[n..]
        invariant drained == CountedIn(judge, old(State()), waiting[..n]) <= MAX_DRAIN
        invariant Valid() && State() == RunIds(judge, old(State()), Inputs(waiting[..n]))
        invariant verdicts == Verdicts(judge, old(State()), Inputs(waiting[..n]))
        decreases |rest|
      {
        var verdict, counted;
        assert waiting[..n + 1] == waiting[..n] + [rest[0]];
        InputsSnoc(waiting[..n], rest[0]);
        RunSnoc(judge, old(State()), Inputs(waiting[..n]), InputOf(rest[0]));
        CountedSnoc(judge, old(State()), waiting[..n], rest[0]);
        window, verdict, counted := DrainPacket(rest[0], window);
        if verdict.Some? {
          verdicts := verdicts + [verdict.value];
        }
        drained := drained + counted;
        rest, n := rest[1..], n + 1;
      }
    }

    /** The polling loop. `schedule` says which packets have newly arrived at each wake-up;
        the loop goes on while packets are left over. */
    method PollingLoop(schedule: seq<seq<Arrival>>) returns (verdicts: seq<Verdict>)
      requires Valid()
      modifies windowManager, riskModel, enforcer
      ensures Valid()
      ensures State() == RunIds(judge, old(State()), Inputs(Flatten(schedule)))
      ensures verdicts == Verdicts(judge, old(State()), Inputs(Flatten(schedule)))
    {
      verdicts := [];
      var window := NO_WINDOW;
      var pending: seq<Arrival> := [];
      var polls := 0;
      ghost var start := State();
      ghost var done: seq<Arrival> := [];
      assert schedule[..0] == [];
      while polls < |schedule| || pending != []
        invariant 0 <= polls <= |schedule| && done + pending == Flatten(schedule[..polls])
        invariant Valid() && State() == RunIds(judge, start, Inputs(done))
        invariant verdicts == Verdicts(judge, start, Inputs(done))
        decreases |schedule| - polls, |pending|
      {
        if polls < |schedule| {
          FlattenSnoc(schedule, polls);
          assert done + (pending + schedule[polls]) == done + pending + schedule[polls];
          pending := pending + schedule[polls];
          polls := polls + 1;
        }
        ghost var waiting, n := pending, 0;
        var drained;
        pending, window, drained, n := DrainLoop(pending, window);
        HandOver(done, waiting, n);
        BatchRun(judge, start, done, waiting[..n]);
        BatchVerdicts(judge, start, done, waiting[..n]);
        verdicts, done := verdicts + drained, done + waiting[..n];
      }
      assert schedule[..polls] == schedule && done == done + pending;
    }

    /** The fallback loop, which asks for one packet at a time and sleeps when there is none. */
    method FallbackLoop(offers: seq<Option<Arrival>>) returns (verdicts: seq<Verdict>)
      requires Valid()
      modifies windowManager, riskModel, enforcer
      ensures Valid()
      ensures State() == RunIds(judge, old(State()), Inputs(Offered(offers)))
      ensures verdicts == Verdicts(judge, old(State()), Inputs(Offered(offers)))
    {
      verdicts := [];
      var window := NO_WINDOW;
      ghost var start := State();
      assert offers[..0] == [];
      for i := 0 to |offers|
        invariant Valid() && State() == RunIds(judge, start, Inputs(Offered(offers[..i])))
        invariant verdicts == Verdicts(judge, start, Inputs(Offered(offers[..i])))
      {
        OfferedSnoc(offers, i);
        if offers[i] == None {
          continue;
        }
        var verdict;
        InputsSnoc(Offered(offers[..i]), offers[i].value);
        RunSnoc(judge, start, Inputs(Offered(offers[..i])), InputOf(offers[i].value));
        window, verdict := FallbackPacket(offers[i].value, window);
        if verdict.Some? {
          verdicts := verdicts + [verdict.value];
        }
      }
      assert offers[..|offers|] == offers;
    }
  }

  /** The main program: a capture with a selectable descriptor is polled, any other is asked
      packet by packet. Which of the two happens makes no difference to the verdicts or to
      the state of window, alarm and latch. */
  method MonitorInterface(lib: Library, pcapFd: int, schedule: seq<seq<Arrival>>, offers: seq<Option<Arrival>>)
    returns (verdicts: seq<Verdict>, ghost state: Ids)
    requires Lawful(lib) && Flatten(schedule) == Offered(offers)
    ensures exists judge ::
              && Judges(judge, lib)
              && verdicts == Verdicts(judge, FRESH, Inputs(Flatten(schedule)))
              && state == RunIds(judge, FRESH, Inputs(Flatten(schedule)))
  {
    var detector := new Detector(lib);
    if pcapFd >= 0 {
      verdicts := detector.PollingLoop(schedule);
    } else {
      verdicts := detector.FallbackLoop(offers);
    }
    state := detector.State();
  }

  function Flatten(schedule: seq<seq<Arrival>>): seq<Arrival> {
    if schedule == [] then []
    else Flatten(schedule[..|schedule| - 1]) + schedule[|schedule| - 1]
  }

  lemma FlattenSnoc(schedule: seq<seq<Arrival>>, i: nat)
    requires i < |schedule|
    ensures Flatten(schedule[..i + 1]) == Flatten(schedule[..i]) + schedule[i]
  {
    assert schedule[..i + 1][..i] == schedule[..i];
  }

  /** Flattening is concatenation of the batches: nothing is added, lost or moved. */
  lemma {:induction false} FlattenConcat(a: seq<seq<Arrival>>, b: seq<seq<Arrival>>)
    ensures Flatten(a + b) == Flatten(a) + Flatten(b)
    ensures |b| == 1 ==> Flatten(b) == b[0]
  {
    if b == [] {
      assert a + b == a;
    } else {
      var init := b[..|b| - 1];
      assert (a + b)[..|a + b| - 1] == a + init;
      FlattenConcat(a, init);
    }
  }

  function Offered(offers: seq<Option<Arrival>>): seq<Arrival> {
    if offers == [] then []
    else
      var before := Offered(offers[..|offers| - 1]);
      if offers[|offers| - 1].Some? then before + [offers[|offers| - 1].value] else before
  }

  lemma OfferedSnoc(offers: seq<Option<Arrival>>, i: nat)
    requires i < |offers|
    ensures Offered(offers[..i + 1])
            == if offers[i].Some? then Offered(offers[..i]) + [offers[i].value] else Offered(offers[..i])
  {
    assert offers[..i + 1][..i] == offers[..i];
  }

  lemma {:induction false} OfferedConcat(a: seq<Option<Arrival>>, b: seq<Option<Arrival>>)
    ensures Offered(a + b) == Offered(a) + Offered(b)
    ensures |b| == 1 ==> Offered(b) == if b[0].Some? then [b[0].value] else []
  {
    if b == [] {
      assert a + b == a;
    } else {
      var init := b[..|b| - 1];
      assert (a + b)[..|a + b| - 1] == a + init;
      OfferedConcat(a, init);
    }
  }
}
