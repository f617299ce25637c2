/** What the traffic decides: theorems from packets through windows to the alarm and the latch. */
module EndToEnd {
  import opened Types
  import opened History
  import opened Reference
  import opened WindowTheorems
  import opened RealArithmetic
  import opened Maths
  import opened Counting
  import opened Timing
  import opened Features
  import opened Risk
  import opened Scores
  import opened Parsers
  import opened Enforcement
  import opened Pipeline

  /** The records that reach the window manager. */
  function Records(inputs: seq<Input>): seq<Record> {
    if inputs == [] then []
    else
      var before := Records(inputs[..|inputs| - 1]);
      var r := inputs[|inputs| - 1].record;
      if r.Some? then before + [r.value] else before
  }

  lemma {:induction false} RecordsOfBoth(a: seq<Input>, b: seq<Input>)
    ensures Records(a + b) == Records(a) + Records(b)
  {
    if b == [] {
      assert a + b == a;
    } else {
      var init, last := b[..|b| - 1], b[|b| - 1];
      assert a + b == (a + init) + [last] && b == init + [last];
      RecordsOfBoth(a, init);
      RecordsSnoc(a + init, last);
    }
  }

  lemma RecordsOfOne(i: Input)
    ensures Records([i]) == if i.record.Some? then [i.record.value] else []
  {
    RecordsSnoc([], i);
    assert [] + [i] == [i];
  }

  /** Every admitted packet hands its record to the window manager, in order; no other does. */
  lemma RecordsConcat(a: seq<Arrival>, p: Arrival, b: seq<Arrival>)
    ensures Records(Inputs(a + [p] + b))
            == Records(Inputs(a)) + (match Admit(p.packet) case Some(r) => [r] case None => []) + Records(Inputs(b))
  {
    InputsConcat(a + [p], b);
    InputsSnoc(a, p);
    RecordsOfBoth(Inputs(a) + [InputOf(p)], Inputs(b));
    RecordsOfBoth(Inputs(a), [InputOf(p)]);
    RecordsOfOne(InputOf(p));
  }

  function NonEmpty(ws: seq<Window>): seq<Window> {
    if ws == [] then []
    else
      var before := NonEmpty(ws[..|ws| - 1]);
      if ws[|ws| - 1].records != [] then before + [ws[|ws| - 1]] else before
  }

  function ProbabilitiesOf(judge: Judgement, ws: seq<Window>): seq<real>
  {
    if ws == [] then []
    else ProbabilitiesOf(judge, ws[..|ws| - 1]) + [judge(ws[|ws| - 1].records)]
  }

  function WindowsOf(vs: seq<Verdict>): seq<Window> {
    if vs == [] then [] else WindowsOf(vs[..|vs| - 1]) + [vs[|vs| - 1].window]
  }

  lemma RunWindowsSnoc(rs: seq<Record>, r: Record)
    ensures Run(GRID, rs + [r]) == Observe(GRID, Run(GRID, rs), r)
    ensures var out := Emission(GRID, Run(GRID, rs), r);
            Windows(GRID, rs + [r]) == if out.Some? then Windows(GRID, rs) + [out.value] else Windows(GRID, rs)
  {
    assert (rs + [r])[..|rs|] == rs && (rs + [r])[|rs|] == r;
  }

  lemma NonEmptySnoc(ws: seq<Window>, w: Window)
    ensures NonEmpty(ws + [w]) == if w.records != [] then NonEmpty(ws) + [w] else NonEmpty(ws)
  {
    assert (ws + [w])[..|ws|] == ws && (ws + [w])[|ws|] == w;
  }

  lemma ProbabilitiesSnoc(judge: Judgement, ws: seq<Window>, w: Window)
    ensures ProbabilitiesOf(judge, ws + [w]) == ProbabilitiesOf(judge, ws) + [judge(w.records)]
    ensures On(ProbabilitiesOf(judge, ws + [w])) == NextOn(On(ProbabilitiesOf(judge, ws)), judge(w.records))
  {
    assert (ws + [w])[..|ws|] == ws && (ws + [w])[|ws|] == w;
    var ps := ProbabilitiesOf(judge, ws);
    assert (ps + [judge(w.records)])[..|ps|] == ps;
  }

  /** The detector's alarm state is what its judged windows make it. */
  ghost predicate InStep(judge: Judgement, s: Ids, rs: seq<Record>) {
    && s.log == Run(GRID, rs)
    && s.on == On(ProbabilitiesOf(judge, NonEmpty(Windows(GRID, rs))))
  }

  lemma JudgedWindow(rs: seq<Record>, r: Record)
    ensures NonEmpty(Windows(GRID, rs + [r]))
            == match Judged(Run(GRID, rs), r)
               case None => NonEmpty(Windows(GRID, rs))
               case Some(w) => NonEmpty(Windows(GRID, rs)) + [w]
  {
    RunWindowsSnoc(rs, r);
    var out := Emission(GRID, Run(GRID, rs), r);
    if out.Some? {
      NonEmptySnoc(Windows(GRID, rs), out.value);
    }
  }

  lemma OneRecord(judge: Judgement, s: Ids, rs: seq<Record>, r: Record, outcome: SendOutcome)
    requires InStep(judge, s, rs)
    ensures InStep(judge, Consume(judge, s, r, outcome).0, rs + [r])
  {
    JudgedWindow(rs, r);
    RunWindowsSnoc(rs, r);
    var judged := Judged(s.log, r);
    if judged.Some? {
      ProbabilitiesSnoc(judge, NonEmpty(Windows(GRID, rs)), judged.value);
    }
  }

  lemma RecordsSnoc(before: seq<Input>, input: Input)
    ensures Records(before + [input])
            == if input.record.Some? then Records(before) + [input.record.value] else Records(before)
  {
    assert (before + [input])[..|before|] == before;
  }

  lemma StateStep(judge: Judgement, before: seq<Input>, input: Input)
    requires InStep(judge, RunIds(judge, FRESH, before), Records(before))
    ensures InStep(judge, RunIds(judge, FRESH, before + [input]), Records(before + [input]))
  {
    RunSnoc(judge, FRESH, before, input);
    RecordsSnoc(before, input);
    if input.record.Some? {
      OneRecord(judge, RunIds(judge, FRESH, before), Records(before), input.record.value, input.outcome);
    }
  }

  lemma VerdictStep(judge: Judgement, before: seq<Input>, input: Input)
    requires RunIds(judge, FRESH, before).log == Run(GRID, Records(before))
    requires WindowsOf(Verdicts(judge, FRESH, before)) == NonEmpty(Windows(GRID, Records(before)))
    ensures WindowsOf(Verdicts(judge, FRESH, before + [input])) == NonEmpty(Windows(GRID, Records(before + [input])))
  {
    var s := RunIds(judge, FRESH, before);
    RunSnoc(judge, FRESH, before, input);
    RecordsSnoc(before, input);
    if input.record.Some? {
      JudgedWindow(Records(before), input.record.value);
      var out := Handle(judge, s, input).1;
      if out.Some? {
        WindowsOfSnoc(Verdicts(judge, FRESH, before), out.value);
      }
    }
  }

  /** The windows the detector judges are the non-empty windows of the admitted records,
      cut from the whole history, and its alarm is a function of their contents alone. */
  lemma {:induction false} AlarmFollowsWindows(judge: Judgement, inputs: seq<Input>)
    ensures RunIds(judge, FRESH, inputs).log == Run(GRID, Records(inputs))
    ensures RunIds(judge, FRESH, inputs).on == On(ProbabilitiesOf(judge, NonEmpty(Windows(GRID, Records(inputs)))))
    ensures WindowsOf(Verdicts(judge, FRESH, inputs)) == NonEmpty(Windows(GRID, Records(inputs)))
  {
    if inputs != [] {
      var before, input := inputs[..|inputs| - 1], inputs[|inputs| - 1];
      assert inputs == before + [input];
      AlarmFollowsWindows(judge, before);
      StateStep(judge, before, input);
      VerdictStep(judge, before, input);
    }
  }

  lemma WindowsOfSnoc(vs: seq<Verdict>, v: Verdict)
    ensures WindowsOf(vs + [v]) == WindowsOf(vs) + [v.window]
  {
    assert (vs + [v])[..|vs|] == vs;
  }

  /** The detector accepts exactly the admitted records that are not stamped before an earlier
      one, and cuts windows of five seconds, a second apart, from the first of them on. */
  lemma DetectorWindows(judge: Judgement, inputs: seq<Input>, k: nat)
    requires k < |Windows(GRID, Records(inputs))|
    ensures RunIds(judge, FRESH, inputs).log.accepted == Punctual(Records(inputs))
    ensures var w := Windows(GRID, Records(inputs))[k];
            && w.startTime == Records(inputs)[0].timestamp + k * 1_000_000_000
            && w.endTime == w.startTime + 5_000_000_000
  {
    AlarmFollowsWindows(judge, inputs);
    AcceptedArrivals(GRID, Records(inputs));
    WindowFromArrivals(GRID, Records(inputs), k);
  }

  /** The decision on the i-th window follows from it and the windows judged before it. */
  ghost predicate DecidedAt(judge: Judgement, vs: seq<Verdict>, i: nat) {
    i < |vs| ==>
      var ps := ProbabilitiesOf(judge, WindowsOf(vs[..i + 1]));
      vs[i].decision == Decide(On(ps), judge(vs[i].window.records))
  }

  lemma {:induction false} DecidedStays(judge: Judgement, vs: seq<Verdict>, v: Verdict, i: nat)
    requires i < |vs| && DecidedAt(judge, vs, i)
    ensures DecidedAt(judge, vs + [v], i)
  {
    assert (vs + [v])[..i + 1] == vs[..i + 1];
  }

  lemma {:induction false} DecidedNow(judge: Judgement, vs: seq<Verdict>, v: Verdict, on: bool)
    requires on == NextOn(On(ProbabilitiesOf(judge, WindowsOf(vs))), judge(v.window.records))
    requires v.decision == Decide(on, judge(v.window.records))
    ensures DecidedAt(judge, vs + [v], |vs|)
  {
    WindowsOfSnoc(vs, v);
    ProbabilitiesSnoc(judge, WindowsOf(vs), v.window);
    assert (vs + [v])[..|vs| + 1] == vs + [v];
  }

  /** Every decision follows from the contents of the windows judged by then. */
  lemma {:induction false} DecisionsFollowWindows(judge: Judgement, inputs: seq<Input>, i: nat)
    ensures DecidedAt(judge, Verdicts(judge, FRESH, inputs), i)
  {
    if inputs != [] {
      var before, input := inputs[..|inputs| - 1], inputs[|inputs| - 1];
      var vs := Verdicts(judge, FRESH, before);
      DecisionsFollowWindows(judge, before, i);
      AlarmFollowsWindows(judge, before);
      var out := Handle(judge, RunIds(judge, FRESH, before), input).1;
      if out.Some? && i < |vs| {
        DecidedStays(judge, vs, out.value, i);
      } else if out.Some? && i == |vs| {
        DecidedNow(judge, vs, out.value, NextOn(RunIds(judge, FRESH, before).on, judge(out.value.window.records)));
      }
    }
  }

  // ----- the shape of an emitted window -----

  lemma IntervalShape(h: seq<Record>, lo: Time, hi: Time, gap: int)
    requires Sorted(h) && lo <= hi
    ensures var rs := Between(h, lo, hi);
            && Spans(rs, hi - lo)
            && (Steady(h, gap) ==> Steady(rs, gap))
            && forall r | r in rs :: r in h
  {
    var a, b := BetweenSlice(h, lo, hi);
    SortedSlice(h, a, b);
    if Steady(h, gap) {
      SteadySlice(h, a, b, gap);
    }
  }

  lemma CutShape(g: Grid, l: Log, w: Window, k: nat, cut: nat, gap: int)
    requires 0 <= g.size && Coherent(g, l) && CutAt(g, l, w, k, cut)
    ensures Spans(w.records, g.size)
    ensures Steady(l.accepted, gap) ==> Steady(w.records, gap)
    ensures forall r | r in w.records :: r in l.accepted
  {
    SortedSlice(l.accepted, 0, cut);
    IntervalShape(l.accepted[..cut], w.startTime, w.endTime, gap);
    if Steady(l.accepted, gap) {
      SteadySlice(l.accepted, 0, cut, gap);
    }
  }

  /** The records of an emitted window are consecutive accepted records: sorted, within the
      window's length, and no more spread out than the accepted history. */
  lemma WindowShape(g: Grid, rs: seq<Record>, k: nat, gap: int)
    requires 0 <= g.size && k < |Windows(g, rs)|
    ensures Spans(Windows(g, rs)[k].records, g.size)
    ensures Steady(Accepted(g, rs), gap) ==> Steady(Windows(g, rs)[k].records, gap)
    ensures forall r | r in Windows(g, rs)[k].records :: r in Accepted(g, rs)
  {
    var _, cut := KthWindow(g, rs, k);
    Reachable(g, rs);
    CutShape(g, Run(g, rs), Windows(g, rs)[k], k, cut, gap);
  }

  lemma {:induction false} NonEmptyMember(ws: seq<Window>, w: Window)
    ensures w in NonEmpty(ws) <==> w in ws && w.records != []
  {
    if ws != [] {
      NonEmptyMember(ws[..|ws| - 1], w);
      assert ws == ws[..|ws| - 1] + [ws[|ws| - 1]];
    }
  }

  lemma {:induction false} NoWrites(rs: seq<Record>)
    requires forall r | r in rs :: !r.isWrite
    ensures Writes(rs) == 0
  {
    assert forall f | f in WriteFlags(rs) :: !f;
    assert true !in multiset(WriteFlags(rs));
  }

  // ----- traffic that never raises the alarm -----

  /** A window without writes whose inter-arrival times vary little. */
  ghost predicate Quiet(rs: seq<Record>) {
    rs != [] && Writes(rs) == 0 && Variance(Deltas(rs)) <= 0.5125
  }

  lemma QuietClears(judge: Judgement, lib: Library, w: Window)
    requires Lawful(lib) && Judges(judge, lib) && Quiet(w.records)
    ensures !NextOn(true, judge(w.records)) && !NextOn(false, judge(w.records))
  {
    ReadOnlyClears(lib, w.records);
    assert judge(w.records) == Probability(lib.exp, DetectionOf(lib, w.records));
  }

  /** If every judged window is quiet, the alarm stays off, the latch stays open and
      nothing is ever sent. */
  lemma {:induction false} QuietWindowsStaySilent(judge: Judgement, lib: Library, inputs: seq<Input>)
    requires Lawful(lib) && Judges(judge, lib)
    requires forall v | v in Verdicts(judge, FRESH, inputs) :: Quiet(v.window.records)
    ensures !RunIds(judge, FRESH, inputs).on && !RunIds(judge, FRESH, inputs).locked
    ensures forall v | v in Verdicts(judge, FRESH, inputs) :: v.wire == [] && v.decision.level != High
  {
    if inputs != [] {
      var before, input := inputs[..|inputs| - 1], inputs[|inputs| - 1];
      QuietWindowsStaySilent(judge, lib, before);
      var out := Handle(judge, RunIds(judge, FRESH, before), input).1;
      if out.Some? {
        assert out.value in Verdicts(judge, FRESH, inputs);
        QuietClears(judge, lib, out.value.window);
      }
    }
  }

  const STEADY_GAP := 1_430_000_000

  lemma SteadyReadsAreQuiet(rs: seq<Record>)
    requires rs != [] && Sorted(rs) && Steady(rs, STEADY_GAP)
    requires forall r | r in rs :: !r.isWrite
    ensures Quiet(rs)
  {
    NoWrites(rs);
    DeltasWithin(rs, STEADY_GAP);
    VarianceOfBand(Deltas(rs), Seconds(STEADY_GAP));
    assert Square(Seconds(STEADY_GAP)) / 4.0 <= 0.5125;
  }

  lemma {:induction false} VerdictWindows(vs: seq<Verdict>, v: Verdict)
    requires v in vs
    ensures v.window in WindowsOf(vs)
  {
    var init, last := vs[..|vs| - 1], vs[|vs| - 1];
    assert vs == init + [last];
    if v in init {
      VerdictWindows(init, v);
    }
  }

  /** Where every verdict's window comes from. */
  lemma VerdictShape(judge: Judgement, inputs: seq<Input>, v: Verdict, gap: int)
    requires v in Verdicts(judge, FRESH, inputs)
    ensures var all := Punctual(Records(inputs));
            && v.window.records != [] && Spans(v.window.records, GRID.size)
            && (Steady(all, gap) ==> Steady(v.window.records, gap))
            && forall r | r in v.window.records :: r in all
  {
    AlarmFollowsWindows(judge, inputs);
    AcceptedArrivals(GRID, Records(inputs));
    VerdictWindows(Verdicts(judge, FRESH, inputs), v);
    var ws := Windows(GRID, Records(inputs));
    NonEmptyMember(ws, v.window);
    var k :| 0 <= k < |ws| && ws[k] == v.window;
    WindowShape(GRID, Records(inputs), k, gap);
  }

  /** Read-only traffic with no gap over 1.43 s never raises the alarm, whatever else it does. */
  lemma SteadyReadsStaySilent(judge: Judgement, lib: Library, inputs: seq<Input>)
    requires Lawful(lib) && Judges(judge, lib)
    requires Steady(Punctual(Records(inputs)), STEADY_GAP)
    requires forall r | r in Punctual(Records(inputs)) :: !r.isWrite
    ensures !RunIds(judge, FRESH, inputs).on && !RunIds(judge, FRESH, inputs).locked
    ensures forall v | v in Verdicts(judge, FRESH, inputs) :: v.wire == []
  {
    forall v | v in Verdicts(judge, FRESH, inputs)
      ensures Quiet(v.window.records)
    {
      VerdictShape(judge, inputs, v, STEADY_GAP);
      SteadyReadsAreQuiet(v.window.records);
    }
    QuietWindowsStaySilent(judge, lib, inputs);
  }

  /** Nor does read-only traffic so busy that every judged window holds 49 records. */
  lemma BusyReadsStaySilent(judge: Judgement, lib: Library, inputs: seq<Input>)
    requires Lawful(lib) && Judges(judge, lib)
    requires forall v | v in Verdicts(judge, FRESH, inputs) :: 49 <= |v.window.records|
    requires forall r | r in Punctual(Records(inputs)) :: !r.isWrite
    ensures !RunIds(judge, FRESH, inputs).on && !RunIds(judge, FRESH, inputs).locked
    ensures forall v | v in Verdicts(judge, FRESH, inputs) :: v.wire == []
  {
    forall v | v in Verdicts(judge, FRESH, inputs)
      ensures Quiet(v.window.records)
    {
      VerdictShape(judge, inputs, v, 0);
      NoWrites(v.window.records);
      VarianceLimits(v.window.records, GRID.size);
    }
    QuietWindowsStaySilent(judge, lib, inputs);
  }

  // ----- traffic that does -----

  ghost predicate WriteHeavy(w: Window) {
    w.records != [] && |w.records| <= 3 * Writes(w.records)
  }

  /** A window a third of which is writes is judged High whatever came before; if the
      network then takes the frame, or took one before, the latch is set. */
  lemma WriteHeavyWindowLocks(judge: Judgement, lib: Library, s: Ids, input: Input)
    requires Lawful(lib) && Judges(judge, lib)
    requires var out := Handle(judge, s, input).1; out.Some? && WriteHeavy(out.value.window)
    ensures var (s', out) := Handle(judge, s, input);
            && s'.on && out.value.decision.level == High && out.value.decision.restrictWrites
            && (s'.locked <==> s.locked || Complete(input.outcome))
            && out.value.wire == if s.locked then [] else OnWire(LOCK_FRAME, input.outcome)
  {
    var w := Handle(judge, s, input).1.value.window;
    WriteHeavyAlarms(lib, s.on, w.records);
    assert judge(w.records) == Probability(lib.exp, DetectionOf(lib, w.records));
  }

  /** An alarm that is on survives any run of windows a fifth of which is writes. */
  lemma {:induction false} WritesKeepAlarmOn(judge: Judgement, lib: Library, s: Ids, inputs: seq<Input>)
    requires Lawful(lib) && Judges(judge, lib) && s.on
    requires forall v | v in Verdicts(judge, s, inputs) ::
               v.window.records != [] && |v.window.records| <= 5 * Writes(v.window.records)
    ensures RunIds(judge, s, inputs).on
  {
    if inputs != [] {
      var before, input := inputs[..|inputs| - 1], inputs[|inputs| - 1];
      WritesKeepAlarmOn(judge, lib, s, before);
      var out := Handle(judge, RunIds(judge, s, before), input).1;
      if out.Some? {
        assert out.value in Verdicts(judge, s, inputs);
        var rs := out.value.window.records;
        WritesKeepAlarm(lib, rs);
        assert judge(rs) == Probability(lib.exp, DetectionOf(lib, rs));
      }
    }
  }

  // ----- recovery -----

  /** Every write among `rs` is stamped before `t`. */
  ghost predicate WritesEndBefore(rs: seq<Record>, t: Time) {
    forall r | r in rs && r.isWrite :: r.timestamp < t
  }

  lemma CleanWindow(h: seq<Record>, lo: Time, hi: Time)
    requires WritesEndBefore(h, lo)
    ensures Writes(Between(h, lo, hi)) == 0
  {
    forall r | r in Between(h, lo, hi)
      ensures !r.isWrite
    {
      BetweenMember(h, lo, hi, r);
    }
    NoWrites(Between(h, lo, hi));
  }

  /** A judged window that starts after the last write accepted so far is decided by its
      timing: if its variance is at most 0.5125 it leaves the alarm off from either state,
      and an alarm that was on is cleared in no other case. */
  lemma WindowAfterWrites(judge: Judgement, lib: Library, s: Ids, input: Input)
    requires Lawful(lib) && Judges(judge, lib)
    ensures var (s', out) := Handle(judge, s, input);
            out.Some? && WritesEndBefore(s'.log.accepted, out.value.window.startTime) ==>
              var variance := Variance(Deltas(out.value.window.records));
              && (variance <= 0.5125 ==> !s'.on)
              && (s.on ==> (!s'.on <==> variance <= 0.5125))
  {
    var (s', out) := Handle(judge, s, input);
    if out.Some? && WritesEndBefore(s'.log.accepted, out.value.window.startTime) {
      var w := out.value.window;
      CleanWindow(s'.log.accepted, w.startTime, w.endTime);
      ReadOnlyClears(lib, w.records);
      assert judge(w.records) == Probability(lib.exp, DetectionOf(lib, w.records));
    }
  }

  lemma {:induction false} AllNonEmpty(ws: seq<Window>)
    requires forall w | w in ws :: w.records != []
    ensures NonEmpty(ws) == ws
  {
    if ws != [] {
      AllNonEmpty(ws[..|ws| - 1]);
    }
  }

  /** The last window cut from a stream that keeps up starts less than a window and a step
      before the last record. */
  lemma LastWindowStart(rs: seq<Record>)
    requires rs != [] && Steady(Accepted(GRID, rs), GRID.step) && Windows(GRID, rs) != []
    ensures Accepted(GRID, rs) != []
    ensures var ws := Windows(GRID, rs);
            Last(Run(GRID, rs)) - GRID.size - GRID.step < ws[|ws| - 1].startTime
  {
    var k := |Windows(GRID, rs)| - 1;
    Reachable(GRID, rs);
    SteadyStreamKeepsUp(GRID, rs);
    EmittedIsCount(GRID, rs);
    var _, cut := KthWindow(GRID, rs, k);
  }

  lemma LastWindowQuiet(rs: seq<Record>)
    requires rs != [] && Steady(Accepted(GRID, rs), GRID.step) && Windows(GRID, rs) != []
    requires Accepted(GRID, rs) != []
    requires WritesEndBefore(Accepted(GRID, rs), Last(Run(GRID, rs)) - GRID.size - GRID.step + 1)
    ensures Quiet(Windows(GRID, rs)[|Windows(GRID, rs)| - 1].records)
  {
    var k := |Windows(GRID, rs)| - 1;
    var w := Windows(GRID, rs)[k];
    LastWindowStart(rs);
    SteadyWindowsNotEmpty(GRID, rs);
    WindowShape(GRID, rs, k, GRID.step);
    var _, cut := KthWindow(GRID, rs, k);
    Reachable(GRID, rs);
    CutClean(Run(GRID, rs), w, k, cut);
    SteadyReadsAreQuiet(w.records);
  }

  lemma CutClean(l: Log, w: Window, k: nat, cut: nat)
    requires CutAt(GRID, l, w, k, cut) && WritesEndBefore(l.accepted, w.startTime)
    ensures forall r | r in w.records :: !r.isWrite
  {
    forall r | r in w.records
      ensures !r.isWrite
    {
      BetweenMember(l.accepted[..cut], w.startTime, w.endTime, r);
    }
  }

  lemma {:induction false} LastProbabilityDecides(judge: Judgement, ws: seq<Window>)
    requires ws != []
    ensures var before := ProbabilitiesOf(judge, ws[..|ws| - 1]);
            On(ProbabilitiesOf(judge, ws)) == NextOn(On(before), judge(ws[|ws| - 1].records))
  {
    assert ws[..|ws| - 1] + [ws[|ws| - 1]] == ws;
    ProbabilitiesSnoc(judge, ws[..|ws| - 1], ws[|ws| - 1]);
  }

  lemma RecoversFrom(judge: Judgement, lib: Library, inputs: seq<Input>, rs: seq<Record>)
    requires Lawful(lib) && Judges(judge, lib) && rs == Records(inputs) != []
    requires Steady(Accepted(GRID, rs), GRID.step) && Accepted(GRID, rs) != []
    requires WritesEndBefore(Accepted(GRID, rs), Last(Run(GRID, rs)) - GRID.size - GRID.step + 1)
    ensures !RunIds(judge, FRESH, inputs).on
  {
    var ws := Windows(GRID, rs);
    AlarmFollowsWindows(judge, inputs);
    SteadyWindowsNotEmpty(GRID, rs);
    AllNonEmpty(ws);
    if ws != [] {
      LastWindowQuiet(rs);
      LastProbabilityDecides(judge, ws);
      QuietClears(judge, lib, ws[|ws| - 1]);
    }
  }

  /** Recovery: in traffic with no gap over a second, the alarm is off whenever the last write
      lies at least a window and a step, six seconds, back, whatever was written before. */
  lemma SteadyReadsRecover(judge: Judgement, lib: Library, inputs: seq<Input>, h: seq<Record>)
    requires Lawful(lib) && Judges(judge, lib) && h == Punctual(Records(inputs)) != []
    requires Steady(h, 1_000_000_000)
    requires forall r | r in h && r.isWrite :: r.timestamp <= h[|h| - 1].timestamp - 6_000_000_000
    ensures !RunIds(judge, FRESH, inputs).on
  {
    AcceptedArrivals(GRID, Records(inputs));
    assert Records(inputs) != [];
    RecoversFrom(judge, lib, inputs, Records(inputs));
  }

  // ----- what is sent over a whole run -----

  function WiresOf(vs: seq<Verdict>): seq<Frame> {
    if vs == [] then [] else WiresOf(vs[..|vs| - 1]) + vs[|vs| - 1].wire
  }

  lemma WiresSnoc(vs: seq<Verdict>, v: Verdict)
    ensures WiresOf(vs + [v]) == WiresOf(vs) + v.wire
  {
    assert (vs + [v])[..|vs|] == vs;
  }

  /** Over any traffic the complete lock frame leaves the detector once if its latch is set
      and never otherwise; escalation without restriction never happens. */
  lemma {:induction false} DetectorSendsOnce(judge: Judgement, inputs: seq<Input>)
    ensures Occurrences(WiresOf(Verdicts(judge, FRESH, inputs)), LOCK_FRAME)
            == if RunIds(judge, FRESH, inputs).locked then 1 else 0
    ensures forall v | v in Verdicts(judge, FRESH, inputs) :: v.action != EscalationWithoutRestriction
  {
    if inputs != [] {
      var before, input := inputs[..|inputs| - 1], inputs[|inputs| - 1];
      DetectorSendsOnce(judge, before);
      RunSnoc(judge, FRESH, before, input);
      assert before + [input] == inputs;
      var s, vs := RunIds(judge, FRESH, before), Verdicts(judge, FRESH, before);
      SendStep(judge, s, input);
      var out := Handle(judge, s, input).1;
      if out.Some? {
        WiresSnoc(vs, out.value);
      }
    }
  }

  /** The alarm never escalates without asking for the restriction. */
  lemma NoBareEscalation(on: bool, p: real, locked: bool, outcome: SendOutcome)
    ensures ActionFor(locked, Decide(on, p), outcome) != EscalationWithoutRestriction
    ensures Demands(Decide(on, p)) <==> on
  {
    if on {
      assert Decide(on, p) == Decision(High, true, true, p);
    }
  }

  lemma SendStep(judge: Judgement, s: Ids, input: Input)
    ensures var (s', out) := Handle(judge, s, input);
            && (out == None ==> s'.locked == s.locked)
            && (out.Some? ==>
                  && Occurrences(out.value.wire, LOCK_FRAME) == (if s'.locked && !s.locked then 1 else 0)
                  && (s.locked ==> s'.locked)
                  && out.value.action != EscalationWithoutRestriction)
  {
    var out := Handle(judge, s, input).1;
    if out.Some? {
      OneSend(s.locked, out.value.decision, input.outcome);
      var p := judge(out.value.window.records);
      NoBareEscalation(NextOn(s.on, p), p, s.locked, input.outcome);
    }
  }

  // ----- the detector as a run of the enforcer -----

  /** The decisions the enforcer is given, each with what the network then does. */
  function OrdersOf(judge: Judgement, inputs: seq<Input>): seq<Order> {
    if inputs == [] then []
    else
      var (before, input) := (inputs[..|inputs| - 1], inputs[|inputs| - 1]);
      var out := Handle(judge, RunIds(judge, FRESH, before), input).1;
      OrdersOf(judge, before) + if out.Some? then [Order(out.value.decision, input.outcome)] else []
  }

  function ActionsIn(vs: seq<Verdict>): seq<Action> {
    if vs == [] then [] else ActionsIn(vs[..|vs| - 1]) + [vs[|vs| - 1].action]
  }

  function AttemptsIn(vs: seq<Verdict>): nat {
    if vs == [] then 0 else AttemptsIn(vs[..|vs| - 1]) + vs[|vs| - 1].attempts
  }

  /** What a run of orders makes the enforcer do is what the verdicts report. */
  ghost predicate Carries(vs: seq<Verdict>, locked: bool, orders: seq<Order>) {
    && locked == LatchOf(orders)
    && WiresOf(vs) == WireOf(orders)
    && ActionsIn(vs) == ActionsOf(orders)
    && AttemptsIn(vs) == AttemptsOf(orders)
  }

  lemma CarriesStep(vs: seq<Verdict>, locked: bool, orders: seq<Order>, v: Verdict, outcome: SendOutcome)
    requires Carries(vs, locked, orders)
    requires v.action == ActionFor(locked, v.decision, outcome) && v.wire == WireAfter(locked, v.decision, outcome)
    requires v.attempts == AttemptsFor(locked, v.decision)
    ensures Carries(vs + [v], LatchAfter(locked, v.decision, outcome), orders + [Order(v.decision, outcome)])
  {
    assert (vs + [v])[..|vs|] == vs;
    assert (orders + [Order(v.decision, outcome)])[..|orders|] == orders;
  }

  lemma EnforcesStep(judge: Judgement, s: Ids, vs: seq<Verdict>, orders: seq<Order>, input: Input)
    requires Carries(vs, s.locked, orders)
    ensures var (s', out) := Handle(judge, s, input);
            Carries(Append(vs, out), s'.locked,
                    orders + if out.Some? then [Order(out.value.decision, input.outcome)] else [])
  {
    var out := Handle(judge, s, input).1;
    if out.Some? {
      CarriesStep(vs, s.locked, orders, out.value, input.outcome);
    } else {
      assert orders + [] == orders;
    }
  }

  /** Over any traffic the latch, the bytes sent, the actions reported and the sends attempted
      are those of a run of the enforcer, so that everything proved of such runs holds here. */
  lemma {:induction false} DetectorEnforces(judge: Judgement, inputs: seq<Input>)
    ensures Carries(Verdicts(judge, FRESH, inputs), RunIds(judge, FRESH, inputs).locked, OrdersOf(judge, inputs))
  {
    if inputs != [] {
      var before, input := inputs[..|inputs| - 1], inputs[|inputs| - 1];
      DetectorEnforces(judge, before);
      EnforcesStep(judge, RunIds(judge, FRESH, before), Verdicts(judge, FRESH, before), OrdersOf(judge, before), input);
    }
  }

  // ----- what a drain counts -----

  /** A packet on one of the three ports that its parser drops. */
  predicate Malformed(p: Packet) {
    && (p.srcPort in {502, 2404, 20000} || p.dstPort in {502, 2404, 20000})
    && Admit(p) == None
  }

  function MalformedIn(arrivals: seq<Arrival>): nat {
    if arrivals == [] then 0
    else MalformedIn(arrivals[..|arrivals| - 1]) + if Malformed(arrivals[|arrivals| - 1].packet) then 1 else 0
  }

  /** One packet is counted unless it is malformed or completes an empty window. */
  lemma CountedPacket(rs: seq<Record>, p: Packet)
    ensures var rs' := if Admit(p).Some? then rs + [Admit(p).value] else rs;
            Counted(Run(GRID, rs), p) + (if Malformed(p) then 1 else 0)
            + (|Windows(GRID, rs')| - |NonEmpty(Windows(GRID, rs'))|)
            == 1 + (|Windows(GRID, rs)| - |NonEmpty(Windows(GRID, rs))|)
  {
    if Admit(p).Some? {
      RunWindowsSnoc(rs, Admit(p).value);
      JudgedWindow(rs, Admit(p).value);
    }
  }

  lemma RecordsOfArrival(before: seq<Arrival>, a: Arrival)
    ensures Records(Inputs(before + [a]))
            == if Admit(a.packet).Some? then Records(Inputs(before)) + [Admit(a.packet).value]
               else Records(Inputs(before))
  {
    InputsSnoc(before, a);
    RecordsSnoc(Inputs(before), InputOf(a));
  }

  /** Of all packets drained, foreign ones included, the loop counts all but the malformed ones
      and those that complete an empty window. */
  lemma {:induction false} DrainAccounts(judge: Judgement, arrivals: seq<Arrival>)
    ensures var ws := Windows(GRID, Records(Inputs(arrivals)));
            CountedIn(judge, FRESH, arrivals) + MalformedIn(arrivals) + (|ws| - |NonEmpty(ws)|) == |arrivals|
  {
    if arrivals == [] {
      assert Inputs(arrivals) == [];
    } else {
      var before, a := arrivals[..|arrivals| - 1], arrivals[|arrivals| - 1];
      assert arrivals == before + [a];
      DrainAccounts(judge, before);
      AlarmFollowsWindows(judge, Inputs(before));
      CountedPacket(Records(Inputs(before)), a.packet);
      RecordsOfArrival(before, a);
    }
  }
}
