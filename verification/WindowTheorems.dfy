/** What the stream of windows means for the stream of records, over whole runs. */
module WindowTheorems {
  import opened Types
  import opened History
  import opened Reference

  ghost function Accepted(g: Grid, arrivals: seq<Record>): seq<Record> {
    Run(g, arrivals).accepted
  }

  function Init(arrivals: seq<Record>): seq<Record>
    requires arrivals != []
  {
    arrivals[..|arrivals| - 1]
  }

  lemma Reachable(g: Grid, arrivals: seq<Record>)
    ensures Coherent(g, Run(g, arrivals))
    ensures arrivals != [] ==> Accepted(g, arrivals) != []
  {
    RunCoherent(g, EMPTY, arrivals);
    if arrivals != [] {
      var l := Run(g, Init(arrivals));
    }
  }

  // ----- which arrivals are accepted -----

  /** No record of `before` is stamped after `t`. */
  predicate NoneAfter(before: seq<Record>, t: Time) {
    forall s | s in before :: s.timestamp <= t
  }

  /** The arrivals not stamped before any earlier arrival, in their order. */
  function Punctual(arrivals: seq<Record>): seq<Record> {
    if arrivals == [] then []
    else
      var (before, r) := (Init(arrivals), arrivals[|arrivals| - 1]);
      Punctual(before) + if NoneAfter(before, r.timestamp) then [r] else []
  }

  /** What a run remembers of its arrivals. */
  ghost predicate Remembers(g: Grid, arrivals: seq<Record>) {
    && Accepted(g, arrivals) == Punctual(arrivals)
    && (arrivals != [] ==>
          && Accepted(g, arrivals) != []
          && First(Run(g, arrivals)) == arrivals[0].timestamp
          && NoneAfter(arrivals, Last(Run(g, arrivals)))
          && exists s :: s in arrivals && s.timestamp == Last(Run(g, arrivals)))
  }

  lemma AcceptsIff(g: Grid, before: seq<Record>, r: Record)
    requires Remembers(g, before)
    ensures Accepts(Run(g, before), r) <==> NoneAfter(before, r.timestamp)
  {
  }

  lemma RemembersStep(g: Grid, before: seq<Record>, r: Record)
    requires Remembers(g, before)
    ensures Remembers(g, before + [r])
  {
    var l, l' := Run(g, before), Run(g, before + [r]);
    assert Init(before + [r]) == before;
    AcceptsIff(g, before, r);
    assert l' == Observe(g, l, r);
    if Accepts(l, r) {
      assert l'.accepted == l.accepted + [r];
      assert r in before + [r];
    } else {
      var s :| s in before && s.timestamp == Last(l);
      assert s in before + [r];
    }
  }

  lemma {:induction false} RunRemembers(g: Grid, arrivals: seq<Record>)
    ensures Remembers(g, arrivals)
  {
    if arrivals == [] {
      assert Accepted(g, arrivals) == [];
    } else {
      var before, r := Init(arrivals), arrivals[|arrivals| - 1];
      assert arrivals == before + [r];
      RunRemembers(g, before);
      RemembersStep(g, before, r);
    }
  }

  /** Whatever the grid, exactly the punctual arrivals are accepted; a late one is lost even
      if the window it belongs to is still open. */
  lemma AcceptedArrivals(g: Grid, arrivals: seq<Record>)
    ensures Accepted(g, arrivals) == Punctual(arrivals)
    ensures arrivals != [] ==> Accepted(g, arrivals) != [] && First(Run(g, arrivals)) == arrivals[0].timestamp
  {
    RunRemembers(g, arrivals);
  }

  /** Arrivals that are in order are all accepted. */
  lemma {:induction false} SortedArrivals(arrivals: seq<Record>)
    requires Sorted(arrivals)
    ensures Punctual(arrivals) == arrivals
  {
    if arrivals != [] {
      SortedOrder(arrivals);
      SortedSlice(arrivals, 0, |arrivals| - 1);
      SortedArrivals(Init(arrivals));
    }
  }

  /** `w` shows the stretch of `h` stamped from its start to its end, both included. */
  ghost predicate Shows(w: Window, h: seq<Record>) {
    exists a: nat, b: nat | a <= b <= |h| && w.records == h[a..b] ::
      forall i | 0 <= i < |h| :: a <= i < b <==> w.startTime <= h[i].timestamp <= w.endTime
  }

  lemma ShownStretch(h: seq<Record>, w: Window)
    requires Sorted(h) && w.records == Between(h, w.startTime, w.endTime)
    ensures Shows(w, h)
  {
    if w.startTime <= w.endTime {
      var a, b := BetweenSlice(h, w.startTime, w.endTime);
    } else {
      BetweenNone(h, w.startTime, w.endTime);
      assert w.records == h[0..0];
    }
  }

  /** The law of one call, from the arrivals alone: a record cuts a window exactly if it is
      punctual and stamped no earlier than the grid's next window ends. */
  lemma CutsIff(g: Grid, before: seq<Record>, r: Record)
    ensures var (all, n) := (before + [r], |Windows(g, before)|);
            |Windows(g, all)| == n + if && NoneAfter(before, r.timestamp)
                                        && all[0].timestamp + n * g.step + g.size <= r.timestamp then 1 else 0
  {
    assert Init(before + [r]) == before;
    RunRemembers(g, before);
    AcceptsIff(g, before, r);
    EmittedIsCount(g, before);
    StepsIsProduct(g, Run(g, before).emitted);
  }

  /** ... and the window, one of the grid, shows what arrived punctually up to then. With
      `CutsIff` and `AcceptedArrivals` this fixes every run. */
  lemma WindowFromArrivals(g: Grid, arrivals: seq<Record>, k: nat)
    requires k < |Windows(g, arrivals)|
    ensures var w := Windows(g, arrivals)[k];
            && w.startTime == arrivals[0].timestamp + k * g.step && w.endTime == w.startTime + g.size
            && exists m: nat | m <= |arrivals| :: EmitsAt(g, arrivals, k, m) && Shows(w, Punctual(arrivals[..m]))
  {
    var m, cut := KthWindow(g, arrivals, k);
    AcceptedArrivals(g, arrivals);
    StepsIsProduct(g, k);
    WindowShows(g, arrivals, k, m, cut);
  }

  lemma WindowShows(g: Grid, arrivals: seq<Record>, k: nat, m: nat, cut: nat)
    requires k < |Windows(g, arrivals)| && m <= |arrivals| && cut == |Accepted(g, arrivals[..m])|
    requires CutAt(g, Run(g, arrivals), Windows(g, arrivals)[k], k, cut)
    ensures Shows(Windows(g, arrivals)[k], Punctual(arrivals[..m]))
  {
    RunPrefix(g, arrivals, m);
    Reachable(g, arrivals[..m]);
    AcceptedArrivals(g, arrivals[..m]);
    CutShows(g, Run(g, arrivals), Windows(g, arrivals)[k], k, cut, Accepted(g, arrivals[..m]));
  }

  lemma CutShows(g: Grid, l: Log, w: Window, k: nat, cut: nat, early: seq<Record>)
    requires CutAt(g, l, w, k, cut) && early <= l.accepted && |early| == cut && Sorted(early)
    ensures Shows(w, early)
  {
    assert l.accepted[..cut] == early;
    ShownStretch(early, w);
  }

  // ----- which window is cut, and out of what -----

  lemma {:induction false} EmittedIsCount(g: Grid, arrivals: seq<Record>)
    ensures |Windows(g, arrivals)| == Run(g, arrivals).emitted
  {
    if arrivals != [] {
      EmittedIsCount(g, Init(arrivals));
    }
  }

  lemma {:induction false} RunPrefix(g: Grid, arrivals: seq<Record>, n: nat)
    requires n <= |arrivals|
    ensures Accepted(g, arrivals[..n]) <= Accepted(g, arrivals)
    ensures Windows(g, arrivals[..n]) <= Windows(g, arrivals)
  {
    if n == |arrivals| {
      assert arrivals[..n] == arrivals;
    } else {
      assert Init(arrivals)[..n] == arrivals[..n];
      RunPrefix(g, Init(arrivals), n);
    }
  }

  /** `w` is the k-th window of the grid, cut out of the first `cut` accepted records, the
      last of which is stamped at or after the end of the window. */
  ghost predicate CutAt(g: Grid, l: Log, w: Window, k: nat, cut: nat) {
    && 0 < cut <= |l.accepted|
    && w == WindowOf(l.accepted[..cut], StartOf(g, l, k), StartOf(g, l, k) + g.size)
    && w.endTime <= l.accepted[cut - 1].timestamp
  }

  lemma CutStays(g: Grid, l: Log, r: Record, w: Window, k: nat, cut: nat)
    requires CutAt(g, l, w, k, cut)
    ensures CutAt(g, Observe(g, l, r), w, k, cut)
  {
    assert Observe(g, l, r).accepted[..cut] == l.accepted[..cut];
  }

  lemma NewCut(g: Grid, l: Log, r: Record)
    requires Triggers(g, l, r)
    ensures CutAt(g, Observe(g, l, r), Emission(g, l, r).value, l.emitted, |l.accepted| + 1)
  {
    var h := Observe(g, l, r).accepted;
    assert h[..|l.accepted| + 1] == h;
  }

  /** The m-th arrival is the one that makes the detector cut its k-th window. */
  ghost predicate EmitsAt(g: Grid, arrivals: seq<Record>, k: nat, m: nat) {
    && 0 < m <= |arrivals|
    && |Windows(g, arrivals[..m - 1])| == k && |Windows(g, arrivals[..m])| == k + 1
  }

  /** Every emitted window is cut, by one particular arrival, out of exactly the records
      accepted by then, where the grid says. */
  lemma {:induction false} KthWindow(g: Grid, arrivals: seq<Record>, k: nat) returns (m: nat, cut: nat)
    requires k < |Windows(g, arrivals)|
    ensures EmitsAt(g, arrivals, k, m) && cut == |Accepted(g, arrivals[..m])|
    ensures CutAt(g, Run(g, arrivals), Windows(g, arrivals)[k], k, cut)
  {
    var before, r := Init(arrivals), arrivals[|arrivals| - 1];
    EmittedIsCount(g, before);
    if k < |Windows(g, before)| {
      m, cut := KthWindow(g, before, k);
      CutStays(g, Run(g, before), r, Windows(g, before)[k], k, cut);
      assert before[..m] == arrivals[..m] && before[..m - 1] == arrivals[..m - 1];
    } else {
      m, cut := |arrivals|, |Run(g, before).accepted| + 1;
      NewCut(g, Run(g, before), r);
      assert arrivals[..m] == arrivals;
    }
  }

  /** Once a window has been cut, nothing accepted later is stamped before its end; and a
      later record can be stamped exactly at its end only if the last record accepted by
      then is stamped there too. */
  lemma Finality(g: Grid, arrivals: seq<Record>, n: nat, k: nat)
    requires n <= |arrivals| && k < |Windows(g, arrivals[..n])|
    ensures Windows(g, arrivals[..n]) <= Windows(g, arrivals)
    ensures Accepted(g, arrivals[..n]) != []
    ensures var (early, all) := (Accepted(g, arrivals[..n]), Accepted(g, arrivals));
            forall i | |early| <= i < |all| ::
              Windows(g, arrivals)[k].endTime <= early[|early| - 1].timestamp <= all[i].timestamp
  {
    var _, cut := KthWindow(g, arrivals[..n], k);
    RunPrefix(g, arrivals, n);
    Reachable(g, arrivals);
    SortedAfter(Accepted(g, arrivals), cut - 1, |Accepted(g, arrivals[..n])| - 1);
  }

  /** Up to but excluding its end, an emitted window already shows the whole history,
      past and future; only records stamped exactly at its end can still be missing. */
  lemma WindowsAreFinal(g: Grid, arrivals: seq<Record>, k: nat)
    requires k < |Windows(g, arrivals)|
    ensures var w := Windows(g, arrivals)[k];
            && Between(w.records, w.startTime, w.endTime - 1)
               == Between(Accepted(g, arrivals), w.startTime, w.endTime - 1)
            && w.records <= Between(Accepted(g, arrivals), w.startTime, w.endTime)
  {
    var _, cut := KthWindow(g, arrivals, k);
    Reachable(g, arrivals);
    CutIsFinal(g, Run(g, arrivals), Windows(g, arrivals)[k], k, cut);
  }

  lemma CutIsFinal(g: Grid, l: Log, w: Window, k: nat, cut: nat)
    requires Sorted(l.accepted) && CutAt(g, l, w, k, cut)
    ensures Between(w.records, w.startTime, w.endTime - 1) == Between(l.accepted, w.startTime, w.endTime - 1)
    ensures w.records <= Between(l.accepted, w.startTime, w.endTime)
  {
    var all, lo, hi := l.accepted, w.startTime, w.endTime;
    AfterCut(all, cut, hi);
    LateRecords(all, cut, lo, hi, w.records);
  }

  lemma AfterCut(h: seq<Record>, cut: nat, hi: Time)
    requires Sorted(h) && 0 < cut <= |h| && hi <= h[cut - 1].timestamp
    ensures forall i | cut <= i < |h| :: hi <= h[i].timestamp
  {
    SortedAfter(h, cut - 1, cut - 1);
  }

  lemma SortedAfter(h: seq<Record>, i: nat, j: nat)
    requires Sorted(h) && i <= j < |h|
    ensures h[i].timestamp <= h[j].timestamp
    ensures forall k | j <= k < |h| :: h[j].timestamp <= h[k].timestamp
  {
    SortedOrder(h);
  }

  lemma LateRecords(all: seq<Record>, cut: nat, lo: Time, hi: Time, rs: seq<Record>)
    requires cut <= |all| && rs == Between(all[..cut], lo, hi)
    requires forall i | cut <= i < |all| :: hi <= all[i].timestamp
    ensures Between(rs, lo, hi - 1) == Between(all, lo, hi - 1)
    ensures rs <= Between(all, lo, hi)
  {
    BetweenNarrow(all[..cut], lo, hi, hi - 1);
    assert all == all[..cut] + all[cut..];
    BetweenConcat(all[..cut], all[cut..], lo, hi);
    BetweenConcat(all[..cut], all[cut..], lo, hi - 1);
    BetweenNone(all[cut..], lo, hi - 1);
  }

  // ----- how many windows show a record -----

  /** The windows that show `r` before their end. */
  ghost function Showing(ws: seq<Window>, r: Record): set<int> {
    set k | 0 <= k < |ws| && r in ws[k].records && r.timestamp < ws[k].endTime
  }

  ghost function Interval(lo: int, hi: int): set<int>
    decreases hi - lo
  {
    if hi <= lo then {} else {lo} + Interval(lo + 1, hi)
  }

  lemma {:induction false} IntervalIs(lo: int, hi: int)
    ensures forall k :: k in Interval(lo, hi) <==> lo <= k < hi
    ensures |Interval(lo, hi)| == if lo <= hi then hi - lo else 0
    decreases hi - lo
  {
    if lo < hi {
      IntervalIs(lo + 1, hi);
    }
  }

  /** With the step dividing the size, every accepted record is shown by exactly
      size/step windows ending after it (fewer only for the first records of a run),
      once the windows that start at or before it have been emitted. */
  lemma Coverage(g: Grid, arrivals: seq<Record>, r: Record, q: nat)
    requires 0 < g.step && g.size == q * g.step
    requires r in Accepted(g, arrivals)
    requires (r.timestamp - First(Run(g, arrivals))) / g.step < |Windows(g, arrivals)|
    ensures var d := (r.timestamp - First(Run(g, arrivals))) / g.step;
            |Showing(Windows(g, arrivals), r)| == if q <= d + 1 then q else d + 1
  {
    var ws := Windows(g, arrivals);
    var last := (r.timestamp - First(Run(g, arrivals))) / g.step;
    FirstIsEarliest(g, arrivals, r);
    forall k | 0 <= k < |ws|
      ensures k in Showing(ws, r) <==> last + 1 - q <= k < last + 1
    {
      ShownIff(g, arrivals, r, q, k);
    }
    var lo := if q <= last + 1 then last + 1 - q else 0;
    IntervalIs(lo, last + 1);
    assert Showing(ws, r) == Interval(lo, last + 1);
  }

  lemma FirstIsEarliest(g: Grid, arrivals: seq<Record>, r: Record)
    requires 0 < g.step && r in Accepted(g, arrivals)
    ensures 0 <= (r.timestamp - First(Run(g, arrivals))) / g.step
  {
    Reachable(g, arrivals);
    SortedOrder(Accepted(g, arrivals));
    GridCells(g, r.timestamp - First(Run(g, arrivals)), 0);
  }

  lemma ShownIff(g: Grid, arrivals: seq<Record>, r: Record, q: nat, k: nat)
    requires 0 < g.step && g.size == q * g.step
    requires r in Accepted(g, arrivals) && k < |Windows(g, arrivals)|
    ensures var last := (r.timestamp - First(Run(g, arrivals))) / g.step;
            (r in Windows(g, arrivals)[k].records && r.timestamp < Windows(g, arrivals)[k].endTime)
            <==> last + 1 - q <= k < last + 1
  {
    var d := r.timestamp - First(Run(g, arrivals));
    WindowHolds(g, arrivals, r, k);
    CellSpan(g, d, q, k);
  }

  lemma CellSpan(g: Grid, d: int, q: nat, k: nat)
    requires 0 < g.step && g.size == q * g.step
    ensures Steps(g, k) <= d < Steps(g, k) + g.size <==> d / g.step + 1 - q <= k < d / g.step + 1
  {
    GridCells(g, d, k);
    GridCells(g, d, k + q);
    StepsAdd(g, k, q);
    StepsIsProduct(g, q);
  }

  /** Before its end, a window holds an accepted record exactly when its interval does. */
  lemma WindowHolds(g: Grid, arrivals: seq<Record>, r: Record, k: nat)
    requires k < |Windows(g, arrivals)| && r in Accepted(g, arrivals)
    ensures var (w, lo) := (Windows(g, arrivals)[k], StartOf(g, Run(g, arrivals), k));
            && w.endTime == lo + g.size
            && (r in w.records && r.timestamp < w.endTime <==> lo <= r.timestamp < lo + g.size)
  {
    var _, cut := KthWindow(g, arrivals, k);
    var w := Windows(g, arrivals)[k];
    WindowsAreFinal(g, arrivals, k);
    BetweenMember(w.records, w.startTime, w.endTime - 1, r);
    BetweenMember(Accepted(g, arrivals), w.startTime, w.endTime - 1, r);
    BetweenMember(Accepted(g, arrivals)[..cut], w.startTime, w.endTime, r);
  }

  /** At most one window of the grid ends exactly at a given record. */
  lemma OneWindowEndsAt(g: Grid, arrivals: seq<Record>, t: Time, j: nat, k: nat)
    requires g.step != 0 && j < |Windows(g, arrivals)| && k < |Windows(g, arrivals)|
    requires Windows(g, arrivals)[j].endTime == t == Windows(g, arrivals)[k].endTime
    ensures j == k
  {
    var _, _ := KthWindow(g, arrivals, j);
    var _, _ := KthWindow(g, arrivals, k);
    StepsInjective(g, j, k);
  }

  // ----- how many windows are cut, and when -----

  /** Number of grid windows that end by the time of the last record of `h`. */
  function Ended(g: Grid, h: seq<Record>): nat
    requires 0 < g.step
  {
    if h == [] then 0
    else
      var past := h[|h| - 1].timestamp - h[0].timestamp - g.size;
      if past < 0 then 0 else past / g.step + 1
  }

  /** How far the last accepted record is past the due window; negative when none is due. */
  function Lag(g: Grid, l: Log): int
    requires l.accepted != []
  {
    Last(l) - Due(g, l)
  }

  lemma EndedSplits(g: Grid, l: Log, k: nat)
    requires 0 < g.step && l.accepted != []
    ensures k < Ended(g, l.accepted) <==> StartOf(g, l, k) + g.size <= Last(l)
  {
    GridCells(g, Last(l) - First(l) - g.size, k);
  }

  lemma CountAgainstGrid(g: Grid, l: Log)
    requires 0 < g.step && l.accepted != [] && Coherent(g, l)
    ensures l.emitted <= Ended(g, l.accepted)
    ensures Lag(g, l) < 0 <==> l.emitted == Ended(g, l.accepted)
  {
    EndedSplits(g, l, l.emitted);
    if l.emitted > 0 {
      EndedSplits(g, l, l.emitted - 1);
    }
  }

  /** The detector never cuts more windows than the grid has seen end, and it has cut them
      all exactly when none is due. */
  lemma EmissionCount(g: Grid, arrivals: seq<Record>)
    requires 0 < g.step && arrivals != []
    ensures var l := Run(g, arrivals);
            && |Windows(g, arrivals)| <= Ended(g, l.accepted)
            && (Lag(g, l) < 0 <==> |Windows(g, arrivals)| == Ended(g, l.accepted))
  {
    Reachable(g, arrivals);
    EmittedIsCount(g, arrivals);
    CountAgainstGrid(g, Run(g, arrivals));
  }

  /** One accepted record raises the count by one, unless the grid has no further window. */
  lemma CountStep(g: Grid, l: Log, r: Record)
    requires 0 < g.step && Coherent(g, l) && Accepts(l, r)
    ensures var (l', most) := (Observe(g, l, r), Ended(g, l.accepted + [r]));
            l'.emitted == if most <= l.emitted then most else l.emitted + 1
  {
    var grown := Grow(l, r);
    AcceptCoherent(g, l, r);
    CountAgainstGrid(g, grown);
  }

  /** What the count can still be if exactly the first `j` records of `h` had all their
      windows cut and every record since then cut one. */
  function CountFrom(g: Grid, h: seq<Record>, j: nat): int
    requires 0 < g.step && j <= |h|
  {
    Ended(g, h[..j]) + |h| - j
  }

  ghost predicate LeastCount(g: Grid, h: seq<Record>, k: int)
    requires 0 < g.step
  {
    && (forall j: nat | j <= |h| :: k <= CountFrom(g, h, j))
    && (exists j: nat :: j <= |h| && k == CountFrom(g, h, j))
  }

  lemma CountFromSnoc(g: Grid, h: seq<Record>, r: Record, j: nat)
    requires 0 < g.step && j <= |h|
    ensures CountFrom(g, h + [r], j) == CountFrom(g, h, j) + 1
  {
    assert (h + [r])[..j] == h[..j];
  }

  lemma LeastCountStep(g: Grid, h: seq<Record>, r: Record, k: nat)
    requires 0 < g.step && LeastCount(g, h, k)
    ensures var most := Ended(g, h + [r]);
            LeastCount(g, h + [r], if most <= k then most else k + 1)
  {
    var h', most := h + [r], Ended(g, h + [r]);
    assert h'[..|h'|] == h' && CountFrom(g, h', |h'|) == most;
    var i: nat :| i <= |h| && k == CountFrom(g, h, i);
    forall j: nat | j <= |h|
      ensures CountFrom(g, h', j) == CountFrom(g, h, j) + 1
    {
      CountFromSnoc(g, h, r, j);
    }
    var k' := if most <= k then most else k + 1;
    assert k' == CountFrom(g, h', if most <= k then |h'| else i);
  }

  /** The exact count, for every run, in terms of the accepted times alone: the least, over
      all prefixes, of the windows ended by then plus the records accepted since. */
  lemma {:induction false} ExactCount(g: Grid, arrivals: seq<Record>)
    requires 0 < g.step
    ensures LeastCount(g, Accepted(g, arrivals), |Windows(g, arrivals)|)
  {
    EmittedIsCount(g, arrivals);
    if arrivals == [] {
      assert CountFrom(g, [], 0) == 0;
    } else {
      var before, r := Init(arrivals), arrivals[|arrivals| - 1];
      var l := Run(g, before);
      ExactCount(g, before);
      EmittedIsCount(g, before);
      Reachable(g, before);
      if Accepts(l, r) {
        CountStep(g, l, r);
        LeastCountStep(g, l.accepted, r, l.emitted);
      }
    }
  }

  /** The detector is up to date exactly if no stretch of the accepted records has seen more
      windows end than it has records. */
  lemma KeepsUpIff(g: Grid, arrivals: seq<Record>)
    requires 0 < g.step && arrivals != []
    ensures Accepted(g, arrivals) != []
    ensures var h := Accepted(g, arrivals);
            Lag(g, Run(g, arrivals)) < 0
            <==> forall j: nat | j <= |h| :: Ended(g, h) <= CountFrom(g, h, j)
  {
    Reachable(g, arrivals);
    EmissionCount(g, arrivals);
    ExactCount(g, arrivals);
    var h := Accepted(g, arrivals);
    assert h[..|h|] == h && CountFrom(g, h, |h|) == Ended(g, h);
  }

  /** If no gap between accepted records exceeds the step, the detector is never behind. */
  lemma {:induction false} SteadyStreamKeepsUp(g: Grid, arrivals: seq<Record>)
    requires 0 < g.step <= g.size && arrivals != []
    requires Steady(Accepted(g, arrivals), g.step)
    ensures Lag(g, Run(g, arrivals)) < 0
    ensures |Windows(g, arrivals)| == Ended(g, Run(g, arrivals).accepted)
  {
    var before, r := Init(arrivals), arrivals[|arrivals| - 1];
    if before != [] {
      var l := Run(g, before);
      Reachable(g, before);
      SteadyGap(g, l, r);
      SteadyStreamKeepsUp(g, before);
      if Accepts(l, r) {
        KeepsUpStep(g, l, r);
      }
    }
    EmissionCount(g, arrivals);
  }

  /** ... and none of the windows it cuts is empty. */
  lemma {:induction false} SteadyWindowsNotEmpty(g: Grid, arrivals: seq<Record>)
    requires 0 < g.step <= g.size
    requires Steady(Accepted(g, arrivals), g.step)
    ensures forall w | w in Windows(g, arrivals) :: w.records != []
  {
    if arrivals != [] {
      var before, r := Init(arrivals), arrivals[|arrivals| - 1];
      var l := Run(g, before);
      if before != [] {
        Reachable(g, before);
        SteadyGap(g, l, r);
        SteadyStreamKeepsUp(g, before);
        if Accepts(l, r) {
          KeepsUpStep(g, l, r);
        }
      }
      SteadyWindowsNotEmpty(g, before);
    }
  }

  lemma SteadyGap(g: Grid, l: Log, r: Record)
    requires l.accepted != [] && Steady(Observe(g, l, r).accepted, g.step)
    ensures Steady(l.accepted, g.step)
    ensures Accepts(l, r) ==> r.timestamp - Last(l) <= g.step
  {
    var h, n := Observe(g, l, r).accepted, |l.accepted|;
    assert forall i | 0 <= i < n :: l.accepted[i] == h[i];
    if Accepts(l, r) {
      assert h[n] == r && h[n - 1] == l.accepted[n - 1];
    }
  }

  lemma KeepsUpStep(g: Grid, l: Log, r: Record)
    requires 0 < g.step <= g.size && l.accepted != [] && Lag(g, l) < 0
    requires Accepts(l, r) && r.timestamp - Last(l) <= g.step
    ensures Lag(g, Observe(g, l, r)) < 0
    ensures var out := Emission(g, l, r); out.Some? ==> out.value.records != []
  {
    var last := l.accepted[|l.accepted| - 1];
    assert last in Grow(l, r).accepted;
    BetweenMember(Grow(l, r).accepted, Due(g, l) - g.size, Due(g, l), last);
  }

  /** While the detector is behind, every accepted record cuts one window: the lag shrinks
      by one step and grows by the time that passes. */
  lemma BehindStep(g: Grid, l: Log, r: Record)
    requires l.accepted != [] && 0 <= Lag(g, l) && Accepts(l, r)
    ensures var l' := Observe(g, l, r);
            && Emission(g, l, r).Some? && l'.accepted == l.accepted + [r]
            && Lag(g, l') == Lag(g, l) + (r.timestamp - Last(l)) - g.step
  {
  }

  lemma {:induction false} RunCons(g: Grid, l: Log, r: Record, more: seq<Record>)
    ensures RunFrom(g, l, [r] + more) == RunFrom(g, Observe(g, l, r), more)
  {
    var all := [r] + more;
    if more == [] {
      assert all[..0] == [];
    } else {
      assert Init(all) == [r] + Init(more);
      RunCons(g, l, r, Init(more));
    }
  }

  /** Time from the last record of `l` to the last of `more`. */
  function Span(l: Log, more: seq<Record>): int
    requires l.accepted != []
  {
    if more == [] then 0 else more[|more| - 1].timestamp - Last(l)
  }

  /** However large the gap that put it behind, the detector catches up: once the steps of
      the further records exceed the lag plus the time they span, it has been up to date. */
  lemma {:induction false} CatchesUp(g: Grid, l: Log, more: seq<Record>) returns (j: nat)
    requires l.accepted != [] && Sorted([l.accepted[|l.accepted| - 1]] + more)
    requires Lag(g, l) + Span(l, more) < Steps(g, |more|)
    ensures j <= |more| && RunFrom(g, l, more[..j]).accepted != []
    ensures Lag(g, RunFrom(g, l, more[..j])) < 0
    decreases |more|
  {
    if Lag(g, l) < 0 {
      j := 0;
    } else {
      CatchStep(g, l, more);
      var i := CatchesUp(g, Observe(g, l, more[0]), more[1..]);
      RunTail(g, l, more, i);
      j := i + 1;
    }
  }

  lemma RunTail(g: Grid, l: Log, more: seq<Record>, i: nat)
    requires i < |more|
    ensures RunFrom(g, l, more[..i + 1]) == RunFrom(g, Observe(g, l, more[0]), more[1..][..i])
  {
    RunCons(g, l, more[0], more[1..][..i]);
    assert [more[0]] + more[1..][..i] == more[..i + 1];
  }

  lemma CatchStep(g: Grid, l: Log, more: seq<Record>)
    requires l.accepted != [] && Sorted([l.accepted[|l.accepted| - 1]] + more)
    requires 0 <= Lag(g, l) && Lag(g, l) + Span(l, more) < Steps(g, |more|)
    ensures more != []
    ensures var l' := Observe(g, l, more[0]);
            && l'.accepted == l.accepted + [more[0]] && Sorted([more[0]] + more[1..])
            && Lag(g, l') + Span(l', more[1..]) < Steps(g, |more| - 1)
  {
    var last := l.accepted[|l.accepted| - 1];
    SortedAt([last] + more, 0, 1);
    SortedTail([last] + more);
    assert ([last] + more)[1..] == more == [more[0]] + more[1..];
    BehindStep(g, l, more[0]);
  }

  lemma {:induction false} SortedTail(h: seq<Record>)
    requires Sorted(h) && h != []
    ensures Sorted(h[1..])
  {
    if |h| > 2 {
      SortedTail(Init(h));
      assert Init(h)[1..] == h[1..][..|h| - 2];
    }
  }

  // ----- what the deque holds -----

  /** The deque holds exactly the accepted records a future window can ask for. */
  ghost predicate Exact(g: Grid, l: Log) {
    l.accepted != [] ==> l.dropped == CountBefore(l.accepted, Due(g, l) - g.size)
  }

  lemma CutIsExact(g: Grid, l: Log)
    requires l.accepted != []
    ensures Exact(g, Cut(g, l)) && Due(g, Cut(g, l)) == Due(g, l) + g.step
  {
  }

  lemma GrowIsExact(g: Grid, l: Log, r: Record)
    requires g.step <= g.size && Coherent(g, l) && Exact(g, l) && Accepts(l, r)
    requires l.accepted != []
    ensures Exact(g, Grow(l, r))
  {
    CountBeforeSnoc(l.accepted, r, Due(g, l) - g.size);
    if l.emitted == 0 {
      SortedAt(l.accepted, 0, |l.accepted| - 1);
    }
  }

  lemma ExactStep(g: Grid, l: Log, r: Record)
    requires g.step <= g.size && Coherent(g, l) && Exact(g, l) && Accepts(l, r)
    ensures Exact(g, Observe(g, l, r))
  {
    if Triggers(g, l, r) {
      CutIsExact(g, Grow(l, r));
    } else if l.accepted == [] {
      assert CountBefore([], r.timestamp) == 0;
      CountBeforeSnoc([], r, r.timestamp);
      assert Grow(l, r).accepted == [] + [r];
    } else {
      GrowIsExact(g, l, r);
    }
  }

  lemma {:induction false} ExactWhenOverlapping(g: Grid, arrivals: seq<Record>)
    requires g.step <= g.size
    ensures Exact(g, Run(g, arrivals))
  {
    if arrivals != [] {
      var l := Run(g, Init(arrivals));
      ExactWhenOverlapping(g, Init(arrivals));
      Reachable(g, Init(arrivals));
      if Accepts(l, arrivals[|arrivals| - 1]) {
        ExactStep(g, l, arrivals[|arrivals| - 1]);
      }
    }
  }

  /** Windows that overlap or touch are exactly the condition under which the deque is
      never larger than it has to be. */
  lemma ExactIffOverlapping(g: Grid)
    requires 0 <= g.size
    ensures (forall arrivals :: Exact(g, Run(g, arrivals))) <==> g.step <= g.size
  {
    if g.step <= g.size {
      forall arrivals
        ensures Exact(g, Run(g, arrivals))
      {
        ExactWhenOverlapping(g, arrivals);
      }
    } else {
      StaleRecord(g);
      assert !Exact(g, Run(g, StaleRun(g)));
    }
  }

  ghost function At(t: Time): Record {
    Record(t, "Modbus", true, false, 3, 0)
  }

  /** The last record falls into the hole between the first window and the second. */
  ghost function StaleRun(g: Grid): seq<Record> {
    if g.size == 0 then [At(0), At(0)] else [At(0), At(g.size), At(g.size)]
  }

  /** A record that arrives in the hole between two windows stays in the deque. */
  lemma HoleStep(g: Grid, l: Log, r: Record)
    requires l.accepted != [] && Exact(g, l) && Accepts(l, r)
    requires r.timestamp < Due(g, l) && r.timestamp < Due(g, l) - g.size
    ensures !Exact(g, Observe(g, l, r))
  {
    CountBeforeSnoc(l.accepted, r, Due(g, l) - g.size);
  }

  lemma RunTwo(g: Grid, l: Log, r: Record, s: Record)
    ensures RunFrom(g, l, [r, s]) == Observe(g, Observe(g, l, r), s)
  {
    assert [r, s][..1] == [r] && [r][..0] == [];
    assert RunFrom(g, l, [r]) == Observe(g, l, r);
  }

  lemma StaleRecord(g: Grid)
    requires 0 <= g.size < g.step
    ensures !Exact(g, Run(g, StaleRun(g)))
  {
    var a, b := At(0), At(g.size);
    var first := Log([a], 0, 0);
    assert Grow(EMPTY, a) == first;
    if g.size == 0 {
      RunTwo(g, EMPTY, a, a);
      CutIsExact(g, first);
      HoleStep(g, Cut(g, first), a);
    } else {
      StaleRunEnds(g);
      CutIsExact(g, Grow(first, b));
      HoleStep(g, Cut(g, Grow(first, b)), b);
    }
  }

  lemma StaleRunEnds(g: Grid)
    requires 0 < g.size
    ensures Run(g, StaleRun(g)) == Observe(g, Cut(g, Grow(Log([At(0)], 0, 0), At(g.size))), At(g.size))
  {
    var a, b := At(0), At(g.size);
    assert Observe(g, EMPTY, a) == Log([a], 0, 0);
    assert StaleRun(g) == [a] + [b, b];
    RunCons(g, EMPTY, a, [b, b]);
    RunTwo(g, Log([a], 0, 0), b, b);
  }
}
