/** The simple definition of the sliding-window index. It forgets nothing: it keeps
    every accepted record and cuts each window out of the whole history. */
module Reference {
  import opened Types
  import opened History

  /** Window length and distance between two windows, in nanoseconds. */
  datatype Grid = Grid(size: int, step: int)

  /** Accepted records, number of windows cut so far, and how many of the oldest
      records no later window can ask for. */
  datatype Log = Log(accepted: seq<Record>, emitted: nat, dropped: nat)

  const EMPTY := Log([], 0, 0)

  predicate Accepts(l: Log, r: Record) {
    l.accepted == [] || l.accepted[|l.accepted| - 1].timestamp <= r.timestamp
  }

  function First(l: Log): Time
    requires l.accepted != []
  {
    l.accepted[0].timestamp
  }

  function Last(l: Log): Time
    requires l.accepted != []
  {
    l.accepted[|l.accepted| - 1].timestamp
  }

  /** How far `k` steps move along the grid. */
  function Steps(g: Grid, k: nat): int {
    if k == 0 then 0 else Steps(g, k - 1) + g.step
  }

  lemma {:induction false} StepsIsProduct(g: Grid, k: nat)
    ensures Steps(g, k) == k * g.step
  {
    if k > 0 {
      StepsIsProduct(g, k - 1);
    }
  }

  /** Where the k-th window starts. */
  function StartOf(g: Grid, l: Log, k: nat): Time
    requires l.accepted != []
  {
    First(l) + Steps(g, k)
  }

  /** The grid point at which the next window ends. */
  function Due(g: Grid, l: Log): Time
    requires l.accepted != []
  {
    StartOf(g, l, l.emitted) + g.size
  }

  function WindowOf(h: seq<Record>, lo: Time, hi: Time): Window {
    Window(lo, hi, Between(h, lo, hi))
  }

  /** The log after its due window has been cut. */
  function Cut(g: Grid, l: Log): Log
    requires l.accepted != []
  {
    var next := l.(emitted := l.emitted + 1);
    next.(dropped := CountBefore(l.accepted, Due(g, next) - g.size))
  }

  function Grow(l: Log, r: Record): Log {
    l.(accepted := l.accepted + [r])
  }

  /** Whether `r` is accepted and is the one that makes the next window due. */
  predicate Triggers(g: Grid, l: Log, r: Record) {
    Accepts(l, r) && Due(g, Grow(l, r)) <= r.timestamp
  }

  function Observe(g: Grid, l: Log, r: Record): Log {
    if Triggers(g, l, r) then Cut(g, Grow(l, r))
    else if Accepts(l, r) then Grow(l, r)
    else l
  }

  /** The window that `r` makes the detector cut: the one due, out of the whole history. */
  function Emission(g: Grid, l: Log, r: Record): Option<Window> {
    if Triggers(g, l, r) then
      var due := Due(g, Grow(l, r));
      Some(WindowOf(Grow(l, r).accepted, due - g.size, due))
    else None
  }

  function RunFrom(g: Grid, l: Log, arrivals: seq<Record>): Log {
    if arrivals == [] then l
    else Observe(g, RunFrom(g, l, arrivals[..|arrivals| - 1]), arrivals[|arrivals| - 1])
  }

  function WindowsFrom(g: Grid, l: Log, arrivals: seq<Record>): seq<Window> {
    if arrivals == [] then []
    else
      var before := arrivals[..|arrivals| - 1];
      var out := Emission(g, RunFrom(g, l, before), arrivals[|arrivals| - 1]);
      if out.Some? then WindowsFrom(g, l, before) + [out.value] else WindowsFrom(g, l, before)
  }

  function Run(g: Grid, arrivals: seq<Record>): Log {
    RunFrom(g, EMPTY, arrivals)
  }

  function Windows(g: Grid, arrivals: seq<Record>): seq<Window> {
    WindowsFrom(g, EMPTY, arrivals)
  }

  /** What every reachable log satisfies. */
  ghost predicate Coherent(g: Grid, l: Log) {
    && Sorted(l.accepted)
    && (l.accepted == [] ==> l.emitted == 0 && l.dropped == 0)
    && (l.accepted != [] ==>
          && l.dropped <= CountBefore(l.accepted, Due(g, l) - g.size)
          && (l.emitted == 0 || g.step < 0 ==> l.dropped == 0)
          && (l.emitted > 0 ==> Due(g, l) - g.step <= Last(l)))
  }

  lemma {:induction false} StepsAdd(g: Grid, j: nat, k: nat)
    ensures Steps(g, j + k) == Steps(g, j) + Steps(g, k)
  {
    if k > 0 {
      StepsAdd(g, j, k - 1);
    }
  }

  lemma StepsInjective(g: Grid, j: nat, k: nat)
    requires g.step != 0 && Steps(g, j) == Steps(g, k)
    ensures j == k
  {
    StepsIsProduct(g, j);
    StepsIsProduct(g, k);
    assert (j - k) * g.step == 0;
  }

  /** Multiples of a positive step are cut off by division. */
  lemma GridCells(g: Grid, d: int, k: nat)
    requires g.step > 0
    ensures Steps(g, k) <= d <==> k <= d / g.step
    ensures d < 0 <==> d / g.step < 0
  {
    StepsIsProduct(g, k);
    CutOff(d, g.step, k);
    CutOff(d, g.step, 0);
  }

  lemma CutOff(d: int, step: int, k: int)
    requires step > 0
    ensures k * step <= d <==> k <= d / step
  {
    var q := d / step;
    assert q * step <= d < q * step + step;
    if k <= q {
      assert (q - k) * step >= 0;
    } else {
      assert (k - q - 1) * step >= 0;
    }
  }

  /** With a negative step the windows walk back before the first record. */
  lemma {:induction false} NegativeSteps(g: Grid, k: nat)
    requires g.step < 0
    ensures Steps(g, k) <= 0
  {
    if k > 0 {
      NegativeSteps(g, k - 1);
    }
  }

  /** Accepting a record, before any window is cut. */
  lemma AcceptCoherent(g: Grid, l: Log, r: Record)
    requires Coherent(g, l) && Accepts(l, r)
    ensures Coherent(g, Grow(l, r))
  {
    var grown := Grow(l, r);
    SortedSnoc(l.accepted, r);
    if l.accepted != [] {
      assert Due(g, grown) == Due(g, l);
      CountBeforeSnoc(l.accepted, r, Due(g, l) - g.size);
    }
  }

  /** Cutting a window that is due. */
  lemma CutCoherent(g: Grid, l: Log)
    requires Coherent(g, l) && l.accepted != [] && Due(g, l) <= Last(l)
    ensures Coherent(g, Cut(g, l)) && Due(g, Cut(g, l)) == Due(g, l) + g.step
    ensures l.dropped <= Cut(g, l).dropped <= |l.accepted|
  {
    var oldestNeeded := Due(g, l) + g.step - g.size;
    CountBeforeSplits(l.accepted, oldestNeeded);
    if g.step < 0 {
      NegativeSteps(g, l.emitted + 1);
    } else {
      CountBeforeBound(l.accepted, oldestNeeded - g.step, oldestNeeded);
    }
  }

  lemma ObserveCoherent(g: Grid, l: Log, r: Record)
    requires Coherent(g, l)
    ensures Coherent(g, Observe(g, l, r))
  {
    if Accepts(l, r) {
      AcceptCoherent(g, l, r);
      var grown := Grow(l, r);
      if Due(g, grown) <= r.timestamp {
        CutCoherent(g, grown);
      }
    }
  }

  lemma {:induction false} RunCoherent(g: Grid, l: Log, arrivals: seq<Record>)
    requires Coherent(g, l)
    ensures Coherent(g, RunFrom(g, l, arrivals))
  {
    if arrivals != [] {
      var before := arrivals[..|arrivals| - 1];
      RunCoherent(g, l, before);
      ObserveCoherent(g, RunFrom(g, l, before), arrivals[|arrivals| - 1]);
    }
  }

  /** Filtering the retained records gives the window cut out of the whole history. */
  lemma PrunedFilter(g: Grid, l: Log, hi: Time)
    requires Coherent(g, l) && l.accepted != []
    ensures l.dropped <= |l.accepted|
    ensures Between(l.accepted[l.dropped..], Due(g, l) - g.size, hi) == Between(l.accepted, Due(g, l) - g.size, hi)
  {
    CountBeforeSplits(l.accepted, Due(g, l) - g.size);
    BetweenSuffix(l.accepted, l.dropped, Due(g, l) - g.size, hi);
  }
}
