/** The eight features of a window. */
module Features {
  import opened Types
  import opened History
  import opened Maths
  import opened Counting
  import opened Entropy
  import opened Timing
  import opened RealArithmetic

  const COUNT := 0
  const WRITE_RATIO := 1
  const FUNCTION_CONCENTRATION := 2
  const ADDRESS_ENTROPY := 3
  const PROTOCOL_DOMINANCE := 4
  const MEAN_INTERARRIVAL := 5
  const INTERARRIVAL_DEVIATION := 6
  const TARGET_DENSITY := 7

  function Functions(rs: seq<Record>): seq<Byte> {
    Project(rs, (r: Record) => r.functionCode)
  }

  function Addresses(rs: seq<Record>): seq<Word> {
    Project(rs, (r: Record) => r.address)
  }

  function Protocols(rs: seq<Record>): seq<string> {
    Project(rs, (r: Record) => r.protocol)
  }

  function WriteFlags(rs: seq<Record>): seq<bool> {
    Project(rs, (r: Record) => r.isWrite)
  }

  function Writes(rs: seq<Record>): nat {
    multiset(WriteFlags(rs))[true]
  }

  const NO_FEATURES: seq<real> := [0.0, 0.0, 0.0, 0.0, 0.0, 0.0, 0.0, 0.0]

  /** What the features of a window mean, independent of how they are computed. */
  ghost function FeaturesOf(lib: Library, rs: seq<Record>): seq<real> {
    if rs == [] then NO_FEATURES
    else [
      |rs| as real,
      Share(Writes(rs), |rs|),
      Share(Peak(Functions(rs)), |rs|),
      EntropyOf(lib.log2, Addresses(rs)),
      Share(Peak(Protocols(rs)), |rs|),
      Mean(Deltas(rs)),
      if |rs| == 1 then 0.0 else lib.sqrt(Variance(Deltas(rs))),
      Share(Peak(Addresses(rs)), |rs|)]
  }

  // ----- the loops of the extractor -----

  method Increment<K>(counts: map<K, nat>, k: K) returns (counts': map<K, nat>)
    ensures counts' == counts[k := if k in counts then counts[k] + 1 else 1]
  {
    counts' := counts[k := if k in counts then counts[k] + 1 else 1];
  }

  lemma HistogramSnoc<K>(keys: seq<K>, k: K)
    ensures Histogram(keys + [k])
            == Histogram(keys)[k := if k in Histogram(keys) then Histogram(keys)[k] + 1 else 1]
  {
    assert multiset(keys + [k]) == multiset(keys) + multiset{k};
  }

  /** The largest counter of a hash map, whatever order it is iterated in. */
  method LargestCount<K(!new)>(ghost keys: seq<K>, counts: map<K, nat>) returns (largest: nat)
    requires counts == Histogram(keys)
    ensures largest == Peak(keys)
  {
    PeakIsMaximum(keys);
    largest := 0;
    var rest := counts.Keys;
    while rest != {}
      invariant rest <= counts.Keys
      invariant forall k | k in counts.Keys - rest :: counts[k] <= largest
      invariant largest == 0 || exists k :: k in counts && counts[k] == largest
      decreases |rest|
    {
      var k :| k in rest;
      if counts[k] > largest {
        largest := counts[k];
      }
      rest := rest - {k};
    }
    assert counts.Keys - rest == counts.Keys;
    forall k | k in keys
      ensures multiset(keys)[k] <= largest
    {
      assert k in counts.Keys && counts[k] == multiset(keys)[k];
    }
  }

  method AddressEntropy(log2: real -> real, ghost keys: seq<Word>, counts: map<Word, nat>, total: nat)
    returns (entropy: real)
    requires keys != [] && counts == Histogram(keys) && total == |keys|
    ensures entropy == EntropyOf(log2, keys)
  {
    ghost var all := Distinct(keys);
    entropy := 0.0;
    var rest := counts.Keys;
    assert all == counts.Keys && all - rest == {};
    while rest != {}
      invariant rest <= all == counts.Keys
      invariant entropy == SumOver(all - rest, TermOf(log2, keys))
      decreases |rest|
    {
      var k :| k in rest;
      var p := Share(counts[k], total);
      EntropyStep(log2, keys, rest, k, p);
      if p > 0.0 {
        entropy := entropy - PLogP(log2, p);
      }
      rest := rest - {k};
    }
    assert all - rest == all;
  }

  lemma EntropyStep<K(!new)>(log2: real -> real, keys: seq<K>, rest: set<K>, k: K, p: real)
    requires k in rest && k in keys && p == Share(multiset(keys)[k], |keys|)
    ensures 0.0 < p
    ensures SumOver(Distinct(keys) - (rest - {k}), TermOf(log2, keys))
            == SumOver(Distinct(keys) - rest, TermOf(log2, keys)) - PLogP(log2, p)
  {
    PeakIsMaximum(keys);
    PeakIsAll(keys);
    ShareRange(multiset(keys)[k], |keys|, |keys|);
    var done := Distinct(keys) - (rest - {k});
    SumPick(done, TermOf(log2, keys), k);
    assert done - {k} == Distinct(keys) - rest;
  }

  method Interarrivals(rs: seq<Record>) returns (deltas: seq<real>)
    requires |rs| > 1
    ensures deltas == Deltas(rs)
  {
    deltas := [];
    assert Deltas(rs[..1]) == [];
    for i := 1 to |rs|
      invariant deltas == Deltas(rs[..i])
    {
      assert rs[..i + 1] == rs[..i] + [rs[i]];
      DeltasSnoc(rs[..i], rs[i]);
      deltas := deltas + [Seconds(rs[i].timestamp - rs[i - 1].timestamp)];
    }
    assert rs[..|rs|] == rs;
  }

  method MeanOf(deltas: seq<real>) returns (mean: real)
    requires deltas != []
    ensures mean == Mean(deltas)
  {
    var sum := 0.0;
    for i := 0 to |deltas|
      invariant sum == Sum(deltas[..i])
    {
      assert deltas[..i + 1][..i] == deltas[..i];
      sum := sum + deltas[i];
    }
    assert deltas[..|deltas|] == deltas;
    mean := sum / |deltas| as real;
  }

  method VarianceOf(deltas: seq<real>, mean: real) returns (variance: real)
    requires deltas != [] && mean == Mean(deltas)
    ensures variance == Variance(deltas)
  {
    var squares := 0.0;
    for i := 0 to |deltas|
      invariant squares == SquaresAbout(deltas[..i], mean)
    {
      assert deltas[..i + 1][..i] == deltas[..i];
      squares := squares + (deltas[i] - mean) * (deltas[i] - mean);
    }
    assert deltas[..|deltas|] == deltas;
    variance := squares / |deltas| as real;
  }

  class FeatureExtractor {
    const lib: Library

    constructor (lib: Library)
      ensures this.lib == lib
    {
      this.lib := lib;
    }

    method Compute(window: Window) returns (fv: FeatureVector)
      ensures fv.values == FeaturesOf(lib, window.records)
    {
      var rs := window.records;
      var n := |rs|;
      if n == 0 {
        return FeatureVector(NO_FEATURES);
      }
      var writes, functionCounts, addressCounts, protocolCounts := CountAll(rs);
      var total := n as real;
      var largestFunction := LargestCount(Functions(rs), functionCounts);
      var entropy := AddressEntropy(lib.log2, Addresses(rs), addressCounts, n);
      var largestProtocol := LargestCount(Protocols(rs), protocolCounts);
      var meanInterarrival, deviation := 0.0, 0.0;
      if n > 1 {
        var deltas := Interarrivals(rs);
        meanInterarrival := MeanOf(deltas);
        var variance := VarianceOf(deltas, meanInterarrival);
        deviation := lib.sqrt(variance);
      }
      var largestAddress := LargestCount(Addresses(rs), addressCounts);
      fv := FeatureVector([
        total,
        writes as real / total,
        largestFunction as real / total,
        entropy,
        largestProtocol as real / total,
        meanInterarrival,
        deviation,
        largestAddress as real / total]);
    }

    /** One pass over the records, filling the write counter and the three hash maps. */
    method CountAll(rs: seq<Record>)
      returns (writes: nat, functions: map<Byte, nat>, addresses: map<Word, nat>, protocols: map<string, nat>)
      ensures writes == Writes(rs)
      ensures functions == Histogram(Functions(rs))
      ensures addresses == Histogram(Addresses(rs))
      ensures protocols == Histogram(Protocols(rs))
    {
      writes, functions, addresses, protocols := 0, map[], map[], map[];
      for i := 0 to |rs|
        invariant writes == Writes(rs[..i])
        invariant functions == Histogram(Functions(rs[..i]))
        invariant addresses == Histogram(Addresses(rs[..i]))
        invariant protocols == Histogram(Protocols(rs[..i]))
      {
        var r := rs[i];
        ProjectionsSnoc(rs, i);
        HistogramSnoc(Functions(rs[..i]), r.functionCode);
        HistogramSnoc(Addresses(rs[..i]), r.address);
        HistogramSnoc(Protocols(rs[..i]), r.protocol);
        if r.isWrite {
          writes := writes + 1;
        }
        functions := Increment(functions, r.functionCode);
        addresses := Increment(addresses, r.address);
        protocols := Increment(protocols, r.protocol);
      }
      assert rs[..|rs|] == rs;
    }
  }

  lemma ProjectionsSnoc(rs: seq<Record>, i: nat)
    requires i < |rs|
    ensures Functions(rs[..i + 1]) == Functions(rs[..i]) + [rs[i].functionCode]
    ensures Addresses(rs[..i + 1]) == Addresses(rs[..i]) + [rs[i].address]
    ensures Protocols(rs[..i + 1]) == Protocols(rs[..i]) + [rs[i].protocol]
    ensures Writes(rs[..i + 1]) == Writes(rs[..i]) + if rs[i].isWrite then 1 else 0
  {
    assert WriteFlags(rs[..i + 1]) == WriteFlags(rs[..i]) + [rs[i].isWrite];
  }

  /** Everything but the timing features is a function of the multiset of records. */
  lemma OrderIndependence(lib: Library, a: seq<Record>, b: seq<Record>, i: nat)
    requires multiset(a) == multiset(b)
    requires i < 8 && i != MEAN_INTERARRIVAL && i != INTERARRIVAL_DEVIATION
    ensures FeaturesOf(lib, a)[i] == FeaturesOf(lib, b)[i]
  {
    assert |a| == |multiset(a)| == |b|;
    ProjectReordered(a, b, (r: Record) => r.functionCode);
    ProjectReordered(a, b, (r: Record) => r.address);
    ProjectReordered(a, b, (r: Record) => r.protocol);
    ProjectReordered(a, b, (r: Record) => r.isWrite);
    PeakReordered(Functions(a), Functions(b));
    PeakReordered(Addresses(a), Addresses(b));
    PeakReordered(Protocols(a), Protocols(b));
    if a != [] {
      EntropyReordered(lib.log2, Addresses(a), Addresses(b));
    }
  }

  /** No record is lost or counted twice: the counters of each hash map add up to the count
      feature. */
  lemma CountsConserved(lib: Library, rs: seq<Record>)
    ensures Total(Histogram(Functions(rs))) == |rs| as real == FeaturesOf(lib, rs)[COUNT]
    ensures Total(Histogram(Addresses(rs))) == |rs| as real
    ensures Total(Histogram(Protocols(rs))) == |rs| as real
  {
    CountsAddUp(Functions(rs));
    CountsAddUp(Addresses(rs));
    CountsAddUp(Protocols(rs));
  }

  /** A dominance feature is the share of the most frequent key; it lies between an even share
      among the distinct keys and everything. */
  ghost predicate DominanceOf<K>(share: real, keys: seq<K>) {
    && LargestShare(keys, share)
    && 0 < |Distinct(keys)| && 1.0 / |Distinct(keys)| as real <= share <= 1.0
  }

  lemma FunctionDominance(lib: Library, rs: seq<Record>)
    requires rs != []
    ensures DominanceOf(FeaturesOf(lib, rs)[FUNCTION_CONCENTRATION], Functions(rs))
  {
    Dominance(Functions(rs));
  }

  lemma AddressDominance(lib: Library, rs: seq<Record>)
    requires rs != []
    ensures DominanceOf(FeaturesOf(lib, rs)[TARGET_DENSITY], Addresses(rs))
  {
    Dominance(Addresses(rs));
  }

  lemma ProtocolDominance(lib: Library, rs: seq<Record>)
    requires rs != []
    ensures DominanceOf(FeaturesOf(lib, rs)[PROTOCOL_DOMINANCE], Protocols(rs))
  {
    Dominance(Protocols(rs));
  }

  /** The positions of the writes in a window. */
  ghost function WritePositions(rs: seq<Record>): set<int> {
    set i | 0 <= i < |rs| && rs[i].isWrite
  }

  lemma {:induction false} WritesAreCounted(rs: seq<Record>)
    ensures Writes(rs) == |WritePositions(rs)|
  {
    if rs != [] {
      var n := |rs| - 1;
      WritesAreCounted(rs[..n]);
      ProjectionsSnoc(rs, n);
      assert rs[..n + 1] == rs;
      assert WritePositions(rs) == WritePositions(rs[..n]) + if rs[n].isWrite then {n} else {};
    }
  }

  /** The write ratio, for each record, adds up to the number of writes. */
  lemma WriteFeature(lib: Library, rs: seq<Record>)
    requires rs != []
    ensures Copies(FeaturesOf(lib, rs)[WRITE_RATIO], |rs|) == |WritePositions(rs)| as real
  {
    WritesAreCounted(rs);
    QuotientOfCopies(Writes(rs) as real, |rs|);
  }

  /** The entropy feature against the other features of the same window. */
  lemma EntropyFeature(lib: Library, rs: seq<Record>)
    requires Lawful(lib) && rs != []
    ensures var (h, density) := (FeaturesOf(lib, rs)[ADDRESS_ENTROPY], FeaturesOf(lib, rs)[TARGET_DENSITY]);
            var distinct := |Distinct(Addresses(rs))|;
            && 0.0 <= h && -lib.log2(density) <= h
            && 0 < distinct && h <= lib.log2(distinct as real)
            && (h == 0.0 <==> distinct == 1)
  {
    EntropyZero(lib.log2, Addresses(rs));
    EntropyAtLeast(lib.log2, Addresses(rs));
    EntropyAtMost(lib.log2, Addresses(rs));
  }

  /** The mean inter-arrival time is the time from first to last over the number of gaps. */
  lemma MeanFeature(lib: Library, rs: seq<Record>)
    ensures FeaturesOf(lib, rs)[MEAN_INTERARRIVAL]
            == if |rs| < 2 then 0.0
               else (rs[|rs| - 1].timestamp - rs[0].timestamp) as real / 1_000_000_000.0 / (|rs| - 1) as real
  {
    if 0 < |rs| {
      DeltasTelescope(rs);
    }
  }

  lemma RootSquared(sqrt: real -> real, v: real, root: real)
    requires SqrtLaw(sqrt) && 0.0 <= v && root == sqrt(v)
    ensures 0.0 <= root && Square(root) == v
  {
  }

  lemma DeviationSquared(lib: Library, rs: seq<Record>, deviation: real)
    requires SqrtLaw(lib.sqrt) && deviation == FeaturesOf(lib, rs)[INTERARRIVAL_DEVIATION]
    ensures 0.0 <= deviation && Square(deviation) == Variance(Deltas(rs))
    ensures |rs| < 2 ==> deviation == 0.0
  {
    VarianceNonNegative(Deltas(rs));
    if |rs| < 2 {
      assert Deltas(rs) == [] && deviation == 0.0;
    } else {
      RootSquared(lib.sqrt, Variance(Deltas(rs)), deviation);
    }
  }

  /** The times between neighbouring records, read off their stamps. */
  ghost predicate AreGaps(rs: seq<Record>, ds: seq<real>) {
    && |ds| == (if rs == [] then 0 else |rs| - 1)
    && forall i | 0 <= i < |ds| :: ds[i] == (rs[i + 1].timestamp - rs[i].timestamp) as real / 1_000_000_000.0
  }

  /** The deviation feature, without the mean: its square, for each pair of gaps, is half the
      squared differences of all pairs of gaps. */
  lemma DeviationFeature(lib: Library, rs: seq<Record>, ds: seq<real>)
    requires SqrtLaw(lib.sqrt) && AreGaps(rs, ds)
    ensures var deviation := FeaturesOf(lib, rs)[INTERARRIVAL_DEVIATION];
            && 0.0 <= deviation && (|rs| < 2 ==> deviation == 0.0)
            && 2.0 * Copies(Copies(Square(deviation), |ds|), |ds|) == Sum(Spreads(ds, ds))
  {
    GapsAreDeltas(rs, ds);
    DeviationSquared(lib, rs, FeaturesOf(lib, rs)[INTERARRIVAL_DEVIATION]);
    PairwiseVariance(ds);
  }

  lemma GapsAreDeltas(rs: seq<Record>, ds: seq<real>)
    requires AreGaps(rs, ds)
    ensures ds == Deltas(rs)
  {
    forall i | 0 <= i < |ds|
      ensures ds[i] == Deltas(rs)[i]
    {
      DeltaAt(rs, i);
    }
  }
}
