/** Sequences of records ordered by time: interval filtering and counting. */
module History {
  import opened Types

  /** Each record is stamped no earlier than the one before it. */
  ghost predicate Sorted(h: seq<Record>) {
    |h| > 1 ==> h[|h| - 2].timestamp <= h[|h| - 1].timestamp && Sorted(h[..|h| - 1])
  }

  lemma {:induction false} SortedOrder(h: seq<Record>)
    requires Sorted(h)
    ensures forall i, j | 0 <= i <= j < |h| :: h[i].timestamp <= h[j].timestamp
  {
    if |h| > 1 {
      var g := h[..|h| - 1];
      SortedOrder(g);
      assert forall i | 0 <= i < |g| :: g[i] == h[i] && h[i].timestamp <= g[|g| - 1].timestamp;
    }
  }

  lemma SortedAt(h: seq<Record>, i: nat, j: nat)
    requires Sorted(h) && i <= j < |h|
    ensures h[i].timestamp <= h[j].timestamp
  {
    SortedOrder(h);
  }

  lemma {:induction false} SortedSlice(h: seq<Record>, a: nat, b: nat)
    requires Sorted(h) && a <= b <= |h|
    ensures Sorted(h[a..b])
    decreases b - a
  {
    if b - a > 1 {
      SortedSlice(h, a, b - 1);
      SortedAt(h, b - 2, b - 1);
      assert h[a..b][..b - a - 1] == h[a..b - 1];
    }
  }

  lemma SteadySlice(h: seq<Record>, a: nat, b: nat, gap: int)
    requires Steady(h, gap) && a <= b <= |h|
    ensures Steady(h[a..b], gap)
  {
    var s := h[a..b];
    forall i | 0 < i < |s|
      ensures s[i].timestamp - s[i - 1].timestamp <= gap
    {
      assert s[i] == h[a + i] && s[i - 1] == h[a + i - 1];
    }
  }

  lemma SortedSnoc(h: seq<Record>, r: Record)
    requires Sorted(h)
    requires h != [] ==> h[|h| - 1].timestamp <= r.timestamp
    ensures Sorted(h + [r])
  {
    assert (h + [r])[..|h|] == h;
  }

  /** No two neighbouring records are further apart than `gap`. */
  ghost predicate Steady(h: seq<Record>, gap: int) {
    forall i | 0 < i < |h| :: h[i].timestamp - h[i - 1].timestamp <= gap
  }

  predicate Within(r: Record, lo: Time, hi: Time) {
    lo <= r.timestamp <= hi
  }

  /** The records of `h` stamped in [lo, hi], in their original order. */
  function Between(h: seq<Record>, lo: Time, hi: Time): seq<Record> {
    if h == [] then []
    else
      var r := h[|h| - 1];
      Between(h[..|h| - 1], lo, hi) + if Within(r, lo, hi) then [r] else []
  }

  /** How many records of `h` are stamped before `t`. */
  function CountBefore(h: seq<Record>, t: Time): nat {
    if h == [] then 0
    else CountBefore(h[..|h| - 1], t) + if h[|h| - 1].timestamp < t then 1 else 0
  }

  lemma BetweenSnoc(h: seq<Record>, r: Record, lo: Time, hi: Time)
    ensures Between(h + [r], lo, hi) == Between(h, lo, hi) + if Within(r, lo, hi) then [r] else []
  {
    assert (h + [r])[..|h|] == h;
  }

  lemma {:induction false} BetweenNone(h: seq<Record>, lo: Time, hi: Time)
    requires forall i | 0 <= i < |h| :: !Within(h[i], lo, hi)
    ensures Between(h, lo, hi) == []
  {
    if h != [] {
      BetweenNone(h[..|h| - 1], lo, hi);
    }
  }

  lemma {:induction false} BetweenConcat(a: seq<Record>, b: seq<Record>, lo: Time, hi: Time)
    ensures Between(a + b, lo, hi) == Between(a, lo, hi) + Between(b, lo, hi)
  {
    if b == [] {
      assert a + b == a;
    } else {
      var c, r := b[..|b| - 1], b[|b| - 1];
      assert a + b == (a + c) + [r];
      BetweenSnoc(a + c, r, lo, hi);
      BetweenConcat(a, c, lo, hi);
    }
  }

  /** Dropping a prefix that lies before the interval does not change the filter. */
  lemma BetweenSuffix(h: seq<Record>, d: nat, lo: Time, hi: Time)
    requires d <= |h|
    requires forall i | 0 <= i < d :: h[i].timestamp < lo
    ensures Between(h[d..], lo, hi) == Between(h, lo, hi)
  {
    assert h == h[..d] + h[d..];
    BetweenConcat(h[..d], h[d..], lo, hi);
    BetweenNone(h[..d], lo, hi);
  }

  lemma {:induction false} BetweenMember(h: seq<Record>, lo: Time, hi: Time, r: Record)
    ensures r in Between(h, lo, hi) <==> r in h && Within(r, lo, hi)
  {
    if h != [] {
      assert h == h[..|h| - 1] + [h[|h| - 1]];
      BetweenMember(h[..|h| - 1], lo, hi, r);
    }
  }

  /** Filtering twice keeps the intersection of the two intervals. */
  lemma {:induction false} BetweenNarrow(h: seq<Record>, lo: Time, hi: Time, hi': Time)
    requires hi' <= hi
    ensures Between(Between(h, lo, hi), lo, hi') == Between(h, lo, hi')
  {
    if h != [] {
      var g, r := h[..|h| - 1], h[|h| - 1];
      BetweenNarrow(g, lo, hi, hi');
      assert h == g + [r];
      if Within(r, lo, hi) {
        BetweenSnoc(Between(g, lo, hi), r, lo, hi');
        assert Between(h, lo, hi) == Between(g, lo, hi) + [r];
      } else {
        assert Between(h, lo, hi) == Between(g, lo, hi);
      }
    }
  }

  lemma CountBeforeSnoc(h: seq<Record>, r: Record, t: Time)
    ensures CountBefore(h + [r], t) == CountBefore(h, t) + if r.timestamp < t then 1 else 0
  {
    assert (h + [r])[..|h|] == h;
  }

  lemma {:induction false} CountBeforeBound(h: seq<Record>, t: Time, t': Time)
    requires t <= t'
    ensures CountBefore(h, t) <= CountBefore(h, t') <= |h|
  {
    if h != [] {
      CountBeforeBound(h[..|h| - 1], t, t');
    }
  }

  /** On a sorted history `CountBefore` is the boundary between early and late records. */
  lemma {:induction false} CountBeforeSplits(h: seq<Record>, t: Time)
    requires Sorted(h)
    ensures CountBefore(h, t) <= |h|
    ensures forall i | 0 <= i < |h| :: h[i].timestamp < t <==> i < CountBefore(h, t)
  {
    if h != [] {
      var g, r := h[..|h| - 1], h[|h| - 1];
      CountBeforeSplits(g, t);
      SortedOrder(h);
      assert forall i | 0 <= i < |g| :: g[i] == h[i] && h[i].timestamp <= r.timestamp;
    }
  }

  lemma {:induction false} BetweenAll(h: seq<Record>, lo: Time, hi: Time)
    requires forall i | 0 <= i < |h| :: Within(h[i], lo, hi)
    ensures Between(h, lo, hi) == h
  {
    if h != [] {
      BetweenAll(h[..|h| - 1], lo, hi);
    }
  }

  /** Dropping a tail that lies after the interval does not change the filter either. */
  lemma BetweenPrefix(h: seq<Record>, n: nat, lo: Time, hi: Time)
    requires n <= |h|
    requires forall i | n <= i < |h| :: hi < h[i].timestamp
    ensures Between(h[..n], lo, hi) == Between(h, lo, hi)
  {
    assert h == h[..n] + h[n..];
    BetweenConcat(h[..n], h[n..], lo, hi);
    BetweenNone(h[n..], lo, hi);
  }

  lemma SliceBetween(h: seq<Record>, a: nat, b: nat, lo: Time, hi: Time)
    requires a <= b <= |h|
    requires forall i | 0 <= i < a :: h[i].timestamp < lo
    requires forall i | a <= i < b :: Within(h[i], lo, hi)
    requires forall i | b <= i < |h| :: hi < h[i].timestamp
    ensures Between(h, lo, hi) == h[a..b]
  {
    BetweenPrefix(h, b, lo, hi);
    BetweenSuffix(h[..b], a, lo, hi);
    BetweenAll(h[a..b], lo, hi);
    assert h[..b][a..] == h[a..b];
  }

  /** On a sorted history the filter is a contiguous slice. */
  lemma BetweenSlice(h: seq<Record>, lo: Time, hi: Time) returns (a: nat, b: nat)
    requires Sorted(h) && lo <= hi
    ensures a <= b <= |h| && Between(h, lo, hi) == h[a..b]
    ensures forall i | 0 <= i < |h| :: a <= i < b <==> Within(h[i], lo, hi)
    ensures forall i | 0 <= i < |h| :: i < a <==> h[i].timestamp < lo
  {
    a, b := CountBefore(h, lo), CountBefore(h, hi + 1);
    CountBeforeSplits(h, lo);
    CountBeforeSplits(h, hi + 1);
    if b < |h| {
      assert h[b].timestamp > hi;
    }
    SliceBetween(h, a, b, lo, hi);
  }
}
