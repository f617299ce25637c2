/** The direction-normalised flow table. */
module Flows {
  import opened Types

  datatype FlowKey = FlowKey(src: string, dst: string, sport: Word, dport: Word)
  datatype FlowState = FlowState(clientIsSrc: bool, lastSeen: Time)

  function KeyOf(p: Packet): FlowKey {
    FlowKey(p.srcIp, p.dstIp, p.srcPort, p.dstPort)
  }

  function Reverse(k: FlowKey): FlowKey {
    FlowKey(k.dst, k.src, k.dport, k.sport)
  }

  /** Whether a packet belongs to the flow of `k`, in either direction. */
  predicate OnFlow(p: Packet, k: FlowKey) {
    KeyOf(p) == k || KeyOf(p) == Reverse(k)
  }

  /** The key of the first packet of a flow; its sender is taken for the client. */
  function Initiator(history: seq<Packet>, k: FlowKey): Option<FlowKey> {
    if history == [] then None
    else
      var earlier := Initiator(history[..|history| - 1], k);
      if earlier.Some? then earlier
      else if OnFlow(history[|history| - 1], k) then Some(KeyOf(history[|history| - 1]))
      else None
  }

  /** When the latest packet of a flow was seen, in either direction. */
  function LatestSeen(history: seq<Packet>, k: FlowKey): Option<Time> {
    if history == [] then None
    else if OnFlow(history[|history| - 1], k) then Some(history[|history| - 1].timestamp)
    else LatestSeen(history[..|history| - 1], k)
  }

  /** The table holds one entry per flow seen, under its initiator's key. */
  ghost predicate Agrees(table: map<FlowKey, FlowState>, history: seq<Packet>) {
    forall k ::
      && (k in table <==> Initiator(history, k) == Some(k))
      && (k in table ==> table[k].clientIsSrc && Some(table[k].lastSeen) == LatestSeen(history, k))
  }

  class FlowTable {
    var table: map<FlowKey, FlowState>
    ghost var history: seq<Packet>

    ghost predicate Valid()
      reads this
    {
      Agrees(table, history)
    }

    constructor ()
      ensures Valid() && history == []
    {
      table, history := map[], [];
    }

    /** Classifies a packet: it travels from the client exactly when it goes the way the
        first packet of its flow went. */
    method Classify(pkt: Packet) returns (fs: FlowState)
      requires Valid()
      modifies this
      ensures Valid() && history == old(history) + [pkt]
      ensures fs.lastSeen == pkt.timestamp
      ensures fs.clientIsSrc <==> Initiator(history, KeyOf(pkt)) == Some(KeyOf(pkt))
    {
      var k := KeyOf(pkt);
      var r := FlowKey(pkt.dstIp, pkt.srcIp, pkt.dstPort, pkt.srcPort);
      var now := pkt.timestamp;
      ghost var before := history;
      history := history + [pkt];
      assert history[..|before|] == before;
      InitiatorIsEither(before, k);
      SameFlow(before, k);

      if k in table {
        table := table[k := table[k].(lastSeen := now)];
        StillAgrees(old(table), table, before, pkt, k);
        return table[k];
      }
      if r in table {
        table := table[r := table[r].(lastSeen := now)];
        StillAgrees(old(table), table, before, pkt, r);
        return table[r].(clientIsSrc := !table[r].clientIsSrc);
      }
      fs := FlowState(true, now);
      table := table[k := fs];
      StillAgrees(old(table), table, before, pkt, k);
    }
  }

  lemma {:induction false} InitiatorIsEither(history: seq<Packet>, k: FlowKey)
    ensures Initiator(history, k) in {None, Some(k), Some(Reverse(k))}
  {
    if history != [] {
      InitiatorIsEither(history[..|history| - 1], k);
    }
  }

  /** Both directions of a flow have the same initiator and the same latest packet. */
  lemma {:induction false} SameFlow(history: seq<Packet>, k: FlowKey)
    ensures Initiator(history, Reverse(k)) == Initiator(history, k)
    ensures LatestSeen(history, Reverse(k)) == LatestSeen(history, k)
  {
    assert Reverse(Reverse(k)) == k;
    if history != [] {
      SameFlow(history[..|history| - 1], k);
    }
  }

  /** Writing the current time under the initiator's key keeps the table in step. */
  lemma StillAgrees(table: map<FlowKey, FlowState>, table': map<FlowKey, FlowState>,
                    before: seq<Packet>, pkt: Packet, k: FlowKey)
    requires Agrees(table, before)
    requires k == KeyOf(pkt) || k == Reverse(KeyOf(pkt))
    requires Initiator(before + [pkt], k) == Some(k)
    requires table' == table[k := FlowState(true, pkt.timestamp)]
    ensures Agrees(table', before + [pkt])
  {
    var after := before + [pkt];
    assert after[..|before|] == before;
    forall j
      ensures j in table' <==> Initiator(after, j) == Some(j)
      ensures j in table' ==> table'[j].clientIsSrc && Some(table'[j].lastSeen) == LatestSeen(after, j)
    {
      assert Reverse(Reverse(j)) == j;
      InitiatorIsEither(before, j);
      SameFlow(before, j);
      SameFlow(after, k);
    }
  }

  /** A flow is known exactly when one of its packets was seen, and its initiator is the
      key of the earliest of them. */
  lemma {:induction false} InitiatorIsFirst(history: seq<Packet>, k: FlowKey)
    ensures Initiator(history, k) == None <==> forall i | 0 <= i < |history| :: !OnFlow(history[i], k)
    ensures forall i | 0 <= i < |history| ::
              OnFlow(history[i], k) && (forall j | 0 <= j < i :: !OnFlow(history[j], k))
              ==> Initiator(history, k) == Some(KeyOf(history[i]))
  {
    if history != [] {
      var n := |history| - 1;
      InitiatorIsFirst(history[..n], k);
      assert forall i | 0 <= i < n :: history[..n][i] == history[i];
    }
  }

  /** Two packets belong to one flow exactly if they connect the same two endpoints. */
  lemma SameEndpoints(p: Packet, q: Packet)
    ensures OnFlow(p, KeyOf(q))
            <==> || (p.srcIp == q.srcIp && p.srcPort == q.srcPort && p.dstIp == q.dstIp && p.dstPort == q.dstPort)
                 || (p.srcIp == q.dstIp && p.srcPort == q.dstPort && p.dstIp == q.srcIp && p.dstPort == q.srcPort)
  {
  }

  /** A flow was last seen when the last of its packets was. */
  lemma {:induction false} LatestIsLast(history: seq<Packet>, k: FlowKey, i: nat)
    requires i < |history| && OnFlow(history[i], k)
    requires forall j | i < j < |history| :: !OnFlow(history[j], k)
    ensures LatestSeen(history, k) == Some(history[i].timestamp)
  {
    if i < |history| - 1 {
      LatestIsLast(history[..|history| - 1], k, i);
    }
  }

  /** Never two entries for one flow. */
  lemma OneEntryPerFlow(table: map<FlowKey, FlowState>, history: seq<Packet>, k: FlowKey)
    requires Agrees(table, history) && k in table && Reverse(k) in table
    ensures Reverse(k) == k
  {
    SameFlow(history, k);
  }
}
