/** The advertisement protocol of examples/neighbour-data-collection.

    Node 1 floods advertisements; every other node keeps the best strength to node 1 it
    has heard of and the neighbour it came from. The network is a state machine over
    per-link FIFO channels with frozen link strengths: the master advertises, a link
    delivers its oldest message, or a link loses any message. */
module Collection {

  const MASTER: int := 1
  const NONE: int := -1

  datatype Adv = Adv(nodeId: int, seqNo: int, strength: real)

  /** The static variables of one node. */
  datatype Mote = Mote(max: real, best: int, maxSeq: int, history: Adv)

  const BOOTED := Mote(-1.0, NONE, -1, Adv(0, 0, 0.0))

  function Min(x: real, y: real): real {
    if x < y then x else y
  }

  /** Reception of an advertisement by node `id` over a link of the given strength: the
      new variables and what is broadcast in response. */
  function Receive(id: int, m: Mote, a: Adv, link: real): (Mote, seq<Adv>) {
    var current := Min(a.strength, link);
    var m1 := if m.maxSeq < a.seqNo
              then m.(maxSeq := a.seqNo, max := if m.best == a.nodeId then current else m.max)
              else m;
    var m2 := if a.seqNo >= m1.maxSeq && m1.max < current
              then m1.(max := current, best := a.nodeId)
              else m1;
    var out := Adv(id, m2.maxSeq, m2.max);
    if m2.history.nodeId == out.nodeId && m2.history.strength == out.strength
    then (m2, [])
    else (m2.(history := out), [out])
  }

  /** The imperative form of one node: the same variables, changed in place. */
  class Device {
    const id: int
    var maxMasterStrength: real
    var bestNode: int
    var maxSeqforStrength: int
    var history: Adv

    ghost function State(): Mote
      reads this
    {
      Mote(maxMasterStrength, bestNode, maxSeqforStrength, history)
    }

    constructor (id: int)
      ensures State() == BOOTED && this.id == id
    {
      this.id := id;
      maxMasterStrength, bestNode, maxSeqforStrength, history := -1.0, NONE, -1, Adv(0, 0, 0.0);
    }

    /** The advertisement branch of input_callback. A new wave through the best node sets the strength to
        what it offers, be that less; otherwise only more is taken, and nothing from an older wave. What is
        sent is the new value, unless the last one sent was the same. */
    method OnAdvertisement(a: Adv, link: real) returns (sent: seq<Adv>)
      modifies this
      ensures (State(), sent) == Receive(id, old(State()), a, link)
      ensures maxSeqforStrength >= old(maxSeqforStrength) && maxSeqforStrength in {old(maxSeqforStrength), a.seqNo}
      ensures a.seqNo <= maxSeqforStrength
      ensures var offer := if a.strength <= link then a.strength else link;
        if old(maxSeqforStrength) < a.seqNo && old(bestNode) == a.nodeId then
          maxMasterStrength == offer && bestNode == a.nodeId
        else if old(maxSeqforStrength) <= a.seqNo && old(maxMasterStrength) < offer then
          maxMasterStrength == offer && bestNode == a.nodeId
        else maxMasterStrength == old(maxMasterStrength) && bestNode == old(bestNode)
      ensures |sent| <= 1 && (sent == [] <==> old(history).nodeId == id && old(history).strength == maxMasterStrength)
      ensures sent != [] ==> sent[0] == history == Adv(id, maxSeqforStrength, maxMasterStrength)
      ensures sent == [] ==> history == old(history)
    {
      var current := Min(a.strength, link);
      if maxSeqforStrength < a.seqNo {
        maxSeqforStrength := a.seqNo;
        if bestNode == a.nodeId {
          maxMasterStrength := current;
        }
      }
      if a.seqNo >= maxSeqforStrength && maxMasterStrength < current {
        maxMasterStrength := current;
        bestNode := a.nodeId;
      }
      var out := Adv(id, maxSeqforStrength, maxMasterStrength);
      sent := [];
      if !(history.nodeId == out.nodeId && history.strength == out.strength) {
        sent := [out];
        history := out;
      }
    }
  }

  // ---------------------------------------------------------------------------
  // The network

  /** Who hears whom, and how well: links are (sender, receiver) pairs. */
  datatype Topology = Topology(nodes: set<int>, links: map<(int, int), real>)

  ghost predicate WellFormed(t: Topology) {
    && MASTER in t.nodes
    && (forall v :: v in t.nodes ==> 1 <= v)
    && (forall k :: k in t.links ==> k.0 in t.nodes && k.1 in t.nodes && k.0 != k.1 && 0.0 <= t.links[k])
  }

  datatype Net = Net(motes: map<int, Mote>, chan: map<(int, int), seq<Adv>>, nextSeq: int)

  datatype Step = Advertise | Deliver(link: (int, int)) | Lose(link: (int, int), index: nat)

  function Boot(t: Topology): Net {
    Net(map v | v in t.nodes :: BOOTED, map k | k in t.links :: [], 1)
  }

  ghost predicate Shaped(t: Topology, n: Net) {
    n.motes.Keys == t.nodes && n.chan.Keys == t.links.Keys
  }

  function Broadcast(chan: map<(int, int), seq<Adv>>, u: int, out: seq<Adv>): map<(int, int), seq<Adv>> {
    map k | k in chan :: if k.0 == u then chan[k] + out else chan[k]
  }

  /** One step; a delivery or loss with nothing to act on does nothing. */
  function Apply(t: Topology, n: Net, s: Step): Net
    requires n.motes.Keys == t.nodes && n.chan.Keys == t.links.Keys && MASTER in t.nodes
    requires forall k :: k in t.links ==> k.1 in t.nodes
  {
    match s
    case Advertise =>
      var m := n.motes[MASTER].(max := 100.0, best := MASTER);
      Net(n.motes[MASTER := m], Broadcast(n.chan, MASTER, [Adv(MASTER, n.nextSeq, 100.0)]), n.nextSeq + 1)
    case Deliver(k) =>
      if k in t.links && n.chan[k] != [] then
        var (m, out) := Receive(k.1, n.motes[k.1], n.chan[k][0], t.links[k]);
        n.(motes := n.motes[k.1 := m], chan := Broadcast(n.chan[k := n.chan[k][1..]], k.1, out))
      else n
    case Lose(k, i) =>
      if k in t.links && i < |n.chan[k]| then
        n.(chan := n.chan[k := n.chan[k][..i] + n.chan[k][i + 1..]])
      else n
  }

  lemma ApplyIsShaped(t: Topology, n: Net, s: Step)
    requires WellFormed(t) && Shaped(t, n)
    ensures Shaped(t, Apply(t, n, s))
  {
  }

  /** The state after a run from boot. */
  ghost function Run(t: Topology, steps: seq<Step>): (n: Net)
    requires WellFormed(t)
    ensures Shaped(t, n)
    decreases |steps|
  {
    if steps == [] then Boot(t)
    else
      var last := |steps| - 1;
      Apply(t, Run(t, steps[..last]), steps[last])
  }

  // ---------------------------------------------------------------------------
  // The invariant

  /** When a node's strength last rose, in steps; a witness for the order on nodes. */
  type Rank = map<int, nat>

  /** A child is weaker than its parent, or as weak and later. */
  ghost predicate Below(n: Net, rank: Rank, v: int, u: int) {
    && v in n.motes && u in n.motes && v in rank && u in rank
    && (n.motes[v].max < n.motes[u].max || (n.motes[v].max == n.motes[u].max && rank[u] < rank[v]))
  }

  ghost predicate ParentOk(t: Topology, n: Net, rank: Rank, v: int) {
    && v in n.motes && var u := n.motes[v].best;
    && (u, v) in t.links && u in n.motes
    && n.motes[u].best != NONE
    && 0.0 <= n.motes[v].max <= t.links[(u, v)]
    && Below(n, rank, v, u)
  }

  ghost predicate MoteOk(t: Topology, n: Net, rank: Rank, v: int) {
    && v in n.motes && var m := n.motes[v];
    && m.max <= 100.0
    && (m.best == NONE ==> m.max == -1.0 && m.maxSeq == -1)
    && (m.best != NONE ==> MASTER in n.motes && n.motes[MASTER].best != NONE)
    && (m.best != NONE ==> if v == MASTER then m.best == MASTER && m.max == 100.0 else ParentOk(t, n, rank, v))
  }

  /** A message in flight from u to v: no stronger than its sender is now, and no weaker
      than what v already holds if u is its parent. */
  ghost predicate MessageOk(t: Topology, n: Net, k: (int, int), a: Adv) {
    && k in t.links && k.0 in n.motes && k.1 in n.motes
    && a.nodeId == k.0 && 1 <= a.seqNo
    && n.motes[k.0].best != NONE && 0.0 <= a.strength <= n.motes[k.0].max
    && (n.motes[k.1].best == k.0 ==> n.motes[k.1].max <= Min(a.strength, t.links[k]))
  }

  ghost predicate ChannelOk(t: Topology, n: Net, k: (int, int)) {
    && k in n.chan
    && (forall i :: 0 <= i < |n.chan[k]| ==> MessageOk(t, n, k, n.chan[k][i]))
    && (forall i, j :: 0 <= i < j < |n.chan[k]| ==> n.chan[k][i].strength <= n.chan[k][j].strength)
  }

  ghost predicate Inv(t: Topology, n: Net, rank: Rank, clock: nat) {
    && WellFormed(t) && Shaped(t, n) && 1 <= n.nextSeq
    && rank.Keys == t.nodes && (forall v :: v in rank ==> rank[v] < clock)
    && (forall v :: v in t.nodes ==> MoteOk(t, n, rank, v))
    && (forall k :: k in t.links ==> ChannelOk(t, n, k))
  }

  // ---------------------------------------------------------------------------
  // Every step keeps it

  /** Receiving never lowers a node's strength: it keeps strength and parent, or strictly
      raises the strength to what the message offers and takes its sender as parent. */
  ghost predicate Raised(id: int, was: Mote, a: Adv, offer: real, m: Mote, out: seq<Adv>) {
    && m.best != NONE && 1 <= m.maxSeq && (out == [] || out == [Adv(id, m.maxSeq, m.max)])
    && (|| (m.max == was.max && m.best == was.best)
        || (id != MASTER && m.max > was.max && m.max == offer && m.best == a.nodeId))
    && (a.seqNo >= was.maxSeq ==> m.max >= offer)
  }

  lemma ReceiveCases(id: int, m: Mote, a: Adv, link: real)
    requires 1 <= a.nodeId != id && 1 <= a.seqNo && 0.0 <= a.strength <= 100.0 && 0.0 <= link
    requires m.best == a.nodeId ==> m.max <= Min(a.strength, link)
    requires m.best == NONE ==> m.max == -1.0 && m.maxSeq == -1
    requires id == MASTER ==> m.best == MASTER && m.max == 100.0
    ensures var (m', out) := Receive(id, m, a, link);
            Raised(id, m, a, Min(a.strength, link), m', out)
  {
  }

  lemma ReceiveRaises(t: Topology, n: Net, rank: Rank, clock: nat, k: (int, int))
    requires Inv(t, n, rank, clock) && k in t.links && n.chan[k] != []
    ensures var (m, out) := Receive(k.1, n.motes[k.1], n.chan[k][0], t.links[k]);
            Raised(k.1, n.motes[k.1], n.chan[k][0], Min(n.chan[k][0].strength, t.links[k]), m, out)
    ensures MessageOk(t, n, k, n.chan[k][0]) && n.motes[k.0].max <= 100.0
  {
    hide Receive, Raised, ParentOk;
    assert ChannelOk(t, n, k) && MessageOk(t, n, k, n.chan[k][0]);
    assert MoteOk(t, n, rank, k.1) && MoteOk(t, n, rank, k.0);
    ReceiveCases(k.1, n.motes[k.1], n.chan[k][0], t.links[k]);
  }

  ghost function RankAfter(n: Net, n': Net, rank: Rank, clock: nat): Rank
    requires n'.motes.Keys == n.motes.Keys == rank.Keys
  {
    map v | v in rank :: if n'.motes[v].max == n.motes[v].max then rank[v] else clock
  }

  /** How one step may change the nodes: strengths only rise, and a node whose strength
      does not rise keeps its parent. */
  ghost predicate Rises(n: Net, n': Net) {
    && n'.motes.Keys == n.motes.Keys
    && (forall v :: v in n.motes ==> n'.motes[v].max >= n.motes[v].max)
    && (forall v :: v in n.motes ==> n.motes[v].best != NONE ==> n'.motes[v].best != NONE)
    && (forall v :: v in n.motes && n'.motes[v].max == n.motes[v].max ==> n'.motes[v].best == n.motes[v].best)
  }

  /** A node whose strength did not rise is still fine under its parent. */
  lemma UnraisedMoteOk(t: Topology, n: Net, n': Net, rank: Rank, clock: nat, v: int)
    requires Inv(t, n, rank, clock) && Shaped(t, n') && Rises(n, n') && v in t.nodes
    requires n'.motes[v].max == n.motes[v].max
    requires n'.motes[v].best == NONE ==> n'.motes[v].maxSeq == n.motes[v].maxSeq
    requires n.motes[v].best != NONE ==> n'.motes[MASTER].best != NONE
    requires forall u :: u in t.nodes ==> n'.motes[u].max <= 100.0
    ensures MoteOk(t, n', RankAfter(n, n', rank, clock), v)
  {
    assert MoteOk(t, n, rank, v);
    if v != MASTER && n.motes[v].best != NONE {
      var u := n.motes[v].best;
      assert ParentOk(t, n, rank, v) && u in t.nodes;
    }
  }

  lemma RaisedMoteOk(t: Topology, n: Net, n': Net, rank: Rank, clock: nat, v: int, u: int, s: real)
    requires Inv(t, n, rank, clock) && Shaped(t, n') && Rises(n, n') && (u, v) in t.links && v != MASTER
    requires n'.motes[u] == n.motes[u] && n.motes[u].best != NONE && n'.motes[MASTER].best != NONE && 0.0 <= s <= n.motes[u].max
    requires n'.motes[v].max > n.motes[v].max && n'.motes[v].max == Min(s, t.links[(u, v)]) && n'.motes[v].best == u
    ensures MoteOk(t, n', RankAfter(n, n', rank, clock), v)
  {
    assert u in t.nodes && v in t.nodes && u != v;
    assert MoteOk(t, n, rank, u);
  }

  lemma DeliverRises(t: Topology, n: Net, rank: Rank, clock: nat, k: (int, int))
    requires Inv(t, n, rank, clock) && k in t.links && n.chan[k] != []
    ensures var n' := Apply(t, n, Deliver(k));
            && Shaped(t, n') && Rises(n, n') && n'.motes[MASTER].best != NONE
            && (forall v :: v in t.nodes ==> n'.motes[v].max <= 100.0)
            && (forall v :: v in t.nodes && v != k.1 ==> n'.motes[v] == n.motes[v])
  {
    hide Receive, ChannelOk, ParentOk;
    ReceiveRaises(t, n, rank, clock, k);
    ApplyIsShaped(t, n, Deliver(k));
    assert MoteOk(t, n, rank, k.0);
    forall v | v in t.nodes
      ensures n.motes[v].max <= 100.0
    {
      assert MoteOk(t, n, rank, v);
    }
  }

  lemma DeliverKeepsMotes(t: Topology, n: Net, rank: Rank, clock: nat, k: (int, int))
    requires Inv(t, n, rank, clock) && k in t.links && n.chan[k] != []
    ensures var n' := Apply(t, n, Deliver(k));
            && Shaped(t, n') && Rises(n, n')
            && forall v :: v in t.nodes ==> MoteOk(t, n', RankAfter(n, n', rank, clock), v)
  {
    hide Receive, ChannelOk, MoteOk, RankAfter;
    var n' := Apply(t, n, Deliver(k));
    DeliverRises(t, n, rank, clock, k);
    ReceiveRaises(t, n, rank, clock, k);
    forall v | v in t.nodes
      ensures MoteOk(t, n', RankAfter(n, n', rank, clock), v)
    {
      if n'.motes[v].max == n.motes[v].max {
        UnraisedMoteOk(t, n, n', rank, clock, v);
      } else {
        RaisedMoteOk(t, n, n', rank, clock, k.1, k.0, n.chan[k][0].strength);
      }
    }
  }

  /** A message that was fine stays so when strengths rise, unless its receiver just
      accepted something stronger from the same sender. */
  lemma MessageStaysOk(t: Topology, n: Net, n': Net, k: (int, int), a: Adv)
    requires MessageOk(t, n, k, a) && Rises(n, n')
    requires n'.motes[k.1].best == k.0 ==> n'.motes[k.1].max <= Min(a.strength, t.links[k])
    ensures MessageOk(t, n', k, a)
  {
  }

  /** Messages already on a link when some node receives the head of link k. */
  lemma DeliverKeepsOld(t: Topology, n: Net, rank: Rank, clock: nat, k: (int, int), c: (int, int), j: nat)
    requires Inv(t, n, rank, clock) && k in t.links && n.chan[k] != [] && c in t.links
    requires j < |n.chan[c]| && (c == k ==> 0 < j)
    ensures MessageOk(t, Apply(t, n, Deliver(k)), c, n.chan[c][j])
    ensures n.chan[c][j].strength <= n.motes[c.0].max
  {
    hide Receive, RankAfter, MoteOk;
    var n' := Apply(t, n, Deliver(k));
    DeliverRises(t, n, rank, clock, k);
    ReceiveRaises(t, n, rank, clock, k);
    assert ChannelOk(t, n, c) && ChannelOk(t, n, k);
    assert MessageOk(t, n, c, n.chan[c][j]);
    MessageStaysOk(t, n, n', c, n.chan[c][j]);
  }

  /** A node may always announce the strength it holds. */
  lemma OwnStrengthOk(t: Topology, n: Net, rank: Rank, c: (int, int), seqNo: int)
    requires WellFormed(t) && c in t.links && MoteOk(t, n, rank, c.0) && MoteOk(t, n, rank, c.1)
    requires n.motes[c.0].best != NONE && 1 <= seqNo
    ensures MessageOk(t, n, c, Adv(c.0, seqNo, n.motes[c.0].max))
  {
  }

  lemma DeliverKeepsNew(t: Topology, n: Net, rank: Rank, clock: nat, k: (int, int), c: (int, int))
    requires Inv(t, n, rank, clock) && k in t.links && n.chan[k] != [] && c in t.links && c.0 == k.1
    ensures var n' := Apply(t, n, Deliver(k));
            MessageOk(t, n', c, Adv(k.1, n'.motes[k.1].maxSeq, n'.motes[k.1].max))
  {
    hide Receive, ChannelOk, MoteOk, MessageOk, RankAfter;
    var n' := Apply(t, n, Deliver(k));
    DeliverKeepsMotes(t, n, rank, clock, k);
    ReceiveRaises(t, n, rank, clock, k);
    OwnStrengthOk(t, n', RankAfter(n, n', rank, clock), c, n'.motes[k.1].maxSeq);
  }

  /** What a delivery on link k leaves on link c. */
  lemma DeliveredChannel(t: Topology, n: Net, k: (int, int), c: (int, int))
    requires WellFormed(t) && Shaped(t, n) && k in t.links && n.chan[k] != [] && c in t.links
    ensures Apply(t, n, Deliver(k)).chan[c] ==
            (if c == k then n.chan[c][1..] else n.chan[c]) +
            (if c.0 == k.1 then Receive(k.1, n.motes[k.1], n.chan[k][0], t.links[k]).1 else [])
  {
    hide Receive;
  }

  lemma DeliverKeepsChannel(t: Topology, n: Net, rank: Rank, clock: nat, k: (int, int), c: (int, int))
    requires Inv(t, n, rank, clock) && k in t.links && n.chan[k] != [] && c in t.links
    ensures ChannelOk(t, Apply(t, n, Deliver(k)), c)
  {
    hide Receive, MessageOk, MoteOk;
    var n' := Apply(t, n, Deliver(k));
    ReceiveRaises(t, n, rank, clock, k);
    DeliverRises(t, n, rank, clock, k);
    DeliveredChannel(t, n, k, c);
    assert ChannelOk(t, n, c);
    var kept := if c == k then n.chan[c][1..] else n.chan[c];
    var q := n'.chan[c];
    hide Apply;
    forall i | 0 <= i < |q|
      ensures MessageOk(t, n', c, q[i])
      ensures i < |kept| ==> q[i].strength <= n.motes[c.0].max
      ensures i >= |kept| ==> i == |kept| && q[i].strength == n'.motes[c.0].max
    {
      if i < |kept| {
        DeliverKeepsOld(t, n, rank, clock, k, c, if c == k then i + 1 else i);
      } else {
        DeliverKeepsNew(t, n, rank, clock, k, c);
      }
    }
  }

  lemma DeliverKeepsInv(t: Topology, n: Net, rank: Rank, clock: nat, k: (int, int))
    requires Inv(t, n, rank, clock) && k in t.links && n.chan[k] != []
    ensures var n' := Apply(t, n, Deliver(k));
            Shaped(t, n') && Inv(t, n', RankAfter(n, n', rank, clock), clock + 1)
  {
    DeliverKeepsMotes(t, n, rank, clock, k);
    forall c | c in t.links
      ensures ChannelOk(t, Apply(t, n, Deliver(k)), c)
    {
      DeliverKeepsChannel(t, n, rank, clock, k, c);
    }
  }

  lemma AdvertiseRises(t: Topology, n: Net, rank: Rank, clock: nat)
    requires Inv(t, n, rank, clock)
    ensures var n' := Apply(t, n, Advertise);
            && Shaped(t, n') && Rises(n, n') && n'.motes[MASTER].best == MASTER && n'.motes[MASTER].max == 100.0
            && forall v :: v in t.nodes && v != MASTER ==> n'.motes[v] == n.motes[v]
  {
    hide ChannelOk, ParentOk;
    ApplyIsShaped(t, n, Advertise);
    assert MoteOk(t, n, rank, MASTER);
  }

  lemma AdvertiseKeepsMotes(t: Topology, n: Net, rank: Rank, clock: nat)
    requires Inv(t, n, rank, clock)
    ensures var n' := Apply(t, n, Advertise);
            Shaped(t, n') && forall v :: v in t.nodes ==> MoteOk(t, n', RankAfter(n, n', rank, clock), v)
  {
    hide ChannelOk;
    var n' := Apply(t, n, Advertise);
    AdvertiseRises(t, n, rank, clock);
    hide Apply;
    forall v | v in t.nodes
      ensures n'.motes[v].max <= 100.0
    {
      assert MoteOk(t, n, rank, v);
    }
    forall v | v in t.nodes
      ensures MoteOk(t, n', RankAfter(n, n', rank, clock), v)
    {
      if v != MASTER {
        UnraisedMoteOk(t, n, n', rank, clock, v);
      }
    }
  }

  lemma AdvertiseKeepsChannel(t: Topology, n: Net, rank: Rank, clock: nat, c: (int, int))
    requires Inv(t, n, rank, clock) && c in t.links
    ensures ChannelOk(t, Apply(t, n, Advertise), c)
  {
    hide MessageOk, MoteOk;
    var n' := Apply(t, n, Advertise);
    AdvertiseRises(t, n, rank, clock);
    AdvertiseKeepsMotes(t, n, rank, clock);
    assert ChannelOk(t, n, c);
    var q := n'.chan[c];
    forall i | 0 <= i < |q|
      ensures MessageOk(t, n', c, q[i])
      ensures i < |n.chan[c]| ==> q[i].strength <= n.motes[c.0].max
    {
      if i < |n.chan[c]| {
        AdvertiseKeepsOld(t, n, n', rank, c, q[i]);
      } else {
        OwnStrengthOk(t, n', RankAfter(n, n', rank, clock), c, n.nextSeq);
      }
    }
  }

  lemma AdvertiseKeepsOld(t: Topology, n: Net, n': Net, rank: Rank, c: (int, int), a: Adv)
    requires WellFormed(t) && MessageOk(t, n, c, a) && Rises(n, n') && MoteOk(t, n, rank, c.1) && MoteOk(t, n, rank, c.0)
    requires c.1 == MASTER || n'.motes[c.1] == n.motes[c.1]
    requires n'.motes[MASTER].best == MASTER
    ensures MessageOk(t, n', c, a) && a.strength <= n.motes[c.0].max
  {
    MessageStaysOk(t, n, n', c, a);
  }

  lemma LoseKeepsInv(t: Topology, n: Net, rank: Rank, clock: nat, k: (int, int), i: nat)
    requires Inv(t, n, rank, clock)
    ensures Shaped(t, Apply(t, n, Lose(k, i))) && Inv(t, Apply(t, n, Lose(k, i)), rank, clock)
  {
    hide MessageOk, ParentOk;
    var n' := Apply(t, n, Lose(k, i));
    if k in t.links && i < |n.chan[k]| {
      forall v | v in t.nodes
        ensures MoteOk(t, n', rank, v)
      {
        SameMotesOk(t, n, n', rank, v);
      }
      forall c | c in t.links
        ensures ChannelOk(t, n', c)
      {
        assert ChannelOk(t, n, c);
        forall j | 0 <= j < |n'.chan[c]|
          ensures MessageOk(t, n', c, n'.chan[c][j])
        {
          var o := if c == k && i <= j then j + 1 else j;
          assert n'.chan[c][j] == n.chan[c][o];
          SameMessageOk(t, n, n', c, n.chan[c][o]);
        }
      }
    }
  }

  lemma SameMotesOk(t: Topology, n: Net, n': Net, rank: Rank, v: int)
    requires MoteOk(t, n, rank, v) && n'.motes == n.motes
    ensures MoteOk(t, n', rank, v)
  {
  }

  lemma SameMessageOk(t: Topology, n: Net, n': Net, k: (int, int), a: Adv)
    requires MessageOk(t, n, k, a) && n'.motes == n.motes
    ensures MessageOk(t, n', k, a)
  {
  }

  lemma StepKeepsInv(t: Topology, n: Net, rank: Rank, clock: nat, s: Step)
    requires Inv(t, n, rank, clock)
    ensures Shaped(t, Apply(t, n, s)) && exists r, c :: Inv(t, Apply(t, n, s), r, c)
  {
    hide MoteOk, ChannelOk;
    var n' := Apply(t, n, s);
    ApplyIsShaped(t, n, s);
    match s
    case Advertise =>
      AdvertiseKeepsMotes(t, n, rank, clock);
      forall c | c in t.links
        ensures ChannelOk(t, n', c)
      {
        AdvertiseKeepsChannel(t, n, rank, clock, c);
      }
      assert Inv(t, n', RankAfter(n, n', rank, clock), clock + 1);
    case Deliver(k) =>
      if k in t.links && n.chan[k] != [] {
        DeliverKeepsInv(t, n, rank, clock, k);
      }
    case Lose(k, i) =>
      LoseKeepsInv(t, n, rank, clock, k, i);
  }

  /** The invariant holds in every reachable state. */
  lemma {:induction false} Reachable(t: Topology, steps: seq<Step>)
    requires WellFormed(t)
    ensures exists rank, clock :: Inv(t, Run(t, steps), rank, clock)
    decreases |steps|
  {
    if steps == [] {
      var rank: Rank := map v | v in t.nodes :: 0;
      assert Inv(t, Run(t, steps), rank, 1);
    } else {
      var last := |steps| - 1;
      Reachable(t, steps[..last]);
      var rank, clock :| Inv(t, Run(t, steps[..last]), rank, clock);
      StepKeepsInv(t, Run(t, steps[..last]), rank, clock, steps[last]);
      assert Run(t, steps) == Apply(t, Run(t, steps[..last]), steps[last]);
    }
  }

  // ---------------------------------------------------------------------------
  // Routes

  /** p follows parent links from v to the master. */
  ghost predicate Route(n: Net, v: int, p: seq<int>) {
    && p != [] && p[0] == v && p[|p| - 1] == MASTER
    && (forall i :: 0 <= i < |p| ==> p[i] in n.motes)
    && (forall i :: 0 <= i < |p| - 1 ==> p[i] != MASTER && n.motes[p[i]].best == p[i + 1])
  }

  ghost predicate NoRepeats(p: seq<int>) {
    forall i, j :: 0 <= i < j < |p| ==> p[i] != p[j]
  }

  /** Every hop of the route is a link, and none is weaker than s. */
  ghost predicate AtLeast(t: Topology, p: seq<int>, s: real) {
    forall i :: 0 <= i < |p| - 1 ==> (p[i + 1], p[i]) in t.links && s <= t.links[(p[i + 1], p[i])]
  }

  /** The nodes strictly above v in the order of strength and rank. */
  ghost function AboveSet(n: Net, rank: Rank, v: int): set<int> {
    set u | u in n.motes && Below(n, rank, v, u)
  }

  lemma {:induction false} RouteExists(t: Topology, n: Net, rank: Rank, clock: nat, v: int) returns (p: seq<int>)
    requires Inv(t, n, rank, clock) && v in t.nodes && n.motes[v].best != NONE
    ensures Route(n, v, p) && NoRepeats(p) && AtLeast(t, p, n.motes[v].max)
    ensures forall i :: 1 <= i < |p| ==> p[i] in AboveSet(n, rank, v)
    decreases AboveSet(n, rank, v)
  {
    hide ChannelOk;
    if v == MASTER {
      p := [MASTER];
    } else {
      assert MoteOk(t, n, rank, v) && ParentOk(t, n, rank, v);
      var u := n.motes[v].best;
      assert u in AboveSet(n, rank, v) && u !in AboveSet(n, rank, u);
      assert AboveSet(n, rank, u) <= AboveSet(n, rank, v);
      var q := RouteExists(t, n, rank, clock, u);
      p := [v] + q;
      ExtendRoute(t, n, v, u, q, p);
    }
  }

  lemma ExtendRoute(t: Topology, n: Net, v: int, u: int, q: seq<int>, p: seq<int>)
    requires Route(n, u, q) && v in n.motes && u in n.motes && v != MASTER && n.motes[v].best == u && p == [v] + q
    requires (u, v) in t.links && n.motes[v].max <= t.links[(u, v)] && n.motes[v].max <= n.motes[u].max
    requires AtLeast(t, q, n.motes[u].max)
    ensures Route(n, v, p) && AtLeast(t, p, n.motes[v].max)
  {
    forall i | 0 <= i < |p| - 1
      ensures p[i] != MASTER && n.motes[p[i]].best == p[i + 1]
      ensures (p[i + 1], p[i]) in t.links && n.motes[v].max <= t.links[(p[i + 1], p[i])]
    {
      if 0 < i {
        assert p[i] == q[i - 1] && p[i + 1] == q[i];
      }
    }
  }

  /** In every reachable state, the parent links of any node that has one lead to the
      master without a cycle, and the node's strength does not exceed that of any link
      on the way, nor the master's 100. */
  lemma RoutesLeadToMaster(t: Topology, steps: seq<Step>, v: int)
    requires WellFormed(t) && v in t.nodes && Run(t, steps).motes[v].best != NONE
    ensures var n := Run(t, steps);
            && n.motes[v].max <= 100.0
            && exists p :: Route(n, v, p) && NoRepeats(p) && AtLeast(t, p, n.motes[v].max)
  {
    Reachable(t, steps);
    var n := Run(t, steps);
    var rank, clock :| Inv(t, n, rank, clock);
    assert MoteOk(t, n, rank, v);
    var p := RouteExists(t, n, rank, clock, v);
  }

  /** Following parents is a function, so that route is the only one. */
  lemma {:induction false} RouteIsUnique(n: Net, v: int, p: seq<int>, q: seq<int>)
    requires Route(n, v, p) && Route(n, v, q)
    ensures p == q
    decreases |p|
  {
    if v == MASTER {
      assert |p| == 1 && |q| == 1;
    } else {
      assert |p| > 1 && |q| > 1;
      RouteIsUnique(n, n.motes[v].best, p[1..], q[1..]);
    }
  }

  // ---------------------------------------------------------------------------
  // Widest paths

  /** p is a path over links from the master to v. */
  ghost predicate Walk(t: Topology, p: seq<int>, v: int) {
    && p != [] && p[0] == MASTER && p[|p| - 1] == v
    && forall i :: 0 <= i < |p| - 1 ==> (p[i], p[i + 1]) in t.links
  }

  /** The weakest link of a path, capped at the strength the master starts from. */
  ghost function Width(t: Topology, p: seq<int>): real
    requires p != [] && forall i :: 0 <= i < |p| - 1 ==> (p[i], p[i + 1]) in t.links
    decreases |p|
  {
    if |p| == 1 then 100.0
    else Min(Width(t, p[..|p| - 1]), t.links[(p[|p| - 2], p[|p| - 1])])
  }

  /** The strength that message number `i` on link `k` offers to its receiver. */
  ghost function Offer(t: Topology, n: Net, k: (int, int), i: nat): real
    requires k in t.links && k in n.chan && i < |n.chan[k]|
  {
    Min(n.chan[k][i].strength, t.links[k])
  }

  /** Discarded by the step: an offer that is delivered with an outdated sequence number, or lost. */
  ghost predicate Discards(t: Topology, n: Net, s: Step, k: (int, int), i: nat) {
    && k in t.links && k in n.chan && i < |n.chan[k]| && k.1 in n.motes
    && ((s == Deliver(k) && i == 0 && n.chan[k][0].seqNo < n.motes[k.1].maxSeq) || s == Lose(k, i))
  }

  /** What the step discards is no more than what the receiver holds in `f`. */
  ghost predicate HarmlessStep(t: Topology, n: Net, s: Step, f: map<int, Mote>) {
    forall k, i: nat {:trigger Discards(t, n, s, k, i)} :: Discards(t, n, s, k, i) ==>
      k.1 in f && Offer(t, n, k, i) <= f[k.1].max
  }

  ghost predicate Harmless(t: Topology, steps: seq<Step>, f: map<int, Mote>)
    requires WellFormed(t)
    decreases |steps|
  {
    steps == [] ||
    var last := |steps| - 1;
    Harmless(t, steps[..last], f) && HarmlessStep(t, Run(t, steps[..last]), steps[last], f)
  }

  /** No node is stronger than in `f`. */
  ghost predicate Under(n: Net, f: map<int, Mote>) {
    n.motes.Keys <= f.Keys && forall v :: v in n.motes ==> n.motes[v].max <= f[v].max
  }

  ghost predicate Quiet(n: Net) {
    forall k :: k in n.chan ==> n.chan[k] == []
  }

  ghost predicate OnItsWay(n: Net, k: (int, int)) {
    && k in n.chan && k.0 in n.motes
    && exists i :: 0 <= i < |n.chan[k]| && n.chan[k][i].strength == n.motes[k.0].max
  }

  ghost predicate TakenIn(t: Topology, n: Net, k: (int, int), f: map<int, Mote>) {
    && k in t.links && k.0 in n.motes && k.1 in f
    && f[k.1].max >= Min(n.motes[k.0].max, t.links[k])
  }

  /** What the sender of link k holds is on its way to the receiver, or no more than what the
      receiver holds in `f`. */
  ghost predicate Heard(t: Topology, n: Net, k: (int, int), f: map<int, Mote>) {
    k.0 in n.motes && (n.motes[k.0].best != NONE ==> OnItsWay(n, k) || TakenIn(t, n, k, f))
  }

  /** What a node last broadcast is what it holds. */
  ghost predicate Announced(n: Net, v: int) {
    && v in n.motes
    && (n.motes[v].best == NONE ==> n.motes[v].history.nodeId == 0)
    && (n.motes[v].best != NONE && v != MASTER ==>
          n.motes[v].history.nodeId == v && n.motes[v].history.strength == n.motes[v].max)
  }

  ghost predicate Spread(t: Topology, n: Net, f: map<int, Mote>) {
    && (forall k :: k in t.links ==> Heard(t, n, k, f))
    && (forall v :: v in t.nodes ==> Announced(n, v))
  }

  lemma ReceiveAnnounces(id: int, m: Mote, a: Adv, link: real)
    ensures var (m', out) := Receive(id, m, a, link);
            && m'.history.nodeId == id && m'.history.strength == m'.max
            && (out == [] ==> m.history.nodeId == id && m.history.strength == m'.max)
            && (out != [] ==> out == [Adv(id, m'.maxSeq, m'.max)])
  {
  }

  lemma DeliverAnnounces(t: Topology, n: Net, rank: Rank, clock: nat, k: (int, int), v: int)
    requires Inv(t, n, rank, clock) && k in t.links && n.chan[k] != [] && v in t.nodes && Announced(n, v)
    ensures Announced(Apply(t, n, Deliver(k)), v)
  {
    hide Receive, ChannelOk, MoteOk;
    ReceiveRaises(t, n, rank, clock, k);
    DeliverRises(t, n, rank, clock, k);
    ReceiveAnnounces(k.1, n.motes[k.1], n.chan[k][0], t.links[k]);
  }

  /** The receiver of link k passes on what it now holds. */
  lemma ForwardIsHeard(t: Topology, n: Net, rank: Rank, clock: nat, k: (int, int), c: (int, int), f: map<int, Mote>)
    requires Inv(t, n, rank, clock) && Spread(t, n, f) && k in t.links && n.chan[k] != [] && c in t.links && c.0 == k.1
    ensures Heard(t, Apply(t, n, Deliver(k)), c, f)
  {
    hide Receive, ChannelOk, MoteOk;
    var n' := Apply(t, n, Deliver(k));
    var (m, out) := Receive(k.1, n.motes[k.1], n.chan[k][0], t.links[k]);
    ReceiveRaises(t, n, rank, clock, k);
    DeliverRises(t, n, rank, clock, k);
    ReceiveAnnounces(k.1, n.motes[k.1], n.chan[k][0], t.links[k]);
    DeliveredChannel(t, n, k, c);
    assert n'.motes[k.1] == m;
    if out != [] {
      assert n'.chan[c][|n'.chan[c]| - 1] == out[0];
    } else {
      assert Announced(n, k.1) && Heard(t, n, c, f);
      assert n'.chan[c] == n.chan[c];
    }
  }

  /** What the sender holds is taken in with the message at hand, or no more than `f` has. */
  lemma TakenByReceiver(t: Topology, n: Net, rank: Rank, clock: nat, k: (int, int), f: map<int, Mote>)
    requires Inv(t, n, rank, clock) && k in t.links && n.chan[k] != [] && n.chan[k][0].strength == n.motes[k.0].max
    requires HarmlessStep(t, n, Deliver(k), f) && Under(Apply(t, n, Deliver(k)), f)
    ensures TakenIn(t, n, k, f)
  {
    hide Receive, ChannelOk, MoteOk;
    ReceiveRaises(t, n, rank, clock, k);
    DeliverRises(t, n, rank, clock, k);
    assert Discards(t, n, Deliver(k), k, 0) <==> n.chan[k][0].seqNo < n.motes[k.1].maxSeq;
  }

  lemma DeliverKeepsHeard(t: Topology, n: Net, rank: Rank, clock: nat, k: (int, int), c: (int, int), f: map<int, Mote>)
    requires Inv(t, n, rank, clock) && Spread(t, n, f) && k in t.links && n.chan[k] != [] && c in t.links
    requires HarmlessStep(t, n, Deliver(k), f) && Under(Apply(t, n, Deliver(k)), f)
    ensures Heard(t, Apply(t, n, Deliver(k)), c, f)
  {
    hide Receive, ChannelOk, MoteOk;
    if c.0 == k.1 {
      ForwardIsHeard(t, n, rank, clock, k, c, f);
    } else {
      var n' := Apply(t, n, Deliver(k));
      ReceiveRaises(t, n, rank, clock, k);
      DeliverRises(t, n, rank, clock, k);
      DeliveredChannel(t, n, k, c);
      assert Heard(t, n, c, f);
      hide Inv, Spread, WellFormed, Apply, HarmlessStep;
      if n.motes[c.0].best != NONE && OnItsWay(n, c) {
        var i :| 0 <= i < |n.chan[c]| && n.chan[c][i].strength == n.motes[c.0].max;
        if c != k {
          assert n'.chan[c][i] == n.chan[c][i];
        } else if 0 < i {
          assert n'.chan[c][i - 1] == n.chan[c][i];
        } else {
          TakenByReceiver(t, n, rank, clock, k, f);
        }
      }
    }
  }

  lemma AdvertiseKeepsSpread(t: Topology, n: Net, rank: Rank, clock: nat, f: map<int, Mote>)
    requires Inv(t, n, rank, clock) && Spread(t, n, f)
    ensures Spread(t, Apply(t, n, Advertise), f)
  {
    hide ChannelOk, MoteOk;
    var n' := Apply(t, n, Advertise);
    AdvertiseRises(t, n, rank, clock);
    forall v | v in t.nodes
      ensures Announced(n', v)
    {
      assert Announced(n, v);
    }
    forall c | c in t.links
      ensures Heard(t, n', c, f)
    {
      assert Heard(t, n, c, f);
      if c.0 == MASTER {
        assert n'.chan[c][|n.chan[c]|].strength == 100.0;
      } else if n.motes[c.0].best != NONE && OnItsWay(n, c) {
        var i :| 0 <= i < |n.chan[c]| && n.chan[c][i].strength == n.motes[c.0].max;
        assert n'.chan[c][i] == n.chan[c][i];
      }
    }
  }

  lemma LoseKeepsSpread(t: Topology, n: Net, k: (int, int), j: nat, f: map<int, Mote>)
    requires WellFormed(t) && Shaped(t, n) && Spread(t, n, f) && k in t.links && j < |n.chan[k]|
    requires HarmlessStep(t, n, Lose(k, j), f)
    ensures Spread(t, Apply(t, n, Lose(k, j)), f)
  {
    var n' := Apply(t, n, Lose(k, j));
    assert Discards(t, n, Lose(k, j), k, j);
    forall v | v in t.nodes
      ensures Announced(n', v)
    {
      assert Announced(n, v);
    }
    forall c | c in t.links
      ensures Heard(t, n', c, f)
    {
      assert Heard(t, n, c, f);
      if n.motes[c.0].best != NONE && OnItsWay(n, c) {
        var i :| 0 <= i < |n.chan[c]| && n.chan[c][i].strength == n.motes[c.0].max;
        if c != k || i != j {
          assert n'.chan[c][if c == k && j < i then i - 1 else i] == n.chan[c][i];
        }
      }
    }
  }

  /** In one step and over a run strengths only rise, and a parent once found is never lost. */
  ghost predicate Later(n: Net, n': Net) {
    Under(n, n'.motes) && forall v :: v in n.motes && n.motes[v].best != NONE ==> n'.motes[v].best != NONE
  }

  lemma StepIsLater(t: Topology, n: Net, rank: Rank, clock: nat, s: Step)
    requires Inv(t, n, rank, clock)
    ensures Shaped(t, Apply(t, n, s)) && Later(n, Apply(t, n, s))
  {
    hide Receive, MoteOk, ChannelOk;
    ApplyIsShaped(t, n, s);
    match s
    case Advertise => AdvertiseRises(t, n, rank, clock);
    case Lose(k, i) =>
    case Deliver(k) =>
      if k in t.links && n.chan[k] != [] {
        DeliverRises(t, n, rank, clock, k);
      }
  }

  lemma NextIsLater(t: Topology, steps: seq<Step>, s: Step)
    requires WellFormed(t)
    ensures Later(Run(t, steps), Run(t, steps + [s]))
  {
    hide Run, Apply, Inv, Later;
    RunSnoc(t, steps, s);
    Reachable(t, steps);
    var rank, clock :| Inv(t, Run(t, steps), rank, clock);
    StepIsLater(t, Run(t, steps), rank, clock, s);
  }

  lemma LaterLater(n: Net, n1: Net, n2: Net)
    requires Later(n, n1) && Later(n1, n2)
    ensures Later(n, n2)
  {
  }

  lemma {:induction false} RunIsLater(t: Topology, steps: seq<Step>, i: nat)
    requires WellFormed(t) && i <= |steps|
    ensures Later(Run(t, steps[..i]), Run(t, steps))
    decreases |steps|
  {
    hide Run;
    if i == |steps| {
      assert steps[..i] == steps;
    } else {
      hide Later;
      var before := steps[..|steps| - 1];
      RunIsLater(t, before, i);
      assert before[..i] == steps[..i] && before + [steps[|steps| - 1]] == steps;
      NextIsLater(t, before, steps[|steps| - 1]);
      LaterLater(Run(t, steps[..i]), Run(t, before), Run(t, steps));
    }
  }

  /** Up to any point of a run that discards nothing of use for its end. */
  lemma {:induction false} HarmlessSpreads(t: Topology, steps: seq<Step>, i: nat, f: map<int, Mote>)
    requires WellFormed(t) && i <= |steps| && f == Run(t, steps).motes && Harmless(t, steps[..i], f)
    ensures Spread(t, Run(t, steps[..i]), f)
    decreases i
  {
    hide Inv, Apply, HarmlessStep, Under;
    if i > 0 {
      var n, s := Run(t, steps[..i - 1]), steps[i - 1];
      assert steps[..i][..i - 1] == steps[..i - 1];
      HarmlessSpreads(t, steps, i - 1, f);
      Reachable(t, steps[..i - 1]);
      var rank, clock :| Inv(t, n, rank, clock);
      RunIsLater(t, steps, i);
      HarmlessStepSpreads(t, n, rank, clock, s, f);
    }
  }

  lemma HarmlessStepSpreads(t: Topology, n: Net, rank: Rank, clock: nat, s: Step, f: map<int, Mote>)
    requires Inv(t, n, rank, clock) && Spread(t, n, f) && HarmlessStep(t, n, s, f) && Under(Apply(t, n, s), f)
    ensures Spread(t, Apply(t, n, s), f)
  {
    hide Heard, Announced, ChannelOk, MoteOk, Receive, HarmlessStep, Under;
    match s
    case Advertise =>
      AdvertiseKeepsSpread(t, n, rank, clock, f);
    case Lose(k, i) =>
      if k in t.links && i < |n.chan[k]| {
        LoseKeepsSpread(t, n, k, i, f);
      }
    case Deliver(k) =>
      if k in t.links && n.chan[k] != [] {
        forall c | c in t.links
          ensures Heard(t, Apply(t, n, s), c, f)
        {
          DeliverKeepsHeard(t, n, rank, clock, k, c, f);
        }
        forall v | v in t.nodes
          ensures Announced(Apply(t, n, s), v)
        {
          DeliverAnnounces(t, n, rank, clock, k, v);
        }
      }
  }

  /** When nothing is in flight, every path from the master bounds the strength at its
      end from below. */
  lemma {:induction false} WalkBounds(t: Topology, n: Net, rank: Rank, clock: nat, p: seq<int>, v: int)
    requires Inv(t, n, rank, clock) && Spread(t, n, n.motes) && Quiet(n)
    requires n.motes[MASTER].best != NONE && Walk(t, p, v)
    ensures v in t.nodes && n.motes[v].best != NONE && 0.0 <= Width(t, p) <= n.motes[v].max
    decreases |p|
  {
    hide ChannelOk, ParentOk;
    if |p| == 1 {
      assert MoteOk(t, n, rank, MASTER);
    } else {
      var q, u := p[..|p| - 1], p[|p| - 2];
      assert (u, v) in t.links;
      WalkBounds(t, n, rank, clock, q, u);
      assert Heard(t, n, (u, v), n.motes) && n.chan[(u, v)] == [];
      assert MoteOk(t, n, rank, v);
    }
  }

  ghost function Reverse(p: seq<int>): seq<int> {
    seq(|p|, i requires 0 <= i < |p| => p[|p| - 1 - i])
  }

  lemma {:induction false} WidthAtLeast(t: Topology, p: seq<int>, v: int, s: real)
    requires Walk(t, p, v) && s <= 100.0
    requires forall i :: 0 <= i < |p| - 1 ==> s <= t.links[(p[i], p[i + 1])]
    ensures s <= Width(t, p)
    decreases |p|
  {
    if |p| > 1 {
      WidthAtLeast(t, p[..|p| - 1], p[|p| - 2], s);
    }
  }

  /** A route read backwards is a walk at least as wide as its weakest hop. */
  lemma RouteReversed(t: Topology, n: Net, v: int, r: seq<int>, s: real) returns (p: seq<int>)
    requires Route(n, v, r) && AtLeast(t, r, s) && s <= 100.0
    ensures Walk(t, p, v) && s <= Width(t, p)
  {
    hide Width;
    p := Reverse(r);
    forall i | 0 <= i < |p| - 1
      ensures (p[i], p[i + 1]) in t.links && s <= t.links[(p[i], p[i + 1])]
    {
      var j := |r| - 2 - i;
      assert p[i] == r[j + 1] && p[i + 1] == r[j];
    }
    WidthAtLeast(t, p, v, s);
  }

  /** A node has a parent exactly if there is a path to it from the master, and holds the width
      of the widest such path. */
  ghost predicate Widest(t: Topology, n: Net, v: int) {
    && v in n.motes && var m := n.motes[v];
    && (m.best != NONE <==> exists p :: Walk(t, p, v))
    && (forall p :: Walk(t, p, v) ==> Width(t, p) <= m.max)
    && (m.best != NONE ==> exists p :: Walk(t, p, v) && Width(t, p) == m.max)
  }

  /** After a run that has discarded no offer exceeding what its receiver finally holds, once
      nothing is in flight, every node has its widest-path value. */
  lemma WidestPaths(t: Topology, steps: seq<Step>, v: int)
    requires WellFormed(t) && Harmless(t, steps, Run(t, steps).motes) && Quiet(Run(t, steps)) && v in t.nodes
    requires Run(t, steps).motes[MASTER].best != NONE
    ensures Widest(t, Run(t, steps), v)
  {
    var n := Run(t, steps);
    Reachable(t, steps);
    assert steps[..|steps|] == steps;
    HarmlessSpreads(t, steps, |steps|, n.motes);
    hide Run, Harmless, Inv, Spread, Quiet, Width, Route, AtLeast, NoRepeats;
    var rank, clock :| Inv(t, n, rank, clock);
    forall p | Walk(t, p, v)
      ensures n.motes[v].best != NONE && Width(t, p) <= n.motes[v].max
    {
      WalkBounds(t, n, rank, clock, p, v);
    }
    if n.motes[v].best != NONE {
      RoutesLeadToMaster(t, steps, v);
      var r :| Route(n, v, r) && NoRepeats(r) && AtLeast(t, r, n.motes[v].max);
      var p := RouteReversed(t, n, v, r, n.motes[v].max);
      assert Width(t, p) == n.motes[v].max;
    }
  }

  /** What a link can bring never exceeds a widest-path value at its end. */
  lemma OfferBounded(t: Topology, n: Net, k: (int, int), s: real)
    requires k in t.links && Widest(t, n, k.0) && Widest(t, n, k.1) && n.motes[k.0].best != NONE && s <= n.motes[k.0].max
    ensures Min(s, t.links[k]) <= n.motes[k.1].max
  {
    var p :| Walk(t, p, k.0) && Width(t, p) == n.motes[k.0].max;
    var q := p + [k.1];
    assert q[..|q| - 1] == p;
    assert Walk(t, q, k.1) by {
      forall i | 0 <= i < |q| - 1
        ensures (q[i], q[i + 1]) in t.links
      {
        assert i < |p| - 1 ==> (p[i], p[i + 1]) in t.links;
      }
    }
    assert Width(t, q) == Min(Width(t, p), t.links[k]);
  }

  /** If all nodes have their widest-path values in the end, nothing of use was ever discarded. */
  lemma {:induction false} WidestIsHarmless(t: Topology, steps: seq<Step>, i: nat)
    requires WellFormed(t) && i <= |steps| && forall v :: v in t.nodes ==> Widest(t, Run(t, steps), v)
    ensures Harmless(t, steps[..i], Run(t, steps).motes)
    decreases i
  {
    if i > 0 {
      var f := Run(t, steps);
      var n, s := Run(t, steps[..i - 1]), steps[i - 1];
      assert steps[..i][..i - 1] == steps[..i - 1];
      WidestIsHarmless(t, steps, i - 1);
      Reachable(t, steps[..i - 1]);
      var rank, clock :| Inv(t, n, rank, clock);
      RunIsLater(t, steps, i - 1);
      hide Run, Widest, MoteOk;
      forall k, j: nat {:trigger Discards(t, n, s, k, j)} | Discards(t, n, s, k, j)
        ensures k.1 in f.motes && Offer(t, n, k, j) <= f.motes[k.1].max
      {
        assert ChannelOk(t, n, k) && MessageOk(t, n, k, n.chan[k][j]);
        OfferBounded(t, f, k, n.chan[k][j].strength);
      }
    }
  }

  /** For any run, with losses and overlapping waves, that has come to rest: all nodes have their
      widest-path values if and only if no lost or outdated offer exceeds what its receiver
      finally holds. */
  lemma WidestIff(t: Topology, steps: seq<Step>)
    requires WellFormed(t) && Quiet(Run(t, steps)) && Run(t, steps).motes[MASTER].best != NONE
    ensures (forall v :: v in t.nodes ==> Widest(t, Run(t, steps), v)) <==> Harmless(t, steps, Run(t, steps).motes)
  {
    assert steps[..|steps|] == steps;
    hide Widest, Harmless, Run, Quiet;
    if Harmless(t, steps, Run(t, steps).motes) {
      forall v | v in t.nodes
        ensures Widest(t, Run(t, steps), v)
      {
        WidestPaths(t, steps, v);
      }
    }
    if forall v :: v in t.nodes ==> Widest(t, Run(t, steps), v) {
      WidestIsHarmless(t, steps, |steps|);
    }
  }

  // ---------------------------------------------------------------------------
  // One wave, and why a second one can spoil it

  ghost function Waves(steps: seq<Step>): nat
    decreases |steps|
  {
    if steps == [] then 0 else Waves(steps[..|steps| - 1]) + if steps[|steps| - 1].Advertise? then 1 else 0
  }

  /** No sequence number is ahead of the master. */
  ghost predicate SeqsBounded(t: Topology, n: Net) {
    && Shaped(t, n)
    && (forall v :: v in t.nodes ==> n.motes[v].maxSeq < n.nextSeq)
    && (forall k, i :: k in t.links && 0 <= i < |n.chan[k]| ==> n.chan[k][i].seqNo < n.nextSeq)
  }

  lemma ReceiveBoundsSeqs(id: int, m: Mote, a: Adv, link: real, bound: int)
    requires m.maxSeq < bound && a.seqNo < bound
    ensures var (m', out) := Receive(id, m, a, link);
            m'.maxSeq < bound && forall i :: 0 <= i < |out| ==> out[i].seqNo < bound
  {
  }

  lemma DeliverBoundsSeqs(t: Topology, n: Net, k: (int, int))
    requires WellFormed(t) && SeqsBounded(t, n) && k in t.links && n.chan[k] != []
    ensures SeqsBounded(t, Apply(t, n, Deliver(k)))
  {
    hide Receive;
    var n' := Apply(t, n, Deliver(k));
    ApplyIsShaped(t, n, Deliver(k));
    ReceiveBoundsSeqs(k.1, n.motes[k.1], n.chan[k][0], t.links[k], n.nextSeq);
    forall c, i | c in t.links && 0 <= i < |n'.chan[c]|
      ensures n'.chan[c][i].seqNo < n.nextSeq
    {
      DeliveredChannel(t, n, k, c);
    }
  }

  lemma StepBoundsSeqs(t: Topology, n: Net, s: Step)
    requires WellFormed(t) && SeqsBounded(t, n)
    ensures SeqsBounded(t, Apply(t, n, s))
  {
    hide Receive;
    ApplyIsShaped(t, n, s);
    match s
    case Advertise =>
    case Lose(k, i) =>
    case Deliver(k) =>
      if k in t.links && n.chan[k] != [] {
        DeliverBoundsSeqs(t, n, k);
      }
  }

  lemma {:induction false} RunBoundsSeqs(t: Topology, steps: seq<Step>)
    requires WellFormed(t)
    ensures SeqsBounded(t, Run(t, steps)) && Run(t, steps).nextSeq == 1 + Waves(steps)
    decreases |steps|
  {
    hide SeqsBounded;
    if steps != [] {
      var last := |steps| - 1;
      RunBoundsSeqs(t, steps[..last]);
      StepBoundsSeqs(t, Run(t, steps[..last]), steps[last]);
    } else {
      BootBoundsSeqs(t);
    }
  }

  lemma BootBoundsSeqs(t: Topology)
    ensures SeqsBounded(t, Boot(t))
  {
  }

  /** A lossless run with a single wave discards nothing, so WidestPaths applies. */
  lemma {:induction false} OneWaveIsHarmless(t: Topology, steps: seq<Step>, f: map<int, Mote>)
    requires WellFormed(t) && Waves(steps) <= 1 && forall i :: 0 <= i < |steps| ==> !steps[i].Lose?
    ensures Harmless(t, steps, f)
    decreases |steps|
  {
    hide Inv, Apply;
    if steps != [] {
      var last := |steps| - 1;
      var n := Run(t, steps[..last]);
      OneWaveIsHarmless(t, steps[..last], f);
      RunBoundsSeqs(t, steps[..last]);
      Reachable(t, steps[..last]);
      var rank, clock :| Inv(t, n, rank, clock);
      match steps[last]
      case Advertise =>
      case Lose(k, i) =>
      case Deliver(k) =>
        if k in n.chan && n.chan[k] != [] && k.1 in n.motes {
          HeadSeqPositive(t, n, rank, clock, k);
        }
    }
  }

  lemma HeadSeqPositive(t: Topology, n: Net, rank: Rank, clock: nat, k: (int, int))
    requires Inv(t, n, rank, clock) && k in n.chan && n.chan[k] != []
    ensures 1 <= n.chan[k][0].seqNo
  {
    assert ChannelOk(t, n, k) && MessageOk(t, n, k, n.chan[k][0]);
  }

  lemma RunSnoc(t: Topology, steps: seq<Step>, s: Step)
    requires WellFormed(t)
    ensures Run(t, steps + [s]) == Apply(t, Run(t, steps), s)
  {
    assert (steps + [s])[..|steps|] == steps;
  }

  /** Three nodes: a weak direct link from the master to node 3 and a strong detour. */
  const TRIANGLE := Topology({1, 2, 3}, map[(1, 2) := 90.0, (2, 3) := 80.0, (1, 3) := 10.0])

  function Chans(a: seq<Adv>, b: seq<Adv>, c: seq<Adv>): map<(int, int), seq<Adv>> {
    map[(1, 2) := a, (2, 3) := b, (1, 3) := c]
  }

  function Tri(m1: Mote, m2: Mote, m3: Mote, a: seq<Adv>, b: seq<Adv>, c: seq<Adv>, nextSeq: int): Net {
    Net(map[1 := m1, 2 := m2, 3 := m3], Chans(a, b, c), nextSeq)
  }

  lemma TriangleOk()
    ensures WellFormed(TRIANGLE)
  {
  }

  lemma BroadcastTri(a: seq<Adv>, b: seq<Adv>, c: seq<Adv>, u: int, out: seq<Adv>)
    ensures Broadcast(Chans(a, b, c), u, out) ==
            Chans(if u == 1 then a + out else a, if u == 2 then b + out else b, if u == 1 then c + out else c)
  {
    var x := Broadcast(Chans(a, b, c), u, out);
    assert (1, 2) in x && (2, 3) in x && (1, 3) in x;
  }

  lemma TriAdvertise(m1: Mote, m2: Mote, m3: Mote, a: seq<Adv>, b: seq<Adv>, c: seq<Adv>, nextSeq: int)
    ensures WellFormed(TRIANGLE) && Shaped(TRIANGLE, Tri(m1, m2, m3, a, b, c, nextSeq))
    ensures Apply(TRIANGLE, Tri(m1, m2, m3, a, b, c, nextSeq), Advertise) ==
            Tri(m1.(max := 100.0, best := 1), m2, m3,
                a + [Adv(1, nextSeq, 100.0)], b, c + [Adv(1, nextSeq, 100.0)], nextSeq + 1)
  {
    TriangleOk();
    BroadcastTri(a, b, c, 1, [Adv(1, nextSeq, 100.0)]);
    hide Broadcast, WellFormed;
    assert map[1 := m1, 2 := m2, 3 := m3][1 := m1.(max := 100.0, best := 1)] ==
           map[1 := m1.(max := 100.0, best := 1), 2 := m2, 3 := m3];
  }

  lemma TriDirect(m1: Mote, m2: Mote, m3: Mote, a: seq<Adv>, b: seq<Adv>, x: Adv, nextSeq: int)
    ensures WellFormed(TRIANGLE) && Shaped(TRIANGLE, Tri(m1, m2, m3, a, b, [x], nextSeq))
    ensures Apply(TRIANGLE, Tri(m1, m2, m3, a, b, [x], nextSeq), Deliver((1, 3))) ==
            Tri(m1, m2, Receive(3, m3, x, 10.0).0, a, b, [], nextSeq)
  {
    TriangleOk();
    BroadcastTri(a, b, [], 3, Receive(3, m3, x, 10.0).1);
    hide Broadcast, WellFormed, Receive;
    assert [x][1..] == [];
    assert Chans(a, b, [x])[(1, 3) := []] == Chans(a, b, []);
    assert map[1 := m1, 2 := m2, 3 := m3][3 := Receive(3, m3, x, 10.0).0] ==
           map[1 := m1, 2 := m2, 3 := Receive(3, m3, x, 10.0).0];
  }

  lemma TriFirstHop(m1: Mote, m2: Mote, m3: Mote, x: Adv, b: seq<Adv>, c: seq<Adv>, nextSeq: int)
    ensures WellFormed(TRIANGLE) && Shaped(TRIANGLE, Tri(m1, m2, m3, [x], b, c, nextSeq))
    ensures Apply(TRIANGLE, Tri(m1, m2, m3, [x], b, c, nextSeq), Deliver((1, 2))) ==
            Tri(m1, Receive(2, m2, x, 90.0).0, m3, [], b + Receive(2, m2, x, 90.0).1, c, nextSeq)
  {
    TriangleOk();
    BroadcastTri([], b, c, 2, Receive(2, m2, x, 90.0).1);
    hide Broadcast, WellFormed, Receive;
    assert [x][1..] == [];
    assert Chans([x], b, c)[(1, 2) := []] == Chans([], b, c);
    assert map[1 := m1, 2 := m2, 3 := m3][2 := Receive(2, m2, x, 90.0).0] ==
           map[1 := m1, 2 := Receive(2, m2, x, 90.0).0, 3 := m3];
  }

  lemma TriSecondHop(m1: Mote, m2: Mote, m3: Mote, a: seq<Adv>, x: Adv, c: seq<Adv>, nextSeq: int)
    ensures WellFormed(TRIANGLE) && Shaped(TRIANGLE, Tri(m1, m2, m3, a, [x], c, nextSeq))
    ensures Apply(TRIANGLE, Tri(m1, m2, m3, a, [x], c, nextSeq), Deliver((2, 3))) ==
            Tri(m1, m2, Receive(3, m3, x, 80.0).0, a, [], c, nextSeq)
  {
    TriangleOk();
    BroadcastTri(a, [], c, 3, Receive(3, m3, x, 80.0).1);
    hide Broadcast, WellFormed, Receive;
    assert [x][1..] == [];
    assert Chans(a, [x], c)[(2, 3) := []] == Chans(a, [], c);
    assert map[1 := m1, 2 := m2, 3 := m3][3 := Receive(3, m3, x, 80.0).0] ==
           map[1 := m1, 2 := m2, 3 := Receive(3, m3, x, 80.0).0];
  }

  const FIRST_WAVE: seq<Step> := [] + [Advertise] + [Deliver((1, 3))] + [Deliver((1, 2))]
  const BOTH_WAVES: seq<Step> := FIRST_WAVE + [Advertise] + [Deliver((1, 3))] + [Deliver((1, 2))] + [Deliver((2, 3))]

  const ONE := BOOTED.(max := 100.0, best := 1)
  const TWO := Mote(90.0, 1, 1, Adv(2, 1, 90.0))
  const THREE := Mote(10.0, 1, 1, Adv(3, 1, 10.0))

  lemma BootTri()
    ensures WellFormed(TRIANGLE) && Run(TRIANGLE, []) == Tri(BOOTED, BOOTED, BOOTED, [], [], [], 1)
  {
    TriangleOk();
    assert (map v | v in TRIANGLE.nodes :: BOOTED) == map[1 := BOOTED, 2 := BOOTED, 3 := BOOTED];
    assert (map k | k in TRIANGLE.links :: []) == Chans([], [], []);
  }

  /** What the nodes make of the five receptions that matter. */
  lemma TriReceptions()
    ensures Receive(3, BOOTED, Adv(1, 1, 100.0), 10.0).0 == THREE
    ensures Receive(2, BOOTED, Adv(1, 1, 100.0), 90.0) == (TWO, [Adv(2, 1, 90.0)])
    ensures Receive(3, THREE, Adv(1, 2, 100.0), 10.0).0 == THREE.(maxSeq := 2)
    ensures Receive(2, TWO, Adv(1, 2, 100.0), 90.0) == (TWO.(maxSeq := 2), [])
    ensures Receive(3, THREE.(maxSeq := 2), Adv(2, 1, 90.0), 80.0).0 == THREE.(maxSeq := 2)
  {
  }

  lemma AfterFirstWave()
    ensures WellFormed(TRIANGLE) && Run(TRIANGLE, FIRST_WAVE) == Tri(ONE, TWO, THREE, [], [Adv(2, 1, 90.0)], [], 2)
  {
    hide Run, Receive, Apply, Tri, WellFormed;
    var a := Adv(1, 1, 100.0);
    BootTri();
    TriReceptions();
    TriAdvertise(BOOTED, BOOTED, BOOTED, [], [], [], 1);
    TriDirect(ONE, BOOTED, BOOTED, [a], [], a, 2);
    TriFirstHop(ONE, BOOTED, THREE, a, [], [], 2);
    assert [] + [a] == [a] && [] + [Adv(2, 1, 90.0)] == [Adv(2, 1, 90.0)];
    RunSnoc(TRIANGLE, [], Advertise);
    RunSnoc(TRIANGLE, [] + [Advertise], Deliver((1, 3)));
    RunSnoc(TRIANGLE, [] + [Advertise] + [Deliver((1, 3))], Deliver((1, 2)));
  }

  lemma AfterBothWaves()
    ensures WellFormed(TRIANGLE)
    ensures Run(TRIANGLE, BOTH_WAVES) == Tri(ONE, TWO.(maxSeq := 2), THREE.(maxSeq := 2), [], [], [], 3)
  {
    hide Run, Receive, Apply, Tri, WellFormed;
    var a, d, w := Adv(1, 2, 100.0), Adv(2, 1, 90.0), FIRST_WAVE;
    AfterFirstWave();
    TriReceptions();
    TriAdvertise(ONE, TWO, THREE, [], [d], [], 2);
    TriDirect(ONE, TWO, THREE, [a], [d], a, 3);
    TriFirstHop(ONE, TWO, THREE.(maxSeq := 2), a, [d], [], 3);
    TriSecondHop(ONE, TWO.(maxSeq := 2), THREE.(maxSeq := 2), [], d, [], 3);
    assert [] + [a] == [a] && [d] + [] == [d];
    RunSnoc(TRIANGLE, w, Advertise);
    RunSnoc(TRIANGLE, w + [Advertise], Deliver((1, 3)));
    RunSnoc(TRIANGLE, w + [Advertise] + [Deliver((1, 3))], Deliver((1, 2)));
    RunSnoc(TRIANGLE, w + [Advertise] + [Deliver((1, 3))] + [Deliver((1, 2))], Deliver((2, 3)));
  }

  /** A second wave overtakes the advertisement of the detour, which node 3 then discards
      as stale and node 2 never repeats: nothing is lost, nothing is in flight, and node 3
      holds 10 although a path of width 80 leads to it. */
  lemma SecondWaveSpoils()
    ensures WellFormed(TRIANGLE)
    ensures Quiet(Run(TRIANGLE, BOTH_WAVES)) && Run(TRIANGLE, BOTH_WAVES).motes[3].max == 10.0
    ensures Walk(TRIANGLE, [1, 2, 3], 3) && Width(TRIANGLE, [1, 2, 3]) == 80.0
  {
    AfterBothWaves();
    hide Run;
    assert [1, 2, 3][..2] == [1, 2] && [1, 2][..1] == [1];
    assert Width(TRIANGLE, [1, 2]) == 90.0;
  }
}
