/** The advertisement protocol comes to rest: a node broadcasts only when its strength has
    risen since its last broadcast, strengths take finitely many values, and so only finitely
    many messages follow an advertisement of the master. */
module Quiescence {
  import opened Collection
  import opened Sets
  import A = Arithmetic

  /** The values that strengths can take. */
  ghost function Levels(t: Topology): set<real> {
    {100.0} + set k | k in t.links :: t.links[k]
  }

  ghost predicate MessagesGraded(t: Topology, n: Net) {
    forall k, i :: k in t.links && k in n.chan && 0 <= i < |n.chan[k]| ==> n.chan[k][i].strength in Levels(t)
  }

  /** A node that has broadcast holds what it broadcast last. */
  ghost predicate Posted(t: Topology, n: Net, v: int) {
    && v in n.motes && var m := n.motes[v];
    && (m.best != NONE ==> m.max in Levels(t))
    && (m.history.nodeId == v ==> m.best != NONE && m.history.strength == m.max)
  }

  ghost predicate Tidy(t: Topology, n: Net) {
    MessagesGraded(t, n) && forall v :: v in t.nodes ==> Posted(t, n, v)
  }

  // ---------------------------------------------------------------------------
  // Every step keeps it

  lemma OfferIsLevel(t: Topology, k: (int, int), s: real)
    requires k in t.links && s in Levels(t)
    ensures Min(s, t.links[k]) in Levels(t)
  {
  }

  lemma DeliverPosts(t: Topology, n: Net, rank: Rank, clock: nat, k: (int, int), v: int)
    requires Inv(t, n, rank, clock) && Tidy(t, n) && k in t.links && n.chan[k] != [] && v in t.nodes
    ensures Shaped(t, Apply(t, n, Deliver(k))) && Posted(t, Apply(t, n, Deliver(k)), v)
  {
    hide Receive, ChannelOk, MoteOk, Levels;
    ReceiveRaises(t, n, rank, clock, k);
    DeliverRises(t, n, rank, clock, k);
    ReceiveAnnounces(k.1, n.motes[k.1], n.chan[k][0], t.links[k]);
    OfferIsLevel(t, k, n.chan[k][0].strength);
    assert Posted(t, n, v);
  }

  lemma DeliverGrades(t: Topology, n: Net, rank: Rank, clock: nat, k: (int, int))
    requires Inv(t, n, rank, clock) && Tidy(t, n) && k in t.links && n.chan[k] != []
    requires Posted(t, Apply(t, n, Deliver(k)), k.1)
    ensures MessagesGraded(t, Apply(t, n, Deliver(k)))
  {
    hide Receive, ChannelOk, MoteOk, Levels;
    var n' := Apply(t, n, Deliver(k));
    ReceiveRaises(t, n, rank, clock, k);
    forall c, i | c in t.links && c in n'.chan && 0 <= i < |n'.chan[c]|
      ensures n'.chan[c][i].strength in Levels(t)
    {
      DeliveredChannel(t, n, k, c);
      var kept := if c == k then n.chan[c][1..] else n.chan[c];
      if i < |kept| {
        assert n'.chan[c][i] == n.chan[c][if c == k then i + 1 else i];
      }
    }
  }

  lemma AdvertisePosts(t: Topology, n: Net, rank: Rank, clock: nat, v: int)
    requires Inv(t, n, rank, clock) && Tidy(t, n) && v in t.nodes
    ensures Posted(t, Apply(t, n, Advertise), v)
  {
    assert Posted(t, n, v) && MoteOk(t, n, rank, v);
  }

  lemma AdvertiseGrades(t: Topology, n: Net, rank: Rank, clock: nat)
    requires Inv(t, n, rank, clock) && Tidy(t, n)
    ensures MessagesGraded(t, Apply(t, n, Advertise))
  {
    hide ChannelOk, MoteOk;
    var n' := Apply(t, n, Advertise);
    forall c, i | c in t.links && c in n'.chan && 0 <= i < |n'.chan[c]|
      ensures n'.chan[c][i].strength in Levels(t)
    {
      if i < |n.chan[c]| {
        assert n'.chan[c][i] == n.chan[c][i];
      }
    }
  }

  lemma LoseGrades(t: Topology, n: Net, k: (int, int), i: nat)
    requires WellFormed(t) && Shaped(t, n) && Tidy(t, n)
    ensures Tidy(t, Apply(t, n, Lose(k, i)))
  {
    var n' := Apply(t, n, Lose(k, i));
    forall c, j | c in t.links && c in n'.chan && 0 <= j < |n'.chan[c]|
      ensures n'.chan[c][j].strength in Levels(t)
    {
      assert n'.chan[c][j] == n.chan[c][if n' != n && c == k && i <= j then j + 1 else j];
    }
    forall v | v in t.nodes ensures Posted(t, n', v) {
      assert Posted(t, n, v);
    }
  }

  lemma StepKeepsTidy(t: Topology, n: Net, rank: Rank, clock: nat, s: Step)
    requires Inv(t, n, rank, clock) && Tidy(t, n)
    ensures Tidy(t, Apply(t, n, s))
  {
    hide MessagesGraded, Posted, Receive, ChannelOk, MoteOk;
    match s
    case Advertise =>
      AdvertiseGrades(t, n, rank, clock);
      forall v | v in t.nodes ensures Posted(t, Apply(t, n, s), v) {
        AdvertisePosts(t, n, rank, clock, v);
      }
    case Deliver(k) =>
      if k in t.links && n.chan[k] != [] {
        forall v | v in t.nodes ensures Posted(t, Apply(t, n, s), v) {
          DeliverPosts(t, n, rank, clock, k, v);
        }
        DeliverGrades(t, n, rank, clock, k);
      }
    case Lose(k, i) =>
      LoseGrades(t, n, k, i);
  }

  lemma {:induction false} RunIsTidy(t: Topology, steps: seq<Step>)
    requires WellFormed(t)
    ensures Tidy(t, Run(t, steps))
    decreases |steps|
  {
    if steps != [] {
      hide Tidy, Inv, Apply;
      var last := |steps| - 1;
      RunIsTidy(t, steps[..last]);
      Reachable(t, steps[..last]);
      var rank, clock :| Inv(t, Run(t, steps[..last]), rank, clock);
      StepKeepsTidy(t, Run(t, steps[..last]), rank, clock, steps[last]);
    }
  }

  // ---------------------------------------------------------------------------
  // The measure

  /** Nodes paired with the levels they may still broadcast. */
  ghost function Open(t: Topology, n: Net): set<(int, real)>
    requires Shaped(t, n)
  {
    set v, x | v in t.nodes && x in Levels(t) && StillOpen(n.motes[v], v, x) :: (v, x)
  }

  ghost predicate StillOpen(m: Mote, v: int, x: real) {
    m.history.nodeId != v || m.history.strength < x
  }

  /** The messages in flight, by link and position. */
  ghost function Flight(t: Topology, n: Net): set<((int, int), int)>
    requires Shaped(t, n)
  {
    set k, i | k in t.links && 0 <= i < |n.chan[k]| :: (k, i)
  }

  ghost function Measure(t: Topology, n: Net): nat
    requires Shaped(t, n)
  {
    |Open(t, n)| * |t.links| + |Flight(t, n)|
  }

  /** What a delivery does to the node that takes the message. */
  lemma DeliverOpens(t: Topology, n: Net, rank: Rank, clock: nat, k: (int, int))
    requires Inv(t, n, rank, clock) && Tidy(t, n) && k in t.links && n.chan[k] != []
    ensures var n' := Apply(t, n, Deliver(k));
      && Shaped(t, n') && Open(t, n') <= Open(t, n)
      && (Receive(k.1, n.motes[k.1], n.chan[k][0], t.links[k]).1 != [] ==> |Open(t, n')| < |Open(t, n)|)
  {
    hide Receive, ChannelOk, MoteOk, Levels, MessagesGraded;
    var n', v := Apply(t, n, Deliver(k)), k.1;
    ReceiveRaises(t, n, rank, clock, k);
    DeliverRises(t, n, rank, clock, k);
    DeliverPosts(t, n, rank, clock, k, v);
    ReceiveAnnounces(v, n.motes[v], n.chan[k][0], t.links[k]);
    assert Posted(t, n, v);
    assert forall x :: StillOpen(n'.motes[v], v, x) ==> StillOpen(n.motes[v], v, x);
    if Receive(v, n.motes[v], n.chan[k][0], t.links[k]).1 != [] {
      SpokeUp(v, n.motes[v], n.chan[k][0], t.links[k]);
      var x := n'.motes[v].max;
      assert (v, x) in Open(t, n) && (v, x) !in Open(t, n');
      FewerMembers(Open(t, n'), Open(t, n), (v, x));
    }
  }

  /** A broadcast says something new. */
  lemma SpokeUp(id: int, m: Mote, a: Adv, link: real)
    requires Receive(id, m, a, link).1 != []
    ensures !(m.history.nodeId == id && m.history.strength == Receive(id, m, a, link).0.max)
  {
  }

  /** The last position of each link. */
  ghost function Ends(ks: set<(int, int)>, n: Net): set<((int, int), int)> {
    set k | k in ks && k in n.chan :: (k, |n.chan[k]| - 1)
  }

  lemma {:induction false} EndsFew(ks: set<(int, int)>, n: Net)
    ensures |Ends(ks, n)| <= |ks|
    decreases |ks|
  {
    if ks == {} {
      assert Ends(ks, n) == {};
    } else {
      var k :| k in ks;
      EndsFew(ks - {k}, n);
      var last := if k in n.chan then {(k, |n.chan[k]| - 1)} else {};
      assert Ends(ks, n) == Ends(ks - {k}, n) + last;
    }
  }

  ghost predicate Broadcasts(t: Topology, n: Net, k: (int, int))
    requires WellFormed(t) && Shaped(t, n) && k in t.links && n.chan[k] != []
  {
    Receive(k.1, n.motes[k.1], n.chan[k][0], t.links[k]).1 != []
  }

  lemma DeliveredLength(t: Topology, n: Net, k: (int, int), c: (int, int))
    requires WellFormed(t) && Shaped(t, n) && k in t.links && n.chan[k] != [] && c in t.links
    ensures Shaped(t, Apply(t, n, Deliver(k)))
    ensures |Apply(t, n, Deliver(k)).chan[c]| ==
      |n.chan[c]| - (if c == k then 1 else 0) + if c.0 == k.1 && Broadcasts(t, n, k) then 1 else 0
  {
    hide Receive;
    ApplyIsShaped(t, n, Deliver(k));
    DeliveredChannel(t, n, k, c);
    ReceiveAnnounces(k.1, n.motes[k.1], n.chan[k][0], t.links[k]);
  }

  lemma Exchange<T>(a: set<T>, b: set<T>, gone: T, more: set<T>, d: nat)
    requires gone in a && b <= (a - {gone}) + more && |more| <= d
    ensures |b| < |a| + d
  {
    Subset(b, (a - {gone}) + more);
    assert (a - {gone}) + more == (a - {gone}) + (more - (a - {gone}));
    Subset(more - (a - {gone}), more);
  }

  /** A delivery takes one message away and adds at most one to each link. */
  lemma DeliverFlight(t: Topology, n: Net, rank: Rank, clock: nat, k: (int, int))
    requires Inv(t, n, rank, clock) && k in t.links && n.chan[k] != []
    ensures var n' := Apply(t, n, Deliver(k));
      && Shaped(t, n')
      && |Flight(t, n')| < |Flight(t, n)| + if Broadcasts(t, n, k) then |t.links| else 0
  {
    hide Apply, ChannelOk, MoteOk, Broadcasts;
    DeliveredLength(t, n, k, k);
    var n' := Apply(t, n, Deliver(k));
    var spoke := Broadcasts(t, n, k);
    var gone, more := (k, |n.chan[k]| - 1), if spoke then Ends(t.links.Keys, n') else {};
    EndsFew(t.links.Keys, n');
    forall c, i | c in t.links && 0 <= i < |n'.chan[c]|
      ensures (c, i) in (Flight(t, n) - {gone}) + more
    {
      DeliveredLength(t, n, k, c);
      if i >= |n.chan[c]| {
        assert (c, i) in more;
      }
    }
    assert gone in Flight(t, n);
    assert Flight(t, n') <= (Flight(t, n) - {gone}) + more;
    hide Flight, Ends;
    Exchange(Flight(t, n), Flight(t, n'), gone, more, if spoke then |t.links| else 0);
  }

  lemma LoseFlight(t: Topology, n: Net, k: (int, int), i: nat)
    requires WellFormed(t) && Shaped(t, n) && k in t.links && i < |n.chan[k]|
    ensures var n' := Apply(t, n, Lose(k, i));
      Shaped(t, n') && Open(t, n') == Open(t, n) && |Flight(t, n')| < |Flight(t, n)|
  {
    var n' := Apply(t, n, Lose(k, i));
    var gone := (k, |n.chan[k]| - 1);
    assert gone in Flight(t, n) && gone !in Flight(t, n');
    FewerMembers(Flight(t, n'), Flight(t, n), gone);
  }

  lemma Weigh(a: nat, b: nat, d: nat)
    ensures a <= b ==> a * d <= b * d
    ensures a < b ==> a * d + d <= b * d
  {
    if a <= b {
      A.MulMonotone(d, a, b);
    }
    if a < b {
      A.MulMonotone(d, a + 1, b);
      A.MulNext(a, d);
    }
  }

  /** A message is there to be delivered or lost. */
  ghost predicate Active(n: Net, s: Step) {
    match s
    case Advertise => false
    case Deliver(k) => k in n.chan && n.chan[k] != []
    case Lose(k, i) => k in n.chan && i < |n.chan[k]|
  }

  /** Every delivery and every loss makes the measure smaller. */
  lemma ActiveShrinks(t: Topology, n: Net, rank: Rank, clock: nat, s: Step)
    requires Inv(t, n, rank, clock) && Tidy(t, n) && Active(n, s)
    ensures Shaped(t, Apply(t, n, s)) && Measure(t, Apply(t, n, s)) < Measure(t, n)
  {
    hide Open, Flight, Tidy, Receive, ChannelOk, MoteOk;
    ApplyIsShaped(t, n, s);
    var n' := Apply(t, n, s);
    Weigh(|Open(t, n')|, |Open(t, n)|, |t.links|);
    match s
    case Deliver(k) =>
      DeliverOpens(t, n, rank, clock, k);
      Subset(Open(t, n'), Open(t, n));
      DeliverFlight(t, n, rank, clock, k);
    case Lose(k, i) =>
      LoseFlight(t, n, k, i);
  }

  // ---------------------------------------------------------------------------
  // Runs

  /** After `steps`, each of `more` acts on a message and none is an advertisement of the master. */
  ghost predicate ActiveRun(t: Topology, steps: seq<Step>, more: seq<Step>)
    requires WellFormed(t)
    decreases |more|
  {
    more == [] ||
    var m := |more| - 1;
    ActiveRun(t, steps, more[..m]) && Active(Run(t, steps + more[..m]), more[m])
  }

  /** From every reachable state, only finitely many deliveries and losses are possible
      before the master advertises again. */
  lemma {:induction false} Quiesces(t: Topology, steps: seq<Step>, more: seq<Step>)
    requires WellFormed(t) && ActiveRun(t, steps, more)
    ensures |more| + Measure(t, Run(t, steps + more)) <= Measure(t, Run(t, steps))
    decreases |more|
  {
    hide Run, Measure, Active, WellFormed;
    if more == [] {
      assert steps + more == steps;
    } else {
      var m := |more| - 1;
      var before := steps + more[..m];
      Quiesces(t, steps, more[..m]);
      assert steps + more == before + [more[m]];
      ActiveStep(t, before, more[m]);
    }
  }

  lemma ActiveStep(t: Topology, steps: seq<Step>, s: Step)
    requires WellFormed(t) && Active(Run(t, steps), s)
    ensures Measure(t, Run(t, steps + [s])) < Measure(t, Run(t, steps))
  {
    hide Run, Measure, Tidy, Inv, Active, Apply;
    RunSnoc(t, steps, s);
    RunIsTidy(t, steps);
    Reachable(t, steps);
    var rank, clock :| Inv(t, Run(t, steps), rank, clock);
    ActiveShrinks(t, Run(t, steps), rank, clock, s);
  }

  ghost predicate OnlyDeliveries(more: seq<Step>) {
    forall i :: 0 <= i < |more| ==> more[i].Deliver?
  }

  lemma ActiveSnoc(t: Topology, steps: seq<Step>, more: seq<Step>, s: Step)
    requires WellFormed(t) && ActiveRun(t, steps, more) && Active(Run(t, steps + more), s)
    ensures ActiveRun(t, steps, more + [s])
  {
    assert (more + [s])[..|more|] == more;
  }

  /** Delivering while there is something to deliver leads to a state with nothing in flight. */
  lemma {:induction false} Settles(t: Topology, steps: seq<Step>, more: seq<Step>) returns (rest: seq<Step>)
    requires WellFormed(t) && ActiveRun(t, steps, more) && OnlyDeliveries(more)
    ensures more <= rest && ActiveRun(t, steps, rest) && OnlyDeliveries(rest) && Quiet(Run(t, steps + rest))
    decreases Measure(t, Run(t, steps)) - |more|
  {
    hide ActiveRun, Run, Measure;
    var n := Run(t, steps + more);
    if Quiet(n) {
      rest := more;
    } else {
      var k :| k in n.chan && n.chan[k] != [];
      ActiveSnoc(t, steps, more, Deliver(k));
      Quiesces(t, steps, more + [Deliver(k)]);
      rest := Settles(t, steps, more + [Deliver(k)]);
    }
  }

  /** One advertisement of the master with any order of deliveries: the order is finite, can be
      completed, and once nothing is in flight every node has its widest-path value. */
  lemma WaveConverges(t: Topology, more: seq<Step>) returns (rest: seq<Step>)
    requires WellFormed(t) && ActiveRun(t, [Advertise], more) && OnlyDeliveries(more)
    ensures more <= rest && OnlyDeliveries(rest) && |rest| <= Measure(t, Run(t, [Advertise]))
    ensures forall v :: v in t.nodes ==> Widest(t, Run(t, [Advertise] + rest), v)
  {
    hide ActiveRun, Measure, Run, Harmless;
    rest := Settles(t, [Advertise], more);
    Quiesces(t, [Advertise], rest);
    WaveIsWidest(t, rest);
  }

  lemma {:induction false} DeliveriesAreNoWaves(rest: seq<Step>)
    requires OnlyDeliveries(rest)
    ensures Waves([Advertise] + rest) == 1
    decreases |rest|
  {
    var steps := [Advertise] + rest;
    if rest == [] {
      assert steps == [Advertise] && [Advertise][..0] == [];
      assert Waves([]) == 0;
    } else {
      var m := |rest| - 1;
      DeliveriesAreNoWaves(rest[..m]);
      assert steps[..|steps| - 1] == [Advertise] + rest[..m] && steps[|steps| - 1] == rest[m];
    }
  }

  lemma WaveIsWidest(t: Topology, rest: seq<Step>)
    requires WellFormed(t) && OnlyDeliveries(rest) && Quiet(Run(t, [Advertise] + rest))
    ensures forall v :: v in t.nodes ==> Widest(t, Run(t, [Advertise] + rest), v)
  {
    hide Harmless, Run, Waves;
    var steps := [Advertise] + rest;
    DeliveriesAreNoWaves(rest);
    assert forall i :: 0 <= i < |steps| ==> !steps[i].Lose?;
    OneWaveIsHarmless(t, steps, Run(t, steps).motes);
    MasterKnown(t, rest);
    forall v | v in t.nodes ensures Widest(t, Run(t, steps), v) {
      WidestPaths(t, steps, v);
    }
  }

  lemma {:induction false} MasterKnown(t: Topology, rest: seq<Step>)
    requires WellFormed(t)
    ensures Run(t, [Advertise] + rest).motes[MASTER].best != NONE
    decreases |rest|
  {
    if rest == [] {
      assert [Advertise] + rest == [] + [Advertise];
      RunSnoc(t, [], Advertise);
    } else {
      var m := |rest| - 1;
      var before := [Advertise] + rest[..m];
      MasterKnown(t, rest[..m]);
      assert [Advertise] + rest == before + [rest[m]];
      RunSnoc(t, before, rest[m]);
      Reachable(t, before);
      var n := Run(t, before);
      hide Run, Receive;
      var rank, clock :| Inv(t, n, rank, clock);
      match rest[m]
      case Advertise =>
      case Lose(k, i) =>
      case Deliver(k) =>
        if k in t.links && n.chan[k] != [] {
          DeliverRises(t, n, rank, clock, k);
        }
    }
  }
}
