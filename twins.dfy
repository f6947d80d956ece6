/**
 * The Twins network simulator: a registry of nodes (replicas and their twins),
 * a per-view partition schedule that decides which messages are delivered,
 * liveness tracking of nodes that keep timing out in the same view, and the
 * configuration through which one node sends, broadcasts and fetches.
 *
 * The modules each node runs (its view synchronizer, event loop and block
 * store) are external; the model keeps their observable state as maps in the
 * Network: each node's view, event queue and block store.
 */
module Twins {
  import opened Hotstuff
  import opened Wrappers

  /** A node: one running instance of a replica. Twins share the replica ID. */
  datatype NodeId = NodeId(replicaId: ID, networkId: nat)

  type NodeSet = set<NodeId>

  /** NodeSet.Contains: `v` is a member exactly when adding it changes nothing. */
  function Contains(s: NodeSet, v: NodeId): (b: bool)
    ensures b <==> s + {v} == s
  {
    v in s
  }

  /** NodeSet.Add: `v` becomes a member and no other membership changes. */
  function Add(s: NodeSet, v: NodeId): (r: NodeSet)
    ensures Contains(r, v)
    ensures forall w | w != v :: Contains(r, w) == Contains(s, w)
  {
    s + {v}
  }

  /** The nodes listed in `s`. */
  function Elements(s: seq<NodeId>): set<NodeId>
  {
    set n | n in s
  }

  /** The messages the consensus engine sends; their payloads are opaque here. */
  datatype Message =
    | ProposeMsg(proposal: nat)
    | TimeoutMsg(timeout: nat)
    | VoteMsg(voter: ID, partialCert: nat)
    | NewViewMsg(sender: ID, syncInfo: nat)

  /** An encoded block, as a block store holds it. */
  type Block = seq<byte>

  // ---------------------------------------------------------------------
  // Partition scan
  // ---------------------------------------------------------------------

  /** The scan of one view's partitions: whether some partition holds both nodes. */
  function Reachable(partitions: seq<NodeSet>, sender: NodeId, receiver: NodeId): (b: bool)
    ensures b <==> exists p | p in partitions :: Contains(p, sender) && Contains(p, receiver)
  {
    if partitions == [] then false
    else if Contains(partitions[0], sender) && Contains(partitions[0], receiver) then true
    else
      assert forall p | p in partitions :: p == partitions[0] || p in partitions[1..];
      Reachable(partitions[1..], sender, receiver)
  }

  /** Listing a view's partitions in another order does not change reachability. */
  lemma ReachableOrderIndependent(ps: seq<NodeSet>, qs: seq<NodeSet>, sender: NodeId, receiver: NodeId)
    requires multiset(ps) == multiset(qs)
    ensures Reachable(ps, sender, receiver) == Reachable(qs, sender, receiver)
  {
    assert forall p :: p in ps <==> p in multiset(ps);
    assert forall p :: p in qs <==> p in multiset(qs);
  }

  // ---------------------------------------------------------------------
  // Liveness tracking
  // ---------------------------------------------------------------------

  /**
   * The liveness state of the network: the view of each node's last timeout,
   * the hung nodes, and how many times the all-hung channel has been closed
   * (a second close is a runtime panic in the source).
   */
  datatype Liveness = Liveness(lastTimeouts: map<NodeId, View>, hungNodes: NodeSet, allHungCloses: nat)

  /** Network.timeout on the liveness state of a network with `nodeCount` nodes. */
  function TimeoutStep(st: Liveness, nodeCount: nat, node: NodeId, view: View): (r: Liveness)
    ensures forall n | n != node :: (n in r.hungNodes <==> n in st.hungNodes)
    ensures forall n | n != node :: (n in r.lastTimeouts <==> n in st.lastTimeouts)
    ensures forall n | n != node && n in st.lastTimeouts :: r.lastTimeouts[n] == st.lastTimeouts[n]
    ensures r.allHungCloses == st.allHungCloses || r.allHungCloses == st.allHungCloses + 1
  {
    // A missing entry reads as the zero view.
    var last := if node in st.lastTimeouts then st.lastTimeouts[node] else 0;
    if node in st.lastTimeouts && last == view then
      var hung := Add(st.hungNodes, node);
      st.(hungNodes := hung,
          allHungCloses := if |hung| == nodeCount then st.allHungCloses + 1 else st.allHungCloses)
    else if last > view then
      st
    else
      st.(lastTimeouts := st.lastTimeouts[node := view], hungNodes := st.hungNodes - {node})
  }

  /**
   * The three cases of timeout: a repeat of the recorded view marks the node
   * hung and leaves the recorded views alone; an older view changes nothing;
   * otherwise (the first timeout included) the view is recorded and the node
   * is no longer hung.
   */
  lemma TimeoutCases(st: Liveness, nodeCount: nat, node: NodeId, view: View)
    ensures var r := TimeoutStep(st, nodeCount, node, view);
      && (node in st.lastTimeouts && st.lastTimeouts[node] == view ==>
            r.lastTimeouts == st.lastTimeouts && r.hungNodes == st.hungNodes + {node})
      && (node in st.lastTimeouts && st.lastTimeouts[node] > view ==> r == st)
      && ((node !in st.lastTimeouts || st.lastTimeouts[node] < view) ==>
            r.lastTimeouts == st.lastTimeouts[node := view] && r.hungNodes == st.hungNodes - {node}
            && r.allHungCloses == st.allHungCloses)
  {
  }

  /**
   * The all-hung channel is closed only on a repeat of the recorded view that
   * leaves as many hung nodes as there are nodes, and then exactly once.
   */
  lemma AllHungCloseCondition(st: Liveness, nodeCount: nat, node: NodeId, view: View)
    ensures var r := TimeoutStep(st, nodeCount, node, view);
      && r.allHungCloses >= st.allHungCloses
      && (r.allHungCloses != st.allHungCloses <==>
            node in st.lastTimeouts && st.lastTimeouts[node] == view && |st.hungNodes + {node}| == nodeCount)
      && r.allHungCloses <= st.allHungCloses + 1
  {
  }

  /** Recorded timeout views never decrease and are never forgotten. */
  lemma LastTimeoutsNeverDecrease(st: Liveness, nodeCount: nat, node: NodeId, view: View)
    ensures var r := TimeoutStep(st, nodeCount, node, view);
      forall n | n in st.lastTimeouts :: n in r.lastTimeouts && r.lastTimeouts[n] >= st.lastTimeouts[n]
  {
  }

  /** A timeout of a registered node keeps every hung node registered and with a recorded timeout. */
  lemma HungNodesHaveTimedOut(st: Liveness, nodes: set<NodeId>, node: NodeId, view: View)
    requires st.hungNodes <= st.lastTimeouts.Keys
    requires st.hungNodes <= nodes
    requires node in nodes
    ensures var r := TimeoutStep(st, |nodes|, node, view);
      r.hungNodes <= r.lastTimeouts.Keys && r.hungNodes <= nodes
  {
  }

  /**
   * Timeouts are not checked against the registered nodes, so an unregistered
   * node can make the hung set as large as the network: in a network whose only
   * node is (1,10), two timeouts of (9,90) at view 5 close the all-hung
   * channel while (1,10) is not hung.
   */
  lemma UnregisteredTimeoutsSignalAllHung()
    ensures var nodes := {NodeId(1, 10)};
      var st := TimeoutStep(TimeoutStep(Liveness(map[], {}, 0), |nodes|, NodeId(9, 90), 5), |nodes|, NodeId(9, 90), 5);
      st.allHungCloses == 1 && NodeId(1, 10) !in st.hungNodes && !(st.hungNodes <= nodes)
  {
    var nodes := {NodeId(1, 10)};
    var s1 := TimeoutStep(Liveness(map[], {}, 0), |nodes|, NodeId(9, 90), 5);
    assert s1 == Liveness(map[NodeId(9, 90) := 5], {}, 0);
    assert Add({}, NodeId(9, 90)) == {NodeId(9, 90)};
  }

  /** The source compares sizes; for hung nodes among the registered ones that means every node is hung. */
  lemma {:induction false} AllHungMeansEveryNodeHung(hung: set<NodeId>, nodes: set<NodeId>)
    requires hung <= nodes
    requires |hung| == |nodes|
    ensures hung == nodes
    decreases nodes
  {
    if hung != {} {
      var x :| x in hung;
      assert |hung - {x}| == |hung| - 1 && |nodes - {x}| == |nodes| - 1;
      AllHungMeansEveryNodeHung(hung - {x}, nodes - {x});
      assert hung == (hung - {x}) + {x} && nodes == (nodes - {x}) + {x};
    } else {
      assert |nodes| == 0;
    }
  }

  /** Two timeouts in a row at the same view leave the node hung, unless a newer view is already recorded for it. */
  lemma TimeoutTwiceMarksHung(st: Liveness, nodeCount: nat, node: NodeId, view: View)
    requires node !in st.lastTimeouts || st.lastTimeouts[node] <= view
    ensures node in TimeoutStep(TimeoutStep(st, nodeCount, node, view), nodeCount, node, view).hungNodes
  {
  }

  /** The hung set is not monotone: a timeout in a later view removes the node from it. */
  lemma HungSetNotMonotone(node: NodeId)
    ensures var st := Liveness(map[node := 3], {node}, 0);
      node in st.hungNodes && node !in TimeoutStep(st, 1, node, 4).hungNodes
  {
  }

  /** A timeout reported by a node at a view. */
  datatype TimeoutEvent = TimeoutEvent(node: NodeId, view: View)

  /** The source's liveness state after a sequence of timeouts. */
  function RunTimeouts(st: Liveness, nodeCount: nat, events: seq<TimeoutEvent>): Liveness
    decreases |events|
  {
    if events == [] then st
    else RunTimeouts(TimeoutStep(st, nodeCount, events[0].node, events[0].view), nodeCount, events[1..])
  }

  /**
   * In a one-node network, three timeouts in the same view close the all-hung
   * channel twice: the second close panics in the source.
   */
  lemma SourceClosesAllHungTwice()
    ensures var node := NodeId(2, 20);
      var event := TimeoutEvent(node, 3);
      RunTimeouts(Liveness(map[], {}, 0), 1, [event, event, event]).allHungCloses == 2
  {
    var node := NodeId(2, 20);
    var e := TimeoutEvent(node, 3);
    var s0 := Liveness(map[], {}, 0);
    var s1 := TimeoutStep(s0, 1, node, 3);
    assert s1 == Liveness(map[node := 3], {}, 0);
    var s2 := TimeoutStep(s1, 1, node, 3);
    assert s2 == Liveness(map[node := 3], {node}, 1);
    var s3 := TimeoutStep(s2, 1, node, 3);
    assert s3 == Liveness(map[node := 3], {node}, 2);
    assert [e, e, e][1..] == [e, e] && [e, e][1..] == [e] && [e][1..] == [];
    assert RunTimeouts(s0, 1, [e, e, e]) == RunTimeouts(s1, 1, [e, e]);
    assert RunTimeouts(s1, 1, [e, e]) == RunTimeouts(s2, 1, [e]);
    assert RunTimeouts(s2, 1, [e]) == RunTimeouts(s3, 1, []) == s3;
  }

  /** timeout with the one-shot guard: a close of an already closed channel is skipped. */
  function TimeoutOnceStep(st: Liveness, nodeCount: nat, node: NodeId, view: View): (r: Liveness)
    ensures r.allHungCloses <= 1 || r.allHungCloses == st.allHungCloses
  {
    var next := TimeoutStep(st, nodeCount, node, view);
    if st.allHungCloses == 0 then next else next.(allHungCloses := st.allHungCloses)
  }

  /** The guarded liveness state after a sequence of timeouts. */
  function RunTimeoutsOnce(st: Liveness, nodeCount: nat, events: seq<TimeoutEvent>): Liveness
    decreases |events|
  {
    if events == [] then st
    else RunTimeoutsOnce(TimeoutOnceStep(st, nodeCount, events[0].node, events[0].view), nodeCount, events[1..])
  }

  /** `guarded` tracks `source`: same views and hung set, and closed once exactly when the source closed at all. */
  predicate Simulates(guarded: Liveness, source: Liveness)
  {
    && guarded.lastTimeouts == source.lastTimeouts
    && guarded.hungNodes == source.hungNodes
    && guarded.allHungCloses == (if source.allHungCloses > 0 then 1 else 0)
  }

  /**
   * With the guard, any run of timeouts matches the source's run except that
   * the all-hung signal fires once, when the source first fires it, and never
   * again.
   */
  lemma {:induction false} GuardedRunMatchesSource(guarded: Liveness, source: Liveness, nodeCount: nat, events: seq<TimeoutEvent>)
    requires Simulates(guarded, source)
    ensures Simulates(RunTimeoutsOnce(guarded, nodeCount, events), RunTimeouts(source, nodeCount, events))
    ensures RunTimeoutsOnce(guarded, nodeCount, events).allHungCloses <= 1
    decreases |events|
  {
    if events != [] {
      var e := events[0];
      AllHungCloseCondition(source, nodeCount, e.node, e.view);
      GuardedRunMatchesSource(TimeoutOnceStep(guarded, nodeCount, e.node, e.view),
                              TimeoutStep(source, nodeCount, e.node, e.view), nodeCount, events[1..]);
    }
  }

  // ---------------------------------------------------------------------
  // Event queues
  // ---------------------------------------------------------------------

  /** The event queues `q` with `m` appended to the queue of each node in `targets`. */
  function Appended(q: map<NodeId, seq<Message>>, targets: set<NodeId>, m: Message): (r: map<NodeId, seq<Message>>)
    ensures r.Keys == q.Keys
  {
    map n | n in q :: if n in targets then q[n] + [m] else q[n]
  }

  lemma AppendedNothing(q: map<NodeId, seq<Message>>, m: Message)
    ensures Appended(q, {}, m) == q
  {
  }

  /** Delivering to two disjoint groups one after the other is delivering to both at once. */
  lemma AppendedUnion(q: map<NodeId, seq<Message>>, a: set<NodeId>, b: set<NodeId>, m: Message)
    requires a !! b
    ensures Appended(Appended(q, a, m), b, m) == Appended(q, a + b, m)
  {
  }

  /** Extending a list of distinct nodes by its next node, of which those in `receivers` get `m`. */
  lemma AppendedNextTwin(q: map<NodeId, seq<Message>>, twins: seq<NodeId>, i: nat, receivers: set<NodeId>, m: Message)
    requires i < |twins| && twins[i] in q && twins[i] !in twins[..i]
    ensures var e := Appended(q, Elements(twins[..i]) * receivers, m);
      Appended(q, Elements(twins[..i + 1]) * receivers, m)
        == if twins[i] in receivers then e[twins[i] := e[twins[i]] + [m]] else e
  {
  }

  /** The nodes of the replicas no longer pending. */
  function Done(nodes: set<NodeId>, pending: set<ID>): set<NodeId>
  {
    set n | n in nodes && n.replicaId !in pending
  }

  /** Taking one replica off the pending set adds its nodes, which were not yet done. */
  lemma DoneStep(nodes: set<NodeId>, pending: set<ID>, id: ID, twins: set<NodeId>)
    requires id in pending
    requires twins == set n | n in nodes && n.replicaId == id
    ensures Done(nodes, pending) !! twins
    ensures Done(nodes, pending) + twins == Done(nodes, pending - {id})
  {
  }

  // ---------------------------------------------------------------------
  // The network
  // ---------------------------------------------------------------------

  /** The event loops of the nodes: each node's queue of pending events. */
  class EventLoops {
    var queues: map<NodeId, seq<Message>>

    constructor ()
      ensures queues == map[]
    {
      queues := map[];
    }
  }

  class Network {
    /** The registered nodes (the keys of Nodes). */
    var nodes: set<NodeId>
    /** Each replica ID with the list of its nodes: the replica and its twins. */
    var replicas: map<ID, seq<NodeId>>
    /** For each view, starting at view 1, the partitions of that view. */
    const partitions: seq<seq<NodeSet>>

    var lastTimeouts: map<NodeId, View>
    var hungNodes: NodeSet
    /** How many times the all-hung channel has been closed. */
    var allHungCloses: nat

    /** State of each node's own modules: current view, block store and event loop. */
    var views: map<NodeId, View>
    var stores: map<NodeId, map<Hash, Block>>
    const eventLoops: EventLoops

    /** The registry is consistent, as the setup code builds it. */
    ghost predicate Valid()
      reads this
    {
      && views.Keys == nodes && stores.Keys == nodes
      && (forall id | id in replicas :: |replicas[id]| >= 1)
      && (forall id | id in replicas :: Elements(replicas[id]) == set n | n in nodes && n.replicaId == id)
      && (forall id, i, j | id in replicas && 0 <= i < j < |replicas[id]| :: replicas[id][i] != replicas[id][j])
      && (forall n | n in nodes :: n.replicaId in replicas)
    }

    /** Every registered node has an event queue. */
    ghost predicate QueuesReady()
      reads this, eventLoops
    {
      eventLoops.queues.Keys == nodes
    }

    function LivenessState(): Liveness
      reads this
    {
      Liveness(lastTimeouts, hungNodes, allHungCloses)
    }

    /** NewNetwork: an empty registry with the given partition schedule. */
    constructor (partitions: seq<seq<NodeSet>>)
      ensures Valid() && QueuesReady()
      ensures this.partitions == partitions
      ensures nodes == {} && replicas == map[]
      ensures LivenessState() == Liveness(map[], {}, 0)
      ensures views == map[] && stores == map[]
      ensures fresh(eventLoops) && eventLoops.queues == map[]
    {
      this.partitions := partitions;
      nodes, replicas := {}, map[];
      lastTimeouts, hungNodes, allHungCloses := map[], {}, 0;
      views, stores := map[], map[];
      eventLoops := new EventLoops();
    }

    /** timeout: updates the liveness state; the rest of the network is unchanged. */
    method Timeout(node: NodeId, view: View)
      modifies this`lastTimeouts, this`hungNodes, this`allHungCloses
      ensures LivenessState() == TimeoutStep(old(LivenessState()), |nodes|, node, view)
    {
      var lastTimeoutView := if node in lastTimeouts then lastTimeouts[node] else 0;
      if node in lastTimeouts && lastTimeoutView == view {
        hungNodes := Add(hungNodes, node);
        if |hungNodes| == |nodes| {
          allHungCloses := allHungCloses + 1;
        }
        return;
      }
      if lastTimeoutView > view {
        return;
      }
      lastTimeouts := lastTimeouts[node := view];
      hungNodes := hungNodes - {node};
    }

    /**
     * ShouldDrop: messages from a sender whose view lies beyond the schedule are
     * dropped; otherwise a message is delivered exactly when some partition of
     * the sender's view holds both nodes. The sender must be registered and in
     * a view of at least 1.
     */
    function ShouldDrop(sender: NodeId, receiver: NodeId): (drop: bool)
      reads this
      requires sender in nodes && sender in views && views[sender] >= 1
      ensures views[sender] - 1 >= |partitions| ==> drop
      ensures views[sender] - 1 < |partitions| ==>
        (!drop <==> exists p | p in partitions[views[sender] - 1] :: Contains(p, sender) && Contains(p, receiver))
    {
      var i := views[sender] - 1;
      if i >= |partitions| then true else !Reachable(partitions[i], sender, receiver)
    }

    /** The nodes a message from `sender` is delivered to. */
    ghost function Receivers(sender: NodeId): set<NodeId>
      reads this
      requires sender in nodes && sender in views && views[sender] >= 1
    {
      set n | n in nodes && !ShouldDrop(sender, n)
    }

    /** The nodes listed for a replica are exactly the registered nodes with its ID. */
    lemma ReplicaNodes(id: ID)
      requires Valid() && id in replicas
      ensures Elements(replicas[id]) == set n | n in nodes && n.replicaId == id
    {
    }

    /** The `i`-th node listed for replica `id` is registered, carries that ID, and is not listed earlier. */
    lemma ReplicaTwin(id: ID, i: nat)
      requires Valid() && id in replicas && i < |replicas[id]|
      ensures replicas[id][i] in nodes && replicas[id][i].replicaId == id
      ensures replicas[id][i] !in replicas[id][..i]
    {
      assert replicas[id][i] in Elements(replicas[id]);
    }

    /** In a consistent registry the replica IDs are exactly the IDs the nodes carry, twins counted once. */
    lemma RegisteredIds()
      ensures Valid() ==> replicas.Keys == set n | n in nodes :: n.replicaId
    {
      if Valid() {
        forall id | id in replicas
          ensures exists n | n in nodes :: n.replicaId == id
        {
          ReplicaTwin(id, 0);
        }
      }
    }
  }

  /** A handle on a replica as seen from one configuration. */
  datatype ReplicaRef = ReplicaRef(id: ID)

  /** The configuration one node uses to reach the others through the simulated network. */
  class Configuration {
    const node: NodeId
    const network: Network

    constructor (node: NodeId, network: Network)
      ensures this.node == node && this.network == network
    {
      this.node := node;
      this.network := network;
    }

    /** The network is consistent and this node is registered and past view 0. */
    ghost predicate CanSend()
      reads network
    {
      network.Valid() && node in network.nodes && network.views[node] >= 1
    }

    /**
     * sendMessage: appends `m` to the event queue of every twin of replica `id`
     * not dropped from this node; every other queue is unchanged. The replica
     * must be registered.
     */
    method SendMessage(id: ID, m: Message)
      requires CanSend() && network.QueuesReady()
      requires id in network.replicas
      modifies network.eventLoops
      ensures network.QueuesReady()
      ensures network.eventLoops.queues == Appended(old(network.eventLoops.queues), Elements(network.replicas[id]) * network.Receivers(node), m)
    {
      var twins := network.replicas[id];
      ghost var receivers := network.Receivers(node);
      ghost var q0 := network.eventLoops.queues;
      forall k | 0 <= k < |twins|
        ensures twins[k] in q0 && twins[k] !in twins[..k]
      {
        network.ReplicaTwin(id, k);
      }
      AppendedNothing(q0, m);
      var queues := network.eventLoops.queues;
      for i := 0 to |twins|
        invariant queues == Appended(q0, Elements(twins[..i]) * receivers, m)
      {
        var t := twins[i];
        AppendedNextTwin(q0, twins, i, receivers, m);
        if network.ShouldDrop(node, t) {
          continue;
        }
        queues := queues[t := queues[t] + [m]];
      }
      assert twins[..|twins|] == twins;
      network.eventLoops.queues := queues;
    }

    /** broadcastMessage: sendMessage to every registered replica, in any order. */
    method BroadcastMessage(m: Message)
      requires CanSend() && network.QueuesReady()
      modifies network.eventLoops
      ensures network.QueuesReady()
      ensures network.eventLoops.queues == Appended(old(network.eventLoops.queues), network.Receivers(node), m)
    {
      ghost var receivers := network.Receivers(node);
      ghost var nodes := network.nodes;
      var pending := network.replicas.Keys;
      AppendedNothing(network.eventLoops.queues, m);
      assert Done(nodes, pending) == {};
      while pending != {}
        invariant pending <= network.replicas.Keys
        invariant network.QueuesReady()
        invariant network.eventLoops.queues == Appended(old(network.eventLoops.queues), Done(nodes, pending) * receivers, m)
        decreases pending
      {
        var id :| id in pending;
        ghost var twins := Elements(network.replicas[id]);
        network.ReplicaNodes(id);
        DoneStep(nodes, pending, id, twins);
        AppendedUnion(old(network.eventLoops.queues), Done(nodes, pending) * receivers, twins * receivers, m);
        ghost var before := network.eventLoops.queues;
        SendMessage(id, m);
        assert network.Receivers(node) == receivers;
        assert network.eventLoops.queues == Appended(before, twins * receivers, m);
        assert Done(nodes, pending) * receivers + twins * receivers == Done(nodes, pending - {id}) * receivers;
        pending := pending - {id};
      }
      assert Done(nodes, pending) == nodes;
    }

    /** Propose: broadcasts a proposal. */
    method Propose(proposal: nat)
      requires CanSend() && network.QueuesReady()
      modifies network.eventLoops
      ensures network.QueuesReady()
      ensures network.eventLoops.queues == Appended(old(network.eventLoops.queues), network.Receivers(node), ProposeMsg(proposal))
    {
      BroadcastMessage(ProposeMsg(proposal));
    }

    /** Timeout: broadcasts a timeout message. */
    method Timeout(timeout: nat)
      requires CanSend() && network.QueuesReady()
      modifies network.eventLoops
      ensures network.QueuesReady()
      ensures network.eventLoops.queues == Appended(old(network.eventLoops.queues), network.Receivers(node), TimeoutMsg(timeout))
    {
      BroadcastMessage(TimeoutMsg(timeout));
    }

    /** replica.Vote: sends this node's vote to the replica's twins. */
    method Vote(r: ReplicaRef, cert: nat)
      requires CanSend() && network.QueuesReady()
      requires r.id in network.replicas
      modifies network.eventLoops
      ensures network.QueuesReady()
      ensures network.eventLoops.queues ==
        Appended(old(network.eventLoops.queues), Elements(network.replicas[r.id]) * network.Receivers(node), VoteMsg(node.replicaId, cert))
    {
      SendMessage(r.id, VoteMsg(node.replicaId, cert));
    }

    /** replica.NewView: sends this node's sync info to the replica's twins. */
    method NewView(r: ReplicaRef, syncInfo: nat)
      requires CanSend() && network.QueuesReady()
      requires r.id in network.replicas
      modifies network.eventLoops
      ensures network.QueuesReady()
      ensures network.eventLoops.queues ==
        Appended(old(network.eventLoops.queues), Elements(network.replicas[r.id]) * network.Receivers(node), NewViewMsg(node.replicaId, syncInfo))
    {
      SendMessage(r.id, NewViewMsg(node.replicaId, syncInfo));
    }

    /**
     * Fetch: looks the hash up in the block store of every node not dropped
     * from this one, in any order, and returns the first hit.
     */
    method Fetch(hash: Hash) returns (r: Option<Block>)
      requires CanSend()
      ensures r.Some? ==> exists n | n in network.nodes ::
        !network.ShouldDrop(node, n) && hash in network.stores[n] && network.stores[n][hash] == r.value
      ensures r.None? <==> forall n | n in network.nodes && !network.ShouldDrop(node, n) :: hash !in network.stores[n]
    {
      var pending := network.replicas.Keys;
      while pending != {}
        invariant pending <= network.replicas.Keys
        invariant forall n | n in network.nodes && n.replicaId !in pending && !network.ShouldDrop(node, n) ::
          hash !in network.stores[n]
        decreases pending
      {
        var id :| id in pending;
        var twins := network.replicas[id];
        forall k | 0 <= k < |twins|
          ensures twins[k] in network.nodes && twins[k].replicaId == id
        {
          network.ReplicaTwin(id, k);
        }
        for j := 0 to |twins|
          invariant forall k | 0 <= k < j && !network.ShouldDrop(node, twins[k]) :: hash !in network.stores[twins[k]]
        {
          var t := twins[j];
          if network.ShouldDrop(node, t) {
            continue;
          }
          if hash in network.stores[t] {
            return Some(network.stores[t][hash]);
          }
        }
        network.ReplicaNodes(id);
        forall n | n in network.nodes && n.replicaId == id && !network.ShouldDrop(node, n)
          ensures hash !in network.stores[n]
        {
          assert n in Elements(twins);
          var k :| 0 <= k < |twins| && twins[k] == n;
        }
        pending := pending - {id};
      }
      return None;
    }

    /** Replicas: a handle for every registered replica ID, and no other. */
    method Replicas() returns (m: map<ID, ReplicaRef>)
      ensures m.Keys == network.replicas.Keys
      ensures forall id | id in m :: m[id].id == id
    {
      m := map[];
      var pending := network.replicas.Keys;
      while pending != {}
        invariant pending <= network.replicas.Keys
        invariant m.Keys == network.replicas.Keys - pending
        invariant forall id | id in m :: m[id].id == id
        decreases pending
      {
        var id :| id in pending;
        m := m[id := ReplicaRef(id)];
        pending := pending - {id};
      }
    }

    /** Replica: a handle exactly when `id` is registered. */
    function Replica(id: ID): (r: Option<ReplicaRef>)
      reads network
      ensures r.Some? <==> id in network.replicas
      ensures r.Some? ==> r.value.id == id
    {
      if id in network.replicas then Some(ReplicaRef(id)) else None
    }

    /**
     * Len: the number of replicas. In a consistent registry that is the number
     * of distinct replica IDs among the nodes, so twins count once.
     */
    function Len(): (n: nat)
      reads network
      ensures network.Valid() ==> n == |set nd | nd in network.nodes :: nd.replicaId|
    {
      network.RegisteredIds();
      |network.replicas|
    }

    /** replica.ID: the replica ID of its first node, which is the replica's own ID. */
    function ReplicaId(r: ReplicaRef): (id: ID)
      reads network
      requires network.Valid() && r.id in network.replicas
      ensures id == r.id
    {
      network.ReplicaTwin(r.id, 0);
      network.replicas[r.id][0].replicaId
    }
  }

  /**
   * The two-replica example: replica 1 has twins (1,10) and (1,11), replica 2
   * has node (2,20); in view 1 the partitions are {(1,10),(2,20)} and {(1,11)}.
   * (1,10) reaches (2,20), (1,11) does not, and in view 2, past the schedule,
   * nothing is delivered.
   */
  lemma PartitionExample(net: Network)
    requires net.nodes == {NodeId(1, 10), NodeId(1, 11), NodeId(2, 20)}
    requires net.views == map[NodeId(1, 10) := 1, NodeId(1, 11) := 1, NodeId(2, 20) := 2]
    requires net.partitions == [[{NodeId(1, 10), NodeId(2, 20)}, {NodeId(1, 11)}]]
    ensures !net.ShouldDrop(NodeId(1, 10), NodeId(2, 20))
    ensures net.ShouldDrop(NodeId(1, 11), NodeId(2, 20))
    ensures net.ShouldDrop(NodeId(2, 20), NodeId(1, 10))
  {
  }
}
