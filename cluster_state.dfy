/**
 * The running cluster simulator: the node registry in insertion order, the two
 * bounded in-memory logs, the pod id counter and the time of the last auto-scale,
 * with one method per control-plane step.  Each `with nodes_lock:` block of the
 * server is one atomic method here; the wall clock, `uuid4` and the random draws
 * are parameters.  The durable sink the server also writes every log entry and
 * utilization sample to is the pair of ghost histories `events` and `samples`.
 */
module Cluster {
  import opened Wrappers
  import opened ClusterModel

  /** Why an endpoint refused a request (its HTTP status in brackets). */
  datatype ApiError =
    | MissingField      // [400] the request lacks a required field
    | NotFound          // [404] no node is registered under the given id
    | NoAvailableNode   // [400] no node can host the pod

  /** A successful pod launch: the pod's id, its node and the policy used. */
  datatype Launch = Launch(podId: PodId, nodeId: NodeId, algorithm: string)

  /**
   * The pod the launch endpoint builds: memory defaults to 4 and the network group to
   * "default"; an affinity is kept only when a non-empty node type was named.
   */
  function RequestedPod(id: PodId, cpu: int, memory: Option<int>, networkGroup: Option<string>,
                        nodeAffinity: Option<string>): Pod
  {
    Pod(id, cpu, memory.GetOr(DefaultPodMemory), networkGroup.GetOr("default"),
        if nodeAffinity.Some? && nodeAffinity.value != "" then nodeAffinity else None)
  }

  /**
   * The launch endpoint's answer, new registry and new event log once it has built `pod`
   * and settled on policy `algo`: refused with nothing changed or logged when no node is
   * selected, otherwise the selected node hosts the pod, the scheduling is logged and
   * the pod's id is reported.
   */
  ghost predicate Launched(before: seq<Node>, after: seq<Node>, log0: seq<Event>, log: seq<Event>,
                           pod: Pod, algo: string, r: Result<Launch, ApiError>) {
    var sel := Select(before, pod, algo);
    && (sel.None? ==> r == Err(NoAvailableNode) && after == before && log == log0)
    && (sel.Some? ==>
          && sel.value < |before|
          && r == Ok(Launch(pod.podId, before[sel.value].nodeId, algo))
          && after == before[sel.value := Place(before[sel.value], pod)]
          && log == log0 + [PodScheduled(pod.podId, before[sel.value].nodeId, algo)])
  }

  /** The positions of the nodes passing `f`, scanned in registry order (a list comprehension). */
  method Where(ns: seq<Node>, f: Filter) returns (r: seq<nat>)
    ensures r == IndicesWhere(ns, f)
  {
    r := [];
    var i := 0;
    while i < |ns|
      invariant 0 <= i <= |ns|
      invariant r == IndicesWhere(ns[..i], f)
    {
      assert ns[..i + 1][..i] == ns[..i];
      if Matches(f, ns[i]) {
        r := r + [i];
      }
      i := i + 1;
    }
    assert ns[..|ns|] == ns;
  }

  /** best_fit's `min(eligible, key=...)`: the first candidate of least slack. */
  method LeastSlack(ns: seq<Node>, idx: seq<nat>, p: Pod) returns (best: nat)
    requires |idx| > 0 && ValidIndices(ns, idx)
    ensures best == MinSlack(ns, idx, p)
  {
    best := idx[0];
    var k := 1;
    while k < |idx|
      invariant 1 <= k <= |idx|
      invariant best == MinSlack(ns, idx[..k], p)
    {
      MinSlackStep(ns, idx, k, p);
      if BestFitKey(ns[idx[k]], p) < BestFitKey(ns[best], p) {
        best := idx[k];
      }
      k := k + 1;
    }
    assert idx[..|idx|] == idx;
  }

  /** worst_fit's `max(eligible, key=...)`: the first candidate of most room. */
  method MostRoom(ns: seq<Node>, idx: seq<nat>) returns (best: nat)
    requires |idx| > 0 && ValidIndices(ns, idx)
    ensures best == MaxRoom(ns, idx)
  {
    best := idx[0];
    var k := 1;
    while k < |idx|
      invariant 1 <= k <= |idx|
      invariant best == MaxRoom(ns, idx[..k])
    {
      MaxRoomStep(ns, idx, k);
      if WorstFitKey(ns[idx[k]]) > WorstFitKey(ns[best]) {
        best := idx[k];
      }
      k := k + 1;
    }
    assert idx[..|idx|] == idx;
  }

  /** The choice `schedule_pod` makes: the eligible nodes, then the first, the least slack or the most room. */
  method Choose(ns: seq<Node>, pod: Pod, algorithm: string) returns (choice: Option<nat>)
    ensures choice == Select(ns, pod, algorithm)
  {
    var e := Where(ns, IsEligibleFor(pod));
    choice := None;
    if e != [] {
      if algorithm == "first_fit" {
        choice := Some(e[0]);
      } else if algorithm == "best_fit" {
        var b := LeastSlack(ns, e, pod);
        choice := Some(b);
      } else if algorithm == "worst_fit" {
        var w := MostRoom(ns, e);
        choice := Some(w);
      }
    }
  }

  class ClusterState {
    /** The registry: `nodes.values()` in insertion order. */
    var nodes: seq<Node>
    /** The last (at most) 50 log entries. */
    var eventLog: seq<Event>
    /** The last (at most) 50 utilization samples. */
    var utilizationHistory: seq<Sample>
    var podIdCounter: nat
    var lastAutoScaleTime: real
    /** Every log entry ever written, oldest first (what the event table receives). */
    ghost var events: seq<Event>
    /** Every utilization sample ever taken, oldest first. */
    ghost var samples: seq<Sample>

    /** At most one node per id, and each in-memory log is the tail of its full history. */
    ghost predicate Valid()
      reads this`nodes, this`eventLog, this`events, this`utilizationHistory, this`samples
    {
      && DistinctIds(nodes)
      && eventLog == Recent(events)
      && utilizationHistory == Recent(samples)
    }

    /** The state at start-up: no nodes, empty logs, the counter at 0, never scaled. */
    constructor ()
      ensures Valid()
      ensures nodes == [] && eventLog == [] && utilizationHistory == []
      ensures events == [] && samples == []
      ensures podIdCounter == 0 && lastAutoScaleTime == 0.0
    {
      nodes := [];
      eventLog := [];
      utilizationHistory := [];
      podIdCounter := 0;
      lastAutoScaleTime := 0.0;
      events := [];
      samples := [];
    }

    /** Append an entry, dropping the oldest once there are more than 50. */
    method LogEvent(e: Event)
      requires Valid()
      modifies this`eventLog, this`events
      ensures Valid()
      ensures events == old(events) + [e]
      ensures |eventLog| <= LogCapacity && eventLog[|eventLog| - 1] == e
    {
      RecentAppend(events, e);
      eventLog := eventLog + [e];
      if |eventLog| > LogCapacity {
        eventLog := eventLog[1..];
      }
      events := events + [e];
    }

    /** Σ(cpu_total − cpu_available) / Σcpu_total over the active nodes, 0 when that total is 0. */
    method ClusterUtilization() returns (u: real)
      ensures u == Utilization(nodes)
      ensures ActiveWithinBounds(nodes) ==> 0.0 <= u <= 1.0
    {
      var total, used := 0, 0;
      var i := 0;
      while i < |nodes|
        invariant 0 <= i <= |nodes|
        invariant total == ActiveCpuTotal(nodes[..i]) && used == ActiveCpuUsed(nodes[..i])
      {
        assert nodes[..i + 1][..i] == nodes[..i];
        if nodes[i].status == Active {
          total := total + nodes[i].cpuTotal;
          used := used + (nodes[i].cpuTotal - nodes[i].cpuAvailable);
        }
        i := i + 1;
      }
      assert nodes[..|nodes|] == nodes;
      u := if total == 0 then 0.0 else used as real / total as real;
      if ActiveWithinBounds(nodes) {
        UtilizationIsFraction(nodes);
      }
    }

    /** One tick of the utilization recorder: sample the utilization as a percentage at `now`. */
    method RecordUtilization(now: real) returns (percent: real)
      requires Valid()
      modifies this`utilizationHistory, this`samples
      ensures Valid()
      ensures percent == Utilization(nodes) * 100.0
      ensures samples == old(samples) + [Sample(now, percent)]
      ensures |utilizationHistory| <= LogCapacity
      ensures CapacityOk(nodes) ==> 0.0 <= percent <= 100.0
    {
      if CapacityOk(nodes) {
        CapacityOkBounds(nodes);
      }
      var u := ClusterUtilization();
      percent := u * 100.0;
      var s := Sample(now, percent);
      RecentAppend(samples, s);
      utilizationHistory := utilizationHistory + [s];
      if |utilizationHistory| > LogCapacity {
        utilizationHistory := utilizationHistory[1..];
      }
      samples := samples + [s];
    }

    /**
     * `schedule_pod`: filter the eligible nodes, pick one by the named policy, and
     * charge the pod to it.  With no eligible node or an unknown policy nothing changes.
     */
    method SchedulePod(pod: Pod, algorithm: string) returns (target: Option<NodeId>)
      requires Valid()
      modifies this`nodes, this`eventLog, this`events
      ensures Valid()
      ensures var sel := Select(old(nodes), pod, algorithm);
        if sel.None? then
          target == None && nodes == old(nodes) && events == old(events)
        else
          var i := sel.value;
          && i < |old(nodes)|
          && target == Some(old(nodes)[i].nodeId)
          && nodes == old(nodes)[i := Place(old(nodes)[i], pod)]
          && events == old(events) + [PodScheduled(pod.podId, old(nodes)[i].nodeId, algorithm)]
    {
      var choice := Choose(nodes, pod, algorithm);
      if choice.Some? {
        var i := choice.value;
        SelectIsEligible(nodes, pod, algorithm);
        var n := nodes[i];
        SameIdKeepsDistinct(nodes, i, Place(n, pod));
        nodes := nodes[i := Place(n, pod)];
        LogEvent(PodScheduled(pod.podId, n.nodeId, algorithm));
        target := Some(n.nodeId);
      } else {
        target := None;
      }
    }

    /**
     * The add_node endpoint: without a cpu figure the request is refused; otherwise a
     * fresh node is registered under `newId` (the uuid4 drawn by the server).
     */
    method AddNode(cpu: Option<int>, memory: Option<int>, nodeType: Option<string>, networkGroup: Option<string>,
                   newId: NodeId, now: real) returns (r: Result<NodeId, ApiError>)
      requires Valid()
      modifies this`nodes, this`eventLog, this`events
      ensures Valid()
      ensures cpu.None? ==> r == Err(MissingField) && nodes == old(nodes) && events == old(events)
      ensures cpu.Some? ==>
        var n := NewNode(newId, cpu.value, memory.GetOr(DefaultNodeMemory), nodeType.GetOr("balanced"), networkGroup.GetOr("default"), now);
        && r == Ok(newId)
        && nodes == Put(old(nodes), n)
        && events == old(events) + [NodeAdded(newId, n.cpuTotal, n.memoryTotal, n.nodeType, n.networkGroup)]
      ensures cpu.Some? ==> var j := IndexOfId(nodes, newId);
        && j.Some?
        && nodes[j.value].cpuAvailable == nodes[j.value].cpuTotal == cpu.value
        && nodes[j.value].memoryAvailable == nodes[j.value].memoryTotal
        && nodes[j.value].pods == [] && nodes[j.value].status == Active && nodes[j.value].simulateHeartbeat
    {
      if cpu.None? {
        return Err(MissingField);
      }
      var n := NewNode(newId, cpu.value, memory.GetOr(DefaultNodeMemory), nodeType.GetOr("balanced"), networkGroup.GetOr("default"), now);
      PutKeepsDistinct(nodes, n);
      nodes := Put(nodes, n);
      IndexOfIdUnique(nodes, IndexOfId(nodes, newId).value);
      LogEvent(NodeAdded(newId, n.cpuTotal, n.memoryTotal, n.nodeType, n.networkGroup));
      r := Ok(newId);
    }

    /** The remove_node endpoint: the node and every pod on it leave the cluster; an unknown id is refused. */
    method RemoveNode(id: NodeId) returns (r: Result<NodeId, ApiError>)
      requires Valid()
      modifies this`nodes, this`eventLog, this`events
      ensures Valid()
      ensures IndexOfId(old(nodes), id).None? ==> r == Err(NotFound) && nodes == old(nodes) && events == old(events)
      ensures IndexOfId(old(nodes), id).Some? ==>
        var i := IndexOfId(old(nodes), id).value;
        && r == Ok(id)
        && nodes == RemoveAt(old(nodes), i)
        && IndexOfId(nodes, id).None?
        && multiset(AllPods(nodes)) + multiset(old(nodes)[i].pods) == multiset(AllPods(old(nodes)))
        && events == old(events) + [NodeRemoved(id)]
      ensures CapacityOk(old(nodes)) ==> CapacityOk(nodes)
    {
      var f := IndexOfId(nodes, id);
      if f.None? {
        return Err(NotFound);
      }
      var i := f.value;
      RemoveAtKeepsDistinct(nodes, i);
      AllPodsRemove(nodes, i);
      if CapacityOk(nodes) {
        RemoveAtKeepsCapacity(nodes, i);
      }
      nodes := RemoveAt(nodes, i);
      LogEvent(NodeRemoved(id));
      r := Ok(id);
    }

    /** The toggle_simulation endpoint: switch the heartbeat simulation of one node; an unknown id is refused. */
    method ToggleSimulation(id: NodeId, simulate: bool) returns (r: Result<NodeId, ApiError>)
      requires Valid()
      modifies this`nodes, this`eventLog, this`events
      ensures Valid()
      ensures IndexOfId(old(nodes), id).None? ==> r == Err(NotFound) && nodes == old(nodes) && events == old(events)
      ensures IndexOfId(old(nodes), id).Some? ==>
        var i := IndexOfId(old(nodes), id).value;
        && r == Ok(id)
        && nodes == old(nodes)[i := old(nodes)[i].(simulateHeartbeat := simulate)]
        && events == old(events) + [SimulationSet(id, simulate)]
      ensures CapacityOk(old(nodes)) ==> CapacityOk(nodes)
    {
      var f := IndexOfId(nodes, id);
      if f.None? {
        return Err(NotFound);
      }
      var i := f.value;
      var n := nodes[i].(simulateHeartbeat := simulate);
      SameIdKeepsDistinct(nodes, i, n);
      if CapacityOk(nodes) {
        UpdateKeepsCapacity(nodes, i, n);
      }
      nodes := nodes[i := n];
      LogEvent(SimulationSet(id, simulate));
      r := Ok(id);
    }

    /**
     * The heartbeat endpoint: record that the node is alive at `now`, reactivating it
     * (and logging so) when it had been marked failed; an unknown id is refused.
     */
    method Heartbeat(id: NodeId, now: real) returns (r: Result<NodeId, ApiError>)
      requires Valid()
      modifies this`nodes, this`eventLog, this`events
      ensures Valid()
      ensures IndexOfId(old(nodes), id).None? ==> r == Err(NotFound) && nodes == old(nodes) && events == old(events)
      ensures IndexOfId(old(nodes), id).Some? ==>
        var i := IndexOfId(old(nodes), id).value;
        && r == Ok(id)
        && nodes == old(nodes)[i := old(nodes)[i].(lastHeartbeat := now, status := Active)]
        && events == old(events) + (if old(nodes)[i].status == Failed then [NodeReactivated(id)] else [])
      ensures CapacityOk(old(nodes)) ==> CapacityOk(nodes)
    {
      var f := IndexOfId(nodes, id);
      if f.None? {
        return Err(NotFound);
      }
      var i := f.value;
      var wasFailed := nodes[i].status == Failed;
      var n := nodes[i].(lastHeartbeat := now, status := Active);
      SameIdKeepsDistinct(nodes, i, n);
      if CapacityOk(nodes) {
        UpdateKeepsCapacity(nodes, i, n);
      }
      nodes := nodes[i := n];
      if wasFailed {
        LogEvent(NodeReactivated(id));
      }
      r := Ok(id);
    }

    /**
     * The launch_pod endpoint: without a cpu figure the request is refused; otherwise
     * the pod takes the next counter value as its id, gets the defaults for what the
     * request leaves out, an affinity only when a non-empty one was named, and is
     * scheduled under the normalised policy name.
     */
    method LaunchPod(cpuRequired: Option<int>, memoryRequired: Option<int>, algorithm: Option<string>,
                     networkGroup: Option<string>, nodeAffinity: Option<string>) returns (r: Result<Launch, ApiError>)
      requires Valid()
      modifies this`nodes, this`eventLog, this`events, this`podIdCounter
      ensures Valid()
      ensures cpuRequired.None? ==>
        r == Err(MissingField) && nodes == old(nodes) && events == old(events) && podIdCounter == old(podIdCounter)
      ensures cpuRequired.Some? ==> podIdCounter == old(podIdCounter) + 1
      ensures cpuRequired.Some? ==>
        Launched(old(nodes), nodes, old(events), events, RequestedPod(podIdCounter, cpuRequired.value, memoryRequired, networkGroup, nodeAffinity),
                 NormalizeAlgorithm(algorithm), r)
    {
      if cpuRequired.None? {
        return Err(MissingField);
      }
      var algo := NormalizeAlgorithm(algorithm);
      podIdCounter := podIdCounter + 1;
      var pod := RequestedPod(podIdCounter, cpuRequired.value, memoryRequired, networkGroup, nodeAffinity);
      var target := SchedulePod(pod, algo);
      if target.Some? {
        r := Ok(Launch(pod.podId, target.value, algo));
      } else {
        r := Err(NoAvailableNode);
      }
    }

    /**
     * One auto-scaler tick at `now`: when utilization is at least 80% and the cooldown
     * has passed, register one default-sized node under `newId` with a node type and
     * network group drawn by `typePick` and `groupPick`, and restart the cooldown.
     */
    method AutoScaleTick(now: real, newId: NodeId, typePick: nat, groupPick: nat) returns (scaled: bool)
      requires Valid()
      modifies this`nodes, this`eventLog, this`events, this`lastAutoScaleTime
      ensures Valid()
      ensures scaled == ShouldScale(Utilization(old(nodes)), now, old(lastAutoScaleTime))
      ensures !scaled ==> nodes == old(nodes) && events == old(events) && lastAutoScaleTime == old(lastAutoScaleTime)
      ensures scaled ==>
        var t := AutoScaleNodeTypes[typePick % |AutoScaleNodeTypes|];
        var g := AutoScaleNetworkGroups[groupPick % |AutoScaleNetworkGroups|];
        && nodes == Put(old(nodes), NewNode(newId, DefaultNodeCpu, DefaultNodeMemory, t, g, now))
        && events == old(events) + [AutoScaled(newId, t, g)]
        && lastAutoScaleTime == now
      ensures |old(nodes)| <= |nodes| <= |old(nodes)| + 1
      ensures CapacityOk(old(nodes)) ==> CapacityOk(nodes)
    {
      var u := ClusterUtilization();
      if u >= AutoScaleThreshold && now - lastAutoScaleTime >= AutoScaleCooldown {
        var t := AutoScaleNodeTypes[typePick % |AutoScaleNodeTypes|];
        var g := AutoScaleNetworkGroups[groupPick % |AutoScaleNetworkGroups|];
        var n := NewNode(newId, DefaultNodeCpu, DefaultNodeMemory, t, g, now);
        PutKeepsDistinct(nodes, n);
        if CapacityOk(nodes) {
          PutKeepsCapacity(nodes, n);
        }
        nodes := Put(nodes, n);
        LogEvent(AutoScaled(newId, t, g));
        lastAutoScaleTime := now;
        scaled := true;
      } else {
        scaled := false;
      }
    }

    /** One tick of the heartbeat simulator: every node with simulation on reports alive at `now`. */
    method SimulateHeartbeatTick(now: real)
      requires Valid()
      modifies this`nodes
      ensures Valid()
      ensures |nodes| == |old(nodes)|
      ensures forall i :: 0 <= i < |nodes| ==>
        nodes[i] == if old(nodes)[i].simulateHeartbeat then old(nodes)[i].(lastHeartbeat := now) else old(nodes)[i]
    {
      var i := 0;
      while i < |nodes|
        invariant 0 <= i <= |nodes| == |old(nodes)|
        invariant Valid()
        invariant forall j :: 0 <= j < i ==>
          nodes[j] == if old(nodes)[j].simulateHeartbeat then old(nodes)[j].(lastHeartbeat := now) else old(nodes)[j]
        invariant forall j :: i <= j < |nodes| ==> nodes[j] == old(nodes)[j]
      {
        if nodes[i].simulateHeartbeat {
          SameIdKeepsDistinct(nodes, i, nodes[i].(lastHeartbeat := now));
          nodes := nodes[i := nodes[i].(lastHeartbeat := now)];
        }
        i := i + 1;
      }
    }

    /**
     * The chaos monkey with its random draws as parameters: `coin` is `random.random()`,
     * `nodePick` and `podPick` index the `random.choice` calls.  Below 0.5 it fails one
     * active node (leaving its pods where they are); otherwise it kills one pod and gives
     * its resources back to the node.  What it reports is also the logged entry.  The
     * effect of a pod kill on the cluster's pods and capacity is `KillPodRemovesPod`
     * and `KillPodKeepsCapacity`.
     */
    method ChaosMonkey(coin: real, nodePick: nat, podPick: nat) returns (outcome: Event)
      requires Valid()
      modifies this`nodes, this`eventLog, this`events
      ensures Valid()
      ensures events == old(events) + [outcome]
      ensures old(nodes) == [] ==> outcome == ChaosNoNodes
      ensures old(nodes) != [] && coin < 0.5 ==> outcome.ChaosKilledNode? || outcome == ChaosNoActiveNodes
      ensures old(nodes) != [] && coin >= 0.5 ==> outcome.ChaosKilledPod? || outcome == ChaosNoPods
      ensures outcome == ChaosNoNodes || outcome == ChaosNoActiveNodes || outcome == ChaosNoPods ==> nodes == old(nodes)
      ensures outcome == ChaosNoActiveNodes ==> forall i :: 0 <= i < |nodes| ==> nodes[i].status != Active
      ensures outcome == ChaosNoPods ==> forall i :: 0 <= i < |nodes| ==> nodes[i].pods == []
      ensures outcome.ChaosKilledNode? ==> exists i ::
        && 0 <= i < |old(nodes)|
        && old(nodes)[i].status == Active
        && outcome.nodeId == old(nodes)[i].nodeId
        && nodes == old(nodes)[i := KillNode(old(nodes)[i])]
      ensures outcome.ChaosKilledPod? ==> exists i, k ::
        && 0 <= i < |old(nodes)| && 0 <= k < |old(nodes)[i].pods|
        && outcome == ChaosKilledPod(old(nodes)[i].pods[k].podId, old(nodes)[i].nodeId)
        && nodes == old(nodes)[i := KillPod(old(nodes)[i], k)]
    {
      if nodes == [] {
        outcome := ChaosNoNodes;
      } else if coin < 0.5 {
        outcome := KillActiveNode(nodePick);
      } else {
        outcome := KillHostedPod(nodePick, podPick);
      }
      LogEvent(outcome);
    }

    /** The node branch of the chaos monkey: fail the `nodePick`-th active node, if any. */
    method KillActiveNode(nodePick: nat) returns (outcome: Event)
      requires Valid()
      modifies this`nodes
      ensures Valid()
      ensures outcome.ChaosKilledNode? || outcome == ChaosNoActiveNodes
      ensures outcome == ChaosNoActiveNodes ==> nodes == old(nodes) && forall i :: 0 <= i < |nodes| ==> nodes[i].status != Active
      ensures outcome.ChaosKilledNode? ==> exists i ::
        && 0 <= i < |old(nodes)|
        && old(nodes)[i].status == Active
        && outcome.nodeId == old(nodes)[i].nodeId
        && nodes == old(nodes)[i := KillNode(old(nodes)[i])]
    {
      var active := Where(nodes, IsActive);
      IndicesWhereExact(nodes, IsActive);
      if active != [] {
        var i := active[nodePick % |active|];
        var n := nodes[i];
        SameIdKeepsDistinct(nodes, i, KillNode(n));
        ghost var before := nodes;
        nodes := nodes[i := KillNode(n)];
        outcome := ChaosKilledNode(n.nodeId);
        assert before[i].status == Active && nodes == before[i := KillNode(before[i])];
      } else {
        outcome := ChaosNoActiveNodes;
      }
    }

    /** The pod branch of the chaos monkey: kill one pod of the `nodePick`-th node hosting any, if any. */
    method KillHostedPod(nodePick: nat, podPick: nat) returns (outcome: Event)
      requires Valid()
      modifies this`nodes
      ensures Valid()
      ensures outcome.ChaosKilledPod? || outcome == ChaosNoPods
      ensures outcome == ChaosNoPods ==> nodes == old(nodes) && forall i :: 0 <= i < |nodes| ==> nodes[i].pods == []
      ensures outcome.ChaosKilledPod? ==> exists i, k ::
        && 0 <= i < |old(nodes)| && 0 <= k < |old(nodes)[i].pods|
        && outcome == ChaosKilledPod(old(nodes)[i].pods[k].podId, old(nodes)[i].nodeId)
        && nodes == old(nodes)[i := KillPod(old(nodes)[i], k)]
    {
      var withPods := Where(nodes, HasPods);
      IndicesWhereExact(nodes, HasPods);
      if withPods != [] {
        var i := withPods[nodePick % |withPods|];
        assert i < |nodes| && Matches(HasPods, nodes[i]);
        var n := nodes[i];
        var k := podPick % |n.pods|;
        SameIdKeepsDistinct(nodes, i, KillPod(n, k));
        ghost var before := nodes;
        nodes := nodes[i := KillPod(n, k)];
        outcome := ChaosKilledPod(n.pods[k].podId, n.nodeId);
        assert k < |before[i].pods| && nodes == before[i := KillPod(before[i], k)];
      } else {
        outcome := ChaosNoPods;
      }
    }

    /**
     * The marking pass of one health-monitor tick: every active node whose last
     * heartbeat is more than 15 seconds before `now` is marked failed and logged.
     */
    method MarkStaleNodes(now: real) returns (failed: seq<NodeId>)
      requires Valid()
      modifies this`nodes, this`eventLog, this`events
      ensures Valid()
      ensures |nodes| == |old(nodes)|
      ensures forall i :: 0 <= i < |nodes| ==> nodes[i] == MarkStale(old(nodes)[i], now)
      ensures failed == StaleIds(old(nodes), now)
      ensures events == old(events) + FailureEvents(failed)
    {
      failed := [];
      var i := 0;
      while i < |nodes|
        invariant 0 <= i <= |nodes| == |old(nodes)|
        invariant Valid()
        invariant forall j :: 0 <= j < i ==> nodes[j] == MarkStale(old(nodes)[j], now)
        invariant forall j :: i <= j < |nodes| ==> nodes[j] == old(nodes)[j]
        invariant failed == StaleIds(old(nodes)[..i], now)
        invariant events == old(events) + FailureEvents(failed)
      {
        assert old(nodes)[..i + 1][..i] == old(nodes)[..i];
        var n := nodes[i];
        if n.status == Active && now - n.lastHeartbeat > HeartbeatThreshold {
          SameIdKeepsDistinct(nodes, i, n.(status := Failed));
          nodes := nodes[i := n.(status := Failed)];
          LogEvent(NodeMarkedFailed(n.nodeId));
          FailureEventsAppend(failed, n.nodeId);
          failed := failed + [n.nodeId];
        }
        i := i + 1;
      }
      assert old(nodes)[..|old(nodes)|] == old(nodes);
    }

    /**
     * The locked half of `reschedule_pods_from_failed_node`: take the node's pods off
     * it without giving their cpu and memory back.  An unknown id orphans nothing.
     */
    method OrphanPods(nodeId: NodeId) returns (orphans: seq<Pod>)
      requires Valid()
      modifies this`nodes
      ensures Valid()
      ensures IndexOfId(old(nodes), nodeId).None? ==> orphans == [] && nodes == old(nodes)
      ensures IndexOfId(old(nodes), nodeId).Some? ==>
        var i := IndexOfId(old(nodes), nodeId).value;
        orphans == old(nodes)[i].pods && nodes == old(nodes)[i := old(nodes)[i].(pods := [])]
      ensures multiset(AllPods(nodes)) + multiset(orphans) == multiset(AllPods(old(nodes)))
      ensures CapacityOk(old(nodes)) ==> CapacityOk(nodes) && PodsOk(orphans)
    {
      var f := IndexOfId(nodes, nodeId);
      if f.None? {
        return [];
      }
      var i := f.value;
      var n := nodes[i];
      orphans := n.pods;
      OrphanRemovesPods(nodes, i);
      SameIdKeepsDistinct(nodes, i, n.(pods := []));
      if CapacityOk(nodes) {
        OrphanKeepsCapacity(n);
        UpdateKeepsCapacity(nodes, i, n.(pods := []));
      }
      nodes := nodes[i := n.(pods := [])];
    }

    /** One orphan: schedule it first-fit and log where it went, or that it was not placed. */
    method ReplaceOne(from: NodeId, pod: Pod) returns (placed: bool)
      requires Valid()
      modifies this`nodes, this`eventLog, this`events
      ensures Valid()
      ensures placed == Select(old(nodes), pod, "first_fit").Some?
      ensures OnlyActiveChanged(old(nodes), nodes)
      ensures multiset(AllPods(nodes)) == multiset(AllPods(old(nodes))) + (if placed then multiset{pod} else multiset{})
      ensures CapacityOk(old(nodes)) && PodOk(pod) ==> CapacityOk(nodes)
      ensures old(events) <= events
      ensures !placed ==> nodes == old(nodes) && events == old(events) + [PodNotPlaced(pod.podId, from)]
      ensures placed ==>
        var i := Select(old(nodes), pod, "first_fit").value;
        && i < |old(nodes)|
        && nodes == old(nodes)[i := Place(old(nodes)[i], pod)]
        && events == old(events) + [PodScheduled(pod.podId, old(nodes)[i].nodeId, "first_fit"),
                                    PodRescheduled(pod.podId, from, old(nodes)[i].nodeId)]
    {
      ghost var before := nodes;
      var to := SchedulePod(pod, "first_fit");
      if to.Some? {
        SchedulePlacesPod(before, pod, "first_fit");
        LogEvent(PodRescheduled(pod.podId, from, to.value));
      } else {
        LogEvent(PodNotPlaced(pod.podId, from));
      }
      placed := to.Some?;
    }

    /** Orphan `orphans[k]` offered back, after `orphans[..k]` have been, from registry `ns` and log `log0`. */
    method ReplaceNext(ghost ns: seq<Node>, ghost log0: seq<Event>, from: NodeId, orphans: seq<Pod>, k: nat, aside: seq<Pod>)
      returns (unplaced: seq<Pod>)
      requires Valid() && k < |orphans|
      requires var r := ReplaceAll(ns, from, orphans[..k]);
        nodes == r.nodes && aside == r.unplaced && events == log0 + r.log
      modifies this`nodes, this`eventLog, this`events
      ensures Valid()
      ensures var r := ReplaceAll(ns, from, orphans[..k + 1]);
        nodes == r.nodes && unplaced == r.unplaced && events == log0 + r.log
    {
      ghost var before, logBefore := nodes, events;
      var placed := ReplaceOne(from, orphans[k]);
      ReplaceAllAdvances(ns, log0, from, orphans, k, before, logBefore, aside, nodes, events, placed);
      unplaced := if placed then aside else aside + [orphans[k]];
    }

    /**
     * The second half of `reschedule_pods_from_failed_node`: place each orphan first-fit,
     * logging where it went or that it could not be placed.  Only active nodes take
     * pods; the orphans not placed are returned.
     */
    method ReplacePods(from: NodeId, orphans: seq<Pod>) returns (unplaced: seq<Pod>)
      requires Valid()
      modifies this`nodes, this`eventLog, this`events
      ensures Valid()
      ensures var r := ReplaceAll(old(nodes), from, orphans);
        nodes == r.nodes && unplaced == r.unplaced && events == old(events) + r.log
      ensures Replaced(old(nodes), nodes, old(events), events, from, orphans, unplaced)
    {
      unplaced := [];
      var k := 0;
      assert orphans[..0] == [];
      while k < |orphans|
        invariant 0 <= k <= |orphans|
        invariant Valid()
        invariant var r := ReplaceAll(old(nodes), from, orphans[..k]);
          nodes == r.nodes && unplaced == r.unplaced && events == old(events) + r.log
      {
        unplaced := ReplaceNext(old(nodes), old(events), from, orphans, k, unplaced);
        k := k + 1;
      }
      assert orphans[..|orphans|] == orphans;
      ReplaceAllReplaced(old(nodes), old(events), from, orphans);
    }

    /**
     * `reschedule_pods_from_failed_node`: orphan the node's pods, then (after the
     * server has released its lock) place them again.  A node that is not active is
     * left registered with no pods and its available resources unchanged.
     */
    method RescheduleFromFailedNode(nodeId: NodeId) returns (unplaced: seq<Pod>)
      requires Valid()
      modifies this`nodes, this`eventLog, this`events
      ensures Valid()
      ensures var s := RescheduleNode(old(nodes), nodeId);
        nodes == s.nodes && unplaced == s.unplaced && events == old(events) + s.log
      ensures Replaced(Orphan(old(nodes), nodeId), nodes, old(events), events, nodeId, OrphansOf(old(nodes), nodeId), unplaced)
      ensures Rescheduled(old(nodes), nodes, [nodeId], unplaced)
    {
      OrphanEffects(nodes, nodeId);
      ghost var base := nodes;
      var orphans := OrphanPods(nodeId);
      ghost var emptied := nodes;
      unplaced := ReplacePods(nodeId, orphans);
      ReplacedAfterOrphan(base, emptied, nodes, old(events), events, nodeId, orphans, unplaced);
    }

    /**
     * One health-monitor tick at `now`: mark the stale nodes failed, then reschedule
     * the pods of each, in the order they were marked.
     */
    method HealthCheckTick(now: real) returns (failed: seq<NodeId>, unplaced: seq<Pod>)
      requires Valid()
      modifies this`nodes, this`eventLog, this`events
      ensures Valid()
      ensures failed == StaleIds(old(nodes), now)
      ensures |nodes| == |old(nodes)|
      ensures forall i :: 0 <= i < |nodes| ==>
        nodes[i].nodeId == old(nodes)[i].nodeId && nodes[i].status == MarkStale(old(nodes)[i], now).status
      ensures forall i :: 0 <= i < |nodes| && ShouldFail(old(nodes)[i], now) ==>
        nodes[i] == old(nodes)[i].(status := Failed, pods := [])
      ensures forall i :: 0 <= i < |nodes| && old(nodes)[i].status != Active ==> nodes[i] == old(nodes)[i]
      ensures multiset(AllPods(nodes)) + multiset(unplaced) == multiset(AllPods(old(nodes)))
      ensures CapacityOk(old(nodes)) ==> CapacityOk(nodes)
      ensures var r := RescheduleAll(MarkAll(old(nodes), now), failed);
        nodes == r.nodes && unplaced == r.unplaced && events == old(events) + FailureEvents(failed) + r.log
    {
      failed := MarkStaleNodes(now);
      ghost var marked, logged := nodes, events;
      assert marked == MarkAll(old(nodes), now);
      unplaced := [];
      var k := 0;
      assert failed[..0] == [];
      while k < |failed|
        invariant 0 <= k <= |failed|
        invariant Valid()
        invariant var r := RescheduleAll(marked, failed[..k]);
          nodes == r.nodes && unplaced == r.unplaced && events == logged + r.log
      {
        ghost var before, logBefore := nodes, events;
        var u := RescheduleFromFailedNode(failed[k]);
        RescheduleAllAdvances(marked, logged, failed, k, before, logBefore, unplaced, nodes, events, u);
        unplaced := unplaced + u;
        k := k + 1;
      }
      assert failed[..|failed|] == failed;
      RescheduleAllRescheduled(marked, failed);
      HealthCheckEffects(old(nodes), marked, nodes, now, unplaced);
    }
  }
}
