/**
 * Values of the simulated cluster: nodes, pods, log events and utilization samples,
 * and the pure rules the control plane applies to them: which nodes may host a pod,
 * how each placement policy picks one of them, how utilization is measured, when a
 * node is declared dead, when the auto-scaler fires, and how the in-memory logs are
 * bounded.  The state that changes over time lives in module Cluster.
 */
module ClusterModel {
  import opened Wrappers
  import Text

  type NodeId = string
  /** The counter value a pod id is made from (the server renders it as "pod_<n>"). */
  type PodId = nat

  const DefaultNodeCpu: int := 8
  const DefaultNodeMemory: int := 16
  const DefaultPodMemory: int := 4
  const AutoScaleThreshold: real := 0.8
  const AutoScaleCooldown: real := 60.0
  const HeartbeatThreshold: real := 15.0
  /** How many entries the in-memory event log and utilization history keep. */
  const LogCapacity: nat := 50
  const SchedulingAlgorithms: seq<string> := ["first_fit", "best_fit", "worst_fit"]
  const AutoScaleNodeTypes: seq<string> := ["high_cpu", "high_mem", "balanced"]
  const AutoScaleNetworkGroups: seq<string> := ["default", "isolated"]

  datatype Status = Active | Failed

  /** A pod request; `nodeAffinity` is present only when the launch request named a non-empty node type. */
  datatype Pod = Pod(podId: PodId, cpu: int, memory: int, networkGroup: string, nodeAffinity: Option<string>)

  datatype Node = Node(
    nodeId: NodeId,
    cpuTotal: int, cpuAvailable: int,
    memoryTotal: int, memoryAvailable: int,
    nodeType: string, networkGroup: string,
    pods: seq<Pod>,
    lastHeartbeat: real, status: Status, simulateHeartbeat: bool)

  /** What a log line reports; the rendered text and its "[timestamp]" prefix are not modelled. */
  datatype Event =
    | NodeAdded(nodeId: NodeId, cpu: int, memory: int, nodeType: string, networkGroup: string)
    | NodeRemoved(nodeId: NodeId)
    | SimulationSet(nodeId: NodeId, simulate: bool)
    | NodeReactivated(nodeId: NodeId)
    | PodScheduled(podId: PodId, nodeId: NodeId, algorithm: string)
    | NodeMarkedFailed(nodeId: NodeId)
    | PodRescheduled(podId: PodId, from: NodeId, to: NodeId)
    | PodNotPlaced(podId: PodId, from: NodeId)
    | AutoScaled(nodeId: NodeId, nodeType: string, networkGroup: string)
    | ChaosNoNodes
    | ChaosKilledNode(nodeId: NodeId)
    | ChaosNoActiveNodes
    | ChaosKilledPod(podId: PodId, nodeId: NodeId)
    | ChaosNoPods

  /** A point of the utilization history: a time and the utilization as a percentage. */
  datatype Sample = Sample(timestamp: real, percent: real)

  /** A freshly registered node: everything available, no pods, alive and heartbeat-simulated. */
  function NewNode(id: NodeId, cpu: int, memory: int, nodeType: string, networkGroup: string, now: real): Node {
    Node(id, cpu, cpu, memory, memory, nodeType, networkGroup, [], now, Active, true)
  }

  // ---------------------------------------------------------------------------
  // The registry as a sequence in insertion order
  // ---------------------------------------------------------------------------

  predicate DistinctIds(ns: seq<Node>) {
    forall i, j :: 0 <= i < j < |ns| ==> ns[i].nodeId != ns[j].nodeId
  }

  /** The position of the node registered under `id`, if any. */
  function IndexOfId(ns: seq<Node>, id: NodeId): (r: Option<nat>)
    ensures r.Some? ==> r.value < |ns| && ns[r.value].nodeId == id
    ensures r.None? <==> forall i :: 0 <= i < |ns| ==> ns[i].nodeId != id
  {
    if ns == [] then None
    else if ns[0].nodeId == id then Some(0)
    else
      var r := IndexOfId(ns[1..], id);
      if r.None? then None else Some(r.value + 1)
  }

  /** In a registry without duplicate ids, the node with a given id is found at its own position. */
  lemma IndexOfIdUnique(ns: seq<Node>, i: nat)
    requires DistinctIds(ns) && i < |ns|
    ensures IndexOfId(ns, ns[i].nodeId) == Some(i)
  {
  }

  /** Python's `nodes[id] = node`: replace in place when the key exists, otherwise append. */
  function Put(ns: seq<Node>, n: Node): seq<Node> {
    match IndexOfId(ns, n.nodeId)
    case Some(i) => ns[i := n]
    case None => ns + [n]
  }

  /** Registering a node keeps the ids distinct and leaves exactly one node under the new id. */
  lemma PutKeepsDistinct(ns: seq<Node>, n: Node)
    requires DistinctIds(ns)
    ensures DistinctIds(Put(ns, n))
    ensures IndexOfId(Put(ns, n), n.nodeId).Some?
    ensures |ns| <= |Put(ns, n)| <= |ns| + 1
  {
    var r := Put(ns, n);
    match IndexOfId(ns, n.nodeId)
    case Some(i) =>
      assert forall j :: 0 <= j < |ns| ==> r[j].nodeId == ns[j].nodeId;
      assert r[i] == n;
    case None =>
      assert r == ns + [n];
      assert r[|ns|] == n;
  }

  /** Registering a node in good standing keeps the cluster in good standing. */
  lemma PutKeepsCapacity(ns: seq<Node>, n: Node)
    requires CapacityOk(ns) && NodeCapacityOk(n)
    ensures CapacityOk(Put(ns, n))
  {
    var r := Put(ns, n);
    forall j | 0 <= j < |r| ensures NodeCapacityOk(r[j]) {
      if IndexOfId(ns, n.nodeId).None? && j == |ns| {
        assert r[j] == n;
      }
    }
  }

  function RemoveAt<T>(s: seq<T>, i: nat): (r: seq<T>)
    requires i < |s|
    ensures |r| == |s| - 1
  {
    s[..i] + s[i + 1..]
  }

  /** Deleting an entry keeps the ids distinct. */
  lemma RemoveAtKeepsDistinct(ns: seq<Node>, i: nat)
    requires DistinctIds(ns) && i < |ns|
    ensures DistinctIds(RemoveAt(ns, i))
    ensures IndexOfId(RemoveAt(ns, i), ns[i].nodeId).None?
  {
    var r := RemoveAt(ns, i);
    assert forall j :: 0 <= j < |r| ==> r[j] == (if j < i then ns[j] else ns[j + 1]);
  }

  /** Deleting a node keeps the remaining nodes in good standing. */
  lemma RemoveAtKeepsCapacity(ns: seq<Node>, i: nat)
    requires CapacityOk(ns) && i < |ns|
    ensures CapacityOk(RemoveAt(ns, i))
  {
    var r := RemoveAt(ns, i);
    assert forall j :: 0 <= j < |r| ==> r[j] == (if j < i then ns[j] else ns[j + 1]);
  }

  // ---------------------------------------------------------------------------
  // Eligibility and the three placement policies
  // ---------------------------------------------------------------------------

  /** The filter a node must pass to host `p`. */
  predicate Eligible(n: Node, p: Pod) {
    && n.status == Active
    && n.cpuAvailable >= p.cpu
    && n.memoryAvailable >= p.memory
    && n.networkGroup == p.networkGroup
    && (p.nodeAffinity.Some? ==> n.nodeType == p.nodeAffinity.value)
  }

  /** The list comprehensions the server filters nodes with. */
  datatype Filter = IsEligibleFor(pod: Pod) | IsActive | HasPods

  predicate Matches(f: Filter, n: Node) {
    match f
    case IsEligibleFor(p) => Eligible(n, p)
    case IsActive => n.status == Active
    case HasPods => n.pods != []
  }

  predicate Increasing(idx: seq<nat>) {
    forall a, b :: 0 <= a < b < |idx| ==> idx[a] < idx[b]
  }

  /** The positions of the nodes that pass `f`, in registry order (a list comprehension over the registry). */
  function IndicesWhere(ns: seq<Node>, f: Filter): (r: seq<nat>)
    ensures ValidIndices(ns, r)
  {
    if ns == [] then []
    else IndicesWhere(ns[..|ns| - 1], f) + (if Matches(f, ns[|ns| - 1]) then [|ns| - 1] else [])
  }

  /** The comprehension keeps exactly the positions of the nodes passing the filter, in increasing order. */
  lemma {:induction false} IndicesWhereExact(ns: seq<Node>, f: Filter)
    ensures forall k :: 0 <= k < |IndicesWhere(ns, f)| ==> IndicesWhere(ns, f)[k] < |ns| && Matches(f, ns[IndicesWhere(ns, f)[k]])
    ensures forall i :: 0 <= i < |ns| && Matches(f, ns[i]) ==> i in IndicesWhere(ns, f)
    ensures Increasing(IndicesWhere(ns, f))
    decreases |ns|
  {
    if ns != [] {
      var k := |ns| - 1;
      var pre := IndicesWhere(ns[..k], f);
      IndicesWhereExact(ns[..k], f);
      assert forall j :: 0 <= j < k ==> ns[..k][j] == ns[j];
      assert IndicesWhere(ns, f) == pre + (if Matches(f, ns[k]) then [k] else []);
    }
  }

  /** Slack left by best_fit: what remains on the node after placing the pod. */
  function BestFitKey(n: Node, p: Pod): int {
    (n.cpuAvailable - p.cpu) + (n.memoryAvailable - p.memory)
  }

  /** Room measured by worst_fit. */
  function WorstFitKey(n: Node): int {
    n.cpuAvailable + n.memoryAvailable
  }

  predicate ValidIndices(ns: seq<Node>, idx: seq<nat>) {
    forall k :: 0 <= k < |idx| ==> idx[k] < |ns|
  }

  /** Python's `min(idx, key=...)` over the best_fit slack: it keeps the earlier candidate on ties. */
  function MinSlack(ns: seq<Node>, idx: seq<nat>, p: Pod): (r: nat)
    requires |idx| > 0 && ValidIndices(ns, idx)
    ensures r in idx
  {
    if |idx| == 1 then idx[0]
    else
      var b := MinSlack(ns, idx[..|idx| - 1], p);
      var last := idx[|idx| - 1];
      if BestFitKey(ns[last], p) < BestFitKey(ns[b], p) then last else b
  }

  /** `min` finds a candidate of least slack, and the earliest such one when the candidates are in registry order. */
  lemma {:induction false} MinSlackIsLeast(ns: seq<Node>, idx: seq<nat>, p: Pod)
    requires |idx| > 0 && ValidIndices(ns, idx)
    ensures var r := MinSlack(ns, idx, p);
      forall k :: 0 <= k < |idx| ==> BestFitKey(ns[r], p) <= BestFitKey(ns[idx[k]], p)
    ensures var r := MinSlack(ns, idx, p);
      Increasing(idx) ==> forall k :: 0 <= k < |idx| && idx[k] < r ==> BestFitKey(ns[idx[k]], p) > BestFitKey(ns[r], p)
    decreases |idx|
  {
    if |idx| > 1 {
      var pre := idx[..|idx| - 1];
      assert ValidIndices(ns, pre);
      MinSlackIsLeast(ns, pre, p);
      assert forall k :: 0 <= k < |pre| ==> pre[k] == idx[k];
      assert Increasing(idx) ==> Increasing(pre);
    }
  }

  /** Python's `max(idx, key=...)` over the worst_fit room: it keeps the earlier candidate on ties. */
  function MaxRoom(ns: seq<Node>, idx: seq<nat>): (r: nat)
    requires |idx| > 0 && ValidIndices(ns, idx)
    ensures r in idx
  {
    if |idx| == 1 then idx[0]
    else
      var b := MaxRoom(ns, idx[..|idx| - 1]);
      var last := idx[|idx| - 1];
      if WorstFitKey(ns[last]) > WorstFitKey(ns[b]) then last else b
  }

  /** `max` finds a candidate of most room, and the earliest such one when the candidates are in registry order. */
  lemma {:induction false} MaxRoomIsMost(ns: seq<Node>, idx: seq<nat>)
    requires |idx| > 0 && ValidIndices(ns, idx)
    ensures var r := MaxRoom(ns, idx);
      forall k :: 0 <= k < |idx| ==> WorstFitKey(ns[r]) >= WorstFitKey(ns[idx[k]])
    ensures var r := MaxRoom(ns, idx);
      Increasing(idx) ==> forall k :: 0 <= k < |idx| && idx[k] < r ==> WorstFitKey(ns[idx[k]]) < WorstFitKey(ns[r])
    decreases |idx|
  {
    if |idx| > 1 {
      var pre := idx[..|idx| - 1];
      assert ValidIndices(ns, pre);
      MaxRoomIsMost(ns, pre);
      assert forall k :: 0 <= k < |pre| ==> pre[k] == idx[k];
      assert Increasing(idx) ==> Increasing(pre);
    }
  }

  /** One more candidate: `min` keeps the best so far unless the new one is strictly better. */
  lemma MinSlackStep(ns: seq<Node>, idx: seq<nat>, k: nat, p: Pod)
    requires 1 <= k < |idx| && ValidIndices(ns, idx)
    ensures ValidIndices(ns, idx[..k]) && ValidIndices(ns, idx[..k + 1])
    ensures var b := MinSlack(ns, idx[..k], p);
      MinSlack(ns, idx[..k + 1], p) == if BestFitKey(ns[idx[k]], p) < BestFitKey(ns[b], p) then idx[k] else b
  {
    assert idx[..k + 1][..k] == idx[..k];
  }

  /** One more candidate: `max` keeps the best so far unless the new one is strictly better. */
  lemma MaxRoomStep(ns: seq<Node>, idx: seq<nat>, k: nat)
    requires 1 <= k < |idx| && ValidIndices(ns, idx)
    ensures ValidIndices(ns, idx[..k]) && ValidIndices(ns, idx[..k + 1])
    ensures var b := MaxRoom(ns, idx[..k]);
      MaxRoom(ns, idx[..k + 1]) == if WorstFitKey(ns[idx[k]]) > WorstFitKey(ns[b]) then idx[k] else b
  {
    assert idx[..k + 1][..k] == idx[..k];
  }

  /** The node `schedule_pod` picks, or None when no node is eligible or the policy name is unknown. */
  function Select(ns: seq<Node>, p: Pod, algorithm: string): Option<nat> {
    var e := IndicesWhere(ns, IsEligibleFor(p));
    if e == [] then None
    else if algorithm == "first_fit" then Some(e[0])
    else if algorithm == "best_fit" then Some(MinSlack(ns, e, p))
    else if algorithm == "worst_fit" then Some(MaxRoom(ns, e))
    else None
  }

  /** The chosen node after hosting the pod. */
  function Place(n: Node, p: Pod): Node {
    n.(pods := n.pods + [p], cpuAvailable := n.cpuAvailable - p.cpu, memoryAvailable := n.memoryAvailable - p.memory)
  }

  /** Only an eligible node is ever chosen, and only under one of the three policy names. */
  lemma SelectIsEligible(ns: seq<Node>, p: Pod, algorithm: string)
    requires Select(ns, p, algorithm).Some?
    ensures Select(ns, p, algorithm).value < |ns|
    ensures Eligible(ns[Select(ns, p, algorithm).value], p)
    ensures algorithm in SchedulingAlgorithms
  {
    IndicesWhereExact(ns, IsEligibleFor(p));
  }

  /** Scheduling fails exactly when no node is eligible or the policy name is not one of the three. */
  lemma SelectFailsIff(ns: seq<Node>, p: Pod, algorithm: string)
    ensures Select(ns, p, algorithm).None? <==>
      (algorithm !in SchedulingAlgorithms || forall i :: 0 <= i < |ns| ==> !Eligible(ns[i], p))
  {
    var e := IndicesWhere(ns, IsEligibleFor(p));
    IndicesWhereExact(ns, IsEligibleFor(p));
    if e != [] {
      assert Matches(IsEligibleFor(p), ns[e[0]]);
    }
  }

  /** first_fit takes the first eligible node in registry order. */
  lemma FirstFitTakesFirst(ns: seq<Node>, p: Pod, i: nat)
    requires Select(ns, p, "first_fit") == Some(i)
    ensures i < |ns| && Eligible(ns[i], p)
    ensures forall j :: 0 <= j < i ==> !Eligible(ns[j], p)
  {
    var e := IndicesWhere(ns, IsEligibleFor(p));
    IndicesWhereExact(ns, IsEligibleFor(p));
    assert e != [] && e[0] == i;
    assert Matches(IsEligibleFor(p), ns[e[0]]);
    forall j | 0 <= j < i ensures !Eligible(ns[j], p) {
      if Eligible(ns[j], p) {
        assert Matches(IsEligibleFor(p), ns[j]);
      }
    }
  }

  /** best_fit takes an eligible node leaving the least slack, and the earliest such node. */
  lemma BestFitLeastSlack(ns: seq<Node>, p: Pod, i: nat)
    requires Select(ns, p, "best_fit") == Some(i)
    ensures i < |ns| && Eligible(ns[i], p)
    ensures forall j :: 0 <= j < |ns| && Eligible(ns[j], p) ==> BestFitKey(ns[i], p) <= BestFitKey(ns[j], p)
    ensures forall j :: 0 <= j < i && Eligible(ns[j], p) ==> BestFitKey(ns[i], p) < BestFitKey(ns[j], p)
  {
    var e := IndicesWhere(ns, IsEligibleFor(p));
    IndicesWhereExact(ns, IsEligibleFor(p));
    MinSlackIsLeast(ns, e, p);
    forall j | 0 <= j < |ns| && Eligible(ns[j], p)
      ensures BestFitKey(ns[i], p) <= BestFitKey(ns[j], p)
      ensures j < i ==> BestFitKey(ns[i], p) < BestFitKey(ns[j], p)
    {
      assert Matches(IsEligibleFor(p), ns[j]);
      var k :| 0 <= k < |e| && e[k] == j;
    }
  }

  /** worst_fit takes an eligible node with the most room, and the earliest such node. */
  lemma WorstFitMostRoom(ns: seq<Node>, p: Pod, i: nat)
    requires Select(ns, p, "worst_fit") == Some(i)
    ensures i < |ns| && Eligible(ns[i], p)
    ensures forall j :: 0 <= j < |ns| && Eligible(ns[j], p) ==> WorstFitKey(ns[i]) >= WorstFitKey(ns[j])
    ensures forall j :: 0 <= j < i && Eligible(ns[j], p) ==> WorstFitKey(ns[i]) > WorstFitKey(ns[j])
  {
    var e := IndicesWhere(ns, IsEligibleFor(p));
    IndicesWhereExact(ns, IsEligibleFor(p));
    MaxRoomIsMost(ns, e);
    forall j | 0 <= j < |ns| && Eligible(ns[j], p)
      ensures WorstFitKey(ns[i]) >= WorstFitKey(ns[j])
      ensures j < i ==> WorstFitKey(ns[i]) > WorstFitKey(ns[j])
    {
      assert Matches(IsEligibleFor(p), ns[j]);
      var k :| 0 <= k < |e| && e[k] == j;
    }
  }

  /** The policy name the launch endpoint hands to the scheduler: lower-cased, unknown names become first_fit. */
  function NormalizeAlgorithm(requested: Option<string>): string {
    var a := Text.Lower(if requested.Some? then requested.value else "first_fit");
    if a in SchedulingAlgorithms then a else "first_fit"
  }

  /**
   * The normalised name is always one of the three policies: the lower-cased request
   * when that names one, first_fit otherwise; and normalising is idempotent.
   */
  lemma NormalizeAlgorithmKnown(requested: Option<string>)
    ensures NormalizeAlgorithm(requested) in SchedulingAlgorithms
    ensures requested.Some? && Text.Lower(requested.value) in SchedulingAlgorithms ==>
      NormalizeAlgorithm(requested) == Text.Lower(requested.value)
    ensures requested.None? || Text.Lower(requested.value) !in SchedulingAlgorithms ==>
      NormalizeAlgorithm(requested) == "first_fit"
    ensures NormalizeAlgorithm(Some(NormalizeAlgorithm(requested))) == NormalizeAlgorithm(requested)
  {
    Text.LowerUnchanged("first_fit");
    if requested.Some? {
      Text.LowerIdempotent(requested.value);
    }
  }

  // ---------------------------------------------------------------------------
  // Capacity accounting
  // ---------------------------------------------------------------------------

  function SumCpu(ps: seq<Pod>): int {
    if ps == [] then 0 else SumCpu(ps[..|ps| - 1]) + ps[|ps| - 1].cpu
  }

  function SumMemory(ps: seq<Pod>): int {
    if ps == [] then 0 else SumMemory(ps[..|ps| - 1]) + ps[|ps| - 1].memory
  }

  /** A request with no negative component (the server never checks the sign). */
  predicate PodOk(p: Pod) {
    p.cpu >= 0 && p.memory >= 0
  }

  /**
   * What the server maintains for a node fed only non-negative requests: nothing
   * over-committed, and the hosted pods accounted for within the totals (with
   * equality until a failure orphans pods without giving their share back).
   */
  predicate NodeCapacityOk(n: Node) {
    && 0 <= n.cpuAvailable && n.cpuAvailable + SumCpu(n.pods) <= n.cpuTotal
    && 0 <= n.memoryAvailable && n.memoryAvailable + SumMemory(n.pods) <= n.memoryTotal
    && forall k :: 0 <= k < |n.pods| ==> PodOk(n.pods[k])
  }

  predicate PodsOk(ps: seq<Pod>) {
    forall k :: 0 <= k < |ps| ==> PodOk(ps[k])
  }

  predicate CapacityOk(ns: seq<Node>) {
    forall i :: 0 <= i < |ns| ==> NodeCapacityOk(ns[i])
  }

  lemma {:induction false} SumsNonNegative(ps: seq<Pod>)
    requires forall k :: 0 <= k < |ps| ==> PodOk(ps[k])
    ensures SumCpu(ps) >= 0 && SumMemory(ps) >= 0
  {
    if ps != [] { SumsNonNegative(ps[..|ps| - 1]); }
  }

  /** A node in good standing has `0 <= available <= total` for cpu and memory. */
  lemma CapacityBounds(n: Node)
    requires NodeCapacityOk(n)
    ensures 0 <= n.cpuAvailable <= n.cpuTotal
    ensures 0 <= n.memoryAvailable <= n.memoryTotal
  {
    SumsNonNegative(n.pods);
  }

  /** Placing a non-negative request on an eligible node keeps the node in good standing. */
  lemma PlaceKeepsCapacity(n: Node, p: Pod)
    requires NodeCapacityOk(n) && Eligible(n, p) && PodOk(p)
    ensures NodeCapacityOk(Place(n, p))
    ensures Place(n, p).cpuAvailable >= 0 && Place(n, p).memoryAvailable >= 0
  {
    assert (n.pods + [p])[..|n.pods|] == n.pods;
  }

  lemma {:induction false} SumsConcat(a: seq<Pod>, b: seq<Pod>)
    ensures SumCpu(a + b) == SumCpu(a) + SumCpu(b)
    ensures SumMemory(a + b) == SumMemory(a) + SumMemory(b)
    decreases |b|
  {
    if b == [] {
      assert a + b == a;
    } else {
      assert (a + b)[..|a + b| - 1] == a + b[..|b| - 1];
      assert (a + b)[|a + b| - 1] == b[|b| - 1];
      SumsConcat(a, b[..|b| - 1]);
    }
  }

  lemma SumsSingle(p: Pod)
    ensures SumCpu([p]) == p.cpu && SumMemory([p]) == p.memory
  {
    assert [p][..0] == [];
  }

  /** Python's `list.remove(q)`: drop the first element equal to `q`. */
  function RemoveFirst(ps: seq<Pod>, q: Pod): (r: seq<Pod>)
    requires q in ps
    ensures |r| == |ps| - 1
    ensures multiset(r) == multiset(ps) - multiset{q}
  {
    assert ps == [ps[0]] + ps[1..];
    if ps[0] == q then ps[1..]
    else [ps[0]] + RemoveFirst(ps[1..], q)
  }

  lemma {:induction false} RemoveFirstSums(ps: seq<Pod>, q: Pod)
    requires q in ps
    ensures SumCpu(RemoveFirst(ps, q)) == SumCpu(ps) - q.cpu
    ensures SumMemory(RemoveFirst(ps, q)) == SumMemory(ps) - q.memory
    ensures forall k :: 0 <= k < |RemoveFirst(ps, q)| ==> RemoveFirst(ps, q)[k] in ps
  {
    assert ps == [ps[0]] + ps[1..];
    SumsConcat([ps[0]], ps[1..]);
    SumsSingle(ps[0]);
    if ps[0] != q {
      RemoveFirstSums(ps[1..], q);
      SumsConcat([ps[0]], RemoveFirst(ps[1..], q));
    }
  }

  /** A node after the chaos monkey kills its `k`-th pod: the pod's request goes back to the pool. */
  function KillPod(n: Node, k: nat): Node
    requires k < |n.pods|
  {
    var q := n.pods[k];
    n.(cpuAvailable := n.cpuAvailable + q.cpu, memoryAvailable := n.memoryAvailable + q.memory,
       pods := RemoveFirst(n.pods, q))
  }

  /** Killing a pod keeps the node in good standing and removes exactly that pod. */
  lemma KillPodKeepsCapacity(n: Node, k: nat)
    requires k < |n.pods| && NodeCapacityOk(n)
    ensures NodeCapacityOk(KillPod(n, k))
    ensures multiset(KillPod(n, k).pods) == multiset(n.pods) - multiset{n.pods[k]}
  {
    var q := n.pods[k];
    RemoveFirstSums(n.pods, q);
    var r := RemoveFirst(n.pods, q);
    forall j | 0 <= j < |r| ensures PodOk(r[j]) {
      assert r[j] in n.pods;
    }
    assert PodOk(q);
  }

  /** The node a chaos node-kill leaves behind: failed, and no longer heartbeat-simulated. */
  function KillNode(n: Node): Node {
    n.(status := Failed, simulateHeartbeat := false)
  }

  // ---------------------------------------------------------------------------
  // Where the pods are
  // ---------------------------------------------------------------------------

  /** Every hosted pod, node by node in registry order. */
  function AllPods(ns: seq<Node>): seq<Pod> {
    if ns == [] then [] else AllPods(ns[..|ns| - 1]) + ns[|ns| - 1].pods
  }

  /** Replacing one node changes the hosted pods by exactly the difference between its old and new pod lists. */
  lemma {:induction false} AllPodsUpdate(ns: seq<Node>, i: nat, n: Node)
    requires i < |ns|
    ensures multiset(AllPods(ns[i := n])) + multiset(ns[i].pods) == multiset(AllPods(ns)) + multiset(n.pods)
    decreases |ns|
  {
    var m := ns[i := n];
    var k := |ns| - 1;
    if i == k {
      assert m[..k] == ns[..k];
      assert AllPods(m) == AllPods(ns[..k]) + n.pods;
      assert AllPods(ns) == AllPods(ns[..k]) + ns[k].pods;
    } else {
      var pre := ns[..k];
      assert m[..k] == pre[i := n];
      assert pre[i] == ns[i];
      AllPodsUpdate(pre, i, n);
      var a', a := AllPods(pre[i := n]), AllPods(pre);
      assert multiset(a') + multiset(ns[i].pods) == multiset(a) + multiset(n.pods);
      assert AllPods(m) == a' + ns[k].pods;
      assert AllPods(ns) == a + ns[k].pods;
      calc {
        multiset(AllPods(m)) + multiset(ns[i].pods);
        multiset(a') + multiset(ns[k].pods) + multiset(ns[i].pods);
        multiset(a') + multiset(ns[i].pods) + multiset(ns[k].pods);
        multiset(a) + multiset(n.pods) + multiset(ns[k].pods);
        multiset(AllPods(ns)) + multiset(n.pods);
      }
    }
  }

  lemma MultisetCancel<T>(a: multiset<T>, b: multiset<T>, c: multiset<T>)
    requires a + c == b + c
    ensures a == b
  {
    assert forall x :: a[x] == (a + c)[x] - c[x];
    assert forall x :: b[x] == (b + c)[x] - c[x];
  }

  /** Charging a pod to a node adds exactly that pod to the cluster. */
  lemma PlaceAddsPod(ns: seq<Node>, i: nat, p: Pod)
    requires i < |ns|
    ensures multiset(AllPods(ns[i := Place(ns[i], p)])) == multiset(AllPods(ns)) + multiset{p}
  {
    var n := Place(ns[i], p);
    AllPodsUpdate(ns, i, n);
    var after, before, mine := multiset(AllPods(ns[i := n])), multiset(AllPods(ns)), multiset(ns[i].pods);
    assert multiset(n.pods) == mine + multiset{p};
    assert after + mine == (before + multiset{p}) + mine;
    MultisetCancel(after, before + multiset{p}, mine);
  }

  /** Replacing a node by one with the same id keeps the ids distinct. */
  lemma SameIdKeepsDistinct(ns: seq<Node>, i: nat, n: Node)
    requires i < |ns| && n.nodeId == ns[i].nodeId && DistinctIds(ns)
    ensures DistinctIds(ns[i := n])
  {
    assert forall j :: 0 <= j < |ns| ==> ns[i := n][j].nodeId == ns[j].nodeId;
  }

  /** Replacing a node by one in good standing keeps the whole cluster in good standing. */
  lemma UpdateKeepsCapacity(ns: seq<Node>, i: nat, n: Node)
    requires i < |ns| && CapacityOk(ns) && NodeCapacityOk(n)
    ensures CapacityOk(ns[i := n])
  {
    var m := ns[i := n];
    forall j | 0 <= j < |m| ensures NodeCapacityOk(m[j]) {
      if j != i { assert m[j] == ns[j]; }
    }
  }

  /** Changing a node's fields other than its pods leaves the hosted pods as they were. */
  lemma {:induction false} AllPodsSamePods(ns: seq<Node>, i: nat, n: Node)
    requires i < |ns| && n.pods == ns[i].pods
    ensures AllPods(ns[i := n]) == AllPods(ns)
    decreases |ns|
  {
    var k := |ns| - 1;
    if i < k {
      assert ns[i := n][..k] == ns[..k][i := n];
      AllPodsSamePods(ns[..k], i, n);
    } else {
      assert ns[i := n][..k] == ns[..k];
    }
  }

  /** Two registries whose nodes host the same pods, position by position, host the same pods overall. */
  lemma {:induction false} AllPodsPointwise(a: seq<Node>, b: seq<Node>)
    requires |a| == |b| && forall i :: 0 <= i < |a| ==> a[i].pods == b[i].pods
    ensures AllPods(a) == AllPods(b)
    decreases |a|
  {
    if a != [] {
      var k := |a| - 1;
      AllPodsPointwise(a[..k], b[..k]);
    }
  }

  /** Orphaning a node's pods takes exactly those pods out of the cluster. */
  lemma OrphanRemovesPods(ns: seq<Node>, i: nat)
    requires i < |ns|
    ensures multiset(AllPods(ns[i := ns[i].(pods := [])])) + multiset(ns[i].pods) == multiset(AllPods(ns))
  {
    AllPodsUpdate(ns, i, ns[i].(pods := []));
  }

  /**
   * Orphaning a node's pods keeps it in good standing even though nothing is given
   * back to its available cpu and memory, and the orphans are non-negative requests.
   */
  lemma OrphanKeepsCapacity(n: Node)
    requires NodeCapacityOk(n)
    ensures NodeCapacityOk(n.(pods := []))
    ensures PodsOk(n.pods)
  {
    SumsNonNegative(n.pods);
  }

  /**
   * `after` differs from `before` only in the load of active nodes: same length, same
   * ids and statuses everywhere, and every node that is not active left exactly as it was.
   */
  predicate OnlyActiveChanged(before: seq<Node>, after: seq<Node>) {
    && |after| == |before|
    && (forall i :: 0 <= i < |before| ==> after[i].nodeId == before[i].nodeId && after[i].status == before[i].status)
    && (forall i :: 0 <= i < |before| && before[i].status != Active ==> after[i] == before[i])
  }

  /**
   * One orphan handled: it is either hosted somewhere (`placed`) or set aside, so the
   * hosted pods plus the set-aside ones grow by exactly that orphan.
   */
  lemma ConserveStep<T>(hosted: multiset<T>, aside: multiset<T>, base: multiset<T>, done: multiset<T>, p: T, placed: bool,
                        hosted': multiset<T>, aside': multiset<T>)
    requires hosted + aside == base + done && aside <= done
    requires hosted' == (if placed then hosted + multiset{p} else hosted)
    requires aside' == (if placed then aside else aside + multiset{p})
    ensures hosted' + aside' == base + (done + multiset{p})
    ensures aside' <= done + multiset{p}
  {
    assert hosted' + aside' == (hosted + aside) + multiset{p};
  }

  /**
   * `orphans` have been offered to the cluster, which went from `base` to `now` while
   * the log went from `log0` to `log`: only active nodes took pods, every orphan is now
   * hosted or among `unplaced`, and each unplaced one was logged as not placed.
   */
  ghost predicate Replaced(base: seq<Node>, now: seq<Node>, log0: seq<Event>, log: seq<Event>,
                           from: NodeId, orphans: seq<Pod>, unplaced: seq<Pod>)
  {
    && OnlyActiveChanged(base, now)
    && multiset(AllPods(now)) + multiset(unplaced) == multiset(AllPods(base)) + multiset(orphans)
    && multiset(unplaced) <= multiset(orphans)
    && (CapacityOk(base) && PodsOk(orphans) ==> CapacityOk(now))
    && log0 <= log
    && (forall q :: q in unplaced ==> PodNotPlaced(q.podId, from) in log)
  }

  /** Offering one more orphan, placed or logged as not placed, keeps `Replaced`. */
  lemma ReplacedStep(base: seq<Node>, before: seq<Node>, after: seq<Node>, log0: seq<Event>, logBefore: seq<Event>,
                     logAfter: seq<Event>, from: NodeId, done: seq<Pod>, pod: Pod, placed: bool, aside: seq<Pod>)
    requires Replaced(base, before, log0, logBefore, from, done, aside)
    requires OnlyActiveChanged(before, after)
    requires multiset(AllPods(after)) == multiset(AllPods(before)) + (if placed then multiset{pod} else multiset{})
    requires CapacityOk(before) && PodOk(pod) ==> CapacityOk(after)
    requires logBefore <= logAfter
    requires !placed ==> PodNotPlaced(pod.podId, from) in logAfter
    ensures Replaced(base, after, log0, logAfter, from, done + [pod], if placed then aside else aside + [pod])
  {
    var aside' := if placed then aside else aside + [pod];
    OnlyActiveChangedTrans(base, before, after);
    ConserveStep(multiset(AllPods(before)), multiset(aside), multiset(AllPods(base)), multiset(done), pod, placed,
                 multiset(AllPods(after)), multiset(aside'));
    PodsOkSnoc(done, pod);
    LoggedStep(logBefore, logAfter, from, aside, pod, placed);
  }

  lemma PodsOkSnoc(ps: seq<Pod>, p: Pod)
    ensures PodsOk(ps + [p]) <==> PodsOk(ps) && PodOk(p)
  {
    assert (ps + [p])[|ps|] == p;
    assert forall k :: 0 <= k < |ps| ==> (ps + [p])[k] == ps[k];
  }

  /** Entries already in a log stay there when it grows, so logged refusals stay logged. */
  lemma LoggedStep(logBefore: seq<Event>, logAfter: seq<Event>, from: NodeId, aside: seq<Pod>, pod: Pod, placed: bool)
    requires forall q :: q in aside ==> PodNotPlaced(q.podId, from) in logBefore
    requires logBefore <= logAfter
    requires !placed ==> PodNotPlaced(pod.podId, from) in logAfter
    ensures forall q :: q in (if placed then aside else aside + [pod]) ==> PodNotPlaced(q.podId, from) in logAfter
  {
    forall q | q in aside ensures PodNotPlaced(q.podId, from) in logAfter {
      var j :| 0 <= j < |logBefore| && logBefore[j] == PodNotPlaced(q.podId, from);
      assert logAfter[j] == logBefore[j];
    }
  }

  /** The registry once the node with id `id` (if any) has had its pods taken off it. */
  function Orphan(ns: seq<Node>, id: NodeId): seq<Node> {
    match IndexOfId(ns, id)
    case None => ns
    case Some(i) => ns[i := ns[i].(pods := [])]
  }

  /** The pods taken off that node, in the order it hosted them. */
  function OrphansOf(ns: seq<Node>, id: NodeId): seq<Pod> {
    match IndexOfId(ns, id)
    case None => []
    case Some(i) => ns[i].pods
  }

  /**
   * The nodes named in `ids` have been emptied and their pods offered back to the
   * cluster, which went from `base` to `now`: ids and statuses are kept, a node that is
   * not active keeps its load unless it is one of `ids` (then it hosts nothing), every
   * pod is still hosted or among `unplaced`, and good standing is kept.
   */
  ghost predicate Rescheduled(base: seq<Node>, now: seq<Node>, ids: seq<NodeId>, unplaced: seq<Pod>) {
    && |now| == |base|
    && (forall i :: 0 <= i < |base| ==> now[i].nodeId == base[i].nodeId && now[i].status == base[i].status)
    && (forall i :: 0 <= i < |base| && base[i].status != Active ==>
          now[i] == if base[i].nodeId in ids then base[i].(pods := []) else base[i])
    && multiset(AllPods(now)) + multiset(unplaced) == multiset(AllPods(base))
    && (CapacityOk(base) ==> CapacityOk(now))
  }

  /**
   * Orphaning a node empties that node alone and sets aside exactly its pods; the
   * orphans of a node in good standing have non-negative requests.
   */
  lemma OrphanEffects(ns: seq<Node>, id: NodeId)
    requires DistinctIds(ns)
    ensures DistinctIds(Orphan(ns, id))
    ensures Rescheduled(ns, Orphan(ns, id), [id], OrphansOf(ns, id))
    ensures CapacityOk(ns) ==> PodsOk(OrphansOf(ns, id))
  {
    var f := IndexOfId(ns, id);
    if f.Some? {
      var i := f.value;
      var n := ns[i];
      OrphanRemovesPods(ns, i);
      SameIdKeepsDistinct(ns, i, n.(pods := []));
      if CapacityOk(ns) {
        OrphanKeepsCapacity(n);
        UpdateKeepsCapacity(ns, i, n.(pods := []));
      }
      var m := Orphan(ns, id);
      forall j | 0 <= j < |ns| && ns[j].status != Active
        ensures m[j] == if ns[j].nodeId in [id] then ns[j].(pods := []) else ns[j]
      {
        if ns[j].nodeId == id { IndexOfIdUnique(ns, j); }
      }
    }
  }

  /** Placing the orphans of a node again completes its rescheduling. */
  lemma ReplacedAfterOrphan(base: seq<Node>, emptied: seq<Node>, now: seq<Node>, log0: seq<Event>, log: seq<Event>,
                            id: NodeId, orphans: seq<Pod>, unplaced: seq<Pod>)
    requires Rescheduled(base, emptied, [id], orphans)
    requires CapacityOk(base) ==> PodsOk(orphans)
    requires Replaced(emptied, now, log0, log, id, orphans, unplaced)
    ensures Rescheduled(base, now, [id], unplaced)
  {
    assert multiset(AllPods(now)) + multiset(unplaced) == multiset(AllPods(emptied)) + multiset(orphans);
  }

  /** Rescheduling one more node after several composes into rescheduling them all. */
  lemma RescheduledStep(base: seq<Node>, mid: seq<Node>, now: seq<Node>, ids: seq<NodeId>, id: NodeId,
                        done: seq<Pod>, more: seq<Pod>)
    requires Rescheduled(base, mid, ids, done)
    requires Rescheduled(mid, now, [id], more)
    ensures Rescheduled(base, now, ids + [id], done + more)
  {
    forall i | 0 <= i < |base| && base[i].status != Active
      ensures now[i] == if base[i].nodeId in ids + [id] then base[i].(pods := []) else base[i]
    {
      assert mid[i].status == base[i].status && mid[i].nodeId == base[i].nodeId;
    }
    assert multiset(done + more) == multiset(done) + multiset(more);
    assert multiset(AllPods(now)) + multiset(done + more)
        == (multiset(AllPods(now)) + multiset(more)) + multiset(done);
  }

  /** The registry, the orphans left unplaced and the entries logged once orphans have been offered back. */
  datatype Replacement = Replacement(nodes: seq<Node>, unplaced: seq<Pod>, log: seq<Event>)

  /**
   * One orphan of node `from` offered back: `schedule_pod` first-fit charges it to the
   * first eligible node, and both the scheduling and the rescheduling are logged;
   * with no eligible node it is set aside and logged as not placed.
   */
  function ReplaceStep(r: Replacement, from: NodeId, p: Pod): Replacement {
    match Select(r.nodes, p, "first_fit")
    case None => Replacement(r.nodes, r.unplaced + [p], r.log + [PodNotPlaced(p.podId, from)])
    case Some(i) =>
      SelectIsEligible(r.nodes, p, "first_fit");
      var to := r.nodes[i].nodeId;
      Replacement(r.nodes[i := Place(r.nodes[i], p)], r.unplaced,
                  r.log + [PodScheduled(p.podId, to, "first_fit"), PodRescheduled(p.podId, from, to)])
  }

  /** The orphans of node `from` offered back one after the other, in order, starting from registry `ns`. */
  function ReplaceAll(ns: seq<Node>, from: NodeId, orphans: seq<Pod>): Replacement
    decreases |orphans|
  {
    if orphans == [] then Replacement(ns, [], [])
    else ReplaceStep(ReplaceAll(ns, from, orphans[..|orphans| - 1]), from, orphans[|orphans| - 1])
  }

  /** Offering one orphan more: the next registry, unplaced orphans and entries, spelled out. */
  lemma ReplaceAllNext(ns: seq<Node>, from: NodeId, orphans: seq<Pod>, k: nat)
    requires k < |orphans|
    ensures var r, s, p := ReplaceAll(ns, from, orphans[..k]), ReplaceAll(ns, from, orphans[..k + 1]), orphans[k];
      && (Select(r.nodes, p, "first_fit").None? ==>
            s == Replacement(r.nodes, r.unplaced + [p], r.log + [PodNotPlaced(p.podId, from)]))
      && (Select(r.nodes, p, "first_fit").Some? ==>
            var i := Select(r.nodes, p, "first_fit").value;
            && i < |r.nodes|
            && s == Replacement(r.nodes[i := Place(r.nodes[i], p)], r.unplaced,
                                r.log + [PodScheduled(p.podId, r.nodes[i].nodeId, "first_fit"),
                                         PodRescheduled(p.podId, from, r.nodes[i].nodeId)]))
  {
    assert orphans[..k + 1][..k] == orphans[..k];
    var r := ReplaceAll(ns, from, orphans[..k]);
    if Select(r.nodes, orphans[k], "first_fit").Some? {
      SelectIsEligible(r.nodes, orphans[k], "first_fit");
    }
  }

  /** What offering `orphans[k]` through one first-fit scheduling does to a state that matches the fold so far. */
  lemma ReplaceAllAdvances(ns: seq<Node>, log0: seq<Event>, from: NodeId, orphans: seq<Pod>, k: nat,
                           before: seq<Node>, logBefore: seq<Event>, aside: seq<Pod>,
                           after: seq<Node>, logAfter: seq<Event>, placed: bool)
    requires k < |orphans|
    requires var r := ReplaceAll(ns, from, orphans[..k]);
      before == r.nodes && aside == r.unplaced && logBefore == log0 + r.log
    requires placed == Select(before, orphans[k], "first_fit").Some?
    requires !placed ==> after == before && logAfter == logBefore + [PodNotPlaced(orphans[k].podId, from)]
    requires placed ==>
      var i := Select(before, orphans[k], "first_fit").value;
      && i < |before|
      && after == before[i := Place(before[i], orphans[k])]
      && logAfter == logBefore + [PodScheduled(orphans[k].podId, before[i].nodeId, "first_fit"),
                                  PodRescheduled(orphans[k].podId, from, before[i].nodeId)]
    ensures var r := ReplaceAll(ns, from, orphans[..k + 1]);
      && after == r.nodes
      && (if placed then aside else aside + [orphans[k]]) == r.unplaced
      && logAfter == log0 + r.log
  {
    ReplaceAllNext(ns, from, orphans, k);
    var r := ReplaceAll(ns, from, orphans[..k]);
    var s := ReplaceAll(ns, from, orphans[..k + 1]);
    var extra := logAfter[|logBefore|..];
    assert logAfter == logBefore + extra;
    assert s.log == r.log + extra;
    Text.SeqAssoc(log0, r.log, extra);
  }

  /**
   * Offering orphans back first-fit loses and duplicates nothing: only active nodes
   * take pods, every orphan ends up hosted or unplaced, each unplaced one is logged,
   * and good standing is kept for non-negative requests.
   */
  lemma {:induction false} ReplaceAllReplaced(ns: seq<Node>, log0: seq<Event>, from: NodeId, orphans: seq<Pod>)
    ensures var r := ReplaceAll(ns, from, orphans);
      Replaced(ns, r.nodes, log0, log0 + r.log, from, orphans, r.unplaced)
    decreases |orphans|
  {
    if orphans == [] {
      assert log0 + [] == log0;
    } else {
      var k := |orphans| - 1;
      assert orphans == orphans[..k] + [orphans[k]];
      ReplaceAllReplaced(ns, log0, from, orphans[..k]);
      ReplaceStepReplaced(ns, log0, from, orphans[..k], orphans[k]);
    }
  }

  /** One first-fit offer more keeps `Replaced`. */
  lemma ReplaceStepReplaced(ns: seq<Node>, log0: seq<Event>, from: NodeId, done: seq<Pod>, p: Pod)
    requires var r := ReplaceAll(ns, from, done);
      Replaced(ns, r.nodes, log0, log0 + r.log, from, done, r.unplaced)
    ensures var after := ReplaceStep(ReplaceAll(ns, from, done), from, p);
      Replaced(ns, after.nodes, log0, log0 + after.log, from, done + [p], after.unplaced)
  {
    var r := ReplaceAll(ns, from, done);
    var after := ReplaceStep(r, from, p);
    var placed := Select(r.nodes, p, "first_fit").Some?;
    if placed {
      SchedulePlacesPod(r.nodes, p, "first_fit");
    }
    var extra := after.log[|r.log|..];
    assert after.log == r.log + extra;
    Text.SeqAssoc(log0, r.log, extra);
    assert !placed ==> extra == [PodNotPlaced(p.podId, from)];
    ReplacedStep(ns, r.nodes, after.nodes, log0, log0 + r.log, log0 + after.log, from, done, p, placed, r.unplaced);
  }

  /** A registry whose ids are those of a registry with distinct ids, position by position, has distinct ids. */
  lemma SameIdsKeepDistinct(before: seq<Node>, after: seq<Node>)
    requires DistinctIds(before) && |after| == |before|
    requires forall i :: 0 <= i < |before| ==> after[i].nodeId == before[i].nodeId
    ensures DistinctIds(after)
  {
  }

  /** The registry after the health monitor's marking pass at `now`. */
  function MarkAll(ns: seq<Node>, now: real): seq<Node> {
    seq(|ns|, i requires 0 <= i < |ns| => MarkStale(ns[i], now))
  }

  /** `reschedule_pods_from_failed_node(id)`: the node's pods taken off it, then offered back first-fit. */
  function RescheduleNode(ns: seq<Node>, id: NodeId): Replacement {
    ReplaceAll(Orphan(ns, id), id, OrphansOf(ns, id))
  }

  /** The nodes `ids` rescheduled one after the other: the last registry, every unplaced orphan and every entry, in order. */
  function RescheduleAll(ns: seq<Node>, ids: seq<NodeId>): Replacement
    decreases |ids|
  {
    if ids == [] then Replacement(ns, [], [])
    else
      var r := RescheduleAll(ns, ids[..|ids| - 1]);
      var s := RescheduleNode(r.nodes, ids[|ids| - 1]);
      Replacement(s.nodes, r.unplaced + s.unplaced, r.log + s.log)
  }

  /** Rescheduling one node more: the last registry, unplaced orphans and entries, spelled out. */
  lemma RescheduleAllNext(ns: seq<Node>, ids: seq<NodeId>, k: nat)
    requires k < |ids|
    ensures var r, s := RescheduleAll(ns, ids[..k]), RescheduleNode(RescheduleAll(ns, ids[..k]).nodes, ids[k]);
      RescheduleAll(ns, ids[..k + 1]) == Replacement(s.nodes, r.unplaced + s.unplaced, r.log + s.log)
  {
    assert ids[..k + 1][..k] == ids[..k];
  }

  /** What rescheduling `ids[k]` does to a state that matches the fold so far. */
  lemma RescheduleAllAdvances(ns: seq<Node>, log0: seq<Event>, ids: seq<NodeId>, k: nat,
                              before: seq<Node>, logBefore: seq<Event>, aside: seq<Pod>,
                              after: seq<Node>, logAfter: seq<Event>, more: seq<Pod>)
    requires k < |ids|
    requires var r := RescheduleAll(ns, ids[..k]);
      before == r.nodes && aside == r.unplaced && logBefore == log0 + r.log
    requires var s := RescheduleNode(before, ids[k]);
      after == s.nodes && more == s.unplaced && logAfter == logBefore + s.log
    ensures var r := RescheduleAll(ns, ids[..k + 1]);
      after == r.nodes && aside + more == r.unplaced && logAfter == log0 + r.log
  {
    RescheduleAllNext(ns, ids, k);
    var r, s := RescheduleAll(ns, ids[..k]), RescheduleNode(before, ids[k]);
    Text.SeqAssoc(log0, r.log, s.log);
  }

  /** Rescheduling one node empties it, keeps ids distinct, and loses or duplicates no pod. */
  lemma RescheduleNodeRescheduled(ns: seq<Node>, id: NodeId)
    requires DistinctIds(ns)
    ensures var s := RescheduleNode(ns, id); DistinctIds(s.nodes) && Rescheduled(ns, s.nodes, [id], s.unplaced)
  {
    var emptied, orphans := Orphan(ns, id), OrphansOf(ns, id);
    OrphanEffects(ns, id);
    ReplaceAllReplaced(emptied, [], id, orphans);
    var s := RescheduleNode(ns, id);
    ReplacedAfterOrphan(ns, emptied, s.nodes, [], [] + s.log, id, orphans, s.unplaced);
    SameIdsKeepDistinct(emptied, s.nodes);
  }

  /** Rescheduling several nodes in turn empties each of them, keeps ids distinct, and loses or duplicates no pod. */
  lemma {:induction false} RescheduleAllRescheduled(ns: seq<Node>, ids: seq<NodeId>)
    requires DistinctIds(ns)
    ensures var r := RescheduleAll(ns, ids); DistinctIds(r.nodes) && Rescheduled(ns, r.nodes, ids, r.unplaced)
    decreases |ids|
  {
    if ids != [] {
      var k := |ids| - 1;
      assert ids == ids[..k] + [ids[k]];
      RescheduleAllRescheduled(ns, ids[..k]);
      var r := RescheduleAll(ns, ids[..k]);
      RescheduleNodeRescheduled(r.nodes, ids[k]);
      var s := RescheduleNode(r.nodes, ids[k]);
      RescheduledStep(ns, r.nodes, s.nodes, ids[..k], ids[k], r.unplaced, s.unplaced);
    }
  }

  /**
   * What a successful `schedule_pod` does to the cluster: the chosen node gains exactly
   * the pod, nothing but an active node's load changes, and a node in good standing
   * stays so when the pod asks for non-negative resources.
   */
  lemma SchedulePlacesPod(ns: seq<Node>, p: Pod, algorithm: string)
    requires Select(ns, p, algorithm).Some?
    ensures var i := Select(ns, p, algorithm).value;
      && i < |ns|
      && multiset(AllPods(ns[i := Place(ns[i], p)])) == multiset(AllPods(ns)) + multiset{p}
      && OnlyActiveChanged(ns, ns[i := Place(ns[i], p)])
      && (CapacityOk(ns) && PodOk(p) ==> CapacityOk(ns[i := Place(ns[i], p)]))
  {
    var i := Select(ns, p, algorithm).value;
    SelectIsEligible(ns, p, algorithm);
    PlaceAddsPod(ns, i, p);
    PlaceOnlyActiveChanged(ns, i, p);
    if CapacityOk(ns) && PodOk(p) {
      PlaceKeepsCapacity(ns[i], p);
      UpdateKeepsCapacity(ns, i, Place(ns[i], p));
    }
  }

  /** Placing a pod on an eligible node changes only that active node. */
  lemma PlaceOnlyActiveChanged(ns: seq<Node>, i: nat, p: Pod)
    requires i < |ns| && Eligible(ns[i], p)
    ensures OnlyActiveChanged(ns, ns[i := Place(ns[i], p)])
  {
  }

  lemma OnlyActiveChangedTrans(a: seq<Node>, b: seq<Node>, c: seq<Node>)
    requires OnlyActiveChanged(a, b) && OnlyActiveChanged(b, c)
    ensures OnlyActiveChanged(a, c)
  {
  }

  /** Killing a pod removes exactly that pod from the cluster. */
  lemma KillPodRemovesPod(ns: seq<Node>, i: nat, k: nat)
    requires i < |ns| && k < |ns[i].pods|
    ensures multiset(AllPods(ns[i := KillPod(ns[i], k)])) + multiset{ns[i].pods[k]} == multiset(AllPods(ns))
  {
    var n := KillPod(ns[i], k);
    var q := ns[i].pods[k];
    AllPodsUpdate(ns, i, n);
    var after, before, mine := multiset(AllPods(ns[i := n])), multiset(AllPods(ns)), multiset(ns[i].pods);
    assert mine == multiset(n.pods) + multiset{q};
    assert (after + multiset{q}) + multiset(n.pods) == before + multiset(n.pods);
    MultisetCancel(after + multiset{q}, before, multiset(n.pods));
  }

  /** Deleting a node deletes the pods it hosts, and only those. */
  lemma {:induction false} AllPodsRemove(ns: seq<Node>, i: nat)
    requires i < |ns|
    ensures multiset(AllPods(RemoveAt(ns, i))) + multiset(ns[i].pods) == multiset(AllPods(ns))
    decreases |ns|
  {
    var k := |ns| - 1;
    var r := RemoveAt(ns, i);
    if i == k {
      assert r == ns[..k];
    } else {
      var r' := RemoveAt(ns[..k], i);
      assert r[..|r| - 1] == r';
      assert r[|r| - 1] == ns[k];
      AllPodsRemove(ns[..k], i);
      assert AllPods(r) == AllPods(r') + ns[k].pods;
      assert AllPods(ns) == AllPods(ns[..k]) + ns[k].pods;
      assert ns[..k][i] == ns[i];
    }
  }

  // ---------------------------------------------------------------------------
  // Utilization
  // ---------------------------------------------------------------------------

  function ActiveCpuTotal(ns: seq<Node>): int {
    if ns == [] then 0
    else ActiveCpuTotal(ns[..|ns| - 1]) + (if ns[|ns| - 1].status == Active then ns[|ns| - 1].cpuTotal else 0)
  }

  function ActiveCpuUsed(ns: seq<Node>): int {
    if ns == [] then 0
    else
      var n := ns[|ns| - 1];
      ActiveCpuUsed(ns[..|ns| - 1]) + (if n.status == Active then n.cpuTotal - n.cpuAvailable else 0)
  }

  /** Used over total cpu of the active nodes; 0 when they have no cpu at all. */
  function Utilization(ns: seq<Node>): real {
    var total := ActiveCpuTotal(ns);
    if total == 0 then 0.0 else ActiveCpuUsed(ns) as real / total as real
  }

  predicate ActiveWithinBounds(ns: seq<Node>) {
    forall i :: 0 <= i < |ns| && ns[i].status == Active ==> 0 <= ns[i].cpuAvailable <= ns[i].cpuTotal
  }

  lemma {:induction false} ActiveUsedWithinTotal(ns: seq<Node>)
    requires ActiveWithinBounds(ns)
    ensures 0 <= ActiveCpuUsed(ns) <= ActiveCpuTotal(ns)
  {
    if ns != [] {
      var k := |ns| - 1;
      assert forall i :: 0 <= i < k ==> ns[..k][i] == ns[i];
      ActiveUsedWithinTotal(ns[..k]);
    }
  }

  lemma FractionBounds(part: real, whole: real)
    requires 0.0 <= part <= whole && whole > 0.0
    ensures 0.0 <= part / whole <= 1.0
  {
    var q := part / whole;
    assert q * whole == part;
  }

  /** Utilization is a fraction in [0, 1] whenever no active node has more available than total or less than none. */
  lemma UtilizationIsFraction(ns: seq<Node>)
    requires ActiveWithinBounds(ns)
    ensures 0.0 <= Utilization(ns) <= 1.0
  {
    ActiveUsedWithinTotal(ns);
    var used, total := ActiveCpuUsed(ns) as real, ActiveCpuTotal(ns) as real;
    if total != 0.0 {
      FractionBounds(used, total);
    }
  }

  lemma CapacityOkBounds(ns: seq<Node>)
    requires CapacityOk(ns)
    ensures ActiveWithinBounds(ns)
  {
    forall i | 0 <= i < |ns| ensures 0 <= ns[i].cpuAvailable <= ns[i].cpuTotal { CapacityBounds(ns[i]); }
  }

  // ---------------------------------------------------------------------------
  // Failure detection
  // ---------------------------------------------------------------------------

  /** The health monitor's test: an active node whose last heartbeat is more than 15 seconds old. */
  predicate ShouldFail(n: Node, now: real) {
    n.status == Active && now - n.lastHeartbeat > HeartbeatThreshold
  }

  /** A node after the health monitor has looked at it. */
  function MarkStale(n: Node, now: real): Node {
    if ShouldFail(n, now) then n.(status := Failed) else n
  }

  /** The log entries the health monitor writes for the nodes it marks failed, in order. */
  function FailureEvents(ids: seq<NodeId>): seq<Event> {
    if ids == [] then [] else FailureEvents(ids[..|ids| - 1]) + [NodeMarkedFailed(ids[|ids| - 1])]
  }

  /** Marking nodes failed moves no pod and keeps every node in good standing. */
  lemma MarkedKeepsPodsAndCapacity(before: seq<Node>, after: seq<Node>, now: real)
    requires |after| == |before| && forall i :: 0 <= i < |before| ==> after[i] == MarkStale(before[i], now)
    ensures AllPods(after) == AllPods(before)
    ensures CapacityOk(before) ==> CapacityOk(after)
  {
    AllPodsPointwise(after, before);
    if CapacityOk(before) {
      forall i | 0 <= i < |after| ensures NodeCapacityOk(after[i]) {
        assert NodeCapacityOk(before[i]);
      }
    }
  }

  lemma FailureEventsAppend(ids: seq<NodeId>, id: NodeId)
    ensures FailureEvents(ids + [id]) == FailureEvents(ids) + [NodeMarkedFailed(id)]
  {
    assert (ids + [id])[..|ids|] == ids;
  }

  /** The ids of the nodes the health monitor marks failed at `now`, in registry order. */
  function StaleIds(ns: seq<Node>, now: real): seq<NodeId> {
    if ns == [] then []
    else
      var k := |ns| - 1;
      StaleIds(ns[..k], now) + (if ShouldFail(ns[k], now) then [ns[k].nodeId] else [])
  }

  /** The ids marked failed are exactly those of the nodes the health monitor's test condemns. */
  lemma {:induction false} StaleIdsExact(ns: seq<Node>, now: real)
    ensures var r := StaleIds(ns, now);
      forall i :: 0 <= i < |ns| && ShouldFail(ns[i], now) ==> ns[i].nodeId in r
    ensures var r := StaleIds(ns, now);
      forall k :: 0 <= k < |r| ==> exists i :: 0 <= i < |ns| && ShouldFail(ns[i], now) && ns[i].nodeId == r[k]
    decreases |ns|
  {
    if ns != [] {
      var k := |ns| - 1;
      var r := StaleIds(ns[..k], now);
      StaleIdsExact(ns[..k], now);
      assert forall i :: 0 <= i < k ==> ns[..k][i] == ns[i];
      var r' := StaleIds(ns, now);
      assert r' == r + (if ShouldFail(ns[k], now) then [ns[k].nodeId] else []);
      forall m | 0 <= m < |r'| ensures exists i :: 0 <= i < |ns| && ShouldFail(ns[i], now) && ns[i].nodeId == r'[m] {
        if m < |r| {
          var i :| 0 <= i < k && ShouldFail(ns[..k][i], now) && ns[..k][i].nodeId == r[m];
          assert ns[i] == ns[..k][i];
        } else {
          assert ShouldFail(ns[k], now) && ns[k].nodeId == r'[m];
        }
      }
      assert forall x :: x in r ==> x in r';
    }
  }

  /** With distinct ids, a node that was not active at `now` is never among those marked failed. */
  lemma StaleIdsOnlyActive(ns: seq<Node>, now: real, i: nat)
    requires DistinctIds(ns) && i < |ns| && ns[i].status != Active
    ensures ns[i].nodeId !in StaleIds(ns, now)
  {
    StaleIdsExact(ns, now);
    var r := StaleIds(ns, now);
    forall m | 0 <= m < |r| ensures r[m] != ns[i].nodeId {
      var j :| 0 <= j < |ns| && ShouldFail(ns[j], now) && ns[j].nodeId == r[m];
      assert j != i;
    }
  }

  /**
   * A health-monitor tick as a whole: marking the stale nodes failed and then
   * rescheduling each of them leaves the stale nodes failed and empty, the nodes that
   * were not active untouched, every pod hosted or returned, and good standing kept.
   */
  lemma HealthCheckEffects(ns: seq<Node>, marked: seq<Node>, after: seq<Node>, now: real, unplaced: seq<Pod>)
    requires DistinctIds(ns)
    requires |marked| == |ns| && forall i :: 0 <= i < |ns| ==> marked[i] == MarkStale(ns[i], now)
    requires Rescheduled(marked, after, StaleIds(ns, now), unplaced)
    ensures |after| == |ns|
    ensures forall i :: 0 <= i < |ns| ==> after[i].nodeId == ns[i].nodeId && after[i].status == MarkStale(ns[i], now).status
    ensures forall i :: 0 <= i < |ns| && ShouldFail(ns[i], now) ==> after[i] == ns[i].(status := Failed, pods := [])
    ensures forall i :: 0 <= i < |ns| && ns[i].status != Active ==> after[i] == ns[i]
    ensures multiset(AllPods(after)) + multiset(unplaced) == multiset(AllPods(ns))
    ensures CapacityOk(ns) ==> CapacityOk(after)
  {
    MarkedKeepsPodsAndCapacity(ns, marked, now);
    StaleIdsExact(ns, now);
    forall i | 0 <= i < |ns| && ns[i].status != Active ensures after[i] == ns[i] {
      StaleIdsOnlyActive(ns, now, i);
    }
  }

  // ---------------------------------------------------------------------------
  // Auto-scaling
  // ---------------------------------------------------------------------------

  /** The auto-scaler fires when utilization is at least 80% and the 60-second cooldown has passed. */
  predicate ShouldScale(utilization: real, now: real, lastScale: real) {
    utilization >= AutoScaleThreshold && now - lastScale >= AutoScaleCooldown
  }

  /**
   * The times at which a run of auto-scale ticks adds a node, each tick given as
   * (utilization, now), starting from the last scale time `lastScale`.
   */
  function ScaleTimes(ticks: seq<(real, real)>, lastScale: real): seq<real> {
    if ticks == [] then []
    else if ShouldScale(ticks[0].0, ticks[0].1, lastScale) then [ticks[0].1] + ScaleTimes(ticks[1..], ticks[0].1)
    else ScaleTimes(ticks[1..], lastScale)
  }

  /** However long utilization stays high, two node additions are at least one cooldown apart. */
  lemma {:induction false} ScaleTimesSpaced(ticks: seq<(real, real)>, lastScale: real)
    ensures var r := ScaleTimes(ticks, lastScale);
      (|r| > 0 ==> r[0] - lastScale >= AutoScaleCooldown) &&
      forall k :: 0 < k < |r| ==> r[k] - r[k - 1] >= AutoScaleCooldown
  {
    if ticks != [] {
      if ShouldScale(ticks[0].0, ticks[0].1, lastScale) {
        ScaleTimesSpaced(ticks[1..], ticks[0].1);
        var rest := ScaleTimes(ticks[1..], ticks[0].1);
        assert ScaleTimes(ticks, lastScale) == [ticks[0].1] + rest;
      } else {
        ScaleTimesSpaced(ticks[1..], lastScale);
      }
    }
  }

  // ---------------------------------------------------------------------------
  // The bounded in-memory logs
  // ---------------------------------------------------------------------------

  /** The most recent `LogCapacity` entries of a full history. */
  function Recent<T>(history: seq<T>): (r: seq<T>)
    ensures |r| <= LogCapacity
  {
    if |history| <= LogCapacity then history else history[|history| - LogCapacity..]
  }

  /**
   * Appending to the last 50 entries and then popping the oldest one when there are
   * more than 50 gives the last 50 entries of the extended history.
   */
  lemma RecentAppend<T>(history: seq<T>, x: T)
    ensures var l := Recent(history) + [x];
      (if |l| > LogCapacity then l[1..] else l) == Recent(history + [x])
  {
    var h := history + [x];
    if |history| >= LogCapacity {
      assert (history[|history| - LogCapacity..] + [x])[1..] == h[|h| - LogCapacity..];
    }
  }
}
