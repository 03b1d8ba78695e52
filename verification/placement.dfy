/** `NodeCloudServiceFactory.peekLogicNodeServer`: the head node's choice of
    the node server that should host a new service.

    The available node servers are reduced with `Stream.min`, i.e. a left
    fold that keeps the current candidate unless the comparator says the
    next one is strictly smaller. The comparator starts a `ComparisonChain`
    on projected memory and, when both nodes report a CPU value, calls
    `compare` on the CPU usages as well. A `ComparisonChain` is immutable,
    though, and the chain that second call returns is never used: the
    result is the memory comparison alone. `MemoryOnly` is that comparator
    as written, and the one the service factory runs. `MemoryThenCpu` is
    the CPU tie-break the code evidently means, kept to state what it would
    promise. */
module Placement {

  import opened Wrappers
  import opened Cluster
  import opened Comparison

  /** Which comparator the fold runs. */
  datatype Ordering = MemoryOnly | MemoryThenCpu

  /** Memory the node would use once the new service's heap is added. */
  function Projected(s: NodeInfoSnapshot, maxHeap: int): int {
    s.usedMemory + maxHeap
  }

  predicate CpuKnown(s: NodeInfoSnapshot) {
    s.systemCpuUsage >= 0.0
  }

  /** The comparator. The contract fixes the sign completely, in terms of
      used memory alone (the added heap cancels out) and, for the intended
      comparator, of the CPU usages when both are known. */
  function CompareSnapshots(ord: Ordering, left: NodeInfoSnapshot, right: NodeInfoSnapshot, maxHeap: int): (c: int)
    ensures c == -1 || c == 0 || c == 1
    ensures c < 0 <==>
      left.usedMemory < right.usedMemory
      || (ord.MemoryThenCpu? && left.usedMemory == right.usedMemory && CpuKnown(left) && CpuKnown(right)
          && left.systemCpuUsage < right.systemCpuUsage)
    ensures c == 0 <==>
      left.usedMemory == right.usedMemory
      && (ord.MemoryOnly? || !CpuKnown(left) || !CpuKnown(right) || left.systemCpuUsage == right.systemCpuUsage)
  {
    var chain := CompareInt(Projected(left, maxHeap), Projected(right, maxHeap));
    assert chain == 0 <==> left.usedMemory == right.usedMemory;
    assert chain < 0 <==> left.usedMemory < right.usedMemory;
    if ord.MemoryThenCpu? && chain == 0 && CpuKnown(left) && CpuKnown(right) then
      CompareReal(left.systemCpuUsage, right.systemCpuUsage)
    else chain
  }

  /** The comparator applied to two node servers: reading the snapshot of a
      node that has none throws a `NullPointerException`. */
  function CompareServers(ord: Ordering, left: NodeServer, right: NodeServer, maxHeap: int): (r: Result<int, Fault>)
    ensures r.Failure? <==> left.snapshot.None? || right.snapshot.None?
    ensures r.Failure? ==> r.error.NullPointer?
    ensures r.Success? ==> r.value == CompareSnapshots(ord, left.snapshot.value, right.snapshot.value, maxHeap)
  {
    if left.snapshot.None? || right.snapshot.None? then Failure(NullPointer("node info snapshot"))
    else Success(CompareSnapshots(ord, left.snapshot.value, right.snapshot.value, maxHeap))
  }

  /** `Stream.filter(IClusterNodeServer::isAvailable)`, order preserved. */
  function Available(servers: seq<NodeServer>): (r: seq<NodeServer>)
    ensures forall x :: x in r <==> x in servers && x.available
    ensures |r| <= |servers|
  {
    if |servers| == 0 then []
    else (if servers[0].available then [servers[0]] else []) + Available(servers[1..])
  }

  /** Filtering distributes over concatenation: it keeps the order. */
  lemma {:induction false} AvailableAppend(a: seq<NodeServer>, b: seq<NodeServer>)
    ensures Available(a + b) == Available(a) + Available(b)
    decreases |a|
  {
    if |a| == 0 {
      assert a + b == b;
    } else {
      assert (a + b)[0] == a[0];
      assert (a + b)[1..] == a[1..] + b;
      AvailableAppend(a[1..], b);
    }
  }

  /** `BinaryOperator.minBy` folded from the left: the candidate `acc` is
      kept unless the comparator ranks the next node strictly below it. */
  function MinBy(ord: Ordering, acc: NodeServer, rest: seq<NodeServer>, maxHeap: int): (r: Result<NodeServer, Fault>)
    ensures r.Success? ==> r.value == acc || r.value in rest
    decreases |rest|
  {
    if |rest| == 0 then Success(acc)
    else match CompareServers(ord, acc, rest[0], maxHeap)
      case Failure(e) => Failure(e)
      case Success(c) => MinBy(ord, if c <= 0 then acc else rest[0], rest[1..], maxHeap)
  }

  /** `peekLogicNodeServer`: null (`None`) when no node server is available,
      otherwise the fold's result; never an unavailable node. */
  function PeekLogicNodeServer(ord: Ordering, servers: seq<NodeServer>, maxHeap: int): (r: Result<Option<NodeServer>, Fault>)
    ensures r.Success? && r.value.Some? ==> r.value.value in servers && r.value.value.available
    ensures r == Success(None) <==> forall x :: x in servers ==> !x.available
  {
    var candidates := Available(servers);
    if |candidates| == 0 then Success(None)
    else match MinBy(ord, candidates[0], candidates[1..], maxHeap)
      case Failure(e) => Failure(e)
      case Success(n) => assert n in candidates; Success(Some(n))
  }

  /** Every available node carries a snapshot. */
  predicate Reported(servers: seq<NodeServer>) {
    forall x :: x in servers && x.available ==> x.snapshot.Some?
  }

  function UsedMemory(n: NodeServer): int
    requires n.snapshot.Some?
  {
    n.snapshot.value.usedMemory
  }

  /** The comparator only throws when it is called, i.e. when at least two
      node servers are available, and then exactly when one of them has no
      snapshot yet. */
  lemma {:induction false} MinByFaults(ord: Ordering, acc: NodeServer, rest: seq<NodeServer>, maxHeap: int)
    ensures MinBy(ord, acc, rest, maxHeap).Failure? <==>
      |rest| > 0 && (acc.snapshot.None? || exists x :: x in rest && x.snapshot.None?)
    decreases |rest|
  {
    if |rest| > 0 && acc.snapshot.Some? && rest[0].snapshot.Some? {
      var c := CompareSnapshots(ord, acc.snapshot.value, rest[0].snapshot.value, maxHeap);
      var next := if c <= 0 then acc else rest[0];
      MinByFaults(ord, next, rest[1..], maxHeap);
      assert forall x :: x in rest <==> x == rest[0] || x in rest[1..];
    }
  }

  lemma PeekFaultsExactly(ord: Ordering, servers: seq<NodeServer>, maxHeap: int)
    ensures PeekLogicNodeServer(ord, servers, maxHeap).Failure? <==>
      |Available(servers)| >= 2 && exists x :: x in servers && x.available && x.snapshot.None?
  {
    var candidates := Available(servers);
    if |candidates| > 0 {
      MinByFaults(ord, candidates[0], candidates[1..], maxHeap);
      assert forall x :: x in candidates <==> x == candidates[0] || x in candidates[1..];
    }
  }

  lemma {:induction false} MinByMemoryMinimal(ord: Ordering, acc: NodeServer, rest: seq<NodeServer>, maxHeap: int)
    requires acc.snapshot.Some?
    requires forall x :: x in rest ==> x.snapshot.Some?
    ensures MinBy(ord, acc, rest, maxHeap).Success?
    ensures UsedMemory(MinBy(ord, acc, rest, maxHeap).value) <= UsedMemory(acc)
    ensures forall x :: x in rest ==> UsedMemory(MinBy(ord, acc, rest, maxHeap).value) <= UsedMemory(x)
    decreases |rest|
  {
    if |rest| > 0 {
      var c := CompareSnapshots(ord, acc.snapshot.value, rest[0].snapshot.value, maxHeap);
      var next := if c <= 0 then acc else rest[0];
      MinByMemoryMinimal(ord, next, rest[1..], maxHeap);
      assert forall x :: x in rest <==> x == rest[0] || x in rest[1..];
    }
  }

  /** With either comparator and whatever the CPU readings, the chosen node
      has the least projected memory among all available node servers. */
  lemma PeekMemoryMinimal(ord: Ordering, servers: seq<NodeServer>, maxHeap: int)
    requires Reported(servers)
    ensures PeekLogicNodeServer(ord, servers, maxHeap).Success?
    ensures var r := PeekLogicNodeServer(ord, servers, maxHeap).value;
      r.Some? ==> forall x :: x in servers && x.available ==>
        Projected(r.value.snapshot.value, maxHeap) <= Projected(x.snapshot.value, maxHeap)
  {
    var candidates := Available(servers);
    if |candidates| > 0 {
      MinByMemoryMinimal(ord, candidates[0], candidates[1..], maxHeap);
      assert forall x :: x in candidates <==> x == candidates[0] || x in candidates[1..];
    }
  }

  /** An available node whose used memory is strictly below that of every
      other available node is always chosen, by either comparator. */
  lemma PeekStrictMinimum(ord: Ordering, servers: seq<NodeServer>, maxHeap: int, k: nat)
    requires Reported(servers)
    requires k < |servers| && servers[k].available
    requires forall j :: 0 <= j < |servers| && j != k && servers[j].available ==>
      UsedMemory(servers[k]) < UsedMemory(servers[j])
    ensures PeekLogicNodeServer(ord, servers, maxHeap) == Success(Some(servers[k]))
  {
    PeekMemoryMinimal(ord, servers, maxHeap);
    var r := PeekLogicNodeServer(ord, servers, maxHeap).value;
    assert servers[k] in servers;
    var j :| 0 <= j < |servers| && servers[j] == r.value;
    assert UsedMemory(servers[j]) <= UsedMemory(servers[k]);
  }

  /** Adding the same heap size to both sides never changes a comparison,
      so the choice does not depend on the service's heap size. */
  lemma {:induction false} MinByIgnoresMaxHeap(ord: Ordering, acc: NodeServer, rest: seq<NodeServer>, h1: int, h2: int)
    ensures MinBy(ord, acc, rest, h1) == MinBy(ord, acc, rest, h2)
    decreases |rest|
  {
    if |rest| > 0 && acc.snapshot.Some? && rest[0].snapshot.Some? {
      var c1 := CompareSnapshots(ord, acc.snapshot.value, rest[0].snapshot.value, h1);
      var c2 := CompareSnapshots(ord, acc.snapshot.value, rest[0].snapshot.value, h2);
      assert c1 == c2;
      MinByIgnoresMaxHeap(ord, if c1 <= 0 then acc else rest[0], rest[1..], h1, h2);
    }
  }

  lemma PeekIgnoresMaxHeap(ord: Ordering, servers: seq<NodeServer>, h1: int, h2: int)
    ensures PeekLogicNodeServer(ord, servers, h1) == PeekLogicNodeServer(ord, servers, h2)
  {
    var candidates := Available(servers);
    if |candidates| > 0 {
      MinByIgnoresMaxHeap(ord, candidates[0], candidates[1..], h1, h2);
    }
  }

  /** A candidate with the least used memory survives the fold: always
      under the comparator as written, and under the CPU tie-break when its
      own CPU reading is unknown. */
  lemma {:induction false} MinByKeepsLeastHead(ord: Ordering, acc: NodeServer, rest: seq<NodeServer>, maxHeap: int)
    requires acc.snapshot.Some? && (ord.MemoryOnly? || !CpuKnown(acc.snapshot.value))
    requires forall x :: x in rest ==> x.snapshot.Some? && UsedMemory(acc) <= UsedMemory(x)
    ensures MinBy(ord, acc, rest, maxHeap) == Success(acc)
    decreases |rest|
  {
    if |rest| > 0 {
      assert rest[0] in rest;
      MinByKeepsLeastHead(ord, acc, rest[1..], maxHeap);
    }
  }

  /** When the first available node has the least used memory it is
      chosen: by the comparator as written whatever the CPU readings, and
      by the CPU tie-break when it cannot report its CPU, even over a later
      tied node with an idle CPU. */
  lemma PeekKeepsFirstLeast(ord: Ordering, servers: seq<NodeServer>, maxHeap: int)
    requires Reported(servers)
    requires |Available(servers)| > 0
    requires ord.MemoryOnly? || !CpuKnown(Available(servers)[0].snapshot.value)
    requires forall x :: x in servers && x.available ==>
      UsedMemory(Available(servers)[0]) <= UsedMemory(x)
    ensures PeekLogicNodeServer(ord, servers, maxHeap) == Success(Some(Available(servers)[0]))
  {
    var candidates := Available(servers);
    assert candidates[0] in candidates;
    assert forall x :: x in candidates[1..] ==> x in candidates;
    MinByKeepsLeastHead(ord, candidates[0], candidates[1..], maxHeap);
  }

  /** Under the comparator as written, a fold that meets a node `s` with
      less memory than everything before it, and no more than everything
      after it, ends with `s`. */
  lemma {:induction false} MinByReaches(acc: NodeServer, before: seq<NodeServer>, s: NodeServer,
                                        after: seq<NodeServer>, maxHeap: int)
    requires acc.snapshot.Some? && s.snapshot.Some?
    requires UsedMemory(s) < UsedMemory(acc)
    requires forall x :: x in before ==> x.snapshot.Some? && UsedMemory(s) < UsedMemory(x)
    requires forall x :: x in after ==> x.snapshot.Some? && UsedMemory(s) <= UsedMemory(x)
    ensures MinBy(MemoryOnly, acc, before + [s] + after, maxHeap) == Success(s)
    decreases |before|
  {
    var rest := before + [s] + after;
    if |before| == 0 {
      assert rest[0] == s && rest[1..] == after;
      MinByKeepsLeastHead(MemoryOnly, s, after, maxHeap);
    } else {
      assert rest[0] == before[0] && rest[1..] == before[1..] + [s] + after;
      assert before[0] in before;
      var c := CompareSnapshots(MemoryOnly, acc.snapshot.value, before[0].snapshot.value, maxHeap);
      var next := if c <= 0 then acc else before[0];
      assert forall x :: x in before[1..] ==> x in before;
      MinByReaches(next, before[1..], s, after, maxHeap);
    }
  }

  /** `servers[k]` is the first available node server with the least used
      memory. */
  predicate FirstLeast(servers: seq<NodeServer>, k: nat)
    requires Reported(servers)
  {
    && k < |servers| && servers[k].available
    && (forall j :: 0 <= j < |servers| && servers[j].available ==> UsedMemory(servers[k]) <= UsedMemory(servers[j]))
    && (forall j :: 0 <= j < k && servers[j].available ==> UsedMemory(servers[k]) < UsedMemory(servers[j]))
  }

  /** Filtering around position `k` of an available node. */
  lemma AvailableAround(servers: seq<NodeServer>, k: nat)
    requires k < |servers| && servers[k].available
    ensures Available(servers) == Available(servers[..k]) + [servers[k]] + Available(servers[k + 1..])
  {
    assert servers == servers[..k] + servers[k..];
    AvailableAppend(servers[..k], servers[k..]);
    AvailableAt(servers, k);
  }

  lemma AvailableAt(servers: seq<NodeServer>, k: nat)
    requires k < |servers| && servers[k].available
    ensures Available(servers[k..]) == [servers[k]] + Available(servers[k + 1..])
  {
    assert servers[k..][0] == servers[k];
    assert servers[k..][1..] == servers[k + 1..];
  }

  /** Every available node before the first least one uses strictly more
      memory, and every one after it at least as much. */
  lemma FirstLeastBounds(servers: seq<NodeServer>, k: nat)
    requires Reported(servers) && FirstLeast(servers, k)
    ensures forall x :: x in Available(servers[..k]) ==> x.snapshot.Some? && UsedMemory(servers[k]) < UsedMemory(x)
    ensures forall x :: x in Available(servers[k + 1..]) ==> x.snapshot.Some? && UsedMemory(servers[k]) <= UsedMemory(x)
  {
    forall x | x in Available(servers[..k])
      ensures x.snapshot.Some? && UsedMemory(servers[k]) < UsedMemory(x)
    {
      var j :| 0 <= j < k && servers[..k][j] == x;
      assert servers[j] == x;
    }
    forall x | x in Available(servers[k + 1..])
      ensures x.snapshot.Some? && UsedMemory(servers[k]) <= UsedMemory(x)
    {
      var j :| 0 <= j < |servers| - k - 1 && servers[k + 1..][j] == x;
      assert servers[k + 1 + j] == x;
    }
  }

  /** What the code as written chooses: the first available node server
      with the least used memory, whatever the CPU readings. */
  lemma PeekFirstLeastMemory(servers: seq<NodeServer>, maxHeap: int, k: nat)
    requires Reported(servers) && FirstLeast(servers, k)
    ensures PeekLogicNodeServer(MemoryOnly, servers, maxHeap) == Success(Some(servers[k]))
  {
    var s := servers[k];
    var a1, a2 := Available(servers[..k]), Available(servers[k + 1..]);
    AvailableAround(servers, k);
    FirstLeastBounds(servers, k);
    var candidates := Available(servers);
    if |a1| == 0 {
      assert candidates[0] == s && candidates[1..] == a2;
      MinByKeepsLeastHead(MemoryOnly, s, a2, maxHeap);
    } else {
      assert candidates[0] == a1[0] && candidates[1..] == a1[1..] + [s] + a2;
      assert a1[0] in a1;
      assert forall x :: x in a1[1..] ==> x in a1;
      MinByReaches(a1[0], a1[1..], s, a2, maxHeap);
    }
  }

  /** Three node servers: A with more memory in use, then B and C tied on
      memory, C with the idler CPU. */
  function TieExample(): seq<NodeServer> {
    [ NodeServer(NodeInfo("A"), Some(NodeInfoSnapshot(1000, 50.0)), true, true),
      NodeServer(NodeInfo("B"), Some(NodeInfoSnapshot(500, 90.0)), true, true),
      NodeServer(NodeInfo("C"), Some(NodeInfoSnapshot(500, 10.0)), true, true) ]
  }

  lemma TieExampleAvailable()
    ensures Available(TieExample()) == TieExample()
  {
    var t := TieExample();
    AvailableAt(t, 0);
    AvailableAt(t, 1);
    AvailableAt(t, 2);
    assert t[3..] == [] && t[0..] == t;
  }

  /** The discarded CPU comparison: on a memory tie the code as written
      keeps the earlier node B, although C reports the lower CPU usage. */
  lemma CpuTieDiscarded()
    ensures PeekLogicNodeServer(MemoryOnly, TieExample(), 0) == Success(Some(TieExample()[1]))
  {
    var t := TieExample();
    TieExampleAvailable();
    assert t[1..] == [t[1], t[2]] && [t[1], t[2]][1..] == [t[2]] && [t[2]][1..] == [];
  }

  /** The intended CPU tie-break chooses C on the same input. */
  lemma CpuTieBroken()
    ensures PeekLogicNodeServer(MemoryThenCpu, TieExample(), 0) == Success(Some(TieExample()[2]))
  {
    var t := TieExample();
    TieExampleAvailable();
    assert t[1..] == [t[1], t[2]] && [t[1], t[2]][1..] == [t[2]] && [t[2]][1..] == [];
  }

  /** Order "at most" of the comparator. */
  predicate AtMost(ord: Ordering, a: NodeServer, b: NodeServer, maxHeap: int)
    requires a.snapshot.Some? && b.snapshot.Some?
  {
    CompareSnapshots(ord, a.snapshot.value, b.snapshot.value, maxHeap) <= 0
  }

  predicate AllCpuKnown(servers: seq<NodeServer>) {
    forall x :: x in servers && x.available ==> x.snapshot.Some? && CpuKnown(x.snapshot.value)
  }

  /** With every CPU reading known the intended comparator is the
      lexicographic order on (used memory, CPU usage), hence transitive and
      total. */
  lemma AtMostTransitiveTotal(a: NodeServer, b: NodeServer, c: NodeServer, maxHeap: int)
    requires a.snapshot.Some? && CpuKnown(a.snapshot.value)
    requires b.snapshot.Some? && CpuKnown(b.snapshot.value)
    requires c.snapshot.Some? && CpuKnown(c.snapshot.value)
    ensures AtMost(MemoryThenCpu, a, b, maxHeap) && AtMost(MemoryThenCpu, b, c, maxHeap) ==> AtMost(MemoryThenCpu, a, c, maxHeap)
    ensures AtMost(MemoryThenCpu, a, b, maxHeap) || AtMost(MemoryThenCpu, b, a, maxHeap)
  {
  }

  lemma {:induction false} MinByLeast(acc: NodeServer, rest: seq<NodeServer>, maxHeap: int)
    requires acc.snapshot.Some? && CpuKnown(acc.snapshot.value)
    requires forall x :: x in rest ==> x.snapshot.Some? && CpuKnown(x.snapshot.value)
    ensures MinBy(MemoryThenCpu, acc, rest, maxHeap).Success?
    ensures AtMost(MemoryThenCpu, MinBy(MemoryThenCpu, acc, rest, maxHeap).value, acc, maxHeap)
    ensures forall x :: x in rest ==> AtMost(MemoryThenCpu, MinBy(MemoryThenCpu, acc, rest, maxHeap).value, x, maxHeap)
    decreases |rest|
  {
    if |rest| > 0 {
      var next := if AtMost(MemoryThenCpu, acc, rest[0], maxHeap) then acc else rest[0];
      MinByLeast(next, rest[1..], maxHeap);
      var m := MinBy(MemoryThenCpu, acc, rest, maxHeap).value;
      assert m == MinBy(MemoryThenCpu, next, rest[1..], maxHeap).value;
      AtMostTransitiveTotal(m, next, acc, maxHeap);
      AtMostTransitiveTotal(m, next, rest[0], maxHeap);
      assert forall x :: x in rest <==> x == rest[0] || x in rest[1..];
    }
  }

  /** With the intended CPU tie-break and every available node reporting
      its CPU usage, the comparator is a total order and the fold finds a
      true minimum: no available node has less memory, or equal memory and
      a lower CPU usage. */
  lemma PeekLeastWhenCpuKnown(servers: seq<NodeServer>, maxHeap: int)
    requires AllCpuKnown(servers)
    ensures PeekLogicNodeServer(MemoryThenCpu, servers, maxHeap).Success?
    ensures var r := PeekLogicNodeServer(MemoryThenCpu, servers, maxHeap).value;
      r.Some? ==> forall x :: x in servers && x.available ==> AtMost(MemoryThenCpu, r.value, x, maxHeap)
  {
    var candidates := Available(servers);
    if |candidates| > 0 {
      assert candidates[0] in candidates;
      assert forall x :: x in candidates[1..] ==> x in candidates;
      MinByLeast(candidates[0], candidates[1..], maxHeap);
      assert forall x :: x in candidates <==> x == candidates[0] || x in candidates[1..];
    }
  }
}
