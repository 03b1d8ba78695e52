/** `NodeNodeInfoProvider`: answers questions about the cluster's nodes from
    the node server list, always checking the node's own id first. */
module NodeInfoProvider {

  import opened Wrappers
  import opened Cluster

  /** `getNodes`: the info of every node server, in list order. */
  function GetNodes(cluster: ClusterView): (r: seq<NodeInfo>)
    ensures |r| == |cluster.nodeServers|
    ensures forall i :: 0 <= i < |r| ==> r[i] == cluster.nodeServers[i].info
  {
    seq(|cluster.nodeServers|, i requires 0 <= i < |cluster.nodeServers| => cluster.nodeServers[i].info)
  }

  /** The first node server with the given id (a `findFirst` over the list). */
  function FindNodeServer(servers: seq<NodeServer>, uniqueId: string): (r: Option<NodeServer>)
    ensures r.None? <==> forall i :: 0 <= i < |servers| ==> servers[i].Id() != uniqueId
    ensures r.Some? ==> r.value.Id() == uniqueId
    ensures r.Some? ==>
      (exists i :: 0 <= i < |servers| && servers[i] == r.value
         && forall j :: 0 <= j < i ==> servers[j].Id() != uniqueId)
  {
    if |servers| == 0 then None
    else if servers[0].Id() == uniqueId then Some(servers[0])
    else
      var r := FindNodeServer(servers[1..], uniqueId);
      assert forall i :: 0 < i < |servers| ==> servers[i] == servers[1..][i - 1];
      r
  }

  /** `getNode`: the own node's info for the own id, otherwise the info of
      the first node server with that id, or null (`None`). */
  function GetNode(cluster: ClusterView, uniqueId: string): (r: Option<NodeInfo>)
    ensures uniqueId == cluster.selfNode.Id() ==> r == Some(cluster.selfNode.info)
    ensures r.Some? ==> r.value.uniqueId == uniqueId
  {
    if uniqueId == cluster.selfNode.Id() then Some(cluster.selfNode.info)
    else match FindNodeServer(cluster.nodeServers, uniqueId)
      case None => None
      case Some(server) => Some(server.info)
  }

  /** For the own id the node server list is never consulted. */
  lemma GetSelfNodeIgnoresServers(cluster: ClusterView, others: seq<NodeServer>)
    ensures GetNode(cluster.(nodeServers := others), cluster.selfNode.Id()) == Some(cluster.selfNode.info)
  {
  }

  /** For any other id, `getNode` answers with the first entry of `getNodes`
      carrying that id, and null when `getNodes` has none. */
  lemma GetNodeAgreesWithGetNodes(cluster: ClusterView, uniqueId: string)
    requires uniqueId != cluster.selfNode.Id()
    ensures var nodes := GetNodes(cluster);
      (GetNode(cluster, uniqueId).None? <==> forall i :: 0 <= i < |nodes| ==> nodes[i].uniqueId != uniqueId)
      && (GetNode(cluster, uniqueId).Some? ==>
            exists i :: 0 <= i < |nodes| && nodes[i] == GetNode(cluster, uniqueId).value
              && forall j :: 0 <= j < i ==> nodes[j].uniqueId != uniqueId)
  {
    var nodes := GetNodes(cluster);
    var found := FindNodeServer(cluster.nodeServers, uniqueId);
    if found.Some? {
      var i :| 0 <= i < |cluster.nodeServers| && cluster.nodeServers[i] == found.value
        && forall j :: 0 <= j < i ==> cluster.nodeServers[j].Id() != uniqueId;
      assert nodes[i] == found.value.info;
    }
  }

  /** `getNodeInfoSnapshots`: the snapshots of the node servers, null ones
      dropped, list order kept. */
  function Snapshots(servers: seq<NodeServer>): (r: seq<NodeInfoSnapshot>)
    ensures |r| <= |servers|
    ensures forall x :: x in r <==> exists i :: 0 <= i < |servers| && servers[i].snapshot == Some(x)
  {
    if |servers| == 0 then []
    else
      var rest := Snapshots(servers[1..]);
      assert forall i :: 0 < i < |servers| ==> servers[i] == servers[1..][i - 1];
      (if servers[0].snapshot.Some? then [servers[0].snapshot.value] else []) + rest
  }

  function GetNodeInfoSnapshots(cluster: ClusterView): seq<NodeInfoSnapshot> {
    Snapshots(cluster.nodeServers)
  }

  /** Dropping nulls keeps the relative order: it distributes over
      concatenation of node server lists. */
  lemma {:induction false} SnapshotsAppend(a: seq<NodeServer>, b: seq<NodeServer>)
    ensures Snapshots(a + b) == Snapshots(a) + Snapshots(b)
    decreases |a|
  {
    if |a| > 0 {
      assert (a + b)[1..] == a[1..] + b;
      SnapshotsAppend(a[1..], b);
    } else {
      assert a + b == b;
    }
  }

  /** When no snapshot is null nothing is dropped and the order is exactly
      that of the node servers. */
  lemma {:induction false} SnapshotsAllReported(servers: seq<NodeServer>)
    requires forall i :: 0 <= i < |servers| ==> servers[i].snapshot.Some?
    ensures |Snapshots(servers)| == |servers|
    ensures forall i :: 0 <= i < |servers| ==> Snapshots(servers)[i] == servers[i].snapshot.value
    decreases |servers|
  {
    if |servers| > 0 {
      SnapshotsAllReported(servers[1..]);
    }
  }

  /** The first non-null snapshot among the node servers with the given id. */
  function FirstSnapshot(servers: seq<NodeServer>, uniqueId: string): (r: Option<NodeInfoSnapshot>)
    ensures r.None? <==> forall i :: 0 <= i < |servers| && servers[i].Id() == uniqueId ==> servers[i].snapshot.None?
    ensures r.Some? ==>
      (exists i :: 0 <= i < |servers| && servers[i].Id() == uniqueId && servers[i].snapshot == r
         && forall j :: 0 <= j < i ==> servers[j].Id() != uniqueId || servers[j].snapshot.None?)
  {
    if |servers| == 0 then None
    else if servers[0].Id() == uniqueId && servers[0].snapshot.Some? then servers[0].snapshot
    else
      var r := FirstSnapshot(servers[1..], uniqueId);
      assert forall i :: 0 < i < |servers| ==> servers[i] == servers[1..][i - 1];
      r
  }

  /** `getNodeInfoSnapshot`: the own snapshot (possibly null) for the own id,
      otherwise the first non-null snapshot of a node server with that id. */
  function GetNodeInfoSnapshot(cluster: ClusterView, uniqueId: string): (r: Option<NodeInfoSnapshot>)
    ensures uniqueId == cluster.selfNode.Id() ==> r == cluster.selfNode.snapshot
    ensures uniqueId != cluster.selfNode.Id() && r.Some? ==> r.value in GetNodeInfoSnapshots(cluster)
  {
    if uniqueId == cluster.selfNode.Id() then cluster.selfNode.snapshot
    else FirstSnapshot(cluster.nodeServers, uniqueId)
  }

  /** The outcome of `sendCommandLine(nodeId, commandLine)`. */
  datatype CommandResult =
    | Lines(lines: seq<string>)                               // executed here
    | Delegated(server: NodeServer, commandLine: string)      // the remote node's answer
    | NoResult                                                // null

  /** `sendCommandLine(commandLine)`: console commands are not wired up, so
      the answer is always an empty array. */
  function SendLocalCommandLine(commandLine: string): (r: CommandResult)
    ensures r.Lines? && |r.lines| == 0
  {
    Lines([])
  }

  /** `sendCommandLine(nodeId, commandLine)`. */
  function SendCommandLine(cluster: ClusterView, nodeId: string, commandLine: string): (r: CommandResult)
    ensures nodeId == cluster.selfNode.Id() ==> r == Lines([])
    ensures r.Delegated? <==>
      (nodeId != cluster.selfNode.Id()
       && (exists i :: 0 <= i < |cluster.nodeServers| && cluster.nodeServers[i].Id() == nodeId)
       && FindNodeServer(cluster.nodeServers, nodeId).value.connected)
    ensures r.Delegated? ==>
      (r.server.Id() == nodeId && r.server.connected
       && r.server in cluster.nodeServers && r.commandLine == commandLine)
    ensures r == NoResult <==>
      (nodeId != cluster.selfNode.Id()
       && (FindNodeServer(cluster.nodeServers, nodeId).None? || !FindNodeServer(cluster.nodeServers, nodeId).value.connected))
  {
    if nodeId == cluster.selfNode.Id() then SendLocalCommandLine(commandLine)
    else match FindNodeServer(cluster.nodeServers, nodeId)
      case Some(server) =>
        if server.connected then Delegated(server, commandLine) else NoResult
      case None => NoResult
  }
}
