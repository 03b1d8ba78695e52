/** The cluster as one node sees it: its own node server, the current head
    node, and the list of known node servers, each with its latest resource
    snapshot. */
module Cluster {

  import opened Wrappers

  /** A cluster participant's static description (`NetworkClusterNode`). */
  datatype NodeInfo = NodeInfo(uniqueId: string)

  /** A node's latest resource reading (`NetworkClusterNodeInfoSnapshot`).
      A negative CPU reading means the platform cannot report one. */
  datatype NodeInfoSnapshot = NodeInfoSnapshot(usedMemory: int, systemCpuUsage: real)

  /** A node server (`IClusterNodeServer`): its info, its snapshot (null until
      the first one arrives), whether it may receive services, and whether
      its network channel is up. */
  datatype NodeServer = NodeServer(
    info: NodeInfo,
    snapshot: Option<NodeInfoSnapshot>,
    available: bool,
    connected: bool)
  {
    function Id(): string { info.uniqueId }
  }

  /** What `IClusterNodeServerProvider` offers. */
  datatype ClusterView = ClusterView(
    selfNode: NodeServer,
    headNode: NodeServer,
    nodeServers: seq<NodeServer>)
  {
    /** `getHeadNode() == getSelfNode()`, compared by node id. */
    predicate SelfIsHead() {
      headNode.Id() == selfNode.Id()
    }
  }
}
