/** `NodeCloudServiceFactory.createCloudService`: where a request to create a
    cloud service is carried out.

    Only the head node decides placement. A head either queries the chosen
    node server to start the service or, when no node server is available,
    starts it with the local service manager; any other node forwards the
    whole request to the head. The 5-second query itself is not modelled:
    its outcome enters as an optional reply, absent on timeout. */
module ServiceFactory {

  import opened Wrappers
  import opened Cluster
  import opened Messaging
  import Placement

  const HeadToNodeChannel := "head_node_to_node_start_service"
  const NodeToHeadChannel := "node_to_head_start_service"

  /** The part of a `ServiceConfiguration` this model needs; everything else
      travels unchanged inside the request. */
  datatype ServiceConfiguration = ServiceConfiguration(taskName: string, maxHeapMemorySize: int)

  /** The result of a successful start (`ServiceInfoSnapshot`), opaque here. */
  datatype ServiceInfoSnapshot = ServiceInfoSnapshot(serviceName: string, nodeUniqueId: string)

  /** A start query as built by `sendNodeServerStartRequest`: a channel, its
      addressees, and the configuration written into its buffer. */
  datatype StartRequest = StartRequest(channel: string, targets: seq<Target>, configuration: ServiceConfiguration)

  /** The decision `createCloudService` takes before anything is sent. */
  datatype Route = StartLocally | SendQuery(request: StartRequest)

  /** The query of `sendNodeServerStartRequest`. */
  function StartRequestFor(channel: string, targetNode: string, configuration: ServiceConfiguration): StartRequest {
    StartRequest(channel, [Target(Node, targetNode)], configuration)
  }

  /** A query that goes to exactly one node, the one named. */
  predicate AddressedTo(request: StartRequest, nodeId: string) {
    |request.targets| == 1 && request.targets[0] == Target(Node, nodeId)
  }

  /** `createCloudService` up to the point where the query is sent or the
      local service manager is called. A failure is the exception the
      placement comparator throws. */
  function CreateCloudService(cluster: ClusterView, configuration: ServiceConfiguration): (r: Result<Route, Fault>)
    ensures !cluster.SelfIsHead() ==>
      r.Success? && r.value.SendQuery?
      && r.value.request.channel == NodeToHeadChannel
      && AddressedTo(r.value.request, cluster.headNode.Id())
      && r.value.request.configuration == configuration
    ensures r == Success(StartLocally) <==>
      cluster.SelfIsHead() && forall x :: x in cluster.nodeServers ==> !x.available
    ensures r.Success? && r.value.SendQuery? && cluster.SelfIsHead() ==>
      r.value.request.channel == HeadToNodeChannel
      && r.value.request.configuration == configuration
      && exists x :: x in cluster.nodeServers && x.available && AddressedTo(r.value.request, x.Id())
    ensures var peek := Placement.PeekLogicNodeServer(Placement.MemoryOnly, cluster.nodeServers, configuration.maxHeapMemorySize);
      cluster.SelfIsHead() && r.Success? && r.value.SendQuery? ==>
        peek.Success? && peek.value.Some?
        && r.value.request == StartRequestFor(HeadToNodeChannel, peek.value.value.Id(), configuration)
    ensures r.Failure? ==>
      cluster.SelfIsHead() && Placement.PeekLogicNodeServer(Placement.MemoryOnly, cluster.nodeServers, configuration.maxHeapMemorySize).Failure?
  {
    if cluster.SelfIsHead() then
      match Placement.PeekLogicNodeServer(Placement.MemoryOnly, cluster.nodeServers, configuration.maxHeapMemorySize)
      case Failure(e) => Failure(e)
      case Success(None) => Success(StartLocally)
      case Success(Some(server)) => Success(SendQuery(StartRequestFor(HeadToNodeChannel, server.Id(), configuration)))
    else
      Success(SendQuery(StartRequestFor(NodeToHeadChannel, cluster.headNode.Id(), configuration)))
  }

  /** The value `createCloudService` returns once the route is taken: the
      local service manager's snapshot, or the queried node's decoded reply,
      null (`None`) when no reply arrived within the timeout. */
  function CloudServiceResult(route: Route, localStart: ServiceInfoSnapshot, reply: Option<ServiceInfoSnapshot>): (r: Option<ServiceInfoSnapshot>)
    ensures route.StartLocally? ==> r == Some(localStart)
    ensures route.SendQuery? ==> r == reply
    ensures r.None? <==> route.SendQuery? && reply.None?
  {
    match route
    case StartLocally => Some(localStart)
    case SendQuery(_) => reply
  }

  /** A head with no available node server starts the service itself. */
  lemma HeadWithoutCandidatesStartsLocally(cluster: ClusterView, configuration: ServiceConfiguration)
    requires cluster.SelfIsHead()
    requires forall x :: x in cluster.nodeServers ==> !x.available
    ensures CreateCloudService(cluster, configuration) == Success(StartLocally)
  {
  }

  /** Routing stays within two tiers: every query goes to exactly one node;
      a non-head queries the head, and a head queries an available node
      server, which is never itself unless it appears among its own node
      servers. */
  lemma RoutingTopology(cluster: ClusterView, configuration: ServiceConfiguration)
    requires forall x :: x in cluster.nodeServers ==> x.Id() != cluster.selfNode.Id()
    ensures var r := CreateCloudService(cluster, configuration);
      r.Success? && r.value.SendQuery? ==>
        |r.value.request.targets| == 1
        && r.value.request.targets[0].kind == Node
        && (!cluster.SelfIsHead() ==> r.value.request.targets[0].name == cluster.headNode.Id())
        && (cluster.SelfIsHead() ==> r.value.request.targets[0].name != cluster.selfNode.Id())
  {
  }

  /** A head whose available node servers all report a snapshot sends the
      start query to the first of them with the least used memory, whatever
      the CPU readings. */
  lemma HeadQueriesLeastLoadedNode(cluster: ClusterView, configuration: ServiceConfiguration, k: nat)
    requires cluster.SelfIsHead()
    requires Placement.Reported(cluster.nodeServers) && Placement.FirstLeast(cluster.nodeServers, k)
    ensures CreateCloudService(cluster, configuration)
      == Success(SendQuery(StartRequest(HeadToNodeChannel, [Target(Node, cluster.nodeServers[k].Id())], configuration)))
  {
    Placement.PeekFirstLeastMemory(cluster.nodeServers, configuration.maxHeapMemorySize, k);
  }
}
