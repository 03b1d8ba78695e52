/** `ChannelMessageReceiveEvent`: a received channel message together with a
    query flag and a response slot. The slot starts empty and may only be
    written when the message is a query; it may be overwritten. */
module ChannelEvent {

  import opened Wrappers
  import opened Messaging

  const NoQueryMessage := "Cannot set query response of no query"

  /** What the response slot holds. `ChannelMessage.buildResponseFor` is not
      part of this model, so a response it builds is recorded as the request
      it answers plus the buffer it carries. */
  datatype QueryResponse =
    | Explicit(message: ChannelMessage)
    | BinaryResponseFor(request: ChannelMessage, content: DataBuf)

  datatype ReceiveEvent = ReceiveEvent(
    channelMessage: ChannelMessage,
    query: bool,
    queryResponse: Option<QueryResponse>)
  {
    function Sender(): Sender { channelMessage.sender }
    function Targets(): seq<Target> { channelMessage.targets }
    function Channel(): string { channelMessage.channel }
    function Message(): Option<string> { channelMessage.message }
    function Content(): DataBuf { channelMessage.content }
    predicate IsQuery() { query }
    function GetQueryResponse(): Option<QueryResponse> { queryResponse }
  }

  /** The constructor: a fresh event has no response yet. */
  function NewEvent(message: ChannelMessage, query: bool): (e: ReceiveEvent)
    ensures e.IsQuery() == query
    ensures e.GetQueryResponse().None?
    ensures e.Sender() == message.sender && e.Targets() == message.targets && e.Channel() == message.channel
  {
    ReceiveEvent(message, query, None)
  }

  /** The event after an operation, and what the operation returned or threw. */
  datatype Attempt<T> = Attempt(event: ReceiveEvent, result: Result<T, Fault>)

  /** `setQueryResponse`: fails with an argument error on a non-query event,
      leaving it untouched; otherwise replaces whatever the slot held. */
  function SetQueryResponse(e: ReceiveEvent, response: Option<QueryResponse>): (a: Attempt<()>)
    ensures a.result.Success? <==> e.IsQuery()
    ensures !e.IsQuery() ==> a.result == Failure(IllegalArgument(NoQueryMessage)) && a.event == e
    ensures e.IsQuery() ==> a.event.GetQueryResponse() == response
    ensures a.event.IsQuery() == e.IsQuery() && a.event.channelMessage == e.channelMessage
  {
    if !e.query then Attempt(e, Failure(IllegalArgument(NoQueryMessage)))
    else Attempt(e.(queryResponse := response), Success(()))
  }

  /** `setBinaryResponse(DataBuf)`: a response built for this event's
      message, carrying the given buffer. */
  function SetBinaryResponse(e: ReceiveEvent, content: DataBuf): (a: Attempt<()>)
    ensures a.result.Success? <==> e.IsQuery()
    ensures e.IsQuery() ==> a.event.GetQueryResponse() == Some(BinaryResponseFor(e.channelMessage, content))
    ensures !e.IsQuery() ==> a.result == Failure(IllegalArgument(NoQueryMessage)) && a.event == e
  {
    SetQueryResponse(e, Some(BinaryResponseFor(e.channelMessage, content)))
  }

  /** `response()`: installs a response around a fresh empty buffer and hands
      that buffer to the caller; fails like `setQueryResponse` on a non-query
      event. */
  function Response(e: ReceiveEvent): (a: Attempt<DataBuf>)
    ensures e.IsQuery() ==> a.result == Success(EmptyBuf)
    ensures e.IsQuery() ==> a.event.GetQueryResponse() == Some(BinaryResponseFor(e.channelMessage, EmptyBuf))
    ensures !e.IsQuery() ==> a.result == Failure(IllegalArgument(NoQueryMessage)) && a.event == e
  {
    var buffer := EmptyBuf;
    var written := SetBinaryResponse(e, buffer);
    match written.result
    case Success(_) => Attempt(written.event, Success(buffer))
    case Failure(f) => Attempt(written.event, Failure(f))
  }

  /** The operations that write the response slot. */
  datatype EventOp = SetResponse(response: Option<QueryResponse>) | CreateResponse

  function Step(e: ReceiveEvent, op: EventOp): ReceiveEvent {
    match op
    case SetResponse(r) => SetQueryResponse(e, r).event
    case CreateResponse => Response(e).event
  }

  /** The event after a sequence of operations, failed ones included. */
  function Run(e: ReceiveEvent, ops: seq<EventOp>): ReceiveEvent
    decreases |ops|
  {
    if |ops| == 0 then e else Run(Step(e, ops[0]), ops[1..])
  }

  /** What an operation leaves in the slot of a query event. */
  function Written(e: ReceiveEvent, op: EventOp): Option<QueryResponse> {
    match op
    case SetResponse(r) => r
    case CreateResponse => Some(BinaryResponseFor(e.channelMessage, EmptyBuf))
  }

  /** No operation changes the wrapped message or the query flag, so the
      accessors keep answering with the message's own fields. */
  lemma {:induction false} RunKeepsMessage(e: ReceiveEvent, ops: seq<EventOp>)
    ensures Run(e, ops).channelMessage == e.channelMessage
    ensures Run(e, ops).IsQuery() == e.IsQuery()
    ensures Run(e, ops).Sender() == e.Sender()
    ensures Run(e, ops).Targets() == e.Targets()
    ensures Run(e, ops).Channel() == e.Channel()
    decreases |ops|
  {
    if |ops| > 0 {
      RunKeepsMessage(Step(e, ops[0]), ops[1..]);
    }
  }

  /** A non-query event is never answered: every write fails and leaves it
      as it was. */
  lemma {:induction false} NonQueryUnchanged(e: ReceiveEvent, ops: seq<EventOp>)
    requires !e.IsQuery()
    ensures Run(e, ops) == e
    decreases |ops|
  {
    if |ops| > 0 {
      NonQueryUnchanged(Step(e, ops[0]), ops[1..]);
    }
  }

  /** On a query event the slot holds whatever the most recent operation
      wrote: overwriting is allowed and the last write wins. */
  lemma {:induction false} QueryKeepsLastResponse(e: ReceiveEvent, ops: seq<EventOp>)
    requires e.IsQuery() && |ops| > 0
    ensures Run(e, ops).GetQueryResponse() == Written(e, ops[|ops| - 1])
    decreases |ops|
  {
    if |ops| > 1 {
      QueryKeepsLastResponse(Step(e, ops[0]), ops[1..]);
      assert ops[1..][|ops[1..]| - 1] == ops[|ops| - 1];
    }
  }
}
