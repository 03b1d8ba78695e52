/** Channel messages exchanged between nodes and services. The wire codec and
    the transport are not modelled; a message's content is its raw bytes. */
module Messaging {

  import opened Wrappers

  /** `ChannelMessageTarget.Type`. */
  datatype TargetType = All | Node | Service | Group

  /** One addressee of a message (`ChannelMessageTarget`). */
  datatype Target = Target(kind: TargetType, name: string)

  /** The component that sent a message (`ChannelMessageSender`). */
  datatype Sender = Sender(name: string, kind: TargetType)

  /** A mutable byte buffer (`DataBuf`), seen as the bytes written so far. */
  datatype DataBuf = DataBuf(bytes: seq<bv8>)

  const EmptyBuf := DataBuf([])

  /** A received channel message: who sent it, to whom, on which channel,
      its optional text message and its binary content. */
  datatype ChannelMessage = ChannelMessage(
    sender: Sender,
    targets: seq<Target>,
    channel: string,
    message: Option<string>,
    content: DataBuf)
}
