/**
 * The message channel between the conversion worker and the interface: a
 * FIFO queue of tagged progress messages.
 */
module Channel {

  /** The tag of a progress message. */
  datatype Kind = Info | Status | Error | Done

  /** A progress message: its tag and the text shown to the user. */
  datatype Message = Message(kind: Kind, text: string)

  datatype Option<T> = None | Some(value: T)

  /** The `queue.Queue` shared by the worker and the interface, seen as the sequence of messages it holds. */
  class MessageQueue {
    var items: seq<Message>

    constructor ()
      ensures items == []
    {
      items := [];
    }

    /** `put`: the message joins the back of the queue. */
    method Put(m: Message)
      modifies this
      ensures items == old(items) + [m]
    {
      items := items + [m];
    }

    /** `get_nowait`: the front message, or `None` where Python raises `queue.Empty`. */
    method GetNowait() returns (m: Option<Message>)
      modifies this
      ensures old(items) == [] ==> m == None && items == []
      ensures old(items) != [] ==> m == Some(old(items)[0]) && items == old(items)[1..]
    {
      if items == [] {
        m := None;
      } else {
        m := Some(items[0]);
        items := items[1..];
      }
    }
  }
}
