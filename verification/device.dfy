/** The device as the driver sees it: one command out, one reply back.
    The physical transport is replaced by a scripted device that answers
    with the replies it was given, in order, and records every command. */
module Transport {

  import opened Bytes
  import opened Wrappers
  import opened Errors
  import opened Status
  import Codec

  /** One APDU exchange: class byte, instruction, p1, p2, payload, and the
      exchange timeout set just before it (milliseconds). */
  datatype Command = Command(cla: byte, ins: byte, p1: byte, p2: byte, data: seq<byte>, timeout: nat)

  /** What the transport hands back: the response bytes (which end in the
      status word), or the error it throws. */
  datatype Reply = Response(data: seq<byte>) | Failed(error: TransportError)

  /** A device that no longer answers: the transport's U2F timeout. */
  const UNREACHABLE: Reply := Failed(TransportError(TIMEOUT_ID, 0, "U2F timeout"))

  function NextReply(pending: seq<Reply>): Reply
  {
    if pending == [] then UNREACHABLE else pending[0]
  }

  function Later(pending: seq<Reply>): seq<Reply>
  {
    if pending == [] then [] else pending[1..]
  }

  /** `_sendCommand` on one reply: the response, or the transport error
      re-thrown with its translated and decorated message. */
  function Channel(reply: Reply): (r: Result<seq<byte>, Failure>)
    ensures reply.Response? <==> r.Ok?
    ensures reply.Response? ==> r.value == reply.data
    ensures reply.Failed? ==>
      r.error == DeviceError(reply.error)
  {
    match reply
    case Response(data) => Ok(data)
    case Failed(e) => Err(DeviceError(e))
  }

  /** An unreachable device gives the timeout message with no status code. */
  lemma UnreachableDeviceMessage()
    ensures Channel(UNREACHABLE).Err?
    ensures Message(Channel(UNREACHABLE).error) == DEVICE_PREFIX + TIMEOUT_MESSAGE
  {
  }

  class Device {
    /** The replies the device will still give, in order. */
    var pending: seq<Reply>
    /** Every command exchanged so far, in order. */
    var sent: seq<Command>

    constructor (script: seq<Reply>)
      ensures pending == script && sent == []
    {
      pending := script;
      sent := [];
    }

    /** `transport.setExchangeTimeout(timeout)` then `transport.send(...)`. */
    method Exchange(cmd: Command) returns (reply: Reply)
      modifies this
      ensures sent == old(sent) + [cmd]
      ensures reply == NextReply(old(pending))
      ensures pending == Later(old(pending))
    {
      sent := sent + [cmd];
      if pending == [] {
        reply := UNREACHABLE;
      } else {
        reply := pending[0];
        pending := pending[1..];
      }
    }
  }
}
