/** Download framing (handle_read_data in srcs/host_app/server_main.c, both
    overloads): wait for an acknowledgement, send the byte count, wait for a
    second acknowledgement, send the payload in one send call. */
module Download {
  import opened Wire

  /** What the client learns from the server's sends of a download: the
      payload, provided the announced count matches the bytes that follow. */
  function ClientReceives(t: seq<Event>): Option<seq<byte>> {
    var sent := ServerSends(t);
    if |sent| == 2 && sent[0].SendSize? && sent[1].SendPayload? && sent[0].size == |sent[1].payload|
    then Some(sent[1].payload)
    else None
  }

  /** The events of a trace that carry data from server to client. */
  function ServerSends(t: seq<Event>): seq<Event> {
    Filter(t, IsServerSend)
  }

  function IsServerSend(e: Event): bool { e.SendSize? || e.SendPayload? }

  /** handle_read_data(socket, data, data_size): `data` holds at least
      `dataSize` bytes at every call site. */
  function HandleReadData(data: seq<byte>, dataSize: int): (t: seq<Event>)
    requires 0 <= dataSize <= |data|
    // each server send waits for a client acknowledgement
    ensures |t| == 4 && t[0] == RecvAck && t[2] == RecvAck
    ensures forall i :: 0 <= i < |t| && (t[i].SendSize? || t[i].SendPayload?) ==> 0 < i && t[i - 1] == RecvAck
    // the announced size is the number of bytes sent, and they are the first dataSize bytes of data
    ensures ClientReceives(t) == Some(data[..dataSize])
  {
    var t := [RecvAck, SendSize(dataSize), RecvAck, SendPayload(data[..dataSize])];
    assert ServerSends(t) == [t[1], t[3]] by {
      assert t[3..][1..] == [] && t[2..][1..] == t[3..] && t[1..][1..] == t[2..];
      assert Filter(t[3..], IsServerSend) == [t[3]];
      assert Filter(t[2..], IsServerSend) == [t[3]];
      assert Filter(t[1..], IsServerSend) == [t[1], t[3]];
    }
    t
  }
}
