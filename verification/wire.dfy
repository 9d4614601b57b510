/** Vocabulary shared by every part of the session protocol: the bytes and
    tokens on the connection, the operations handed to the accelerator, and
    the event trace through which the model states what the server does and
    in which order. */
module Wire {

  type byte = bv8

  datatype Option<+T> = None | Some(value: T)

  /** Size of the command and acknowledgement buffers (MSG_LENGTH). */
  const MSG_LENGTH: nat := 128

  /** Synchronisation tokens of the upload direction. */
  const ACK_SIZE: string := "ACK_SIZE"
  const ACK_DATA: string := "ACK_DATA"

  /** The operations of the accelerator runtime the server invokes. */
  datatype DeviceOp =
    | InitializePlatform
    | InitializeKernel(xclbin: string, kernelName: string, memorySize: int)
    | WriteKernelData(bytes: int)
    | StartKernelCall
    | ReadKernelData(bytes: int)
    | CleanKernelCall

  /** One observable step of the server, as seen on the connection or at the device. */
  datatype Event =
    | RecvMessage(bytes: seq<char>)     // a command message read into msg
    | Respond(text: string)             // the status response of a command
    | RespondUnwritten                  // a response buffer sent without having been written
    | RecvSize(size: int)               // the declared element count of an upload
    | SendAck(token: string)            // ACK_SIZE or ACK_DATA
    | RecvChunk(requested: int)         // one chunk receive asking for `requested` elements
    | RecvAck                           // a client acknowledgement read into ack[]
    | SendSize(size: int)               // the byte count of a download
    | SendPayload(payload: seq<byte>)   // the bytes of a download
    | Device(op: DeviceOp)              // a call into the accelerator runtime
    | Exit                              // the process terminates
  {
    /** Status responses, as opposed to protocol tokens and payloads. */
    predicate IsResponse() {
      Respond? || RespondUnwritten?
    }
  }

  /** The events of a trace that satisfy `p`, in order. */
  function Filter(t: seq<Event>, p: Event -> bool): (f: seq<Event>)
    ensures |f| <= |t|
  {
    if t == [] then [] else (if p(t[0]) then [t[0]] else []) + Filter(t[1..], p)
  }

  /** Filtering distributes over the concatenation of traces. */
  lemma {:induction false} FilterAppend(a: seq<Event>, b: seq<Event>, p: Event -> bool)
    ensures Filter(a + b, p) == Filter(a, p) + Filter(b, p)
  {
    if a == [] {
      assert a + b == b;
    } else {
      var head := if p(a[0]) then [a[0]] else [];
      assert (a + b)[0] == a[0] && (a + b)[1..] == a[1..] + b;
      FilterAppend(a[1..], b, p);
      assert Filter(a + b, p) == head + (Filter(a[1..], p) + Filter(b, p));
    }
  }

  /** Number of events of the trace that satisfy `p`. */
  function Count(t: seq<Event>, p: Event -> bool): nat {
    |Filter(t, p)|
  }

  lemma CountAppend(a: seq<Event>, b: seq<Event>, p: Event -> bool)
    ensures Count(a + b, p) == Count(a, p) + Count(b, p)
  {
    FilterAppend(a, b, p);
  }

  function IsResponseEvent(e: Event): bool { e.IsResponse() }

  function IsCommandMessage(e: Event): bool { e.RecvMessage? }

  /** Number of status responses in a trace. */
  function Responses(t: seq<Event>): nat { Count(t, IsResponseEvent) }

  /** Number of command messages read in a trace. */
  function Messages(t: seq<Event>): nat { Count(t, IsCommandMessage) }
}
