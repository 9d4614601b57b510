/** The session loop and command dispatch (main in
    srcs/host_app/server_main.c): one connection at a time, each message read
    into the same 128-byte buffer, decoded, and dispatched either to a
    transfer (write data, read data, get image) or to the lifecycle gate.
    The `cl` record and the message buffer outlive connections. */
module Session {
  import opened Wire
  import opened Commands
  import opened Lifecycle
  import Upload
  import Download
  import opened Pixels

  /** sizeof(data_array): 262144 ints of four bytes. */
  const DATA_ARRAY_BYTES: nat := 262144 * 4
  /** sizeof array_struct.data, a pointer (8 bytes on LP64): WRITE_DATA
      multiplies the element count by it to get the byte count. */
  const POINTER_BYTES: nat := 8
  const INT_BYTES: nat := 4

  const WRITE_DATA_INFO := "INFO: Write Data"
  const READ_DATA_INFO := "INFO: Read Data"
  const GET_IMAGE_INFO := "INFO: Get Image"

  /** The request a GET_IMAGE payload describes (input_struct without its
      floating-point coordinates). */
  datatype Descriptor = Descriptor(width: nat, height: nat, maxDepth: int)

  /** What stays fixed for the process: the arguments of handle_command,
      sizeof(input_struct), the palette, and the image encoder (None when
      the encoder reports an error). */
  datatype Config = Config(
    kernel: KernelConfig,
    descriptorBytes: int,
    palette: Palette,
    encode: (seq<byte>, nat, nat) -> Option<seq<byte>>)

  /** Everything the outside world supplies while one message is handled:
      the bytes the command receive delivers ([] when the client has gone),
      for transfers the declared size and the chunks, the status each device
      operation reports, the request decoded from a GET_IMAGE payload, the
      words the device read returns, and data_array after a READ_DATA read. */
  datatype Exchange = Exchange(
    message: seq<char>,
    declared: int,
    chunks: seq<seq<bv64>>,
    replies: Replies,
    descriptor: Descriptor,
    words: seq<int32>,
    readback: seq<byte>)

  /** The device fills exactly the buffers it is asked to fill. */
  predicate WellFormed(ex: Exchange) {
    |ex.words| == ex.descriptor.width * ex.descriptor.height && |ex.readback| == DATA_ARRAY_BYTES
  }

  predicate AllWellFormed(xs: seq<Exchange>) {
    forall i :: 0 <= i < |xs| ==> WellFormed(xs[i])
  }

  datatype Outcome = Outcome(cl: ClData, events: seq<Event>, halted: bool)

  /** The switch of main on the decoded command. */
  function Dispatch(cmd: Command, cl: ClData, ex: Exchange, cfg: Config): (o: Outcome)
    requires ValidPalette(cfg.palette) && WellFormed(ex)
    // a transfer command announces itself before any transfer step
    ensures cmd in {WriteData, ReadData, GetImage} ==> o.events != [] && o.events[0].Respond?
    // only an image that cannot be encoded stops the process
    ensures o.halted <==> cmd == GetImage && cfg.encode(Render(ex.words, ex.descriptor.maxDepth, cfg.palette),
                                                         ex.descriptor.width, ex.descriptor.height).None?
    ensures o.halted ==> o.events != [] && o.events[|o.events| - 1] == Exit
    // transfers change the status only; `initialized` is the gate's business
    ensures o.cl.initialized == cl.initialized || cmd == InitKernel
  {
    match cmd
    case WriteData =>
      Outcome(cl.(status := ex.replies.write),
              [Respond(WRITE_DATA_INFO)] +
              (Upload.UploadTrace(ex.declared) + [Device(WriteKernelData(ex.declared * POINTER_BYTES))]),
              false)
    case ReadData =>
      Outcome(cl.(status := ex.replies.read),
              [Respond(READ_DATA_INFO)] +
              ([Device(ReadKernelData(DATA_ARRAY_BYTES))] + Download.HandleReadData(ex.readback, DATA_ARRAY_BYTES)),
              false)
    case GetImage =>
      GetImageOutcome(cl, ex, cfg)
    case _ =>
      var h := HandleCommand(cmd, cl, ex.replies, cfg.kernel);
      Outcome(h.cl, h.events, false)
  }

  /** handle_get_image: the request upload, the three device calls, then
      the PNG download, or the process exit when the image cannot be encoded. */
  function GetImageOutcome(cl: ClData, ex: Exchange, cfg: Config): Outcome
    requires ValidPalette(cfg.palette) && WellFormed(ex)
  {
    var d := ex.descriptor;
    var png := cfg.encode(Render(ex.words, d.maxDepth, cfg.palette), d.width, d.height);
    Outcome(cl.(status := ex.replies.read), [Respond(GET_IMAGE_INFO)] + ImageSteps(ex, cfg, png), png.None?)
  }

  /** What handle_get_image does after its response, given what the
      encoder returned. */
  function ImageSteps(ex: Exchange, cfg: Config, png: Option<seq<byte>>): seq<Event> {
    var d := ex.descriptor;
    Upload.UploadTrace(ex.declared) +
    [Device(WriteKernelData(cfg.descriptorBytes)), Device(StartKernelCall),
     Device(ReadKernelData(d.width * d.height * INT_BYTES))] +
    (if png.None? then [Exit] else Download.HandleReadData(png.value, |png.value|))
  }

  /** main's switch, calling the transfer and image routines. */
  method DispatchCommand(cmd: Command, cl: ClData, ex: Exchange, cfg: Config) returns (o: Outcome)
    requires ValidPalette(cfg.palette) && WellFormed(ex)
    ensures o == Dispatch(cmd, cl, ex, cfg)
  {
    match cmd
    case WriteData =>
      ghost var init;
      var data, dataSize, upload;
      data, dataSize, upload, init := Upload.HandleWriteData(ex.declared, ex.chunks);
      var cl' := cl.(status := ex.replies.write);
      o := Outcome(cl', [Respond(WRITE_DATA_INFO)] + (upload + [Device(WriteKernelData(dataSize * POINTER_BYTES))]), false);
    case ReadData =>
      var cl' := cl.(status := ex.replies.read);
      o := Outcome(cl', [Respond(READ_DATA_INFO)] +
                        ([Device(ReadKernelData(DATA_ARRAY_BYTES))] + Download.HandleReadData(ex.readback, DATA_ARRAY_BYTES)),
                   false);
    case GetImage =>
      ghost var init;
      var data, dataSize, upload;
      data, dataSize, upload, init := Upload.HandleWriteData(ex.declared, ex.chunks);
      var d := ex.descriptor;
      var cl' := cl.(status := ex.replies.write);
      cl' := cl'.(status := ex.replies.start);
      var n := d.width * d.height;
      var words := new int32[n](k requires 0 <= k < n => ex.words[k]);
      cl' := cl'.(status := ex.replies.read);
      assert words[..] == ex.words;
      var steps := upload + [Device(WriteKernelData(cfg.descriptorBytes)), Device(StartKernelCall),
                             Device(ReadKernelData(n * INT_BYTES))];
      var image := BuildImage(words, d.width, d.height, d.maxDepth, cfg.palette);
      var png := cfg.encode(image[..], d.width, d.height);
      if png.None? {
        o := Outcome(cl', [Respond(GET_IMAGE_INFO)] + (steps + [Exit]), true);
      } else {
        o := Outcome(cl', [Respond(GET_IMAGE_INFO)] + (steps + Download.HandleReadData(png.value, |png.value|)), false);
      }
    case _ =>
      var h := HandleCommand(cmd, cl, ex.replies, cfg.kernel);
      o := Outcome(h.cl, h.events, false);
  }

  /** Every command gets exactly one status response, and no transfer step
      is mistaken for a command message. */
  lemma OneResponse(cmd: Command, cl: ClData, ex: Exchange, cfg: Config)
    requires ValidPalette(cfg.palette) && WellFormed(ex)
    ensures Responses(Dispatch(cmd, cl, ex, cfg).events) == 1
    ensures Messages(Dispatch(cmd, cl, ex, cfg).events) == 0
  {
    var o := Dispatch(cmd, cl, ex, cfg);
    if cmd in {WriteData, ReadData, GetImage} {
      TransferResponds(cmd, cl, ex, cfg);
    } else {
      var h := HandleCommand(cmd, cl, ex.replies, cfg.kernel);
      assert o.events == h.events;
      var last := |h.events| - 1;
      assert h.events == h.events[..last] + [h.events[last]];
      NoResponseOrMessage(h.events[..last]);
      OneResponseAtEnd(h.events[..last], h.events[last]);
    }
  }

  /** A transfer command's response is its first event; what follows is
      transfer steps, device calls and possibly an exit. */
  lemma TransferResponds(cmd: Command, cl: ClData, ex: Exchange, cfg: Config)
    requires ValidPalette(cfg.palette) && WellFormed(ex)
    requires cmd in {WriteData, ReadData, GetImage}
    ensures Responses(Dispatch(cmd, cl, ex, cfg).events) == 1
    ensures Messages(Dispatch(cmd, cl, ex, cfg).events) == 0
  {
    var o := Dispatch(cmd, cl, ex, cfg);
    var rest := o.events[1..];
    assert o.events == [o.events[0]] + rest;
    if cmd == WriteData {
      WriteStepsQuiet(ex);
      assert rest == Upload.UploadTrace(ex.declared) + [Device(WriteKernelData(ex.declared * POINTER_BYTES))];
    } else if cmd == ReadData {
      ReadStepsQuiet(ex);
      assert rest == [Device(ReadKernelData(DATA_ARRAY_BYTES))] + Download.HandleReadData(ex.readback, DATA_ARRAY_BYTES);
    } else {
      var d := ex.descriptor;
      var png := cfg.encode(Render(ex.words, d.maxDepth, cfg.palette), d.width, d.height);
      ImageStepsQuiet(ex, cfg, png);
      assert rest == ImageSteps(ex, cfg, png);
    }
    OneResponseAtStart(o.events[0], rest);
  }

  lemma UploadQuiet(size: int)
    ensures Responses(Upload.UploadTrace(size)) == 0 && Messages(Upload.UploadTrace(size)) == 0
  {
    NoResponseOrMessage(Upload.UploadTrace(size));
  }

  lemma DownloadQuiet(data: seq<byte>, n: int)
    requires 0 <= n <= |data|
    ensures Responses(Download.HandleReadData(data, n)) == 0 && Messages(Download.HandleReadData(data, n)) == 0
  {
    NoResponseOrMessage(Download.HandleReadData(data, n));
  }

  lemma WriteStepsQuiet(ex: Exchange)
    ensures var t := Upload.UploadTrace(ex.declared) + [Device(WriteKernelData(ex.declared * POINTER_BYTES))];
            Responses(t) == 0 && Messages(t) == 0
  {
    var dev := [Device(WriteKernelData(ex.declared * POINTER_BYTES))];
    UploadQuiet(ex.declared);
    NoResponseOrMessage(dev);
    QuietAppend(Upload.UploadTrace(ex.declared), dev);
  }

  lemma ReadStepsQuiet(ex: Exchange)
    requires |ex.readback| == DATA_ARRAY_BYTES
    ensures var t := [Device(ReadKernelData(DATA_ARRAY_BYTES))] + Download.HandleReadData(ex.readback, DATA_ARRAY_BYTES);
            Responses(t) == 0 && Messages(t) == 0
  {
    var dev := [Device(ReadKernelData(DATA_ARRAY_BYTES))];
    NoResponseOrMessage(dev);
    DownloadQuiet(ex.readback, DATA_ARRAY_BYTES);
    QuietAppend(dev, Download.HandleReadData(ex.readback, DATA_ARRAY_BYTES));
  }

  lemma ImageStepsQuiet(ex: Exchange, cfg: Config, png: Option<seq<byte>>)
    ensures Responses(ImageSteps(ex, cfg, png)) == 0 && Messages(ImageSteps(ex, cfg, png)) == 0
  {
    var d := ex.descriptor;
    var up := Upload.UploadTrace(ex.declared);
    var dev := [Device(WriteKernelData(cfg.descriptorBytes)), Device(StartKernelCall),
                Device(ReadKernelData(d.width * d.height * INT_BYTES))];
    var tail := if png.None? then [Exit] else Download.HandleReadData(png.value, |png.value|);
    UploadQuiet(ex.declared);
    NoResponseOrMessage(dev);
    if png.None? {
      NoResponseOrMessage(tail);
    } else {
      DownloadQuiet(png.value, |png.value|);
    }
    QuietAppend(up, dev);
    QuietAppend(up + dev, tail);
  }

  lemma QuietAppend(a: seq<Event>, b: seq<Event>)
    requires Responses(a) == 0 && Messages(a) == 0 && Responses(b) == 0 && Messages(b) == 0
    ensures Responses(a + b) == 0 && Messages(a + b) == 0
  {
    CountAppend(a, b, IsResponseEvent);
    CountAppend(a, b, IsCommandMessage);
  }

  lemma OneResponseAtStart(r: Event, t: seq<Event>)
    requires r.Respond? && Responses(t) == 0 && Messages(t) == 0
    ensures Responses([r] + t) == 1 && Messages([r] + t) == 0
  {
    CountAppend([r], t, IsResponseEvent);
    CountAppend([r], t, IsCommandMessage);
  }

  lemma OneResponseAtEnd(t: seq<Event>, r: Event)
    requires r.IsResponse() && Responses(t) == 0 && Messages(t) == 0
    ensures Responses(t + [r]) == 1 && Messages(t + [r]) == 0
  {
    CountAppend(t, [r], IsResponseEvent);
    CountAppend(t, [r], IsCommandMessage);
  }

  lemma {:induction false} NoResponseOrMessage(t: seq<Event>)
    requires forall i :: 0 <= i < |t| ==> !t[i].IsResponse() && !t[i].RecvMessage?
    ensures Responses(t) == 0 && Messages(t) == 0
  {
    if t != [] {
      NoResponseOrMessage(t[1..]);
    }
  }

  /** The server between messages: the `cl` record, the message buffer,
      everything done so far, and whether the process has exited. */
  datatype ServerState = ServerState(cl: ClData, msg: seq<char>, trace: seq<Event>, halted: bool)

  predicate Ready(st: ServerState) {
    |st.msg| == MSG_LENGTH
  }

  /** At start-up main sets status to 1 and nothing else: `initialized` and
      the message buffer hold whatever the stack held. */
  function Initial(initialized: bool, msg: seq<char>): (st: ServerState)
    requires |msg| == MSG_LENGTH
    ensures Ready(st) && st.cl.status != 0 && st.trace == [] && !st.halted
  {
    ServerState(ClData(1, initialized), msg, [], false)
  }

  /** One pass of main's command loop on a message that is not a disconnect. */
  function ServeStep(st: ServerState, ex: Exchange, cfg: Config): (r: ServerState)
    requires Ready(st) && ValidPalette(cfg.palette) && WellFormed(ex)
    ensures Ready(r)
  {
    var msg := Receive(st.msg, ex.message);
    var o := Dispatch(GetCommand(msg), st.cl, ex, cfg);
    ServerState(o.cl, msg, st.trace + [RecvMessage(ex.message)] + o.events, o.halted)
  }

  /** One connection: messages are served until the client disconnects
      (an empty receive), the exchanges run out, or the process exits. */
  function Serve(st: ServerState, xs: seq<Exchange>, cfg: Config): (r: ServerState)
    requires Ready(st) && ValidPalette(cfg.palette) && AllWellFormed(xs)
    ensures Ready(r)
    decreases |xs|
  {
    if xs == [] || st.halted || xs[0].message == [] then st
    else Serve(ServeStep(st, xs[0], cfg), xs[1..], cfg)
  }

  /** The command loop of main for one accepted connection. */
  method ServeConnection(st0: ServerState, xs: seq<Exchange>, cfg: Config) returns (st: ServerState)
    requires Ready(st0) && ValidPalette(cfg.palette) && AllWellFormed(xs)
    ensures st == Serve(st0, xs, cfg)
  {
    st := st0;
    var i := 0;
    while i < |xs| && !st.halted && xs[i].message != []
      invariant 0 <= i <= |xs| && Ready(st)
      invariant Serve(st0, xs, cfg) == Serve(st, xs[i..], cfg)
    {
      var msg := Receive(st.msg, xs[i].message);
      var command := GetCommand(msg);
      var o := DispatchCommand(command, st.cl, xs[i], cfg);
      assert xs[i..][1..] == xs[i + 1..];
      st := ServerState(o.cl, msg, st.trace + [RecvMessage(xs[i].message)] + o.events, o.halted);
      i := i + 1;
    }
  }

  /** The accept loop: connections one after another, sharing `cl` and the
      message buffer, until the process exits. */
  function ServeAll(st: ServerState, sessions: seq<seq<Exchange>>, cfg: Config): (r: ServerState)
    requires Ready(st) && ValidPalette(cfg.palette)
    requires forall k :: 0 <= k < |sessions| ==> AllWellFormed(sessions[k])
    ensures Ready(r)
    decreases |sessions|
  {
    if sessions == [] || st.halted then st
    else ServeAll(Serve(st, sessions[0], cfg), sessions[1..], cfg)
  }

  method AcceptLoop(st0: ServerState, sessions: seq<seq<Exchange>>, cfg: Config) returns (st: ServerState)
    requires Ready(st0) && ValidPalette(cfg.palette)
    requires forall k :: 0 <= k < |sessions| ==> AllWellFormed(sessions[k])
    ensures st == ServeAll(st0, sessions, cfg)
  {
    st := st0;
    var k := 0;
    while k < |sessions| && !st.halted
      invariant 0 <= k <= |sessions| && Ready(st)
      invariant ServeAll(st0, sessions, cfg) == ServeAll(st, sessions[k..], cfg)
    {
      assert sessions[k..][1..] == sessions[k + 1..];
      st := ServeConnection(st, sessions[k], cfg);
      k := k + 1;
    }
  }

  /** Every message served gets exactly one status response. */
  lemma {:induction false} ResponsePerMessage(st: ServerState, xs: seq<Exchange>, cfg: Config)
    requires Ready(st) && ValidPalette(cfg.palette) && AllWellFormed(xs)
    ensures var r := Serve(st, xs, cfg);
            Responses(r.trace) - Responses(st.trace) == Messages(r.trace) - Messages(st.trace)
    decreases |xs|
  {
    if !(xs == [] || st.halted || xs[0].message == []) {
      var msg := Receive(st.msg, xs[0].message);
      var o := Dispatch(GetCommand(msg), st.cl, xs[0], cfg);
      OneResponse(GetCommand(msg), st.cl, xs[0], cfg);
      CountAppend(st.trace, [RecvMessage(xs[0].message)], IsResponseEvent);
      CountAppend(st.trace, [RecvMessage(xs[0].message)], IsCommandMessage);
      CountAppend(st.trace + [RecvMessage(xs[0].message)], o.events, IsResponseEvent);
      CountAppend(st.trace + [RecvMessage(xs[0].message)], o.events, IsCommandMessage);
      ResponsePerMessage(ServeStep(st, xs[0], cfg), xs[1..], cfg);
    }
  }

  /** Once a kernel initialisation has succeeded, `initialized` stays true
      for the rest of the connection, whatever follows (cleaning included). */
  lemma {:induction false} InitializedIsSticky(st: ServerState, xs: seq<Exchange>, cfg: Config)
    requires Ready(st) && ValidPalette(cfg.palette) && AllWellFormed(xs)
    requires st.cl.initialized
    ensures Serve(st, xs, cfg).cl.initialized
    decreases |xs|
  {
    if !(xs == [] || st.halted || xs[0].message == []) {
      InitializedIsSticky(ServeStep(st, xs[0], cfg), xs[1..], cfg);
    }
  }

  /** ... and across connections: platform initialisation is refused for
      the rest of the process's life. */
  lemma {:induction false} InitializedSurvivesReconnect(st: ServerState, sessions: seq<seq<Exchange>>, cfg: Config)
    requires Ready(st) && ValidPalette(cfg.palette)
    requires forall k :: 0 <= k < |sessions| ==> AllWellFormed(sessions[k])
    requires st.cl.initialized
    ensures ServeAll(st, sessions, cfg).cl.initialized
    decreases |sessions|
  {
    if sessions != [] && !st.halted {
      InitializedIsSticky(st, sessions[0], cfg);
      InitializedSurvivesReconnect(Serve(st, sessions[0], cfg), sessions[1..], cfg);
    }
  }

  /** A kernel initialisation as the first message after start-up is
      refused without reaching the device, whatever `initialized` holds. */
  lemma {:induction false} FreshServerRefusesKernelInit(initialized: bool, buf: seq<char>, ex: Exchange, cfg: Config)
    requires |buf| == MSG_LENGTH && ValidPalette(cfg.palette) && WellFormed(ex)
    requires ex.message == Name(InitKernel)
    ensures var r := Serve(Initial(initialized, buf), [ex], cfg);
            r.cl == ClData(1, initialized) &&
            r.trace == [RecvMessage(ex.message), Respond(FIRST_INIT_PLATFORM)]
  {
    var msg := Receive(buf, ex.message);
    assert msg == Name(InitKernel) + msg[11..];
    NameDecodes(InitKernel, msg[11..]);
  }

  /** A platform initialisation on a fresh server whose `initialized` starts
      false reaches the device; when the device reports success the client is told so and status becomes 0. */
  lemma {:induction false} FreshServerInitializesPlatform(buf: seq<char>, ex: Exchange, cfg: Config)
    requires |buf| == MSG_LENGTH && ValidPalette(cfg.palette) && WellFormed(ex)
    requires ex.message == Name(InitPlatform) && ex.replies.platform == 0
    ensures var r := Serve(Initial(false, buf), [ex], cfg);
            r.cl == ClData(0, false) &&
            r.trace == [RecvMessage(ex.message), Device(InitializePlatform), Respond(PLATFORM_INITIALIZED)]
  {
    var msg := Receive(buf, ex.message);
    assert msg == Name(InitPlatform) + msg[13..];
    NameDecodes(InitPlatform, msg[13..]);
  }

  /** `main` never sets `initialized`: when it happens to start true, a
      platform initialisation as the first message is refused without
      reaching the device, and status stays nonzero. */
  lemma {:induction false} StartInitializedRefusesPlatform(buf: seq<char>, ex: Exchange, cfg: Config)
    requires |buf| == MSG_LENGTH && ValidPalette(cfg.palette) && WellFormed(ex)
    requires ex.message == Name(InitPlatform)
    ensures var r := Serve(Initial(true, buf), [ex], cfg);
            r.cl == ClData(1, true) &&
            r.trace == [RecvMessage(ex.message), Respond(PLATFORM_ALREADY)]
  {
    var msg := Receive(buf, ex.message);
    assert msg == Name(InitPlatform) + msg[13..];
    NameDecodes(InitPlatform, msg[13..]);
  }

  /** An upload of zero elements acknowledges size and data back to back. */
  lemma EmptyWrite(st: ServerState, ex: Exchange, cfg: Config)
    requires Ready(st) && ValidPalette(cfg.palette) && WellFormed(ex)
    requires ex.declared == 0
    ensures Dispatch(WriteData, st.cl, ex, cfg).events ==
              [Respond(WRITE_DATA_INFO), RecvSize(0), SendAck(ACK_SIZE), SendAck(ACK_DATA), Device(WriteKernelData(0))]
  {
  }
}
