/** The device lifecycle gate (handle_command in srcs/host_app/server_main.c):
    a state transformer over the `cl` record that decides, from its `status`
    and `initialized` fields, whether to forward a lifecycle command to the
    accelerator runtime, and answers every command with one status response. */
module Lifecycle {
  import opened Wire
  import Commands

  /** The fields of cl_data_types the gate reads and writes; the runtime
      handles it also carries are opaque to the server. */
  datatype ClData = ClData(status: int, initialized: bool)

  /** The status each runtime operation leaves in `cl` when it is invoked;
      nonzero means failure. The runtime itself is not part of this model. */
  datatype Replies = Replies(platform: int, kernel: int, start: int, clean: int, write: int, read: int)

  /** What main passes to handle_command besides the command. */
  datatype KernelConfig = KernelConfig(xclbin: string, kernelName: string, memorySize: int)

  datatype Handled = Handled(cl: ClData, events: seq<Event>)

  const PLATFORM_FAILED := "Error: could not initialize platform"
  const PLATFORM_INITIALIZED := "INFO: platform initialized"
  const PLATFORM_ALREADY := "Error: Platform already initialized"
  const FIRST_INIT_PLATFORM := "Error: first initialize platform"
  const KERNEL_FAILED := "Error: Could not initialize the kernel"
  const KERNEL_INITIALIZED := "INFO: kernel initialized"
  const KERNEL_CLEANED := "INFO: Kernel cleaned"
  const STARTED := "INFO: Started computation"
  const NOT_RECOGNIZED := "Command not recognized"

  /** The device calls of a trace, in order. */
  function DeviceCalls(t: seq<Event>): (ops: seq<DeviceOp>)
    ensures |ops| <= |t|
    ensures t == [] ==> ops == []
  {
    if t == [] then []
    else (if t[0].Device? then [t[0].op] else []) + DeviceCalls(t[1..])
  }

  /** handle_command. main hands it the lifecycle commands and, from its
      default branch, the code of an unrecognised message; WRITE_DATA,
      READ_DATA and GET_IMAGE reach its default branch only if a caller
      other than main passes them. */
  function HandleCommand(cmd: Commands.Command, cl: ClData, replies: Replies, cfg: KernelConfig): (r: Handled)
    // exactly one response, sent last, after the device calls
    ensures r.events != [] && r.events[|r.events| - 1].IsResponse()
    ensures forall i :: 0 <= i < |r.events| - 1 ==> r.events[i].Device?
    // platform initialisation is forwarded exactly when `initialized` is false
    ensures cmd == Commands.InitPlatform ==>
              (DeviceCalls(r.events) == [InitializePlatform] <==> !cl.initialized)
    ensures cmd == Commands.InitPlatform && cl.initialized ==>
              r == Handled(cl, [Respond(PLATFORM_ALREADY)])
    // otherwise status becomes what platform initialisation reports, and the answer follows it
    ensures cmd == Commands.InitPlatform && !cl.initialized ==>
              r == Handled(cl.(status := replies.platform),
                           [Device(InitializePlatform),
                            Respond(if replies.platform != 0 then PLATFORM_FAILED else PLATFORM_INITIALIZED)])
    // kernel initialisation is refused, without a device call, while status is nonzero
    ensures cmd == Commands.InitKernel && cl.status != 0 ==>
              r == Handled(cl, [Respond(FIRST_INIT_PLATFORM)])
    // kernel initialisation when already initialised sends an unwritten buffer
    ensures cmd == Commands.InitKernel && cl.status == 0 && cl.initialized ==>
              r == Handled(cl, [RespondUnwritten])
    // `initialized` is set only by a kernel initialisation that leaves status 0, and never cleared
    ensures r.cl.initialized && !cl.initialized ==>
              cmd == Commands.InitKernel && r.cl.status == 0 &&
              DeviceCalls(r.events) == [InitializeKernel(cfg.xclbin, cfg.kernelName, cfg.memorySize)]
    ensures cl.initialized ==> r.cl.initialized
    // a kernel initialisation with status 0 and not yet initialised always reaches the device,
    // and `initialized` follows the status it reports
    ensures cmd == Commands.InitKernel && cl.status == 0 && !cl.initialized ==>
              DeviceCalls(r.events) == [InitializeKernel(cfg.xclbin, cfg.kernelName, cfg.memorySize)] &&
              r.cl.status == replies.kernel && (r.cl.initialized <==> replies.kernel == 0) &&
              r.events == [Device(InitializeKernel(cfg.xclbin, cfg.kernelName, cfg.memorySize)),
                           Respond(if replies.kernel != 0 then KERNEL_FAILED else KERNEL_INITIALIZED)]
    // cleaning and starting are always forwarded
    ensures cmd == Commands.CleanKernel ==>
              r == Handled(cl.(status := replies.clean), [Device(CleanKernelCall), Respond(KERNEL_CLEANED)])
    ensures cmd == Commands.StartKernel ==>
              r == Handled(cl.(status := replies.start), [Device(StartKernelCall), Respond(STARTED)])
    // anything else is rejected and leaves cl as it was
    ensures cmd !in {Commands.InitPlatform, Commands.InitKernel, Commands.CleanKernel, Commands.StartKernel} ==>
              r == Handled(cl, [Respond(NOT_RECOGNIZED)])
    // the record changes only through a device call
    ensures DeviceCalls(r.events) == [] ==> r.cl == cl
  {
    match cmd
    case InitPlatform =>
      if !cl.initialized then
        var cl' := cl.(status := replies.platform);
        var response := Respond(if cl'.status != 0 then PLATFORM_FAILED else PLATFORM_INITIALIZED);
        Handled(cl', [Device(InitializePlatform), response])
      else
        Handled(cl, [Respond(PLATFORM_ALREADY)])
    case InitKernel =>
      if cl.status != 0 then
        Handled(cl, [Respond(FIRST_INIT_PLATFORM)])
      else if !cl.initialized then
        var op := InitializeKernel(cfg.xclbin, cfg.kernelName, cfg.memorySize);
        var cl' := cl.(status := replies.kernel);
        if cl'.status != 0 then Handled(cl', [Device(op), Respond(KERNEL_FAILED)])
        else Handled(cl'.(initialized := true), [Device(op), Respond(KERNEL_INITIALIZED)])
      else
        Handled(cl, [RespondUnwritten])
    case CleanKernel =>
      Handled(cl.(status := replies.clean), [Device(CleanKernelCall), Respond(KERNEL_CLEANED)])
    case StartKernel =>
      Handled(cl.(status := replies.start), [Device(StartKernelCall), Respond(STARTED)])
    case _ =>
      Handled(cl, [Respond(NOT_RECOGNIZED)])
  }

  /** Platform initialisation is refused only once a kernel initialisation
      has succeeded: before that, repeating it reaches the device every time,
      whatever the earlier attempt reported. */
  lemma {:induction false} PlatformInitRepeats(cl: ClData, r1: Replies, r2: Replies, cfg: KernelConfig)
    requires !cl.initialized
    ensures var h1 := HandleCommand(Commands.InitPlatform, cl, r1, cfg);
            var h2 := HandleCommand(Commands.InitPlatform, h1.cl, r2, cfg);
            DeviceCalls(h1.events + h2.events) == [InitializePlatform, InitializePlatform] &&
            h2.cl.status == r2.platform
  {
    var h1 := HandleCommand(Commands.InitPlatform, cl, r1, cfg);
    var h2 := HandleCommand(Commands.InitPlatform, h1.cl, r2, cfg);
    DeviceCallsAppend(h1.events, h2.events);
  }

  /** Cleaning does not reset `initialized`: after a successful kernel
      initialisation and a clean, platform initialisation is refused and the
      kernel initialisation is not repeated. */
  lemma {:induction false} CleanKeepsInitialized(cl: ClData, r1: Replies, r2: Replies, r3: Replies, cfg: KernelConfig)
    requires cl.status == 0 && !cl.initialized && r1.kernel == 0
    ensures var h1 := HandleCommand(Commands.InitKernel, cl, r1, cfg);
            var h2 := HandleCommand(Commands.CleanKernel, h1.cl, r2, cfg);
            var h3 := HandleCommand(Commands.InitPlatform, h2.cl, r3, cfg);
            h1.cl.initialized && h2.cl.initialized &&
            h3.events == [Respond(PLATFORM_ALREADY)] &&
            DeviceCalls(h1.events + h2.events + h3.events) ==
              [InitializeKernel(cfg.xclbin, cfg.kernelName, cfg.memorySize), CleanKernelCall]
  {
    var h1 := HandleCommand(Commands.InitKernel, cl, r1, cfg);
    var h2 := HandleCommand(Commands.CleanKernel, h1.cl, r2, cfg);
    var h3 := HandleCommand(Commands.InitPlatform, h2.cl, r3, cfg);
    DeviceCallsAppend(h1.events, h2.events);
    DeviceCallsAppend(h1.events + h2.events, h3.events);
  }

  lemma {:induction false} DeviceCallsAppend(a: seq<Event>, b: seq<Event>)
    ensures DeviceCalls(a + b) == DeviceCalls(a) + DeviceCalls(b)
  {
    if a == [] {
      assert a + b == b;
    } else {
      var head := if a[0].Device? then [a[0].op] else [];
      assert (a + b)[0] == a[0] && (a + b)[1..] == a[1..] + b;
      DeviceCallsAppend(a[1..], b);
      assert DeviceCalls(a + b) == head + (DeviceCalls(a[1..]) + DeviceCalls(b));
      assert DeviceCalls(a) == head + DeviceCalls(a[1..]);
    }
  }
}
