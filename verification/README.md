# 1st-CLaaS host server: session protocol model

This project models the host-side server of 1st-CLaaS (`srcs/host_app/server_main.c`). The server sits between a web server and an FPGA accelerator. It runs one UNIX-socket connection at a time. Each connection carries a sequence of text commands, and the server handles each one as follows:

- `INIT_PLATFORM`, `INIT_KERNEL`, `START_KERNEL` and `CLEAN_KERNEL` pass through a lifecycle gate over the `cl` record, whose fields `status` and `initialized` decide whether the accelerator runtime is called.
- `WRITE_DATA` uploads an array in chunks of 8192 elements and hands it to the device.
- `READ_DATA` reads the device's result buffer and sends it back with an ack / size / ack / payload framing.
- `GET_IMAGE` uploads a request, runs the kernel, and turns each result word into an RGB pixel. It encodes the image and sends it back with the same framing.

Every command is answered with one short status text.

The model is split by module:

| module | file | what it holds |
|---|---|---|
| `Wire` | wire.dfy | bytes, the message length, the ack tokens, and the `Event` trace through which socket and device calls are observed |
| `Commands` | commands.dfy | `get_command` as a pure prefix-matching function, plus the 128-byte message buffer that is never cleared |
| `Lifecycle` | lifecycle.dfy | `handle_command` as a pure transformer of the `cl` record |
| `Upload` | upload.dfy | `handle_write_data` as an imperative method over arrays: the receive loop, the scratch buffer and the copy loop |
| `Download` | download.dfy | the framing of `handle_read_data` |
| `Pixels` | pixels.dfy | the pixel loop of `handle_get_image`, as an imperative method over arrays, against a pure `Render` |
| `Session` | session.dfy | `main`'s dispatch switch and its command and accept loops, as methods proved equal to pure functions of the same inputs |

The socket is a sequence of `Exchange` values: what each receive delivers. The accelerator runtime is a `Replies` record: the status each device operation leaves behind. The PNG encoder is a function parameter that may fail.

Some behaviour of the code is easy to miss, and the model makes it explicit:

- Cleaning does not reset the lifecycle. `handle_command` does not reset `initialized` on `CLEAN_KERNEL` (lines 264-267), and the model takes `clean_kernel` to leave it alone. Platform initialisation is then still refused after a clean.
- `WRITE_DATA`, `READ_DATA`, `START_KERNEL` and `CLEAN_KERNEL` are not gated on the device state at all (lines 187-209, 264-273).
- `initialized` is never initialised in `main`; only `status` is set, at line 116. The model takes its start value as a parameter.
- `INIT_KERNEL` while already initialised and with status 0 sends a response buffer that nothing wrote (lines 252-261, 279). With status nonzero it answers "Error: first initialize platform" instead (lines 247-249). The model records this as a distinct `RespondUnwritten` event.
- `WRITE_DATA` asks the device to write `data_size * sizeof array_struct.data` bytes (line 195). That is the size of a pointer, not of an element. On LP64 a `double *` and a `double` are both 8 bytes, so the byte count comes out right there. The model keeps the pointer size as its own constant.
- A client that disconnects in the middle of a transfer is only reported (lines 297, 316, 340, 344). The loops carry on with whatever the scratch buffers held.

## Model

| member | source | states |
|---|---|---|
| Commands.GetCommand | srcs/host_app/server_main.c:460-477 | the result is the first command, in the order INIT_PLATFORM … GET_IMAGE, whose whole name prefixes the token; no command ranked before it matches; the result is "unrecognized" (-1) exactly when no name matches |
| Commands.NameDecodes | srcs/host_app/server_main.c:460-477 | each command name, followed by any bytes, decodes to that command: no name tried earlier is a prefix of a later one |
| Commands.Receive | srcs/host_app/server_main.c:178 | a receive into msg overwrites only a prefix of the 128-byte buffer; every later byte keeps what earlier messages left |
| Commands.StaleTailDecodes | srcs/host_app/server_main.c:178-184 | a message that matches no name ("INIT_") received after "INIT_KERNEL" is still decoded as INIT_KERNEL, because of the stale tail |
| Lifecycle.HandleCommand | srcs/host_app/server_main.c:229-282 | exactly one response, sent last, after any device call. INIT_PLATFORM while not initialised calls initialize_platform, takes the status it reports and answers "platform initialized" or "could not initialize platform" according to it; when initialised it answers "Platform already initialized" with cl unchanged. INIT_KERNEL with nonzero status answers "first initialize platform" with no device call. INIT_KERNEL with status 0 and not yet initialised calls initialize_kernel, takes the status it reports, becomes initialised exactly when that status is 0 and answers "kernel initialized" or "Could not initialize the kernel" accordingly. INIT_KERNEL with status 0 when initialised sends the unwritten buffer. `initialized` becomes true only through an INIT_KERNEL that leaves status 0 and is never cleared. CLEAN_KERNEL and START_KERNEL always reach the device, take the status it reports and answer "Kernel cleaned" and "Started computation". Any other code answers "Command not recognized" with cl unchanged. Without a device call cl does not change |
| Lifecycle.PlatformInitRepeats | srcs/host_app/server_main.c:234-243 | before a kernel initialisation succeeds, two INIT_PLATFORM commands both reach the device, whatever the first one reported |
| Lifecycle.CleanKeepsInitialized | srcs/host_app/server_main.c:246-267 | after a successful INIT_KERNEL and a CLEAN_KERNEL, `initialized` is still true and INIT_PLATFORM is refused without a device call |
| Upload.Iterations | srcs/host_app/server_main.c:309-323 | the receive loop makes ceil(data_size / 8192) passes, none when data_size is not positive |
| Upload.ChunkSizing | srcs/host_app/server_main.c:309-313 | the self-referential to_read formula equals min(8192, data_size - j·8192); every pass but the last reads a whole chunk; the last ends exactly at data_size |
| Upload.ChunkRecvs | srcs/host_app/server_main.c:309-316 | pass k's receive asks for the chunk length of pass k |
| Upload.UploadTrace | srcs/host_app/server_main.c:295-327 | the size is read first, then ACK_SIZE is sent before any chunk is read; ACK_DATA is sent once, after the last chunk receive |
| Upload.UploadRequestsDeclared | srcs/host_app/server_main.c:309-323 | the chunk receives of an upload ask for exactly data_size elements in total (0 for a size that is not positive) |
| Upload.PassFills | srcs/host_app/server_main.c:319-320 | destination index j·8192 + i holds position i of the scratch buffer as pass j's receive left it |
| Upload.ReassemblyFromFullChunks | srcs/host_app/server_main.c:319-320 | when every receive delivers what it asks for, destination index k·8192 + i holds element i of chunk k |
| Upload.UploadRoundTrip | srcs/host_app/server_main.c:288-328 | a payload cut by the client into 8192-element chunks is reassembled element for element, whatever the scratch buffer held before |
| Upload.Recv | srcs/host_app/server_main.c:315-316 | the receive into data_chunks overwrites its first min(elements arrived, to_read) positions with what arrived and keeps the rest as it was (Overlay) |
| Upload.CopyChunk | srcs/host_app/server_main.c:319-320 | the copy loop writes chunk elements 0..to_read-1 to offset j·8192 and nothing else |
| Upload.ReceivePass | srcs/host_app/server_main.c:310-322 | one pass advances the scratch buffer to its state after pass j, fixes the destination up to j·8192 + to_read, and leaves every later destination element as it was |
| Upload.HandleWriteData | srcs/host_app/server_main.c:288-328 | the returned data_size is the declared size; the destination has exactly that many elements, so no write lands at or beyond it; every element is the reassembled one; the events are exactly the upload framing |
| Upload.CounterWrapsAsWritten | srcs/host_app/server_main.c:309-313 | with 32-bit data_read, a declared size in (2^31 - 8192, 2^31) makes data_read wrap negative; that pass asks for a whole chunk, its copy passes data_size, and the loop condition still holds after it |
| Upload.WrapNeverExits | srcs/host_app/server_main.c:309-310 | for such a size, every value a 32-bit data_read can take that is a multiple of 8192 is below the size, so the loop never exits |
| Upload.WideCounterSuffices | srcs/host_app/server_main.c:309-313 | with a wider counter, data_read stays below 2^31 + 8192 for every int size, and the passes never read past the declared size |
| Download.HandleReadData | srcs/host_app/server_main.c:336-374 | exactly four steps: receive ack, send size, receive ack, send payload; each send follows an ack; the client receives exactly the first data_size bytes, announced by their count |
| Pixels.ExtractBits | srcs/host_app/server_main.c:432-433 | bits lo..hi-1 of the word's 32-bit pattern, a value below 2^(hi-lo) |
| Pixels.Transition | srcs/host_app/server_main.c:432 | the transition field is below 64 |
| Pixels.Group | srcs/host_app/server_main.c:433 | the group field is below 2^20 |
| Pixels.FieldsRecompose | srcs/host_app/server_main.c:432-433 | transition + 64·group gives back bits 0..25 of the word: the two fields tile them |
| Pixels.PixelRule | srcs/host_app/server_main.c:432-439 | a word equal to max_depth gives black; any other word gives palette[bits 6..8][bits 0..5], so group mod 8 is always a valid group |
| Pixels.Render | srcs/host_app/server_main.c:424-442 | the image holds three bytes per word |
| Pixels.RenderAt | srcs/host_app/server_main.c:431-442 | image byte q is component q mod 3 of the pixel of word q / 3 |
| Pixels.BuildImage | srcs/host_app/server_main.c:424-442 | the loop with i stepping by 3 fills a fresh buffer of width·height·3 bytes equal to Render of the words |
| Session.Dispatch | srcs/host_app/server_main.c:186-217 | each transfer command first announces itself; only an image that cannot be encoded stops the process, with Exit as the last step; only INIT_KERNEL can change `initialized` |
| Session.DispatchCommand | srcs/host_app/server_main.c:186-217 | main's switch, calling the upload, image and download routines, produces the outcome Dispatch specifies |
| Session.OneResponse | srcs/host_app/server_main.c:186-217 | every command, whatever it is, is answered with exactly one status response, and no transfer step reads a command message |
| Session.TransferResponds | srcs/host_app/server_main.c:187-214 | WRITE_DATA, READ_DATA and GET_IMAGE answer once, before any transfer step |
| Session.Initial | srcs/host_app/server_main.c:115-116 | the server starts with nonzero status, no events and not halted |
| Session.Serve | srcs/host_app/server_main.c:177-218 | one connection's command loop keeps the message buffer at 128 bytes |
| Session.ServeConnection | srcs/host_app/server_main.c:177-218 | the command loop serves messages until a disconnect or an exit, with the result Serve specifies |
| Session.AcceptLoop | srcs/host_app/server_main.c:171-219 | connections are served one after another, sharing cl and the message buffer, as ServeAll specifies |
| Session.ResponsePerMessage | srcs/host_app/server_main.c:177-217 | over a whole connection, the responses sent equal the command messages read |
| Session.InitializedIsSticky | srcs/host_app/server_main.c:177-218 | once `initialized` is true it stays true for the rest of the connection, cleaning included |
| Session.InitializedSurvivesReconnect | srcs/host_app/server_main.c:171-219 | `initialized` survives reconnections, for the life of the process |
| Session.FreshServerRefusesKernelInit | srcs/host_app/server_main.c:246-250 | INIT_KERNEL as the first message after start-up answers "first initialize platform" with no device call, whatever `initialized` holds |
| Session.FreshServerInitializesPlatform | srcs/host_app/server_main.c:234-240 | when `initialized` starts false, INIT_PLATFORM as the first message reaches the device; on success the client reads "platform initialized" and status becomes 0 |
| Session.StartInitializedRefusesPlatform | srcs/host_app/server_main.c:234-242 | when `initialized` starts true (main sets only `status`, lines 115-116), INIT_PLATFORM as the first message answers "Platform already initialized" with no device call, and status stays 1 |
| Session.EmptyWrite | srcs/host_app/server_main.c:187-195 | a WRITE_DATA of zero elements reads the size and sends both acks back to back, with no chunk receive |

## Left out

- Socket setup, `accept` failures and `recv`/`send` as system calls (lines 133-152, 172-175) are left out. Receives are values supplied by an `Exchange`; sends and receives are events in a trace. A receive that returns -1 is not told apart from one that delivers bytes. A send failure, which ends the process through `perror` at lines 347-348 and 370-371, is not modelled.
- Partial sends are not modelled: a payload is one send event.
- The accelerator runtime (`initialize_platform`, `initialize_kernel`, `write_kernel_data`, `start_kernel`, `read_kernel_data`, `clean_kernel`) is left out, and framework/host/hw_kernel.c is not part of this model. Each call is a `Device` event, and the status it leaves comes from `Replies`. Each runtime call is taken to change only `status`. `initialized` is assumed to survive every call, including `initialize_platform()`, which builds a fresh record (line 236). The data the device returns comes from the `Exchange`.
- Upload.Recv: receives are counted in whole elements. `recv` at line 315 asks for bytes, and a short read that ends inside an element, leaving that element part new and part stale, is not represented. UploadRoundTrip assumes full deliveries and is unaffected.
- Nothing about device memory contents is modelled beyond what the server reads back.
- PNG encoding (`lodepng_encode24`, line 445) is a function parameter that returns either bytes or a failure.
- `clock_gettime` timing (lines 406-422) is left out.
- The `(long)` casts of the uploaded doubles into the request (lines 392-398) are left out. Width, height and max_depth are given as integers in a `Descriptor`, and the coordinates are not modelled. Negative width or height is therefore not represented.
- Session.Dispatch does not model `int` overflow in `input.width * input.height * 3` or in `(int)pngsize`: the sizes are unbounded integers.
- Palette loading (`get_color_scheme`) is left out: the palette is an immutable 8-group table.
- `extract_bits` is defined in utility.h, which is not part of this model. It is specified as "bits lo..hi-1 of the 32-bit pattern".
- The numeric values in protocol.h and kernel.h are not part of this model: the command literals (taken to be the macro names), `COLS * ROWS * sizeof(int)` and `sizeof(input_struct)`. The last two are configuration values.
- The text printed to the server's standard output is left out.
- Upload.HandleWriteData holds data_read in an unbounded integer, so it does not reproduce the 32-bit wrap-around. That wrap-around is modelled separately in Upload.CounterWrapsAsWritten; see Findings.
- Upload.HandleWriteData: the element type is generic. The doubles of the source are not interpreted.
- The freeing of buffers is left out.

## Findings

| source | as written | input that shows it | evidently intended | confidence | as-written member | corrected member |
|---|---|---|---|---|---|---|
| srcs/host_app/server_main.c:309-313 | `data_read` is an `int` and grows by 8192 before it is compared with `data_size` | a declared size of 2147483647: in the pass starting at 2147475456, `data_read` wraps to a negative value, so `to_read` stays 8192, the copy writes at and beyond index `data_size`, and the loop condition stays true | the passes stop at the declared size, and the last pass reads only the remainder | not executed | Upload.CounterWrapsAsWritten | Upload.WideCounterSuffices |
