/** Chunked upload (handle_write_data in srcs/host_app/server_main.c): the
    client declares an element count, the server acknowledges it, receives
    the payload in chunks of CHUNK_SIZE elements into a scratch buffer,
    copies each chunk to its offset of the destination array, and
    acknowledges the whole. The connection is an abstract sequence of
    deliveries: chunk k is what the k-th receive of the loop hands over. */
module Upload {
  import opened Wire

  const CHUNK_SIZE: nat := 8192

  function Min(a: int, b: int): int { if a <= b then a else b }

  /** Number of passes of the receive loop: ceil(size / CHUNK_SIZE), and none
      for a size that is not positive. */
  function Iterations(size: int): (n: nat)
    ensures n == 0 <==> size <= 0
    ensures size > 0 ==> n * CHUNK_SIZE - CHUNK_SIZE < size <= n * CHUNK_SIZE
  {
    if size <= 0 then 0 else (size + CHUNK_SIZE - 1) / CHUNK_SIZE
  }

  /** to_read in pass k, as lines 310-313 compute it from data_read after
      the increment and the previous pass's to_read, which is CHUNK_SIZE in
      every pass but the last (the invariant HandleWriteData proves). */
  function ChunkLen(size: int, k: nat): int {
    var dataRead := k * CHUNK_SIZE + CHUNK_SIZE;
    if dataRead > size then size - (dataRead - CHUNK_SIZE) else CHUNK_SIZE
  }

  /** Every pass but the last asks for a whole chunk; the last asks for what
      is left, so the passes stop exactly at the declared size. */
  lemma ChunkSizing(size: int, k: nat)
    requires k < Iterations(size)
    ensures ChunkLen(size, k) == Min(CHUNK_SIZE, size - k * CHUNK_SIZE)
    ensures 0 < ChunkLen(size, k) <= CHUNK_SIZE
    ensures k + 1 < Iterations(size) ==> ChunkLen(size, k) == CHUNK_SIZE
    ensures k + 1 == Iterations(size) ==> k * CHUNK_SIZE + ChunkLen(size, k) == size
  {
  }

  /** The chunk receives of the first n passes. */
  function ChunkRecvs(size: int, n: nat): (t: seq<Event>)
    ensures |t| == n
    ensures forall k :: 0 <= k < n ==> t[k] == RecvChunk(ChunkLen(size, k))
  {
    if n == 0 then [] else ChunkRecvs(size, n - 1) + [RecvChunk(ChunkLen(size, n - 1))]
  }

  /** The framing of an upload: the size is read and ACK_SIZE sent before any
      chunk is read; ACK_DATA is sent once, after the last chunk. */
  function UploadTrace(size: int): (t: seq<Event>)
    ensures |t| == Iterations(size) + 3
    ensures t[0] == RecvSize(size) && t[1] == SendAck(ACK_SIZE) && t[|t| - 1] == SendAck(ACK_DATA)
    ensures forall i :: 2 <= i < |t| - 1 ==> t[i] == RecvChunk(ChunkLen(size, i - 2))
  {
    [RecvSize(size), SendAck(ACK_SIZE)] + ChunkRecvs(size, Iterations(size)) + [SendAck(ACK_DATA)]
  }

  /** Total number of elements the chunk receives of a trace ask for. */
  function Requested(t: seq<Event>): int {
    if t == [] then 0
    else Requested(t[..|t| - 1]) + (if t[|t| - 1].RecvChunk? then t[|t| - 1].requested else 0)
  }

  lemma {:induction false} RequestedAppend(a: seq<Event>, b: seq<Event>)
    ensures Requested(a + b) == Requested(a) + Requested(b)
    decreases |b|
  {
    if b == [] {
      assert a + b == a;
    } else {
      var b' := b[..|b| - 1];
      assert (a + b)[..|a + b| - 1] == a + b';
      RequestedAppend(a, b');
    }
  }

  lemma {:induction false} ChunkRecvsRequest(size: int, n: nat)
    requires n <= Iterations(size)
    ensures Requested(ChunkRecvs(size, n)) == Min(n * CHUNK_SIZE, if size < 0 then 0 else size)
  {
    if n > 0 {
      var t := ChunkRecvs(size, n);
      assert t[..n - 1] == ChunkRecvs(size, n - 1);
      assert Requested(t) == Requested(t[..n - 1]) + ChunkLen(size, n - 1);
      ChunkRecvsRequest(size, n - 1);
      ChunkSizing(size, n - 1);
      assert (n - 1) * CHUNK_SIZE + CHUNK_SIZE == n * CHUNK_SIZE;
    }
  }

  /** The chunk receives ask, in total, for exactly the declared element count. */
  lemma UploadRequestsDeclared(size: int)
    ensures Requested(UploadTrace(size)) == if size < 0 then 0 else size
  {
    var n := Iterations(size);
    RequestedAppend([RecvSize(size), SendAck(ACK_SIZE)], ChunkRecvs(size, n));
    RequestedAppend([RecvSize(size), SendAck(ACK_SIZE)] + ChunkRecvs(size, n), [SendAck(ACK_DATA)]);
    assert Requested([RecvSize(size), SendAck(ACK_SIZE)]) == 0 by {
      assert [RecvSize(size), SendAck(ACK_SIZE)][..1] == [RecvSize(size)];
      assert [RecvSize(size)][..0] == [];
    }
    assert Requested([SendAck(ACK_DATA)]) == 0 by {
      assert [SendAck(ACK_DATA)][..0] == [];
    }
    ChunkRecvsRequest(size, n);
  }

  /** What the k-th receive of the loop delivers; a disconnected client
      delivers nothing and the loop carries on. */
  function Delivered<T>(chunks: seq<seq<T>>, k: nat): seq<T> {
    if k < |chunks| then chunks[k] else []
  }

  /** A receive of at most `limit` elements into `buf`: what arrives
      overwrites a prefix, the rest keeps the buffer's older contents. */
  function Overlay<T>(buf: seq<T>, got: seq<T>, limit: int): (r: seq<T>)
    ensures |r| == |buf|
  {
    seq(|buf|, i requires 0 <= i < |buf| => if i < |got| && i < limit then got[i] else buf[i])
  }

  /** Contents of the scratch buffer data_chunks after n passes. */
  function Scratch<T>(init: seq<T>, chunks: seq<seq<T>>, size: int, n: nat): (s: seq<T>)
    ensures |s| == |init|
  {
    if n == 0 then init
    else Overlay(Scratch(init, chunks, size, n - 1), Delivered(chunks, n - 1), ChunkLen(size, n - 1))
  }

  /** Destination element idx, counted from the offset k * CHUNK_SIZE of
      pass k: position idx of the scratch buffer after pass k when idx falls
      in that pass's chunk, otherwise what a later pass places there. */
  function PlacedFrom<T>(init: seq<T>, chunks: seq<seq<T>>, size: int, k: nat, idx: nat): T
    requires |init| == CHUNK_SIZE
    decreases idx
  {
    if idx < CHUNK_SIZE then Scratch(init, chunks, size, k + 1)[idx]
    else PlacedFrom(init, chunks, size, k + 1, idx - CHUNK_SIZE)
  }

  /** Destination element idx after the receive loop. */
  function UploadedAt<T>(init: seq<T>, chunks: seq<seq<T>>, size: int, idx: nat): T
    requires |init| == CHUNK_SIZE
  {
    PlacedFrom(init, chunks, size, 0, idx)
  }

  lemma {:induction false} PlacedFromPass<T>(init: seq<T>, chunks: seq<seq<T>>, size: int, k: nat, j: nat, i: nat)
    requires |init| == CHUNK_SIZE && i < CHUNK_SIZE
    ensures PlacedFrom(init, chunks, size, k, j * CHUNK_SIZE + i) == Scratch(init, chunks, size, k + j + 1)[i]
    decreases j
  {
    if j > 0 {
      assert j * CHUNK_SIZE + i - CHUNK_SIZE == (j - 1) * CHUNK_SIZE + i;
      PlacedFromPass(init, chunks, size, k + 1, j - 1, i);
    }
  }

  /** Pass j fills destination indices j * CHUNK_SIZE up to the end of its
      chunk from the scratch buffer as that pass's receive left it. */
  lemma PassFills<T>(init: seq<T>, chunks: seq<seq<T>>, size: int, j: nat, i: nat)
    requires |init| == CHUNK_SIZE && i < CHUNK_SIZE
    ensures UploadedAt(init, chunks, size, j * CHUNK_SIZE + i) == Scratch(init, chunks, size, j + 1)[i]
  {
    PlacedFromPass(init, chunks, size, 0, j, i);
  }

  /** Every receive of the loop delivers at least what it asks for. */
  predicate FullDeliveries<T>(chunks: seq<seq<T>>, size: int) {
    forall k: nat :: k < Iterations(size) ==> |Delivered(chunks, k)| >= ChunkLen(size, k)
  }

  /** When every receive delivers at least what it asked for, destination
      element k * CHUNK_SIZE + i is element i of chunk k. */
  lemma ReassemblyFromFullChunks<T>(init: seq<T>, chunks: seq<seq<T>>, size: int, k: nat, i: nat)
    requires |init| == CHUNK_SIZE && i < CHUNK_SIZE
    requires k * CHUNK_SIZE + i < size
    requires FullDeliveries(chunks, size)
    ensures k < |chunks| && i < |chunks[k]|
    ensures UploadedAt(init, chunks, size, k * CHUNK_SIZE + i) == chunks[k][i]
  {
    PassFills(init, chunks, size, k, i);
    assert k < Iterations(size);
    ChunkSizing(size, k);
  }

  /** How a client cuts a payload into chunks of CHUNK_SIZE elements. */
  function Split<T>(payload: seq<T>): (chunks: seq<seq<T>>)
    decreases |payload|
  {
    if payload == [] then []
    else if |payload| <= CHUNK_SIZE then [payload]
    else [payload[..CHUNK_SIZE]] + Split(payload[CHUNK_SIZE..])
  }

  lemma {:induction false} SplitAt<T>(payload: seq<T>, k: nat)
    decreases |payload|
    ensures |Split(payload)| == Iterations(|payload|)
    ensures k < |Split(payload)| ==>
              Split(payload)[k] == payload[k * CHUNK_SIZE .. Min(k * CHUNK_SIZE + CHUNK_SIZE, |payload|)]
  {
    if |payload| > CHUNK_SIZE {
      var rest := payload[CHUNK_SIZE..];
      SplitAt(rest, if k == 0 then 0 else k - 1);
      if 0 < k < |Split(payload)| {
        var from := (k - 1) * CHUNK_SIZE;
        assert from + CHUNK_SIZE == k * CHUNK_SIZE;
        assert Split(payload)[k] == Split(rest)[k - 1];
        DropSlice(payload, CHUNK_SIZE, from, Min(k * CHUNK_SIZE, |rest|));
      }
    }
  }

  lemma DropSlice<T>(s: seq<T>, c: nat, from: nat, to: nat)
    requires c <= |s| && from <= to <= |s| - c
    ensures s[c..][from..to] == s[c + from .. c + to]
  {
  }

  /** Chunk k of a split payload holds exactly what pass k asks for. */
  lemma {:induction false} SplitChunk<T>(payload: seq<T>, k: nat)
    requires k < Iterations(|payload|)
    ensures k < |Split(payload)| && |Split(payload)[k]| == ChunkLen(|payload|, k)
  {
    SplitAt(payload, k);
    ChunkSizing(|payload|, k);
  }

  /** Element i of chunk k of a split payload is payload element k * CHUNK_SIZE + i. */
  lemma {:induction false} SplitElement<T>(payload: seq<T>, k: nat, i: nat)
    requires i < CHUNK_SIZE && k * CHUNK_SIZE + i < |payload|
    ensures k < |Split(payload)| && i < |Split(payload)[k]|
    ensures Split(payload)[k][i] == payload[k * CHUNK_SIZE + i]
  {
    SplitAt(payload, k);
    var chunk := payload[k * CHUNK_SIZE .. Min(k * CHUNK_SIZE + CHUNK_SIZE, |payload|)];
    assert chunk[i] == payload[k * CHUNK_SIZE + i];
  }

  lemma {:induction false} SplitIsFull<T>(payload: seq<T>)
    ensures FullDeliveries(Split(payload), |payload|)
  {
    forall k: nat | k < Iterations(|payload|)
      ensures |Delivered(Split(payload), k)| >= ChunkLen(|payload|, k)
    {
      SplitChunk(payload, k);
    }
  }

  /** Round trip: a payload cut into chunks by the client is reassembled
      element for element, whatever the scratch buffer held before. */
  lemma {:induction false} UploadRoundTrip<T>(init: seq<T>, payload: seq<T>, idx: nat)
    requires |init| == CHUNK_SIZE && idx < |payload|
    ensures UploadedAt(init, Split(payload), |payload|, idx) == payload[idx]
  {
    var k, i := idx / CHUNK_SIZE, idx % CHUNK_SIZE;
    assert idx == k * CHUNK_SIZE + i;
    SplitIsFull(payload);
    ReassemblyFromFullChunks(init, Split(payload), |payload|, k, i);
    SplitElement(payload, k, i);
  }

  /** recv into the scratch buffer, asking for `limit` elements. */
  method Recv<T>(buf: array<T>, got: seq<T>, limit: int)
    modifies buf
    ensures buf[..] == Overlay(old(buf[..]), got, limit)
  {
    var m := Min(Min(|got|, if limit < 0 then 0 else limit), buf.Length);
    forall i | 0 <= i < m {
      buf[i] := got[i];
    }
  }

  /** The copy of one chunk to offset j * CHUNK_SIZE of the destination. */
  method CopyChunk<T>(data: array<T>, chunk: array<T>, j: nat, toRead: nat)
    requires data != chunk
    requires toRead <= chunk.Length && j * CHUNK_SIZE + toRead <= data.Length
    modifies data
    ensures forall idx :: 0 <= idx < data.Length ==>
              data[idx] == if j * CHUNK_SIZE <= idx < j * CHUNK_SIZE + toRead
                           then chunk[idx - j * CHUNK_SIZE] else old(data[idx])
  {
    var i := 0;
    while i < toRead
      invariant 0 <= i <= toRead
      invariant forall idx :: 0 <= idx < data.Length ==>
                  data[idx] == if j * CHUNK_SIZE <= idx < j * CHUNK_SIZE + i
                               then chunk[idx - j * CHUNK_SIZE] else old(data[idx])
    {
      data[i + j * CHUNK_SIZE] := chunk[i];
      i := i + 1;
    }
  }

  /** One pass of the loop: receive chunk j into the scratch buffer, then
      copy what was asked for to offset j * CHUNK_SIZE of the destination. */
  method ReceivePass<T>(data: array<T>, dataChunks: array<T>, ghost init: seq<T>, chunks: seq<seq<T>>,
                        dataSize: int, j: nat, toRead: nat)
    requires data != dataChunks && |init| == CHUNK_SIZE
    requires toRead == ChunkLen(dataSize, j) <= CHUNK_SIZE
    requires data.Length == dataSize && j * CHUNK_SIZE + toRead <= dataSize
    requires dataChunks[..] == Scratch(init, chunks, dataSize, j)
    requires forall idx :: 0 <= idx < j * CHUNK_SIZE ==> data[idx] == UploadedAt(init, chunks, dataSize, idx)
    modifies data, dataChunks
    ensures dataChunks[..] == Scratch(init, chunks, dataSize, j + 1)
    ensures forall idx :: 0 <= idx < j * CHUNK_SIZE + toRead ==> data[idx] == UploadedAt(init, chunks, dataSize, idx)
    ensures forall idx :: j * CHUNK_SIZE + toRead <= idx < data.Length ==> data[idx] == old(data[idx])
  {
    Recv(dataChunks, Delivered(chunks, j), toRead);
    CopyChunk(data, dataChunks, j, toRead);
    forall idx | j * CHUNK_SIZE <= idx < j * CHUNK_SIZE + toRead
      ensures data[idx] == UploadedAt(init, chunks, dataSize, idx)
    {
      var i := idx - j * CHUNK_SIZE;
      PassFills(init, chunks, dataSize, j, i);
      assert idx == j * CHUNK_SIZE + i;
      assert data[idx] == dataChunks[i] == Scratch(init, chunks, dataSize, j + 1)[i];
    }
  }

  /** handle_write_data. `declared` is the value the size receive leaves in
      data_size; `init` is what the freshly allocated scratch buffer holds. */
  method HandleWriteData<T(0)>(declared: int, chunks: seq<seq<T>>)
    returns (data: array<T>, dataSize: int, trace: seq<Event>, ghost init: seq<T>)
    ensures fresh(data)
    ensures dataSize == declared
    ensures data.Length == if declared < 0 then 0 else declared
    ensures |init| == CHUNK_SIZE
    ensures trace == UploadTrace(declared)
    ensures forall idx :: 0 <= idx < data.Length ==> data[idx] == UploadedAt(init, chunks, declared, idx)
  {
    dataSize := declared;
    trace := [RecvSize(dataSize), SendAck(ACK_SIZE)];
    data := new T[if dataSize < 0 then 0 else dataSize];
    var dataChunks := new T[CHUNK_SIZE];
    init := dataChunks[..];
    var dataRead, toRead, j := 0, CHUNK_SIZE, 0;
    while dataRead < dataSize
      modifies data, dataChunks
      invariant 0 <= j <= Iterations(dataSize)
      invariant dataRead == j * CHUNK_SIZE
      invariant j < Iterations(dataSize) <==> dataRead < dataSize
      invariant dataRead <= dataSize ==> toRead == CHUNK_SIZE
      invariant dataChunks[..] == Scratch(init, chunks, dataSize, j)
      invariant trace == [RecvSize(dataSize), SendAck(ACK_SIZE)] + ChunkRecvs(dataSize, j)
      invariant forall idx :: 0 <= idx < data.Length && idx < dataRead ==>
                  data[idx] == UploadedAt(init, chunks, dataSize, idx)
    {
      dataRead := dataRead + CHUNK_SIZE;
      toRead := if dataRead > dataSize then dataSize - (dataRead - toRead) else CHUNK_SIZE;
      assert toRead == ChunkLen(dataSize, j);
      ChunkSizing(dataSize, j);
      ReceivePass(data, dataChunks, init, chunks, dataSize, j, toRead);
      trace := trace + [RecvChunk(toRead)];
      j := j + 1;
    }
    trace := trace + [SendAck(ACK_DATA)];
  }

  /** Two's-complement wrap-around of a 32-bit int. */
  function Wrap32(x: int): (r: int)
    ensures -0x8000_0000 <= r < 0x8000_0000
    ensures -0x8000_0000 <= x < 0x8000_0000 ==> r == x
  {
    (x + 0x8000_0000) % 0x1_0000_0000 - 0x8000_0000
  }

  /** One pass of lines 310-313 with data_read and to_read in 32-bit ints,
      as written: the new data_read and to_read. */
  function PassAsWritten(dataRead: int, toRead: int, size: int): (int, int) {
    var dr := Wrap32(dataRead + CHUNK_SIZE);
    (dr, if dr > size then Wrap32(size - Wrap32(dr - toRead)) else CHUNK_SIZE)
  }

  /** The largest declared size whose passes keep data_read within int. */
  const LAST_SAFE_SIZE: int := 0x8000_0000 - CHUNK_SIZE

  /** As written, a declared size above LAST_SAFE_SIZE makes data_read wrap
      to a negative value in the pass that starts at LAST_SAFE_SIZE: that pass
      asks for a whole chunk instead of the remainder, its copy reaches index
      data_size or beyond, and the loop condition still holds. */
  lemma CounterWrapsAsWritten(size: int)
    requires LAST_SAFE_SIZE < size < 0x8000_0000
    ensures var j := LAST_SAFE_SIZE / CHUNK_SIZE;
            var (dr, tr) := PassAsWritten(j * CHUNK_SIZE, CHUNK_SIZE, size);
            j * CHUNK_SIZE < size && dr < 0 && dr < size && tr == CHUNK_SIZE &&
            j * CHUNK_SIZE + tr - 1 >= size && tr > ChunkLen(size, j)
  {
  }

  /** ... and no later pass leaves the loop either: every value a 32-bit
      data_read can take that is a multiple of CHUNK_SIZE lies below such a size. */
  lemma WrapNeverExits(size: int, dataRead: int)
    requires LAST_SAFE_SIZE < size < 0x8000_0000
    requires -0x8000_0000 <= dataRead < 0x8000_0000 && dataRead % CHUNK_SIZE == 0
    ensures dataRead < size
  {
  }

  /** With data_read held in an integer wider than int (as HandleWriteData
      does), the counter stays below 2^31 + CHUNK_SIZE for every int size,
      so a 64-bit counter never wraps and the passes end at the declared size. */
  lemma WideCounterSuffices(size: int, j: nat)
    requires size < 0x8000_0000 && j <= Iterations(size)
    ensures j * CHUNK_SIZE < 0x8000_0000 + CHUNK_SIZE
    ensures 0 < j ==> (j - 1) * CHUNK_SIZE + ChunkLen(size, j - 1) <= size
  {
    if 0 < j {
      ChunkSizing(size, j - 1);
    }
  }
}
