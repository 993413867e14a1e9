/** The chunking compressor: cut into chunks, compress each with the child, frame
    the results; and back.  The child is a pair of functions: `dec` fills a buffer of
    the shape it is given. */
module ChunkingPlugin {
  import opened Layout
  import opened ChunkMap
  import opened Scans
  import opened Contiguity
  import opened ChunkData
  import opened Frame

  datatype Data = Data(dims: Shape, values: seq<int>)

  datatype Codec = Codec(enc: Data -> seq<byte>, dec: (seq<byte>, Shape) -> seq<int>)

  ghost predicate WellFormed(d: Data) {
    |d.values| == Prod(d.dims)
  }

  /** The child fills the buffers it is handed. */
  ghost predicate Sized(codec: Codec) {
    forall p, shape :: |codec.dec(p, shape)| == Prod(shape)
  }

  ghost predicate Lossless(codec: Codec) {
    forall d :: WellFormed(d) ==> codec.dec(codec.enc(d), d.dims) == d.values
  }

  /** The configured chunk size is either unset or a positive size of the array's rank. */
  predicate ChunkSizeFor(dims: Shape, chunk: Shape) {
    && |dims| >= 1 && (|dims| >= 4 ==> Positive(dims))
    && (chunk != [] ==> |chunk| == |dims| && Positive(chunk))
  }

  function NumChunks(dims: Shape, chunk: Shape): nat
    requires ChunkSizeFor(dims, chunk)
  {
    if chunk == [] then 1 else Prod(MaxIdx(dims, chunk))
  }

  predicate FastPath(dims: Shape, chunk: Shape)
    requires ChunkSizeFor(dims, chunk)
  {
    Contiguous(dims, chunk) && ValidDims(dims, chunk)
  }

  /** The copying path is out of reach at rank 4 and up. */
  predicate Refused(dims: Shape, chunk: Shape)
    requires ChunkSizeFor(dims, chunk)
  {
    NumChunks(dims, chunk) != 1 && !FastPath(dims, chunk) && |dims| >= 4
  }

  /** A buffer of `len` elements has a whole piece `i` of `k` elements. */
  predicate HasPiece(k: nat, len: nat, i: nat) {
    (i + 1) * k <= len
  }

  /** Piece `i` of a buffer of pieces of shape `chunk`. */
  function Piece(chunk: Shape, mem: seq<int>, i: nat): (d: Data)
    requires HasPiece(Prod(chunk), |mem|, i)
    ensures d.dims == chunk && |d.values| == Prod(chunk)
  {
    PieceBounds(Prod(chunk), i);
    Data(chunk, mem[i * Prod(chunk)..(i + 1) * Prod(chunk)])
  }

  lemma PieceBounds(k: nat, i: nat)
    ensures 0 <= i * k <= (i + 1) * k == i * k + k
  {
  }

  lemma PieceFits(n: nat, k: nat, len: nat, i: nat)
    requires i < n && n * k <= len
    ensures HasPiece(k, len, i)
  {
    MulMono(k, i + 1, n);
  }

  /** What the child is asked to compress. */
  function Chunks(input: Data, chunk: Shape): (cs: seq<Data>)
    requires ChunkSizeFor(input.dims, chunk) && |input.values| == Prod(input.dims)
    ensures |cs| == NumChunks(input.dims, chunk)
  {
    if NumChunks(input.dims, chunk) == 1 then [input]
    else
      var n, mem := NumChunks(input.dims, chunk), ChunkMemory(input.dims, chunk, input.values);
      seq(n, i requires 0 <= i < n => PieceFits(n, Prod(chunk), |mem|, i); Piece(chunk, mem, i))
  }

  function Payloads(codec: Codec, input: Data, chunk: Shape): (ps: seq<seq<byte>>)
    requires ChunkSizeFor(input.dims, chunk) && |input.values| == Prod(input.dims)
    ensures |ps| == NumChunks(input.dims, chunk)
  {
    var cs := Chunks(input, chunk);
    seq(|cs|, i requires 0 <= i < |cs| => codec.enc(cs[i]))
  }

  lemma PieceOf(chunk: Shape, mem: seq<int>, i: nat, k: nat)
    requires HasPiece(Prod(chunk), |mem|, i) && k < Prod(chunk)
    ensures i * Prod(chunk) + k < |mem| && Piece(chunk, mem, i).values[k] == mem[i * Prod(chunk) + k]
  {
    PieceBounds(Prod(chunk), i);
  }

  /** With several chunks, the child gets one per block of the grid, in flat order: its
      shape is the chunk size, its element `e` is the array element at `b * chunk + e`,
      or 0 where that lies outside, and its first element always lies inside. */
  lemma ChunkAt(input: Data, chunk: Shape, b: seq<nat>, e: seq<nat>)
    requires ChunkSizeFor(input.dims, chunk) && WellFormed(input) && NumChunks(input.dims, chunk) != 1
    requires InBox(MaxIdx(input.dims, chunk), b) && InBox(chunk, e)
    ensures var x, i := At(chunk, b, e), Flat(MaxIdx(input.dims, chunk), b);
            && |Chunks(input, chunk)| == Prod(MaxIdx(input.dims, chunk)) && i < |Chunks(input, chunk)|
            && Chunks(input, chunk)[i].dims == chunk
            && Flat(chunk, e) < |Chunks(input, chunk)[i].values| == Prod(chunk)
            && (InBox(input.dims, x) ==>
                  Flat(input.dims, x) < |input.values|
                  && Chunks(input, chunk)[i].values[Flat(chunk, e)] == input.values[Flat(input.dims, x)])
            && (!InBox(input.dims, x) ==> Chunks(input, chunk)[i].values[Flat(chunk, e)] == 0)
    ensures InBox(input.dims, At(chunk, b, Zeros(|chunk|)))
  {
    var dims, mem := input.dims, ChunkMemory(input.dims, chunk, input.values);
    FlatInRange(MaxIdx(dims, chunk), b);
    FlatInRange(chunk, e);
    NoBlockIsPadding(dims, chunk, b);
    FilledAt(dims, chunk, input.values, seq(Total(dims, chunk), k => 0), b, e);
    PieceFits(NumChunks(dims, chunk), Prod(chunk), |mem|, Flat(MaxIdx(dims, chunk), b));
    PieceOf(chunk, mem, Flat(MaxIdx(dims, chunk), b), Flat(chunk, e));
  }

  /** A single chunk is the array as it is. */
  lemma SingleChunk(codec: Codec, input: Data, chunk: Shape)
    requires ChunkSizeFor(input.dims, chunk) && WellFormed(input)
    requires chunk == [] || Prod(MaxIdx(input.dims, chunk)) == 1
    ensures Payloads(codec, input, chunk) == [codec.enc(input)]
  {
  }

  /** Compression is refused exactly at rank 4 and up, when there are several blocks and
      the kernel would have to move elements. */
  lemma RefusedExact(dims: Shape, chunk: Shape)
    requires ChunkSizeFor(dims, chunk)
    ensures Refused(dims, chunk) <==>
            |dims| >= 4 && chunk != [] && Prod(MaxIdx(dims, chunk)) != 1 && !KernelIsIdentity(dims, chunk)
  {
    if |dims| >= 4 && chunk != [] {
      FastPathExact(dims, chunk);
    }
  }

  // ------------------------------------------------------- the two tests

  /** The fold runs over the axes of the array and ignores further chunk extents. */
  method ComputeNumChunks(dims: Shape, chunk: Shape) returns (n: nat)
    requires chunk != [] ==> |chunk| >= |dims| && Positive(chunk)
    ensures chunk == [] ==> n == 1
    ensures chunk != [] ==> exists m :: SmallestGrid(dims, chunk[..|dims|], m) && n == Prod(m)
    ensures ChunkSizeFor(dims, chunk) ==> n == NumChunks(dims, chunk)
  {
    if chunk == [] {
      return 1;
    }
    assert ChunkSizeFor(dims, chunk) ==> chunk[..|dims|] == chunk;
    GridExact(dims, chunk[..|dims|], MaxIdx(dims, chunk[..|dims|]));
    n := 1;
    ghost var max := MaxIdx(dims, chunk[..|dims|]);
    for i := 0 to |dims|
      invariant n == Prod(max[..i])
    {
      ProdSnoc(max[..i], max[i]);
      assert max[..i + 1] == max[..i] + [max[i]];
      n := n * (if dims[i] % chunk[i] == 0 then dims[i] / chunk[i] else dims[i] / chunk[i] + 1);
    }
    assert max[..|dims|] == max;
  }

  method TakeFastPath(dims: Shape, chunk: Shape) returns (ok: bool)
    requires ChunkSizeFor(dims, chunk) && chunk != []
    ensures ok == FastPath(dims, chunk)
  {
    var contiguous := CheckContiguous(dims, chunk);
    if !contiguous {
      return false;
    }
    ok := CheckValidDims(dims, chunk);
  }

  // ----------------------------------------------------------- compressing

  /** `outputs` are the compressed pieces of `mem`. */
  ghost predicate PiecesCompressed(codec: Codec, chunk: Shape, mem: seq<int>, outputs: seq<seq<byte>>) {
    forall i :: 0 <= i < |outputs| ==>
      HasPiece(Prod(chunk), |mem|, i) && outputs[i] == codec.enc(Piece(chunk, mem, i))
  }

  /** A view of piece `i` of `mem`. */
  method View(mem: array<int>, chunk: Shape, stride: nat, i: nat) returns (d: Data)
    requires stride == Prod(chunk) && HasPiece(stride, mem.Length, i)
    ensures d == Piece(chunk, mem[..], i)
  {
    PieceBounds(stride, i);
    d := Data(chunk, mem[i * stride..(i + 1) * stride]);
    assert d.values == mem[..][i * stride..(i + 1) * stride];
  }

  /** Compresses the pieces of `mem` one after the other. */
  method CompressPieces(codec: Codec, mem: array<int>, chunk: Shape, n: nat) returns (outputs: seq<seq<byte>>)
    requires n * Prod(chunk) <= mem.Length
    ensures |outputs| == n && PiecesCompressed(codec, chunk, mem[..], outputs)
  {
    var stride := Accumulate(chunk);
    outputs := [];
    for i := 0 to n
      invariant |outputs| == i && PiecesCompressed(codec, chunk, mem[..], outputs)
    {
      PieceFits(n, stride, mem.Length, i);
      var d := View(mem, chunk, stride, i);
      outputs := outputs + [codec.enc(d)];
    }
  }

  /** The pieces of a buffer holding chunk memory are the chunks. */
  lemma PiecesAreChunks(codec: Codec, input: Data, chunk: Shape, outputs: seq<seq<byte>>, mem: seq<int>)
    requires ChunkSizeFor(input.dims, chunk) && |input.values| == Prod(input.dims)
    requires NumChunks(input.dims, chunk) != 1 && mem == ChunkMemory(input.dims, chunk, input.values)
    requires |outputs| == NumChunks(input.dims, chunk) && PiecesCompressed(codec, chunk, mem, outputs)
    ensures outputs == Payloads(codec, input, chunk)
  {
  }

  method CompressMany(codec: Codec, data: array<int>, dims: Shape, chunk: Shape, schedule: seq<nat>)
    returns (r: Result<seq<seq<byte>>>)
    requires ChunkSizeFor(dims, chunk) && data.Length == Prod(dims)
    requires chunk != [] ==> Chunkable(dims, chunk, schedule)
    modifies data
    ensures data[..] == old(data[..])
    ensures r.Failure? <==> Refused(dims, chunk)
    ensures r.Success? ==> r.value == Payloads(codec, Data(dims, data[..]), chunk)
  {
    ghost var input := Data(dims, data[..]);
    var n := ComputeNumChunks(dims, chunk);
    if n == 1 {
      return Success([codec.enc(Data(dims, data[..]))]);
    }
    var fast := TakeFastPath(dims, chunk);
    if fast {
      FastPathChunks(dims, chunk, data[..]);
      DivisibleTotal(dims, chunk);
      var outputs := CompressPieces(codec, data, chunk, n);
      PiecesAreChunks(codec, input, chunk, outputs, data[..]);
      return Success(outputs);
    }
    var tmp := ChunkData.ChunkData(data, dims, chunk, schedule);
    if tmp.Failure? {
      return Failure(tmp.error);
    }
    var outputs := CompressPieces(codec, tmp.value, chunk, n);
    PiecesAreChunks(codec, input, chunk, outputs, tmp.value[..]);
    return Success(outputs);
  }

  /** The compressed buffer is exactly the frame of the compressed chunks. */
  method Compress(codec: Codec, data: array<int>, dims: Shape, chunk: Shape, schedule: seq<nat>)
    returns (r: Result<array<byte>>)
    requires ChunkSizeFor(dims, chunk) && data.Length == Prod(dims)
    requires chunk != [] ==> Chunkable(dims, chunk, schedule)
    modifies data
    ensures data[..] == old(data[..])
    ensures r.Failure? <==> Refused(dims, chunk)
    ensures r.Success? ==> fresh(r.value) && r.value[..] == Frame.Frame(Payloads(codec, Data(dims, data[..]), chunk))
  {
    var outputs := CompressMany(codec, data, dims, chunk, schedule);
    if outputs.Failure? {
      return Failure(outputs.error);
    }
    var ps := outputs.value;
    var total := 0;
    for i := 0 to |ps|
      invariant total == TotalSize(ps[..i])
    {
      assert ps[..i + 1][..i] == ps[..i];
      total := total + |ps[i]|;
    }
    assert ps[..|ps|] == ps;
    FrameSize(ps);
    var output := new byte[WORD * (|ps| + 1) + total];
    WriteFrame(output, ps);
    return Success(output);
  }

  // --------------------------------------------------------- decompressing

  /** The caller's output buffer: its shape and storage are replaced or filled. */
  class Tensor {
    var dims: Shape
    var buf: array<int>

    constructor (dims: Shape, buf: array<int>)
      ensures this.dims == dims && this.buf == buf
    {
      this.dims, this.buf := dims, buf;
    }

    ghost function Contents(): Data
      reads this, buf
    {
      Data(dims, buf[..])
    }
  }

  /** The decompressed pieces, end to end. */
  function Joined(codec: Codec, ps: seq<seq<byte>>, chunk: Shape): seq<int> {
    if ps == [] then [] else Joined(codec, ps[..|ps| - 1], chunk) + codec.dec(ps[|ps| - 1], chunk)
  }

  lemma {:induction false} JoinedLength(codec: Codec, ps: seq<seq<byte>>, chunk: Shape)
    requires Sized(codec)
    ensures |Joined(codec, ps, chunk)| == |ps| * Prod(chunk)
  {
    if ps != [] {
      JoinedLength(codec, ps[..|ps| - 1], chunk);
      PieceBounds(Prod(chunk), |ps| - 1);
    }
  }

  /** What decompression leaves in an output of shape `dims`. */
  function Decoded(codec: Codec, ps: seq<seq<byte>>, dims: Shape, chunk: Shape): (d: Data)
    requires ChunkSizeFor(dims, chunk) && |ps| == NumChunks(dims, chunk)
    requires |ps| != 1 ==> |Joined(codec, ps, chunk)| == Total(dims, chunk)
  {
    if |ps| == 1 then
      var shape := if chunk == [] then dims else chunk;
      Data(shape, codec.dec(ps[0], shape))
    else
      var mem := Joined(codec, ps, chunk);
      Data(dims, Restored(dims, chunk, seq(Prod(dims), i => 0), mem, Range(0, |mem|)))
  }

  lemma RestoredAnywhere(dims: Shape, chunk: Shape, dest: seq<int>, mem: seq<int>)
    requires |chunk| == |dims| && Positive(chunk) && |dest| == Prod(dims) && |mem| == Total(dims, chunk)
    ensures Restored(dims, chunk, dest, mem, Range(0, |mem|))
         == Restored(dims, chunk, seq(Prod(dims), i => 0), mem, Range(0, |mem|))
  {
    forall o | 0 <= o < |dest|
      ensures Home(dims, chunk, o) < |mem|
    {
      TargetOfHome(dims, chunk, o);
    }
  }

  lemma {:induction false} JoinedAt(codec: Codec, ps: seq<seq<byte>>, chunk: Shape, i: nat, k: nat)
    requires Sized(codec) && i < |ps| && k < Prod(chunk)
    ensures i * Prod(chunk) + k < |Joined(codec, ps, chunk)|
    ensures Joined(codec, ps, chunk)[i * Prod(chunk) + k] == codec.dec(ps[i], chunk)[k]
  {
    var n := |ps| - 1;
    JoinedLength(codec, ps, chunk);
    JoinedLength(codec, ps[..n], chunk);
    PieceFits(|ps|, Prod(chunk), |ps| * Prod(chunk), i);
    PieceBounds(Prod(chunk), i);
    if i < n {
      JoinedAt(codec, ps[..n], chunk, i, k);
    }
  }

  lemma HomeOfAt(dims: Shape, block: Shape, b: seq<nat>, e: seq<nat>)
    requires |block| == |dims| == |b| && InBox(block, e) && InBox(dims, At(block, b, e))
    ensures Positive(block) && Flat(dims, At(block, b, e)) < Prod(dims)
    ensures Home(dims, block, Flat(dims, At(block, b, e))) == Cell(dims, block, b, e)
  {
    FlatInRange(dims, At(block, b, e));
    UnflatFlat(dims, At(block, b, e));
    QuotRemOfAt(block, b, e);
  }

  /** With several payloads, the element at `b * chunk + e` is element `e` of what the
      child makes of the payload for block `b`, and the shape is the output's. */
  lemma DecodedAt(codec: Codec, ps: seq<seq<byte>>, dims: Shape, chunk: Shape, b: seq<nat>, e: seq<nat>)
    requires Sized(codec) && ChunkSizeFor(dims, chunk) && |ps| == NumChunks(dims, chunk) && |ps| != 1
    requires InBox(MaxIdx(dims, chunk), b) && InBox(chunk, e) && InBox(dims, At(chunk, b, e))
    ensures |Joined(codec, ps, chunk)| == Total(dims, chunk)
    ensures var d, x, i := Decoded(codec, ps, dims, chunk), At(chunk, b, e), Flat(MaxIdx(dims, chunk), b);
            && d.dims == dims && Flat(dims, x) < |d.values| == Prod(dims)
            && i < |ps| && Flat(chunk, e) < Prod(chunk)
            && d.values[Flat(dims, x)] == codec.dec(ps[i], chunk)[Flat(chunk, e)]
  {
    JoinedLength(codec, ps, chunk);
    FlatInRange(MaxIdx(dims, chunk), b);
    FlatInRange(chunk, e);
    HomeOfAt(dims, chunk, b, e);
    CellInverse(dims, chunk, b, e);
    JoinedAt(codec, ps, chunk, Flat(MaxIdx(dims, chunk), b), Flat(chunk, e));
  }

  method CopyInto(buf: array<int>, at: nat, piece: seq<int>)
    requires at + |piece| <= buf.Length
    modifies buf
    ensures buf[..at + |piece|] == old(buf[..at]) + piece
  {
    for i := 0 to |piece|
      invariant buf[..at] == old(buf[..at]) && buf[at..at + i] == piece[..i]
    {
      buf[at + i] := piece[i];
      assert buf[at..at + i + 1] == piece[..i] + [piece[i]];
    }
  }

  lemma JoinStep(codec: Codec, ps: seq<seq<byte>>, chunk: Shape, i: nat)
    requires Sized(codec) && i < |ps|
    ensures Joined(codec, ps[..i + 1], chunk) == Joined(codec, ps[..i], chunk) + codec.dec(ps[i], chunk)
    ensures |Joined(codec, ps[..i], chunk)| + |codec.dec(ps[i], chunk)| <= |Joined(codec, ps, chunk)|
  {
    assert ps[..i + 1][..i] == ps[..i];
    JoinedFits(codec, ps, chunk, i + 1);
  }

  lemma {:induction false} JoinedFits(codec: Codec, ps: seq<seq<byte>>, chunk: Shape, i: nat)
    requires i <= |ps|
    ensures |Joined(codec, ps[..i], chunk)| <= |Joined(codec, ps, chunk)|
  {
    if i < |ps| {
      JoinedFits(codec, ps[..|ps| - 1], chunk, i);
      assert ps[..|ps| - 1][..i] == ps[..i];
    } else {
      assert ps[..i] == ps;
    }
  }

  /** Joins the decompressed pieces into `buf`. */
  method JoinInto(codec: Codec, ps: seq<seq<byte>>, chunk: Shape, buf: array<int>)
    requires Sized(codec) && buf.Length == |Joined(codec, ps, chunk)|
    modifies buf
    ensures buf[..] == Joined(codec, ps, chunk)
  {
    var accum := 0;
    for i := 0 to |ps|
      invariant accum == |Joined(codec, ps[..i], chunk)| && accum <= buf.Length
      invariant buf[..accum] == Joined(codec, ps[..i], chunk)
    {
      JoinStep(codec, ps, chunk, i);
      var piece := codec.dec(ps[i], chunk);
      CopyInto(buf, accum, piece);
      accum := accum + |piece|;
    }
    assert ps[..|ps|] == ps;
  }

  /** Reads the frame, decompresses every payload and joins the pieces. */
  method Decompress(codec: Codec, input: array<byte>, output: Tensor, chunk: Shape, schedule: seq<nat>,
                    ghost ps: seq<seq<byte>>)
    returns (refused: bool)
    requires Sized(codec) && ChunkSizeFor(output.dims, chunk) && output.buf.Length == Prod(output.dims)
    requires chunk != [] ==> Chunkable(output.dims, chunk, schedule)
    requires Countable(ps) && Frame.Frame(ps) <= input[..] && |ps| == NumChunks(output.dims, chunk)
    modifies output, output.buf
    ensures refused <==> Refused(old(output.dims), chunk)
    ensures refused ==> output.Contents() == old(output.Contents())
    ensures !refused ==> |ps| != 1 ==> |Joined(codec, ps, chunk)| == Total(old(output.dims), chunk)
    ensures !refused ==> output.Contents() == Decoded(codec, ps, old(output.dims), chunk)
  {
    var dims := output.dims;
    var payloads := ReadFrame(input, ps);
    if |payloads| == 1 {
      var shape := if chunk == [] then dims else chunk;
      var piece := codec.dec(payloads[0], shape);
      var buf := new int[|piece|](i requires 0 <= i < |piece| => piece[i]);
      output.dims, output.buf := shape, buf;
      assert buf[..] == piece;
      return false;
    }
    JoinedLength(codec, ps, chunk);
    var fast := TakeFastPath(dims, chunk);
    if fast {
      DivisibleTotal(dims, chunk);
      JoinInto(codec, payloads, chunk, output.buf);
      FastPathJoin(dims, chunk, seq(Prod(dims), i => 0), output.buf[..]);
      return false;
    }
    var stride := Accumulate(chunk);
    var combined := new int[|payloads| * stride];
    JoinInto(codec, payloads, chunk, combined);
    ghost var mem := combined[..];
    RestoredAnywhere(dims, chunk, output.buf[..], mem);
    refused := RestoreData(output.buf, combined, dims, chunk, schedule);
  }

  // ------------------------------------------------------------ end to end

  lemma {:induction false} JoinedPieces(codec: Codec, ps: seq<seq<byte>>, chunk: Shape, mem: seq<int>)
    requires Sized(codec) && Lossless(codec) && PiecesCompressed(codec, chunk, mem, ps)
    ensures |ps| * Prod(chunk) <= |mem| && Joined(codec, ps, chunk) == mem[..|ps| * Prod(chunk)]
  {
    if ps != [] {
      var n := |ps| - 1;
      JoinedPieces(codec, ps[..n], chunk, mem);
      PieceBounds(Prod(chunk), n);
      assert HasPiece(Prod(chunk), |mem|, n) && ps[n] == codec.enc(Piece(chunk, mem, n));
      assert WellFormed(Piece(chunk, mem, n));
      assert codec.dec(ps[n], chunk) == Piece(chunk, mem, n).values;
    }
  }

  lemma JoinedPayloads(codec: Codec, input: Data, chunk: Shape)
    requires Sized(codec) && Lossless(codec)
    requires ChunkSizeFor(input.dims, chunk) && WellFormed(input) && NumChunks(input.dims, chunk) != 1
    ensures Joined(codec, Payloads(codec, input, chunk), chunk) == ChunkMemory(input.dims, chunk, input.values)
  {
    var mem, ps := ChunkMemory(input.dims, chunk, input.values), Payloads(codec, input, chunk);
    forall i | 0 <= i < |ps|
      ensures HasPiece(Prod(chunk), |mem|, i)
    {
      PieceFits(|ps|, Prod(chunk), |mem|, i);
    }
    JoinedPieces(codec, ps, chunk, mem);
    assert mem[..|mem|] == mem;
  }

  /** With a lossless child, decompressing what compression framed gives the input
      back exactly when there is more than one chunk, or no chunk size is set, or the
      chunk size is the array's own shape.  A single chunk larger than the array
      comes back with the shape of the chunk. */
  lemma RoundTripExact(codec: Codec, input: Data, chunk: Shape)
    requires Sized(codec) && Lossless(codec)
    requires ChunkSizeFor(input.dims, chunk) && WellFormed(input)
    ensures var ps := Payloads(codec, input, chunk);
            && (|ps| != 1 ==> |Joined(codec, ps, chunk)| == Total(input.dims, chunk))
            && (Decoded(codec, ps, input.dims, chunk) == input
                <==> NumChunks(input.dims, chunk) != 1 || chunk == [] || chunk == input.dims)
  {
    var n, ps := NumChunks(input.dims, chunk), Payloads(codec, input, chunk);
    if n == 1 {
      assert ps[0] == codec.enc(input);
    } else {
      JoinedPayloads(codec, input, chunk);
      RestoreChunkMemory(input.dims, chunk, input.values, seq(Prod(input.dims), i => 0));
    }
  }

  /** Two elements in a chunk of three come back as an array of three. */
  lemma LargerChunkReshapes(codec: Codec, a: int, b: int)
    requires Sized(codec) && Lossless(codec)
    ensures var input, chunk := Data([2], [a, b]), [3];
            && ChunkSizeFor(input.dims, chunk) && WellFormed(input) && NumChunks(input.dims, chunk) == 1
            && Decoded(codec, Payloads(codec, input, chunk), input.dims, chunk).dims == [3]
            && Decoded(codec, Payloads(codec, input, chunk), input.dims, chunk) != input
  {
    var dims: Shape := [2];
    assert dims[1..] == [] && Prod(dims) == 2 * 1;
    var max := MaxIdx(dims, [3]);
    assert max == [1] && max[1..] == [] && Prod(max) == 1 * 1;
  }

  /** Compress, then decompress into an output of the original shape. */
  method CompressThenDecompress(codec: Codec, data: array<int>, dims: Shape, chunk: Shape,
                                output: Tensor, there: seq<nat>, back: seq<nat>)
    returns (refused: bool)
    requires Sized(codec) && Lossless(codec) && ChunkSizeFor(dims, chunk) && data.Length == Prod(dims)
    requires chunk != [] ==> Chunkable(dims, chunk, there) && Chunkable(dims, chunk, back)
    requires Countable(Payloads(codec, Data(dims, data[..]), chunk))
    requires output.dims == dims && output.buf.Length == Prod(dims) && output.buf != data
    modifies data, output, output.buf
    ensures refused <==> Refused(dims, chunk)
    ensures !refused && (NumChunks(dims, chunk) != 1 || chunk == [] || chunk == dims) ==>
              output.Contents() == Data(dims, old(data[..]))
  {
    ghost var input := Data(dims, data[..]);
    var frame := Compress(codec, data, dims, chunk, there);
    if frame.Failure? {
      return true;
    }
    RoundTripExact(codec, input, chunk);
    refused := Decompress(codec, frame.value, output, chunk, back, Payloads(codec, input, chunk));
  }
}
