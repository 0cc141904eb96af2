/** Whole frames: the one-call encoder, any run of the streaming encoder, and the way back through the decoder. */
module FrameStream {
  import opened Lz4Format
  import opened FrameFormat
  import opened FrameEncoder
  import FrameDecoder
  import FrameRuns

  /** The block size for a source: the requested one, unless a smaller one takes all of it; then the smallest. */
  predicate Fitting(id: nat, requested: nat, srcSize: nat) {
    && (id == requested || (4 <= id < requested && id <= 7 && srcSize <= BlockSize(id)))
    && (forall k :: 4 <= k < id && k < requested && k <= 7 ==> BlockSize(k) < srcSize)
  }

  /** LZ4F_optimalBSID: the smallest block size that takes the whole source, but none above the requested. */
  method OptimalBSID(requested: nat, srcSize: nat) returns (id: nat)
    requires requested == 0 || 4 <= requested <= 7
    ensures Fitting(id, requested, srcSize)
  {
    var proposed, maxBlockSize := 4, 65536;
    while requested > proposed
      invariant 4 <= proposed <= 7 && (requested > 4 ==> proposed <= requested) && maxBlockSize == BlockSize(proposed)
      invariant forall k :: 4 <= k < proposed ==> BlockSize(k) < srcSize
      decreases requested - proposed
    {
      if srcSize <= maxBlockSize { return proposed; }
      proposed, maxBlockSize := proposed + 1, maxBlockSize * 4;
    }
    return requested;
  }

  /** Shrinking the block size to fit the source leaves the bound of the frame as it is. */
  lemma SmallerBlocksSameBound(srcSize: nat, p: Prefs, id: nat)
    requires ValidPrefs(p) && 4 <= id < p.blockSizeID && srcSize <= BlockSize(id)
    ensures CompressFrameBound(srcSize, p.(blockSizeID := id)) == CompressFrameBound(srcSize, p)
  {
    hide CompressBound, BlockSize, FrameEnd;
    var small, large := BlockSize(id), BlockSize(p.blockSizeID);
    BlockSizes(id);
    BlockSizes(p.blockSizeID);
    SizesGrow(id, p.blockSizeID);
    var q := p.(autoFlush := true);
    OneBlock(srcSize, q);
    OneBlock(srcSize, q.(blockSizeID := id));
    SameEnd(q, id);
  }

  /** Without whole blocks before it, the source is one block or none. */
  lemma OneBlock(srcSize: nat, p: Prefs)
    requires ValidPrefs(p) && p.autoFlush && srcSize <= BlockSize(Normal(p.blockSizeID))
    ensures Counted(srcSize, p, 0)
    ensures CompressBound(srcSize, p, 0) == Room(p, if srcSize > 0 then 1 else 0, srcSize) + FrameEnd(p)
  {
    hide CompressBound, BlockSize, FrameEnd, Room, Due, DueBlocks;
    BlockSizes(Normal(p.blockSizeID));
    BoundIs(srcSize, p, 0);
    DueIs(srcSize, p, 0);
    Split(srcSize, BlockSize(Normal(p.blockSizeID)));
  }

  /** Either less than a block, or just one. */
  lemma Split(n: nat, size: nat)
    requires 0 < size && n <= size
    ensures n < size ==> n / size == 0 && n % size == n
    ensures n == size ==> n / size == 1 && n % size == 0
  {
  }

  lemma SizesGrow(a: nat, b: nat)
    requires 4 <= a < b <= 7
    ensures BlockSize(a) < BlockSize(b)
  {
  }

  lemma SameEnd(p: Prefs, id: nat)
    ensures FrameEnd(p.(blockSizeID := id)) == FrameEnd(p)
  {
  }

  /** A frame whose descriptor comes from `p` and whose blocks are `bs`. */
  function FrameOf(p: Prefs, bs: seq<Block>): Frame {
    Lz4Frame(HeaderOf(p), bs)
  }

  lemma FrameOfValid(p: Prefs, bs: seq<Block>)
    requires ValidPrefs(p) && ValidBlocks(bs, BlockSize(Normal(p.blockSizeID)))
    requires p.contentSize > 0 ==> p.contentSize == |Content(bs)|
    ensures ValidFrame(FrameOf(p, bs)) && FrameContent(FrameOf(p, bs)) == Content(bs)
  {
    hide ValidBlocks, Content;
    HeaderOfValid(p);
  }

  /** The preferences of a one-call compression: the announced size is corrected, every call flushes. */
  function OneShot(p: Prefs, srcSize: nat, id: nat): Prefs {
    p.(contentSize := if p.contentSize != 0 then srcSize else 0, blockSizeID := id, autoFlush := true)
  }

  lemma OneShotBound(p: Prefs, srcSize: nat, id: nat)
    requires ValidPrefs(p) && srcSize < Range(8)
    requires id == p.blockSizeID || (4 <= id < p.blockSizeID && srcSize <= BlockSize(id))
    ensures ValidPrefs(OneShot(p, srcSize, id))
    ensures CompressFrameBound(srcSize, OneShot(p, srcSize, id)) == CompressFrameBound(srcSize, p)
    ensures Counted(srcSize, p.(autoFlush := true), 0) ==> Counted(srcSize, OneShot(p, srcSize, id), 0)
  {
    hide BlockSize, Range;
    if id != p.blockSizeID {
      SmallerBlocksSameBound(srcSize, p, id);
      OneBlock(srcSize, OneShot(p, srcSize, id));
    }
  }

  lemma BoundNormal(n: nat, p: Prefs, buffered: nat)
    requires ValidPrefs(p)
    ensures var q := p.(blockSizeID := Normal(p.blockSizeID));
            && ValidPrefs(q) && CompressBound(n, q, buffered) == CompressBound(n, p, buffered)
            && (Counted(n, q, buffered) <==> Counted(n, p, buffered)) && Waiting(q, buffered, n) == Waiting(p, buffered, n)
            && HeaderOf(q) == HeaderOf(p) && FrameEnd(q) == FrameEnd(p)
  {
  }

  /** Blocks and end of a frame whose descriptor is out, in `capacity` bytes of room. */
  method Complete(c: CCtx, capacity: nat, src: seq<byte>) returns (out: seq<byte>, ghost bs: seq<Block>)
    requires c.Holds([], []) && c.tmpInSize == 0 && c.prefs.autoFlush
    requires c.prefs.contentSize > 0 ==> c.prefs.contentSize == |src|
    requires ValidPrefs(c.prefs) && Counted(|src|, c.prefs, 0) && capacity >= CompressBound(|src|, c.prefs, 0)
    modifies c, c.tmpIn
    ensures c.prefs == old(c.prefs) && |out| <= CompressBound(|src|, c.prefs, 0)
    ensures Content(bs) == src && ValidBlocks(bs, BlockSize(Normal(c.prefs.blockSizeID)))
    ensures Compressed(c.compress, bs) && DataSizes(bs) == CutSizes(|src|, BlockSize(Normal(c.prefs.blockSizeID)), true)
    ensures out == BlocksBytes(bs, c.prefs.blockChecksum) + Suffix(HeaderOf(c.prefs), src)
  {
    hide BlockSize, CompressBound, BlocksBytes, Suffix, Content, ValidBlocks, Compresses, FrameEnd, HeaderOf, Range;
    hide Compressed, CutSizes, DataSizes;
    SourceSize(|src|, c.prefs);
    var body := new byte[capacity];
    var r, more := c.Update(body, src, [], []);
    assert [] + more == more && [] + src == src;
    var tail := new byte[capacity - r.size];
    EndBound(c.prefs, 0);
    var e, last := c.End(tail, more, src);
    bs := more + last;
    SizesJoin(more, last);
    CompressedJoin(c.compress, more, last);
    assert DataSizes(more) + [] == DataSizes(more);
    BlocksJoin(more, last, c.prefs.blockChecksum);
    out := body[..r.size] + tail[..e.size];
    Appended(BlocksBytes(more, c.prefs.blockChecksum), BlocksBytes(last, c.prefs.blockChecksum), Suffix(HeaderOf(c.prefs), src));
  }

  lemma SourceSize(srcSize: nat, p: Prefs)
    requires ValidPrefs(p) && Counted(srcSize, p, 0)
    ensures srcSize < TWO_64 && srcSize % TWO_64 == srcSize
  {
    hide BlockSize, DueBlocks;
    BlockSizes(Normal(p.blockSizeID));
    DueIs(srcSize, p, 0);
    FewBlocks(srcSize, BlockSize(Normal(p.blockSizeID)));
  }

  lemma Appended(x: seq<byte>, y: seq<byte>, z: seq<byte>)
    ensures x + (y + z) == (x + y) + z
  {
  }

  /** LZ4F_compressFrame: it succeeds exactly when the destination meets the bound for the preferences as
      given, keeps to that bound, and writes a frame of the source. */
  method CompressFrame(c: CCtx, dst: array<byte>, src: seq<byte>, p: Prefs)
    returns (r: Result, ghost used: Prefs, ghost bs: seq<Block>)
    requires ValidPrefs(p) && Compresses(c.compress) && c.maxBufferSize <= c.tmpIn.Length && dst != c.tmpIn
    requires Counted(|src|, p.(autoFlush := true), 0)
    modifies c, c.tmpIn, dst
    ensures r.Size? <==> dst.Length >= CompressFrameBound(|src|, p)
    ensures r.Error? ==> r.error == DstMaxSizeTooSmall
    ensures r.Size? ==> r.size <= CompressFrameBound(|src|, p) && r.size <= dst.Length
    ensures r.Size? ==> used == OneShot(p, |src|, used.blockSizeID) && ValidFrame(FrameOf(used, bs))
    ensures r.Size? ==> Fitting(used.blockSizeID, p.blockSizeID, |src|)
    ensures r.Size? ==> dst[..r.size] == FrameBytes(FrameOf(used, bs)) && Content(bs) == src
    ensures r.Size? ==> Compressed(c.compress, bs)
    ensures r.Size? ==> DataSizes(bs) == CutSizes(|src|, BlockSize(Normal(used.blockSizeID)), true)
  {
    hide BlockSize, CompressBound, Compresses, BlocksBytes, Suffix, Content, HeaderBytes, ValidBlocks;
    hide Compressed, CutSizes, DataSizes;
    Ranges();
    var id := OptimalBSID(p.blockSizeID, |src|);
    SourceSize(|src|, p.(autoFlush := true));
    OneShotBound(p, |src|, id);
    var prefs := OneShot(p, |src|, id);
    used, bs := prefs, [];
    if dst.Length < CompressFrameBound(|src|, prefs) { return Error(DstMaxSizeTooSmall), used, bs; }
    BoundNormal(|src|, prefs, 0);
    r := c.Begin(dst, prefs);
    var out;
    out, bs := Complete(c, dst.Length - r.size, src);
    Put(dst, r.size, out);
    FrameOfValid(prefs, bs);
    r := Size(r.size + |out|);
  }

  // ---------------------------------------------------------------- any run of the streaming encoder

  datatype Op = Feed(src: seq<byte>) | FlushNow

  /** The input of a run. */
  function Fed(ops: seq<Op>): seq<byte> {
    if ops == [] then []
    else
      var op := ops[|ops| - 1];
      Fed(ops[..|ops| - 1]) + if op.Feed? then op.src else []
  }

  /** The bytes waiting after a run. */
  function Left(p: Prefs, ops: seq<Op>): nat
    requires ValidPrefs(p)
  {
    if ops == [] then 0
    else
      var op := ops[|ops| - 1];
      if op.FlushNow? then 0 else Waiting(p, Left(p, ops[..|ops| - 1]), |op.src|)
  }

  /** The bound asked for each piece counts all of its blocks. */
  predicate Feasible(p: Prefs, ops: seq<Op>)
    requires ValidPrefs(p)
  {
    forall i :: 0 <= i < |ops| && ops[i].Feed? ==> Counted(|ops[i].src|, p, Left(p, ops[..i]))
  }

  /** The sizes of the blocks one operation makes, with `waiting` bytes at hand. */
  function OpSizes(autoFlush: bool, size: nat, waiting: nat, op: Op): seq<nat>
    requires size > 0
  {
    match op
    case Feed(src) => CutSizes(waiting + |src|, size, autoFlush)
    case FlushNow => Rest(waiting)
  }

  function Rest(waiting: nat): seq<nat> {
    if waiting > 0 then [waiting] else []
  }

  /** The sizes of the blocks of a run. */
  function RunSizes(p: Prefs, ops: seq<Op>): seq<nat>
    requires ValidPrefs(p)
  {
    if ops == [] then []
    else
      var pre := ops[..|ops| - 1];
      RunSizes(p, pre) + OpSizes(p.autoFlush, BlockSize(Normal(p.blockSizeID)), Left(p, pre), ops[|ops| - 1])
  }

  lemma RunSizesNext(p: Prefs, ops: seq<Op>, i: nat)
    requires ValidPrefs(p) && i < |ops|
    ensures RunSizes(p, ops[..i + 1])
         == RunSizes(p, ops[..i]) + OpSizes(p.autoFlush, BlockSize(Normal(p.blockSizeID)), Left(p, ops[..i]), ops[i])
  {
    hide OpSizes, Left;
    assert ops[..i + 1][..i] == ops[..i];
  }

  /** Blocks made by the compressor of the same content, cut in the same places, are the same blocks. */
  lemma {:induction false} CutOnce(compress: seq<byte> -> Option<seq<byte>>, bs: seq<Block>, cs: seq<Block>)
    requires Compressed(compress, bs) && Compressed(compress, cs) && Content(bs) == Content(cs)
    requires DataSizes(bs) == DataSizes(cs)
    ensures bs == cs
  {
    assert |DataSizes(bs)| == |bs| && |DataSizes(cs)| == |cs|;
    if bs != [] {
      var n := DataSizes(bs)[0];
      assert n == |bs[0].data| && DataSizes(cs)[0] == |cs[0].data|;
      assert bs[0].data == Content(bs)[..n] && cs[0].data == Content(cs)[..n];
      assert bs[0] in bs && cs[0] in cs;
      assert Content(bs[1..]) == Content(bs)[n..] && Content(cs[1..]) == Content(cs)[n..];
      assert DataSizes(bs[1..]) == DataSizes(bs)[1..] && DataSizes(cs[1..]) == DataSizes(cs)[1..];
      CutOnce(compress, bs[1..], cs[1..]);
      assert bs == [bs[0]] + bs[1..] && cs == [cs[0]] + cs[1..];
    }
  }

  /** One operation, in exactly the room its bound announces. */
  method Operate(c: CCtx, op: Op, ghost bs: seq<Block>, ghost input: seq<byte>)
    returns (out: seq<byte>, ghost more: seq<Block>)
    requires c.Holds(bs, input) && ValidPrefs(c.prefs) && (op.Feed? ==> Counted(|op.src|, c.prefs, c.tmpInSize))
    modifies c, c.tmpIn
    ensures c.tmpIn == old(c.tmpIn) && c.prefs == old(c.prefs) && c.maxBlockSize == old(c.maxBlockSize)
    ensures c.Holds(bs + more, input + if op.Feed? then op.src else [])
    ensures c.tmpInSize == if op.Feed? then Waiting(c.prefs, old(c.tmpInSize), |op.src|) else 0
    ensures out == BlocksBytes(more, c.prefs.blockChecksum)
    ensures Compressed(c.compress, more) && c.maxBlockSize > 0
    ensures DataSizes(more) == OpSizes(c.prefs.autoFlush, c.maxBlockSize, old(c.tmpInSize), op)
  {
    hide BlockSize, CompressBound, BlocksBytes, Compresses, Content, ValidBlocks, FrameEnd, Range;
    hide Compressed, CutSizes, DataSizes;
    BlockSizes(c.prefs.blockSizeID);
    c.PreparedPrefs();
    EndBound(c.prefs, c.tmpInSize);
    var r;
    match op
    case Feed(src) =>
      var dst := new byte[CompressBound(|src|, c.prefs, c.tmpInSize)];
      r, more := c.Update(dst, src, bs, input);
      out := dst[..r.size];
    case FlushNow =>
      assert input + [] == input;
      var dst := new byte[CompressBound(0, c.prefs, c.tmpInSize)];
      FlushFits(c.prefs);
      r, more := c.Flush(dst, bs, input);
      out := dst[..r.size];
  }

  lemma FlushFits(p: Prefs)
    ensures CrcSize(p) + FrameEnd(p) >= BF_SIZE
  {
  }

  /** No size is announced, or this one. */
  predicate Announces(p: Prefs, size: nat) {
    p.contentSize == 0 || p.contentSize == size
  }

  /** Begin, any updates and flushes, end. The run fails exactly if a size was announced and not kept. */
  method Session(c: CCtx, p: Prefs, ops: seq<Op>) returns (kept: bool, frame: seq<byte>, ghost bs: seq<Block>)
    requires ValidPrefs(p) && Compresses(c.compress) && c.maxBufferSize <= c.tmpIn.Length && Feasible(p, ops)
    modifies c, c.tmpIn
    ensures kept <==> p.contentSize == 0 || p.contentSize == |Fed(ops)| % TWO_64
    ensures kept && Announces(p, |Fed(ops)|) ==>
              Content(bs) == Fed(ops) && ValidFrame(FrameOf(p, bs)) && frame == FrameBytes(FrameOf(p, bs))
    ensures kept ==> Compressed(c.compress, bs) && DataSizes(bs) == RunSizes(p, ops) + Rest(Left(p, ops))
  {
    hide BlockSize, CompressBound, BlocksBytes, Compresses, Content, ValidBlocks, FrameEnd, Range, HeaderBytes, Suffix, Fed, HeaderOf;
    hide Compressed, DataSizes, OpSizes, Left;
    HeaderOfValid(p);
    var head := new byte[MAX_HEADER];
    var r := c.Begin(head, p);
    BoundNormal(0, p, 0);
    frame, bs := head[..r.size], [];
    NothingFed(ops, p, c.compress);
    var i := 0;
    while i < |ops|
      invariant i <= |ops| && (c.tmpIn == old(c.tmpIn) || fresh(c.tmpIn))
      invariant c.prefs == p.(blockSizeID := Normal(p.blockSizeID))
      invariant c.Holds(bs, Fed(ops[..i])) && c.tmpInSize == Left(p, ops[..i])
      invariant frame == HeaderBytes(HeaderOf(p)) + BlocksBytes(bs, p.blockChecksum)
      invariant Compressed(c.compress, bs) && DataSizes(bs) == RunSizes(p, ops[..i])
    {
      var out;
      ghost var more;
      if ops[i].Feed? { BoundNormal(|ops[i].src|, p, c.tmpInSize); }
      LeftNext(p, ops, i);
      out, more := Operate(c, ops[i], bs, Fed(ops[..i]));
      FedNext(ops, i);
      BlocksJoin(bs, more, p.blockChecksum);
      SizesJoin(bs, more);
      CompressedJoin(c.compress, bs, more);
      RunSizesNext(p, ops, i);
      Appended(HeaderBytes(HeaderOf(p)), BlocksBytes(bs, p.blockChecksum), out);
      frame, bs := frame + out, bs + more;
      i := i + 1;
    }
    assert ops[..|ops|] == ops;
    kept, frame, bs := Close(c, p, frame, bs, Fed(ops));
  }

  method Close(c: CCtx, p: Prefs, front: seq<byte>, ghost bs0: seq<Block>, ghost input: seq<byte>)
    returns (kept: bool, frame: seq<byte>, ghost bs: seq<Block>)
    requires ValidPrefs(p) && c.Holds(bs0, input) && c.prefs == p.(blockSizeID := Normal(p.blockSizeID))
    requires front == HeaderBytes(HeaderOf(p)) + BlocksBytes(bs0, p.blockChecksum) && Compressed(c.compress, bs0)
    modifies c, c.tmpIn
    ensures kept ==> Compressed(c.compress, bs) && DataSizes(bs) == DataSizes(bs0) + Rest(old(c.tmpInSize))
    ensures kept <==> p.contentSize == 0 || p.contentSize == |input| % TWO_64
    ensures kept && Announces(p, |input|) ==>
              Content(bs) == input && ValidFrame(FrameOf(p, bs)) && frame == FrameBytes(FrameOf(p, bs))
  {
    hide BlockSize, CompressBound, BlocksBytes, Compresses, Content, ValidBlocks, FrameEnd, Range, HeaderBytes, Suffix;
    hide Compressed, DataSizes;
    BoundNormal(0, p, c.tmpInSize);
    var tail := new byte[CompressBound(0, c.prefs, c.tmpInSize)];
    ghost var size := c.maxBlockSize;
    var r, more := c.End(tail, bs0, input);
    kept, frame, bs := r.Size?, front, bs0;
    if kept {
      bs := bs0 + more;
      frame := front + tail[..r.size];
      BlocksJoin(bs0, more, p.blockChecksum);
      SizesJoin(bs0, more);
      CompressedJoin(c.compress, bs0, more);
      if Announces(p, |input|) { FrameOfValid(p, bs); }
      Appended(BlocksBytes(bs0, p.blockChecksum), BlocksBytes(more, p.blockChecksum), Suffix(HeaderOf(p), input));
      Appended(HeaderBytes(HeaderOf(p)), BlocksBytes(bs0, p.blockChecksum), tail[..r.size]);
    }
  }

  lemma NothingFed(ops: seq<Op>, p: Prefs, compress: seq<byte> -> Option<seq<byte>>)
    requires ValidPrefs(p)
    ensures Fed(ops[..0]) == [] && BlocksBytes([], p.blockChecksum) == [] && Left(p, ops[..0]) == 0
    ensures Compressed(compress, []) && DataSizes([]) == RunSizes(p, ops[..0])
  {
  }

  lemma LeftNext(p: Prefs, ops: seq<Op>, i: nat)
    requires ValidPrefs(p) && i < |ops|
    ensures Left(p, ops[..i + 1]) == if ops[i].FlushNow? then 0 else Waiting(p, Left(p, ops[..i]), |ops[i].src|)
  {
    hide Waiting;
    assert ops[..i + 1][..i] == ops[..i];
  }

  lemma FedNext(ops: seq<Op>, i: nat)
    requires i < |ops|
    ensures Fed(ops[..i + 1]) == Fed(ops[..i]) + if ops[i].Feed? then ops[i].src else []
  {
    assert ops[..i + 1][..i] == ops[..i];
  }

  // ---------------------------------------------------------------- there and back

  /** What any run of the encoder wrote, any run of the decoder gives back, with the parameters it was
      written with; block size 0 comes back as 4. */
  method RoundTrip(c: CCtx, d: FrameDecoder.DCtx, p: Prefs, ops: seq<Op>, calls: seq<FrameRuns.Call>, beyond: seq<byte>)
    returns (kept: bool, frame: seq<byte>, t: FrameDecoder.Turn, used: nat, out: seq<byte>)
    requires ValidPrefs(p) && Compresses(c.compress) && c.maxBufferSize <= c.tmpIn.Length && Feasible(p, ops)
    requires FrameRuns.Idle(d, 0)
    modifies c, c.tmpIn, d, d.header, d.tmpIn, d.tmpOut
    ensures kept <==> p.contentSize == 0 || p.contentSize == |Fed(ops)| % TWO_64
    ensures Announces(p, |Fed(ops)|) && kept ==> t.Wait? && used <= |frame| && out <= Fed(ops)
    ensures Announces(p, |Fed(ops)|) && kept && t == FrameDecoder.Wait(0) ==>
              && used == |frame| && out == Fed(ops)
              && d.info == FrameDecoder.InfoOf(HeaderOf(p)) && d.info.blockSizeID == Normal(p.blockSizeID)
    ensures Announces(p, |Fed(ops)|) && kept && FrameRuns.Willing(calls) && |calls| > |frame| + |Fed(ops)| ==> t == FrameDecoder.Wait(0)
  {
    hide FrameBytes, FrameContent, ValidFrame, Compresses, Fed, FrameRuns.Willing;
    t, used, out := FrameDecoder.Again, 0, [];
    ghost var bs;
    kept, frame, bs := Session(c, p, ops);
    if kept && Announces(p, |Fed(ops)|) {
      ghost var f := FrameOf(p, bs);
      SameContent(f);
      t, used, out := FrameRuns.Run(d, frame + beyond, calls, f, 0, beyond);
    }
  }

  lemma SameContent(f: Frame)
    requires f.Lz4Frame?
    ensures FrameContent(f) == Content(f.blocks)
    ensures FrameDecoder.Sound(f, 0)
  {
  }
}
