/** Whole runs of the frame decoder: any way of cutting the input, any room for the output, and what
    an abandoned frame leaves behind. */
module FrameRuns {
  import opened Lz4Format
  import opened FrameFormat
  import opened FrameHeader
  import opened FrameAhead
  import opened FrameDecoder

  /** One call: offer up to `take` bytes of input and `room` bytes of output. */
  datatype Call = Call(take: nat, room: nat)

  /** A decoder between frames. */
  ghost predicate Idle(d: DCtx, stale: nat)
    reads d
  {
    d.Valid() && d.stage == GetFrameHeader && d.remaining == stale
  }

  lemma IdleIsReady(d: DCtx, f: Frame, stale: nat)
    requires Idle(d, stale) && ValidFrame(f)
    ensures d.Ready(f, Whole, stale, FrameBytes(f)) && Owed(f, Whole) == FrameContent(f)
  {
    hide FrameBytes, FrameContent;
    d.WholeIs(f, stale, FrameBytes(f));
    assert [] + FrameContent(f) == FrameContent(f);
  }

  lemma IdleHints(d: DCtx, stale: nat)
    requires Idle(d, stale)
    ensures d.Hint() == MIN_HEADER
  {
  }

  /** One call, offering the bytes of `stream` from `pos0` on. */
  method Serve(d: DCtx, stream: seq<byte>, pos0: nat, call: Call, ghost f: Frame, ghost a0: Ahead, ghost stale: nat,
               ghost beyond: seq<byte>)
    returns (t: Turn, pos: nat, got: seq<byte>, ghost a: Ahead)
    requires ValidFrame(f) && stream == FrameBytes(f) + beyond && pos0 < |FrameBytes(f)|
    requires d.Ready(f, a0, stale, FrameBytes(f)[pos0..])
    modifies d, d.header, d.tmpIn, d.tmpOut
    ensures (d.tmpIn == old(d.tmpIn) || fresh(d.tmpIn)) && (d.tmpOut == old(d.tmpOut) || fresh(d.tmpOut))
    ensures !t.Again? && pos0 <= pos <= |FrameBytes(f)| && got + Owed(f, a) == Owed(f, a0)
    ensures d.After(t, f, a, stale, FrameBytes(f)[pos..], true)
    ensures t.Wait? && t.hint > 0 && call.take > 0 && call.room > 0 ==> pos + |got| > pos0
  {
    hide FrameBytes, Owed, ValidFrame, d.Ready, d.Over;
    var n := Min(call.take, |stream| - pos0);
    var dst := new byte[call.room];
    ghost var rest := FrameBytes(f)[pos0..];
    assert stream[pos0..pos0 + n] <= rest + beyond by {
      assert stream[pos0..] == rest + beyond;
      assert stream[pos0..pos0 + n] == stream[pos0..][..n];
    }
    var used, room;
    t, used, room, a := d.Decompress(dst, stream[pos0..pos0 + n], f, a0, stale, rest, beyond);
    assert rest[used..] == FrameBytes(f)[pos0 + used..];
    pos, got := pos0 + used, dst[..room];
    d.StuckMore(t, f, a, stale, rest[used..], used == n || room == dst.Length, true);
    if t.Wait? && t.hint > 0 { d.WasStuck(t, f, a, stale, rest[used..], used == n || room == dst.Length); }
  }

  /** Call after call, offering what the last call did not use again. */
  method Run(d: DCtx, stream: seq<byte>, calls: seq<Call>, ghost f: Frame, ghost stale: nat, ghost beyond: seq<byte>)
    returns (t: Turn, pos: nat, out: seq<byte>)
    requires ValidFrame(f) && Idle(d, stale) && stream == FrameBytes(f) + beyond
    modifies d, d.header, d.tmpIn, d.tmpOut
    ensures pos <= |FrameBytes(f)| && out <= FrameContent(f) && !t.Again?
    ensures t.Wait? ==> (t.hint == 0 <==> pos == |FrameBytes(f)|)
    ensures t == Wait(0) ==> out == FrameContent(f) && Sound(f, stale) && Idle(d, if f.Lz4Frame? then 0 else stale)
    ensures t == Wait(0) && f.Lz4Frame? ==> d.info == InfoOf(f.header)
    ensures t.Failed? ==> t.error == FrameSizeWrong && !Sound(f, stale) && out == FrameContent(f)
    ensures t.Wait? && t.hint > 0 && Willing(calls) ==> |calls| <= pos + |out|
    ensures t.Wait? && t.hint > 0 ==> t.hint <= |FrameBytes(f)| - pos + Overreach(f)
    ensures t.Wait? && t.hint > 0 ==> exists a: Ahead :: Fits(f, a) && out + Owed(f, a) == FrameContent(f)
                                                          && Hinted(f, a, FrameBytes(f)[pos..], t.hint)
  {
    hide FrameBytes, Owed, FrameContent, ValidFrame, d.Ready, Idle, Sound, InfoOf, Hinted, Fits;
    IdleIsReady(d, f, stale);
    LongEnough(f);
    ghost var a := Whole;
    t, pos, out := Wait(MIN_HEADER), 0, [];
    assert d.Hint() == MIN_HEADER by { IdleHints(d, stale); }
    assert FrameBytes(f)[0..] == FrameBytes(f);
    d.AfterReady(t, f, a, stale, FrameBytes(f)[0..], true);
    var i := 0;
    while i < |calls| && t.Wait? && t.hint > 0
      invariant i <= |calls| && !t.Again? && pos <= |FrameBytes(f)| && out + Owed(f, a) == FrameContent(f)
      invariant d.tmpIn == old(d.tmpIn) || fresh(d.tmpIn)
      invariant d.tmpOut == old(d.tmpOut) || fresh(d.tmpOut)
      invariant d.After(t, f, a, stale, FrameBytes(f)[pos..], true)
      invariant t.Wait? && t.hint > 0 && Willing(calls) ==> i <= pos + |out|
    {
      ghost var out0 := out;
      var got;
      t, pos, got, a := Serve(d, stream, pos, calls[i], f, a, stale, beyond);
      out := out + got;
      i := i + 1;
      assert out0 + (got + Owed(f, a)) == out + Owed(f, a);
    }
    Ends(d, t, f, a, stale, pos);
  }

  /** Every call offers something and takes something. */
  predicate Willing(calls: seq<Call>) {
    forall c :: c in calls ==> c.take > 0 && c.room > 0
  }

  lemma Ends(d: DCtx, t: Turn, f: Frame, a: Ahead, stale: nat, pos: nat)
    requires ValidFrame(f) && pos <= |FrameBytes(f)| && d.After(t, f, a, stale, FrameBytes(f)[pos..], true) && !t.Again?
    ensures t.Wait? && t.hint > 0 ==> pos < |FrameBytes(f)|
    ensures t == Wait(0) ==> pos == |FrameBytes(f)| && Owed(f, a) == [] && Sound(f, stale)
                             && Idle(d, if f.Lz4Frame? then 0 else stale)
                             && (f.Lz4Frame? ==> d.info == InfoOf(f.header))
    ensures t.Wait? && t.hint > 0 ==> Fits(f, a) && Hinted(f, a, FrameBytes(f)[pos..], t.hint)
    ensures t.Wait? && t.hint > 0 ==> t.hint <= |FrameBytes(f)| - pos + Overreach(f)
    ensures t.Failed? ==> t.error == FrameSizeWrong && !Sound(f, stale) && Owed(f, a) == []
  {
    hide FrameBytes, ValidFrame, d.Ready, Sound, InfoOf, Hinted, d.Hint, Fits, Bytes;
    SuffixOwes(f);
    if t.Wait? && t.hint > 0 {
      d.HintMeans(f, a, stale, FrameBytes(f)[pos..]);
      HintedIsNear(f, a, FrameBytes(f)[pos..], t.hint);
    }
  }

  // ---------------------------------------------------------------- after an abandoned frame

  /** Feed the descriptor of a frame and no more: its announced size is in the count. */
  method Announce(d: DCtx, h: Header, ghost bs: seq<Block>)
    requires ValidFrame(Lz4Frame(h, bs)) && h.size.Some? && Idle(d, 0)
    modifies d, d.header
    ensures d.Valid() && d.remaining == h.size.value
    ensures d.tmpIn == old(d.tmpIn) && d.tmpOut == old(d.tmpOut)
  {
    hide HeaderBytes, FrameBytes, d.Ready, Owed;
    ghost var f := Lz4Frame(h, bs);
    ghost var whole := FrameBytes(f);
    IdleIsReady(d, f, 0);
    StartOpens(f);
    var src := HeaderBytes(h);
    var t, sp: nat := Again, 0;
    ghost var a := Whole;
    assert whole[0..] == whole;
    while t.Again? && d.stage in {GetFrameHeader, StoreFrameHeader}
      invariant sp <= |src| && !t.Failed? && d.Ready(f, a, 0, whole[sp..]) && (a == Whole || a == Behind(f))
      invariant t.Wait? ==> sp == |src|
      invariant d.tmpIn == old(d.tmpIn) && d.tmpOut == old(d.tmpOut)
      decreases t.Again?, |src| - sp
    {
      ghost var sp0 := sp;
      d.StageTells(f, a, 0, whole[sp..]);
      assert src[sp..] <= whole[sp..] + [];
      if d.stage == GetFrameHeader {
        t, sp, a := d.GetHeader(src, sp, f, 0, whole[sp..], []);
      } else {
        t, sp, a := d.StoreHeader(src, sp, f, 0, whole[sp..], []);
      }
      assert whole[sp0..][sp - sp0..] == whole[sp..];
    }
    Announced(d, f, a, whole[sp..], sp, t);
  }

  lemma Announced(d: DCtx, f: Frame, a: Ahead, rest: seq<byte>, sp: nat, t: Turn)
    requires f.Lz4Frame? && ValidFrame(f) && f.header.size.Some? && sp <= HeaderSize(f.header) && rest == FrameBytes(f)[sp..]
    requires d.Ready(f, a, 0, rest) && (a == Whole || a == Behind(f))
    requires (t.Wait? && sp == HeaderSize(f.header)) || d.stage !in {GetFrameHeader, StoreFrameHeader}
    ensures d.Valid() && d.remaining == f.header.size.value
  {
    hide HeaderBytes, BlocksBytes, Suffix;
    d.StageTells(f, a, 0, rest);
    d.WholeIs(f, 0, rest);
    LongEnough(f);
    StartCounts(f);
  }

  /** Giving that frame up leaves its size in the count, and a frame that announces no size itself
      is then refused at its end, though every byte of it is right. */
  method AbandonedFrame(h: Header, ghost bs: seq<Block>, g: Frame, stream: seq<byte>, calls: seq<Call>)
    returns (t: Turn, pos: nat, out: seq<byte>)
    requires ValidFrame(Lz4Frame(h, bs)) && h.size.Some? && h.size.value > 0
    requires ValidFrame(g) && g.Lz4Frame? && g.header.size == None && stream == FrameBytes(g)
    ensures t != Wait(0) && (t.Failed? ==> t.error == FrameSizeWrong && out == FrameContent(g))
    ensures Willing(calls) && |calls| > |FrameBytes(g)| + |FrameContent(g)| ==> t.Failed?
  {
    hide FrameBytes, FrameContent, ValidFrame;
    var d := new DCtx();
    Announce(d, h, bs);
    d.Reset();
    assert stream + [] == stream;
    t, pos, out := Run(d, stream, calls, g, h.size.value, []);
  }

  const NO_SIZE := Header(false, false, None, None, 4)

  const ONE_BYTE := NO_SIZE.(size := Some(1))

  /** A frame that announces one byte, and one without a size and without content. */
  lemma SuchFrames()
    ensures ValidFrame(Lz4Frame(ONE_BYTE, [Raw([7])])) && ValidFrame(Lz4Frame(NO_SIZE, []))
    ensures |FrameBytes(Lz4Frame(NO_SIZE, []))| == 11 && FrameContent(Lz4Frame(NO_SIZE, [])) == []
  {
    hide LE, Flags, HeaderBytes;
    Ranges();
    assert Content([Raw([7])]) == [7] + Content([]);
  }

  /** The second is refused after the first, however it is cut. */
  method EmptyFrameRefused(calls: seq<Call>) returns (t: Turn)
    requires Willing(calls) && |calls| > 11
    ensures t == Failed(FrameSizeWrong)
  {
    hide FrameBytes, FrameContent, ValidFrame, Willing;
    SuchFrames();
    var pos, out;
    t, pos, out := AbandonedFrame(ONE_BYTE, [Raw([7])], Lz4Frame(NO_SIZE, []), FrameBytes(Lz4Frame(NO_SIZE, [])), calls);
  }
}
