/** There and back: the compressors against the fast decompressor. */
module Lz4RoundTrip {
  import opened Lz4Format
  import opened Lz4Compress
  import opened Lz4Decompress
  import Lz4HcIndex
  import Lz4HcOptimal

  /** A valid block is decompressed into a buffer of just the size of its content; only a block without
      content must in addition be the single byte 0. */
  method Expand(block: seq<byte>, ghost content: seq<byte>, size: nat) returns (ok: bool, back: seq<byte>)
    requires ValidBlock(block, content) && size == |content|
    ensures ok <==> content != [] || block == [0]
    ensures ok ==> back == content
  {
    hide ValidBlock;
    var dst := new byte[size];
    var r := DecompressSafe(block, dst, content);
    ok := r == size;
    back := if ok then dst[..size] else [];
  }

  /** Whatever the source and whatever the hash function, compressing with a fresh table and
      decompressing gives the source back. */
  method RoundTrip(src: seq<byte>, hash: seq<byte> -> nat, slots: nat, tableType: TableType, acceleration: nat)
    returns (ok: bool, block: seq<byte>, back: seq<byte>)
    requires (forall w :: hash(w) < slots) && acceleration >= 1
    ensures ok <==> Supported(|src|, tableType)
    ensures ok ==> back == src && |block| <= |src| + |src| / 255 + 2
  {
    hide ValidBlock;
    var dst := new byte[|src| + |src| / 255 + 16];
    var table := new nat[slots](_ => 0);
    var n, _ := CompressGeneric(src, dst, table, hash, tableType, acceleration);
    block, back := dst[..n], [];
    ok := n != 0;
    if ok {
      ok, back := Expand(block, src, |src|);
    }
  }

  /** The same with the optimal parser of LZ4 HC, for every number of searches and setting. */
  method HcRoundTrip(index: Lz4HcIndex.HcIndex, x: Lz4HcOptimal.Source, sufficientLen: nat, fullUpdate: bool)
    returns (back: seq<byte>)
    requires Lz4HcOptimal.Indexed(index, x, 0)
    modifies index, index.hashTable, index.chainTable
    ensures back == x.src
  {
    hide ValidBlock, Lz4HcOptimal.Indexed;
    var dst := new byte[|x.src| + |x.src| / 255 + 16];
    var n, _ := Lz4HcOptimal.CompressOptimal(index, x, dst, sufficientLen, fullUpdate);
    var ok;
    ok, back := Expand(dst[..n], x.src, |x.src|);
  }
}
