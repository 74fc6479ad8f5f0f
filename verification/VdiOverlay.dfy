/** The meaning of a chain of VDI images, byte by byte, independently of how a read is carried out.

    An image is a header, a block map and the bytes of its file.  A chain lists images leaf first;
    every image but the last has the next one as its parent. */
module VdiOverlay {
  import opened Basics

  type u32 = n: int | 0 <= n < 0x1_0000_0000
  type u64 = n: int | 0 <= n < 0x1_0000_0000_0000_0000

  const BLOCK_FREE: u32 := 0xffff_ffff
  const BLOCK_ZERO: u32 := 0xffff_fffe
  const INT64_LIMIT: int := 0x8000_0000_0000_0000

  datatype Header = Header(kind: u32, offBlocks: u32, offData: u32, diskSize: u64,
                           blockSize: u32, blockExtra: u32, blocks: u32)

  /** `steady` says that the image's file never faults and never stalls before its end. */
  datatype Image = Image(hdr: Header, bmap: seq<u32>, file: seq<byte>, steady: bool)

  /** What the reader needs of an image: blocks are not empty and the file length is a signed 64-bit size. */
  predicate WellFormed(img: Image) {
    0 < img.hdr.blockSize && |img.file| < INT64_LIMIT
  }

  ghost predicate WellFormedChain(chain: seq<Image>) {
    forall i :: 0 <= i < |chain| ==> WellFormed(chain[i])
  }

  /** Two's-complement truncation to a signed 64-bit integer. */
  function ToInt64(x: int): (r: int)
    ensures -INT64_LIMIT <= r < INT64_LIMIT
    ensures (r - x) % (2 * INT64_LIMIT) == 0
  {
    var m := x % (2 * INT64_LIMIT);
    if m < INT64_LIMIT then m else m - 2 * INT64_LIMIT
  }

  /** The disk size as the reader sees it: an unsigned size of 2^63 or more turns negative. */
  function Size(img: Image): int {
    ToInt64(img.hdr.diskSize)
  }

  function BlockOf(img: Image, pos: nat): nat
    requires WellFormed(img)
  {
    pos / img.hdr.blockSize
  }

  function Within(img: Image, pos: nat): nat
    requires WellFormed(img)
  {
    pos % img.hdr.blockSize
  }

  /** Where byte `into` of an allocated block lies in the file, before truncation to 64 bits. */
  function ExactOffset(img: Image, block: nat, into: nat): int
    requires block < |img.bmap|
  {
    img.hdr.offData + img.bmap[block] * (img.hdr.blockSize + img.hdr.blockExtra) + img.hdr.blockExtra + into
  }

  function PhysicalOffset(img: Image, block: nat, into: nat): int
    requires block < |img.bmap|
  {
    ToInt64(ExactOffset(img, block, into))
  }

  function FileByte(img: Image, at: int): Option<byte> {
    if 0 <= at < |img.file| then Some(img.file[at]) else None
  }

  /** The byte of the virtual disk at `pos`: None when it is mapped to a place outside its file. */
  function Overlay(chain: seq<Image>, pos: nat): Option<byte>
    requires WellFormedChain(chain)
    decreases |chain|
  {
    if |chain| == 0 || Size(chain[0]) <= pos then Some(0)
    else
      var img := chain[0];
      var block := BlockOf(img, pos);
      if |img.bmap| <= block || img.bmap[block] == BLOCK_ZERO then Some(0)
      else if img.bmap[block] == BLOCK_FREE then Overlay(chain[1..], pos)
      else FileByte(img, PhysicalOffset(img, block, Within(img, pos)))
  }

  /** Every byte of a run is present.  (Past the end of the disk every byte is a zero.) */
  ghost predicate Readable(chain: seq<Image>, off: nat, len: nat)
    requires WellFormedChain(chain)
  {
    forall q :: off <= q < off + len ==> Overlay(chain, q).Some?
  }

  /** How many bytes a read of `len` bytes at `off` can deliver. */
  function Window(size: int, off: nat, len: nat): nat {
    if size <= off then 0 else if size - off < len then size - off else len
  }

  /** The bytes of a run of positions. */
  function Bytes(chain: seq<Image>, off: nat, len: nat): (r: seq<Option<byte>>)
    requires WellFormedChain(chain)
    ensures |r| == len
    ensures forall k :: 0 <= k < len ==> r[k] == Overlay(chain, off + k)
  {
    seq(len, k requires 0 <= k < len => Overlay(chain, off + k))
  }

  /** What a complete read of a non-empty chain delivers, and whether it hits the end of the disk. */
  function Read(chain: seq<Image>, off: nat, len: nat): (seq<Option<byte>>, bool)
    requires WellFormedChain(chain) && |chain| > 0
  {
    var n := Window(Size(chain[0]), off, len);
    (Bytes(chain, off, n), n < len)
  }

  // ---------------------------------------------------------------- 64-bit offsets

  /** Truncation is harmless exactly when the exact offset is a signed 64-bit number. */
  lemma PhysicalOffsetExact(img: Image, block: nat, into: nat)
    requires block < |img.bmap|
    ensures PhysicalOffset(img, block, into) == ExactOffset(img, block, into)
       <==> ExactOffset(img, block, into) < INT64_LIMIT
  {
    MulNonNegative(img.bmap[block], img.hdr.blockSize + img.hdr.blockExtra);
  }

  lemma MulNonNegative(a: nat, b: nat)
    ensures 0 <= a * b
  {
  }

  /** A position and its successors inside one block share the block and follow one another in the file. */
  lemma SameBlock(img: Image, pos: nat, k: nat)
    requires WellFormed(img)
    requires k < img.hdr.blockSize - Within(img, pos)
    ensures BlockOf(img, pos + k) == BlockOf(img, pos)
    ensures Within(img, pos + k) == Within(img, pos) + k
  {
    var bs, q, r := img.hdr.blockSize, BlockOf(img, pos), Within(img, pos);
    assert pos + k == q * bs + (r + k);
    DivModUnique(pos + k, bs, q, r + k);
  }

  /** A run of positions of `img`, the head of `chain`, that stays inside one block and inside the disk. */
  ghost predicate IsRun(chain: seq<Image>, pos: nat, len: nat) {
    && WellFormedChain(chain) && |chain| > 0
    && pos + len <= Size(chain[0])
    && len <= chain[0].hdr.blockSize - Within(chain[0], pos)
  }

  /** A run over an absent or zero block is all zeros. */
  lemma ZeroRun(chain: seq<Image>, pos: nat, len: nat)
    requires IsRun(chain, pos, len)
    requires var b := BlockOf(chain[0], pos); |chain[0].bmap| <= b || chain[0].bmap[b] == BLOCK_ZERO
    ensures forall q :: pos <= q < pos + len ==> Overlay(chain, q) == Some(0)
  {
    forall q | pos <= q < pos + len ensures Overlay(chain, q) == Some(0) {
      SameBlock(chain[0], pos, q - pos);
    }
  }

  /** A run over a free block is the parent's run. */
  lemma FreeRun(chain: seq<Image>, pos: nat, len: nat)
    requires IsRun(chain, pos, len)
    requires var b := BlockOf(chain[0], pos); b < |chain[0].bmap| && chain[0].bmap[b] == BLOCK_FREE
    ensures forall q :: pos <= q < pos + len ==> Overlay(chain, q) == Overlay(chain[1..], q)
  {
    forall q | pos <= q < pos + len ensures Overlay(chain, q) == Overlay(chain[1..], q) {
      SameBlock(chain[0], pos, q - pos);
    }
  }

  lemma AllocatedByte(chain: seq<Image>, pos: nat, len: nat, k: nat)
    requires IsRun(chain, pos, len) && k < len
    requires var b := BlockOf(chain[0], pos); b < |chain[0].bmap| && chain[0].bmap[b] < BLOCK_ZERO
    ensures var img := chain[0];
            Overlay(chain, pos + k)
              == FileByte(img, ToInt64(ExactOffset(img, BlockOf(img, pos), Within(img, pos)) + k))
  {
    SameBlock(chain[0], pos, k);
  }

  /** A run over an allocated block is a slice of the file, or holds a byte the file does not have. */
  lemma AllocatedRun(chain: seq<Image>, pos: nat, len: nat)
    requires IsRun(chain, pos, len) && 0 < len
    requires var b := BlockOf(chain[0], pos); b < |chain[0].bmap| && chain[0].bmap[b] < BLOCK_ZERO
    ensures var img := chain[0];
            var at := PhysicalOffset(img, BlockOf(img, pos), Within(img, pos));
            if 0 <= at && at + len <= |img.file|
            then forall q :: pos <= q < pos + len ==> Overlay(chain, q) == Some(img.file[at + (q - pos)])
            else exists q :: pos <= q < pos + len && Overlay(chain, q) == None
  {
    var img := chain[0];
    var exact := ExactOffset(img, BlockOf(img, pos), Within(img, pos));
    var at := ToInt64(exact);
    if 0 <= at && at + len <= |img.file| {
      forall q | pos <= q < pos + len ensures Overlay(chain, q) == Some(img.file[at + (q - pos)]) {
        AllocatedByte(chain, pos, len, q - pos);
        ToInt64Shift(exact, q - pos);
      }
    } else {
      var k := if at < 0 || |img.file| <= at then 0 else |img.file| - at;
      AllocatedByte(chain, pos, len, k);
      ToInt64Shift(exact, k);
      assert Overlay(chain, pos + k) == None;
    }
  }

  lemma ToInt64Shift(x: int, k: nat)
    requires ToInt64(x) + k < INT64_LIMIT
    ensures ToInt64(x + k) == ToInt64(x) + k
  {
  }

  lemma DivModUnique(x: nat, d: nat, q: nat, r: nat)
    requires 0 < d && x == q * d + r && r < d
    ensures x / d == q && x % d == r
  {
    var q', r' := x / d, x % d;
    assert q' * d + r' == q * d + r by { assert x == d * q' + r'; }
    if q' < q { MulAtLeast(q, q', d); } else if q < q' { MulAtLeast(q', q, d); }
  }

  lemma MulAtLeast(a: nat, b: nat, d: nat)
    requires b < a
    ensures a * d >= b * d + d
  {
    assert a * d == b * d + (a - b) * d;
    assert (a - b - 1) * d >= 0;
    assert (a - b) * d == (a - b - 1) * d + d;
  }
}
