/** The file format as a writer lays it out, and that opening such a file gives back what was written. */
module VdiFile {
  import opened Basics
  import opened VdiOverlay
  import opened VdiLayout
  import opened VdiReader
  import opened VdiOpen

  /** The k low bytes of a number, least significant first. */
  function LeBytes(n: nat, k: nat): (bytes: seq<byte>)
    ensures |bytes| == k
  {
    if k == 0 then [] else [n % 256] + LeBytes(n / 256, k - 1)
  }

  ghost predicate Holds(data: seq<byte>, at: nat, bytes: seq<byte>) {
    at + |bytes| <= |data| && data[at..at + |bytes|] == bytes
  }

  lemma FourBytes(n: nat)
    ensures LeBytes(n, 4) == [n % 256, n / 256 % 256, n / 256 / 256 % 256, n / 256 / 256 / 256 % 256]
  {
    assert LeBytes(n, 4) == [n % 256] + LeBytes(n / 256, 3);
    assert LeBytes(n / 256, 3) == [n / 256 % 256] + LeBytes(n / 256 / 256, 2);
    assert LeBytes(n / 256 / 256, 2) == [n / 256 / 256 % 256] + LeBytes(n / 256 / 256 / 256, 1);
    assert LeBytes(n / 256 / 256 / 256, 1) == [n / 256 / 256 / 256 % 256] + LeBytes(n / 256 / 256 / 256 / 256, 0);
  }

  /** A 32-bit number is read back, and only it. */
  lemma Le32Reads(data: seq<byte>, at: nat, n: u32)
    requires at + 4 <= |data|
    ensures Holds(data, at, LeBytes(n, 4)) <==> Le32(data, at) == n
  {
    var d := data[at..at + 4];
    assert d == [data[at], data[at + 1], data[at + 2], data[at + 3]];
    FourBytes(n);
    FourDigits(n, data[at], data[at + 1], data[at + 2], data[at + 3]);
  }

  lemma FourDigits(n: u32, b0: byte, b1: byte, b2: byte, b3: byte)
    ensures n == b0 + 0x100 * b1 + 0x1_0000 * b2 + 0x100_0000 * b3
       <==> b0 == n % 256 && b1 == n / 256 % 256 && b2 == n / 256 / 256 % 256 && b3 == n / 256 / 256 / 256 % 256
  {
  }

  /** A 64-bit number is its low half and then its high half. */
  ghost predicate Holds64(data: seq<byte>, at: nat, n: u64) {
    && Holds(data, at, LeBytes(n % 0x1_0000_0000, 4)) && Holds(data, at + 4, LeBytes(n / 0x1_0000_0000, 4))
  }

  lemma Le64Reads(data: seq<byte>, at: nat, n: u64)
    requires Holds64(data, at, n)
    ensures Le64(data, at) == n
  {
    Le32Reads(data, at, n % 0x1_0000_0000);
    Le32Reads(data, at + 4, n / 0x1_0000_0000);
  }

  // ---------------------------------------------------------------- the header

  /** Where a writer puts the signature, the version and the fields of the header. */
  ghost predicate WritesHeader(data: seq<byte>, version: u32, h: Header) {
    && Holds(data, 0x40, LeBytes(0xbeda_107f, 4)) && Holds(data, 0x44, LeBytes(version, 4))
    && Holds(data, 0x4c, LeBytes(h.kind, 4))
    && Holds(data, 0x154, LeBytes(h.offBlocks, 4)) && Holds(data, 0x158, LeBytes(h.offData, 4))
    && Holds64(data, 0x170, h.diskSize)
    && Holds(data, 0x178, LeBytes(h.blockSize, 4)) && Holds(data, 0x17c, LeBytes(h.blockExtra, 4))
    && Holds(data, 0x180, LeBytes(h.blocks, 4))
  }

  /** What the reader asks of a header: version 1, one of four kinds, blocks of at least 512 bytes whose size is a
      power of two, some blocks and some size, both offsets given, and a map of at most 64 MiB. */
  ghost predicate Sound(version: u32, h: Header) {
    && 0x1_0000 <= version < 0x2_0000 && h.kind in {1, 2, 3, 4}
    && 512 <= h.blockSize && IsPow2(h.blockSize)
    && 0 < h.blocks <= 16 * 1024 * 1024 && 0 < h.diskSize && 0 < h.offBlocks && 0 < h.offData
  }

  lemma WrittenFields(data: seq<byte>, version: u32, h: Header)
    requires WritesHeader(data, version, h)
    ensures |data| >= 0x184 && Le32(data, 0x40) == SIGNATURE && Le32(data, 0x44) == version
    ensures h == Header(Le32(data, 0x4c), Le32(data, 0x154), Le32(data, 0x158), Le64(data, 0x170),
                        Le32(data, 0x178), Le32(data, 0x17c), Le32(data, 0x180))
  {
    Le32Reads(data, 0x40, 0xbeda_107f);
    Le32Reads(data, 0x44, version);
    Le32Reads(data, 0x4c, h.kind);
    Le32Reads(data, 0x154, h.offBlocks);
    Le32Reads(data, 0x158, h.offData);
    Le64Reads(data, 0x170, h.diskSize);
    Le32Reads(data, 0x178, h.blockSize);
    Le32Reads(data, 0x17c, h.blockExtra);
    Le32Reads(data, 0x180, h.blocks);
  }

  /** A written header is read back exactly when it is sound, and no other header ever is. */
  lemma HeaderReadsBack(data: seq<byte>, version: u32, h: Header)
    requires WritesHeader(data, version, h)
    ensures HeaderOf(data) == Ok(h) <==> Sound(version, h)
    ensures HeaderOf(data).Ok? ==> HeaderOf(data) == Ok(h)
  {
    WrittenFields(data, version, h);
    if 0 < h.blockSize { SingleBitExactly(h.blockSize); }
  }

  /** A header with one thing wrong is refused for that. */
  lemma OneFaultIsNamed(data: seq<byte>, version: u32, h: Header)
    requires WritesHeader(data, version, h)
    ensures Sound(0x1_0001, h) && !Sound(version, h) ==> HeaderOf(data) == Fail(BadVersion)
    ensures Sound(version, h.(kind := 1)) && !Sound(version, h) ==> HeaderOf(data) == Fail(BadKind)
    ensures Sound(version, h.(blockSize := 512)) && !Sound(version, h) ==> HeaderOf(data) == Fail(BadBlockSize)
    ensures Sound(version, h.(diskSize := 1)) && !Sound(version, h) ==> HeaderOf(data) == Fail(BadGeometry)
    ensures Sound(version, h.(offBlocks := 1, offData := 1)) && !Sound(version, h)
        ==> HeaderOf(data) == Fail(BadOffsets)
    ensures Sound(version, h.(blocks := 1)) && !Sound(version, h)
        ==> HeaderOf(data) == Fail(if h.blocks == 0 then BadGeometry else MapTooLarge)
  {
    WrittenFields(data, version, h);
    if 0 < h.blockSize { SingleBitExactly(h.blockSize); }
    assert 512 == Pow2(9) by { assert Pow2(5) == 32; assert Pow2(9) == 16 * Pow2(5); }
  }

  /** A file is no VDI exactly when the signature is not where it belongs. */
  lemma NoVdiExactly(data: seq<byte>)
    ensures HeaderOf(data) == Fail(NotVdi) <==> !Holds(data, 0x40, LeBytes(0xbeda_107f, 4))
  {
    if 0x44 <= |data| { Le32Reads(data, 0x40, 0xbeda_107f); }
  }

  // ---------------------------------------------------------------- the whole file

  ghost predicate WritesMap(data: seq<byte>, at: nat, bmap: seq<u32>) {
    forall i :: 0 <= i < |bmap| ==> Holds(data, at + 4 * i, LeBytes(bmap[i], 4))
  }

  lemma MapReadsBack(data: seq<byte>, at: nat, bmap: seq<u32>)
    requires at + 4 * |bmap| <= |data| && WritesMap(data, at, bmap)
    ensures MapAt(data, at, |bmap|) == bmap
  {
    forall i | 0 <= i < |bmap| ensures MapAt(data, at, |bmap|)[i] == bmap[i] {
      Le32Reads(data, at + 4 * i, bmap[i]);
    }
  }

  /** A file holding a header, a block map and slots at the places the header names. */
  ghost predicate WritesImage(data: seq<byte>, version: u32, h: Header, bmap: seq<u32>,
                              prefix: seq<byte>, slots: seq<Slot>, rest: seq<byte>) {
    && WritesHeader(data, version, h) && |bmap| == h.blocks && WritesMap(data, h.offBlocks, bmap)
    && data == prefix + SlotBytes(slots) + rest && LaidOut(h, bmap, prefix, slots, rest)
  }

  /** From the bytes of a file to the bytes of the disk: the image opened from a written file shows, in front of any
      parents, what its slots hold, in the order of its block map. */
  lemma FileReadsBack(f: DiskFile, version: u32, h: Header, bmap: seq<u32>, prefix: seq<byte>, slots: seq<Slot>,
                      rest: seq<byte>, img: Image, parents: seq<Image>, i: nat, r: nat, pos: nat)
    requires WritesImage(f.data, version, h, bmap, prefix, slots, rest) && IsImageOf(img, f)
    requires WellFormedChain(parents) && r < h.blockSize && pos == i * h.blockSize + r
    ensures WellFormedChain([img] + parents)
    ensures Overlay([img] + parents, pos)
         == if pos >= h.diskSize then Some(0) else Shown(bmap, slots, parents, i, r, pos)
  {
    HeaderReadsBack(f.data, version, h);
    MapReadsBack(f.data, h.offBlocks, bmap);
    assert img == Stored(h, bmap, prefix, slots, rest, f.steady);
    LayoutReadsBack(h, bmap, prefix, slots, rest, f.steady, parents, i, r, pos);
  }

  /** And it opens: the file's bytes make the header exactly when the header is sound and the map is inside the file. */
  lemma OpensExactly(data: seq<byte>, version: u32, h: Header)
    requires WritesHeader(data, version, h)
    ensures OpenHeader(data) == Ok(h) <==> Sound(version, h) && h.offBlocks + 4 * h.blocks <= |data|
  {
    HeaderReadsBack(data, version, h);
  }
}
