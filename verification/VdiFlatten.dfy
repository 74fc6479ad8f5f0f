/** What may be exchanged in a chain without any reader noticing: a tail of images for a single linear
    copy of its contents, and one long read for two shorter ones. */
module VdiFlatten {
  import opened Basics
  import opened VdiOverlay
  import opened VdiLayout

  /** Reading in two parts gives the same bytes and meets the end of the disk in the same reads. */
  lemma SplitRead(chain: seq<Image>, off: nat, a: nat, b: nat)
    requires WellFormedChain(chain) && |chain| > 0
    ensures Read(chain, off, a + b).0 == Read(chain, off, a).0 + Read(chain, off + a, b).0
    ensures Read(chain, off, a + b).1 <==> Read(chain, off, a).1 || Read(chain, off + a, b).1
  {
  }

  ghost predicate SameDisk(c: seq<Image>, d: seq<Image>)
    requires WellFormedChain(c) && WellFormedChain(d)
  {
    forall pos: nat :: Overlay(c, pos) == Overlay(d, pos)
  }

  /** Exchanging a proper tail for one that shows the same disk changes no byte. */
  lemma {:induction false} ReplaceTailByte(chain: seq<Image>, k: nat, tail: seq<Image>, pos: nat)
    requires WellFormedChain(chain) && WellFormedChain(tail) && k <= |chain|
    requires SameDisk(chain[k..], tail)
    ensures WellFormedChain(chain[..k] + tail)
    ensures Overlay(chain[..k] + tail, pos) == Overlay(chain, pos)
  {
    var whole := chain[..k] + tail;
    if k == 0 {
      assert whole == tail && chain[0..] == chain;
    } else {
      assert chain[1..][k - 1..] == chain[k..];
      ReplaceTailByte(chain[1..], k - 1, tail, pos);
      assert whole[1..] == chain[1..][..k - 1] + tail;
      assert whole[0] == chain[0];
    }
  }

  /** ... and no read: the leaf stays, so the end of the disk stays. */
  lemma ReplaceTailRead(chain: seq<Image>, k: nat, tail: seq<Image>, off: nat, len: nat)
    requires WellFormedChain(chain) && WellFormedChain(tail) && 0 < k <= |chain|
    requires SameDisk(chain[k..], tail)
    ensures WellFormedChain(chain[..k] + tail)
    ensures Read(chain[..k] + tail, off, len) == Read(chain, off, len)
  {
    ReplaceTailByte(chain, k, tail, 0);
    var whole := chain[..k] + tail;
    assert whole[0] == chain[0];
    forall pos: nat ensures Overlay(whole, pos) == Overlay(chain, pos) {
      ReplaceTailByte(chain, k, tail, pos);
    }
    var n := Window(Size(chain[0]), off, len);
    assert Bytes(whole, off, n) == Bytes(chain, off, n);
  }

  function Zeros(n: nat): (z: seq<byte>)
    ensures |z| == n && forall i :: 0 <= i < n ==> z[i] == 0
  {
    seq(n, _ => 0)
  }

  /** The contents of a fully readable disk, as one byte string. */
  function Contents(chain: seq<Image>): (bytes: seq<byte>)
    requires WellFormedChain(chain) && |chain| > 0 && Readable(chain, 0, Capacity(chain))
    ensures |bytes| == Capacity(chain)
    ensures forall pos :: 0 <= pos < |bytes| ==> Overlay(chain, pos) == Some(bytes[pos])
  {
    seq(Capacity(chain), pos requires 0 <= pos < Capacity(chain) => Overlay(chain, pos).value)
  }

  function Capacity(chain: seq<Image>): nat
    requires |chain| > 0
  {
    if Size(chain[0]) < 0 then 0 else Size(chain[0])
  }

  // ---------------------------------------------------------------- a copy with its blocks in any order

  function BlockCount(n: nat, blockSize: u32): nat
    requires 0 < blockSize
  {
    n / blockSize + 1
  }

  /** `order[i]` is the slot that holds block i, and `holds[j]` the block in slot j. */
  ghost predicate Permutes(order: seq<u32>, holds: seq<nat>) {
    && |order| == |holds|
    && (forall i :: 0 <= i < |order| ==> order[i] < |order| && holds[order[i]] == i)
    && (forall j :: 0 <= j < |holds| ==> holds[j] < |order|)
  }

  /** Block i of a byte string, filled up with zeros. */
  function BlockData(bytes: seq<byte>, i: nat, blockSize: u32): (data: seq<byte>)
    ensures |data| == blockSize
  {
    seq(blockSize, r requires 0 <= r < blockSize =>
      var pos := i * blockSize + r;
      if 0 <= pos < |bytes| then bytes[pos] else 0)
  }

  function Slots(bytes: seq<byte>, blockSize: u32, extra: seq<byte>, holds: seq<nat>): (slots: seq<Slot>)
    ensures |slots| == |holds|
    ensures forall j :: 0 <= j < |slots| ==> slots[j] == Slot(extra, BlockData(bytes, holds[j], blockSize))
  {
    seq(|holds|, j requires 0 <= j < |holds| => Slot(extra, BlockData(bytes, holds[j], blockSize)))
  }

  /** How a copy is laid out: what stands before the slots and in front of every block, and which slot is whose. */
  datatype Layout = Layout(prefix: seq<byte>, extra: seq<byte>, blockSize: u32, order: seq<u32>, holds: seq<nat>)

  /** The layout has a slot for every block of n bytes, and the file stays below the largest size. */
  ghost predicate Fits(n: nat, l: Layout) {
    && 0 < l.blockSize && |l.prefix| < 0x1_0000_0000 && |l.extra| < 0x1_0000_0000 && n < INT64_LIMIT
    && |l.order| == BlockCount(n, l.blockSize) < BLOCK_ZERO && Permutes(l.order, l.holds)
    && |l.prefix| + |l.order| * (|l.extra| + l.blockSize) < INT64_LIMIT
  }

  ghost function HeaderFor(n: nat, l: Layout): Header
    requires Fits(n, l)
  {
    Header(2, 0x200, |l.prefix|, n, l.blockSize, |l.extra|, |l.order|)
  }

  ghost function Copy(bytes: seq<byte>, l: Layout): Image
    requires Fits(|bytes|, l)
  {
    Stored(HeaderFor(|bytes|, l), l.order, l.prefix, Slots(bytes, l.blockSize, l.extra, l.holds), [], true)
  }

  lemma CopyLaidOut(bytes: seq<byte>, l: Layout)
    requires Fits(|bytes|, l)
    ensures LaidOut(HeaderFor(|bytes|, l), l.order, l.prefix, Slots(bytes, l.blockSize, l.extra, l.holds), [])
  {
    var slots := Slots(bytes, l.blockSize, l.extra, l.holds);
    assert Uniform(slots, |l.extra|, l.blockSize);
    SlotBytesLength(slots, |l.extra|, l.blockSize);
  }

  /** Whatever the order of its blocks, a copy shows the bytes, and zeros after them. */
  lemma CopyShows(bytes: seq<byte>, l: Layout, pos: nat)
    requires Fits(|bytes|, l)
    ensures WellFormedChain([Copy(bytes, l)]) && Size(Copy(bytes, l)) == |bytes|
    ensures Overlay([Copy(bytes, l)], pos) == Some(if pos < |bytes| then bytes[pos] else 0)
  {
    var i, r := pos / l.blockSize, pos % l.blockSize;
    var slots := Slots(bytes, l.blockSize, l.extra, l.holds);
    CopyLaidOut(bytes, l);
    assert pos == i * l.blockSize + r;
    LayoutReadsBack(HeaderFor(|bytes|, l), l.order, l.prefix, slots, [], true, [], i, r, pos);
    assert [Copy(bytes, l)] + [] == [Copy(bytes, l)];
    if pos < |bytes| {
      QuotientMonotone(pos, |bytes|, l.blockSize);
      assert slots[l.order[i]].data == BlockData(bytes, i, l.blockSize);
    }
  }

  lemma QuotientMonotone(a: nat, b: nat, d: nat)
    requires a <= b && 0 < d
    ensures a / d <= b / d
  {
    var qa, qb := a / d, b / d;
    assert a == qa * d + a % d && b == qb * d + b % d;
    if qb < qa { MulAtLeast(qa, qb, d); }
  }

  /** A disk exchanged for one that shows the same bytes and is as large gives the same reads. */
  lemma SameDiskSameRead(c: seq<Image>, d: seq<Image>, off: nat, len: nat)
    requires WellFormedChain(c) && WellFormedChain(d) && |c| > 0 && |d| > 0
    requires SameDisk(c, d) && Capacity(c) == Capacity(d)
    ensures Read(c, off, len) == Read(d, off, len)
  {
    var n := Window(Size(c[0]), off, len);
    assert n == Window(Size(d[0]), off, len);
    assert Bytes(c, off, n) == Bytes(d, off, n);
  }

  /** Any readable tail of a chain can be flattened: a copy of its contents, its blocks in any order and padded with
      any number of zeros, in its place gives exactly the same reads.  So can the whole chain, without padding. */
  lemma FlattenTail(chain: seq<Image>, k: nat, l: Layout, padding: nat, off: nat, len: nat)
    requires WellFormedChain(chain) && k < |chain| && (k == 0 ==> padding == 0)
    requires Readable(chain[k..], 0, Capacity(chain[k..]))
    requires Fits(Capacity(chain[k..]) + padding, l)
    ensures var flat := [Copy(Contents(chain[k..]) + Zeros(padding), l)];
            && WellFormedChain(chain[..k] + flat)
            && Read(chain[..k] + flat, off, len) == Read(chain, off, len)
  {
    var bytes := Contents(chain[k..]) + Zeros(padding);
    var flat := [Copy(bytes, l)];
    CopyShows(bytes, l, 0);
    forall pos: nat ensures Overlay(chain[k..], pos) == Overlay(flat, pos) {
      CopyShows(bytes, l, pos);
    }
    if k == 0 {
      assert chain[..0] + flat == flat && chain[0..] == chain;
      SameDiskSameRead(flat, chain, off, len);
    } else {
      ReplaceTailRead(chain, k, flat, off, len);
    }
  }

  /** What reading a plain file delivers, and whether it meets the end. */
  function PlainRead(data: seq<byte>, off: nat, len: nat): (seq<Option<byte>>, bool) {
    var n := Window(|data|, off, len);
    (seq(n, i requires 0 <= i < n => Some(data[off + i])), n < len)
  }

  /** A raw copy of the whole disk, read as a plain file, delivers what the chain delivers. */
  lemma RawCopyAgrees(chain: seq<Image>, off: nat, len: nat)
    requires WellFormedChain(chain) && |chain| > 0 && Readable(chain, 0, Capacity(chain))
    ensures PlainRead(Contents(chain), off, len) == Read(chain, off, len)
  {
    var raw := Contents(chain);
    var n := Window(|raw|, off, len);
    assert PlainRead(raw, off, len).0 == Bytes(chain, off, n);
  }

  /** Reading from the start as many bytes as the disk holds gives its contents and no end of disk; asking for any
      more gives the same bytes and the end. */
  lemma WholeRead(chain: seq<Image>, more: nat)
    requires WellFormedChain(chain) && |chain| > 0 && Readable(chain, 0, Capacity(chain))
    ensures var bytes := Contents(chain);
            && |Read(chain, 0, |bytes| + more).0| == |bytes|
            && (forall k :: 0 <= k < |bytes| ==> Read(chain, 0, |bytes| + more).0[k] == Some(bytes[k]))
            && (Read(chain, 0, |bytes| + more).1 <==> 0 < more)
  {
  }
}
