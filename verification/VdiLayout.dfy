/** Images as they are laid out in a file: a prefix, then slots in any order, each with its extra bytes in front, and
    a block map that says which slot holds which block.  What such an image shows is read off its slots. */
module VdiLayout {
  import opened Basics
  import opened VdiOverlay

  datatype Slot = Slot(extra: seq<byte>, data: seq<byte>)

  function SlotBytes(slots: seq<Slot>): seq<byte> {
    if slots == [] then [] else slots[0].extra + slots[0].data + SlotBytes(slots[1..])
  }

  ghost predicate Uniform(slots: seq<Slot>, extra: nat, size: nat) {
    forall s <- slots :: |s.extra| == extra && |s.data| == size
  }

  lemma NextMultiple(k: nat, d: nat)
    requires 0 < k
    ensures k * d == d + (k - 1) * d
  {
  }

  /** Byte r of the data in slot k. */
  lemma {:induction false} SlotByte(slots: seq<Slot>, extra: nat, size: nat, k: nat, r: nat)
    requires Uniform(slots, extra, size) && k < |slots| && r < size
    ensures var at := k * (extra + size) + extra + r;
            0 <= at < |SlotBytes(slots)| && SlotBytes(slots)[at] == slots[k].data[r]
  {
    assert slots[0] in slots;
    var first := slots[0].extra + slots[0].data;
    assert SlotBytes(slots) == first + SlotBytes(slots[1..]);
    if k == 0 {
      assert first[extra + r] == slots[0].data[r];
    } else {
      SlotByte(slots[1..], extra, size, k - 1, r);
      NextMultiple(k, extra + size);
    }
  }

  lemma {:induction false} SlotBytesLength(slots: seq<Slot>, extra: nat, size: nat)
    requires Uniform(slots, extra, size)
    ensures |SlotBytes(slots)| == |slots| * (extra + size)
  {
    if slots != [] {
      assert slots[0] in slots;
      SlotBytesLength(slots[1..], extra, size);
      NextMultiple(|slots|, extra + size);
    }
  }

  /** The parts of an image file that a header and a block map describe. */
  ghost predicate LaidOut(hdr: Header, bmap: seq<u32>, prefix: seq<byte>, slots: seq<Slot>, rest: seq<byte>) {
    && 0 < hdr.blockSize && hdr.diskSize < 0x8000_0000_0000_0000
    && |prefix| == hdr.offData && Uniform(slots, hdr.blockExtra, hdr.blockSize)
    && |prefix + SlotBytes(slots) + rest| < 0x8000_0000_0000_0000
    && |slots| <= 0xffff_fffe
    && forall i :: 0 <= i < |bmap| ==> bmap[i] < |slots| || bmap[i] == 0xffff_ffff || bmap[i] == 0xffff_fffe
  }

  function Stored(hdr: Header, bmap: seq<u32>, prefix: seq<byte>, slots: seq<Slot>, rest: seq<byte>,
                  steady: bool): Image {
    Image(hdr, bmap, prefix + SlotBytes(slots) + rest, steady)
  }

  /** Where the file holds byte r of slot m. */
  lemma StoredByte(hdr: Header, bmap: seq<u32>, prefix: seq<byte>, slots: seq<Slot>, rest: seq<byte>, m: nat, r: nat)
    requires LaidOut(hdr, bmap, prefix, slots, rest) && m < |slots| && r < hdr.blockSize
    ensures var file := prefix + SlotBytes(slots) + rest;
            var at := hdr.offData + m * (hdr.blockSize + hdr.blockExtra) + hdr.blockExtra + r;
            0 <= at < |file| < INT64_LIMIT && file[at] == slots[m].data[r]
  {
    SlotByte(slots, hdr.blockExtra, hdr.blockSize, m, r);
    var at := m * (hdr.blockExtra + hdr.blockSize) + hdr.blockExtra + r;
    assert (prefix + SlotBytes(slots) + rest)[hdr.offData + at] == SlotBytes(slots)[at];
  }

  lemma AllocatedAt(img: Image, i: nat, r: nat, at: nat)
    requires i < |img.bmap| && at < |img.file| < INT64_LIMIT
    requires at == img.hdr.offData + img.bmap[i] * (img.hdr.blockSize + img.hdr.blockExtra) + img.hdr.blockExtra + r
    ensures FileByte(img, PhysicalOffset(img, i, r)) == Some(img.file[at])
  {
    assert ToInt64(at) == at;
  }

  lemma PlaceOf(hdr: Header, bmap: seq<u32>, prefix: seq<byte>, slots: seq<Slot>, rest: seq<byte>, steady: bool,
                i: nat, r: nat)
    requires LaidOut(hdr, bmap, prefix, slots, rest) && r < hdr.blockSize && i < |bmap| && bmap[i] < |slots|
    ensures var img := Stored(hdr, bmap, prefix, slots, rest, steady);
            FileByte(img, PhysicalOffset(img, i, r)) == Some(slots[bmap[i]].data[r])
  {
    var img := Stored(hdr, bmap, prefix, slots, rest, steady);
    StoredByte(hdr, bmap, prefix, slots, rest, bmap[i], r);
    AllocatedAt(img, i, r, hdr.offData + bmap[i] * (hdr.blockSize + hdr.blockExtra) + hdr.blockExtra + r);
  }

  /** Byte r of block i, which is byte pos of the disk, read off the slots: zero where the map says so or ends, the
      parents' where the block is free. */
  function Shown(bmap: seq<u32>, slots: seq<Slot>, parents: seq<Image>, i: nat, r: nat, pos: nat): Option<byte>
    requires WellFormedChain(parents)
  {
    if |bmap| <= i || bmap[i] == 0xffff_fffe then Some(0)
    else if bmap[i] == 0xffff_ffff then Overlay(parents, pos)
    else if bmap[i] < |slots| && r < |slots[bmap[i]].data| then Some(slots[bmap[i]].data[r])
    else None
  }

  /** An image shows what its slots hold. */
  lemma LayoutReadsBack(hdr: Header, bmap: seq<u32>, prefix: seq<byte>, slots: seq<Slot>, rest: seq<byte>,
                        steady: bool, parents: seq<Image>, i: nat, r: nat, pos: nat)
    requires LaidOut(hdr, bmap, prefix, slots, rest) && WellFormedChain(parents)
    requires r < hdr.blockSize && pos == i * hdr.blockSize + r
    ensures var chain := [Stored(hdr, bmap, prefix, slots, rest, steady)] + parents;
            && WellFormedChain(chain)
            && Overlay(chain, pos)
               == if pos >= hdr.diskSize then Some(0) else Shown(bmap, slots, parents, i, r, pos)
  {
    var img := Stored(hdr, bmap, prefix, slots, rest, steady);
    assert ([img] + parents)[1..] == parents;
    DivModUnique(pos, hdr.blockSize, i, r);
    assert BlockOf(img, pos) == i && Within(img, pos) == r;
    if i < |bmap| && bmap[i] < |slots| { PlaceOf(hdr, bmap, prefix, slots, rest, steady, i, r); }
  }
}
