/** The reader of a VDI chain: it fills a window of a buffer in place, block by block, recursing into
    the parent image where the leaf has no block of its own. */
module VdiReader {
  import opened Basics
  import opened VdiOverlay

  datatype Err = NoError | EndOfFile | UnexpectedEof | NegativeOffset | Fault

  /** An open host file.  Its reads may be short, may end early and may fault; what they deliver is the
      file's bytes.  On a steady file a read makes progress while bytes remain and never faults; a prompt one
      besides delivers all there is at once. */
  class DiskFile {
    const data: seq<byte>
    const steady: bool
    const prompt: bool

    constructor (data: seq<byte>, steady: bool, prompt: bool)
      ensures this.data == data && this.steady == steady && this.prompt == prompt
    {
      this.data, this.steady, this.prompt := data, steady, prompt;
    }

    /** As a file on disk behaves when nothing goes wrong: one read delivers all there is. */
    predicate Prompt() {
      steady && prompt
    }

    method ReadAt(p: array<byte>, lo: nat, hi: nat, off: int) returns (n: nat, err: Err)
      requires lo <= hi <= p.Length
      modifies p
      ensures n <= hi - lo && (n > 0 ==> 0 <= off && off + n <= |data|)
      ensures forall i :: lo <= i < lo + n ==> p[i] == data[off + (i - lo)]
      ensures forall i :: 0 <= i < p.Length && !(lo <= i < hi) ==> p[i] == old(p[i])
      ensures err in {NoError, EndOfFile, Fault}
      ensures err == EndOfFile ==> |data| <= off + n
      ensures steady && 0 <= off ==> err != Fault
      ensures steady && 0 <= off < |data| && lo < hi ==> n > 0
      ensures Prompt() && 0 <= off ==>
                n == Window(|data|, off, hi - lo) && err == if n < hi - lo then EndOfFile else NoError
    {
      var room := if 0 <= off < |data| then Window(|data|, off, hi - lo) else 0;
      n :| 0 <= n <= room && (steady && 0 < room ==> 0 < n) && (Prompt() ==> n == room);
      for k := 0 to n
        invariant forall i :: lo <= i < lo + k ==> p[i] == data[off + (i - lo)]
        invariant forall i :: 0 <= i < p.Length && !(lo <= i < hi) ==> p[i] == old(p[i])
      {
        p[lo + k] := data[off + k];
      }
      var ended, faulted := *, *;
      err := if off < 0 || (faulted && !steady) then Fault
             else if Prompt() then if n < hi - lo then EndOfFile else NoError
             else if ended && |data| <= off + n then EndOfFile else NoError;
    }
  }

  method Clear(p: array<byte>, lo: nat, hi: nat)
    requires lo <= hi <= p.Length
    modifies p
    ensures forall i :: lo <= i < hi ==> p[i] == 0
    ensures forall i :: 0 <= i < p.Length && !(lo <= i < hi) ==> p[i] == old(p[i])
  {
    for k := lo to hi
      invariant forall i :: lo <= i < k ==> p[i] == 0
      invariant forall i :: 0 <= i < p.Length && !(lo <= i < hi) ==> p[i] == old(p[i])
    {
      p[k] := 0;
    }
  }

  /** Fills the whole window or reports an error other than end of file, however short the file's own
      reads are.  On a steady file it fails only when the window is not inside the file. */
  method ReadFullAt(f: DiskFile, p: array<byte>, lo: nat, hi: nat, off: int) returns (err: Err)
    requires lo <= hi <= p.Length
    modifies p
    ensures err == NoError && lo < hi ==>
              0 <= off && off + (hi - lo) <= |f.data|
              && forall i :: lo <= i < hi ==> p[i] == f.data[off + (i - lo)]
    ensures forall i :: 0 <= i < p.Length && !(lo <= i < hi) ==> p[i] == old(p[i])
    ensures err in {NoError, UnexpectedEof, Fault}
    ensures f.steady && (lo == hi || 0 <= off <= off + (hi - lo) <= |f.data|) ==> err == NoError
  {
    var got := 0;
    while got < hi - lo
      invariant 0 <= got <= hi - lo
      invariant got > 0 ==> 0 <= off && off + got <= |f.data|
      invariant forall i :: lo <= i < lo + got ==> p[i] == f.data[off + (i - lo)]
      invariant forall i :: 0 <= i < p.Length && !(lo <= i < hi) ==> p[i] == old(p[i])
    {
      var n, e := f.ReadAt(p, lo + got, hi, off + got);
      got := got + n;
      if e != NoError {
        if e == EndOfFile && got == hi - lo { return NoError; }
        if e == EndOfFile { return UnexpectedEof; }
        return e;
      }
      if n == 0 { return UnexpectedEof; }
    }
    return NoError;
  }

  ghost predicate Steady(chain: seq<Image>) {
    forall i :: 0 <= i < |chain| ==> chain[i].steady
  }

  class VdiImage {
    const file: DiskFile
    const hdr: Header
    var bmap: seq<u32>
    var parent: VdiImage?
    ghost var chain: seq<Image>
    ghost var repr: set<object>

    ghost predicate Valid()
      reads this, repr
      ensures Valid() ==> this in repr && |chain| > 0 && WellFormedChain(chain)
    {
      && this in repr
      && |chain| > 0
      && chain[0] == Image(hdr, bmap, file.data, file.steady)
      && WellFormedChain(chain)
      && (parent == null ==> |chain| == 1)
      && (parent != null ==>
            && parent in repr && parent.repr <= repr && this !in parent.repr
            && parent.Valid() && chain[1..] == parent.chain)
    }

    constructor (file: DiskFile, hdr: Header, bmap: seq<u32>)
      requires 0 < hdr.blockSize && |file.data| < INT64_LIMIT
      ensures Valid() && fresh(repr) && parent == null
      ensures chain == [Image(hdr, bmap, file.data, file.steady)]
      ensures this.file == file && this.hdr == hdr
    {
      this.file, this.hdr, this.bmap, parent := file, hdr, bmap, null;
      chain := [Image(hdr, bmap, file.data, file.steady)];
      repr := {this};
    }

    /** One turn of the reading loop: the part of the window that stays inside one block. */
    method ReadRun(p: array<byte>, lo: nat, hi: nat, cur: nat) returns (n: nat, err: Err)
      requires Valid() && lo < hi <= p.Length && p !in repr && IsRun(chain, cur, hi - lo)
      modifies p
      ensures n <= hi - lo
      ensures forall i :: lo <= i < lo + n ==> Overlay(chain, cur + (i - lo)) == Some(p[i])
      ensures forall i :: 0 <= i < p.Length && !(lo <= i < hi) ==> p[i] == old(p[i])
      ensures err == NoError <==> n == hi - lo
      ensures err != EndOfFile
      ensures err == NoError ==> Readable(chain, cur, hi - lo)
      ensures err != NoError && Steady(chain) ==> !Readable(chain, cur, hi - lo)
      decreases |chain|, 1
    {
      assert chain[0].hdr == hdr && chain[0].bmap == bmap;
      var idx := cur / hdr.blockSize;
      assert idx == BlockOf(chain[0], cur);
      if |bmap| <= idx || bmap[idx] == BLOCK_ZERO {
        n, err := ReadZero(p, lo, hi, cur);
      } else if bmap[idx] == BLOCK_FREE || BLOCK_ZERO <= bmap[idx] {
        n, err := ReadFree(p, lo, hi, cur);
      } else {
        n, err := ReadAllocated(p, lo, hi, cur);
      }
    }

    /** The file offset of byte `into` of an allocated block, in 64-bit arithmetic. */
    function PhysicalAt(block: nat, into: nat): (at: int)
      requires Valid() && block < |bmap|
      reads this, repr
      ensures at == PhysicalOffset(chain[0], block, into)
    {
      var stride := hdr.blockSize + hdr.blockExtra;
      ToInt64(hdr.offData + bmap[block] * stride + hdr.blockExtra + into)
    }

    /** An allocated block: a slice of this image's own file. */
    method ReadAllocated(p: array<byte>, lo: nat, hi: nat, cur: nat) returns (n: nat, err: Err)
      requires Valid() && lo < hi <= p.Length && p !in repr && IsRun(chain, cur, hi - lo)
      requires BlockOf(chain[0], cur) < |bmap| && bmap[BlockOf(chain[0], cur)] < BLOCK_ZERO
      modifies p
      ensures n <= hi - lo
      ensures forall i :: lo <= i < lo + n ==> Overlay(chain, cur + (i - lo)) == Some(p[i])
      ensures forall i :: 0 <= i < p.Length && !(lo <= i < hi) ==> p[i] == old(p[i])
      ensures err == NoError <==> n == hi - lo
      ensures err != EndOfFile
      ensures err == NoError ==> Readable(chain, cur, hi - lo)
      ensures err != NoError && Steady(chain) ==> !Readable(chain, cur, hi - lo)
    {
      AllocatedRun(chain, cur, hi - lo);
      var at := PhysicalAt(cur / hdr.blockSize, cur % hdr.blockSize);
      err := ReadFullAt(file, p, lo, hi, at);
      n := if err == NoError then hi - lo else 0;
    }

    /** A block that is absent from the map, or marked zero. */
    method ReadZero(p: array<byte>, lo: nat, hi: nat, cur: nat) returns (n: nat, err: Err)
      requires Valid() && lo < hi <= p.Length && p !in repr && IsRun(chain, cur, hi - lo)
      requires BlockOf(chain[0], cur) < |bmap| ==> bmap[BlockOf(chain[0], cur)] == BLOCK_ZERO
      modifies p
      ensures n <= hi - lo
      ensures forall i :: lo <= i < lo + n ==> Overlay(chain, cur + (i - lo)) == Some(p[i])
      ensures forall i :: 0 <= i < p.Length && !(lo <= i < hi) ==> p[i] == old(p[i])
      ensures err == NoError <==> n == hi - lo
      ensures err != EndOfFile
      ensures err == NoError ==> Readable(chain, cur, hi - lo)
      ensures err != NoError && Steady(chain) ==> !Readable(chain, cur, hi - lo)
    {
      ZeroRun(chain, cur, hi - lo);
      Clear(p, lo, hi);
      return hi - lo, NoError;
    }

    /** A free block: the parent's bytes, with zeros where the parent's disk ends or there is no parent. */
    method ReadFree(p: array<byte>, lo: nat, hi: nat, cur: nat) returns (n: nat, err: Err)
      requires Valid() && lo < hi <= p.Length && p !in repr && IsRun(chain, cur, hi - lo)
      requires BlockOf(chain[0], cur) < |bmap| && bmap[BlockOf(chain[0], cur)] == BLOCK_FREE
      modifies p
      ensures n <= hi - lo
      ensures forall i :: lo <= i < lo + n ==> Overlay(chain, cur + (i - lo)) == Some(p[i])
      ensures forall i :: 0 <= i < p.Length && !(lo <= i < hi) ==> p[i] == old(p[i])
      ensures err == NoError <==> n == hi - lo
      ensures err != EndOfFile
      ensures err == NoError ==> Readable(chain, cur, hi - lo)
      ensures err != NoError && Steady(chain) ==> !Readable(chain, cur, hi - lo)
      decreases |chain|, 0
    {
      FreeRun(chain, cur, hi - lo);
      assert Readable(chain, cur, hi - lo) <==> Readable(chain[1..], cur, hi - lo);
      if parent == null {
        Clear(p, lo, hi);
        return hi - lo, NoError;
      }
      var nn, e := parent.ReadAt(p, lo, hi, cur);
      if nn < hi - lo { Clear(p, lo + nn, hi); }
      if e != NoError && e != EndOfFile && nn < hi - lo {
        return nn, e;
      }
      return hi - lo, NoError;
    }

    /** How much of `want` bytes at `cur` lies before the end of the disk and of the block. */
    function RunLength(cur: nat, want: nat): (m: nat)
      requires Valid() && cur < Size(chain[0]) && 0 < want
      reads this, repr
      ensures 0 < m <= want && IsRun(chain, cur, m)
    {
      assert chain[0].hdr == hdr;
      var remain := ToInt64(hdr.diskSize) - cur;
      var n := if remain < want then remain else want;
      var chunk := hdr.blockSize - cur % hdr.blockSize;
      if chunk < n then chunk else n
    }

    method ReadAt(p: array<byte>, lo: nat, hi: nat, off: int) returns (n: nat, err: Err)
      requires Valid() && lo <= hi <= p.Length && p !in repr
      modifies p
      // whatever the files do, the bytes reported are the overlay's bytes, and nothing outside the window moves
      ensures n <= hi - lo && (0 < n ==> 0 <= off)
      ensures forall i :: lo <= i < lo + n ==> Overlay(chain, off + (i - lo)) == Some(p[i])
      ensures forall i :: 0 <= i < p.Length && !(lo <= i < hi) ==> p[i] == old(p[i])
      // the whole disk window is delivered, unless a file failed
      ensures lo == hi ==> err == NoError
      ensures lo < hi && off < 0 ==> err == NegativeOffset
      ensures lo < hi && 0 <= off && err in {NoError, EndOfFile} ==>
                n == Window(Size(chain[0]), off, hi - lo) && (err == EndOfFile <==> n < hi - lo)
      ensures err !in {NoError, EndOfFile} ==> n < hi - lo
      // a failure is never the files' fault when they are steady: some byte really is unreadable
      ensures lo < hi && 0 <= off && err in {NoError, EndOfFile} ==> Readable(chain, off, hi - lo)
      ensures lo < hi && 0 <= off && err !in {NoError, EndOfFile} && Steady(chain) ==>
                !Readable(chain, off, hi - lo)
      decreases |chain|, 2
    {
      if hi == lo { return 0, NoError; }
      if off < 0 { return 0, NegativeOffset; }
      assert chain[0].hdr == hdr;
      var size := ToInt64(hdr.diskSize);
      if size <= off { return 0, EndOfFile; }
      var done := 0;
      while done < hi - lo
        invariant 0 <= done <= Window(size, off, hi - lo)
        invariant forall i :: lo <= i < lo + done ==> Overlay(chain, off + (i - lo)) == Some(p[i])
        invariant Readable(chain, off, done)
        invariant forall i :: 0 <= i < p.Length && !(lo <= i < hi) ==> p[i] == old(p[i])
      {
        var cur := off + done;
        if size <= cur { return done, EndOfFile; }
        var m := RunLength(cur, (hi - lo) - done);
        label turn:
        var nn, e := ReadRun(p, lo + done, lo + done + m, cur);
        forall i | lo <= i < lo + done + nn
          ensures Overlay(chain, off + (i - lo)) == Some(p[i])
        {
          if i < lo + done {
            assert p[i] == old@turn(p[i]);
          } else {
            assert off + (i - lo) == cur + (i - (lo + done));
          }
        }
        if e != NoError { return done + nn, e; }
        done := done + m;
      }
      return done, NoError;
    }
  }
}
