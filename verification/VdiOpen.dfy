/** Opening a chain: header checks, block-map loading, and the linking of every image to its parent. */
module VdiOpen {
  import opened Basics
  import opened VdiOverlay
  import opened VdiReader
  import opened VdiFlatten

  datatype OpenError = NotVdi | ReadFailed | Truncated | BadVersion | BadKind | BadBlockSize
                     | BadGeometry | BadOffsets | MapTooLarge | MapUnreadable | EmptyChain | NotVdiInChain

  datatype Result<+T> = Ok(value: T) | Fail(error: OpenError)

  const SIGNATURE: u32 := 0xbeda_107f
  const MAX_MAP_BYTES: int := 64 * 1024 * 1024

  function Le32(raw: seq<byte>, at: nat): u32
    requires at + 4 <= |raw|
  {
    var b0: int, b1: int, b2: int, b3: int := raw[at], raw[at + 1], raw[at + 2], raw[at + 3];
    b0 + 0x100 * b1 + 0x1_0000 * b2 + 0x100_0000 * b3
  }

  function Le64(raw: seq<byte>, at: nat): u64
    requires at + 8 <= |raw|
  {
    Le32(raw, at) + 0x1_0000_0000 * Le32(raw, at + 4)
  }

  /** Bitwise and. */
  function And(a: nat, b: nat): nat {
    if a == 0 || b == 0 then 0 else 2 * And(a / 2, b / 2) + (a % 2) * (b % 2)
  }

  predicate SingleBit(n: nat)
    requires 0 < n
  {
    And(n, n - 1) == 0
  }

  function Pow2(k: nat): (p: nat)
    ensures 0 < p
  {
    if k == 0 then 1 else 2 * Pow2(k - 1)
  }

  lemma BitSquared(b: nat)
    requires b < 2
    ensures b * b == b
  {
    if b == 1 { assert b * b == 1; }
  }

  lemma {:induction false} AndSelf(n: nat)
    ensures And(n, n) == n
  {
    if n != 0 {
      AndSelf(n / 2);
      BitSquared(n % 2);
      assert And(n, n) == 2 * (n / 2) + n % 2;
    }
  }

  lemma AndEven(m: nat)
    requires 0 < m
    ensures And(2 * m, 2 * m - 1) == 2 * And(m, m - 1)
  {
    assert (2 * m) / 2 == m && (2 * m) % 2 == 0 && (2 * m - 1) / 2 == m - 1;
  }

  lemma AndOdd(m: nat)
    ensures And(2 * m + 1, 2 * m) == 2 * m
  {
    AndSelf(m);
    assert (2 * m + 1) / 2 == m && (2 * m) / 2 == m && (2 * m) % 2 == 0;
  }

  ghost predicate IsPow2(n: nat) {
    exists k: nat :: n == Pow2(k)
  }

  lemma Pow2Even(m: nat)
    requires 0 < m
    ensures IsPow2(2 * m) <==> IsPow2(m)
  {
    if k: nat :| m == Pow2(k) { assert 2 * m == Pow2(k + 1); }
    if k: nat :| 2 * m == Pow2(k) { assert m == Pow2(k - 1); }
  }

  lemma Pow2Odd(m: nat)
    ensures IsPow2(2 * m + 1) <==> m == 0
  {
    if m == 0 { assert 1 == Pow2(0); }
    forall k: nat ensures Pow2(k) == 1 || Pow2(k) % 2 == 0 {
    }
  }

  /** The bit test accepts exactly the powers of two. */
  lemma {:induction false} SingleBitExactly(n: nat)
    requires 0 < n
    ensures SingleBit(n) <==> IsPow2(n)
  {
    var m := n / 2;
    if n % 2 == 0 {
      AndEven(m);
      SingleBitExactly(m);
      Pow2Even(m);
    } else {
      AndOdd(m);
      Pow2Odd(m);
    }
  }

  /** The header checks, on the bytes that one read of the file's start delivered. */
  function ParseHeader(raw: seq<byte>, faulted: bool): (r: Result<Header>)
    ensures r.Ok? ==>
              && 512 <= r.value.blockSize && IsPow2(r.value.blockSize) && 1 <= r.value.kind <= 4
              && 0 < r.value.blocks <= MAX_MAP_BYTES / 4 && 0 < r.value.diskSize
              && 0 < r.value.offBlocks && 0 < r.value.offData
  {
    if |raw| < 0x44 || Le32(raw, 0x40) != SIGNATURE then Fail(NotVdi)
    else if faulted then Fail(ReadFailed)
    else if |raw| < 0x184 then Fail(Truncated)
    else if Le32(raw, 0x44) / 0x1_0000 != 1 then Fail(BadVersion)
    else
      var h := Header(Le32(raw, 0x4c), Le32(raw, 0x154), Le32(raw, 0x158), Le64(raw, 0x170),
                      Le32(raw, 0x178), Le32(raw, 0x17c), Le32(raw, 0x180));
      if h.kind < 1 || 4 < h.kind then Fail(BadKind)
      else if h.blockSize < 512 || !SingleBit(h.blockSize) then Fail(BadBlockSize)
      else if h.blocks == 0 || h.diskSize == 0 then Fail(BadGeometry)
      else if h.offBlocks == 0 || h.offData == 0 then Fail(BadOffsets)
      else if MAX_MAP_BYTES < h.blocks * 4 then Fail(MapTooLarge)
      else
        SingleBitExactly(h.blockSize);
        Ok(h)
  }

  /** The header a file holds, and the image it therefore is. */
  function HeaderOf(data: seq<byte>): Result<Header> {
    ParseHeader(data, false)
  }

  function MapAt(data: seq<byte>, at: nat, count: nat): (m: seq<u32>)
    requires at + 4 * count <= |data|
    ensures |m| == count
  {
    seq(count, i requires 0 <= i < count => Le32(data, at + 4 * i))
  }

  ghost predicate IsImageOf(img: Image, f: DiskFile) {
    && img.file == f.data && img.steady == f.steady
    && HeaderOf(f.data) == Ok(img.hdr)
    && img.hdr.offBlocks + 4 * img.hdr.blocks <= |f.data|
    && img.bmap == MapAt(f.data, img.hdr.offBlocks, img.hdr.blocks)
  }

  /** A header accepted from a part of the file is the file's header. */
  lemma HeaderFromPrefix(data: seq<byte>, n: nat, faulted: bool)
    requires n <= |data| && ParseHeader(data[..n], faulted).Ok?
    ensures HeaderOf(data) == ParseHeader(data[..n], faulted)
  {
    forall at: nat | at + 4 <= n ensures Le32(data, at) == Le32(data[..n], at) {}
  }

  /** All the checks look at are the first bytes of the file. */
  lemma HeaderFromStart(data: seq<byte>, n: nat)
    requires n <= |data| && (n == |data| || 0x184 <= n)
    ensures ParseHeader(data[..n], false) == HeaderOf(data)
  {
    if n == |data| {
      assert data[..n] == data;
    } else {
      forall at: nat | at + 4 <= n ensures Le32(data, at) == Le32(data[..n], at) {}
    }
  }

  /** Whatever one read delivers, a header it yields is the file's; a prompt file's header, or what is wrong with it,
      is always found. */
  method ParseVdiHeader(f: DiskFile) returns (r: Result<Header>)
    ensures r.Ok? ==> HeaderOf(f.data) == r
    ensures f.Prompt() ==> r == HeaderOf(f.data)
  {
    var raw := new byte[0x190](_ => 0);
    var n, e := f.ReadAt(raw, 0, 0x190, 0);
    assert raw[..n] == f.data[..n];
    r := ParseHeader(raw[..n], e == Fault);
    if r.Ok? { HeaderFromPrefix(f.data, n, e == Fault); }
    if f.Prompt() { HeaderFromStart(f.data, n); }
  }

  /** What a file's bytes make of opening it: the header, unless it or the block map is missing. */
  function OpenHeader(data: seq<byte>): Result<Header> {
    match HeaderOf(data)
    case Fail(e) => Fail(e)
    case Ok(h) => if |data| < h.offBlocks + 4 * h.blocks then Fail(MapUnreadable) else Ok(h)
  }

  /** What is wrong with the first file from `i` on that cannot be opened as an image, if there is one. */
  function FirstFailure(files: seq<DiskFile>, i: nat): Option<OpenError>
    requires i <= |files|
    decreases |files| - i
  {
    if i == |files| then None
    else if OpenHeader(files[i].data).Fail? then Some(OpenHeader(files[i].data).error)
    else FirstFailure(files, i + 1)
  }

  predicate AllPrompt(files: seq<DiskFile>) {
    forall f <- files :: f.Prompt()
  }

  method LoadBlockMap(f: DiskFile, hdr: Header) returns (bmap: Option<seq<u32>>)
    requires 0 < hdr.blocks
    ensures bmap.Some? ==>
              && hdr.offBlocks + 4 * hdr.blocks <= |f.data|
              && bmap.value == MapAt(f.data, hdr.offBlocks, hdr.blocks)
    ensures bmap.None? && f.steady ==> |f.data| < hdr.offBlocks + 4 * hdr.blocks
  {
    var raw := new byte[hdr.blocks * 4](_ => 0);
    var e := ReadFullAt(f, raw, 0, raw.Length, hdr.offBlocks);
    if e != NoError { return None; }
    var m: seq<u32> := [];
    for i := 0 to hdr.blocks
      invariant m == MapAt(f.data, hdr.offBlocks, i)
    {
      assert raw[i * 4..i * 4 + 4] == f.data[hdr.offBlocks + 4 * i..hdr.offBlocks + 4 * i + 4];
      m := m + [Le32(raw[..], i * 4)];
    }
    return Some(m);
  }

  method LoadImage(f: DiskFile) returns (img: VdiImage?, r: Result<Header>)
    requires |f.data| < INT64_LIMIT
    ensures r.Ok? <==> img != null
    ensures img != null ==> fresh(img) && Alone(img, f)
    ensures f.Prompt() ==> r == OpenHeader(f.data)
  {
    img := null;
    r := ParseVdiHeader(f);
    if r.Fail? { return; }
    var bmap := LoadBlockMap(f, r.value);
    if bmap.None? { return null, Fail(MapUnreadable); }
    img := new VdiImage(f, r.value, bmap.value);
  }

  /** An image loaded from `f`, whose abstract chain is still just itself. */
  ghost predicate Single(img: VdiImage, f: DiskFile)
    reads img`chain, img`bmap
  {
    && img.chain == [Image(img.hdr, img.bmap, img.file.data, img.file.steady)]
    && WellFormedChain(img.chain) && IsImageOf(img.chain[0], f)
  }

  ghost predicate Alone(img: VdiImage, f: DiskFile)
    reads img
  {
    img.parent == null && Single(img, f)
  }

  ghost function Members(imgs: seq<VdiImage>): set<object> {
    set x | x in imgs
  }

  /** `imgs[i..]` is linked up: it shows the images of `files[i..]`. */
  ghost predicate LinkedFrom(imgs: seq<VdiImage>, files: seq<DiskFile>, i: nat)
    requires i < |imgs| == |files|
    reads imgs
  {
    && imgs[i].repr == Members(imgs[i..])
    && imgs[i].Valid() && |imgs[i].chain| == |imgs| - i
    && forall j :: i <= j < |imgs| ==> IsImageOf(imgs[i].chain[j - i], files[j])
  }

  /** Extends the abstract chain of a linked suffix by the image in front of it. */
  ghost method Prepend(imgs: seq<VdiImage>, files: seq<DiskFile>, i: nat)
    requires i + 1 < |imgs| == |files| && Distinct(imgs)
    requires LinkedFrom(imgs, files, i + 1) && Single(imgs[i], files[i]) && imgs[i].parent == imgs[i + 1]
    modifies imgs[i]
    ensures LinkedFrom(imgs, files, i)
    ensures imgs[i].parent == old(imgs[i].parent)
  {
    var img, next := imgs[i], imgs[i + 1];
    assert imgs[i..] == [img] + imgs[i + 1..];
    assert img !in next.repr;
    img.chain := img.chain + next.chain;
    img.repr := {img} + next.repr;
    assert next.Valid();
    assert img.chain[1..] == next.chain;
    forall j | i <= j < |imgs| ensures IsImageOf(img.chain[j - i], files[j]) {
      if i < j { assert img.chain[j - i] == next.chain[j - (i + 1)]; }
    }
  }

  ghost method Absorb(imgs: seq<VdiImage>, files: seq<DiskFile>, i: nat)
    requires i < |imgs| == |files| && Distinct(imgs)
    requires forall j :: i <= j < |imgs| ==> Single(imgs[j], files[j])
    requires forall j :: i <= j < |imgs| - 1 ==> imgs[j].parent == imgs[j + 1]
    requires imgs[|imgs| - 1].parent == null
    modifies imgs[i..]
    ensures LinkedFrom(imgs, files, i)
    ensures imgs[i].parent == old(imgs[i].parent)
    decreases |imgs| - i
  {
    if i == |imgs| - 1 {
      imgs[i].repr := {imgs[i]};
      assert imgs[i..] == [imgs[i]];
    } else {
      assert imgs[i] !in imgs[i + 1..];
      Absorb(imgs, files, i + 1);
      Prepend(imgs, files, i);
    }
  }

  /** One image for each of the first files, each still on its own. */
  ghost predicate Loaded(imgs: seq<VdiImage>, files: seq<DiskFile>)
    reads imgs
  {
    && |imgs| <= |files| && Distinct(imgs)
    && forall j :: 0 <= j < |imgs| ==> Alone(imgs[j], files[j])
  }

  /** Makes every image the child of the next one. */
  method SetParents(imgs: seq<VdiImage>)
    requires 0 < |imgs| && Distinct(imgs) && forall img <- imgs :: img.parent == null
    modifies imgs`parent
    ensures forall j :: 0 <= j < |imgs| - 1 ==> imgs[j].parent == imgs[j + 1]
    ensures imgs[|imgs| - 1].parent == null
  {
    for i := 0 to |imgs| - 1
      invariant forall j :: 0 <= j < i ==> imgs[j].parent == imgs[j + 1]
      invariant forall j :: i <= j < |imgs| ==> imgs[j].parent == null
    {
      imgs[i].parent := imgs[i + 1];
    }
  }

  /** A leaf that reads its files in order, leaf first. */
  ghost predicate ReadsFiles(leaf: VdiImage, files: seq<DiskFile>)
    reads leaf, leaf.repr
  {
    && leaf.Valid() && |leaf.chain| == |files|
    && forall i :: 0 <= i < |files| ==> IsImageOf(leaf.chain[i], files[i])
  }

  lemma LinkedReads(imgs: seq<VdiImage>, files: seq<DiskFile>)
    requires 0 < |imgs| == |files| && LinkedFrom(imgs, files, 0)
    ensures ReadsFiles(imgs[0], files) && imgs[0].repr == Members(imgs)
  {
    assert imgs[0..] == imgs;
  }

  method Link(imgs: seq<VdiImage>, ghost files: seq<DiskFile>)
    requires 0 < |imgs| == |files| && Loaded(imgs, files)
    modifies imgs
    ensures ReadsFiles(imgs[0], files) && imgs[0].repr == Members(imgs)
  {
    SetParents(imgs);
    Absorb(imgs, files, 0);
    LinkedReads(imgs, files);
  }

  /** A prompt file that loads moves the search for a failure on; one that does not ends it. */
  lemma NextFailure(files: seq<DiskFile>, i: nat, r: Result<Header>)
    requires i < |files| && (files[i].Prompt() ==> r == OpenHeader(files[i].data))
    ensures AllPrompt(files)
        ==> FirstFailure(files, i) == if r.Fail? then Some(r.error) else FirstFailure(files, i + 1)
  {
    if AllPrompt(files) { assert files[i] in files; }
  }

  lemma LoadedOneMore(imgs: seq<VdiImage>, files: seq<DiskFile>, img: VdiImage)
    requires Loaded(imgs, files) && |imgs| < |files| && img !in imgs && Alone(img, files[|imgs|])
    ensures Loaded(imgs + [img], files)
  {
  }

  method LoadNext(files: seq<DiskFile>, imgs: seq<VdiImage>) returns (img: VdiImage?, r: Result<Header>)
    requires |imgs| < |files| && Loaded(imgs, files) && |files[|imgs|].data| < INT64_LIMIT
    ensures r.Ok? <==> img != null
    ensures img != null ==> fresh(img) && Loaded(imgs + [img], files)
    ensures Loaded(imgs, files)
    ensures files[|imgs|].Prompt() ==> r == OpenHeader(files[|imgs|].data)
  {
    img, r := LoadImage(files[|imgs|]);
    if img != null { LoadedOneMore(imgs, files, img); }
  }

  method LoadAll(files: seq<DiskFile>) returns (imgs: seq<VdiImage>, failed: Option<OpenError>)
    requires forall f <- files :: |f.data| < INT64_LIMIT
    ensures fresh(imgs) && Loaded(imgs, files)
    ensures failed.None? ==> |imgs| == |files|
    ensures AllPrompt(files) ==> failed == FirstFailure(files, 0)
  {
    imgs := [];
    for i := 0 to |files|
      invariant AllPrompt(files) ==> FirstFailure(files, 0) == FirstFailure(files, i)
      invariant |imgs| == i && Loaded(imgs, files) && fresh(imgs)
    {
      assert files[i] in files;
      var img, r := LoadNext(files, imgs);
      NextFailure(files, i, r);
      if img == null { return imgs, Some(r.error); }
      imgs := imgs + [img];
    }
    return imgs, None;
  }

  // ---------------------------------------------------------------- the disk a chain of files shows

  datatype View = RawView(file: DiskFile) | ChainView(leaf: VdiImage)

  /** What opening leaf-first files comes to when every file is prompt: they are opened exactly when nothing is wrong
      with any of them, and otherwise the first failure decides.  A file that is no VDI is accepted only alone. */
  ghost predicate Outcome(files: seq<DiskFile>, r: Result<View>)
    requires 0 < |files|
  {
    match FirstFailure(files, 0)
    case None => r.Ok? && r.value.ChainView?
    case Some(e) =>
      if e != NotVdi then r == Fail(e)
      else if |files| == 1 then r == Ok(RawView(files[0]))
      else r == Fail(NotVdiInChain)
  }

  method OpenChain(files: seq<DiskFile>) returns (r: Result<View>)
    requires forall f <- files :: |f.data| < INT64_LIMIT
    ensures |files| == 0 ==> r == Fail(EmptyChain)
    ensures r.Ok? && r.value.RawView? ==> |files| == 1 && r.value.file == files[0]
    ensures 0 < |files| && AllPrompt(files) ==> Outcome(files, r)
    ensures r.Ok? && r.value.ChainView? ==> ReadsFiles(r.value.leaf, files) && fresh(r.value.leaf.repr)
  {
    if |files| == 0 { return Fail(EmptyChain); }
    var imgs, failed := LoadAll(files);
    if failed.Some? {
      return if failed.value != NotVdi then Fail(failed.value)
             else if |files| == 1 then Ok(RawView(files[0])) else Fail(NotVdiInChain);
    }
    Link(imgs, files);
    r := Ok(ChainView(imgs[0]));
  }

  /** The bytes a read of the view delivers, and whether it meets the end. */
  ghost function Shows(v: View, off: nat, len: nat): (seq<Option<byte>>, bool)
    requires v.ChainView? ==> v.leaf.Valid()
    reads if v.ChainView? then {v.leaf} + v.leaf.repr else {}
  {
    match v
    case RawView(file) => PlainRead(file.data, off, len)
    case ChainView(leaf) => Read(leaf.chain, off, len)
  }

  /** Reading through a view, a raw file's directly: a read that meets no failure delivers what the view shows. */
  method ReadView(v: View, p: array<byte>, lo: nat, hi: nat, off: int) returns (n: nat, err: Err)
    requires lo < hi <= p.Length && (v.ChainView? ==> v.leaf.Valid() && p !in v.leaf.repr)
    modifies p
    ensures v.ChainView? ==> v.leaf.Valid()
    ensures 0 <= off && err in {NoError, EndOfFile} && (v.RawView? ==> v.file.Prompt()) ==>
              var shown := Shows(v, off, hi - lo);
              && n == |shown.0| && (err == EndOfFile <==> shown.1) && lo + n <= p.Length
              && forall i :: 0 <= i < n ==> shown.0[i] == Some(p[lo + i])
    ensures forall i :: 0 <= i < p.Length && !(lo <= i < hi) ==> p[i] == old(p[i])
  {
    match v {
      case RawView(file) => n, err := file.ReadAt(p, lo, hi, off);
      case ChainView(leaf) => n, err := leaf.ReadAt(p, lo, hi, off);
    }
  }

  /** A raw copy of a readable chain shows exactly what the chain shows. */
  lemma CopyShowsTheSame(leaf: VdiImage, file: DiskFile, off: nat, len: nat)
    requires leaf.Valid() && Readable(leaf.chain, 0, Capacity(leaf.chain)) && file.data == Contents(leaf.chain)
    ensures Shows(RawView(file), off, len) == Shows(ChainView(leaf), off, len)
  {
    RawCopyAgrees(leaf.chain, off, len);
  }
}
