/** The k-way merge of sorted record chunks through a heap of chunk heads. */
module RegistryMerge {
  import opened Text
  import opened RegistryRecords
  import opened Heap
  import opened Interleaving

  type Chunks = seq<seq<Record>>

  /** The next unread record of a chunk. */
  datatype Head = Head(chunk: nat, idx: nat, key: string)

  predicate HeadLess(a: Head, b: Head) {
    Less(a.key, b.key)
  }

  lemma HeadsAreOrdered()
    ensures StrictWeakOrder(HeadLess)
  {
    forall a, b | HeadLess(a, b) ensures !HeadLess(b, a) { LessAsymmetric(a.key, b.key); }
    forall a, b, c | !HeadLess(b, a) && !HeadLess(c, b) ensures !HeadLess(c, a) {
      NotLessTransitive(a.key, b.key, c.key);
    }
  }

  // ---------------------------------------------------------------- how far the merge has read

  /** pos[c] records of chunk c have been read. */
  ghost predicate Position(chunks: Chunks, pos: seq<nat>) {
    |pos| == |chunks| && forall c :: 0 <= c < |chunks| ==> pos[c] <= |chunks[c]|
  }

  ghost function HeadAt(chunks: Chunks, pos: seq<nat>, c: nat): Head
    requires Position(chunks, pos) && c < |chunks| && pos[c] < |chunks[c]|
  {
    Head(c, pos[c], chunks[c][pos[c]].SortKey())
  }

  /** The heads of the unfinished chunks, among the first n. */
  ghost function HeadsBelow(chunks: Chunks, pos: seq<nat>, n: nat): set<Head>
    requires Position(chunks, pos) && n <= |chunks|
  {
    set c: nat | c < n && pos[c] < |chunks[c]| :: HeadAt(chunks, pos, c)
  }

  ghost function Heads(chunks: Chunks, pos: seq<nat>): set<Head>
    requires Position(chunks, pos)
  {
    HeadsBelow(chunks, pos, |chunks|)
  }

  /** All records not read yet. */
  ghost function Unread(chunks: Chunks, pos: seq<nat>): multiset<Record>
    requires Position(chunks, pos)
  {
    if chunks == [] then multiset{}
    else
      multiset(chunks[0][pos[0]..]) + Unread(chunks[1..], pos[1..])
  }

  ghost function All(chunks: Chunks): multiset<Record> {
    if chunks == [] then multiset{} else multiset(chunks[0]) + All(chunks[1..])
  }

  ghost function Start(n: nat): (pos: seq<nat>)
    ensures |pos| == n
  {
    seq(n, _ => 0)
  }

  lemma {:induction false} UnreadAtStart(chunks: Chunks)
    ensures Position(chunks, Start(|chunks|)) && Unread(chunks, Start(|chunks|)) == All(chunks)
  {
    if chunks != [] {
      UnreadAtStart(chunks[1..]);
      assert Start(|chunks|)[1..] == Start(|chunks| - 1);
      assert chunks[0][0..] == chunks[0];
    }
  }

  lemma {:induction false} UnreadStep(chunks: Chunks, pos: seq<nat>, c: nat)
    requires Position(chunks, pos) && c < |chunks| && pos[c] < |chunks[c]|
    ensures Position(chunks, pos[c := pos[c] + 1])
    ensures Unread(chunks, pos) == Unread(chunks, pos[c := pos[c] + 1]) + multiset{chunks[c][pos[c]]}
  {
    var next := pos[c := pos[c] + 1];
    if c == 0 {
      assert chunks[0][pos[0]..] == [chunks[0][pos[0]]] + chunks[0][pos[0] + 1..];
      assert next[1..] == pos[1..];
    } else {
      assert next[1..] == pos[1..][c - 1 := pos[1..][c - 1] + 1];
      UnreadStep(chunks[1..], pos[1..], c - 1);
    }
  }

  lemma {:induction false} UnreadIn(chunks: Chunks, pos: seq<nat>, r: Record)
    requires Position(chunks, pos) && r in Unread(chunks, pos)
    ensures exists c, i :: 0 <= c < |chunks| && pos[c] <= i < |chunks[c]| && chunks[c][i] == r
  {
    if r in chunks[0][pos[0]..] {
      var i :| pos[0] <= i < |chunks[0]| && chunks[0][i] == r;
    } else {
      UnreadIn(chunks[1..], pos[1..], r);
      var c, i :| 0 <= c < |chunks[1..]| && pos[1..][c] <= i < |chunks[1..][c]| && chunks[1..][c][i] == r;
      assert chunks[c + 1][i] == r;
    }
  }

  lemma SomeHead(chunks: Chunks, pos: seq<nat>, r: Record)
    requires Position(chunks, pos) && r in Unread(chunks, pos)
    ensures Heads(chunks, pos) != {}
  {
    UnreadIn(chunks, pos, r);
    var c, i :| 0 <= c < |chunks| && pos[c] <= i < |chunks[c]| && chunks[c][i] == r;
    assert HeadAt(chunks, pos, c) in Heads(chunks, pos);
  }

  lemma NothingUnread(chunks: Chunks, pos: seq<nat>)
    requires Position(chunks, pos) && Heads(chunks, pos) == {}
    ensures Unread(chunks, pos) == multiset{}
  {
    forall r ensures r !in Unread(chunks, pos) {
      if r in Unread(chunks, pos) { SomeHead(chunks, pos, r); }
    }
  }

  /** Reading one record of chunk c replaces its head by the next one, if there is one. */
  lemma HeadsStep(chunks: Chunks, pos: seq<nat>, c: nat)
    requires Position(chunks, pos) && c < |chunks| && pos[c] < |chunks[c]|
    ensures var next := pos[c := pos[c] + 1];
            && Position(chunks, next)
            && Heads(chunks, pos) - {HeadAt(chunks, pos, c)}
                 == Heads(chunks, next) - (if next[c] < |chunks[c]| then {HeadAt(chunks, next, c)} else {})
            && (next[c] < |chunks[c]| ==> HeadAt(chunks, next, c) !in Heads(chunks, pos))
  {
    var next := pos[c := pos[c] + 1];
    var a := Heads(chunks, pos) - {HeadAt(chunks, pos, c)};
    var b := Heads(chunks, next) - (if next[c] < |chunks[c]| then {HeadAt(chunks, next, c)} else {});
    forall x | x in a ensures x in b {
      assert x == HeadAt(chunks, next, x.chunk);
    }
    forall x | x in b ensures x in a {
      assert x == HeadAt(chunks, pos, x.chunk);
    }
  }

  // ---------------------------------------------------------------- the merge

  ghost predicate AllSorted(chunks: Chunks) {
    forall c <- chunks :: Sorted(c)
  }

  /** Every unread record is at or after `r`. */
  ghost predicate NoneBefore(chunks: Chunks, pos: seq<nat>, r: Record)
    requires Position(chunks, pos)
  {
    forall u <- Unread(chunks, pos) :: !Before(u, r)
  }

  /** The least head is a least unread record. */
  lemma LeastHead(chunks: Chunks, pos: seq<nat>, h: Head)
    requires Position(chunks, pos) && AllSorted(chunks) && h in Heads(chunks, pos)
    requires forall x <- Heads(chunks, pos) :: !HeadLess(x, h)
    ensures h.chunk < |chunks| && h.idx < |chunks[h.chunk]|
    ensures NoneBefore(chunks, pos, chunks[h.chunk][h.idx])
  {
    var r := chunks[h.chunk][h.idx];
    forall u | u in Unread(chunks, pos) ensures !Before(u, r) {
      UnreadIn(chunks, pos, u);
      var c, i :| 0 <= c < |chunks| && pos[c] <= i < |chunks[c]| && chunks[c][i] == u;
      var x := HeadAt(chunks, pos, c);
      assert x in Heads(chunks, pos) && !HeadLess(x, h);
      var first := chunks[c][pos[c]];
      assert chunks[c] in chunks && Sorted(chunks[c]);
      assert !Before(first, r);
      if pos[c] < i { BeforeTransitive(r, first, u); }
    }
  }

  method FilterNonEmpty(chunks: Chunks) returns (out: Chunks)
    ensures out == NonEmpty(chunks) && All(out) == All(chunks)
    ensures forall c <- out :: c != [] && c in chunks
  {
    out := [];
    for i := 0 to |chunks|
      invariant out == NonEmpty(chunks[..i])
    {
      assert chunks[..i + 1][..i] == chunks[..i];
      if |chunks[i]| > 0 { out := out + [chunks[i]]; }
    }
    assert chunks[..|chunks|] == chunks;
    NonEmptyKeepsAll(chunks);
    NonEmptyMembers(chunks);
  }

  lemma AppendKeepsAll(a: Chunks, b: Chunks, c: seq<Record>)
    requires All(a) == All(b)
    ensures All(a + [c]) == All(b + [c])
    ensures c == [] ==> All(a + [c]) == All(b)
  {
    AllAppend(a, c);
    AllAppend(b, c);
  }

  lemma {:induction false} NonEmptyKeepsAll(chunks: Chunks)
    ensures All(chunks) == All(NonEmpty(chunks))
  {
    if chunks != [] {
      var front, last := chunks[..|chunks| - 1], chunks[|chunks| - 1];
      assert chunks == front + [last];
      NonEmptyKeepsAll(front);
      AppendKeepsAll(front, NonEmpty(front), last);
      assert NonEmpty(chunks) == if last == [] then NonEmpty(front) else NonEmpty(front) + [last];
    }
  }

  lemma {:induction false} NonEmptyMembers(chunks: Chunks)
    ensures forall c <- NonEmpty(chunks) :: c != [] && c in chunks
  {
    if chunks != [] {
      var front, last := chunks[..|chunks| - 1], chunks[|chunks| - 1];
      NonEmptyMembers(front);
      assert chunks == front + [last];
    }
  }

  lemma {:induction false} AllAppend(chunks: Chunks, c: seq<Record>)
    ensures All(chunks + [c]) == All(chunks) + multiset(c)
  {
    if chunks == [] {
      assert [c][1..] == [];
    } else {
      AllAppend(chunks[1..], c);
      assert (chunks + [c])[1..] == chunks[1..] + [c];
    }
  }

  /** The heap holds exactly the next unread head of every unfinished chunk, each once. */
  ghost predicate HeapExact(chunks: Chunks, pos: seq<nat>, heap: multiset<Head>) {
    Position(chunks, pos) && heap == multiset(Heads(chunks, pos))
  }

  /** What is out and what is unread make up the chunks; what is out is sorted and not after anything unread. */
  ghost predicate OutputExact(chunks: Chunks, pos: seq<nat>, out: seq<Record>) {
    && Position(chunks, pos)
    && multiset(out) + Unread(chunks, pos) == All(chunks)
    && Sorted(out)
    && forall r <- out :: NoneBefore(chunks, pos, r)
  }

  /** The records out so far are the first ones of every chunk, in order, each from the chunk `source` names. */
  ghost predicate ReadSoFar(chunks: Chunks, pos: seq<nat>, out: seq<Record>, source: seq<nat>) {
    && Position(chunks, pos) && |source| == |out|
    && (forall i :: 0 <= i < |source| ==> source[i] < |chunks|)
    && forall c :: 0 <= c < |chunks| ==> Drawn(out, source, c) == chunks[c][..pos[c]]
  }

  ghost function Advance(pos: seq<nat>, c: nat): seq<nat>
    requires c < |pos|
  {
    pos[c := pos[c] + 1]
  }

  /** The heap's heads with the successor of a head that was taken out, if its chunk goes on. */
  ghost function WithSuccessor(chunks: Chunks, heap: multiset<Head>, h: Head): multiset<Head>
    requires h.chunk < |chunks|
  {
    if h.idx + 1 < |chunks[h.chunk]|
    then heap + multiset{Head(h.chunk, h.idx + 1, chunks[h.chunk][h.idx + 1].SortKey())}
    else heap
  }

  /** Taking the least head out of the heap and putting its chunk's next head in keeps the heap exact. */
  lemma HeapStep(chunks: Chunks, pos: seq<nat>, heap: multiset<Head>, h: Head)
    requires HeapExact(chunks, pos, heap) && h in heap
    ensures h.chunk < |chunks| && h.idx == pos[h.chunk] < |chunks[h.chunk]|
    ensures var next := Advance(pos, h.chunk);
            Position(chunks, next) && HeapExact(chunks, next, WithSuccessor(chunks, heap - multiset{h}, h))
  {
    var c := h.chunk;
    assert h == HeadAt(chunks, pos, c);
    var before, after := Heads(chunks, pos), Heads(chunks, Advance(pos, c));
    HeadsStep(chunks, pos, c);
    if h.idx + 1 < |chunks[c]| {
      ReplaceHead(before, h, after, HeadAt(chunks, Advance(pos, c), c));
    } else {
      RemoveHead(before, h, after);
    }
  }

  /** The record of a least head may go out next. */
  lemma OutputStep(chunks: Chunks, pos: seq<nat>, out: seq<Record>, c: nat)
    requires OutputExact(chunks, pos, out) && c < |chunks| && pos[c] < |chunks[c]|
    requires NoneBefore(chunks, pos, chunks[c][pos[c]])
    ensures Position(chunks, Advance(pos, c)) && Unread(chunks, Advance(pos, c)) < Unread(chunks, pos)
    ensures OutputExact(chunks, Advance(pos, c), out + [chunks[c][pos[c]]])
  {
    var r, next := chunks[c][pos[c]], Advance(pos, c);
    UnreadStep(chunks, pos, c);
    assert r in Unread(chunks, pos);
    assert forall o <- out :: !Before(r, o) by {
      forall o <- out ensures !Before(r, o) { assert NoneBefore(chunks, pos, o); }
    }
    SortedAppend(out, r);
    NoneBeforeStep(chunks, pos, next, out + [r]);
  }

  /** The next record of a chunk goes out next. */
  lemma ReadOneMore(chunks: Chunks, pos: seq<nat>, out: seq<Record>, source: seq<nat>, c: nat)
    requires ReadSoFar(chunks, pos, out, source) && c < |chunks| && pos[c] < |chunks[c]|
    ensures ReadSoFar(chunks, Advance(pos, c), out + [chunks[c][pos[c]]], source + [c])
  {
    var r, next := chunks[c][pos[c]], Advance(pos, c);
    forall d | 0 <= d < |chunks| ensures Drawn(out + [r], source + [c], d) == chunks[d][..next[d]] {
      DrawOne(out, source, r, c, d);
      assert Drawn(out, source, d) == chunks[d][..pos[d]];
      if d == c { assert chunks[c][..pos[c] + 1] == chunks[c][..pos[c]] + [r]; }
    }
  }

  lemma SortedAppend(out: seq<Record>, r: Record)
    requires Sorted(out) && forall o <- out :: !Before(r, o)
    ensures Sorted(out + [r])
  {
  }

  lemma NoneBeforeStep(chunks: Chunks, pos: seq<nat>, next: seq<nat>, out: seq<Record>)
    requires Position(chunks, pos) && Position(chunks, next) && Unread(chunks, next) <= Unread(chunks, pos)
    requires forall o <- out :: NoneBefore(chunks, pos, o)
    ensures forall o <- out :: NoneBefore(chunks, next, o)
  {
    forall o <- out ensures NoneBefore(chunks, next, o) {
      assert NoneBefore(chunks, pos, o);
    }
  }

  lemma HeadListed(chunks: Chunks, pos: seq<nat>, c: nat)
    requires Position(chunks, pos) && c < |chunks|
    ensures pos[c] < |chunks[c]| ==> HeadAt(chunks, pos, c) in Heads(chunks, pos)
  {
  }

  lemma Finished(chunks: Chunks, pos: seq<nat>, out: seq<Record>, source: seq<nat>)
    requires HeapExact(chunks, pos, multiset{}) && OutputExact(chunks, pos, out) && ReadSoFar(chunks, pos, out, source)
    ensures Sorted(out) && multiset(out) == All(chunks) && Interleaves(out, chunks)
  {
    assert Heads(chunks, pos) == {} by {
      forall h ensures h !in Heads(chunks, pos) { assert h !in multiset(Heads(chunks, pos)); }
    }
    NothingUnread(chunks, pos);
    forall c | 0 <= c < |chunks| ensures Drawn(out, source, c) == chunks[c] {
      HeadListed(chunks, pos, c);
      assert chunks[c][..|chunks[c]|] == chunks[c];
    }
    assert DrawnFrom(out, source, chunks);
  }

  lemma RemoveHead(a: set<Head>, h: Head, b: set<Head>)
    requires h in a && a - {h} == b
    ensures multiset(a) - multiset{h} == multiset(b)
  {
  }

  lemma ReplaceHead(a: set<Head>, h: Head, b: set<Head>, n: Head)
    requires h in a && n !in a && n in b && a - {h} == b - {n}
    ensures multiset(a) - multiset{h} + multiset{n} == multiset(b)
  {
    forall x ensures (multiset(a) - multiset{h} + multiset{n})[x] == multiset(b)[x] {
      assert x in a - {h} <==> x in b - {n};
    }
  }

  lemma HeadsGrow(chunks: Chunks, pos: seq<nat>, n: nat)
    requires Position(chunks, pos) && n < |chunks| && pos[n] < |chunks[n]|
    ensures multiset(HeadsBelow(chunks, pos, n + 1))
         == multiset(HeadsBelow(chunks, pos, n)) + multiset{HeadAt(chunks, pos, n)}
  {
    var h := HeadAt(chunks, pos, n);
    assert h !in HeadsBelow(chunks, pos, n);
    assert HeadsBelow(chunks, pos, n + 1) == HeadsBelow(chunks, pos, n) + {h};
  }

  method FirstHeads(chunks: Chunks) returns (heads: seq<Head>)
    requires forall c <- chunks :: c != []
    ensures Position(chunks, Start(|chunks|)) && multiset(heads) == multiset(Heads(chunks, Start(|chunks|)))
  {
    ghost var pos := Start(|chunks|);
    heads := [];
    for i := 0 to |chunks|
      invariant multiset(heads) == multiset(HeadsBelow(chunks, pos, i))
    {
      assert chunks[i] in chunks;
      HeadsGrow(chunks, pos, i);
      heads := heads + [Head(i, 0, chunks[i][0].SortKey())];
    }
  }

  method MergeSortedRecords(given: Chunks) returns (out: seq<Record>)
    requires AllSorted(given)
    ensures Sorted(out) && multiset(out) == All(given) && Interleaves(out, given)
  {
    var chunks := FilterNonEmpty(given);
    assert AllSorted(chunks);
    if |chunks| == 0 {
      assert DrawnFrom<Record>([], [], chunks);
      WithEmpties<Record>([], given);
      return [];
    }
    if |chunks| == 1 {
      assert chunks[1..] == [] && chunks[0] in chunks && chunks == [chunks[0]];
      OnlyList(chunks[0]);
      WithEmpties(chunks[0], given);
      return chunks[0];
    }
    out := MergeThroughHeap(chunks);
    WithEmpties(out, given);
  }

  /** One turn of the merge loop. */
  lemma Turn(chunks: Chunks, pos: seq<nat>, heap: seq<Head>, out: seq<Record>, h: Head)
    requires AllSorted(chunks) && HeapExact(chunks, pos, multiset(heap)) && OutputExact(chunks, pos, out)
    requires LeastIn(HeadLess, heap, h)
    ensures h.chunk < |chunks| && h.idx == pos[h.chunk] < |chunks[h.chunk]|
    ensures var next := Advance(pos, h.chunk);
            && OutputExact(chunks, next, out + [chunks[h.chunk][h.idx]])
            && Unread(chunks, next) < Unread(chunks, pos)
            && HeapExact(chunks, next, WithSuccessor(chunks, multiset(heap) - multiset{h}, h))
  {
    assert h in multiset(heap);
    HeapStep(chunks, pos, multiset(heap), h);
    forall x <- Heads(chunks, pos) ensures !HeadLess(x, h) {
      assert x in multiset(heap);
    }
    LeastHead(chunks, pos, h);
    OutputStep(chunks, pos, out, h.chunk);
  }

  method PushSuccessor(chunks: Chunks, h: Heap<Head>, head: Head)
    requires h.Valid() && head.chunk < |chunks| && head.idx < |chunks[head.chunk]|
    modifies h
    ensures h.Valid()
    ensures multiset(h.items) == WithSuccessor(chunks, multiset(old(h.items)), head)
  {
    var i := head.idx + 1;
    if i < |chunks[head.chunk]| {
      h.Push(Head(head.chunk, i, chunks[head.chunk][i].SortKey()));
    }
  }

  /** Pops the least head and pushes its successor; returns the record to put out. */
  method TakeNext(chunks: Chunks, h: Heap<Head>, ghost pos: seq<nat>, ghost out: seq<Record>)
    returns (r: Record, ghost c: nat)
    requires h.Valid() && h.less == HeadLess && h.items != [] && AllSorted(chunks)
    requires HeapExact(chunks, pos, multiset(h.items)) && OutputExact(chunks, pos, out)
    modifies h
    ensures c < |chunks| && pos[c] < |chunks[c]| && r == chunks[c][pos[c]]
    ensures h.Valid() && HeapExact(chunks, Advance(pos, c), multiset(h.items))
    ensures OutputExact(chunks, Advance(pos, c), out + [r]) && Unread(chunks, Advance(pos, c)) < Unread(chunks, pos)
  {
    ghost var before := h.items;
    var head := h.Pop();
    Turn(chunks, pos, before, out, head);
    c := head.chunk;
    r := chunks[head.chunk][head.idx];
    PushSuccessor(chunks, h, head);
  }

  method MergeThroughHeap(chunks: Chunks) returns (out: seq<Record>)
    requires AllSorted(chunks) && forall c <- chunks :: c != []
    ensures Sorted(out) && multiset(out) == All(chunks) && Interleaves(out, chunks)
  {
    HeadsAreOrdered();
    var heads := FirstHeads(chunks);
    var h := new Heap<Head>.On(HeadLess, heads);
    h.Init();
    out := [];
    ghost var pos := Start(|chunks|);
    ghost var source: seq<nat> := [];
    UnreadAtStart(chunks);
    while h.items != []
      invariant h.Valid() && h.less == HeadLess
      invariant HeapExact(chunks, pos, multiset(h.items))
      invariant OutputExact(chunks, pos, out) && ReadSoFar(chunks, pos, out, source)
      decreases Unread(chunks, pos)
    {
      ghost var c;
      var r;
      r, c := TakeNext(chunks, h, pos, out);
      ReadOneMore(chunks, pos, out, source, c);
      out, pos, source := out + [r], Advance(pos, c), source + [c];
    }
    assert multiset(h.items) == multiset{};
    Finished(chunks, pos, out, source);
  }
}
