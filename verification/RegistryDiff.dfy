/** The one-pass merge-join of two sorted indexes, over readers that may meet a bad line. */
module RegistryDiff {
  import opened Basics
  import opened Text
  import opened RegistryRecords

  /** A modified value with both sides. */
  datatype Change = Change(k: string, n: string, t: string, v0: string, v1: string,
                           h0: string, h1: string, s0: nat, s1: nat)
  {
    function SortKey(): string {
      ToLower(k) + "|" + ToLower(n)
    }

    /** The record as it is after the change. */
    function After(): Record {
      Record(k, n, t, v1, h1, s1)
    }
  }

  datatype Delta = Delta(added: seq<Record>, removed: seq<Record>, modified: seq<Change>)

  function ChangeOf(a: Record, b: Record): Change {
    Change(b.k, b.n, b.t, a.v, b.v, a.h, b.h, a.size, b.size)
  }

  // ---------------------------------------------------------------- reading an index

  /** A line of an index file: a record, or a line that cannot be decoded or read. */
  datatype Line = Good(rec: Record) | Bad(error: string)

  function Records(lines: seq<Line>): seq<Record> {
    if lines == [] || lines[0].Bad? then [] else [lines[0].rec] + Records(lines[1..])
  }

  function FirstError(lines: seq<Line>): Option<string> {
    if lines == [] then None
    else if lines[0].Bad? then Some(lines[0].error)
    else FirstError(lines[1..])
  }

  function Goods(rs: seq<Record>): seq<Line> {
    seq(|rs|, i requires 0 <= i < |rs| => Good(rs[i]))
  }

  /** An index of good lines is all its records; one with a bad line is those before the first bad one, and its
      error, whatever follows. */
  lemma {:induction false} LinesRead(rs: seq<Record>, e: string, rest: seq<Line>)
    ensures Records(Goods(rs)) == rs && FirstError(Goods(rs)) == None
    ensures Records(Goods(rs) + [Bad(e)] + rest) == rs && FirstError(Goods(rs) + [Bad(e)] + rest) == Some(e)
  {
    var all := Goods(rs) + [Bad(e)] + rest;
    if rs != [] {
      LinesRead(rs[1..], e, rest);
      assert Goods(rs)[1..] == Goods(rs[1..]);
      assert all[1..] == Goods(rs[1..]) + [Bad(e)] + rest && all[0] == Good(rs[0]);
    } else {
      assert all[0] == Bad(e);
    }
  }

  class IndexReader {
    const lines: seq<Line>
    var pos: nat
    var rec: Record
    var err: Option<string>
    var eof: bool

    ghost predicate Valid()
      reads this
    {
      && pos <= |lines|
      && (eof ==> pos == |lines|)
      && (err.None? ==> FirstError(lines) == FirstError(lines[pos..]))
      && (err.Some? ==> err == FirstError(lines))
    }

    /** The records still to come. */
    ghost function Ahead(): seq<Record>
      requires Valid()
      reads this
    {
      if err.Some? then [] else Records(lines[pos..])
    }

    /** What the reader has in hand, if its last step succeeded, and ahead of it. */
    ghost function Pending(ok: bool): seq<Record>
      requires Valid()
      reads this
    {
      if ok then [rec] + Ahead() else []
    }

    /** A reader whose last step failed is at its end, and knows whether its index failed. */
    ghost predicate Spent(ok: bool)
      reads this
    {
      Valid() && (!ok ==> Ahead() == [] && err == FirstError(lines))
    }

    constructor (lines: seq<Line>, blank: Record)
      ensures Valid() && this.lines == lines && Ahead() == Records(lines)
    {
      this.lines := lines;
      pos, rec, err, eof := 0, blank, None, false;
      new;
      assert lines[0..] == lines;
    }

    method Next() returns (ok: bool)
      requires Valid()
      modifies this
      ensures Spent(ok) && Pending(ok) == old(Ahead())
    {
      if eof || err.Some? { return false; }
      if pos == |lines| {
        eof := true;
        return false;
      }
      var line := lines[pos];
      assert lines[pos..][1..] == lines[pos + 1..];
      pos := pos + 1;
      match line {
        case Bad(e) =>
          err := Some(e);
          return false;
        case Good(r) =>
          rec := r;
          return true;
      }
    }
  }

  // ---------------------------------------------------------------- the merge-join

  function Prepend(d: Delta, e: Delta): Delta {
    Delta(d.added + e.added, d.removed + e.removed, d.modified + e.modified)
  }

  const NOTHING := Delta([], [], [])

  /** The merge-join as a function of the two record lists. */
  function Join(a: seq<Record>, b: seq<Record>): Delta
    decreases |a| + |b|
  {
    if a == [] then Delta(b, [], [])
    else if b == [] then Delta([], a, [])
    else if Before(a[0], b[0]) then Prepend(Delta([], [a[0]], []), Join(a[1..], b))
    else if Before(b[0], a[0]) then Prepend(Delta([b[0]], [], []), Join(a, b[1..]))
    else Prepend(Delta([], [], if a[0].h != b[0].h then [ChangeOf(a[0], b[0])] else []), Join(a[1..], b[1..]))
  }

  datatype Outcome = Ok(delta: Delta) | Failed(error: string)

  lemma PrependAssociates(out: Delta, d: Delta, rest: Delta)
    ensures Prepend(Prepend(out, d), rest) == Prepend(out, Prepend(d, rest))
  {
    assert out.added + d.added + rest.added == out.added + (d.added + rest.added);
    assert out.removed + d.removed + rest.removed == out.removed + (d.removed + rest.removed);
    assert out.modified + d.modified + rest.modified == out.modified + (d.modified + rest.modified);
  }

  lemma JoinLeftOnly(a: seq<Record>)
    requires a != []
    ensures Join(a, []) == Prepend(Delta([], [a[0]], []), Join(a[1..], []))
  {
    assert a == [a[0]] + a[1..];
  }

  lemma JoinRightOnly(b: seq<Record>)
    requires b != []
    ensures Join([], b) == Prepend(Delta([b[0]], [], []), Join([], b[1..]))
  {
    assert b == [b[0]] + b[1..];
  }

  /** One turn of the merge loop. */
  method Turn(a: IndexReader, b: IndexReader, aOk: bool, bOk: bool, out: Delta)
    returns (nextA: bool, nextB: bool, next: Delta)
    requires a != b && a.Spent(aOk) && b.Spent(bOk) && (aOk || bOk)
    modifies a, b
    ensures a.Spent(nextA) && b.Spent(nextB)
    ensures Prepend(next, Join(a.Pending(nextA), b.Pending(nextB)))
         == Prepend(out, Join(old(a.Pending(aOk)), old(b.Pending(bOk))))
    ensures |a.Pending(nextA)| + |b.Pending(nextB)| < old(|a.Pending(aOk)| + |b.Pending(bOk)|)
  {
    nextA, nextB := aOk, bOk;
    ghost var pa, pb := a.Pending(aOk), b.Pending(bOk);
    var piece := NOTHING;
    if aOk && bOk {
      var ra, rb := a.rec, b.rec;
      if Before(ra, rb) {
        piece := Delta([], [ra], []);
        nextA := a.Next();
        assert pa[1..] == a.Pending(nextA);
      } else if Before(rb, ra) {
        piece := Delta([rb], [], []);
        nextB := b.Next();
        assert pb[1..] == b.Pending(nextB);
      } else {
        piece := Delta([], [], if ra.h != rb.h then [ChangeOf(ra, rb)] else []);
        nextA := a.Next();
        nextB := b.Next();
        assert pa[1..] == a.Pending(nextA) && pb[1..] == b.Pending(nextB);
      }
    } else if aOk {
      JoinLeftOnly(pa);
      piece := Delta([], [a.rec], []);
      nextA := a.Next();
      assert pa[1..] == a.Pending(nextA);
    } else {
      JoinRightOnly(pb);
      piece := Delta([b.rec], [], []);
      nextB := b.Next();
      assert pb[1..] == b.Pending(nextB);
    }
    next := Prepend(out, piece);
    PrependAssociates(out, piece, Join(a.Pending(nextA), b.Pending(nextB)));
  }

  lemma PrependNothing(d: Delta)
    ensures Prepend(NOTHING, d) == d && Prepend(d, NOTHING) == d
  {
  }

  method JoinReaders(a: IndexReader, b: IndexReader, startA: bool, startB: bool) returns (out: Delta)
    requires a != b && a.Spent(startA) && b.Spent(startB)
    modifies a, b
    ensures out == Join(old(a.Pending(startA)), old(b.Pending(startB)))
    ensures a.err == FirstError(a.lines) && b.err == FirstError(b.lines)
  {
    var aOk, bOk := startA, startB;
    ghost var whole := Join(a.Pending(aOk), b.Pending(bOk));
    out := NOTHING;
    PrependNothing(whole);
    while aOk || bOk
      invariant a.Spent(aOk) && b.Spent(bOk)
      invariant Prepend(out, Join(a.Pending(aOk), b.Pending(bOk))) == whole
      decreases |a.Pending(aOk)| + |b.Pending(bOk)|
    {
      aOk, bOk, out := Turn(a, b, aOk, bOk, out);
    }
    PrependNothing(out);
  }

  /** The delta of the records each side could deliver, unless a side failed; the first side's failure wins. */
  method DiffIndexes(a: IndexReader, b: IndexReader) returns (result: Outcome)
    requires a.Valid() && b.Valid() && a != b
    modifies a, b
    ensures result == if FirstError(a.lines).Some? then Failed(FirstError(a.lines).value)
                      else if FirstError(b.lines).Some? then Failed(FirstError(b.lines).value)
                      else Ok(Join(old(a.Ahead()), old(b.Ahead())))
  {
    var aOk := a.Next();
    var bOk := b.Next();
    var out := JoinReaders(a, b, aOk, bOk);
    if a.err.Some? { return Failed(a.err.value); }
    if b.err.Some? { return Failed(b.err.value); }
    return Ok(out);
  }
}
