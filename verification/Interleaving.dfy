/** Interleavings: every list comes out whole, in its own order, at places of its own. */
module Interleaving {

  /** The elements of `out` that come from list c. */
  function Drawn<T>(out: seq<T>, source: seq<nat>, c: nat): seq<T>
    requires |out| == |source|
  {
    if out == [] then []
    else
      var n := |out| - 1;
      Drawn(out[..n], source[..n], c) + (if source[n] == c then [out[n]] else [])
  }

  /** `source` says for every place of `out` which list it comes from, and each list is drawn completely. */
  ghost predicate DrawnFrom<T>(out: seq<T>, source: seq<nat>, lists: seq<seq<T>>) {
    && |source| == |out| && (forall i :: 0 <= i < |source| ==> source[i] < |lists|)
    && forall c :: 0 <= c < |lists| ==> Drawn(out, source, c) == lists[c]
  }

  ghost predicate Interleaves<T>(out: seq<T>, lists: seq<seq<T>>) {
    exists source :: DrawnFrom(out, source, lists)
  }

  lemma DrawOne<T>(out: seq<T>, source: seq<nat>, x: T, s: nat, c: nat)
    requires |out| == |source|
    ensures Drawn(out + [x], source + [s], c) == Drawn(out, source, c) + if s == c then [x] else []
  {
    assert (out + [x])[..|out|] == out && (source + [s])[..|out|] == source;
  }

  lemma {:induction false} DrawAll<T>(list: seq<T>, c: nat)
    ensures Drawn(list, seq(|list|, _ => c), c) == list
  {
    if list != [] {
      var n := |list| - 1;
      DrawAll(list[..n], c);
      assert seq(|list|, _ => c)[..n] == seq(n, _ => c);
      assert list == list[..n] + [list[n]];
    }
  }

  lemma OnlyList<T>(list: seq<T>)
    ensures Interleaves(list, [list])
  {
    DrawAll(list, 0);
    assert DrawnFrom(list, seq(|list|, _ => 0), [list]);
  }

  // ---------------------------------------------------------------- empty lists do not matter

  function NonEmpty<T>(lists: seq<seq<T>>): seq<seq<T>> {
    if lists == [] then []
    else
      var n := |lists| - 1;
      NonEmpty(lists[..n]) + (if lists[n] == [] then [] else [lists[n]])
  }

  /** Where the k-th non-empty list stands. */
  function Place<T>(lists: seq<seq<T>>, k: nat): (c: nat)
    requires k < |NonEmpty(lists)|
    ensures c < |lists| && lists[c] == NonEmpty(lists)[k]
  {
    var n := |lists| - 1;
    if k < |NonEmpty(lists[..n])| then Place(lists[..n], k) else n
  }

  lemma {:induction false} PlacesDiffer<T>(lists: seq<seq<T>>, k: nat, l: nat)
    requires k < l < |NonEmpty(lists)|
    ensures Place(lists, k) < Place(lists, l)
  {
    var n := |lists| - 1;
    if l < |NonEmpty(lists[..n])| { PlacesDiffer(lists[..n], k, l); }
  }

  lemma {:induction false} PlacesCover<T>(lists: seq<seq<T>>, c: nat) returns (k: nat)
    requires c < |lists| && lists[c] != []
    ensures k < |NonEmpty(lists)| && Place(lists, k) == c
  {
    var n := |lists| - 1;
    if c == n { k := |NonEmpty(lists[..n])|; } else { k := PlacesCover(lists[..n], c); }
  }

  function Placed<T>(lists: seq<seq<T>>, source: seq<nat>): (r: seq<nat>)
    requires forall i :: 0 <= i < |source| ==> source[i] < |NonEmpty(lists)|
    ensures |r| == |source| && forall i :: 0 <= i < |r| ==> r[i] == Place(lists, source[i])
  {
    seq(|source|, i requires 0 <= i < |source| => Place(lists, source[i]))
  }

  /** What is drawn from a place is what was drawn from the list that stands there. */
  lemma {:induction false} DrawnAtPlace<T>(out: seq<T>, source: seq<nat>, lists: seq<seq<T>>, k: nat)
    requires |out| == |source| && k < |NonEmpty(lists)|
    requires forall i :: 0 <= i < |source| ==> source[i] < |NonEmpty(lists)|
    ensures Drawn(out, Placed(lists, source), Place(lists, k)) == Drawn(out, source, k)
  {
    if out != [] {
      var n := |out| - 1;
      assert Placed(lists, source)[..n] == Placed(lists, source[..n]);
      DrawnAtPlace(out[..n], source[..n], lists, k);
      if source[n] < k { PlacesDiffer(lists, source[n], k); }
      if k < source[n] { PlacesDiffer(lists, k, source[n]); }
    }
  }

  lemma {:induction false} NothingDrawn<T>(out: seq<T>, source: seq<nat>, c: nat)
    requires |out| == |source| && c !in source
    ensures Drawn(out, source, c) == []
  {
    if out != [] {
      var n := |out| - 1;
      assert source[n] in source;
      assert forall s <- source[..n] :: s in source;
      NothingDrawn(out[..n], source[..n], c);
    }
  }

  /** An interleaving of the non-empty lists is one of all of them. */
  lemma WithEmpties<T>(out: seq<T>, lists: seq<seq<T>>)
    requires Interleaves(out, NonEmpty(lists))
    ensures Interleaves(out, lists)
  {
    var source :| DrawnFrom(out, source, NonEmpty(lists));
    var placed := Placed(lists, source);
    forall c | 0 <= c < |lists| ensures Drawn(out, placed, c) == lists[c] {
      if lists[c] != [] {
        var k := PlacesCover(lists, c);
        DrawnAtPlace(out, source, lists, k);
      } else {
        forall i | 0 <= i < |placed| ensures placed[i] != c { NonEmptyAt(lists, source[i]); }
        NothingDrawn(out, placed, c);
      }
    }
    assert DrawnFrom(out, placed, lists);
  }

  lemma {:induction false} NonEmptyAt<T>(lists: seq<seq<T>>, k: nat)
    requires k < |NonEmpty(lists)|
    ensures NonEmpty(lists)[k] != []
  {
    var n := |lists| - 1;
    if k < |NonEmpty(lists[..n])| { NonEmptyAt(lists[..n], k); }
  }
}
