/** What the sort key identifies: a value's place, up to letter case.  And the delta of two hives, place by place. */
module RegistryKeys {
  import opened Text
  import opened RegistryRecords
  import opened RegistryDiff
  import opened RegistryDelta

  /** The same key path and the same value name, up to letter case. */
  predicate SamePlace(r: Record, s: Record) {
    ToLower(r.k) == ToLower(s.k) && ToLower(r.n) == ToLower(s.n)
  }

  /** The longer key path goes on, after a bar, with the beginning of the other record's name. */
  ghost predicate Straddles(r: Record, s: Record) {
    exists m :: ToLower(s.k) == ToLower(r.k) + "|" + m && ToLower(r.n) == m + "|" + ToLower(s.n)
  }

  /** Sort keys are equal exactly for the same place, or where a bar in a key path can be read in two ways. */
  lemma SameKeyExactly(r: Record, s: Record)
    requires |r.k| <= |s.k|
    ensures r.SortKey() == s.SortKey() <==> SamePlace(r, s) || Straddles(r, s)
  {
    var a, b, c, d := ToLower(r.k), ToLower(r.n), ToLower(s.k), ToLower(s.n);
    if a + "|" + b == c + "|" + d { CutAtBar(a, b, c, d); }
    forall m | c == a + "|" + m && b == m + "|" + d ensures a + "|" + b == c + "|" + d {
      assert a + "|" + (m + "|" + d) == (a + "|" + m) + "|" + d;
    }
  }

  lemma CutAtBar(a: string, b: string, c: string, d: string)
    requires |a| <= |c| && a + "|" + b == c + "|" + d
    ensures (a == c && b == d) || exists m :: c == a + "|" + m && b == m + "|" + d
  {
    var whole := a + "|" + b;
    assert a == whole[..|a|] && c == whole[..|c|];
    assert b == whole[|a| + 1..] && d == whole[|c| + 1..];
    if |a| < |c| {
      var m := c[|a| + 1..];
      assert c[|a|] == whole[|a|] == '|';
      assert c == a + "|" + m;
      assert b == m + "|" + d;
    }
  }

  /** Between key paths without a bar nothing can be mistaken. */
  lemma SamePlaceExactly(r: Record, s: Record)
    requires '|' !in r.k && '|' !in s.k
    ensures r.SortKey() == s.SortKey() <==> SamePlace(r, s)
  {
    if |r.k| <= |s.k| {
      SameKeyExactly(r, s);
      BarShows(r, s);
    } else {
      SameKeyExactly(s, r);
      BarShows(s, r);
    }
  }

  lemma BarShows(r: Record, s: Record)
    ensures Straddles(r, s) ==> '|' in s.k
  {
    if Straddles(r, s) {
      assert ToLower(s.k)[|r.k|] == '|';
      assert s.k[|r.k|] == '|';
    }
  }

  ghost predicate Barless(rs: seq<Record>) {
    forall r <- rs :: '|' !in r.k
  }

  /** No two values of a list are at the same place. */
  ghost predicate PlacesApart(rs: seq<Record>) {
    forall i, j :: 0 <= i < j < |rs| ==> !SamePlace(rs[i], rs[j])
  }

  lemma ApartMeansStrict(rs: seq<Record>)
    requires Sorted(rs) && Barless(rs) && PlacesApart(rs)
    ensures StrictlySorted(rs)
  {
    forall i, j | 0 <= i < j < |rs| ensures rs[i].SortKey() != rs[j].SortKey() {
      SamePlaceExactly(rs[i], rs[j]);
    }
    SortedAndUnique(rs);
  }

  ghost predicate HasPlace(rs: seq<Record>, r: Record) {
    exists x <- rs :: SamePlace(x, r)
  }

  lemma PlaceIsKey(rs: seq<Record>, r: Record)
    requires Barless(rs) && '|' !in r.k
    ensures HasKey(rs, r.SortKey()) <==> HasPlace(rs, r)
  {
    forall x <- rs ensures x.SortKey() == r.SortKey() <==> SamePlace(x, r) { SamePlaceExactly(x, r); }
  }

  /** The same place with another hash, with both sides of every field. */
  ghost predicate ChangesTo(x: Record, y: Record, c: Change) {
    && SamePlace(x, y) && x.h != y.h
    && c.k == y.k && c.n == y.n && c.t == y.t
    && c.v0 == x.v && c.h0 == x.h && c.s0 == x.size
    && c.v1 == y.v && c.h1 == y.h && c.s1 == y.size
  }

  ghost predicate IsDelta(a: seq<Record>, b: seq<Record>, d: Delta) {
    && (forall r :: r in d.added <==> r in b && !HasPlace(a, r))
    && (forall r :: r in d.removed <==> r in a && !HasPlace(b, r))
    && (forall c :: c in d.modified <==> exists x <- a, y <- b :: ChangesTo(x, y, c))
  }

  lemma ChangesByPlace(a: seq<Record>, b: seq<Record>, c: Change)
    requires Barless(a) && Barless(b)
    ensures Changed(a, b, c) <==> exists x <- a, y <- b :: ChangesTo(x, y, c)
  {
    forall x <- a, y <- b ensures IsChange(x, y, c) <==> ChangesTo(x, y, c) { SamePlaceExactly(x, y); }
    if Changed(a, b, c) {
      var x, y :| x in a && y in b && IsChange(x, y, c);
      assert ChangesTo(x, y, c);
    }
    if x, y :| x in a && y in b && ChangesTo(x, y, c) { assert IsChange(x, y, c); }
  }

  /** The delta of two sorted listings, place by place. */
  lemma JoinByPlace(a: seq<Record>, b: seq<Record>)
    requires Sorted(a) && Barless(a) && PlacesApart(a)
    requires Sorted(b) && Barless(b) && PlacesApart(b)
    ensures IsDelta(a, b, Join(a, b))
  {
    ApartMeansStrict(a);
    ApartMeansStrict(b);
    JoinIsDifference(a, b);
    forall r ensures r in Join(a, b).added <==> r in b && !HasPlace(a, r) {
      if r in b { PlaceIsKey(a, r); }
    }
    forall r ensures r in Join(a, b).removed <==> r in a && !HasPlace(b, r) {
      if r in a { PlaceIsKey(b, r); }
    }
    forall c ensures c in Join(a, b).modified <==> exists x <- a, y <- b :: ChangesTo(x, y, c) {
      ChangesByPlace(a, b, c);
    }
  }
}
