/** What a merge-join of two sorted indexes means: exactly the set difference that the map-based
    comparison computes, and a patch that turns the first index into the second. */
module RegistryDelta {
  import opened Basics
  import opened Text
  import opened RegistryRecords
  import opened RegistryDiff

  ghost predicate StrictlySorted(rs: seq<Record>) {
    forall i, j :: 0 <= i < j < |rs| ==> Before(rs[i], rs[j])
  }

  lemma SortedAndUnique(rs: seq<Record>)
    requires Sorted(rs) && UniqueKeys(rs)
    ensures StrictlySorted(rs)
  {
    forall i, j | 0 <= i < j < |rs| ensures Before(rs[i], rs[j]) {
      if !Before(rs[i], rs[j]) { LessTotal(rs[i].SortKey(), rs[j].SortKey()); }
    }
  }

  ghost predicate HasKey(rs: seq<Record>, k: string) {
    exists r <- rs :: r.SortKey() == k
  }

  ghost predicate ChangesSorted(cs: seq<Change>) {
    forall i, j :: 0 <= i < j < |cs| ==> Less(cs[i].SortKey(), cs[j].SortKey())
  }

  /** Membership in the three lists, and their order. */
  ghost predicate IsDifference(a: seq<Record>, b: seq<Record>, d: Delta) {
    && (forall r :: r in d.added <==> r in b && !HasKey(a, r.SortKey()))
    && (forall r :: r in d.removed <==> r in a && !HasKey(b, r.SortKey()))
    && (forall c :: c in d.modified <==> Changed(a, b, c))
    && StrictlySorted(d.added) && StrictlySorted(d.removed) && ChangesSorted(d.modified)
  }

  ghost predicate IsChange(x: Record, y: Record, c: Change) {
    x.SortKey() == y.SortKey() && x.h != y.h && c == ChangeOf(x, y)
  }

  ghost predicate Changed(a: seq<Record>, b: seq<Record>, c: Change) {
    exists x <- a, y <- b :: IsChange(x, y, c)
  }

  // ---------------------------------------------------------------- the join is the difference

  lemma LessTransitive(x: string, y: string, z: string)
    requires Less(x, y) && (Less(y, z) || y == z)
    ensures Less(x, z)
  {
    if y != z {
      LessAsymmetric(x, y);
      LessAsymmetric(y, z);
      if !Less(x, z) {
        NotLessTransitive(y, z, x);
        LessTotal(x, z);
      }
    }
  }

  /** Keys below the head of a sorted list do not occur in it. */
  lemma BelowHead(rs: seq<Record>, k: string)
    requires StrictlySorted(rs) && (rs != [] ==> Less(k, rs[0].SortKey()))
    ensures forall r <- rs :: Less(k, r.SortKey())
    ensures !HasKey(rs, k)
  {
    forall i | 0 <= i < |rs| ensures Less(k, rs[i].SortKey()) {
      if 0 < i { LessTransitive(k, rs[0].SortKey(), rs[i].SortKey()); }
    }
    if Less(k, k) { LessAsymmetric(k, k); }
  }

  lemma TailSorted(rs: seq<Record>)
    requires StrictlySorted(rs) && rs != []
    ensures StrictlySorted(rs[1..])
    ensures rs[1..] != [] ==> Less(rs[0].SortKey(), rs[1..][0].SortKey())
  {
  }

  lemma Cons(rs: seq<Record>)
    requires rs != []
    ensures forall r :: r in rs <==> r == rs[0] || r in rs[1..]
    ensures forall k :: HasKey(rs, k) <==> rs[0].SortKey() == k || HasKey(rs[1..], k)
  {
    assert rs == [rs[0]] + rs[1..];
    forall k ensures HasKey(rs, k) <==> rs[0].SortKey() == k || HasKey(rs[1..], k) {
      if HasKey(rs, k) {
        var r :| r in rs && r.SortKey() == k;
      }
    }
  }

  /** The least record of the first list is in nothing of the second: it was removed. */
  lemma LeftFirst(a: seq<Record>, b: seq<Record>, rest: Delta)
    requires a != [] && StrictlySorted(a) && StrictlySorted(b) && (b != [] ==> Before(a[0], b[0]))
    requires IsDifference(a[1..], b, rest)
    ensures IsDifference(a, b, Delta(rest.added, [a[0]] + rest.removed, rest.modified))
  {
    Cons(a);
    TailSorted(a);
    BelowHead(b, a[0].SortKey());
    BelowHead(a[1..], a[0].SortKey());
    forall c ensures Changed(a, b, c) <==> Changed(a[1..], b, c) {
      if x, y :| x in a && y in b && IsChange(x, y, c) { assert HasKey(b, x.SortKey()); }
    }
    forall i | 0 <= i < |rest.removed| ensures Before(a[0], rest.removed[i]) {
      assert rest.removed[i] in rest.removed;
    }
  }

  lemma RightFirst(a: seq<Record>, b: seq<Record>, rest: Delta)
    requires b != [] && StrictlySorted(a) && StrictlySorted(b) && (a != [] ==> Before(b[0], a[0]))
    requires IsDifference(a, b[1..], rest)
    ensures IsDifference(a, b, Delta([b[0]] + rest.added, rest.removed, rest.modified))
  {
    Cons(b);
    TailSorted(b);
    BelowHead(a, b[0].SortKey());
    BelowHead(b[1..], b[0].SortKey());
    forall c ensures Changed(a, b, c) <==> Changed(a, b[1..], c) {
      if x, y :| x in a && y in b && IsChange(x, y, c) { assert HasKey(a, y.SortKey()); }
    }
    forall i | 0 <= i < |rest.added| ensures Before(b[0], rest.added[i]) {
      assert rest.added[i] in rest.added;
    }
  }

  lemma MeetingChange(a: seq<Record>, b: seq<Record>, c: Change)
    requires a != [] && b != [] && a[0].SortKey() == b[0].SortKey()
    requires !HasKey(a[1..], a[0].SortKey()) && !HasKey(b[1..], a[0].SortKey())
    ensures Changed(a, b, c) <==> IsChange(a[0], b[0], c) || Changed(a[1..], b[1..], c)
  {
    Cons(a);
    Cons(b);
    if Changed(a, b, c) {
      var x, y :| x in a && y in b && IsChange(x, y, c);
      if x != a[0] || y != b[0] {
        assert x in a[1..] ==> HasKey(a[1..], x.SortKey());
        assert y in b[1..] ==> HasKey(b[1..], y.SortKey());
        assert x in a[1..] && y in b[1..];
      }
    }
  }

  /** Heads with the same key meet: at most a change. */
  lemma BothFirst(a: seq<Record>, b: seq<Record>, rest: Delta)
    requires a != [] && b != [] && StrictlySorted(a) && StrictlySorted(b) && a[0].SortKey() == b[0].SortKey()
    requires IsDifference(a[1..], b[1..], rest)
    ensures var c := if a[0].h != b[0].h then [ChangeOf(a[0], b[0])] else [];
            IsDifference(a, b, Delta(rest.added, rest.removed, c + rest.modified))
  {
    var k := a[0].SortKey();
    Cons(a);
    Cons(b);
    TailSorted(a);
    TailSorted(b);
    BelowHead(a[1..], k);
    BelowHead(b[1..], k);
    var c0 := if a[0].h != b[0].h then [ChangeOf(a[0], b[0])] else [];
    forall c ensures Changed(a, b, c) <==> c in c0 + rest.modified {
      MeetingChange(a, b, c);
    }
    forall i | 0 <= i < |rest.modified| ensures Less(k, rest.modified[i].SortKey()) {
      assert rest.modified[i] in rest.modified;
      var x, y :| x in a[1..] && y in b[1..] && IsChange(x, y, rest.modified[i]);
    }
  }

  lemma NoChange(a: seq<Record>, b: seq<Record>)
    requires StrictlySorted(a) && StrictlySorted(b) && (a == [] || b == [])
    ensures IsDifference(a, b, Delta(b, a, []))
  {
    assert forall k :: a == [] ==> !HasKey(a, k);
    assert forall k :: b == [] ==> !HasKey(b, k);
  }

  lemma {:induction false} JoinIsDifference(a: seq<Record>, b: seq<Record>)
    requires StrictlySorted(a) && StrictlySorted(b)
    ensures IsDifference(a, b, Join(a, b))
    decreases |a| + |b|
  {
    if a == [] || b == [] {
      NoChange(a, b);
      assert Join(a, b) == Delta(b, a, []);
    } else if Before(a[0], b[0]) {
      var rest := Join(a[1..], b);
      JoinIsDifference(a[1..], b);
      LeftFirst(a, b, rest);
      assert Join(a, b) == Delta(rest.added, [a[0]] + rest.removed, rest.modified);
    } else if Before(b[0], a[0]) {
      var rest := Join(a, b[1..]);
      JoinIsDifference(a, b[1..]);
      RightFirst(a, b, rest);
      assert Join(a, b) == Delta([b[0]] + rest.added, rest.removed, rest.modified);
    } else {
      var rest := Join(a[1..], b[1..]);
      JoinIsDifference(a[1..], b[1..]);
      LessTotal(a[0].SortKey(), b[0].SortKey());
      BothFirst(a, b, rest);
      assert Join(a, b) == Delta(rest.added, rest.removed,
                                 (if a[0].h != b[0].h then [ChangeOf(a[0], b[0])] else []) + rest.modified);
    }
  }

  // ---------------------------------------------------------------- the delta as a patch

  /** Records by key; a later record replaces an earlier one with the same key. */
  function Table(rs: seq<Record>): map<string, Record> {
    if rs == [] then map[] else Table(rs[..|rs| - 1])[rs[|rs| - 1].SortKey() := rs[|rs| - 1]]
  }

  function Afters(cs: seq<Change>): seq<Record> {
    seq(|cs|, i requires 0 <= i < |cs| => cs[i].After())
  }

  ghost function Keys(rs: seq<Record>): set<string> {
    set r | r in rs :: r.SortKey()
  }

  /** Drop what was removed, replace what was modified, add what was added. */
  ghost function Patch(m: map<string, Record>, d: Delta): map<string, Record> {
    (m - Keys(d.removed)) + Table(Afters(d.modified)) + Table(d.added)
  }

  lemma {:induction false} TableEntry(rs: seq<Record>, k: string)
    ensures k in Table(rs) <==> HasKey(rs, k)
    ensures k in Table(rs) ==> Table(rs)[k] in rs && Table(rs)[k].SortKey() == k
  {
    if rs != [] {
      var n := |rs| - 1;
      TableEntry(rs[..n], k);
      assert rs == rs[..n] + [rs[n]];
      assert HasKey(rs, k) <==> HasKey(rs[..n], k) || rs[n].SortKey() == k;
    }
  }

  /** Of several records with one key the table holds the last. */
  lemma {:induction false} LastOfKey(rs: seq<Record>, i: nat, k: string)
    requires i < |rs| && rs[i].SortKey() == k && forall j :: i < j < |rs| ==> rs[j].SortKey() != k
    ensures k in Table(rs) && Table(rs)[k] == rs[i]
    decreases |rs|
  {
    if i < |rs| - 1 {
      var front := rs[..|rs| - 1];
      assert front[i] == rs[i];
      LastOfKey(front, i, k);
    }
  }

  ghost predicate OnePerKey(rs: seq<Record>) {
    forall r, s :: r in rs && s in rs && r.SortKey() == s.SortKey() ==> r == s
  }

  lemma StrictlySortedOnePerKey(rs: seq<Record>)
    requires StrictlySorted(rs)
    ensures OnePerKey(rs)
  {
    forall i, j | 0 <= i < |rs| && 0 <= j < |rs| && rs[i].SortKey() == rs[j].SortKey() ensures i == j {
      if i < j { LessAsymmetric(rs[i].SortKey(), rs[j].SortKey()); }
      if j < i { LessAsymmetric(rs[j].SortKey(), rs[i].SortKey()); }
    }
  }

  /** The patch at one key. */
  lemma PatchAt(a: seq<Record>, b: seq<Record>, d: Delta, k: string)
    requires StrictlySorted(a) && StrictlySorted(b) && IsDifference(a, b, d)
    ensures k in Patch(Table(a), d) <==> k in Table(b)
    ensures k in Table(b) ==>
              var r := Patch(Table(a), d)[k];
              r.h == Table(b)[k].h && (r == Table(b)[k] || (k in Table(a) && r == Table(a)[k]))
  {
    TableEntry(a, k);
    TableEntry(b, k);
    TableEntry(d.added, k);
    TableEntry(Afters(d.modified), k);
    StrictlySortedOnePerKey(a);
    StrictlySortedOnePerKey(b);
    assert k in Keys(d.removed) <==> HasKey(d.removed, k);
    if HasKey(a, k) && HasKey(b, k) {
      var x, y := Table(a)[k], Table(b)[k];
      if x.h != y.h {
        ModifiedEntry(a, b, d, x, y);
      } else {
        Unmodified(a, b, d, x, y);
      }
    } else if HasKey(b, k) {
      assert Table(b)[k] in d.added;
    } else if HasKey(a, k) {
      assert Table(a)[k] in d.removed;
      NotModified(a, b, d, k);
    } else {
      NotModified(a, b, d, k);
    }
  }

  /** A modified record's new state is a record of b whose counterpart in a has another hash. */
  lemma AfterSource(a: seq<Record>, b: seq<Record>, d: Delta, r: Record) returns (x: Record, y: Record)
    requires IsDifference(a, b, d) && r in Afters(d.modified)
    ensures x in a && y in b && x.SortKey() == y.SortKey() && x.h != y.h && r == y
  {
    var i :| 0 <= i < |d.modified| && Afters(d.modified)[i] == r;
    assert d.modified[i] in d.modified;
    x, y :| x in a && y in b && IsChange(x, y, d.modified[i]);
  }

  lemma NotModified(a: seq<Record>, b: seq<Record>, d: Delta, k: string)
    requires IsDifference(a, b, d) && !HasKey(b, k)
    ensures !HasKey(Afters(d.modified), k)
  {
    forall r <- Afters(d.modified) ensures r.SortKey() != k {
      var x, y := AfterSource(a, b, d, r);
    }
  }

  lemma ModifiedEntry(a: seq<Record>, b: seq<Record>, d: Delta, x: Record, y: Record)
    requires IsDifference(a, b, d) && OnePerKey(a) && OnePerKey(b)
    requires x in a && y in b && x.SortKey() == y.SortKey() && x.h != y.h
    ensures HasKey(Afters(d.modified), y.SortKey())
    ensures forall r <- Afters(d.modified) :: r.SortKey() == y.SortKey() ==> r == y
  {
    var c := ChangeOf(x, y);
    assert IsChange(x, y, c) && c in d.modified;
    var i :| 0 <= i < |d.modified| && d.modified[i] == c;
    assert Afters(d.modified)[i] == y;
    forall r <- Afters(d.modified) | r.SortKey() == y.SortKey() ensures r == y {
      var x', y' := AfterSource(a, b, d, r);
    }
  }

  lemma Unmodified(a: seq<Record>, b: seq<Record>, d: Delta, x: Record, y: Record)
    requires IsDifference(a, b, d) && OnePerKey(a) && OnePerKey(b)
    requires x in a && y in b && x.SortKey() == y.SortKey() && x.h == y.h
    ensures !HasKey(Afters(d.modified), y.SortKey())
    ensures !HasKey(d.added, y.SortKey()) && !HasKey(d.removed, y.SortKey())
  {
    forall r <- Afters(d.modified) ensures r.SortKey() != y.SortKey() {
      var x', y' := AfterSource(a, b, d, r);
    }
  }

  /** Records with the same key and hash are the same record, across both indexes. */
  ghost predicate HashesFaithful(a: seq<Record>, b: seq<Record>) {
    forall x, y :: x in a && y in b && x.SortKey() == y.SortKey() && x.h == y.h ==> x == y
  }

  /** The delta of two sorted indexes patches the first into one with the second's keys and hashes, and
      into exactly the second when hashes are faithful. */
  lemma JoinIsPatch(a: seq<Record>, b: seq<Record>)
    requires StrictlySorted(a) && StrictlySorted(b)
    ensures Patch(Table(a), Join(a, b)).Keys == Table(b).Keys
    ensures forall k <- Table(b) :: Patch(Table(a), Join(a, b))[k].h == Table(b)[k].h
    ensures HashesFaithful(a, b) ==> Patch(Table(a), Join(a, b)) == Table(b)
  {
    var p := Patch(Table(a), Join(a, b));
    JoinIsDifference(a, b);
    forall k ensures k in p <==> k in Table(b) { PatchAt(a, b, Join(a, b), k); }
    forall k <- Table(b)
      ensures p[k].h == Table(b)[k].h && (HashesFaithful(a, b) ==> p[k] == Table(b)[k])
    {
      PatchAt(a, b, Join(a, b), k);
      TableEntry(a, k);
      TableEntry(b, k);
    }
  }

  // ---------------------------------------------------------------- the map-based comparison

  /** What the map-based comparison finds: the last record of every key, compared by type and value. */
  ghost predicate IsMapDelta(left: seq<Record>, right: seq<Record>,
                             added: seq<Record>, removed: seq<Record>, modified: seq<(Record, Record)>) {
    var l, r := Table(left), Table(right);
    && (forall x :: x in added <==> x.SortKey() in r.Keys - l.Keys && r[x.SortKey()] == x)
    && (forall x :: x in removed <==> x.SortKey() in l.Keys - r.Keys && l[x.SortKey()] == x)
    && (forall x, y :: (x, y) in modified <==>
          x.SortKey() == y.SortKey() && x.SortKey() in l && x.SortKey() in r
          && l[x.SortKey()] == x && r[x.SortKey()] == y && (x.v != y.v || x.t != y.t))
    && Distinct(added) && Distinct(removed) && Distinct(modified)
  }

  method IndexByKey(rs: seq<Record>) returns (m: map<string, Record>)
    ensures m == Table(rs)
  {
    m := map[];
    for i := 0 to |rs|
      invariant m == Table(rs[..i])
    {
      assert rs[..i + 1][..i] == rs[..i];
      m := m[rs[i].SortKey() := rs[i]];
    }
    assert rs[..|rs|] == rs;
  }

  ghost predicate ByKey(m: map<string, Record>) {
    forall k <- m :: m[k].SortKey() == k
  }

  /** The entries of one map whose key the other lacks, in no particular order. */
  method OnlyIn(m: map<string, Record>, other: map<string, Record>) returns (out: seq<Record>)
    requires ByKey(m)
    ensures forall x :: x in out <==> x.SortKey() in m.Keys - other.Keys && m[x.SortKey()] == x
    ensures Distinct(out)
  {
    out := [];
    var todo := m.Keys;
    while todo != {}
      invariant todo <= m.Keys && Distinct(out)
      invariant forall x :: x in out <==> x.SortKey() in m.Keys - other.Keys - todo && m[x.SortKey()] == x
      decreases todo
    {
      var k :| k in todo;
      if k !in other { out := out + [m[k]]; }
      todo := todo - {k};
    }
  }

  method InBothChanged(l: map<string, Record>, r: map<string, Record>) returns (out: seq<(Record, Record)>)
    requires ByKey(l) && ByKey(r)
    ensures forall x, y :: (x, y) in out <==>
              x.SortKey() == y.SortKey() && x.SortKey() in l && x.SortKey() in r
              && l[x.SortKey()] == x && r[x.SortKey()] == y && (x.v != y.v || x.t != y.t)
    ensures Distinct(out)
  {
    out := [];
    var todo := r.Keys;
    while todo != {}
      invariant todo <= r.Keys && Distinct(out)
      invariant forall x, y :: (x, y) in out <==>
                  x.SortKey() == y.SortKey() && x.SortKey() in l && x.SortKey() in r.Keys - todo
                  && l[x.SortKey()] == x && r[x.SortKey()] == y && (x.v != y.v || x.t != y.t)
      decreases todo
    {
      var k :| k in todo;
      if k in l && (l[k].v != r[k].v || l[k].t != r[k].t) { out := out + [(l[k], r[k])]; }
      todo := todo - {k};
    }
  }

  /** The simple comparison: index both sides by key, then look every key up on the other side. */
  method DiffRegistry(left: seq<Record>, right: seq<Record>)
    returns (added: seq<Record>, removed: seq<Record>, modified: seq<(Record, Record)>)
    ensures IsMapDelta(left, right, added, removed, modified)
  {
    var l := IndexByKey(left);
    var r := IndexByKey(right);
    forall k <- l ensures l[k].SortKey() == k { TableEntry(left, k); }
    forall k <- r ensures r[k].SortKey() == k { TableEntry(right, k); }
    added := OnlyIn(r, l);
    removed := OnlyIn(l, r);
    modified := InBothChanged(l, r);
  }

  /** Hash equality means equality of type and value, for records with the same key. */
  ghost predicate HashesMeanValues(a: seq<Record>, b: seq<Record>) {
    forall x, y :: x in a && y in b && x.SortKey() == y.SortKey() ==> (x.h == y.h <==> x.v == y.v && x.t == y.t)
  }

  lemma TableOfOnePerKey(rs: seq<Record>, x: Record)
    requires OnePerKey(rs)
    ensures x in rs <==> x.SortKey() in Table(rs) && Table(rs)[x.SortKey()] == x
    ensures x.SortKey() in Table(rs) <==> HasKey(rs, x.SortKey())
  {
    TableEntry(rs, x.SortKey());
  }

  /** On sorted indexes with unique keys the one-pass join and the map-based comparison find the same
      additions, removals and modifications. */
  lemma ComparisonsAgree(a: seq<Record>, b: seq<Record>,
                         added: seq<Record>, removed: seq<Record>, modified: seq<(Record, Record)>)
    requires StrictlySorted(a) && StrictlySorted(b) && HashesMeanValues(a, b)
    requires IsMapDelta(a, b, added, removed, modified)
    ensures forall x :: x in Join(a, b).added <==> x in added
    ensures forall x :: x in Join(a, b).removed <==> x in removed
    ensures forall c :: c in Join(a, b).modified <==> exists x, y :: (x, y) in modified && c == ChangeOf(x, y)
  {
    JoinIsDifference(a, b);
    StrictlySortedOnePerKey(a);
    StrictlySortedOnePerKey(b);
    forall x ensures x in Join(a, b).added <==> x in added { TableOfOnePerKey(b, x); TableEntry(a, x.SortKey()); }
    forall x ensures x in Join(a, b).removed <==> x in removed { TableOfOnePerKey(a, x); TableEntry(b, x.SortKey()); }
    forall x, y ensures (x, y) in modified <==> x in a && y in b && x.SortKey() == y.SortKey() && x.h != y.h {
      TableOfOnePerKey(a, x);
      TableOfOnePerKey(b, y);
    }
    forall c ensures Changed(a, b, c) <==> exists x, y :: (x, y) in modified && c == ChangeOf(x, y) {
      if Changed(a, b, c) {
        var x, y :| x in a && y in b && IsChange(x, y, c);
        assert (x, y) in modified && c == ChangeOf(x, y);
      }
      if x, y :| (x, y) in modified && c == ChangeOf(x, y) {
        assert IsChange(x, y, c);
      }
    }
  }
}
