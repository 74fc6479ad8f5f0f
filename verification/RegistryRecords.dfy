/** Registry index records, their sort key and what it means for a list of them to be sorted. */
module RegistryRecords {
  import opened Text

  /** One registry value; `v` is its rendered value, absent when only the hash is kept. */
  datatype Record = Record(k: string, n: string, t: string, v: string, h: string, size: nat)
  {
    function SortKey(): string {
      ToLower(k) + "|" + ToLower(n)
    }
  }

  predicate Before(a: Record, b: Record) {
    Less(a.SortKey(), b.SortKey())
  }

  predicate Sorted(rs: seq<Record>) {
    forall i, j :: 0 <= i < j < |rs| ==> !Before(rs[j], rs[i])
  }

  ghost predicate UniqueKeys(rs: seq<Record>) {
    forall i, j :: 0 <= i < j < |rs| ==> rs[i].SortKey() != rs[j].SortKey()
  }

  lemma BeforeTransitive(a: Record, b: Record, c: Record)
    requires !Before(b, a) && !Before(c, b)
    ensures !Before(c, a)
  {
    NotLessTransitive(a.SortKey(), b.SortKey(), c.SortKey());
  }

  // ---------------------------------------------------------------- sorting

  /** A sorted permutation by insertion: the witness that sorting is possible. */
  ghost function Insert(r: Record, rs: seq<Record>): (out: seq<Record>)
    ensures multiset(out) == multiset(rs) + multiset{r}
  {
    if rs == [] || !Before(rs[0], r) then [r] + rs
    else
      assert rs == [rs[0]] + rs[1..];
      [rs[0]] + Insert(r, rs[1..])
  }

  ghost function InsertionSort(rs: seq<Record>): (out: seq<Record>)
    ensures multiset(out) == multiset(rs)
  {
    if rs == [] then []
    else
      assert rs == [rs[0]] + rs[1..];
      Insert(rs[0], InsertionSort(rs[1..]))
  }

  lemma {:induction false} InsertSorted(r: Record, rs: seq<Record>)
    requires Sorted(rs)
    ensures Sorted(Insert(r, rs))
  {
    var out := Insert(r, rs);
    if rs == [] || !Before(rs[0], r) {
      forall j | 0 <= j < |rs| ensures !Before(rs[j], r) {
        if 0 < j { BeforeTransitive(r, rs[0], rs[j]); }
      }
    } else {
      InsertSorted(r, rs[1..]);
      var tail := Insert(r, rs[1..]);
      LessAsymmetric(rs[0].SortKey(), r.SortKey());
      forall j | 0 <= j < |tail| ensures !Before(tail[j], rs[0]) {
        assert tail[j] in multiset(tail);
        assert tail[j] == r || tail[j] in rs[1..];
      }
    }
  }

  lemma {:induction false} SortPossible(rs: seq<Record>)
    ensures Sorted(InsertionSort(rs))
  {
    if rs != [] {
      SortPossible(rs[1..]);
      InsertSorted(rs[0], InsertionSort(rs[1..]));
    }
  }

  /** sort.Slice is not stable: any sorted permutation may come back. */
  method SortRecords(rs: seq<Record>) returns (out: seq<Record>)
    ensures Sorted(out) && multiset(out) == multiset(rs)
  {
    SortPossible(rs);
    out :| Sorted(out) && multiset(out) == multiset(rs);
  }

  predicate RecordsSorted(rs: seq<Record>)
    ensures RecordsSorted(rs) <==> Sorted(rs)
  {
    SortedLocally(rs);
    forall i :: 1 <= i < |rs| ==> !Before(rs[i], rs[i - 1])
  }

  lemma SortedLocally(rs: seq<Record>)
    ensures (forall i :: 1 <= i < |rs| ==> !Before(rs[i], rs[i - 1])) <==> Sorted(rs)
  {
    if forall i :: 1 <= i < |rs| ==> !Before(rs[i], rs[i - 1]) {
      forall i, j | 0 <= i < j < |rs| ensures !Before(rs[j], rs[i]) {
        SortedBetween(rs, i, j);
      }
    }
  }

  lemma {:induction false} SortedBetween(rs: seq<Record>, i: nat, j: nat)
    requires i < j < |rs| && forall k :: 1 <= k < |rs| ==> !Before(rs[k], rs[k - 1])
    ensures !Before(rs[j], rs[i])
  {
    if i + 1 < j {
      SortedBetween(rs, i, j - 1);
      BeforeTransitive(rs[i], rs[j - 1], rs[j]);
    }
  }

  // ---------------------------------------------------------------- uniqueness

  /** With unique keys the sort order leaves no choice. */
  lemma {:induction false} SortedUnique(a: seq<Record>, b: seq<Record>)
    requires Sorted(a) && Sorted(b) && multiset(a) == multiset(b) && UniqueKeys(a)
    ensures a == b
  {
    if a == [] {
      assert |b| == |multiset(a)|;
    } else {
      assert |a| == |multiset(a)| == |b|;
      SameHead(a, b);
      TailMultiset(a);
      TailMultiset(b);
      SortedUnique(a[1..], b[1..]);
      assert a == [a[0]] + a[1..] && b == [b[0]] + b[1..];
    }
  }

  lemma TailMultiset(a: seq<Record>)
    requires a != []
    ensures multiset(a[1..]) == multiset(a) - multiset{a[0]}
  {
    assert a == [a[0]] + a[1..];
  }

  lemma SameHead(a: seq<Record>, b: seq<Record>)
    requires Sorted(a) && Sorted(b) && multiset(a) == multiset(b) && UniqueKeys(a) && a != [] && b != []
    ensures a[0] == b[0]
  {
    assert a[0] in multiset(b) && b[0] in multiset(a);
    var i :| 0 <= i < |a| && a[i] == b[0];
    var j :| 0 <= j < |b| && b[j] == a[0];
    if 0 < i && 0 < j {
      assert !Before(a[i], a[0]) && !Before(b[j], b[0]);
      LessTotal(a[0].SortKey(), a[i].SortKey());
    }
  }
}
