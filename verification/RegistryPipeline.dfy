/** From two hives to their delta: what walking, merging and joining amount to together. */
module RegistryPipeline {
  import opened RegistryRecords
  import opened RegistryWalk
  import RegistryDiff
  import opened RegistryDelta

  /** Some record of the hive has this sort key. */
  ghost predicate HasRecord(m: multiset<Record>, key: string) {
    exists r <- m :: r.SortKey() == key
  }

  lemma SameKeys(rs: seq<Record>, key: string)
    ensures HasKey(rs, key) <==> HasRecord(multiset(rs), key)
  {
    if HasKey(rs, key) {
      var r :| r in rs && r.SortKey() == key;
      assert r in multiset(rs);
    }
  }

  /** Whatever way two hives were walked: if neither has two values with one sort key, the join of their indexes
      lists exactly the records only one hive has and those whose hash changed, each list in order, and as a patch
      turns the first index into the second. */
  lemma HiveDelta(rootA: Key, pathA: string, a: seq<Record>, rootB: Key, pathB: string, b: seq<Record>)
    requires Sorted(a) && multiset(a) == HiveRecords(rootA, pathA) && Unambiguous(HiveRecords(rootA, pathA))
    requires Sorted(b) && multiset(b) == HiveRecords(rootB, pathB) && Unambiguous(HiveRecords(rootB, pathB))
    ensures var d := RegistryDiff.Join(a, b);
            && (forall r: Record :: r in d.added
                  <==> r in HiveRecords(rootB, pathB) && !HasRecord(HiveRecords(rootA, pathA), r.SortKey()))
            && (forall r: Record :: r in d.removed
                  <==> r in HiveRecords(rootA, pathA) && !HasRecord(HiveRecords(rootB, pathB), r.SortKey()))
            && (forall c :: c in d.modified
                  <==> exists x <- HiveRecords(rootA, pathA), y <- HiveRecords(rootB, pathB) :: IsChange(x, y, c))
            && StrictlySorted(d.added) && StrictlySorted(d.removed) && ChangesSorted(d.modified)
            && (HashesFaithful(a, b) ==> Patch(Table(a), d) == Table(b))
  {
    UnambiguousKeys(a);
    UnambiguousKeys(b);
    SortedAndUnique(a);
    SortedAndUnique(b);
    JoinIsDifference(a, b);
    JoinIsPatch(a, b);
    var d := RegistryDiff.Join(a, b);
    forall r: Record ensures HasKey(a, r.SortKey()) <==> HasRecord(HiveRecords(rootA, pathA), r.SortKey()) {
      SameKeys(a, r.SortKey());
    }
    forall r: Record ensures HasKey(b, r.SortKey()) <==> HasRecord(HiveRecords(rootB, pathB), r.SortKey()) {
      SameKeys(b, r.SortKey());
    }
    SameMembers(a);
    SameMembers(b);
    forall c ensures Changed(a, b, c)
                <==> exists x <- multiset(a), y <- multiset(b) :: IsChange(x, y, c)
    {
      ChangedMembers(a, b, c);
    }
  }

  lemma SameMembers(rs: seq<Record>)
    ensures forall r :: r in rs <==> r in multiset(rs)
  {
  }

  lemma ChangedMembers(a: seq<Record>, b: seq<Record>, c: RegistryDiff.Change)
    ensures Changed(a, b, c) <==> exists x <- multiset(a), y <- multiset(b) :: IsChange(x, y, c)
  {
    if Changed(a, b, c) {
      var x, y :| x in a && y in b && IsChange(x, y, c);
      assert x in multiset(a) && y in multiset(b);
    }
  }
}
