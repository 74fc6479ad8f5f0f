/** Walking a hive into index records, one key at a time or with workers taking top-level keys. */
module RegistryWalk {
  import opened Basics
  import opened Text
  import opened RegistryRecords
  import opened RegistryMerge

  datatype Value = Value(name: string, kind: string, hash: string, size: nat)
  datatype Key = Key(name: string, values: seq<Value>, subs: seq<Key>)

  const SKIPPED: seq<string> :=
    ["\\IRISSERVICE\\CACHE\\", "\\TASKCACHE\\TASKS\\{", "\\EXPLORER\\SESSIONINFO\\",
     "\\CONTENTDELIVERYMANAGER\\", "\\INSTALLSERVICE\\STATE", "\\VOLATILE ENVIRONMENT\\",
     "\\APPCOMPATFLAGS\\COMPATIBILITY ASSISTANT\\", "\\WINDOWS\\WINDOWS ERROR REPORTING\\"]

  predicate Contains(s: string, part: string) {
    exists i :: 0 <= i <= |s| && part <= s[i..]
  }

  predicate ShouldSkip(path: string) {
    exists p <- SKIPPED :: Contains(ToUpper(path), p)
  }

  // ---------------------------------------------------------------- the records of a key

  function Emitted(values: seq<Value>, path: string): seq<Record> {
    seq(|values|, i requires 0 <= i < |values| =>
      Record(path, values[i].name, values[i].kind, "", values[i].hash, values[i].size))
  }

  function Records(key: Key, path: string): seq<Record>
    decreases key, 1
  {
    if ShouldSkip(path) then [] else Emitted(key.values, path) + RecordsOfAll(key.subs, path)
  }

  function RecordsOfAll(subs: seq<Key>, path: string): seq<Record>
    decreases subs, 0
  {
    if subs == [] then []
    else (if subs[0].name == "" then [] else Records(subs[0], path + "\\" + subs[0].name))
         + RecordsOfAll(subs[1..], path)
  }

  method EmitValues(values: seq<Value>, path: string, out: seq<Record>) returns (next: seq<Record>)
    ensures next == out + Emitted(values, path)
  {
    next := out;
    for i := 0 to |values|
      invariant next == out + Emitted(values, path)[..i]
    {
      next := next + [Record(path, values[i].name, values[i].kind, "", values[i].hash, values[i].size)];
    }
  }

  /** The records of the first i keys, and of one more. */
  lemma {:induction false} OneSubMore(subs: seq<Key>, path: string, i: nat)
    requires i < |subs|
    ensures RecordsOfAll(subs[..i + 1], path)
         == RecordsOfAll(subs[..i], path)
            + if subs[i].name == "" then [] else Records(subs[i], path + "\\" + subs[i].name)
  {
    var some := subs[..i + 1];
    var own := (k: Key) => if k.name == "" then [] else Records(k, path + "\\" + k.name);
    if i == 0 {
      assert some[1..] == [];
    } else {
      OneSubMore(subs[1..], path, i - 1);
      assert some[1..] == subs[1..][..i] && subs[..i][1..] == subs[1..][..i - 1];
      Associative(own(subs[0]), RecordsOfAll(subs[1..][..i - 1], path), own(subs[i]));
    }
  }

  method WalkKey(key: Key, path: string, out: seq<Record>) returns (next: seq<Record>)
    ensures next == out + Records(key, path)
    decreases key
  {
    if ShouldSkip(path) { return out; }
    next := EmitValues(key.values, path, out);
    ghost var base := next;
    for i := 0 to |key.subs|
      invariant next == base + RecordsOfAll(key.subs[..i], path)
    {
      OneSubMore(key.subs, path, i);
      var sub := key.subs[i];
      if sub.name == "" { continue; }
      next := WalkKey(sub, path + "\\" + sub.name, next);
      Associative(base, RecordsOfAll(key.subs[..i], path), Records(sub, path + "\\" + sub.name));
    }
    assert key.subs[..|key.subs|] == key.subs;
    Associative(out, Emitted(key.values, path), RecordsOfAll(key.subs, path));
  }

  // ---------------------------------------------------------------- the whole hive

  /** The child a name stands for: the first whose name matches without regard to case. */
  function FindSubkey(subs: seq<Key>, name: string): (r: int)
    ensures -1 <= r < |subs|
    ensures 0 <= r ==> EqualFold(subs[r].name, name)
    ensures forall j :: 0 <= j < (if r < 0 then |subs| else r) ==> !EqualFold(subs[j].name, name)
  {
    if subs == [] then -1
    else if EqualFold(subs[0].name, name) then 0
    else
      var r := FindSubkey(subs[1..], name);
      if r < 0 then -1 else r + 1
  }

  function Names(subs: seq<Key>): seq<string> {
    if subs == [] then []
    else (if subs[0].name == "" then [] else [subs[0].name]) + Names(subs[1..])
  }

  /** The records filed under one top-level name. */
  function Branch(root: Key, path: string, name: string): seq<Record> {
    var r := FindSubkey(root.subs, name);
    if r < 0 then [] else Records(root.subs[r], path + "\\" + name)
  }

  ghost function Branches(root: Key, path: string, names: seq<string>): (r: Chunks)
    ensures |r| == |names|
  {
    seq(|names|, i requires 0 <= i < |names| => Branch(root, path, names[i]))
  }

  /** Everything a walk of the hive should find. */
  ghost function HiveRecords(root: Key, path: string): multiset<Record> {
    multiset(Emitted(root.values, path)) + All(Branches(root, path, Names(root.subs)))
  }

  method WalkBranch(root: Key, path: string, name: string, out: seq<Record>) returns (next: seq<Record>)
    ensures next == out + Branch(root, path, name)
  {
    var r := FindSubkey(root.subs, name);
    if r < 0 { return out; }
    next := WalkKey(root.subs[r], path + "\\" + name, out);
  }

  method WalkSequential(root: Key, path: string) returns (out: seq<Record>)
    ensures Sorted(out) && multiset(out) == HiveRecords(root, path)
  {
    out := EmitValues(root.values, path, []);
    var names := Names(root.subs);
    ghost var chunks := Branches(root, path, names);
    for i := 0 to |names|
      invariant multiset(out) + All(chunks[i..]) == HiveRecords(root, path)
    {
      assert chunks[i..][1..] == chunks[i + 1..];
      out := WalkBranch(root, path, names[i], out);
    }
    out := SortRecords(out);
  }

  /** Chunk i is a sorted listing of branch i. */
  ghost predicate Done(sorted: seq<Record>, branch: seq<Record>) {
    Sorted(sorted) && multiset(sorted) == multiset(branch)
  }

  function UpTo(n: nat): (r: set<nat>)
    ensures forall i :: i in r <==> 0 <= i < n
  {
    if n == 0 then {} else UpTo(n - 1) + {n - 1}
  }

  /** `opens[w]` says whether worker w can open the hive again.  Those that can take chunk numbers in any order, each
      writing its own slot; when none can, nobody takes a number and the walk never comes to an end. */
  method WalkChunks(root: Key, path: string, names: seq<string>, opens: seq<bool>)
    returns (chunks: Chunks, finished: bool)
    ensures |chunks| == |names|
    ensures finished <==> names == [] || true in opens
    ensures finished ==> forall i :: 0 <= i < |names| ==> Done(chunks[i], Branch(root, path, names[i]))
  {
    chunks := seq(|names|, _ => []);
    var pending := UpTo(|names|);
    assert names != [] ==> 0 in pending;
    while pending != {} && true in opens
      invariant |chunks| == |names| && forall i <- pending :: 0 <= i < |names|
      invariant forall i :: 0 <= i < |names| && i !in pending ==> Done(chunks[i], Branch(root, path, names[i]))
      invariant names != [] && true !in opens ==> pending != {}
      decreases pending
    {
      var i: nat :| i in pending;
      var recs := WalkBranch(root, path, names[i], []);
      recs := SortRecords(recs);
      chunks := chunks[i := recs];
      pending := pending - {i};
    }
    finished := pending == {};
  }

  lemma {:induction false} SameRecords(a: Chunks, b: Chunks)
    requires |a| == |b| && forall i :: 0 <= i < |a| ==> multiset(a[i]) == multiset(b[i])
    ensures All(a) == All(b)
  {
    if a != [] { SameRecords(a[1..], b[1..]); }
  }

  method WalkParallel(root: Key, path: string, opens: seq<bool>) returns (out: Option<seq<Record>>)
    ensures out.Some? <==> Names(root.subs) == [] || true in opens
    ensures out.Some? ==> Sorted(out.value) && multiset(out.value) == HiveRecords(root, path)
  {
    var rootRecs := EmitValues(root.values, path, []);
    var names := Names(root.subs);
    var chunks, finished := WalkChunks(root, path, names, opens);
    if !finished { return None; }
    SameRecords(chunks, Branches(root, path, names));
    rootRecs := SortRecords(rootRecs);
    var all: Chunks := if |rootRecs| > 0 then [rootRecs] + chunks else chunks;
    AllChunks(rootRecs, chunks, all);
    var merged := MergeSortedRecords(all);
    return Some(merged);
  }

  lemma AllChunks(first: seq<Record>, chunks: Chunks, all: Chunks)
    requires Sorted(first) && forall i :: 0 <= i < |chunks| ==> Sorted(chunks[i])
    requires all == if |first| > 0 then [first] + chunks else chunks
    ensures AllSorted(all) && All(all) == multiset(first) + All(chunks)
  {
    assert |first| > 0 ==> all[1..] == chunks;
    assert |first| == 0 ==> multiset(first) == multiset{};
  }

  /** None stands for a walk that never ends. */
  method WalkHive(root: Key, path: string, parallel: bool, opens: seq<bool>) returns (out: Option<seq<Record>>)
    ensures out.None? <==> parallel && |Names(root.subs)| >= 4 && true !in opens
    ensures out.Some? ==> Sorted(out.value) && multiset(out.value) == HiveRecords(root, path)
  {
    if !parallel || |Names(root.subs)| < 4 {
      var all := WalkSequential(root, path);
      return Some(all);
    } else {
      out := WalkParallel(root, path, opens);
    }
  }

  /** No two occurrences of records share a sort key. */
  ghost predicate Unambiguous(m: multiset<Record>) {
    && (forall r <- m :: m[r] == 1)
    && forall r, s <- m :: r != s ==> r.SortKey() != s.SortKey()
  }

  lemma OnceEach(rs: seq<Record>, i: nat, j: nat)
    requires i < j < |rs| && rs[i] == rs[j]
    ensures multiset(rs)[rs[i]] >= 2
  {
    assert rs == rs[..j] + [rs[j]] + rs[j + 1..] && rs[i] in rs[..j];
  }

  lemma UnambiguousKeys(rs: seq<Record>)
    requires Unambiguous(multiset(rs))
    ensures UniqueKeys(rs)
  {
    forall i, j | 0 <= i < j < |rs| ensures rs[i].SortKey() != rs[j].SortKey() {
      assert rs[i] in multiset(rs) && rs[j] in multiset(rs);
      if rs[i] == rs[j] { OnceEach(rs, i, j); }
    }
  }

  /** Any two walks of a hive, whichever way and in whatever order, give the same index when no two of its
      values share a sort key. */
  lemma WalksAgree(root: Key, path: string, a: seq<Record>, b: seq<Record>)
    requires Sorted(a) && multiset(a) == HiveRecords(root, path)
    requires Sorted(b) && multiset(b) == HiveRecords(root, path)
    requires Unambiguous(HiveRecords(root, path))
    ensures a == b
  {
    UnambiguousKeys(a);
    SortedUnique(a, b);
  }
}
