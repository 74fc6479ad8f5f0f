/** Deleting a snapshot, or its whole branch when forced, one leaf at a time. */
module SnapshotDelete {
  import opened Basics
  import opened Text
  import opened SnapshotTree

  datatype Outcome =
    | Deleted
    | NameRequired
    | Protected
    | ListFailed
    | NotFound
    | HasChildren(children: seq<string>)
    | StepFailed(name: string)

  // ---------------------------------------------------------------- the snapshots that exist

  predicate Under(target: Entry, e: Entry)
    requires IsSuffix(target.suffix) && IsSuffix(e.suffix)
  {
    PathOf(target.suffix) < PathOf(e.suffix)
  }

  ghost predicate ValidNodes(nodes: set<Entry>) {
    && (forall e <- nodes :: IsSuffix(e.suffix) && Usable(e))
    && (forall a <- nodes, b <- nodes :: a.suffix == b.suffix ==> a == b)
    && (forall a <- nodes, b <- nodes :: a.uuid == b.uuid ==> a == b)
  }

  ghost predicate IsLeaf(nodes: set<Entry>, leaf: Entry)
    requires ValidNodes(nodes) && leaf in nodes
  {
    forall e <- nodes :: !Under(leaf, e)
  }

  /** The target and everything below it. */
  ghost function Branch(nodes: set<Entry>, target: Entry): set<Entry>
    requires ValidNodes(nodes) && target in nodes
  {
    set e | e in nodes && (e == target || Under(target, e))
  }

  ghost predicate ParentIn(nodes: set<Entry>, p: Path)
    requires p != [] && forall e <- nodes :: IsSuffix(e.suffix)
  {
    exists e <- nodes :: PathOf(e.suffix) == p[..|p| - 1]
  }

  /** A tree: every snapshot but the root has its parent. */
  ghost predicate IsTree(nodes: set<Entry>)
    requires ValidNodes(nodes)
  {
    forall e <- nodes :: PathOf(e.suffix) != [] ==> ParentIn(nodes, PathOf(e.suffix))
  }

  /** Taking a leaf away leaves a tree. */
  lemma LeafRemovalKeepsTree(nodes: set<Entry>, leaf: Entry)
    requires ValidNodes(nodes) && IsTree(nodes) && leaf in nodes && IsLeaf(nodes, leaf)
    ensures ValidNodes(nodes - {leaf}) && IsTree(nodes - {leaf})
  {
    var rest := nodes - {leaf};
    forall e | e in rest && PathOf(e.suffix) != [] ensures ParentIn(rest, PathOf(e.suffix)) {
      ParentStays(nodes, leaf, e, PathOf(e.suffix));
    }
  }

  lemma ParentStays(nodes: set<Entry>, leaf: Entry, e: Entry, p: Path)
    requires ValidNodes(nodes) && leaf in nodes && e in nodes && IsLeaf(nodes, leaf)
    requires p == PathOf(e.suffix) && p != [] && ParentIn(nodes, p)
    ensures ParentIn(nodes - {leaf}, p)
  {
    var parent :| parent in nodes && PathOf(parent.suffix) == p[..|p| - 1];
    assert Under(parent, e);
    assert parent in nodes - {leaf};
  }

  /** The hypervisor's own store. It deletes one snapshot at a time, may fail to, and is only ever asked to
      delete a snapshot with nothing below it: that is the precondition every step has to meet. */
  class Hypervisor {
    var nodes: set<Entry>

    constructor (nodes: set<Entry>)
      ensures this.nodes == nodes
    {
      this.nodes := nodes;
    }

    method Delete(e: Entry) returns (ok: bool)
      requires ValidNodes(nodes) && e in nodes && IsLeaf(nodes, e)
      modifies this
      ensures nodes == if ok then old(nodes) - {e} else old(nodes)
      ensures ValidNodes(nodes) && (old(IsTree(nodes)) ==> IsTree(nodes))
    {
      ok :| ok == true || ok == false;
      if old(IsTree(nodes)) { LeafRemovalKeepsTree(nodes, e); }
      if ok { nodes := set n | n in nodes && n.uuid != e.uuid; }
      assert nodes == if ok then old(nodes) - {e} else old(nodes);
    }
  }

  /** A listing shows what exists, in any order. */
  ghost predicate Lists(tree: seq<Entry>, nodes: set<Entry>) {
    && ValidTree(tree) && ValidNodes(nodes)
    && (forall e :: e in tree <==> e in nodes)
  }

  // ---------------------------------------------------------------- choosing the target

  predicate FirstNamed(tree: seq<Entry>, name: string, at: nat) {
    at < |tree| && EqualFold(tree[at].name, name) && forall i :: 0 <= i < at ==> !EqualFold(tree[i].name, name)
  }

  method FindNamed(tree: seq<Entry>, name: string) returns (at: nat)
    ensures at <= |tree| && forall i :: 0 <= i < at ==> !EqualFold(tree[i].name, name)
    ensures at < |tree| ==> EqualFold(tree[at].name, name)
  {
    at := 0;
    while at < |tree| && !EqualFold(tree[at].name, name)
      invariant at <= |tree| && forall i :: 0 <= i < at ==> !EqualFold(tree[i].name, name)
    {
      at := at + 1;
    }
  }

  /** With unique identifiers the target of a lookup by identifier is the entry itself. */
  method BranchUuids(target: Entry, tree: seq<Entry>, ghost nodes: set<Entry>) returns (uuids: seq<string>)
    requires Lists(tree, nodes) && target in tree
    ensures forall u :: u in uuids <==> exists e <- nodes :: e.uuid == u && Under(target, e)
  {
    uuids := DescendantUUIDs(target.uuid, tree);
    ghost var at := IndexOfUuid(tree, target.uuid);
    assert FirstWithUuid(tree, target.uuid, at);
    assert tree[at] in nodes && target in nodes && tree[at] == target;
    forall u ensures u in uuids <==> exists e <- nodes :: e.uuid == u && Under(target, e) {
      BelowMember(PathOf(target.suffix), tree, u);
    }
  }

  ghost function IndexOfUuid(tree: seq<Entry>, uuid: string): (at: nat)
    requires exists e <- tree :: e.uuid == uuid
    ensures FirstWithUuid(tree, uuid, at)
  {
    if tree[0].uuid == uuid then 0
    else
      assert tree == [tree[0]] + tree[1..];
      1 + IndexOfUuid(tree[1..], uuid)
  }

  // ---------------------------------------------------------------- the entries to delete, deepest first

  method CollectBranch(target: Entry, uuids: seq<string>, tree: seq<Entry>, ghost nodes: set<Entry>)
    returns (doomed: map<string, Entry>)
    requires Lists(tree, nodes) && target in tree
    requires forall u :: u in uuids <==> exists e <- nodes :: e.uuid == u && Under(target, e)
    ensures doomed.Values == Branch(nodes, target)
  {
    doomed := map[target.uuid := target];
    for i := 0 to |uuids|
      invariant target.uuid in doomed && forall u <- uuids[..i] :: u in doomed
      invariant forall u <- doomed :: doomed[u].uuid == u && doomed[u] in Branch(nodes, target)
    {
      var u := uuids[i];
      assert u in uuids;
      var at := FindUuid(tree, u);
      assert at < |tree| && tree[at] in nodes;
      doomed := doomed[u := tree[at]];
    }
    assert uuids[..|uuids|] == uuids;
    forall e | e in Branch(nodes, target) ensures e in doomed.Values {
      assert e.uuid in doomed && doomed[e.uuid] == e;
    }
  }

  lemma LongestExists(entries: set<Entry>) returns (e: Entry)
    requires entries != {}
    ensures e in entries && forall o <- entries :: |o.suffix| <= |e.suffix|
    decreases |entries|
  {
    e :| e in entries;
    if entries != {e} {
      assert entries - {e} != {} by { assert entries == (entries - {e}) + {e}; }
      var longest := LongestExists(entries - {e});
      if |e.suffix| < |longest.suffix| { e := longest; }
    }
  }

  ghost predicate DeepestFirst(order: seq<Entry>, entries: set<Entry>) {
    && (forall e :: e in order <==> e in entries)
    && (forall i, j :: 0 <= i < j < |order| ==> order[i] != order[j] && |order[i].suffix| >= |order[j].suffix|)
  }

  /** Sorting by the length of the suffix, longest first, from a map walked in any order: entries of equal
      length come in any order. */
  method LongestFirst(entries: set<Entry>) returns (order: seq<Entry>)
    ensures DeepestFirst(order, entries)
  {
    var left := entries;
    order := [];
    while left != {}
      invariant left <= entries && DeepestFirst(order, entries - left)
      invariant forall e <- order, o <- left :: |e.suffix| >= |o.suffix|
      decreases |left|
    {
      ghost var longest := LongestExists(left);
      var e :| e in left && forall o <- left :: |o.suffix| <= |e.suffix|;
      order := order + [e];
      left := left - {e};
    }
    assert entries - left == entries;
  }

  // ---------------------------------------------------------------- deleting step by step

  ghost function Members(order: seq<Entry>): set<Entry> {
    set e | e in order
  }

  lemma UnderTransitive(a: Entry, b: Entry, c: Entry)
    requires IsSuffix(a.suffix) && IsSuffix(b.suffix) && IsSuffix(c.suffix)
    requires Under(a, b) && Under(b, c)
    ensures Under(a, c)
  {
  }

  lemma UnderIsLonger(a: Entry, b: Entry)
    requires IsSuffix(a.suffix) && IsSuffix(b.suffix) && Under(a, b)
    ensures |a.suffix| < |b.suffix|
  {
    PrefixTestIsDescent(a.suffix, b.suffix);
  }

  /** When its turn comes, nothing is left below an entry: whatever was below it is longer and gone. */
  lemma TurnIsLeaf(all: set<Entry>, target: Entry, order: seq<Entry>, i: nat)
    requires ValidNodes(all) && target in all && DeepestFirst(order, Branch(all, target)) && i < |order|
    ensures ValidNodes(all - Members(order[..i])) && order[i] in all - Members(order[..i])
    ensures IsLeaf(all - Members(order[..i]), order[i])
  {
    assert order[i] in Branch(all, target);
    forall e | e in all && Under(order[i], e) ensures e in order[..i] {
      BelowGoesFirst(all, target, order, i, e);
    }
  }

  lemma BelowGoesFirst(all: set<Entry>, target: Entry, order: seq<Entry>, i: nat, e: Entry)
    requires ValidNodes(all) && target in all && DeepestFirst(order, Branch(all, target)) && i < |order|
    requires e in all && order[i] in all && Under(order[i], e)
    ensures e in order[..i]
  {
    assert order[i] in Branch(all, target);
    if order[i] != target { UnderTransitive(target, order[i], e); }
    UnderIsLonger(order[i], e);
    assert e in Branch(all, target);
    var k :| 0 <= k < |order| && order[k] == e;
    assert k < i;
  }

  /** The target comes last. */
  lemma TargetIsLast(all: set<Entry>, target: Entry, order: seq<Entry>, i: nat)
    requires ValidNodes(all) && target in all && DeepestFirst(order, Branch(all, target)) && i < |order|
    ensures target !in order[..i]
  {
    assert order[i] in Branch(all, target);
    if order[i] != target { UnderIsLonger(target, order[i]); }
  }

  /** What a run has removed: part of the branch, and with every snapshot everything below it. */
  ghost predicate Pruned(all: set<Entry>, left: set<Entry>, target: Entry)
    requires ValidNodes(all) && target in all
  {
    && left <= all && all - left <= Branch(all, target)
    && (forall gone <- all - left, e <- all :: Under(gone, e) ==> e !in left)
  }

  lemma PrefixIsPruned(all: set<Entry>, target: Entry, order: seq<Entry>, i: nat)
    requires ValidNodes(all) && target in all && DeepestFirst(order, Branch(all, target)) && i <= |order|
    ensures Pruned(all, all - Members(order[..i]), target)
  {
    var left := all - Members(order[..i]);
    forall gone, e | gone in all - left && e in all && Under(gone, e) ensures e !in left {
      var k :| 0 <= k < i && order[k] == gone;
      BelowGoesFirst(all, target, order, k, e);
      assert order[..k] <= order[..i];
    }
    forall gone | gone in all - left ensures gone in Branch(all, target) {
      assert gone in order;
    }
  }

  /** A run that stopped at a snapshot it could not delete: a deepest one of what is left of the branch. */
  ghost predicate StoppedAt(all: set<Entry>, left: set<Entry>, target: Entry, name: string)
    requires ValidNodes(all) && target in all
  {
    && Pruned(all, left, target) && target in left
    && exists e <- left * Branch(all, target) ::
         e.name == name && forall o <- left * Branch(all, target) :: |o.suffix| <= |e.suffix|
  }

  lemma PrefixMember(order: seq<Entry>, i: nat, k: nat)
    requires k < |order| && i <= |order|
    ensures k < i ==> order[k] in order[..i]
  {
    if k < i { assert order[..i][k] == order[k]; }
  }

  lemma StopsAtDeepest(all: set<Entry>, target: Entry, order: seq<Entry>, i: nat)
    requires ValidNodes(all) && target in all && DeepestFirst(order, Branch(all, target)) && i < |order|
    ensures StoppedAt(all, all - Members(order[..i]), target, order[i].name)
  {
    var left := all - Members(order[..i]);
    PrefixIsPruned(all, target, order, i);
    TargetIsLast(all, target, order, i);
    TurnIsLeaf(all, target, order, i);
    assert order[i] in left * Branch(all, target);
    forall o | o in left * Branch(all, target) ensures |o.suffix| <= |order[i].suffix| {
      var k :| 0 <= k < |order| && order[k] == o;
      PrefixMember(order, i, k);
    }
  }

  /** One step: the entry whose turn it is, a leaf by now. */
  method DeleteStep(vbox: Hypervisor, order: seq<Entry>, i: nat, target: Entry, ghost all: set<Entry>)
    returns (ok: bool)
    requires ValidNodes(all) && target in all && DeepestFirst(order, Branch(all, target)) && i < |order|
    requires vbox.nodes == all - Members(order[..i])
    modifies vbox
    ensures vbox.nodes == if ok then all - Members(order[..i + 1]) else all - Members(order[..i])
    ensures ValidNodes(vbox.nodes) && ValidNodes(old(vbox.nodes)) && (old(IsTree(vbox.nodes)) ==> IsTree(vbox.nodes))
  {
    TurnIsLeaf(all, target, order, i);
    assert order[..i + 1] == order[..i] + [order[i]];
    ok := vbox.Delete(order[i]);
  }

  method DeleteInOrder(vbox: Hypervisor, order: seq<Entry>, target: Entry) returns (r: Outcome)
    requires ValidNodes(vbox.nodes) && target in vbox.nodes
    requires DeepestFirst(order, Branch(vbox.nodes, target))
    modifies vbox
    ensures ValidNodes(vbox.nodes) && (old(IsTree(vbox.nodes)) ==> IsTree(vbox.nodes))
    ensures r == Deleted || r.StepFailed?
    ensures r == Deleted ==> vbox.nodes == old(vbox.nodes) - Branch(old(vbox.nodes), target)
    ensures r.StepFailed? ==> StoppedAt(old(vbox.nodes), vbox.nodes, target, r.name)
  {
    ghost var all := vbox.nodes;
    for i := 0 to |order|
      invariant vbox.nodes == all - Members(order[..i])
      invariant ValidNodes(vbox.nodes) && (old(IsTree(vbox.nodes)) ==> IsTree(vbox.nodes))
    {
      var ok := DeleteStep(vbox, order, i, target, all);
      if !ok {
        StopsAtDeepest(all, target, order, i);
        return StepFailed(order[i].name);
      }
    }
    assert order[..|order|] == order;
    assert Members(order) == Branch(all, target);
    r := Deleted;
  }

  // ---------------------------------------------------------------- the whole command

  /** Without force the two baselines are off limits, whatever the case of their names. */
  predicate Guarded(clean: string, baseline: string, name: string, force: bool) {
    !force && (ToLower(name) == ToLower(clean) || ToLower(name) == ToLower(baseline))
  }

  /** The names below a snapshot, in listing order. */
  function NamesUnder(target: Entry, tree: seq<Entry>): seq<string>
    requires IsSuffix(target.suffix) && forall e <- tree :: IsSuffix(e.suffix)
  {
    if tree == [] then []
    else
      var e := tree[|tree| - 1];
      NamesUnder(target, tree[..|tree| - 1]) + (if Under(target, e) then [e.name] else [])
  }

  method NamesOf(uuids: seq<string>, tree: seq<Entry>, target: Entry, ghost nodes: set<Entry>)
    returns (names: seq<string>)
    requires Lists(tree, nodes) && target in nodes
    requires forall u :: u in uuids <==> exists e <- nodes :: e.uuid == u && Under(target, e)
    ensures names == NamesUnder(target, tree)
  {
    names := [];
    for i := 0 to |tree|
      invariant names == NamesUnder(target, tree[..i])
    {
      var e := tree[i];
      assert tree[..i + 1][..i] == tree[..i];
      assert e in nodes;
      if e.uuid in uuids { names := names + [e.name]; }
    }
    assert tree[..|tree|] == tree;
  }

  /** Deletes the first snapshot called `name`: alone, or with its branch when forced. */
  method DeleteSnapshot(vbox: Hypervisor, clean: string, baseline: string, name: string, force: bool,
                        listing: Option<seq<Entry>>)
    returns (r: Outcome)
    requires listing.Some? ==> Lists(listing.value, vbox.nodes)
    modifies vbox
    ensures r == NameRequired <==> TrimSpace(name) == ""
    ensures r == Protected <==> TrimSpace(name) != "" && Guarded(clean, baseline, TrimSpace(name), force)
    ensures r == ListFailed
       <==> TrimSpace(name) != "" && !Guarded(clean, baseline, TrimSpace(name), force) && listing.None?
    ensures r == NotFound
       <==> TrimSpace(name) != "" && !Guarded(clean, baseline, TrimSpace(name), force)
            && listing.Some? && forall e <- listing.value :: !EqualFold(e.name, TrimSpace(name))
    ensures r.NameRequired? || r.Protected? || r.ListFailed? || r.NotFound? || r.HasChildren?
        ==> vbox.nodes == old(vbox.nodes)
    ensures r.HasChildren? || r.Deleted? || r.StepFailed?
        ==> listing.Some? && exists at: nat ::
              FirstNamed(listing.value, TrimSpace(name), at)
              && Settled(r, listing.value, old(vbox.nodes), vbox.nodes, listing.value[at], force)
    ensures listing.Some? ==> ValidNodes(vbox.nodes) && (old(IsTree(vbox.nodes)) ==> IsTree(vbox.nodes))
    ensures !force && (EqualFold(TrimSpace(name), clean) || EqualFold(TrimSpace(name), baseline))
        ==> vbox.nodes == old(vbox.nodes)
    ensures r == Protected
        ==> !force && (EqualFold(TrimSpace(name), clean) || EqualFold(TrimSpace(name), baseline))
  {
    var trimmed := TrimSpace(name);
    if trimmed == "" { return NameRequired; }
    if Guarded(clean, baseline, trimmed, force) { return Protected; }
    if listing.None? { return ListFailed; }
    var tree := listing.value;
    var at := FindNamed(tree, trimmed);
    if at == |tree| { return NotFound; }
    assert FirstNamed(tree, trimmed, at);
    r := DeleteTarget(vbox, tree, tree[at], force);
  }

  /** How a command ends once its target is known. */
  ghost predicate Settled(r: Outcome, tree: seq<Entry>, before: set<Entry>, after: set<Entry>, target: Entry,
                          force: bool)
    requires r.HasChildren? || r.Deleted? || r.StepFailed?
  {
    && Lists(tree, before) && target in before
    && (r.HasChildren? <==> !force && !IsLeaf(before, target))
    && (r.HasChildren? ==> after == before && r.children == NamesUnder(target, tree))
    && (r.Deleted? ==> after == before - Branch(before, target))
    && (r.StepFailed? ==> StoppedAt(before, after, target, r.name))
  }

  method DeleteTarget(vbox: Hypervisor, tree: seq<Entry>, target: Entry, force: bool) returns (r: Outcome)
    requires Lists(tree, vbox.nodes) && target in tree
    modifies vbox
    ensures r.HasChildren? || r.Deleted? || r.StepFailed?
    ensures Settled(r, tree, old(vbox.nodes), vbox.nodes, target, force)
    ensures ValidNodes(vbox.nodes) && (old(IsTree(vbox.nodes)) ==> IsTree(vbox.nodes))
  {
    var descendants := BranchUuids(target, tree, vbox.nodes);
    SomeBelow(descendants, vbox.nodes, target);
    if |descendants| > 0 && !force {
      var names := NamesOf(descendants, tree, target, vbox.nodes);
      return HasChildren(names);
    }
    var doomed := CollectBranch(target, descendants, tree, vbox.nodes);
    var order := LongestFirst(doomed.Values);
    r := DeleteInOrder(vbox, order, target);
  }

  lemma SomeBelow(uuids: seq<string>, nodes: set<Entry>, target: Entry)
    requires ValidNodes(nodes) && target in nodes
    requires forall u :: u in uuids <==> exists e <- nodes :: e.uuid == u && Under(target, e)
    ensures |uuids| > 0 <==> !IsLeaf(nodes, target)
  {
    if |uuids| > 0 { assert uuids[0] in uuids; }
    if !IsLeaf(nodes, target) {
      var e :| e in nodes && Under(target, e);
      assert e.uuid in uuids;
    }
  }
}
