/** The registry tree with change markers: linked nodes, built entry by entry, and what every node's marker
    and values must be. */
module ChangedTree {
  import opened Basics

  datatype Entry = Entry(key: string, name: string, kind: string, value: Option<string>, change: string,
                         before: Option<string>, after: Option<string>, beforeKind: string, afterKind: string)

  datatype ValueNode = ValueNode(name: string, kind: string, value: Option<string>, change: string,
                                 before: Option<string>, after: Option<string>, beforeKind: string, afterKind: string)

  type Path = seq<string>

  // ---------------------------------------------------------------- keys

  function TrimSlashes(s: string): string {
    if s != "" && s[0] == '\\' then TrimSlashes(s[1..])
    else if s != "" && s[|s| - 1] == '\\' then TrimSlashes(s[..|s| - 1])
    else s
  }

  /** strings.Split on a backslash: never empty, and "" splits into one empty part. */
  function Split(s: string): (parts: seq<string>)
    ensures |parts| > 0
  {
    if s == "" then [""]
    else
      var rest := Split(s[1..]);
      if s[0] == '\\' then [""] + rest else [[s[0]] + rest[0]] + rest[1..]
  }

  function NonEmpty(parts: seq<string>): (p: Path)
    ensures forall x <- p :: x != ""
  {
    if parts == [] then []
    else NonEmpty(parts[..|parts| - 1]) + (if parts[|parts| - 1] == "" then [] else [parts[|parts| - 1]])
  }

  /** The node a key spells. */
  function PathOf(key: string): Path {
    NonEmpty(Split(TrimSlashes(key)))
  }

  lemma {:induction false} TrimmedEnds(s: string)
    ensures var t := TrimSlashes(s); t != "" ==> t[0] != '\\' && t[|t| - 1] != '\\'
    decreases |s|
  {
    if s != "" && s[0] == '\\' {
      TrimmedEnds(s[1..]);
    } else if s != "" && s[|s| - 1] == '\\' {
      TrimmedEnds(s[..|s| - 1]);
    }
  }

  lemma {:induction false} SplitLast(s: string)
    requires s != "" && s[|s| - 1] != '\\'
    ensures Split(s)[|Split(s)| - 1] != ""
  {
    var rest := Split(s[1..]);
    if |s| == 1 {
      assert Split(s) == [[s[0]] + rest[0]] + rest[1..];
    } else {
      SplitLast(s[1..]);
      if s[0] == '\\' {
        assert Split(s) == [""] + rest;
      } else {
        assert Split(s) == [[s[0]] + rest[0]] + rest[1..];
      }
    }
  }

  /** The last part of a trimmed key is empty only when the key is. */
  lemma LastPart(key: string)
    ensures var parts := Split(TrimSlashes(key));
            parts[|parts| - 1] == "" <==> PathOf(key) == []
  {
    var t := TrimSlashes(key);
    TrimmedEnds(key);
    if t != "" { SplitLast(t); }
  }

  // ---------------------------------------------------------------- markers

  /** Merging a change into a marker: mixed changes show as modified. */
  function Merge(mark: string, change: string): string {
    if change == "" then mark
    else if mark == "" then change
    else if mark == change then mark
    else "modified"
  }

  lemma MergeLaws(a: string, b: string, c: string)
    ensures Merge(a, b) == Merge(b, a)
    ensures Merge(Merge(a, b), c) == Merge(a, Merge(b, c))
    ensures Merge(a, a) == a && Merge(a, "") == a
  {
  }

  /** p lies on the way from the root to q. */
  predicate OnPath(p: Path, q: Path) {
    p <= q
  }

  /** An entry together with the path its key spells. */
  datatype Placed = Placed(at: Path, entry: Entry)

  function Place(e: Entry): Placed {
    Placed(PathOf(e.key), e)
  }

  function PlaceAll(entries: seq<Entry>): (r: seq<Placed>)
    ensures |r| == |entries|
  {
    seq(|entries|, i requires 0 <= i < |entries| => Place(entries[i]))
  }

  predicate Under(e: Placed, p: Path) {
    OnPath(p, e.at)
  }

  /** The changes of all entries at or below p, merged in input order. */
  function MarkAt(entries: seq<Placed>, p: Path): string {
    if entries == [] then ""
    else
      var n := |entries| - 1;
      if Under(entries[n], p) then Merge(MarkAt(entries[..n], p), entries[n].entry.change) else MarkAt(entries[..n], p)
  }

  function ValueOf(e: Entry): ValueNode {
    ValueNode(e.name,
              if e.change == "modified" && e.kind == "" then e.afterKind else e.kind,
              if e.change == "modified" && e.value.None? then e.after else e.value,
              e.change, e.before, e.after, e.beforeKind, e.afterKind)
  }

  /** The values of the entries whose key spells p, in input order. */
  function ValuesAt(entries: seq<Placed>, p: Path): seq<ValueNode> {
    if entries == [] then []
    else
      var n := |entries| - 1;
      ValuesAt(entries[..n], p) + (if entries[n].at == p && p != [] then [ValueOf(entries[n].entry)] else [])
  }

  ghost predicate Spelled(entries: seq<Placed>, p: Path) {
    p == [] || exists e <- entries :: Under(e, p)
  }

  /** The kinds of change at or below p. */
  ghost function ChangesAt(entries: seq<Placed>, p: Path): set<string> {
    set e | e in entries && p <= e.at && e.entry.change != "" :: e.entry.change
  }

  /** No change gives no marker, one kind of change gives that change, several give "modified". */
  ghost predicate Summarises(mark: string, changes: set<string>) {
    || (changes == {} && mark == "")
    || (changes == {mark})
    || (mark == "modified" && exists a, b :: a in changes && b in changes && a != b)
  }

  lemma SummaryUnique(m: string, n: string, changes: set<string>)
    requires Summarises(m, changes) && Summarises(n, changes)
    ensures m == n
  {
    if changes == {m} && changes == {n} { assert m in {n}; }
  }

  lemma MergeSummarises(mark: string, changes: set<string>, c: string)
    requires Summarises(mark, changes) && "" !in changes
    ensures Summarises(Merge(mark, c), if c == "" then changes else changes + {c})
  {
    if c != "" && mark != "" && mark != c {
      if changes == {mark} { assert mark in changes + {c} && c in changes + {c}; }
    }
  }

  /** A node's marker summarises the changes of all entries at or below it. */
  lemma {:induction false} MarkSummarises(entries: seq<Placed>, p: Path)
    ensures Summarises(MarkAt(entries, p), ChangesAt(entries, p))
  {
    if entries != [] {
      var n := |entries| - 1;
      var front, e := entries[..n], entries[n];
      assert entries == front + [e];
      MarkSummarises(front, p);
      MarkPush(front, e, p);
      ChangesPush(front, e, p);
      MergeSummarises(MarkAt(front, p), ChangesAt(front, p), e.entry.change);
    }
  }

  lemma MarkPush(entries: seq<Placed>, e: Placed, p: Path)
    ensures MarkAt(entries + [e], p)
         == if Under(e, p) then Merge(MarkAt(entries, p), e.entry.change) else MarkAt(entries, p)
  {
    assert (entries + [e])[..|entries|] == entries;
  }

  lemma ChangesPush(entries: seq<Placed>, e: Placed, p: Path)
    ensures ChangesAt(entries + [e], p)
         == if Under(e, p) && e.entry.change != "" then ChangesAt(entries, p) + {e.entry.change}
            else ChangesAt(entries, p)
  {
  }

  /** Markers do not depend on the order of the entries. */
  lemma MarkOrderFree(a: seq<Entry>, b: seq<Entry>, p: Path)
    requires multiset(a) == multiset(b)
    ensures MarkAt(PlaceAll(a), p) == MarkAt(PlaceAll(b), p)
  {
    var x, y := PlaceAll(a), PlaceAll(b);
    PlacedMembers(a, b);
    PlacedMembers(b, a);
    MarkSummarises(x, p);
    MarkSummarises(y, p);
    SameChanges(x, y, p);
    SummaryUnique(MarkAt(x, p), MarkAt(y, p), ChangesAt(x, p));
  }

  lemma SameChanges(x: seq<Placed>, y: seq<Placed>, p: Path)
    requires forall e :: e in x <==> e in y
    ensures ChangesAt(x, p) == ChangesAt(y, p)
  {
  }

  lemma PlacedMembers(a: seq<Entry>, b: seq<Entry>)
    requires multiset(a) == multiset(b)
    ensures forall e :: e in PlaceAll(a) ==> e in PlaceAll(b)
  {
    forall e | e in PlaceAll(a) ensures e in PlaceAll(b) {
      var i :| 0 <= i < |a| && PlaceAll(a)[i] == e;
      assert a[i] in multiset(b);
      var j :| 0 <= j < |b| && b[j] == a[i];
      assert PlaceAll(b)[j] == e;
    }
  }

  // ---------------------------------------------------------------- the tree

  class TreeNode {
    const name: string
    const path: string
    ghost const at: Path  // where in the tree the node hangs
    var change: string
    var values: seq<ValueNode>
    var children: map<string, TreeNode>

    constructor (name: string, path: string, ghost at: Path)
      ensures this.name == name && this.path == path && this.at == at
      ensures change == "" && values == [] && children == map[]
    {
      this.name, this.path, this.at := name, path, at;
      change, values, children := "", [], map[];
    }
  }

  function JoinPath(p: Path): string {
    if p == [] then ""
    else if |p| == 1 then p[0]
    else JoinPath(p[..|p| - 1]) + "\\" + p[|p| - 1]
  }

  /** Every node of the tree by the path it lies on. */
  type Index = map<Path, TreeNode>

  ghost function Nodes(index: Index): set<TreeNode> {
    set p | p in index :: index[p]
  }

  /** The index and the children maps describe the same tree, and every node knows its own path. */
  ghost predicate Linked(index: Index)
    reads Nodes(index)`children
  {
    && [] in index && (forall p, part :: p + [part] in index ==> p in index)
    && (forall p :: p in index ==> index[p].at == p)
    && (forall p, part :: p in index ==> (part in index[p].children <==> p + [part] in index))
    && (forall p, part :: p in index && part in index[p].children ==> index[p].children[part] == index[p + [part]])
  }

  /** What every node carries once `entries` are in. */
  ghost predicate Carries(index: Index, entries: seq<Placed>)
    reads Nodes(index)`change, Nodes(index)`values
  {
    && (forall p :: p in index <==> Spelled(entries, p))
    && (forall p :: p in index && p != [] ==> NodeCarries(index[p], entries, p))
    && [] in index && index[[]].change == "" && index[[]].values == []
  }

  ghost predicate NodeCarries(node: TreeNode, entries: seq<Placed>, p: Path)
    requires p != []
    reads node`change, node`values
  {
    && node.change == MarkAt(entries, p) && node.values == ValuesAt(entries, p)
    && node.name == p[|p| - 1] && node.path == JoinPath(p)
  }

  /** The same while entry `e` is being walked in: nodes down to `made` exist, and nodes down to `marked`
      have its change merged in. */
  ghost predicate Midway(index: Index, entries: seq<Placed>, e: Placed, made: Path, marked: Path)
    reads Nodes(index)`change, Nodes(index)`values
  {
    && (forall p :: p in index <==> Spelled(entries, p) || OnPath(p, made))
    && (forall p :: p in index && p != [] ==> NodeMidway(index[p], entries, e, p, OnPath(p, marked)))
    && [] in index && index[[]].change == "" && index[[]].values == []
  }

  ghost predicate NodeMidway(node: TreeNode, entries: seq<Placed>, e: Placed, p: Path, marked: bool)
    requires p != []
    reads node`change, node`values
  {
    && node.change == (if marked then Merge(MarkAt(entries, p), e.entry.change) else MarkAt(entries, p))
    && node.name == p[|p| - 1] && node.path == JoinPath(p)
    && node.values == ValuesAt(entries, p)
  }

  method MergeNodeChange(node: TreeNode, change: string)
    modifies node`change
    ensures node.change == Merge(old(node.change), change)
  {
    if change == "" { return; }
    if node.change == "" {
      node.change := change;
      return;
    }
    if node.change == change { return; }
    node.change := "modified";
  }

  lemma NothingYet(entries: seq<Placed>, p: Path)
    requires !Spelled(entries, p)
    ensures MarkAt(entries, p) == "" && ValuesAt(entries, p) == []
  {
    if entries != [] {
      var n := |entries| - 1;
      assert entries == entries[..n] + [entries[n]];
      assert !Under(entries[n], p);
      NothingYet(entries[..n], p);
    }
  }

  lemma PrefixPush(walked: Path, part: string)
    ensures forall p :: OnPath(p, walked + [part]) <==> OnPath(p, walked) || p == walked + [part]
  {
    forall p ensures OnPath(p, walked + [part]) <==> OnPath(p, walked) || p == walked + [part] {
      if p <= walked + [part] && |p| <= |walked| { assert p == (walked + [part])[..|p|] == walked[..|p|]; }
      if p <= walked { assert p == walked[..|p|] == (walked + [part])[..|p|]; }
    }
  }

  method AddChild(node: TreeNode, part: string, path: string, ghost index: Index, ghost walked: Path)
    returns (child: TreeNode, ghost next: Index)
    requires Linked(index) && walked in index && index[walked] == node && part !in node.children
    modifies node`children
    ensures fresh(child) && next == index[walked + [part] := child] && Linked(next)
    ensures child.name == part && child.path == path && child.change == "" && child.values == []
  {
    ghost var at := walked + [part];
    assert at !in index;
    child := new TreeNode(part, path, walked + [part]);
    node.children := node.children[part := child];
    next := index[at := child];
    forall p, x | p + [x] in next ensures p in next {
      if p + [x] == at { assert (p + [x])[..|p|] == p == walked; }
    }
    forall p, x | p in next ensures x in next[p].children <==> p + [x] in next {
      if p + [x] == at { assert (p + [x])[..|p|] == p == walked && (p + [x])[|p|] == x; }
    }
  }

  /** Finds or makes the child for `part`. */
  method FindOrMake(node: TreeNode, part: string, path: string, ghost index: Index,
                    ghost entries: seq<Placed>, ghost e: Placed, ghost walked: Path)
    returns (child: TreeNode, ghost next: Index)
    requires Linked(index) && Midway(index, entries, e, walked, walked)
    requires walked in index && index[walked] == node && path == JoinPath(walked + [part])
    modifies node`children
    ensures Linked(next) && Midway(next, entries, e, walked + [part], walked)
    ensures walked + [part] in next && next[walked + [part]] == child && next[[]] == index[[]]
    ensures fresh(Nodes(next) - Nodes(index))
  {
    ghost var at := walked + [part];
    next := index;
    PrefixPush(walked, part);
    if part in node.children {
      child := node.children[part];
    } else {
      assert at !in index && !Spelled(entries, at) && !OnPath(at, walked);
      NothingYet(entries, at);
      label before:
      child, next := AddChild(node, part, path, index, walked);
      forall p | p in next && p != [] ensures NodeMidway(next[p], entries, e, p, OnPath(p, walked)) {
        if p != at { assert old@before(NodeMidway(index[p], entries, e, p, OnPath(p, walked))); }
      }
    }
  }

  /** Finds or makes the child for `part`, and merges the change into it. */
  method Visit(node: TreeNode, part: string, path: string, ghost index: Index, ghost root: TreeNode,
               ghost entries: seq<Placed>, ghost e: Placed, change: string, ghost walked: Path)
    returns (child: TreeNode, ghost next: Index)
    requires At(node, JoinPath(walked), index, root, entries, e, walked) && path == JoinPath(walked + [part])
    requires change == e.entry.change
    modifies Nodes(index)
    ensures At(child, path, next, root, entries, e, walked + [part])
    ensures fresh(Nodes(next) - Nodes(index))
  {
    ghost var at := walked + [part];
    child, next := FindOrMake(node, part, path, index, entries, e, walked);
    assert NodeMidway(child, entries, e, at, false);
    label found:
    MergeNodeChange(child, change);
    PrefixPush(walked, part);
    forall p | p in next && p != [] ensures NodeMidway(next[p], entries, e, p, OnPath(p, at)) {
      assert old@found(NodeMidway(next[p], entries, e, p, OnPath(p, walked)));
    }
  }

  // ---------------------------------------------------------------- building

  lemma {:induction false} NonEmptyPush(parts: seq<string>, i: nat)
    requires i < |parts|
    ensures NonEmpty(parts[..i + 1]) == NonEmpty(parts[..i]) + (if parts[i] == "" then [] else [parts[i]])
  {
    assert parts[..i + 1][..i] == parts[..i];
  }

  /** The finished tree of a list of entries. */
  ghost predicate Whole(index: Index, root: TreeNode, entries: seq<Placed>)
    reads Nodes(index)
  {
    Linked(index) && Carries(index, entries) && index[[]] == root
  }

  lemma StartWalk(index: Index, entries: seq<Placed>, e: Placed)
    requires Carries(index, entries)
    ensures Midway(index, entries, e, [], [])
  {
    forall p | p in index && p != [] ensures NodeMidway(index[p], entries, e, p, OnPath(p, [])) {
      assert NodeCarries(index[p], entries, p);
    }
  }

  lemma PathPush(walked: Path, part: string)
    requires (forall x <- walked :: x != "") && part != ""
    ensures JoinPath(walked + [part]) == if JoinPath(walked) == "" then part else JoinPath(walked) + "\\" + part
  {
    assert (walked + [part])[..|walked|] == walked;
    if walked != [] { assert walked[|walked| - 1] in walked; }
  }

  /** Where the walk of an entry stands: the node and the path spelled so far. */
  ghost predicate At(node: TreeNode, path: string, index: Index, root: TreeNode, entries: seq<Placed>, e: Placed,
                     walked: Path)
    reads Nodes(index)
  {
    && Linked(index) && Midway(index, entries, e, walked, walked)
    && walked in index && index[walked] == node && index[[]] == root && path == JoinPath(walked)
  }

  /** Walks one entry's key down from the root. */
  method WalkIn(root: TreeNode, ghost e: Placed, change: string, parts: seq<string>, ghost index: Index,
                ghost entries: seq<Placed>)
    returns (node: TreeNode, ghost path: string, ghost next: Index)
    requires Whole(index, root, entries) && change == e.entry.change
    modifies Nodes(index)
    ensures At(node, path, next, root, entries, e, NonEmpty(parts)) && fresh(Nodes(next) - Nodes(index))
  {
    node, next := root, index;
    var spelled := "";
    ghost var walked: Path := [];
    StartWalk(index, entries, e);
    for i := 0 to |parts|
      invariant walked == NonEmpty(parts[..i]) && fresh(Nodes(next) - Nodes(index))
      invariant At(node, spelled, next, root, entries, e, walked)
    {
      NonEmptyPush(parts, i);
      var part := parts[i];
      if part == "" { continue; }
      PathPush(walked, part);
      spelled := if spelled == "" then part else spelled + "\\" + part;
      node, next := Visit(node, part, spelled, next, root, entries, e, change, walked);
      walked := walked + [part];
    }
    assert parts[..|parts|] == parts;
    path := spelled;
  }

  /** What one more entry changes at p. */
  lemma EntryPush(entries: seq<Placed>, e: Placed, p: Path)
    ensures Spelled(entries + [e], p) <==> Spelled(entries, p) || Under(e, p)
    ensures MarkAt(entries + [e], p)
         == if Under(e, p) then Merge(MarkAt(entries, p), e.entry.change) else MarkAt(entries, p)
    ensures ValuesAt(entries + [e], p)
         == ValuesAt(entries, p) + (if e.at == p && p != [] then [ValueOf(e.entry)] else [])
  {
    MarkPush(entries, e, p);
    assert (entries + [e])[..|entries|] == entries;
  }

  /** All that is missing at p, of the tree of `entries`, is the value `value` at `at`. */
  ghost predicate NodeReady(node: TreeNode, entries: seq<Placed>, p: Path, at: Path, value: ValueNode)
    requires p != []
    reads node`change, node`values
  {
    && node.change == MarkAt(entries, p) && node.name == p[|p| - 1] && node.path == JoinPath(p)
    && ValuesAt(entries, p) == node.values + (if p == at then [value] else [])
  }

  lemma ReadyToSettle(index: Index, e: Placed, entries: seq<Placed>)
    requires Midway(index, entries, e, e.at, e.at)
    ensures forall p :: p in index <==> Spelled(entries + [e], p)
    ensures forall p :: p in index && p != [] ==> NodeReady(index[p], entries + [e], p, e.at, ValueOf(e.entry))
  {
    forall p ensures p in index <==> Spelled(entries + [e], p) { EntryPush(entries, e, p); }
    forall p | p in index && p != [] ensures NodeReady(index[p], entries + [e], p, e.at, ValueOf(e.entry)) {
      assert NodeMidway(index[p], entries, e, p, OnPath(p, e.at));
      EntryPush(entries, e, p);
    }
  }

  /** Puts the entry's value on the node its key spells; that completes the entry. */
  method Settle(node: TreeNode, value: ValueNode, ghost e: Placed, ghost path: string,
                ghost index: Index, ghost root: TreeNode, ghost entries: seq<Placed>)
    requires At(node, path, index, root, entries, e, e.at) && e.at != [] && value == ValueOf(e.entry)
    modifies node`values
    ensures Whole(index, root, entries + [e])
  {
    ReadyToSettle(index, e, entries);
    assert index[[]].at != node.at;
    label before:
    node.values := node.values + [value];
    forall p | p in index && p != [] ensures NodeCarries(index[p], entries + [e], p) {
      assert old@before(NodeReady(index[p], entries + [e], p, e.at, value));
      if p != e.at { assert index[p].at != node.at; }
    }
  }

  /** An entry without a key leaves the tree as it is. */
  lemma NoKey(node: TreeNode, path: string, index: Index, root: TreeNode, e: Placed, entries: seq<Placed>)
    requires At(node, path, index, root, entries, e, e.at) && e.at == []
    ensures Whole(index, root, entries + [e])
  {
    ReadyToSettle(index, e, entries);
    forall p | p in index && p != [] ensures NodeCarries(index[p], entries + [e], p) {
      assert NodeReady(index[p], entries + [e], p, e.at, ValueOf(e.entry));
    }
  }

  /** Adds one entry to the tree. */
  method AddEntry(root: TreeNode, e: Entry, ghost index: Index, ghost entries: seq<Placed>) returns (ghost next: Index)
    requires Whole(index, root, entries)
    modifies Nodes(index)
    ensures Whole(next, root, entries + [Place(e)]) && fresh(Nodes(next) - Nodes(index))
  {
    var parts := Split(TrimSlashes(e.key));
    var node;
    ghost var path;
    node, path, next := WalkIn(root, Place(e), e.change, parts, index, entries);
    LastPart(e.key);
    if parts[|parts| - 1] != "" {
      Settle(node, ValueOf(e), Place(e), path, next, root, entries);
    } else {
      NoKey(node, path, next, root, Place(e), entries);
    }
  }

  method NewTree() returns (root: TreeNode, ghost index: Index)
    ensures fresh(Nodes(index)) && Whole(index, root, [])
  {
    root := new TreeNode("", "", []);
    index := map[[] := root];
  }

  lemma PlacedOneMore(entries: seq<Entry>, i: nat)
    requires i < |entries|
    ensures PlaceAll(entries)[..i] + [Place(entries[i])] == PlaceAll(entries)[..i + 1]
  {
  }

  method AddNext(root: TreeNode, entries: seq<Entry>, i: nat, ghost index: Index) returns (ghost next: Index)
    requires i < |entries| && Whole(index, root, PlaceAll(entries)[..i])
    modifies Nodes(index)
    ensures Whole(next, root, PlaceAll(entries)[..i + 1]) && fresh(Nodes(next) - Nodes(index))
  {
    next := AddEntry(root, entries[i], index, PlaceAll(entries)[..i]);
    PlacedOneMore(entries, i);
  }

  /** Builds the tree of a list of entries. */
  method BuildChangedTree(entries: seq<Entry>) returns (root: TreeNode, ghost index: Index)
    ensures fresh(Nodes(index)) && Whole(index, root, PlaceAll(entries))
  {
    root, index := NewTree();
    for i := 0 to |entries|
      invariant fresh(Nodes(index)) && Whole(index, root, PlaceAll(entries)[..i])
    {
      index := AddNext(root, entries, i, index);
    }
    assert PlaceAll(entries)[..|entries|] == PlaceAll(entries);
  }
}
