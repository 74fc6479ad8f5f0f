/** The snapshot tree as the listing gives it: the ancestor relation lives in strings such as -1-10-2. */
module SnapshotTree {
  import opened Decimal

  datatype Entry = Entry(suffix: string, name: string, uuid: string, description: string)

  // ---------------------------------------------------------------- suffixes are paths

  /** The child numbers from the root, each in its printed form. */
  type Path = seq<string>

  predicate IsNumeral(s: string) {
    s != "" && AllDigits(s)
  }

  ghost predicate ValidPath(p: Path) {
    forall x <- p :: IsNumeral(x)
  }

  function Spell(p: Path): string {
    if p == [] then "" else "-" + p[0] + Spell(p[1..])
  }

  function DigitRun(s: string): (n: nat)
    ensures n <= |s| && (forall i :: 0 <= i < n ==> IsDigit(s[i])) && (n < |s| ==> !IsDigit(s[n]))
  {
    if s != "" && IsDigit(s[0]) then 1 + DigitRun(s[1..]) else 0
  }

  /** What the listing's pattern accepts: any number of dash-and-digits groups. */
  predicate IsSuffix(s: string) {
    s == "" || (s[0] == '-' && 0 < DigitRun(s[1..]) && IsSuffix(s[1 + DigitRun(s[1..])..]))
  }

  function PathOf(s: string): Path
    requires IsSuffix(s)
  {
    if s == "" then [] else [s[1..1 + DigitRun(s[1..])]] + PathOf(s[1 + DigitRun(s[1..])..])
  }

  /** Every suffix spells exactly one path. */
  lemma {:induction false} SuffixSpells(s: string)
    requires IsSuffix(s)
    ensures ValidPath(PathOf(s)) && Spell(PathOf(s)) == s
  {
    if s != "" {
      var k := DigitRun(s[1..]);
      var x, rest := s[1..1 + k], s[1 + k..];
      SuffixSpells(rest);
      assert PathOf(s) == [x] + PathOf(rest);
      assert x == s[1..][..k];
      assert IsNumeral(x);
      assert s == "-" + x + rest;
    }
  }

  lemma SpellStart(p: Path)
    ensures Spell(p) == "" || Spell(p)[0] == '-'
    ensures Spell(p) == "" <==> p == []
  {
  }

  lemma FirstOf(y: string, b: string)
    ensures y != "" ==> (y + b)[0] == y[0]
  {
  }

  /** A run of digits in front of a non-digit is determined by the text. */
  lemma {:induction false} SameRun(x: string, a: string, y: string, b: string)
    requires AllDigits(x) && AllDigits(y)
    requires a != "" && !IsDigit(a[0]) && (b != "" ==> !IsDigit(b[0]))
    requires x + a <= y + b
    ensures x == y && a <= b
  {
    FirstOf(y, b);
    if x == "" {
      assert (x + a)[0] == a[0];
      assert y == "" && x + a == a && y + b == b;
    } else {
      assert (x + a)[0] == x[0] && IsDigit(x[0]);
      assert y != "" by { assert y == "" ==> y + b == b; }
      assert (x + a)[1..] == x[1..] + a && (y + b)[1..] == y[1..] + b;
      SameRun(x[1..], a, y[1..], b);
      assert x == [x[0]] + x[1..] && y == [y[0]] + y[1..];
    }
  }

  lemma {:induction false} PrefixIsPathPrefix(a: Path, b: Path)
    requires ValidPath(a) && ValidPath(b) && Spell(a) + "-" <= Spell(b)
    ensures a < b
  {
    SpellStart(b);
    assert (Spell(a) + "-") != "";
    if a != [] {
      var x, y := a[0], b[0];
      assert IsNumeral(x) && IsNumeral(y);
      var ra, rb := Spell(a[1..]) + "-", Spell(b[1..]);
      SpellStart(a[1..]);
      SpellStart(b[1..]);
      assert Spell(a) + "-" == "-" + (x + ra);
      assert Spell(b) == "-" + (y + rb);
      assert x + ra <= y + rb by {
        assert (Spell(a) + "-")[1..] == x + ra && Spell(b)[1..] == y + rb;
      }
      SameRun(x, ra, y, rb);
      PrefixIsPathPrefix(a[1..], b[1..]);
      assert a == [x] + a[1..] && b == [y] + b[1..];
    }
  }

  lemma {:induction false} SpellConcat(a: Path, b: Path)
    ensures Spell(a + b) == Spell(a) + Spell(b)
  {
    if a == [] {
      assert a + b == b;
    } else {
      SpellConcat(a[1..], b);
      assert (a + b)[1..] == a[1..] + b;
    }
  }

  /** The string test is the tree relation: e is a proper descendant of t exactly when its suffix starts with
      t's suffix and a dash. */
  lemma PrefixTestIsDescent(t: string, e: string)
    requires IsSuffix(t) && IsSuffix(e)
    ensures t + "-" <= e <==> PathOf(t) < PathOf(e)
  {
    var a, b := PathOf(t), PathOf(e);
    SuffixSpells(t);
    SuffixSpells(e);
    if t + "-" <= e { PrefixIsPathPrefix(a, b); }
    if a < b { PathPrefixSpells(a, b); }
  }

  lemma PathPrefixSpells(a: Path, b: Path)
    requires a < b
    ensures Spell(a) + "-" <= Spell(b)
  {
    var rest := b[|a|..];
    assert b == a + rest;
    SpellConcat(a, rest);
    SpellStart(rest);
    assert Spell(rest) == "-" + Spell(rest)[1..];
    assert Spell(b) == (Spell(a) + "-") + Spell(rest)[1..];
  }

  // ---------------------------------------------------------------- reading the listing

  datatype Kind = SnapshotName | SnapshotUUID | SnapshotDescription

  /** One matched line of the machine-readable listing. */
  datatype Field = Field(kind: Kind, suffix: string, value: string)

  ghost predicate Matched(fields: seq<Field>) {
    forall f <- fields :: IsSuffix(f.suffix)
  }

  /** The value the last line for this field and suffix carries; empty when there is none. */
  function LastValue(fields: seq<Field>, kind: Kind, suffix: string): string {
    if fields == [] then ""
    else
      var f := fields[|fields| - 1];
      if f.kind == kind && f.suffix == suffix then f.value
      else LastValue(fields[..|fields| - 1], kind, suffix)
  }

  function EntryAt(fields: seq<Field>, suffix: string): Entry {
    Entry(suffix, LastValue(fields, SnapshotName, suffix), LastValue(fields, SnapshotUUID, suffix),
          LastValue(fields, SnapshotDescription, suffix))
  }

  predicate Usable(e: Entry) {
    e.name != "" && e.uuid != ""
  }

  ghost predicate UniqueSuffixes(tree: seq<Entry>) {
    forall i, j :: 0 <= i < j < |tree| ==> tree[i].suffix != tree[j].suffix
  }

  ghost predicate ValidTree(tree: seq<Entry>) {
    UniqueSuffixes(tree) && forall e <- tree :: IsSuffix(e.suffix) && Usable(e)
  }

  /** Every named suffix appears once, with the last values the listing gave it, and nothing else does. */
  ghost predicate Collects(tree: seq<Entry>, fields: seq<Field>) {
    && (forall e <- tree :: e == EntryAt(fields, e.suffix))
    && (forall f <- fields :: Usable(EntryAt(fields, f.suffix)) ==> EntryAt(fields, f.suffix) in tree)
  }

  /** The suffixes in the order they are first seen. */
  function Suffixes(fields: seq<Field>): seq<string> {
    if fields == [] then []
    else
      var before := Suffixes(fields[..|fields| - 1]);
      var s := fields[|fields| - 1].suffix;
      if s in before then before else before + [s]
  }

  /** The usable entries of these suffixes, in order. */
  function Listed(order: seq<string>, fields: seq<Field>): seq<Entry> {
    if order == [] then []
    else
      var e := EntryAt(fields, order[|order| - 1]);
      Listed(order[..|order| - 1], fields) + (if Usable(e) then [e] else [])
  }

  function Get(m: map<Kind, string>, k: Kind): string {
    if k in m then m[k] else ""
  }

  /** The grouped lines: one map per suffix. */
  ghost predicate Grouped(entries: map<string, map<Kind, string>>, fields: seq<Field>) {
    && (forall s :: s in entries <==> s in Suffixes(fields))
    && (forall s <- entries, k: Kind :: Get(entries[s], k) == LastValue(fields, k, s))
  }

  lemma {:induction false} SuffixesExact(fields: seq<Field>)
    ensures forall i, j :: 0 <= i < j < |Suffixes(fields)| ==> Suffixes(fields)[i] != Suffixes(fields)[j]
    ensures forall f <- fields :: f.suffix in Suffixes(fields)
    ensures Matched(fields) ==> forall s <- Suffixes(fields) :: IsSuffix(s)
  {
    if fields != [] {
      var front, f := fields[..|fields| - 1], fields[|fields| - 1];
      assert fields == front + [f];
      SuffixesExact(front);
      assert f in fields;
    }
  }

  lemma {:induction false} UnseenSuffix(fields: seq<Field>, kind: Kind, suffix: string)
    requires forall f <- fields :: f.suffix != suffix
    ensures LastValue(fields, kind, suffix) == ""
  {
    if fields != [] { UnseenSuffix(fields[..|fields| - 1], kind, suffix); }
  }

  /** One line more, for a suffix seen before or not. */
  lemma GroupOne(entries: map<string, map<Kind, string>>, fields: seq<Field>, f: Field)
    requires Grouped(entries, fields)
    ensures var now := if f.suffix in entries then entries[f.suffix] else map[];
            Grouped(entries[f.suffix := now[f.kind := f.value]], fields + [f])
    ensures Suffixes(fields + [f])
         == if f.suffix in entries then Suffixes(fields) else Suffixes(fields) + [f.suffix]
  {
    var all := fields + [f];
    assert all[..|fields|] == fields && all[|fields|] == f;
    var now := if f.suffix in entries then entries[f.suffix] else map[];
    SuffixesExact(fields);
    forall k: Kind ensures Get(now[f.kind := f.value], k) == LastValue(all, k, f.suffix) {
      if f.suffix !in entries { UnseenSuffix(fields, k, f.suffix); }
    }
  }

  /** The value of a field is that of the last line for it, wherever that line is. */
  lemma {:induction false} LastValueIs(fields: seq<Field>, kind: Kind, suffix: string, i: nat)
    requires i < |fields| && fields[i].kind == kind && fields[i].suffix == suffix
    requires forall j :: i < j < |fields| ==> fields[j].kind != kind || fields[j].suffix != suffix
    ensures LastValue(fields, kind, suffix) == fields[i].value
  {
    if i < |fields| - 1 { LastValueIs(fields[..|fields| - 1], kind, suffix, i); }
  }

  /** Reading on only appends suffixes. */
  lemma {:induction false} SuffixesInOrder(fields: seq<Field>, k: nat)
    requires k <= |fields|
    ensures Suffixes(fields[..k]) <= Suffixes(fields)
    decreases |fields|
  {
    if k == |fields| {
      assert fields[..k] == fields;
    } else {
      var front := fields[..|fields| - 1];
      assert front[..k] == fields[..k];
      SuffixesInOrder(front, k);
    }
  }

  method GroupLines(fields: seq<Field>) returns (entries: map<string, map<Kind, string>>, order: seq<string>)
    ensures Grouped(entries, fields) && order == Suffixes(fields)
  {
    entries, order := map[], [];
    for i := 0 to |fields|
      invariant Grouped(entries, fields[..i]) && order == Suffixes(fields[..i])
    {
      var f := fields[i];
      GroupOne(entries, fields[..i], f);
      assert fields[..i + 1] == fields[..i] + [f];
      var now := map[];
      if f.suffix in entries { now := entries[f.suffix]; } else { order := order + [f.suffix]; }
      entries := entries[f.suffix := now[f.kind := f.value]];
    }
    assert fields[..|fields|] == fields;
  }

  /** The listed entries are exactly the usable ones of the suffixes. */
  lemma {:induction false} ListedExact(order: seq<string>, fields: seq<Field>)
    ensures forall e :: e in Listed(order, fields) <==> e.suffix in order && e == EntryAt(fields, e.suffix) && Usable(e)
    ensures (forall i, j :: 0 <= i < j < |order| ==> order[i] != order[j]) ==> UniqueSuffixes(Listed(order, fields))
  {
    if order != [] {
      var front, s := order[..|order| - 1], order[|order| - 1];
      assert order == front + [s];
      ListedExact(front, fields);
    }
  }

  lemma ListedCollects(fields: seq<Field>)
    ensures var tree := Listed(Suffixes(fields), fields);
            Collects(tree, fields) && (Matched(fields) ==> ValidTree(tree))
  {
    SuffixesExact(fields);
    ListedExact(Suffixes(fields), fields);
  }

  method ListEntries(entries: map<string, map<Kind, string>>, order: seq<string>, ghost fields: seq<Field>)
    returns (tree: seq<Entry>)
    requires Grouped(entries, fields) && order == Suffixes(fields)
    ensures tree == Listed(order, fields)
  {
    tree := [];
    for i := 0 to |order|
      invariant tree == Listed(order[..i], fields)
    {
      var s := order[i];
      assert order[..i + 1][..i] == order[..i];
      var name, uuid := Get(entries[s], SnapshotName), Get(entries[s], SnapshotUUID);
      if name != "" && uuid != "" {
        tree := tree + [Entry(s, name, uuid, Get(entries[s], SnapshotDescription))];
      }
    }
    assert order[..|order|] == order;
  }

  /** One entry per suffix that has a name and an identifier, in order of first appearance. */
  method ParseSnapshotTree(fields: seq<Field>) returns (tree: seq<Entry>)
    requires Matched(fields)
    ensures tree == Listed(Suffixes(fields), fields)
    ensures ValidTree(tree) && Collects(tree, fields)
  {
    var entries, order := GroupLines(fields);
    tree := ListEntries(entries, order, fields);
    ListedCollects(fields);
  }

  // ---------------------------------------------------------------- descendants

  /** The identifiers of the entries strictly below a path, in listing order. */
  function Below(p: Path, tree: seq<Entry>): seq<string>
    requires forall e <- tree :: IsSuffix(e.suffix)
  {
    if tree == [] then []
    else
      var e := tree[|tree| - 1];
      Below(p, tree[..|tree| - 1]) + (if p < PathOf(e.suffix) then [e.uuid] else [])
  }

  lemma {:induction false} BelowMember(p: Path, tree: seq<Entry>, uuid: string)
    requires forall e <- tree :: IsSuffix(e.suffix)
    ensures uuid in Below(p, tree) <==> exists e <- tree :: e.uuid == uuid && p < PathOf(e.suffix)
  {
    if tree != [] {
      var e := tree[|tree| - 1];
      assert tree == tree[..|tree| - 1] + [e];
      BelowMember(p, tree[..|tree| - 1], uuid);
    }
  }

  /** One entry more, by the test the loop makes on the suffixes. */
  lemma BelowNext(target: string, tree: seq<Entry>, i: nat)
    requires i < |tree| && IsSuffix(target) && forall e <- tree :: IsSuffix(e.suffix)
    ensures Below(PathOf(target), tree[..i + 1])
         == Below(PathOf(target), tree[..i])
            + if tree[i].suffix != target && target + "-" <= tree[i].suffix then [tree[i].uuid] else []
  {
    PrefixTestIsDescent(target, tree[i].suffix);
    assert tree[..i + 1] == tree[..i] + [tree[i]];
  }

  /** The first entry with this identifier. */
  predicate FirstWithUuid(tree: seq<Entry>, uuid: string, at: nat) {
    at < |tree| && tree[at].uuid == uuid && forall i :: 0 <= i < at ==> tree[i].uuid != uuid
  }

  method FindUuid(tree: seq<Entry>, uuid: string) returns (at: nat)
    ensures at <= |tree| && forall i :: 0 <= i < at ==> tree[i].uuid != uuid
    ensures at < |tree| ==> tree[at].uuid == uuid
  {
    at := 0;
    while at < |tree| && tree[at].uuid != uuid
      invariant at <= |tree|
      invariant forall i :: 0 <= i < at ==> tree[i].uuid != uuid
    {
      at := at + 1;
    }
  }

  method UuidsUnder(target: Entry, tree: seq<Entry>) returns (uuids: seq<string>)
    requires IsSuffix(target.suffix) && forall e <- tree :: IsSuffix(e.suffix)
    ensures uuids == Below(PathOf(target.suffix), tree)
  {
    var prefix := target.suffix + "-";
    uuids := [];
    for i := 0 to |tree|
      invariant uuids == Below(PathOf(target.suffix), tree[..i])
    {
      var e := tree[i];
      BelowNext(target.suffix, tree, i);
      if e.suffix != target.suffix && prefix <= e.suffix {
        uuids := uuids + [e.uuid];
      }
    }
    assert tree[..|tree|] == tree;
  }

  /** Exactly the entries strictly below the first one with this identifier, in listing order. */
  method DescendantUUIDs(uuid: string, tree: seq<Entry>) returns (uuids: seq<string>)
    requires ValidTree(tree)
    ensures (forall e <- tree :: e.uuid != uuid) ==> uuids == []
    ensures forall at: nat :: FirstWithUuid(tree, uuid, at) ==> uuids == Below(PathOf(tree[at].suffix), tree)
  {
    var at := FindUuid(tree, uuid);
    if at == |tree| { return []; }
    uuids := UuidsUnder(tree[at], tree);
  }
}
