/** When a walk of a hive, which looks top-level keys up by name, lists every value of the tree once. */
module RegistryListing {
  import opened Text
  import opened RegistryRecords
  import opened RegistryMerge
  import opened RegistryWalk

  /** The hive's own values and those of every named key below it, each once, with no looking up by name. */
  ghost function PlainRecords(root: Key, path: string): multiset<Record> {
    multiset(Emitted(root.values, path) + RecordsOfAll(root.subs, path))
  }

  ghost predicate HasNames(subs: seq<Key>, names: seq<string>) {
    |subs| == |names| && forall i :: 0 <= i < |subs| ==> subs[i].name == names[i]
  }

  /** No listed top-level name is spelled like an earlier one but for case. */
  ghost predicate Apart(names: seq<string>, path: string) {
    forall i, j :: 0 <= i < j < |names| && names[j] != "" && EqualFold(names[i], names[j])
      ==> ShouldSkip(path + "\\" + names[j])
  }

  /** The branch under a name of the list is that key's own, unless the name was there before. */
  lemma FoundAtOnce(root: Key, path: string, names: seq<string>, k: nat)
    requires HasNames(root.subs, names) && Apart(names, path) && k < |names| && names[k] != ""
    ensures Branch(root, path, names[k]) == Records(root.subs[k], path + "\\" + names[k])
  {
    var r := FindSubkey(root.subs, names[k]);
    if r < k {
      assert 0 <= r by { assert EqualFold(root.subs[k].name, names[k]); }
      assert EqualFold(names[r], names[k]);
    }
  }

  lemma ListedBranch(root: Key, path: string, name: string, rest: seq<string>)
    ensures All(Branches(root, path, [name] + rest))
         == multiset(Branch(root, path, name)) + All(Branches(root, path, rest))
  {
    var bs := Branches(root, path, [name] + rest);
    assert bs[1..] == Branches(root, path, rest);
  }

  /** The branches under the names of these keys are what the keys hold themselves. */
  ghost predicate PlainOver(root: Key, path: string, subs: seq<Key>) {
    All(Branches(root, path, Names(subs))) == multiset(RecordsOfAll(subs, path))
  }

  lemma OneKeyMore(subs: seq<Key>, path: string)
    requires subs != []
    ensures var own := Records(subs[0], path + "\\" + subs[0].name);
            && Names(subs) == (if subs[0].name == "" then [] else [subs[0].name]) + Names(subs[1..])
            && multiset(RecordsOfAll(subs, path))
               == (if subs[0].name == "" then multiset{} else multiset(own)) + multiset(RecordsOfAll(subs[1..], path))
  {
    if subs[0].name == "" { assert RecordsOfAll(subs, path) == RecordsOfAll(subs[1..], path); }
  }

  lemma PlainStep(root: Key, path: string, subs: seq<Key>)
    requires subs != [] && PlainOver(root, path, subs[1..])
    requires subs[0].name != ""
         ==> Branch(root, path, subs[0].name) == Records(subs[0], path + "\\" + subs[0].name)
    ensures PlainOver(root, path, subs)
  {
    var name, rest := subs[0].name, Names(subs[1..]);
    OneKeyMore(subs, path);
    if name == "" {
      assert Names(subs) == rest;
    } else {
      ListedBranch(root, path, name, rest);
    }
  }

  lemma {:induction false} PlainFrom(root: Key, path: string, names: seq<string>, k: nat)
    requires HasNames(root.subs, names) && Apart(names, path) && k <= |names|
    ensures PlainOver(root, path, root.subs[k..])
    decreases |names| - k
  {
    if k < |names| {
      assert root.subs[k..][1..] == root.subs[k + 1..];
      PlainFrom(root, path, names, k + 1);
      if names[k] != "" { FoundAtOnce(root, path, names, k); }
      PlainStep(root, path, root.subs[k..]);
    }
  }

  /** Without repeated names a walk finds exactly the values of the tree. */
  lemma ApartIsPlain(root: Key, path: string, names: seq<string>)
    requires HasNames(root.subs, names) && Apart(names, path)
    ensures HiveRecords(root, path) == PlainRecords(root, path)
  {
    assert root.subs[0..] == root.subs;
    PlainFrom(root, path, names, 0);
  }

  // ---------------------------------------------------------------- where it is not

  /** A hive with these top-level names, in which only key j holds a value. */
  ghost function OnlyAt(names: seq<string>, j: nat): (root: Key)
    ensures HasNames(root.subs, names)
  {
    Key("", [], seq(|names|, i requires 0 <= i < |names| =>
      Key(names[i], if i == j then [Value("", "", "", 0)] else [], [])))
  }

  lemma EmptyKey(key: Key, path: string)
    requires key.values == [] && key.subs == []
    ensures Records(key, path) == []
  {
  }

  lemma NothingFound(names: seq<string>, path: string, i: nat, j: nat, name: string)
    requires i < j < |names| && EqualFold(names[i], names[j])
    ensures Branch(OnlyAt(names, j), path, name) == []
  {
    var root := OnlyAt(names, j);
    var r := FindSubkey(root.subs, name);
    if 0 <= r {
      if r == j { assert EqualFold(root.subs[i].name, name); }
      EmptyKey(root.subs[r], path + "\\" + name);
    }
  }

  lemma {:induction false} AllFoundEmpty(names: seq<string>, path: string, i: nat, j: nat, listed: seq<string>)
    requires i < j < |names| && EqualFold(names[i], names[j])
    ensures All(Branches(OnlyAt(names, j), path, listed)) == multiset{}
    decreases |listed|
  {
    if listed != [] {
      assert listed == [listed[0]] + listed[1..];
      ListedBranch(OnlyAt(names, j), path, listed[0], listed[1..]);
      NothingFound(names, path, i, j, listed[0]);
      AllFoundEmpty(names, path, i, j, listed[1..]);
    }
  }

  lemma {:induction false} RecordsReach(subs: seq<Key>, path: string, j: nat)
    requires j < |subs| && subs[j].name != "" && Records(subs[j], path + "\\" + subs[j].name) != []
    ensures RecordsOfAll(subs, path) != []
  {
    if j > 0 { RecordsReach(subs[1..], path, j - 1); }
  }

  /** The value under the later of two names that fold together is lost: the lookup finds the earlier key. */
  lemma LaterNameIsLost(names: seq<string>, path: string, i: nat, j: nat)
    requires i < j < |names| && names[j] != "" && EqualFold(names[i], names[j])
    requires !ShouldSkip(path + "\\" + names[j])
    ensures HiveRecords(OnlyAt(names, j), path) != PlainRecords(OnlyAt(names, j), path)
  {
    var root := OnlyAt(names, j);
    AllFoundEmpty(names, path, i, j, Names(root.subs));
    assert |Records(root.subs[j], path + "\\" + names[j])| >= 1;
    RecordsReach(root.subs, path, j);
    assert HiveRecords(root, path) == multiset{};
    assert RecordsOfAll(root.subs, path)[0] in PlainRecords(root, path);
  }

  /** Walking lists every value once, whatever the keys with these top-level names hold. */
  ghost predicate AlwaysPlain(names: seq<string>, path: string) {
    forall root: Key :: HasNames(root.subs, names) ==> HiveRecords(root, path) == PlainRecords(root, path)
  }

  /** That is so exactly when no listed name repeats an earlier one but for case. */
  lemma AlwaysPlainExactly(names: seq<string>, path: string)
    ensures AlwaysPlain(names, path) <==> Apart(names, path)
  {
    if Apart(names, path) {
      forall root: Key | HasNames(root.subs, names) ensures HiveRecords(root, path) == PlainRecords(root, path) {
        ApartIsPlain(root, path, names);
      }
    } else {
      var i, j :| 0 <= i < j < |names| && names[j] != "" && EqualFold(names[i], names[j])
                  && !ShouldSkip(path + "\\" + names[j]);
      LaterNameIsLost(names, path, i, j);
      assert HasNames(OnlyAt(names, j).subs, names);
    }
  }

  // ---------------------------------------------------------------- which records a key has

  /** A key with its path. */
  datatype Stop = Stop(key: Key, path: string)

  ghost predicate LeadsTo(a: Stop, b: Stop) {
    b.key in a.key.subs && b.key.name != "" && b.path == a.path + "\\" + b.key.name
  }

  /** A way down from key to named child, no path of which is skipped. */
  ghost predicate Way(stops: seq<Stop>) {
    && (forall i, j :: 0 <= i && j == i + 1 < |stops| ==> LeadsTo(stops[i], stops[j]))
    && forall s <- stops :: !ShouldSkip(s.path)
  }

  /** Some listed part stands somewhere in the path, whatever its case. */
  ghost predicate PartOf(path: string, part: string) {
    exists before, after :: ToUpper(path) == before + part + after
  }

  lemma ContainsExactly(s: string, part: string)
    ensures Contains(s, part) <==> exists before, after :: s == before + part + after
  {
    if Contains(s, part) {
      var i :| 0 <= i <= |s| && part <= s[i..];
      assert s == s[..i] + part + s[i + |part|..];
    }
    if before, after :| s == before + part + after {
      assert part <= s[|before|..] == part + after;
    }
  }

  /** A path is skipped exactly when it holds one of the listed parts. */
  lemma SkippedExactly(path: string)
    ensures ShouldSkip(path) <==> exists part <- SKIPPED :: PartOf(path, part)
  {
    forall part <- SKIPPED ensures Contains(ToUpper(path), part) <==> PartOf(path, part) {
      ContainsExactly(ToUpper(path), part);
    }
  }

  /** The record stands for one of the values of this key. */
  ghost predicate RecordOf(s: Stop, r: Record) {
    exists v <- s.key.values ::
      r.k == s.path && r.n == v.name && r.t == v.kind && r.v == "" && r.h == v.hash && r.size == v.size
  }

  ghost predicate WayFrom(s: Stop, stops: seq<Stop>, r: Record) {
    stops != [] && Way(stops) && stops[0] == s && RecordOf(stops[|stops| - 1], r)
  }

  ghost predicate Below(s: Stop, r: Record) {
    exists stops :: WayFrom(s, stops, r)
  }

  lemma EmittedExactly(key: Key, path: string, r: Record)
    ensures r in Emitted(key.values, path) <==> RecordOf(Stop(key, path), r)
  {
    if RecordOf(Stop(key, path), r) {
      var v :| v in key.values && r == Record(path, v.name, v.kind, "", v.hash, v.size);
      var i :| 0 <= i < |key.values| && key.values[i] == v;
      assert Emitted(key.values, path)[i] == r;
    }
  }

  lemma {:induction false} OfSomeSub(subs: seq<Key>, path: string, r: Record)
    ensures r in RecordsOfAll(subs, path)
       <==> exists s <- subs :: s.name != "" && r in Records(s, path + "\\" + s.name)
  {
    if subs != [] {
      OfSomeSub(subs[1..], path, r);
      assert subs == [subs[0]] + subs[1..];
    }
  }

  lemma WayOn(s: Stop, stops: seq<Stop>, r: Record)
    requires !ShouldSkip(s.path) && stops != [] && LeadsTo(s, stops[0])
    ensures WayFrom(stops[0], stops, r) <==> WayFrom(s, [s] + stops, r)
  {
    var all := [s] + stops;
    assert all[1..] == stops && all[|all| - 1] == stops[|stops| - 1];
    if WayFrom(s, all, r) {
      forall i, j | 0 <= i && j == i + 1 < |stops| ensures LeadsTo(stops[i], stops[j]) {
        assert LeadsTo(all[i + 1], all[j + 1]);
      }
      forall x <- stops ensures !ShouldSkip(x.path) { assert x in all; }
    }
  }

  /** A way that goes on goes on through a child. */
  lemma WayBegins(s: Stop, stops: seq<Stop>, r: Record)
    requires WayFrom(s, stops, r) && 1 < |stops|
    ensures LeadsTo(s, stops[1]) && Below(stops[1], r)
  {
    assert LeadsTo(stops[0], stops[1]);
    assert stops == [s] + stops[1..] && s in stops;
    WayOn(s, stops[1..], r);
  }

  lemma BelowChild(s: Stop, child: Stop, r: Record)
    requires !ShouldSkip(s.path) && LeadsTo(s, child) && Below(child, r)
    ensures Below(s, r)
  {
    var stops :| WayFrom(child, stops, r);
    WayOn(s, stops, r);
  }

  lemma BelowItself(s: Stop, r: Record)
    requires !ShouldSkip(s.path) && RecordOf(s, r)
    ensures Below(s, r)
  {
    assert WayFrom(s, [s], r);
  }

  lemma BelowSomething(s: Stop, r: Record) returns (child: Stop)
    requires Below(s, r)
    ensures !ShouldSkip(s.path)
    ensures RecordOf(s, r) || (LeadsTo(s, child) && Below(child, r))
  {
    var stops :| WayFrom(s, stops, r);
    assert stops[0] in stops;
    if 1 < |stops| {
      child := stops[1];
      WayBegins(s, stops, r);
    } else {
      child := s;
    }
  }

  /** The records of a key are exactly those of the values on the ways down from it. */
  lemma {:induction false} RecordsExactly(key: Key, path: string, r: Record)
    ensures r in Records(key, path) <==> Below(Stop(key, path), r)
    decreases key
  {
    var s := Stop(key, path);
    EmittedExactly(key, path, r);
    OfSomeSub(key.subs, path, r);
    forall c <- key.subs ensures r in Records(c, path + "\\" + c.name) <==> Below(Stop(c, path + "\\" + c.name), r) {
      RecordsExactly(c, path + "\\" + c.name, r);
    }
    if r in Records(key, path) {
      if RecordOf(s, r) {
        BelowItself(s, r);
      } else {
        var c :| c in key.subs && c.name != "" && r in Records(c, path + "\\" + c.name);
        BelowChild(s, Stop(c, path + "\\" + c.name), r);
      }
    }
    if Below(s, r) { var child := BelowSomething(s, r); }
  }
}
