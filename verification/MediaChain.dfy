/** The chain of disk images behind a snapshot: hard disks registered from a forest, then followed from a leaf
    towards its base. */
module MediaChain {
  import opened Basics
  import opened Text

  /** A registered hard disk with its differencing children. */
  datatype Disk = Disk(uuid: string, location: string, children: seq<Disk>)

  /** `parent` is the parent's identifier, empty at a base disk. */
  datatype Medium = Medium(path: string, parent: string)

  function Canonical(uuid: string): string {
    ToLower(TrimBraces(uuid))
  }

  // ---------------------------------------------------------------- following a chain

  /** The identifiers visited from `uuid` on, stopping at the base, at an unregistered medium, or at one seen. */
  ghost function Visited(media: map<string, Medium>, uuid: string, seen: set<string>): seq<string>
    decreases media.Keys - seen
  {
    if uuid == "" || uuid in seen || uuid !in media then []
    else
      assert uuid in media.Keys - seen;
      [uuid] + Visited(media, media[uuid].parent, seen + {uuid})
  }

  function Paths(media: map<string, Medium>, uuids: seq<string>): seq<string>
    requires forall u <- uuids :: u in media
  {
    if uuids == [] then []
    else (if media[uuids[0]].path != "" then [media[uuids[0]].path] else []) + Paths(media, uuids[1..])
  }

  /** What a walk visits, whatever the map: registered media, each once, each the parent of the one before;
      and it ends only at a base, at an unregistered medium, or where a cycle closes. */
  lemma {:induction false} VisitedIsPath(media: map<string, Medium>, uuid: string, seen: set<string>)
    ensures var v := Visited(media, uuid, seen);
            && Distinct(v) && (forall u <- v :: u in media && u !in seen)
            && (v != [] ==> v[0] == uuid)
            && (forall i :: 0 <= i < |v| - 1 ==> media[v[i]].parent == v[i + 1])
            && var next := if v == [] then uuid else media[v[|v| - 1]].parent;
               next == "" || next !in media || next in seen || next in v
    decreases media.Keys - seen
  {
    if uuid != "" && uuid !in seen && uuid in media {
      assert uuid in media.Keys - seen;
      VisitedIsPath(media, media[uuid].parent, seen + {uuid});
    }
  }

  /** The paths still to come from `uuid` on. */
  ghost function Ahead(media: map<string, Medium>, uuid: string, seen: set<string>): seq<string> {
    VisitedIsPath(media, uuid, seen);
    Paths(media, Visited(media, uuid, seen))
  }

  lemma AheadStep(media: map<string, Medium>, uuid: string, seen: set<string>)
    ensures uuid == "" || uuid in seen || uuid !in media ==> Ahead(media, uuid, seen) == []
    ensures uuid != "" && uuid !in seen && uuid in media ==>
              var m := media[uuid];
              Ahead(media, uuid, seen)
              == (if m.path != "" then [m.path] else []) + Ahead(media, m.parent, seen + {uuid})
  {
    if uuid != "" && uuid !in seen && uuid in media {
      var rest := Visited(media, media[uuid].parent, seen + {uuid});
      VisitedIsPath(media, uuid, seen);
      VisitedIsPath(media, media[uuid].parent, seen + {uuid});
      assert ([uuid] + rest)[1..] == rest;
    }
  }

  /** Terminates on every map, cyclic or not, with the paths of the media it visits. */
  method FollowChain(leaf: string, media: map<string, Medium>) returns (paths: seq<string>)
    ensures paths == Ahead(media, Canonical(leaf), {})
  {
    var seen := {};
    var uuid := Canonical(leaf);
    paths := [];
    while uuid != "" && uuid !in seen
      invariant paths + Ahead(media, uuid, seen) == Ahead(media, Canonical(leaf), {})
      decreases media.Keys - seen
    {
      AheadStep(media, uuid, seen);
      if uuid !in media { return; }
      assert uuid in media.Keys - seen;
      seen := seen + {uuid};
      var info := media[uuid];
      if info.path != "" { paths := paths + [info.path]; }
      uuid := info.parent;
    }
    AheadStep(media, uuid, seen);
  }

  // ---------------------------------------------------------------- registering a forest

  /** A disk with an identifier, and the nearest identifier above it. */
  datatype Visit = Visit(name: string, location: string, parent: string)

  function Visits(disks: seq<Disk>, parent: string): seq<Visit> {
    if disks == [] then []
    else
      var d := disks[0];
      var name := Canonical(d.uuid);
      (if name == "" then Visits(d.children, parent) else [Visit(name, d.location, parent)] + Visits(d.children, name))
      + Visits(disks[1..], parent)
  }

  function Register(media: map<string, Medium>, v: Visit, resolve: string -> string): map<string, Medium> {
    if v.location == "" then media else media[v.name := Medium(resolve(v.location), v.parent)]
  }

  function RegisterAll(media: map<string, Medium>, visits: seq<Visit>, resolve: string -> string): map<string, Medium>
    decreases |visits|
  {
    if visits == [] then media
    else RegisterAll(Register(media, visits[0], resolve), visits[1..], resolve)
  }

  lemma {:induction false} RegisterConcat(media: map<string, Medium>, a: seq<Visit>, b: seq<Visit>,
                                          resolve: string -> string)
    ensures RegisterAll(media, a + b, resolve) == RegisterAll(RegisterAll(media, a, resolve), b, resolve)
    decreases |a|
  {
    if a == [] {
      assert a + b == b;
    } else {
      assert (a + b)[1..] == a[1..] + b;
      RegisterConcat(Register(media, a[0], resolve), a[1..], b, resolve);
    }
  }

  /** The shared map the walk fills in. */
  class Registry {
    var media: map<string, Medium>

    constructor ()
      ensures media == map[]
    {
      media := map[];
    }

    method Walk(disks: seq<Disk>, parent: string, resolve: string -> string)
      modifies this
      ensures media == RegisterAll(old(media), Visits(disks, parent), resolve)
    {
      for i := 0 to |disks|
        invariant RegisterAll(media, Visits(disks[i..], parent), resolve)
               == RegisterAll(old(media), Visits(disks, parent), resolve)
      {
        var d := disks[i];
        var name := Canonical(d.uuid);
        ghost var before := media;
        if name != "" && d.location != "" {
          media := media[name := Medium(resolve(d.location), parent)];
        }
        var nextParent := if name == "" then parent else name;
        Walk(d.children, nextParent, resolve);
        WalkedOne(before, disks[i..], parent, resolve);
        assert disks[i..][1..] == disks[i + 1..];
      }
    }
  }

  lemma WalkedOne(media: map<string, Medium>, disks: seq<Disk>, parent: string, resolve: string -> string)
    requires disks != []
    ensures var d := disks[0];
            var name := Canonical(d.uuid);
            var put := if name == "" then media else Register(media, Visit(name, d.location, parent), resolve);
            var below := RegisterAll(put, Visits(d.children, if name == "" then parent else name), resolve);
            RegisterAll(media, Visits(disks, parent), resolve)
            == RegisterAll(below, Visits(disks[1..], parent), resolve)
  {
    var d := disks[0];
    var name := Canonical(d.uuid);
    var rest := Visits(disks[1..], parent);
    if name == "" {
      RegisterConcat(media, Visits(d.children, parent), rest, resolve);
    } else {
      var first := [Visit(name, d.location, parent)] + Visits(d.children, name);
      RegisterConcat(media, first, rest, resolve);
      assert first[1..] == Visits(d.children, name);
    }
  }

  // ---------------------------------------------------------------- the lineage in the forest

  function NamesOf(visits: seq<Visit>): (names: seq<string>)
    ensures |names| == |visits| && forall i :: 0 <= i < |visits| ==> names[i] == visits[i].name
  {
    seq(|visits|, i requires 0 <= i < |visits| => visits[i].name)
  }

  /** Identifiers are unique in the forest; disks without one do not count. */
  ghost predicate UniqueNames(visits: seq<Visit>) {
    Distinct(NamesOf(visits))
  }

  function Top(trail: seq<Disk>): string {
    if trail == [] then "" else Canonical(trail[0].uuid)
  }

  /** The identified disks from the one called `name` up to its root, found by searching the forest itself. */
  function Find(disks: seq<Disk>, name: string, above: seq<Disk>): Option<seq<Disk>> {
    if disks == [] then None
    else
      var d := disks[0];
      var own := Canonical(d.uuid);
      if own != "" && own == name then Some([d] + above)
      else
        var below := Find(d.children, name, if own == "" then above else [d] + above);
        if below.Some? then below else Find(disks[1..], name, above)
  }

  /** Their paths, cut at the first disk that names no location. */
  function Lineage(trail: seq<Disk>, resolve: string -> string): seq<string> {
    if trail == [] || trail[0].location == "" then []
    else
      var path := resolve(trail[0].location);
      (if path != "" then [path] else []) + Lineage(trail[1..], resolve)
  }

  function VisitOf(trail: seq<Disk>): Visit
    requires trail != []
  {
    Visit(Top(trail), trail[0].location, Top(trail[1..]))
  }

  // ---------------------------------------------------------------- registration is exact

  lemma {:induction false} Untouched(media: map<string, Medium>, visits: seq<Visit>, name: string,
                                     resolve: string -> string)
    requires forall v <- visits :: v.name != name
    ensures var after := RegisterAll(media, visits, resolve);
            (name in after <==> name in media) && (name in media ==> after[name] == media[name])
    decreases |visits|
  {
    if visits != [] {
      assert visits[0] in visits;
      assert forall v <- visits[1..] :: v in visits;
      Untouched(Register(media, visits[0], resolve), visits[1..], name, resolve);
    }
  }

  lemma {:induction false} RegisteredExactly(media: map<string, Medium>, visits: seq<Visit>, v: Visit,
                                             resolve: string -> string)
    requires UniqueNames(visits) && v in visits && v.name !in media
    ensures var after := RegisterAll(media, visits, resolve);
            if v.location == "" then v.name !in after
            else v.name in after && after[v.name] == Medium(resolve(v.location), v.parent)
    decreases |visits|
  {
    var first, rest := visits[0], visits[1..];
    TailUnique(visits);
    if v == first {
      Untouched(Register(media, first, resolve), rest, v.name, resolve);
    } else {
      RegisteredExactly(Register(media, first, resolve), rest, v, resolve);
    }
  }

  lemma TailUnique(visits: seq<Visit>)
    requires visits != [] && UniqueNames(visits)
    ensures UniqueNames(visits[1..]) && forall v <- visits[1..] :: v.name != visits[0].name
  {
    var names := NamesOf(visits);
    assert forall i :: 0 <= i < |visits| - 1 ==> NamesOf(visits[1..])[i] == names[i + 1];
    forall v | v in visits[1..] ensures v.name != visits[0].name {
      var i :| 0 <= i < |visits| - 1 && visits[1..][i] == v;
      assert names[0] != names[i + 1];
    }
  }

  // ---------------------------------------------------------------- the trail is what was visited

  /** From its first disk up to `above`, every disk of the trail was visited under the one above it. */
  ghost predicate Climbs(trail: seq<Disk>, above: seq<Disk>, visits: seq<Visit>) {
    trail == above
    || (|trail| > |above| && Top(trail) != "" && VisitOf(trail) in visits && Climbs(trail[1..], above, visits))
  }

  lemma {:induction false} ClimbsOn(trail: seq<Disk>, middle: seq<Disk>, above: seq<Disk>, below: seq<Visit>,
                                    visits: seq<Visit>)
    requires Climbs(trail, middle, below) && (forall v <- below :: v in visits)
    requires middle == above || (middle != [] && middle[1..] == above && Top(middle) != "" && VisitOf(middle) in visits)
    ensures Climbs(trail, above, visits) && |trail| >= |middle|
  {
    if trail != middle { ClimbsOn(trail[1..], middle, above, below, visits); }
  }

  /** Searching the forest finds exactly the visited names, and the trail it returns climbs to where it began. */
  lemma {:induction false} FindClimbs(disks: seq<Disk>, name: string, above: seq<Disk>)
    requires name != ""
    ensures var visits := Visits(disks, Top(above));
            match Find(disks, name, above)
            case None => forall v <- visits :: v.name != name
            case Some(t) => |t| > |above| && Top(t) == name && Climbs(t, above, visits)
  {
    if disks != [] {
      var d := disks[0];
      var own := Canonical(d.uuid);
      var visits := Visits(disks, Top(above));
      FindClimbs(disks[1..], name, above);
      if own == "" {
        FindClimbs(d.children, name, above);
        var found := Find(disks, name, above);
        if found.Some? {
          var part := if Find(d.children, name, above).Some? then Visits(d.children, Top(above))
                      else Visits(disks[1..], Top(above));
          ClimbsOn(found.value, above, above, part, visits);
        }
      } else {
        var middle := [d] + above;
        assert middle[1..] == above && Top(middle) == own;
        assert VisitOf(middle) == Visit(own, d.location, Top(above));
        FindClimbs(d.children, name, middle);
        FindUnder(disks, name, above);
      }
    }
  }

  lemma FindUnder(disks: seq<Disk>, name: string, above: seq<Disk>)
    requires name != "" && disks != [] && Canonical(disks[0].uuid) != ""
    requires var middle := [disks[0]] + above;
             match Find(disks[0].children, name, middle)
             case None => forall v <- Visits(disks[0].children, Top(middle)) :: v.name != name
             case Some(t) => |t| > |middle| && Top(t) == name
                             && Climbs(t, middle, Visits(disks[0].children, Top(middle)))
    requires match Find(disks[1..], name, above)
             case None => forall v <- Visits(disks[1..], Top(above)) :: v.name != name
             case Some(t) => |t| > |above| && Top(t) == name && Climbs(t, above, Visits(disks[1..], Top(above)))
    ensures var visits := Visits(disks, Top(above));
            match Find(disks, name, above)
            case None => forall v <- visits :: v.name != name
            case Some(t) => |t| > |above| && Top(t) == name && Climbs(t, above, visits)
  {
    var d := disks[0];
    var own := Canonical(d.uuid);
    var middle := [d] + above;
    var visits := Visits(disks, Top(above));
    assert middle[1..] == above && Top(middle) == own;
    var head := Visit(own, d.location, Top(above));
    assert VisitOf(middle) == head;
    assert visits == [head] + Visits(d.children, own) + Visits(disks[1..], Top(above));
    assert head in visits;
    if own == name {
      assert Climbs(middle, above, visits);
    } else if Find(d.children, name, middle).Some? {
      ClimbsOn(Find(d.children, name, middle).value, middle, above, Visits(d.children, own), visits);
    } else if Find(disks[1..], name, above).Some? {
      ClimbsOn(Find(disks[1..], name, above).value, above, above, Visits(disks[1..], Top(above)), visits);
    }
  }

  // ---------------------------------------------------------------- a trail names no disk twice

  function TrailNames(trail: seq<Disk>): set<string> {
    set d | d in trail :: Canonical(d.uuid)
  }

  ghost predicate NoRepeat(trail: seq<Disk>) {
    trail == [] || (Top(trail) !in TrailNames(trail[1..]) && NoRepeat(trail[1..]))
  }

  lemma PartsUnique(a: seq<Visit>, b: seq<Visit>)
    requires UniqueNames(a + b)
    ensures UniqueNames(a) && UniqueNames(b) && forall v <- a, w <- b :: v.name != w.name
  {
    var all := NamesOf(a + b);
    assert forall i :: 0 <= i < |a| ==> NamesOf(a)[i] == all[i];
    assert forall i :: 0 <= i < |b| ==> NamesOf(b)[i] == all[|a| + i];
    forall v, w | v in a && w in b ensures v.name != w.name {
      var i :| 0 <= i < |a| && a[i] == v;
      var j :| 0 <= j < |b| && b[j] == w;
      assert all[i] != all[|a| + j];
    }
  }

  ghost predicate Apart(visits: seq<Visit>, trail: seq<Disk>) {
    UniqueNames(visits) && NoRepeat(trail) && forall v <- visits :: v.name !in TrailNames(trail)
  }

  lemma PartsApart(a: seq<Visit>, b: seq<Visit>, trail: seq<Disk>)
    requires Apart(a + b, trail)
    ensures Apart(a, trail) && Apart(b, trail)
  {
    PartsUnique(a, b);
    assert forall v <- a :: v in a + b;
    assert forall v <- b :: v in a + b;
  }

  /** One named disk more on the trail, and its visit no longer ahead. */
  lemma HeadApart(d: Disk, below: seq<Visit>, trail: seq<Disk>)
    requires Apart([Visit(Canonical(d.uuid), d.location, Top(trail))] + below, trail)
    ensures Apart(below, [d] + trail)
  {
    var head := Visit(Canonical(d.uuid), d.location, Top(trail));
    PartsApart([head], below, trail);
    PartsUnique([head], below);
    assert head in [head] + below && head in [head];
    assert ([d] + trail)[1..] == trail && Top([d] + trail) == head.name;
    assert TrailNames([d] + trail) == {head.name} + TrailNames(trail);
  }

  lemma {:induction false} FindNoRepeat(disks: seq<Disk>, name: string, above: seq<Disk>)
    requires Apart(Visits(disks, Top(above)), above)
    ensures Find(disks, name, above).Some? ==> NoRepeat(Find(disks, name, above).value)
  {
    if disks != [] {
      var d := disks[0];
      var own := Canonical(d.uuid);
      var rest := Visits(disks[1..], Top(above));
      if own == "" {
        PartsApart(Visits(d.children, Top(above)), rest, above);
        FindNoRepeat(d.children, name, above);
      } else {
        var below := Visits(d.children, own);
        var head := [Visit(own, d.location, Top(above))] + below;
        PartsApart(head, rest, above);
        HeadApart(d, below, above);
        HeadNoRepeat(d, head, above);
        assert Top([d] + above) == own;
        FindNoRepeat(d.children, name, [d] + above);
      }
      FindNoRepeat(disks[1..], name, above);
    }
  }

  lemma HeadNoRepeat(d: Disk, visits: seq<Visit>, trail: seq<Disk>)
    requires Apart(visits, trail) && visits != [] && visits[0].name == Canonical(d.uuid)
    ensures NoRepeat([d] + trail)
  {
    assert visits[0] in visits;
    assert ([d] + trail)[1..] == trail && Top([d] + trail) == visits[0].name;
  }

  // ---------------------------------------------------------------- the chain is the lineage

  /** The map knows each located disk of the trail with the one above it, and none of the others. */
  ghost predicate Described(media: map<string, Medium>, trail: seq<Disk>, resolve: string -> string) {
    trail == []
    || (var v := VisitOf(trail);
        && v.name != ""
        && (if v.location == "" then v.name !in media
            else v.name in media && media[v.name] == Medium(resolve(v.location), v.parent))
        && Described(media, trail[1..], resolve))
  }

  lemma {:induction false} ClimbsDescribed(trail: seq<Disk>, visits: seq<Visit>, resolve: string -> string)
    requires Climbs(trail, [], visits) && UniqueNames(visits)
    ensures Described(RegisterAll(map[], visits, resolve), trail, resolve)
  {
    if trail != [] {
      RegisteredExactly(map[], visits, VisitOf(trail), resolve);
      ClimbsDescribed(trail[1..], visits, resolve);
    }
  }

  lemma {:induction false} FollowsTrail(media: map<string, Medium>, trail: seq<Disk>, seen: set<string>,
                                        resolve: string -> string)
    requires Described(media, trail, resolve) && NoRepeat(trail) && TrailNames(trail) !! seen
    ensures Ahead(media, Top(trail), seen) == Lineage(trail, resolve)
  {
    AheadStep(media, Top(trail), seen);
    if trail != [] && trail[0].location != "" {
      assert Top(trail) in TrailNames(trail);
      assert TrailNames(trail[1..]) <= TrailNames(trail);
      FollowsTrail(media, trail[1..], seen + {Top(trail)}, resolve);
    }
  }

  /** On a forest with unique identifiers the chain is the leaf-to-root list of ancestors, cut at the first disk
      without a location. */
  lemma ChainIsLineage(disks: seq<Disk>, leaf: string, resolve: string -> string)
    requires UniqueNames(Visits(disks, ""))
    ensures var media := RegisterAll(map[], Visits(disks, ""), resolve);
            Ahead(media, Canonical(leaf), {})
            == if Canonical(leaf) == "" then []
               else match Find(disks, Canonical(leaf), []) case None => [] case Some(t) => Lineage(t, resolve)
  {
    var name := Canonical(leaf);
    var visits := Visits(disks, "");
    var media := RegisterAll(map[], visits, resolve);
    AheadStep(media, name, {});
    if name != "" {
      FindClimbs(disks, name, []);
      FindNoRepeat(disks, name, []);
      var found := Find(disks, name, []);
      if found.Some? {
        ClimbsDescribed(found.value, visits, resolve);
        FollowsTrail(media, found.value, {}, resolve);
      } else {
        Untouched(map[], visits, name, resolve);
      }
    }
  }

  /** Reading the registry of a machine and following one leaf. */
  method SnapshotDisks(disks: seq<Disk>, leaf: string, resolve: string -> string) returns (paths: seq<string>)
    ensures UniqueNames(Visits(disks, "")) && Canonical(leaf) != "" ==>
              paths == match Find(disks, Canonical(leaf), []) case None => [] case Some(t) => Lineage(t, resolve)
  {
    var registry := new Registry();
    registry.Walk(disks, "", resolve);
    paths := FollowChain(leaf, registry.media);
    if UniqueNames(Visits(disks, "")) { ChainIsLineage(disks, leaf, resolve); }
  }
}
