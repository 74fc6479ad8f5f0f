/** Exactly which info texts and names a flow keeps: both are remembered in one set, names under a tag. */
module FlowTexts {
  import opened Basics
  import opened FlowIds
  import opened FlowAggregate

  lemma TagInjective(a: string, b: string)
    requires Tag(a) == Tag(b)
    ensures a == b
  {
    assert a == Tag(a)[2..] && b == Tag(b)[2..];
  }

  /** Some packet of the flow carries the name. */
  ghost predicate Named(ps: seq<Packet>, n: string) {
    n != "" && exists p <- ps :: n in p.names
  }

  function JoinTexts(texts: seq<string>): string {
    if texts == [] then ""
    else if |texts| == 1 then texts[0]
    else JoinTexts(texts[..|texts| - 1]) + " \U{C2}\U{B7} " + texts[|texts| - 1]
  }

  /** The text is the tag of a name one of the packets carries. */
  ghost predicate TagsName(ps: seq<Packet>, text: string) {
    exists n :: Named(ps, n) && text == Tag(n)
  }

  /** The texts a flow takes: in order, each once, while there is room, and none that is a tag already in use. */
  ghost function TakenTexts(ps: seq<Packet>): seq<string> {
    if ps == [] then []
    else
      var front, text := ps[..|ps| - 1], ps[|ps| - 1].info;
      var before := TakenTexts(front);
      if text != "" && |JoinTexts(before)| < 400 && text !in before && !TagsName(front, text) then before + [text]
      else before
  }

  /** The tally keeps these texts and these names, and remembers just them. */
  ghost predicate Exact(a: Tally, ps: seq<Packet>) {
    var texts := TakenTexts(ps);
    && a.info == JoinTexts(texts) && "" !in texts
    && (forall s :: s in a.seen <==> s in texts || TagsName(ps, s))
    && (forall n :: n in a.names <==> Named(ps, n) && Tag(n) !in texts)
    && Distinct(a.names)
  }

  lemma TextsOneMore(ps: seq<Packet>, p: Packet)
    ensures var before := TakenTexts(ps);
            TakenTexts(ps + [p])
            == if p.info != "" && |JoinTexts(before)| < 400 && p.info !in before && !TagsName(ps, p.info)
               then before + [p.info] else before
  {
    assert (ps + [p])[..|ps|] == ps;
  }

  lemma NamedOneMore(ps: seq<Packet>, p: Packet, n: string)
    ensures Named(ps + [p], n) <==> Named(ps, n) || (n != "" && n in p.names)
  {
    var all := ps + [p];
    assert p in all;
    if q :| q in ps && n in q.names { assert q in all; }
  }

  lemma TagsOneMore(ps: seq<Packet>, p: Packet, s: string)
    ensures TagsName(ps + [p], s) <==> TagsName(ps, s) || exists n :: n != "" && n in p.names && s == Tag(n)
  {
    forall n ensures Named(ps + [p], n) <==> Named(ps, n) || (n != "" && n in p.names) { NamedOneMore(ps, p, n); }
  }

  lemma JoinOneMore(texts: seq<string>, t: string)
    requires "" !in texts && t != ""
    ensures JoinTexts(texts + [t]) == Joined(JoinTexts(texts), t)
    ensures JoinTexts(texts) == "" <==> texts == []
  {
    assert (texts + [t])[..|texts|] == texts;
    if texts != [] {
      assert texts[|texts| - 1] in texts;
      assert |JoinTexts(texts)| >= |texts[|texts| - 1]|;
    }
  }

  /** Taking names: exactly the new ones, and their tags are remembered. */
  lemma {:induction false} TakeNamesExactly(seen: set<string>, taken: seq<string>, ns: seq<string>)
    requires Distinct(taken) && forall n <- taken :: Tag(n) in seen
    ensures var r := TakeNames(seen, taken, ns);
            && (forall s :: s in r.0 <==> s in seen || exists n :: n != "" && n in ns && s == Tag(n))
            && (forall n :: n in r.1 <==> n in taken || (n != "" && n in ns && Tag(n) !in seen))
            && Distinct(r.1)
    decreases |ns|
  {
    if ns != [] {
      var n := ns[0];
      assert ns == [n] + ns[1..];
      if n == "" || Tag(n) in seen {
        TakeNamesExactly(seen, taken, ns[1..]);
      } else {
        TakeNamesExactly(seen + {Tag(n)}, taken + [n], ns[1..]);
        forall m | Tag(m) == Tag(n) ensures m == n { TagInjective(m, n); }
      }
    }
  }

  lemma TagsNameOf(ps: seq<Packet>, n: string)
    requires n != ""
    ensures TagsName(ps, Tag(n)) <==> Named(ps, n)
  {
    if m :| Named(ps, m) && Tag(n) == Tag(m) { TagInjective(n, m); }
  }

  /** The set after the packet's text was looked at. */
  ghost function SeenAfterText(a: Tally, p: Packet): set<string> {
    if TakesInfo(a.seen, a.info, p.info) then a.seen + {p.info} else a.seen
  }

  lemma TextStep(a: Tally, ps: seq<Packet>, p: Packet)
    requires Exact(a, ps)
    ensures var texts := TakenTexts(ps + [p]);
            && Step(a, p).info == JoinTexts(texts) && "" !in texts
            && (forall s :: s in SeenAfterText(a, p) <==> s in texts || TagsName(ps, s))
            && (forall n <- a.names :: Tag(n) !in texts)
  {
    TextsOneMore(ps, p);
    if TakesInfo(a.seen, a.info, p.info) { JoinOneMore(TakenTexts(ps), p.info); }
    forall n | n in a.names ensures Tag(n) !in TakenTexts(ps + [p]) {
      TagsNameOf(ps, n);
      assert Tag(n) in a.seen;
    }
  }

  lemma NameStep(a: Tally, ps: seq<Packet>, p: Packet)
    requires Exact(a, ps)
    ensures var texts := TakenTexts(ps + [p]);
            && (forall s :: s in Step(a, p).seen <==> s in texts || TagsName(ps + [p], s))
            && (forall n :: n in Step(a, p).names <==> Named(ps + [p], n) && Tag(n) !in texts)
            && Distinct(Step(a, p).names)
  {
    TextStep(a, ps, p);
    var texts, seen := TakenTexts(ps + [p]), SeenAfterText(a, p);
    forall n | n in a.names ensures Tag(n) in seen { TagsNameOf(ps, n); }
    TakeNamesExactly(seen, a.names, p.names);
    StepNames(a, p);
    forall s ensures s in Step(a, p).seen <==> s in texts || TagsName(ps + [p], s) { TagsOneMore(ps, p, s); }
    forall n ensures n in Step(a, p).names <==> Named(ps + [p], n) && Tag(n) !in texts {
      NamedOneMore(ps, p, n);
      if n != "" { TagsNameOf(ps, n); }
    }
  }

  lemma StepNames(a: Tally, p: Packet)
    ensures (Step(a, p).seen, Step(a, p).names) == TakeNames(SeenAfterText(a, p), a.names, p.names)
  {
  }

  lemma ExactOneMore(a: Tally, ps: seq<Packet>, p: Packet)
    requires Exact(a, ps)
    ensures Exact(Step(a, p), ps + [p])
  {
    TextStep(a, ps, p);
    NameStep(a, ps, p);
  }

  lemma ExactStart(p: Packet)
    ensures Exact(Start(p), []) && Exact(Total([]), [])
  {
  }

  lemma {:induction false} ExactBy(ps: seq<Packet>, total: seq<Packet> -> Tally)
    requires Tallies(total) && ps != []
    ensures Exact(total(ps), ps)
  {
    var front, p := ps[..|ps| - 1], ps[|ps| - 1];
    assert ps == front + [p];
    if front == [] { ExactStart(p); } else { ExactBy(front, total); }
    ExactOneMore(if front == [] then Start(p) else total(front), front, p);
  }

  lemma TotalIsExact(ps: seq<Packet>)
    ensures Exact(Total(ps), ps)
  {
    if ps == [] {
      ExactStart(Packet(None, "", "", "", 0, 0, "", 0, 0, "", []));
    } else {
      TotalTallies();
      ExactBy(ps, Total);
    }
  }

  /** The info line joins exactly the texts the flow takes, in order. */
  lemma InfoExact(ps: seq<Packet>)
    ensures Total(ps).info == JoinTexts(TakenTexts(ps))
  {
    TotalIsExact(ps);
  }

  /** Before any packet carries the name, one has its tag as a text, and there is still room for it. */
  ghost predicate HiddenAt(ps: seq<Packet>, n: string, i: nat) {
    i < |ps| && ps[i].info == Tag(n) && |Total(ps[..i]).info| < 400 && !Named(ps[..i], n)
  }

  ghost predicate Hidden(ps: seq<Packet>, n: string) {
    exists i: nat :: HiddenAt(ps, n, i)
  }

  lemma HiddenOneMore(ps: seq<Packet>, p: Packet, n: string)
    ensures Hidden(ps + [p], n) <==> Hidden(ps, n) || HiddenAt(ps + [p], n, |ps|)
  {
    var all := ps + [p];
    if i: nat :| HiddenAt(all, n, i) { SamePrefix(ps, p, n, i); }
    if i: nat :| HiddenAt(ps, n, i) { SamePrefix(ps, p, n, i); }
  }

  lemma SamePrefix(ps: seq<Packet>, p: Packet, n: string, i: nat)
    ensures i < |ps| ==> (HiddenAt(ps + [p], n, i) <==> HiddenAt(ps, n, i))
  {
    if i < |ps| { assert (ps + [p])[..i] == ps[..i]; }
  }

  /** A name's tag is taken as a text exactly when the name is hidden. */
  lemma {:induction false} TagTakenExactly(ps: seq<Packet>, n: string)
    requires n != ""
    ensures Tag(n) in TakenTexts(ps) <==> Hidden(ps, n)
  {
    if ps != [] {
      var front, p := ps[..|ps| - 1], ps[|ps| - 1];
      assert ps == front + [p] && ps[..|front|] == front;
      TagTakenExactly(front, n);
      TextsOneMore(front, p);
      InfoExact(front);
      TagsNameOf(front, n);
      HiddenOneMore(front, p, n);
    }
  }

  /** The names of a flow are distinct, and are exactly the non-empty names its packets carry that are not hidden. */
  lemma NamesExact(ps: seq<Packet>)
    ensures Distinct(Total(ps).names)
    ensures forall n :: n in Total(ps).names <==> Named(ps, n) && !Hidden(ps, n)
  {
    TotalIsExact(ps);
    forall n ensures n in Total(ps).names <==> Named(ps, n) && !Hidden(ps, n) {
      if n != "" { TagTakenExactly(ps, n); }
    }
  }

  /** Some of these, in their order. */
  ghost predicate Subsequence(part: seq<string>, whole: seq<string>) {
    if part == [] then true
    else
      whole != [] && (Subsequence(part, whole[1..])
                      || (part[0] == whole[0] && Subsequence(part[1..], whole[1..])))
  }

  lemma {:induction false} TakenInOrder(seen: set<string>, taken: seq<string>, ns: seq<string>)
    ensures var r := TakeNames(seen, taken, ns).1; taken <= r && Subsequence(r[|taken|..], ns)
    decreases |ns|
  {
    if ns != [] {
      var n := ns[0];
      if n == "" || Tag(n) in seen {
        TakenInOrder(seen, taken, ns[1..]);
      } else {
        TakenInOrder(seen + {Tag(n)}, taken + [n], ns[1..]);
        var r := TakeNames(seen + {Tag(n)}, taken + [n], ns[1..]).1;
        assert r[|taken|..] == [n] + r[|taken| + 1..];
      }
    }
  }

  /** One packet more leaves the names as they are and puts its own behind them, in its order. */
  lemma NamesInOrder(ps: seq<Packet>, p: Packet)
    requires ps != []
    ensures var before, after := Total(ps).names, Total(ps + [p]).names;
            before <= after && Subsequence(after[|before|..], p.names)
  {
    TotalTallies();
    StepNames(Total(ps), p);
    TakenInOrder(SeenAfterText(Total(ps), p), Total(ps).names, p.names);
    assert Total(ps + [p]) == Step(Total(ps), p);
  }

  /** Hiding does happen: an info text spelled like the tag of a packet's only name hides it. */
  lemma InfoCanHideAName(p: Packet, name: string)
    requires p.info == "n:" + name && p.names == [name]
    ensures name !in Total([p]).names
  {
    NamesExact([p]);
    assert [p][..0] == [];
    assert HiddenAt([p], name, 0);
  }
}
