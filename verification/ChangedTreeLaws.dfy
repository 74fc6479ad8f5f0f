/** What a key spells, what a node's path says, and what is shown of an entry, without the functions that compute it. */
module ChangedTreeLaws {
  import opened Basics
  import opened ChangedTree

  // ---------------------------------------------------------------- keys

  ghost predicate Slashes(s: string) {
    forall c <- s :: c == '\\'
  }

  ghost predicate IsPart(s: string) {
    s != "" && '\\' !in s
  }

  ghost predicate AllParts(p: Path) {
    forall x <- p :: IsPart(x)
  }

  /** The parts with backslashes in front of each, and `tail` at the end. */
  function Spelling(gaps: seq<string>, p: Path, tail: string): string
    requires |gaps| == |p|
  {
    if p == [] then tail else gaps[0] + (p[0] + Spelling(gaps[1..], p[1..], tail))
  }

  /** All but the first gap must be there; the first and the tail may be empty. */
  ghost predicate Separates(gaps: seq<string>) {
    (forall g <- gaps :: Slashes(g)) && forall i :: 1 <= i < |gaps| ==> gaps[i] != ""
  }

  /** The non-empty parts of a text between backslashes. */
  function PartsOf(s: string): Path {
    NonEmpty(Split(s))
  }

  lemma {:induction false} NonEmptyCons(x: string, parts: seq<string>)
    ensures NonEmpty([x] + parts) == (if x == "" then [] else [x]) + NonEmpty(parts)
    decreases |parts|
  {
    var all := [x] + parts;
    if parts == [] {
      assert all[..0] == [] && all == [x];
    } else {
      var n := |parts| - 1;
      assert all[..|all| - 1] == [x] + parts[..n];
      NonEmptyCons(x, parts[..n]);
    }
  }

  lemma SlashInFront(s: string)
    ensures PartsOf("\\" + s) == PartsOf(s)
  {
    assert ("\\" + s)[1..] == s;
    NonEmptyCons("", Split(s));
  }

  lemma {:induction false} SplitSlashBehind(s: string)
    ensures Split(s + "\\") == Split(s) + [""]
  {
    if s == "" {
      assert s + "\\" == "\\" && "\\"[1..] == "";
    } else {
      assert (s + "\\")[1..] == s[1..] + "\\";
      SplitSlashBehind(s[1..]);
    }
  }

  lemma SlashBehind(s: string)
    ensures PartsOf(s + "\\") == PartsOf(s)
  {
    SplitSlashBehind(s);
    assert (Split(s) + [""])[..|Split(s)|] == Split(s);
  }

  /** Trimming makes no difference to the parts. */
  lemma {:induction false} TrimmedParts(s: string)
    ensures PartsOf(TrimSlashes(s)) == PartsOf(s)
    decreases |s|
  {
    if s != "" && s[0] == '\\' {
      assert s == "\\" + s[1..];
      SlashInFront(s[1..]);
      TrimmedParts(s[1..]);
    } else if s != "" && s[|s| - 1] == '\\' {
      assert s == s[..|s| - 1] + "\\";
      SlashBehind(s[..|s| - 1]);
      TrimmedParts(s[..|s| - 1]);
    }
  }

  lemma {:induction false} SlashesInFront(g: string, s: string)
    requires Slashes(g)
    ensures PartsOf(g + s) == PartsOf(s)
  {
    if g == "" {
      assert g + s == s;
    } else {
      assert g[0] in g && g + s == "\\" + (g[1..] + s);
      forall c <- g[1..] ensures c == '\\' { assert c in g; }
      SlashInFront(g[1..] + s);
      SlashesInFront(g[1..], s);
    }
  }

  lemma {:induction false} SplitPart(part: string, s: string)
    requires '\\' !in part
    ensures var rest := Split(s); Split(part + s) == [part + rest[0]] + rest[1..]
  {
    if part == "" {
      var rest := Split(s);
      assert part + s == s && part + rest[0] == rest[0] && rest == [rest[0]] + rest[1..];
    } else {
      var rest := Split(s);
      assert part[0] in part && (part + s)[1..] == part[1..] + s;
      SplitPart(part[1..], s);
      assert part + rest[0] == [part[0]] + (part[1..] + rest[0]);
    }
  }

  /** A part in front of a backslash, or of the end, is the first part. */
  lemma PartInFront(part: string, s: string)
    requires IsPart(part) && (s == "" || s[0] == '\\')
    ensures PartsOf(part + s) == [part] + PartsOf(s)
  {
    var rest := Split(s);
    SplitPart(part, s);
    assert rest[0] == "" && part + "" == part && rest == [rest[0]] + rest[1..];
    NonEmptyCons(part, rest[1..]);
    NonEmptyCons("", rest[1..]);
  }

  lemma {:induction false} SpellingParts(gaps: seq<string>, p: Path, tail: string)
    requires |gaps| == |p| && Separates(gaps) && AllParts(p) && Slashes(tail)
    ensures PartsOf(Spelling(gaps, p, tail)) == p
    decreases |p|
  {
    if p == [] {
      SlashesInFront(tail, "");
      assert tail + "" == tail;
    } else {
      var rest := Spelling(gaps[1..], p[1..], tail);
      assert gaps[0] in gaps && p[0] in p;
      assert rest == "" || rest[0] == '\\' by { RestBegins(gaps, p, tail); }
      TailSeparates(gaps, p);
      SpellingParts(gaps[1..], p[1..], tail);
      PartInFront(p[0], rest);
      SlashesInFront(gaps[0], p[0] + rest);
    }
  }

  lemma RestBegins(gaps: seq<string>, p: Path, tail: string)
    requires |gaps| == |p| > 0 && Separates(gaps) && Slashes(tail)
    ensures var rest := Spelling(gaps[1..], p[1..], tail); rest == "" || rest[0] == '\\'
  {
    if |p| > 1 {
      assert gaps[1..][0] == gaps[1] && gaps[1] in gaps && gaps[1][0] in gaps[1];
    } else if tail != "" {
      assert tail[0] in tail;
    }
  }

  lemma TailSeparates(gaps: seq<string>, p: Path)
    requires |gaps| == |p| > 0 && Separates(gaps) && AllParts(p)
    ensures Separates(gaps[1..]) && AllParts(p[1..])
  {
    forall i | 1 <= i < |gaps[1..]| ensures gaps[1..][i] != "" { assert gaps[1..][i] == gaps[i + 1]; }
  }

  /** However many backslashes stand around and between the parts, a key spells its parts. */
  lemma KeySpells(gaps: seq<string>, p: Path, tail: string)
    requires |gaps| == |p| && Separates(gaps) && AllParts(p) && Slashes(tail)
    ensures PathOf(Spelling(gaps, p, tail)) == p
  {
    SpellingParts(gaps, p, tail);
    TrimmedParts(Spelling(gaps, p, tail));
  }

  lemma {:induction false} PartsBehind(s: string, part: string)
    requires IsPart(part)
    ensures PartsOf(s + "\\" + part) == PartsOf(s) + [part]
    decreases |s|
  {
    SplitBehind(s, part);
    assert (Split(s) + [part])[..|Split(s)|] == Split(s);
  }

  lemma {:induction false} SplitBehind(s: string, part: string)
    requires '\\' !in part
    ensures Split(s + "\\" + part) == Split(s) + [part]
  {
    if s == "" {
      assert s + "\\" + part == "\\" + part && ("\\" + part)[1..] == part;
      SplitPart(part, "");
      assert part + "" == part;
    } else {
      assert (s + "\\" + part)[1..] == s[1..] + "\\" + part;
      SplitBehind(s[1..], part);
    }
  }

  /** The path a node carries spells the place where it hangs. */
  lemma {:induction false} NodePathSpells(p: Path)
    requires AllParts(p)
    ensures PathOf(JoinPath(p)) == p
  {
    JoinedParts(p);
    TrimmedParts(JoinPath(p));
  }

  lemma {:induction false} JoinedParts(p: Path)
    requires AllParts(p)
    ensures PartsOf(JoinPath(p)) == p
    decreases |p|
  {
    if p == [] {
      assert PartsOf("") == [];
    } else if |p| == 1 {
      assert p[0] in p;
      PartInFront(p[0], "");
      assert p[0] + "" == p[0];
    } else {
      var n := |p| - 1;
      assert p[n] in p;
      JoinedParts(p[..n]);
      PartsBehind(JoinPath(p[..n]), p[n]);
    }
  }

  // ---------------------------------------------------------------- what is shown of an entry

  /** A value shows both sides of its entry; a modified value that has no content or no type of its own shows the
      new ones. */
  ghost predicate Shows(v: ValueNode, e: Entry) {
    && v.name == e.name && v.change == e.change
    && v.before == e.before && v.after == e.after && v.beforeKind == e.beforeKind && v.afterKind == e.afterKind
    && (e.value.Some? || e.change != "modified" ==> v.value == e.value)
    && (e.value.None? && e.change == "modified" ==> v.value == e.after)
    && (e.kind != "" || e.change != "modified" ==> v.kind == e.kind)
    && (e.kind == "" && e.change == "modified" ==> v.kind == e.afterKind)
  }

  /** How many of the entries are placed at p. */
  function CountAt(entries: seq<Placed>, p: Path): nat {
    if entries == [] then 0
    else
      var n := |entries| - 1;
      CountAt(entries[..n], p) + if entries[n].at == p then 1 else 0
  }

  lemma {:induction false} ValuesCount(entries: seq<Placed>, p: Path)
    requires p != []
    ensures |ValuesAt(entries, p)| == CountAt(entries, p)
  {
    if entries != [] { ValuesCount(entries[..|entries| - 1], p); }
  }

  lemma {:induction false} ValuesGrow(entries: seq<Placed>, p: Path, i: nat)
    requires i <= |entries|
    ensures ValuesAt(entries[..i], p) <= ValuesAt(entries, p)
    decreases |entries|
  {
    if i < |entries| {
      var n := |entries| - 1;
      assert entries[..n][..i] == entries[..i];
      ValuesGrow(entries[..n], p, i);
    } else {
      assert entries[..i] == entries;
    }
  }

  /** The k-th entry placed at p is shown as the k-th value there, and there are no more values than entries. */
  lemma EntryIsShown(entries: seq<Placed>, i: nat)
    requires i < |entries| && entries[i].at != []
    ensures var p := entries[i].at;
            var k := CountAt(entries[..i], p);
            && |ValuesAt(entries, p)| == CountAt(entries, p)
            && k < |ValuesAt(entries, p)| && Shows(ValuesAt(entries, p)[k], entries[i].entry)
  {
    var p := entries[i].at;
    ValuesCount(entries, p);
    ValuesCount(entries[..i], p);
    ValuesGrow(entries, p, i + 1);
    assert entries[..i + 1][..i] == entries[..i];
    var some := ValuesAt(entries[..i + 1], p);
    assert some[|some| - 1] == ValueOf(entries[i].entry);
  }
}
