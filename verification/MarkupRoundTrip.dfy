/** Whole documents: written, tokenised and painted, every part comes out in its own colour. */
module MarkupRoundTrip {
  import opened Basics
  import opened Html
  import opened Lexemes
  import opened Markup
  import opened LexemeEnds
  import opened MarkupDocs
  import opened MarkupPaint

  // ---------------------------------------------------------------- comments and declarations

  lemma FirstIndex(s: string, pat: string, i: nat, j: nat)
    requires i <= j && j + |pat| <= |s| && Occurs(s, pat, j) && forall x :: i <= x < j ==> !Occurs(s, pat, x)
    ensures IndexOf(s, pat, i) == j
  {
  }

  lemma OccursHere(s: string, i: nat, t: string, pat: string, x: nat)
    requires Here(s, i, t) && x + |pat| <= |t|
    ensures Occurs(s, pat, i + x) <==> Occurs(t, pat, x)
  {
    assert t == t[..x] + (t[x..x + |pat|] + t[x + |pat|..]);
    HereConcat(s, i, t[..x], t[x..x + |pat|] + t[x + |pat|..]);
    HereConcat(s, i + x, t[x..x + |pat|], t[x + |pat|..]);
  }

  /** A lexeme that was written with a closing mark which does not occur earlier runs through that mark. */
  lemma ThroughWritten(s: string, i: nat, body: string, mark: string)
    requires Here(s, i, body + mark) && forall x :: 0 <= x < |body| ==> !Occurs(body + mark, mark, x)
    ensures Through(s, mark, i) == i + |body| + |mark|
  {
    forall x | i <= x < i + |body| ensures !Occurs(s, mark, x) {
      OccursHere(s, i, body + mark, mark, x - i);
    }
    HereConcat(s, i, body, mark);
    FirstIndex(s, mark, i, i + |body|);
  }

  lemma CommentPaints(s: string, i: nat, body: string)
    requires SoundItem(Comment(body)) && Here(s, i, ItemText(Comment(body)))
    ensures MarkupNext(s, i).end == i + |ItemText(Comment(body))|
    ensures RenderAll(MarkupNext(s, i).tokens) == Span("comment", ItemText(Comment(body)))
  {
    var t := ItemText(Comment(body));
    assert t == "<!--" + (body + "-->");
    HereConcat(s, i, "<!--", body + "-->");
    ThroughWritten(s, i + 4, body, "-->");
    assert StartsWith(s, "<!--", i);
    PiecePaints(s, i, i + |t|, "comment");
  }

  lemma DeclarationPaints(s: string, i: nat, mark: char, body: string)
    requires SoundItem(Declaration(mark, body)) && Here(s, i, ItemText(Declaration(mark, body)))
    ensures MarkupNext(s, i).end == i + |ItemText(Declaration(mark, body))|
    ensures RenderAll(MarkupNext(s, i).tokens) == Span("comment", ItemText(Declaration(mark, body)))
  {
    var t := ItemText(Declaration(mark, body));
    assert t == ['<', mark] + (body + ">");
    HereConcat(s, i, ['<', mark], body + ">");
    HereAt(s, i, ['<', mark], 0);
    HereAt(s, i, ['<', mark], 1);
    NotAComment(s, i, mark, body);
    NoBracket(body);
    ThroughWritten(s, i + 2, body, ">");
    DeclarationNext(s, i, t);
  }

  lemma DeclarationNext(s: string, i: nat, t: string)
    requires Here(s, i, t) && 2 <= |t| && s[i] == '<' && s[i + 1] in "!?" && !StartsWith(s, "<!--", i)
    requires Through(s, ">", i + 2) == i + |t|
    ensures MarkupNext(s, i).end == i + |t| && RenderAll(MarkupNext(s, i).tokens) == Span("comment", t)
  {
    assert MarkupNext(s, i) == Piece(s, i, i + |t|, "comment");
    PiecePaints(s, i, i + |t|, "comment");
  }

  lemma NoBracket(body: string)
    requires '>' !in body
    ensures forall x :: 0 <= x < |body| ==> !Occurs(body + ">", ">", x)
  {
    forall x | 0 <= x < |body| ensures !Occurs(body + ">", ">", x) {
      assert (body + ">")[x..x + 1] == [body[x]];
      assert body[x] in body;
    }
  }

  lemma CommentBegins(s: string, i: nat)
    requires i <= |s|
    ensures StartsWith(s, "<!--", i)
       <==> i + 3 < |s| && s[i] == '<' && s[i + 1] == '!' && s[i + 2] == '-' && s[i + 3] == '-'
  {
    var u := s[i..];
    if i + 3 < |s| { assert u[..4] == [s[i], s[i + 1], s[i + 2], s[i + 3]]; }
    if "<!--" <= u { assert u[0] == '<' && u[1] == '!' && u[2] == '-' && u[3] == '-'; }
  }

  lemma DashesBegin(s: string, j: nat, body: string)
    requires Here(s, j, body + ">")
    ensures j + 1 < |s| && s[j] == '-' && s[j + 1] == '-' ==> "--" <= body
  {
    HereAt(s, j, body + ">", 0);
    if 1 < |body + ">"| { HereAt(s, j, body + ">", 1); }
  }

  lemma NotAComment(s: string, i: nat, mark: char, body: string)
    requires i + 2 <= |s| && Here(s, i + 2, body + ">") && s[i + 1] == mark && (mark == '!' ==> !("--" <= body))
    ensures !StartsWith(s, "<!--", i)
  {
    CommentBegins(s, i);
    DashesBegin(s, i + 2, body);
  }

  // ---------------------------------------------------------------- words

  /** A painting of words that copies every character but an ampersand. */
  ghost predicate CopiesPlain(html: string -> string, paint: Paint) {
    Copies(paint) && forall t: string :: t != "" && t[0] != '&' ==> html(t) == paint("", [t[0]]) + html(t[1..])
  }

  lemma {:induction false} PlainWordsBy(t: string, rest: string, html: string -> string, paint: Paint)
    requires CopiesPlain(html, paint) && '&' !in t
    ensures html(t + rest) == paint("", t) + html(rest)
  {
    if t == "" {
      assert t + rest == rest;
    } else {
      var all := t + rest;
      assert all[1..] == t[1..] + rest && all[0] == t[0] && t[0] in t;
      PlainWordsBy(t[1..], rest, html, paint);
      assert t == [t[0]] + t[1..];
      Associative(paint("", [t[0]]), paint("", t[1..]), html(rest));
    }
  }

  lemma PlainWords(t: string, rest: string)
    requires '&' !in t
    ensures RenderAll(TextTokens(t + rest)) == Span("", t) + RenderAll(TextTokens(rest))
  {
    var html := (x: string) => RenderAll(TextTokens(x));
    SpanCopies();
    forall x: string | x != "" && x[0] != '&' ensures html(x) == Span("", [x[0]]) + html(x[1..]) {
      OneCharacter(x, x[1..]);
    }
    PlainWordsBy(t, rest, html, Span);
  }

  lemma OneCharacter(all: string, tail: string)
    requires all != "" && all[0] != '&' && all[1..] == tail
    ensures RenderAll(TextTokens(all)) == Span("", [all[0]]) + RenderAll(TextTokens(tail))
  {
    assert all[..1] == [all[0]];
    var ts := TextTokens(all);
    assert ts == [Token("", [all[0]])] + TextTokens(tail);
    assert ts[1..] == TextTokens(tail);
  }

  /** A run of a class closed by a semicolon. */
  lemma RunWritten(lead: string, run: string, rest: string, k: Class)
    requires OfClass(run, k) && !In(';', k)
    ensures Run(lead + (run + (";" + rest)), |lead|, k) == Some(|lead| + |run| + 1)
  {
    var s := lead + (run + (";" + rest));
    assert Here(s, |lead|, run);
    assert s[|lead| + |run|] == ';';
    SkipsRun(s, |lead|, run, k);
  }

  lemma NoRun(s: string, i: nat, k: Class)
    requires i < |s| && !In(s[i], k)
    ensures Run(s, i, k) == None
  {
  }

  lemma DecimalWritten(digits: string, rest: string)
    requires OfClass(digits, Digit)
    ensures ReferenceBody("#" + (digits + (";" + rest))) == Some(|digits| + 2)
  {
    RunWritten("#", digits, rest, Digit);
  }

  lemma HexWritten(digits: string, rest: string)
    requires OfClass(digits, Hex)
    ensures ReferenceBody("#x" + (digits + (";" + rest))) == Some(|digits| + 3)
  {
    var s := "#x" + (digits + (";" + rest));
    RunWritten("#x", digits, rest, Hex);
    assert s[1] == 'x';
    NoRun(s, 1, Digit);
  }

  lemma NoHash(name: string, rest: string)
    requires OfClass(name, Name)
    ensures !("#" <= name + rest)
  {
    assert (name + rest)[0] == name[0] && name[0] in name;
    assert !In('#', Name);
  }

  lemma NameWritten(name: string, rest: string)
    requires OfClass(name, Name)
    ensures ReferenceBody(name + (";" + rest)) == Some(|name| + 1)
  {
    var s := name + (";" + rest);
    assert "" + s == s;
    RunWritten("", name, rest, Name);
    NoHash(name, ";" + rest);
  }

  /** The body of a reference, after its ampersand. */
  function BodyOf(p: Part): string
    requires !p.Plain?
  {
    match p
    case Decimal(digits) => "#" + digits + ";"
    case Hexadecimal(digits) => "#x" + digits + ";"
    case Named(name) => name + ";"
  }

  lemma DecimalBody(digits: string, rest: string)
    requires OfClass(digits, Digit)
    ensures ReferenceBody("#" + digits + ";" + rest) == Some(|digits| + 2)
    ensures "&#" + digits + ";" == "&" + ("#" + digits + ";")
  {
    DecimalWritten(digits, rest);
    FourParts("#", digits, ";", rest);
  }

  lemma HexBody(digits: string, rest: string)
    requires OfClass(digits, Hex)
    ensures ReferenceBody("#x" + digits + ";" + rest) == Some(|digits| + 3)
    ensures "&#x" + digits + ";" == "&" + ("#x" + digits + ";")
  {
    HexWritten(digits, rest);
    FourParts("#x", digits, ";", rest);
  }

  lemma NameBody(name: string, rest: string)
    requires OfClass(name, Name)
    ensures ReferenceBody(name + ";" + rest) == Some(|name| + 1)
    ensures "&" + name + ";" == "&" + (name + ";")
  {
    NameWritten(name, rest);
    Associative(name, ";", rest);
  }

  lemma BodyWritten(p: Part, rest: string)
    requires !p.Plain? && SoundPart(p)
    ensures PartText(p) == "&" + BodyOf(p) && ReferenceBody(BodyOf(p) + rest) == Some(|BodyOf(p)|)
  {
    match p {
      case Decimal(digits) => DecimalBody(digits, rest);
      case Hexadecimal(digits) => HexBody(digits, rest);
      case Named(name) => NameBody(name, rest);
    }
  }

  lemma PartPaints(p: Part, rest: string)
    requires SoundPart(p)
    ensures RenderAll(TextTokens(PartText(p) + rest)) == PartPaint(p, Span) + RenderAll(TextTokens(rest))
  {
    if p.Plain? {
      PlainWords(p.text, rest);
    } else {
      BodyWritten(p, rest);
      ReferenceTokens(BodyOf(p), rest);
      Associative("&", BodyOf(p), rest);
    }
  }

  lemma {:induction false} PartsPaints(ps: seq<Part>)
    requires forall p <- ps :: SoundPart(p)
    ensures RenderAll(TextTokens(PartsText(ps))) == PartsPaint(ps, Span)
  {
    if ps != [] {
      assert ps[0] in ps;
      PartsPaints(ps[1..]);
      PartPaints(ps[0], PartsText(ps[1..]));
    }
  }

  lemma PartsHaveNoBracket(p: Part)
    requires SoundPart(p)
    ensures PartText(p) != "" && '<' !in PartText(p)
  {
    assert !In('<', Digit) && !In('<', Hex) && !In('<', Name);
  }

  lemma {:induction false} WordsHaveNoBracket(ps: seq<Part>)
    requires ps != [] && forall p <- ps :: SoundPart(p)
    ensures PartsText(ps) != "" && '<' !in PartsText(ps)
  {
    assert ps[0] in ps;
    PartsHaveNoBracket(ps[0]);
    if |ps| > 1 { WordsHaveNoBracket(ps[1..]); } else { assert ps[1..] == []; }
  }

  lemma NoBracketHere(s: string, i: nat, t: string)
    requires Here(s, i, t) && '<' !in t
    ensures forall x :: i <= x < i + |t| ==> s[x] != '<' && !Occurs(s, "<", x)
  {
    forall x | i <= x < i + |t| ensures s[x] != '<' && !Occurs(s, "<", x) {
      HereAt(s, i, t, x - i);
      assert t[x - i] in t;
      assert s[x..x + 1] == [s[x]];
    }
  }

  lemma WordsNext(s: string, i: nat, t: string)
    requires Here(s, i, t) && t != "" && '<' !in t && (i + |t| == |s| || s[i + |t|] == '<')
    ensures i < |s| && MarkupNext(s, i) == Lexed(TextTokens(t), i + |t|)
  {
    var e := i + |t|;
    assert s[i..e] == t;
    NoBracketHere(s, i, t);
    TextEndsAt(s, i, e);
  }

  lemma WordsPaint(s: string, i: nat, ps: seq<Part>, t: string)
    requires ps != [] && (forall p <- ps :: SoundPart(p)) && t == PartsText(ps)
    requires Here(s, i, t) && (i + |t| == |s| || s[i + |t|] == '<')
    ensures i < |s| && MarkupNext(s, i).end == i + |t|
    ensures RenderAll(MarkupNext(s, i).tokens) == PartsPaint(ps, Span)
  {
    WordsHaveNoBracket(ps);
    WordsNext(s, i, t);
    PartsPaints(ps);
  }

  lemma TextEndsAt(s: string, i: nat, e: nat)
    requires i < e <= |s| && (e == |s| || s[e] == '<')
    requires forall x :: i <= x < e ==> s[x] != '<' && !Occurs(s, "<", x)
    ensures MarkupNext(s, i) == Lexed(TextTokens(s[i..e]), e)
  {
    if e < |s| {
      assert s[e..e + 1] == "<";
      FirstIndex(s, "<", i, e);
    }
    CommentBegins(s, i);
    assert TextEnd(s, i) == e;
  }

  // ---------------------------------------------------------------- documents

  /** What may follow an item: after words, the end or a bracket. */
  ghost predicate EndsAt(s: string, item: Item, e: nat) {
    item.Words? ==> e == |s| || (e < |s| && s[e] == '<')
  }

  /** The lexeme at i reaches to e and is painted like this. */
  ghost predicate Painted(s: string, i: nat, e: nat, html: string) {
    i < |s| && MarkupNext(s, i).end == e && RenderAll(MarkupNext(s, i).tokens) == html
  }

  lemma TagNext(s: string, i: nat)
    requires i + 1 < |s| && s[i] == '<' && (s[i + 1] == '/' || IsLetter(s[i + 1]))
    ensures MarkupNext(s, i) == Tag(s, i)
  {
    CommentBegins(s, i);
    assert !IsLetter('!') && !IsLetter('?');
  }

  lemma ElementNext(s: string, i: nat, item: Item)
    requires item.Element? && SoundItem(item) && Here(s, i, ItemText(item))
    ensures Painted(s, i, i + |ItemText(item)|, ItemPaint(item, Span))
  {
    ElementPaints(s, i, item.closing, item.name, item.attrs, item.tail, item.empty);
    TagNext(s, i);
  }

  lemma ItemPaints(s: string, i: nat, item: Item)
    requires SoundItem(item) && Here(s, i, ItemText(item)) && EndsAt(s, item, i + |ItemText(item)|)
    ensures Painted(s, i, i + |ItemText(item)|, ItemPaint(item, Span))
  {
    match item {
      case Comment(body) => CommentPaints(s, i, body);
      case Declaration(mark, body) => DeclarationPaints(s, i, mark, body);
      case Element(_, _, _, _, _) => ElementNext(s, i, item);
      case Words(parts) => WordsPaint(s, i, parts, PartsText(parts));
    }
  }

  lemma ItemBegins(item: Item)
    requires SoundItem(item)
    ensures ItemText(item) != "" && (!item.Words? ==> ItemText(item)[0] == '<')
  {
    if item.Words? { WordsHaveNoBracket(item.parts); }
  }

  lemma DocBegins(items: seq<Item>)
    requires SoundDoc(items) && items != [] && !items[0].Words?
    ensures DocText(items) != "" && DocText(items)[0] == '<'
  {
    assert items[0] in items;
    ItemBegins(items[0]);
  }

  lemma NextBegins(s: string, e: nat, items: seq<Item>, rest: string)
    requires SoundDoc(items) && items != [] && rest == DocText(items[1..]) && Here(s, e, rest) && e + |rest| == |s|
    ensures EndsAt(s, items[0], e)
  {
    if items[0].Words? && |items| > 1 {
      TailSound(items);
      assert items[1..][0] == items[1] && !items[1].Words?;
      DocBegins(items[1..]);
      HereAt(s, e, rest, 0);
    }
  }

  lemma TailSound(items: seq<Item>)
    requires SoundDoc(items) && items != []
    ensures SoundItem(items[0]) && SoundDoc(items[1..])
  {
    assert items[0] in items;
    forall i, j | 0 <= i && j == i + 1 < |items[1..]| ensures !(items[1..][i].Words? && items[1..][j].Words?) {
      assert !(items[i + 1].Words? && items[j + 1].Words?);
    }
  }

  /** `painted(p, e, h)`: what stands from p to e is painted h. */
  type Judge = (nat, nat, string) -> bool

  /** The k-th item and all after it stand at p, to the end of the text. */
  ghost predicate StandsAt(s: string, items: seq<Item>, k: nat, p: nat, text: Item -> string)
    requires k <= |items|
  {
    Here(s, p, Joined(items[k..], text)) && p + |Joined(items[k..], text)| == |s|
  }

  lemma OneItemMore(items: seq<Item>, k: nat, f: Item -> string)
    requires k < |items|
    ensures Joined(items[k..], f) == f(items[k]) + Joined(items[k + 1..], f)
  {
    assert items[k..][1..] == items[k + 1..];
  }

  lemma {:induction false} JoinedPaints(s: string, p: nat, items: seq<Item>, k: nat, text: Item -> string,
                                        paint: Item -> string, painted: Judge, html: nat -> string)
    requires forall p: nat, e: nat, h :: painted(p, e, h) ==> html(p) == h + html(e)
    requires html(|s|) == "" && k <= |items| && StandsAt(s, items, k, p, text)
    requires forall j: nat, p: nat :: j < |items| && StandsAt(s, items, j, p, text)
               ==> painted(p, p + |text(items[j])|, paint(items[j]))
    ensures html(p) == Joined(items[k..], paint)
    decreases |items| - k
  {
    if k == |items| {
      assert items[k..] == [];
    } else {
      var t, rest := text(items[k]), Joined(items[k + 1..], text);
      OneItemMore(items, k, text);
      OneItemMore(items, k, paint);
      HereConcat(s, p, t, rest);
      JoinedPaints(s, p + |t|, items, k + 1, text, paint, painted, html);
    }
  }

  lemma {:induction false} SuffixSound(items: seq<Item>, k: nat)
    requires SoundDoc(items) && k <= |items|
    ensures SoundDoc(items[k..])
    decreases k
  {
    if k == 0 {
      assert items[0..] == items;
    } else {
      SuffixSound(items, k - 1);
      TailSound(items[k - 1..]);
      assert items[k - 1..][1..] == items[k..];
    }
  }

  lemma FirstPainted(s: string, p: nat, items: seq<Item>)
    requires SoundDoc(items) && items != [] && Here(s, p, DocText(items)) && p + |DocText(items)| == |s|
    ensures Painted(s, p, p + |ItemText(items[0])|, ItemPaint(items[0], Span))
  {
    var t, rest := ItemText(items[0]), DocText(items[1..]);
    TailSound(items);
    HereConcat(s, p, t, rest);
    NextBegins(s, p + |t|, items, rest);
    ItemPaints(s, p, items[0]);
  }

  lemma ItemPainted(s: string, items: seq<Item>, k: nat, p: nat)
    requires SoundDoc(items) && k < |items| && StandsAt(s, items, k, p, ItemText)
    ensures Painted(s, p, p + |ItemText(items[k])|, ItemSpans(items[k]))
  {
    SuffixSound(items, k);
    FirstPainted(s, p, items[k..]);
  }

  lemma TokensPaintOn(s: string, p: nat, e: nat, h: string)
    requires Painted(s, p, e, h)
    ensures e <= |s| && RenderAll(MarkupTokens(s, p)) == h + RenderAll(MarkupTokens(s, e))
  {
    RenderConcat(MarkupNext(s, p).tokens, MarkupTokens(s, e));
  }

  /** Every well-formed document is painted part by part. */
  lemma DocumentPaints(items: seq<Item>)
    requires SoundDoc(items)
    ensures RenderAll(MarkupTokens(DocText(items), 0)) == DocPaint(items)
  {
    var s := DocText(items);
    var html: nat -> string := (i: nat) => if i <= |s| then RenderAll(MarkupTokens(s, i)) else "";
    var painted: Judge := (p: nat, e: nat, h: string) => Painted(s, p, e, h);
    forall p: nat, e: nat, h | painted(p, e, h) ensures html(p) == h + html(e) { TokensPaintOn(s, p, e, h); }
    forall k: nat, p: nat | k < |items| && StandsAt(s, items, k, p, ItemText)
      ensures painted(p, p + |ItemText(items[k])|, ItemSpans(items[k]))
    {
      ItemPainted(s, items, k, p);
    }
    assert items[0..] == items && s[0..0 + |s|] == s;
    JoinedPaints(s, 0, items, 0, ItemText, ItemSpans, painted, html);
  }
}
