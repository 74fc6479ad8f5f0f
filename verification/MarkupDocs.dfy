/** Markup as it is written and as it should be coloured: for every well-formed document the tokens paint its parts as
    what they are. */
module MarkupDocs {
  import opened Basics
  import opened Html
  import opened Lexemes
  import opened Markup

  datatype Val = Quoted(quote: char, body: string) | Bare(body: string)
  datatype Given = Given(before: string, after: string, val: Val)
  datatype Attr = Attr(gap: string, name: string, given: Option<Given>)
  datatype Part = Plain(text: string) | Decimal(digits: string) | Hexadecimal(digits: string) | Named(name: string)
  datatype Item = Comment(body: string)
                | Declaration(mark: char, body: string)
                | Element(closing: bool, name: string, attrs: seq<Attr>, tail: string, empty: bool)
                | Words(parts: seq<Part>)

  // ---------------------------------------------------------------- how it is written

  function ValText(v: Val): string {
    match v
    case Quoted(q, body) => [q] + body + [q]
    case Bare(body) => body
  }

  function GivenText(g: Given): string {
    g.before + ("=" + (g.after + ValText(g.val)))
  }

  function AttrText(a: Attr): string {
    a.gap + NamedText(a)
  }

  function NamedText(a: Attr): string {
    a.name + if a.given.Some? then GivenText(a.given.value) else ""
  }

  /** The attributes, and the end of the tag. */
  function RestText(attrs: seq<Attr>, tail: string, empty: bool): string {
    if attrs == [] then tail + if empty then "/>" else ">"
    else AttrText(attrs[0]) + RestText(attrs[1..], tail, empty)
  }

  function PartText(p: Part): string {
    match p
    case Plain(text) => text
    case Decimal(digits) => "&#" + digits + ";"
    case Hexadecimal(digits) => "&#x" + digits + ";"
    case Named(name) => "&" + name + ";"
  }

  function PartsText(ps: seq<Part>): string {
    if ps == [] then "" else PartText(ps[0]) + PartsText(ps[1..])
  }

  function ItemText(item: Item): string {
    match item
    case Comment(body) => "<!--" + body + "-->"
    case Declaration(mark, body) => "<" + [mark] + body + ">"
    case Element(closing, name, attrs, tail, empty) =>
      "<" + ((if closing then "/" else "") + (name + RestText(attrs, tail, empty)))
    case Words(parts) => PartsText(parts)
  }

  /** What becomes of items one after the other. */
  function Joined(items: seq<Item>, f: Item -> string): string {
    if items == [] then "" else f(items[0]) + Joined(items[1..], f)
  }

  function DocText(items: seq<Item>): string {
    Joined(items, ItemText)
  }

  // ---------------------------------------------------------------- how it is coloured

  /** What becomes of a text under a class; the empty class leaves it uncoloured. */
  type Paint = (string, string) -> string

  function GivenPaint(g: Given, paint: Paint): string {
    paint("", g.before) + (paint("punc", "=") + (paint("", g.after) + paint("str", ValText(g.val))))
  }

  function AttrPaint(a: Attr, paint: Paint): string {
    paint("", a.gap) + NamedPaint(a, paint)
  }

  function NamedPaint(a: Attr, paint: Paint): string {
    paint("attr", a.name) + if a.given.Some? then GivenPaint(a.given.value, paint) else ""
  }

  function RestPaint(attrs: seq<Attr>, tail: string, empty: bool, paint: Paint): string {
    if attrs == [] then paint("", tail) + ((if empty then paint("punc", "/") else "") + paint("punc", ">"))
    else AttrPaint(attrs[0], paint) + RestPaint(attrs[1..], tail, empty, paint)
  }

  function PartPaint(p: Part, paint: Paint): string {
    paint(if p.Plain? then "" else "kw", PartText(p))
  }

  function PartsPaint(ps: seq<Part>, paint: Paint): string {
    if ps == [] then "" else PartPaint(ps[0], paint) + PartsPaint(ps[1..], paint)
  }

  function ItemPaint(item: Item, paint: Paint): string {
    match item
    case Comment(_) => paint("comment", ItemText(item))
    case Declaration(_, _) => paint("comment", ItemText(item))
    case Element(closing, name, attrs, tail, empty) =>
      paint("punc", "<") + ((if closing then paint("punc", "/") else "")
                            + (paint("tag", name) + RestPaint(attrs, tail, empty, paint)))
    case Words(parts) => PartsPaint(parts, paint)
  }

  /** The highlighter's colours: a span of the class around the escaped text. */
  function Span(cls: string, text: string): string {
    Render(Token(cls, text))
  }

  function ItemSpans(item: Item): string {
    ItemPaint(item, Span)
  }

  function DocPaint(items: seq<Item>): string {
    Joined(items, ItemSpans)
  }

  // ---------------------------------------------------------------- what is well formed

  ghost predicate Blank(s: string) {
    forall c <- s :: IsSpace(c)
  }

  ghost predicate OfClass(s: string, k: Class) {
    s != "" && forall c <- s :: In(c, k)
  }

  ghost predicate SoundVal(v: Val) {
    match v
    case Quoted(q, body) => q in "\"'" && q !in body
    case Bare(body) =>
      && body != "" && body[0] !in "\"'" && body[|body| - 1] != '/'
      && forall x :: 0 <= x < |body| ==> !EndsBare(body, x)
  }

  ghost predicate SoundGiven(g: Given) {
    Blank(g.before) && Blank(g.after) && SoundVal(g.val)
  }

  ghost predicate SoundAttr(a: Attr) {
    && a.gap != "" && Blank(a.gap) && OfClass(a.name, Name)
    && (a.given.Some? ==> SoundGiven(a.given.value))
  }

  ghost predicate SoundPart(p: Part) {
    match p
    case Plain(text) => text != "" && '&' !in text && '<' !in text
    case Decimal(digits) => OfClass(digits, Digit)
    case Hexadecimal(digits) => OfClass(digits, Hex)
    case Named(name) => OfClass(name, Name)
  }

  ghost predicate SoundItem(item: Item) {
    match item
    case Comment(body) => forall x :: 0 <= x < |body| ==> !Occurs(body + "-->", "-->", x)
    case Declaration(mark, body) => mark in "!?" && '>' !in body && (mark == '!' ==> !("--" <= body))
    case Element(closing, name, attrs, tail, empty) =>
      && OfClass(name, Name) && (closing || IsLetter(name[0])) && Blank(tail) && forall a <- attrs :: SoundAttr(a)
    case Words(parts) => parts != [] && forall p <- parts :: SoundPart(p)
  }

  /** Items one after the other, and no text right after text. */
  ghost predicate SoundDoc(items: seq<Item>) {
    && (forall item <- items :: SoundItem(item))
    && forall i, j :: 0 <= i && j == i + 1 < |items| ==> !(items[i].Words? && items[j].Words?)
  }

  // ---------------------------------------------------------------- texts at a place

  predicate Here(s: string, i: nat, t: string) {
    i + |t| <= |s| && s[i..i + |t|] == t
  }

  lemma HereConcat(s: string, i: nat, a: string, b: string)
    ensures Here(s, i, a + b) <==> Here(s, i, a) && Here(s, i + |a|, b)
  {
    if i + |a + b| <= |s| {
      var t := s[i..i + |a + b|];
      assert t[..|a|] == s[i..i + |a|] && t[|a|..] == s[i + |a|..i + |a| + |b|];
      assert (a + b)[..|a|] == a && (a + b)[|a|..] == b;
      assert t == t[..|a|] + t[|a|..];
    }
  }

  lemma HereAt(s: string, i: nat, t: string, x: nat)
    requires Here(s, i, t) && x < |t|
    ensures s[i + x] == t[x]
  {
    assert s[i..i + |t|][x] == s[i + x];
  }

  /** A run of a class, followed by something else, is skipped as a whole. */
  lemma SkipsRun(s: string, i: nat, t: string, k: Class)
    requires Here(s, i, t) && forall c <- t :: In(c, k)
    requires i + |t| < |s| ==> !In(s[i + |t|], k)
    ensures SkipWhile(s, i, k) == i + |t|
  {
    forall x | i <= x < i + |t| ensures In(s[x], k) {
      HereAt(s, i, t, x - i);
      assert t[x - i] in t;
    }
    SkipWhileLeast(s, i, i + |t|, k);
  }

  // ---------------------------------------------------------------- values end where they were written to end

  lemma {:induction false} FirstQuote(s: string, i: nat, body: string, q: char)
    requires Here(s, i, body) && q !in body && i + |body| < |s| && s[i + |body|] == q
    ensures QuoteEnd(s, i, q) == i + |body| + 1
    decreases |body|
  {
    if body != "" {
      HereAt(s, i, body, 0);
      assert body[0] in body;
      assert body == [body[0]] + body[1..];
      HereConcat(s, i, [body[0]], body[1..]);
      FirstQuote(s, i + 1, body[1..], q);
    }
  }

  lemma {:induction false} FirstStop(s: string, i: nat, j: nat)
    requires i <= j < |s| && EndsBare(s, j) && forall x :: i <= x < j ==> !EndsBare(s, x)
    ensures BareEnd(s, i) == j
    decreases j - i
  {
    if i < j { FirstStop(s, i + 1, j); }
  }

  lemma QuotedWritten(s: string, v: nat, q: char, body: string)
    requires Here(s, v, [q] + (body + [q])) && q in "\"'" && q !in body
    ensures ValueEnd(s, v) == v + |body| + 2
  {
    HereAt(s, v, [q] + (body + [q]), 0);
    HereConcat(s, v, [q], body + [q]);
    HereConcat(s, v + 1, body, [q]);
    HereAt(s, v + 1 + |body|, [q], 0);
    FirstQuote(s, v + 1, body, q);
  }

  lemma BareWritten(s: string, v: nat, body: string)
    requires Here(s, v, body) && SoundVal(Bare(body))
    requires v + |body| < |s| && EndsBare(s, v + |body|)
    ensures ValueEnd(s, v) == v + |body|
  {
    HereAt(s, v, body, 0);
    forall x | v <= x < v + |body| ensures !EndsBare(s, x) {
      HereAt(s, v, body, x - v);
      assert !EndsBare(body, x - v);
      if x + 1 < v + |body| { HereAt(s, v, body, x + 1 - v); }
    }
    FirstStop(s, v, v + |body|);
  }

  /** A value ends where it was written to end. */
  lemma ValueWritten(s: string, v: nat, val: Val)
    requires Here(s, v, ValText(val)) && SoundVal(val)
    requires v + |ValText(val)| < |s| && EndsBare(s, v + |ValText(val)|)
    ensures ValueEnd(s, v) == v + |ValText(val)|
  {
    match val {
      case Quoted(q, body) =>
        assert ValText(val) == [q] + (body + [q]);
        QuotedWritten(s, v, q, body);
      case Bare(body) =>
        BareWritten(s, v, body);
    }
  }

  // ---------------------------------------------------------------- the inside of a tag

  /** Painting uncoloured text is painting its characters. */
  ghost predicate Copies(paint: Paint) {
    paint("", "") == "" && forall a, b :: paint("", a + b) == paint("", a) + paint("", b)
  }

  function NameAt(s: string, i: nat): (j: nat)
    requires i <= |s|
    ensures i <= j <= |s|
  {
    SkipWhile(s, i, Name)
  }

  function BlanksAt(s: string, i: nat): (j: nat)
    requires i <= |s|
    ensures i <= j <= |s|
  {
    SkipWhile(s, i, Space)
  }

  /** How a tag goes on at place i: `html(i)` is what is painted from there to the end of the tag, `end(i)` that end. */
  ghost predicate GoesOn(s: string, i: nat, paint: Paint, html: nat -> string, end: nat -> nat)
    requires i < |s|
  {
    && (IsSpace(s[i]) ==> html(i) == paint("", [s[i]]) + html(i + 1) && end(i) == end(i + 1))
    && (s[i] == '>' ==> html(i) == "" && end(i) == i)
    && (SelfCloses(s, i) ==> html(i) == paint("punc", "/") && end(i) == i + 1)
    && (In(s[i], Name) ==> NameOn(s, i, paint, html, end))
  }

  /** A name goes on with blanks and, after an equals sign and more blanks, its value. */
  ghost predicate NameOn(s: string, i: nat, paint: Paint, html: nat -> string, end: nat -> nat)
    requires i <= |s|
  {
    var j := NameAt(s, i);
    var k := BlanksAt(s, j);
    if !At(s, k, '=') then
      html(i) == paint("attr", s[i..j]) + (paint("", s[j..k]) + html(k)) && end(i) == end(k)
    else
      var v := BlanksAt(s, k + 1);
      var w := ValueEnd(s, v);
      v < w ==>
        && html(i) == paint("attr", s[i..j]) + (paint("", s[j..k]) + (paint("punc", "=")
                      + (paint("", s[k + 1..v]) + (paint("str", s[v..w]) + html(w)))))
        && end(i) == end(w)
  }

  ghost predicate TagLaws(s: string, paint: Paint, html: nat -> string, end: nat -> nat) {
    Copies(paint) && forall i: nat :: i < |s| ==> GoesOn(s, i, paint, html, end)
  }

  lemma BlankTail(t: string)
    requires Blank(t) && t != ""
    ensures IsSpace(t[0]) && Blank(t[1..]) && t == [t[0]] + t[1..]
  {
    assert t[0] in t;
    forall c <- t[1..] ensures IsSpace(c) { assert c in t; }
  }

  /** Blanks inside a tag are copied, one by one. */
  lemma {:induction false} BlanksInTag(s: string, i: nat, t: string, paint: Paint, html: nat -> string, end: nat -> nat)
    requires TagLaws(s, paint, html, end) && Here(s, i, t) && Blank(t)
    ensures html(i) == paint("", t) + html(i + |t|) && end(i) == end(i + |t|)
    decreases |t|
  {
    if t != "" {
      BlankTail(t);
      HereAt(s, i, t, 0);
      HereConcat(s, i, [t[0]], t[1..]);
      BlanksInTag(s, i + 1, t[1..], paint, html, end);
      assert GoesOn(s, i, paint, html, end);
      assert paint("", t) == paint("", [t[0]]) + paint("", t[1..]);
      Associative(paint("", [t[0]]), paint("", t[1..]), html(i + |t|));
    }
  }

  lemma NameHere(s: string, i: nat, name: string)
    requires Here(s, i, name) && OfClass(name, Name) && (i + |name| < |s| ==> !In(s[i + |name|], Name))
    ensures NameAt(s, i) == i + |name| && i < |s| && In(s[i], Name) && s[i..i + |name|] == name
  {
    assert name[0] in name;
    HereAt(s, i, name, 0);
    SkipsRun(s, i, name, Name);
  }

  /** A name without a value: whatever blanks follow are copied. */
  lemma BareName(s: string, i: nat, name: string, paint: Paint, html: nat -> string, end: nat -> nat)
    requires TagLaws(s, paint, html, end)
    requires Here(s, i, name) && OfClass(name, Name) && i + |name| < |s| && !In(s[i + |name|], Name)
    requires !At(s, BlanksAt(s, i + |name|), '=')
    ensures html(i) == paint("attr", name) + html(i + |name|) && end(i) == end(i + |name|)
  {
    var j, k := i + |name|, BlanksAt(s, i + |name|);
    NameHere(s, i, name);
    assert GoesOn(s, i, paint, html, end);
    BlanksInTag(s, j, s[j..k], paint, html, end);
  }

  lemma ValBegins(v: Val)
    requires SoundVal(v)
    ensures ValText(v) != "" && !IsSpace(ValText(v)[0])
  {
    if v.Bare? { assert !EndsBare(v.body, 0); }
  }

  lemma GivenParts(s: string, j: nat, g: Given)
    requires Here(s, j, GivenText(g))
    ensures var k := j + |g.before|;
            var v := k + 1 + |g.after|;
            && Here(s, j, g.before) && At(s, k, '=') && Here(s, k + 1, g.after) && Here(s, v, ValText(g.val))
            && v + |ValText(g.val)| == j + |GivenText(g)|
  {
    var k := j + |g.before|;
    HereConcat(s, j, g.before, "=" + (g.after + ValText(g.val)));
    HereConcat(s, k, "=", g.after + ValText(g.val));
    HereConcat(s, k + 1, g.after, ValText(g.val));
    HereAt(s, k, "=", 0);
  }

  lemma BlanksHere(s: string, i: nat, t: string)
    requires Here(s, i, t) && Blank(t) && i + |t| < |s| && !IsSpace(s[i + |t|])
    ensures BlanksAt(s, i) == i + |t| && s[i..i + |t|] == t && (t != "" ==> IsSpace(s[i]))
  {
    SkipsRun(s, i, t, Space);
    if t != "" {
      HereAt(s, i, t, 0);
      assert t[0] in t;
    }
  }

  /** The places of a value assignment: from j blanks to the sign at k, blanks to v, and the value to p. */
  ghost predicate GivenAt(s: string, g: Given, j: nat, k: nat, v: nat, p: nat) {
    && j <= k && k + 1 <= v < p < |s| && BlanksAt(s, j) == k && s[k] == '=' && BlanksAt(s, k + 1) == v
    && ValueEnd(s, v) == p
    && s[j..k] == g.before && s[k + 1..v] == g.after && s[v..p] == ValText(g.val)
  }

  lemma GivenHere(s: string, g: Given, j: nat, k: nat, v: nat, p: nat)
    requires SoundGiven(g) && Here(s, j, g.before) && At(s, k, '=') && Here(s, k + 1, g.after)
    requires Here(s, v, ValText(g.val))
    requires k == j + |g.before| && v == k + 1 + |g.after| && p == v + |ValText(g.val)| < |s| && EndsBare(s, p)
    ensures GivenAt(s, g, j, k, v, p) && (IsSpace(s[j]) || s[j] == '=')
  {
    ValBegins(g.val);
    HereAt(s, v, ValText(g.val), 0);
    BlanksHere(s, j, g.before);
    BlanksHere(s, k + 1, g.after);
    ValueWritten(s, v, g.val);
  }

  lemma NoNameChar(c: char)
    ensures IsSpace(c) || c == '=' || c == '/' || c == '>' ==> !In(c, Name)
  {
  }

  lemma ValuedStep(s: string, i: nat, j: nat, k: nat, v: nat, w: nat,
                   paint: Paint, html: nat -> string, end: nat -> nat)
    requires TagLaws(s, paint, html, end) && i < |s| && In(s[i], Name) && j == NameAt(s, i) && k == BlanksAt(s, j)
    requires At(s, k, '=') && v == BlanksAt(s, k + 1) && w == ValueEnd(s, v) && v < w
    ensures end(i) == end(w)
    ensures html(i) == paint("attr", s[i..j])
                       + ((paint("", s[j..k]) + (paint("punc", "=") + (paint("", s[k + 1..v]) + paint("str", s[v..w]))))
                          + html(w))
  {
    assert GoesOn(s, i, paint, html, end);
    FiveParts(paint("", s[j..k]), paint("punc", "="), paint("", s[k + 1..v]), paint("str", s[v..w]), html(w));
  }

  lemma NameGiven(s: string, i: nat, name: string, g: Given, j: nat, k: nat, v: nat, p: nat,
                  paint: Paint, html: nat -> string, end: nat -> nat)
    requires TagLaws(s, paint, html, end) && i < |s| && In(s[i], Name) && j == NameAt(s, i) && s[i..j] == name
    requires GivenAt(s, g, j, k, v, p)
    ensures html(i) == paint("attr", name) + (GivenPaint(g, paint) + html(p)) && end(i) == end(p)
  {
    ValuedStep(s, i, j, k, v, p, paint, html, end);
  }

  lemma GivenPlaces(s: string, i: nat, name: string, g: Given, j: nat, k: nat, v: nat, p: nat)
    requires OfClass(name, Name) && SoundGiven(g) && Here(s, i, name) && Here(s, j, GivenText(g))
    requires j == i + |name| && k == j + |g.before| && v == k + 1 + |g.after|
    requires p == j + |GivenText(g)| < |s| && EndsBare(s, p)
    ensures i < |s| && In(s[i], Name) && j == NameAt(s, i) && s[i..j] == name && GivenAt(s, g, j, k, v, p)
  {
    GivenParts(s, j, g);
    GivenHere(s, g, j, k, v, p);
    NoNameChar(s[j]);
    NameHere(s, i, name);
  }

  /** A name with its value. */
  lemma GivenName(s: string, i: nat, name: string, g: Given, p: nat, paint: Paint, html: nat -> string, end: nat -> nat)
    requires TagLaws(s, paint, html, end) && OfClass(name, Name) && SoundGiven(g)
    requires Here(s, i, name) && Here(s, i + |name|, GivenText(g))
    requires p == i + |name| + |GivenText(g)| < |s| && EndsBare(s, p)
    ensures html(i) == paint("attr", name) + (GivenPaint(g, paint) + html(p)) && end(i) == end(p)
  {
    var j := i + |name|;
    var k := j + |g.before|;
    var v := k + 1 + |g.after|;
    GivenPlaces(s, i, name, g, j, k, v, p);
    NameGiven(s, i, name, g, j, k, v, p, paint, html, end);
  }

  lemma FiveParts(a: string, b: string, c: string, d: string, rest: string)
    ensures a + (b + (c + (d + rest))) == (a + (b + (c + d))) + rest
  {
    Associative(c, d, rest);
    Associative(b, c + d, rest);
    Associative(a, b + (c + d), rest);
  }

  /** What follows an attribute ends its value, and is no value assignment. */
  ghost predicate Follows(s: string, p: nat) {
    p < |s| && EndsBare(s, p) && !At(s, BlanksAt(s, p), '=')
  }

  lemma GivenPaints(s: string, n: nat, name: string, g: Given, paint: Paint, html: nat -> string, end: nat -> nat)
    requires TagLaws(s, paint, html, end) && OfClass(name, Name) && SoundGiven(g)
    requires Here(s, n, name + GivenText(g)) && Follows(s, n + |name + GivenText(g)|)
    ensures var p := n + |name + GivenText(g)|;
            html(n) == paint("attr", name) + GivenPaint(g, paint) + html(p) && end(n) == end(p)
  {
    var p := n + |name + GivenText(g)|;
    HereConcat(s, n, name, GivenText(g));
    GivenName(s, n, name, g, p, paint, html, end);
    Associative(paint("attr", name), GivenPaint(g, paint), html(p));
  }

  lemma NamedPaints(s: string, n: nat, a: Attr, paint: Paint, html: nat -> string, end: nat -> nat)
    requires TagLaws(s, paint, html, end) && SoundAttr(a) && Here(s, n, NamedText(a)) && Follows(s, n + |NamedText(a)|)
    ensures var p := n + |NamedText(a)|; html(n) == NamedPaint(a, paint) + html(p) && end(n) == end(p)
  {
    if a.given.Some? {
      GivenPaints(s, n, a.name, a.given.value, paint, html, end);
    } else {
      assert NamedText(a) == a.name && NamedPaint(a, paint) == paint("attr", a.name);
      BareName(s, n, a.name, paint, html, end);
    }
  }

  lemma AttrPaints(s: string, i: nat, a: Attr, paint: Paint, html: nat -> string, end: nat -> nat)
    requires TagLaws(s, paint, html, end) && SoundAttr(a) && Here(s, i, AttrText(a)) && Follows(s, i + |AttrText(a)|)
    ensures html(i) == AttrPaint(a, paint) + html(i + |AttrText(a)|) && end(i) == end(i + |AttrText(a)|)
  {
    var n, p := i + |a.gap|, i + |AttrText(a)|;
    HereConcat(s, i, a.gap, NamedText(a));
    BlanksInTag(s, i, a.gap, paint, html, end);
    NamedPaints(s, n, a, paint, html, end);
    Associative(paint("", a.gap), NamedPaint(a, paint), html(p));
  }

  lemma CloseFollows(s: string, i: nat, tail: string, empty: bool)
    requires Here(s, i, tail + if empty then "/>" else ">") && Blank(tail)
    ensures Follows(s, i)
  {
    var close := if empty then "/>" else ">";
    var j := i + |tail|;
    HereConcat(s, i, tail, close);
    HereAt(s, j, close, 0);
    if empty { HereAt(s, j, close, 1); }
    BlanksHere(s, i, tail);
  }

  lemma AttrFollows(s: string, i: nat, a: Attr)
    requires Here(s, i, AttrText(a)) && SoundAttr(a)
    ensures Follows(s, i)
  {
    var named := NamedText(a);
    var j := i + |a.gap|;
    HereConcat(s, i, a.gap, named);
    HereAt(s, j, named, 0);
    assert a.name[0] in a.name && named[0] == a.name[0];
    NoNameChar(s[j]);
    BlanksHere(s, i, a.gap);
  }

  /** The rest of a tag follows whatever is in front of it. */
  lemma RestFollows(s: string, i: nat, attrs: seq<Attr>, tail: string, empty: bool)
    requires Here(s, i, RestText(attrs, tail, empty)) && Blank(tail) && forall a <- attrs :: SoundAttr(a)
    ensures Follows(s, i)
  {
    if attrs == [] {
      CloseFollows(s, i, tail, empty);
    } else {
      assert attrs[0] in attrs;
      HereConcat(s, i, AttrText(attrs[0]), RestText(attrs[1..], tail, empty));
      AttrFollows(s, i, attrs[0]);
    }
  }

  /** The rest of a tag is painted as its attributes, up to the closing bracket. */
  lemma {:induction false} RestPaints(s: string, i: nat, attrs: seq<Attr>, tail: string, empty: bool,
                                      paint: Paint, html: nat -> string, end: nat -> nat)
    requires TagLaws(s, paint, html, end)
    requires Here(s, i, RestText(attrs, tail, empty)) && Blank(tail) && forall a <- attrs :: SoundAttr(a)
    ensures end(i) == i + |RestText(attrs, tail, empty)| - 1 && At(s, end(i), '>')
    ensures html(i) + paint("punc", ">") == RestPaint(attrs, tail, empty, paint)
    decreases |attrs|
  {
    if attrs == [] {
      ClosePaints(s, i, tail, empty, paint, html, end);
    } else {
      var a, p := attrs[0], i + |AttrText(attrs[0])|;
      assert a in attrs;
      HereConcat(s, i, AttrText(a), RestText(attrs[1..], tail, empty));
      RestFollows(s, p, attrs[1..], tail, empty);
      AttrPaints(s, i, a, paint, html, end);
      RestPaints(s, p, attrs[1..], tail, empty, paint, html, end);
      Associative(AttrPaint(a, paint), html(p), paint("punc", ">"));
    }
  }

  lemma ClosePaints(s: string, i: nat, tail: string, empty: bool, paint: Paint, html: nat -> string, end: nat -> nat)
    requires TagLaws(s, paint, html, end) && Blank(tail) && Here(s, i, tail + if empty then "/>" else ">")
    ensures end(i) == i + |tail| + (if empty then 1 else 0) && At(s, end(i), '>')
    ensures html(i) + paint("punc", ">")
         == paint("", tail) + ((if empty then paint("punc", "/") else "") + paint("punc", ">"))
  {
    var close := if empty then "/>" else ">";
    var j := i + |tail|;
    HereConcat(s, i, tail, close);
    HereAt(s, j, close, 0);
    if empty { HereAt(s, j, close, 1); }
    BlanksInTag(s, i, tail, paint, html, end);
    assert GoesOn(s, j, paint, html, end);
    Associative(paint("", tail), html(j), paint("punc", ">"));
  }
}
