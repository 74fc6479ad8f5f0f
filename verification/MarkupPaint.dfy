/** The highlighter paints every well-formed document as its parts are. */
module MarkupPaint {
  import opened Basics
  import opened Html
  import opened Lexemes
  import opened Markup
  import opened LexemeEnds
  import opened MarkupDocs

  // ---------------------------------------------------------------- tags

  lemma SpanCopies()
    ensures Copies(Span)
  {
    assert Span("", "") == EscapeHtml("") == "";
    forall a, b ensures Span("", a + b) == Span("", a) + Span("", b) { EscapeConcat(a, b); }
  }

  /** What is painted from place i to the end of the tag. */
  function RestHtml(s: string, i: nat): string {
    if i <= |s| then RenderAll(TagRest(s, i).tokens) else ""
  }

  function RestEnd(s: string, i: nat): nat {
    if i <= |s| then TagRest(s, i).end else i
  }

  lemma PiecePaints(s: string, i: nat, j: nat, cls: string)
    requires i <= j <= |s| && (cls == "" || i < j)
    ensures RenderAll(Piece(s, i, j, cls).tokens) == Span(cls, s[i..j])
  {
    if i < j {
      assert [Token(cls, s[i..j])][1..] == [];
      assert Span(cls, s[i..j]) + "" == Span(cls, s[i..j]);
    } else {
      assert s[i..j] == "" && EscapeHtml("") == "";
    }
  }

  lemma ThenPaints(a: Lexed, b: Lexed)
    ensures RenderAll(Then(a, b).tokens) == RenderAll(a.tokens) + RenderAll(b.tokens)
  {
    RenderConcat(a.tokens, b.tokens);
  }

  lemma BlankGoesOn(s: string, i: nat)
    requires i < |s| && IsSpace(s[i])
    ensures RestHtml(s, i) == Span("", [s[i]]) + RestHtml(s, i + 1) && RestEnd(s, i) == RestEnd(s, i + 1)
  {
    assert s[i..i + 1] == [s[i]];
    PiecePaints(s, i, i + 1, "");
    ThenPaints(Piece(s, i, i + 1, ""), TagRest(s, i + 1));
  }

  lemma ClosingGoesOn(s: string, i: nat)
    requires i < |s|
    ensures s[i] == '>' ==> RestHtml(s, i) == "" && RestEnd(s, i) == i
    ensures SelfCloses(s, i) ==> RestHtml(s, i) == Span("punc", "/") && RestEnd(s, i) == i + 1
  {
    assert s[i..i + 1] == [s[i]];
    PiecePaints(s, i, i + 1, "punc");
  }

  lemma AttributeGoesOn(s: string, i: nat)
    requires i < |s| && In(s[i], Name)
    ensures var a := Attribute(s, i);
            RestHtml(s, i) == RenderAll(a.tokens) + RestHtml(s, a.end) && RestEnd(s, i) == RestEnd(s, a.end)
  {
    NoNameChar(s[i]);
    ThenPaints(Attribute(s, i), TagRest(s, Attribute(s, i).end));
  }

  lemma AttributePaints(s: string, i: nat)
    requires i < |s| && In(s[i], Name)
    ensures var j := NameAt(s, i);
            var k := BlanksAt(s, j);
            && j > i
            && Attribute(s, i).end == (if At(s, k, '=') then Value(s, k).end else k)
            && RenderAll(Attribute(s, i).tokens)
               == Span("attr", s[i..j]) + Span("", s[j..k])
                  + if At(s, k, '=') then RenderAll(Value(s, k).tokens) else ""
  {
    var j := NameAt(s, i);
    var k := BlanksAt(s, j);
    PiecePaints(s, i, j, "attr");
    PiecePaints(s, j, k, "");
    var named := Then(Piece(s, i, j, "attr"), Piece(s, j, k, ""));
    ThenPaints(Piece(s, i, j, "attr"), Piece(s, j, k, ""));
    if At(s, k, '=') { ThenPaints(named, Value(s, k)); }
  }

  /** The painted value assignment at k, and its end, if there is a value. */
  ghost predicate PaintsValue(s: string, k: nat, value: string, e: nat, paint: Paint)
    requires k < |s|
  {
    var v := BlanksAt(s, k + 1);
    var w := ValueEnd(s, v);
    v < w ==> e == w && value == paint("punc", "=") + paint("", s[k + 1..v]) + paint("str", s[v..w])
  }

  lemma ValuePaints(s: string, k: nat)
    requires At(s, k, '=')
    ensures PaintsValue(s, k, RenderAll(Value(s, k).tokens), Value(s, k).end, Span)
  {
    var v := BlanksAt(s, k + 1);
    var w := ValueEnd(s, v);
    if v < w {
      assert s[k..k + 1] == "=";
      PiecePaints(s, k, k + 1, "punc");
      PiecePaints(s, k + 1, v, "");
      PiecePaints(s, v, w, "str");
      var signed := Then(Piece(s, k, k + 1, "punc"), Piece(s, k + 1, v, ""));
      ThenPaints(Piece(s, k, k + 1, "punc"), Piece(s, k + 1, v, ""));
      ThenPaints(signed, Piece(s, v, w, "str"));
    }
  }

  lemma Regroup(a: string, b: string, c: string, d: string, e: string, rest: string)
    ensures (a + b + (c + d + e)) + rest == a + (b + (c + (d + (e + rest))))
    ensures (a + b) + rest == a + (b + rest)
  {
    Associative(c + d, e, rest);
    Associative(c, d, e + rest);
    Associative(a + b, c + d + e, rest);
    Associative(a, b, (c + d + e) + rest);
  }

  lemma NameGlue(s: string, i: nat, e: nat, name: string, value: string,
                 paint: Paint, html: nat -> string, end: nat -> nat)
    requires i <= |s| && html(i) == name + value + html(e) && end(i) == end(e)
    requires var j := NameAt(s, i);
             var k := BlanksAt(s, j);
             && name == paint("attr", s[i..j]) + paint("", s[j..k])
             && (!At(s, k, '=') ==> e == k && value == "")
             && (At(s, k, '=') ==> PaintsValue(s, k, value, e, paint))
    ensures NameOn(s, i, paint, html, end)
  {
    var j := NameAt(s, i);
    var k := BlanksAt(s, j);
    var word, gap := paint("attr", s[i..j]), paint("", s[j..k]);
    if At(s, k, '=') {
      ValueGlue(s, k, e, word, gap, value, paint, html);
    } else {
      assert name + value == name;
      Associative(word, gap, html(k));
    }
  }

  lemma ValueGlue(s: string, k: nat, e: nat, word: string, gap: string, value: string, paint: Paint,
                  html: nat -> string)
    requires At(s, k, '=') && PaintsValue(s, k, value, e, paint)
    ensures var v := BlanksAt(s, k + 1);
            var w := ValueEnd(s, v);
            v < w ==>
              && e == w
              && word + gap + value + html(e)
                 == word + (gap + (paint("punc", "=") + (paint("", s[k + 1..v]) + (paint("str", s[v..w]) + html(w)))))
  {
    var v := BlanksAt(s, k + 1);
    var w := ValueEnd(s, v);
    Regroup(word, gap, paint("punc", "="), paint("", s[k + 1..v]), paint("str", s[v..w]), html(w));
  }

  lemma BareNameGoesOn(s: string, i: nat, html: nat -> string, end: nat -> nat)
    requires i < |s| && In(s[i], Name) && !At(s, BlanksAt(s, NameAt(s, i)), '=')
    requires html(i) == RenderAll(Attribute(s, i).tokens) + html(Attribute(s, i).end)
    requires end(i) == end(Attribute(s, i).end)
    ensures NameOn(s, i, Span, html, end)
  {
    var j := NameAt(s, i);
    var k := BlanksAt(s, j);
    var name := Span("attr", s[i..j]) + Span("", s[j..k]);
    AttributePaints(s, i);
    assert name + "" == name;
    NameGlue(s, i, k, name, "", Span, html, end);
  }

  lemma ValuedNameGoesOn(s: string, i: nat, html: nat -> string, end: nat -> nat)
    requires i < |s| && In(s[i], Name) && At(s, BlanksAt(s, NameAt(s, i)), '=')
    requires html(i) == RenderAll(Attribute(s, i).tokens) + html(Attribute(s, i).end)
    requires end(i) == end(Attribute(s, i).end)
    ensures NameOn(s, i, Span, html, end)
  {
    var j := NameAt(s, i);
    var k := BlanksAt(s, j);
    AttributePaints(s, i);
    ValuePaints(s, k);
    NameGlue(s, i, Value(s, k).end, Span("attr", s[i..j]) + Span("", s[j..k]), RenderAll(Value(s, k).tokens),
             Span, html, end);
  }

  /** For any painting that goes on after attributes. */
  lemma NameGoesOn(s: string, i: nat, html: nat -> string, end: nat -> nat)
    requires i < |s| && In(s[i], Name)
    requires html(i) == RenderAll(Attribute(s, i).tokens) + html(Attribute(s, i).end)
    requires end(i) == end(Attribute(s, i).end)
    ensures NameOn(s, i, Span, html, end)
  {
    if At(s, BlanksAt(s, NameAt(s, i)), '=') {
      ValuedNameGoesOn(s, i, html, end);
    } else {
      BareNameGoesOn(s, i, html, end);
    }
  }

  lemma TagsGoOn(s: string, html: nat -> string, end: nat -> nat)
    requires forall i: nat :: html(i) == RestHtml(s, i) && end(i) == RestEnd(s, i)
    ensures TagLaws(s, Span, html, end)
  {
    SpanCopies();
    forall i: nat | i < |s| ensures GoesOn(s, i, Span, html, end) {
      if IsSpace(s[i]) { BlankGoesOn(s, i); }
      ClosingGoesOn(s, i);
      if In(s[i], Name) {
        AttributeGoesOn(s, i);
        NameGoesOn(s, i, html, end);
      }
    }
  }

  /** An opening bracket at i, perhaps a slash, and a name from m to n. */
  ghost predicate OpensAt(s: string, i: nat, m: nat, n: nat, name: string) {
    && i + 1 < |s| && s[i] == '<' && (s[i + 1] == '/' || IsLetter(s[i + 1]))
    && m == (if s[i + 1] == '/' then i + 2 else i + 1)
    && m < n <= |s| && n == SkipWhile(s, m, Name) && s[m..n] == name
  }

  /** "<" or "</" and the name. */
  lemma OpenPlaces(s: string, i: nat, m: nat, n: nat, slash: string, name: string)
    requires Here(s, i, "<" + (slash + name)) && OfClass(name, Name)
    requires slash == "/" || (slash == "" && IsLetter(name[0]))
    requires m == i + 1 + |slash| && n == m + |name| < |s| && !In(s[n], Name)
    ensures OpensAt(s, i, m, n, name)
  {
    HereConcat(s, i, "<", slash + name);
    HereConcat(s, i + 1, slash, name);
    HereAt(s, i, "<", 0);
    HereAt(s, m, name, 0);
    if slash == "/" { HereAt(s, i + 1, slash, 0); }
    assert name[0] in name;
    NoNameChar('/');
    SkipsRun(s, m, name, Name);
  }

  lemma ThreePieces(a: Lexed, b: Lexed, c: Lexed, x: string, y: string, z: string)
    requires RenderAll(a.tokens) == x && RenderAll(b.tokens) == y && RenderAll(c.tokens) == z
    ensures RenderAll(Then(Then(a, b), c).tokens) == x + y + z && Then(Then(a, b), c).end == c.end
  {
    ThenPaints(a, b);
    ThenPaints(Then(a, b), c);
  }

  lemma OpenRendered(s: string, i: nat, m: nat, e: nat)
    requires i + 1 < |s| && s[i] == '<' && m == (if s[i + 1] == '/' then i + 2 else i + 1)
    requires e == SkipWhile(s, m, Name) && m < e
    ensures TagOpen(s, i).end == e
    ensures RenderAll(TagOpen(s, i).tokens)
         == Span("punc", "<") + (if m == i + 1 then "" else Span("punc", "/")) + Span("tag", s[m..e])
  {
    OpenPieces(s, i, m, e);
    PiecesRendered(s, i, m, e);
  }

  lemma OpenPieces(s: string, i: nat, m: nat, e: nat)
    requires i + 1 < |s| && m == (if s[i + 1] == '/' then i + 2 else i + 1) && e == SkipWhile(s, m, Name)
    ensures TagOpen(s, i)
         == Then(Then(Piece(s, i, i + 1, "punc"), Piece(s, i + 1, m, "punc")), Piece(s, m, e, "tag"))
  {
  }

  lemma PiecesRendered(s: string, i: nat, m: nat, e: nat)
    requires i + 1 < |s| && s[i] == '<' && (m == i + 1 || (m == i + 2 && s[i + 1] == '/')) && m < e <= |s|
    ensures var pieces := Then(Then(Piece(s, i, i + 1, "punc"), Piece(s, i + 1, m, "punc")), Piece(s, m, e, "tag"));
            && pieces.end == e
            && RenderAll(pieces.tokens)
               == Span("punc", "<") + (if m == i + 1 then "" else Span("punc", "/")) + Span("tag", s[m..e])
  {
    MarkPaints(s, i);
    SignPaints(s, i + 1, m);
    PiecePaints(s, m, e, "tag");
    ThreePieces(Piece(s, i, i + 1, "punc"), Piece(s, i + 1, m, "punc"), Piece(s, m, e, "tag"),
                Span("punc", "<"), if m == i + 1 then "" else Span("punc", "/"), Span("tag", s[m..e]));
  }

  lemma SignPaints(s: string, i: nat, m: nat)
    requires i < |s| && (m == i || (m == i + 1 && s[i] == '/'))
    ensures RenderAll(Piece(s, i, m, "punc").tokens) == if m == i then "" else Span("punc", "/")
  {
    if m == i + 1 { MarkPaints(s, i); }
  }

  lemma MarkPaints(s: string, i: nat)
    requires i < |s|
    ensures RenderAll(Piece(s, i, i + 1, "punc").tokens) == Span("punc", [s[i]])
  {
    assert s[i..i + 1] == [s[i]];
    PiecePaints(s, i, i + 1, "punc");
  }

  lemma FourParts(a: string, b: string, c: string, d: string)
    ensures a + b + c + d == a + (b + (c + d))
  {
    Associative(a + b, c, d);
    Associative(a, b, c + d);
  }

  lemma ElementHere(s: string, i: nat, slash: string, name: string, rest: string)
    requires Here(s, i, "<" + (slash + (name + rest)))
    ensures Here(s, i, "<" + (slash + name)) && Here(s, i + 1 + |slash| + |name|, rest)
  {
    FourParts("<", slash, name, rest);
    assert "<" + slash + name == "<" + (slash + name);
    HereConcat(s, i, "<" + (slash + name), rest);
  }

  lemma ElementGoesOn(s: string, i: nat, slash: string, name: string, attrs: seq<Attr>, tail: string, empty: bool)
    requires Here(s, i, "<" + (slash + (name + RestText(attrs, tail, empty))))
    requires Blank(tail) && forall a <- attrs :: SoundAttr(a)
    ensures Here(s, i, "<" + (slash + name))
    ensures var n := i + 1 + |slash| + |name|;
            n < |s| && Here(s, n, RestText(attrs, tail, empty)) && !In(s[n], Name)
  {
    var n := i + 1 + |slash| + |name|;
    ElementHere(s, i, slash, name, RestText(attrs, tail, empty));
    RestFollows(s, n, attrs, tail, empty);
    NoNameChar(s[n]);
  }

  lemma ElementOpens(s: string, i: nat, m: nat, n: nat, slash: string, name: string, attrs: seq<Attr>, tail: string,
                     empty: bool)
    requires OfClass(name, Name) && Blank(tail) && forall a <- attrs :: SoundAttr(a)
    requires slash == "/" || (slash == "" && IsLetter(name[0]))
    requires Here(s, i, "<" + (slash + (name + RestText(attrs, tail, empty))))
    requires m == i + 1 + |slash| && n == m + |name|
    ensures OpensAt(s, i, m, n, name) && Here(s, n, RestText(attrs, tail, empty))
  {
    ElementGoesOn(s, i, slash, name, attrs, tail, empty);
    OpenPlaces(s, i, m, n, slash, name);
  }

  /** A tag from its bracket to its bracket. */
  lemma ElementPaints(s: string, i: nat, closing: bool, name: string, attrs: seq<Attr>, tail: string, empty: bool)
    requires SoundItem(Element(closing, name, attrs, tail, empty))
    requires Here(s, i, ItemText(Element(closing, name, attrs, tail, empty)))
    ensures i + 1 < |s| && s[i] == '<' && (s[i + 1] == '/' || IsLetter(s[i + 1]))
    ensures Tag(s, i).end == i + |ItemText(Element(closing, name, attrs, tail, empty))|
    ensures RenderAll(Tag(s, i).tokens) == ItemPaint(Element(closing, name, attrs, tail, empty), Span)
  {
    var slash := if closing then "/" else "";
    var m := i + 1 + |slash|;
    var n := m + |name|;
    var mark, sign, word := Span("punc", "<"), if closing then Span("punc", "/") else "", Span("tag", name);
    ElementOpens(s, i, m, n, slash, name, attrs, tail, empty);
    OpenRendered(s, i, m, n);
    TagPaints(s, i, n, attrs, tail, empty, mark + sign + word);
    FourParts(mark, sign, word, RestPaint(attrs, tail, empty, Span));
  }

  lemma TagPaints(s: string, i: nat, n: nat, attrs: seq<Attr>, tail: string, empty: bool, open: string)
    requires i + 1 < |s| && TagOpen(s, i).end == n && RenderAll(TagOpen(s, i).tokens) == open
    requires Here(s, n, RestText(attrs, tail, empty)) && Blank(tail) && forall a <- attrs :: SoundAttr(a)
    ensures Tag(s, i).end == n + |RestText(attrs, tail, empty)|
    ensures RenderAll(Tag(s, i).tokens) == open + RestPaint(attrs, tail, empty, Span)
  {
    var html: nat -> string, end: nat -> nat := (j: nat) => RestHtml(s, j), (j: nat) => RestEnd(s, j);
    TagsGoOn(s, html, end);
    RestPaints(s, n, attrs, tail, empty, Span, html, end);
    TagRendered(s, i, n, end(n), open, html(n));
    Associative(open, html(n), Span("punc", ">"));
  }

  lemma TagRendered(s: string, i: nat, n: nat, e: nat, open: string, rest: string)
    requires i + 1 < |s| && TagOpen(s, i).end == n && RenderAll(TagOpen(s, i).tokens) == open
    requires TagRest(s, n).end == e && RenderAll(TagRest(s, n).tokens) == rest && At(s, e, '>')
    ensures Tag(s, i).end == e + 1 && RenderAll(Tag(s, i).tokens) == open + rest + Span("punc", ">")
  {
    MarkPaints(s, e);
    assert TagClose(s, e) == Piece(s, e, e + 1, "punc");
    ThreePieces(TagOpen(s, i), TagRest(s, n), TagClose(s, e), open, rest, Span("punc", ">"));
  }
}
