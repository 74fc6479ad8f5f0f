/** The lexical structure of HTML and XML text: comments, tags with their attributes, and character
    references inside text. */
module Markup {
  import opened Basics
  import opened Html
  import opened Lexemes

  // ---------------------------------------------------------------- character references

  /** The length of `#digits;`, `#xhex;` or `name;` at the start of a text, if it starts with one. */
  function ReferenceBody(s: string): (n: Option<nat>)
    ensures n.Some? ==> 2 <= n.value <= |s| && s[n.value - 1] == ';'
  {
    var decimal := Run(s, 1, Digit);
    var hex := Run(s, 2, Hex);
    var name := Run(s, 0, Name);
    if "#" <= s && decimal.Some? then decimal
    else if "#x" <= s && hex.Some? then hex
    else name
  }

  /** A non-empty run of `k` from `i`, closed by a semicolon. */
  function Run(s: string, i: nat, k: Class): (n: Option<nat>)
    ensures n.Some? ==> i + 2 <= n.value <= |s| && s[n.value - 1] == ';'
  {
    if |s| <= i then None
    else
      var j := SkipWhile(s, i, k);
      if i < j && At(s, j, ';') then Some(j + 1) else None
  }

  /** The global regular-expression replacement: every character reference of an escaped text, leftmost
      first, is wrapped in a span. */
  function WrapReferences(e: string): string
    decreases |e|
  {
    if e == "" then ""
    else if e[0] != '&' then [e[0]] + WrapReferences(e[1..])
    else if "&amp;" <= e && ReferenceBody(e[5..]).Some? then
      var n := 5 + ReferenceBody(e[5..]).value;
      OpenTag("kw") + e[..n] + CLOSE_TAG + WrapReferences(e[n..])
    else [e[0]] + WrapReferences(e[1..])
  }

  /** The same on the source text: references become keyword tokens. */
  function TextTokens(s: string): (ts: seq<Token>)
    decreases |s|
  {
    if s == "" then []
    else if s[0] == '&' && ReferenceBody(s[1..]).Some? then
      var n := 1 + ReferenceBody(s[1..]).value;
      [Token("kw", s[..n])] + TextTokens(s[n..])
    else [Token("", s[..1])] + TextTokens(s[1..])
  }

  lemma {:induction false} TextTokensPartition(s: string)
    ensures Text(TextTokens(s)) == s && Classified(TextTokens(s))
    decreases |s|
  {
    if s != "" {
      var n := if s[0] == '&' && ReferenceBody(s[1..]).Some? then 1 + ReferenceBody(s[1..]).value else 1;
      TextTokensPartition(s[n..]);
      assert s == s[..n] + s[n..];
    }
  }

  predicate Inert(c: char) {
    c !in "&<>\"'"
  }

  ghost predicate AllInert(p: string) {
    forall c <- p :: Inert(c)
  }

  /** Characters that escaping leaves alone pass through as a block. */
  lemma EscapeInert(p: string, rest: string)
    requires AllInert(p)
    ensures EscapeHtml(p) == p
    ensures EscapeHtml(p + rest) == p + EscapeHtml(rest)
  {
    ReplaceAbsent(p, '&', "&amp;");
    LaterPassesKeep(p);
    EscapeConcat(p, rest);
  }

  lemma EscapeHead(s: string)
    requires s != ""
    ensures EscapeHtml(s) != "" && EscapeHtml(s)[0] == if Inert(s[0]) then s[0] else '&'
  {
    EscapeCons(s);
  }

  ghost predicate InertClass(k: Class) {
    forall c :: In(c, k) ==> Inert(c)
  }

  lemma {:induction false} SkipWhileLeast(s: string, i: nat, j: nat, k: Class)
    requires i <= j <= |s|
    requires forall x :: i <= x < j ==> In(s[x], k)
    requires j < |s| ==> !In(s[j], k)
    ensures SkipWhile(s, i, k) == j
  {
  }

  /** Escaping leaves an inert prefix in place, and what follows it starts as it did or with '&'. */
  lemma EscapeAfter(s: string, j: nat)
    requires j <= |s| && AllInert(s[..j])
    ensures var e := EscapeHtml(s);
            && j <= |e| && e[..j] == s[..j]
            && (if j == |s| then |e| == j else j < |e| && e[j] == if Inert(s[j]) then s[j] else '&')
  {
    assert s == s[..j] + s[j..];
    EscapeInert(s[..j], s[j..]);
    if j < |s| { EscapeHead(s[j..]); } else { assert s[j..] == ""; }
  }

  lemma SameSkip(s: string, e: string, i: nat, j: nat, k: Class)
    requires i <= |s| && j == SkipWhile(s, i, k) && j <= |e| && !In('&', k)
    requires forall x :: 0 <= x < j ==> e[x] == s[x]
    requires j < |e| ==> j < |s| && (e[j] == s[j] || e[j] == '&')
    ensures SkipWhile(e, i, k) == j
  {
    SkipWhileLeast(e, i, j, k);
  }

  lemma RunBySkip(s: string, e: string, i: nat, j: nat, k: Class)
    requires i <= |s| && i <= |e| && (i == |s| <==> i == |e|)
    requires SkipWhile(s, i, k) == j == SkipWhile(e, i, k) && (At(s, j, ';') <==> At(e, j, ';'))
    ensures Run(e, i, k) == Run(s, i, k)
  {
  }

  /** A run of inert characters is the same in a text that agrees up to its end and goes on alike. */
  lemma SameRun(s: string, e: string, i: nat, j: nat, k: Class)
    requires InertClass(k) && i <= |s| && j == SkipWhile(s, i, k) && j <= |e|
    requires forall x :: 0 <= x < j ==> e[x] == s[x]
    requires if j == |s| then |e| == j else j < |e| && e[j] == if Inert(s[j]) then s[j] else '&'
    ensures Run(e, i, k) == Run(s, i, k)
  {
    assert !Inert('&') && !In('&', k);
    SameSkip(s, e, i, j, k);
    RunBySkip(s, e, i, j, k);
  }

  lemma SamePrefix(s: string, e: string, j: nat)
    requires j <= |s| && j <= |e| && e[..j] == s[..j]
    ensures forall x :: 0 <= x < j ==> e[x] == s[x]
  {
    forall x | 0 <= x < j ensures e[x] == s[x] { assert e[x] == e[..j][x] == s[..j][x] == s[x]; }
  }

  lemma RunIsInert(s: string, i: nat, k: Class)
    requires InertClass(k) && i <= |s| && AllInert(s[..i])
    ensures AllInert(s[..SkipWhile(s, i, k)])
    ensures Run(s, i, k).Some? ==> AllInert(s[..Run(s, i, k).value])
  {
    var j := SkipWhile(s, i, k);
    assert s[..j] == s[..i] + s[i..j];
    if i < j && At(s, j, ';') { assert s[..j + 1] == s[..j] + [';']; }
  }

  /** Escaping does not move a run of characters it leaves alone. */
  lemma RunEscaped(s: string, i: nat, k: Class)
    requires InertClass(k) && i <= |s| && AllInert(s[..i])
    ensures Run(EscapeHtml(s), i, k) == Run(s, i, k)
    ensures Run(s, i, k).Some? ==> AllInert(s[..Run(s, i, k).value])
  {
    var j := SkipWhile(s, i, k);
    RunIsInert(s, i, k);
    EscapeAfter(s, j);
    SamePrefix(s, EscapeHtml(s), j);
    SameRun(s, EscapeHtml(s), i, j, k);
  }

  lemma ReferenceHead(s: string)
    ensures var e := EscapeHtml(s);
            && ("#" <= e <==> "#" <= s)
            && ("#x" <= e <==> "#x" <= s)
  {
    EscapeAfter(s, 0);
    if "#" <= s { EscapeAfter(s, 1); }
    if "#x" <= s { EscapeAfter(s, 2); }
  }

  /** Escaping neither makes nor breaks a character reference. */
  lemma ReferenceEscaped(s: string)
    ensures ReferenceBody(EscapeHtml(s)) == ReferenceBody(s)
    ensures ReferenceBody(s).Some? ==> AllInert(s[..ReferenceBody(s).value])
  {
    ReferenceHead(s);
    RunEscaped(s, 0, Name);
    if "#" <= s { RunEscaped(s, 1, Digit); }
    if "#x" <= s { RunEscaped(s, 2, Hex); }
  }

  lemma {:induction false} WrapSkips(p: string, rest: string)
    requires '&' !in p
    ensures WrapReferences(p + rest) == p + WrapReferences(rest)
  {
    if p == "" {
      assert p + rest == rest;
    } else {
      assert (p + rest)[1..] == p[1..] + rest;
      WrapSkips(p[1..], rest);
    }
  }

  lemma StrayAmpersand(rest: string)
    requires "amp;" <= rest ==> ReferenceBody(rest[4..]).None?
    ensures WrapReferences("&" + rest) == "&" + WrapReferences(rest)
  {
    var e := "&" + rest;
    assert e[1..] == rest;
    if "&amp;" <= e { assert "amp;" <= rest && e[5..] == rest[4..]; }
  }

  /** An ampersand that starts no reference is copied, with whatever follows it up to the next one. */
  lemma WrapAmpersand(tail: string, rest: string)
    requires '&' !in tail
    requires "amp;" <= tail + rest ==> ReferenceBody((tail + rest)[4..]).None?
    ensures WrapReferences("&" + tail + rest) == "&" + tail + WrapReferences(rest)
  {
    Associative("&", tail, rest);
    StrayAmpersand(tail + rest);
    WrapSkips(tail, rest);
    Associative("&", tail, WrapReferences(rest));
  }

  /** An escaped character that starts no reference is copied. */
  lemma WrapPlain(c: char, rest: string)
    requires c == '&' ==> ReferenceBody(rest).None?
    ensures WrapReferences(EscapeChar(c) + rest) == EscapeChar(c) + WrapReferences(rest)
  {
    var p := EscapeChar(c);
    if p[0] == '&' {
      var tail := p[1..];
      assert p == "&" + tail;
      if c == '&' { assert (tail + rest)[4..] == rest; } else { assert (tail + rest)[0] != 'a'; }
      WrapAmpersand(tail, rest);
    } else {
      WrapSkips(p, rest);
    }
  }

  /** An escaped reference is wrapped whole. */
  lemma WrapOne(body: string, rest: string)
    requires ReferenceBody(body + rest) == Some(|body|)
    ensures WrapReferences("&amp;" + (body + rest))
         == OpenTag("kw") + ("&amp;" + body) + CLOSE_TAG + WrapReferences(rest)
  {
    var e := "&amp;" + (body + rest);
    assert e[5..] == body + rest;
    assert e[..5 + |body|] == "&amp;" + body;
    assert e[5 + |body|..] == rest;
  }

  lemma ReferenceToken(body: string, rest: string)
    requires AllInert(body) && ReferenceBody(body + rest) == Some(|body|)
    ensures WrapReferences(EscapeHtml("&" + (body + rest)))
         == Render(Token("kw", "&" + body)) + WrapReferences(EscapeHtml(rest))
  {
    EscapeConcat("&", body + rest);
    EscapeOne('&');
    EscapeInert(body, rest);
    ReferenceEscaped(body + rest);
    WrapOne(body, EscapeHtml(rest));
    EscapeConcat("&", body);
  }

  lemma PlainToken(c: char, rest: string)
    requires c == '&' ==> ReferenceBody(rest).None?
    ensures WrapReferences(EscapeHtml([c] + rest)) == Render(Token("", [c])) + WrapReferences(EscapeHtml(rest))
  {
    EscapeConcat([c], rest);
    EscapeOne(c);
    ReferenceEscaped(rest);
    WrapPlain(c, EscapeHtml(rest));
  }

  lemma ReferenceTokens(body: string, rest: string)
    requires ReferenceBody(body + rest) == Some(|body|)
    ensures RenderAll(TextTokens("&" + (body + rest))) == Render(Token("kw", "&" + body)) + RenderAll(TextTokens(rest))
  {
    var s := "&" + (body + rest);
    assert s == ("&" + body) + rest;
    assert s[..1 + |body|] == "&" + body && s[1 + |body|..] == rest;
    assert s[1..] == body + rest;
    var ts := TextTokens(s);
    assert ts == [Token("kw", "&" + body)] + TextTokens(rest);
    assert ts[1..] == TextTokens(rest);
  }

  lemma WrapReference(body: string, rest: string)
    requires ReferenceBody(body + rest) == Some(|body|)
    requires WrapReferences(EscapeHtml(rest)) == RenderAll(TextTokens(rest))
    ensures WrapReferences(EscapeHtml("&" + (body + rest))) == RenderAll(TextTokens("&" + (body + rest)))
  {
    ReferenceEscaped(body + rest);
    assert (body + rest)[..|body|] == body;
    ReferenceToken(body, rest);
    ReferenceTokens(body, rest);
  }

  lemma WrapCharacter(s: string)
    requires s != "" && !(s[0] == '&' && ReferenceBody(s[1..]).Some?)
    requires WrapReferences(EscapeHtml(s[1..])) == RenderAll(TextTokens(s[1..]))
    ensures WrapReferences(EscapeHtml(s)) == RenderAll(TextTokens(s))
  {
    assert s == [s[0]] + s[1..] && s[..1] == [s[0]];
    PlainToken(s[0], s[1..]);
    assert RenderAll(TextTokens(s)) == Render(Token("", s[..1])) + RenderAll(TextTokens(s[1..]));
  }

  /** Wrapping references after escaping is tokenising before it. */
  lemma {:induction false} WrapIsTokens(s: string)
    ensures WrapReferences(EscapeHtml(s)) == RenderAll(TextTokens(s))
    decreases |s|
  {
    if s != "" {
      if s[0] == '&' && ReferenceBody(s[1..]).Some? {
        var m := ReferenceBody(s[1..]).value;
        var body, rest := s[1..][..m], s[1 + m..];
        assert s[1..] == body + rest && s == "&" + (body + rest);
        WrapIsTokens(rest);
        WrapReference(body, rest);
      } else {
        WrapIsTokens(s[1..]);
        WrapCharacter(s);
      }
    }
  }

  // ---------------------------------------------------------------- tags and text

  /** Tokens and the place where the text after them starts. */
  datatype Lexed = Lexed(tokens: seq<Token>, end: nat)

  function Piece(s: string, i: nat, j: nat, cls: string): Lexed
    requires i <= j <= |s|
  {
    Lexed(if i < j then [Token(cls, s[i..j])] else [], j)
  }

  function Then(a: Lexed, b: Lexed): Lexed {
    Lexed(a.tokens + b.tokens, b.end)
  }

  /** The end of an attribute value: a quoted one runs through its quote, a bare one to white space, '>'
      or "/>". */
  function ValueEnd(s: string, i: nat): (j: nat)
    requires i <= |s|
    ensures i <= j <= |s|
  {
    if At(s, i, '"') || At(s, i, '\'') then QuoteEnd(s, i + 1, s[i]) else BareEnd(s, i)
  }

  function QuoteEnd(s: string, i: nat, q: char): (j: nat)
    requires i <= |s|
    ensures i <= j <= |s|
    decreases |s| - i
  {
    if i == |s| then i else if s[i] == q then i + 1 else QuoteEnd(s, i + 1, q)
  }

  predicate EndsBare(s: string, i: nat)
    requires i < |s|
  {
    IsSpace(s[i]) || s[i] == '>' || (s[i] == '/' && At(s, i + 1, '>'))
  }

  function BareEnd(s: string, i: nat): (j: nat)
    requires i <= |s|
    ensures i <= j <= |s|
    decreases |s| - i
  {
    if i == |s| || EndsBare(s, i) then i else BareEnd(s, i + 1)
  }

  /** A name with its optional value. */
  function Attribute(s: string, i: nat): (l: Lexed)
    requires i <= |s|
    ensures SkipWhile(s, i, Name) <= l.end <= |s|
  {
    var j := SkipWhile(s, i, Name);
    var k := SkipWhile(s, j, Space);
    var named := Then(Piece(s, i, j, "attr"), Piece(s, j, k, ""));
    if At(s, k, '=') then Then(named, Value(s, k)) else named
  }

  /** An equals sign, white space and the value. */
  function Value(s: string, i: nat): (l: Lexed)
    requires i < |s|
    ensures i < l.end <= |s|
  {
    var v := SkipWhile(s, i + 1, Space);
    Then(Then(Piece(s, i, i + 1, "punc"), Piece(s, i + 1, v, "")), Piece(s, v, ValueEnd(s, v), "str"))
  }

  predicate SelfCloses(s: string, i: nat) {
    At(s, i, '/') && At(s, i + 1, '>')
  }

  /** What follows a tag name, up to the closing '>' or the end of the text. */
  function TagRest(s: string, i: nat): (l: Lexed)
    requires i <= |s|
    ensures i <= l.end <= |s|
    decreases |s| - i
  {
    if i == |s| || s[i] == '>' then Lexed([], i)
    else if SelfCloses(s, i) then Piece(s, i, i + 1, "punc")
    else if IsSpace(s[i]) || SkipWhile(s, i, Name) == i then Then(Piece(s, i, i + 1, ""), TagRest(s, i + 1))
    else
      var a := Attribute(s, i);
      Then(a, TagRest(s, a.end))
  }

  /** "<" or "</" and the tag's name. */
  function TagOpen(s: string, i: nat): (l: Lexed)
    requires i + 1 < |s|
    ensures i < l.end <= |s|
  {
    var slash := if s[i + 1] == '/' then i + 2 else i + 1;
    Then(Then(Piece(s, i, i + 1, "punc"), Piece(s, i + 1, slash, "punc")),
         Piece(s, slash, SkipWhile(s, slash, Name), "tag"))
  }

  function TagClose(s: string, i: nat): (l: Lexed)
    requires i <= |s|
    ensures i <= l.end <= |s|
  {
    Piece(s, i, if At(s, i, '>') then i + 1 else i, "punc")
  }

  function Tag(s: string, i: nat): (l: Lexed)
    requires i + 1 < |s|
    ensures i < l.end <= |s|
  {
    var open := TagOpen(s, i);
    var rest := TagRest(s, open.end);
    Then(Then(open, rest), TagClose(s, rest.end))
  }

  /** The lexeme at `i`: a comment, a declaration, a tag, a stray '<', or text up to the next '<'. */
  function MarkupNext(s: string, i: nat): (l: Lexed)
    requires i < |s|
    ensures i < l.end <= |s|
  {
    if StartsWith(s, "<!--", i) then Piece(s, i, Through(s, "-->", i + 4), "comment")
    else if s[i] == '<' && (At(s, i + 1, '!') || At(s, i + 1, '?')) then
      Piece(s, i, Through(s, ">", i + 2), "comment")
    else if s[i] == '<' && i + 1 < |s| && (s[i + 1] == '/' || IsLetter(s[i + 1])) then Tag(s, i)
    else if s[i] == '<' then Piece(s, i, i + 1, "")
    else
      var j := TextEnd(s, i);
      Lexed(TextTokens(s[i..j]), j)
  }

  function TextEnd(s: string, i: nat): (j: nat)
    requires i < |s| && s[i] != '<'
    ensures i < j <= |s|
  {
    var j := IndexOf(s, "<", i);
    assert s[i..i + 1] == [s[i]];
    if j < 0 then |s| else j
  }

  function MarkupTokens(s: string, i: nat): seq<Token>
    requires i <= |s|
    decreases |s| - i
  {
    if i == |s| then []
    else
      var l := MarkupNext(s, i);
      l.tokens + MarkupTokens(s, l.end)
  }

  // ---------------------------------------------------------------- partition

  /** What the colour of a markup token says about it. */
  ghost predicate MarkupKind(t: Token) {
    && t.text != ""
    && (t.cls == "comment" ==> "<!" <= t.text || "<?" <= t.text)
    && (t.cls == "punc" ==> t.text in {"<", "/", ">", "="})
    && (t.cls in {"tag", "attr"} ==> forall c <- t.text :: In(c, Name))
    && (t.cls == "kw" ==> t.text[0] == '&' && t.text[|t.text| - 1] == ';')
    && t.cls in {"", "comment", "punc", "tag", "attr", "str", "kw"}
  }

  /** The tokens spell the text from `i` to the lexeme's end. */
  ghost predicate Spells(s: string, i: nat, l: Lexed) {
    && i <= l.end <= |s| && Text(l.tokens) == s[i..l.end]
    && forall t <- l.tokens :: MarkupKind(t)
  }

  lemma PieceSpells(s: string, i: nat, j: nat, cls: string)
    requires i <= j <= |s| && (i < j ==> MarkupKind(Token(cls, s[i..j])))
    ensures Spells(s, i, Piece(s, i, j, cls))
  {
    if i < j { assert [Token(cls, s[i..j])][1..] == []; }
  }

  lemma ThenSpells(s: string, i: nat, a: Lexed, b: Lexed)
    requires Spells(s, i, a) && Spells(s, a.end, b)
    ensures Spells(s, i, Then(a, b))
  {
    TextConcat(a.tokens, b.tokens);
    assert Text(Then(a, b).tokens) == s[i..a.end] + s[a.end..b.end] == s[i..b.end];
  }

  lemma MarkSpells(s: string, i: nat)
    requires i < |s| && s[i] in "</>="
    ensures Spells(s, i, Piece(s, i, i + 1, "punc"))
  {
    assert s[i..i + 1] == [s[i]];
    PieceSpells(s, i, i + 1, "punc");
  }

  lemma NameSpells(s: string, i: nat, cls: string)
    requires i <= |s| && cls in {"tag", "attr"}
    ensures Spells(s, i, Piece(s, i, SkipWhile(s, i, Name), cls))
  {
    PieceSpells(s, i, SkipWhile(s, i, Name), cls);
  }

  lemma AttributeSpells(s: string, i: nat)
    requires i <= |s|
    ensures Spells(s, i, Attribute(s, i))
  {
    var j := SkipWhile(s, i, Name);
    var k := SkipWhile(s, j, Space);
    NameSpells(s, i, "attr");
    PieceSpells(s, j, k, "");
    ThenSpells(s, i, Piece(s, i, j, "attr"), Piece(s, j, k, ""));
    if At(s, k, '=') {
      ValueSpells(s, k);
      ThenSpells(s, i, Then(Piece(s, i, j, "attr"), Piece(s, j, k, "")), Value(s, k));
    }
  }

  lemma ValueSpells(s: string, i: nat)
    requires At(s, i, '=')
    ensures Spells(s, i, Value(s, i))
  {
    var v := SkipWhile(s, i + 1, Space);
    MarkSpells(s, i);
    PieceSpells(s, i + 1, v, "");
    ThenSpells(s, i, Piece(s, i, i + 1, "punc"), Piece(s, i + 1, v, ""));
    PieceSpells(s, v, ValueEnd(s, v), "str");
    ThenSpells(s, i, Then(Piece(s, i, i + 1, "punc"), Piece(s, i + 1, v, "")), Piece(s, v, ValueEnd(s, v), "str"));
  }

  lemma {:induction false} TagRestSpells(s: string, i: nat)
    requires i <= |s|
    ensures Spells(s, i, TagRest(s, i))
    decreases |s| - i
  {
    if i == |s| || s[i] == '>' {
    } else if SelfCloses(s, i) {
      MarkSpells(s, i);
    } else if IsSpace(s[i]) || SkipWhile(s, i, Name) == i {
      PieceSpells(s, i, i + 1, "");
      TagRestSpells(s, i + 1);
      ThenSpells(s, i, Piece(s, i, i + 1, ""), TagRest(s, i + 1));
    } else {
      AttributeSpells(s, i);
      TagRestSpells(s, Attribute(s, i).end);
      ThenSpells(s, i, Attribute(s, i), TagRest(s, Attribute(s, i).end));
    }
  }

  lemma TagOpenSpells(s: string, i: nat)
    requires i + 1 < |s| && s[i] == '<'
    ensures Spells(s, i, TagOpen(s, i))
  {
    var slash := if s[i + 1] == '/' then i + 2 else i + 1;
    MarkSpells(s, i);
    if slash == i + 2 { MarkSpells(s, i + 1); } else { PieceSpells(s, i + 1, i + 1, "punc"); }
    ThenSpells(s, i, Piece(s, i, i + 1, "punc"), Piece(s, i + 1, slash, "punc"));
    NameSpells(s, slash, "tag");
    ThenSpells(s, i, Then(Piece(s, i, i + 1, "punc"), Piece(s, i + 1, slash, "punc")),
               Piece(s, slash, SkipWhile(s, slash, Name), "tag"));
  }

  lemma TagSpells(s: string, i: nat)
    requires i + 1 < |s| && s[i] == '<'
    ensures Spells(s, i, Tag(s, i))
  {
    var open := TagOpen(s, i);
    var rest := TagRest(s, open.end);
    TagOpenSpells(s, i);
    TagRestSpells(s, open.end);
    ThenSpells(s, i, open, rest);
    if At(s, rest.end, '>') { MarkSpells(s, rest.end); } else { PieceSpells(s, rest.end, rest.end, "punc"); }
    ThenSpells(s, i, Then(open, rest), TagClose(s, rest.end));
  }

  lemma {:induction false} TextTokenKinds(s: string)
    ensures forall t <- TextTokens(s) :: MarkupKind(t)
    decreases |s|
  {
    if s != "" {
      var reference := s[0] == '&' && ReferenceBody(s[1..]).Some?;
      var n := if reference then 1 + ReferenceBody(s[1..]).value else 1;
      assert s[..n][0] == s[0];
      if reference { assert s[..n][n - 1] == s[1..][n - 2]; }
      TextTokenKinds(s[n..]);
    }
  }

  lemma NextSpells(s: string, i: nat)
    requires i < |s|
    ensures Spells(s, i, MarkupNext(s, i))
  {
    if StartsWith(s, "<!--", i) {
      var j := Through(s, "-->", i + 4);
      assert s[i..j][..2] == s[i..][..2] == "<!";
      PieceSpells(s, i, j, "comment");
    } else if s[i] == '<' && (At(s, i + 1, '!') || At(s, i + 1, '?')) {
      var j := Through(s, ">", i + 2);
      assert s[i..j][..2] == [s[i], s[i + 1]];
      PieceSpells(s, i, j, "comment");
    } else if s[i] == '<' && i + 1 < |s| && (s[i + 1] == '/' || IsLetter(s[i + 1])) {
      TagSpells(s, i);
    } else if s[i] == '<' {
      PieceSpells(s, i, i + 1, "");
    } else {
      TextTokensPartition(s[i..TextEnd(s, i)]);
      TextTokenKinds(s[i..TextEnd(s, i)]);
    }
  }

  /** The tokens of a markup text spell it, and their colours are true of them. */
  lemma {:induction false} MarkupPartition(s: string, i: nat)
    requires i <= |s|
    ensures Spells(s, i, Lexed(MarkupTokens(s, i), |s|))
    decreases |s| - i
  {
    if i < |s| {
      var l := MarkupNext(s, i);
      NextSpells(s, i);
      MarkupPartition(s, l.end);
      ThenSpells(s, i, l, Lexed(MarkupTokens(s, l.end), |s|));
    }
  }
}
