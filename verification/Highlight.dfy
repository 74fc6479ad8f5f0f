/** The highlighter's scanning loops.  Each walks its source with two cursors and pushes pieces of HTML;
    each is proved to render exactly the lexical structure of its source. */
module Highlight {
  import opened Basics
  import opened Html
  import opened Lexemes
  import opened Markup

  function Span(cls: string, text: string): string {
    OpenTag(cls) + EscapeHtml(text) + CLOSE_TAG
  }

  /** What every highlighter promises: the tags can be deleted and the escapes undone to give back the
      source, and the spans are balanced and never nested. */
  ghost predicate Lossless(html: string, src: string) {
    && StripTags(html) == EscapeHtml(src)
    && Unescape(StripTags(html)) == src
    && Balanced(html, false)
  }

  // ---------------------------------------------------------------- scanning

  method ScanWhile(s: string, i: nat, k: Class) returns (j: nat)
    requires i <= |s|
    ensures j == SkipWhile(s, i, k)
  {
    j := i;
    while j < |s| && In(s[j], k)
      invariant i <= j <= |s| && SkipWhile(s, j, k) == SkipWhile(s, i, k)
    {
      j := j + 1;
    }
  }

  method ScanLiteral(s: string, i: nat, quote: char) returns (j: nat)
    requires i < |s|
    ensures j == LiteralEnd(s, i + 1, quote, false)
  {
    j := i + 1;
    var esc := false;
    while j < |s|
      invariant i < j <= |s| && LiteralEnd(s, j, quote, esc) == LiteralEnd(s, i + 1, quote, false)
    {
      if esc {
        esc := false;
        j := j + 1;
        continue;
      }
      if s[j] == '\\' {
        esc := true;
        j := j + 1;
        continue;
      }
      if s[j] == quote {
        j := j + 1;
        break;
      }
      j := j + 1;
    }
  }

  // ---------------------------------------------------------------- JSON and JavaScript

  /** The pieces pushed so far and the lexemes still to come make up the whole rendering. */
  ghost predicate Renders(out: seq<string>, lang: Lang, s: string, i: nat) {
    i <= |s| && Join(out) + RenderAll(Tokens(lang, s, i)) == RenderAll(Tokens(lang, s, 0))
  }

  lemma Pushed(out: seq<string>, lang: Lang, s: string, i: nat, part: string)
    requires i < |s| && Renders(out, lang, s, i)
    requires var (cls, j) := Next(lang, s, i); part == Render(Token(cls, s[i..j]))
    ensures Renders(out + [part], lang, s, Next(lang, s, i).1)
  {
    var (cls, j) := Next(lang, s, i);
    JoinPush(out, part);
    Associative(Join(out), part, RenderAll(Tokens(lang, s, j)));
  }

  /** One turn of the JSON loop: the piece for the lexeme at `i`, and where the next one starts. */
  method JsonPiece(s: string, i: nat) returns (part: string, j: nat)
    requires i < |s|
    ensures (var (cls, end) := JsonNext(s, i); j == end && part == Render(Token(cls, s[i..end])))
  {
    var ch := s[i];
    if ch == '"' {
      j := ScanLiteral(s, i, '"');
      var k := ScanWhile(s, j, Space);
      var isKey := At(s, k, ':');
      return Span(if isKey then "key" else "str", s[i..j]), j;
    }
    if StartsNumber(s, i) {
      j := ScanWhile(s, i + 1, NumberTail);
      return Span("num", s[i..j]), j;
    }
    if IsLetter(ch) {
      j := ScanWhile(s, i + 1, Letter);
      var word := s[i..j];
      return if JsonWord(word) then Span("kw", word) else EscapeHtml(word), j;
    }
    assert s[i..i + 1] == [ch];
    return if ch in "{}[]:," then Span("punc", [ch]) else EscapeHtml([ch]), i + 1;
  }

  method HighlightJson(s: string) returns (html: string)
    ensures html == RenderAll(Tokens(Json, s, 0))
    ensures Lossless(html, s)
  {
    var out: seq<string> := [];
    var i := 0;
    while i < |s|
      invariant 0 <= i <= |s| && Renders(out, Json, s, i)
      decreases |s| - i
    {
      var part, j := JsonPiece(s, i);
      Pushed(out, Json, s, i, part);
      out, i := out + [part], j;
    }
    html := Join(out);
    LexedIsLossless(Json, s);
  }

  lemma LexedIsLossless(lang: Lang, s: string)
    ensures Lossless(RenderAll(Tokens(lang, s, 0)), s)
  {
    TokensPartition(lang, s, 0);
    RenderIsLossless(Tokens(lang, s, 0));
  }

  /** To the end of the line, or through the closing mark; or to the end of the text. */
  method JsComment(s: string, i: nat) returns (j: nat)
    requires i < |s| && (StartsWith(s, "//", i) || StartsWith(s, "/*", i))
    ensures JsNext(s, i) == ("comment", j)
  {
    if StartsWith(s, "//", i) {
      var n := IndexOf(s, "\n", i);
      NoNewlineAt(s, i);
      return if n < 0 then |s| else n;
    }
    var n := IndexOf(s, "*/", i + 2);
    j := if n < 0 then |s| else n + 2;
  }

  method JsPiece(s: string, i: nat) returns (part: string, j: nat)
    requires i < |s|
    ensures (var (cls, end) := JsNext(s, i); j == end && part == Render(Token(cls, s[i..end])))
  {
    if StartsWith(s, "//", i) || StartsWith(s, "/*", i) {
      j := JsComment(s, i);
      return Span("comment", s[i..j]), j;
    }
    var q := s[i];
    if q == '"' || q == '\'' || q == '`' {
      j := ScanLiteral(s, i, q);
      return Span("str", s[i..j]), j;
    }
    if IsDigit(s[i]) {
      j := ScanWhile(s, i + 1, JsNumberTail);
      return Span("num", s[i..j]), j;
    }
    if In(s[i], JsStart) {
      j := ScanWhile(s, i + 1, JsTail);
      var word := s[i..j];
      return if word in JS_KEYWORDS then Span("kw", word) else EscapeHtml(word), j;
    }
    assert s[i..i + 1] == [s[i]];
    return EscapeHtml([s[i]]), i + 1;
  }

  method HighlightJs(s: string) returns (html: string)
    ensures html == RenderAll(Tokens(Js, s, 0))
    ensures Lossless(html, s)
  {
    var out: seq<string> := [];
    var i := 0;
    while i < |s|
      invariant 0 <= i <= |s| && Renders(out, Js, s, i)
      decreases |s| - i
    {
      var part, j := JsPiece(s, i);
      Pushed(out, Js, s, i, part);
      out, i := out + [part], j;
    }
    html := Join(out);
    LexedIsLossless(Js, s);
  }

  // ---------------------------------------------------------------- markup

  /** `out` grew by the rendering of `l`. */
  ghost predicate Grew(before: seq<string>, after: seq<string>, l: Lexed) {
    Join(after) == Join(before) + RenderAll(l.tokens)
  }

  lemma GrewTwice(a: seq<string>, b: seq<string>, c: seq<string>, l: Lexed, m: Lexed)
    requires Grew(a, b, l) && Grew(b, c, m)
    ensures Grew(a, c, Then(l, m))
  {
    RenderConcat(l.tokens, m.tokens);
    Associative(Join(a), RenderAll(l.tokens), RenderAll(m.tokens));
  }

  lemma GrewPiece(out: seq<string>, s: string, i: nat, j: nat, cls: string)
    requires i < j <= |s|
    ensures Grew(out, out + [Render(Token(cls, s[i..j]))], Piece(s, i, j, cls))
  {
    JoinPush(out, Render(Token(cls, s[i..j])));
  }

  /** Pushes a piece unless it is empty. */
  method PushPiece(out: seq<string>, s: string, i: nat, j: nat, cls: string) returns (next: seq<string>)
    requires i <= j <= |s|
    ensures Grew(out, next, Piece(s, i, j, cls))
  {
    if i == j { return out; }
    next := out + [if cls == "" then EscapeHtml(s[i..j]) else Span(cls, s[i..j])];
    GrewPiece(out, s, i, j, cls);
  }

  /** `out` grew by the plain text from `i` to `j`. */
  ghost predicate Copied(out: seq<string>, next: seq<string>, s: string, i: nat, j: nat) {
    i <= j <= |s| && Join(next) == Join(out) + EscapeHtml(s[i..j])
  }

  lemma CopiedNothing(out: seq<string>, s: string, i: nat)
    requires i <= |s|
    ensures Copied(out, out, s, i, i)
  {
    assert s[i..i] == "";
  }

  lemma SpacePushed(out: seq<string>, next: seq<string>, s: string, start: nat, i: nat)
    requires start <= i < |s| && Copied(out, next, s, start, i)
    ensures Copied(out, next + [EscapeHtml([s[i]])], s, start, i + 1)
  {
    var e := EscapeHtml([s[i]]);
    JoinPush(next, e);
    EscapeConcat(s[start..i], [s[i]]);
    Associative(Join(out), EscapeHtml(s[start..i]), e);
    assert s[start..i + 1] == s[start..i] + [s[i]];
  }

  lemma GrewSpaces(out: seq<string>, next: seq<string>, s: string, i: nat, j: nat)
    requires Copied(out, next, s, i, j)
    ensures Grew(out, next, Piece(s, i, j, ""))
  {
    if i < j { assert [Token("", s[i..j])][1..] == []; }
  }

  /** White space inside a tag is pushed one character at a time. */
  method PushSpaces(out: seq<string>, s: string, start: nat) returns (next: seq<string>, i: nat)
    requires start <= |s|
    ensures i == SkipWhile(s, start, Space)
    ensures Grew(out, next, Piece(s, start, i, ""))
  {
    next, i := out, start;
    CopiedNothing(out, s, start);
    while i < |s| && IsSpace(s[i])
      invariant start <= i <= |s| && SkipWhile(s, i, Space) == SkipWhile(s, start, Space)
      invariant Copied(out, next, s, start, i)
    {
      SpacePushed(out, next, s, start, i);
      next := next + [EscapeHtml([s[i]])];
      i := i + 1;
    }
    GrewSpaces(out, next, s, start, i);
  }

  method ScanValue(s: string, i: nat) returns (j: nat)
    requires i <= |s|
    ensures j == ValueEnd(s, i)
  {
    j := i;
    if i < |s| && (s[i] == '"' || s[i] == '\'') {
      var q := s[i];
      j := i + 1;
      while j < |s| && s[j] != q
        invariant i < j <= |s| && QuoteEnd(s, j, q) == QuoteEnd(s, i + 1, q)
      {
        j := j + 1;
      }
      if j < |s| { j := j + 1; }
    } else {
      while j < |s| && !EndsBare(s, j)
        invariant i <= j <= |s| && BareEnd(s, j) == BareEnd(s, i)
      {
        j := j + 1;
      }
    }
  }

  method PushValue(out: seq<string>, s: string, eq: nat) returns (next: seq<string>, i: nat)
    requires At(s, eq, '=')
    ensures i == Value(s, eq).end && Grew(out, next, Value(s, eq))
  {
    var out1 := PushPiece(out, s, eq, eq + 1, "punc");
    var out2, v := PushSpaces(out1, s, eq + 1);
    GrewTwice(out, out1, out2, Piece(s, eq, eq + 1, "punc"), Piece(s, eq + 1, v, ""));
    i := ScanValue(s, v);
    next := PushPiece(out2, s, v, i, "str");
    GrewTwice(out, out2, next, Then(Piece(s, eq, eq + 1, "punc"), Piece(s, eq + 1, v, "")), Piece(s, v, i, "str"));
  }

  method PushAttribute(out: seq<string>, s: string, start: nat) returns (next: seq<string>, i: nat)
    requires start < |s| && start < SkipWhile(s, start, Name)
    ensures i == Attribute(s, start).end && Grew(out, next, Attribute(s, start))
  {
    var j := ScanWhile(s, start, Name);
    var out1 := PushPiece(out, s, start, j, "attr");
    var out2, k := PushSpaces(out1, s, j);
    GrewTwice(out, out1, out2, Piece(s, start, j, "attr"), Piece(s, j, k, ""));
    if !At(s, k, '=') { return out2, k; }
    next, i := PushValue(out2, s, k);
    GrewTwice(out, out2, next, Then(Piece(s, start, j, "attr"), Piece(s, j, k, "")), Value(s, k));
  }

  /** The pieces pushed since `out` and what is left of the tag at `i` make up the tag's rest at `start`. */
  ghost predicate Completes(out: seq<string>, next: seq<string>, s: string, start: nat, i: nat)
    requires start <= i <= |s|
  {
    && Join(next) + RenderAll(TagRest(s, i).tokens) == Join(out) + RenderAll(TagRest(s, start).tokens)
    && TagRest(s, i).end == TagRest(s, start).end
  }

  lemma CompletesStep(out: seq<string>, a: seq<string>, b: seq<string>, s: string, start: nat, i: nat, m: Lexed)
    requires start <= i < |s| && i <= m.end <= |s|
    requires Completes(out, a, s, start, i) && Grew(a, b, m)
    requires TagRest(s, i) == Then(m, TagRest(s, m.end))
    ensures Completes(out, b, s, start, m.end)
  {
    var rest := TagRest(s, m.end);
    RenderConcat(m.tokens, rest.tokens);
    Associative(Join(a), RenderAll(m.tokens), RenderAll(rest.tokens));
  }

  /** What one turn of the attribute loop pushes when it does not close the tag. */
  function TagItem(s: string, i: nat): (m: Lexed)
    requires i < |s| && s[i] != '>' && !SelfCloses(s, i)
    ensures i < m.end <= |s| && TagRest(s, i) == Then(m, TagRest(s, m.end))
  {
    if IsSpace(s[i]) || SkipWhile(s, i, Name) == i then Piece(s, i, i + 1, "") else Attribute(s, i)
  }

  method PushTagItem(out: seq<string>, s: string, start: nat) returns (next: seq<string>, i: nat)
    requires start < |s| && s[start] != '>' && !SelfCloses(s, start)
    ensures i == TagItem(s, start).end && Grew(out, next, TagItem(s, start))
  {
    if IsSpace(s[start]) {
      next := PushPiece(out, s, start, start + 1, "");
      i := start + 1;
      return;
    }
    var j := ScanWhile(s, start, Name);
    if j == start {
      next := PushPiece(out, s, start, start + 1, "");
      i := start + 1;
      return;
    }
    next, i := PushAttribute(out, s, start);
  }

  method PushTagRest(out: seq<string>, s: string, start: nat) returns (next: seq<string>, i: nat)
    requires start <= |s|
    ensures i == TagRest(s, start).end && Grew(out, next, TagRest(s, start))
  {
    next, i := out, start;
    while i < |s| && s[i] != '>'
      invariant start <= i <= |s| && Completes(out, next, s, start, i)
      decreases |s| - i
    {
      if s[i] == '/' && At(s, i + 1, '>') {
        next := PushPiece(next, s, i, i + 1, "punc");
        i := i + 1;
        return;
      }
      ghost var before, m := next, TagItem(s, i);
      ghost var at := i;
      next, i := PushTagItem(next, s, i);
      CompletesStep(out, before, next, s, start, at, m);
    }
  }

  method PushTagOpen(out: seq<string>, s: string, start: nat) returns (next: seq<string>, i: nat)
    requires start + 1 < |s|
    ensures i == TagOpen(s, start).end && Grew(out, next, TagOpen(s, start))
  {
    next := PushPiece(out, s, start, start + 1, "punc");
    ghost var out1 := next;
    var slash := if s[start + 1] == '/' then start + 2 else start + 1;
    next := PushPiece(next, s, start + 1, slash, "punc");
    ghost var out2 := next;
    GrewTwice(out, out1, out2, Piece(s, start, start + 1, "punc"), Piece(s, start + 1, slash, "punc"));
    i := ScanWhile(s, slash, Name);
    next := PushPiece(next, s, slash, i, "tag");
    GrewTwice(out, out2, next, Then(Piece(s, start, start + 1, "punc"), Piece(s, start + 1, slash, "punc")),
              Piece(s, slash, i, "tag"));
  }

  method PushTagClose(out: seq<string>, s: string, start: nat) returns (next: seq<string>, i: nat)
    requires start <= |s|
    ensures i == TagClose(s, start).end && Grew(out, next, TagClose(s, start))
  {
    i := if At(s, start, '>') then start + 1 else start;
    next := PushPiece(out, s, start, i, "punc");
  }

  method PushTag(out: seq<string>, s: string, start: nat) returns (next: seq<string>, i: nat)
    requires start + 1 < |s|
    ensures i == Tag(s, start).end && Grew(out, next, Tag(s, start))
  {
    var out1, name := PushTagOpen(out, s, start);
    var out2, rest := PushTagRest(out1, s, name);
    GrewTwice(out, out1, out2, TagOpen(s, start), TagRest(s, name));
    next, i := PushTagClose(out2, s, rest);
    GrewTwice(out, out2, next, Then(TagOpen(s, start), TagRest(s, name)), TagClose(s, rest));
  }

  ghost predicate RendersMarkup(out: seq<string>, s: string, i: nat) {
    i <= |s| && Join(out) + RenderAll(MarkupTokens(s, i)) == RenderAll(MarkupTokens(s, 0))
  }

  lemma MarkupPushed(out: seq<string>, next: seq<string>, s: string, i: nat)
    requires i < |s| && RendersMarkup(out, s, i) && Grew(out, next, MarkupNext(s, i))
    ensures RendersMarkup(next, s, MarkupNext(s, i).end)
  {
    var l := MarkupNext(s, i);
    RenderConcat(l.tokens, MarkupTokens(s, l.end));
    Associative(Join(out), RenderAll(l.tokens), RenderAll(MarkupTokens(s, l.end)));
  }

  lemma MarkupIsLossless(s: string)
    ensures Lossless(RenderAll(MarkupTokens(s, 0)), s)
  {
    MarkupPartition(s, 0);
    assert s[0..|s|] == s;
    RenderIsLossless(MarkupTokens(s, 0));
  }

  /** One turn of the markup loop. */
  method PushMarkup(out: seq<string>, s: string, start: nat) returns (next: seq<string>, i: nat)
    requires start < |s|
    ensures i == MarkupNext(s, start).end && Grew(out, next, MarkupNext(s, start))
  {
    if StartsWith(s, "<!--", start) {
      var j := IndexOf(s, "-->", start + 4);
      i := if j < 0 then |s| else j + 3;
      next := PushPiece(out, s, start, i, "comment");
    } else if s[start] == '<' && (At(s, start + 1, '!') || At(s, start + 1, '?')) {
      var j := IndexOf(s, ">", start + 2);
      i := if j < 0 then |s| else j + 1;
      next := PushPiece(out, s, start, i, "comment");
    } else if s[start] == '<' && start + 1 < |s| && (s[start + 1] == '/' || IsLetter(s[start + 1])) {
      next, i := PushTag(out, s, start);
    } else if s[start] == '<' {
      i := start + 1;
      next := PushPiece(out, s, start, i, "");
    } else {
      var j := IndexOf(s, "<", start);
      i := if j < 0 then |s| else j;
      var part := WrapReferences(EscapeHtml(s[start..i]));
      next := out + [part];
      WrapIsTokens(s[start..i]);
      JoinPush(out, part);
    }
  }

  method HighlightMarkup(s: string) returns (html: string)
    ensures html == RenderAll(MarkupTokens(s, 0))
    ensures Lossless(html, s)
  {
    var out: seq<string> := [];
    var i := 0;
    while i < |s|
      invariant 0 <= i <= |s| && RendersMarkup(out, s, i)
      decreases |s| - i
    {
      var next, j := PushMarkup(out, s, i);
      MarkupPushed(out, next, s, i);
      out, i := next, j;
    }
    html := Join(out);
    MarkupIsLossless(s);
  }
}
