/** The lexical structure the highlighter follows: how far each lexeme reaches and which class it gets. */
module Lexemes {
  import opened Html

  // ---------------------------------------------------------------- character classes

  datatype Class = Space | Digit | NumberTail | Letter | Name | JsNumberTail | JsStart | JsTail | Hex

  predicate IsDigit(c: char) { '0' <= c <= '9' }
  predicate IsLetter(c: char) { 'a' <= c <= 'z' || 'A' <= c <= 'Z' }
  predicate IsWord(c: char) { IsLetter(c) || IsDigit(c) || c == '_' }

  predicate IsSpace(c: char) {
    c in " \t\n\r" || c == '\U{0B}' || c == '\U{0C}' || c == '\U{A0}' || c == '\U{1680}'
    || '\U{2000}' <= c <= '\U{200A}' || c == '\U{2028}' || c == '\U{2029}' || c == '\U{202F}'
    || c == '\U{205F}' || c == '\U{3000}' || c == '\U{FEFF}'
  }

  predicate In(c: char, k: Class) {
    match k
    case Space => IsSpace(c)
    case Digit => IsDigit(c)
    case NumberTail => IsDigit(c) || c in ".eE+-"
    case Letter => IsLetter(c)
    case Name => IsWord(c) || c in ":.-"
    case JsNumberTail => IsDigit(c) || c in "w.xX"
    case JsStart => IsLetter(c) || c in "_$"
    case JsTail => IsWord(c) || c == '$'
    case Hex => IsDigit(c) || 'a' <= c <= 'f' || 'A' <= c <= 'F'
  }

  /** s[i], or a character that belongs to nothing where JavaScript gives undefined. */
  predicate At(s: string, i: nat, c: char) {
    i < |s| && s[i] == c
  }

  // ---------------------------------------------------------------- reach of a lexeme

  function SkipWhile(s: string, i: nat, k: Class): (j: nat)
    requires i <= |s|
    ensures i <= j <= |s|
    ensures forall x :: i <= x < j ==> In(s[x], k)
    ensures j < |s| ==> !In(s[j], k)
    decreases |s| - i
  {
    if i < |s| && In(s[i], k) then SkipWhile(s, i + 1, k) else i
  }

  /** The end of a quoted literal whose body starts at `j`: just past the first quote that no backslash
      protects, or the end of the text. */
  function LiteralEnd(s: string, j: nat, quote: char, esc: bool): (e: nat)
    requires j <= |s|
    ensures j <= e <= |s|
    decreases |s| - j
  {
    if j == |s| then j
    else if esc then LiteralEnd(s, j + 1, quote, false)
    else if s[j] == '\\' then LiteralEnd(s, j + 1, quote, true)
    else if s[j] == quote then j + 1
    else LiteralEnd(s, j + 1, quote, false)
  }

  predicate Occurs(s: string, pat: string, i: nat) {
    i + |pat| <= |s| && s[i..i + |pat|] == pat
  }

  /** String.indexOf: the first place at or after `i` where `pat` starts, or -1. */
  function IndexOf(s: string, pat: string, i: nat): (j: int)
    requires i <= |s|
    ensures j == -1 || (i <= j && j + |pat| <= |s|)
    ensures 0 <= j ==> Occurs(s, pat, j)
    ensures forall x :: i <= x && (j < 0 || x < j) ==> !Occurs(s, pat, x)
    decreases |s| - i
  {
    if Occurs(s, pat, i) then i
    else if i == |s| then -1
    else IndexOf(s, pat, i + 1)
  }

  predicate StartsWith(s: string, pat: string, i: nat)
    requires i <= |s|
  {
    pat <= s[i..]
  }

  /** The end of a lexeme that runs to the end of the next `pat`, or to the end of the text. */
  function Through(s: string, pat: string, i: nat): (j: nat)
    requires i <= |s|
    ensures i <= j <= |s|
  {
    var j := IndexOf(s, pat, i);
    if j < 0 then |s| else j + |pat|
  }

  // ---------------------------------------------------------------- JSON and JavaScript

  datatype Lang = Json | Js

  const JS_KEYWORDS: set<string> :=
    {"const", "let", "var", "function", "return", "if", "else", "for", "while", "do", "switch",
     "case", "break", "try", "catch", "finally", "throw", "new", "typeof", "instanceof",
     "class", "extends", "import", "export", "from", "default", "async", "await", "yield",
     "true", "false", "null", "undefined", "this", "of", "in"}

  /** A minus sign starts a number only in front of a digit or a dot. */
  predicate StartsNumber(s: string, i: nat)
    requires i < |s|
  {
    IsDigit(s[i]) || (s[i] == '-' && i + 1 < |s| && (IsDigit(s[i + 1]) || s[i + 1] == '.'))
  }

  predicate JsonWord(w: string) {
    w == "true" || w == "false" || w == "null"
  }

  /** The class and the end of the lexeme at `i`. */
  function JsonNext(s: string, i: nat): (r: (string, nat))
    requires i < |s|
    ensures i < r.1 <= |s| && (r.0 == "" || r.0 in CLASSES)
  {
    var ch := s[i];
    if ch == '"' then
      var j := LiteralEnd(s, i + 1, '"', false);
      (if At(s, SkipWhile(s, j, Space), ':') then "key" else "str", j)
    else if StartsNumber(s, i) then ("num", SkipWhile(s, i + 1, NumberTail))
    else if IsLetter(ch) then
      var j := SkipWhile(s, i + 1, Letter);
      (if JsonWord(s[i..j]) then "kw" else "", j)
    else (if ch in "{}[]:," then "punc" else "", i + 1)
  }

  function JsNext(s: string, i: nat): (r: (string, nat))
    requires i < |s|
    ensures i < r.1 <= |s| && (r.0 == "" || r.0 in CLASSES)
  {
    if StartsWith(s, "//", i) then
      var j := IndexOf(s, "\n", i);
      NoNewlineAt(s, i);
      ("comment", if j < 0 then |s| else j)
    else if StartsWith(s, "/*", i) then ("comment", Through(s, "*/", i + 2))
    else if s[i] in "\"'`" then ("str", LiteralEnd(s, i + 1, s[i], false))
    else if IsDigit(s[i]) then ("num", SkipWhile(s, i + 1, JsNumberTail))
    else if In(s[i], JsStart) then
      var j := SkipWhile(s, i + 1, JsTail);
      (if s[i..j] in JS_KEYWORDS then "kw" else "", j)
    else ("", i + 1)
  }

  lemma NoNewlineAt(s: string, i: nat)
    requires i < |s| && StartsWith(s, "//", i)
    ensures IndexOf(s, "\n", i) != i
  {
    assert s[i] == s[i..][0] == '/';
    assert s[i..i + 1] == [s[i]];
  }

  function Next(lang: Lang, s: string, i: nat): (r: (string, nat))
    requires i < |s|
    ensures i < r.1 <= |s| && (r.0 == "" || r.0 in CLASSES)
  {
    if lang.Json? then JsonNext(s, i) else JsNext(s, i)
  }

  function Tokens(lang: Lang, s: string, i: nat): (ts: seq<Token>)
    requires i <= |s|
    decreases |s| - i
  {
    if i == |s| then []
    else
      var (cls, j) := Next(lang, s, i);
      [Token(cls, s[i..j])] + Tokens(lang, s, j)
  }

  lemma OneTokenMore(s: string, i: nat, j: nat, cls: string, ts: seq<Token>)
    requires i <= j <= |s| && Text(ts) == s[j..] && Classified(ts) && (cls == "" || cls in CLASSES)
    ensures Text([Token(cls, s[i..j])] + ts) == s[i..] && Classified([Token(cls, s[i..j])] + ts)
  {
    var all := [Token(cls, s[i..j])] + ts;
    assert all[1..] == ts;
    assert s[i..] == s[i..j] + s[j..];
  }

  /** The lexemes partition the text. */
  lemma {:induction false} TokensPartition(lang: Lang, s: string, i: nat)
    requires i <= |s|
    ensures Text(Tokens(lang, s, i)) == s[i..]
    ensures Classified(Tokens(lang, s, i))
    decreases |s| - i
  {
    if i < |s| {
      var (cls, j) := Next(lang, s, i);
      TokensPartition(lang, s, j);
      OneTokenMore(s, i, j, cls, Tokens(lang, s, j));
    }
  }

  // ---------------------------------------------------------------- what a literal is

  /** Position k of a literal whose body starts at `start` is protected by a backslash. */
  predicate Protected(s: string, start: nat, k: nat)
    requires start <= k <= |s|
    decreases k
  {
    start < k && s[k - 1] == '\\' && !Protected(s, start, k - 1)
  }

  predicate Closes(s: string, start: nat, quote: char, k: nat)
    requires start <= k < |s|
  {
    s[k] == quote && !Protected(s, start, k)
  }

  /** A literal ends at its first unprotected quote, and only runs to the end of the text without one. */
  lemma {:induction false} LiteralEndsAtFirstQuote(s: string, start: nat, quote: char, j: nat)
    requires start <= j <= |s| && quote != '\\'
    requires forall k :: start <= k < j ==> !Closes(s, start, quote, k)
    ensures var e := LiteralEnd(s, j, quote, Protected(s, start, j));
            && (forall k :: start <= k < e - 1 ==> !Closes(s, start, quote, k))
            && ((start < e && Closes(s, start, quote, e - 1)) || e == |s|)
    decreases |s| - j
  {
    if j < |s| && !Closes(s, start, quote, j) {
      LiteralEndsAtFirstQuote(s, start, quote, j + 1);
    }
  }

  /** The colour of a JSON lexeme says what it is: literals are quoted, keywords are exactly the three
      words, numbers start like numbers, punctuation is one mark, and nothing uncoloured is any of these. */
  ghost predicate JsonKind(t: Token) {
    && t.text != ""
    && (t.cls in {"key", "str"} <==> t.text[0] == '"')
    && (t.cls == "kw" <==> JsonWord(t.text))
    && (t.cls == "num" ==> IsDigit(t.text[0]) || t.text[0] == '-')
    && (IsDigit(t.text[0]) ==> t.cls == "num")
    && (t.cls == "punc" <==> |t.text| == 1 && t.text[0] in "{}[]:,")
    && t.cls in {"", "key", "str", "kw", "num", "punc"}
  }

  lemma {:induction false} JsonKinds(s: string, i: nat)
    requires i <= |s|
    ensures forall t <- Tokens(Json, s, i) :: JsonKind(t)
    decreases |s| - i
  {
    if i < |s| {
      var (cls, j) := JsonNext(s, i);
      JsonKinds(s, j);
      assert s[i..j][0] == s[i];
    }
  }

  /** A quoted JSON lexeme is a key exactly when the next thing that is not white space is a colon. */
  lemma KeyBeforeColon(s: string, i: nat)
    requires i < |s| && s[i] == '"'
    ensures var (cls, j) := JsonNext(s, i);
            cls == "key" <==> exists k :: j <= k < |s| && s[k] == ':' && forall x :: j <= x < k ==> IsSpace(s[x])
  {
    var (cls, j) := JsonNext(s, i);
    var k := SkipWhile(s, j, Space);
    if m :| j <= m < |s| && s[m] == ':' && forall x :: j <= x < m ==> IsSpace(s[x]) {
      if m < k { assert In(s[m], Space); }
      if k < m { assert IsSpace(s[k]); }
    }
  }

  /** A JavaScript lexeme is a keyword exactly when it is one of the reserved words, a comment exactly
      when it opens like one, and a literal exactly when it opens with a quote. */
  ghost predicate JsKind(t: Token) {
    && t.text != ""
    && (t.cls == "kw" <==> t.text in JS_KEYWORDS)
    && (t.cls == "comment" <==> "//" <= t.text || "/*" <= t.text)
    && (t.cls == "str" <==> t.text[0] in "\"'`")
    && (t.cls == "num" <==> IsDigit(t.text[0]))
    && t.cls in {"", "kw", "comment", "str", "num"}
  }

  lemma JsKindOfNext(s: string, i: nat)
    requires i < |s|
    ensures var (cls, j) := JsNext(s, i); JsKind(Token(cls, s[i..j]))
  {
    var (cls, j) := JsNext(s, i);
    var text := s[i..j];
    assert text[0] == s[i];
    assert "//" <= text || "/*" <= text ==> StartsWith(s, "//", i) || StartsWith(s, "/*", i) by {
      if 2 <= |text| { assert text[1] == s[i..][1]; }
    }
  }

  lemma {:induction false} JsKinds(s: string, i: nat)
    requires i <= |s|
    ensures forall t <- Tokens(Js, s, i) :: JsKind(t)
    decreases |s| - i
  {
    if i < |s| {
      JsKindOfNext(s, i);
      JsKinds(s, JsNext(s, i).1);
    }
  }
}
