/** The lexemes of JSON and JavaScript said from the outside: what each one is and where it ends, from its own text and
    the text after it.  These conditions hold of the highlighter's lexemes and of no others. */
module LexemeEnds {
  import opened Html
  import opened Lexemes
  import TextLaws

  // ---------------------------------------------------------------- the classes of characters, spelled out

  const DIGITS := "0123456789"

  lemma DigitsExactly(c: char)
    ensures In(c, Digit) <==> c in DIGITS
    ensures In(c, NumberTail) <==> c in DIGITS || c in ".eE+-"
    ensures In(c, JsNumberTail) <==> c in DIGITS || c in "w.xX"
    ensures In(c, Hex) <==> c in DIGITS || c in "abcdefABCDEF"
  {
    if '0' <= c <= '9' { assert DIGITS[c as int - '0' as int] == c; }
  }

  lemma LettersExactly(c: char)
    ensures In(c, Letter) <==> c in TextLaws.UPPER || c in TextLaws.LOWER
  {
    if 'A' <= c <= 'Z' { TextLaws.Alphabets(c as int - 'A' as int); }
    if 'a' <= c <= 'z' { TextLaws.Alphabets(c as int - 'a' as int); }
    if i :| 0 <= i < |TextLaws.UPPER| && TextLaws.UPPER[i] == c { TextLaws.Alphabets(i); }
    if i :| 0 <= i < |TextLaws.LOWER| && TextLaws.LOWER[i] == c { TextLaws.Alphabets(i); }
  }

  lemma NamesExactly(c: char)
    ensures In(c, Name) <==> c in TextLaws.UPPER || c in TextLaws.LOWER || c in DIGITS || c in "_:.-"
    ensures In(c, JsStart) <==> c in TextLaws.UPPER || c in TextLaws.LOWER || c in "_$"
    ensures In(c, JsTail) <==> c in TextLaws.UPPER || c in TextLaws.LOWER || c in DIGITS || c in "_$"
  {
    LettersExactly(c);
    DigitsExactly(c);
  }

  // ---------------------------------------------------------------- ends

  /** From place `from` on all characters are of the class, and none follows. */
  ghost predicate RunEnds(t: string, from: nat, rest: string, k: Class) {
    && (forall x :: from <= x < |t| ==> In(t[x], k))
    && (rest == "" || !In(rest[0], k))
  }

  /** A quoted literal closes at its last character and nowhere before; or the text ends without closing it. */
  ghost predicate QuoteEnds(t: string, rest: string) {
    && t != "" && (forall k :: 1 <= k < |t| - 1 ==> !Closes(t, 1, t[0], k))
    && (rest == "" || (2 <= |t| && Closes(t, 1, t[0], |t| - 1)))
  }

  /** A line comment stops in front of the first line break. */
  ghost predicate LineEnds(t: string, rest: string) {
    '\n' !in t && (rest == "" || rest[0] == '\n')
  }

  /** A lexeme with an opening of n characters runs through the first closing mark after it, or to the end. */
  ghost predicate MarkEnds(t: string, n: nat, mark: string, rest: string) {
    && n <= |t| && (forall x :: n <= x < |t| - |mark| ==> !Occurs(t, mark, x))
    && (rest == "" || (n <= |t| - |mark| && Occurs(t, mark, |t| - |mark|)))
  }

  /** After white space comes a colon. */
  ghost predicate ColonNext(rest: string) {
    exists k :: 0 <= k < |rest| && rest[k] == ':' && forall x :: 0 <= x < k ==> IsSpace(rest[x])
  }

  ghost predicate JsonLexeme(t: Token, rest: string) {
    && t.text != ""
    && var all, ch := t.text + rest, t.text[0];
       if ch == '"' then QuoteEnds(t.text, rest) && t.cls == if ColonNext(rest) then "key" else "str"
       else if ch in DIGITS || (ch == '-' && 1 < |all| && (all[1] in DIGITS || all[1] == '.')) then
         RunEnds(t.text, 1, rest, NumberTail) && t.cls == "num"
       else if ch in TextLaws.UPPER || ch in TextLaws.LOWER then
         RunEnds(t.text, 1, rest, Letter) && t.cls == if t.text in {"true", "false", "null"} then "kw" else ""
       else |t.text| == 1 && t.cls == if ch in "{}[]:," then "punc" else ""
  }

  ghost predicate JsLexeme(t: Token, rest: string) {
    && t.text != ""
    && var all, ch := t.text + rest, t.text[0];
       if "//" <= all then LineEnds(t.text, rest) && t.cls == "comment"
       else if "/*" <= all then MarkEnds(t.text, 2, "*/", rest) && t.cls == "comment"
       else if ch in "\"'`" then QuoteEnds(t.text, rest) && t.cls == "str"
       else if ch in DIGITS then RunEnds(t.text, 1, rest, JsNumberTail) && t.cls == "num"
       else if ch in TextLaws.UPPER || ch in TextLaws.LOWER || ch in "_$" then
         RunEnds(t.text, 1, rest, JsTail) && t.cls == if t.text in JS_KEYWORDS then "kw" else ""
       else |t.text| == 1 && t.cls == ""
  }

  ghost predicate Lexeme(lang: Lang, t: Token, rest: string) {
    if lang.Json? then JsonLexeme(t, rest) else JsLexeme(t, rest)
  }

  /** Every token is a lexeme in front of the tokens after it. */
  ghost predicate Lexed(lang: Lang, ts: seq<Token>) {
    forall j :: 0 <= j < |ts| ==> Lexeme(lang, ts[j], Text(ts[j + 1..]))
  }

  // ---------------------------------------------------------------- the highlighter's lexemes end so

  lemma RunEndsAt(s: string, i: nat, k: Class)
    requires i < |s|
    ensures var j := SkipWhile(s, i + 1, k); RunEnds(s[i..j], 1, s[j..], k)
  {
  }

  lemma {:induction false} ProtectedShifts(s: string, i: nat, j: nat, k: nat)
    requires i + 1 <= k <= j <= |s|
    ensures Protected(s, i + 1, k) == Protected(s[i..j], 1, k - i)
  {
    if i + 1 < k { ProtectedShifts(s, i, j, k - 1); }
  }

  lemma ClosesShifts(s: string, i: nat, j: nat, quote: char, k: nat)
    requires i + 1 <= k < j <= |s|
    ensures Closes(s, i + 1, quote, k) <==> Closes(s[i..j], 1, quote, k - i)
  {
    ProtectedShifts(s, i, j, k);
  }

  lemma QuoteEndsCut(s: string, i: nat, start: nat, j: nat)
    requires i + 1 == start <= j <= |s| && forall k :: start <= k < j - 1 ==> !Closes(s, start, s[i], k)
    requires j == |s| || (start < j && Closes(s, start, s[i], j - 1))
    ensures QuoteEnds(s[i..j], s[j..])
  {
    forall k | 1 <= k < j - i - 1 ensures !Closes(s[i..j], 1, s[i], k) { ClosesShifts(s, i, j, s[i], i + k); }
    if i + 1 < j { ClosesShifts(s, i, j, s[i], j - 1); }
  }

  lemma QuoteEndsAt(s: string, i: nat)
    requires i < |s| && s[i] != '\\'
    ensures var j := LiteralEnd(s, i + 1, s[i], false); QuoteEnds(s[i..j], s[j..])
  {
    LiteralEndsAtFirstQuote(s, i + 1, s[i], i + 1);
    QuoteEndsCut(s, i, i + 1, LiteralEnd(s, i + 1, s[i], false));
  }

  lemma OccursShifts(s: string, i: nat, j: nat, mark: string, x: nat)
    requires i <= j <= |s| && i + x + |mark| <= j
    ensures Occurs(s[i..j], mark, x) <==> Occurs(s, mark, i + x)
  {
    var a, b := s[i..j][x..x + |mark|], s[i + x..i + x + |mark|];
    assert forall k :: 0 <= k < |mark| ==> a[k] == s[i..j][x + k] == s[i + x + k] == b[k];
    assert a == b;
  }

  lemma MarkEndsAt(s: string, i: nat, n: nat, mark: string)
    requires i + n <= |s|
    ensures var j := Through(s, mark, i + n); MarkEnds(s[i..j], n, mark, s[j..])
  {
    var j := Through(s, mark, i + n);
    forall x | n <= x < |s[i..j]| - |mark| ensures !Occurs(s[i..j], mark, x) { OccursShifts(s, i, j, mark, x); }
    if IndexOf(s, mark, i + n) >= 0 { OccursShifts(s, i, j, mark, j - i - |mark|); }
  }

  lemma LineEndsAt(s: string, i: nat)
    requires i < |s| && StartsWith(s, "//", i)
    ensures var j := JsNext(s, i).1; LineEnds(s[i..j], s[j..])
  {
    var j := JsNext(s, i).1;
    forall x | i <= x < j ensures s[x] != '\n' {
      assert !Occurs(s, "\n", x);
      assert s[x..x + 1] == [s[x]];
    }
    if j < |s| { assert Occurs(s, "\n", j); }
  }

  lemma ColonAt(s: string, i: nat)
    requires i < |s| && s[i] == '"'
    ensures var (cls, j) := JsonNext(s, i); cls == "key" <==> ColonNext(s[j..])
  {
    var (cls, j) := JsonNext(s, i);
    KeyBeforeColon(s, i);
    if k :| j <= k < |s| && s[k] == ':' && forall x :: j <= x < k ==> IsSpace(s[x]) {
      assert s[j..][k - j] == ':';
    }
    if k :| 0 <= k < |s[j..]| && s[j..][k] == ':' && forall x :: 0 <= x < k ==> IsSpace(s[j..][x]) {
      assert s[j + k] == ':';
      forall x | j <= x < j + k ensures IsSpace(s[x]) { assert s[x] == s[j..][x - j]; }
    }
  }

  lemma JsonNextEnds(s: string, i: nat)
    requires i < |s|
    ensures var (cls, j) := JsonNext(s, i); JsonLexeme(Token(cls, s[i..j]), s[j..])
  {
    var (cls, j) := JsonNext(s, i);
    assert s[i..j] + s[j..] == s[i..];
    DigitsExactly(s[i]);
    LettersExactly(s[i]);
    if i + 1 < |s| { DigitsExactly(s[i + 1]); }
    if s[i] == '"' {
      QuoteEndsAt(s, i);
      ColonAt(s, i);
    } else if StartsNumber(s, i) {
      RunEndsAt(s, i, NumberTail);
    } else if IsLetter(s[i]) {
      RunEndsAt(s, i, Letter);
    }
  }

  lemma JsNextEnds(s: string, i: nat)
    requires i < |s|
    ensures var (cls, j) := JsNext(s, i); JsLexeme(Token(cls, s[i..j]), s[j..])
  {
    var (cls, j) := JsNext(s, i);
    assert s[i..j] + s[j..] == s[i..];
    DigitsExactly(s[i]);
    NamesExactly(s[i]);
    if StartsWith(s, "//", i) {
      LineEndsAt(s, i);
    } else if StartsWith(s, "/*", i) {
      MarkEndsAt(s, i, 2, "*/");
    } else if s[i] in "\"'`" {
      QuoteEndsAt(s, i);
    } else if IsDigit(s[i]) {
      RunEndsAt(s, i, JsNumberTail);
    } else if In(s[i], JsStart) {
      RunEndsAt(s, i, JsTail);
    }
  }

  lemma LexedCons(lang: Lang, t: Token, ts: seq<Token>)
    requires Lexeme(lang, t, Text(ts)) && Lexed(lang, ts)
    ensures Lexed(lang, [t] + ts)
  {
    var all := [t] + ts;
    assert all[1..] == ts;
    forall k | 0 <= k < |all| ensures Lexeme(lang, all[k], Text(all[k + 1..])) {
      if k > 0 {
        assert all[k + 1..] == ts[k..];
        assert Lexeme(lang, ts[k - 1], Text(ts[k..]));
      }
    }
  }

  lemma NextEnds(lang: Lang, s: string, i: nat)
    requires i < |s|
    ensures var (cls, j) := Next(lang, s, i); Lexeme(lang, Token(cls, s[i..j]), s[j..])
  {
    if lang.Json? { JsonNextEnds(s, i); } else { JsNextEnds(s, i); }
  }

  lemma {:induction false} TokensLexed(lang: Lang, s: string, i: nat)
    requires i <= |s|
    ensures Lexed(lang, Tokens(lang, s, i))
    decreases |s| - i
  {
    if i < |s| {
      var (cls, j) := Next(lang, s, i);
      NextEnds(lang, s, i);
      TokensLexed(lang, s, j);
      TokensPartition(lang, s, j);
      LexedCons(lang, Token(cls, s[i..j]), Tokens(lang, s, j));
    }
  }

  // ---------------------------------------------------------------- and nothing else does

  /** Two splits of one text after different first pieces: the shorter piece is followed by the longer one's next. */
  lemma Longer(t: string, r: string, u: string, q: string)
    requires t + r == u + q && |t| <= |u|
    ensures t <= u && (|t| < |u| ==> r != "" && r[0] == u[|t|])
  {
    assert t == (t + r)[..|t|] == u[..|t|];
    if |t| < |u| { assert (t + r)[|t|] == u[|t|]; }
  }

  lemma {:induction false} ProtectedPrefix(t: string, u: string, k: nat)
    requires 1 <= k <= |t| && t <= u
    ensures Protected(t, 1, k) == Protected(u, 1, k)
  {
    if 1 < k { ProtectedPrefix(t, u, k - 1); }
  }

  lemma OneQuoteEnd(t: string, r: string, u: string, q: string)
    requires t + r == u + q && |t| <= |u| && QuoteEnds(t, r) && QuoteEnds(u, q)
    ensures t == u
  {
    Longer(t, r, u, q);
    if |t| < |u| {
      ProtectedPrefix(t, u, |t| - 1);
      assert Closes(u, 1, u[0], |t| - 1);
    }
  }

  lemma OneRunEnd(t: string, r: string, u: string, q: string, k: Class)
    requires t + r == u + q && 1 <= |t| <= |u| && RunEnds(t, 1, r, k) && RunEnds(u, 1, q, k)
    ensures t == u
  {
    Longer(t, r, u, q);
  }

  lemma OneLineEnd(t: string, r: string, u: string, q: string)
    requires t + r == u + q && |t| <= |u| && LineEnds(t, r) && LineEnds(u, q)
    ensures t == u
  {
    Longer(t, r, u, q);
  }

  lemma PrefixOccurs(t: string, u: string, mark: string, x: int)
    requires t <= u
    ensures 0 <= x <= |t| - |mark| ==> Occurs(t, mark, x) == Occurs(u, mark, x)
  {
    if 0 <= x <= |t| - |mark| { assert u[x..x + |mark|] == t[x..x + |mark|]; }
  }

  lemma OneMarkEnd(t: string, r: string, u: string, q: string, n: nat, mark: string)
    requires t + r == u + q && |t| <= |u| && MarkEnds(t, n, mark, r) && MarkEnds(u, n, mark, q)
    ensures t == u
  {
    Longer(t, r, u, q);
    PrefixOccurs(t, u, mark, |t| - |mark|);
  }

  lemma SameJson(t: Token, r: string, u: Token, q: string)
    requires t.text + r == u.text + q && |t.text| <= |u.text| && JsonLexeme(t, r) && JsonLexeme(u, q)
    requires t.text[0] == u.text[0]
    ensures t.text == u.text
  {
    var ch := t.text[0];
    if ch == '"' {
      OneQuoteEnd(t.text, r, u.text, q);
    } else if ch in TextLaws.UPPER || ch in TextLaws.LOWER {
      LettersExactly(ch);
      OneRunEnd(t.text, r, u.text, q, Letter);
    } else if |u.text| == 1 {
      Longer(t.text, r, u.text, q);
    } else {
      OneRunEnd(t.text, r, u.text, q, NumberTail);
    }
  }

  lemma SameJs(t: Token, r: string, u: Token, q: string)
    requires t.text + r == u.text + q && |t.text| <= |u.text| && JsLexeme(t, r) && JsLexeme(u, q)
    requires t.text[0] == u.text[0]
    ensures t.text == u.text
  {
    var all, ch := t.text + r, t.text[0];
    if "//" <= all {
      OneLineEnd(t.text, r, u.text, q);
    } else if "/*" <= all {
      OneMarkEnd(t.text, r, u.text, q, 2, "*/");
    } else if ch in "\"'`" {
      OneQuoteEnd(t.text, r, u.text, q);
    } else if ch in DIGITS {
      OneRunEnd(t.text, r, u.text, q, JsNumberTail);
    } else if |u.text| == 1 {
      Longer(t.text, r, u.text, q);
    } else {
      OneRunEnd(t.text, r, u.text, q, JsTail);
    }
  }

  lemma OneLexeme(lang: Lang, t: Token, r: string, u: Token, q: string)
    requires t.text + r == u.text + q && |t.text| <= |u.text|
    requires Lexeme(lang, t, r) && Lexeme(lang, u, q)
    ensures t == u && r == q
  {
    var all := t.text + r;
    assert t.text[0] == all[0] == u.text[0];
    if lang.Json? { SameJson(t, r, u, q); } else { SameJs(t, r, u, q); }
    assert r == all[|t.text|..] == q;
  }

  lemma TextOf(ts: seq<Token>)
    requires ts != []
    ensures Text(ts) == ts[0].text + Text(ts[1..])
  {
  }

  lemma TailLexed(lang: Lang, ts: seq<Token>)
    requires Lexed(lang, ts) && ts != []
    ensures Lexeme(lang, ts[0], Text(ts[1..])) && Lexed(lang, ts[1..])
  {
    forall j | 0 <= j < |ts| - 1 ensures Lexeme(lang, ts[1..][j], Text(ts[1..][j + 1..])) {
      assert ts[1..][j + 1..] == ts[j + 2..];
      assert Lexeme(lang, ts[j + 1], Text(ts[j + 2..]));
    }
  }

  /** There is one way only to cut a text into lexemes. */
  lemma {:induction false} OneLexing(lang: Lang, ts: seq<Token>, us: seq<Token>)
    requires Lexed(lang, ts) && Lexed(lang, us) && Text(ts) == Text(us)
    ensures ts == us
  {
    if ts != [] { TextOf(ts); TailLexed(lang, ts); }
    if us != [] { TextOf(us); TailLexed(lang, us); }
    if ts != [] && us != [] {
      if |ts[0].text| <= |us[0].text| {
        OneLexeme(lang, ts[0], Text(ts[1..]), us[0], Text(us[1..]));
      } else {
        OneLexeme(lang, us[0], Text(us[1..]), ts[0], Text(ts[1..]));
      }
      OneLexing(lang, ts[1..], us[1..]);
      assert ts == [ts[0]] + ts[1..] && us == [us[0]] + us[1..];
    }
  }

  /** The highlighter's tokens are the only ones that spell the text and of which every one is a lexeme in front of
      what follows it. */
  lemma TokensExactly(lang: Lang, s: string, ts: seq<Token>)
    ensures Text(ts) == s && Lexed(lang, ts) <==> ts == Tokens(lang, s, 0)
  {
    TokensLexed(lang, s, 0);
    TokensPartition(lang, s, 0);
    assert s[0..] == s;
    if Text(ts) == s && Lexed(lang, ts) { OneLexing(lang, ts, Tokens(lang, s, 0)); }
  }
}
