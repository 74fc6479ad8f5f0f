/** Escaping, tag stripping and the span discipline of highlighted text. */
module Html {
  import opened Basics

  // ---------------------------------------------------------------- escaping

  /** String.replace with a one-character global pattern. */
  function ReplaceChar(s: string, c: char, rep: string): string {
    if s == "" then "" else (if s[0] == c then rep else [s[0]]) + ReplaceChar(s[1..], c, rep)
  }

  function EscapeHtml(s: string): string {
    ReplaceChar(ReplaceChar(ReplaceChar(ReplaceChar(ReplaceChar(s,
      '&', "&amp;"), '<', "&lt;"), '>', "&gt;"), '"', "&quot;"), '\'', "&#39;")
  }

  function EscapeChar(c: char): (e: string)
    ensures |e| > 0 && '<' !in e && '>' !in e
  {
    match c
    case '&' => "&amp;"
    case '<' => "&lt;"
    case '>' => "&gt;"
    case '"' => "&quot;"
    case '\'' => "&#39;"
    case _ => [c]
  }

  /** Undoes the escapes; every other character stands for itself. */
  function Unescape(s: string): string {
    if s == "" then ""
    else if s[0] != '&' then [s[0]] + Unescape(s[1..])
    else if "&amp;" <= s then "&" + Unescape(s[5..])
    else if "&lt;" <= s then "<" + Unescape(s[4..])
    else if "&gt;" <= s then ">" + Unescape(s[4..])
    else if "&quot;" <= s then "\"" + Unescape(s[6..])
    else if "&#39;" <= s then "'" + Unescape(s[5..])
    else [s[0]] + Unescape(s[1..])
  }

  lemma {:induction false} ReplaceConcat(a: string, b: string, c: char, rep: string)
    ensures ReplaceChar(a + b, c, rep) == ReplaceChar(a, c, rep) + ReplaceChar(b, c, rep)
  {
    if a == "" {
      assert a + b == b;
    } else {
      var first := if a[0] == c then rep else [a[0]];
      ReplaceConcat(a[1..], b, c, rep);
      assert (a + b)[0] == a[0] && (a + b)[1..] == a[1..] + b;
      Associative(first, ReplaceChar(a[1..], c, rep), ReplaceChar(b, c, rep));
    }
  }

  lemma {:induction false} ReplaceAbsent(s: string, c: char, rep: string)
    requires c !in s
    ensures ReplaceChar(s, c, rep) == s
  {
    if s != "" { ReplaceAbsent(s[1..], c, rep); }
  }

  lemma ReplaceOne(c: char, d: char, rep: string)
    ensures ReplaceChar([c], d, rep) == if c == d then rep else [c]
  {
    assert [c][1..] == "";
  }

  lemma EscapeConcat(a: string, b: string)
    ensures EscapeHtml(a + b) == EscapeHtml(a) + EscapeHtml(b)
  {
    var a1, b1 := ReplaceChar(a, '&', "&amp;"), ReplaceChar(b, '&', "&amp;");
    ReplaceConcat(a, b, '&', "&amp;");
    var a2, b2 := ReplaceChar(a1, '<', "&lt;"), ReplaceChar(b1, '<', "&lt;");
    ReplaceConcat(a1, b1, '<', "&lt;");
    var a3, b3 := ReplaceChar(a2, '>', "&gt;"), ReplaceChar(b2, '>', "&gt;");
    ReplaceConcat(a2, b2, '>', "&gt;");
    var a4, b4 := ReplaceChar(a3, '"', "&quot;"), ReplaceChar(b3, '"', "&quot;");
    ReplaceConcat(a3, b3, '"', "&quot;");
    ReplaceConcat(a4, b4, '\'', "&#39;");
  }

  lemma QuotePasses(c: char)
    ensures var q := ReplaceChar([c], '"', "&quot;");
            ReplaceChar(q, '\'', "&#39;") == if c == '"' then "&quot;" else if c == '\'' then "&#39;" else [c]
  {
    ReplaceOne(c, '"', "&quot;");
    if c == '"' { ReplaceAbsent("&quot;", '\'', "&#39;"); } else { ReplaceOne(c, '\'', "&#39;"); }
  }

  lemma QuotePassesKeep(s: string)
    requires '"' !in s && '\'' !in s
    ensures ReplaceChar(ReplaceChar(s, '"', "&quot;"), '\'', "&#39;") == s
  {
    ReplaceAbsent(s, '"', "&quot;");
    ReplaceAbsent(s, '\'', "&#39;");
  }

  lemma LaterPassesKeep(s: string)
    requires '<' !in s && '>' !in s && '"' !in s && '\'' !in s
    ensures ReplaceChar(ReplaceChar(ReplaceChar(ReplaceChar(s,
              '<', "&lt;"), '>', "&gt;"), '"', "&quot;"), '\'', "&#39;") == s
  {
    ReplaceAbsent(s, '<', "&lt;");
    ReplaceAbsent(s, '>', "&gt;");
    QuotePassesKeep(s);
  }

  /** The five passes, in their order, are one pass over the characters. */
  lemma EscapeOne(c: char)
    ensures EscapeHtml([c]) == EscapeChar(c)
  {
    ReplaceOne(c, '&', "&amp;");
    if c == '&' {
      LaterPassesKeep("&amp;");
    } else {
      ReplaceOne(c, '<', "&lt;");
      if c == '<' {
        ReplaceAbsent("&lt;", '>', "&gt;");
        QuotePassesKeep("&lt;");
      } else {
        ReplaceOne(c, '>', "&gt;");
        if c == '>' { QuotePassesKeep("&gt;"); } else { QuotePasses(c); }
      }
    }
  }

  lemma EscapeCons(s: string)
    requires s != ""
    ensures EscapeHtml(s) == EscapeChar(s[0]) + EscapeHtml(s[1..])
  {
    assert s == [s[0]] + s[1..];
    EscapeConcat([s[0]], s[1..]);
    EscapeOne(s[0]);
  }

  lemma {:induction false} EscapeHasNoAngles(s: string)
    ensures '<' !in EscapeHtml(s) && '>' !in EscapeHtml(s)
  {
    if s != "" {
      EscapeCons(s);
      EscapeHasNoAngles(s[1..]);
    }
  }

  lemma UnescapeChar(c: char, rest: string)
    ensures Unescape(EscapeChar(c) + rest) == [c] + Unescape(rest)
  {
    var e := EscapeChar(c);
    var s := e + rest;
    assert s[|e|..] == rest;
    if c !in "&<>\"'" {
      assert s[0] == c;
    } else {
      assert s[0] == '&' && s[1] == e[1];
      if c == '<' || c == '>' { assert "&lt;" <= s || "&gt;" <= s; }
    }
  }

  lemma {:induction false} UnescapeEscape(s: string)
    ensures Unescape(EscapeHtml(s)) == s
  {
    if s != "" {
      EscapeCons(s);
      UnescapeChar(s[0], EscapeHtml(s[1..]));
      UnescapeEscape(s[1..]);
    }
  }

  // ---------------------------------------------------------------- tags

  /** The tag a text starts with: up to and including its first '>'. */
  function TagOf(s: string): (t: string)
    requires s != ""
    ensures |t| > 0 && t <= s
  {
    if |s| == 1 || s[0] == '>' then s[..1] else [s[0]] + TagOf(s[1..])
  }

  /** Deletes every tag. */
  function StripTags(s: string): string
    decreases |s|
  {
    if s == "" then ""
    else if s[0] == '<' then StripTags(s[|TagOf(s)|..])
    else [s[0]] + StripTags(s[1..])
  }

  const CLASSES: set<string> := {"key", "str", "num", "kw", "punc", "comment", "tag", "attr"}

  function OpenTag(cls: string): string {
    "<span class=\"tok-" + cls + "\">"
  }

  const CLOSE_TAG := "</span>"

  /** Spans alternate between opening and closing, so they are balanced and never nested, and no angle
      bracket occurs outside them. */
  ghost predicate Balanced(s: string, open: bool)
    decreases |s|
  {
    if s == "" then !open
    else if s[0] == '<' then
      var t := TagOf(s);
      && (if open then t == CLOSE_TAG else exists cls :: cls in CLASSES && t == OpenTag(cls))
      && Balanced(s[|t|..], !open)
    else s[0] != '>' && Balanced(s[1..], open)
  }

  // ---------------------------------------------------------------- tokens

  /** A piece of source text; class "" means plain text outside any span. */
  datatype Token = Token(cls: string, text: string)

  function Render(t: Token): string {
    if t.cls == "" then EscapeHtml(t.text) else OpenTag(t.cls) + EscapeHtml(t.text) + CLOSE_TAG
  }

  function RenderAll(ts: seq<Token>): string {
    if ts == [] then "" else Render(ts[0]) + RenderAll(ts[1..])
  }

  function Text(ts: seq<Token>): string {
    if ts == [] then "" else ts[0].text + Text(ts[1..])
  }

  ghost predicate Classified(ts: seq<Token>) {
    forall t <- ts :: t.cls == "" || t.cls in CLASSES
  }

  lemma {:induction false} RenderConcat(a: seq<Token>, b: seq<Token>)
    ensures RenderAll(a + b) == RenderAll(a) + RenderAll(b)
  {
    if a == [] {
      assert a + b == b;
    } else {
      assert (a + b)[1..] == a[1..] + b && (a + b)[0] == a[0];
      var first, more := Render(a[0]), RenderAll(a[1..]);
      RenderConcat(a[1..], b);
      Associative(first, more, RenderAll(b));
      assert RenderAll(a + b) == first + (more + RenderAll(b));
    }
  }

  lemma {:induction false} TextConcat(a: seq<Token>, b: seq<Token>)
    ensures Text(a + b) == Text(a) + Text(b)
  {
    if a == [] {
      assert a + b == b;
    } else {
      TextConcat(a[1..], b);
      assert (a + b)[1..] == a[1..] + b;
      Associative(a[0].text, Text(a[1..]), Text(b));
    }
  }

  lemma {:induction false} TagOfClosed(body: string, rest: string)
    requires '>' !in body
    ensures TagOf(body + ">" + rest) == body + ">"
  {
    var s := body + ">" + rest;
    if body != "" {
      TagOfClosed(body[1..], rest);
      assert s[1..] == body[1..] + ">" + rest;
    }
  }

  /** Text without angle brackets passes through. */
  lemma {:induction false} PlainPrefix(plain: string, rest: string, open: bool)
    requires '<' !in plain && '>' !in plain
    ensures StripTags(plain + rest) == plain + StripTags(rest)
    ensures Balanced(plain + rest, open) == Balanced(rest, open)
  {
    var s := plain + rest;
    if plain == "" {
      assert s == rest;
    } else {
      PlainPrefix(plain[1..], rest, open);
      assert s[1..] == plain[1..] + rest;
    }
  }

  lemma TagPrefix(body: string, rest: string, open: bool)
    requires body != "" && body[0] == '<' && '>' !in body
    requires if open then body + ">" == CLOSE_TAG else exists cls :: cls in CLASSES && body + ">" == OpenTag(cls)
    ensures StripTags(body + ">" + rest) == StripTags(rest)
    ensures Balanced(body + ">" + rest, open) == Balanced(rest, !open)
  {
    TagOfClosed(body, rest);
    assert (body + ">" + rest)[|body| + 1..] == rest;
  }

  lemma RenderSpan(cls: string, e: string, rest: string)
    requires cls in CLASSES && '<' !in e && '>' !in e
    ensures StripTags(OpenTag(cls) + (e + (CLOSE_TAG + rest))) == e + StripTags(rest)
    ensures Balanced(OpenTag(cls) + (e + (CLOSE_TAG + rest)), false) == Balanced(rest, false)
  {
    var body := "<span class=\"tok-" + cls + "\"";
    assert '>' !in body && body + ">" == OpenTag(cls);
    TagPrefix(body, e + (CLOSE_TAG + rest), false);
    PlainPrefix(e, CLOSE_TAG + rest, true);
    assert "</span" + ">" == CLOSE_TAG;
    TagPrefix("</span", rest, true);
  }

  lemma RenderToken(t: Token, rest: string)
    requires t.cls == "" || t.cls in CLASSES
    ensures StripTags(Render(t) + rest) == EscapeHtml(t.text) + StripTags(rest)
    ensures Balanced(Render(t) + rest, false) == Balanced(rest, false)
  {
    var e := EscapeHtml(t.text);
    EscapeHasNoAngles(t.text);
    if t.cls == "" {
      PlainPrefix(e, rest, false);
    } else {
      RenderSpan(t.cls, e, rest);
      Associative(OpenTag(t.cls) + e, CLOSE_TAG, rest);
      Associative(OpenTag(t.cls), e, CLOSE_TAG + rest);
    }
  }

  /** Whatever the tokens: deleting the tags and undoing the escapes gives back their text, and the spans
      are balanced and unnested. */
  lemma {:induction false} RenderIsLossless(ts: seq<Token>)
    requires Classified(ts)
    ensures StripTags(RenderAll(ts)) == EscapeHtml(Text(ts))
    ensures Unescape(StripTags(RenderAll(ts))) == Text(ts)
    ensures Balanced(RenderAll(ts), false)
  {
    if ts != [] {
      RenderToken(ts[0], RenderAll(ts[1..]));
      RenderIsLossless(ts[1..]);
      EscapeConcat(ts[0].text, Text(ts[1..]));
    }
    UnescapeEscape(Text(ts));
  }

  // ---------------------------------------------------------------- output buffers

  function Join(parts: seq<string>): string {
    if parts == [] then "" else Join(parts[..|parts| - 1]) + parts[|parts| - 1]
  }

  lemma JoinPush(parts: seq<string>, part: string)
    ensures Join(parts + [part]) == Join(parts) + part
  {
    assert (parts + [part])[..|parts|] == parts;
  }
}
