/** What a reader sees of the rendered tokens: each character in the class of the token it is from. */
module HtmlReader {
  import opened Basics
  import opened Html

  /** A character and the class it is shown in; "" for text outside any span. */
  datatype Shown = Shown(c: char, cls: string)

  function Paint(text: string, cls: string): seq<Shown> {
    if text == "" then [] else [Shown(text[0], cls)] + Paint(text[1..], cls)
  }

  function PaintAll(ts: seq<Token>): seq<Shown> {
    if ts == [] then [] else Paint(ts[0].text, ts[0].cls) + PaintAll(ts[1..])
  }

  /** The character at the front and how much of the text spells it. */
  function First(s: string): (r: (char, nat))
    requires s != ""
    ensures 0 < r.1 <= |s|
  {
    if "&amp;" <= s then ('&', 5)
    else if "&lt;" <= s then ('<', 4)
    else if "&gt;" <= s then ('>', 4)
    else if "&quot;" <= s then ('"', 6)
    else if "&#39;" <= s then ('\'', 5)
    else (s[0], 1)
  }

  /** The class a tag sets; a closing tag sets none. */
  function ClassSet(tag: string): string {
    if "<span class=\"tok-" <= tag && 19 <= |tag| then tag[17..|tag| - 2] else ""
  }

  /** Reads a text from inside or outside a span. */
  function Read(s: string, cls: string): seq<Shown>
    decreases |s|
  {
    if s == "" then []
    else if s[0] == '<' then Read(s[|TagOf(s)|..], ClassSet(TagOf(s)))
    else [Shown(First(s).0, cls)] + Read(s[First(s).1..], cls)
  }

  lemma FirstOfEscape(c: char, rest: string)
    ensures First(EscapeChar(c) + rest) == (c, |EscapeChar(c)|)
    ensures (EscapeChar(c) + rest)[0] != '<' && (EscapeChar(c) + rest)[|EscapeChar(c)|..] == rest
  {
    var e := EscapeChar(c);
    var s := e + rest;
    assert s[0] == e[0];
    if c in "&<>\"'" { assert s[1] == e[1]; }
  }

  lemma ReadOne(c: char, rest: string, cls: string)
    ensures Read(EscapeChar(c) + rest, cls) == [Shown(c, cls)] + Read(rest, cls)
  {
    FirstOfEscape(c, rest);
  }

  lemma {:induction false} ReadEscaped(text: string, rest: string, cls: string)
    ensures Read(EscapeHtml(text) + rest, cls) == Paint(text, cls) + Read(rest, cls)
  {
    if text == "" {
      assert EscapeHtml("") + rest == rest;
    } else {
      EscapeCons(text);
      Associative(EscapeChar(text[0]), EscapeHtml(text[1..]), rest);
      ReadOne(text[0], EscapeHtml(text[1..]) + rest, cls);
      ReadEscaped(text[1..], rest, cls);
      Associative([Shown(text[0], cls)], Paint(text[1..], cls), Read(rest, cls));
    }
  }

  lemma ReadTag(body: string, rest: string, cls: string)
    requires body != "" && body[0] == '<' && '>' !in body
    ensures Read(body + ">" + rest, cls) == Read(rest, ClassSet(body + ">"))
  {
    TagOfClosed(body, rest);
    assert (body + ">" + rest)[|body| + 1..] == rest;
  }

  lemma ReadSpan(cls: string, text: string, rest: string)
    requires cls in CLASSES
    ensures Read(OpenTag(cls) + (EscapeHtml(text) + (CLOSE_TAG + rest)), "") == Paint(text, cls) + Read(rest, "")
  {
    var body := "<span class=\"tok-" + cls + "\"";
    assert '>' !in body && body + ">" == OpenTag(cls);
    ReadTag(body, EscapeHtml(text) + (CLOSE_TAG + rest), "");
    assert ClassSet(OpenTag(cls)) == cls;
    ReadEscaped(text, CLOSE_TAG + rest, cls);
    assert "</span" + ">" == CLOSE_TAG;
    ReadTag("</span", rest, cls);
  }

  lemma ReadToken(t: Token, rest: string)
    requires t.cls == "" || t.cls in CLASSES
    ensures Read(Render(t) + rest, "") == Paint(t.text, t.cls) + Read(rest, "")
  {
    var e := EscapeHtml(t.text);
    if t.cls == "" {
      ReadEscaped(t.text, rest, "");
    } else {
      ReadSpan(t.cls, t.text, rest);
      Associative(OpenTag(t.cls) + e, CLOSE_TAG, rest);
      Associative(OpenTag(t.cls), e, CLOSE_TAG + rest);
    }
  }

  /** The rendered tokens show every character of their text, in order, in the class of its token. */
  lemma {:induction false} RenderShows(ts: seq<Token>)
    requires Classified(ts)
    ensures Read(RenderAll(ts), "") == PaintAll(ts)
  {
    if ts != [] {
      ReadToken(ts[0], RenderAll(ts[1..]));
      RenderShows(ts[1..]);
    }
  }
}
