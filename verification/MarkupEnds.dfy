/** Where the tokens of markup end, said from their own text and the text after them. */
module MarkupEnds {
  import opened Basics
  import opened Html
  import opened Lexemes
  import opened Markup
  import opened LexemeEnds

  /** A quoted value runs through the next quote of its kind, or to the end of the text. */
  ghost predicate ValueQuoteEnds(t: string, rest: string) {
    && t != "" && (forall k :: 1 <= k < |t| - 1 ==> t[k] != t[0])
    && (rest == "" || (2 <= |t| && t[|t| - 1] == t[0]))
  }

  /** White space, a closing bracket or a self-closing mark ends a bare value. */
  ghost predicate Stops(s: string, x: nat) {
    x < |s| && (IsSpace(s[x]) || s[x] == '>' || (s[x] == '/' && x + 1 < |s| && s[x + 1] == '>'))
  }

  ghost predicate BareEnds(t: string, rest: string) {
    && (forall x :: 0 <= x < |t| ==> !Stops(t + rest, x))
    && (rest == "" || Stops(t + rest, |t|))
  }

  /** A character reference: decimal, hexadecimal or by name. */
  ghost predicate IsReference(t: string) {
    && 3 <= |t| && t[0] == '&' && t[|t| - 1] == ';'
    && var body := t[1..|t| - 1];
       || (1 < |body| && body[0] == '#' && forall x :: 1 <= x < |body| ==> In(body[x], Digit))
       || (2 < |body| && body[0] == '#' && body[1] == 'x' && forall x :: 2 <= x < |body| ==> In(body[x], Hex))
       || forall x :: 0 <= x < |body| ==> In(body[x], Name)
  }

  /** How a token ends, by its class. */
  ghost predicate EndsWell(t: Token, rest: string) {
    && t.text != ""
    && (t.cls == "comment" ==> if "<!--" <= t.text then MarkEnds(t.text, 4, "-->", rest)
                               else MarkEnds(t.text, 2, ">", rest))
    && (t.cls in {"tag", "attr"} ==> RunEnds(t.text, 0, rest, Name))
    && (t.cls == "str" ==> if t.text[0] in "\"'" then ValueQuoteEnds(t.text, rest) else BareEnds(t.text, rest))
    && (t.cls == "kw" ==> IsReference(t.text))
  }

  /** All tokens end well in front of the tokens after them and a given text. */
  ghost predicate AllEnd(ts: seq<Token>, after: string) {
    forall j :: 0 <= j < |ts| ==> EndsWell(ts[j], Text(ts[j + 1..]) + after)
  }

  /** The tokens of a piece end well in front of the text after it. */
  ghost predicate Ends(s: string, l: Lexed) {
    l.end <= |s| && AllEnd(l.tokens, s[l.end..])
  }

  /** Every token is good in front of the text after it, whatever makes it good. */
  ghost predicate AllGood(good: (Token, string) -> bool, ts: seq<Token>, after: string) {
    forall j :: 0 <= j < |ts| ==> good(ts[j], Text(ts[j + 1..]) + after)
  }

  lemma AllGoodConcat(good: (Token, string) -> bool, a: seq<Token>, b: seq<Token>, after: string)
    requires AllGood(good, a, Text(b) + after) && AllGood(good, b, after)
    ensures AllGood(good, a + b, after)
  {
    var all := a + b;
    forall j | 0 <= j < |all| ensures good(all[j], Text(all[j + 1..]) + after) {
      if j < |a| {
        assert all[j + 1..] == a[j + 1..] + b;
        TextConcat(a[j + 1..], b);
        Associative(Text(a[j + 1..]), Text(b), after);
      } else {
        assert all[j + 1..] == b[j - |a| + 1..];
      }
    }
  }

  lemma AllEndConcat(a: seq<Token>, b: seq<Token>, after: string)
    requires AllEnd(a, Text(b) + after) && AllEnd(b, after)
    ensures AllEnd(a + b, after)
  {
    ghost var good := (t: Token, rest: string) => EndsWell(t, rest);
    assert AllGood(good, a, Text(b) + after) && AllGood(good, b, after);
    AllGoodConcat(good, a, b, after);
    assert AllGood(good, a + b, after);
  }

  lemma ThenEnds(s: string, a: Lexed, b: Lexed)
    requires Ends(s, a) && Ends(s, b) && Spells(s, a.end, b)
    ensures Ends(s, Then(a, b))
  {
    assert Text(b.tokens) + s[b.end..] == s[a.end..];
    AllEndConcat(a.tokens, b.tokens, s[b.end..]);
  }

  lemma PieceEnds(s: string, i: nat, j: nat, cls: string)
    requires i <= j <= |s| && (i < j ==> EndsWell(Token(cls, s[i..j]), s[j..]))
    ensures Ends(s, Piece(s, i, j, cls))
  {
    if i < j {
      assert [Token(cls, s[i..j])][1..] == [];
      assert "" + s[j..] == s[j..];
    }
  }

  lemma MarkPieceEnds(s: string, i: nat)
    requires i < |s|
    ensures Ends(s, Piece(s, i, i + 1, "punc")) && Ends(s, Piece(s, i, i + 1, ""))
  {
    PieceEnds(s, i, i + 1, "punc");
    PieceEnds(s, i, i + 1, "");
  }

  lemma NameEnds(s: string, i: nat, cls: string)
    requires i <= |s| && cls in {"tag", "attr"}
    ensures Ends(s, Piece(s, i, SkipWhile(s, i, Name), cls))
  {
    var j := SkipWhile(s, i, Name);
    assert RunEnds(s[i..j], 0, s[j..], Name);
    PieceEnds(s, i, j, cls);
  }

  lemma {:induction false} QuoteEndFirst(s: string, i: nat, q: char)
    requires i <= |s|
    ensures var j := QuoteEnd(s, i, q);
            && (forall k :: i <= k < j - 1 ==> s[k] != q) && (j == |s| || (i < j && s[j - 1] == q))
    decreases |s| - i
  {
    if i < |s| && s[i] != q { QuoteEndFirst(s, i + 1, q); }
  }

  lemma QuotedSlice(s: string, v: nat, j: nat)
    requires v < j <= |s| && (forall k :: v + 1 <= k < j - 1 ==> s[k] != s[v])
    requires j == |s| || (v + 1 < j && s[j - 1] == s[v])
    ensures ValueQuoteEnds(s[v..j], s[j..])
  {
  }

  lemma QuotedEnds(s: string, v: nat)
    requires v < |s|
    ensures var j := QuoteEnd(s, v + 1, s[v]); v < j && ValueQuoteEnds(s[v..j], s[j..])
  {
    QuoteEndFirst(s, v + 1, s[v]);
    QuotedSlice(s, v, QuoteEnd(s, v + 1, s[v]));
  }

  lemma {:induction false} BareEndFirst(s: string, i: nat)
    requires i <= |s|
    ensures var j := BareEnd(s, i);
            && (forall x :: i <= x < j ==> !Stops(s, x)) && (j == |s| || Stops(s, j))
    decreases |s| - i
  {
    if i < |s| && !EndsBare(s, i) { BareEndFirst(s, i + 1); }
  }

  lemma BareValueEnds(s: string, v: nat)
    requires v <= |s|
    ensures var j := BareEnd(s, v); BareEnds(s[v..j], s[j..])
  {
    var j := BareEnd(s, v);
    BareEndFirst(s, v);
    assert s[v..j] + s[j..] == s[v..];
    forall x | 0 <= x < |s[v..]| ensures Stops(s[v..], x) <==> Stops(s, v + x) {
    }
  }

  lemma ValueStringEnds(s: string, v: nat)
    requires v <= |s|
    ensures Ends(s, Piece(s, v, ValueEnd(s, v), "str"))
  {
    var j := ValueEnd(s, v);
    if At(s, v, '"') || At(s, v, '\'') { QuotedEnds(s, v); } else { BareValueEnds(s, v); }
    if v < j { assert s[v..j][0] == s[v]; }
    PieceEnds(s, v, j, "str");
  }

  lemma ValueEnds(s: string, i: nat)
    requires At(s, i, '=')
    ensures Ends(s, Value(s, i))
  {
    var v := SkipWhile(s, i + 1, Space);
    MarkPieceEnds(s, i);
    PieceEnds(s, i + 1, v, "");
    PieceSpells(s, i + 1, v, "");
    ThenEnds(s, Piece(s, i, i + 1, "punc"), Piece(s, i + 1, v, ""));
    ValueStringEnds(s, v);
    PieceSpells(s, v, ValueEnd(s, v), "str");
    ThenEnds(s, Then(Piece(s, i, i + 1, "punc"), Piece(s, i + 1, v, "")), Piece(s, v, ValueEnd(s, v), "str"));
  }

  lemma AttributeEnds(s: string, i: nat)
    requires i <= |s|
    ensures Ends(s, Attribute(s, i))
  {
    var j := SkipWhile(s, i, Name);
    var k := SkipWhile(s, j, Space);
    NameEnds(s, i, "attr");
    PieceEnds(s, j, k, "");
    PieceSpells(s, j, k, "");
    ThenEnds(s, Piece(s, i, j, "attr"), Piece(s, j, k, ""));
    if At(s, k, '=') {
      ValueEnds(s, k);
      ValueSpells(s, k);
      ThenEnds(s, Then(Piece(s, i, j, "attr"), Piece(s, j, k, "")), Value(s, k));
    }
  }

  lemma {:induction false} TagRestEnds(s: string, i: nat)
    requires i <= |s|
    ensures Ends(s, TagRest(s, i))
    decreases |s| - i
  {
    if i == |s| || s[i] == '>' {
    } else if SelfCloses(s, i) {
      MarkPieceEnds(s, i);
    } else if IsSpace(s[i]) || SkipWhile(s, i, Name) == i {
      MarkPieceEnds(s, i);
      TagRestEnds(s, i + 1);
      TagRestSpells(s, i + 1);
      ThenEnds(s, Piece(s, i, i + 1, ""), TagRest(s, i + 1));
    } else {
      var a := Attribute(s, i);
      AttributeEnds(s, i);
      TagRestEnds(s, a.end);
      TagRestSpells(s, a.end);
      ThenEnds(s, a, TagRest(s, a.end));
    }
  }

  lemma TagOpenEnds(s: string, i: nat)
    requires i + 1 < |s| && s[i] == '<'
    ensures Ends(s, TagOpen(s, i))
  {
    var slash := if s[i + 1] == '/' then i + 2 else i + 1;
    MarkPieceEnds(s, i);
    if slash == i + 2 {
      MarkPieceEnds(s, i + 1);
      MarkSpells(s, i + 1);
    } else {
      PieceEnds(s, i + 1, i + 1, "punc");
      PieceSpells(s, i + 1, i + 1, "punc");
    }
    ThenEnds(s, Piece(s, i, i + 1, "punc"), Piece(s, i + 1, slash, "punc"));
    NameEnds(s, slash, "tag");
    NameSpells(s, slash, "tag");
    ThenEnds(s, Then(Piece(s, i, i + 1, "punc"), Piece(s, i + 1, slash, "punc")),
             Piece(s, slash, SkipWhile(s, slash, Name), "tag"));
  }

  lemma TagCloseEnds(s: string, i: nat)
    requires i <= |s|
    ensures Ends(s, TagClose(s, i)) && Spells(s, i, TagClose(s, i))
  {
    if At(s, i, '>') {
      MarkPieceEnds(s, i);
      MarkSpells(s, i);
    } else {
      PieceEnds(s, i, i, "punc");
      PieceSpells(s, i, i, "punc");
    }
  }

  lemma TagEnds(s: string, i: nat)
    requires i + 1 < |s| && s[i] == '<'
    ensures Ends(s, Tag(s, i))
  {
    var open := TagOpen(s, i);
    var rest := TagRest(s, open.end);
    TagOpenEnds(s, i);
    TagRestEnds(s, open.end);
    TagRestSpells(s, open.end);
    ThenEnds(s, open, rest);
    TagCloseEnds(s, rest.end);
    ThenEnds(s, Then(open, rest), TagClose(s, rest.end));
  }

  lemma ReferenceIs(s: string)
    requires ReferenceBody(s).Some?
    ensures IsReference("&" + s[..ReferenceBody(s).value])
  {
    var n := ReferenceBody(s).value;
    var t := "&" + s[..n];
    assert t[1..|t| - 1] == s[..n - 1];
  }

  lemma OneEnds(t: Token, after: string)
    requires EndsWell(t, after)
    ensures AllEnd([t], after)
  {
    assert [t][1..] == [] && "" + after == after;
  }

  lemma TextTokenEnds(s: string, after: string)
    requires s != ""
    ensures EndsWell(TextTokens(s)[0], after)
    ensures TextTokens(s)[1..] == TextTokens(s[|TextTokens(s)[0].text|..])
  {
    if s[0] == '&' && ReferenceBody(s[1..]).Some? {
      var n := ReferenceBody(s[1..]).value;
      ReferenceIs(s[1..]);
      assert s[..1 + n] == "&" + s[1..][..n];
    }
  }

  lemma {:induction false} TextTokensEnd(s: string, after: string)
    ensures AllEnd(TextTokens(s), after)
    decreases |s|
  {
    if s != "" {
      var t := TextTokens(s)[0];
      var rest := TextTokens(s[|t.text|..]);
      TextTokenEnds(s, Text(rest) + after);
      TextTokensEnd(s[|t.text|..], after);
      OneEnds(t, Text(rest) + after);
      AllEndConcat([t], rest, after);
      assert TextTokens(s) == [t] + rest;
    }
  }

  lemma CommentEnds(s: string, i: nat, n: nat, mark: string)
    requires i + n <= |s| && 2 <= n && s[i..i + n][0] == '<'
    requires if StartsWith(s, "<!--", i) then n == 4 && mark == "-->" else n == 2 && mark == ">"
    ensures Ends(s, Piece(s, i, Through(s, mark, i + n), "comment"))
  {
    var j := Through(s, mark, i + n);
    MarkEndsAt(s, i, n, mark);
    assert "<!--" <= s[i..j] ==> StartsWith(s, "<!--", i) by { assert s[i..j] <= s[i..]; }
    if StartsWith(s, "<!--", i) { assert s[i..j][..4] == s[i..][..4] == "<!--"; }
    PieceEnds(s, i, j, "comment");
  }

  lemma NextEnds(s: string, i: nat)
    requires i < |s|
    ensures Ends(s, MarkupNext(s, i))
  {
    if StartsWith(s, "<!--", i) {
      assert s[i] == s[i..][0] == '<';
      CommentEnds(s, i, 4, "-->");
    } else if s[i] == '<' && (At(s, i + 1, '!') || At(s, i + 1, '?')) {
      CommentEnds(s, i, 2, ">");
    } else if s[i] == '<' && i + 1 < |s| && (s[i + 1] == '/' || IsLetter(s[i + 1])) {
      TagEnds(s, i);
    } else if s[i] == '<' {
      MarkPieceEnds(s, i);
    } else {
      TextTokensEnd(s[i..TextEnd(s, i)], s[TextEnd(s, i)..]);
    }
  }

  lemma {:induction false} MarkupAllEnd(s: string, i: nat)
    requires i <= |s|
    ensures AllEnd(MarkupTokens(s, i), "")
    decreases |s| - i
  {
    if i < |s| {
      var l := MarkupNext(s, i);
      NextEnds(s, i);
      MarkupAllEnd(s, l.end);
      MarkupPartition(s, l.end);
      assert Text(MarkupTokens(s, l.end)) + "" == s[l.end..];
      AllEndConcat(l.tokens, MarkupTokens(s, l.end), "");
    }
  }
}
