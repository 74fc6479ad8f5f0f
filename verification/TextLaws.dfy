/** What the string helpers do, said without them. */
module TextLaws {
  import opened Text

  // ---------------------------------------------------------------- letter case

  const UPPER := "ABCDEFGHIJKLMNOPQRSTUVWXYZ"
  const LOWER := "abcdefghijklmnopqrstuvwxyz"

  lemma Alphabets(i: nat)
    requires i < 26
    ensures UPPER[i] as int == 'A' as int + i && LOWER[i] as int == 'a' as int + i
  {
  }

  /** Capital letters fold to their small ones and small ones unfold to their capitals. */
  lemma CaseOfLetters(i: nat)
    requires i < 26
    ensures LowerChar(UPPER[i]) == LowerChar(LOWER[i]) == LOWER[i]
    ensures UpperChar(LOWER[i]) == UpperChar(UPPER[i]) == UPPER[i]
  {
    Alphabets(i);
  }

  /** Nothing else changes. */
  lemma CaseOfOthers(c: char)
    ensures c !in UPPER ==> LowerChar(c) == c
    ensures c !in LOWER ==> UpperChar(c) == c
  {
    if 'A' <= c <= 'Z' { Alphabets(c as int - 'A' as int); }
    if 'a' <= c <= 'z' { Alphabets(c as int - 'a' as int); }
  }

  // ---------------------------------------------------------------- trimming

  ghost predicate AllIn(s: string, marks: string) {
    forall c <- s :: c in marks
  }

  /** `t` is `s` without the marks around it. */
  ghost predicate Core(s: string, marks: string, t: string) {
    && (exists a, b :: s == a + t + b && AllIn(a, marks) && AllIn(b, marks))
    && (t != "" ==> t[0] !in marks && t[|t| - 1] !in marks)
  }

  lemma {:induction false} BracesAway(a: string, t: string, b: string)
    requires AllIn(a, "{}") && AllIn(b, "{}") && (t != "" ==> t[0] !in "{}" && t[|t| - 1] !in "{}")
    ensures TrimBraces(a + t + b) == t
    decreases |a| + |b|
  {
    var s := a + t + b;
    if a != "" {
      assert a[0] in "{}" && s[1..] == a[1..] + t + b;
      BracesAway(a[1..], t, b);
    } else if t == "" && b != "" {
      assert b[0] in "{}" && s[1..] == a + t + b[1..];
      BracesAway(a, t, b[1..]);
    } else if b != "" {
      assert b[|b| - 1] in "{}" && s[..|s| - 1] == a + t + b[..|b| - 1];
      BracesAway(a, t, b[..|b| - 1]);
    } else {
      assert s == t;
    }
  }

  lemma TrimBracesExactly(s: string, t: string)
    requires Core(s, "{}", t)
    ensures TrimBraces(s) == t
  {
    var a, b :| s == a + t + b && AllIn(a, "{}") && AllIn(b, "{}");
    BracesAway(a, t, b);
  }

  const BLANKS := " \t\n\r\U{0B}\U{0C}"

  lemma {:induction false} LeftBlanksAway(a: string, t: string)
    requires AllIn(a, BLANKS) && (t != "" ==> t[0] !in BLANKS)
    ensures TrimLeft(a + t) == t
  {
    if a != "" {
      assert a[0] in BLANKS && (a + t)[1..] == a[1..] + t;
      LeftBlanksAway(a[1..], t);
    } else {
      assert a + t == t;
    }
  }

  lemma {:induction false} RightBlanksAway(t: string, b: string)
    requires AllIn(b, BLANKS) && (t != "" ==> t[|t| - 1] !in BLANKS)
    ensures TrimRight(t + b) == t
  {
    if b != "" {
      var n := |b| - 1;
      assert b[n] in BLANKS && (t + b)[..|t + b| - 1] == t + b[..n];
      RightBlanksAway(t, b[..n]);
    } else {
      assert t + b == t;
    }
  }

  lemma BlanksOnly(a: string, b: string)
    requires AllIn(a, BLANKS) && AllIn(b, BLANKS)
    ensures TrimSpace(a + "" + b) == ""
  {
    assert a + "" + b == (a + b) + "";
    LeftBlanksAway(a + b, "");
  }

  lemma BlanksAway(a: string, t: string, b: string)
    requires AllIn(a, BLANKS) && AllIn(b, BLANKS) && t != "" && t[0] !in BLANKS && t[|t| - 1] !in BLANKS
    ensures TrimSpace(a + t + b) == t
  {
    assert a + t + b == a + (t + b) && (t + b)[0] == t[0];
    LeftBlanksAway(a, t + b);
    RightBlanksAway(t, b);
  }

  lemma TrimSpaceExactly(s: string, t: string)
    requires Core(s, BLANKS, t)
    ensures TrimSpace(s) == t
  {
    var a, b :| s == a + t + b && AllIn(a, BLANKS) && AllIn(b, BLANKS);
    if t == "" { BlanksOnly(a, b); } else { BlanksAway(a, t, b); }
  }

  // ---------------------------------------------------------------- order

  /** The order is that of dictionaries: a proper beginning comes first, else the first difference decides. */
  ghost predicate Precedes(a: string, b: string, k: nat) {
    && k <= |a| && k < |b| && a[..k] == b[..k]
    && (k == |a| || a[k] < b[k])
  }

  lemma SameHeads(a: string, b: string, k: nat)
    ensures Precedes(a, b, k) ==> k == 0 || (a != "" && b != "" && a[0] == b[0])
  {
    if Precedes(a, b, k) && k > 0 { assert a[..k][0] == a[0] && b[..k][0] == b[0]; }
  }

  lemma {:induction false} LessExactly(a: string, b: string)
    ensures Less(a, b) <==> exists k: nat :: Precedes(a, b, k)
  {
    if a != "" && b != "" && a[0] == b[0] {
      LessExactly(a[1..], b[1..]);
      if k: nat :| Precedes(a[1..], b[1..], k) {
        assert a[..k + 1] == [a[0]] + a[1..][..k] && b[..k + 1] == [b[0]] + b[1..][..k];
        assert Precedes(a, b, k + 1);
      }
      if k: nat :| Precedes(a, b, k) {
        assert k != 0;
        assert a[1..][..k - 1] == a[..k][1..] && b[1..][..k - 1] == b[..k][1..];
        assert Precedes(a[1..], b[1..], k - 1);
      }
    } else if Less(a, b) {
      assert Precedes(a, b, 0);
    } else if k: nat :| Precedes(a, b, k) {
      SameHeads(a, b, k);
    }
  }
}
