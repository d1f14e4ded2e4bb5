/**
 * The ASCII string operations the sources use. Over ASCII, JavaScript's `trim`
 * and Go's `TrimSpace` remove the same six characters, so one definition serves both.
 */
module Text {
  predicate IsSpace(c: char) {
    c == ' ' || c == '\t' || c == '\n' || c == '\r' || c == 11 as char || c == 12 as char
  }

  function TrimLeft(s: string): (r: string) {
    if s != "" && IsSpace(s[0]) then TrimLeft(s[1..]) else s
  }

  function TrimRight(s: string): (r: string) {
    if s != "" && IsSpace(s[|s| - 1]) then TrimRight(s[..|s| - 1]) else s
  }

  function Trim(s: string): string {
    TrimRight(TrimLeft(s))
  }

  predicate HasPrefix(s: string, p: string) {
    p <= s
  }

  predicate HasSuffix(s: string, p: string) {
    |p| <= |s| && s[|s| - |p|..] == p
  }

  /** Go's `strings.TrimSuffix`: removes the suffix once, if it is there. */
  function TrimSuffix(s: string, p: string): string {
    if HasSuffix(s, p) then s[..|s| - |p|] else s
  }

  predicate Contains(s: string, sub: string) {
    HasPrefix(s, sub) || (s != "" && Contains(s[1..], sub))
  }

  function CountChar(s: string, c: char): nat {
    if s == "" then 0 else (if s[0] == c then 1 else 0) + CountChar(s[1..], c)
  }

  /** Go's `strings.IndexByte`. */
  function IndexByte(s: string, c: char): int {
    if s == "" then -1
    else if s[0] == c then 0
    else var i := IndexByte(s[1..], c); if i < 0 then -1 else i + 1
  }

  /** ASCII lower-casing. */
  function ToLowerChar(c: char): char {
    if 'A' <= c <= 'Z' then ((c as int) + 32) as char else c
  }

  function ToLower(s: string): string {
    seq(|s|, i requires 0 <= i < |s| => ToLowerChar(s[i]))
  }

  lemma {:induction false} CountCharConcat(a: string, b: string, c: char)
    ensures CountChar(a + b, c) == CountChar(a, c) + CountChar(b, c)
  {
    if a == "" {
      assert a + b == b;
    } else {
      assert (a + b)[1..] == a[1..] + b;
      CountCharConcat(a[1..], b, c);
    }
  }

  lemma {:induction false} CountZero(s: string, c: char)
    ensures CountChar(s, c) == 0 <==> c !in s
  {
    if s != "" {
      CountZero(s[1..], c);
      assert s == [s[0]] + s[1..];
    }
  }

  /** Two suffixes of one string are suffixes of one another. */
  lemma SuffixesNest(s: string, p: string, q: string)
    requires HasSuffix(s, p) && HasSuffix(s, q) && |p| <= |q|
    ensures HasSuffix(q, p)
  {
    assert q[|q| - |p|..] == s[|s| - |p|..];
  }

  // ---- what trimming and searching mean --------------------------------------

  /** The six ASCII characters that both languages trim. */
  predicate Blanks(s: string) {
    forall i :: 0 <= i < |s| ==> s[i] in " \t\n\r" || s[i] as int == 11 || s[i] as int == 12
  }

  lemma {:induction false} LeadingBlanks(a: string, t: string)
    requires Blanks(a)
    ensures TrimLeft(a + t) == TrimLeft(t)
  {
    if a == "" {
      assert a + t == t;
    } else {
      assert (a + t)[1..] == a[1..] + t;
      assert a[0] in " \t\n\r" || a[0] as int == 11 || a[0] as int == 12;
      LeadingBlanks(a[1..], t);
    }
  }

  lemma {:induction false} TrailingBlanks(t: string, b: string)
    requires Blanks(b)
    ensures TrimRight(t + b) == TrimRight(t)
  {
    if b == "" {
      assert t + b == t;
    } else {
      var n := |b| - 1;
      assert (t + b)[..|t| + n] == t + b[..n] && (t + b)[|t| + n] == b[n];
      assert b[n] in " \t\n\r" || b[n] as int == 11 || b[n] as int == 12;
      TrailingBlanks(t, b[..n]);
    }
  }

  lemma NotBlank(c: char)
    ensures Blanks([c]) <==> c in " \t\n\r" || c as int == 11 || c as int == 12
    ensures Blanks([c]) <==> IsSpace(c)
  {
    assert [c][0] == c;
    assert c in " \t\n\r" <==> c == ' ' || c == '\t' || c == '\n' || c == '\r';
  }

  /** A text between blanks, neither starting nor ending with one, is what trimming leaves. */
  lemma TrimExactly(a: string, m: string, b: string)
    requires Blanks(a) && Blanks(b) && (m != "" ==> !Blanks(m[..1]) && !Blanks(m[|m| - 1..]))
    ensures Trim(a + m + b) == m
  {
    assert a + m + b == a + (m + b);
    LeadingBlanks(a, m + b);
    if m == "" {
      assert m + b == b + "";
      LeadingBlanks(b, "");
    } else {
      NotBlank(m[0]);
      NotBlank(m[|m| - 1]);
      assert [m[0]] == m[..1] && [m[|m| - 1]] == m[|m| - 1..];
      assert TrimLeft(m + b) == m + b;
      TrailingBlanks(m, b);
    }
  }

  lemma CutWithin(s: string, a: string, sub: string, b: string)
    requires s == a + sub + b
    ensures HasPrefix(s, sub) || (a != "" && s[1..] == a[1..] + sub + b)
  {
    if a == "" {
      assert s[..|sub|] == sub;
    }
  }

  /** Containment is a cut in three. */
  lemma {:induction false} ContainsExactly(s: string, sub: string)
    ensures Contains(s, sub) <==> exists a, b :: s == a + sub + b
  {
    if a, b :| s == a + sub + b {
      CutWithin(s, a, sub, b);
    }
    if HasPrefix(s, sub) {
      assert s == "" + sub + s[|sub|..];
    } else if s != "" {
      ContainsExactly(s[1..], sub);
      if a, b :| s[1..] == a + sub + b {
        assert s == ([s[0]] + a) + sub + b;
      }
    }
  }

  lemma {:induction false} LeftEmpty(s: string)
    ensures TrimLeft(s) == "" <==> Blanks(s)
    ensures TrimLeft(s) != "" ==> !IsSpace(TrimLeft(s)[0])
  {
    if s != "" {
      NotBlank(s[0]);
      LeftEmpty(s[1..]);
      assert s == [s[0]] + s[1..];
      if IsSpace(s[0]) && Blanks(s[1..]) {
        assert Blanks(s) by {
          forall i | 0 <= i < |s| ensures s[i] in " \t\n\r" || s[i] as int == 11 || s[i] as int == 12 {
            assert [s[0]][0] == s[0];
            assert i > 0 ==> s[1..][i - 1] == s[i];
          }
        }
      }
      if Blanks(s) {
        assert Blanks([s[0]]) && Blanks(s[1..]);
      }
    }
  }

  lemma {:induction false} RightStarts(s: string)
    requires s != "" && !IsSpace(s[0])
    ensures TrimRight(s) != ""
  {
    if IsSpace(s[|s| - 1]) {
      RightStarts(s[..|s| - 1]);
    }
  }

  /** Trimming leaves nothing exactly of a text that is all blanks. */
  lemma TrimsToNothing(s: string)
    ensures Trim(s) == "" <==> Blanks(s)
  {
    LeftEmpty(s);
    if TrimLeft(s) != "" {
      RightStarts(TrimLeft(s));
    }
  }
}
