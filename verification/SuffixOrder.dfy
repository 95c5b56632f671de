/** Lexicographic order on the suffixes of a byte string, and the bounded
    agreement between two suffixes on which prefix doubling works. */
module SuffixOrder {
  import opened Common

  /** The usual dictionary order: a proper prefix comes first. */
  predicate LexLess(s: seq<byte>, t: seq<byte>) {
    t != [] && (s == [] || s[0] < t[0] || (s[0] == t[0] && LexLess(s[1..], t[1..])))
  }

  predicate SufLess(text: seq<byte>, a: int, b: int) {
    0 <= a <= |text| && 0 <= b <= |text| && LexLess(text[a..], text[b..])
  }

  /** The suffixes at a and b both have, and share, their first h bytes. */
  predicate Agree(text: seq<byte>, a: int, b: int, h: nat) {
    && 0 <= a && a + h <= |text|
    && 0 <= b && b + h <= |text|
    && text[a..a + h] == text[b..b + h]
  }

  /** The order of two suffixes sharing h bytes is that of what follows. */
  lemma {:induction false} LessAfterAgreement(text: seq<byte>, a: int, b: int, h: nat)
    requires Agree(text, a, b, h)
    requires SufLess(text, a + h, b + h)
    ensures SufLess(text, a, b)
    decreases h
  {
    hide *;
    if h > 0 {
      AgreeTail(text, a, b, h);
      LessAfterAgreement(text, a + 1, b + 1, h - 1);
      LessOneBefore(text, a, b);
    } else {
      NoAgreement(text, a, b, h);
    }
  }

  lemma NoAgreement(text: seq<byte>, a: int, b: int, h: nat)
    requires h == 0 && SufLess(text, a + h, b + h)
    ensures SufLess(text, a, b)
  {
  }

  lemma AgreeTail(text: seq<byte>, a: int, b: int, h: nat)
    requires Agree(text, a, b, h) && h > 0
    ensures 0 <= a < |text| && 0 <= b < |text| && text[a] == text[b] && Agree(text, a + 1, b + 1, h - 1)
  {
    assert text[a] == text[a..a + h][0] == text[b..b + h][0] == text[b];
    assert text[a + 1..a + h] == text[a..a + h][1..] == text[b..b + h][1..] == text[b + 1..b + h];
  }

  lemma LessOneBefore(text: seq<byte>, a: int, b: int)
    requires 0 <= a < |text| && 0 <= b < |text| && text[a] == text[b] && SufLess(text, a + 1, b + 1)
    ensures SufLess(text, a, b)
  {
    assert text[a..][1..] == text[a + 1..];
    assert text[b..][1..] == text[b + 1..];
  }

  lemma AgreementDoubles(text: seq<byte>, a: int, b: int, h: nat)
    requires Agree(text, a, b, h)
    requires Agree(text, a + h, b + h, h)
    ensures Agree(text, a, b, 2 * h)
  {
    assert text[a..a + 2 * h] == text[a..a + h] + text[a + h..a + 2 * h];
    assert text[b..b + 2 * h] == text[b..b + h] + text[b + h..b + 2 * h];
  }

  lemma {:induction false} LexIrreflexive(s: seq<byte>)
    ensures !LexLess(s, s)
  {
    if s != [] { LexIrreflexive(s[1..]); }
  }

  lemma {:induction false} LexTransitive(s: seq<byte>, t: seq<byte>, u: seq<byte>)
    requires LexLess(s, t) && LexLess(t, u)
    ensures LexLess(s, u)
  {
    if s != [] && s[0] == t[0] == u[0] { LexTransitive(s[1..], t[1..], u[1..]); }
  }

  lemma {:induction false} LexTotal(s: seq<byte>, t: seq<byte>)
    ensures s == t || LexLess(s, t) || LexLess(t, s)
  {
    if s != [] && t != [] && s[0] == t[0] {
      LexTotal(s[1..], t[1..]);
      assert s == [s[0]] + s[1..] && t == [t[0]] + t[1..];
    }
  }
}
