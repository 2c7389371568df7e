/** Whitespace as the standard library's strings see it. */
module Whitespace {

  /** The characters with the Unicode property `White_Space`. */
  predicate IsWhite(c: char) {
    || '\t' <= c <= '\r' || c == ' ' || c == '\U{85}' || c == '\U{A0}' || c == '\U{1680}'
    || '\U{2000}' <= c <= '\U{200A}' || c == '\U{2028}' || c == '\U{2029}' || c == '\U{202F}'
    || c == '\U{205F}' || c == '\U{3000}'
  }

  function TrimStart(s: string): string {
    if s != [] && IsWhite(s[0]) then TrimStart(s[1..]) else s
  }

  function TrimEnd(s: string): string {
    if s != [] && IsWhite(s[|s| - 1]) then TrimEnd(s[..|s| - 1]) else s
  }

  /** The text without the whitespace at its ends. */
  function Trim(s: string): string { TrimEnd(TrimStart(s)) }

  predicate AllWhite(s: string) { forall i | 0 <= i < |s| :: IsWhite(s[i]) }

  /** Trimming takes white space off both ends, and all of it. */
  lemma {:induction false} TrimStartIs(s: string) returns (front: string)
    ensures AllWhite(front) && s == front + TrimStart(s)
    ensures TrimStart(s) != [] ==> !IsWhite(TrimStart(s)[0])
  {
    if s != [] && IsWhite(s[0]) {
      front := TrimStartIs(s[1..]);
      front := [s[0]] + front;
    } else {
      front := [];
    }
  }

  lemma {:induction false} TrimEndIs(s: string) returns (back: string)
    ensures AllWhite(back) && s == TrimEnd(s) + back
    ensures TrimEnd(s) != [] ==> !IsWhite(TrimEnd(s)[|TrimEnd(s)| - 1])
  {
    if s != [] && IsWhite(s[|s| - 1]) {
      back := TrimEndIs(s[..|s| - 1]);
      back := back + [s[|s| - 1]];
    } else {
      back := [];
    }
  }

  lemma TrimIs(s: string) returns (front: string, back: string)
    ensures AllWhite(front) && AllWhite(back) && s == front + Trim(s) + back
    ensures Trim(s) != [] ==> !IsWhite(Trim(s)[0]) && !IsWhite(Trim(s)[|Trim(s)| - 1])
  {
    front := TrimStartIs(s);
    back := TrimEndIs(TrimStart(s));
    assert Trim(s) != [] ==> Trim(s)[0] == TrimStart(s)[0];
  }

  lemma {:induction false} TrimmedStart(front: string, s: string)
    requires AllWhite(front) && s != [] && !IsWhite(s[0])
    ensures TrimStart(front + s) == s
  {
    if front == [] {
      assert front + s == s;
    } else {
      TrimmedStart(front[1..], s);
      assert (front + s)[1..] == front[1..] + s;
    }
  }

  lemma {:induction false} TrimmedEnd(s: string, back: string)
    requires AllWhite(back) && s != [] && !IsWhite(s[|s| - 1])
    ensures TrimEnd(s + back) == s
  {
    if back == [] {
      assert s + back == s;
    } else {
      TrimmedEnd(s, back[..|back| - 1]);
      assert (s + back)[..|s + back| - 1] == s + back[..|back| - 1];
    }
  }

  lemma TrimmedIs(front: string, s: string, back: string)
    requires AllWhite(front) && AllWhite(back) && s != [] && !IsWhite(s[0]) && !IsWhite(s[|s| - 1])
    ensures Trim(front + s + back) == s
  {
    assert front + s + back == front + (s + back);
    TrimmedStart(front, s + back);
    TrimmedEnd(s, back);
  }
}
