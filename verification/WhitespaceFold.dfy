/**
 The whitespace-blind comparison of licence texts: runs of whitespace fold to one space. Two texts
 fold alike exactly when they hold the same words, and dropping carriage returns keeps the fold
 exactly when no return is all that separates two words.
 */
module WhitespaceFold {
  import opened Whitespace

  const RETURN := '\r'

  /** The runs of characters between whitespace. */
  function Words(t: string): (r: seq<string>)
    ensures t != [] && !IsWhite(t[0]) ==> r != []
  {
    if t == [] then []
    else if IsWhite(t[0]) then Words(t[1..])
    else if |t| == 1 || IsWhite(t[1]) then [[t[0]]] + Words(t[1..])
    else var rest := Words(t[1..]); [[t[0]] + rest[0]] + rest[1..]
  }

  function JoinedBySpace(words: seq<string>): string {
    if words == [] then []
    else if |words| == 1 then words[0]
    else words[0] + " " + JoinedBySpace(words[1..])
  }

  function Folded(t: string): string { JoinedBySpace(Words(t)) }

  /** The text without its carriage returns. */
  function Unreturned(t: string): string {
    if t == [] then [] else if t[0] == RETURN then Unreturned(t[1..]) else [t[0]] + Unreturned(t[1..])
  }

  // ---------------------------------------------------------------------------------------
  // Folding forgets the whitespace and nothing else
  // ---------------------------------------------------------------------------------------

  predicate IsWord(w: string) {
    w != [] && forall i | 0 <= i < |w| :: !IsWhite(w[i])
  }

  predicate AreWords(words: seq<string>) {
    forall w | w in words :: IsWord(w)
  }

  lemma {:induction false} WordsAreWords(t: string)
    ensures AreWords(Words(t))
  {
    if t != [] {
      WordsAreWords(t[1..]);
      if !IsWhite(t[0]) && |t| > 1 && !IsWhite(t[1]) {
        var rest := Words(t[1..]);
        assert rest[0] in rest;
        assert IsWord([t[0]] + rest[0]);
      }
    }
  }

  lemma {:induction false} WordInFront(w: string, t: string)
    requires IsWord(w) && (t == [] || IsWhite(t[0]))
    ensures Words(w + t) == [w] + Words(t)
  {
    var s := w + t;
    assert s[0] == w[0];
    if |w| == 1 {
      assert s[1..] == t;
      assert w == [w[0]];
    } else {
      assert s[1..] == w[1..] + t;
      assert s[1] == w[1];
      WordInFront(w[1..], t);
      assert w == [w[0]] + w[1..];
    }
  }

  /** Splitting undoes joining. */
  lemma {:induction false} JoinedSplits(words: seq<string>)
    requires AreWords(words)
    ensures Words(JoinedBySpace(words)) == words
  {
    if |words| == 1 {
      WordInFront(words[0], []);
      assert words[0] + [] == words[0];
      assert words == [words[0]];
    } else if |words| > 1 {
      assert words[0] in words;
      var rest := JoinedBySpace(words[1..]);
      JoinedSplits(words[1..]);
      WordInFront(words[0], " " + rest);
      assert (" " + rest)[1..] == rest;
      assert words[0] + " " + rest == words[0] + (" " + rest);
      assert words == [words[0]] + words[1..];
    }
  }

  lemma FoldedAlikeIff(a: string, b: string)
    ensures Folded(a) == Folded(b) <==> Words(a) == Words(b)
    ensures Folded(Folded(a)) == Folded(a)
  {
    WordsAreWords(a);
    WordsAreWords(b);
    JoinedSplits(Words(a));
    JoinedSplits(Words(b));
  }

  /** Whitespace ends a word wherever it stands. */
  lemma {:induction false} WordsInFront(a: string, t: string)
    requires t != [] && IsWhite(t[0])
    ensures Words(a + t) == Words(a) + Words(t)
  {
    if a == [] {
      assert a + t == t;
    } else {
      var rest := a[1..];
      WordsInFront(rest, t);
      assert (a + t)[1..] == rest + t;
      assert (a + t)[0] == a[0] && (a + t)[1] == if rest == [] then t[0] else a[1];
    }
  }

  lemma WrapKeepsWords(a: string, white: string, b: string)
    requires white != [] && forall i | 0 <= i < |white| :: IsWhite(white[i])
    ensures Words(a + (white + b)) == Words(a) + Words(b)
  {
    WordsInFront(a, white + b);
    WhiteInFront(white, b);
  }

  /** A line wrap, indented or not, is a space: texts that differ in no more fold alike. */
  lemma WrapIsSpace(a: string, wrap: string, b: string)
    requires wrap != [] && forall i | 0 <= i < |wrap| :: wrap[i] in {' ', '\t', '\n', '\r'}
    ensures Folded(a + (wrap + b)) == Folded(a + (" " + b))
  {
    assert forall i | 0 <= i < |wrap| :: IsWhite(wrap[i]);
    WrapKeepsWords(a, wrap, b);
    WrapKeepsWords(a, " ", b);
  }

  lemma {:induction false} WhiteInFront(white: string, b: string)
    requires forall i | 0 <= i < |white| :: IsWhite(white[i])
    ensures Words(white + b) == Words(b)
  {
    if white == [] {
      assert white + b == b;
    } else {
      WhiteInFront(white[1..], b);
      assert (white + b)[1..] == white[1..] + b;
    }
  }

  /** What of a text is printed in ink, as far as it is ASCII. */
  function Ink(t: string): string {
    if t == [] then [] else (if '!' <= t[0] <= '~' then [t[0]] else []) + Ink(t[1..])
  }

  lemma InkOfPrefixed(c: char, words: seq<string>)
    requires words != []
    ensures JoinedBySpace([[c] + words[0]] + words[1..]) == [c] + JoinedBySpace(words)
  {
    if |words| > 1 {
      var rest := JoinedBySpace(words[1..]);
      assert ([[c] + words[0]] + words[1..])[1..] == words[1..];
      assert [c] + words[0] + " " + rest == [c] + (words[0] + " " + rest);
    } else {
      assert [[c] + words[0]] + words[1..] == [[c] + words[0]];
    }
  }

  lemma InkOfWord(c: char, words: seq<string>)
    ensures Ink(JoinedBySpace([[c]] + words)) == Ink([c] + JoinedBySpace(words))
  {
    if words == [] {
      assert [[c]] + words == [[c]] && [c] + JoinedBySpace(words) == [c];
    } else {
      var rest := JoinedBySpace(words);
      assert ([[c]] + words)[1..] == words;
      assert [c] + " " + rest == [c] + ([' '] + rest);
      assert ([c] + ([' '] + rest))[1..] == [' '] + rest && ([' '] + rest)[1..] == rest && ([c] + rest)[1..] == rest;
    }
  }

  /** Folding loses no ink. */
  lemma {:induction false} InkIsKept(t: string)
    ensures Ink(Folded(t)) == Ink(t)
  {
    if t != [] {
      InkIsKept(t[1..]);
      var words := Words(t[1..]);
      if !IsWhite(t[0]) {
        if |t| == 1 || IsWhite(t[1]) {
          InkOfWord(t[0], words);
        } else {
          InkOfPrefixed(t[0], words);
        }
        assert ([t[0]] + JoinedBySpace(words))[1..] == JoinedBySpace(words);
      }
    }
  }

  // ---------------------------------------------------------------------------------------
  // Carriage returns
  // ---------------------------------------------------------------------------------------

  /** Two words with nothing but carriage returns between them, from `i` to `j`. */
  predicate GluedAt(t: string, i: nat, j: nat) {
    && i + 1 < j < |t| && !IsWhite(t[i]) && !IsWhite(t[j])
    && forall k | i < k < j :: t[k] == RETURN
  }

  predicate Glued(t: string) {
    exists i, j | 0 <= i < j < |t| :: GluedAt(t, i, j)
  }

  lemma GluedLater(t: string, i: nat, j: nat)
    requires t != [] && i + 1 < j
    ensures GluedAt(t[1..], i, j) <==> GluedAt(t, i + 1, j + 1)
  {
    if GluedAt(t, i + 1, j + 1) {
      assert forall k | i < k < j :: t[1..][k] == t[k + 1];
    }
    if GluedAt(t[1..], i, j) {
      assert forall k | i + 1 < k < j + 1 :: t[k] == t[1..][k - 1];
    }
  }

  predicate FirstGlued(t: string) {
    exists j | 0 <= j < |t| :: GluedAt(t, 0, j)
  }

  lemma GluedFromFirst(t: string)
    requires t != []
    ensures Glued(t) <==> Glued(t[1..]) || FirstGlued(t)
  {
    if Glued(t[1..]) {
      var i, j :| 0 <= i < j < |t[1..]| && GluedAt(t[1..], i, j);
      GluedLater(t, i, j);
    }
    if Glued(t) {
      var i, j :| 0 <= i < j < |t| && GluedAt(t, i, j);
      if i > 0 {
        GluedLater(t, i - 1, j - 1);
      }
    }
  }

  /** How many returns come first. */
  function Returns(t: string): (k: nat)
    ensures k <= |t|
    ensures forall i | 0 <= i < k :: t[i] == RETURN
    ensures k < |t| ==> t[k] != RETURN
  {
    if t == [] || t[0] != RETURN then 0 else 1 + Returns(t[1..])
  }

  lemma {:induction false} UnreturnedStart(t: string)
    ensures Unreturned(t) == Unreturned(t[Returns(t)..])
    ensures Returns(t) < |t| ==> Unreturned(t) != [] && Unreturned(t)[0] == t[Returns(t)]
    ensures Returns(t) == |t| ==> Unreturned(t) == []
  {
    if t != [] && t[0] == RETURN {
      UnreturnedStart(t[1..]);
      assert t[Returns(t)..] == t[1..][Returns(t[1..])..];
    } else {
      assert t[0..] == t;
    }
  }

  lemma {:induction false} ReturnsHoldNoWord(t: string)
    ensures Words(t) == Words(t[Returns(t)..])
  {
    if t != [] && t[0] == RETURN {
      ReturnsHoldNoWord(t[1..]);
      assert t[Returns(t)..] == t[1..][Returns(t[1..])..];
    } else {
      assert t[0..] == t;
    }
  }

  /** The word at the front runs into the next one once the returns are gone. */
  lemma FirstGluedIff(t: string)
    requires t != [] && !IsWhite(t[0])
    ensures FirstGlued(t) <==> 0 < Returns(t[1..]) < |t| - 1 && !IsWhite(t[1 + Returns(t[1..])])
  {
    var n := Returns(t[1..]);
    forall i | 0 < i < n + 1 ensures t[i] == RETURN {
      assert t[i] == t[1..][i - 1];
    }
    if n < |t| - 1 {
      assert t[1..][n] == t[n + 1];
      if n > 0 && !IsWhite(t[1 + n]) {
        assert GluedAt(t, 0, n + 1);
      }
    }
    if FirstGlued(t) {
      var j :| 0 <= j < |t| && GluedAt(t, 0, j);
      assert t[1] == RETURN && t[1..][0] == t[1];
      assert n + 1 == j;
    }
  }

  lemma FirstKept(t: string)
    requires t != [] && t[0] != RETURN
    ensures Returns(t) == 0
    ensures Unreturned(t) == [t[0]] + Unreturned(t[1..])
  {}

  lemma {:induction false} UnreturnedHasNoMoreWords(t: string)
    ensures |Words(Unreturned(t))| <= |Words(t)|
  {
    if t != [] {
      UnreturnedHasNoMoreWords(t[1..]);
      if t[0] != RETURN {
        var rest := t[1..];
        assert t == [t[0]] + rest;
        if rest != [] && rest[0] != RETURN {
          FirstKept(rest);
        }
      }
    }
  }

  /** Dropping the returns keeps the words exactly when no return alone separates two of them. */
  lemma {:induction false} WordsKeptIff(t: string)
    ensures Words(Unreturned(t)) == Words(t) <==> !Glued(t)
  {
    if t != [] {
      WordsKeptIff(t[1..]);
      if IsWhite(t[0]) {
        WhiteInFrontKeptIff(t);
      } else {
        WordInFrontKeptIff(t);
      }
    }
  }

  lemma WhiteInFrontKeptIff(t: string)
    requires t != [] && IsWhite(t[0])
    requires Words(Unreturned(t[1..])) == Words(t[1..]) <==> !Glued(t[1..])
    ensures Words(Unreturned(t)) == Words(t) <==> !Glued(t)
  {
    GluedFromFirst(t);
  }

  predicate BeginsWord(t: string) { t != [] && !IsWhite(t[0]) }

  lemma PrependedAlike(x: string, v: seq<string>, w: seq<string>)
    requires v != [] && w != []
    ensures [x + v[0]] + v[1..] == [x + w[0]] + w[1..] <==> v == w
  {
    if [x + v[0]] + v[1..] == [x + w[0]] + w[1..] {
      var p, q := [x + v[0]] + v[1..], [x + w[0]] + w[1..];
      assert p[0] == q[0] && p[1..] == q[1..];
      assert v[0] == (x + v[0])[|x|..] == (x + w[0])[|x|..] == w[0];
      assert v == [v[0]] + v[1..] && w == [w[0]] + w[1..];
    }
  }

  lemma AlikeBehind(c: char, a: string, b: string)
    requires !IsWhite(c) && (BeginsWord(a) <==> BeginsWord(b))
    ensures Words([c] + a) == Words([c] + b) <==> Words(a) == Words(b)
  {
    if BeginsWord(a) {
      PrependedAlike([c], Words(a), Words(b));
    } else {
      assert Words([c] + a)[1..] == Words(a);
      assert Words([c] + b)[1..] == Words(b);
    }
  }

  lemma WordInFrontKeptIff(t: string)
    requires t != [] && !IsWhite(t[0])
    requires Words(Unreturned(t[1..])) == Words(t[1..]) <==> !Glued(t[1..])
    ensures Words(Unreturned(t)) == Words(t) <==> !Glued(t)
  {
    var rest := t[1..];
    var u := Unreturned(rest);
    assert t == [t[0]] + rest;
    FirstKept(t);
    GluedFromFirst(t);
    FirstGluedIff(t);
    UnreturnedStart(rest);
    if BeginsWord(rest) == BeginsWord(u) {
      AlikeBehind(t[0], u, rest);
    } else {
      assert Returns(rest) > 0 && BeginsWord(u);
      UnreturnedHasNoMoreWords(rest);
    }
  }

  lemma FoldKeptIff(t: string)
    ensures Folded(Unreturned(t)) == Folded(t) <==> !Glued(t)
  {
    FoldedAlikeIff(Unreturned(t), t);
    WordsKeptIff(t);
  }

  /** Two texts that fold apart can still become one text without their returns. */
  lemma LoneReturnJoinsWords()
    ensures Folded("a\rb") != Folded("ab")
    ensures Unreturned("a\rb") == Unreturned("ab")
  {
    assert GluedAt("a\rb", 0, 2);
    FoldKeptIff("a\rb");
    assert "a\rb"[1..] == "\rb" && "\rb"[1..] == "b" && "ab"[1..] == "b" && "b"[1..] == "";
    assert Unreturned("b") == "b";
    assert Unreturned("\rb") == "b";
    FoldKeptIff("ab");
  }
}
