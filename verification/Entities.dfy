/**
 Entity decoding as a chain of global replacements, one entity after another, proved equal to a
 decoder that reads the text once from left to right.
 */
module Entities {

  /** `str::replace`: every occurrence of `pattern`, leftmost first, none overlapping. */
  function Replaced(s: string, pattern: string, put: string): string
    requires pattern != []
  {
    if s == [] then []
    else if pattern <= s then put + Replaced(s[|pattern|..], pattern, put)
    else [s[0]] + Replaced(s[1..], pattern, put)
  }

  datatype EntityShape = EntityShape(name: string, letter: char)

  predicate NameChar(c: char) {
    'a' <= c <= 'z' || '0' <= c <= '9' || c == '&' || c == '#' || c == ';'
  }

  /** An ampersand, a body with neither sign in it, and a semicolon. */
  predicate WellFormed(e: EntityShape) {
    && |e.name| >= 2
    && (forall i | 0 <= i < |e.name| :: NameChar(e.name[i]))
    && (forall i | 0 <= i < |e.name| :: e.name[i] == '&' <==> i == 0)
    && (forall i | 0 <= i < |e.name| :: e.name[i] == ';' <==> i == |e.name| - 1)
  }

  type Entity = e: EntityShape | WellFormed(e) witness EntityShape("&lt;", '<')

  const LT: Entity := EntityShape("&lt;", '<')
  const GT: Entity := EntityShape("&gt;", '>')
  const QUOT: Entity := EntityShape("&quot;", '"')
  const APOS: Entity := EntityShape("&#39;", '\'')
  const PADDED_APOS: Entity := EntityShape("&#039;", '\'')
  const AMP: Entity := EntityShape("&amp;", '&')

  /** The fifth entity that XML 1.0 section 4.6 predefines. The chain does not know it. */
  const NAMED_APOS: Entity := EntityShape("&apos;", '\'')

  const BEFORE_AMP: seq<Entity> := [LT] + [GT] + [QUOT] + [APOS] + [PADDED_APOS]
  const ENTITIES: seq<Entity> := BEFORE_AMP + [AMP]

  /** The chain the adapters run, the ampersand last. */
  function Unescaped(s: string): string {
    var s := Replaced(s, "&lt;", "<");
    var s := Replaced(s, "&gt;", ">");
    var s := Replaced(s, "&quot;", "\"");
    var s := Replaced(s, "&#39;", "'");
    var s := Replaced(s, "&#039;", "'");
    Replaced(s, "&amp;", "&")
  }

  // ---------------------------------------------------------------------------------------
  // One pass
  // ---------------------------------------------------------------------------------------

  /** The first entity of `table` that `s` starts with, as a sequence of at most one. */
  function Match(table: seq<Entity>, s: string): (r: seq<Entity>)
    ensures |r| <= 1
    ensures r != [] ==> r[0] in table && r[0].name <= s
    ensures r == [] <==> forall e :: e in table ==> !(e.name <= s)
  {
    if table == [] then []
    else if table[0].name <= s then [table[0]]
    else
      assert table == [table[0]] + table[1..];
      Match(table[1..], s)
  }

  /** One left-to-right pass that knows every entity of `table` at once. */
  function Decoded(table: seq<Entity>, s: string): string
    decreases |s|
  {
    if s == [] then []
    else
      var found := Match(table, s);
      if found != [] then [found[0].letter] + Decoded(table, s[|found[0].name|..])
      else [s[0]] + Decoded(table, s[1..])
  }

  lemma {:induction false} MatchInLonger(table: seq<Entity>, e: Entity, s: string)
    ensures Match(table + [e], s) ==
            if Match(table, s) != [] then Match(table, s) else if e.name <= s then [e] else []
  {
    if table == [] {
      assert table + [e] == [e];
      assert Match([e][1..], s) == [];
    } else {
      assert (table + [e])[1..] == table[1..] + [e];
      MatchInLonger(table[1..], e, s);
    }
  }

  lemma DecodedHit(table: seq<Entity>, e: Entity, s: string, rest: string)
    requires Match(table, s) == [e] && s == e.name + rest
    ensures Decoded(table, s) == [e.letter] + Decoded(table, rest)
  {
    assert s[|e.name|..] == rest;
  }

  lemma DecodedMiss(table: seq<Entity>, c: char, rest: string)
    requires Match(table, [c] + rest) == []
    ensures Decoded(table, [c] + rest) == [c] + Decoded(table, rest)
  {
    assert ([c] + rest)[1..] == rest;
  }

  lemma PlainMatchesNothing(table: seq<Entity>, c: char, rest: string)
    requires c != '&'
    ensures Match(table, [c] + rest) == []
  {
    forall e | e in table ensures !(e.name <= [c] + rest) {
      assert e.name[0] == '&' && ([c] + rest)[0] == c;
    }
  }

  lemma Rejoined(s: string, rest: string)
    requires s != []
    ensures s + rest == [s[0]] + (s[1..] + rest)
  {
  }

  lemma SplitAt(prefix: string, s: string)
    requires prefix <= s
    ensures s == prefix + s[|prefix|..]
  {
  }

  /** Text without an ampersand is copied. */
  lemma {:induction false} CopiesPlain(table: seq<Entity>, plain: string, rest: string)
    requires '&' !in plain
    ensures Decoded(table, plain + rest) == plain + Decoded(table, rest)
  {
    if plain == [] {
      assert plain + rest == rest;
    } else {
      var tail := plain[1..];
      CopiesPlain(table, tail, rest);
      PlainMatchesNothing(table, plain[0], tail + rest);
      DecodedMiss(table, plain[0], tail + rest);
      Rejoined(plain, rest);
      Rejoined(plain, Decoded(table, rest));
    }
  }

  /** An entity's name the table does not know is copied too. */
  lemma CopiesName(table: seq<Entity>, e: Entity, rest: string)
    requires Match(table, e.name + rest) == []
    ensures Decoded(table, e.name + rest) == e.name + Decoded(table, rest)
  {
    var body := e.name[1..];
    Rejoined(e.name, rest);
    DecodedMiss(table, e.name[0], body + rest);
    CopiesPlain(table, body, rest);
    Rejoined(e.name, Decoded(table, rest));
  }

  /** Decoded text starts with `body` only where the text itself did, if no entity decodes into `body`. */
  lemma {:induction false} BodyWasThere(table: seq<Entity>, body: string, s: string)
    requires forall e | e in table :: e.letter !in body
    requires body <= Decoded(table, s)
    ensures body <= s
  {
    if body != [] {
      var found := Match(table, s);
      assert Decoded(table, s)[0] == body[0];
      assert found == [];
      assert Decoded(table, s)[1..] == Decoded(table, s[1..]);
      assert body[1..] <= Decoded(table, s)[1..];
      BodyWasThere(table, body[1..], s[1..]);
      assert s == [s[0]] + s[1..] && body == [body[0]] + body[1..];
    }
  }

  lemma ReplacedHit(s: string, pattern: string, put: string, rest: string)
    requires pattern != [] && s == pattern + rest
    ensures Replaced(s, pattern, put) == put + Replaced(rest, pattern, put)
  {
    assert s[|pattern|..] == rest;
  }

  lemma ReplacedMiss(c: char, rest: string, pattern: string, put: string)
    requires pattern != [] && !(pattern <= [c] + rest)
    ensures Replaced([c] + rest, pattern, put) == [c] + Replaced(rest, pattern, put)
  {
    assert ([c] + rest)[1..] == rest;
  }

  /** Text without the pattern's first character is left alone. */
  lemma {:induction false} ReplacedNothing(s: string, pattern: string, put: string)
    requires pattern != [] && pattern[0] !in s
    ensures Replaced(s, pattern, put) == s
  {
    if s != [] {
      assert s[0] in s;
      ReplacedNothing(s[1..], pattern, put);
    }
  }

  predicate Joins(table: seq<Entity>, e: Entity) {
    forall t | t in table :: t.letter !in e.name
  }

  ghost predicate JoinedAt(table: seq<Entity>, e: Entity, s: string)
    requires Joins(table, e)
  {
    Replaced(Decoded(table, s), e.name, [e.letter]) == Decoded(table + [e], s)
  }

  lemma JoinsAtKnown(table: seq<Entity>, e: Entity, s: string, t: Entity, rest: string)
    requires Joins(table, e) && Match(table, s) == [t] && s == t.name + rest && JoinedAt(table, e, rest)
    ensures JoinedAt(table, e, s)
  {
    MatchInLonger(table, e, s);
    DecodedHit(table, t, s, rest);
    DecodedHit(table + [e], t, s, rest);
    assert t in table && t.letter != e.name[0];
    ReplacedMiss(t.letter, Decoded(table, rest), e.name, [e.letter]);
  }

  lemma JoinsAtNew(table: seq<Entity>, e: Entity, s: string, rest: string)
    requires Joins(table, e) && Match(table, s) == [] && s == e.name + rest && JoinedAt(table, e, rest)
    ensures JoinedAt(table, e, s)
  {
    MatchInLonger(table, e, s);
    DecodedHit(table + [e], e, s, rest);
    CopiesName(table, e, rest);
    ReplacedHit(Decoded(table, s), e.name, [e.letter], Decoded(table, rest));
  }

  lemma NameIsHeadAndBody(e: Entity, c: char, rest: string)
    ensures c == '&' && e.name[1..] <= rest ==> e.name <= [c] + rest
  {
    assert e.name == [e.name[0]] + e.name[1..];
  }

  lemma JoinsAtNeither(table: seq<Entity>, e: Entity, c: char, rest: string)
    requires Joins(table, e) && Match(table, [c] + rest) == [] && !(e.name <= [c] + rest) && JoinedAt(table, e, rest)
    ensures JoinedAt(table, e, [c] + rest)
  {
    MatchInLonger(table, e, [c] + rest);
    DecodedMiss(table, c, rest);
    DecodedMiss(table + [e], c, rest);
    var tail := Decoded(table, rest);
    if e.name <= [c] + tail {
      assert e.name[1..] <= ([c] + tail)[1..] == tail;
      NameIsHeadAndBody(e, c, rest);
      BodyWasThere(table, e.name[1..], rest);
    }
    ReplacedMiss(c, tail, e.name, [e.letter]);
  }

  /**
   A replacement run after a pass joins it: the pass that also knows the new entity gives the same
   text, as long as nothing already decoded occurs in the new entity's name.
   */
  lemma {:induction false} ReplacementJoins(table: seq<Entity>, e: Entity, s: string)
    requires Joins(table, e)
    ensures JoinedAt(table, e, s)
    decreases |s|
  {
    if s != [] {
      var found := Match(table, s);
      if found != [] {
        var t := found[0];
        var rest := s[|t.name|..];
        SplitAt(t.name, s);
        ReplacementJoins(table, e, rest);
        assert found == [t];
        JoinsAtKnown(table, e, s, t, rest);
      } else if e.name <= s {
        var rest := s[|e.name|..];
        SplitAt(e.name, s);
        ReplacementJoins(table, e, rest);
        JoinsAtNew(table, e, s, rest);
      } else {
        var c, rest := s[0], s[1..];
        assert s == [c] + rest;
        ReplacementJoins(table, e, rest);
        JoinsAtNeither(table, e, c, rest);
      }
    }
  }

  /** None of the letters decoded before the ampersand can occur in an entity's name. */
  lemma LettersApart(table: seq<Entity>, e: Entity)
    requires forall t | t in table :: !NameChar(t.letter)
    ensures Joins(table, e)
  {
    forall t | t in table ensures t.letter !in e.name {
      assert forall i | 0 <= i < |e.name| :: NameChar(e.name[i]);
    }
  }

  lemma {:induction false} EmptyTableCopies(s: string)
    ensures Decoded([], s) == s
  {
    if s != [] { EmptyTableCopies(s[1..]); }
  }

  /** The chain of six replacements is one simultaneous decoding. */
  lemma UnescapedIsDecoded(s: string)
    ensures Unescaped(s) == Decoded(ENTITIES, s)
  {
    var t1 := [LT];
    var t2 := t1 + [GT];
    var t3 := t2 + [QUOT];
    var t4 := t3 + [APOS];
    EmptyTableCopies(s);
    LettersApart([], LT);
    ReplacementJoins([], LT, s);
    assert [] + [LT] == t1;
    LettersApart(t1, GT);
    ReplacementJoins(t1, GT, s);
    LettersApart(t2, QUOT);
    ReplacementJoins(t2, QUOT, s);
    LettersApart(t3, APOS);
    ReplacementJoins(t3, APOS, s);
    LettersApart(t4, PADDED_APOS);
    ReplacementJoins(t4, PADDED_APOS, s);
    LettersApart(BEFORE_AMP, AMP);
    ReplacementJoins(BEFORE_AMP, AMP, s);
  }

  // ---------------------------------------------------------------------------------------
  // Escaping and back
  // ---------------------------------------------------------------------------------------

  /** How a character may be written: as itself unless it is special, or as an entity that decodes to it. */
  predicate Writes(piece: string, c: char) {
    || (piece == [c] && c != '&')
    || exists e :: e in ENTITIES && piece == e.name && e.letter == c
  }

  /** Whether `text` spells `s`, one piece to a character. */
  ghost predicate Spells(pieces: seq<string>, s: string) {
    |pieces| == |s| && forall i | 0 <= i < |s| :: Writes(pieces[i], s[i])
  }

  function Joined(pieces: seq<string>): string {
    if pieces == [] then [] else pieces[0] + Joined(pieces[1..])
  }

  /** No entity's name is the start of another's. */
  lemma NamesApart(e: Entity, f: Entity, s: string)
    requires e.name <= s && f.name <= s
    ensures e.name == f.name
  {
    assert s[|e.name| - 1] == ';' && s[|f.name| - 1] == ';';
    assert forall i | 0 <= i < |e.name| - 1 :: s[i] != ';' by {
      assert forall i | 0 <= i < |e.name| :: s[i] == e.name[i];
    }
    assert forall i | 0 <= i < |f.name| - 1 :: s[i] != ';' by {
      assert forall i | 0 <= i < |f.name| :: s[i] == f.name[i];
    }
    assert |e.name| == |f.name|;
  }

  lemma NamesDiffer(e: Entity, f: Entity)
    requires e in ENTITIES && f in ENTITIES && e.name == f.name
    ensures e == f
  {
    var i :| 0 <= i < |ENTITIES| && ENTITIES[i] == e;
    var j :| 0 <= j < |ENTITIES| && ENTITIES[j] == f;
    assert LT.name[1] != GT.name[1] && |APOS.name| != |PADDED_APOS.name| && |LT.name| != |QUOT.name|;
    assert QUOT.name[1] == 'q' && APOS.name[1] == '#' && PADDED_APOS.name[1] == '#' && AMP.name[1] == 'a';
  }

  lemma MatchExact(e: Entity, rest: string)
    requires e in ENTITIES
    ensures Match(ENTITIES, e.name + rest) == [e]
  {
    var s := e.name + rest;
    assert e.name <= s;
    var found := Match(ENTITIES, s);
    NamesApart(e, found[0], s);
    NamesDiffer(e, found[0]);
  }

  predicate ReadFirst(table: seq<Entity>, e: Entity, rest: string) {
    Decoded(table, e.name + rest) == [e.letter] + Decoded(table, rest)
  }

  lemma EntityInFront(e: Entity, rest: string)
    requires e in ENTITIES
    ensures ReadFirst(ENTITIES, e, rest)
  {
    MatchExact(e, rest);
    DecodedHit(ENTITIES, e, e.name + rest, rest);
  }

  lemma BehindAlike(front: string, p: string, q: string, p1: string, q1: string, more: string)
    requires p1 == front + p && q1 == front + q && q == p + more
    ensures q1 == p1 + more
  {}

  lemma ReadBehindPlain(table: seq<Entity>, c: char, rest: string, tail: string, more: string)
    requires Match(table, ([c] + rest) + tail) == [] && Decoded(table, rest + tail) == Decoded(table, rest) + more
    ensures Decoded(table, ([c] + rest) + tail) == Decoded(table, [c] + rest) + more
  {
    assert [c] + (rest + tail) == ([c] + rest) + tail;
    assert forall f: Entity :: f.name <= [c] + rest ==> f.name <= ([c] + rest) + tail;
    DecodedMiss(table, c, rest);
    DecodedMiss(table, c, rest + tail);
  }

  /** What follows an ampersand is read on its own, whatever is in front of it. */
  lemma {:induction false} DecodedApart(table: seq<Entity>, a: string, tail: string)
    requires forall e, rest | e in table :: ReadFirst(table, e, rest)
    requires tail != [] && tail[0] == '&'
    ensures Decoded(table, a + tail) == Decoded(table, a) + Decoded(table, tail)
    decreases |a|
  {
    if a == [] {
      assert a + tail == tail;
    } else if Match(table, a + tail) != [] {
      var f := Match(table, a + tail)[0];
      EndsInFront(a, tail, f);
      var rest := a[|f.name|..];
      assert a == f.name + rest && a + tail == f.name + (rest + tail);
      DecodedApart(table, rest, tail);
      assert ReadFirst(table, f, rest) && ReadFirst(table, f, rest + tail);
      BehindAlike([f.letter], Decoded(table, rest), Decoded(table, rest + tail), Decoded(table, a), Decoded(table, a + tail),
                  Decoded(table, tail));
    } else {
      var rest := a[1..];
      assert a == [a[0]] + rest;
      DecodedApart(table, rest, tail);
      ReadBehindPlain(table, a[0], rest, tail, Decoded(table, tail));
    }
  }

  /** No entity runs into the next: only its first character is an ampersand. */
  lemma EndsInFront(a: string, tail: string, f: Entity)
    requires a != [] && tail != [] && tail[0] == '&' && f.name <= a + tail
    ensures f.name <= a
  {
    assert (a + tail)[|a|] == '&';
    assert forall i | 0 < i < |f.name| :: (a + tail)[i] == f.name[i] && f.name[i] != '&';
  }

  /** The six entities and what they stand for. */
  lemma EntityReads(a: string, name: string, letter: char, b: string)
    requires (name, letter) in
      {("&lt;", '<'), ("&gt;", '>'), ("&quot;", '"'), ("&#39;", '\''), ("&#039;", '\''), ("&amp;", '&')}
    ensures Unescaped(a + (name + b)) == Unescaped(a) + ([letter] + Unescaped(b))
  {
    var e := EntityOf(name, letter);
    UnescapedIsDecoded(a);
    UnescapedIsDecoded(b);
    UnescapedIsDecoded(a + (name + b));
    forall f, rest | f in ENTITIES ensures ReadFirst(ENTITIES, f, rest) { EntityInFront(f, rest); }
    DecodedApart(ENTITIES, a, name + b);
    assert ReadFirst(ENTITIES, e, b);
  }

  lemma EntityOf(name: string, letter: char) returns (e: Entity)
    requires (name, letter) in
      {("&lt;", '<'), ("&gt;", '>'), ("&quot;", '"'), ("&#39;", '\''), ("&#039;", '\''), ("&amp;", '&')}
    ensures e in ENTITIES && e.name == name && e.letter == letter
  {
    var k := match name
      case "&lt;" => 0
      case "&gt;" => 1
      case "&quot;" => 2
      case "&#39;" => 3
      case "&#039;" => 4
      case _ => 5;
    e := ENTITIES[k];
  }

  lemma {:induction false} SpellingDecodes(pieces: seq<string>, s: string)
    requires Spells(pieces, s)
    ensures Decoded(ENTITIES, Joined(pieces)) == s
  {
    if s != [] {
      SpellingDecodes(pieces[1..], s[1..]);
      PieceDecodes(pieces[0], s[0], Joined(pieces[1..]));
      assert s == [s[0]] + s[1..];
    }
  }

  /** Decoding any spelling gives back what was spelt. */
  lemma DecodesSpelling(pieces: seq<string>, s: string)
    requires Spells(pieces, s)
    ensures Unescaped(Joined(pieces)) == s
  {
    UnescapedIsDecoded(Joined(pieces));
    SpellingDecodes(pieces, s);
  }

  lemma PieceDecodes(piece: string, c: char, rest: string)
    requires Writes(piece, c)
    ensures Decoded(ENTITIES, piece + rest) == [c] + Decoded(ENTITIES, rest)
  {
    if e :| e in ENTITIES && piece == e.name && e.letter == c {
      MatchExact(e, rest);
      DecodedHit(ENTITIES, e, e.name + rest, rest);
    } else {
      CopiesPlain(ENTITIES, [c], rest);
    }
  }

  function EscapedChar(c: char): (piece: string)
    ensures Writes(piece, c)
  {
    if c == '&' then assert AMP in ENTITIES; AMP.name
    else if c == '<' then assert LT in ENTITIES; LT.name
    else if c == '>' then assert GT in ENTITIES; GT.name
    else if c == '"' then assert QUOT in ENTITIES; QUOT.name
    else if c == '\'' then assert APOS in ENTITIES; APOS.name
    else [c]
  }

  /** Every special character written out, the apostrophe by its number. */
  function Escaped(s: string): string {
    Joined(seq(|s|, i requires 0 <= i < |s| => EscapedChar(s[i])))
  }

  /** Decoding inverts escaping. */
  lemma EscapeRoundTrip(s: string)
    ensures Unescaped(Escaped(s)) == s
  {
    DecodesSpelling(seq(|s|, i requires 0 <= i < |s| => EscapedChar(s[i])), s);
  }

  /** However often a text was escaped, one decoding takes off exactly one level. */
  lemma OneLevelOnly(s: string, levels: nat)
    ensures Unescaped(EscapedTimes(s, levels + 1)) == EscapedTimes(s, levels)
  {
    EscapeRoundTrip(EscapedTimes(s, levels));
  }

  function EscapedTimes(s: string, levels: nat): string {
    if levels == 0 then s else Escaped(EscapedTimes(s, levels - 1))
  }

  // ---------------------------------------------------------------------------------------
  // The standard's escaper
  // ---------------------------------------------------------------------------------------

  function XmlEscapedChar(c: char): string { if c == '\'' then NAMED_APOS.name else EscapedChar(c) }

  /** The five entities of XML 1.0 section 4.6 written out. */
  function XmlEscaped(s: string): string { if s == [] then [] else XmlEscapedChar(s[0]) + XmlEscaped(s[1..]) }

  /** The text with its apostrophes, and nothing else, written as entities. */
  function ApostrophesNamed(s: string): string {
    if s == [] then [] else (if s[0] == '\'' then NAMED_APOS.name else [s[0]]) + ApostrophesNamed(s[1..])
  }

  lemma NamedAposUnknown(rest: string)
    ensures Match(ENTITIES, NAMED_APOS.name + rest) == []
  {
    var s := NAMED_APOS.name + rest;
    assert s[1] == 'a' && s[2] == 'p';
    forall e | e in ENTITIES ensures !(e.name <= s) {
      SecondLetters(e);
    }
  }

  lemma SecondLetters(e: Entity)
    requires e in ENTITIES
    ensures |e.name| > 2 && (e.name[1] == 'a' ==> e.name[2] == 'm')
  {
    var i :| 0 <= i < |ENTITIES| && ENTITIES[i] == e;
    assert QUOT.name[1] == 'q' && APOS.name[1] == '#' && PADDED_APOS.name[1] == '#' && AMP.name[2] == 'm';
    assert LT.name[1] == 'l' && GT.name[1] == 'g';
  }

  /** The chain decodes four of the five entities and copies the fifth. */
  lemma {:induction false} XmlDecodesTo(s: string)
    ensures Decoded(ENTITIES, XmlEscaped(s)) == ApostrophesNamed(s)
  {
    if s != [] {
      var rest := XmlEscaped(s[1..]);
      XmlDecodesTo(s[1..]);
      if s[0] == '\'' {
        NamedAposUnknown(rest);
        CopiesName(ENTITIES, NAMED_APOS, rest);
      } else if e :| e in ENTITIES && EscapedChar(s[0]) == e.name && e.letter == s[0] {
        MatchExact(e, rest);
        DecodedHit(ENTITIES, e, e.name + rest, rest);
      } else {
        CopiesPlain(ENTITIES, [s[0]], rest);
      }
    }
  }

  lemma {:induction false} NamingLengthens(s: string)
    ensures |ApostrophesNamed(s)| >= |s|
    ensures ApostrophesNamed(s) == s <==> '\'' !in s
  {
    if s != [] {
      NamingLengthens(s[1..]);
      if s[0] != '\'' {
        assert s == [s[0]] + s[1..];
        assert ApostrophesNamed(s)[1..] == ApostrophesNamed(s[1..]);
      }
    }
  }

  /** Decoding inverts the standard's escaping exactly on texts without an apostrophe. */
  lemma XmlRoundTripIff(s: string)
    ensures Unescaped(XmlEscaped(s)) == ApostrophesNamed(s)
    ensures Unescaped(XmlEscaped(s)) == s <==> '\'' !in s
  {
    UnescapedIsDecoded(XmlEscaped(s));
    XmlDecodesTo(s);
    NamingLengthens(s);
  }

  lemma ApostropheIsNotDecoded()
    ensures XmlEscaped("'") == "&apos;" && Unescaped("&apos;") == "&apos;"
  {
    assert "'"[1..] == [];
    assert XmlEscaped("'") == NAMED_APOS.name + [];
    XmlRoundTripIff("'");
    assert ApostrophesNamed("'") == NAMED_APOS.name + [];
  }

  lemma {:induction false} XmlEscapedHasNoApostrophe(s: string)
    ensures '\'' !in XmlEscaped(s)
  {
    if s != [] {
      XmlEscapedHasNoApostrophe(s[1..]);
      assert '\'' !in XmlEscapedChar(s[0]) by {
        assert forall i | 0 <= i < |NAMED_APOS.name| :: NameChar(NAMED_APOS.name[i]);
        if e :| e in ENTITIES && EscapedChar(s[0]) == e.name {
          assert forall i | 0 <= i < |e.name| :: NameChar(e.name[i]);
        }
      }
    }
  }

  function XmlEscapedTimes(s: string, levels: nat): string {
    if levels == 0 then s else XmlEscaped(XmlEscapedTimes(s, levels - 1))
  }

  /** A text escaped more than once always loses exactly one level: only the first escaping meets apostrophes. */
  lemma XmlOneLevelIff(s: string, levels: nat)
    ensures Unescaped(XmlEscapedTimes(s, levels + 1)) == XmlEscapedTimes(s, levels) <==> levels > 0 || '\'' !in s
  {
    XmlRoundTripIff(XmlEscapedTimes(s, levels));
    if levels > 0 {
      XmlEscapedHasNoApostrophe(XmlEscapedTimes(s, levels - 1));
    }
  }

  // ---------------------------------------------------------------------------------------
  // What decoding leaves alone, and why the ampersand comes last
  // ---------------------------------------------------------------------------------------

  /** No entity occurs anywhere in `s`. */
  predicate EntityFree(s: string) {
    forall i | 0 <= i <= |s| :: forall e | e in ENTITIES :: !(e.name <= s[i..])
  }

  lemma {:induction false} DecodedShrinks(s: string)
    ensures |Decoded(ENTITIES, s)| <= |s|
    ensures |Decoded(ENTITIES, s)| == |s| ==> EntityFree(s)
    decreases |s|
  {
    if s != [] {
      var found := Match(ENTITIES, s);
      if found != [] {
        DecodedShrinks(s[|found[0].name|..]);
      } else {
        DecodedShrinks(s[1..]);
        if EntityFree(s[1..]) {
          forall i, e | 0 <= i <= |s| && e in ENTITIES ensures !(e.name <= s[i..]) {
            if i > 0 { assert s[i..] == s[1..][i - 1..]; } else { assert s[i..] == s; }
          }
        }
      }
    }
  }

  lemma {:induction false} EntityFreeStays(s: string)
    requires EntityFree(s)
    ensures Decoded(ENTITIES, s) == s
  {
    if s != [] {
      assert s[0..] == s;
      assert Match(ENTITIES, s) == [];
      assert forall i | 0 <= i <= |s[1..]| :: s[1..][i..] == s[i + 1..];
      EntityFreeStays(s[1..]);
    }
  }

  /** Decoding changes a text exactly when an entity occurs in it. */
  lemma UnchangedIff(s: string)
    ensures Unescaped(s) == s <==> EntityFree(s)
  {
    UnescapedIsDecoded(s);
    DecodedShrinks(s);
    if EntityFree(s) { EntityFreeStays(s); }
  }

  /** Run first, the ampersand's replacement would build an entity for a later one to decode. */
  lemma AmpersandFirstLosesTwoLevels()
    ensures Replaced(Replaced("&amp;lt;", AMP.name, [AMP.letter]), LT.name, [LT.letter]) == "<"
    ensures Unescaped("&amp;lt;") == "&lt;"
  {
    ReplacedHit("&amp;lt;", AMP.name, [AMP.letter], "lt;");
    ReplacedNothing("lt;", AMP.name, [AMP.letter]);
    assert "&" + "lt;" == LT.name + [];
    ReplacedHit("&lt;", LT.name, [LT.letter], []);
    UnescapedIsDecoded("&amp;lt;");
    MatchExact(AMP, "lt;");
    assert AMP.name + "lt;" == "&amp;lt;";
    DecodedHit(ENTITIES, AMP, "&amp;lt;", "lt;");
    CopiesPlain(ENTITIES, "lt;", []);
    assert "lt;" + [] == "lt;";
  }
}
