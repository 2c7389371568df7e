/**
 What the scanner takes for strings, candidates and objects, against the text itself: string literals
 with their escapes, and objects as a grammar of plain bytes, literals and nested objects. Bytes are
 written out: 0x22 is the quote, 0x5C the backslash, 0x7B and 0x7D the braces.
 */
module ScannerText {
  import opened Scanner

  // ---------------------------------------------------------------------------------------
  // Strings
  // ---------------------------------------------------------------------------------------

  /** What may stand between the quotes of a literal: bytes but quote and backslash, and backslashes with any byte behind. */
  predicate LiteralBody(body: seq<Byte>) {
    body == [] ||
    (if body[0] == 0x5C then |body| >= 2 && LiteralBody(body[2..]) else body[0] != 0x22 && LiteralBody(body[1..]))
  }

  /** Once in a string, a literal's body keeps the scan in it. */
  lemma {:induction false} BodyStaysInString(doc: seq<Byte>, p: nat, q: nat)
    requires p <= q <= |doc| && LexAt(doc, p) == Lex(true, false) && LiteralBody(doc[p..q])
    ensures forall i | p <= i <= q :: LexAt(doc, i).inString
    ensures LexAt(doc, q) == Lex(true, false)
    decreases q - p
  {
    if p < q {
      var body := doc[p..q];
      if body[0] == 0x5C {
        assert body[2..] == doc[p + 2..q];
        assert LexAt(doc, p + 1) == Lex(true, true) && LexAt(doc, p + 2) == Lex(true, false);
        BodyStaysInString(doc, p + 2, q);
      } else {
        assert body[1..] == doc[p + 1..q];
        assert LexAt(doc, p + 1) == Lex(true, false);
        BodyStaysInString(doc, p + 1, q);
      }
    }
  }

  /** A string literal is crossed as a whole: the scan is inside it up to its closing quote and outside behind it. */
  lemma LiteralIsCrossed(doc: seq<Byte>, p: nat, q: nat)
    requires p < q < |doc| && LexAt(doc, p) == OUTSIDE
    requires doc[p] == 0x22 && LiteralBody(doc[p + 1..q]) && doc[q] == 0x22
    ensures forall i | p < i <= q :: LexAt(doc, i).inString
    ensures LexAt(doc, q + 1) == OUTSIDE
  {
    BodyStaysInString(doc, p + 1, q);
  }

  /** Outside strings only a quote changes anything. */
  lemma OutsideGoesOn(doc: seq<Byte>, p: nat)
    requires p < |doc| && LexAt(doc, p) == OUTSIDE && doc[p] != 0x22
    ensures LexAt(doc, p + 1) == OUTSIDE
  {}

  /** Where a string that has begun ends: at the next quote that no backslash escapes. */
  lemma {:induction false} StringEnds(doc: seq<Byte>, p: nat, e: nat) returns (q: nat)
    requires p <= e <= |doc| && LexAt(doc, p) == Lex(true, false) && !LexAt(doc, e).inString
    ensures p <= q < e && doc[q] == 0x22 && LiteralBody(doc[p..q]) && LexAt(doc, q + 1) == OUTSIDE
    decreases e - p
  {
    assert p < e;
    if doc[p] == 0x22 {
      q := p;
      assert doc[p..p] == [];
    } else if doc[p] == 0x5C {
      assert LexAt(doc, p + 1) == Lex(true, true);
      assert p + 1 < e && LexAt(doc, p + 2) == Lex(true, false);
      q := StringEnds(doc, p + 2, e);
      assert doc[p..q][2..] == doc[p + 2..q];
    } else {
      q := StringEnds(doc, p + 1, e);
      assert doc[p..q][1..] == doc[p + 1..q];
    }
  }

  /** Text outside strings: any byte but a quote, or a whole literal. */
  datatype Token = Plain(b: Byte) | Literal(body: seq<Byte>)

  predicate WellFormed(t: Token) { match t case Plain(b) => b != 0x22 case Literal(body) => LiteralBody(body) }

  function Spelled(t: Token): seq<Byte> { match t case Plain(b) => [b] case Literal(body) => [0x22] + body + [0x22] }

  function SpelledAll(tokens: seq<Token>): seq<Byte> {
    if tokens == [] then [] else SpelledAll(tokens[..|tokens| - 1]) + Spelled(tokens[|tokens| - 1])
  }

  /** `doc` up to `p` is such text. */
  ghost predicate IsOutside(doc: seq<Byte>, p: nat)
    requires p <= |doc|
  {
    exists tokens :: (forall t | t in tokens :: WellFormed(t)) && SpelledAll(tokens) == doc[..p]
  }

  /** A slice between two bytes. */
  lemma Enclosed(text: seq<Byte>, p: nat, e: nat, first: Byte, middle: seq<Byte>, last: Byte)
    requires p <= e <= |text| && text[p..e] == [first] + middle + [last]
    ensures p + 1 < e && text[p] == first && text[e - 1] == last && text[p + 1..e - 1] == middle
  {
    var whole := text[p..e];
    assert |whole| == |middle| + 2 && text[p] == whole[0] && text[e - 1] == whole[e - p - 1];
    forall k | 0 <= k < |middle| ensures text[p + 1 + k] == middle[k] {
      assert text[p + 1 + k] == whole[1 + k];
    }
  }

  lemma EnclosedIs(text: seq<Byte>, p: nat, q: nat)
    requires p < q < |text|
    ensures text[p..q + 1] == [text[p]] + text[p + 1..q] + [text[q]]
  {
    var whole, parts := text[p..q + 1], [text[p]] + text[p + 1..q] + [text[q]];
    assert |whole| == |parts|;
    forall k | 0 <= k < |whole| ensures whole[k] == parts[k] {
      assert whole[k] == text[p + k];
    }
  }

  /** A slice in two parts. */
  lemma Parted(text: seq<Byte>, p: nat, e: nat, a: seq<Byte>, b: seq<Byte>)
    requires p <= e <= |text| && text[p..e] == a + b
    ensures p + |a| <= e && text[p..p + |a|] == a && text[p + |a|..e] == b
  {
    var whole, m := text[p..e], p + |a|;
    assert |whole| == |a| + |b|;
    forall k | 0 <= k < |a| ensures text[p..m][k] == a[k] {
      assert whole[k] == (a + b)[k];
    }
    forall k | 0 <= k < |b| ensures text[m..e][k] == b[k] {
      assert whole[|a| + k] == (a + b)[|a| + k];
    }
  }

  lemma TokenIsCrossed(doc: seq<Byte>, t: Token, m: nat, p: nat)
    requires m <= p <= |doc| && WellFormed(t) && Spelled(t) == doc[m..p] && LexAt(doc, m) == OUTSIDE
    ensures LexAt(doc, p) == OUTSIDE
  {
    if t.Literal? {
      Enclosed(doc, m, p, 0x22, t.body, 0x22);
      LiteralIsCrossed(doc, m, p - 1);
    } else {
      assert doc[m] == doc[m..p][0];
      OutsideGoesOn(doc, m);
    }
  }

  lemma {:induction false} TokensAreOutside(doc: seq<Byte>, tokens: seq<Token>, p: nat)
    requires p <= |doc| && (forall t | t in tokens :: WellFormed(t)) && SpelledAll(tokens) == doc[..p]
    ensures LexAt(doc, p) == OUTSIDE
  {
    if tokens != [] {
      var init, t := tokens[..|tokens| - 1], tokens[|tokens| - 1];
      var m := |SpelledAll(init)|;
      assert SpelledAll(init) == doc[..p][..m] && Spelled(t) == doc[..p][m..];
      TokensAreOutside(doc, init, m);
      TokenIsCrossed(doc, t, m, p);
    }
  }

  lemma NextToken(doc: seq<Byte>, p: nat, e: nat) returns (t: Token, next: nat)
    requires p < e <= |doc| && LexAt(doc, p) == OUTSIDE && !LexAt(doc, e).inString
    ensures p < next <= e && WellFormed(t) && Spelled(t) == doc[p..next] && LexAt(doc, next) == OUTSIDE
  {
    t, next := Plain(doc[p]), p + 1;
    if doc[p] == 0x22 {
      assert LexAt(doc, p + 1) == Lex(true, false);
      var q := StringEnds(doc, p + 1, e);
      t, next := Literal(doc[p + 1..q]), q + 1;
      EnclosedIs(doc, p, q);
    } else {
      OutsideGoesOn(doc, p);
    }
  }

  lemma SpelledMore(tokens: seq<Token>, t: Token)
    ensures SpelledAll(tokens + [t]) == SpelledAll(tokens) + Spelled(t)
  {
    assert (tokens + [t])[..|tokens + [t]| - 1] == tokens;
  }

  /** From one place outside strings to another the text is a run of tokens. */
  lemma {:induction false} OutsideIsTokens(doc: seq<Byte>, tokens: seq<Token>, p: nat, e: nat) returns (all: seq<Token>)
    requires p <= e <= |doc| && LexAt(doc, p) == OUTSIDE && !LexAt(doc, e).inString
    requires (forall t | t in tokens :: WellFormed(t)) && SpelledAll(tokens) == doc[..p]
    ensures (forall t | t in all :: WellFormed(t)) && SpelledAll(all) == doc[..e]
    decreases e - p
  {
    all := tokens;
    if p < e {
      var t, next := NextToken(doc, p, e);
      SpelledMore(tokens, t);
      assert doc[..p] + doc[p..next] == doc[..next];
      all := OutsideIsTokens(doc, tokens + [t], next, e);
    }
  }

  /** The scan is outside strings exactly where the text in front is plain bytes and whole literals. */
  lemma OutsideIff(doc: seq<Byte>, p: nat)
    requires p <= |doc|
    ensures !LexAt(doc, p).inString <==> IsOutside(doc, p)
  {
    if !LexAt(doc, p).inString {
      assert SpelledAll([]) == doc[..0];
      var tokens := OutsideIsTokens(doc, [], 0, p);
    }
    if tokens :| (forall t | t in tokens :: WellFormed(t)) && SpelledAll(tokens) == doc[..p] {
      TokensAreOutside(doc, tokens, p);
    }
  }

  // ---------------------------------------------------------------------------------------
  // Candidates
  // ---------------------------------------------------------------------------------------

  predicate Blank(b: Byte) { b in {0x20, 0x09, 0x0A, 0x0C, 0x0D} }

  /** Behind the brace at `i`, after nothing but white space, a key begins or the object ends. */
  ghost predicate KeyOrEnd(doc: seq<Byte>, i: nat) {
    exists q :: i < q < |doc| && (doc[q] == 0x22 || doc[q] == 0x7D) && forall k | i < k < q :: Blank(doc[k])
  }

  lemma {:induction false} BodyStarts(doc: seq<Byte>, i: nat, q: nat)
    requires i < q <= |doc| && forall k | i < k < q :: Blank(doc[k])
    ensures StartsBody(doc, q) <==> KeyOrEnd(doc, i)
    decreases |doc| - q
  {
    if q < |doc| {
      if Blank(doc[q]) {
        BodyStarts(doc, i, q + 1);
      } else if doc[q] != 0x22 && doc[q] != 0x7D {
        forall k | i < k < |doc| && (doc[k] == 0x22 || doc[k] == 0x7D) ensures exists j | i < j < k :: !Blank(doc[j]) {
          assert k > q && !Blank(doc[q]);
        }
      }
    }
  }

  /** A candidate is an opening brace outside strings with a key or the object's end next. */
  lemma CandidateIff(doc: seq<Byte>, i: nat)
    requires i < |doc|
    ensures Candidate(doc, i) <==> doc[i] == 0x7B && IsOutside(doc, i) && KeyOrEnd(doc, i)
  {
    OutsideIff(doc, i);
    BodyStarts(doc, i, i + 1);
  }

  // ---------------------------------------------------------------------------------------
  // Objects
  // ---------------------------------------------------------------------------------------

  /** What an object holds: bytes of no consequence, string literals, and objects. */
  datatype Item = Bare(b: Byte) | Quoted(body: seq<Byte>) | Inner(items: seq<Item>)

  predicate Grammatical(items: seq<Item>) {
    forall i | 0 <= i < |items| ::
      match items[i]
      case Bare(b) => b != 0x22 && b != 0x7B && b != 0x7D
      case Quoted(body) => LiteralBody(body)
      case Inner(inner) => Grammatical(inner)
  }

  function Written(item: Item): seq<Byte> {
    match item
    case Bare(b) => [b]
    case Quoted(body) => [0x22] + body + [0x22]
    case Inner(items) => [0x7B] + WrittenAll(items) + [0x7D]
  }

  function WrittenAll(items: seq<Item>): seq<Byte> {
    if items == [] then [] else Written(items[0]) + WrittenAll(items[1..])
  }

  /** A whole object: a brace, its contents, and the brace that closes it. */
  ghost predicate IsObject(text: seq<Byte>) {
    exists items :: Grammatical(items) && text == [0x7B] + WrittenAll(items) + [0x7D]
  }

  lemma LevelNext(text: seq<Byte>, p: nat)
    requires p < |text|
    ensures Level(text, p + 1) == Level(text, p)
      + if LexAt(text, p).inString then 0 else if text[p] == 0x7B then 1 else if text[p] == 0x7D then -1 else 0
  {}

  /** From `p` to `e` the level never falls below where it began, and it ends there, outside strings. */
  ghost predicate KeepsLevel(text: seq<Byte>, p: nat, e: nat) {
    && p <= e <= |text| && LexAt(text, p) == OUTSIDE && LexAt(text, e) == OUTSIDE
    && Level(text, e) == Level(text, p) && forall q | p <= q <= e :: Level(text, q) >= Level(text, p)
  }

  lemma KeepsJoined(text: seq<Byte>, p: nat, m: nat, e: nat)
    requires KeepsLevel(text, p, m) && KeepsLevel(text, m, e)
    ensures KeepsLevel(text, p, e)
  {}

  lemma {:induction false} StringKeepsLevel(text: seq<Byte>, p: nat, q: nat)
    requires p <= q <= |text| && forall i | p <= i < q :: LexAt(text, i).inString
    ensures forall i | p <= i <= q :: Level(text, i) == Level(text, p)
    decreases q - p
  {
    if p < q { StringKeepsLevel(text, p, q - 1); }
  }

  lemma QuotedKeeps(text: seq<Byte>, p: nat, e: nat, body: seq<Byte>)
    requires p < e <= |text| && LexAt(text, p) == OUTSIDE && LiteralBody(body) && text[p..e] == [0x22] + body + [0x22]
    ensures KeepsLevel(text, p, e)
  {
    Enclosed(text, p, e, 0x22, body, 0x22);
    LiteralIsCrossed(text, p, e - 1);
    StringKeepsLevel(text, p + 1, e);
  }

  lemma BareKeeps(text: seq<Byte>, p: nat)
    requires p < |text| && LexAt(text, p) == OUTSIDE && text[p] != 0x22 && text[p] != 0x7B && text[p] != 0x7D
    ensures KeepsLevel(text, p, p + 1)
  {
    OutsideGoesOn(text, p);
    LevelNext(text, p);
    forall q | p <= q <= p + 1 ensures Level(text, q) == Level(text, p) {
      assert q == p || q == p + 1;
    }
  }

  lemma InnerKeeps(text: seq<Byte>, p: nat, e: nat)
    requires p + 1 < e <= |text| && LexAt(text, p) == OUTSIDE && text[p] == 0x7B && text[e - 1] == 0x7D
    requires KeepsLevel(text, p + 1, e - 1)
    ensures KeepsLevel(text, p, e)
  {
    LevelNext(text, p);
    LevelNext(text, e - 1);
  }

  lemma {:induction false} ItemKeeps(text: seq<Byte>, p: nat, e: nat, item: Item)
    requires p <= e <= |text| && LexAt(text, p) == OUTSIDE && Grammatical([item]) && text[p..e] == Written(item)
    ensures KeepsLevel(text, p, e)
    decreases item, 1
  {
    assert [item][0] == item;
    assert text[p] == text[p..e][0];
    match item
    case Bare(b) => BareKeeps(text, p);
    case Quoted(body) => QuotedKeeps(text, p, e, body);
    case Inner(items) =>
      Enclosed(text, p, e, 0x7B, WrittenAll(items), 0x7D);
      OutsideGoesOn(text, p);
      ItemsKeep(text, p + 1, e - 1, items);
      InnerKeeps(text, p, e);
  }

  /** Contents by the grammar keep the level. */
  lemma {:induction false} ItemsKeep(text: seq<Byte>, p: nat, e: nat, items: seq<Item>)
    requires p <= e <= |text| && LexAt(text, p) == OUTSIDE && Grammatical(items) && text[p..e] == WrittenAll(items)
    ensures KeepsLevel(text, p, e)
    decreases items, 0
  {
    if items != [] {
      var m := p + |Written(items[0])|;
      Parted(text, p, e, Written(items[0]), WrittenAll(items[1..]));
      ItemKeeps(text, p, m, items[0]);
      ItemsKeep(text, m, e, items[1..]);
      KeepsJoined(text, p, m, e);
    }
  }

  /** The first place behind `p` where the level is back at `level`. */
  lemma {:induction false} FirstReturn(text: seq<Byte>, p: nat, e: nat, level: int) returns (q: nat)
    requires p < e <= |text| && Level(text, p) > level && Level(text, e) <= level
    ensures p <= q < e && Level(text, q + 1) == level && (forall i | p <= i <= q :: Level(text, i) > level)
    ensures Structural(text, q, 0x7D)
    decreases e - p
  {
    if Level(text, p + 1) > level {
      q := FirstReturn(text, p + 1, e, level);
    } else {
      q := p;
    }
  }

  /** Where the level is kept, the text is contents by the grammar. */
  lemma {:induction false} KeptIsItems(text: seq<Byte>, p: nat, e: nat) returns (items: seq<Item>)
    requires KeepsLevel(text, p, e)
    ensures Grammatical(items) && WrittenAll(items) == text[p..e]
    decreases e - p
  {
    if p == e {
      items := [];
    } else {
      var item, next := NextItem(text, p, e);
      var rest := KeptIsItems(text, next, e);
      items := [item] + rest;
      assert items[1..] == rest;
      assert text[p..next] + text[next..e] == text[p..e];
    }
  }

  lemma {:induction false} NextItem(text: seq<Byte>, p: nat, e: nat) returns (item: Item, next: nat)
    requires KeepsLevel(text, p, e) && p < e
    ensures p < next <= e && Grammatical([item]) && Written(item) == text[p..next] && KeepsLevel(text, next, e)
    decreases e - p, 0
  {
    if text[p] == 0x22 {
      item, next := NextQuoted(text, p, e);
    } else if text[p] == 0x7B {
      OutsideGoesOn(text, p);
      LevelNext(text, p);
      var q := FirstReturn(text, p + 1, e, Level(text, p));
      InnerIsKept(text, p, q);
      var inner := KeptIsItems(text, p + 1, q);
      item, next := Inner(inner), q + 1;
      EnclosedIs(text, p, q);
    } else {
      LevelNext(text, p);
      OutsideGoesOn(text, p);
      item, next := Bare(text[p]), p + 1;
    }
  }

  lemma NextQuoted(text: seq<Byte>, p: nat, e: nat) returns (item: Item, next: nat)
    requires KeepsLevel(text, p, e) && p < e && text[p] == 0x22
    ensures p < next <= e && Grammatical([item]) && Written(item) == text[p..next] && KeepsLevel(text, next, e)
  {
    assert LexAt(text, p + 1) == Lex(true, false);
    var q := StringEnds(text, p + 1, e);
    item, next := Quoted(text[p + 1..q]), q + 1;
    LiteralIsCrossed(text, p, q);
    StringKeepsLevel(text, p + 1, q + 1);
    EnclosedIs(text, p, q);
  }

  lemma InnerIsKept(text: seq<Byte>, p: nat, q: nat)
    requires p < q < |text| && LexAt(text, p + 1) == OUTSIDE && Structural(text, q, 0x7D)
    requires Level(text, p + 1) == Level(text, p) + 1 && Level(text, q + 1) == Level(text, p)
    requires forall i | p + 1 <= i <= q :: Level(text, i) > Level(text, p)
    ensures KeepsLevel(text, p + 1, q) && LexAt(text, q + 1) == OUTSIDE
  {
    OutsideIsClean(text, q);
    OutsideGoesOn(text, q);
  }

  /** Balanced by counting, and an object by the grammar: the same. */
  lemma BalancedIff(text: seq<Byte>)
    ensures Balanced(text) <==> IsObject(text)
  {
    if Balanced(text) { BalancedIsObject(text); }
    if items :| Grammatical(items) && text == [0x7B] + WrittenAll(items) + [0x7D] { ObjectIsBalanced(text, items); }
  }

  lemma BalancedIsObject(text: seq<Byte>)
    requires Balanced(text)
    ensures IsObject(text)
  {
    var last := |text| - 1;
    LevelNext(text, 0);
    LevelNext(text, last);
    assert last >= 1 && Level(text, last) > 0;
    OutsideGoesOn(text, 0);
    OutsideIsClean(text, last);
    assert KeepsLevel(text, 1, last);
    var items := KeptIsItems(text, 1, last);
    assert text == [text[0]] + text[1..last] + [text[last]];
  }

  lemma ObjectIsBalanced(text: seq<Byte>, items: seq<Item>)
    requires Grammatical(items) && text == [0x7B] + WrittenAll(items) + [0x7D]
    ensures Balanced(text)
  {
    var last := |text| - 1;
    assert text == text[0..|text|];
    Enclosed(text, 0, |text|, 0x7B, WrittenAll(items), 0x7D);
    OutsideGoesOn(text, 0);
    ItemsKeep(text, 1, last, items);
    LevelNext(text, 0);
    LevelNext(text, last);
  }

  /**
   The naive scan finds exactly the objects of a page: the slices that are objects by the grammar and
   begin outside strings, at a brace with a key or the object's end next.
   */
  lemma NaiveIffObject(doc: seq<Byte>, span: Span)
    ensures span in Naive(doc) <==>
              && span.start <= span.end < |doc| && IsOutside(doc, span.start) && KeyOrEnd(doc, span.start)
              && IsObject(doc[span.start..span.end + 1])
  {
    NaiveIffBalanced(doc, span);
    if span.start <= span.end < |doc| {
      CandidateIff(doc, span.start);
      BalancedIff(doc[span.start..span.end + 1]);
      assert IsObject(doc[span.start..span.end + 1]) ==> doc[span.start..span.end + 1][0] == 0x7B;
    }
  }

  lemma BoundedIsNaive(doc: seq<Byte>, span: Span)
    requires span in Bounded(doc)
    ensures span in Naive(doc)
  {
    NaiveFromIs(doc, 0);
    KeepIs(Naive(doc), Tracked(doc, |doc|));
  }

  lemma ObjectEnds(text: seq<Byte>)
    requires IsObject(text)
    ensures |text| >= 2 && text[0] == 0x7B && text[|text| - 1] == 0x7D
  {}

  /** Every text that is appended is an object by the grammar, from its brace to the one that closes it. */
  lemma AppendedIsObject(doc: seq<Byte>, spans: seq<Span>, k: nat)
    requires forall s | s in spans :: s in Bounded(doc) && s.start <= s.end < |doc|
    requires k < |spans|
    ensures spans[k] in Naive(doc) && doc[spans[k].start] == 0x7B && doc[spans[k].end] == 0x7D
    ensures Texts(doc, spans)[k] == doc[spans[k].start..spans[k].end + 1] && IsObject(Texts(doc, spans)[k])
  {
    var s := spans[k];
    assert s in spans;
    BoundedIsNaive(doc, s);
    NaiveIffObject(doc, s);
    ObjectEnds(doc[s.start..s.end + 1]);
  }

  /** A page gives up to eight objects, those the naive scan finds first, as long as at most 56 candidates are never closed. */
  lemma FirstEight(doc: seq<Byte>)
    requires |NeverClosed(doc)| <= 56
    ensures Take(Bounded(doc), Room(0)) == Take(Naive(doc), 8)
  {
    BoundUnseen(doc, 8);
  }
}
