/** The bound on the scanner's stack is tight: one more open brace than it allows for, and it shows. */
module ScannerBound {
  import opened Scanner

  function NestByte(opens: nat, i: nat): Byte {
    if i >= 3 * opens then CLOSE else if i % 3 == 0 then OPEN else QUOTE
  }

  /** `opens` openings of objects one inside the other, then `closes` closing braces. */
  ghost predicate IsNest(doc: seq<Byte>, opens: nat, closes: nat) {
    |doc| == 3 * opens + closes && forall i | 0 <= i < |doc| :: doc[i] == NestByte(opens, i)
  }

  lemma {:induction false} NestLex(doc: seq<Byte>, opens: nat, closes: nat, p: nat)
    requires IsNest(doc, opens, closes) && p <= |doc|
    ensures LexAt(doc, p) == Lex(p < 3 * opens && p % 3 == 2, false)
  {
    if p > 0 { NestLex(doc, opens, closes, p - 1); }
  }

  lemma NestCandidates(doc: seq<Byte>, opens: nat, closes: nat, i: nat)
    requires IsNest(doc, opens, closes) && i < |doc|
    ensures Candidate(doc, i) <==> i < 3 * opens && i % 3 == 0
  {
    NestLex(doc, opens, closes, i);
  }

  lemma {:induction false} NestTailCloses(doc: seq<Byte>, opens: nat, closes: nat, q: nat, level: nat)
    requires IsNest(doc, opens, closes) && 3 * opens <= q <= |doc| && 0 < level
    ensures Closing(doc, q, level) == if q + level <= |doc| then q + level - 1 else |doc|
    decreases |doc| - q
  {
    if q < |doc| {
      NestLex(doc, opens, closes, q);
      if level > 1 { NestTailCloses(doc, opens, closes, q + 1, level - 1); }
    }
  }

  /** A scan crosses the two quotes behind an opening brace. */
  lemma NestSkipsQuotes(doc: seq<Byte>, opens: nat, closes: nat, j: nat, level: nat)
    requires IsNest(doc, opens, closes) && j < opens && 0 < level
    ensures Closing(doc, 3 * j + 1, level) == Closing(doc, 3 * j + 3, level)
  {
    assert doc[3 * j + 1] == QUOTE && doc[3 * j + 2] == QUOTE;
    assert Closing(doc, 3 * j + 2, level) == Closing(doc, 3 * j + 3, level);
  }

  lemma {:induction false} NestCloses(doc: seq<Byte>, opens: nat, closes: nat, j: nat, level: nat)
    requires IsNest(doc, opens, closes) && j <= opens && 0 < level
    ensures Closing(doc, 3 * j, level) == if level + (opens - j) <= closes then 3 * opens + level + (opens - j) - 1 else |doc|
    decreases opens - j
  {
    if j == opens {
      NestTailCloses(doc, opens, closes, 3 * j, level);
    } else {
      NestLex(doc, opens, closes, 3 * j);
      assert doc[3 * j] == OPEN;
      NestSkipsQuotes(doc, opens, closes, j, level + 1);
      NestCloses(doc, opens, closes, j + 1, level + 1);
    }
  }

  /** The `j`th opening is closed exactly when enough closing braces follow. */
  lemma NestCloseOf(doc: seq<Byte>, opens: nat, closes: nat, j: nat)
    requires IsNest(doc, opens, closes) && j < opens
    ensures CloseOf(doc, 3 * j) == if opens - j <= closes then 3 * opens + (opens - j) - 1 else |doc|
  {
    NestSkipsQuotes(doc, opens, closes, j, 1);
    NestCloses(doc, opens, closes, j + 1, 1);
  }

  /** The first `count` multiples of three: where the openings stand. */
  ghost function Multiples(count: nat): set<nat> {
    if count == 0 then {} else Multiples(count - 1) + {3 * (count - 1)}
  }

  lemma {:induction false} MultiplesSize(count: nat)
    ensures |Multiples(count)| == count
  {
    if count > 0 {
      MultiplesSize(count - 1);
      MultiplesHas(count - 1, 3 * (count - 1));
    }
  }

  lemma {:induction false} MultiplesHas(count: nat, x: nat)
    ensures x in Multiples(count) <==> x % 3 == 0 && x < 3 * count
  {
    if count > 0 { MultiplesHas(count - 1, x); }
  }

  /** No brace is closed before the last is opened. */
  lemma NestNothingCloses(doc: seq<Byte>, opens: nat, closes: nat, p: nat)
    requires IsNest(doc, opens, closes) && p <= 3 * opens
    ensures StillOpen(doc, Tracked(doc, p), p) == Tracked(doc, p)
  {
    forall s | s in Tracked(doc, p) ensures CloseOf(doc, s) >= p {
      TrackedIsCandidate(doc, p, s);
      NestCandidates(doc, opens, closes, s);
      assert s == 3 * (s / 3);
      NestCloseOf(doc, opens, closes, s / 3);
    }
  }

  lemma TrackedTriple(doc: seq<Byte>, i: nat)
    requires i + 3 <= |doc| && Candidate(doc, i) && !Candidate(doc, i + 1) && !Candidate(doc, i + 2)
    requires StillOpen(doc, Tracked(doc, i), i) == Tracked(doc, i) && |Tracked(doc, i)| < TRACKED_OPENS
    ensures |Tracked(doc, i + 3)| == |Tracked(doc, i)| + 1
  {
    assert Tracked(doc, i + 1) == Tracked(doc, i) + {i};
    assert Tracked(doc, i + 2) == Tracked(doc, i + 1);
  }

  lemma NestTriple(doc: seq<Byte>, opens: nat, closes: nat, i: nat)
    requires IsNest(doc, opens, closes) && i % 3 == 0 && i < 3 * opens
    ensures i + 3 <= |doc| && Candidate(doc, i) && !Candidate(doc, i + 1) && !Candidate(doc, i + 2)
    ensures StillOpen(doc, Tracked(doc, i), i) == Tracked(doc, i)
  {
    NestCandidates(doc, opens, closes, i);
    NestCandidates(doc, opens, closes, i + 1);
    NestCandidates(doc, opens, closes, i + 2);
    NestNothingCloses(doc, opens, closes, i);
  }

  lemma NestTracksOne(doc: seq<Byte>, opens: nat, closes: nat, i: nat, e: nat)
    requires IsNest(doc, opens, closes) && i % 3 == 0 && i < 3 * opens && e == i + 3
    requires |Tracked(doc, i)| < TRACKED_OPENS
    ensures e <= |doc| && |Tracked(doc, e)| == |Tracked(doc, i)| + 1
  {
    NestTriple(doc, opens, closes, i);
    TrackedTriple(doc, i);
  }

  lemma TripleIsMultiple(k: nat)
    ensures 3 * k % 3 == 0
  {}

  lemma NestTracksNext(doc: seq<Byte>, opens: nat, closes: nat, j: nat, i: nat, e: nat)
    requires IsNest(doc, opens, closes) && i == 3 * j && j < opens && e == i + 3
    requires |Tracked(doc, i)| == j < TRACKED_OPENS
    ensures e <= |doc| && |Tracked(doc, e)| == j + 1
  {
    TripleIsMultiple(j);
    NestTracksOne(doc, opens, closes, i, e);
  }

  /** The first openings all find room, until the stack is full; the `j`-th ends before byte `p`. */
  lemma {:induction false} NestTracks(doc: seq<Byte>, opens: nat, closes: nat, j: nat, p: nat)
    requires IsNest(doc, opens, closes) && j <= opens && j <= TRACKED_OPENS && p == 3 * j
    ensures |Tracked(doc, p)| == j
  {
    if j == 0 {
      assert Tracked(doc, 0) == {};
    } else {
      NestTracks(doc, opens, closes, j - 1, p - 3);
      NestTracksNext(doc, opens, closes, j - 1, p - 3, p);
    }
  }

  lemma {:induction false} UntrackedStays(doc: seq<Byte>, s: nat, p: nat)
    requires s < p <= |doc| && s !in Tracked(doc, s + 1)
    ensures s !in Tracked(doc, p)
  {
    if s + 1 < p { UntrackedStays(doc, s, p - 1); }
  }

  lemma {:induction false} OrderedStartsSize(spans: seq<Span>)
    requires InOrder(spans)
    ensures |SpanStarts(spans)| == |spans|
  {
    if spans != [] {
      var rest := spans[..|spans| - 1];
      var last := spans[|spans| - 1].start;
      OrderedStartsSize(rest);
      SpanStartsHas(rest, last);
      assert last !in SpanStarts(rest);
    }
  }

  lemma NestStart(doc: seq<Byte>, opens: nat, closes: nat, x: nat)
    requires IsNest(doc, opens, closes) && closes <= opens && x < |doc| && Candidate(doc, x)
    ensures x % 3 == 0 && x < 3 * opens
    ensures CloseOf(doc, x) == |doc| <==> x < 3 * (opens - closes)
  {
    NestCandidates(doc, opens, closes, x);
    assert x == 3 * (x / 3);
    NestCloseOf(doc, opens, closes, x / 3);
  }

  lemma ClosedCount(opens: nat, closes: nat)
    requires closes <= opens
    ensures |Multiples(opens) - Multiples(opens - closes)| == closes
  {
    MultiplesSize(opens);
    MultiplesSize(opens - closes);
    forall x | x in Multiples(opens - closes) ensures x in Multiples(opens) {
      MultiplesHas(opens, x);
      MultiplesHas(opens - closes, x);
    }
    assert Multiples(opens) == (Multiples(opens) - Multiples(opens - closes)) + Multiples(opens - closes);
  }

  lemma NaiveStartCloses(doc: seq<Byte>, x: nat)
    requires x in SpanStarts(Naive(doc))
    ensures x < |doc| && Candidate(doc, x) && CloseOf(doc, x) < |doc|
  {
    var naive := Naive(doc);
    SpanStartsHas(naive, x);
    var i :| 0 <= i < |naive| && naive[i].start == x;
    NaiveFromHas(doc, 0, naive[i]);
  }

  lemma ClosedMultiple(opens: nat, closes: nat, x: nat)
    requires closes <= opens && x % 3 == 0 && 3 * (opens - closes) <= x < 3 * opens
    ensures x in Multiples(opens) - Multiples(opens - closes)
  {
    MultiplesHas(opens, x);
    MultiplesHas(opens - closes, x);
  }

  lemma NestNaiveStart(doc: seq<Byte>, opens: nat, closes: nat, x: nat)
    requires IsNest(doc, opens, closes) && closes <= opens && x in SpanStarts(Naive(doc))
    ensures x in Multiples(opens) - Multiples(opens - closes)
  {
    NaiveStartCloses(doc, x);
    NestStart(doc, opens, closes, x);
    ClosedMultiple(opens, closes, x);
  }

  /** No more than `closes` openings are closed. */
  lemma NestNaive(doc: seq<Byte>, opens: nat, closes: nat)
    requires IsNest(doc, opens, closes) && closes <= opens
    ensures |Naive(doc)| <= closes
  {
    var closed := Multiples(opens) - Multiples(opens - closes);
    forall x | x in SpanStarts(Naive(doc)) ensures x in closed {
      NestNaiveStart(doc, opens, closes, x);
    }
    NaiveFromOrder(doc, 0);
    OrderedStartsSize(Naive(doc));
    SubsetSize(SpanStarts(Naive(doc)), closed);
    ClosedCount(opens, closes);
  }

  lemma NestNeverClosed(doc: seq<Byte>, opens: nat, closes: nat)
    requires IsNest(doc, opens, closes) && closes <= opens
    ensures NeverClosed(doc) == Multiples(opens - closes)
  {
    forall x: nat ensures x in NeverClosed(doc) <==> x in Multiples(opens - closes) {
      MultiplesHas(opens - closes, x);
      if x < |doc| {
        NestCandidates(doc, opens, closes, x);
        if Candidate(doc, x) { NestStart(doc, opens, closes, x); }
      }
    }
  }

  lemma InnermostUntracked(doc: seq<Byte>, closes: nat)
    requires IsNest(doc, TRACKED_OPENS + 1, closes)
    ensures 3 * TRACKED_OPENS !in Tracked(doc, |doc|)
  {
    var inner := 3 * TRACKED_OPENS;
    NestTracks(doc, TRACKED_OPENS + 1, closes, TRACKED_OPENS, 3 * TRACKED_OPENS);
    NestNothingCloses(doc, TRACKED_OPENS + 1, closes, inner);
    assert Tracked(doc, inner + 1) == Tracked(doc, inner);
    UntrackedStays(doc, inner, |doc|);
  }

  /** The innermost opening, when it is one too many, is turned away. */
  lemma InnermostMissed(doc: seq<Byte>, closes: nat)
    requires IsNest(doc, TRACKED_OPENS + 1, closes) && 0 < closes <= TRACKED_OPENS
    ensures exists s :: s in Naive(doc) && s !in Bounded(doc)
  {
    var inner := 3 * TRACKED_OPENS;
    NaiveFromIs(doc, 0);
    NestCandidates(doc, TRACKED_OPENS + 1, closes, inner);
    NestCloseOf(doc, TRACKED_OPENS + 1, closes, TRACKED_OPENS);
    InnermostUntracked(doc, closes);
    KeepIs(Naive(doc), Tracked(doc, |doc|));
    assert Span(inner, CloseOf(doc, inner)) in Naive(doc);
  }

  lemma FrontDiffers(naive: seq<Span>, bounded: seq<Span>, k: nat)
    requires |naive| <= k && exists s :: s in naive && s !in bounded
    ensures Take(bounded, k) != Take(naive, k)
  {
    var s :| s in naive && s !in bounded;
    assert forall t | t in Take(bounded, k) :: t in bounded;
  }

  /**
   One more open brace than `BoundUnseen` allows for: a document with `TRACKED_OPENS - k + 1` braces
   never closed, whose first `k` objects the bounded scan does not all find.
   */
  lemma BoundTight(k: nat)
    requires 0 < k <= TRACKED_OPENS
    ensures exists doc :: |NeverClosed(doc)| == TRACKED_OPENS - k + 1 && Take(Bounded(doc), k) != Take(Naive(doc), k)
  {
    var opens := TRACKED_OPENS + 1;
    var doc := seq(3 * opens + k, i requires 0 <= i => NestByte(opens, i));
    assert IsNest(doc, opens, k);
    NestSeesBound(doc, k);
  }

  lemma NestSeesBound(doc: seq<Byte>, k: nat)
    requires 0 < k <= TRACKED_OPENS && IsNest(doc, TRACKED_OPENS + 1, k)
    ensures |NeverClosed(doc)| == TRACKED_OPENS - k + 1 && Take(Bounded(doc), k) != Take(Naive(doc), k)
  {
    NestNeverClosed(doc, TRACKED_OPENS + 1, k);
    MultiplesSize(TRACKED_OPENS + 1 - k);
    NestNaive(doc, TRACKED_OPENS + 1, k);
    InnermostMissed(doc, k);
    FrontDiffers(Naive(doc), Bounded(doc), k);
  }
}
