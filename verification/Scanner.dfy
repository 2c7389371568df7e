/**
 The scan that recovers JSON objects from a rendered page in one pass: a depth counter, a string
 state and a bounded stack of openings. It is proved against the scan it stands in for, which starts
 over from every opening brace and keeps no bound.
 */
module Scanner {
  import Ordering

  type Byte = b: int | 0 <= b < 256

  const QUOTE: Byte := 0x22
  const BACKSLASH: Byte := 0x5C
  const OPEN: Byte := 0x7B
  const CLOSE: Byte := 0x7D

  const MAX_CANDIDATES: nat := 8
  const TRACKED_OPENS: nat := MAX_CANDIDATES * 8

  /** A balanced object: the offsets of its opening brace and of its closing one. */
  datatype Span = Span(start: nat, end: nat)

  // ---------------------------------------------------------------------------------------
  // The naive scan
  // ---------------------------------------------------------------------------------------

  datatype Lex = Lex(inString: bool, escaped: bool)

  const OUTSIDE := Lex(false, false)

  function Next(s: Lex, b: Byte): Lex {
    if !s.inString then Lex(b == QUOTE, s.escaped)
    else if s.escaped then Lex(true, false)
    else if b == BACKSLASH then Lex(true, true)
    else Lex(b != QUOTE, false)
  }

  /** The string state in front of offset `p`. */
  function LexAt(doc: seq<Byte>, p: nat): Lex
    requires p <= |doc|
  {
    if p == 0 then OUTSIDE else Next(LexAt(doc, p - 1), doc[p - 1])
  }

  /** Whether `b` stands at offset `i`, outside every string. */
  predicate Structural(doc: seq<Byte>, i: nat, b: Byte)
    requires i < |doc|
  {
    doc[i] == b && !LexAt(doc, i).inString
  }

  predicate IsAsciiWhitespace(b: Byte) { b == 0x20 || b == 0x09 || b == 0x0A || b == 0x0C || b == 0x0D }

  /** Whether the first byte from `q` on that is not white space starts a key or closes an empty object. */
  predicate StartsBody(doc: seq<Byte>, q: nat)
    requires q <= |doc|
    decreases |doc| - q
  {
    q < |doc| &&
    if IsAsciiWhitespace(doc[q]) then StartsBody(doc, q + 1) else doc[q] == QUOTE || doc[q] == CLOSE
  }

  predicate OpensObject(doc: seq<Byte>, i: nat)
    requires i < |doc|
  {
    StartsBody(doc, i + 1)
  }

  predicate Candidate(doc: seq<Byte>, i: nat)
    requires i < |doc|
  {
    Structural(doc, i, OPEN) && OpensObject(doc, i)
  }

  /** Where `level` open braces are all closed again, scanning from `q`; `|doc|` when they never are. */
  function Closing(doc: seq<Byte>, q: nat, level: nat): (r: nat)
    requires q <= |doc| && 0 < level
    ensures q <= r <= |doc|
    ensures r < |doc| ==> Structural(doc, r, CLOSE)
    decreases |doc| - q
  {
    if q == |doc| then |doc|
    else if Structural(doc, q, OPEN) then Closing(doc, q + 1, level + 1)
    else if Structural(doc, q, CLOSE) then
      if level == 1 then q else Closing(doc, q + 1, level - 1)
    else Closing(doc, q + 1, level)
  }

  function CloseOf(doc: seq<Byte>, i: nat): (r: nat)
    requires i < |doc|
    ensures i < r <= |doc|
  {
    Closing(doc, i + 1, 1)
  }

  /** The naive scan from offset `i` on: every candidate that is ever closed, in document order. */
  function NaiveFrom(doc: seq<Byte>, i: nat): seq<Span>
    requires i <= |doc|
    decreases |doc| - i
  {
    if i == |doc| then [] else SpanAt(doc, i) + NaiveFrom(doc, i + 1)
  }

  /** The object that opens at `i`, if one does and is ever closed. */
  function SpanAt(doc: seq<Byte>, i: nat): seq<Span>
    requires i < |doc|
  {
    if Candidate(doc, i) && CloseOf(doc, i) < |doc| then [Span(i, CloseOf(doc, i))] else []
  }

  function Naive(doc: seq<Byte>): seq<Span> { NaiveFrom(doc, 0) }

  /** The candidates that are never closed. */
  ghost function NeverClosed(doc: seq<Byte>): set<nat> {
    set i | 0 <= i < |doc| && Candidate(doc, i) && CloseOf(doc, i) == |doc|
  }

  predicate StartsBefore(a: Span, b: Span) { a.start < b.start }

  predicate InOrder(spans: seq<Span>) { Ordering.InOrder(StartsBefore, spans) }

  ghost predicate IsNaiveSpan(doc: seq<Byte>, s: Span) {
    s.start < |doc| && Candidate(doc, s.start) && s.end == CloseOf(doc, s.start) < |doc|
  }

  lemma SpanAtIs(doc: seq<Byte>, i: nat, s: Span)
    requires i < |doc|
    ensures s in SpanAt(doc, i) <==> s.start == i && IsNaiveSpan(doc, s)
  {}

  lemma {:induction false} NaiveFromHas(doc: seq<Byte>, i: nat, s: Span)
    requires i <= |doc|
    ensures s in NaiveFrom(doc, i) <==> i <= s.start && IsNaiveSpan(doc, s)
    decreases |doc| - i
  {
    if i < |doc| {
      var later := NaiveFrom(doc, i + 1);
      NaiveFromHas(doc, i + 1, s);
      SpanAtIs(doc, i, s);
      assert NaiveFrom(doc, i) == SpanAt(doc, i) + later;
      assert s in NaiveFrom(doc, i) <==> s in SpanAt(doc, i) || s in later;
    }
  }

  lemma {:induction false} NaiveFromOrder(doc: seq<Byte>, i: nat)
    requires i <= |doc|
    ensures InOrder(NaiveFrom(doc, i))
    decreases |doc| - i
  {
    if i < |doc| {
      NaiveFromOrder(doc, i + 1);
      var rest := NaiveFrom(doc, i + 1);
      forall k | 0 <= k < |rest| ensures i < rest[k].start {
        NaiveFromHas(doc, i + 1, rest[k]);
      }
    }
  }

  lemma NaiveFromIs(doc: seq<Byte>, i: nat)
    requires i <= |doc|
    ensures InOrder(NaiveFrom(doc, i))
    ensures forall s :: s in NaiveFrom(doc, i) <==> i <= s.start && IsNaiveSpan(doc, s)
  {
    NaiveFromOrder(doc, i);
    forall s ensures s in NaiveFrom(doc, i) <==> i <= s.start && IsNaiveSpan(doc, s) {
      NaiveFromHas(doc, i, s);
    }
  }

  // ---------------------------------------------------------------------------------------
  // What the naive scan's spans are
  // ---------------------------------------------------------------------------------------

  /** Opening braces less closing braces among the first `p` bytes, strings left out. */
  function Level(text: seq<Byte>, p: nat): int
    requires p <= |text|
  {
    if p == 0 then 0
    else Level(text, p - 1)
         + (if Structural(text, p - 1, OPEN) then 1 else if Structural(text, p - 1, CLOSE) then -1 else 0)
  }

  /** One object: it opens at its first byte, stays open throughout, and closes at its last. */
  ghost predicate Balanced(text: seq<Byte>) {
    && |text| > 0 && text[0] == OPEN
    && Level(text, |text|) == 0
    && StaysOpen(text, 1)
  }

  ghost predicate StaysOpen(text: seq<Byte>, from: nat) {
    forall p | from <= p < |text| :: Level(text, p) > 0
  }

  lemma {:induction false} OutsideIsClean(doc: seq<Byte>, p: nat)
    requires p <= |doc|
    ensures !LexAt(doc, p).inString ==> LexAt(doc, p) == OUTSIDE
  {
    if p > 0 { OutsideIsClean(doc, p - 1); }
  }

  /** Scanned on its own, a slice that starts outside strings is in the string state it had in place. */
  lemma {:induction false} LexOfSlice(doc: seq<Byte>, s: nat, e: nat, p: nat)
    requires s + p <= e <= |doc| && !LexAt(doc, s).inString
    ensures LexAt(doc[s..e], p) == LexAt(doc, s + p)
  {
    if p == 0 {
      OutsideIsClean(doc, s);
    } else {
      LexOfSlice(doc, s, e, p - 1);
    }
  }

  /** The close lies at `e` exactly when the level first reaches zero behind it. */
  lemma {:induction false} ClosingIsFirstZero(doc: seq<Byte>, s: nat, e: nat, q: nat)
    requires s < q <= e < |doc| && !LexAt(doc, s).inString
    requires 0 < Level(doc[s..e + 1], q - s)
    ensures Closing(doc, q, Level(doc[s..e + 1], q - s)) == e <==>
              Level(doc[s..e + 1], e + 1 - s) == 0 && StaysOpen(doc[s..e + 1], q - s)
    decreases e - q
  {
    var text := doc[s..e + 1];
    LexOfSlice(doc, s, e + 1, q - s);
    assert text[q - s] == doc[q];
    var next := Level(text, q + 1 - s);
    assert Closing(doc, q, Level(text, q - s)) == if next == 0 then q else Closing(doc, q + 1, next);
    if q < e {
      if 0 < next {
        ClosingIsFirstZero(doc, s, e, q + 1);
        assert StaysOpen(text, q - s) <==> StaysOpen(text, q + 1 - s);
      } else {
        assert !StaysOpen(text, q - s);
      }
    }
  }

  /** The naive spans are exactly the balanced slices that start at a candidate. */
  lemma NaiveIffBalanced(doc: seq<Byte>, span: Span)
    ensures span in Naive(doc) <==>
              span.start <= span.end < |doc| && Candidate(doc, span.start) && Balanced(doc[span.start..span.end + 1])
  {
    NaiveFromIs(doc, 0);
    if span.start <= span.end < |doc| && Candidate(doc, span.start) {
      var text := doc[span.start..span.end + 1];
      LexOfSlice(doc, span.start, span.end + 1, 0);
      assert text[0] == OPEN && Level(text, 1) == 1;
      if span.start < span.end {
        ClosingIsFirstZero(doc, span.start, span.end, span.start + 1);
      }
    }
  }

  lemma {:induction false} DeeperClosesLater(doc: seq<Byte>, q: nat, level: nat, deeper: nat)
    requires q <= |doc| && 0 < level < deeper && Closing(doc, q, deeper) < |doc|
    ensures Closing(doc, q, level) < Closing(doc, q, deeper)
    decreases |doc| - q
  {
    if Structural(doc, q, OPEN) {
      DeeperClosesLater(doc, q + 1, level + 1, deeper + 1);
    } else if Structural(doc, q, CLOSE) {
      if level > 1 { DeeperClosesLater(doc, q + 1, level - 1, deeper - 1); }
    } else {
      DeeperClosesLater(doc, q + 1, level, deeper);
    }
  }

  /** Until a brace is closed, the rest of its scan is a scan at some level. */
  lemma {:induction false} ClosingResumes(doc: seq<Byte>, q: nat, level: nat, c: nat) returns (inner: nat)
    requires 0 < level && q <= c <= |doc| && c <= Closing(doc, q, level)
    ensures 0 < inner && Closing(doc, c, inner) == Closing(doc, q, level)
    decreases c - q
  {
    if q == c {
      inner := level;
    } else if Structural(doc, q, OPEN) {
      inner := ClosingResumes(doc, q + 1, level + 1, c);
    } else if Structural(doc, q, CLOSE) {
      inner := ClosingResumes(doc, q + 1, level - 1, c);
    } else {
      inner := ClosingResumes(doc, q + 1, level, c);
    }
  }

  /** Two naive spans are disjoint, or the later one lies inside the earlier. */
  lemma NestedOrDisjoint(doc: seq<Byte>, a: Span, b: Span)
    requires a in Naive(doc) && b in Naive(doc) && a.start < b.start
    ensures a.end < b.start || b.end < a.end
  {
    NaiveFromIs(doc, 0);
    if b.start <= a.end {
      var level := ClosingResumes(doc, a.start + 1, 1, b.start);
      assert Closing(doc, b.start, level) == Closing(doc, b.start + 1, level + 1);
      DeeperClosesLater(doc, b.start + 1, 1, level + 1);
    }
  }

  // ---------------------------------------------------------------------------------------
  // The bounded stack
  // ---------------------------------------------------------------------------------------

  /** Those of the openings `t` not closed before `p`. */
  ghost function StillOpen(doc: seq<Byte>, t: set<nat>, p: nat): set<nat>
    requires forall s | s in t :: s < |doc|
  {
    set s | s in t && CloseOf(doc, s) >= p
  }

  /** The candidates before `p` that found room on the stack. */
  ghost function Tracked(doc: seq<Byte>, p: nat): (t: set<nat>)
    requires p <= |doc|
    ensures forall s | s in t :: s < p
  {
    if p == 0 then {}
    else
      var t := Tracked(doc, p - 1);
      if Candidate(doc, p - 1) && |StillOpen(doc, t, p - 1)| < TRACKED_OPENS then t + {p - 1} else t
  }

  lemma {:induction false} TrackedIsCandidate(doc: seq<Byte>, p: nat, s: nat)
    requires p <= |doc| && s in Tracked(doc, p)
    ensures Candidate(doc, s)
  {
    if s in Tracked(doc, p - 1) { TrackedIsCandidate(doc, p - 1, s); }
  }

  ghost function Keep(spans: seq<Span>, starts: set<nat>): seq<Span> {
    if spans == [] then []
    else (if spans[0].start in starts then [spans[0]] else []) + Keep(spans[1..], starts)
  }

  /** What the bounded scan finds: the naive spans whose opening was tracked. */
  ghost function Bounded(doc: seq<Byte>): seq<Span> {
    Keep(Naive(doc), Tracked(doc, |doc|))
  }

  lemma {:induction false} KeepIs(spans: seq<Span>, starts: set<nat>)
    requires InOrder(spans)
    ensures InOrder(Keep(spans, starts))
    ensures forall s :: s in Keep(spans, starts) <==> s in spans && s.start in starts
  {
    if spans != [] {
      var rest := spans[1..];
      assert spans == [spans[0]] + rest;
      KeepIs(rest, starts);
      var kept := Keep(rest, starts);
      assert forall k | 0 <= k < |kept| :: kept[k] in kept && kept[k] in rest;
      assert forall s | s in rest :: spans[0].start < s.start;
    }
  }

  function Take<T>(s: seq<T>, n: nat): seq<T> { if n <= |s| then s[..n] else s }

  lemma TakeCons<T>(x: T, rest: seq<T>, k: nat)
    requires 0 < k
    ensures Take([x] + rest, k) == [x] + Take(rest, k - 1)
  {
  }

  /** Dropping elements at or behind position `k` leaves the first `k` alone. */
  lemma {:induction false} KeepLeavesFront(spans: seq<Span>, starts: set<nat>, k: nat)
    requires forall j | 0 <= j < |spans| && j < k :: spans[j].start in starts
    ensures Take(Keep(spans, starts), k) == Take(spans, k)
  {
    if spans != [] && k > 0 {
      var rest := spans[1..];
      forall j | 0 <= j < |rest| && j < k - 1 ensures rest[j].start in starts {
        assert rest[j] == spans[j + 1];
      }
      KeepLeavesFront(rest, starts, k - 1);
      assert spans == [spans[0]] + rest && Keep(spans, starts) == [spans[0]] + Keep(rest, starts);
      TakeCons(spans[0], rest, k);
      TakeCons(spans[0], Keep(rest, starts), k);
    }
  }

  ghost function CandidatesBefore(doc: seq<Byte>, p: nat): set<nat>
    requires p <= |doc|
  {
    set s | 0 <= s < p && Candidate(doc, s)
  }

  lemma {:induction false} SubsetSize<T>(a: set<T>, b: set<T>)
    requires a <= b
    ensures |a| <= |b|
  {
    if a != {} {
      var x :| x in a;
      SubsetSize(a - {x}, b - {x});
    }
  }

  // ---------------------------------------------------------------------------------------
  // Which openings are tracked
  // ---------------------------------------------------------------------------------------

  /** The candidates in front of `p` that are still open there. */
  ghost function Enclosing(doc: seq<Byte>, p: nat): set<nat>
    requires p <= |doc|
  {
    set c | 0 <= c < p && Candidate(doc, c) && CloseOf(doc, c) >= p
  }

  /** What encloses an enclosing candidate is what encloses the place and comes in front of it. */
  lemma EnclosingAbove(doc: seq<Byte>, c: nat, p: nat)
    requires p <= |doc| && c in Enclosing(doc, p)
    ensures Enclosing(doc, c) == set d | d in Enclosing(doc, p) && d < c
  {
    forall d | d in Enclosing(doc, c) ensures CloseOf(doc, d) >= p {
      var level := ClosingResumes(doc, d + 1, 1, c);
      assert Closing(doc, c, level) == Closing(doc, c + 1, level + 1);
      if CloseOf(doc, d) < |doc| {
        DeeperClosesLater(doc, c + 1, 1, level + 1);
      }
    }
  }

  ghost function Below(s: set<nat>, c: nat): set<nat> { set d | d in s && d < c }

  /** At least `n` members of a set that large have fewer than `n` members below them. */
  lemma {:induction false} LowestMembers(s: set<nat>, n: nat) returns (low: set<nat>)
    requires n <= |s|
    ensures low <= s && |low| >= n && forall c | c in low :: |Below(s, c)| < n
    decreases |s|
  {
    if |s| == n {
      low := s;
      forall c | c in low ensures |Below(s, c)| < n {
        SubsetSize(Below(s, c), s - {c});
      }
    } else {
      var top := Highest(s);
      low := LowestMembers(s - {top}, n);
      forall c | c in low ensures |Below(s, c)| < n {
        assert Below(s, c) == Below(s - {top}, c);
      }
    }
  }

  lemma {:induction false} Highest(s: set<nat>) returns (top: nat)
    requires s != {}
    ensures top in s && forall c | c in s :: c <= top
    decreases |s|
  {
    top :| top in s;
    if s != {top} {
      var other := Highest(s - {top});
      assert forall c | c in s :: c == top || c in s - {top};
      if other > top { top := other; }
    }
  }

  /** Whether a candidate is tracked is decided when the pass meets it. */
  lemma {:induction false} TrackedWhenMet(doc: seq<Byte>, s: nat, p: nat)
    requires s < p <= |doc| && Candidate(doc, s)
    ensures forall t | t in Tracked(doc, s) :: t < |doc|
    ensures s in Tracked(doc, p) <==> |StillOpen(doc, Tracked(doc, s), s)| < TRACKED_OPENS
    decreases p
  {
    if s < p - 1 { TrackedWhenMet(doc, s, p - 1); }
  }

  /** An opening is tracked exactly when fewer candidates enclose it than the stack has room for. */
  lemma {:induction false} TrackedIff(doc: seq<Byte>, s: nat)
    requires s < |doc| && Candidate(doc, s)
    ensures s in Tracked(doc, |doc|) <==> |Enclosing(doc, s)| < 64
    decreases s
  {
    TrackedWhenMet(doc, s, |doc|);
    var open := StillOpen(doc, Tracked(doc, s), s);
    forall t | t in Tracked(doc, s) { TrackedIsCandidate(doc, s, t); }
    SubsetSize(open, Enclosing(doc, s));
    if |Enclosing(doc, s)| >= TRACKED_OPENS {
      var low := LowestMembers(Enclosing(doc, s), TRACKED_OPENS);
      forall c | c in low ensures c in open {
        EnclosingAbove(doc, c, s);
        assert Below(Enclosing(doc, s), c) == Enclosing(doc, c);
        TrackedIff(doc, c);
        TrackedWhenMet(doc, c, |doc|);
        TrackedWhenMet(doc, c, s);
      }
      SubsetSize(low, open);
    }
  }

  /** Each of the first `k` naive spans opens inside fewer candidates than the stack holds. */
  ghost predicate FrontFits(doc: seq<Byte>, k: nat) {
    forall j | 0 <= j < |Naive(doc)| && j < k ::
      Naive(doc)[j].start <= |doc| && |Enclosing(doc, Naive(doc)[j].start)| < TRACKED_OPENS
  }

  /**
   Exactly when the bound cannot be seen: the first `k` spans of the bounded scan are the first `k` of
   the naive one if and only if each of those opens inside fewer candidates than the stack holds.
   */
  lemma BoundUnseenIff(doc: seq<Byte>, k: nat)
    ensures Take(Bounded(doc), k) == Take(Naive(doc), k) <==> FrontFits(doc, k)
  {
    NaiveFromIs(doc, 0);
    var naive, tracked := Naive(doc), Tracked(doc, |doc|);
    forall j | 0 <= j < |naive|
      ensures naive[j].start < |doc|
      ensures naive[j].start in tracked <==> |Enclosing(doc, naive[j].start)| < TRACKED_OPENS
    {
      assert naive[j] in naive;
      TrackedIff(doc, naive[j].start);
    }
    if Take(Bounded(doc), k) == Take(naive, k) {
      KeepIs(naive, tracked);
      forall j | 0 <= j < |naive| && j < k ensures naive[j].start in tracked {
        assert Take(naive, k)[j] == naive[j];
        assert Take(Bounded(doc), k)[j] in Bounded(doc);
      }
    }
    if FrontFits(doc, k) {
      KeepLeavesFront(naive, tracked, k);
    }
  }

  // ---------------------------------------------------------------------------------------
  // A bound on the braces that are never closed is enough
  // ---------------------------------------------------------------------------------------

  /** The starts of `spans`, as a set. */
  ghost function SpanStarts(spans: seq<Span>): (r: set<nat>)
    ensures |r| <= |spans|
  {
    if spans == [] then {} else SpanStarts(spans[..|spans| - 1]) + {spans[|spans| - 1].start}
  }

  lemma {:induction false} SpanStartsHas(spans: seq<Span>, x: nat)
    ensures x in SpanStarts(spans) <==> exists k :: 0 <= k < |spans| && spans[k].start == x
  {
    if spans != [] {
      var rest := spans[..|spans| - 1];
      SpanStartsHas(rest, x);
      if k :| 0 <= k < |spans| && spans[k].start == x {
        assert k < |rest| ==> rest[k].start == x;
      }
      if k :| 0 <= k < |rest| && rest[k].start == x { assert spans[k].start == x; }
    }
  }

  /** Before the opening of the `j`th naive span lie `j` closed candidates and some never closed. */
  lemma CandidatesCount(doc: seq<Byte>, j: nat)
    requires j < |Naive(doc)|
    ensures Naive(doc)[j].start < |doc|
    ensures |CandidatesBefore(doc, Naive(doc)[j].start)| <= j + |NeverClosed(doc)|
  {
    NaiveFromIs(doc, 0);
    var naive := Naive(doc);
    assert naive[j] in naive;
    var s := naive[j].start;
    var front := naive[..j];
    var closed := SpanStarts(front);
    forall c | c in CandidatesBefore(doc, s) ensures c in closed + NeverClosed(doc) {
      if CloseOf(doc, c) < |doc| {
        assert Span(c, CloseOf(doc, c)) in naive;
        var i :| 0 <= i < |naive| && naive[i] == Span(c, CloseOf(doc, c));
        assert i < j && front[i].start == c;
        SpanStartsHas(front, c);
      }
    }
    SubsetSize(CandidatesBefore(doc, s), closed + NeverClosed(doc));
    assert |closed + NeverClosed(doc)| <= |closed| + |NeverClosed(doc)|;
  }

  lemma FewOpenFit(doc: seq<Byte>, k: nat)
    requires k <= TRACKED_OPENS && |NeverClosed(doc)| <= TRACKED_OPENS - k
    ensures FrontFits(doc, k)
  {
    forall j | 0 <= j < |Naive(doc)| && j < k
      ensures Naive(doc)[j].start <= |doc| && |Enclosing(doc, Naive(doc)[j].start)| < TRACKED_OPENS
    {
      CandidatesCount(doc, j);
      SubsetSize(Enclosing(doc, Naive(doc)[j].start), CandidatesBefore(doc, Naive(doc)[j].start));
    }
  }

  /**
   While at most `TRACKED_OPENS - k` candidates are never closed, the first `k` spans of the bounded scan
   are the first `k` of the naive one.
   */
  lemma BoundUnseen(doc: seq<Byte>, k: nat)
    requires k <= TRACKED_OPENS && |NeverClosed(doc)| <= TRACKED_OPENS - k
    ensures Take(Bounded(doc), k) == Take(Naive(doc), k)
  {
    FewOpenFit(doc, k);
    BoundUnseenIff(doc, k);
  }

  // ---------------------------------------------------------------------------------------
  // The scan
  // ---------------------------------------------------------------------------------------

  /** An opening that waits for its closing brace. */
  datatype Opening = Opening(depth: nat, start: nat)

  ghost function Starts(pending: seq<Opening>): set<nat> {
    if pending == [] then {} else Starts(pending[..|pending| - 1]) + {pending[|pending| - 1].start}
  }

  lemma {:induction false} StartsHas(pending: seq<Opening>, x: nat)
    ensures x in Starts(pending) <==> exists k :: 0 <= k < |pending| && pending[k].start == x
  {
    if pending != [] {
      var rest := pending[..|pending| - 1];
      StartsHas(rest, x);
      if k :| 0 <= k < |pending| && pending[k].start == x {
        assert k < |rest| ==> rest[k].start == x;
      }
      if k :| 0 <= k < |rest| && rest[k].start == x { assert pending[k].start == x; }
    }
  }

  ghost predicate Waiting(doc: seq<Byte>, i: nat, depth: nat, o: Opening)
    requires i <= |doc|
  {
    && o.start < i && Candidate(doc, o.start)
    && 1 <= o.depth <= depth
    && CloseOf(doc, o.start) == Closing(doc, i, depth - o.depth + 1)
  }

  ghost predicate AllWaiting(doc: seq<Byte>, i: nat, depth: nat, pending: seq<Opening>)
    requires i <= |doc|
  {
    forall k | 0 <= k < |pending| :: Waiting(doc, i, depth, pending[k])
  }

  /** The stack grows inwards: later openings lie deeper and further on. */
  ghost predicate Ascending(pending: seq<Opening>) {
    forall j, k | 0 <= j < k < |pending| :: pending[j].depth < pending[k].depth && pending[j].start < pending[k].start
  }

  ghost predicate PendingInv(doc: seq<Byte>, i: nat, depth: nat, pending: seq<Opening>)
    requires i <= |doc|
  {
    && AllWaiting(doc, i, depth, pending)
    && Ascending(pending)
    && Starts(pending) == StillOpen(doc, Tracked(doc, i), i)
  }

  /** The spans found so far: one for each tracked opening closed before `i`. */
  ghost predicate SpansInv(doc: seq<Byte>, i: nat, spans: seq<Span>)
    requires i <= |doc|
  {
    && (forall s :: s in spans <==> s.start in Tracked(doc, i) && s.end == CloseOf(doc, s.start) < i)
    && Distinct(spans)
  }

  ghost predicate Distinct(spans: seq<Span>) {
    forall j, k | 0 <= j < k < |spans| :: spans[j].start != spans[k].start
  }

  lemma {:induction false} StartsCount(pending: seq<Opening>)
    requires Ascending(pending)
    ensures |Starts(pending)| == |pending|
  {
    if pending != [] {
      var rest := pending[..|pending| - 1];
      var last := pending[|pending| - 1].start;
      StartsCount(rest);
      StartsHas(rest, last);
      assert last !in Starts(rest);
    }
  }

  /** A byte that opens and closes nothing leaves the stack as it was. */
  lemma PassStep(doc: seq<Byte>, i: nat, depth: nat, pending: seq<Opening>)
    requires i < |doc| && PendingInv(doc, i, depth, pending)
    requires !Structural(doc, i, OPEN) && !Structural(doc, i, CLOSE)
    ensures PendingInv(doc, i + 1, depth, pending)
    ensures Tracked(doc, i + 1) == Tracked(doc, i) && forall s | s in Tracked(doc, i) :: CloseOf(doc, s) != i
  {
    assert forall k | 0 <= k < |pending| :: Waiting(doc, i, depth, pending[k]) && Waiting(doc, i + 1, depth, pending[k]);
    assert StillOpen(doc, Tracked(doc, i), i + 1) == StillOpen(doc, Tracked(doc, i), i);
  }

  lemma WaitingOpens(doc: seq<Byte>, i: nat, depth: nat, pending: seq<Opening>)
    requires i < |doc| && AllWaiting(doc, i, depth, pending) && Structural(doc, i, OPEN)
    ensures AllWaiting(doc, i + 1, depth + 1, pending)
  {
    forall k | 0 <= k < |pending| ensures Waiting(doc, i + 1, depth + 1, pending[k]) {
      assert Waiting(doc, i, depth, pending[k]);
    }
  }

  function Pushed(doc: seq<Byte>, i: nat, depth: nat, pending: seq<Opening>): seq<Opening>
    requires i < |doc|
  {
    if |pending| < TRACKED_OPENS && OpensObject(doc, i) then pending + [Opening(depth + 1, i)] else pending
  }

  /** No object closes where another opens. */
  lemma OpeningClosesNone(doc: seq<Byte>, i: nat, t: set<nat>)
    requires i < |doc| && Structural(doc, i, OPEN) && forall s | s in t :: s < i
    ensures forall s | s in t + {i} :: CloseOf(doc, s) != i
    ensures StillOpen(doc, t, i + 1) == StillOpen(doc, t, i)
    ensures StillOpen(doc, t + {i}, i + 1) == StillOpen(doc, t, i) + {i}
  {
    forall s | s in t + {i} ensures CloseOf(doc, s) != i {}
    assert CloseOf(doc, i) > i;
  }

  lemma TrackedOpens(doc: seq<Byte>, i: nat)
    requires i < |doc| && Structural(doc, i, OPEN)
    ensures var t := Tracked(doc, i);
            var tracked := |StillOpen(doc, t, i)| < TRACKED_OPENS && OpensObject(doc, i);
            && Tracked(doc, i + 1) == (if tracked then t + {i} else t)
            && StillOpen(doc, Tracked(doc, i + 1), i + 1) == StillOpen(doc, t, i) + (if tracked then {i} else {})
    ensures forall s | s in Tracked(doc, i + 1) :: CloseOf(doc, s) != i && (s == i || s in Tracked(doc, i))
    ensures Tracked(doc, i) <= Tracked(doc, i + 1)
  {
    OpeningClosesNone(doc, i, Tracked(doc, i));
  }

  /** An opening brace joins the stack when it is a candidate and there is room. */
  lemma OpenStep(doc: seq<Byte>, i: nat, depth: nat, pending: seq<Opening>)
    requires i < |doc| && PendingInv(doc, i, depth, pending) && Structural(doc, i, OPEN)
    ensures PendingInv(doc, i + 1, depth + 1, Pushed(doc, i, depth, pending))
    ensures forall s | s in Tracked(doc, i + 1) :: CloseOf(doc, s) != i && (s == i || s in Tracked(doc, i))
    ensures Tracked(doc, i) <= Tracked(doc, i + 1)
  {
    StartsCount(pending);
    WaitingOpens(doc, i, depth, pending);
    TrackedOpens(doc, i);
    if |pending| < TRACKED_OPENS && OpensObject(doc, i) {
      StackPushed(doc, i, depth, pending);
    }
  }

  lemma StackPushed(doc: seq<Byte>, i: nat, depth: nat, pending: seq<Opening>)
    requires i < |doc| && Candidate(doc, i) && Ascending(pending)
    requires AllWaiting(doc, i, depth, pending) && AllWaiting(doc, i + 1, depth + 1, pending)
    ensures var grown := pending + [Opening(depth + 1, i)];
            AllWaiting(doc, i + 1, depth + 1, grown) && Ascending(grown) && Starts(grown) == Starts(pending) + {i}
  {
    assert (pending + [Opening(depth + 1, i)])[..|pending|] == pending;
    assert Waiting(doc, i + 1, depth + 1, Opening(depth + 1, i));
    assert forall k | 0 <= k < |pending| :: Waiting(doc, i, depth, pending[k]);
  }

  /** Whether the brace closed at depth `depth` is the one on top of the stack. */
  predicate OnTop(pending: seq<Opening>, depth: nat) {
    pending != [] && pending[|pending| - 1].depth == depth
  }

  function Popped(pending: seq<Opening>, depth: nat): seq<Opening> {
    if OnTop(pending, depth) then pending[..|pending| - 1] else pending
  }

  lemma WaitingCloses(doc: seq<Byte>, i: nat, depth: nat, pending: seq<Opening>)
    requires i < |doc| && AllWaiting(doc, i, depth, pending) && Ascending(pending) && Structural(doc, i, CLOSE) && 0 < depth
    ensures AllWaiting(doc, i + 1, depth - 1, Popped(pending, depth))
    ensures forall k | 0 <= k < |pending| ::
              CloseOf(doc, pending[k].start) == i <==> OnTop(pending, depth) && k == |pending| - 1
  {
    var left := Popped(pending, depth);
    forall k | 0 <= k < |pending|
      ensures CloseOf(doc, pending[k].start) == i <==> OnTop(pending, depth) && k == |pending| - 1
      ensures k < |left| ==> Waiting(doc, i + 1, depth - 1, left[k])
    {
      assert Waiting(doc, i, depth, pending[k]);
      assert pending[k].depth == depth ==> k == |pending| - 1 by {
        assert Waiting(doc, i, depth, pending[|pending| - 1]);
      }
    }
  }

  /** Of the tracked openings, a closing brace closes the one on top, if its depth is the current one. */
  lemma ClosesTop(doc: seq<Byte>, i: nat, depth: nat, pending: seq<Opening>, s: nat)
    requires i < |doc| && PendingInv(doc, i, depth, pending) && Structural(doc, i, CLOSE) && 0 < depth
    requires s in Tracked(doc, i)
    ensures CloseOf(doc, s) == i <==> OnTop(pending, depth) && s == pending[|pending| - 1].start
  {
    WaitingCloses(doc, i, depth, pending);
    if CloseOf(doc, s) >= i {
      assert s in Starts(pending);
      StartsHas(pending, s);
      var k :| 0 <= k < |pending| && pending[k].start == s;
    }
    if OnTop(pending, depth) { assert pending[|pending| - 1].start == s ==> CloseOf(doc, s) == i; }
  }

  lemma CloseStep(doc: seq<Byte>, i: nat, depth: nat, pending: seq<Opening>)
    requires i < |doc| && PendingInv(doc, i, depth, pending) && Structural(doc, i, CLOSE) && 0 < depth
    ensures PendingInv(doc, i + 1, depth - 1, Popped(pending, depth))
    ensures Tracked(doc, i + 1) == Tracked(doc, i)
    ensures forall s | s in Tracked(doc, i) ::
              CloseOf(doc, s) == i <==> OnTop(pending, depth) && s == pending[|pending| - 1].start
    ensures OnTop(pending, depth) ==> pending[|pending| - 1].start in Tracked(doc, i)
  {
    WaitingCloses(doc, i, depth, pending);
    forall s | s in Tracked(doc, i)
      ensures CloseOf(doc, s) == i <==> OnTop(pending, depth) && s == pending[|pending| - 1].start
    {
      ClosesTop(doc, i, depth, pending, s);
    }
    StackPopped(doc, i, depth, pending);
  }

  lemma StackPopped(doc: seq<Byte>, i: nat, depth: nat, pending: seq<Opening>)
    requires i < |doc| && Ascending(pending)
    requires Starts(pending) == StillOpen(doc, Tracked(doc, i), i)
    requires forall s | s in Tracked(doc, i) ::
               CloseOf(doc, s) == i <==> OnTop(pending, depth) && s == pending[|pending| - 1].start
    ensures Ascending(Popped(pending, depth))
    ensures Starts(Popped(pending, depth)) == StillOpen(doc, Tracked(doc, i), i + 1)
    ensures OnTop(pending, depth) ==> pending[|pending| - 1].start in Tracked(doc, i)
  {
    var t := Tracked(doc, i);
    if OnTop(pending, depth) {
      var last := pending[|pending| - 1];
      var left := Popped(pending, depth);
      StartsHas(left, last.start);
      assert last.start !in Starts(left);
      assert StillOpen(doc, t, i + 1) == StillOpen(doc, t, i) - {last.start};
    } else {
      assert StillOpen(doc, t, i + 1) == StillOpen(doc, t, i);
    }
  }

  lemma WaitingMeansOpen(doc: seq<Byte>, i: nat, depth: nat, pending: seq<Opening>)
    requires i <= |doc| && AllWaiting(doc, i, depth, pending)
    ensures pending != [] ==> 0 < depth
  {
    if pending != [] { assert Waiting(doc, i, depth, pending[0]); }
  }

  /** A closing brace with nothing open closes nothing. */
  lemma StrayCloseStep(doc: seq<Byte>, i: nat, pending: seq<Opening>)
    requires i < |doc| && PendingInv(doc, i, 0, pending) && Structural(doc, i, CLOSE)
    ensures PendingInv(doc, i + 1, 0, pending)
    ensures Tracked(doc, i + 1) == Tracked(doc, i) && forall s | s in Tracked(doc, i) :: CloseOf(doc, s) != i
  {
    WaitingMeansOpen(doc, i, 0, pending);
    assert pending == [];
    assert Starts(pending) == {};
    forall s | s in Tracked(doc, i) ensures CloseOf(doc, s) < i {
      assert s !in StillOpen(doc, Tracked(doc, i), i);
    }
    assert StillOpen(doc, Tracked(doc, i), i + 1) == {};
  }

  lemma SpansKept(doc: seq<Byte>, i: nat, spans: seq<Span>)
    requires i < |doc| && SpansInv(doc, i, spans) && Tracked(doc, i) <= Tracked(doc, i + 1)
    requires forall s | s in Tracked(doc, i + 1) :: CloseOf(doc, s) != i && (s == i || s in Tracked(doc, i))
    ensures SpansInv(doc, i + 1, spans)
  {
  }

  lemma SpansGrow(doc: seq<Byte>, i: nat, spans: seq<Span>, start: nat)
    requires i < |doc| && SpansInv(doc, i, spans) && Tracked(doc, i) == Tracked(doc, i + 1) && start in Tracked(doc, i)
    requires forall s | s in Tracked(doc, i) :: CloseOf(doc, s) == i <==> s == start
    ensures SpansInv(doc, i + 1, spans + [Span(start, i)])
  {
    var grown := spans + [Span(start, i)];
    assert forall k | 0 <= k < |spans| :: spans[k] in spans;
    assert Distinct(grown);
  }

  /** What the pass carries from byte to byte. */
  datatype ScanState = ScanState(lex: Lex, depth: nat, pending: seq<Opening>, spans: seq<Span>)

  function Advanced(doc: seq<Byte>, i: nat, st: ScanState): ScanState
    requires i < |doc|
  {
    if st.lex.inString || (doc[i] != OPEN && doc[i] != CLOSE) then st.(lex := Next(st.lex, doc[i]))
    else if doc[i] == OPEN then
      st.(depth := st.depth + 1, pending := Pushed(doc, i, st.depth, st.pending))
    else if st.depth == 0 then st
    else
      st.(depth := st.depth - 1,
          pending := Popped(st.pending, st.depth),
          spans := if OnTop(st.pending, st.depth) then st.spans + [Span(st.pending[|st.pending| - 1].start, i)] else st.spans)
  }

  function ScanUpTo(doc: seq<Byte>, i: nat): ScanState
    requires i <= |doc|
  {
    if i == 0 then ScanState(OUTSIDE, 0, [], []) else Advanced(doc, i - 1, ScanUpTo(doc, i - 1))
  }

  ghost predicate ScanInv(doc: seq<Byte>, i: nat, st: ScanState)
    requires i <= |doc|
  {
    LexAt(doc, i) == st.lex && PendingInv(doc, i, st.depth, st.pending) && SpansInv(doc, i, st.spans)
  }

  lemma ScanBegins(doc: seq<Byte>)
    ensures ScanInv(doc, 0, ScanState(OUTSIDE, 0, [], []))
  {
    assert StillOpen(doc, Tracked(doc, 0), 0) == {};
  }

  lemma ScanPasses(doc: seq<Byte>, i: nat, st: ScanState)
    requires i < |doc| && ScanInv(doc, i, st)
    requires st.lex.inString || (doc[i] != OPEN && doc[i] != CLOSE)
    ensures ScanInv(doc, i + 1, Advanced(doc, i, st))
  {
    PassStep(doc, i, st.depth, st.pending);
    SpansKept(doc, i, st.spans);
  }

  lemma LexStays(doc: seq<Byte>, i: nat)
    requires i < |doc| && !LexAt(doc, i).inString && doc[i] != QUOTE
    ensures LexAt(doc, i + 1) == LexAt(doc, i)
  {
    OutsideIsClean(doc, i);
  }

  lemma ScanOpens(doc: seq<Byte>, i: nat, st: ScanState)
    requires i < |doc| && ScanInv(doc, i, st)
    requires !st.lex.inString && doc[i] == OPEN
    ensures ScanInv(doc, i + 1, Advanced(doc, i, st))
  {
    LexStays(doc, i);
    OpenStep(doc, i, st.depth, st.pending);
    SpansKept(doc, i, st.spans);
    assert Advanced(doc, i, st).spans == st.spans && Advanced(doc, i, st).lex == st.lex;
  }

  lemma ScanCloses(doc: seq<Byte>, i: nat, st: ScanState)
    requires i < |doc| && ScanInv(doc, i, st)
    requires !st.lex.inString && doc[i] == CLOSE
    ensures ScanInv(doc, i + 1, Advanced(doc, i, st))
  {
    LexStays(doc, i);
    if st.depth == 0 {
      StrayCloseStep(doc, i, st.pending);
      SpansKept(doc, i, st.spans);
    } else {
      CloseStep(doc, i, st.depth, st.pending);
      if OnTop(st.pending, st.depth) {
        SpansGrow(doc, i, st.spans, st.pending[|st.pending| - 1].start);
      } else {
        SpansKept(doc, i, st.spans);
      }
    }
  }

  lemma ScanAdvances(doc: seq<Byte>, i: nat, st: ScanState)
    requires i < |doc| && ScanInv(doc, i, st)
    ensures ScanInv(doc, i + 1, Advanced(doc, i, st))
  {
    if st.lex.inString || (doc[i] != OPEN && doc[i] != CLOSE) {
      ScanPasses(doc, i, st);
    } else if doc[i] == OPEN {
      ScanOpens(doc, i, st);
    } else {
      ScanCloses(doc, i, st);
    }
  }

  lemma ScanNext(doc: seq<Byte>, i: nat) returns (next: ScanState)
    requires i < |doc|
    ensures next == Advanced(doc, i, ScanUpTo(doc, i)) == ScanUpTo(doc, i + 1)
  {
    next := Advanced(doc, i, ScanUpTo(doc, i));
  }

  lemma {:induction false} ScanKeepsInv(doc: seq<Byte>, i: nat)
    requires i <= |doc|
    ensures ScanInv(doc, i, ScanUpTo(doc, i))
  {
    if i == 0 {
      ScanBegins(doc);
    } else {
      ScanKeepsInv(doc, i - 1);
      ScanAdvances(doc, i - 1, ScanUpTo(doc, i - 1));
      var next := ScanNext(doc, i - 1);
      assert ScanInv(doc, i, next);
    }
  }

  /** One pass over `doc`: every balanced candidate the stack had room for, in closing order. */
  method FindSpans(doc: seq<Byte>) returns (spans: seq<Span>)
    ensures spans == ScanUpTo(doc, |doc|).spans
  {
    spans := [];
    var pending: seq<Opening> := [];
    var depth: nat := 0;
    var inString := false;
    var escaped := false;
    for i := 0 to |doc|
      invariant ScanUpTo(doc, i) == ScanState(Lex(inString, escaped), depth, pending, spans)
    {
      var b := doc[i];
      if inString {
        if escaped {
          escaped := false;
        } else if b == BACKSLASH {
          escaped := true;
        } else if b == QUOTE {
          inString := false;
        }
        continue;
      }
      if b == QUOTE {
        inString := true;
      } else if b == OPEN {
        depth := depth + 1;
        if |pending| < TRACKED_OPENS && OpensObject(doc, i) {
          pending := pending + [Opening(depth, i)];
        }
      } else if b == CLOSE {
        if depth == 0 {
          continue;
        }
        if pending != [] && pending[|pending| - 1].depth == depth {
          var start := pending[|pending| - 1].start;
          pending := pending[..|pending| - 1];
          spans := spans + [Span(start, i)];
        }
        depth := depth - 1;
      }
    }
  }

  // ---------------------------------------------------------------------------------------
  // Document order, and the cap on what is kept
  // ---------------------------------------------------------------------------------------

  predicate StartOrder(a: Span, b: Span) { a.start <= b.start }

  predicate StartsApart(a: Span, b: Span) { a.start != b.start }

  lemma SortedIs(spans: seq<Span>)
    requires Distinct(spans)
    ensures InOrder(Ordering.Sorted(StartOrder, spans))
    ensures forall s :: s in Ordering.Sorted(StartOrder, spans) <==> s in spans
  {
    var sorted := Ordering.Sorted(StartOrder, spans);
    Ordering.SortedHasSame(StartOrder, spans);
    Ordering.SortedIsInOrder(StartOrder, spans);
    Ordering.SortedKeepsPairs(StartOrder, StartsApart, spans);
    forall i, j | 0 <= i < j < |sorted| ensures sorted[i].start < sorted[j].start {
      assert StartOrder(sorted[i], sorted[j]) && StartsApart(sorted[i], sorted[j]);
    }
  }

  lemma TailMembers(a: seq<Span>)
    requires a != [] && InOrder(a)
    ensures forall s :: s in a[1..] <==> s in a && s != a[0]
    ensures forall s | s in a :: a[0].start <= s.start
  {
    assert a == [a[0]] + a[1..];
    assert forall k | 0 <= k < |a[1..]| :: a[1..][k] == a[k + 1] && a[0].start < a[k + 1].start;
  }

  lemma {:induction false} OneOrder(a: seq<Span>, b: seq<Span>)
    requires InOrder(a) && InOrder(b) && forall s :: s in a <==> s in b
    ensures a == b
  {
    assert b != [] ==> b[0] in b;
    if a != [] {
      assert a[0] in b;
      TailMembers(a);
      TailMembers(b);
      assert b[0] in b;
      assert a[0] == b[0] by {
        var i :| 0 <= i < |a| && a[i] == b[0];
        var j :| 0 <= j < |b| && b[j] == a[0];
      }
      OneOrder(a[1..], b[1..]);
      assert a == [a[0]] + a[1..] && b == [b[0]] + b[1..];
    }
  }

  /** Put in document order, what the pass found is the bounded scan. */
  lemma SortedIsBounded(doc: seq<Byte>, spans: seq<Span>)
    requires SpansInv(doc, |doc|, spans)
    ensures Ordering.Sorted(StartOrder, spans) == Bounded(doc)
  {
    SortedIs(spans);
    NaiveFromIs(doc, 0);
    KeepIs(Naive(doc), Tracked(doc, |doc|));
    forall t | t in Tracked(doc, |doc|) { TrackedIsCandidate(doc, |doc|, t); }
    OneOrder(Ordering.Sorted(StartOrder, spans), Bounded(doc));
  }

  function Texts(doc: seq<Byte>, spans: seq<Span>): seq<seq<Byte>>
    requires forall s | s in spans :: s.start <= s.end < |doc|
  {
    seq(|spans|, i requires 0 <= i < |spans| => doc[spans[i].start..spans[i].end + 1])
  }

  /** How many more candidates a list of `n` takes. */
  function Room(n: nat): nat { if n < MAX_CANDIDATES then MAX_CANDIDATES - n else 0 }

  lemma BoundedFits(doc: seq<Byte>)
    ensures forall s | s in Bounded(doc) :: s.start <= s.end < |doc|
    ensures forall s | s in Naive(doc) :: s.start <= s.end < |doc|
  {
    NaiveFromIs(doc, 0);
    KeepIs(Naive(doc), Tracked(doc, |doc|));
  }

  /** The candidates recovered from a page so far. */
  class Candidates {
    var items: seq<seq<Byte>>

    constructor ()
      ensures items == []
    {
      items := [];
    }

    /** Appends the objects of `doc`, outermost first, until the list is full. */
    method CollectObjects(doc: seq<Byte>)
      modifies this
      ensures forall s | s in Bounded(doc) :: s.start <= s.end < |doc|
      ensures items == old(items) + Texts(doc, Take(Bounded(doc), Room(|old(items)|)))
    {
      var found := FindSpans(doc);
      ScanKeepsInv(doc, |doc|);
      SortedIsBounded(doc, found);
      BoundedFits(doc);
      PushSpans(doc, Ordering.Sorted(StartOrder, found));
    }

    method PushSpans(doc: seq<Byte>, spans: seq<Span>)
      requires forall s | s in spans :: s.start <= s.end < |doc|
      modifies this
      ensures items == old(items) + Texts(doc, Take(spans, Room(|old(items)|)))
    {
      ghost var room := Room(|items|);
      for i := 0 to |spans|
        invariant i == 0 || i <= room
        invariant items == old(items) + Texts(doc, spans[..i])
      {
        if |items| >= MAX_CANDIDATES {
          assert spans[..i] == Take(spans, room);
          return;
        }
        assert spans[i] in spans;
        TextsPush(doc, spans, i);
        items := items + [doc[spans[i].start..spans[i].end + 1]];
      }
      assert spans[..|spans|] == spans == Take(spans, room);
    }
  }

  lemma TextsPush(doc: seq<Byte>, spans: seq<Span>, i: nat)
    requires i < |spans| && forall s | s in spans :: s.start <= s.end < |doc|
    ensures forall s | s in spans[..i] :: s in spans
    ensures forall s | s in spans[..i + 1] :: s in spans
    ensures spans[i] in spans
    ensures Texts(doc, spans[..i + 1]) == Texts(doc, spans[..i]) + [doc[spans[i].start..spans[i].end + 1]]
  {
    assert spans[..i + 1] == spans[..i] + [spans[i]];
  }

  /** What `CollectObjects` appends to a list of `n`: the naive scan's objects, as many as there is room for. */
  lemma AppendsLikeNaive(doc: seq<Byte>, n: nat)
    requires FrontFits(doc, Room(n))
    ensures forall s | s in Bounded(doc) || s in Naive(doc) :: s.start <= s.end < |doc|
    ensures Texts(doc, Take(Bounded(doc), Room(n))) == Texts(doc, Take(Naive(doc), Room(n)))
  {
    BoundUnseenIff(doc, Room(n));
    BoundedFits(doc);
  }

  /** It is enough that the braces left open at the end of the page fit beside them on the stack. */
  lemma AppendsWhileFewOpen(doc: seq<Byte>, n: nat)
    requires |NeverClosed(doc)| <= TRACKED_OPENS - Room(n)
    ensures forall s | s in Bounded(doc) || s in Naive(doc) :: s.start <= s.end < |doc|
    ensures Texts(doc, Take(Bounded(doc), Room(n))) == Texts(doc, Take(Naive(doc), Room(n)))
  {
    FewOpenFit(doc, Room(n));
    AppendsLikeNaive(doc, n);
  }
}
