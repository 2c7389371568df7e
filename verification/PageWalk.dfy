/** Chapters gathered page by page, each kept the first time its key is seen. */
module PageWalk {

  /** A readable chapter: its key on the site, its number and its title. */
  datatype Chapter = Chapter(key: string, number: real, title: string)

  function Keys(chapters: seq<Chapter>): set<string> {
    if chapters == [] then {} else Keys(chapters[..|chapters| - 1]) + {chapters[|chapters| - 1].key}
  }

  predicate Distinct(chapters: seq<Chapter>) {
    forall i, j | 0 <= i < j < |chapters| :: chapters[i].key != chapters[j].key
  }

  /** `kept` with those of `rows` whose key is new, in order. */
  function Kept(kept: seq<Chapter>, rows: seq<Chapter>): seq<Chapter> {
    if rows == [] then kept
    else
      var before := Kept(kept, rows[..|rows| - 1]);
      var row := rows[|rows| - 1];
      if row.key in Keys(before) then before else before + [row]
  }

  lemma KeysPush(chapters: seq<Chapter>, c: Chapter)
    ensures Keys(chapters + [c]) == Keys(chapters) + {c.key}
  {
    assert (chapters + [c])[..|chapters|] == chapters;
  }

  lemma KeptPush(kept: seq<Chapter>, rows: seq<Chapter>, c: Chapter)
    ensures Kept(kept, rows + [c]) == if c.key in Keys(Kept(kept, rows)) then Kept(kept, rows) else Kept(kept, rows) + [c]
  {
    assert (rows + [c])[..|rows|] == rows;
  }

  lemma {:induction false} KeyIsIn(chapters: seq<Chapter>, key: string)
    ensures key in Keys(chapters) <==> exists i | 0 <= i < |chapters| :: chapters[i].key == key
  {
    if chapters != [] {
      var init, last := chapters[..|chapters| - 1], chapters[|chapters| - 1];
      KeyIsIn(init, key);
      if key in Keys(init) {
        var i :| 0 <= i < |init| && init[i].key == key;
        assert chapters[i].key == key;
      }
      if i :| 0 <= i < |chapters| && chapters[i].key == key {
        assert i < |init| ==> init[i].key == key;
      }
      assert chapters[|chapters| - 1].key == last.key;
    }
  }

  lemma KeyIsNew(chapters: seq<Chapter>, c: Chapter)
    requires Distinct(chapters) && c.key !in Keys(chapters)
    ensures Distinct(chapters + [c])
  {
    KeyIsIn(chapters, c.key);
  }

  /** Nothing is dropped, nothing is kept twice, and the order is that of first appearance. */
  lemma {:induction false} KeptHolds(kept: seq<Chapter>, rows: seq<Chapter>)
    ensures Keys(Kept(kept, rows)) == Keys(kept) + Keys(rows)
    ensures kept <= Kept(kept, rows)
    ensures Distinct(kept) ==> Distinct(Kept(kept, rows))
    ensures Kept(kept, rows) == kept <==> Keys(rows) <= Keys(kept)
  {
    if rows != [] {
      var before, row := Kept(kept, rows[..|rows| - 1]), rows[|rows| - 1];
      KeptHolds(kept, rows[..|rows| - 1]);
      if Distinct(before) && row.key !in Keys(before) {
        KeyIsNew(before, row);
      }
    }
  }

  /** Row `i` is the first with its key, and the key is new. */
  predicate NewAt(kept: seq<Chapter>, rows: seq<Chapter>, i: int) {
    && 0 <= i < |rows|
    && (forall k | 0 <= k < |kept| :: kept[k].key != rows[i].key)
    && (forall k | 0 <= k < i :: rows[k].key != rows[i].key)
  }

  lemma NewIff(kept: seq<Chapter>, rows: seq<Chapter>)
    requires rows != []
    ensures NewAt(kept, rows, |rows| - 1) <==> rows[|rows| - 1].key !in Keys(Kept(kept, rows[..|rows| - 1]))
  {
    var init, row := rows[..|rows| - 1], rows[|rows| - 1];
    KeptHolds(kept, init);
    KeyIsIn(kept, row.key);
    KeyIsIn(init, row.key);
  }

  /** `out` is `kept` and behind it the rows at the places `at`: in order, all that are the first with a new key. */
  ghost predicate AddsFirsts(kept: seq<Chapter>, rows: seq<Chapter>, out: seq<Chapter>, at: seq<int>) {
    && |out| == |kept| + |at| && out[..|kept|] == kept
    && (forall j | 0 <= j < |at| :: NewAt(kept, rows, at[j]) && out[|kept| + j] == rows[at[j]])
    && (forall j, k | 0 <= j < k < |at| :: at[j] < at[k])
    && (forall i | NewAt(kept, rows, i) :: i in at)
  }

  lemma NewSooner(kept: seq<Chapter>, rows: seq<Chapter>, row: Chapter, i: int)
    requires i < |rows|
    ensures NewAt(kept, rows + [row], i) <==> NewAt(kept, rows, i)
  {
    assert forall k | 0 <= k <= i :: (rows + [row])[k] == rows[k];
  }

  lemma OneMoreRow(kept: seq<Chapter>, rows: seq<Chapter>, out: seq<Chapter>, at: seq<int>, row: Chapter)
    requires AddsFirsts(kept, rows, out, at)
    ensures NewAt(kept, rows + [row], |rows|) ==> AddsFirsts(kept, rows + [row], out + [row], at + [|rows|])
    ensures !NewAt(kept, rows + [row], |rows|) ==> AddsFirsts(kept, rows + [row], out, at)
  {
    var all := rows + [row];
    forall i | i < |rows| ensures NewAt(kept, all, i) <==> NewAt(kept, rows, i) { NewSooner(kept, rows, row, i); }
    if NewAt(kept, all, |rows|) {
      var more, grown := at + [|rows|], out + [row];
      assert grown[..|kept|] == kept;
      forall j, k | 0 <= j < k < |more| ensures more[j] < more[k] {
        assert NewAt(kept, rows, at[j]) && more[j] == at[j];
      }
      forall j | 0 <= j < |more| ensures NewAt(kept, all, more[j]) && grown[|kept| + j] == all[more[j]] {
        if j < |at| { assert more[j] == at[j]; }
      }
      forall i | NewAt(kept, all, i) ensures i in more {
        if i < |rows| { assert i in at; } else { assert more[|at|] == i; }
      }
    }
  }

  /** What is added is exactly the rows that are the first with a new key, as they are and in order. */
  lemma {:induction false} KeptIs(kept: seq<Chapter>, rows: seq<Chapter>) returns (at: seq<int>)
    ensures AddsFirsts(kept, rows, Kept(kept, rows), at)
  {
    at := [];
    if rows != [] {
      var init, row := rows[..|rows| - 1], rows[|rows| - 1];
      at := KeptIs(kept, init);
      NewIff(kept, rows);
      OneMoreRow(kept, init, Kept(kept, init), at, row);
      assert rows == init + [row];
      if NewAt(kept, rows, |init|) { at := at + [|init|]; }
    }
  }

  method KeepNew(batch: seq<Chapter>, before: seq<Chapter>, known: set<string>)
      returns (chapters: seq<Chapter>, seen: set<string>)
    requires known == Keys(before)
    ensures chapters == Kept(before, batch) && seen == Keys(chapters)
  {
    chapters, seen := before, known;
    for i := 0 to |batch|
      invariant chapters == Kept(before, batch[..i]) && seen == Keys(chapters)
    {
      assert batch[..i + 1] == batch[..i] + [batch[i]];
      if batch[i].key !in seen {
        seen := seen + {batch[i].key};
        chapters := chapters + [batch[i]];
      }
    }
    assert batch[..|batch|] == batch;
  }

  // ---------------------------------------------------------------------------------------
  // A site as the chapters each of its pages lists
  // ---------------------------------------------------------------------------------------

  type Site = nat -> seq<Chapter>

  /** The chapters after pages 1 to `n`. */
  function Collected(site: Site, n: nat): seq<Chapter> {
    if n == 0 then [] else Kept(Collected(site, n - 1), site(n))
  }

  /** Whether a page lists a chapter that none before it did. */
  predicate Adds(site: Site, page: nat)
    requires page > 0
  {
    !(Keys(site(page)) <= Keys(Collected(site, page - 1)))
  }

  lemma OnePageMore(site: Site, n: nat)
    requires n > 0
    ensures Keys(Collected(site, n)) == Keys(Collected(site, n - 1)) + Keys(site(n))
    ensures Collected(site, n - 1) <= Collected(site, n)
    ensures Distinct(Collected(site, n - 1)) ==> Distinct(Collected(site, n))
    ensures Collected(site, n) == Collected(site, n - 1) <==> !Adds(site, n)
  {
    KeptHolds(Collected(site, n - 1), site(n));
  }

  predicate Listed(site: Site, n: nat, key: string) {
    exists p | 0 < p <= n :: key in Keys(site(p))
  }

  /** Every chapter the pages list is there, under its key, exactly once. */
  lemma {:induction false} CollectedHolds(site: Site, n: nat, key: string)
    ensures Distinct(Collected(site, n))
    ensures key in Keys(Collected(site, n)) <==> Listed(site, n, key)
  {
    if n > 0 {
      CollectedHolds(site, n - 1, key);
      OnePageMore(site, n);
    }
  }

  lemma {:induction false} CollectedGrows(site: Site, m: nat, n: nat)
    requires m <= n
    ensures Collected(site, m) <= Collected(site, n)
  {
    if m < n {
      CollectedGrows(site, m, n - 1);
      OnePageMore(site, n);
    }
  }

  lemma {:induction false} NothingAdded(site: Site, m: nat, n: nat)
    requires m <= n && forall p | m < p <= n :: !Adds(site, p)
    ensures Collected(site, n) == Collected(site, m)
  {
    if m < n {
      NothingAdded(site, m, n - 1);
      OnePageMore(site, n);
    }
  }

  lemma SomethingAdded(site: Site, m: nat, q: nat, n: nat)
    requires m < q <= n && Adds(site, q)
    ensures |Collected(site, n)| > |Collected(site, m)|
  {
    CollectedGrows(site, m, q - 1);
    CollectedGrows(site, q, n);
    OnePageMore(site, q);
  }

  /** Once a page adds nothing, no later page would. */
  predicate NoGap(site: Site, last: nat) {
    forall p, q | 0 < p < q <= last && !Adds(site, p) :: !Adds(site, q)
  }

  /**
   Stopping at the first page that adds nothing costs nothing if and only if no later page would have
   added something.
   */
  lemma StoppingCostsIff(site: Site, stop: nat, last: nat)
    requires 0 < stop <= last && forall p | 0 < p < stop :: Adds(site, p)
    requires stop < last ==> !Adds(site, stop)
    ensures Collected(site, stop) == Collected(site, last) <==> NoGap(site, last)
  {
    if NoGap(site, last) {
      NothingAdded(site, stop, last);
    } else {
      var p, q :| 0 < p < q <= last && !Adds(site, p) && Adds(site, q);
      SomethingAdded(site, stop, q, last);
    }
  }
}
