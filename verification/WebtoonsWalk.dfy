/**
 Walking an episode list whose paginator clamps: a page past the last one is the last one again, so
 the only honest sign of the end is a page that adds nothing.
 */
module WebtoonsWalk {
  import opened Options
  import opened PageWalk
  import opened Selection

  const MAX_EPISODE_PAGES: nat := 200

  /** One episode row; without a readable number or a link it is passed over. */
  datatype Row = Row(number: Option<real>, href: Option<string>, title: string)

  datatype Response = Failed | Rows(rows: seq<Row>)

  type Server = nat -> Response

  datatype Walk = Errored | Chapters(chapters: seq<Chapter>, exhausted: bool)

  /** The chapters a page parses to, keyed by their path. */
  function Parsed(rows: seq<Row>): seq<Chapter> {
    if rows == [] then []
    else
      var earlier, row := Parsed(rows[..|rows| - 1]), rows[|rows| - 1];
      if row.number.Some? && row.href.Some? then earlier + [Chapter(row.href.value, row.number.value, row.title)]
      else earlier
  }

  /** A row is kept as the chapter it is when it has a number and a link. */
  predicate KeptAs(row: Row, c: Chapter) {
    && row.number.Some? && row.href.Some?
    && c.key == row.href.value && c.number == row.number.value && c.title == row.title
  }

  /** The readable rows of a page, all of them, in order. */
  lemma {:induction false} ParsedIs(rows: seq<Row>) returns (at: seq<nat>)
    ensures IsSelection(rows, KeptAs, Parsed(rows), at)
  {
    if rows == [] {
      at := [];
    } else {
      var init, row := rows[..|rows| - 1], rows[|rows| - 1];
      at := ParsedIs(init);
      assert rows == init + [row];
      if row.number.Some? && row.href.Some? {
        OneMoreKept(init, KeptAs, Parsed(init), at, row, Chapter(row.href.value, row.number.value, row.title));
        at := at + [|init|];
      } else {
        OneMorePassed(init, KeptAs, Parsed(init), at, row);
      }
    }
  }

  method ParseRows(rows: seq<Row>) returns (batch: seq<Chapter>)
    ensures batch == Parsed(rows)
  {
    batch := [];
    for i := 0 to |rows|
      invariant batch == Parsed(rows[..i])
    {
      assert rows[..i + 1][..i] == rows[..i];
      var row := rows[i];
      if row.number.None? || row.href.None? {
        continue;
      }
      batch := batch + [Chapter(row.href.value, row.number.value, row.title)];
    }
    assert rows[..|rows|] == rows;
  }

  function RowsOn(response: Response): seq<Chapter> { if response.Rows? then Parsed(response.rows) else [] }

  function SiteOf(server: Server): Site { (page: nat) => RowsOn(server(page)) }

  predicate StopsAt(server: Server, page: nat)
    requires page > 0
  {
    server(page).Failed? || !Adds(SiteOf(server), page)
  }

  /** The walk gets as far as `page`: nothing stops it before. */
  predicate Gets(server: Server, page: nat) {
    forall p | 0 < p < page :: !StopsAt(server, p)
  }

  /** The walk reads pages up to `pages`: the first with a reason to stop, or the cap. */
  predicate IsEnd(server: Server, pages: nat) {
    && 0 < pages <= MAX_EPISODE_PAGES
    && Gets(server, pages)
    && (StopsAt(server, pages) || pages == MAX_EPISODE_PAGES)
  }

  function Result(server: Server, pages: nat): Walk
    requires pages > 0
  {
    if server(pages).Failed? then Errored
    else Chapters(Collected(SiteOf(server), pages), !Adds(SiteOf(server), pages))
  }

  lemma RowsRead(server: Server, page: nat, chapters: seq<Chapter>)
    requires page > 0 && server(page).Rows?
    requires chapters == Kept(Collected(SiteOf(server), page - 1), Parsed(server(page).rows))
    ensures chapters == Collected(SiteOf(server), page)
    ensures StopsAt(server, page) <==> |chapters| == |Collected(SiteOf(server), page - 1)|
  {
    OnePageMore(SiteOf(server), page);
  }

  lemma Ends(server: Server, pages: nat, chapters: seq<Chapter>, stops: bool)
    requires 0 < pages <= MAX_EPISODE_PAGES && Gets(server, pages)
    requires stops == StopsAt(server, pages) && (stops || pages == MAX_EPISODE_PAGES)
    requires server(pages).Rows? ==> chapters == Collected(SiteOf(server), pages)
    ensures IsEnd(server, pages)
    ensures Result(server, pages) == if server(pages).Failed? then Errored else Chapters(chapters, stops)
    ensures Result(server, pages).Chapters? ==> Distinct(Result(server, pages).chapters)
  {
    CollectedHolds(SiteOf(server), pages, "");
  }

  lemma GetsFurther(server: Server, page: nat)
    requires Gets(server, page) && (page > 0 ==> !StopsAt(server, page))
    ensures Gets(server, page + 1)
  {}

  /** One page: whether it could be read, and whether it added something. */
  method ReadPage(server: Server, page: nat, before: seq<Chapter>, known: set<string>)
      returns (ok: bool, added: bool, chapters: seq<Chapter>, seen: set<string>)
    requires page > 0 && before == Collected(SiteOf(server), page - 1) && known == Keys(before)
    ensures ok <==> server(page).Rows?
    ensures ok ==> chapters == Collected(SiteOf(server), page) && seen == Keys(chapters)
    ensures ok ==> (added <==> !StopsAt(server, page))
  {
    var response := server(page);
    if response.Failed? {
      return false, false, before, known;
    }
    var batch := ParseRows(response.rows);
    chapters, seen := KeepNew(batch, before, known);
    RowsRead(server, page, chapters);
    ok, added := true, |chapters| != |before|;
  }

  /**
   A page that cannot be read makes the whole walk an error; otherwise the walk has the chapters of the
   pages read, each once, and a flag that says whether the last of them added nothing.
   */
  lemma ResultIs(server: Server, pages: nat)
    requires IsEnd(server, pages)
    ensures Result(server, pages).Errored? <==> server(pages).Failed?
    ensures Result(server, pages).Chapters? ==>
              && Result(server, pages).chapters == Collected(SiteOf(server), pages) && Distinct(Result(server, pages).chapters)
              && (Result(server, pages).exhausted <==> !Adds(SiteOf(server), pages))
  {
    CollectedHolds(SiteOf(server), pages, "");
  }

  method FetchChapters(server: Server) returns (walk: Walk, pages: nat)
    ensures IsEnd(server, pages) && pages <= 200
    ensures walk == Result(server, pages)
  {
    var chapters: seq<Chapter>, seen: set<string> := [], {};
    pages := 0;
    while pages < MAX_EPISODE_PAGES
      invariant pages <= MAX_EPISODE_PAGES
      invariant chapters == Collected(SiteOf(server), pages) && seen == Keys(chapters)
      invariant Gets(server, pages)
      invariant pages > 0 ==> server(pages).Rows? && !StopsAt(server, pages)
    {
      GetsFurther(server, pages);
      pages := pages + 1;
      var ok, added;
      ok, added, chapters, seen := ReadPage(server, pages, chapters, seen);
      if !ok {
        Ends(server, pages, chapters, true);
        return Errored, pages;
      }
      if !added {
        Ends(server, pages, chapters, true);
        return Chapters(chapters, true), pages;
      }
    }
    Ends(server, pages, chapters, false);
    walk := Chapters(chapters, false);
  }

  // ---------------------------------------------------------------------------------------
  // A clamping server
  // ---------------------------------------------------------------------------------------

  /** A server with `last` real pages that serves the last one again for every page past it. */
  ghost predicate Clamps(server: Server, last: nat) {
    && last > 0
    && (forall p | 0 < p <= last :: server(p).Rows?)
    && (forall p | p > last :: server(p) == server(last))
  }

  lemma PastTheEnd(server: Server, last: nat)
    requires Clamps(server, last)
    ensures !Adds(SiteOf(server), last + 1)
  {
    assert server(last + 1) == server(last);
    OnePageMore(SiteOf(server), last);
  }

  /** The walk ends at the first repeated page, or at the cap. */
  lemma EndsAtRepeat(server: Server, last: nat, pages: nat)
    requires Clamps(server, last) && IsEnd(server, pages)
    requires forall p | 0 < p <= last :: Adds(SiteOf(server), p)
    ensures pages == if last < 200 then last + 1 else 200
    ensures server(pages).Rows?
  {
    PastTheEnd(server, last);
    assert StopsAt(server, last + 1);
    assert pages <= last ==> !StopsAt(server, pages);
  }

  /**
   A clamping server whose real pages each add something is read to its end if and only if it has no
   more pages than the cap.
   */
  lemma CompleteIff(server: Server, last: nat, pages: nat)
    requires Clamps(server, last) && IsEnd(server, pages)
    requires forall p | 0 < p <= last :: Adds(SiteOf(server), p)
    ensures Collected(SiteOf(server), pages) == Collected(SiteOf(server), last) <==> last <= 200
  {
    EndsAtRepeat(server, last, pages);
    if last < MAX_EPISODE_PAGES {
      PastTheEnd(server, last);
      OnePageMore(SiteOf(server), pages);
    } else if last > MAX_EPISODE_PAGES {
      SomethingAdded(SiteOf(server), pages, last, last);
    }
  }

  /**
   The walk says it reached the end only when the cap leaves room to see the repeated page: with exactly
   as many pages as the cap it has everything and warns that it may not.
   */
  lemma ExhaustedIff(server: Server, last: nat, pages: nat)
    requires Clamps(server, last) && IsEnd(server, pages)
    requires forall p | 0 < p <= last :: Adds(SiteOf(server), p)
    ensures Result(server, pages).Chapters?
    ensures Result(server, pages).exhausted <==> last < 200
  {
    EndsAtRepeat(server, last, pages);
    PastTheEnd(server, last);
    assert pages <= last ==> Adds(SiteOf(server), pages);
  }

  /** Every chapter of every page, once: what completeness means to a reader of the result. */
  lemma EveryPageRead(server: Server, last: nat, pages: nat, key: string)
    requires Clamps(server, last) && IsEnd(server, pages) && last <= 200
    requires forall p | 0 < p <= last :: Adds(SiteOf(server), p)
    ensures Distinct(Collected(SiteOf(server), pages))
    ensures key in Keys(Collected(SiteOf(server), pages)) <==> Listed(SiteOf(server), last, key)
  {
    CompleteIff(server, last, pages);
    CollectedHolds(SiteOf(server), last, key);
  }

  /** Without the assumption: the first page that adds nothing ends the walk, at a cost exactly when a later one would. */
  lemma StoppingEarlyCostsIff(server: Server, last: nat, pages: nat)
    requires Clamps(server, last) && IsEnd(server, pages) && pages <= last <= 200
    ensures Collected(SiteOf(server), pages) == Collected(SiteOf(server), last) <==> NoGap(SiteOf(server), last)
  {
    forall p | 0 < p < pages ensures Adds(SiteOf(server), p) {
      assert !StopsAt(server, p);
    }
    assert StopsAt(server, pages) || pages == last;
    StoppingCostsIff(SiteOf(server), pages, last);
  }
}
