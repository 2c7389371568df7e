/**
 Reading every page of the KunManga chapters API. The walk trusts the API's `last_page`, with two
 guards behind it: a page that adds nothing new ends it, and so does a page cap.
 */
module KunmangaWalk {
  import opened Options
  import opened PageWalk
  import opened Selection

  const MAX_CHAPTER_PAGES: nat := 1000

  /** One API row; a row without a number cannot be ordered. */
  datatype Row = Row(slug: string, number: Option<real>, title: string)

  /** What the API answers for a page: an error, an envelope without data, or rows and its last page. */
  datatype Response = Failed | Declined | Listing(rows: seq<Row>, lastPage: nat)

  type Server = nat -> Response

  datatype Walk = Errored | Missing | Chapters(chapters: seq<Chapter>)

  function Numbered(rows: seq<Row>): seq<Chapter> {
    if rows == [] then []
    else
      var earlier, row := Numbered(rows[..|rows| - 1]), rows[|rows| - 1];
      if row.number.Some? then earlier + [Chapter(row.slug, row.number.value, row.title)] else earlier
  }

  /** A row is kept as the chapter it is when it has a number. */
  predicate KeptAs(row: Row, c: Chapter) {
    row.number.Some? && c.key == row.slug && c.number == row.number.value && c.title == row.title
  }

  /** The numbered rows of a page, all of them, in order. */
  lemma {:induction false} NumberedIs(rows: seq<Row>) returns (at: seq<nat>)
    ensures IsSelection(rows, KeptAs, Numbered(rows), at)
  {
    if rows == [] {
      at := [];
    } else {
      var init, row := rows[..|rows| - 1], rows[|rows| - 1];
      at := NumberedIs(init);
      assert rows == init + [row];
      if row.number.Some? {
        OneMoreKept(init, KeptAs, Numbered(init), at, row, Chapter(row.slug, row.number.value, row.title));
        at := at + [|init|];
      } else {
        OneMorePassed(init, KeptAs, Numbered(init), at, row);
      }
    }
  }

  function RowsOn(response: Response): seq<Chapter> {
    match response
    case Listing(rows, _) => Numbered(rows)
    case _ => []
  }

  function SiteOf(server: Server): Site { (page: nat) => RowsOn(server(page)) }

  predicate StopsAt(server: Server, page: nat)
    requires page > 0
  {
    || !server(page).Listing? || !Adds(SiteOf(server), page)
    || page >= server(page).lastPage || page >= MAX_CHAPTER_PAGES
  }

  /** The walk gets as far as `page`: nothing stops it before. */
  predicate Gets(server: Server, page: nat) {
    forall p | 0 < p < page :: !StopsAt(server, p)
  }

  predicate IsEnd(server: Server, page: nat) {
    page > 0 && StopsAt(server, page) && Gets(server, page)
  }

  /** What a walk that ends at `pages` brings back; only a refusal of the first page is an error of its own. */
  function Result(server: Server, pages: nat): Walk {
    if server(pages).Failed? then Errored
    else if server(pages).Declined? && pages == 1 then Missing
    else Chapters(Collected(SiteOf(server), pages))
  }

  /** What the walk holds in front of `page`. */
  ghost predicate Holds(server: Server, page: nat, chapters: seq<Chapter>, seen: set<string>) {
    page > 0 && Gets(server, page) && chapters == Collected(SiteOf(server), page - 1) && seen == Keys(chapters)
  }

  lemma GetsFurther(server: Server, page: nat)
    requires page > 0 && Gets(server, page) && !StopsAt(server, page)
    ensures Gets(server, page + 1)
  {}

  lemma Ends(server: Server, page: nat)
    requires 0 < page <= MAX_CHAPTER_PAGES && Gets(server, page) && StopsAt(server, page)
    ensures IsEnd(server, page)
    ensures Result(server, page).Chapters? ==> Distinct(Result(server, page).chapters)
  {
    CollectedHolds(SiteOf(server), page, "");
  }

  lemma NothingRead(server: Server, page: nat, chapters: seq<Chapter>, seen: set<string>)
    requires page <= MAX_CHAPTER_PAGES && Holds(server, page, chapters, seen) && !server(page).Listing?
    ensures IsEnd(server, page)
    ensures Result(server, page) ==
      if server(page).Failed? then Errored else if page == 1 then Missing else Chapters(chapters)
    ensures Distinct(chapters)
  {
    Ends(server, page);
    OnePageMore(SiteOf(server), page);
    CollectedHolds(SiteOf(server), page - 1, "");
  }

  lemma ListingRead(server: Server, page: nat, before: seq<Chapter>, known: set<string>, chapters: seq<Chapter>, seen: set<string>)
    requires page <= MAX_CHAPTER_PAGES && Holds(server, page, before, known) && server(page).Listing?
    requires chapters == Kept(before, Numbered(server(page).rows)) && seen == Keys(chapters)
    ensures if |chapters| == |before| || page >= server(page).lastPage || page >= MAX_CHAPTER_PAGES
            then IsEnd(server, page) && Result(server, page) == Chapters(chapters) && Distinct(chapters)
            else Holds(server, page + 1, chapters, seen)
  {
    OnePageMore(SiteOf(server), page);
    if StopsAt(server, page) { Ends(server, page); } else { GetsFurther(server, page); }
  }

  lemma NumberedPush(rows: seq<Row>, i: nat)
    requires i < |rows|
    ensures rows[i].number.None? ==> Numbered(rows[..i + 1]) == Numbered(rows[..i])
    ensures rows[i].number.Some? ==>
              Numbered(rows[..i + 1]) == Numbered(rows[..i]) + [Chapter(rows[i].slug, rows[i].number.value, rows[i].title)]
  {
    assert rows[..i + 1][..i] == rows[..i];
  }

  /** The rows of one page: those without a number and those seen before are passed over. */
  method KeepRows(rows: seq<Row>, before: seq<Chapter>, known: set<string>)
      returns (chapters: seq<Chapter>, seen: set<string>, added: nat)
    requires known == Keys(before)
    ensures chapters == Kept(before, Numbered(rows)) && seen == Keys(chapters)
    ensures added == |chapters| - |before|
  {
    chapters, seen, added := before, known, 0;
    for i := 0 to |rows|
      invariant chapters == Kept(before, Numbered(rows[..i])) && seen == Keys(chapters)
      invariant added == |chapters| - |before|
    {
      NumberedPush(rows, i);
      var row := rows[i];
      if row.number.None? {
        continue;
      }
      var c := Chapter(row.slug, row.number.value, row.title);
      KeptPush(before, Numbered(rows[..i]), c);
      if c.key in seen {
        continue;
      }
      KeysPush(chapters, c);
      seen := seen + {c.key};
      added := added + 1;
      chapters := chapters + [c];
    }
    assert rows[..|rows|] == rows;
  }

  /**
   A page that cannot be read makes the whole walk an error, a refusal of the first page a missing
   series; otherwise the walk has the chapters of the pages read, each once.
   */
  lemma ResultIs(server: Server, pages: nat)
    requires IsEnd(server, pages)
    ensures Result(server, pages).Errored? <==> server(pages).Failed?
    ensures Result(server, pages).Missing? <==> pages == 1 && server(1).Declined?
    ensures Result(server, pages).Chapters? ==>
              Result(server, pages).chapters == Collected(SiteOf(server), pages) && Distinct(Result(server, pages).chapters)
  {
    CollectedHolds(SiteOf(server), pages, "");
  }

  /** One turn of the loop: the walk it ends with, or the chapters it goes on with. */
  method ReadPage(server: Server, page: nat, before: seq<Chapter>, known: set<string>)
      returns (walk: Option<Walk>, chapters: seq<Chapter>, seen: set<string>)
    requires page <= MAX_CHAPTER_PAGES && Holds(server, page, before, known)
    ensures walk.Some? ==> IsEnd(server, page) && walk.value == Result(server, page)
    ensures walk.None? ==> page < MAX_CHAPTER_PAGES && Holds(server, page + 1, chapters, seen)
  {
    chapters, seen := before, known;
    var response := server(page);
    if !response.Listing? { NothingRead(server, page, before, known); }
    if response.Failed? {
      return Some(Errored), chapters, seen;
    }
    if response.Declined? {
      if page == 1 {
        return Some(Missing), chapters, seen;
      }
      return Some(Chapters(chapters)), chapters, seen;
    }
    var added;
    chapters, seen, added := KeepRows(response.rows, before, known);
    ListingRead(server, page, before, known, chapters, seen);
    if added == 0 || page >= response.lastPage || page >= MAX_CHAPTER_PAGES {
      return Some(Chapters(chapters)), chapters, seen;
    }
    walk := None;
  }

  /**
   For every server the walk ends within the cap, at the first page with a reason to stop, with the
   distinct numbered chapters of the pages read.
   */
  method FetchChapters(server: Server) returns (walk: Walk, pages: nat)
    ensures IsEnd(server, pages) && pages <= 1000
    ensures walk == Result(server, pages)
  {
    var chapters: seq<Chapter>, seen: set<string> := [], {};
    pages := 1;
    while true
      invariant pages <= MAX_CHAPTER_PAGES && Holds(server, pages, chapters, seen)
      decreases MAX_CHAPTER_PAGES - pages
    {
      var ended;
      ended, chapters, seen := ReadPage(server, pages, chapters, seen);
      if ended.Some? {
        return ended.value, pages;
      }
      pages := pages + 1;
    }
  }

  // ---------------------------------------------------------------------------------------
  // What the walk brings back
  // ---------------------------------------------------------------------------------------

  /** A server that lists its real pages and says on each how many there are. */
  predicate Honest(server: Server, lastPage: nat) {
    lastPage > 0 && forall p | 0 < p <= lastPage :: server(p).Listing? && server(p).lastPage == lastPage
  }

  /** The pages the cap lets the walk reach. */
  function Reachable(lastPage: nat): nat {
    if lastPage <= 1000 then lastPage else 1000
  }

  lemma EndIsReachable(server: Server, lastPage: nat, pages: nat)
    requires Honest(server, lastPage) && IsEnd(server, pages)
    ensures pages <= Reachable(lastPage)
    ensures pages < Reachable(lastPage) ==> !Adds(SiteOf(server), pages)
    ensures forall p | 0 < p < pages :: Adds(SiteOf(server), p)
  {
    assert StopsAt(server, Reachable(lastPage));
    assert StopsAt(server, pages);
    forall p | 0 < p < pages ensures Adds(SiteOf(server), p) {
      assert !StopsAt(server, p);
    }
  }

  /**
   Against an honest server the walk has every numbered chapter of every page it may reach if and only if
   no page that adds nothing is followed by one that would.
   */
  lemma CompleteIff(server: Server, lastPage: nat, pages: nat)
    requires Honest(server, lastPage) && IsEnd(server, pages)
    ensures Collected(SiteOf(server), pages) == Collected(SiteOf(server), Reachable(lastPage))
       <==> NoGap(SiteOf(server), Reachable(lastPage))
  {
    EndIsReachable(server, lastPage, pages);
    StoppingCostsIff(SiteOf(server), pages, Reachable(lastPage));
  }

  /** When every page up to the last adds a chapter, the walk reads them all and keeps each chapter once. */
  lemma EveryPageRead(server: Server, lastPage: nat, pages: nat, key: string)
    requires Honest(server, lastPage) && IsEnd(server, pages) && lastPage <= 1000
    requires forall p | 0 < p <= lastPage :: Adds(SiteOf(server), p)
    ensures pages == lastPage
    ensures Distinct(Collected(SiteOf(server), pages))
    ensures key in Keys(Collected(SiteOf(server), pages)) <==> Listed(SiteOf(server), lastPage, key)
  {
    EndIsReachable(server, lastPage, pages);
    CollectedHolds(SiteOf(server), pages, key);
  }
}
