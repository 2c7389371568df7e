/** Walking the MangaDex chapter feed by offset, in windows of 500 rows. */
module MangadexWalk {
  import opened Options
  import opened PageWalk
  import opened Selection

  const FEED_LIMIT: nat := 500
  const MAX_FEED_PAGES: nat := 40
  const U32_MAX: nat := 0xFFFF_FFFF

  /** One feed row: hosted elsewhere, listed but unreadable, or without a number, it is not a chapter. */
  datatype Row = Row(id: string, number: Option<real>, title: string, external: bool, unavailable: bool)

  /** What the feed answers at an offset; `total` is a 32-bit count. */
  datatype Response = Failed | Feed(data: seq<Row>, total: nat)

  type Server = nat -> Response

  datatype Walk = Errored | Chapters(chapters: seq<Chapter>, exhausted: bool)

  predicate Readable(row: Row) { !row.external && !row.unavailable && row.number.Some? }

  function Parsed(rows: seq<Row>): seq<Chapter> {
    if rows == [] then []
    else
      var earlier, row := Parsed(rows[..|rows| - 1]), rows[|rows| - 1];
      if Readable(row) then earlier + [Chapter("/chapter/" + row.id, row.number.value, row.title)] else earlier
  }

  /** A row hosted here, readable and numbered is kept as the chapter it is. */
  predicate KeptAs(row: Row, c: Chapter) {
    && !row.external && !row.unavailable && row.number.Some?
    && c.key == "/chapter/" + row.id && c.number == row.number.value && c.title == row.title
  }

  /** Those rows, all of them, in order. */
  lemma {:induction false} ParsedIs(rows: seq<Row>) returns (at: seq<nat>)
    ensures IsSelection(rows, KeptAs, Parsed(rows), at)
  {
    if rows == [] {
      at := [];
    } else {
      var init, row := rows[..|rows| - 1], rows[|rows| - 1];
      at := ParsedIs(init);
      assert rows == init + [row];
      if Readable(row) {
        OneMoreKept(init, KeptAs, Parsed(init), at, row, Chapter("/chapter/" + row.id, row.number.value, row.title));
        at := at + [|init|];
      } else {
        OneMorePassed(init, KeptAs, Parsed(init), at, row);
      }
    }
  }

  function SaturatingAdd(a: nat, b: nat): nat { if a + b > U32_MAX then U32_MAX else a + b }

  /** The offset of window `i`. */
  function Offset(i: nat): nat { if i == 0 then 0 else SaturatingAdd(Offset(i - 1), FEED_LIMIT) }

  function DataAt(server: Server, i: nat): seq<Row> {
    match server(Offset(i))
    case Feed(data, _) => data
    case _ => []
  }

  /** The rows of the first `n` windows, in the order they were read. */
  function Visited(server: Server, n: nat): seq<Row> {
    if n == 0 then [] else Visited(server, n - 1) + DataAt(server, n - 1)
  }

  /** How many rows a window held, as the 32-bit number it is compared as. */
  function Returned(data: seq<Row>): nat { if |data| > U32_MAX then FEED_LIMIT else |data| }

  /** Whether the window read at `i` is the last by the feed's own account. */
  predicate EndsAt(server: Server, i: nat) {
    match server(Offset(i))
    case Failed => true
    case Feed(data, total) => Returned(data) < FEED_LIMIT || Offset(i + 1) >= total
  }

  /** None of the first `n` windows ends the walk. */
  predicate Gets(server: Server, n: nat) {
    forall i | 0 <= i < n :: !EndsAt(server, i)
  }

  predicate IsEnd(server: Server, windows: nat) {
    && 0 < windows <= MAX_FEED_PAGES
    && Gets(server, windows - 1)
    && (EndsAt(server, windows - 1) || windows == MAX_FEED_PAGES)
  }

  function Result(server: Server, windows: nat): Walk
    requires windows > 0
  {
    if server(Offset(windows - 1)).Failed? then Errored
    else Chapters(Parsed(Visited(server, windows)), EndsAt(server, windows - 1))
  }

  lemma {:induction false} ParsedAppends(a: seq<Row>, b: seq<Row>)
    ensures Parsed(a + b) == Parsed(a) + Parsed(b)
  {
    if b == [] {
      assert a + b == a;
    } else {
      ParsedAppends(a, b[..|b| - 1]);
      assert (a + b)[..|a + b| - 1] == a + b[..|b| - 1];
    }
  }

  method KeepReadable(data: seq<Row>, before: seq<Chapter>) returns (chapters: seq<Chapter>)
    ensures chapters == before + Parsed(data)
  {
    chapters := before;
    for j := 0 to |data|
      invariant chapters == before + Parsed(data[..j])
    {
      assert data[..j + 1][..j] == data[..j];
      var row := data[j];
      if row.external || row.unavailable {
        continue;
      }
      if row.number.None? {
        continue;
      }
      chapters := chapters + [Chapter("/chapter/" + row.id, row.number.value, row.title)];
    }
    assert data[..|data|] == data;
  }

  lemma FeedRead(server: Server, i: nat, chapters: seq<Chapter>)
    requires server(Offset(i)).Feed?
    requires chapters == Parsed(Visited(server, i)) + Parsed(server(Offset(i)).data)
    ensures chapters == Parsed(Visited(server, i + 1))
    ensures Result(server, i + 1) == Chapters(chapters, EndsAt(server, i))
  {
    ParsedAppends(Visited(server, i), server(Offset(i)).data);
  }

  method FetchChapters(server: Server) returns (walk: Walk, windows: nat)
    ensures IsEnd(server, windows)
    ensures walk == Result(server, windows)
  {
    var chapters: seq<Chapter>, offset := [], 0;
    windows := 0;
    while windows < MAX_FEED_PAGES
      invariant windows <= MAX_FEED_PAGES && offset == Offset(windows)
      invariant chapters == Parsed(Visited(server, windows))
      invariant Gets(server, windows)
      invariant windows > 0 ==> Result(server, windows) == Chapters(chapters, false)
    {
      var response := server(offset);
      windows := windows + 1;
      if response.Failed? {
        return Errored, windows;
      }
      chapters := KeepReadable(response.data, chapters);
      FeedRead(server, windows - 1, chapters);
      offset := SaturatingAdd(offset, FEED_LIMIT);
      if Returned(response.data) < FEED_LIMIT || offset >= response.total {
        return Chapters(chapters, true), windows;
      }
    }
    walk := Chapters(chapters, false);
  }

  // ---------------------------------------------------------------------------------------
  // An honest feed
  // ---------------------------------------------------------------------------------------

  function Least(a: nat, b: nat): nat { if a <= b then a else b }

  /** A feed that serves the window of a fixed list at every offset, and the list's length as its total. */
  ghost predicate Honest(server: Server, list: seq<Row>) {
    && |list| <= U32_MAX
    && forall o: nat :: server(o) == Feed(list[Least(o, |list|)..Least(o + 500, |list|)], |list|)
  }

  /** The offset never saturates within the cap. */
  lemma {:induction false} OffsetIs(i: nat)
    requires i <= MAX_FEED_PAGES
    ensures Offset(i) == FEED_LIMIT * i
  {
    if i > 0 {
      OffsetIs(i - 1);
    }
  }

  /** The window at an offset takes up the list where the ones before it left off. */
  lemma WindowsJoin(list: seq<Row>, o: nat)
    ensures list[..Least(o, |list|)] + list[Least(o, |list|)..Least(o + FEED_LIMIT, |list|)] == list[..Least(o + FEED_LIMIT, |list|)]
  {}

  lemma WindowIs(server: Server, list: seq<Row>, n: nat)
    requires Honest(server, list) && n < MAX_FEED_PAGES
    ensures DataAt(server, n) == list[Least(FEED_LIMIT * n, |list|)..Least(FEED_LIMIT * n + FEED_LIMIT, |list|)]
  {
    OffsetIs(n);
    var o := FEED_LIMIT * n;
    assert server(o) == Feed(list[Least(o, |list|)..Least(o + FEED_LIMIT, |list|)], |list|);
  }

  lemma {:induction false} VisitedIs(server: Server, list: seq<Row>, n: nat)
    requires Honest(server, list) && n <= MAX_FEED_PAGES
    ensures Visited(server, n) == list[..Least(FEED_LIMIT * n, |list|)]
  {
    if n > 0 {
      VisitedIs(server, list, n - 1);
      WindowIs(server, list, n - 1);
      WindowsJoin(list, FEED_LIMIT * (n - 1));
      assert FEED_LIMIT * (n - 1) + FEED_LIMIT == FEED_LIMIT * n;
    }
  }

  lemma EndsIff(server: Server, list: seq<Row>, i: nat)
    requires Honest(server, list) && i < MAX_FEED_PAGES
    ensures EndsAt(server, i) <==> FEED_LIMIT * (i + 1) >= |list|
    ensures server(Offset(i)).Feed?
  {
    OffsetIs(i);
    OffsetIs(i + 1);
    var o := FEED_LIMIT * i;
    assert server(o) == Feed(list[Least(o, |list|)..Least(o + FEED_LIMIT, |list|)], |list|);
  }

  /**
   Against an honest feed the walk visits each row of the list exactly once and in order, if and only if
   the list fits the cap, and says it reached the end exactly then; the number of windows is the least
   that covers the list.
   */
  lemma CompleteIff(server: Server, list: seq<Row>, windows: nat)
    requires Honest(server, list) && IsEnd(server, windows)
    ensures Visited(server, windows) == list <==> |list| <= 20_000
    ensures Visited(server, windows) <= list
    ensures Result(server, windows) == Chapters(Parsed(Visited(server, windows)), |list| <= 20_000)
    ensures windows <= 40 && (windows > 1 ==> 500 * (windows - 1) < |list|)
  {
    EndsIff(server, list, windows - 1);
    VisitedIs(server, list, windows);
    if windows > 1 {
      EndsIff(server, list, windows - 2);
    }
  }
}
