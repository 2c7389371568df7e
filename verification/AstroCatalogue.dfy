/**
 Paging through a catalogue that states its own total. A page says whether another follows by
 comparing the rows seen so far, taken as its number times its own rows, with that total.
 */
module AstroCatalogue {
  import opened Options
  import opened Selection

  /** One catalogue row: prose is dropped, and a row without a slug cannot be linked. */
  datatype Row = Row(slug: Option<string>, title: Option<string>, prose: bool)

  datatype Item = Item(path: string, title: string)

  /** A catalogue island: its rows, and the total it states if it states one. */
  datatype Island = Island(rows: Option<seq<Row>>, total: Option<nat>)

  type Server = nat -> Island

  predicate Linked(row: Row) { !row.prose && row.slug.Some? }

  function ItemOf(prefix: string, row: Row): Item
    requires row.slug.Some?
  {
    Item(prefix + "/" + row.slug.value, if row.title.Some? then row.title.value else row.slug.value)
  }

  function Items(prefix: string, rows: seq<Row>): (items: seq<Item>)
    ensures |items| <= |rows|
  {
    if rows == [] then []
    else
      var earlier, row := Items(prefix, rows[..|rows| - 1]), rows[|rows| - 1];
      if Linked(row) then earlier + [ItemOf(prefix, row)] else earlier
  }

  /** A row with a slug that is not prose is kept as an item: its path, and its title or else its slug. */
  predicate KeptAs(prefix: string, row: Row, item: Item) {
    && !row.prose && row.slug.Some?
    && item.path == prefix + "/" + row.slug.value
    && item.title == if row.title.Some? then row.title.value else row.slug.value
  }

  /** Those rows, all of them, in order. */
  lemma {:induction false} ItemsIs(prefix: string, rows: seq<Row>) returns (at: seq<nat>)
    ensures IsSelection(rows, (row, item) => KeptAs(prefix, row, item), Items(prefix, rows), at)
  {
    var keptAs := (row: Row, item: Item) => KeptAs(prefix, row, item);
    if rows == [] {
      at := [];
    } else {
      var init, row := rows[..|rows| - 1], rows[|rows| - 1];
      at := ItemsIs(prefix, init);
      assert rows == init + [row];
      if Linked(row) {
        OneMoreKept(init, keptAs, Items(prefix, init), at, row, ItemOf(prefix, row));
        at := at + [|init|];
      } else {
        OneMorePassed(init, keptAs, Items(prefix, init), at, row);
      }
    }
  }

  /** The items of an island and how many rows it held before any were dropped. */
  function CatalogItems(prefix: string, island: Island): (r: (seq<Item>, nat)) {
    match island.rows
    case None => ([], 0)
    case Some(rows) => (Items(prefix, rows), |rows|)
  }

  function RowCount(island: Island): nat { CatalogItems("", island).1 }

  function Total(island: Island): nat { if island.total.Some? then island.total.value else 0 }

  predicate HasNext(page: nat, rows: nat, total: nat) { rows > 0 && page * rows < total }

  /** Whether the page at `page` says another follows. */
  predicate Follows(server: Server, page: nat) { HasNext(page, RowCount(server(page)), Total(server(page))) }

  /** It does when it has rows, prose and all, and states a total above its number times those rows. */
  lemma FollowsIff(server: Server, page: nat)
    ensures Follows(server, page) <==>
              match server(page)
              case Island(Some(rows), Some(total)) => rows != [] && page * |rows| < total
              case _ => false
  {
    if server(page).rows.Some? && server(page).total.None? {
      assert page * |server(page).rows.value| >= 0;
    }
  }

  // ---------------------------------------------------------------------------------------
  // A driver that follows `has_next`
  // ---------------------------------------------------------------------------------------

  /** The page the walk ends at: the first that says none follows. */
  predicate EndsAt(server: Server, page: nat) {
    page > 0 && !Follows(server, page) && forall p | 0 < p < page :: Follows(server, p)
  }

  method Walk(server: Server, limit: nat) returns (ended: Option<nat>)
    ensures ended.Some? ==> EndsAt(server, ended.value) && ended.value <= limit
    ensures ended.None? ==> forall p | 0 < p <= limit :: Follows(server, p)
  {
    for page := 1 to limit + 1
      invariant forall p | 0 < p < page :: Follows(server, p)
    {
      var rows, total := RowCount(server(page)), Total(server(page));
      var seen := page * rows;
      var hasNext := rows > 0 && seen < total;
      if !hasNext {
        return Some(page);
      }
    }
    return None;
  }

  lemma EndIsUnique(server: Server, a: nat, b: nat)
    requires EndsAt(server, a) && EndsAt(server, b)
    ensures a == b
  {
    assert a < b ==> Follows(server, a);
    assert b < a ==> Follows(server, b);
  }

  // ---------------------------------------------------------------------------------------
  // The walk always ends
  // ---------------------------------------------------------------------------------------

  lemma {:induction false} FirstStop(server: Server, n: nat) returns (page: nat)
    requires n > 0 && !Follows(server, n)
    ensures EndsAt(server, page) && page <= n
  {
    page := 1;
    while Follows(server, page)
      invariant 0 < page <= n
      invariant forall p | 0 < p < page :: Follows(server, p)
      decreases n - page
    {
      page := page + 1;
    }
  }

  /** Whatever a server answers, the walk ends no later than the largest total it states. */
  lemma AlwaysEnds(server: Server, bound: nat) returns (page: nat)
    requires forall p: nat | p > 0 :: Total(server(p)) <= bound
    ensures EndsAt(server, page) && page <= if bound == 0 then 1 else bound
  {
    var n := if bound == 0 then 1 else bound;
    assert !Follows(server, n) by {
      var rows := RowCount(server(n));
      assert Total(server(n)) <= bound;
      if rows > 0 {
        assert n * rows >= n;
      }
    }
    page := FirstStop(server, n);
  }

  // ---------------------------------------------------------------------------------------
  // An honest catalogue
  // ---------------------------------------------------------------------------------------

  /** A catalogue of `last` pages of `size` rows, the last one with `rest`, each page stating the whole. */
  predicate Honest(server: Server, last: nat, size: nat, rest: nat, total: nat) {
    && last > 0 && 0 < rest <= size
    && total == (last - 1) * size + rest
    && (forall p | 0 < p <= last ::
          Total(server(p)) == total && RowCount(server(p)) == if p < last then size else rest)
  }

  lemma NeverEarly(server: Server, last: nat, size: nat, rest: nat, total: nat, page: nat)
    requires Honest(server, last, size, rest, total) && 0 < page < last
    ensures Follows(server, page)
  {
    assert page * size <= (last - 1) * size;
  }

  /** The driver never stops in front of the last real page. */
  lemma SeesEveryPage(server: Server, last: nat, size: nat, rest: nat, total: nat, end: nat)
    requires Honest(server, last, size, rest, total) && EndsAt(server, end)
    ensures end >= last
  {
    if 0 < end < last {
      NeverEarly(server, last, size, rest, total, end);
    }
  }

  /** A server that serves its last page again for every page past it. */
  ghost predicate ServesAgain(server: Server, last: nat) {
    forall p: nat | p > last :: server(p) == server(last)
  }

  /** A server whose pages past the last are empty. */
  ghost predicate ServesNothing(server: Server, last: nat) {
    forall p: nat | p > last :: RowCount(server(p)) == 0
  }

  function RoundedUp(total: nat, rest: nat): (n: nat)
    requires rest > 0
    ensures n * rest >= total
    ensures forall m: nat | m < n :: m * rest < total
  {
    var n := (total + rest - 1) / rest;
    RoundUp(total, rest, n);
    n
  }

  lemma RoundUp(total: nat, rest: nat, n: nat)
    requires rest > 0 && n == (total + rest - 1) / rest
    ensures n * rest >= total
    ensures forall m: nat | m < n :: m * rest < total
  {
    assert n * rest == total + rest - 1 - (total + rest - 1) % rest;
    forall m: nat | m < n ensures m * rest < total {
      assert m * rest <= (n - 1) * rest;
      assert (n - 1) * rest == n * rest - rest;
    }
  }

  function Max(a: nat, b: nat): nat { if a >= b then a else b }

  /** The stop, when some page from `last` on is the first that no page follows. */
  lemma EndsThere(server: Server, last: nat, size: nat, rest: nat, total: nat, stop: nat, end: nat)
    requires Honest(server, last, size, rest, total) && stop >= last
    requires forall p | last <= p < stop :: Follows(server, p)
    requires !Follows(server, stop)
    ensures EndsAt(server, end) <==> end == stop
  {
    forall p | 0 < p < stop ensures Follows(server, p) {
      if p < last {
        NeverEarly(server, last, size, rest, total, p);
      }
    }
    assert EndsAt(server, stop);
    if EndsAt(server, end) {
      EndIsUnique(server, end, stop);
    }
  }

  /**
   Against a server that serves its last page again, the driver stops exactly where the page number times
   the short last page reaches the total.
   */
  lemma EndsServedAgain(server: Server, last: nat, size: nat, rest: nat, total: nat, end: nat)
    requires Honest(server, last, size, rest, total) && ServesAgain(server, last)
    ensures EndsAt(server, end) <==> end == Max(last, RoundedUp(total, rest))
  {
    var up := RoundedUp(total, rest);
    var stop := Max(last, up);
    forall p: nat | p >= last ensures Follows(server, p) <==> p * rest < total {
      assert server(p) == server(last);
    }
    forall p | last <= p < stop ensures Follows(server, p) {
      assert p < up;
      assert p * rest < total;
    }
    NoLess(up, stop, rest);
    EndsThere(server, last, size, rest, total, stop, end);
  }

  lemma NoLess(a: nat, b: nat, rest: nat)
    requires a <= b
    ensures a * rest <= b * rest
  {}

  lemma LastPageFallsShort(last: nat, size: nat, rest: nat)
    requires last > 0 && 0 < rest <= size
    ensures last * rest < (last - 1) * size + rest <==> last > 1 && rest < size
  {
    var full, short := last - 1, size - rest;
    assert last * rest == full * rest + rest;
    assert full * size == full * rest + full * short;
    if full == 0 || short == 0 {
      assert full * short == 0;
    } else {
      assert full * short > 0;
    }
  }

  /** Against a server that serves empty pages past its end, the driver stops there or one page later. */
  lemma EndsOnEmpty(server: Server, last: nat, size: nat, rest: nat, total: nat, end: nat)
    requires Honest(server, last, size, rest, total) && ServesNothing(server, last)
    ensures EndsAt(server, end) <==> end == if last == 1 || rest == size then last else last + 1
  {
    LastPageFallsShort(last, size, rest);
    assert RowCount(server(last + 1)) == 0;
    assert Follows(server, last) <==> last * rest < total;
    EndsThere(server, last, size, rest, total, if last == 1 || rest == size then last else last + 1, end);
  }
}
