/** Keyset pagination over a table that does not change while its pages are read. */
module Pagination {
  import opened Collections
  import opened Sorting

  const DEFAULT_PAGE_SIZE: nat := 50
  const MAX_PAGE_SIZE: nat := 100

  /** `time` is the timestamp that the listing sorts by. */
  datatype Row<+D> = Row(id: int, time: int, data: D)

  /** Newest first with ties broken by descending id, or ascending by id. */
  datatype Order = NewestFirst | ById

  datatype Boundary = Boundary(time: int, id: int)

  datatype Page<+D> = Page(items: seq<Row<D>>, next: Option<Boundary>)

  /** The requested size, absent for a missing or non-finite number. */
  function NormalizePageSize(requested: Option<real>): (size: nat)
    ensures 1 <= size <= MAX_PAGE_SIZE
    ensures requested.None? ==> size == 50
    ensures requested.Some? && 1.0 <= requested.value < 101.0 ==> size as real <= requested.value < (size + 1) as real
    ensures requested.Some? && requested.value < 1.0 ==> size == 1
    ensures requested.Some? && requested.value >= 101.0 ==> size == 100
  {
    match requested
    case None => DEFAULT_PAGE_SIZE
    case Some(r) => if r.Floor < 1 then 1 else if r.Floor > MAX_PAGE_SIZE then MAX_PAGE_SIZE else r.Floor
  }

  predicate After<D(!new)>(order: Order, b: Boundary, r: Row<D>) {
    match order
    case NewestFirst => r.time < b.time || (r.time == b.time && r.id < b.id)
    case ById => r.id > b.id
  }

  function BoundaryOf<D(!new)>(r: Row<D>): Boundary {
    Boundary(r.time, r.id)
  }

  predicate Precedes<D(!new)>(order: Order, a: Row<D>, b: Row<D>) {
    After(order, BoundaryOf(a), b)
  }

  predicate Matches<D(!new)>(keep: Row<D> -> bool, order: Order, cursor: Option<Boundary>, r: Row<D>) {
    keep(r) && (cursor.None? || After(order, cursor.value, r))
  }

  function Precedence<D(!new)>(order: Order): (Row<D>, Row<D>) -> bool {
    (a: Row<D>, b: Row<D>) => Precedes(order, a, b)
  }

  /** The rows of the table that match, in listing order. */
  function Select<D(!new)>(table: seq<Row<D>>, keep: Row<D> -> bool, order: Order, cursor: Option<Boundary>): (rows: seq<Row<D>>)
    ensures forall x :: x in rows <==> x in table && Matches(keep, order, cursor, x)
  {
    if table == [] then []
    else
      var rest := Select(table[1..], keep, order, cursor);
      if Matches(keep, order, cursor, table[0]) then InsertBy(Precedence(order), table[0], rest) else rest
  }

  /** One request: one row more than the page is read to see whether there is a next page. */
  function GetPage<D(!new)>(table: seq<Row<D>>, keep: Row<D> -> bool, order: Order, size: nat, cursor: Option<Boundary>): Page<D>
    requires size > 0
  {
    var rows := Take(Select(table, keep, order, cursor), size + 1);
    Page(Take(rows, size), if |rows| > size then Some(BoundaryOf(rows[size - 1])) else None)
  }

  // ---------- The listing is the one sorted list of the matching rows ----------

  /** The rows that a listing keeps have distinct ids. */
  predicate DistinctIds<D(!new)>(table: seq<Row<D>>, keep: Row<D> -> bool) {
    forall i, j :: 0 <= i < j < |table| && keep(table[i]) && keep(table[j]) ==> table[i].id != table[j].id
  }

  predicate Listed<D(!new)>(order: Order, rows: seq<Row<D>>) {
    forall i, j :: 0 <= i < j < |rows| ==> Precedes(order, rows[i], rows[j])
  }

  lemma {:induction false} PrecedenceIsOrder<D(!new)>(order: Order, rows: seq<Row<D>>)
    ensures Transitive(Precedence<D>(order)) && Asymmetric(Precedence<D>(order))
    ensures Listed(order, rows) <==> StrictlyOrdered(Precedence(order), rows)
  {
    var before := Precedence<D>(order);
    assert forall a, b :: before(a, b) == Precedes(order, a, b);
  }

  lemma {:induction false} SelectListed<D(!new)>(table: seq<Row<D>>, keep: Row<D> -> bool, order: Order, cursor: Option<Boundary>)
    requires DistinctIds(table, keep)
    ensures Listed(order, Select(table, keep, order, cursor))
  {
    if table != [] {
      var rest := Select(table[1..], keep, order, cursor);
      SelectListed(table[1..], keep, order, cursor);
      if Matches(keep, order, cursor, table[0]) {
        forall x | x in rest
          ensures Precedes(order, x, table[0]) || Precedes(order, table[0], x)
        {
          var k :| 0 <= k < |table[1..]| && table[1..][k] == x;
          assert x == table[k + 1];
        }
        PrecedenceIsOrder(order, rest);
        InsertIsStrict(Precedence(order), table[0], rest);
        PrecedenceIsOrder(order, InsertBy(Precedence(order), table[0], rest));
      }
    }
  }

  /** Selecting behind the cursor of a listed row gives the rest of the listing. */
  lemma {:induction false} SelectBehind<D(!new)>(table: seq<Row<D>>, keep: Row<D> -> bool, order: Order, cursor: Option<Boundary>, i: nat)
    requires DistinctIds(table, keep) && i < |Select(table, keep, order, cursor)|
    ensures var rows := Select(table, keep, order, cursor);
      Select(table, keep, order, Some(BoundaryOf(rows[i]))) == rows[i + 1..]
  {
    var rows := Select(table, keep, order, cursor);
    var behind := Select(table, keep, order, Some(BoundaryOf(rows[i])));
    SelectListed(table, keep, order, cursor);
    SelectListed(table, keep, order, Some(BoundaryOf(rows[i])));
    assert rows[i] in rows;
    forall x | x in behind
      ensures x in rows[i + 1..]
    {
      assert Precedes(order, rows[i], x) && x in rows;
      var k :| 0 <= k < |rows| && rows[k] == x;
      assert k > i;
      assert rows[i + 1..][k - i - 1] == x;
    }
    forall x | x in rows[i + 1..]
      ensures x in behind
    {
      var k :| 0 <= k < |rows[i + 1..]| && rows[i + 1..][k] == x;
      assert rows[i + 1 + k] == x && x in rows && Precedes(order, rows[i], rows[i + 1 + k]);
    }
    PrecedenceIsOrder(order, behind);
    PrecedenceIsOrder(order, rows[i + 1..]);
    StrictIsUnique(Precedence(order), behind, rows[i + 1..]);
  }

  // ---------- Following the cursors ----------

  /** A page is the front of what is behind its cursor, and its next cursor is before the rest. */
  lemma {:induction false} PageSplits<D(!new)>(table: seq<Row<D>>, keep: Row<D> -> bool, order: Order, size: nat, cursor: Option<Boundary>)
    requires DistinctIds(table, keep) && size > 0
    ensures var page, rows := GetPage(table, keep, order, size, cursor), Select(table, keep, order, cursor);
      if page.next.None? then page.items == rows
      else |page.items| == size && rows == page.items + Select(table, keep, order, page.next)
  {
    var rows := Select(table, keep, order, cursor);
    if |rows| > size {
      var read := Take(rows, size + 1);
      assert read[size - 1] == rows[size - 1] && Take(read, size) == rows[..size];
      SelectBehind(table, keep, order, cursor, size - 1);
      assert rows == rows[..size] + rows[size..];
    }
  }

  /** Reads pages until there is no next cursor. The requests may ask for different page sizes. */
  function Follow<D(!new)>(table: seq<Row<D>>, keep: Row<D> -> bool, order: Order, sizes: nat -> Option<real>, request: nat,
                           cursor: Option<Boundary>): seq<Page<D>>
    requires DistinctIds(table, keep)
    decreases |Select(table, keep, order, cursor)|
  {
    var page := GetPage(table, keep, order, NormalizePageSize(sizes(request)), cursor);
    PageSplits(table, keep, order, NormalizePageSize(sizes(request)), cursor);
    if page.next.None? then [page] else [page] + Follow(table, keep, order, sizes, request + 1, page.next)
  }

  function Items<D>(pages: seq<Page<D>>): seq<Row<D>> {
    if pages == [] then [] else pages[0].items + Items(pages[1..])
  }

  lemma {:induction false} ItemsOfFirst<D>(page: Page<D>, more: seq<Page<D>>)
    ensures Items([page] + more) == page.items + Items(more)
    ensures Items([page]) == page.items
  {
    assert ([page] + more)[1..] == more;
    assert [page][1..] == [];
  }

  lemma {:induction false} FollowedFrom<D(!new)>(table: seq<Row<D>>, keep: Row<D> -> bool, order: Order,
                                                 sizes: nat -> Option<real>, request: nat, cursor: Option<Boundary>)
    requires DistinctIds(table, keep)
    ensures Items(Follow(table, keep, order, sizes, request, cursor)) == Select(table, keep, order, cursor)
    decreases |Select(table, keep, order, cursor)|
  {
    var page := GetPage(table, keep, order, NormalizePageSize(sizes(request)), cursor);
    PageSplits(table, keep, order, NormalizePageSize(sizes(request)), cursor);
    if page.next.None? {
      ItemsOfFirst(page, []);
    } else {
      FollowedFrom(table, keep, order, sizes, request + 1, page.next);
      ItemsOfFirst(page, Follow(table, keep, order, sizes, request + 1, page.next));
    }
  }

  /** Following the cursors lists every matching row exactly once and in order, whatever page sizes
      are asked for. */
  lemma {:induction false} PagesListEverything<D(!new)>(table: seq<Row<D>>, keep: Row<D> -> bool, order: Order, sizes: nat -> Option<real>)
    requires DistinctIds(table, keep)
    ensures var listing := Items(Follow(table, keep, order, sizes, 0, None));
      && (forall x :: x in listing <==> x in table && keep(x))
      && Listed(order, listing)
  {
    FollowedFrom(table, keep, order, sizes, 0, None);
    SelectListed(table, keep, order, None);
  }

  /** Every page but the last has the size asked for and a next cursor; the last has none. */
  predicate FullPages<D>(pages: seq<Page<D>>, sizes: nat -> Option<real>, request: nat) {
    if pages == [] then false
    else if |pages| == 1 then pages[0].next.None?
    else
      && pages[0].next.Some? && |pages[0].items| == NormalizePageSize(sizes(request))
      && FullPages(pages[1..], sizes, request + 1)
  }

  lemma {:induction false} FullPagesCons<D>(page: Page<D>, more: seq<Page<D>>, sizes: nat -> Option<real>, request: nat)
    requires page.next.Some? && |page.items| == NormalizePageSize(sizes(request)) && FullPages(more, sizes, request + 1)
    ensures FullPages([page] + more, sizes, request)
  {
    assert ([page] + more)[1..] == more;
  }

  lemma {:induction false} FullPagesIff<D>(pages: seq<Page<D>>, sizes: nat -> Option<real>, request: nat)
    ensures FullPages(pages, sizes, request) <==>
      && pages != [] && pages[|pages| - 1].next.None?
      && forall k :: 0 <= k < |pages| - 1 ==> pages[k].next.Some? && |pages[k].items| == NormalizePageSize(sizes(request + k))
  {
    if |pages| > 1 {
      FullPagesIff(pages[1..], sizes, request + 1);
      assert forall k :: 0 < k < |pages| ==> pages[k] == pages[1..][k - 1];
      if FullPages(pages, sizes, request) {
        forall k | 0 <= k < |pages| - 1
          ensures pages[k].next.Some? && |pages[k].items| == NormalizePageSize(sizes(request + k))
        {
          assert k > 0 ==> pages[k] == pages[1..][k - 1] && request + k == request + 1 + (k - 1);
        }
      }
      if forall k :: 0 <= k < |pages| - 1 ==> pages[k].next.Some? && |pages[k].items| == NormalizePageSize(sizes(request + k)) {
        forall k | 0 <= k < |pages[1..]| - 1
          ensures pages[1..][k].next.Some? && |pages[1..][k].items| == NormalizePageSize(sizes(request + 1 + k))
        {
          assert pages[1..][k] == pages[k + 1] && request + (k + 1) == request + 1 + k;
        }
      }
    }
  }

  lemma {:induction false} FollowedPagesAreFull<D(!new)>(table: seq<Row<D>>, keep: Row<D> -> bool, order: Order, sizes: nat -> Option<real>,
                                                         request: nat, cursor: Option<Boundary>)
    requires DistinctIds(table, keep)
    ensures FullPages(Follow(table, keep, order, sizes, request, cursor), sizes, request)
    decreases |Select(table, keep, order, cursor)|
  {
    var page := GetPage(table, keep, order, NormalizePageSize(sizes(request)), cursor);
    PageSplits(table, keep, order, NormalizePageSize(sizes(request)), cursor);
    if page.next.Some? {
      FollowedPagesAreFull(table, keep, order, sizes, request + 1, page.next);
      FullPagesCons(page, Follow(table, keep, order, sizes, request + 1, page.next), sizes, request);
    }
  }

  lemma {:induction false} PagesAreFull<D(!new)>(table: seq<Row<D>>, keep: Row<D> -> bool, order: Order, sizes: nat -> Option<real>,
                                                 request: nat, cursor: Option<Boundary>)
    requires DistinctIds(table, keep)
    ensures var pages := Follow(table, keep, order, sizes, request, cursor);
      && pages != [] && pages[|pages| - 1].next.None?
      && forall k :: 0 <= k < |pages| - 1 ==> pages[k].next.Some? && |pages[k].items| == NormalizePageSize(sizes(request + k))
  {
    FollowedPagesAreFull(table, keep, order, sizes, request, cursor);
    FullPagesIff(Follow(table, keep, order, sizes, request, cursor), sizes, request);
  }
}
