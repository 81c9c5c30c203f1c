/** The paginated listings of an organization and the role audit export. */
module OrganizationPages {
  import opened Collections
  import opened CursorScopes
  import opened Pagination

  const EXPORT_LIMIT: nat := 10_000

  /** The scope of a cursor is a text. */
  datatype Cursor = Cursor(scope: string, after: Boundary)

  datatype Result<+T> = Ok(value: T) | InvalidCursor

  function OrderOf(scope: Scope): Order {
    if scope.MembersOf? then ById else NewestFirst
  }

  /** One request of a listing. The member listing accepts no boundary below 1. */
  function Request<D(!new)>(table: seq<Row<D>>, keep: Row<D> -> bool, iso: int -> string, scope: Scope, size: Option<real>,
                            cursor: Option<Cursor>): Result<Page<D>> {
    if cursor.Some? && (cursor.value.scope != ScopeText(iso, scope) || (scope.MembersOf? && cursor.value.after.id < 1)) then InvalidCursor
    else Ok(GetPage(table, keep, OrderOf(scope), NormalizePageSize(size), if cursor.Some? then Some(cursor.value.after) else None))
  }

  function NextCursor<D>(iso: int -> string, scope: Scope, page: Page<D>): Option<Cursor> {
    if page.next.Some? then Some(Cursor(ScopeText(iso, scope), page.next.value)) else None
  }

  lemma {:induction false} NextIsListed<D(!new)>(table: seq<Row<D>>, keep: Row<D> -> bool, order: Order, size: nat, cursor: Option<Boundary>)
    requires size > 0 && GetPage(table, keep, order, size, cursor).next.Some?
    ensures exists row :: row in table && GetPage(table, keep, order, size, cursor).next == Some(BoundaryOf(row))
  {
    var rows := Select(table, keep, order, cursor);
    assert Take(rows, size + 1)[size - 1] == rows[size - 1];
    assert rows[size - 1] in rows && rows[size - 1] in table;
  }

  /** The cursor of a page is accepted by the listing and the filters that handed it out, and by no
      other, although only texts are compared. */
  lemma {:induction false} CursorsAreBound<D(!new)>(table: seq<Row<D>>, keep: Row<D> -> bool, iso: int -> string, scope: Scope, size: Option<real>,
                                                    cursor: Option<Cursor>, size': Option<real>, table': seq<Row<D>>, keep': Row<D> -> bool, scope': Scope)
    requires DateTexts(iso) && Worded(scope) && Worded(scope')
    requires scope.MembersOf? ==> forall row :: row in table ==> row.id >= 1
    requires var page := Request(table, keep, iso, scope, size, cursor); page.Ok? && page.value.next.Some?
    ensures var next := NextCursor(iso, scope, Request(table, keep, iso, scope, size, cursor).value);
      Request(table', keep', iso, scope', size', next).Ok? <==> scope' == scope
  {
    ScopeTextIdentifies(iso, scope, scope');
    NextIsListed(table, keep, OrderOf(scope), NormalizePageSize(size), if cursor.Some? then Some(cursor.value.after) else None);
  }

  // ---------- Following the cursors of a listing ----------

  /** The pages that a client reads by sending each cursor back, until there is none. */
  ghost predicate FollowsCursors<D(!new)>(table: seq<Row<D>>, keep: Row<D> -> bool, iso: int -> string, scope: Scope, sizes: nat -> Option<real>,
                                          request: nat, cursor: Option<Cursor>, pages: seq<Page<D>>)
    decreases |pages|
  {
    && pages != []
    && Request(table, keep, iso, scope, sizes(request), cursor) == Ok(pages[0])
    && var next := NextCursor(iso, scope, pages[0]);
       if next.None? then |pages| == 1
       else FollowsCursors(table, keep, iso, scope, sizes, request + 1, next, pages[1..])
  }

  /** The member listing sorts ascending by id and the others newest first, with ties by descending id. */
  predicate Before<D(!new)>(scope: Scope, a: Row<D>, b: Row<D>) {
    if scope.MembersOf? then a.id < b.id else a.time > b.time || (a.time == b.time && a.id > b.id)
  }

  /** A client that follows the cursors reads every kept row exactly once and in the order of the listing. */
  ghost predicate ListsExactly<D(!new)>(table: seq<Row<D>>, keep: Row<D> -> bool, scope: Scope, listing: seq<Row<D>>) {
    && (forall row :: row in listing <==> row in table && keep(row))
    && (forall i, j :: 0 <= i < j < |listing| ==> Before(scope, listing[i], listing[j]))
  }

  /** The ids that the database hands out start at 1. */
  ghost predicate PositiveIds<D(!new)>(table: seq<Row<D>>) {
    forall row :: row in table ==> row.id >= 1
  }

  lemma {:induction false} RequestsFollow<D(!new)>(table: seq<Row<D>>, keep: Row<D> -> bool, iso: int -> string, scope: Scope,
                                                   sizes: nat -> Option<real>, request: nat, cursor: Option<Cursor>, pages: seq<Page<D>>)
    requires DistinctIds(table, keep) && PositiveIds(table)
    requires cursor.Some? ==> cursor.value.scope == ScopeText(iso, scope) && cursor.value.after.id >= 1
    ensures FollowsCursors(table, keep, iso, scope, sizes, request, cursor, pages)
      <==> pages == Follow(table, keep, OrderOf(scope), sizes, request, if cursor.Some? then Some(cursor.value.after) else None)
    decreases |pages|
  {
    var after := if cursor.Some? then Some(cursor.value.after) else None;
    var size := NormalizePageSize(sizes(request));
    var page := GetPage(table, keep, OrderOf(scope), size, after);
    assert Request(table, keep, iso, scope, sizes(request), cursor) == Ok(page);
    if page.next.Some? {
      NextIsListed(table, keep, OrderOf(scope), size, after);
      if pages != [] {
        RequestsFollow(table, keep, iso, scope, sizes, request + 1, NextCursor(iso, scope, page), pages[1..]);
      }
    }
    FirstPageFirst(page, Follow(table, keep, OrderOf(scope), sizes, request, after), pages);
  }

  lemma {:induction false} FirstPageFirst<D(!new)>(page: Page<D>, pages: seq<Page<D>>, others: seq<Page<D>>)
    requires pages != [] && pages[0] == page
    ensures others == pages <==> others != [] && others[0] == page && others[1..] == pages[1..]
  {
    if others != [] && others[0] == page && others[1..] == pages[1..] {
      assert others == [others[0]] + others[1..] && pages == [pages[0]] + pages[1..];
    }
  }

  /** There is exactly one such sequence of pages, and it lists exactly what the listing keeps. */
  lemma {:induction false} ListingIsExact<D(!new)>(table: seq<Row<D>>, keep: Row<D> -> bool, iso: int -> string, scope: Scope,
                                                   sizes: nat -> Option<real>) returns (pages: seq<Page<D>>)
    requires DistinctIds(table, keep) && PositiveIds(table)
    ensures forall other :: FollowsCursors(table, keep, iso, scope, sizes, 0, None, other) <==> other == pages
    ensures ListsExactly(table, keep, scope, Items(pages))
  {
    pages := Follow(table, keep, OrderOf(scope), sizes, 0, None);
    PagesListEverything(table, keep, OrderOf(scope), sizes);
    forall other
      ensures FollowsCursors(table, keep, iso, scope, sizes, 0, None, other) <==> other == pages
    {
      RequestsFollow(table, keep, iso, scope, sizes, 0, None, other);
    }
    var listing := Items(pages);
    assert forall i, j :: 0 <= i < j < |listing| ==> Precedes(OrderOf(scope), listing[i], listing[j]);
  }

  // ---------- The organizations of a user ----------

  datatype Membership = Membership(organizationId: int, userId: int)

  datatype Joined = Joined(userId: int, active: bool)

  /** The organizations table: last update and whether the organization is active. */
  datatype Organization = Organization(updatedAt: int, active: bool)

  function InnerJoin(members: seq<Membership>, organizations: map<int, Organization>): (r: seq<Row<Joined>>)
    ensures forall row :: row in r <==>
      && Membership(row.id, row.data.userId) in members && row.id in organizations
      && row.time == organizations[row.id].updatedAt && row.data.active == organizations[row.id].active
  {
    if members == [] then []
    else
      var n := |members| - 1;
      var m, front := members[n], InnerJoin(members[..n], organizations);
      if m.organizationId in organizations then
        var o := organizations[m.organizationId];
        front + [Row(m.organizationId, o.updatedAt, Joined(m.userId, o.active))]
      else front
  }

  function ActiveFor(userId: int): Row<Joined> -> bool {
    (r: Row<Joined>) => r.data.userId == userId && r.data.active
  }

  /** The unique index over organization and user. */
  predicate UniqueMemberships(members: seq<Membership>) {
    forall i, j :: 0 <= i < j < |members| ==> members[i] != members[j]
  }

  /** A user has one joined row per organization, so the listing is a keyset listing. */
  lemma {:induction false} JoinedIdsAreDistinct(members: seq<Membership>, organizations: map<int, Organization>, userId: int)
    requires UniqueMemberships(members)
    ensures DistinctIds(InnerJoin(members, organizations), ActiveFor(userId))
  {
    if members != [] {
      var n := |members| - 1;
      var front, joined := InnerJoin(members[..n], organizations), InnerJoin(members, organizations);
      JoinedIdsAreDistinct(members[..n], organizations, userId);
      forall i, j | 0 <= i < j < |joined| && ActiveFor(userId)(joined[i]) && ActiveFor(userId)(joined[j])
        ensures joined[i].id != joined[j].id
      {
        if j == |front| {
          assert joined[i] == front[i] && front[i] in front;
          var k :| 0 <= k < n && members[..n][k] == Membership(front[i].id, userId);
          assert members[k] != members[n];
        } else {
          assert joined[i] == front[i] && joined[j] == front[j];
        }
      }
    }
  }

  /** A client that follows the cursors reads an organization if and only if the user is a member of it and
      it is active; each once, by last update and then id, both descending. */
  lemma {:induction false} OrganizationsAreListed(members: seq<Membership>, organizations: map<int, Organization>, userId: int, iso: int -> string,
                                                  sizes: nat -> Option<real>) returns (pages: seq<Page<Joined>>)
    requires UniqueMemberships(members) && forall id :: id in organizations ==> id >= 1
    ensures forall other ::
      FollowsCursors(InnerJoin(members, organizations), ActiveFor(userId), iso, OrganizationsOf(userId), sizes, 0, None, other) <==> other == pages
    ensures forall row :: row in Items(pages) ==> row.id in organizations
    ensures forall id ::
      (exists row :: row in Items(pages) && row.id == id) <==> Membership(id, userId) in members && id in organizations && organizations[id].active
    ensures var listing := Items(pages);
      forall i, j :: 0 <= i < j < |listing| ==>
        var a, b := listing[i].id, listing[j].id;
        organizations[a].updatedAt > organizations[b].updatedAt || (organizations[a].updatedAt == organizations[b].updatedAt && a > b)
  {
    var table := InnerJoin(members, organizations);
    JoinedIdsAreDistinct(members, organizations, userId);
    pages := ListingIsExact(table, ActiveFor(userId), iso, OrganizationsOf(userId), sizes);
    var listing := Items(pages);
    forall id | Membership(id, userId) in members && id in organizations && organizations[id].active
      ensures exists row :: row in listing && row.id == id
    {
      assert Row(id, organizations[id].updatedAt, Joined(userId, true)) in listing;
    }
    forall i, j | 0 <= i < j < |listing|
      ensures var a, b := listing[i].id, listing[j].id;
        organizations[a].updatedAt > organizations[b].updatedAt || (organizations[a].updatedAt == organizations[b].updatedAt && a > b)
    {
      assert listing[i] in listing && listing[j] in listing;
      assert Before(OrganizationsOf(userId), listing[i], listing[j]);
    }
  }

  // ---------- The members and the programs of an organization ----------

  /** A member or program row; members are all listed, whatever their role is. */
  datatype Owned = Owned(organizationId: int, status: string)

  function OwnedBy(organizationId: int, status: Option<string>): Row<Owned> -> bool {
    (r: Row<Owned>) => r.data.organizationId == organizationId && (status.None? || status.value == "" || r.data.status == status.value)
  }

  /** The id column is unique. */
  predicate UniqueIds<D(!new)>(table: seq<Row<D>>) {
    forall i, j :: 0 <= i < j < |table| ==> table[i].id != table[j].id
  }

  lemma {:induction false} MembersAreListed(table: seq<Row<Owned>>, organizationId: int, iso: int -> string, sizes: nat -> Option<real>)
    returns (pages: seq<Page<Owned>>)
    requires UniqueIds(table) && PositiveIds(table)
    ensures forall other ::
      FollowsCursors(table, OwnedBy(organizationId, None), iso, MembersOf(organizationId), sizes, 0, None, other) <==> other == pages
    ensures forall row :: row in Items(pages) <==> row in table && row.data.organizationId == organizationId
    ensures var listing := Items(pages); forall i, j :: 0 <= i < j < |listing| ==> listing[i].id < listing[j].id
  {
    pages := ListingIsExact(table, OwnedBy(organizationId, None), iso, MembersOf(organizationId), sizes);
    var listing := Items(pages);
    assert forall i, j :: 0 <= i < j < |listing| ==> Before(MembersOf(organizationId), listing[i], listing[j]);
  }

  lemma {:induction false} ProgramsAreListed(table: seq<Row<Owned>>, organizationId: int, status: Option<string>, iso: int -> string,
                                             sizes: nat -> Option<real>) returns (pages: seq<Page<Owned>>)
    requires UniqueIds(table) && PositiveIds(table)
    ensures forall other ::
      FollowsCursors(table, OwnedBy(organizationId, status), iso, ProgramsOf(organizationId, status), sizes, 0, None, other) <==> other == pages
    ensures forall row :: row in Items(pages) <==>
      row in table && row.data.organizationId == organizationId && (status in {None, Some("")} || status == Some(row.data.status))
    ensures var listing := Items(pages);
      forall i, j :: 0 <= i < j < |listing| ==>
        listing[i].time > listing[j].time || (listing[i].time == listing[j].time && listing[i].id > listing[j].id)
  {
    pages := ListingIsExact(table, OwnedBy(organizationId, status), iso, ProgramsOf(organizationId, status), sizes);
    var listing := Items(pages);
    assert forall i, j :: 0 <= i < j < |listing| ==> Before(ProgramsOf(organizationId, status), listing[i], listing[j]);
  }

  // ---------- The role audit ----------

  datatype Details = Details(memberId: int, memberUserId: int, previousRole: string, nextRole: string)

  datatype AuditEvent = AuditEvent(organizationId: int, actor: int, subject: string, details: string)

  /** The part of the filters that the query applies. */
  function Queried(organizationId: int, f: Filters): Row<AuditEvent> -> bool {
    (r: Row<AuditEvent>) =>
      && r.data.organizationId == organizationId && r.data.subject == "member-role-changed"
      && (f.actor.None? || f.actor.value == 0 || r.data.actor == f.actor.value)
      && (f.from.None? || r.time > f.from.value)
      && (f.to.None? || r.time < f.to.value)
  }

  /** The part that is applied to the rows read: details that do not parse are dropped. */
  predicate Shown(parse: string -> Option<Details>, f: Filters, r: Row<AuditEvent>) {
    var details := parse(r.data.details);
    && details.Some?
    && (f.member.None? || f.member.value == 0 || details.value.memberUserId == f.member.value)
    && (f.role.None? || f.role.value == "" || details.value.nextRole == f.role.value)
  }

  function ShownOf(parse: string -> Option<Details>, f: Filters, rows: seq<Row<AuditEvent>>): seq<Row<AuditEvent>> {
    if rows == [] then []
    else
      var n := |rows| - 1;
      var front := ShownOf(parse, f, rows[..n]);
      if Shown(parse, f, rows[n]) then front + [rows[n]] else front
  }

  /** The concatenation of the items of the audit pages. */
  function AuditItems(parse: string -> Option<Details>, f: Filters, pages: seq<Page<AuditEvent>>): seq<Row<AuditEvent>> {
    if pages == [] then [] else ShownOf(parse, f, pages[0].items) + AuditItems(parse, f, pages[1..])
  }

  function Exported(table: seq<Row<AuditEvent>>, parse: string -> Option<Details>, organizationId: int, f: Filters): seq<Row<AuditEvent>> {
    ShownOf(parse, f, Take(Select(table, Queried(organizationId, f), NewestFirst, None), EXPORT_LIMIT))
  }

  lemma {:induction false} ShownOfJoin(parse: string -> Option<Details>, f: Filters, a: seq<Row<AuditEvent>>, b: seq<Row<AuditEvent>>)
    ensures ShownOf(parse, f, a + b) == ShownOf(parse, f, a) + ShownOf(parse, f, b)
  {
    if b == [] {
      assert a + b == a;
    } else {
      var n := |b| - 1;
      ShownOfJoin(parse, f, a, b[..n]);
      assert (a + b)[..|a| + n] == a + b[..n] && (a + b)[|a| + n] == b[n];
    }
  }

  lemma {:induction false} AuditItemsAreShown(parse: string -> Option<Details>, f: Filters, pages: seq<Page<AuditEvent>>)
    ensures AuditItems(parse, f, pages) == ShownOf(parse, f, Items(pages))
  {
    if pages != [] {
      AuditItemsAreShown(parse, f, pages[1..]);
      ShownOfJoin(parse, f, pages[0].items, Items(pages[1..]));
    }
  }

  lemma {:induction false} NothingShown(parse: string -> Option<Details>, f: Filters, rows: seq<Row<AuditEvent>>)
    ensures ShownOf(parse, f, rows) == [] <==> forall i :: 0 <= i < |rows| ==> !Shown(parse, f, rows[i])
  {
    if rows != [] {
      NothingShown(parse, f, rows[..|rows| - 1]);
    }
  }

  /** Showing only the first `n` rows loses exactly the shown rows behind them. */
  lemma {:induction false} ShownOfFront(parse: string -> Option<Details>, f: Filters, rows: seq<Row<AuditEvent>>, n: nat)
    ensures ShownOf(parse, f, Take(rows, n)) <= ShownOf(parse, f, rows)
    ensures ShownOf(parse, f, Take(rows, n)) == ShownOf(parse, f, rows) <==> forall i :: n <= i < |rows| ==> !Shown(parse, f, rows[i])
  {
    if |rows| > n {
      var behind := rows[n..];
      assert rows == rows[..n] + behind;
      ShownOfJoin(parse, f, rows[..n], behind);
      NothingShown(parse, f, behind);
      assert forall i :: 0 <= i < |behind| ==> behind[i] == rows[n + i];
      forall i | n <= i < |rows|
        ensures rows[i] == behind[i - n]
      {
      }
    }
  }

  /** The audit pages together begin with exactly what the export selects. They are equal if and only
      if no row behind the first 10,000 queried rows would be shown. */
  lemma {:induction false} AuditPagesMatchExport(table: seq<Row<AuditEvent>>, parse: string -> Option<Details>, organizationId: int, f: Filters,
                              sizes: nat -> Option<real>)
    requires DistinctIds(table, Queried(organizationId, f))
    ensures var rows := Select(table, Queried(organizationId, f), NewestFirst, None);
      var listed := AuditItems(parse, f, Follow(table, Queried(organizationId, f), NewestFirst, sizes, 0, None));
      && Exported(table, parse, organizationId, f) <= listed
      && (Exported(table, parse, organizationId, f) == listed
          <==> forall i :: EXPORT_LIMIT <= i < |rows| ==> !Shown(parse, f, rows[i]))
  {
    FollowedFrom(table, Queried(organizationId, f), NewestFirst, sizes, 0, None);
    AuditItemsAreShown(parse, f, Follow(table, Queried(organizationId, f), NewestFirst, sizes, 0, None));
    ShownOfFront(parse, f, Select(table, Queried(organizationId, f), NewestFirst, None), EXPORT_LIMIT);
  }

  lemma {:induction false} QueriedIff(organizationId: int, f: Filters, row: Row<AuditEvent>)
    ensures Queried(organizationId, f)(row) <==>
      && row.data.organizationId == organizationId && row.data.subject == "member-role-changed"
      && f.actor in {None, Some(0), Some(row.data.actor)}
      && (f.from.Some? ==> row.time > f.from.value) && (f.to.Some? ==> row.time < f.to.value)
  {
  }

  lemma {:induction false} NewestComeFirst<D(!new)>(table: seq<Row<D>>, keep: Row<D> -> bool, scope: Scope, listing: seq<Row<D>>)
    requires ListsExactly(table, keep, scope, listing) && !scope.MembersOf?
    ensures forall i, j :: 0 <= i < j < |listing| ==>
      listing[i].time > listing[j].time || (listing[i].time == listing[j].time && listing[i].id > listing[j].id)
  {
    assert forall i, j :: 0 <= i < j < |listing| ==> Before(scope, listing[i], listing[j]);
  }

  /** A client that follows the cursors of the audit has every role change of the organization read that
      matches the actor and the times, newest first; these are also the rows that the export queries. */
  lemma {:induction false} QueriedRows(table: seq<Row<AuditEvent>>, organizationId: int, f: Filters, iso: int -> string, sizes: nat -> Option<real>)
    returns (pages: seq<Page<AuditEvent>>)
    requires UniqueIds(table) && PositiveIds(table)
    ensures forall other ::
      FollowsCursors(table, Queried(organizationId, f), iso, RoleAuditOf(organizationId, f), sizes, 0, None, other) <==> other == pages
    ensures Items(pages) == Select(table, Queried(organizationId, f), NewestFirst, None)
    ensures forall row :: row in Items(pages) <==>
      && row in table && row.data.organizationId == organizationId && row.data.subject == "member-role-changed"
      && f.actor in {None, Some(0), Some(row.data.actor)}
      && (f.from.Some? ==> row.time > f.from.value) && (f.to.Some? ==> row.time < f.to.value)
    ensures var listing := Items(pages);
      forall i, j :: 0 <= i < j < |listing| ==>
        listing[i].time > listing[j].time || (listing[i].time == listing[j].time && listing[i].id > listing[j].id)
  {
    pages := AuditListing(table, organizationId, f, iso, sizes);
    NewestComeFirst(table, Queried(organizationId, f), RoleAuditOf(organizationId, f), Items(pages));
    forall row
      ensures row in Items(pages) <==> row in table && Queried(organizationId, f)(row)
    {
    }
    forall row: Row<AuditEvent> {
      QueriedIff(organizationId, f, row);
    }
  }

  lemma {:induction false} AuditListing(table: seq<Row<AuditEvent>>, organizationId: int, f: Filters, iso: int -> string, sizes: nat -> Option<real>)
    returns (pages: seq<Page<AuditEvent>>)
    requires UniqueIds(table) && PositiveIds(table)
    ensures forall other ::
      FollowsCursors(table, Queried(organizationId, f), iso, RoleAuditOf(organizationId, f), sizes, 0, None, other) <==> other == pages
    ensures Items(pages) == Select(table, Queried(organizationId, f), NewestFirst, None)
    ensures ListsExactly(table, Queried(organizationId, f), RoleAuditOf(organizationId, f), Items(pages))
  {
    pages := ListingIsExact(table, Queried(organizationId, f), iso, RoleAuditOf(organizationId, f), sizes);
    RequestsFollow(table, Queried(organizationId, f), iso, RoleAuditOf(organizationId, f), sizes, 0, None, pages);
    FollowedFrom(table, Queried(organizationId, f), NewestFirst, sizes, 0, None);
  }

  /** A row is shown if its details parse and match; zero and the empty text match everything. */
  lemma {:induction false} ShownIff(parse: string -> Option<Details>, f: Filters, row: Row<AuditEvent>)
    ensures Shown(parse, f, row) <==>
      && parse(row.data.details).Some?
      && f.member in {None, Some(0), Some(parse(row.data.details).value.memberUserId)}
      && f.role in {None, Some(""), Some(parse(row.data.details).value.nextRole)}
  {
  }

  /** An audit page shows exactly those of the rows it read. */
  lemma {:induction false} ShownRows(parse: string -> Option<Details>, f: Filters, rows: seq<Row<AuditEvent>>, row: Row<AuditEvent>)
    ensures row in ShownOf(parse, f, rows) <==> row in rows && Shown(parse, f, row)
  {
    if rows != [] {
      var n := |rows| - 1;
      var front := ShownOf(parse, f, rows[..n]);
      ShownRows(parse, f, rows[..n], row);
      InFrontOrLast(rows, row);
      InFrontOrLast(front + [rows[n]], row);
      assert (front + [rows[n]])[..|front|] == front;
    }
  }

  lemma {:induction false} InFrontOrLast<T>(s: seq<T>, x: T)
    requires s != []
    ensures x in s <==> x in s[..|s| - 1] || x == s[|s| - 1]
  {
    assert s == s[..|s| - 1] + [s[|s| - 1]];
  }

  lemma {:induction false} ShownAreRows(parse: string -> Option<Details>, f: Filters, rows: seq<Row<AuditEvent>>)
    ensures forall row :: row in ShownOf(parse, f, rows) ==> row in rows
  {
    forall row | row in ShownOf(parse, f, rows)
      ensures row in rows
    {
      ShownRows(parse, f, rows, row);
    }
  }

  /** And in the same order. */
  lemma {:induction false} ShownKeepsOrder(parse: string -> Option<Details>, f: Filters, rows: seq<Row<AuditEvent>>)
    requires Listed(NewestFirst, rows)
    ensures Listed(NewestFirst, ShownOf(parse, f, rows))
  {
    if rows != [] {
      var n := |rows| - 1;
      ShownKeepsOrder(parse, f, rows[..n]);
      ShownAreRows(parse, f, rows[..n]);
      forall row | row in rows[..n]
        ensures Precedes(NewestFirst, row, rows[n])
      {
        var i :| 0 <= i < n && rows[..n][i] == row;
        assert rows[i] == row;
      }
    }
  }
}
