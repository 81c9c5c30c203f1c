/** The scope texts that bind a pagination cursor to a listing and its filters. */
module CursorScopes {
  import opened Collections
  import opened Decimals

  /** Filters as they arrive: zero and the empty string filter nothing. */
  datatype Filters = Filters(actor: Option<int>, member: Option<int>, role: Option<string>, from: Option<int>, to: Option<int>)

  /** What a cursor is bound to: the listing and its filters. */
  datatype Scope =
    | OrganizationsOf(userId: int)
    | MembersOf(organizationId: int)
    | ProgramsOf(organizationId: int, status: Option<string>)
    | RoleAuditOf(organizationId: int, filters: Filters)

  // ---------- The texts ----------

  function OrStar<T>(value: Option<T>, text: T -> string): string {
    if value.None? then "*" else text(value.value)
  }

  /** `iso` is the text of a date. */
  function FiltersText(iso: int -> string, f: Filters): string {
    OrStar(f.actor, Decimal) + ":" + OrStar(f.member, Decimal) + ":" + OrStar(f.role, (w: string) => w) + ":"
    + OrStar(f.from, iso) + ":" + OrStar(f.to, iso)
  }

  function Kind(scope: Scope): string {
    if scope.OrganizationsOf? then "user" else "organization"
  }

  function IdOf(scope: Scope): int {
    if scope.OrganizationsOf? then scope.userId else scope.organizationId
  }

  function Listing(iso: int -> string, scope: Scope): string {
    match scope
    case OrganizationsOf(_) => "organizations"
    case MembersOf(_) => "members"
    case ProgramsOf(_, status) => "programs:" + OrStar(status, (w: string) => w)
    case RoleAuditOf(_, f) => "role-audit:" + FiltersText(iso, f)
  }

  function ScopeText(iso: int -> string, scope: Scope): string {
    Kind(scope) + ":" + Decimal(IdOf(scope)) + ":" + Listing(iso, scope)
  }

  /** The texts in full. */
  lemma {:induction false} ScopeTexts(iso: int -> string, id: int, status: Option<string>, f: Filters)
    ensures ScopeText(iso, OrganizationsOf(id)) == "user" + ":" + Decimal(id) + ":" + "organizations"
    ensures ScopeText(iso, MembersOf(id)) == "organization" + ":" + Decimal(id) + ":" + "members"
    ensures ScopeText(iso, ProgramsOf(id, status)) == "organization" + ":" + Decimal(id) + ":" + ("programs:" + if status.None? then "*" else status.value)
    ensures ScopeText(iso, RoleAuditOf(id, f)) == "organization" + ":" + Decimal(id) + ":" + ("role-audit:" + FiltersText(iso, f))
    ensures FiltersText(iso, f)
      == (if f.actor.None? then "*" else Decimal(f.actor.value)) + ":" + (if f.member.None? then "*" else Decimal(f.member.value)) + ":"
         + (if f.role.None? then "*" else f.role.value) + ":"
         + (if f.from.None? then "*" else iso(f.from.value)) + ":" + if f.to.None? then "*" else iso(f.to.value)
  {
  }

  /** A text that ends at its only Z and contains no star. */
  predicate IsDateText(text: string) {
    text != "" && text[|text| - 1] == 'Z' && 'Z' !in text[..|text| - 1] && '*' !in text
  }

  /** Every date has such a text of its own; colons may occur in it. */
  ghost predicate DateTexts(iso: int -> string) {
    && (forall t :: IsDateText(iso(t)))
    && (forall t, u :: iso(t) == iso(u) ==> t == u)
  }

  predicate IsWord(w: Option<string>) {
    w.Some? ==> ':' !in w.value && w.value != "*"
  }

  /** Roles and statuses are words, as the schema's enumerations are. */
  predicate Worded(scope: Scope) {
    match scope
    case ProgramsOf(_, status) => IsWord(status)
    case RoleAuditOf(_, f) => IsWord(f.role)
    case _ => true
  }

  // ---------- A text belongs to one scope ----------

  lemma {:induction false} FieldEnds(a: string, separator: char, x: string)
    requires separator !in a
    ensures var s := a + [separator] + x;
      |a| < |s| && s[|a|] == separator && s[..|a|] == a && s[|a| + 1..] == x && forall i :: 0 <= i < |a| ==> s[i] != separator
  {
    var s := a + [separator] + x;
    forall i | 0 <= i < |a|
      ensures s[i] != separator
    {
      assert s[i] == a[i] && a[i] in a;
    }
  }

  /** What stands before the first separator can be told from what follows. */
  lemma {:induction false} FieldsApart(a: string, x: string, b: string, y: string, separator: char)
    requires a + [separator] + x == b + [separator] + y && separator !in a && separator !in b
    ensures a == b && x == y
  {
    FieldEnds(a, separator, x);
    FieldEnds(b, separator, y);
    assert |a| == |b|;
  }

  lemma {:induction false} PrefixApart(prefix: string, x: string, y: string)
    requires prefix + x == prefix + y
    ensures x == y
  {
    assert x == (prefix + x)[|prefix|..] && y == (prefix + y)[|prefix|..];
  }

  lemma {:induction false} NoStar(text: string)
    requires '*' !in text
    ensures text != "*"
  {
    assert "*"[0] == '*';
  }

  lemma {:induction false} OptionalIdApart(a: Option<int>, x: string, b: Option<int>, y: string)
    requires OrStar(a, Decimal) + ":" + x == OrStar(b, Decimal) + ":" + y
    ensures a == b && x == y
  {
    FieldsApart(OrStar(a, Decimal), x, OrStar(b, Decimal), y, ':');
    if a.Some? {
      NoStar(Decimal(a.value));
    }
    if b.Some? {
      NoStar(Decimal(b.value));
    }
    if a.Some? && b.Some? {
      DecimalIdentifies(a.value, b.value);
    }
  }

  lemma {:induction false} WordApart(a: Option<string>, x: string, b: Option<string>, y: string)
    requires IsWord(a) && IsWord(b)
    requires OrStar(a, (w: string) => w) + ":" + x == OrStar(b, (w: string) => w) + ":" + y
    ensures a == b && x == y
  {
    FieldsApart(OrStar(a, (w: string) => w), x, OrStar(b, (w: string) => w), y, ':');
  }

  lemma {:induction false} StarIsNoDate(iso: int -> string, t: int, x: string, y: string)
    requires DateTexts(iso)
    ensures "*" + x != iso(t) + y
  {
    assert IsDateText(iso(t));
    assert (iso(t) + y)[0] == iso(t)[0] && iso(t)[0] in iso(t);
    assert ("*" + x)[0] == '*';
  }

  lemma {:induction false} DateApart(iso: int -> string, a: int, x: string, b: int, y: string)
    requires DateTexts(iso) && iso(a) + x == iso(b) + y
    ensures a == b && x == y
  {
    var s, t := iso(a), iso(b);
    assert IsDateText(s) && IsDateText(t);
    assert s == s[..|s| - 1] + ['Z'] && t == t[..|t| - 1] + ['Z'];
    FieldsApart(s[..|s| - 1], x, t[..|t| - 1], y, 'Z');
  }

  lemma {:induction false} OptionalDateApart(iso: int -> string, a: Option<int>, x: string, b: Option<int>, y: string)
    requires DateTexts(iso) && OrStar(a, iso) + x == OrStar(b, iso) + y
    ensures a == b && x == y
  {
    if a.None? && b.None? {
      PrefixApart("*", x, y);
    } else if a.None? {
      StarIsNoDate(iso, b.value, x, y);
    } else if b.None? {
      StarIsNoDate(iso, a.value, y, x);
    } else {
      DateApart(iso, a.value, x, b.value, y);
    }
  }

  function DatesText(iso: int -> string, f: Filters): string {
    OrStar(f.from, iso) + (":" + OrStar(f.to, iso))
  }

  lemma {:induction false} FiltersTextSplits(iso: int -> string, f: Filters)
    ensures FiltersText(iso, f)
      == OrStar(f.actor, Decimal) + ":" + (OrStar(f.member, Decimal) + ":" + (OrStar(f.role, (w: string) => w) + ":" + DatesText(iso, f)))
  {
    Regroup(OrStar(f.actor, Decimal), OrStar(f.member, Decimal), OrStar(f.role, (w: string) => w), OrStar(f.from, iso), OrStar(f.to, iso));
  }

  lemma {:induction false} Regroup(a: string, b: string, c: string, d: string, e: string)
    ensures a + ":" + b + ":" + c + ":" + d + ":" + e == a + ":" + (b + ":" + (c + ":" + (d + (":" + e))))
  {
    var tail := d + (":" + e);
    assert c + ":" + d + ":" + e == c + ":" + tail;
    assert b + ":" + c + ":" + d + ":" + e == b + ":" + (c + ":" + tail);
  }

  lemma {:induction false} FiltersIdentified(iso: int -> string, f: Filters, g: Filters)
    requires DateTexts(iso) && IsWord(f.role) && IsWord(g.role) && FiltersText(iso, f) == FiltersText(iso, g)
    ensures f == g
  {
    FiltersTextSplits(iso, f);
    FiltersTextSplits(iso, g);
    var words, words' := OrStar(f.role, (w: string) => w) + ":" + DatesText(iso, f), OrStar(g.role, (w: string) => w) + ":" + DatesText(iso, g);
    OptionalIdApart(f.actor, OrStar(f.member, Decimal) + ":" + words, g.actor, OrStar(g.member, Decimal) + ":" + words');
    OptionalIdApart(f.member, words, g.member, words');
    WordApart(f.role, DatesText(iso, f), g.role, DatesText(iso, g));
    OptionalDateApart(iso, f.from, ":" + OrStar(f.to, iso), g.from, ":" + OrStar(g.to, iso));
    PrefixApart(":", OrStar(f.to, iso), OrStar(g.to, iso));
    assert OrStar(f.to, iso) + "" == OrStar(g.to, iso) + "";
    OptionalDateApart(iso, f.to, "", g.to, "");
  }

  lemma {:induction false} ScopeTextSplits(iso: int -> string, scope: Scope)
    ensures ScopeText(iso, scope) == Kind(scope) + ":" + (Decimal(IdOf(scope)) + ":" + Listing(iso, scope))
  {
    var kind, id, listing := Kind(scope), Decimal(IdOf(scope)), Listing(iso, scope);
    assert kind + ":" + id + ":" + listing == kind + ":" + (id + ":" + listing);
  }

  lemma {:induction false} ListingsApart(iso: int -> string, a: Scope, b: Scope)
    requires DateTexts(iso) && Worded(a) && Worded(b) && Listing(iso, a) == Listing(iso, b) && IdOf(a) == IdOf(b)
    ensures a == b
  {
    assert Listing(iso, a)[0] == Listing(iso, b)[0];
    if a.ProgramsOf? {
      PrefixApart("programs:", OrStar(a.status, (w: string) => w), OrStar(b.status, (w: string) => w));
    } else if a.RoleAuditOf? {
      PrefixApart("role-audit:", FiltersText(iso, a.filters), FiltersText(iso, b.filters));
      FiltersIdentified(iso, a.filters, b.filters);
    }
  }

  /** Two scopes have the same text if and only if they are the same listing with the same filters. */
  lemma {:induction false} ScopeTextIdentifies(iso: int -> string, a: Scope, b: Scope)
    requires DateTexts(iso) && Worded(a) && Worded(b)
    ensures ScopeText(iso, a) == ScopeText(iso, b) <==> a == b
  {
    if ScopeText(iso, a) == ScopeText(iso, b) {
      ScopeTextSplits(iso, a);
      ScopeTextSplits(iso, b);
      FieldsApart(Kind(a), Decimal(IdOf(a)) + ":" + Listing(iso, a), Kind(b), Decimal(IdOf(b)) + ":" + Listing(iso, b), ':');
      FieldsApart(Decimal(IdOf(a)), Listing(iso, a), Decimal(IdOf(b)), Listing(iso, b), ':');
      DecimalIdentifies(IdOf(a), IdOf(b));
      ListingsApart(iso, a, b);
    }
  }
}
