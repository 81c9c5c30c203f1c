/** `stableJson` is uniquely decodable, so it identifies a value up to the order of object keys. */
module StableJsonProofs {
  import opened Collections
  import opened Sorting
  import opened StableJson

  // ---------- Strings and numbers ----------

  lemma {:induction false} HexDigitRead(n: nat)
    requires n < 16
    ensures HexValue(HexDigit(n)) == Some(n)
  {
  }

  lemma {:induction false} HexDigitsAddUp(c: CodeUnit)
    ensures c / 4096 < 16 && c / 256 == c / 4096 * 16 + c / 256 % 16
    ensures c / 16 == c / 256 * 16 + c / 16 % 16 && c == c / 16 * 16 + c % 16
  {
  }

  lemma {:induction false} UnhexDigits(t: Text, a: nat, b: nat, c: nat, d: nat)
    requires a < 16 && b < 16 && c < 16 && d < 16
    requires t == [HexDigit(a), HexDigit(b), HexDigit(c), HexDigit(d)]
    ensures Unhex(t) == Some(((a * 16 + b) * 16 + c) * 16 + d)
  {
    HexDigitRead(a);
    HexDigitRead(b);
    HexDigitRead(c);
    HexDigitRead(d);
  }

  lemma {:induction false} UnicodeEscapeRead(c: CodeUnit)
    ensures Unhex(UnicodeEscape(c)[2..6]) == Some(c)
  {
    HexDigitsAddUp(c);
    UnhexDigits(UnicodeEscape(c)[2..6], c / 4096, c / 256 % 16, c / 16 % 16, c % 16);
  }

  ghost function Prepend(s: Text, parsed: Parsed<Text>): Parsed<Text> {
    if parsed.Ok? then Ok(s + parsed.value, parsed.rest) else Fail
  }

  lemma {:induction false} ShortEscapeRead(c: CodeUnit, tail: Text)
    requires c in {8, 9, 10, 12, 13, QUOTE, BACKSLASH}
    ensures |EscapeUnit(c)| == 2
    ensures ParseString(EscapeUnit(c) + tail) == Prepend([c], ParseString(tail))
  {
    var t := EscapeUnit(c) + tail;
    assert t[0] == BACKSLASH && t[1] == EscapeUnit(c)[1] != LOWER_U && t[2..] == tail;
    assert ShortEscape(t[1]) == Some(c);
  }

  lemma {:induction false} LongEscapeRead(c: CodeUnit, tail: Text)
    ensures ParseString(UnicodeEscape(c) + tail) == Prepend([c], ParseString(tail))
  {
    var t := UnicodeEscape(c) + tail;
    UnicodeEscapeRead(c);
    assert t[6..] == tail && t[2..6] == UnicodeEscape(c)[2..6];
  }

  /** One escaped unit contributes exactly that unit, whatever follows. */
  lemma {:induction false} UnitRead(c: CodeUnit, tail: Text)
    ensures ParseString(EscapeUnit(c) + tail) == Prepend([c], ParseString(tail))
  {
    if c in {8, 9, 10, 12, 13, QUOTE, BACKSLASH} {
      ShortEscapeRead(c, tail);
    } else if c < 32 || IsHighSurrogate(c) || IsLowSurrogate(c) {
      LongEscapeRead(c, tail);
    } else {
      PlainRead(c, tail);
    }
  }

  lemma {:induction false} PlainRead(c: CodeUnit, tail: Text)
    requires c != QUOTE && c != BACKSLASH
    ensures ParseString([c] + tail) == Prepend([c], ParseString(tail))
  {
    assert ([c] + tail)[1..] == tail;
  }

  lemma {:induction false} Associates<T>(a: seq<T>, b: seq<T>, c: seq<T>)
    ensures a + b + c == a + (b + c)
  {
  }

  lemma {:induction false} PrependTwice(c: CodeUnit, s: Text, parsed: Parsed<Text>)
    ensures Prepend([c], Prepend(s, parsed)) == Prepend([c] + s, parsed)
  {
    if parsed.Ok? {
      Associates([c], s, parsed.value);
    }
  }

  /** Reading `first` and then `more` contributes both. */
  lemma {:induction false} ReadInTurn(first: Text, c: CodeUnit, more: Text, s: Text, tail: Text)
    requires ParseString(first + (more + tail)) == Prepend([c], ParseString(more + tail))
    requires ParseString(more + tail) == Prepend(s, ParseString(tail))
    ensures ParseString(first + more + tail) == Prepend([c] + s, ParseString(tail))
  {
    Associates(first, more, tail);
    PrependTwice(c, s, ParseString(tail));
  }

  lemma {:induction false} Heads<T>(s: seq<T>)
    requires s != []
    ensures s == [s[0]] + s[1..]
    ensures |s| >= 2 ==> s == [s[0]] + ([s[1]] + s[2..])
  {
  }

  /** An escaped string contributes exactly that string, whatever follows. */
  lemma {:induction false} EscapeRead(s: Text, tail: Text)
    ensures ParseString(Escape(s) + tail) == Prepend(s, ParseString(tail))
  {
    if s == [] {
      EscapeNothingRead(tail);
    } else if |s| >= 2 && IsHighSurrogate(s[0]) && IsLowSurrogate(s[1]) {
      EscapeRead(s[2..], tail);
      EscapePairRead(s, Escape(s[2..]), tail);
      Heads(s);
    } else {
      EscapeRead(s[1..], tail);
      UnitRead(s[0], Escape(s[1..]) + tail);
      ReadInTurn(EscapeUnit(s[0]), s[0], Escape(s[1..]), s[1..], tail);
      Heads(s);
    }
  }

  lemma {:induction false} EscapeNothingRead(tail: Text)
    ensures ParseString(Escape([]) + tail) == Prepend([], ParseString(tail))
  {
    assert Escape([]) + tail == tail;
    if ParseString(tail).Ok? {
      assert [] + ParseString(tail).value == ParseString(tail).value;
    }
  }

  lemma {:induction false} EscapePairRead(s: Text, more: Text, tail: Text)
    requires |s| >= 2 && IsHighSurrogate(s[0]) && IsLowSurrogate(s[1])
    requires ParseString(more + tail) == Prepend(s[2..], ParseString(tail))
    ensures ParseString([s[0]] + ([s[1]] + more) + tail) == Prepend([s[0]] + ([s[1]] + s[2..]), ParseString(tail))
  {
    PlainRead(s[1], more + tail);
    ReadInTurn([s[1]], s[1], more, s[2..], tail);
    PlainRead(s[0], [s[1]] + more + tail);
    ReadInTurn([s[0]], s[0], [s[1]] + more, [s[1]] + s[2..], tail);
  }

  lemma {:induction false} ClosingQuoteRead(rest: Text)
    ensures ParseString([QUOTE] + rest) == Ok([], rest)
  {
    assert ([QUOTE] + rest)[1..] == rest;
  }

  lemma {:induction false} StringRead(s: Text, rest: Text)
    ensures ParseString(Escape(s) + ([QUOTE] + rest)) == Ok(s, rest)
  {
    EscapeRead(s, [QUOTE] + rest);
    ClosingQuoteRead(rest);
    assert s + [] == s;
  }

  lemma {:induction false} Enclosed<T>(open: T, body: seq<T>, close: T, rest: seq<T>)
    ensures ([open] + (body + [close]) + rest)[0] == open
    ensures ([open] + (body + [close]) + rest)[1..] == body + ([close] + rest)
  {
  }

  lemma {:induction false} QuoteRead(s: Text, rest: Text)
    ensures (Quote(s) + rest)[0] == QUOTE
    ensures ParseString((Quote(s) + rest)[1..]) == Ok(s, rest)
  {
    StringRead(s, rest);
    Enclosed(QUOTE, Escape(s), QUOTE, rest);
  }

  /** Text after a value: it does not continue a number. */
  predicate Delimited(rest: Text) {
    rest == [] || !IsNumberUnit(rest[0])
  }

  lemma {:induction false} NumberRead(digits: Text, rest: Text)
    requires (forall i :: 0 <= i < |digits| ==> IsNumberUnit(digits[i])) && Delimited(rest)
    ensures NumberPrefix(digits + rest) == |digits|
  {
    if digits == [] {
      assert digits + rest == rest;
    } else {
      assert (digits + rest)[1..] == digits[1..] + rest;
      NumberRead(digits[1..], rest);
    }
  }

  // ---------- Values ----------

  lemma {:induction false} PrintHead(v: Value)
    requires Serializable(v) && WellFormed(v)
    ensures |Print(v)| > 0 && Print(v)[0] !in {COMMA, COLON, CLOSE_BRACKET, CLOSE_BRACE}
  {
  }

  lemma {:induction false} NotALiteral(t: Text)
    requires t != [] && t[0] !in {110, 116, 102}
    ensures !StartsWith(t, NULL_TEXT) && !StartsWith(t, TRUE_TEXT) && !StartsWith(t, FALSE_TEXT)
  {
    FirstUnit(t, NULL_TEXT);
    FirstUnit(t, TRUE_TEXT);
    FirstUnit(t, FALSE_TEXT);
  }

  lemma {:induction false} FirstUnit(t: Text, prefix: Text)
    requires prefix != []
    ensures StartsWith(t, prefix) ==> t != [] && t[0] == prefix[0]
  {
    if StartsWith(t, prefix) {
      assert t[0] == t[..|prefix|][0];
    }
  }

  lemma {:induction false} LiteralRead(v: Value, rest: Text)
    requires v.Null? || v.NonFinite? || v.Bool?
    ensures ParseValue(Print(v) + rest) == Ok(Denote(v), rest)
  {
    var t := Print(v) + rest;
    assert t[..|Print(v)|] == Print(v) && t[|Print(v)|..] == rest;
    assert t[0] == Print(v)[0];
    FirstUnit(t, NULL_TEXT);
    FirstUnit(t, TRUE_TEXT);
  }

  lemma {:induction false} NumRead(digits: Text, rest: Text)
    requires IsNumberText(digits) && Delimited(rest)
    ensures ParseValue(digits + rest) == Ok(DNum(digits), rest)
  {
    var t := digits + rest;
    NotALiteral(t);
    NumberRead(digits, rest);
    assert t[..|digits|] == digits && t[|digits|..] == rest;
  }

  lemma {:induction false} StrRead(s: Text, rest: Text)
    ensures ParseValue(Quote(s) + rest) == Ok(DStr(s), rest)
  {
    QuoteRead(s, rest);
    NotALiteral(Quote(s) + rest);
  }

  /** The text decodes to the document, whatever delimited text follows. */
  ghost predicate Renders(text: Text, doc: Doc) {
    && |text| > 0 && text[0] !in {COMMA, COLON, CLOSE_BRACKET, CLOSE_BRACE}
    && forall rest :: Delimited(rest) ==> ParseValue(text + rest) == Ok(doc, rest)
  }

  lemma {:induction false} LastItemRead(text: Text, doc: Doc, rest: Text)
    requires Renders(text, doc)
    ensures ParseItems(text + ([CLOSE_BRACKET] + rest)) == Ok([doc], rest)
  {
    var end := [CLOSE_BRACKET] + rest;
    assert Delimited(end) && end[1..] == rest;
  }

  lemma {:induction false} NextItemRead(text: Text, doc: Doc, more: Text)
    requires Renders(text, doc)
    ensures ParseItems(text + ([COMMA] + more))
      == match ParseItems(more) case Ok(docs, rest) => Ok([doc] + docs, rest) case Fail => Fail
  {
    var after := [COMMA] + more;
    assert Delimited(after) && after[1..] == more;
  }

  lemma {:induction false} JoinUnfold(texts: seq<Text>, end: Text)
    requires |texts| >= 2
    ensures Join(texts) + end == texts[0] + ([COMMA] + (Join(texts[1..]) + end))
  {
  }

  lemma {:induction false} ItemsRead(texts: seq<Text>, docs: seq<Doc>, rest: Text)
    requires |texts| == |docs| > 0 && forall i :: 0 <= i < |texts| ==> Renders(texts[i], docs[i])
    ensures ParseItems(Join(texts) + ([CLOSE_BRACKET] + rest)) == Ok(docs, rest)
  {
    var end := [CLOSE_BRACKET] + rest;
    if |texts| == 1 {
      LastItemRead(texts[0], docs[0], rest);
      assert docs == [docs[0]];
    } else {
      ItemsRead(texts[1..], docs[1..], rest);
      NextItemRead(texts[0], docs[0], Join(texts[1..]) + end);
      JoinUnfold(texts, end);
      assert docs == [docs[0]] + docs[1..];
    }
  }

  lemma {:induction false} JoinHead(texts: seq<Text>)
    requires |texts| > 0 && |texts[0]| > 0
    ensures |Join(texts)| > 0 && Join(texts)[0] == texts[0][0]
  {
  }

  lemma {:induction false} EmptyArrRead(rest: Text)
    ensures ParseValue([OPEN_BRACKET, CLOSE_BRACKET] + rest) == Ok(DArr([]), rest)
  {
    var t := [OPEN_BRACKET, CLOSE_BRACKET] + rest;
    NotALiteral(t);
    assert t[2..] == rest;
  }

  lemma {:induction false} BracketRead(body: Text)
    requires body != [] && body[0] != CLOSE_BRACKET
    ensures ParseValue([OPEN_BRACKET] + body)
      == match ParseItems(body) case Ok(docs, rest) => Ok(DArr(docs), rest) case Fail => Fail
  {
    var t := [OPEN_BRACKET] + body;
    NotALiteral(t);
    assert t[1..] == body && t[1] == body[0];
  }

  lemma {:induction false} ArrRead(texts: seq<Text>, docs: seq<Doc>, rest: Text)
    requires |texts| == |docs| && forall i :: 0 <= i < |texts| ==> Renders(texts[i], docs[i])
    ensures ParseValue([OPEN_BRACKET] + (Join(texts) + [CLOSE_BRACKET]) + rest) == Ok(DArr(docs), rest)
  {
    var t := [OPEN_BRACKET] + (Join(texts) + [CLOSE_BRACKET]) + rest;
    if texts == [] {
      assert t == [OPEN_BRACKET, CLOSE_BRACKET] + rest;
      EmptyArrRead(rest);
    } else {
      ItemsRead(texts, docs, rest);
      assert Renders(texts[0], docs[0]);
      JoinHead(texts);
      var body := Join(texts) + ([CLOSE_BRACKET] + rest);
      assert t == [OPEN_BRACKET] + body;
      BracketRead(body);
    }
  }

  ghost predicate EntriesRender(entries: seq<Entry>, docs: map<Text, Doc>) {
    && (forall i :: 0 <= i < |entries| ==> entries[i].key in docs && Renders(entries[i].text, docs[entries[i].key]))
    && (forall i, j :: 0 <= i < j < |entries| ==> entries[i].key != entries[j].key)
  }

  ghost function Keys(entries: seq<Entry>): set<Text> {
    set e | e in entries :: e.key
  }

  ghost function Restrict(docs: map<Text, Doc>, keys: set<Text>): map<Text, Doc> {
    map k | k in docs && k in keys :: docs[k]
  }

  lemma {:induction false} EntryRead(e: Entry, after: Text)
    ensures (EntryText(e) + after)[0] == QUOTE
    ensures ParseString((EntryText(e) + after)[1..]) == Ok(e.key, [COLON] + (e.text + after))
  {
    QuoteRead(e.key, [COLON] + (e.text + after));
    assert EntryText(e) + after == Quote(e.key) + ([COLON] + (e.text + after));
  }

  lemma {:induction false} LastMemberRead(e: Entry, doc: Doc, rest: Text)
    requires Renders(e.text, doc)
    ensures ParseMembers(EntryText(e) + ([CLOSE_BRACE] + rest)) == Ok(map[e.key := doc], rest)
  {
    var end := [CLOSE_BRACE] + rest;
    EntryRead(e, end);
    assert Delimited(end) && end[1..] == rest;
    assert ([COLON] + (e.text + end))[1..] == e.text + end;
  }

  lemma {:induction false} NextMemberRead(e: Entry, doc: Doc, more: Text)
    requires Renders(e.text, doc)
    ensures ParseMembers(EntryText(e) + ([COMMA] + more))
      == match ParseMembers(more) case Ok(docs, rest) => Ok(docs[e.key := doc], rest) case Fail => Fail
  {
    var after := [COMMA] + more;
    EntryRead(e, after);
    assert Delimited(after) && after[1..] == more;
    assert ([COLON] + (e.text + after))[1..] == e.text + after;
  }

  lemma {:induction false} OneMemberRead(e: Entry, docs: map<Text, Doc>, rest: Text)
    requires EntriesRender([e], docs)
    ensures ParseMembers(Join(EntryTexts([e])) + ([CLOSE_BRACE] + rest)) == Ok(Restrict(docs, Keys([e])), rest)
  {
    assert [e][0] == e;
    LastMemberRead(e, docs[e.key], rest);
    assert EntryTexts([e]) == [EntryText(e)];
    assert Restrict(docs, Keys([e])) == map[e.key := docs[e.key]];
  }

  lemma {:induction false} MoreMembersRead(e: Entry, tail: seq<Entry>, docs: map<Text, Doc>, rest: Text)
    requires tail != [] && EntriesRender([e], docs)
    requires ParseMembers(Join(EntryTexts(tail)) + ([CLOSE_BRACE] + rest)) == Ok(Restrict(docs, Keys(tail)), rest)
    ensures ParseMembers(Join(EntryTexts([e] + tail)) + ([CLOSE_BRACE] + rest)) == Ok(Restrict(docs, Keys([e] + tail)), rest)
  {
    var end := [CLOSE_BRACE] + rest;
    assert [e][0] == e;
    NextMemberRead(e, docs[e.key], Join(EntryTexts(tail)) + end);
    assert EntryTexts([e] + tail) == [EntryText(e)] + EntryTexts(tail);
    assert EntryTexts([e] + tail)[1..] == EntryTexts(tail);
    JoinUnfold(EntryTexts([e] + tail), end);
    RestrictGrows(docs, e, tail);
  }

  lemma {:induction false} EntriesRenderParts(entries: seq<Entry>, docs: map<Text, Doc>)
    requires |entries| > 0 && EntriesRender(entries, docs)
    ensures EntriesRender([entries[0]], docs) && EntriesRender(entries[1..], docs)
    ensures entries == [entries[0]] + entries[1..] && (entries[1..] == [] ==> entries == [entries[0]])
  {
  }

  lemma {:induction false} MembersRead(entries: seq<Entry>, docs: map<Text, Doc>, rest: Text)
    requires |entries| > 0 && EntriesRender(entries, docs)
    ensures ParseMembers(Join(EntryTexts(entries)) + ([CLOSE_BRACE] + rest)) == Ok(Restrict(docs, Keys(entries)), rest)
  {
    var e, tail := entries[0], entries[1..];
    EntriesRenderParts(entries, docs);
    if tail == [] {
      OneMemberRead(e, docs, rest);
    } else {
      MembersRead(tail, docs, rest);
      MoreMembersRead(e, tail, docs, rest);
    }
  }

  lemma {:induction false} RestrictGrows(docs: map<Text, Doc>, e: Entry, tail: seq<Entry>)
    requires e.key in docs
    ensures Restrict(docs, Keys([e] + tail)) == Restrict(docs, Keys(tail))[e.key := docs[e.key]]
  {
    assert Keys([e] + tail) == Keys(tail) + {e.key};
  }

  lemma {:induction false} EmptyObjRead(rest: Text)
    ensures ParseValue([OPEN_BRACE, CLOSE_BRACE] + rest) == Ok(DObj(map[]), rest)
  {
    var t := [OPEN_BRACE, CLOSE_BRACE] + rest;
    NotALiteral(t);
    assert t[2..] == rest;
  }

  lemma {:induction false} BraceRead(body: Text)
    requires body != [] && body[0] != CLOSE_BRACE
    ensures ParseValue([OPEN_BRACE] + body)
      == match ParseMembers(body) case Ok(docs, rest) => Ok(DObj(docs), rest) case Fail => Fail
  {
    var t := [OPEN_BRACE] + body;
    NotALiteral(t);
    assert t[1..] == body && t[1] == body[0];
  }

  lemma {:induction false} EntryTextHead(e: Entry)
    ensures |EntryText(e)| > 0 && EntryText(e)[0] == QUOTE
  {
  }

  lemma {:induction false} BracesRead(inner: Text, docs: map<Text, Doc>, rest: Text)
    requires inner != [] && inner[0] != CLOSE_BRACE
    requires ParseMembers(inner + ([CLOSE_BRACE] + rest)) == Ok(docs, rest)
    ensures ParseValue([OPEN_BRACE] + (inner + [CLOSE_BRACE]) + rest) == Ok(DObj(docs), rest)
  {
    var body := inner + ([CLOSE_BRACE] + rest);
    assert [OPEN_BRACE] + (inner + [CLOSE_BRACE]) + rest == [OPEN_BRACE] + body;
    BraceRead(body);
  }

  lemma {:induction false} SomeObjRead(entries: seq<Entry>, docs: map<Text, Doc>, rest: Text)
    requires entries != [] && EntriesRender(entries, docs)
    ensures ParseValue([OPEN_BRACE] + (Join(EntryTexts(entries)) + [CLOSE_BRACE]) + rest)
      == Ok(DObj(Restrict(docs, Keys(entries))), rest)
  {
    MembersRead(entries, docs, rest);
    EntryTextHead(entries[0]);
    JoinHead(EntryTexts(entries));
    BracesRead(Join(EntryTexts(entries)), Restrict(docs, Keys(entries)), rest);
  }

  lemma {:induction false} NoObjRead(rest: Text)
    ensures ParseValue([OPEN_BRACE] + (Join(EntryTexts([])) + [CLOSE_BRACE]) + rest) == Ok(DObj(map[]), rest)
  {
    EmptyObjRead(rest);
    assert [OPEN_BRACE] + (Join(EntryTexts([])) + [CLOSE_BRACE]) == [OPEN_BRACE, CLOSE_BRACE];
  }

  lemma {:induction false} ObjRead(entries: seq<Entry>, docs: map<Text, Doc>, rest: Text)
    requires EntriesRender(entries, docs) && docs.Keys == Keys(entries)
    ensures ParseValue([OPEN_BRACE] + (Join(EntryTexts(entries)) + [CLOSE_BRACE]) + rest) == Ok(DObj(docs), rest)
  {
    assert Restrict(docs, Keys(entries)) == docs;
    if entries == [] {
      assert docs == map[];
      NoObjRead(rest);
    } else {
      SomeObjRead(entries, docs, rest);
    }
  }

  // ---------- The printer ----------

  lemma {:induction false} PrintItemsAt(items: seq<Value>, i: nat)
    requires (forall j :: 0 <= j < |items| ==> Serializable(items[j])) && i < |items|
    ensures PrintItems(items)[i] == Print(items[i])
  {
    if i > 0 {
      PrintItemsAt(items[1..], i - 1);
    }
  }

  lemma {:induction false} PrintMembersAt(members: seq<Member>, i: nat)
    requires (forall j :: 0 <= j < |members| ==> Serializable(members[j].value)) && i < |members|
    ensures PrintMembers(members)[i] == Entry(members[i].key, Print(members[i].value))
  {
    if i > 0 {
      PrintMembersAt(members[1..], i - 1);
    }
  }

  predicate DistinctKeys(members: seq<Member>) {
    forall i, j :: 0 <= i < j < |members| ==> members[i].key != members[j].key
  }

  lemma {:induction false} DenoteMembersAt(members: seq<Member>, i: nat)
    requires (forall j :: 0 <= j < |members| ==> Serializable(members[j].value)) && DistinctKeys(members) && i < |members|
    ensures members[i].key in DenoteMembers(members)
    ensures DenoteMembers(members)[members[i].key] == Denote(members[i].value)
  {
    if i < |members| - 1 {
      DenoteMembersAt(members[..|members| - 1], i);
    }
  }

  lemma {:induction false} DenoteMembersKeys(members: seq<Member>, key: Text) returns (i: nat)
    requires forall j :: 0 <= j < |members| ==> Serializable(members[j].value)
    requires key in DenoteMembers(members)
    ensures i < |members| && members[i].key == key
  {
    var n := |members| - 1;
    if members[n].key == key {
      i := n;
    } else {
      i := DenoteMembersKeys(members[..n], key);
    }
  }

  predicate DistinctEntries(entries: seq<Entry>) {
    forall i, j :: 0 <= i < j < |entries| ==> entries[i].key != entries[j].key
  }

  lemma {:induction false} SortKeepsDistinct(entries: seq<Entry>)
    requires DistinctEntries(entries)
    ensures DistinctEntries(SortByKey(entries))
  {
    SortAscending(entries);
    var sorted := SortByKey(entries);
    forall i, j | 0 <= i < j < |sorted|
      ensures sorted[i].key != sorted[j].key
    {
      BelowIsIrreflexive(sorted[i].key);
    }
  }

  /** The printed and sorted members render the document of the object. */
  lemma {:induction false} SortedMembersRender(members: seq<Member>)
    requires (forall j :: 0 <= j < |members| ==> Serializable(members[j].value)) && DistinctKeys(members)
    requires forall j :: 0 <= j < |members| ==> Renders(Print(members[j].value), Denote(members[j].value))
    ensures EntriesRender(SortByKey(PrintMembers(members)), DenoteMembers(members))
    ensures DenoteMembers(members).Keys == Keys(SortByKey(PrintMembers(members)))
  {
    var printed := PrintMembers(members);
    var entries := SortByKey(printed);
    var docs := DenoteMembers(members);
    forall i | 0 <= i < |members|
      ensures printed[i].key == members[i].key && printed[i].text == Print(members[i].value)
    {
      PrintMembersAt(members, i);
    }
    SortKeepsDistinct(printed);
    forall k | 0 <= k < |entries|
      ensures entries[k].key in docs && Renders(entries[k].text, docs[entries[k].key])
    {
      assert entries[k] in printed;
      var i :| 0 <= i < |printed| && printed[i] == entries[k];
      DenoteMembersAt(members, i);
    }
    forall key | key in docs
      ensures key in Keys(entries)
    {
      var i := DenoteMembersKeys(members, key);
      assert printed[i] in entries;
    }
  }

  /** The parser recovers the document of every serializable value from its canonical text. */
  lemma {:induction false} PrintRenders(v: Value)
    requires WellFormed(v) && Serializable(v)
    ensures Renders(Print(v), Denote(v))
  {
    PrintHead(v);
    match v
    case Arr(items) =>
      var texts := PrintItems(items);
      var docs := Denote(v).items;
      forall i | 0 <= i < |items|
        ensures Renders(texts[i], docs[i])
      {
        PrintItemsAt(items, i);
        PrintRenders(items[i]);
      }
      forall rest | Delimited(rest)
        ensures ParseValue(Print(v) + rest) == Ok(Denote(v), rest)
      {
        ArrRead(texts, docs, rest);
      }
    case Obj(members) =>
      forall i | 0 <= i < |members|
        ensures Renders(Print(members[i].value), Denote(members[i].value))
      {
        PrintRenders(members[i].value);
      }
      SortedMembersRender(members);
      forall rest | Delimited(rest)
        ensures ParseValue(Print(v) + rest) == Ok(Denote(v), rest)
      {
        ObjRead(SortByKey(PrintMembers(members)), DenoteMembers(members), rest);
      }
    case Num(digits) =>
      forall rest | Delimited(rest)
        ensures ParseValue(Print(v) + rest) == Ok(Denote(v), rest)
      {
        NumRead(digits, rest);
      }
    case Str(s) =>
      forall rest | Delimited(rest)
        ensures ParseValue(Print(v) + rest) == Ok(Denote(v), rest)
      {
        StrRead(s, rest);
      }
    case Null =>
      LiteralRenders(v);
    case NonFinite =>
      LiteralRenders(v);
    case Bool(_) =>
      LiteralRenders(v);
    case Undefined =>
  }

  lemma {:induction false} LiteralRenders(v: Value)
    requires v.Null? || v.NonFinite? || v.Bool?
    ensures Renders(Print(v), Denote(v))
  {
    PrintHead(v);
    forall rest | Delimited(rest)
      ensures ParseValue(Print(v) + rest) == Ok(Denote(v), rest)
    {
      LiteralRead(v, rest);
    }
  }

  // ---------- Uniqueness of the sorted form ----------

  /** The texts agree up to position `i`, where `a` ends or has the smaller unit. */
  predicate SmallerAt(a: Text, b: Text, i: nat) {
    i <= |a| && i < |b| && (forall k :: 0 <= k < i ==> a[k] == b[k]) && (i == |a| || a[i] < b[i])
  }

  /** Texts are compared at the first unit in which they differ, and a proper prefix comes first. */
  lemma {:induction false} BelowIff(a: Text, b: Text)
    ensures Below(a, b) <==> exists i :: SmallerAt(a, b, i)
  {
    if Below(a, b) {
      var i := SmallerFound(a, b);
    }
    if i :| SmallerAt(a, b, i) {
      SmallerIsBelow(a, b, i);
    }
  }

  lemma {:induction false} SmallerFound(a: Text, b: Text) returns (i: nat)
    requires Below(a, b)
    ensures SmallerAt(a, b, i)
  {
    if a == [] || a[0] < b[0] {
      i := 0;
    } else {
      var j := SmallerFound(a[1..], b[1..]);
      i := j + 1;
      assert forall k :: 0 < k < i ==> a[k] == a[1..][k - 1] && b[k] == b[1..][k - 1];
    }
  }

  lemma {:induction false} SmallerIsBelow(a: Text, b: Text, i: nat)
    requires SmallerAt(a, b, i)
    ensures Below(a, b)
  {
    if i > 0 {
      assert a[0] == b[0];
      SmallerIsBelow(a[1..], b[1..], i - 1);
    }
  }

  lemma {:induction false} BelowIsOrder(a: Text, b: Text)
    ensures !(Below(a, b) && Below(b, a)) && !Below(a, a)
    ensures a == b || Below(a, b) || Below(b, a)
  {
    if a != [] && b != [] {
      BelowIsOrder(a[1..], b[1..]);
      if a[0] == b[0] && a[1..] == b[1..] {
        assert [a[0]] + a[1..] == a && [b[0]] + b[1..] == b;
      }
    }
    if a != [] {
      BelowIsIrreflexive(a);
    }
  }

  lemma {:induction false} BelowIsIrreflexive(a: Text)
    ensures !Below(a, a)
  {
    if a != [] {
      BelowIsIrreflexive(a[1..]);
    }
  }

  lemma {:induction false} BelowIsTransitive(a: Text, b: Text, c: Text)
    requires Below(a, b) && Below(b, c)
    ensures Below(a, c)
  {
    if a != [] && b != [] && c != [] && a[0] == b[0] == c[0] {
      BelowIsTransitive(a[1..], b[1..], c[1..]);
    }
  }

  predicate Ascending(entries: seq<Entry>) {
    forall i, j :: 0 <= i < j < |entries| ==> Below(entries[i].key, entries[j].key)
  }

  lemma {:induction false} ByKeyIsOrder()
    ensures Transitive(ByKey()) && Asymmetric(ByKey())
  {
    forall a, b, c | ByKey()(a, b) && ByKey()(b, c)
      ensures ByKey()(a, c)
    {
      BelowIsTransitive(a.key, b.key, c.key);
    }
    forall a, b | ByKey()(a, b)
      ensures !ByKey()(b, a)
    {
      if Below(b.key, a.key) {
        BelowIsTransitive(a.key, b.key, a.key);
        BelowIsIrreflexive(a.key);
      }
    }
  }

  lemma {:induction false} SortAscending(entries: seq<Entry>)
    requires DistinctEntries(entries)
    ensures Ascending(SortByKey(entries))
  {
    ByKeyIsOrder();
    forall i, j | 0 <= i < j < |entries|
      ensures ByKey()(entries[i], entries[j]) || ByKey()(entries[j], entries[i])
    {
      BelowIsOrder(entries[i].key, entries[j].key);
    }
    SortIsStrict(ByKey(), entries);
    var sorted := SortByKey(entries);
    forall i, j | 0 <= i < j < |sorted|
      ensures Below(sorted[i].key, sorted[j].key)
    {
      assert ByKey()(sorted[i], sorted[j]);
    }
  }

  /** Two ascending lists with the same entries are the same list. */
  lemma {:induction false} AscendingIsUnique(a: seq<Entry>, b: seq<Entry>)
    requires Ascending(a) && Ascending(b)
    requires forall x :: x in a <==> x in b
    ensures a == b
  {
    ByKeyIsOrder();
    StrictIsUnique(ByKey(), a, b);
  }

  // ---------- Main results ----------

  /** Equal documents print the same text. */
  lemma {:induction false} EqualDocsPrintEqual(a: Value, b: Value)
    requires WellFormed(a) && Serializable(a) && WellFormed(b) && Serializable(b)
    requires Denote(a) == Denote(b)
    ensures Print(a) == Print(b)
    decreases a
  {
    if a.Arr? {
      assert |Denote(a).items| == |Denote(b).items|;
      forall i | 0 <= i < |a.items|
        ensures PrintItems(a.items)[i] == PrintItems(b.items)[i]
      {
        assert Denote(a).items[i] == Denote(b).items[i];
        PrintItemsAt(a.items, i);
        PrintItemsAt(b.items, i);
        EqualDocsPrintEqual(a.items[i], b.items[i]);
      }
      assert PrintItems(a.items) == PrintItems(b.items);
    } else if a.Obj? {
      forall i, j | 0 <= i < |a.members| && 0 <= j < |b.members| && a.members[i].key == b.members[j].key
        ensures Print(a.members[i].value) == Print(b.members[j].value)
      {
        DenoteMembersAt(a.members, i);
        DenoteMembersAt(b.members, j);
        EqualDocsPrintEqual(a.members[i].value, b.members[j].value);
      }
      EntriesAgree(a.members, b.members);
      EntriesAgree(b.members, a.members);
      var entriesA, entriesB := PrintMembers(a.members), PrintMembers(b.members);
      PrintedKeysDistinct(a.members);
      PrintedKeysDistinct(b.members);
      SortAscending(entriesA);
      SortAscending(entriesB);
      AscendingIsUnique(SortByKey(entriesA), SortByKey(entriesB));
    }
  }

  lemma {:induction false} PrintedKeysDistinct(members: seq<Member>)
    requires (forall j :: 0 <= j < |members| ==> Serializable(members[j].value)) && DistinctKeys(members)
    ensures DistinctEntries(PrintMembers(members))
  {
    forall i | 0 <= i < |members|
      ensures PrintMembers(members)[i].key == members[i].key
    {
      PrintMembersAt(members, i);
    }
  }

  lemma {:induction false} EntriesAgree(a: seq<Member>, b: seq<Member>)
    requires (forall j :: 0 <= j < |a| ==> Serializable(a[j].value)) && DistinctKeys(a)
    requires (forall j :: 0 <= j < |b| ==> Serializable(b[j].value)) && DistinctKeys(b)
    requires DenoteMembers(a) == DenoteMembers(b)
    requires forall i, j :: 0 <= i < |a| && 0 <= j < |b| && a[i].key == b[j].key ==> Print(a[i].value) == Print(b[j].value)
    ensures forall x :: x in PrintMembers(a) ==> x in PrintMembers(b)
  {
    forall x | x in PrintMembers(a)
      ensures x in PrintMembers(b)
    {
      var i :| 0 <= i < |a| && PrintMembers(a)[i] == x;
      PrintMembersAt(a, i);
      DenoteMembersAt(a, i);
      var j := DenoteMembersKeys(b, a[i].key);
      PrintMembersAt(b, j);
      assert PrintMembers(b)[j] == x;
    }
  }

  /** The canonical text is uniquely decodable and identifies a value exactly up to the order of
      object keys, at every depth. */
  lemma {:induction false} CanonicalTextIdentifies(a: Value, b: Value)
    requires WellFormed(a) && WellFormed(b) && Serializable(a) && Serializable(b)
    ensures ParseValue(Print(a)) == Ok(Denote(a), [])
    ensures StableJson.StableJson(a) == StableJson.StableJson(b) <==> Denote(a) == Denote(b)
  {
    PrintRenders(a);
    PrintRenders(b);
    assert Print(a) + [] == Print(a) && Print(b) + [] == Print(b);
    assert Delimited([]);
    if Denote(a) == Denote(b) {
      EqualDocsPrintEqual(a, b);
    }
  }

  /** The request hash of two requests agrees exactly when the requests mean the same, for every
      digest without collisions. */
  lemma {:induction false} HashIdentifiesRequest(digest: Text -> Text, a: Value, b: Value)
    requires forall x, y :: digest(x) == digest(y) ==> x == y
    requires WellFormed(a) && WellFormed(b) && Serializable(a) && Serializable(b)
    ensures digest(Print(a)) == digest(Print(b)) <==> Denote(a) == Denote(b)
  {
    CanonicalTextIdentifies(a, b);
  }
}
