/** The canonical request text behind idempotency hashes. Text is a sequence of UTF-16 code units, as
    in JavaScript; strings are quoted as section 7 of RFC 8259 and `JSON.stringify` prescribe. */
module StableJson {
  import opened Collections
  import opened Sorting

  type CodeUnit = n: nat | n < 0x1_0000
  type Text = seq<CodeUnit>

  /** A JavaScript value. A finite number is given by its shortest decimal text, which identifies it
      (both zeros print as "0"); `NonFinite` stands for NaN and the infinities; `Undefined` for
      everything `JSON.stringify` does not serialize. Members are in insertion order. */
  datatype Value =
    | Null
    | Bool(b: bool)
    | Num(digits: Text)
    | NonFinite
    | Str(s: Text)
    | Arr(items: seq<Value>)
    | Obj(members: seq<Member>)
    | Undefined

  datatype Member = Member(key: Text, value: Value)

  /** What a value means: objects are unordered maps. */
  datatype Doc =
    | DNull
    | DBool(b: bool)
    | DNum(digits: Text)
    | DStr(s: Text)
    | DArr(items: seq<Doc>)
    | DObj(members: map<Text, Doc>)

  const QUOTE: CodeUnit := 34
  const COMMA: CodeUnit := 44
  const COLON: CodeUnit := 58
  const BACKSLASH: CodeUnit := 92
  const OPEN_BRACKET: CodeUnit := 91
  const CLOSE_BRACKET: CodeUnit := 93
  const OPEN_BRACE: CodeUnit := 123
  const CLOSE_BRACE: CodeUnit := 125
  const LOWER_U: CodeUnit := 117
  const NULL_TEXT: Text := [110, 117, 108, 108]
  const TRUE_TEXT: Text := [116, 114, 117, 101]
  const FALSE_TEXT: Text := [102, 97, 108, 115, 101]

  // ---------- Well-formed values ----------

  predicate IsDigit(c: CodeUnit) { 48 <= c <= 57 }

  /** A digit or one of `+ - . e`. */
  predicate IsNumberUnit(c: CodeUnit) { IsDigit(c) || c == 43 || c == 45 || c == 46 || c == 101 }

  predicate IsNumberText(t: Text) {
    |t| > 0 && (IsDigit(t[0]) || t[0] == 45) && forall i :: 0 <= i < |t| ==> IsNumberUnit(t[i])
  }

  /** Holds of every JavaScript value: number texts are number texts and keys are distinct. */
  predicate WellFormed(v: Value) {
    match v
    case Num(digits) => IsNumberText(digits)
    case Arr(items) => forall i :: 0 <= i < |items| ==> WellFormed(items[i])
    case Obj(members) =>
      && (forall i :: 0 <= i < |members| ==> WellFormed(members[i].value))
      && (forall i, j :: 0 <= i < j < |members| ==> members[i].key != members[j].key)
    case _ => true
  }

  predicate Serializable(v: Value) {
    match v
    case Undefined => false
    case Arr(items) => forall i :: 0 <= i < |items| ==> Serializable(items[i])
    case Obj(members) => forall i :: 0 <= i < |members| ==> Serializable(members[i].value)
    case _ => true
  }

  function Denote(v: Value): Doc
    requires Serializable(v)
  {
    match v
    case Null => DNull
    case Bool(b) => DBool(b)
    case Num(digits) => DNum(digits)
    case NonFinite => DNull
    case Str(s) => DStr(s)
    case Arr(items) => DArr(seq(|items|, i requires 0 <= i < |items| => Denote(items[i])))
    case Obj(members) => DObj(DenoteMembers(members))
  }

  function DenoteMembers(members: seq<Member>): (m: map<Text, Doc>)
    requires forall i :: 0 <= i < |members| ==> Serializable(members[i].value)
  {
    if members == [] then map[]
    else DenoteMembers(members[..|members| - 1])[members[|members| - 1].key := Denote(members[|members| - 1].value)]
  }

  // ---------- Printing ----------

  function HexDigit(n: nat): CodeUnit
    requires n < 16
  {
    if n < 10 then 48 + n else 87 + n
  }

  function UnicodeEscape(c: CodeUnit): Text {
    [BACKSLASH, LOWER_U, HexDigit(c / 4096), HexDigit(c / 256 % 16), HexDigit(c / 16 % 16), HexDigit(c % 16)]
  }

  predicate IsHighSurrogate(c: CodeUnit) { 0xD800 <= c <= 0xDBFF }
  predicate IsLowSurrogate(c: CodeUnit) { 0xDC00 <= c <= 0xDFFF }

  function EscapeUnit(c: CodeUnit): Text {
    if c == 8 then [BACKSLASH, 98]
    else if c == 9 then [BACKSLASH, 116]
    else if c == 10 then [BACKSLASH, 110]
    else if c == 12 then [BACKSLASH, 102]
    else if c == 13 then [BACKSLASH, 114]
    else if c == QUOTE then [BACKSLASH, QUOTE]
    else if c == BACKSLASH then [BACKSLASH, BACKSLASH]
    else if c < 32 || IsHighSurrogate(c) || IsLowSurrogate(c) then UnicodeEscape(c)
    else [c]
  }

  /** A surrogate pair is copied, a lone surrogate is escaped. */
  function Escape(s: Text): Text {
    if s == [] then []
    else if |s| >= 2 && IsHighSurrogate(s[0]) && IsLowSurrogate(s[1]) then [s[0]] + ([s[1]] + Escape(s[2..]))
    else EscapeUnit(s[0]) + Escape(s[1..])
  }

  function Quote(s: Text): Text {
    [QUOTE] + (Escape(s) + [QUOTE])
  }

  function UnitsOf(text: string): Text
    requires forall i :: 0 <= i < |text| ==> text[i] < 128 as char
  {
    seq(|text|, i requires 0 <= i < |text| => text[i] as CodeUnit)
  }

  /** The punctuation and the literals by their characters. */
  lemma {:induction false} LiteralTexts()
    ensures [OPEN_BRACKET, CLOSE_BRACKET, OPEN_BRACE, CLOSE_BRACE, COMMA, COLON, QUOTE] == UnitsOf("[]{},:\"")
    ensures NULL_TEXT == UnitsOf("null") && TRUE_TEXT == UnitsOf("true") && FALSE_TEXT == UnitsOf("false")
  {
  }

  /** How `JSON.stringify` writes a unit that is not part of a surrogate pair: five control characters, the
      quote and the backslash have short escapes; the other control characters and surrogates are written
      with four hexadecimal digits; everything else is copied. */
  lemma {:induction false} EscapesAsJson(c: CodeUnit)
    ensures EscapeUnit(8) == UnitsOf("\\b") && EscapeUnit(9) == UnitsOf("\\t") && EscapeUnit(10) == UnitsOf("\\n")
    ensures EscapeUnit(12) == UnitsOf("\\f") && EscapeUnit(13) == UnitsOf("\\r")
    ensures EscapeUnit(34) == UnitsOf("\\\"") && EscapeUnit(92) == UnitsOf("\\\\")
    ensures c !in {8, 9, 10, 12, 13, 34, 92} && (c < 32 || 0xD800 <= c <= 0xDFFF) ==>
      |EscapeUnit(c)| == 6 && EscapeUnit(c)[..2] == UnitsOf("\\u")
    ensures c !in {34, 92} && c >= 32 && !(0xD800 <= c <= 0xDFFF) ==> EscapeUnit(c) == [c]
  {
  }

  /** A high surrogate and the low one behind it are copied together; every other unit is written on its own. */
  lemma {:induction false} PairsAreCopied(first: CodeUnit, second: CodeUnit, rest: Text)
    ensures 0xD800 <= first <= 0xDBFF && 0xDC00 <= second <= 0xDFFF ==>
      Escape([first, second] + rest) == [first, second] + Escape(rest)
    ensures !(0xD800 <= first <= 0xDBFF && 0xDC00 <= second <= 0xDFFF) ==>
      Escape([first, second] + rest) == EscapeUnit(first) + Escape([second] + rest)
    ensures Escape([first]) == EscapeUnit(first)
  {
    var text := [first, second] + rest;
    assert text[1..] == [second] + rest && text[2..] == rest;
    assert [first][1..] == [];
    assert [first] + ([second] + Escape(rest)) == [first, second] + Escape(rest);
  }

  /** The texts of finite numbers in JavaScript are of this form. */
  lemma {:induction false} NumberTexts(t: Text)
    requires t != [] && (48 <= t[0] <= 57 || t[0] == '-' as CodeUnit)
    requires forall i :: 0 <= i < |t| ==> 48 <= t[i] <= 57 || t[i] in {'+' as CodeUnit, '-' as CodeUnit, '.' as CodeUnit, 'e' as CodeUnit}
    ensures IsNumberText(t)
  {
  }

  /** A printed member. */
  datatype Entry = Entry(key: Text, text: Text)

  /** The default sort order of strings: by code units. */
  predicate Below(a: Text, b: Text) {
    if b == [] then false
    else if a == [] then true
    else a[0] < b[0] || (a[0] == b[0] && Below(a[1..], b[1..]))
  }

  function ByKey(): (Entry, Entry) -> bool {
    (a: Entry, b: Entry) => Below(a.key, b.key)
  }

  function SortByKey(entries: seq<Entry>): (r: seq<Entry>)
    ensures forall x :: x in r <==> x in entries
    ensures |r| == |entries|
  {
    SortBy(ByKey(), entries)
  }

  function Join(parts: seq<Text>): Text {
    if parts == [] then []
    else if |parts| == 1 then parts[0]
    else parts[0] + ([COMMA] + Join(parts[1..]))
  }

  function EntryText(e: Entry): Text {
    Quote(e.key) + ([COLON] + e.text)
  }

  function EntryTexts(entries: seq<Entry>): (r: seq<Text>)
    ensures |r| == |entries|
    ensures forall i :: 0 <= i < |r| ==> r[i] == EntryText(entries[i])
  {
    if entries == [] then [] else [EntryText(entries[0])] + EntryTexts(entries[1..])
  }

  function Print(v: Value): Text
    requires Serializable(v)
  {
    match v
    case Null => NULL_TEXT
    case Bool(b) => if b then TRUE_TEXT else FALSE_TEXT
    case Num(digits) => digits
    case NonFinite => NULL_TEXT
    case Str(s) => Quote(s)
    case Arr(items) => [OPEN_BRACKET] + (Join(PrintItems(items)) + [CLOSE_BRACKET])
    case Obj(members) => [OPEN_BRACE] + (Join(EntryTexts(SortByKey(PrintMembers(members)))) + [CLOSE_BRACE])
  }

  function PrintItems(items: seq<Value>): (r: seq<Text>)
    requires forall i :: 0 <= i < |items| ==> Serializable(items[i])
    ensures |r| == |items|
  {
    if items == [] then [] else [Print(items[0])] + PrintItems(items[1..])
  }

  function PrintMembers(members: seq<Member>): (r: seq<Entry>)
    requires forall i :: 0 <= i < |members| ==> Serializable(members[i].value)
    ensures |r| == |members|
  {
    if members == [] then [] else [Entry(members[0].key, Print(members[0].value))] + PrintMembers(members[1..])
  }

  /** None where `stableJson` throws. */
  function StableJson(v: Value): Option<Text> {
    if Serializable(v) then Some(Print(v)) else None
  }

  // ---------- Parsing ----------

  function HexValue(c: CodeUnit): Option<nat> {
    if IsDigit(c) then Some(c - 48) else if 97 <= c <= 102 then Some(c - 87) else None
  }

  function Unhex(t: Text): Option<CodeUnit>
    requires |t| == 4
  {
    var a, b, c, d := HexValue(t[0]), HexValue(t[1]), HexValue(t[2]), HexValue(t[3]);
    if a.Some? && b.Some? && c.Some? && d.Some? && a.value < 16 && b.value < 16 && c.value < 16 && d.value < 16
    then Some(((a.value * 16 + b.value) * 16 + c.value) * 16 + d.value)
    else None
  }

  function ShortEscape(c: CodeUnit): Option<CodeUnit> {
    if c == 98 then Some(8) else if c == 116 then Some(9) else if c == 110 then Some(10)
    else if c == 102 then Some(12) else if c == 114 then Some(13)
    else if c == QUOTE || c == BACKSLASH then Some(c) else None
  }

  datatype Parsed<+T> = Fail | Ok(value: T, rest: Text)

  /** The rest of a string literal after its opening quote. */
  function ParseString(t: Text): (r: Parsed<Text>)
    ensures r.Ok? ==> |r.rest| < |t|
  {
    if t == [] then Fail
    else if t[0] == QUOTE then Ok([], t[1..])
    else if t[0] == BACKSLASH && |t| >= 6 && t[1] == LOWER_U then
      var unit := Unhex(t[2..6]);
      var tail := ParseString(t[6..]);
      if unit.Some? && tail.Ok? then Ok([unit.value] + tail.value, tail.rest) else Fail
    else if t[0] == BACKSLASH && |t| >= 2 then
      var unit := ShortEscape(t[1]);
      var tail := ParseString(t[2..]);
      if unit.Some? && tail.Ok? then Ok([unit.value] + tail.value, tail.rest) else Fail
    else if t[0] == BACKSLASH then Fail
    else
      var tail := ParseString(t[1..]);
      if tail.Ok? then Ok([t[0]] + tail.value, tail.rest) else Fail
  }

  function NumberPrefix(t: Text): (n: nat)
    ensures n <= |t|
  {
    if t == [] || !IsNumberUnit(t[0]) then 0 else 1 + NumberPrefix(t[1..])
  }

  predicate StartsWith(t: Text, prefix: Text) {
    |prefix| <= |t| && t[..|prefix|] == prefix
  }

  function ParseValue(t: Text): (r: Parsed<Doc>)
    ensures r.Ok? ==> |r.rest| < |t|
    decreases |t|, 0
  {
    if StartsWith(t, NULL_TEXT) then Ok(DNull, t[4..])
    else if StartsWith(t, TRUE_TEXT) then Ok(DBool(true), t[4..])
    else if StartsWith(t, FALSE_TEXT) then Ok(DBool(false), t[5..])
    else if t == [] then Fail
    else if t[0] == QUOTE then
      var s := ParseString(t[1..]);
      if s.Ok? then Ok(DStr(s.value), s.rest) else Fail
    else if t[0] == OPEN_BRACKET then
      if |t| >= 2 && t[1] == CLOSE_BRACKET then Ok(DArr([]), t[2..])
      else
        var items := ParseItems(t[1..]);
        if items.Ok? then Ok(DArr(items.value), items.rest) else Fail
    else if t[0] == OPEN_BRACE then
      if |t| >= 2 && t[1] == CLOSE_BRACE then Ok(DObj(map[]), t[2..])
      else
        var members := ParseMembers(t[1..]);
        if members.Ok? then Ok(DObj(members.value), members.rest) else Fail
    else if IsDigit(t[0]) || t[0] == 45 then
      var n := NumberPrefix(t);
      if n > 0 then Ok(DNum(t[..n]), t[n..]) else Fail
    else Fail
  }

  /** One or more items up to the closing bracket. */
  function ParseItems(t: Text): (r: Parsed<seq<Doc>>)
    ensures r.Ok? ==> |r.rest| < |t|
    decreases |t|, 1
  {
    var first := ParseValue(t);
    if first.Fail? || first.rest == [] then Fail
    else if first.rest[0] == CLOSE_BRACKET then Ok([first.value], first.rest[1..])
    else if first.rest[0] == COMMA then
      var tail := ParseItems(first.rest[1..]);
      if tail.Ok? then Ok([first.value] + tail.value, tail.rest) else Fail
    else Fail
  }

  /** One or more members up to the closing brace. */
  function ParseMembers(t: Text): (r: Parsed<map<Text, Doc>>)
    ensures r.Ok? ==> |r.rest| < |t|
    decreases |t|, 1
  {
    if t == [] || t[0] != QUOTE then Fail
    else
      var key := ParseString(t[1..]);
      if key.Fail? || key.rest == [] || key.rest[0] != COLON then Fail
      else
        var value := ParseValue(key.rest[1..]);
        if value.Fail? || value.rest == [] then Fail
        else if value.rest[0] == CLOSE_BRACE then Ok(map[key.value := value.value], value.rest[1..])
        else if value.rest[0] == COMMA then
          var tail := ParseMembers(value.rest[1..]);
          if tail.Ok? then Ok(tail.value[key.value := value.value], tail.rest) else Fail
        else Fail
  }
}
