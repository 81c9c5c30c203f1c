/** The base32 of section 6 of RFC 4648, without padding, as the TOTP secrets use it. */
module Base32 {
  import opened Collections

  type Byte = n: nat | n < 256
  type Bit = n: nat | n < 2

  // ---------- Bits, most significant first ----------

  function ToBits(n: nat, width: nat): (bits: seq<Bit>)
    ensures |bits| == width
  {
    if width == 0 then [] else ToBits(n / 2, width - 1) + [n % 2]
  }

  function FromBits(bits: seq<Bit>): (n: nat)
    ensures n < Pow2(|bits|)
  {
    if bits == [] then 0 else 2 * FromBits(bits[..|bits| - 1]) + bits[|bits| - 1]
  }

  lemma {:induction false} BitsRoundTrip(n: nat, width: nat)
    requires n < Pow2(width)
    ensures FromBits(ToBits(n, width)) == n
  {
    if width > 0 {
      BitsRoundTrip(n / 2, width - 1);
      var bits := ToBits(n, width);
      assert bits[..width - 1] == ToBits(n / 2, width - 1);
    }
  }

  lemma {:induction false} NumberRoundTrip(bits: seq<Bit>)
    ensures ToBits(FromBits(bits), |bits|) == bits
  {
    if bits != [] {
      var n := |bits| - 1;
      NumberRoundTrip(bits[..n]);
      assert FromBits(bits) / 2 == FromBits(bits[..n]) && FromBits(bits) % 2 == bits[n];
      assert bits == bits[..n] + [bits[n]];
    }
  }

  lemma {:induction false} Widths()
    ensures Pow2(5) == 32 && Pow2(8) == 256
  {
    assert Pow2(1) == 2 && Pow2(2) == 4 && Pow2(3) == 8 && Pow2(4) == 16;
    assert Pow2(5) == 32 && Pow2(6) == 64 && Pow2(7) == 128;
  }

  // ---------- Encoding ----------

  function BitsOfBytes(bytes: seq<Byte>): (bits: seq<Bit>)
    ensures |bits| == 8 * |bytes|
  {
    if bytes == [] then [] else BitsOfBytes(bytes[..|bytes| - 1]) + ToBits(bytes[|bytes| - 1], 8)
  }

  function Zeros(n: nat): (bits: seq<Bit>)
    ensures |bits| == n && forall i :: 0 <= i < n ==> bits[i] == 0
  {
    if n == 0 then [] else Zeros(n - 1) + [0]
  }

  function Padding(length: nat): nat {
    (5 - length % 5) % 5
  }

  /** Zero bits on the right up to a multiple of five. */
  function Padded(bits: seq<Bit>): (r: seq<Bit>)
    ensures |r| % 5 == 0 && |bits| <= |r| < |bits| + 5
  {
    bits + Zeros(Padding(|bits|))
  }

  /** The alphabet by position: the letters A to Z and the digits 2 to 7. */
  function LetterAt(n: nat): char
    requires n < 32
  {
    if n < 26 then 'A' + n as char else '2' + (n - 26) as char
  }

  /** The position of a character in the alphabet. */
  function Position(c: char): (n: Option<nat>)
    ensures n.Some? ==> n.value < 32 && LetterAt(n.value) == c
    ensures n.None? ==> forall k :: 0 <= k < 32 ==> LetterAt(k) != c
  {
    if 'A' <= c <= 'Z' then Some((c - 'A') as nat)
    else if '2' <= c <= '7' then Some((c - '2') as nat + 26)
    else None
  }

  lemma {:induction false} AlphabetIsListed(n: nat)
    requires n < 32
    ensures "ABCDEFGHIJKLMNOPQRSTUVWXYZ234567"[n] == LetterAt(n)
    ensures n < 26 ==> "abcdefghijklmnopqrstuvwxyz"[n] == LowerLetter(n)
  {
  }

  function Letter(group: seq<Bit>): char
    requires |group| == 5
  {
    Widths();
    LetterAt(FromBits(group))
  }

  /** One letter per group of five bits. */
  function Letters(bits: seq<Bit>): (text: string)
    requires |bits| % 5 == 0
    ensures |text| == |bits| / 5
    ensures forall i :: 0 <= i < |text| ==> Position(text[i]).Some?
  {
    if bits == [] then "" else
    var n := |bits| - 5;
    Letters(bits[..n]) + [Letter(bits[n..])]
  }

  function Encode(bytes: seq<Byte>): string {
    Letters(Padded(BitsOfBytes(bytes)))
  }

  // ---------- Decoding ----------

  function LowerLetter(n: nat): char
    requires n < 26
  {
    'a' + n as char
  }

  /** Upper-casing one character; a character outside the cases below may become anything. */
  ghost predicate UpperCases(upper: char -> string) {
    && (forall n :: 0 <= n < 26 ==> upper(LowerLetter(n)) == [LetterAt(n)])
    && (forall n :: 0 <= n < 32 ==> upper(LetterAt(n)) == [LetterAt(n)])
    && upper('=') == "="
  }

  function Upper(upper: char -> string, text: string): string {
    if text == "" then "" else Upper(upper, text[..|text| - 1]) + upper(text[|text| - 1])
  }

  function StripPadding(text: string): string {
    if text != "" && text[|text| - 1] == '=' then StripPadding(text[..|text| - 1]) else text
  }

  function Normalize(upper: char -> string, text: string): string {
    StripPadding(Upper(upper, text))
  }

  /** The bits of a normalized text, unless it has a character outside the alphabet. */
  function BitsOfText(text: string): (bits: Option<seq<Bit>>)
    ensures bits.Some? ==> |bits.value| == 5 * |text|
  {
    if text == "" then Some([])
    else
      var n := |text| - 1;
      var front, index := BitsOfText(text[..n]), Position(text[n]);
      if front.None? || index.None? then None else Some(front.value + ToBits(index.value, 5))
  }

  /** The whole bytes; fewer than eight bits are left over and dropped. */
  function BytesOfBits(bits: seq<Bit>): (bytes: seq<Byte>)
    ensures |bytes| == |bits| / 8
    decreases |bits|
  {
    if |bits| < 8 then [] else
    Widths();
    [FromBits(bits[..8])] + BytesOfBits(bits[8..])
  }

  function Decode(upper: char -> string, text: string): Option<seq<Byte>> {
    var bits := BitsOfText(Normalize(upper, text));
    if bits.None? then None else Some(BytesOfBits(bits.value))
  }

  // ---------- Appending ----------

  lemma {:induction false} BytesAppend(bytes: seq<Byte>, b: Byte)
    ensures BitsOfBytes(bytes + [b]) == BitsOfBytes(bytes) + ToBits(b, 8)
  {
    assert (bytes + [b])[..|bytes|] == bytes;
  }

  lemma {:induction false} LettersAppend(bits: seq<Bit>, group: seq<Bit>)
    requires |bits| % 5 == 0 && |group| == 5
    ensures Letters(bits + group) == Letters(bits) + [Letter(group)]
  {
    assert (bits + group)[..|bits|] == bits && (bits + group)[|bits|..] == group;
  }

  lemma {:induction false} TextAppend(text: string, c: char)
    ensures BitsOfText(text + [c]) ==
      if BitsOfText(text).Some? && Position(c).Some? then Some(BitsOfText(text).value + ToBits(Position(c).value, 5)) else None
  {
    assert (text + [c])[..|text|] == text;
  }

  lemma {:induction false} SplitAt<T>(s: seq<T>, n: nat)
    requires n < |s|
    ensures s[..n + 1] == s[..n] + [s[n]]
  {
  }

  // ---------- The loops ----------

  method Base32Encode(bytes: seq<Byte>) returns (result: string)
    ensures result == Encode(bytes)
  {
    var bits: seq<Bit> := [];
    for i := 0 to |bytes|
      invariant bits == BitsOfBytes(bytes[..i])
    {
      BytesAppend(bytes[..i], bytes[i]);
      SplitAt(bytes, i);
      bits := bits + ToBits(bytes[i], 8);
    }
    assert bytes[..|bytes|] == bytes;
    result := LettersOf(bits);
  }

  /** The group of five bits at an index, filled up with zeros on the right. */
  function GroupAt(bits: seq<Bit>, index: nat): (group: seq<Bit>)
    requires index < |bits|
    ensures |group| == 5
  {
    var slice := bits[index..if index + 5 <= |bits| then index + 5 else |bits|];
    slice + Zeros(5 - |slice|)
  }

  lemma {:induction false} GroupIsPadded(bits: seq<Bit>, index: nat)
    requires index < |bits| && index % 5 == 0
    ensures index + 5 <= |Padded(bits)| && GroupAt(bits, index) == Padded(bits)[index..index + 5]
  {
  }

  lemma {:induction false} SliceJoin<T>(s: seq<T>, i: nat, j: nat)
    requires i <= j <= |s|
    ensures s[..j] == s[..i] + s[i..j]
  {
  }

  lemma {:induction false} LettersStep(bits: seq<Bit>, index: nat)
    requires index < |bits| && index % 5 == 0
    ensures index + 5 <= |Padded(bits)|
    ensures Letters(Padded(bits)[..index + 5]) == Letters(Padded(bits)[..index]) + [Letter(GroupAt(bits, index))]
  {
    GroupIsPadded(bits, index);
    LettersAppend(Padded(bits)[..index], GroupAt(bits, index));
    SliceJoin(Padded(bits), index, index + 5);
  }

  lemma {:induction false} LettersEnd(bits: seq<Bit>, index: nat)
    requires |bits| <= index <= |Padded(bits)| && index % 5 == 0
    ensures Padded(bits)[..index] == Padded(bits)
  {
    assert index == |Padded(bits)|;
  }

  method LettersOf(bits: seq<Bit>) returns (result: string)
    ensures result == Letters(Padded(bits))
  {
    result := "";
    var index := 0;
    while index < |bits|
      invariant 0 <= index <= |Padded(bits)| && index % 5 == 0
      invariant result == Letters(Padded(bits)[..index])
    {
      LettersStep(bits, index);
      result := result + [Letter(GroupAt(bits, index))];
      index := index + 5;
    }
    LettersEnd(bits, index);
  }

  method Base32Decode(upper: char -> string, value: string) returns (result: Option<seq<Byte>>)
    ensures result == Decode(upper, value)
  {
    var normalized := Normalize(upper, value);
    var bits: seq<Bit> := [];
    for i := 0 to |normalized|
      invariant BitsOfText(normalized[..i]) == Some(bits)
    {
      var index := Position(normalized[i]);
      TextAppend(normalized[..i], normalized[i]);
      SplitAt(normalized, i);
      if index.None? {
        NoBits(normalized, i + 1);
        return None;
      }
      bits := bits + ToBits(index.value, 5);
    }
    assert normalized[..|normalized|] == normalized;
    var bytes := BytesOf(bits);
    result := Some(bytes);
  }

  lemma {:induction false} Regroup(a: seq<Byte>, b: Byte, c: seq<Byte>)
    ensures a + ([b] + c) == (a + [b]) + c
  {
  }

  lemma {:induction false} BytesStep(bits: seq<Bit>, index: nat)
    requires index + 8 <= |bits|
    ensures FromBits(bits[index..index + 8]) < 256
    ensures BytesOfBits(bits[index..]) == [FromBits(bits[index..index + 8])] + BytesOfBits(bits[index + 8..])
  {
    BytesOfBitsCons(bits[index..index + 8], bits[index + 8..]);
    assert bits[index..] == bits[index..index + 8] + bits[index + 8..];
  }

  method BytesOf(bits: seq<Bit>) returns (bytes: seq<Byte>)
    ensures bytes == BytesOfBits(bits)
  {
    bytes := [];
    var index := 0;
    assert bits[0..] == bits;
    while index + 8 <= |bits|
      invariant 0 <= index <= |bits|
      invariant bytes + BytesOfBits(bits[index..]) == BytesOfBits(bits)
    {
      BytesStep(bits, index);
      Regroup(bytes, FromBits(bits[index..index + 8]), BytesOfBits(bits[index + 8..]));
      bytes := bytes + [FromBits(bits[index..index + 8])];
      index := index + 8;
    }
  }

  lemma {:induction false} NoBits(text: string, i: nat)
    requires i <= |text| && BitsOfText(text[..i]).None?
    ensures BitsOfText(text).None?
    decreases |text|
  {
    if i == |text| {
      assert text[..i] == text;
    } else {
      var n := |text| - 1;
      assert text[..n][..i] == text[..i];
      NoBits(text[..n], i);
    }
  }

  // ---------- Round trips ----------

  lemma {:induction false} LetterPosition(group: seq<Bit>)
    requires |group| == 5
    ensures Position(Letter(group)).Some? && ToBits(Position(Letter(group)).value, 5) == group
  {
    Widths();
    NumberRoundTrip(group);
  }

  lemma {:induction false} LettersDecodeStep(front: seq<Bit>, group: seq<Bit>)
    requires |front| % 5 == 0 && |group| == 5 && BitsOfText(Letters(front)) == Some(front)
    ensures BitsOfText(Letters(front) + [Letter(group)]) == Some(front + group)
  {
    LetterPosition(group);
    TextAppend(Letters(front), Letter(group));
  }

  lemma {:induction false} LettersDecode(bits: seq<Bit>)
    requires |bits| % 5 == 0
    ensures BitsOfText(Letters(bits)) == Some(bits)
  {
    if bits != [] {
      var front, group := bits[..|bits| - 5], bits[|bits| - 5..];
      assert bits == front + group;
      LettersDecode(front);
      LettersDecodeStep(front, group);
      LettersAppend(front, group);
    }
  }

  lemma {:induction false} TextEncodes(text: string)
    requires BitsOfText(text).Some?
    ensures Letters(BitsOfText(text).value) == text
  {
    if text != "" {
      var front, c := text[..|text| - 1], text[|text| - 1];
      assert text == front + [c];
      TextAppend(front, c);
      TextEncodes(front);
      PositionLetter(c);
      LettersAppend(BitsOfText(front).value, ToBits(Position(c).value, 5));
    }
  }

  lemma {:induction false} PositionLetter(c: char)
    requires Position(c).Some?
    ensures Letter(ToBits(Position(c).value, 5)) == c
  {
    Widths();
    BitsRoundTrip(Position(c).value, 5);
  }

  lemma {:induction false} BytesOfBitsCons(first: seq<Bit>, rest: seq<Bit>)
    requires |first| == 8
    ensures FromBits(first) < 256
    ensures BytesOfBits(first + rest) == [FromBits(first)] + BytesOfBits(rest)
  {
    Widths();
    assert (first + rest)[..8] == first && (first + rest)[8..] == rest;
  }

  lemma {:induction false} BytesOfBitsJoinStep(first: seq<Bit>, tail: seq<Bit>, rest: seq<Bit>)
    requires |first| == 8 && BytesOfBits(tail + rest) == BytesOfBits(tail) + BytesOfBits(rest)
    ensures BytesOfBits(first + tail + rest) == BytesOfBits(first + tail) + BytesOfBits(rest)
  {
    BytesOfBitsCons(first, tail);
    BytesOfBitsCons(first, tail + rest);
    assert first + tail + rest == first + (tail + rest);
  }

  lemma {:induction false} BytesOfBitsJoin(bits: seq<Bit>, rest: seq<Bit>)
    requires |bits| % 8 == 0
    ensures BytesOfBits(bits + rest) == BytesOfBits(bits) + BytesOfBits(rest)
    decreases |bits|
  {
    if bits == [] {
      assert bits + rest == rest;
    } else {
      assert bits == bits[..8] + bits[8..];
      BytesOfBitsJoin(bits[8..], rest);
      BytesOfBitsJoinStep(bits[..8], bits[8..], rest);
    }
  }

  lemma {:induction false} BytesRead(bytes: seq<Byte>)
    ensures BytesOfBits(BitsOfBytes(bytes)) == bytes
  {
    if bytes != [] {
      var n := |bytes| - 1;
      BytesRead(bytes[..n]);
      BytesOfBitsJoin(BitsOfBytes(bytes[..n]), ToBits(bytes[n], 8));
      Widths();
      BitsRoundTrip(bytes[n], 8);
      BytesOfBitsCons(ToBits(bytes[n], 8), []);
      assert ToBits(bytes[n], 8) + [] == ToBits(bytes[n], 8);
      assert bytes == bytes[..n] + [bytes[n]];
    }
  }

  lemma {:induction false} BitsWritten(bits: seq<Bit>)
    ensures BitsOfBytes(BytesOfBits(bits)) == bits[..|bits| / 8 * 8]
    decreases |bits|
  {
    if |bits| >= 8 {
      BitsWritten(bits[8..]);
      ByteWritten(bits);
      WholeBytes(bits);
    }
  }

  lemma {:induction false} ByteWritten(bits: seq<Bit>)
    requires |bits| >= 8
    ensures BitsOfBytes(BytesOfBits(bits)) == bits[..8] + BitsOfBytes(BytesOfBits(bits[8..]))
  {
    Widths();
    NumberRoundTrip(bits[..8]);
    BitsOfBytesCons(FromBits(bits[..8]), BytesOfBits(bits[8..]));
  }

  lemma {:induction false} WholeBytes<T>(s: seq<T>)
    requires |s| >= 8
    ensures s[..|s| / 8 * 8] == s[..8] + s[8..][..|s[8..]| / 8 * 8]
  {
  }

  lemma {:induction false} BitsOfBytesCons(b: Byte, bytes: seq<Byte>)
    ensures BitsOfBytes([b] + bytes) == ToBits(b, 8) + BitsOfBytes(bytes)
  {
    var all, n := [b] + bytes, |bytes|;
    if n == 0 {
      assert all[..0] == [];
    } else {
      BitsOfBytesCons(b, bytes[..n - 1]);
      assert all[..n] == [b] + bytes[..n - 1] && all[n] == bytes[n - 1];
    }
  }

  /** `text` spells `code`: letters in either case, followed by any number of '='. */
  predicate Spells(text: string, code: string) {
    && |code| <= |text|
    && (forall i :: 0 <= i < |code| ==> SameLetter(text[i], code[i]))
    && (forall i :: |code| <= i < |text| ==> text[i] == '=')
  }

  predicate SameLetter(c: char, letter: char) {
    c == letter || exists k :: 0 <= k < 26 && LowerLetter(k) == c && LetterAt(k) == letter
  }

  lemma {:induction false} SpellingNormalizes(upper: char -> string, text: string, code: string)
    requires UpperCases(upper) && Spells(text, code) && forall i :: 0 <= i < |code| ==> Position(code[i]).Some?
    ensures Normalize(upper, text) == code
    decreases |text|
  {
    if |text| > |code| {
      var n := |text| - 1;
      SpellingNormalizes(upper, text[..n], code);
      var raised := Upper(upper, text[..n]);
      assert Upper(upper, text) == raised + "=" && (raised + "=")[..|raised|] == raised;
    } else {
      SpellingRises(upper, text, code);
      assert Position('=').None?;
    }
  }

  lemma {:induction false} SpellingRises(upper: char -> string, text: string, code: string)
    requires UpperCases(upper) && |text| == |code|
    requires forall i :: 0 <= i < |code| ==> SameLetter(text[i], code[i]) && Position(code[i]).Some?
    ensures Upper(upper, text) == code
  {
    if text != "" {
      var n := |text| - 1;
      SpellingRises(upper, text[..n], code[..n]);
      assert SameLetter(text[n], code[n]) && LetterAt(Position(code[n]).value) == code[n];
      assert upper(text[n]) == [code[n]];
      assert code == code[..n] + [code[n]];
    }
  }

  lemma {:induction false} PaddedReads(bytes: seq<Byte>)
    ensures BytesOfBits(Padded(BitsOfBytes(bytes))) == bytes
  {
    var bits := BitsOfBytes(bytes);
    BytesOfBitsJoin(bits, Zeros(Padding(|bits|)));
    BytesRead(bytes);
  }

  /** Decoding an encoded byte sequence gives it back, in either case and with any padding. */
  lemma {:induction false} DecodeInvertsEncode(upper: char -> string, bytes: seq<Byte>, text: string)
    requires UpperCases(upper) && Spells(text, Encode(bytes))
    ensures Decode(upper, text) == Some(bytes)
  {
    SpellingNormalizes(upper, text, Encode(bytes));
    LettersDecode(Padded(BitsOfBytes(bytes)));
    PaddedReads(bytes);
  }

  predicate AllZero(bits: seq<Bit>) {
    forall i :: 0 <= i < |bits| ==> bits[i] == 0
  }

  lemma {:induction false} PaddingIsLeftover(whole: seq<Bit>, left: seq<Bit>)
    requires (|whole| + |left|) % 5 == 0
    ensures Padded(whole) == whole + left <==> |left| < 5 && AllZero(left)
  {
    var padding := Zeros(Padding(|whole|));
    assert Padded(whole) == whole + padding;
    if |left| < 5 && AllZero(left) {
      assert |left| == |padding|;
      assert left == padding;
    }
    if Padded(whole) == whole + left {
      assert padding == Padded(whole)[|whole|..] == left;
    }
  }

  lemma {:induction false} LettersAgree(bits: seq<Bit>)
    requires |bits| % 5 == 0
    ensures var whole, left := bits[..|bits| / 8 * 8], bits[|bits| / 8 * 8..];
      Letters(Padded(whole)) == Letters(bits) <==> |left| < 5 && AllZero(left)
  {
    var whole, left := bits[..|bits| / 8 * 8], bits[|bits| / 8 * 8..];
    assert bits == whole + left;
    PaddingIsLeftover(whole, left);
    LettersDecode(Padded(whole));
    LettersDecode(bits);
  }

  /** The other way round, encoding gives the normalized text back exactly when the bits left over
      are fewer than five and all zero. */
  lemma {:induction false} EncodeInvertsDecode(upper: char -> string, text: string)
    requires Decode(upper, text).Some?
    ensures var normal := Normalize(upper, text);
      var bits := BitsOfText(normal).value;
      var left := bits[|bits| / 8 * 8..];
      Encode(Decode(upper, text).value) == normal <==> |left| < 5 && AllZero(left)
  {
    var bits := BitsOfText(Normalize(upper, text)).value;
    BitsWritten(bits);
    TextEncodes(Normalize(upper, text));
    LettersAgree(bits);
  }

  // ---------- Encoding as arithmetic ----------

  /** The number that big-endian bytes spell. */
  function Number(bytes: seq<Byte>): nat {
    if bytes == [] then 0 else Number(bytes[..|bytes| - 1]) * 256 + bytes[|bytes| - 1]
  }

  /** The number that letters of the alphabet spell to the base of 32. */
  function LetterNumber(text: string): nat {
    if text == "" then 0
    else
      var index := Position(text[|text| - 1]);
      LetterNumber(text[..|text| - 1]) * 32 + (if index.Some? then index.value else 0)
  }

  lemma {:induction false} BitAppended(bits: seq<Bit>, bit: Bit)
    ensures FromBits(bits + [bit]) == 2 * FromBits(bits) + bit
  {
    assert (bits + [bit])[..|bits|] == bits;
  }

  lemma {:induction false} ProductDoubles(x: nat, y: nat)
    ensures x * (2 * y) == 2 * (x * y)
  {
  }

  lemma {:induction false} BitsJoin(a: seq<Bit>, b: seq<Bit>)
    ensures FromBits(a + b) == FromBits(a) * Pow2(|b|) + FromBits(b)
  {
    if b == [] {
      assert a + b == a;
    } else {
      var front, last := b[..|b| - 1], b[|b| - 1];
      assert b == front + [last] && a + b == (a + front) + [last];
      BitsJoin(a, front);
      BitAppended(a + front, last);
      BitAppended(front, last);
      ProductDoubles(FromBits(a), Pow2(|front|));
    }
  }

  lemma {:induction false} ZerosAreZero(n: nat)
    ensures FromBits(Zeros(n)) == 0
  {
    if n > 0 {
      ZerosAreZero(n - 1);
      assert Zeros(n)[..n - 1] == Zeros(n - 1);
    }
  }

  lemma {:induction false} BytesNumber(bytes: seq<Byte>)
    ensures FromBits(BitsOfBytes(bytes)) == Number(bytes)
  {
    if bytes != [] {
      var front, last := bytes[..|bytes| - 1], bytes[|bytes| - 1];
      BytesNumber(front);
      Widths();
      BitsRoundTrip(last, 8);
      BitsJoin(BitsOfBytes(front), ToBits(last, 8));
    }
  }

  lemma {:induction false} LettersNumber(bits: seq<Bit>)
    requires |bits| % 5 == 0
    ensures LetterNumber(Letters(bits)) == FromBits(bits)
  {
    if bits != [] {
      var front, group := bits[..|bits| - 5], bits[|bits| - 5..];
      assert bits == front + group;
      LettersNumber(front);
      LettersAppend(front, group);
      LetterPosition(group);
      Widths();
      BitsJoin(front, group);
      BitsRoundTrip(Position(Letter(group)).value, 5);
      assert (Letters(front) + [Letter(group)])[..|Letters(front)|] == Letters(front);
    }
  }

  /** The encoding has as many letters as the bits need, and spells the number of the bytes, shifted left by
      the bits that the last letter has to spare. */
  lemma {:induction false} EncodingSpellsNumber(bytes: seq<Byte>)
    ensures var text := Encode(bytes);
      && 0 <= 5 * |text| - 8 * |bytes| < 5
      && LetterNumber(text) == Number(bytes) * Pow2(5 * |text| - 8 * |bytes|)
  {
    var bits := BitsOfBytes(bytes);
    BytesNumber(bytes);
    ZerosAreZero(Padding(|bits|));
    BitsJoin(bits, Zeros(Padding(|bits|)));
    LettersNumber(Padded(bits));
  }
}
