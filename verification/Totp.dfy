/** Time-based one-time passwords: section 4.2 of RFC 6238 over section 5.3 of RFC 4226. The MAC is a
    parameter. Timestamps are milliseconds, absent when they are not finite. */
module Totp {
  import opened Collections
  import opened Base32

  const STEP_MS: int := 30_000
  const MAX_COUNTER: int := 0x1_0000_0000_0000_0000

  /** A 20-byte MAC. */
  type Mac = m: seq<Byte> | |m| == 20 witness Zeros(20)

  type MacFunction = (seq<Byte>, seq<Byte>) -> Mac

  // ---------- Counters and codes ----------

  function Counter(timestamp: real): int {
    (timestamp / STEP_MS as real).Floor
  }

  /** Big-endian bytes. */
  function Bytes(n: nat, width: nat): (bytes: seq<Byte>)
    ensures |bytes| == width
  {
    if width == 0 then [] else Bytes(n / 256, width - 1) + [n % 256]
  }

  /** The four bytes at the offset that the last four bits of the MAC give, without the top bit. */
  function DynamicTruncation(mac: Mac): (value: nat)
    ensures value < 0x8000_0000
  {
    var offset: nat := mac[19] % 16;
    var a: nat, b: nat, c: nat, d: nat := mac[offset], mac[offset + 1], mac[offset + 2], mac[offset + 3];
    a % 128 * 0x100_0000 + b * 0x1_0000 + c * 0x100 + d
  }

  function DigitChar(d: nat): char
    requires d < 10
  {
    '0' + d as char
  }

  /** The last `width` decimal digits. */
  function Decimal(n: nat, width: nat): (text: string)
    ensures |text| == width
  {
    if width == 0 then "" else Decimal(n / 10, width - 1) + [DigitChar(n % 10)]
  }

  function CodeAt(mac: MacFunction, key: seq<Byte>, counter: nat): string {
    Decimal(DynamicTruncation(mac(key, Bytes(counter, 8))) % 1_000_000, 6)
  }

  /** None where `generateTotpCode` throws: a bad timestamp, a bad secret, or a counter over 64 bits. */
  function Generate(mac: MacFunction, upper: char -> string, secret: string, timestamp: Option<real>): Option<string> {
    if timestamp.None? || timestamp.value < 0.0 then None
    else
      var counter, key := Counter(timestamp.value), Decode(upper, secret);
      if key.None? || counter >= MAX_COUNTER then None else Some(CodeAt(mac, key.value, counter))
  }

  predicate AllDigits(text: string) {
    forall i :: 0 <= i < |text| ==> '0' <= text[i] <= '9'
  }

  predicate SixDigits(code: string) {
    |code| == 6 && AllDigits(code)
  }

  function Shifted(timestamp: Option<real>, drift: int): Option<real> {
    if timestamp.None? then None else Some(timestamp.value + (drift * STEP_MS) as real)
  }

  /** The drifts from `drift` to 1 in turn; None where `verifyTotpCode` throws. */
  function VerifyFrom(mac: MacFunction, upper: char -> string, secret: string, code: string, timestamp: Option<real>, drift: int): Option<bool>
    decreases 2 - drift
  {
    if drift > 1 then Some(false)
    else
      var expected := Generate(mac, upper, secret, Shifted(timestamp, drift));
      if expected.None? then None
      else if expected.value == code then Some(true)
      else VerifyFrom(mac, upper, secret, code, timestamp, drift + 1)
  }

  function Verify(mac: MacFunction, upper: char -> string, secret: string, code: string, timestamp: Option<real>): Option<bool> {
    if !SixDigits(code) then Some(false) else VerifyFrom(mac, upper, secret, code, timestamp, -1)
  }

  method VerifyTotpCode(mac: MacFunction, upper: char -> string, secret: string, code: string, timestamp: Option<real>)
    returns (accepted: Option<bool>)
    ensures accepted == Verify(mac, upper, secret, code, timestamp)
  {
    if !SixDigits(code) {
      return Some(false);
    }
    for drift := -1 to 2
      invariant VerifyFrom(mac, upper, secret, code, timestamp, drift) == VerifyFrom(mac, upper, secret, code, timestamp, -1)
    {
      var expected := Generate(mac, upper, secret, Shifted(timestamp, drift));
      if expected.None? {
        return None;
      }
      if expected.value == code {
        return Some(true);
      }
    }
    return Some(false);
  }

  // ---------- What codes look like ----------

  function Value(text: string): nat
    requires AllDigits(text)
  {
    if text == "" then 0 else Value(text[..|text| - 1]) * 10 + (text[|text| - 1] - '0') as nat
  }

  function Pow10(width: nat): (p: nat)
    ensures p > 0
  {
    if width == 0 then 1 else 10 * Pow10(width - 1)
  }

  lemma {:induction false} ValueAppend(text: string, d: nat)
    requires AllDigits(text) && d < 10
    ensures AllDigits(text + [DigitChar(d)]) && Value(text + [DigitChar(d)]) == Value(text) * 10 + d
  {
    assert (text + [DigitChar(d)])[..|text|] == text;
  }

  lemma {:induction false} DecimalValue(n: nat, width: nat)
    requires n < Pow10(width)
    ensures AllDigits(Decimal(n, width)) && Value(Decimal(n, width)) == n
  {
    if width > 0 {
      DecimalValue(n / 10, width - 1);
      ValueAppend(Decimal(n / 10, width - 1), n % 10);
    }
  }

  function Pow256(width: nat): (p: nat)
    ensures p > 0
  {
    if width == 0 then 1 else 256 * Pow256(width - 1)
  }

  lemma {:induction false} BytesNumber(n: nat, width: nat)
    requires n < Pow256(width)
    ensures Number(Bytes(n, width)) == n
  {
    if width > 0 {
      BytesNumber(n / 256, width - 1);
      assert Bytes(n, width)[..width - 1] == Bytes(n / 256, width - 1);
    }
  }

  /** Truncation reads the four bytes as a big-endian number and drops its top bit. */
  lemma {:induction false} TruncationIsMaskedNumber(mac: Mac)
    ensures var offset: nat := mac[19] % 16; DynamicTruncation(mac) == Number(mac[offset..offset + 4]) % 0x8000_0000
  {
    var offset: nat := mac[19] % 16;
    var bytes := mac[offset..offset + 4];
    assert bytes[..3][..2][..1][..0] == [];
    assert Number(bytes[..3][..2][..1]) == bytes[0];
    assert Number(bytes[..3][..2]) == bytes[0] as int * 256 + bytes[1];
    assert Number(bytes[..3]) == Number(bytes[..3][..2]) * 256 + bytes[2];
  }

  /** A generated code has six digits and is the truncated MAC of the 8-byte counter modulo a million. */
  lemma {:induction false} CodesAreTruncatedMacs(mac: MacFunction, upper: char -> string, secret: string, timestamp: Option<real>)
    requires Generate(mac, upper, secret, timestamp).Some?
    ensures var code := Generate(mac, upper, secret, timestamp).value;
      && SixDigits(code)
      && exists message: seq<Byte> :: |message| == 8 && Number(message) == Counter(timestamp.value)
           && Value(code) == DynamicTruncation(mac(Decode(upper, secret).value, message)) % 1_000_000
  {
    var counter := Counter(timestamp.value);
    var message := Bytes(counter, 8);
    Powers();
    BytesNumber(counter, 8);
    DecimalValue(DynamicTruncation(mac(Decode(upper, secret).value, message)) % 1_000_000, 6);
  }

  lemma {:induction false} Powers()
    ensures Pow10(6) == 1_000_000 && Pow256(8) == MAX_COUNTER
  {
    assert Pow10(3) == 1000;
    assert Pow256(2) == 0x1_0000;
    assert Pow256(4) == 0x1_0000_0000;
  }

  /** Counters count half minutes. */
  lemma {:induction false} CountersAreHalfMinutes(timestamp: real)
    ensures Counter(timestamp) as real * 30_000.0 <= timestamp < (Counter(timestamp) + 1) as real * 30_000.0
  {
    assert timestamp / 30_000.0 * 30_000.0 == timestamp;
  }

  /** A code is generated exactly for a secret that decodes and a time from zero on whose counter has 64 bits. */
  lemma {:induction false} GenerationFailsIff(mac: MacFunction, upper: char -> string, secret: string, timestamp: Option<real>)
    ensures Generate(mac, upper, secret, timestamp).None?
      <==> timestamp.None? || timestamp.value < 0.0 || Counter(timestamp.value) >= 0x1_0000_0000_0000_0000 || Decode(upper, secret).None?
  {
  }

  /** A text that is not six digits is refused without an error, whatever the secret and the time are. */
  lemma {:induction false} MalformedCodesAreRefused(mac: MacFunction, upper: char -> string, secret: string, code: string, timestamp: Option<real>)
    requires |code| != 6 || exists c :: c in code && !('0' <= c <= '9')
    ensures Verify(mac, upper, secret, code, timestamp) == Some(false)
  {
  }

  // ---------- Acceptance ----------

  lemma {:induction false} ShiftedCounter(timestamp: real, drift: int)
    ensures Counter(timestamp + (drift * STEP_MS) as real) == Counter(timestamp) + drift
  {
    assert (timestamp + (drift * STEP_MS) as real) / STEP_MS as real == timestamp / STEP_MS as real + drift as real;
  }

  lemma {:induction false} FoundAtDrift(mac: MacFunction, upper: char -> string, secret: string, code: string, timestamp: Option<real>,
                                        drift: int, d: int)
    requires drift <= d <= 1
    requires forall e :: drift <= e <= d ==> Generate(mac, upper, secret, Shifted(timestamp, e)).Some?
    requires Generate(mac, upper, secret, Shifted(timestamp, d)) == Some(code)
    ensures VerifyFrom(mac, upper, secret, code, timestamp, drift) == Some(true)
    decreases d - drift
  {
    assert Generate(mac, upper, secret, Shifted(timestamp, drift)).Some?;
    if drift < d {
      FoundAtDrift(mac, upper, secret, code, timestamp, drift + 1, d);
    }
  }

  /** A generated code is accepted at any time of at least 30 seconds whose counter differs by at most
      one from the counter at its generation. */
  lemma {:induction false} GeneratedCodeVerifies(mac: MacFunction, upper: char -> string, secret: string, generated: Option<real>, now: real)
    requires Generate(mac, upper, secret, generated).Some?
    requires now >= 30_000.0 && -1 <= Counter(generated.value) - Counter(now) <= 1
    ensures Verify(mac, upper, secret, Generate(mac, upper, secret, generated).value, Some(now)) == Some(true)
  {
    var code, d := Generate(mac, upper, secret, generated).value, Counter(generated.value) - Counter(now);
    CodesAreTruncatedMacs(mac, upper, secret, generated);
    forall e | -1 <= e <= d
      ensures Generate(mac, upper, secret, Shifted(Some(now), e)).Some?
    {
      ShiftedCounter(now, e);
    }
    ShiftedCounter(now, d);
    FoundAtDrift(mac, upper, secret, code, Some(now), -1, d);
  }

  /** Nothing else is accepted. */
  lemma {:induction false} AcceptedCodeWasGenerated(mac: MacFunction, upper: char -> string, secret: string, code: string, timestamp: Option<real>)
    returns (counter: nat)
    requires Verify(mac, upper, secret, code, timestamp) == Some(true)
    ensures timestamp.Some? && timestamp.value >= 30_000.0 && Decode(upper, secret).Some?
    ensures -1 <= counter - Counter(timestamp.value) <= 1
    ensures code == CodeAt(mac, Decode(upper, secret).value, counter)
  {
    var d := AcceptedAtDrift(mac, upper, secret, code, timestamp, -1);
    FirstDriftSucceeds(mac, upper, secret, code, timestamp);
    counter := CounterAtDrift(mac, upper, secret, code, timestamp, d);
  }

  lemma {:induction false} CounterAtDrift(mac: MacFunction, upper: char -> string, secret: string, code: string, timestamp: Option<real>, d: int)
    returns (counter: nat)
    requires Generate(mac, upper, secret, Shifted(timestamp, d)) == Some(code)
    ensures timestamp.Some? && Decode(upper, secret).Some?
    ensures counter == Counter(timestamp.value) + d && code == CodeAt(mac, Decode(upper, secret).value, counter)
  {
    ShiftedCounter(timestamp.value, d);
    counter := Counter(Shifted(timestamp, d).value);
  }

  lemma {:induction false} FirstDriftSucceeds(mac: MacFunction, upper: char -> string, secret: string, code: string, timestamp: Option<real>)
    requires VerifyFrom(mac, upper, secret, code, timestamp, -1).Some?
    ensures timestamp.Some? && timestamp.value >= 30_000.0 && Decode(upper, secret).Some?
  {
    assert Generate(mac, upper, secret, Shifted(timestamp, -1)).Some?;
  }

  lemma {:induction false} AcceptedAtDrift(mac: MacFunction, upper: char -> string, secret: string, code: string, timestamp: Option<real>, drift: int)
    returns (d: int)
    requires drift >= -1 && VerifyFrom(mac, upper, secret, code, timestamp, drift) == Some(true)
    ensures drift <= d <= 1 && Generate(mac, upper, secret, Shifted(timestamp, d)) == Some(code)
    decreases 2 - drift
  {
    if Generate(mac, upper, secret, Shifted(timestamp, drift)) == Some(code) {
      d := drift;
    } else {
      d := AcceptedAtDrift(mac, upper, secret, code, timestamp, drift + 1);
    }
  }

  /** In the first 30 seconds of the epoch the drift backwards makes a negative time, so a code of six
      digits, even the current one, makes the check fail with an error. For times whose counters fit
      in 64 bits that, a time that is not finite and a malformed secret are the only such errors. */
  lemma {:induction false} VerificationFailsIff(mac: MacFunction, upper: char -> string, secret: string, code: string, timestamp: Option<real>)
    requires SixDigits(code) && (timestamp.Some? ==> Counter(timestamp.value) + 1 < MAX_COUNTER)
    ensures Verify(mac, upper, secret, code, timestamp).None?
      <==> timestamp.None? || timestamp.value < 30_000.0 || Decode(upper, secret).None?
  {
    if timestamp.Some? {
      ShiftedCounter(timestamp.value, -1);
      ShiftedCounter(timestamp.value, 0);
      ShiftedCounter(timestamp.value, 1);
      assert VerifyFrom(mac, upper, secret, code, timestamp, 2) == Some(false);
    }
  }
}
