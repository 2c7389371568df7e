/**
 Time-based one-time passwords: the step a time falls in, the six digits of a step, and the check of a
 presented code. The HMAC is an uninterpreted function with a 20-byte result.
 */
module Totp {
  import opened Options
  import opened Whitespace

  type Byte = b: int | 0 <= b < 256
  type Digest = d: seq<Byte> | |d| == 20 witness seq(20, _ => 0)

  /** The keyed hash, of a secret and the bytes of a step. */
  type Hmac = (seq<Byte>, seq<Byte>) -> Digest

  const DIGITS: nat := 6
  const MODULUS: nat := 1_000_000
  const STEP_SECONDS: int := 30
  const SKEW_STEPS: int := 1

  const I64_MIN: int := -0x8000_0000_0000_0000
  const I64_MAX: int := 0x7FFF_FFFF_FFFF_FFFF

  /** The times the clock can show, in seconds. */
  type Time = t: int | I64_MIN <= t <= I64_MAX

  // ---------------------------------------------------------------------------------------
  // Steps
  // ---------------------------------------------------------------------------------------

  function StepAt(at: Time): int { at / STEP_SECONDS }

  /** A step is the half-open stretch of thirty seconds that holds the time, before 1970 as after. */
  lemma StepHoldsTime(at: Time, step: int)
    ensures StepAt(at) == step <==> 30 * step <= at < 30 * (step + 1)
  {
    if STEP_SECONDS * step <= at < STEP_SECONDS * (step + 1) {
      assert at == STEP_SECONDS * step + (at - STEP_SECONDS * step);
    }
  }

  /** The big-endian bytes of `v`, least significant last. */
  function BigEndian(v: nat, n: nat): (r: seq<Byte>)
    ensures |r| == n
  {
    if n == 0 then [] else BigEndian(v / 256, n - 1) + [v % 256]
  }

  const TWO_TO_64: nat := 0x1_0000_0000_0000_0000

  /** The two's complement bytes of a step. */
  function StepBytes(step: int): (r: seq<Byte>)
    requires I64_MIN <= step <= I64_MAX
    ensures |r| == 8
  {
    BigEndian(if step < 0 then step + TWO_TO_64 else step, 8)
  }

  function Value(bytes: seq<Byte>): nat {
    if bytes == [] then 0 else 256 * Value(bytes[..|bytes| - 1]) + bytes[|bytes| - 1]
  }

  function Power(n: nat): nat { if n == 0 then 1 else 256 * Power(n - 1) }

  lemma {:induction false} BytesHoldValue(v: nat, n: nat)
    requires v < Power(n)
    ensures Value(BigEndian(v, n)) == v
  {
    if n > 0 {
      assert v / 256 < Power(n - 1);
      BytesHoldValue(v / 256, n - 1);
      assert BigEndian(v, n)[..n - 1] == BigEndian(v / 256, n - 1);
    }
  }

  /** What is hashed is the step in two's complement, the most significant byte first (RFC 4226 section 5.2). */
  lemma StepBytesHoldStep(step: int)
    requires I64_MIN <= step <= I64_MAX
    ensures |StepBytes(step)| == 8
    ensures Value(StepBytes(step)) == if step < 0 then step + 0x1_0000_0000_0000_0000 else step
  {
    BytesHoldValue(if step < 0 then step + TWO_TO_64 else step, 8);
  }

  /** So different steps are hashed from different bytes. */
  lemma StepBytesDiffer(a: int, b: int)
    requires I64_MIN <= a <= I64_MAX && I64_MIN <= b <= I64_MAX
    ensures StepBytes(a) == StepBytes(b) <==> a == b
  {
    StepBytesHoldStep(a);
    StepBytesHoldStep(b);
  }

  // ---------------------------------------------------------------------------------------
  // Codes
  // ---------------------------------------------------------------------------------------

  /** The dynamic truncation: the four bytes that the last nibble picks, without their sign bit. */
  function Truncated(digest: Digest): (binary: nat)
    ensures binary < 0x8000_0000
  {
    var offset := digest[19] % 16;
    var b0: int, b1: int, b2: int, b3: int := digest[offset], digest[offset + 1], digest[offset + 2], digest[offset + 3];
    0x100_0000 * (b0 % 128) + 0x1_0000 * b1 + 0x100 * b2 + b3
  }

  function Digit(d: nat): char
    requires d < 10
  {
    '0' + d as char
  }

  /** A number in decimal. */
  function Decimal(n: nat): string {
    if n < 10 then [Digit(n)] else Decimal(n / 10) + [Digit(n % 10)]
  }

  function Zeros(n: nat): string { seq(n, _ => '0') }

  /** A string with zeros in front up to a width. */
  function Padded(s: string, width: nat): string {
    if |s| >= width then s else Zeros(width - |s|) + s
  }

  function CodeAtStep(hmac: Hmac, secret: seq<Byte>, step: int): string
    requires I64_MIN <= step <= I64_MAX
  {
    Padded(Decimal(Truncated(hmac(secret, StepBytes(step))) % MODULUS), DIGITS)
  }

  predicate IsDigits(s: string) { forall i | 0 <= i < |s| :: '0' <= s[i] <= '9' }

  /** What a string of digits says. */
  function Number(s: string): nat
    requires IsDigits(s)
  {
    if s == [] then 0 else 10 * Number(s[..|s| - 1]) + (s[|s| - 1] - '0') as nat
  }

  function TenTo(n: nat): nat { if n == 0 then 1 else 10 * TenTo(n - 1) }

  lemma {:induction false} DecimalReads(n: nat, width: nat)
    requires width > 0 && n < TenTo(width)
    ensures 1 <= |Decimal(n)| <= width && IsDigits(Decimal(n)) && Number(Decimal(n)) == n
  {
    if n < 10 {
      assert Decimal(n)[..0] == [];
    } else {
      assert width > 1 by {
        assert TenTo(1) == 10;
      }
      DecimalReads(n / 10, width - 1);
      var front := Decimal(n / 10);
      assert Decimal(n)[..|front|] == front;
    }
  }

  lemma {:induction false} LeadingZeros(n: nat, s: string)
    requires IsDigits(s)
    ensures IsDigits(Zeros(n) + s) && Number(Zeros(n) + s) == Number(s)
  {
    var all := Zeros(n) + s;
    if s == [] {
      if n > 0 {
        LeadingZeros(n - 1, []);
        assert Zeros(n - 1) + [] == all[..|all| - 1];
      }
    } else {
      LeadingZeros(n, s[..|s| - 1]);
      assert all[..|all| - 1] == Zeros(n) + s[..|s| - 1];
    }
  }

  lemma PaddedReads(n: nat)
    requires n < MODULUS
    ensures |Padded(Decimal(n), DIGITS)| == DIGITS && IsDigits(Padded(Decimal(n), DIGITS))
    ensures Number(Padded(Decimal(n), DIGITS)) == n
  {
    DecimalReads(n, DIGITS);
    LeadingZeros(DIGITS - |Decimal(n)|, Decimal(n));
  }

  /**
   Every code is exactly six digits, and they say the truncated hash modulo a million: no leading zero
   is lost and two codes are alike only when the residues are.
   */
  lemma CodeIsSixDigits(hmac: Hmac, secret: seq<Byte>, step: int)
    requires I64_MIN <= step <= I64_MAX
    ensures |CodeAtStep(hmac, secret, step)| == 6 && IsDigits(CodeAtStep(hmac, secret, step))
    ensures Number(CodeAtStep(hmac, secret, step)) == Truncated(hmac(secret, StepBytes(step))) % 1_000_000
  {
    PaddedReads(Truncated(hmac(secret, StepBytes(step))) % MODULUS);
  }

  /** The truncated hash is the low 31 bits of a window of the digest that never runs off its end. */
  lemma TruncatedIsWindow(digest: Digest)
    ensures var offset := digest[19] % 16;
            offset + 4 <= |digest| && Truncated(digest) == Value(digest[offset..offset + 4]) % 0x8000_0000
  {
    var offset := digest[19] % 16;
    FourBytes(digest[offset..offset + 4]);
    var b0: int := digest[offset];
    assert b0 == 128 * (b0 / 128) + b0 % 128;
  }

  lemma FourBytes(window: seq<Byte>)
    requires |window| == 4
    ensures var b0: int, b1: int, b2: int, b3: int := window[0], window[1], window[2], window[3];
            Value(window) == 0x100_0000 * b0 + 0x1_0000 * b1 + 0x100 * b2 + b3
  {
    assert window[..3][..2] == window[..2] && window[..2][..1] == window[..1] && window[..1][..0] == [];
    assert Value(window[..1]) == window[0];
    assert Value(window[..2]) == 256 * Value(window[..1]) + window[1];
    assert Value(window[..3]) == 256 * Value(window[..2]) + window[2];
  }

  // ---------------------------------------------------------------------------------------
  // Verification
  // ---------------------------------------------------------------------------------------

  /** Above the step last accepted. */
  predicate Unused(step: int, lastStep: Option<int>) { lastStep.Some? ==> step > lastStep.value }

  /** Whether a code may be accepted at a step. */
  predicate Accepts(hmac: Hmac, secret: seq<Byte>, code: string, at: Time, lastStep: Option<int>, step: int) {
    && StepAt(at) - 1 <= step <= StepAt(at) + 1
    && Unused(step, lastStep)
    && InRange(step)
    && CodeAtStep(hmac, secret, step) == Trim(code)
  }

  /** `front` and `back` are white space around a code. */
  predicate Around(front: string, code: string, back: string, presented: string) {
    AllWhite(front) && AllWhite(back) && presented == front + code + back
  }

  /** A presented text is accepted at the steps near the time and above the last whose code it is, give or take white space around it. */
  lemma AcceptsIff(hmac: Hmac, secret: seq<Byte>, presented: string, at: Time, lastStep: Option<int>, step: int)
    requires InRange(step)
    ensures Accepts(hmac, secret, presented, at, lastStep, step) <==>
              && StepAt(at) - 1 <= step <= StepAt(at) + 1
              && (lastStep.None? || step > lastStep.value)
              && exists front, back :: Around(front, CodeAtStep(hmac, secret, step), back, presented)
  {
    var code := CodeAtStep(hmac, secret, step);
    CodeIsSixDigits(hmac, secret, step);
    if code == Trim(presented) {
      var front, back := TrimIs(presented);
      assert Around(front, code, back, presented);
    }
    if front, back :| Around(front, code, back, presented) {
      TrimmedIs(front, code, back);
    }
  }

  /** Steps near a time are 64-bit numbers themselves. */
  predicate InRange(step: int) { I64_MIN <= step <= I64_MAX }

  /** The earliest step the code may be accepted at, if there is one; malformed codes have none. */
  method Verify(hmac: Hmac, secret: seq<Byte>, code: string, at: Time, lastStep: Option<int>) returns (r: Option<int>)
    ensures r.Some? ==>
              && Accepts(hmac, secret, code, at, lastStep, r.value)
              && forall step | step < r.value :: !Accepts(hmac, secret, code, at, lastStep, step)
    ensures r.None? ==> forall step :: !Accepts(hmac, secret, code, at, lastStep, step)
  {
    var presented := Trim(code);
    if |presented| != DIGITS || !IsDigits(presented) {
      forall step ensures !Accepts(hmac, secret, code, at, lastStep, step) {
        if InRange(step) {
          CodeIsSixDigits(hmac, secret, step);
        }
      }
      return None;
    }
    var current := StepAt(at);
    for step := current - SKEW_STEPS to current + SKEW_STEPS + 1
      invariant forall s | s < step :: !Accepts(hmac, secret, code, at, lastStep, s)
    {
      if lastStep.Some? && step <= lastStep.value {
        continue;
      }
      var expected := CodeAtStep(hmac, secret, step);
      if expected == presented {
        return Some(step);
      }
    }
    return None;
  }
}
