/**
 * The arithmetic of the Bootstring (Punycode) encoder: the parameters of
 * section 5 of RFC 3492, the threshold function, the digit alphabet, the
 * generalized variable-length integers of section 3.3 and the bias
 * adaptation of section 6.1.
 */
module Bootstring {

  // Punycode parameter values (section 5 of RFC 3492).
  const BASE: int := 36
  const TMIN: int := 1
  const TMAX: int := 26
  const SKEW: int := 38
  const DAMP: int := 700
  const INITIAL_BIAS: int := 72
  const INITIAL_N: int := 128
  // The ACE prefix of section 5 of RFC 3490 and the Punycode delimiter.
  const PREFIX: string := "xn--"
  const DELIMITER: char := '-'

  // The bound of the division loop of `adapt`: ((BASE - TMIN) * TMAX) / 2.
  const ADAPT_LIMIT: int := 455

  // The solver treats a product or a quotient as linear only when one
  // operand is a numeral, so the definitions below multiply and divide by
  // the values of these constants: 35 is BASE - TMIN, 36 is BASE and
  // BASE - TMIN + 1, 700 is DAMP.

  /** An unsigned 32-bit integer (the encoder's `uint32_t delta`). */
  type u32 = x: int | 0 <= x < 0x1_0000_0000
  const U32_MAX: int := 0xFFFF_FFFF

  /** A digit value of the base-36 number system. */
  type Digit = d: int | 0 <= d < BASE

  // ---------------------------------------------------------------------
  // Threshold
  // ---------------------------------------------------------------------

  /** `calculate_threshold`: k - bias, clamped to [TMIN, TMAX]. */
  function Threshold(k: int, bias: int): (t: int)
    ensures TMIN <= t <= TMAX
    ensures bias + TMIN < k < bias + TMAX ==> t == k - bias
    ensures k <= bias + TMIN ==> t == TMIN
    ensures k >= bias + TMAX ==> t == TMAX
  {
    if k <= bias + TMIN then TMIN
    else if k >= bias + TMAX then TMAX
    else k - bias
  }

  /** A larger position never has a smaller threshold. */
  lemma ThresholdMonotone(k1: int, k2: int, bias: int)
    requires k1 <= k2
    ensures Threshold(k1, bias) <= Threshold(k2, bias)
  {
  }

  // ---------------------------------------------------------------------
  // Digits
  // ---------------------------------------------------------------------

  /** The characters that `encode_digit` can produce. */
  predicate IsDigitChar(c: char) {
    'a' <= c <= 'z' || '0' <= c <= '9'
  }

  /** The value of a digit character: the inverse of `EncodeDigit`. */
  function DigitValue(c: char): (d: Digit)
    requires IsDigitChar(c)
  {
    if 'a' <= c <= 'z' then c as int - 'a' as int else c as int - '0' as int + 26
  }

  /** `encode_digit`: 0..25 to 'a'..'z' and 26..35 to '0'..'9'. */
  function EncodeDigit(d: Digit): (c: char)
    ensures IsDigitChar(c) && DigitValue(c) == d
    ensures d < 26 ==> c as int == d + 97
    ensures d >= 26 ==> c as int == d + 22
  {
    if d < 26 then (d + 97) as char else (d + 22) as char
  }

  /** Every digit character is the encoding of its value. */
  lemma EncodeDigitOfValue(c: char)
    requires IsDigitChar(c)
    ensures EncodeDigit(DigitValue(c)) == c
  {
  }

  // ---------------------------------------------------------------------
  // Generalized variable-length integers (section 3.3 of RFC 3492)
  // ---------------------------------------------------------------------

  /**
   * The digits `encode_int` emits for `q` when the first digit sits at
   * position `k` (k is BASE for the first digit, 2*BASE for the second, ...).
   */
  function VarIntFrom(k: int, bias: int, q: nat): (s: string)
    decreases q
  {
    var t := Threshold(k, bias);
    if q < t then [EncodeDigit(q)]
    else
      var (q', r) := QuotRem(q - t, BASE - t);
      [EncodeDigit(t + r)] + VarIntFrom(k + BASE, bias, q')
  }

  /**
   * Quotient and remainder of a by w, by repeated subtraction. It equals
   * (a / w, a % w) (QuotRemIsDivMod); written this way so that reasoning
   * about one digit involves no nonlinear arithmetic.
   */
  function QuotRem(a: nat, w: int): (r: (nat, nat))
    requires w > 0
    ensures r.0 <= a && r.1 < w
    decreases a
  {
    if a < w then (0, a)
    else
      var r := QuotRem(a - w, w);
      (r.0 + 1, r.1)
  }

  lemma {:induction false} QuotRemIsDivMod(a: nat, w: int)
    requires w > 0
    ensures QuotRem(a, w) == (a / w, a % w)
    decreases a
  {
    if a < w {
      DivModUnique(a, w, 0, a);
    } else {
      QuotRemIsDivMod(a - w, w);
      DivMod(a - w, w);
      DivModUnique(a, w, (a - w) / w + 1, (a - w) % w);
    }
  }

  /** The digits `encode_int(bias, q)` emits. */
  function VarInt(bias: int, q: nat): string {
    VarIntFrom(BASE, bias, q)
  }

  /**
   * A well-formed variable-length integer whose first digit sits at position
   * k: one or more digits, every digit but the last at least its threshold,
   * the last below its threshold.
   */
  predicate IsVarIntFrom(k: int, bias: int, s: string) {
    |s| > 0 &&
    (forall j :: 0 <= j < |s| ==> IsDigitChar(s[j])) &&
    (forall j :: 0 <= j < |s| - 1 ==> DigitValue(s[j]) >= Threshold(k + 36 * j, bias)) &&
    DigitValue(s[|s| - 1]) < Threshold(k + 36 * (|s| - 1), bias)
  }

  predicate IsVarInt(bias: int, s: string) {
    IsVarIntFrom(BASE, bias, s)
  }

  /** The value of a digit string: digit j has weight w(j), w(0) = 1, w(j+1) = w(j) * (BASE - t(j)). */
  function DecodeFrom(k: int, bias: int, s: string): nat
    requires forall j :: 0 <= j < |s| ==> IsDigitChar(s[j])
    decreases |s|
  {
    if |s| == 0 then 0
    else
      var w, v := BASE - Threshold(k, bias), DecodeFrom(k + BASE, bias, s[1..]);
      MulLe(v, 0, w);
      DigitValue(s[0]) + w * v
  }

  lemma {:induction false} VarIntFromWellFormed(k: int, bias: int, q: nat)
    ensures IsVarIntFrom(k, bias, VarIntFrom(k, bias, q))
    decreases q
  {
    var t := Threshold(k, bias);
    var s := VarIntFrom(k, bias, q);
    if q >= t {
      var (q', r) := QuotRem(q - t, BASE - t);
      VarIntFromWellFormed(k + BASE, bias, q');
      var rest := VarIntFrom(k + BASE, bias, q');
      assert s == [EncodeDigit(t + r)] + rest;
      forall j | 0 <= j < |s| - 1
        ensures DigitValue(s[j]) >= Threshold(k + 36 * j, bias)
      {
        if j > 0 {
          assert s[j] == rest[j - 1];
          assert k + 36 * j == (k + BASE) + 36 * (j - 1);
        }
      }
      assert k + 36 * (|s| - 1) == (k + BASE) + 36 * (|rest| - 1);
    }
  }

  /** One step of decoding: the first digit plus the weighted value of the rest. */
  lemma DecodeCons(k: int, bias: int, s: string)
    requires |s| > 0 && forall j :: 0 <= j < |s| ==> IsDigitChar(s[j])
    ensures DecodeFrom(k, bias, s) ==
      DigitValue(s[0]) + (BASE - Threshold(k, bias)) * DecodeFrom(k + BASE, bias, s[1..])
  {
  }

  /** Decoding the digits `encode_int` emits gives back the encoded value. */
  lemma {:induction false} VarIntFromRoundTrip(k: int, bias: int, q: nat)
    ensures var s := VarIntFrom(k, bias, q);
      (forall j :: 0 <= j < |s| ==> IsDigitChar(s[j])) && DecodeFrom(k, bias, s) == q
    decreases q
  {
    VarIntFromWellFormed(k, bias, q);
    var t := Threshold(k, bias);
    var s := VarIntFrom(k, bias, q);
    DecodeCons(k, bias, s);
    var w := BASE - t;
    if q < t {
      assert s[1..] == [];
      assert DecodeFrom(k + BASE, bias, s[1..]) == 0;
      assert DecodeFrom(k, bias, s) == q + w * 0;
    } else {
      var q' := (q - t) / w;
      var r := (q - t) % w;
      DivMod(q - t, w);
      QuotRemIsDivMod(q - t, w);
      VarIntFromRoundTrip(k + BASE, bias, q');
      assert s[1..] == VarIntFrom(k + BASE, bias, q');
      assert DigitValue(s[0]) == t + r;
      assert DecodeFrom(k, bias, s) == t + r + w * q';
    }
  }

  /** The digits after the first of a well-formed integer form one that starts a position later. */
  lemma VarIntFromTail(k: int, bias: int, s: string)
    requires IsVarIntFrom(k, bias, s) && |s| > 1
    ensures IsVarIntFrom(k + BASE, bias, s[1..])
  {
    var rest := s[1..];
    forall j | 0 <= j < |rest| - 1
      ensures DigitValue(rest[j]) >= Threshold(k + BASE + 36 * j, bias)
    {
      assert rest[j] == s[j + 1];
      assert k + 36 * (j + 1) == k + BASE + 36 * j;
    }
    assert k + 36 * (|s| - 1) == k + BASE + 36 * (|rest| - 1);
  }

  /** The arithmetic of one digit: v = d + w * v' with t <= d < BASE splits back into d and v'. */
  lemma DigitSplit(v: int, d: int, t: int, v': nat)
    requires TMIN <= t <= d < BASE && v == d + (BASE - t) * v'
    ensures v >= t && QuotRem(v - t, BASE - t) == (v', d - t)
  {
    var w := BASE - t;
    MulLe(v', 0, w);
    assert v - t == w * v' + (d - t);
    DivModUnique(v - t, w, v', d - t);
    QuotRemIsDivMod(v - t, w);
  }

  /** Every well-formed digit string is what `encode_int` emits for its value. */
  lemma {:induction false} VarIntFromOfDecode(k: int, bias: int, s: string)
    requires IsVarIntFrom(k, bias, s)
    ensures VarIntFrom(k, bias, DecodeFrom(k, bias, s)) == s
    decreases |s|
  {
    var t := Threshold(k, bias);
    var d := DigitValue(s[0]);
    var v := DecodeFrom(k, bias, s);
    EncodeDigitOfValue(s[0]);
    DecodeCons(k, bias, s);
    var rest := s[1..];
    var v' := DecodeFrom(k + BASE, bias, rest);
    if |s| == 1 {
      assert rest == [];
      assert v' == 0;
      assert v == d + (BASE - t) * 0;
      assert VarIntFrom(k, bias, v) == [EncodeDigit(d)];
    } else {
      VarIntFromTail(k, bias, s);
      DigitSplit(v, d, t, v');
      VarIntFromOfDecode(k + BASE, bias, rest);
      assert VarIntFrom(k, bias, v) == [EncodeDigit(d)] + VarIntFrom(k + BASE, bias, v');
      assert s == [s[0]] + rest;
    }
  }

  /** `encode_int` produces a well-formed integer and decoding it gives `q` back. */
  lemma VarIntRoundTrip(bias: int, q: nat)
    ensures IsVarInt(bias, VarInt(bias, q))
    ensures DecodeFrom(BASE, bias, VarInt(bias, q)) == q
  {
    VarIntFromWellFormed(BASE, bias, q);
    VarIntFromRoundTrip(BASE, bias, q);
  }

  /** The encoding is a bijection: every well-formed integer is produced by exactly one value. */
  lemma VarIntOfDecode(bias: int, s: string)
    requires IsVarInt(bias, s)
    ensures VarInt(bias, DecodeFrom(BASE, bias, s)) == s
  {
    VarIntFromOfDecode(BASE, bias, s);
  }

  /**
   * `encode_int`: emits the digits of `delta` as a variable-length integer,
   * lowest digit first.
   */
  method EncodeInt(bias: int, delta: nat) returns (result: string)
    ensures result == VarInt(bias, delta)
  {
    result := "";
    var k := BASE;
    var q: nat := delta;
    while true
      invariant result + VarIntFrom(k, bias, q) == VarInt(bias, delta)
      decreases q
    {
      var t := Threshold(k, bias);
      if q < t {
        result := result + [EncodeDigit(q)];
        break;
      }
      var digit, next := DigitStep(q, t);
      AppendAssoc(result, [EncodeDigit(digit)], VarIntFrom(k + BASE, bias, next));
      result := result + [EncodeDigit(digit)];
      q := next;
      k := k + BASE;
    }
  }

  /**
   * The arithmetic of one digit of `encode_int`: the digit t + (q - t) mod
   * (BASE - t) and the quotient (q - t) div (BASE - t) carried on.
   */
  method DigitStep(q: nat, t: int) returns (digit: Digit, next: nat)
    requires TMIN <= t <= TMAX && q >= t
    ensures (next, digit - t) == QuotRem(q - t, BASE - t)
  {
    QuotRemIsDivMod(q - t, BASE - t);
    digit := t + (q - t) % (BASE - t);
    next := (q - t) / (BASE - t);
  }

  // ---------------------------------------------------------------------
  // Bias adaptation (section 6.1 of RFC 3492)
  // ---------------------------------------------------------------------

  /** d divided i times by BASE - TMIN. */
  function Shrunk(d: nat, i: nat): nat
    decreases i
  {
    if i == 0 then d else Shrunk(d / 35, i - 1)
  }

  /** The first two steps of `adapt`: scale back, then increase for the longer string. */
  function Damped(delta: nat, numPoints: nat, firstTime: bool): (r: nat)
    requires numPoints > 0
    ensures var d := if firstTime then delta / 700 else delta / 2;
      r == d + d / numPoints
  {
    var d := if firstTime then delta / 700 else delta / 2;
    QuotRemIsDivMod(d, numPoints);
    d + QuotRem(d, numPoints).0
  }

  /** The last step of `adapt`: ((BASE - TMIN + 1) * d) / (d + SKEW), always below BASE. */
  function Final(d: nat): (r: nat)
    ensures r == 36 * d / (d + 38)
    ensures r < BASE
  {
    var a := 36 * d;
    DivBelow(a, d + SKEW, BASE);
    QuotRemIsDivMod(a, d + SKEW);
    QuotRem(a, d + SKEW).0
  }

  /**
   * The division loop of `adapt` from an accumulated k, then its last step:
   * while d exceeds ADAPT_LIMIT it is divided by BASE - TMIN and k grows by
   * BASE.
   */
  function AdaptFrom(k: nat, d: nat): nat
    decreases d
  {
    if d > ADAPT_LIMIT then AdaptFrom(k + BASE, d / 35) else k + Final(d)
  }

  /** The number of divisions the loop of `adapt` makes. */
  function Divisions(d: nat): nat
    decreases d
  {
    if d > ADAPT_LIMIT then 1 + Divisions(d / 35) else 0
  }

  /** `adapt` as a value. */
  function Adapted(delta: nat, numPoints: nat, firstTime: bool): nat
    requires numPoints > 0
  {
    AdaptFrom(0, Damped(delta, numPoints, firstTime))
  }

  /**
   * The loop divides exactly as often as needed: j divisions, after each
   * but the last the quotient was still above ADAPT_LIMIT, and the result
   * is BASE per division plus the last step applied to the final quotient.
   */
  lemma {:induction false} AdaptDivides(k: nat, d: nat)
    ensures var j := Divisions(d);
      Shrunk(d, j) <= ADAPT_LIMIT &&
      (forall i :: 0 <= i < j ==> Shrunk(d, i) > ADAPT_LIMIT) &&
      AdaptFrom(k, d) == k + 36 * j + Final(Shrunk(d, j))
    decreases d
  {
    if d > ADAPT_LIMIT {
      var d' := d / 35;
      AdaptDivides(k + BASE, d');
      var j := Divisions(d');
      forall i | 0 <= i < j + 1
        ensures Shrunk(d, i) > ADAPT_LIMIT
      {
        if i > 0 {
          assert Shrunk(d, i) == Shrunk(d', i - 1);
        }
      }
    }
  }

  /**
   * `adapt` as the RFC states it: the damped delta is divided until it is at
   * most ADAPT_LIMIT, and the bias is BASE per division plus the last step,
   * so that it lies in [BASE * j, BASE * j + BASE).
   */
  lemma AdaptedSpec(delta: nat, numPoints: nat, firstTime: bool)
    requires numPoints > 0
    ensures var d := Damped(delta, numPoints, firstTime);
      var j := Divisions(d);
      Shrunk(d, j) <= ADAPT_LIMIT &&
      (forall i :: 0 <= i < j ==> Shrunk(d, i) > ADAPT_LIMIT) &&
      Adapted(delta, numPoints, firstTime) == 36 * j + Final(Shrunk(d, j)) &&
      36 * j <= Adapted(delta, numPoints, firstTime) < 36 * j + BASE
  {
    AdaptDivides(0, Damped(delta, numPoints, firstTime));
  }

  /**
   * `adapt`: the new bias after a delta has been encoded. The scaled delta
   * and k stay within 32 bits (every intermediate is a u32).
   */
  method Adapt(delta: u32, numPoints: nat, firstTime: bool) returns (bias: nat)
    requires numPoints > 0
    ensures bias == Adapted(delta, numPoints, firstTime)
  {
    var d: u32 := delta / (if firstTime then DAMP else 2);
    assert d <= 0x7FFF_FFFF;
    QuotRemIsDivMod(d, numPoints);
    d := d + d / numPoints;
    ghost var damped := d;
    assert damped == Damped(delta, numPoints, firstTime);
    var s := BASE - TMIN;
    var t := (s * TMAX) / 2;
    var k: u32 := 0;
    while d > t
      invariant AdaptFrom(k, d) == AdaptFrom(0, damped)
      invariant k + d <= damped
      decreases d
    {
      d := d / s;
      k := k + BASE;
    }
    var a := (BASE - TMIN + 1) * d;
    var b := d + SKEW;
    QuotRemIsDivMod(a, b);
    bias := k + a / b;
  }

  // ---------------------------------------------------------------------
  // Sequence helpers
  // ---------------------------------------------------------------------

  lemma AppendAssoc<T>(a: seq<T>, b: seq<T>, c: seq<T>)
    ensures (a + b) + c == a + (b + c)
  {
  }

  // ---------------------------------------------------------------------
  // Arithmetic helpers
  // ---------------------------------------------------------------------

  lemma MulLe(x: nat, y: int, z: int)
    requires y <= z
    ensures x * y <= x * z
  {
    assert x * z - x * y == x * (z - y);
  }

  lemma MulLeRight(x: int, y: int, z: nat)
    requires x <= y
    ensures x * z <= y * z
  {
    assert y * z - x * z == (y - x) * z;
  }

  lemma DivMod(a: int, b: int)
    requires b > 0
    ensures a == b * (a / b) + a % b && 0 <= a % b < b
  {
  }

  lemma DivBelow(a: nat, b: int, c: int)
    requires b > 0 && a < b * c
    ensures 0 <= a / b < c
  {
    var q := a / b;
    assert a == b * q + a % b;
    if q >= c {
      MulLe(b, c, q);
    }
    if q < 0 {
      MulLe(b, q, -1);
    }
  }

  /** Euclidean division is determined by quotient and remainder. */
  lemma DivModUnique(a: int, b: int, q: int, r: int)
    requires b > 0 && 0 <= r < b && a == b * q + r
    ensures a / b == q && a % b == r
  {
    var q0, r0 := a / b, a % b;
    assert a == b * q0 + r0;
    if q0 > q {
      assert b * (q0 - q) == r - r0;
      MulLe(b, 1, q0 - q);
    } else if q0 < q {
      assert b * (q - q0) == r0 - r;
      MulLe(b, 1, q - q0);
    }
  }
}
