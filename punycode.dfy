/**
 * The per-label Punycode encoder `encode_part` (the encoding procedure of
 * section 6.3 of RFC 3492) and `sort_uniq`, which feeds it the distinct
 * non-basic code points.
 *
 * `EncodeLabel` is the encoder as a function over an explicit encoder
 * state; `EncodePart` is the loop program, proved to compute it. The
 * lemmas state what the encoder promises: the shape of its output, the
 * handled-code-point count `h`, and the absence of overflow for labels of
 * realistic length.
 */
module Punycode {
  import opened Bootstring

  datatype Option<T> = None | Some(value: T)

  /** The one failure of `encode_part`: the `++delta` of its inner loop wrapped. */
  datatype Error = DeltaOverflow

  datatype Result<T> = Ok(value: T) | Err(error: Error)

  // ---------------------------------------------------------------------
  // Code point classification
  // ---------------------------------------------------------------------

  /** A basic code point is an ASCII one. */
  predicate IsBasic(c: char) {
    (c as int) < INITIAL_N
  }

  predicate HasNonBasic(s: string) {
    exists i :: 0 <= i < |s| && !IsBasic(s[i])
  }

  predicate Occurs(s: string, x: int) {
    exists i :: 0 <= i < |s| && s[i] as int == x
  }

  /**
   * `to_lower`: the code point with bit 5 (value 32) set, that is, plus 32
   * when that bit is clear.
   */
  function ToLower(c: char): (r: char)
    requires IsBasic(c)
    ensures IsBasic(r) && r as int >= 32
    ensures r == c || r as int == c as int + 32
    ensures (r as int / 32) % 2 == 1
    ensures (c as int / 32) % 2 == 1 ==> r == c
    ensures 'A' <= c <= 'Z' ==> r as int == c as int + 32
    ensures 'a' <= c <= 'z' || '0' <= c <= '9' || c == '-' ==> r == c
    ensures r == '.' <==> c == '.' || c as int == 14
  {
    if (c as int / 32) % 2 == 1 then c else (c as int + 32) as char
  }

  /** The basic code points of `s`, in order, each passed through `ToLower`. */
  function LoweredBasics(s: string): (r: string)
    ensures |r| <= |s|
    ensures forall i :: 0 <= i < |r| ==> IsBasic(r[i])
  {
    if |s| == 0 then []
    else (if IsBasic(s[0]) then [ToLower(s[0])] else []) + LoweredBasics(s[1..])
  }

  // The counting functions walk an index through the string, as the loops
  // of `encode_part` do, rather than taking suffixes.

  /** Number of code points of `s` below `n`. */
  function CountBelow(s: string, n: int): (r: nat)
    ensures r <= |s|
  {
    CountBelowFrom(s, 0, n)
  }

  /** Number of code points of `s` from position j on that are below `n`. */
  function CountBelowFrom(s: string, j: nat, n: int): (r: nat)
    requires j <= |s|
    ensures r <= |s| - j
    decreases |s| - j
  {
    if j == |s| then 0 else (if (s[j] as int) < n then 1 else 0) + CountBelowFrom(s, j + 1, n)
  }

  /** Number of code points of `s` equal to `n`. */
  function CountEq(s: string, n: int): (r: nat)
    ensures r <= |s|
  {
    CountEqFrom(s, 0, n)
  }

  /** Number of code points of `s` from position j on that are equal to `n`. */
  function CountEqFrom(s: string, j: nat, n: int): (r: nat)
    requires j <= |s|
    ensures r <= |s| - j
    decreases |s| - j
  {
    if j == |s| then 0 else (if s[j] as int == n then 1 else 0) + CountEqFrom(s, j + 1, n)
  }

  /** The smallest code point of `s` that is at least `lo`, if there is one. */
  function MinAtLeast(s: string, lo: int): (r: Option<int>)
    ensures r.None? <==> forall i :: 0 <= i < |s| ==> (s[i] as int) < lo
    ensures r.Some? ==> r.value >= lo && Occurs(s, r.value)
    ensures r.Some? ==> forall i :: 0 <= i < |s| && s[i] as int >= lo ==> s[i] as int >= r.value
  {
    MinAtLeastFrom(s, 0, lo)
  }

  /** The smallest code point of `s` from position j on that is at least `lo`, if there is one. */
  function MinAtLeastFrom(s: string, j: nat, lo: int): (r: Option<int>)
    requires j <= |s|
    ensures r.None? <==> forall i :: j <= i < |s| ==> (s[i] as int) < lo
    ensures r.Some? ==> r.value >= lo && exists i :: j <= i < |s| && s[i] as int == r.value
    ensures r.Some? ==> forall i :: j <= i < |s| && s[i] as int >= lo ==> s[i] as int >= r.value
    decreases |s| - j
  {
    if j == |s| then None
    else
      var rest := MinAtLeastFrom(s, j + 1, lo);
      var c := s[j] as int;
      if c >= lo && (rest.None? || c <= rest.value) then Some(c) else rest
  }

  // ---------------------------------------------------------------------
  // sort_uniq
  // ---------------------------------------------------------------------

  predicate StrictlyDescending(s: seq<int>) {
    forall i, j :: 0 <= i < j < |s| ==> s[i] > s[j]
  }

  predicate NonIncreasing(s: seq<int>) {
    forall i, j :: 0 <= i < j < |s| ==> s[i] >= s[j]
  }

  /**
   * `sort_uniq`: the values sorted into descending order (std::sort with
   * std::greater), then runs of equal values collapsed (std::unique and
   * erase). The result holds each distinct value once, largest first, so
   * popping from the back yields them in ascending order.
   */
  method SortUniq(values: seq<int>) returns (result: seq<int>)
    ensures StrictlyDescending(result)
    ensures forall x :: x in result <==> x in values
  {
    var sorted := SortDescending(values);
    assert forall x :: x in sorted <==> x in multiset(sorted);
    result := CollapseRuns(sorted);
  }

  /** std::sort with std::greater: a descending permutation. */
  method SortDescending(values: seq<int>) returns (sorted: seq<int>)
    ensures NonIncreasing(sorted)
    ensures multiset(sorted) == multiset(values)
  {
    sorted := [];
    for i := 0 to |values|
      invariant NonIncreasing(sorted)
      invariant multiset(sorted) == multiset(values[..i])
    {
      assert values[..i + 1] == values[..i] + [values[i]];
      sorted := InsertDescending(sorted, values[i]);
    }
    assert values[..|values|] == values;
  }

  /** One step of the sort: v placed after every element at least v. */
  method InsertDescending(sorted: seq<int>, v: int) returns (result: seq<int>)
    requires NonIncreasing(sorted)
    ensures NonIncreasing(result)
    ensures multiset(result) == multiset(sorted) + multiset{v}
  {
    var p := 0;
    while p < |sorted| && sorted[p] >= v
      invariant 0 <= p <= |sorted|
      invariant forall k :: 0 <= k < p ==> sorted[k] >= v
    {
      p := p + 1;
    }
    result := sorted[..p] + [v] + sorted[p..];
    InsertKeepsOrder(sorted, p, v);
    InsertAddsOne(sorted, p, v);
  }

  lemma InsertKeepsOrder(sorted: seq<int>, p: nat, v: int)
    requires NonIncreasing(sorted) && p <= |sorted|
    requires forall k :: 0 <= k < p ==> sorted[k] >= v
    requires p < |sorted| ==> sorted[p] < v
    ensures NonIncreasing(sorted[..p] + [v] + sorted[p..])
  {
    var r := sorted[..p] + [v] + sorted[p..];
    forall i, j | 0 <= i < j < |r| ensures r[i] >= r[j] {
      if i < p && j > p {
        assert r[i] == sorted[i] && r[j] == sorted[j - 1];
      }
    }
  }

  lemma InsertAddsOne(sorted: seq<int>, p: nat, v: int)
    requires p <= |sorted|
    ensures multiset(sorted[..p] + [v] + sorted[p..]) == multiset(sorted) + multiset{v}
  {
    assert sorted == sorted[..p] + sorted[p..];
  }

  /** std::unique followed by erase, on a sorted sequence: one copy of each value. */
  method CollapseRuns(sorted: seq<int>) returns (result: seq<int>)
    requires NonIncreasing(sorted)
    ensures StrictlyDescending(result)
    ensures forall x :: x in result <==> x in sorted
  {
    result := [];
    for i := 0 to |sorted|
      invariant StrictlyDescending(result)
      invariant forall x :: x in result <==> x in sorted[..i]
      invariant i == 0 ==> result == []
      invariant i > 0 ==> |result| > 0 && result[|result| - 1] == sorted[i - 1]
    {
      assert sorted[..i + 1] == sorted[..i] + [sorted[i]];
      if i == 0 || sorted[i] != sorted[i - 1] {
        assert i > 0 ==> sorted[i - 1] > sorted[i];
        assert forall k :: 0 <= k < |result| ==> result[k] > sorted[i];
        result := result + [sorted[i]];
      } else {
        assert sorted[i] in result;
      }
    }
    assert sorted[..|sorted|] == sorted;
  }

  // ---------------------------------------------------------------------
  // The encoder as a function of its state
  // ---------------------------------------------------------------------

  /** One emitted delta, with the count h of code points handled before it. */
  datatype Insertion = Insertion(delta: nat, h: nat)

  /**
   * The part of the state of `encode_part` that decides what is emitted:
   * the current code point n, the 32-bit delta, the count h of handled
   * code points, and the insertions emitted so far. The bias and the
   * digits written follow from the insertions alone (`Emission`).
   */
  datatype Encoder = Encoder(n: int, delta: u32, h: nat, emitted: seq<Insertion>)

  /** Reduction modulo 2^32: what storing into the `uint32_t delta` does. */
  function Wrap(x: int): u32 {
    x % 0x1_0000_0000
  }

  /**
   * The inner loop of `encode_part` from position j: every code point below
   * n counts one step of delta, failing if the counter would wrap; every
   * code point equal to n emits delta, clears it and counts one more
   * handled code point.
   */
  function Scan(input: string, j: nat, e: Encoder): Result<Encoder>
    requires j <= |input|
    decreases |input| - j
  {
    if j == |input| then Ok(e)
    else
      var c := input[j] as int;
      if c < e.n then
        if e.delta == U32_MAX then Err(DeltaOverflow)
        else Scan(input, j + 1, e.(delta := e.delta + 1))
      else if c == e.n then
        Scan(input, j + 1, Encoder(e.n, 0, e.h + 1, e.emitted + [Insertion(e.delta, e.h)]))
      else
        Scan(input, j + 1, e)
  }

  /** a * k as repeated addition: the solver unfolds it a step at a time instead of reasoning nonlinearly. */
  function Times(a: int, k: nat): int {
    if k == 0 then 0 else Times(a, k - 1) + a
  }

  lemma {:induction false} TimesIsProduct(a: int, k: nat)
    ensures Times(a, k) == a * k
  {
    if k > 0 {
      TimesIsProduct(a, k - 1);
    }
  }

  /**
   * Moving n up to m: delta absorbs the (m - n) * (h + 1) insertion points
   * skipped, in unchecked 32-bit arithmetic.
   */
  function SkipTo(e: Encoder, m: int): Encoder {
    e.(delta := Wrap(e.delta + Times(m - e.n, e.h + 1)), n := m)
  }

  lemma SkipToDelta(e: Encoder, m: int)
    ensures SkipTo(e, m) == e.(delta := Wrap(e.delta + (m - e.n) * (e.h + 1)), n := m)
  {
    TimesIsProduct(m - e.n, e.h + 1);
  }

  /**
   * One round of the outer loop of `encode_part`: move n to the least code
   * point m >= n, run the inner loop, then step n and delta once more
   * (unchecked). It needs the loop's invariant (h counts the code points
   * below n) and an unhandled code point; a round that succeeds keeps the
   * invariant for a larger n and handles at least one more code point.
   */
  function Round(input: string, e: Encoder): (r: Result<Encoder>)
    requires e.h == CountBelow(input, e.n) && e.h < |input|
    ensures r.Ok? ==> r.value.n > e.n && r.value.h == CountBelow(input, r.value.n) && r.value.h > e.h
  {
    SomeUnhandled(input, e.n);
    var m := MinAtLeast(input, e.n).value;
    ScanCount(input, 0, SkipTo(e, m));
    CountAfter(input, e.n, m);
    match Scan(input, 0, SkipTo(e, m))
    case Err(x) => Err(x)
    case Ok(e2) => Ok(e2.(n := e2.n + 1, delta := Wrap(e2.delta + 1)))
  }

  /** While fewer than all code points are handled, a least unhandled one exists. */
  lemma SomeUnhandled(input: string, n: int)
    requires CountBelow(input, n) < |input|
    ensures MinAtLeast(input, n).Some?
  {
    CountBelowShort(input, 0, n);
  }

  /** Moving n to the least code point m >= n adds the occurrences of m, of which there is one at least. */
  lemma CountAfter(input: string, n: int, m: int)
    requires MinAtLeast(input, n) == Some(m)
    ensures CountBelow(input, m + 1) == CountBelow(input, n) + CountEq(input, m) && CountEq(input, m) > 0
  {
    RoundCount(input, 0, n, m);
    CountEqPositive(input, 0, m);
  }

  /** The outer loop of `encode_part`: rounds until every code point is handled. */
  function Rounds(input: string, e: Encoder): Result<Encoder>
    requires e.h == CountBelow(input, e.n)
    decreases |input| - e.h
  {
    if e.h >= |input| then Ok(e)
    else
      match Round(input, e)
      case Err(x) => Err(x)
      case Ok(e2) =>
        Rounds(input, e2)
  }

  /**
   * The digits written for a sequence of insertions, and the bias after
   * them: each delta is written as a variable-length integer under the
   * current bias, which is then adapted, first-time when h equals the
   * number b of basic code points.
   */
  function Emission(b: nat, ins: seq<Insertion>): (nat, string)
    decreases |ins|
  {
    if |ins| == 0 then (INITIAL_BIAS, "")
    else
      var (bias, digits) := Emission(b, ins[..|ins| - 1]);
      var last := ins[|ins| - 1];
      (Adapted(last.delta, last.h + 1, last.h == b), digits + VarInt(bias, last.delta))
  }

  /** The output prefix: the lowered basic code points, then the delimiter if there were any. */
  function BasicPrefix(input: string): string {
    var basic := LoweredBasics(input);
    if |basic| > 0 then basic + [DELIMITER] else basic
  }

  /** The encoder state before the outer loop. */
  function InitialEncoder(input: string): (e: Encoder)
    ensures e.h == CountBelow(input, e.n)
  {
    BasicCount(input);
    Encoder(INITIAL_N, 0, |LoweredBasics(input)|, [])
  }

  /**
   * `encode_part` as a function: a label without non-basic code points is
   * returned lowered, without prefix; otherwise the ACE prefix, the basic
   * part and the digits of the insertions.
   */
  function EncodeLabel(input: string): Result<string> {
    if !HasNonBasic(input) then Ok(LoweredBasics(input))
    else
      match Rounds(input, InitialEncoder(input))
      case Err(x) => Err(x)
      case Ok(e) => Ok(PREFIX + BasicPrefix(input) + Emission(|LoweredBasics(input)|, e.emitted).1)
  }

  // ---------------------------------------------------------------------
  // encode_part
  // ---------------------------------------------------------------------

  /** `encode_part`: encodes one label; fails only when delta overflows. */
  method EncodePart(input: string) returns (r: Result<string>)
    ensures r == EncodeLabel(input)
  {
    var output, nonBasic := CollectBasics(input);
    if |nonBasic| == 0 {
      return Ok(output);
    }
    var b := |output|;
    BasicCount(input);
    if |output| > 0 {
      output := output + [DELIMITER];
    }
    assert output == BasicPrefix(input);
    nonBasic := SortUniq(nonBasic);
    ghost var total := Rounds(input, InitialEncoder(input));
    assert InitialEncoder(input) == Encoder(INITIAL_N, 0, b, []);
    var rounds := InsertAll(input, b, output, nonBasic);
    match rounds {
      case Err(x) => return Err(x);
      case Ok(out) =>
        assert PREFIX + out == PREFIX + BasicPrefix(input) + Emission(b, total.value.emitted).1;
        return Ok(PREFIX + out);
    }
  }

  /**
   * The first loop of `encode_part`: the lowered basic code points in
   * order, and every non-basic code point.
   */
  method CollectBasics(input: string) returns (output: string, nonBasic: seq<int>)
    ensures output == LoweredBasics(input)
    ensures forall x :: x in nonBasic <==> Occurs(input, x) && x >= INITIAL_N
    ensures |nonBasic| == 0 <==> !HasNonBasic(input)
  {
    output := "";
    nonBasic := [];
    for i := 0 to |input|
      invariant output == LoweredBasics(input[..i])
      invariant forall x :: x in nonBasic <==> Occurs(input[..i], x) && x >= INITIAL_N
      invariant |nonBasic| == 0 <==> !HasNonBasic(input[..i])
    {
      var c := input[i];
      LoweredBasicsAppend(input[..i], [c]);
      assert input[..i + 1] == input[..i] + [c];
      OccursAppend(input[..i], c);
      if (c as int) < INITIAL_N {
        output := output + [ToLower(c)];
      } else {
        nonBasic := nonBasic + [c as int];
      }
    }
    assert input[..|input|] == input;
  }

  /**
   * The outer loop of `encode_part`: the code points not yet handled are
   * kept in a descending list, and each round takes the least of them
   * from its back. Returns the output after the basic prefix.
   */
  method InsertAll(input: string, b: nat, output0: string, nonBasic0: seq<int>) returns (r: Result<string>)
    requires b == CountBelow(input, INITIAL_N)
    requires StrictlyDescending(nonBasic0)
    requires forall x :: x in nonBasic0 <==> Occurs(input, x) && x >= INITIAL_N
    ensures var total := Rounds(input, Encoder(INITIAL_N, 0, b, []));
      r.Err? == total.Err? && (r.Ok? ==> r.value == output0 + Emission(b, total.value.emitted).1)
  {
    var n := INITIAL_N;
    var delta: u32 := 0;
    var bias: nat := INITIAL_BIAS;
    var h := b;
    var output := output0;
    ghost var emitted: seq<Insertion> := [];
    ghost var total := Rounds(input, Encoder(n, delta, h, emitted));
    var nonBasic := nonBasic0;
    var len := |input|;
    assert output == output0 + Emission(b, emitted).1;
    while h < len
      invariant n >= INITIAL_N && h == CountBelow(input, n)
      invariant StrictlyDescending(nonBasic)
      invariant forall x :: x in nonBasic <==> Occurs(input, x) && x >= n
      invariant Rounds(input, Encoder(n, delta, h, emitted)) == total
      invariant bias == Emission(b, emitted).0
      invariant output == output0 + Emission(b, emitted).1
      decreases len - h
    {
      var ok;
      ok, n, delta, bias, h, output, emitted, nonBasic := NextRound(input, b, output0, n, delta, bias, h, output, emitted, nonBasic);
      if !ok {
        return Err(DeltaOverflow);
      }
    }
    return Ok(output);
  }

  /**
   * One round of the outer loop of `encode_part`: takes the least code
   * point m not yet handled, moves n and delta to it, runs the inner loop,
   * then steps n and delta once more. `ok` is false when the inner loop
   * fails; otherwise the new state is the one `Round` reaches.
   */
  method NextRound(input: string, b: nat, ghost base: string, n0: int, delta0: u32, bias0: nat, h0: nat,
                   output0: string, ghost emitted0: seq<Insertion>, nonBasic0: seq<int>)
    returns (ok: bool, n: int, delta: u32, bias: nat, h: nat, output: string, ghost emitted: seq<Insertion>, nonBasic: seq<int>)
    requires n0 >= INITIAL_N && h0 == CountBelow(input, n0) && h0 < |input|
    requires StrictlyDescending(nonBasic0)
    requires forall x :: x in nonBasic0 <==> Occurs(input, x) && x >= n0
    requires bias0 == Emission(b, emitted0).0 && output0 == base + Emission(b, emitted0).1
    ensures var r := Round(input, Encoder(n0, delta0, h0, emitted0));
      ok == r.Ok? && (ok ==> r.value == Encoder(n, delta, h, emitted))
    ensures ok ==> n > n0 && h == CountBelow(input, n) && h > h0
    ensures ok ==> StrictlyDescending(nonBasic) && forall x :: x in nonBasic <==> Occurs(input, x) && x >= n
    ensures bias == Emission(b, emitted).0 && output == base + Emission(b, emitted).1
  {
    ghost var head := Encoder(n0, delta0, h0, emitted0);
    NextCodePoint(input, n0, nonBasic0, h0);
    var m := nonBasic0[|nonBasic0| - 1];
    nonBasic := nonBasic0[..|nonBasic0| - 1];

    delta := Wrap(delta0 + (m - n0) * (h0 + 1));
    n := m;
    SkipToDelta(head, m);
    assert Encoder(n, delta, h0, emitted0) == SkipTo(head, m);
    ok, delta, bias, h, output, emitted := InsertionRound(input, b, base, n, delta, bias0, h0, output0, emitted0);
    if ok {
      n := n + 1;
      delta := Wrap(delta + 1);
    }
  }

  /**
   * The inner loop of `encode_part`: one pass over the label for the
   * current n. `ok` is false when the `++delta` check fires.
   */
  method InsertionRound(input: string, b: nat, ghost base: string, n: int, delta0: u32, bias0: nat, h0: nat,
                        output0: string, ghost emitted0: seq<Insertion>)
    returns (ok: bool, delta: u32, bias: nat, h: nat, output: string, ghost emitted: seq<Insertion>)
    requires bias0 == Emission(b, emitted0).0 && output0 == base + Emission(b, emitted0).1
    ensures var r := Scan(input, 0, Encoder(n, delta0, h0, emitted0));
      ok == r.Ok? && (ok ==> r.value == Encoder(n, delta, h, emitted))
    ensures bias == Emission(b, emitted).0 && output == base + Emission(b, emitted).1
  {
    delta, bias, h, output, emitted := delta0, bias0, h0, output0, emitted0;
    var len := |input|;
    var j := 0;
    while j < len
      invariant 0 <= j <= len
      invariant Scan(input, 0, Encoder(n, delta0, h0, emitted0)) == Scan(input, j, Encoder(n, delta, h, emitted))
      invariant bias == Emission(b, emitted).0
      invariant output == base + Emission(b, emitted).1
    {
      var c := input[j] as int;
      if c < n {
        if delta == U32_MAX {
          return false, delta, bias, h, output, emitted;
        }
        delta := delta + 1;
      } else if c == n {
        bias, output, emitted := Emit(b, base, delta, h, bias, output, emitted);
        delta := 0;
        h := h + 1;
      }
      j := j + 1;
    }
    return true, delta, bias, h, output, emitted;
  }

  /**
   * The body of the `c == n` case of the inner loop: writes delta as a
   * variable-length integer under the current bias and adapts the bias.
   */
  method Emit(b: nat, ghost base: string, delta: u32, h: nat, bias0: nat, output0: string, ghost emitted0: seq<Insertion>)
    returns (bias: nat, output: string, ghost emitted: seq<Insertion>)
    requires bias0 == Emission(b, emitted0).0 && output0 == base + Emission(b, emitted0).1
    ensures emitted == emitted0 + [Insertion(delta, h)]
    ensures bias == Emission(b, emitted).0 && output == base + Emission(b, emitted).1
  {
    var digits := EncodeInt(bias0, delta);
    output := output0 + digits;
    bias := Adapt(delta, h + 1, b == h);
    emitted := emitted0 + [Insertion(delta, h)];
    EmissionStep(b, emitted0, Insertion(delta, h));
  }

  /** Emitting one more insertion appends its digits and adapts the bias. */
  lemma EmissionStep(b: nat, ins: seq<Insertion>, x: Insertion)
    ensures Emission(b, ins + [x]) ==
      (Adapted(x.delta, x.h + 1, x.h == b), Emission(b, ins).1 + VarInt(Emission(b, ins).0, x.delta))
  {
    assert (ins + [x])[..|ins|] == ins;
  }

  /**
   * The back of the descending list of code points at least n is the least
   * of them, the one the encoding procedure moves n to; the rest of the
   * list holds those above it.
   */
  lemma NextCodePoint(input: string, n: int, all: seq<int>, h: nat)
    requires StrictlyDescending(all)
    requires forall x :: x in all <==> Occurs(input, x) && x >= n
    requires h == CountBelow(input, n) && h < |input|
    ensures |all| > 0 && MinAtLeast(input, n) == Some(all[|all| - 1])
    ensures StrictlyDescending(all[..|all| - 1])
    ensures forall x :: x in all[..|all| - 1] <==> Occurs(input, x) && x >= all[|all| - 1] + 1
  {
    CountBelowShort(input, 0, n);
    var least := MinAtLeast(input, n).value;
    assert least in all;
    var m := all[|all| - 1];
    assert m in all;
    var rest := all[..|all| - 1];
    forall x ensures x in rest <==> Occurs(input, x) && x >= m + 1 {
      if x in rest {
        var k :| 0 <= k < |rest| && rest[k] == x;
        assert all[k] > all[|all| - 1];
      }
      if Occurs(input, x) && x >= m + 1 {
        assert x in all;
        var k :| 0 <= k < |all| && all[k] == x;
        assert k < |all| - 1 && rest[k] == x;
      }
    }
  }

  lemma OccursAppend(s: string, c: char)
    ensures forall x :: Occurs(s + [c], x) <==> Occurs(s, x) || c as int == x
    ensures HasNonBasic(s + [c]) <==> HasNonBasic(s) || !IsBasic(c)
  {
    forall x ensures Occurs(s + [c], x) <==> Occurs(s, x) || c as int == x {
      if Occurs(s + [c], x) {
        var k :| 0 <= k < |s| + 1 && (s + [c])[k] as int == x;
        if k < |s| { assert s[k] == (s + [c])[k]; }
      }
      if Occurs(s, x) {
        var k :| 0 <= k < |s| && s[k] as int == x;
        assert (s + [c])[k] == s[k];
      }
      if c as int == x {
        assert (s + [c])[|s|] == c;
      }
    }
    if HasNonBasic(s + [c]) {
      var k :| 0 <= k < |s| + 1 && !IsBasic((s + [c])[k]);
      if k < |s| { assert s[k] == (s + [c])[k]; }
    }
    if HasNonBasic(s) {
      var k :| 0 <= k < |s| && !IsBasic(s[k]);
      assert (s + [c])[k] == s[k];
    }
    if !IsBasic(c) { assert (s + [c])[|s|] == c; }
  }

  /** The label length up to which `encode_part` can never overflow (every code point is at most 0x10FFFF). */
  const MAX_SAFE_LABEL: int := 3854

  // ---------------------------------------------------------------------
  // Lemmas: counting
  // ---------------------------------------------------------------------

  lemma {:induction false} LoweredBasicsAppend(a: string, b: string)
    ensures LoweredBasics(a + b) == LoweredBasics(a) + LoweredBasics(b)
    decreases |a|
  {
    if |a| == 0 {
      assert a + b == b;
    } else {
      assert (a + b)[1..] == a[1..] + b;
      LoweredBasicsAppend(a[1..], b);
    }
  }

  /** The basic part has one character per code point below INITIAL_N. */
  lemma BasicCount(s: string)
    ensures |LoweredBasics(s)| == CountBelow(s, INITIAL_N)
    ensures |LoweredBasics(s)| == |s| <==> !HasNonBasic(s)
  {
    BasicCountFrom(s, 0);
    assert s[0..] == s;
    CountBelowShort(s, 0, INITIAL_N);
  }

  lemma {:induction false} BasicCountFrom(s: string, j: nat)
    requires j <= |s|
    ensures |LoweredBasics(s[j..])| == CountBelowFrom(s, j, INITIAL_N)
    decreases |s| - j
  {
    if j < |s| {
      assert s[j..][1..] == s[j + 1..];
      BasicCountFrom(s, j + 1);
    }
  }

  /** Fewer than all code points from j on are below n exactly when one of them is at least n. */
  lemma {:induction false} CountBelowShort(s: string, j: nat, n: int)
    requires j <= |s|
    ensures CountBelowFrom(s, j, n) < |s| - j <==> exists i :: j <= i < |s| && s[i] as int >= n
    decreases |s| - j
  {
    if j < |s| {
      CountBelowShort(s, j + 1, n);
    }
  }

  lemma {:induction false} CountEqPositive(s: string, j: nat, x: int)
    requires j <= |s|
    requires exists i :: j <= i < |s| && s[i] as int == x
    ensures CountEqFrom(s, j, x) > 0
    decreases |s| - j
  {
    if s[j] as int != x {
      CountEqPositive(s, j + 1, x);
    }
  }

  /**
   * One round of the outer loop moves n to the least code point m >= n;
   * counting m's occurrences then gives the code points below m + 1.
   */
  lemma {:induction false} RoundCount(s: string, j: nat, n: int, m: int)
    requires j <= |s| && n <= m
    requires forall i :: j <= i < |s| && s[i] as int >= n ==> s[i] as int >= m
    ensures CountBelowFrom(s, j, m + 1) == CountBelowFrom(s, j, n) + CountEqFrom(s, j, m)
    decreases |s| - j
  {
    if j < |s| {
      RoundCount(s, j + 1, n, m);
    }
  }

  // ---------------------------------------------------------------------
  // Lemmas: what one inner and one outer loop do
  // ---------------------------------------------------------------------

  /** The inner loop keeps n, and handles and emits every occurrence of it. */
  lemma {:induction false} ScanCount(input: string, j: nat, e: Encoder)
    requires j <= |input|
    ensures Scan(input, j, e).Ok? ==>
      Scan(input, j, e).value.n == e.n && Scan(input, j, e).value.h == e.h + CountEqFrom(input, j, e.n)
    decreases |input| - j
  {
    if j < |input| {
      var c := input[j] as int;
      if c < e.n {
        if e.delta != U32_MAX {
          ScanCount(input, j + 1, e.(delta := e.delta + 1));
        }
      } else if c == e.n {
        ScanCount(input, j + 1, Encoder(e.n, 0, e.h + 1, e.emitted + [Insertion(e.delta, e.h)]));
      } else {
        ScanCount(input, j + 1, e);
      }
    }
  }

  /** The inner loop only appends insertions: one per code point it handles. */
  lemma {:induction false} ScanEmits(input: string, j: nat, e: Encoder)
    requires j <= |input|
    ensures Scan(input, j, e).Ok? ==>
      var e' := Scan(input, j, e).value;
      e'.h >= e.h && |e'.emitted| == |e.emitted| + (e'.h - e.h) && e'.emitted[..|e.emitted|] == e.emitted
    decreases |input| - j
  {
    if j < |input| {
      var c := input[j] as int;
      if c < e.n {
        if e.delta != U32_MAX {
          ScanEmits(input, j + 1, e.(delta := e.delta + 1));
        }
      } else if c == e.n {
        var next := Encoder(e.n, 0, e.h + 1, e.emitted + [Insertion(e.delta, e.h)]);
        ScanEmits(input, j + 1, next);
        if Scan(input, j, e).Ok? {
          var e' := Scan(input, j, e).value;
          assert e'.emitted[..|e.emitted|] == e'.emitted[..|next.emitted|][..|e.emitted|];
        }
      } else {
        ScanEmits(input, j + 1, e);
      }
    }
  }

  /**
   * The outer loop ends with every code point handled, having appended
   * exactly one insertion per code point it handled.
   */
  lemma {:induction false} RoundsEmit(input: string, e: Encoder)
    requires e.h == CountBelow(input, e.n)
    ensures Rounds(input, e).Ok? ==>
      var e' := Rounds(input, e).value;
      e'.h == |input| &&
      |e'.emitted| == |e.emitted| + (|input| - e.h) && e'.emitted[..|e.emitted|] == e.emitted
    decreases |input| - e.h
  {
    if e.h < |input| {
      RoundEmits(input, e);
      if Round(input, e).Ok? {
        var e3 := Round(input, e).value;
        RoundsEmit(input, e3);
        if Rounds(input, e).Ok? {
          var e' := Rounds(input, e).value;
          assert e'.emitted[..|e.emitted|] == e'.emitted[..|e3.emitted|][..|e.emitted|];
        }
      }
    }
  }

  /** One round appends exactly one insertion per code point it handles. */
  lemma RoundEmits(input: string, e: Encoder)
    requires e.h == CountBelow(input, e.n) && e.h < |input|
    ensures Round(input, e).Ok? ==>
      var e' := Round(input, e).value;
      e'.h >= e.h && |e'.emitted| == |e.emitted| + (e'.h - e.h) && e'.emitted[..|e.emitted|] == e.emitted
  {
    SomeUnhandled(input, e.n);
    ScanEmits(input, 0, SkipTo(e, MinAtLeast(input, e.n).value));
  }

  /** Characters from position k on are all digits. */
  predicate DigitsFrom(s: string, k: nat) {
    forall i :: k <= i < |s| ==> IsDigitChar(s[i])
  }

  /** The emitted text is made of digits only, at least one per insertion. */
  lemma {:induction false} EmissionDigits(b: nat, ins: seq<Insertion>)
    ensures |Emission(b, ins).1| >= |ins| && DigitsFrom(Emission(b, ins).1, 0)
    decreases |ins|
  {
    if |ins| > 0 {
      var init := ins[..|ins| - 1];
      EmissionDigits(b, init);
      EmissionStep(b, init, ins[|ins| - 1]);
      assert init + [ins[|ins| - 1]] == ins;
      VarIntRoundTrip(Emission(b, init).0, ins[|ins| - 1].delta);
    }
  }

  // ---------------------------------------------------------------------
  // Lemmas: the promises of encode_part
  // ---------------------------------------------------------------------

  /**
   * A label of basic code points only encodes to itself lowered, code point
   * by code point, with neither prefix nor delimiter.
   */
  lemma {:induction false} AsciiLabel(input: string)
    requires !HasNonBasic(input)
    ensures EncodeLabel(input).Ok?
    ensures var s := EncodeLabel(input).value;
      |s| == |input| && forall i :: 0 <= i < |s| ==> s[i] == ToLower(input[i])
    decreases |input|
  {
    if |input| > 0 {
      assert !HasNonBasic(input[1..]);
      AsciiLabel(input[1..]);
      assert !IsBasic(input[0]) ==> HasNonBasic(input);
      forall i | 1 <= i < |input| ensures LoweredBasics(input)[i] == ToLower(input[i]) {
        assert input[1..][i - 1] == input[i];
      }
    }
  }

  /**
   * A label with a non-basic code point encodes to the ACE prefix, the
   * lowered basic code points in their original order, the delimiter if
   * there was at least one, and then digits only: the digits of one
   * insertion per non-basic code point.
   */
  lemma LabelShape(input: string)
    requires HasNonBasic(input) && EncodeLabel(input).Ok?
    ensures var s := EncodeLabel(input).value;
      var head := PREFIX + BasicPrefix(input);
      |s| >= |head| + (|input| - |LoweredBasics(input)|) &&
      s[..|head|] == head && DigitsFrom(s, |head|)
  {
    BasicCount(input);
    var b := |LoweredBasics(input)|;
    var e0 := InitialEncoder(input);
    RoundsEmit(input, e0);
    var e := Rounds(input, e0).value;
    EmissionDigits(b, e.emitted);
    var s := EncodeLabel(input).value;
    var head := PREFIX + BasicPrefix(input);
    var digits := Emission(b, e.emitted).1;
    assert s == head + digits;
    assert s[..|head|] == head;
    forall i | |head| <= i < |s| ensures IsDigitChar(s[i]) {
      assert s[i] == digits[i - |head|];
    }
  }

  // ---------------------------------------------------------------------
  // Lemmas: overflow
  // ---------------------------------------------------------------------

  /**
   * In the inner loop delta grows by at most one per position and is
   * cleared at every occurrence of n; it cannot wrap while it starts far
   * enough below the 32-bit limit.
   */
  lemma {:induction false} ScanBounded(input: string, j: nat, e: Encoder)
    requires j <= |input|
    requires e.delta + (|input| - j) < U32_MAX
    ensures Scan(input, j, e).Ok?
    ensures Scan(input, j, e).value.delta <=
      if CountEqFrom(input, j, e.n) > 0 then |input| - j else e.delta + (|input| - j)
    decreases |input| - j
  {
    if j < |input| {
      var c := input[j] as int;
      if c < e.n {
        ScanBounded(input, j + 1, e.(delta := e.delta + 1));
      } else if c == e.n {
        ScanBounded(input, j + 1, Encoder(e.n, 0, e.h + 1, e.emitted + [Insertion(e.delta, e.h)]));
      } else {
        ScanBounded(input, j + 1, e);
      }
    }
  }

  /** (m - n) * (h + 1) added to a delta bounded for n stays within the bound for m. */
  lemma StepBound(delta: int, n: int, m: int, h: nat, len: nat)
    requires 127 < n <= m && h < len
    requires 0 <= delta <= (n - 127) * (len + 1)
    ensures 0 <= delta + (m - n) * (h + 1) <= (m - 127) * (len + 1)
  {
    MulLe(m - n, h + 1, len + 1);
    MulLe(m - n, 0, h + 1);
    assert (m - 127) * (len + 1) == (n - 127) * (len + 1) + (m - n) * (len + 1);
  }

  /**
   * The outer loop cannot fail while delta is bounded by (n - 127) * (len + 1)
   * and (M - 126) * (len + 1) stays below the 32-bit limit for the largest
   * code point M; neither does the unchecked sum of the outer loop wrap.
   */
  lemma {:induction false} RoundsBounded(input: string, e: Encoder, M: int)
    requires e.h == CountBelow(input, e.n)
    requires e.n >= INITIAL_N
    requires e.delta <= (e.n - 127) * (|input| + 1)
    requires forall i :: 0 <= i < |input| ==> input[i] as int <= M
    requires (M - 126) * (|input| + 1) < U32_MAX
    ensures Rounds(input, e).Ok?
    decreases |input| - e.h
  {
    if e.h < |input| {
      RoundBounded(input, e, M);
      RoundsBounded(input, Round(input, e).value, M);
    }
  }

  /** One round under the bound: the inner loop succeeds and the bound holds for the next round. */
  lemma RoundBounded(input: string, e: Encoder, M: int)
    requires e.h == CountBelow(input, e.n) && e.h < |input|
    requires e.n >= INITIAL_N
    requires e.delta <= (e.n - 127) * (|input| + 1)
    requires forall i :: 0 <= i < |input| ==> input[i] as int <= M
    requires (M - 126) * (|input| + 1) < U32_MAX
    ensures Round(input, e).Ok?
    ensures Round(input, e).value.delta <= (Round(input, e).value.n - 127) * (|input| + 1)
  {
    SomeUnhandled(input, e.n);
    var m := MinAtLeast(input, e.n).value;
    ScanInBound(input, e, M);
    RoundEnd(Scan(input, 0, SkipTo(e, m)).value.delta, m, |input|);
  }

  /** Under the bound the inner loop of a round succeeds, keeps n, and leaves delta at most the label length. */
  lemma ScanInBound(input: string, e: Encoder, M: int)
    requires e.h == CountBelow(input, e.n) && e.h < |input|
    requires e.n >= INITIAL_N
    requires e.delta <= (e.n - 127) * (|input| + 1)
    requires forall i :: 0 <= i < |input| ==> input[i] as int <= M
    requires (M - 126) * (|input| + 1) < U32_MAX
    ensures MinAtLeast(input, e.n).Some?
    ensures var r := Scan(input, 0, SkipTo(e, MinAtLeast(input, e.n).value));
      r.Ok? && r.value.n == MinAtLeast(input, e.n).value && r.value.delta <= |input| < U32_MAX
  {
    var len := |input|;
    SomeUnhandled(input, e.n);
    var m := MinAtLeast(input, e.n).value;
    var e1 := SkipTo(e, m);
    RoundStart(input, e, m, M);
    ScanBounded(input, 0, e1);
    CountAfter(input, e.n, m);
    ScanCount(input, 0, e1);
    MulLeRight(1, M - 126, len + 1);
  }

  /** Moving n up to m does not wrap, and leaves room for the inner loop. */
  lemma RoundStart(input: string, e: Encoder, m: int, M: int)
    requires e.h == CountBelow(input, e.n) && e.h < |input|
    requires e.n >= INITIAL_N && e.n <= m <= M
    requires e.delta <= (e.n - 127) * (|input| + 1)
    requires (M - 126) * (|input| + 1) < U32_MAX
    ensures SkipTo(e, m).delta + |input| < U32_MAX
  {
    var len := |input|;
    SkipToDelta(e, m);
    StepBound(e.delta, e.n, m, e.h, len);
    var raw := e.delta + (m - e.n) * (e.h + 1);
    var bound := (m - 127) * (len + 1);
    assert (m - 126) * (len + 1) == bound + (len + 1);
    MulLeRight(m - 126, M - 126, len + 1);
    assert 0 <= raw && raw + len < U32_MAX;
    WrapSmall(raw);
    assert SkipTo(e, m).delta == raw;
  }

  lemma WrapSmall(x: int)
    requires 0 <= x <= U32_MAX
    ensures Wrap(x) == x
  {
  }

  /** After the inner loop, delta + 1 is within the bound for m + 1. */
  lemma RoundEnd(delta: int, m: int, len: nat)
    requires 0 <= delta <= len < U32_MAX && m >= INITIAL_N
    ensures Wrap(delta + 1) == delta + 1 <= (m + 1 - 127) * (len + 1)
  {
    MulLeRight(1, m + 1 - 127, len + 1);
  }

  /**
   * Labels of up to MAX_SAFE_LABEL code points never fail: delta can
   * reach the 32-bit limit only on longer labels.
   */
  lemma NoOverflow(input: string)
    requires |input| <= MAX_SAFE_LABEL
    ensures EncodeLabel(input).Ok?
  {
    if HasNonBasic(input) {
      MulLeRight(0, 0x10FFFF - 126, |input| + 1);
      MulLe(0x10FFFF - 126, |input| + 1, MAX_SAFE_LABEL + 1);
      RoundsBounded(input, InitialEncoder(input), 0x10FFFF);
    }
  }

  // ---------------------------------------------------------------------
  // A worked example: the label of the address test@Bücher.ch
  // ---------------------------------------------------------------------

  /** The basic code points of "Bücher", lowered: 'B' becomes 'b'. */
  lemma BucherBasics()
    ensures LoweredBasics("Bücher") == "bcher" && HasNonBasic("Bücher")
  {
    var s := "Bücher";
    assert s[1..] == "ücher" && s[2..] == "cher";
    assert LoweredBasics("cher") == "cher";
    assert !IsBasic(s[1]);
  }

  /** The outer loop on "Bücher": one round, for U+00FC. */
  lemma BucherRounds()
    ensures Rounds("Bücher", InitialEncoder("Bücher")) == Ok(Encoder(253, 5, 6, [Insertion(745, 5)]))
  {
    var s := "Bücher";
    BucherBasics();
    var e0 := Encoder(INITIAL_N, 0, 5, []);
    assert InitialEncoder(s) == e0;
    BucherStart();
    BucherScan();
    assert Round(s, e0) == Ok(Encoder(253, 5, 6, [Insertion(745, 5)]));
  }

  /** n moves from 128 to 252, adding (252 - 128) * 6 to delta. */
  lemma BucherStart()
    ensures MinAtLeast("Bücher", 128) == Some(252)
    ensures SkipTo(Encoder(INITIAL_N, 0, 5, []), 252) == Encoder(252, 744, 5, [])
  {
    var e0 := Encoder(INITIAL_N, 0, 5, []);
    SkipToDelta(e0, 252);
    WrapSmall(744);
  }

  /** The inner loop for U+00FC emits delta 745 and leaves delta at 4. */
  lemma BucherScan()
    ensures Scan("Bücher", 0, Encoder(252, 744, 5, [])) == Ok(Encoder(252, 4, 6, [Insertion(745, 5)]))
  {
    var s := "Bücher";
    var ins := [Insertion(745, 5)];
    assert Scan(s, 5, Encoder(252, 3, 6, ins)) == Ok(Encoder(252, 4, 6, ins));
    assert Scan(s, 4, Encoder(252, 2, 6, ins)) == Ok(Encoder(252, 4, 6, ins));
    assert Scan(s, 3, Encoder(252, 1, 6, ins)) == Ok(Encoder(252, 4, 6, ins));
    assert Scan(s, 2, Encoder(252, 0, 6, ins)) == Ok(Encoder(252, 4, 6, ins));
    assert [] + [Insertion(745, 5)] == ins;
    assert Scan(s, 1, Encoder(252, 745, 5, [])) == Scan(s, 2, Encoder(252, 0, 6, ins));
  }

  /** Delta 745 under the initial bias 72 is written "kva". */
  lemma BucherDigits()
    ensures VarInt(72, 745) == "kva"
  {
    QuotRemIsDivMod(744, 35);
    QuotRemIsDivMod(20, 35);
    assert VarIntFrom(108, 72, 0) == "a";
    assert VarIntFrom(72, 72, 21) == "va";
  }

  /** "Bücher" encodes to "xn--bcher-kva", the well-known encoding of "bücher". */
  lemma BucherLabel()
    ensures EncodeLabel("Bücher") == Ok("xn--" + "bcher" + "-" + "kva")
  {
    BucherBasics();
    BucherRounds();
    BucherDigits();
    var s := "Bücher";
    var ins := [Insertion(745, 5)];
    assert Emission(5, ins).1 == "kva";
    assert BasicPrefix(s) == "bcher" + "-";
    AppendAssoc(PREFIX, "bcher", "-");
  }
}
