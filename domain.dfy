/**
 * `to_puny_code` and its helper `split`: a domain name is cut at every
 * '.', each non-empty label is encoded on its own by `encode_part`, and
 * the encodings are joined with '.' again, in order.
 *
 * `Labels` and `PunyCode` are the two operations as functions; `Split`
 * and `ToPunyCode` are the loop programs, proved to compute them.
 */
module Domain {
  import opened Bootstring
  import opened Punycode

  /** The label separator. */
  const DOT: char := '.'

  predicate NoDots(parts: seq<string>) {
    forall i :: 0 <= i < |parts| ==> DOT !in parts[i]
  }

  /** The parts with a '.' between each two neighbours. */
  function Join(parts: seq<string>): string
    decreases |parts|
  {
    if |parts| == 0 then ""
    else if |parts| == 1 then parts[0]
    else parts[0] + [DOT] + Join(parts[1..])
  }

  // ---------------------------------------------------------------------
  // split
  // ---------------------------------------------------------------------

  /** `find_first_of`: the first position holding c, if there is one. */
  function FindFirst(s: string, c: char): (r: Option<nat>)
    ensures r.None? ==> c !in s
    ensures r.Some? ==> r.value < |s| && s[r.value] == c && c !in s[..r.value]
  {
    FindFirstFrom(s, 0, c)
  }

  function FindFirstFrom(s: string, j: nat, c: char): (r: Option<nat>)
    requires j <= |s|
    ensures r.None? ==> forall i :: j <= i < |s| ==> s[i] != c
    ensures r.Some? ==> j <= r.value < |s| && s[r.value] == c && forall i :: j <= i < r.value ==> s[i] != c
    decreases |s| - j
  {
    if j == |s| then None else if s[j] == c then Some(j) else FindFirstFrom(s, j + 1, c)
  }

  /**
   * The labels of a domain name, as `split` cuts them: there is always at
   * least one, none holds a '.', and joining them gives the name back.
   */
  function Labels(s: string): (r: seq<string>)
    ensures |r| > 0 && NoDots(r) && Join(r) == s
    decreases |s|
  {
    match FindFirst(s, DOT)
    case None => [s]
    case Some(p) =>
      var rest := Labels(s[p + 1..]);
      assert s == s[..p] + [DOT] + s[p + 1..];
      assert ([s[..p]] + rest)[1..] == rest;
      [s[..p]] + rest
  }

  /** Splitting a join of dot-free labels gives the labels back. */
  lemma {:induction false} LabelsOfJoin(parts: seq<string>)
    requires |parts| > 0 && NoDots(parts)
    ensures Labels(Join(parts)) == parts
    decreases |parts|
  {
    if |parts| > 1 {
      var s := Join(parts);
      var p := |parts[0]|;
      assert s[p] == DOT;
      assert s[..p] == parts[0];
      assert FindFirst(s, DOT) == Some(p);
      assert s[p + 1..] == Join(parts[1..]);
      LabelsOfJoin(parts[1..]);
    }
  }

  /**
   * `split`: repeatedly cut the input at its first '.', until the rest is
   * empty or holds no '.', then keep the rest as the last part.
   */
  method Split(input: string) returns (parts: seq<string>)
    ensures parts == Labels(input)
  {
    parts := [];
    var rest := input;
    var pos := FindFirst(rest, DOT);
    while |rest| > 0 && pos.Some?
      invariant pos == FindFirst(rest, DOT)
      invariant parts + Labels(rest) == Labels(input)
      decreases |rest|
    {
      AppendAssoc(parts, [rest[..pos.value]], Labels(rest[pos.value + 1..]));
      parts := parts + [rest[..pos.value]];
      rest := rest[pos.value + 1..];
      pos := FindFirst(rest, DOT);
    }
    parts := parts + [rest];
  }

  // ---------------------------------------------------------------------
  // to_puny_code
  // ---------------------------------------------------------------------

  /** One label as `to_puny_code` writes it: empty labels stay empty. */
  function EncodeOne(name: string): Result<string> {
    if |name| == 0 then Ok("") else EncodeLabel(name)
  }

  /** The labels encoded in order with '.' between them; the first failure ends the encoding. */
  function EncodeParts(parts: seq<string>): Result<string>
    decreases |parts|
  {
    if |parts| == 0 then Ok("")
    else
      match EncodeParts(parts[..|parts| - 1])
      case Err(x) => Err(x)
      case Ok(out) =>
        match EncodeOne(parts[|parts| - 1])
        case Err(x) => Err(x)
        case Ok(name) => Ok(if |parts| == 1 then name else out + [DOT] + name)
  }

  /** `to_puny_code` as a function. */
  function PunyCode(input: string): Result<string> {
    EncodeParts(Labels(input))
  }

  /**
   * `to_puny_code`: writes a '.' before every part but the first (the
   * `is_first` flag) and the encoding of every non-empty part.
   */
  method ToPunyCode(input: string) returns (r: Result<string>)
    ensures r == PunyCode(input)
  {
    var parts := Split(input);
    var output := "";
    var isFirst := true;
    for i := 0 to |parts|
      invariant isFirst <==> i == 0
      invariant EncodeParts(parts[..i]) == Ok(output)
    {
      assert parts[..i + 1][..i] == parts[..i];
      ghost var before := output;
      if !isFirst {
        output := output + [DOT];
      } else {
        isFirst := false;
      }
      if |parts[i]| > 0 {
        var name := EncodePart(parts[i]);
        if name.Err? {
          EncodePartsFails(parts, i + 1);
          return Err(name.error);
        }
        assert i == 0 ==> output + name.value == name.value;
        output := output + name.value;
      } else {
        assert output == before + [DOT] + "" || i == 0;
      }
    }
    assert parts[..|parts|] == parts;
    return Ok(output);
  }

  /** A failure on a prefix of the parts is a failure of the whole. */
  lemma {:induction false} EncodePartsFails(parts: seq<string>, k: nat)
    requires k <= |parts| && EncodeParts(parts[..k]).Err?
    ensures EncodeParts(parts) == Err(DeltaOverflow)
    decreases |parts| - k
  {
    if k < |parts| {
      assert parts[..k + 1][..k] == parts[..k];
      EncodePartsFails(parts, k + 1);
    } else {
      assert parts[..k] == parts;
    }
  }

  // ---------------------------------------------------------------------
  // Lemmas: what to_puny_code promises
  // ---------------------------------------------------------------------

  /** Every label encodes. */
  predicate AllEncode(parts: seq<string>) {
    forall i :: 0 <= i < |parts| ==> EncodeOne(parts[i]).Ok?
  }

  /** The encodings of labels that all encode. */
  function Encodings(parts: seq<string>): (r: seq<string>)
    requires AllEncode(parts)
    ensures |r| == |parts| && forall i :: 0 <= i < |parts| ==> r[i] == EncodeOne(parts[i]).value
    decreases |parts|
  {
    if |parts| == 0 then [] else [EncodeOne(parts[0]).value] + Encodings(parts[1..])
  }

  lemma {:induction false} JoinSnoc(parts: seq<string>, p: string)
    requires |parts| > 0
    ensures Join(parts + [p]) == Join(parts) + [DOT] + p
    decreases |parts|
  {
    if |parts| > 1 {
      assert (parts + [p])[1..] == parts[1..] + [p];
      JoinSnoc(parts[1..], p);
    }
  }

  /** The encoding succeeds exactly when every label encodes. */
  lemma {:induction false} EncodePartsOk(parts: seq<string>)
    ensures EncodeParts(parts).Ok? <==> AllEncode(parts)
    decreases |parts|
  {
    if |parts| > 0 {
      var init := parts[..|parts| - 1];
      EncodePartsOk(init);
      assert forall i :: 0 <= i < |init| ==> init[i] == parts[i];
    }
  }

  /**
   * A successful encoding is the join of the label encodings: each label
   * is encoded on its own, in order, and empty labels stay empty.
   */
  lemma {:induction false} EncodePartsValue(parts: seq<string>)
    requires EncodeParts(parts).Ok?
    ensures AllEncode(parts) && EncodeParts(parts).value == Join(Encodings(parts))
    decreases |parts|
  {
    EncodePartsOk(parts);
    if |parts| > 0 {
      var init := parts[..|parts| - 1];
      var last := EncodeOne(parts[|parts| - 1]).value;
      EncodePartsValue(init);
      EncodingsSnoc(parts);
      if |init| > 0 {
        JoinSnoc(Encodings(init), last);
      }
    }
  }

  lemma EncodingsSnoc(parts: seq<string>)
    requires |parts| > 0 && AllEncode(parts)
    ensures var init := parts[..|parts| - 1];
      AllEncode(init) && Encodings(parts) == Encodings(init) + [EncodeOne(parts[|parts| - 1]).value]
  {
    var init := parts[..|parts| - 1];
    assert forall i :: 0 <= i < |init| ==> init[i] == parts[i];
  }

  /**
   * `to_puny_code` succeeds exactly when every label encodes, and then
   * writes the label encodings joined with '.'.
   */
  lemma PunyCodeJoin(input: string)
    ensures PunyCode(input).Ok? <==> AllEncode(Labels(input))
    ensures PunyCode(input).Ok? ==> PunyCode(input).value == Join(Encodings(Labels(input)))
  {
    EncodePartsOk(Labels(input));
    if PunyCode(input).Ok? {
      EncodePartsValue(Labels(input));
    }
  }

  /** Every label is at most as long as the joined name. */
  lemma {:induction false} LabelLength(parts: seq<string>, i: nat)
    requires i < |parts|
    ensures |parts[i]| <= |Join(parts)|
    decreases |parts|
  {
    if i > 0 {
      LabelLength(parts[1..], i - 1);
    }
  }

  /**
   * A domain name of up to MAX_SAFE_LABEL code points never makes
   * `to_puny_code` fail.
   */
  lemma PunyCodeNoOverflow(input: string)
    requires |input| <= MAX_SAFE_LABEL
    ensures PunyCode(input).Ok?
  {
    var labels := Labels(input);
    forall i | 0 <= i < |labels| ensures EncodeOne(labels[i]).Ok? {
      LabelLength(labels, i);
      NoOverflow(labels[i]);
    }
    EncodePartsOk(labels);
  }

  // ---------------------------------------------------------------------
  // Lemmas: counting dots
  // ---------------------------------------------------------------------

  lemma CountEqConcat(a: string, b: string, x: int)
    ensures CountEq(a + b, x) == CountEq(a, x) + CountEq(b, x)
  {
    CountEqFromConcat(a, b, 0, x);
  }

  lemma {:induction false} CountEqFromConcat(a: string, b: string, j: nat, x: int)
    requires j <= |a|
    ensures CountEqFrom(a + b, j, x) == CountEqFrom(a, j, x) + CountEqFrom(b, 0, x)
    decreases |a| - j
  {
    if j < |a| {
      CountEqFromConcat(a, b, j + 1, x);
    } else {
      CountEqFromShift(a, b, 0, x);
    }
  }

  lemma {:induction false} CountEqFromShift(a: string, b: string, k: nat, x: int)
    requires k <= |b|
    ensures CountEqFrom(a + b, |a| + k, x) == CountEqFrom(b, k, x)
    decreases |b| - k
  {
    if k < |b| {
      CountEqFromShift(a, b, k + 1, x);
    }
  }

  /** A string without x counts none of it. */
  lemma {:induction false} CountEqNone(s: string, j: nat, x: int)
    requires j <= |s|
    requires forall i :: j <= i < |s| ==> s[i] as int != x
    ensures CountEqFrom(s, j, x) == 0
    decreases |s| - j
  {
    if j < |s| {
      CountEqNone(s, j + 1, x);
    }
  }

  /** Sum of the counts of x over the parts. */
  function SumCount(parts: seq<string>, x: int): nat
    decreases |parts|
  {
    if |parts| == 0 then 0 else CountEq(parts[0], x) + SumCount(parts[1..], x)
  }

  /** A joined name holds the dots of its parts and one between each two. */
  lemma {:induction false} JoinCount(parts: seq<string>, x: int)
    requires |parts| > 0
    ensures CountEq(Join(parts), x) == (if x == DOT as int then |parts| - 1 else 0) + SumCount(parts, x)
    decreases |parts|
  {
    if |parts| > 1 {
      JoinCount(parts[1..], x);
      CountEqConcat(parts[0] + [DOT], Join(parts[1..]), x);
      CountEqConcat(parts[0], [DOT], x);
    }
  }

  /** `to_lower` turns exactly '.' and U+000E into '.'. */
  lemma {:induction false} LoweredDots(s: string)
    ensures CountEq(LoweredBasics(s), DOT as int) == CountEq(s, DOT as int) + CountEq(s, 14)
    decreases |s|
  {
    if |s| > 0 {
      LoweredDots(s[1..]);
      assert s == [s[0]] + s[1..];
      CountEqConcat([s[0]], s[1..], DOT as int);
      CountEqConcat([s[0]], s[1..], 14);
      var head := if IsBasic(s[0]) then [ToLower(s[0])] else [];
      CountEqConcat(head, LoweredBasics(s[1..]), DOT as int);
    }
  }

  /** The encoding of a dot-free label holds one '.' per U+000E of the label. */
  lemma EncodedDots(name: string)
    requires DOT !in name && EncodeOne(name).Ok?
    ensures CountEq(EncodeOne(name).value, DOT as int) == CountEq(name, 14)
  {
    CountEqNone(name, 0, DOT as int);
    LoweredDots(name);
    if |name| > 0 && HasNonBasic(name) {
      var s := EncodeLabel(name).value;
      var basic := BasicPrefix(name);
      var head := PREFIX + basic;
      LabelShape(name);
      assert s == head + s[|head|..];
      CountEqNone(s[|head|..], 0, DOT as int);
      CountEqNone(PREFIX, 0, DOT as int);
      CountEqConcat(head, s[|head|..], DOT as int);
      CountEqConcat(PREFIX, basic, DOT as int);
      if |LoweredBasics(name)| > 0 {
        CountEqConcat(LoweredBasics(name), [DELIMITER], DOT as int);
      }
    }
  }

  lemma {:induction false} EncodingsDots(parts: seq<string>)
    requires NoDots(parts)
    requires AllEncode(parts)
    ensures SumCount(Encodings(parts), DOT as int) == SumCount(parts, 14)
    ensures SumCount(parts, DOT as int) == 0
    decreases |parts|
  {
    if |parts| > 0 {
      EncodingsDots(parts[1..]);
      assert Encodings(parts)[1..] == Encodings(parts[1..]);
      EncodedDots(parts[0]);
      CountEqNone(parts[0], 0, DOT as int);
    }
  }

  /**
   * `to_puny_code` writes one '.' per '.' of its input, plus one per
   * U+000E: `to_lower` sets bit 5, which turns U+000E into '.'.
   */
  lemma PunyCodeDots(input: string)
    requires PunyCode(input).Ok?
    ensures CountEq(PunyCode(input).value, DOT as int) == CountEq(input, DOT as int) + CountEq(input, 14)
  {
    var labels := Labels(input);
    PunyCodeJoin(input);
    var encoded := Encodings(labels);
    JoinCount(encoded, DOT as int);
    JoinCount(labels, DOT as int);
    JoinCount(labels, 14);
    EncodingsDots(labels);
  }

  // ---------------------------------------------------------------------
  // Lemmas: names that to_puny_code leaves as they are
  // ---------------------------------------------------------------------

  /**
   * The code points `to_lower` leaves alone: basic ones whose bit 5 is
   * already set. Among them are 'a'..'z', '0'..'9', '-', '.', the space
   * and most punctuation; 'A'..'Z' and the control characters are not.
   */
  predicate IsFixedChar(c: char) {
    IsBasic(c) && (c as int / 32) % 2 == 1
  }

  predicate FixedName(s: string) {
    forall i :: 0 <= i < |s| ==> IsFixedChar(s[i])
  }

  lemma {:induction false} JoinFixedName(parts: seq<string>)
    requires FixedName(Join(parts))
    ensures forall i :: 0 <= i < |parts| ==> FixedName(parts[i])
    decreases |parts|
  {
    if |parts| > 1 {
      var s := Join(parts);
      assert s == parts[0] + [DOT] + Join(parts[1..]);
      assert forall k :: 0 <= k < |parts[0]| ==> s[k] == parts[0][k];
      var rest := Join(parts[1..]);
      assert forall k :: 0 <= k < |rest| ==> s[|parts[0]| + 1 + k] == rest[k];
      JoinFixedName(parts[1..]);
      assert forall i :: 1 <= i < |parts| ==> parts[i] == parts[1..][i - 1];
    }
  }

  /**
   * A name made of such code points (lower-case letters, digits, '-' and
   * '.', say) is written unchanged: `to_puny_code` hands it to the
   * resolver as it is.
   */
  lemma PunyCodeFixed(input: string)
    requires FixedName(input)
    ensures PunyCode(input) == Ok(input)
  {
    var labels := Labels(input);
    JoinFixedName(labels);
    forall i | 0 <= i < |labels| ensures EncodeOne(labels[i]) == Ok(labels[i]) {
      var name := labels[i];
      if |name| > 0 {
        assert !HasNonBasic(name);
        AsciiLabel(name);
        assert EncodeLabel(name).value == name;
      }
    }
    EncodePartsOk(labels);
    EncodePartsValue(labels);
    assert Encodings(labels) == labels;
  }

  /** Every part of a join without non-basic code points is itself basic. */
  lemma {:induction false} JoinBasic(parts: seq<string>)
    requires !HasNonBasic(Join(parts))
    ensures forall i :: 0 <= i < |parts| ==> !HasNonBasic(parts[i])
    decreases |parts|
  {
    if |parts| > 1 {
      var s := Join(parts);
      assert s == parts[0] + [DOT] + Join(parts[1..]);
      assert forall k :: 0 <= k < |parts[0]| ==> s[k] == parts[0][k];
      var rest := Join(parts[1..]);
      assert forall k :: 0 <= k < |rest| ==> s[|parts[0]| + 1 + k] == rest[k];
      JoinBasic(parts[1..]);
      assert forall i :: 1 <= i < |parts| ==> parts[i] == parts[1..][i - 1];
    }
  }

  /** Lowering each part and joining them is lowering the join. */
  lemma {:induction false} JoinLowered(parts: seq<string>, lowered: seq<string>)
    requires |lowered| == |parts|
    requires forall i :: 0 <= i < |parts| ==> lowered[i] == LoweredBasics(parts[i])
    ensures Join(lowered) == LoweredBasics(Join(parts))
    decreases |parts|
  {
    if |parts| > 1 {
      JoinLowered(parts[1..], lowered[1..]);
      LoweredBasicsAppend(parts[0] + [DOT], Join(parts[1..]));
      LoweredBasicsAppend(parts[0], [DOT]);
      assert LoweredBasics([DOT]) == [DOT];
    }
  }

  /**
   * A name without code points >= 128 needs no ACE label: `to_puny_code`
   * writes it with every code point passed through `to_lower`.
   */
  lemma PunyCodeAscii(input: string)
    requires !HasNonBasic(input)
    ensures PunyCode(input) == Ok(LoweredBasics(input))
  {
    var labels := Labels(input);
    JoinBasic(labels);
    forall i | 0 <= i < |labels| ensures EncodeOne(labels[i]) == Ok(LoweredBasics(labels[i])) {
    }
    EncodePartsOk(labels);
    EncodePartsValue(labels);
    JoinLowered(labels, Encodings(labels));
  }

  // ---------------------------------------------------------------------
  // A worked example: the domain of the address test@Bücher.ch
  // ---------------------------------------------------------------------

  lemma BucherChLabels()
    ensures Labels("Bücher.ch") == ["Bücher", "ch"]
  {
    var parts := ["Bücher", "ch"];
    assert Join(parts[1..]) == "ch";
    assert Join(parts) == "Bücher.ch";
    LabelsOfJoin(parts);
  }

  lemma ChLabel()
    ensures EncodeOne("ch") == Ok("ch")
  {
    assert LoweredBasics("ch") == "ch";
    assert !HasNonBasic("ch");
  }

  /** "Bücher.ch" is written "xn--bcher-kva.ch". */
  lemma BucherCh()
    ensures PunyCode("Bücher.ch") == Ok("xn--" + "bcher" + "-" + "kva" + "." + "ch")
  {
    BucherChLabels();
    BucherLabel();
    ChLabel();
    var parts := ["Bücher", "ch"];
    var first := "xn--" + "bcher" + "-" + "kva";
    assert parts[..1] == ["Bücher"];
    assert EncodeParts(parts[..1]) == Ok(first);
    assert EncodeParts(parts) == Ok(first + [DOT] + "ch");
  }
}
