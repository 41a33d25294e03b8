/**
 * The older validator, `validate_email.cpp`: the address is cut at its
 * last '@'; the local part may hold at most 64 code points and no
 * control character, and the domain part must resolve once it has been
 * written in Punycode.
 *
 * The DNS lookup is the parameter `resolves`, applied to the Punycode
 * form of the domain part, which is the name the resolver is asked for.
 */
module LegacyEmail {
  import opened Punycode
  import opened Domain

  const AT: char := '@'

  /** The ceiling on the local part (the 64 octets of section 4.5.3.1.1 of RFC 5321). */
  const MAX_LOCAL: nat := 64

  /** The ceiling on the whole address. */
  const MAX_ADDRESS: nat := 255

  // ---------------------------------------------------------------------
  // find_last
  // ---------------------------------------------------------------------

  /**
   * The position of the last `val` in s, or |s| (the end iterator) when
   * there is none.
   */
  function LastIndex(s: string, val: char): (r: nat)
    ensures r <= |s|
    ensures r < |s| ==> s[r] == val && val !in s[r + 1..]
    ensures r == |s| ==> val !in s
  {
    LastIndexBelow(s, |s|, val)
  }

  /** The last position below j holding `val`, or |s| when there is none. */
  function LastIndexBelow(s: string, j: nat, val: char): (r: nat)
    requires j <= |s|
    ensures r == |s| || (r < j && s[r] == val)
    ensures r == |s| ==> forall i :: 0 <= i < j ==> s[i] != val
    ensures r < |s| ==> forall i :: r < i < j ==> s[i] != val
  {
    if j == 0 then |s|
    else if s[j - 1] == val then j - 1
    else LastIndexBelow(s, j - 1, val)
  }

  /**
   * `find_last`: walk the whole range and remember every position that
   * holds `val`; the last one remembered wins.
   */
  method FindLast(s: string, val: char) returns (result: nat)
    ensures result == LastIndex(s, val)
  {
    result := |s|;
    for pos := 0 to |s|
      invariant result == LastIndexBelow(s, pos, val)
    {
      if s[pos] == val {
        result := pos;
      }
    }
  }

  /** The last '@' splits `s` into `a` and `b` exactly when b holds no '@'. */
  lemma LastIndexOfSplit(a: string, b: string, val: char)
    requires val !in b
    ensures LastIndex(a + [val] + b, val) == |a|
  {
    var s := a + [val] + b;
    assert s[|a|] == val;
    assert s[|a| + 1..] == b;
  }

  // ---------------------------------------------------------------------
  // is_local
  // ---------------------------------------------------------------------

  /** The code points `is_local` refuses: 0..31 and DEL. */
  predicate IsControl(c: char) {
    c as int <= 31 || c as int == 127
  }

  predicate HasControl(s: string) {
    exists i :: 0 <= i < |s| && IsControl(s[i])
  }

  /** What the older `is_local` accepts: a short local part without control characters. */
  predicate LocalOk(s: string) {
    |s| <= MAX_LOCAL && !HasControl(s)
  }

  /** `is_local`: a length check, then a scan that stops at the first control character. */
  method IsLocal(s: string) returns (ok: bool)
    ensures ok == LocalOk(s)
  {
    if |s| > MAX_LOCAL {
      return false;
    }
    for i := 0 to |s|
      invariant forall k :: 0 <= k < i ==> !IsControl(s[k])
    {
      if 31 >= s[i] as int || 127 == s[i] as int {
        return false;
      }
    }
    return true;
  }

  /** Unlike the newer validator, the empty local part is accepted. */
  lemma EmptyLocalAccepted()
    ensures LocalOk("")
  {
  }

  /** A local part of 65 code points or more is refused whatever it holds. */
  lemma LongLocalRefused(s: string)
    requires |s| > MAX_LOCAL
    ensures !LocalOk(s)
  {
  }

  /** One control character anywhere refuses the local part. */
  lemma ControlRefused(a: string, c: char, b: string)
    requires IsControl(c)
    ensures !LocalOk(a + [c] + b)
  {
    assert (a + [c] + b)[|a|] == c;
  }

  // ---------------------------------------------------------------------
  // is_email_address
  // ---------------------------------------------------------------------

  /**
   * What the older `is_email_address` answers: no '@' or more than 255
   * code points is false; otherwise the local part (before the last '@')
   * must pass `is_local` and the Punycode form of the domain part (after
   * it) must resolve.
   */
  function Accepts(address: string, resolves: string -> bool): bool {
    var at := LastIndex(address, AT);
    if at == |address| then false
    else if |address| > MAX_ADDRESS then false
    else
      var domain := address[at + 1..];
      PunyCodeNoOverflow(domain);
      LocalOk(address[..at]) && resolves(PunyCode(domain).value)
  }

  /**
   * `is_email_address`: the same checks in the same order, with the
   * lookup of the domain and the local-part check joined by `&&`.
   */
  method IsEmailAddress(address: string, resolves: string -> bool) returns (ok: bool)
    ensures ok == Accepts(address, resolves)
  {
    var at := FindLast(address, AT);
    if at == |address| {
      return false;
    }
    if |address| > MAX_ADDRESS {
      return false;
    }
    var local := address[..at];
    var domain := address[at + 1..];
    PunyCodeNoOverflow(domain);
    var name := ToPunyCode(domain);
    var localOk := IsLocal(local);
    ok := localOk && resolves(name.value);
  }

  /** An address without '@' is refused. */
  lemma NoAtRefused(address: string, resolves: string -> bool)
    requires AT !in address
    ensures !Accepts(address, resolves)
  {
  }

  /** An address of more than 255 code points is refused. */
  lemma LongAddressRefused(address: string, resolves: string -> bool)
    requires |address| > MAX_ADDRESS
    ensures !Accepts(address, resolves)
  {
  }

  /**
   * The split at the last '@': for every address `local + "@" + domain`
   * whose domain holds no '@', the answer is the length ceiling, the local
   * part rule on exactly `local`, and the lookup of exactly `domain`.
   */
  lemma AcceptsSplit(local: string, domain: string, resolves: string -> bool)
    requires AT !in domain
    ensures Accepts(local + [AT] + domain, resolves) <==>
      |local| + 1 + |domain| <= MAX_ADDRESS && LocalOk(local) &&
      PunyCode(domain).Ok? && resolves(PunyCode(domain).value)
  {
    var address := local + [AT] + domain;
    LastIndexOfSplit(local, domain, AT);
    assert address[..|local|] == local;
    assert address[|local| + 1..] == domain;
    if |address| <= MAX_ADDRESS {
      PunyCodeNoOverflow(domain);
    }
  }

  /**
   * The answer once the local part passes and the domain part holds only
   * code points `to_lower` leaves alone (lower-case letters, digits, '-',
   * '.' and most punctuation): the resolver is asked for the domain part
   * itself.
   */
  lemma AcceptsFixedName(local: string, domain: string, resolves: string -> bool)
    requires AT !in domain && FixedName(domain)
    requires LocalOk(local) && |local| + 1 + |domain| <= MAX_ADDRESS
    ensures Accepts(local + [AT] + domain, resolves) == resolves(domain)
  {
    PunyCodeFixed(domain);
    AcceptsSplit(local, domain, resolves);
  }
}
