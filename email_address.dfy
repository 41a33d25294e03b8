/**
 * The newer validator, `src/validate_email.cpp`. The address is cut at its
 * last '@'. A domain part written as a bracketed literal loses its
 * brackets and may then hold only digits and dots. The local part obeys
 * the rules of `is_local`: 1 to 64 code points, no control character, no
 * leading '.', and either exactly two unescaped quotes or none, in which
 * case no trailing '.' and no '@'. The address has at most 255 code points.
 *
 * As in `LegacyEmail`, the DNS lookup is the parameter `resolves`, applied
 * to the Punycode form of the domain part.
 */
module EmailAddress {
  import opened Punycode
  import opened Domain
  import LegacyEmail

  const AT: char := '@'
  const QUOTE: char := '"'
  const BACKSLASH: char := '\\'

  // ---------------------------------------------------------------------
  // find_amp_pos, get_local_part, get_domain_part
  // ---------------------------------------------------------------------

  /** `find_amp_pos` (`find_last_of('@')`): the position of the last '@', if any. */
  function FindAmpPos(address: string): (r: Option<nat>)
    ensures r.None? <==> AT !in address
    ensures r.Some? ==> r.value < |address| && address[r.value] == AT && AT !in address[r.value + 1..]
  {
    var p := LegacyEmail.LastIndex(address, AT);
    if p == |address| then None else Some(p)
  }

  /** `get_local_part`: everything before the last '@', or "" when there is none. */
  function LocalPart(address: string): (r: string)
    ensures |r| <= |address| && r == address[..|r|]
    ensures AT !in address ==> r == ""
  {
    match FindAmpPos(address)
    case None => ""
    case Some(p) => address[..p]
  }

  /** A bracketed literal such as "[127.0.0.1]". */
  predicate Bracketed(rest: string) {
    |rest| > 0 && rest[0] == '[' && rest[|rest| - 1] == ']'
  }

  /** The code points a bracketed literal may hold. */
  predicate IsLiteralChar(c: char) {
    '0' <= c <= '9' || c == '.'
  }

  predicate AllLiteral(s: string) {
    forall i :: 0 <= i < |s| ==> IsLiteralChar(s[i])
  }

  /**
   * What `get_domain_part` makes of the text after the last '@': a
   * bracketed literal loses its brackets, and is dropped altogether when
   * anything but digits and dots remains; any other text is kept as it is.
   */
  function StripLiteral(rest: string): (r: string)
    ensures Bracketed(rest) ==> |rest| >= 2
    ensures Bracketed(rest) && AllLiteral(rest[1..|rest| - 1]) ==> r == rest[1..|rest| - 1]
    ensures Bracketed(rest) && !AllLiteral(rest[1..|rest| - 1]) ==> r == ""
    ensures !Bracketed(rest) ==> r == rest
  {
    if Bracketed(rest) then
      var inner := rest[1..|rest| - 1];
      if AllLiteral(inner) then inner else ""
    else rest
  }

  /**
   * `get_domain_part`, total: an address that ends in '@' has an empty
   * domain part (the source reads the first code point of that empty text).
   */
  function DomainPart(address: string): (r: string)
    ensures |r| <= |address|
    ensures AT !in address ==> r == ""
  {
    match FindAmpPos(address)
    case None => ""
    case Some(p) => StripLiteral(address[p + 1..])
  }

  /**
   * `get_domain_part` reads `front()` and `back()` of the text after the last
   * '@' without asking whether it is empty; this is defined only when the
   * address does not end in that '@'.
   */
  predicate FrontDefined(address: string) {
    FindAmpPos(address).Some? ==> FindAmpPos(address).value + 1 < |address|
  }

  /** `get_domain_part` as written, where it is defined. */
  function DomainPartAsWritten(address: string): (r: string)
    requires FrontDefined(address)
    ensures |r| <= |address|
  {
    match FindAmpPos(address)
    case None => ""
    case Some(p) =>
      var rest := address[p + 1..];
      if rest[0] == '[' && rest[|rest| - 1] == ']' then
        var inner := rest[1..|rest| - 1];
        if AllLiteral(inner) then inner else ""
      else rest
  }

  /** Where the source is defined, the total version agrees with it. */
  lemma AsWrittenAgrees(address: string)
    requires FrontDefined(address)
    ensures DomainPartAsWritten(address) == DomainPart(address)
  {
  }

  /**
   * "a@" has a non-empty local part, so `is_email_address` goes on to
   * `get_domain_part`, which then reads the first code point of an empty
   * text; the total version gives "" and the address is refused.
   */
  lemma TrailingAtUndefined()
    ensures LocalPart("a@") == "a" && !FrontDefined("a@") && DomainPart("a@") == ""
  {
    assert FindAmpPos("a@") == Some(1);
  }

  /**
   * `get_domain_part`: the text after the last '@'; if it is bracketed,
   * strip the brackets and give up at the first code point that is not a
   * digit or a dot. The test that the text is non-empty is not in the
   * source (see `FrontDefined`).
   */
  method GetDomainPart(address: string) returns (result: string)
    ensures result == DomainPart(address)
  {
    var ampPos := FindAmpPos(address);
    if ampPos.None? {
      return "";
    }
    var rest := address[ampPos.value + 1..];
    assert StripLiteral(rest) == DomainPart(address);
    result := rest;
    if |rest| > 0 && rest[0] == '[' && rest[|rest| - 1] == ']' {
      result := rest[1..|rest| - 1];
      for i := 0 to |result|
        invariant forall k :: 0 <= k < i ==> IsLiteralChar(result[k])
      {
        if !('0' <= result[i] <= '9' || result[i] == '.') {
          assert !AllLiteral(result);
          return "";
        }
      }
    }
  }

  // ---------------------------------------------------------------------
  // Lemmas: the split at the last '@'
  // ---------------------------------------------------------------------

  /**
   * Every address with an '@' is `local + "@" + rest` with no '@' in rest;
   * the local part is then exactly `local` and the domain part is `rest`
   * with a bracketed literal stripped.
   */
  lemma SplitAtLastAt(local: string, rest: string)
    requires AT !in rest
    ensures LocalPart(local + [AT] + rest) == local
    ensures DomainPart(local + [AT] + rest) == StripLiteral(rest)
  {
    var address := local + [AT] + rest;
    LegacyEmail.LastIndexOfSplit(local, rest, AT);
    assert address[..|local|] == local;
    assert address[|local| + 1..] == rest;
  }

  /** Without an '@' both parts are empty. */
  lemma NoAtEmptyParts(address: string)
    requires AT !in address
    ensures LocalPart(address) == "" && DomainPart(address) == ""
  {
  }

  /** Unless the domain is a bracketed literal, the two parts and the '@' make up the address. */
  lemma SplitRoundTrip(address: string)
    requires AT in address
    requires !Bracketed(address[FindAmpPos(address).value + 1..])
    ensures LocalPart(address) + [AT] + DomainPart(address) == address
  {
    var p := FindAmpPos(address).value;
    assert address == address[..p] + [AT] + address[p + 1..];
  }

  /** The domain part never holds an '@'. */
  lemma DomainPartNoAt(address: string)
    ensures AT !in DomainPart(address)
  {
    if AT in address {
      var p := FindAmpPos(address).value;
      var rest := address[p + 1..];
      if Bracketed(rest) {
        var inner := rest[1..|rest| - 1];
        assert forall i :: 0 <= i < |inner| ==> inner[i] == rest[i + 1];
      }
    }
  }

  // ---------------------------------------------------------------------
  // is_local
  // ---------------------------------------------------------------------

  /**
   * The quote at position i counts: it is not the first code point after
   * a backslash (the fold starts with a NUL as the previous code point).
   */
  predicate Unescaped(s: string, i: nat)
    requires i < |s|
  {
    s[i] == QUOTE && (i == 0 || s[i - 1] != BACKSLASH)
  }

  /** The number of counted quotes before position j. */
  function QuotesBelow(s: string, j: nat): (r: nat)
    requires j <= |s|
    ensures r <= j
  {
    if j == 0 then 0 else QuotesBelow(s, j - 1) + (if Unescaped(s, j - 1) then 1 else 0)
  }

  /** The number of quotes the fold of `is_local` counts. */
  function QuoteCount(s: string): nat {
    QuotesBelow(s, |s|)
  }

  /** Backslash-quote: the quote straddles the seam of a concatenation. */
  predicate EscapedAcross(a: string, b: string) {
    |a| > 0 && |b| > 0 && a[|a| - 1] == BACKSLASH && b[0] == QUOTE
  }

  lemma {:induction false} QuotesBelowPrefix(a: string, b: string, j: nat)
    requires j <= |a|
    ensures QuotesBelow(a + b, j) == QuotesBelow(a, j)
  {
    if j > 0 {
      QuotesBelowPrefix(a, b, j - 1);
      assert (a + b)[j - 1] == a[j - 1];
      if j > 1 {
        assert (a + b)[j - 2] == a[j - 2];
      }
    }
  }

  lemma {:induction false} QuotesBelowSuffix(a: string, b: string, j: nat)
    requires j <= |b|
    ensures QuotesBelow(a + b, |a| + j) + (if j > 0 && EscapedAcross(a, b) then 1 else 0) ==
      QuoteCount(a) + QuotesBelow(b, j)
  {
    if j == 0 {
      QuotesBelowPrefix(a, b, |a|);
    } else {
      QuotesBelowSuffix(a, b, j - 1);
      var s := a + b;
      assert s[|a| + j - 1] == b[j - 1];
      if j > 1 {
        assert s[|a| + j - 2] == b[j - 2];
      } else if |a| > 0 {
        assert s[|a| - 1] == a[|a| - 1];
      }
    }
  }

  /**
   * Counting quotes over a concatenation adds the counts of the two
   * halves, except for a quote that follows a backslash across the seam.
   */
  lemma QuoteCountConcat(a: string, b: string)
    ensures QuoteCount(a + b) + (if EscapedAcross(a, b) then 1 else 0) == QuoteCount(a) + QuoteCount(b)
  {
    QuotesBelowSuffix(a, b, |b|);
  }

  /** A quote right after a backslash is never counted. */
  lemma EscapedQuoteIgnored(a: string, b: string)
    ensures QuoteCount(a + [BACKSLASH, QUOTE] + b) == QuoteCount(a) + QuoteCount(b)
  {
    QuoteCountConcat(a, [BACKSLASH, QUOTE]);
    QuoteCountConcat(a + [BACKSLASH, QUOTE], b);
    var e := [BACKSLASH, QUOTE];
    assert QuotesBelow(e, 1) == 0;
    assert !Unescaped(e, 1);
  }

  /** All the rules of the newer `is_local`. */
  predicate LocalOk(s: string) {
    0 < |s| <= LegacyEmail.MAX_LOCAL && !LegacyEmail.HasControl(s) && s[0] != '.' &&
    var quotes := QuoteCount(s);
    if quotes != 0 then
      quotes == 2 && !(|s| >= 3 && s[0] == BACKSLASH && s[1] == QUOTE && s[|s| - 1] == QUOTE)
    else
      s[0] != '.' && s[|s| - 1] != '.' && AT !in s
  }

  /**
   * `is_local`: the length bound, a scan for control characters, the
   * leading '.', the fold that counts unescaped quotes with the previous
   * code point in `prev`, and then the rules for quoted and unquoted parts.
   */
  method IsLocal(s: string) returns (ok: bool)
    ensures ok == LocalOk(s)
  {
    if |s| > LegacyEmail.MAX_LOCAL || |s| == 0 {
      return false;
    }
    for i := 0 to |s|
      invariant forall k :: 0 <= k < i ==> !LegacyEmail.IsControl(s[k])
    {
      if (0 <= s[i] as int <= 31) || s[i] as int == 127 {
        return false;
      }
    }
    if s[0] == '.' {
      return false;
    }
    var prev := '\0';
    var quoteCount := 0;
    for i := 0 to |s|
      invariant quoteCount == QuotesBelow(s, i)
      invariant prev == if i == 0 then '\0' else s[i - 1]
    {
      if prev != BACKSLASH && s[i] == QUOTE {
        prev := s[i];
        quoteCount := quoteCount + 1;
      } else {
        prev := s[i];
      }
    }
    if quoteCount != 0 {
      if quoteCount != 2 {
        return false;
      }
      if |s| >= 3 && s[0] == BACKSLASH && s[1] == QUOTE && s[|s| - 1] == QUOTE {
        return false;
      }
    } else {
      if s[0] == '.' || s[|s| - 1] == '.' {
        return false;
      }
      for i := 0 to |s|
        invariant forall k :: 0 <= k < i ==> s[k] != AT
      {
        if s[i] == AT {
          return false;
        }
      }
    }
    return true;
  }

  // ---------------------------------------------------------------------
  // Lemmas: the local-part rules one by one
  // ---------------------------------------------------------------------

  lemma EmptyOrLongLocalRefused(s: string)
    requires |s| == 0 || |s| > LegacyEmail.MAX_LOCAL
    ensures !LocalOk(s)
  {
  }

  lemma ControlRefused(a: string, c: char, b: string)
    requires LegacyEmail.IsControl(c)
    ensures !LocalOk(a + [c] + b)
  {
    assert (a + [c] + b)[|a|] == c;
  }

  lemma LeadingDotRefused(s: string)
    ensures !LocalOk(['.'] + s)
  {
  }

  /** One counted quote, or three or more, refuses the local part. */
  lemma QuoteCountRefused(s: string)
    requires QuoteCount(s) != 0 && QuoteCount(s) != 2
    ensures !LocalOk(s)
  {
  }

  /** With two counted quotes, starting with backslash-quote and ending in a quote is refused. */
  lemma EscapedOpeningRefused(s: string)
    requires QuoteCount(s) == 2 && |s| >= 3 && s[0] == BACKSLASH && s[1] == QUOTE && s[|s| - 1] == QUOTE
    ensures !LocalOk(s)
  {
  }

  /** Without counted quotes, a trailing '.' is refused. */
  lemma TrailingDotRefused(s: string)
    requires QuoteCount(s + ['.']) == 0
    ensures !LocalOk(s + ['.'])
  {
  }

  /** Without counted quotes, any '@' is refused. */
  lemma BareAtRefused(a: string, b: string)
    requires QuoteCount(a + [AT] + b) == 0
    ensures !LocalOk(a + [AT] + b)
  {
    assert (a + [AT] + b)[|a|] == AT;
  }

  /** Every local part the newer `is_local` accepts, the older one accepts too. */
  lemma StricterLocal(s: string)
    requires LocalOk(s)
    ensures LegacyEmail.LocalOk(s)
  {
  }

  // ---------------------------------------------------------------------
  // is_email_address
  // ---------------------------------------------------------------------

  /**
   * What `is_email_address` answers: false for an empty local part, an
   * empty domain part or more than 255 code points; otherwise the local
   * part must pass `is_local` and the Punycode form of the domain part
   * must resolve.
   */
  function Accepts(address: string, resolves: string -> bool): bool {
    var local := LocalPart(address);
    if |local| == 0 then false
    else
      var domain := DomainPart(address);
      if |domain| == 0 then false
      else if |address| > LegacyEmail.MAX_ADDRESS then false
      else
        PunyCodeNoOverflow(domain);
        LocalOk(local) && resolves(PunyCode(domain).value)
  }

  /**
   * `is_email_address`: the checks in the source's order; the lookup of
   * the domain and the local-part check are joined by `&&`.
   */
  method IsEmailAddress(address: string, resolves: string -> bool) returns (ok: bool)
    ensures ok == Accepts(address, resolves)
  {
    var local := LocalPart(address);
    if |local| == 0 {
      return false;
    }
    var domain := GetDomainPart(address);
    if |domain| == 0 {
      return false;
    }
    if |address| > LegacyEmail.MAX_ADDRESS {
      return false;
    }
    PunyCodeNoOverflow(domain);
    var name := ToPunyCode(domain);
    var localOk := IsLocal(local);
    ok := localOk && resolves(name.value);
  }

  lemma EmptyLocalRefused(address: string, resolves: string -> bool)
    requires LocalPart(address) == ""
    ensures !Accepts(address, resolves)
  {
  }

  lemma EmptyDomainRefused(address: string, resolves: string -> bool)
    requires DomainPart(address) == ""
    ensures !Accepts(address, resolves)
  {
  }

  lemma LongAddressRefused(address: string, resolves: string -> bool)
    requires |address| > LegacyEmail.MAX_ADDRESS
    ensures !Accepts(address, resolves)
  {
  }

  /**
   * The answer for `local + "@" + rest`, with no '@' in rest: the length
   * ceiling, a non-empty domain part, the local-part rules on exactly
   * `local`, and the lookup of the (stripped) domain.
   */
  lemma AcceptsSplit(local: string, rest: string, resolves: string -> bool)
    requires AT !in rest
    ensures var domain := StripLiteral(rest);
      Accepts(local + [AT] + rest, resolves) <==>
      |local| + 1 + |rest| <= LegacyEmail.MAX_ADDRESS && |domain| > 0 && LocalOk(local) &&
      PunyCode(domain).Ok? && resolves(PunyCode(domain).value)
  {
    SplitAtLastAt(local, rest);
    var domain := StripLiteral(rest);
    if |local| + 1 + |rest| <= LegacyEmail.MAX_ADDRESS {
      PunyCodeNoOverflow(domain);
    }
  }

  /**
   * An address the newer validator accepts, with a domain that is not a
   * bracketed literal, is accepted by the older one as well.
   */
  lemma StricterThanLegacy(local: string, rest: string, resolves: string -> bool)
    requires AT !in rest && !Bracketed(rest)
    requires Accepts(local + [AT] + rest, resolves)
    ensures LegacyEmail.Accepts(local + [AT] + rest, resolves)
  {
    AcceptsSplit(local, rest, resolves);
    LegacyEmail.AcceptsSplit(local, rest, resolves);
  }

  // ---------------------------------------------------------------------
  // The addresses of the test suite
  // ---------------------------------------------------------------------

  lemma {:induction false} NoQuoteBelow(s: string, j: nat)
    requires j <= |s| && QUOTE !in s
    ensures QuotesBelow(s, j) == 0
  {
    if j > 0 {
      NoQuoteBelow(s, j - 1);
      assert s[j - 1] != QUOTE;
    }
  }

  /** A local part without quotes has no counted quote. */
  lemma NoQuoteNoCount(s: string)
    requires QUOTE !in s
    ensures QuoteCount(s) == 0
  {
    NoQuoteBelow(s, |s|);
  }

  /**
   * The answer once the local part passes and the domain part holds only
   * code points `to_lower` leaves alone (lower-case letters, digits, '-',
   * '.' and most punctuation): the resolver is asked for the domain part
   * itself.
   */
  lemma AcceptsFixedName(local: string, rest: string, resolves: string -> bool)
    requires AT !in rest && |StripLiteral(rest)| > 0 && FixedName(StripLiteral(rest))
    requires LocalOk(local) && |local| + 1 + |rest| <= LegacyEmail.MAX_ADDRESS
    ensures Accepts(local + [AT] + rest, resolves) == resolves(StripLiteral(rest))
  {
    PunyCodeFixed(StripLiteral(rest));
    AcceptsSplit(local, rest, resolves);
  }

  /** The answer for a local part that passes, at the domain "Bücher.ch". */
  lemma AcceptsBucher(local: string, resolves: string -> bool)
    requires LocalOk(local)
    ensures Accepts(local + [AT] + "Bücher.ch", resolves) == resolves("xn--" + "bcher" + "-" + "kva" + "." + "ch")
  {
    var domain := "Bücher.ch";
    assert !Bracketed(domain) && AT !in domain;
    BucherCh();
    AcceptsSplit(local, domain, resolves);
  }

  /** A local part that breaks a rule refuses the address, whatever the domain. */
  lemma LocalRefused(local: string, rest: string, resolves: string -> bool)
    requires AT !in rest && !LocalOk(local)
    ensures !Accepts(local + [AT] + rest, resolves)
  {
    AcceptsSplit(local, rest, resolves);
  }

  lemma PlainAddressRefused(resolves: string -> bool)
    ensures !Accepts("plainaddress", resolves)
  {
    NoAtEmptyParts("plainaddress");
  }

  /** "@domain.com" has an empty local part and is refused. */
  lemma EmptyLocalCase(resolves: string -> bool)
    ensures !Accepts("@domain.com", resolves)
  {
    assert "@domain.com" == "" + [AT] + "domain.com";
    LocalRefused("", "domain.com", resolves);
  }

  /** The older validator takes the same address to the resolver. */
  lemma LegacyEmptyLocalCase(resolves: string -> bool)
    ensures LegacyEmail.Accepts("@domain.com", resolves) == resolves("domain.com")
  {
    assert "@domain.com" == "" + [AT] + "domain.com";
    LegacyEmail.AcceptsFixedName("", "domain.com", resolves);
  }

  /** The address is cut at the last '@', and an unquoted local part may not hold '@'. */
  lemma TwoAtsRefused(resolves: string -> bool)
    ensures !Accepts("email@domain@domain.com", resolves)
  {
    NoQuoteNoCount("email@domain");
    assert "email@domain" == "email" + [AT] + "domain";
    BareAtRefused("email", "domain");
    assert "email@domain@domain.com" == "email@domain" + [AT] + "domain.com";
    LocalRefused("email@domain", "domain.com", resolves);
  }

  lemma LeadingDotCase(resolves: string -> bool)
    ensures !Accepts(".email@domain.com", resolves)
  {
    assert ".email@domain.com" == ".email" + [AT] + "domain.com";
    LocalRefused(".email", "domain.com", resolves);
  }

  lemma TrailingDotCase(resolves: string -> bool)
    ensures !Accepts("email.@domain.com", resolves)
  {
    NoQuoteNoCount("email.");
    assert "email.@domain.com" == "email." + [AT] + "domain.com";
    LocalRefused("email.", "domain.com", resolves);
  }

  /**
   * Two dots in a row are not refused: the answer for
   * "email..email@domain.com" is the resolver's.
   */
  lemma DoubleDotCase(resolves: string -> bool)
    ensures Accepts("email..email@domain.com", resolves) == resolves("domain.com")
  {
    NoQuoteNoCount("email..email");
    assert "email..email@domain.com" == "email..email" + [AT] + "domain.com";
    AcceptsFixedName("email..email", "domain.com", resolves);
  }

  lemma PlainCase(resolves: string -> bool)
    ensures Accepts("test@example.com", resolves) == resolves("example.com")
  {
    NoQuoteNoCount("test");
    assert "test@example.com" == "test" + [AT] + "example.com";
    AcceptsFixedName("test", "example.com", resolves);
  }

  /** The resolver is asked for "xn--bcher-kva.ch". */
  lemma InternationalCase(resolves: string -> bool)
    ensures Accepts("test@Bücher.ch", resolves) == resolves("xn--" + "bcher" + "-" + "kva" + "." + "ch")
  {
    NoQuoteNoCount("test");
    assert "test@Bücher.ch" == "test" + [AT] + "Bücher.ch";
    AcceptsBucher("test", resolves);
  }

  /** A quoted local part may hold '@' and a space. */
  lemma QuotedCase(resolves: string -> bool)
    ensures Accepts("\"@ test\"@Bücher.ch", resolves) == resolves("xn--" + "bcher" + "-" + "kva" + "." + "ch")
  {
    var local := "\"@ test\"";
    QuoteCountConcat([QUOTE], "@ test" + [QUOTE]);
    QuoteCountConcat("@ test", [QUOTE]);
    NoQuoteNoCount("@ test");
    assert local == [QUOTE] + ("@ test" + [QUOTE]);
    assert "\"@ test\"@Bücher.ch" == local + [AT] + "Bücher.ch";
    AcceptsBucher(local, resolves);
  }

  /** The brackets of an address literal are stripped before the lookup. */
  lemma LiteralCase(resolves: string -> bool)
    ensures Accepts("test@[127.0.0.1]", resolves) == resolves("127.0.0.1")
  {
    NoQuoteNoCount("test");
    var rest := "[127.0.0.1]";
    assert AT !in rest && Bracketed(rest) && rest[1..10] == "127.0.0.1";
    assert StripLiteral(rest) == "127.0.0.1";
    assert "test@[127.0.0.1]" == "test" + [AT] + rest;
    AcceptsFixedName("test", rest, resolves);
  }

  /** A dotted IP address without brackets is looked up as a name. */
  lemma IpDomainCase(resolves: string -> bool)
    ensures Accepts("test@127.0.0.1", resolves) == resolves("127.0.0.1")
  {
    NoQuoteNoCount("test");
    assert "test@127.0.0.1" == "test" + [AT] + "127.0.0.1";
    AcceptsFixedName("test", "127.0.0.1", resolves);
  }

  lemma PublicIpCase(resolves: string -> bool)
    ensures Accepts("test@8.8.8.8", resolves) == resolves("8.8.8.8")
  {
    NoQuoteNoCount("test");
    assert "test@8.8.8.8" == "test" + [AT] + "8.8.8.8";
    AcceptsFixedName("test", "8.8.8.8", resolves);
  }

  lemma EmailDomainCase(resolves: string -> bool)
    ensures Accepts("email@domain.com", resolves) == resolves("domain.com")
  {
    NoQuoteNoCount("email");
    assert "email@domain.com" == "email" + [AT] + "domain.com";
    AcceptsFixedName("email", "domain.com", resolves);
  }

  /** A '.' inside the local part is allowed. */
  lemma DottedLocalCase(resolves: string -> bool)
    ensures Accepts("firstname.lastname@domain.com", resolves) == resolves("domain.com")
  {
    NoQuoteNoCount("firstname.lastname");
    assert "firstname.lastname@domain.com" == "firstname.lastname" + [AT] + "domain.com";
    AcceptsFixedName("firstname.lastname", "domain.com", resolves);
  }

  lemma SubdomainCase(resolves: string -> bool)
    ensures Accepts("email@subdomain.domain.com", resolves) == resolves("subdomain.domain.com")
  {
    NoQuoteNoCount("email");
    assert "email@subdomain.domain.com" == "email" + [AT] + "subdomain.domain.com";
    AcceptsFixedName("email", "subdomain.domain.com", resolves);
  }

  /** A '+' in the local part is allowed. */
  lemma PlusLocalCase(resolves: string -> bool)
    ensures Accepts("firstname+lastname@domain.com", resolves) == resolves("domain.com")
  {
    NoQuoteNoCount("firstname+lastname");
    assert "firstname+lastname@domain.com" == "firstname+lastname" + [AT] + "domain.com";
    AcceptsFixedName("firstname+lastname", "domain.com", resolves);
  }

  lemma NumericDomainCase(resolves: string -> bool)
    ensures Accepts("email@123.123.123.123", resolves) == resolves("123.123.123.123")
  {
    NoQuoteNoCount("email");
    assert "email@123.123.123.123" == "email" + [AT] + "123.123.123.123";
    AcceptsFixedName("email", "123.123.123.123", resolves);
  }

  /** Typographic quotes are not '"' and count as ordinary code points. */
  lemma CurlyQuotesCase(resolves: string -> bool)
    ensures Accepts("“email”@domain.com", resolves) == resolves("domain.com")
  {
    NoQuoteNoCount("“email”");
    assert "“email”@domain.com" == "“email”" + [AT] + "domain.com";
    AcceptsFixedName("“email”", "domain.com", resolves);
  }

  lemma DigitLocalCase(resolves: string -> bool)
    ensures Accepts("1234567890@domain.com", resolves) == resolves("domain.com")
  {
    NoQuoteNoCount("1234567890");
    assert "1234567890@domain.com" == "1234567890" + [AT] + "domain.com";
    AcceptsFixedName("1234567890", "domain.com", resolves);
  }

  lemma DashDomainCase(resolves: string -> bool)
    ensures Accepts("email@domain-one.com", resolves) == resolves("domain-one.com")
  {
    NoQuoteNoCount("email");
    assert "email@domain-one.com" == "email" + [AT] + "domain-one.com";
    AcceptsFixedName("email", "domain-one.com", resolves);
  }

  lemma UnderscoreLocalCase(resolves: string -> bool)
    ensures Accepts("_______@domain.com", resolves) == resolves("domain.com")
  {
    NoQuoteNoCount("_______");
    assert "_______@domain.com" == "_______" + [AT] + "domain.com";
    AcceptsFixedName("_______", "domain.com", resolves);
  }

  lemma CountryDomainCase(resolves: string -> bool)
    ensures Accepts("email@domain.co.jp", resolves) == resolves("domain.co.jp")
  {
    NoQuoteNoCount("email");
    assert "email@domain.co.jp" == "email" + [AT] + "domain.co.jp";
    AcceptsFixedName("email", "domain.co.jp", resolves);
  }

  lemma DashLocalCase(resolves: string -> bool)
    ensures Accepts("firstname-lastname@domain.com", resolves) == resolves("domain.com")
  {
    NoQuoteNoCount("firstname-lastname");
    assert "firstname-lastname@domain.com" == "firstname-lastname" + [AT] + "domain.com";
    AcceptsFixedName("firstname-lastname", "domain.com", resolves);
  }

  /** Two dots in a row in the domain are not refused; the empty label is looked up as part of the name. */
  lemma DomainDoubleDotCase(resolves: string -> bool)
    ensures Accepts("email@domain..com", resolves) == resolves("domain..com")
  {
    NoQuoteNoCount("email");
    assert "email@domain..com" == "email" + [AT] + "domain..com";
    AcceptsFixedName("email", "domain..com", resolves);
  }

  /** A domain without a dot is looked up as it is. */
  lemma NoTopLevelCase(resolves: string -> bool)
    ensures Accepts("email@domain", resolves) == resolves("domain")
  {
    NoQuoteNoCount("email");
    assert "email@domain" == "email" + [AT] + "domain";
    AcceptsFixedName("email", "domain", resolves);
  }

  /** A leading '-' in the domain is not refused. */
  lemma LeadingDashDomainCase(resolves: string -> bool)
    ensures Accepts("email@-domain.com", resolves) == resolves("-domain.com")
  {
    NoQuoteNoCount("email");
    assert "email@-domain.com" == "email" + [AT] + "-domain.com";
    AcceptsFixedName("email", "-domain.com", resolves);
  }

  lemma UnknownTopLevelCase(resolves: string -> bool)
    ensures Accepts("email@domain.web", resolves) == resolves("domain.web")
  {
    NoQuoteNoCount("email");
    assert "email@domain.web" == "email" + [AT] + "domain.web";
    AcceptsFixedName("email", "domain.web", resolves);
  }

  /** Octet values and their count are not checked. */
  lemma BadIpCase(resolves: string -> bool)
    ensures Accepts("email@111.222.333.44444", resolves) == resolves("111.222.333.44444")
  {
    NoQuoteNoCount("email");
    assert "email@111.222.333.44444" == "email" + [AT] + "111.222.333.44444";
    AcceptsFixedName("email", "111.222.333.44444", resolves);
  }

  lemma BracketedIpCase(resolves: string -> bool)
    ensures Accepts("email@[123.123.123.123]", resolves) == resolves("123.123.123.123")
  {
    NoQuoteNoCount("email");
    var rest := "[123.123.123.123]";
    assert AT !in rest && Bracketed(rest) && rest[1..16] == "123.123.123.123";
    assert StripLiteral(rest) == "123.123.123.123";
    assert "email@[123.123.123.123]" == "email" + [AT] + rest;
    AcceptsFixedName("email", rest, resolves);
  }

  /** The address is cut at its last '@'; the local part then holds a bare '@'. */
  lemma GarbageRefused(resolves: string -> bool)
    ensures !Accepts("#@%^%#$@#$@#.com", resolves)
  {
    var local := "#@%^%#$@#$";
    NoQuoteNoCount(local);
    assert local == "#" + [AT] + "%^%#$@#$";
    BareAtRefused("#", "%^%#$@#$");
    assert "#@%^%#$@#$@#.com" == local + [AT] + "#.com";
    LocalRefused(local, "#.com", resolves);
  }

  /** The older validator has no '@' rule for the local part and asks the resolver. */
  lemma LegacyGarbageCase(resolves: string -> bool)
    ensures LegacyEmail.Accepts("#@%^%#$@#$@#.com", resolves) == resolves("#.com")
  {
    var local := "#@%^%#$@#$";
    var domain := "#.com";
    assert "#@%^%#$@#$@#.com" == local + [AT] + domain;
    LegacyEmail.AcceptsFixedName(local, domain, resolves);
  }

  /** An address without '@' is refused by both validators. */
  lemma MissingAtRefused(resolves: string -> bool)
    ensures !Accepts("email.domain.com", resolves)
    ensures !LegacyEmail.Accepts("email.domain.com", resolves)
  {
    assert AT !in "email.domain.com";
    NoAtEmptyParts("email.domain.com");
    LegacyEmail.NoAtRefused("email.domain.com", resolves);
  }

  /** A display name before the address: the domain keeps its '>'. */
  lemma DisplayNameCase(resolves: string -> bool)
    ensures Accepts("Joe Smith <email@domain.com>", resolves) == resolves("domain.com>")
  {
    var local := "Joe Smith <email";
    var rest := "domain.com>";
    NoQuoteNoCount(local);
    assert "Joe Smith <email@domain.com>" == local + [AT] + rest;
    AcceptsFixedName(local, rest, resolves);
  }
}
