/**
 The configured proxy list prints to a text that configures the same list, and the client of a
 request is the first untrusted address from the remote peer leftwards.
 */
module ClientResolver {
  import opened Wrappers
  import opened Text
  import opened ClientAddress
  import opened ClientRanges

  // ----- the list of networks -----

  predicate IsCidrChar(c: char) { IsHexDigit(c) || c == ':' || c == '.' || c == '/' }

  predicate IsCidrText(s: string)
  {
    9 <= |s| <= 43 && forall k :: 0 <= k < |s| ==> IsCidrChar(s[k])
  }

  lemma CanonicalChars(family: Family, bytes: seq<Byte>)
    requires IsAddress(family, bytes)
    ensures var t := Canonical(family, bytes);
            7 <= |t| <= 39 && forall k :: 0 <= k < |t| ==> IsCidrChar(t[k]) && t[k] != '/'
  {
    hide Canonical, ParseAddress, IsMapped;
    if family.V4? { Ipv4RoundTrip(bytes); } else { Ipv6RoundTrip(bytes); }
  }

  lemma PrefixPrints(prefix: nat)
    requires prefix <= 128
    ensures IsPrefixText(Numeral(prefix, 10)) && NumeralValue(Numeral(prefix, 10), 10) == prefix && '/' !in Numeral(prefix, 10)
  {
    NumeralReads(prefix, 10);
    assert Power(10, 1) == 10 && Power(10, 2) == 100 && Power(10, 3) == 1000;
    NumeralLength(prefix, 10, 3);
  }

  /** A network prints to a text that parses to it. */
  lemma CidrRoundTrip(c: Cidr)
    requires IsCidr(c)
    ensures ParseCidr(c.canonical) == Success(c) && IsCidrText(c.canonical)
  {
    hide Canonical, ParseAddress, IsMapped, Masked, LastIndexOf, Numeral, NumeralValue;
    var head, tail := Canonical(c.family, c.network), Numeral(c.prefix, 10);
    CanonicalChars(c.family, c.network);
    CanonicalParses(c.family, c.network);
    PrefixPrints(c.prefix);
    LastAt(head, tail, '/');
    assert c.canonical == head + ['/'] + tail;
  }

  lemma {:induction false} ParseAllIs(entries: seq<string>)
    ensures var r := ParseAll(entries);
            r.Success? ==> |r.value| == |entries| && forall i :: 0 <= i < |entries| ==> ParseCidr(entries[i]) == Success(r.value[i])
  {
    hide ParseCidr;
    if entries != [] { ParseAllIs(entries[1..]); }
  }

  lemma {:induction false} AllParse(entries: seq<string>, cidrs: seq<Cidr>)
    requires |entries| == |cidrs| && forall i :: 0 <= i < |entries| ==> ParseCidr(entries[i]) == Success(cidrs[i])
    ensures ParseAll(entries) == Success(cidrs)
  {
    hide ParseCidr;
    if entries != [] {
      AllParse(entries[1..], cidrs[1..]);
      assert cidrs == [cidrs[0]] + cidrs[1..];
    }
  }

  /** The networks behind an accepted list. */
  lemma EntriesAreCidrs(entries: seq<string>) returns (cidrs: seq<Cidr>)
    requires ParseEntries(entries).Success?
    ensures |cidrs| == |entries| <= MAXIMUM_CIDRS && (forall i :: 0 <= i < |cidrs| ==> IsCidr(cidrs[i]))
    ensures NoDuplicates(CanonicalTexts(cidrs)) && ParseEntries(entries) == Success(CanonicalTexts(cidrs))
  {
    hide ParseCidr, IsCidr;
    cidrs := ParseAll(entries).value;
    ParseAllIs(entries);
    forall i | 0 <= i < |cidrs| ensures IsCidr(cidrs[i]) { ParsedIsCidr(entries[i]); }
  }

  lemma CidrTextTrims(s: string)
    requires IsCidrText(s)
    ensures Trim(s) == s && s != ""
  {
    TrimKeeps(s);
  }

  /** The text of a list that was accepted configures that list again. */
  lemma ListRoundTrip(cidrs: seq<Cidr>, required: bool)
    requires 1 <= |cidrs| <= MAXIMUM_CIDRS && forall i :: 0 <= i < |cidrs| ==> IsCidr(cidrs[i])
    requires NoDuplicates(CanonicalTexts(cidrs))
    ensures ParseTrustedProxyCidrs(Some(Join(CanonicalTexts(cidrs), ',')), required) == Success(CanonicalTexts(cidrs))
  {
    hide ParseCidr, IsCidr, IsCidrText, Trim, Join, Split, ParseAll, NoDuplicates;
    var texts := CanonicalTexts(cidrs);
    forall i | 0 <= i < |texts|
      ensures ParseCidr(texts[i]) == Success(cidrs[i]) && IsCidrText(texts[i]) && Trim(texts[i]) == texts[i] && texts[i] != ""
    {
      CidrRoundTrip(cidrs[i]);
      CidrTextTrims(texts[i]);
    }
    JoinedTexts(texts);
    AllParse(texts, cidrs);
    assert TrimAll(texts) == texts;
  }

  predicate IsListChar(c: char) { IsCidrChar(c) || c == ',' }

  lemma JoinedTexts(texts: seq<string>)
    requires 1 <= |texts| <= MAXIMUM_CIDRS && forall i :: 0 <= i < |texts| ==> IsCidrText(texts[i])
    ensures var s := Join(texts, ','); s != "" && |s| <= MAXIMUM_HEADER_BYTES && Trim(s) == s && Split(s, ',') == texts
  {
    hide Trim, Join, Split;
    JoinLength(texts, ',', 43);
    JoinedChars(texts, ',', IsListChar);
    TrimKeeps(Join(texts, ','));
    SplitJoin(texts, ',');
    assert Join(texts, ',') != "" by { JoinIsLonger(texts); }
  }

  lemma JoinIsLonger(texts: seq<string>)
    requires |texts| >= 1 && texts[0] != ""
    ensures Join(texts, ',') != ""
  {
  }

  /** Any accepted configuration: its comma-joined result configures the same list. */
  lemma ConfigurationRoundTrip(value: Option<string>, required: bool)
    requires ParseTrustedProxyCidrs(value, required).Success?
    ensures var out := ParseTrustedProxyCidrs(value, required).value;
            ParseTrustedProxyCidrs(Some(Join(out, ',')), required) == Success(out)
  {
    hide ParseEntries;
    if value.Some? && Trim(value.value) != "" {
      var cidrs := EntriesAreCidrs(TrimAll(Split(value.value, ',')));
      ListRoundTrip(cidrs, required);
    }
  }

  /** The network that an address and up to three digits name, aligned and with a prefix of at least eight. */
  ghost predicate IsNetwork(value: string, c: Cidr, address: string, digits: string)
  {
    && value == address + "/" + digits && ParseAddress(address).Some?
    && 1 <= |digits| <= 3 && (forall i :: 0 <= i < |digits| ==> '0' <= digits[i] <= '9')
    && var a, width := ParseAddress(address).value, if ParseAddress(address).value.family.V4? then 32 else 128;
    && c.prefix == NumeralValue(digits, 10) && 8 <= c.prefix <= width
    && Value(a.bytes) % Pow2(width - c.prefix) == 0
    && c.family == a.family && c.network == a.bytes && c.canonical == a.canonical + "/" + Numeral(c.prefix, 10)
  }

  lemma CidrIsExact(value: string, c: Cidr)
    ensures ParseCidr(value) == Success(c) <==> exists address, digits :: IsNetwork(value, c, address, digits)
  {
    hide ParseCidr, IsNetwork;
    if ParseCidr(value) == Success(c) { var address, digits := NetworkOf(value, c); }
    if address, digits :| IsNetwork(value, c, address, digits) { NetworkParses(value, c, address, digits); }
  }

  lemma NetworkOf(value: string, c: Cidr) returns (address: string, digits: string)
    requires ParseCidr(value) == Success(c)
    ensures IsNetwork(value, c, address, digits)
  {
    hide ParseAddress, Masked, Canonical, Numeral, NumeralValue, Value, Pow2, LastIndexOf;
    var separator := LastIndexOf(value, '/');
    address, digits := value[..separator], value[separator + 1..];
    assert value == address + "/" + digits;
    NetworkIs(ParseAddress(address).value, address, NumeralValue(digits, 10));
  }

  lemma NetworkParses(value: string, c: Cidr, address: string, digits: string)
    requires IsNetwork(value, c, address, digits)
    ensures ParseCidr(value) == Success(c)
  {
    hide ParseAddress, ParseCidr, Masked, Canonical, Numeral, NumeralValue, Value, Pow2;
    CidrParts(value, address, digits);
    AddressIsNonempty(address);
    NetworkIs(ParseAddress(address).value, address, NumeralValue(digits, 10));
  }

  lemma AddressIsNonempty(address: string)
    ensures ParseAddress(address).Some? ==> address != ""
  {
  }

  /** Aligned networks are those whose value is a multiple of their size. */
  lemma NetworkIs(a: Address, address: string, prefix: nat)
    requires ParseAddress(address) == Some(a) && prefix <= Width(a.family)
    ensures Masked(a.bytes, prefix) == a.bytes <==> Value(a.bytes) % Pow2(Width(a.family) - prefix) == 0
  {
    hide ParseAddress, Masked, Canonical, Value, Pow2, IsMapped;
    ParsedIsAddress(address);
    MaskedIsArithmetic(a.bytes, prefix);
    MaskedLength(a.bytes, prefix);
    if Value(a.bytes) % Pow2(Width(a.family) - prefix) == 0 { ValueIsInjective(Masked(a.bytes, prefix), a.bytes); }
  }

  /** Why an entry is refused, in the source's order. */
  lemma CidrRefusals(value: string, address: string, digits: string)
    requires value == address + "/" + digits && '/' !in digits
    ensures address == "" || digits == "" ==> ParseCidr(value) == Failure("each trusted proxy must be an explicit CIDR")
    ensures address != "" && digits != "" && (ParseAddress(address).None? || |digits| > 3 || exists i :: 0 <= i < |digits| && !('0' <= digits[i] <= '9')) ==>
              ParseCidr(value) == Failure("each trusted proxy must be a valid CIDR")
    ensures address != "" && 1 <= |digits| <= 3 && (forall i :: 0 <= i < |digits| ==> '0' <= digits[i] <= '9') && ParseAddress(address).Some? ==>
              var a, prefix := ParseAddress(address).value, NumeralValue(digits, 10);
              && (prefix < 8 || prefix > (if a.family.V4? then 32 else 128) ==>
                    ParseCidr(value) == Failure("trusted proxy CIDR prefixes must be bounded"))
              && (8 <= prefix <= (if a.family.V4? then 32 else 128) && ParseCidr(value).Failure? ==>
                    ParseCidr(value) == Failure("trusted proxy CIDRs must use canonical network addresses"))
  {
    hide ParseAddress, ParseCidr, Masked, Canonical, NumeralValue, Numeral;
    CidrParts(value, address, digits);
  }

  lemma CidrParts(value: string, address: string, digits: string)
    requires value == address + "/" + digits && '/' !in digits
    ensures ParseCidr(value) ==
              if address == "" || digits == "" then Failure(EXPLICIT)
              else if ParseAddress(address).None? || !IsPrefixText(digits) then Failure(INVALID)
              else CidrOf(ParseAddress(address).value, NumeralValue(digits, 10))
  {
    hide ParseAddress, CidrOf, NumeralValue, IsPrefixText;
    LastAt(address, digits, '/');
    assert value == address + ['/'] + digits;
  }

  lemma NoSlashIsRefused(value: string)
    requires '/' !in value
    ensures ParseCidr(value) == Failure("each trusted proxy must be an explicit CIDR")
  {
    hide ParseAddress;
  }

  /** The parts of a configuration are accepted as these networks. */
  predicate AreAccepted(parts: seq<string>, cidrs: seq<Cidr>)
  {
    |cidrs| == |parts| && forall i :: 0 <= i < |parts| ==> ParseCidr(Trim(parts[i])) == Success(cidrs[i])
  }

  /** The first part that is no network decides the error. */
  predicate IsFirstRefused(parts: seq<string>, i: nat, error: string)
  {
    && i < |parts| && ParseCidr(Trim(parts[i])) == Failure(error)
    && forall j :: 0 <= j < i ==> ParseCidr(Trim(parts[j])).Success?
  }

  lemma {:induction false} AllOrFirst(entries: seq<string>)
    ensures var r := ParseAll(entries);
            if r.Success? then |r.value| == |entries| && forall i :: 0 <= i < |entries| ==> ParseCidr(entries[i]) == Success(r.value[i])
            else exists i :: 0 <= i < |entries| && ParseCidr(entries[i]) == Failure(r.error) && forall j :: 0 <= j < i ==> ParseCidr(entries[j]).Success?
  {
    hide ParseCidr;
    if entries != [] {
      var rest := entries[1..];
      AllOrFirst(rest);
      if ParseCidr(entries[0]).Failure? {
        assert ParseCidr(entries[0]) == Failure(ParseAll(entries).error);
      } else if ParseAll(rest).Failure? {
        var i :| 0 <= i < |rest| && ParseCidr(rest[i]) == Failure(ParseAll(rest).error) && forall j :: 0 <= j < i ==> ParseCidr(rest[j]).Success?;
        assert entries[i + 1] == rest[i];
        forall j | 0 <= j < i + 1 ensures ParseCidr(entries[j]).Success? { if j > 0 { assert entries[j] == rest[j - 1]; } }
      }
    }
  }

  /** What becomes of parts none of which is blank: the first refusal, a duplicate, or the list. */
  ghost predicate IsOutcome(parts: seq<string>, r: Result<seq<string>, string>)
  {
    if exists i, error :: IsFirstRefused(parts, i, error) then r.Failure? && exists i :: IsFirstRefused(parts, i, r.error)
    else exists cidrs :: AreAccepted(parts, cidrs) && r == if HasDuplicate(cidrs) then Failure("must not contain duplicate CIDRs")
                                                           else Success(CanonicalTexts(cidrs))
  }

  predicate HasDuplicate(cidrs: seq<Cidr>)
  {
    exists i, j :: 0 <= i < j < |cidrs| && cidrs[i].canonical == cidrs[j].canonical
  }

  /** Every outcome of a configured list, from its parts between commas. */
  lemma ConfigurationIsExact(parts: seq<string>, required: bool)
    requires parts != [] && forall i :: 0 <= i < |parts| ==> ',' !in parts[i]
    ensures var value := Join(parts, ','); var r := ParseTrustedProxyCidrs(Some(value), required);
            if IsBlank(value) then r == if required then Failure("must be configured in production") else Success([])
            else if |value| > 2_048 then r == Failure("must not exceed 2048 bytes")
            else if |parts| > 32 || exists i :: 0 <= i < |parts| && IsBlank(parts[i]) then
              r == Failure("must contain from 1 to 32 comma-separated CIDRs")
            else IsOutcome(parts, r)
    ensures ParseTrustedProxyCidrs(None, required) == if required then Failure("must be configured in production") else Success([])
  {
    hide Join, Split, Trim, IsBlank, ParseAll, NoDuplicates, IsOutcome;
    var value := Join(parts, ',');
    SplitJoin(parts, ',');
    BlankIsTrimmed(value);
    BlanksAreEmpty(parts);
    if |parts| <= 32 && forall i :: 0 <= i < |parts| ==> !IsBlank(parts[i]) { EntriesAreExact(parts); }
  }

  lemma BlanksAreEmpty(parts: seq<string>)
    ensures "" in TrimAll(parts) <==> exists i :: 0 <= i < |parts| && IsBlank(parts[i])
  {
    hide Trim, IsBlank;
    forall i | 0 <= i < |parts| ensures TrimAll(parts)[i] == "" <==> IsBlank(parts[i]) { BlankIsTrimmed(parts[i]); }
  }

  lemma EntriesAreExact(parts: seq<string>)
    requires |parts| <= 32 && forall i :: 0 <= i < |parts| ==> !IsBlank(parts[i])
    ensures IsOutcome(parts, ParseEntries(TrimAll(parts)))
  {
    hide ParseCidr, Trim, IsBlank, ParseAll;
    var entries := TrimAll(parts);
    BlanksAreEmpty(parts);
    AllOrFirst(entries);
    if ParseAll(entries).Success? {
      var cidrs := ParseAll(entries).value;
      assert forall i :: 0 <= i < |parts| ==> entries[i] == Trim(parts[i]);
      assert AreAccepted(parts, cidrs);
      DuplicatesAre(cidrs);
    } else {
      var error := ParseAll(entries).error;
      var i :| 0 <= i < |entries| && ParseCidr(entries[i]) == Failure(error) && forall j :: 0 <= j < i ==> ParseCidr(entries[j]).Success?;
      assert forall j :: 0 <= j <= i ==> entries[j] == Trim(parts[j]);
      assert IsFirstRefused(parts, i, error);
    }
  }

  lemma DuplicatesAre(cidrs: seq<Cidr>)
    ensures NoDuplicates(CanonicalTexts(cidrs)) <==> !HasDuplicate(cidrs)
  {
    var texts := CanonicalTexts(cidrs);
    assert forall i :: 0 <= i < |cidrs| ==> texts[i] == cidrs[i].canonical;
  }

  lemma BlankIsTrimmed(s: string)
    ensures Trim(s) == "" <==> IsBlank(s)
  {
    hide IsSpace;
    if IsBlank(s) {
      TrimCutsBlanks(s, "", "");
      assert s + "" + "" == s;
    }
    var left, right := TrimLeaves(s);
  }

  // ----- the client of a request -----

  const UNKNOWN := "unknown"
  const MAXIMUM_HOPS := 16

  /** The `x-forwarded-for` header: missing, repeated, or one text. */
  datatype Forwarded = Absent | Several(values: seq<string>) | One(text: string)

  function ParseAddresses(parts: seq<string>): Option<seq<Address>>
  {
    if parts == [] then Some([])
    else
      var first, rest := ParseAddress(Trim(parts[0])), ParseAddresses(parts[1..]);
      if first.None? || rest.None? then None else Some([first.value] + rest.value)
  }

  /** The addresses of a header that is used at all. */
  function HeaderAddresses(forwardedFor: Forwarded): Option<seq<Address>>
  {
    if !forwardedFor.One? || |forwardedFor.text| > MAXIMUM_HEADER_BYTES then None
    else
      var parts := Split(forwardedFor.text, ',');
      if |parts| > MAXIMUM_HOPS then None else ParseAddresses(parts)
  }

  function Texts(chain: seq<Address>): seq<string>
  {
    seq(|chain|, i requires 0 <= i < |chain| => chain[i].canonical)
  }

  lemma WellFormedReads(a: Address)
    requires IsWellFormed(a)
    ensures Trim(a.canonical) == a.canonical && ParseAddress(a.canonical) == Some(a)
    ensures 7 <= |a.canonical| <= 39 && ',' !in a.canonical
  {
    hide ParseAddress, Canonical, IsAddress, Trim;
    CanonicalParses(a.family, a.bytes);
    CanonicalChars(a.family, a.bytes);
    TrimKeeps(a.canonical);
  }

  lemma {:induction false} TextsParse(chain: seq<Address>)
    requires forall i :: 0 <= i < |chain| ==> IsWellFormed(chain[i])
    ensures ParseAddresses(Texts(chain)) == Some(chain)
    ensures forall i :: 0 <= i < |chain| ==> 7 <= |chain[i].canonical| <= 39 && ',' !in chain[i].canonical
  {
    hide ParseAddress, Canonical, IsAddress, Trim, IsWellFormed;
    if chain != [] {
      var a := chain[0];
      WellFormedReads(a);
      TextsParse(chain[1..]);
      assert Texts(chain)[1..] == Texts(chain[1..]);
      assert chain == [a] + chain[1..];
    }
  }

  /** A header that lists up to sixteen addresses in their canonical texts is read as these addresses. */
  lemma HeaderReads(chain: seq<Address>)
    requires 1 <= |chain| <= MAXIMUM_HOPS && forall i :: 0 <= i < |chain| ==> IsWellFormed(chain[i])
    ensures HeaderAddresses(One(Join(Texts(chain), ','))) == Some(chain)
  {
    hide ParseAddresses, Join, Split, IsWellFormed;
    TextsParse(chain);
    JoinLength(Texts(chain), ',', 39);
    SplitJoin(Texts(chain), ',');
  }

  /** The rightmost untrusted address of the chain, or the leftmost address. */
  function FirstUntrusted(chain: seq<Address>, trusted: seq<Cidr>): Address
    requires chain != []
  {
    var last := |chain| - 1;
    if last == 0 || !MatchesAny(chain[last], trusted) then chain[last] else FirstUntrusted(chain[..last], trusted)
  }

  lemma {:induction false} FirstUntrustedIs(chain: seq<Address>, trusted: seq<Cidr>)
    requires chain != []
    ensures exists i :: 0 <= i < |chain| && IsFirstUntrusted(chain, trusted, i) && FirstUntrusted(chain, trusted) == chain[i]
  {
    hide MatchesAny;
    var last := |chain| - 1;
    if last == 0 || !MatchesAny(chain[last], trusted) {
      assert IsFirstUntrusted(chain, trusted, last);
    } else {
      FirstUntrustedIs(chain[..last], trusted);
      var i :| 0 <= i < last && IsFirstUntrusted(chain[..last], trusted, i) && FirstUntrusted(chain[..last], trusted) == chain[..last][i];
      assert IsFirstUntrusted(chain, trusted, i);
    }
  }

  predicate IsFirstUntrusted(chain: seq<Address>, trusted: seq<Cidr>, i: nat)
    requires i < |chain|
  {
    (forall j :: i < j < |chain| ==> MatchesAny(chain[j], trusted)) && (i == 0 || !MatchesAny(chain[i], trusted))
  }

  /** What stands left of an untrusted address has no influence. */
  lemma {:induction false} LeftIsIgnored(left: seq<Address>, other: seq<Address>, right: seq<Address>, trusted: seq<Cidr>)
    requires right != [] && !MatchesAny(right[0], trusted)
    ensures FirstUntrusted(left + right, trusted) == FirstUntrusted(other + right, trusted)
    decreases |right|
  {
    hide MatchesAny;
    var n := |right| - 1;
    if n > 0 && MatchesAny(right[n], trusted) {
      LeftIsIgnored(left, other, right[..n], trusted);
      assert (left + right)[..|left| + n] == left + right[..n];
      assert (other + right)[..|other| + n] == other + right[..n];
    }
  }

  function ClientOf(trusted: seq<Cidr>, remote: Address, forwardedFor: Forwarded): string
  {
    var forwarded := HeaderAddresses(forwardedFor);
    if !MatchesAny(remote, trusted) || forwarded.None? then remote.canonical
    else FirstUntrusted(forwarded.value + [remote], trusted).canonical
  }

  // ----- the header in its own terms -----

  /** An address between blanks. */
  ghost predicate IsPadded(part: string, a: Address)
  {
    exists left, text, right :: IsBlank(left) && IsBlank(right) && HasNoOuterBlanks(text)
                                && part == left + text + right && ParseAddress(text) == Some(a)
  }

  /** The header joins these parts, each an address between blanks. */
  ghost predicate IsListing(header: string, parts: seq<string>, chain: seq<Address>)
  {
    && |header| <= 2_048 && 1 <= |parts| <= 16 && |chain| == |parts| && header == Join(parts, ',')
    && forall i :: 0 <= i < |parts| ==> ',' !in parts[i] && IsPadded(parts[i], chain[i])
  }

  /** Up to sixteen addresses between blanks and commas, in at most 2,048 characters. */
  ghost predicate Lists(header: string, chain: seq<Address>)
  {
    exists parts :: IsListing(header, parts, chain)
  }

  lemma PaddedIsTrimmed(part: string, a: Address)
    ensures IsPadded(part, a) <==> IsReadAs(part, a)
  {
    hide ParseAddress, Trim, IsBlank, HasNoOuterBlanks;
    if IsPadded(part, a) {
      var left, text, right :| IsBlank(left) && IsBlank(right) && HasNoOuterBlanks(text)
                               && part == left + text + right && ParseAddress(text) == Some(a);
      TrimCutsBlanks(left, text, right);
    }
    var left, right := TrimLeaves(part);
  }

  predicate IsReadAs(part: string, a: Address) { ParseAddress(Trim(part)) == Some(a) }

  lemma {:induction false} PartsParse(parts: seq<string>, chain: seq<Address>)
    ensures ParseAddresses(parts) == Some(chain) <==>
              |chain| == |parts| && forall i :: 0 <= i < |parts| ==> IsReadAs(parts[i], chain[i])
  {
    hide IsReadAs, ParseAddress;
    if parts != [] && chain != [] {
      var rest, others := parts[1..], chain[1..];
      PartsParse(rest, others);
      PartsUnfold(parts, chain);
      if |chain| == |parts| && ParseAddresses(rest) == Some(others) && IsReadAs(parts[0], chain[0]) {
        forall i | 0 <= i < |parts| ensures IsReadAs(parts[i], chain[i]) {
          if i > 0 { assert parts[i] == rest[i - 1] && chain[i] == others[i - 1]; }
        }
      }
    }
  }

  lemma PartsUnfold(parts: seq<string>, chain: seq<Address>)
    requires parts != [] && chain != []
    ensures ParseAddresses(parts) == Some(chain) <==> IsReadAs(parts[0], chain[0]) && ParseAddresses(parts[1..]) == Some(chain[1..])
  {
    hide ParseAddress;
    assert chain == [chain[0]] + chain[1..];
  }

  /** A header is used exactly when it lists addresses, and then it is read as these. */
  lemma HeaderIsExact(header: string, chain: seq<Address>)
    ensures HeaderAddresses(One(header)) == Some(chain) <==> Lists(header, chain)
  {
    hide IsReadAs, IsPadded, ParseAddresses, Split, Join;
    forall part, a ensures IsPadded(part, a) <==> IsReadAs(part, a) { PaddedIsTrimmed(part, a); }
    var parts := Split(header, ',');
    JoinSplit(header, ',');
    SplitHasNoSeparator(header, ',');
    PartsParse(parts, chain);
    if Lists(header, chain) {
      var own :| IsListing(header, own, chain);
      SplitJoin(own, ',');
      PartsParse(own, chain);
    }
    if HeaderAddresses(One(header)) == Some(chain) {
      assert IsListing(header, parts, chain);
    }
  }

  /** The addresses of the request, leftmost first, the peer last. */
  ghost predicate IsChain(forwardedFor: Forwarded, remote: Address, chain: seq<Address>)
  {
    chain != [] && chain[|chain| - 1] == remote
    && if forwardedFor.One? && exists listed :: Lists(forwardedFor.text, listed)
       then Lists(forwardedFor.text, chain[..|chain| - 1])
       else |chain| == 1
  }

  /** The peer behind what the header lists. */
  function ChainOf(remote: Address, forwardedFor: Forwarded): (chain: seq<Address>)
    ensures chain != []
  {
    var header := HeaderAddresses(forwardedFor);
    if header.None? then [remote] else header.value + [remote]
  }

  lemma ChainIs(remote: Address, forwardedFor: Forwarded)
    ensures IsChain(forwardedFor, remote, ChainOf(remote, forwardedFor))
  {
    hide HeaderAddresses, Lists;
    var header := HeaderAddresses(forwardedFor);
    if header.Some? {
      OnlyOneIsUsed(forwardedFor);
      HeaderIsExact(forwardedFor.text, header.value);
      assert (header.value + [remote])[..|header.value|] == header.value;
    } else if forwardedFor.One? {
      forall listed ensures !Lists(forwardedFor.text, listed) { HeaderIsExact(forwardedFor.text, listed); }
    }
  }

  /** The client is the rightmost untrusted address of the chain, or the leftmost address. */
  lemma ClientIsExact(trusted: seq<Cidr>, remote: Address, forwardedFor: Forwarded) returns (i: nat)
    ensures var chain := ChainOf(remote, forwardedFor);
            && i < |chain| && ClientOf(trusted, remote, forwardedFor) == chain[i].canonical
            && (forall j :: i < j < |chain| ==> MatchesAny(chain[j], trusted)) && (i == 0 || !MatchesAny(chain[i], trusted))
  {
    hide MatchesAny, HeaderAddresses, FirstUntrusted;
    var chain := ChainOf(remote, forwardedFor);
    if !MatchesAny(remote, trusted) || HeaderAddresses(forwardedFor).None? {
      i := |chain| - 1;
    } else {
      FirstUntrustedIs(chain, trusted);
      i :| 0 <= i < |chain| && IsFirstUntrusted(chain, trusted, i) && FirstUntrusted(chain, trusted) == chain[i];
    }
  }

  lemma OnlyOneIsUsed(forwardedFor: Forwarded)
    ensures !forwardedFor.One? ==> HeaderAddresses(forwardedFor) == None
  {
  }

  /** The text is that of the rightmost untrusted address of the request's chain, or of the leftmost address. */
  ghost predicate IsClient(trusted: seq<Cidr>, remote: Address, forwardedFor: Forwarded, client: string)
  {
    exists chain: seq<Address>, i: nat :: IsChain(forwardedFor, remote, chain) && i < |chain| && client == chain[i].canonical
      && (forall j :: i < j < |chain| ==> MatchesAny(chain[j], trusted)) && (i == 0 || !MatchesAny(chain[i], trusted))
  }

  /** An unreadable peer is unknown; an unusable header leaves the peer; otherwise the walk decides. */
  method Resolve(trusted: seq<Cidr>, remoteAddress: Option<string>, forwardedFor: Forwarded) returns (client: string)
    ensures remoteAddress.None? || ParseAddress(remoteAddress.value).None? ==> client == "unknown"
    ensures remoteAddress.Some? && ParseAddress(remoteAddress.value).Some? ==>
              IsClient(trusted, ParseAddress(remoteAddress.value).value, forwardedFor, client)
  {
    if remoteAddress.None? { return UNKNOWN; }
    var parsed := ParseAddress(remoteAddress.value);
    if parsed.None? { return UNKNOWN; }
    client := ResolveFrom(trusted, parsed.value, forwardedFor);
    ghost var i := ClientIsExact(trusted, parsed.value, forwardedFor);
    ChainIs(parsed.value, forwardedFor);
    hide IsChain, ChainOf, MatchesAny, ParseAddress;
    assert IsClient(trusted, parsed.value, forwardedFor, client);
  }

  /** The walk from a readable peer. */
  method ResolveFrom(trusted: seq<Cidr>, remote: Address, forwardedFor: Forwarded) returns (client: string)
    ensures client == ClientOf(trusted, remote, forwardedFor)
  {
    hide MatchesAny, ParseAddress, HeaderAddresses;
    if !MatchesAny(remote, trusted) { return remote.canonical; }
    var header := HeaderAddresses(forwardedFor);
    if header.None? { return remote.canonical; }
    var forwarded := header.value;
    var current := remote;
    var index := |forwarded|;
    assert forwarded[..index] == forwarded;
    while index > 0 && MatchesAny(current, trusted)
      invariant 0 <= index <= |forwarded|
      invariant FirstUntrusted(forwarded + [remote], trusted) == FirstUntrusted(forwarded[..index] + [current], trusted)
    {
      assert (forwarded[..index] + [current])[..index] == forwarded[..index - 1] + [forwarded[index - 1]];
      index := index - 1;
      current := forwarded[index];
    }
    client := current.canonical;
  }
}
