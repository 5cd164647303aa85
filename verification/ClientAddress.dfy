/**
 Addresses of clients and proxies: the parser of IPv4, IPv6 and IPv4-mapped text, the printer of
 the canonical form, and their round trip.
 */
module ClientAddress {
  import opened Wrappers
  import opened Text

  type Byte = b: nat | b < 256
  type Word = w: nat | w < 0x1_0000

  datatype Family = V4 | V6

  datatype Address = Address(family: Family, bytes: seq<Byte>, canonical: string)

  const MAXIMUM_ADDRESS_LENGTH := 64

  // ----- IPv4 -----

  /** `0` or a decimal of up to three digits without a leading zero, at most 255. */
  predicate IsOctet(part: string)
  {
    IsCanonicalDecimal(part) && |part| <= 3 && NumeralValue(part, 10) <= 255
  }

  function OctetValue(part: string): Byte
    requires IsOctet(part)
  {
    NumeralValue(part, 10)
  }

  function Octets(parts: seq<string>): seq<Byte>
    requires forall i :: 0 <= i < |parts| ==> IsOctet(parts[i])
  {
    seq(|parts|, i requires 0 <= i < |parts| => OctetValue(parts[i]))
  }

  function ParseIpv4(value: string): Option<seq<Byte>>
  {
    var parts := Split(value, '.');
    if |parts| == 4 && forall i :: 0 <= i < |parts| ==> IsOctet(parts[i]) then Some(Octets(parts)) else None
  }

  /** The loop of the parser over its four-byte buffer. */
  method ParseIpv4Bytes(value: string) returns (r: Option<seq<Byte>>)
    ensures r == ParseIpv4(value)
  {
    var parts := Split(value, '.');
    if |parts| != 4 { return None; }
    var bytes := new Byte[4];
    for index := 0 to |parts|
      invariant forall i :: 0 <= i < index ==> IsOctet(parts[i]) && bytes[i] == NumeralValue(parts[i], 10)
    {
      var part := parts[index];
      if !IsCanonicalDecimal(part) || |part| > 3 { return None; }
      var parsed := NumeralValue(part, 10);
      if parsed > 255 { return None; }
      bytes[index] := parsed;
    }
    assert bytes[..] == Octets(parts);
    r := Some(bytes[..]);
  }

  // ----- IPv6 -----

  lemma {:induction false} HexBelow(s: string)
    requires forall i :: 0 <= i < |s| ==> IsHexDigit(s[i])
    ensures NumeralValue(s, 16) < Power(16, |s|)
  {
    if s != "" { HexBelow(s[..|s| - 1]); }
  }

  predicate IsGroup(part: string)
  {
    1 <= |part| <= 4 && IsNumeral(part, 16)
  }

  lemma GroupBelow(part: string)
    requires IsGroup(part)
    ensures NumeralValue(part, 16) < 0x1_0000
  {
    HexBelow(part);
    assert Power(16, 1) == 16 && Power(16, 2) == 256 && Power(16, 3) == 4096 && Power(16, 4) == 0x1_0000;
  }

  function GroupValue(part: string): Word
    requires IsGroup(part)
  {
    GroupBelow(part);
    NumeralValue(part, 16)
  }

  predicate AreGroups(parts: seq<string>)
  {
    forall i :: 0 <= i < |parts| ==> IsGroup(parts[i])
  }

  function GroupValues(parts: seq<string>): seq<Word>
    requires AreGroups(parts)
  {
    seq(|parts|, i requires 0 <= i < |parts| => GroupValue(parts[i]))
  }

  /** `split('::')`: leftmost occurrences first. */
  function SplitDouble(s: string): (parts: seq<string>)
    ensures |parts| >= 1
  {
    if |s| < 2 then [s]
    else if s[0] == ':' && s[1] == ':' then [""] + SplitDouble(s[2..])
    else
      var rest := SplitDouble(s[1..]);
      [[s[0]] + rest[0]] + rest[1..]
  }

  function ParseHalf(half: string): Option<seq<Word>>
  {
    if half == "" then Some([])
    else if AreGroups(Split(half, ':')) then Some(GroupValues(Split(half, ':')))
    else None
  }

  function Zeros(n: nat): seq<Word> { seq(n, _ => 0) }

  function ParseGroups(expanded: string): Option<seq<Word>>
  {
    var halves := SplitDouble(expanded);
    if |halves| > 2 then None
    else
      var left, right := ParseHalf(halves[0]), ParseHalf(if |halves| == 2 then halves[1] else "");
      if left.None? || right.None? then None
      else
        var missing := 8 - |left.value| - |right.value|;
        if (|halves| == 1 && missing != 0) || (|halves| == 2 && missing < 1) then None
        else Some(left.value + Zeros(missing) + right.value)
  }

  /** `(high << 8) | low` on bytes. */
  function Pair(high: Byte, low: Byte): Word
  {
    var h: nat, l: nat := high, low;
    h * 256 + l
  }

  function BytesOf(groups: seq<Word>): (bytes: seq<Byte>)
    ensures |bytes| == 2 * |groups|
  {
    if groups == [] then [] else [groups[0] / 256, groups[0] % 256] + BytesOf(groups[1..])
  }

  predicate IsIpv6Char(c: char) { IsHexDigit(c) || c == ':' || c == '.' }

  /** A dotted tail becomes two groups; a text that ends otherwise is refused. */
  function Expanded(value: string): Option<string>
  {
    if '.' !in value then Some(value)
    else
      var separator := LastIndexOf(value, ':');
      var ipv4 := ParseIpv4(value[separator + 1..]);
      if separator < 0 || ipv4.None? then None
      else
        var b := ipv4.value;
        Some(value[..separator] + ":" + Numeral(Pair(b[0], b[1]), 16) + ":" + Numeral(Pair(b[2], b[3]), 16))
  }

  function ParseIpv6(value: string): Option<seq<Byte>>
  {
    if value == "" || !(forall i :: 0 <= i < |value| ==> IsIpv6Char(value[i])) then None
    else if Expanded(value).None? || ParseGroups(Expanded(value).value).None? then None
    else Some(BytesOf(ParseGroups(Expanded(value).value).value))
  }

  // ----- both -----

  predicate IsMapped(bytes: seq<Byte>)
    requires |bytes| == 16
  {
    (forall i :: 0 <= i < 10 ==> bytes[i] == 0) && bytes[10] == 0xff && bytes[11] == 0xff
  }

  function GroupsOf(bytes: seq<Byte>): seq<Word>
    requires |bytes| % 2 == 0
  {
    if bytes == [] then [] else [Pair(bytes[0], bytes[1])] + GroupsOf(bytes[2..])
  }

  function Decimals(bytes: seq<Byte>): seq<string>
  {
    seq(|bytes|, i requires 0 <= i < |bytes| => Numeral(bytes[i], 10))
  }

  function Hexes(groups: seq<Word>): seq<string>
  {
    seq(|groups|, i requires 0 <= i < |groups| => Numeral(groups[i], 16))
  }

  predicate IsAddress(family: Family, bytes: seq<Byte>)
  {
    if family.V4? then |bytes| == 4 else |bytes| == 16 && !IsMapped(bytes)
  }

  predicate IsWellFormed(a: Address)
  {
    IsAddress(a.family, a.bytes) && a.canonical == Canonical(a.family, a.bytes)
  }

  function Canonical(family: Family, bytes: seq<Byte>): string
    requires |bytes| % 2 == 0
  {
    if family.V4? then Join(Decimals(bytes), '.') else Join(Hexes(GroupsOf(bytes)), ':')
  }

  lemma FirstHex(bytes: seq<Byte>)
    requires |bytes| % 2 == 0 && bytes != []
    ensures Hexes(GroupsOf(bytes)) == [Numeral(Pair(bytes[0], bytes[1]), 16)] + Hexes(GroupsOf(bytes[2..]))
  {
  }

  lemma NoHexes()
    ensures Hexes(GroupsOf([])) == []
  {
  }

  /** The loop of the printer. */
  method CanonicalAddress(family: Family, bytes: seq<Byte>) returns (text: string)
    requires |bytes| % 2 == 0
    ensures text == Canonical(family, bytes)
  {
    if family.V4? { return Join(Decimals(bytes), '.'); }
    hide Join, GroupsOf, Hexes;
    NoHexes();
    var groups: seq<string> := [];
    var index := 0;
    assert bytes[0..] == bytes;
    while index < |bytes|
      invariant 0 <= index <= |bytes| && index % 2 == 0
      invariant Hexes(GroupsOf(bytes)) == groups + Hexes(GroupsOf(bytes[index..]))
    {
      FirstHex(bytes[index..]);
      assert bytes[index..][2..] == bytes[index + 2..];
      groups := groups + [Numeral(Pair(bytes[index], bytes[index + 1]), 16)];
      index := index + 2;
    }
    assert bytes[index..] == [] && groups + [] == groups;
    text := Join(groups, ':');
  }

  function MakeAddress(family: Family, bytes: seq<Byte>): Address
    requires |bytes| % 2 == 0
  {
    Address(family, bytes, Canonical(family, bytes))
  }

  lemma Ipv6Length(value: string)
    ensures ParseIpv6(value).Some? ==> |ParseIpv6(value).value| == 16
  {
    hide Expanded, ParseHalf, SplitDouble;
  }

  lemma Ipv4Length(value: string)
    ensures ParseIpv4(value).Some? ==> |ParseIpv4(value).value| == 4
  {
  }

  /** A mapped address is the IPv4 address of its last four bytes (section 2.5.5.2 of RFC 4291). */
  function FromIpv6(bytes: seq<Byte>): Address
    requires |bytes| == 16
  {
    if IsMapped(bytes) then MakeAddress(V4, bytes[12..]) else MakeAddress(V6, bytes)
  }

  lemma FromIpv6IsAddress(bytes: seq<Byte>)
    requires |bytes| == 16
    ensures IsWellFormed(FromIpv6(bytes))
    ensures var a := FromIpv6(bytes);
            if (forall i :: 0 <= i < 10 ==> bytes[i] == 0) && bytes[10] == 255 && bytes[11] == 255
            then a.family == V4 && a.bytes == bytes[12..16] else a.family == V6 && a.bytes == bytes
  {
    hide Canonical;
  }

  function ParseAddress(value: string): (r: Option<Address>)
  {
    if value == "" || |value| > MAXIMUM_ADDRESS_LENGTH || value != Trim(value) then None
    else if ParseIpv4(value).Some? then Some(MakeAddress(V4, ParseIpv4(value).value))
    else if ParseIpv6(value).None? then None
    else
      Ipv6Length(value);
      Some(FromIpv6(ParseIpv6(value).value))
  }

  // ----- the round trip -----

  lemma OctetsRead(bytes: seq<Byte>)
    ensures var parts := Decimals(bytes);
            (forall i :: 0 <= i < |parts| ==> IsOctet(parts[i])) && Octets(parts) == bytes
  {
    var parts := Decimals(bytes);
    forall i | 0 <= i < |parts| ensures IsOctet(parts[i]) && NumeralValue(parts[i], 10) == bytes[i] {
      NumeralReads(bytes[i], 10);
      assert Power(10, 1) == 10 && Power(10, 2) == 100 && Power(10, 3) == 1000;
      NumeralLength(bytes[i], 10, 3);
      if |parts[i]| > 1 { assert bytes[i] != 0; }
    }
  }

  lemma GroupsRead(groups: seq<Word>)
    ensures AreGroups(Hexes(groups)) && GroupValues(Hexes(groups)) == groups
  {
    var parts := Hexes(groups);
    forall i | 0 <= i < |parts| ensures IsGroup(parts[i]) && NumeralValue(parts[i], 16) == groups[i] {
      NumeralReads(groups[i], 16);
      assert Power(16, 1) == 16 && Power(16, 2) == 256 && Power(16, 3) == 4096 && Power(16, 4) == 0x1_0000;
      NumeralLength(groups[i], 16, 4);
    }
  }

  lemma {:induction false} BytesOfGroups(bytes: seq<Byte>)
    requires |bytes| % 2 == 0
    ensures BytesOf(GroupsOf(bytes)) == bytes && |GroupsOf(bytes)| == |bytes| / 2
  {
    if bytes != [] {
      BytesOfGroups(bytes[2..]);
      assert bytes == [bytes[0], bytes[1]] + bytes[2..];
    }
  }

  /** Every character of joined parts. */
  lemma JoinedChars(parts: seq<string>, sep: char, allowed: char -> bool)
    requires allowed(sep) && forall i, k :: 0 <= i < |parts| && 0 <= k < |parts[i]| ==> allowed(parts[i][k])
    ensures forall k :: 0 <= k < |Join(parts, sep)| ==> allowed(Join(parts, sep)[k])
  {
    forall k | 0 <= k < |Join(parts, sep)| ensures allowed(Join(parts, sep)[k]) {
      JoinChars(parts, sep, Join(parts, sep)[k]);
    }
  }

  lemma TrimKeeps(s: string)
    requires forall k :: 0 <= k < |s| ==> !IsSpace(s[k])
    ensures Trim(s) == s
  {
  }

  predicate IsDottedChar(c: char) { IsDigit(c) || c == '.' }

  lemma Ipv4Reads(b: seq<Byte>)
    requires |b| == 4
    ensures ParseIpv4(Canonical(V4, b)) == Some(b)
  {
    OctetsRead(b);
    SplitJoin(Decimals(b), '.');
  }

  lemma Ipv4RoundTrip(bytes: seq<Byte>)
    requires |bytes| == 4
    ensures ParseAddress(Canonical(V4, bytes)) == Some(MakeAddress(V4, bytes))
    ensures var t := Canonical(V4, bytes); 7 <= |t| <= 15 && forall k :: 0 <= k < |t| ==> IsDottedChar(t[k])
  {
    hide ParseIpv4, ParseIpv6, Trim, Join, Split;
    var parts := Decimals(bytes);
    var text := Join(parts, '.');
    OctetsRead(bytes);
    Ipv4Reads(bytes);
    JoinedChars(parts, '.', IsDottedChar);
    FourJoined(parts);
    TrimKeeps(text);
  }

  lemma FourJoined(parts: seq<string>)
    requires |parts| == 4 && forall i :: 0 <= i < 4 ==> 1 <= |parts[i]| <= 3
    ensures 7 <= |Join(parts, '.')| <= 15
  {
    var rest := parts[1..];
    assert Join(rest[1..], '.') == rest[1] + ['.'] + rest[2];
    assert Join(rest, '.') == rest[0] + ['.'] + Join(rest[1..], '.');
  }

  predicate NoDouble(s: string)
  {
    forall i :: 0 <= i < |s| - 1 ==> !(s[i] == ':' && s[i + 1] == ':')
  }

  lemma {:induction false} SplitDoubleKeeps(s: string)
    requires NoDouble(s)
    ensures SplitDouble(s) == [s]
  {
    if |s| >= 2 {
      SplitDoubleKeeps(s[1..]);
      assert s == [s[0]] + s[1..];
    }
  }

  /** Joined groups hold no double colon, start with a hexadecimal digit and end with one. */
  lemma {:induction false} JoinedGroups(parts: seq<string>)
    requires AreGroups(parts) && parts != []
    ensures var s := Join(parts, ':'); s != "" && NoDouble(s) && IsHexDigit(s[0]) && IsHexDigit(s[|s| - 1])
    ensures 2 * |parts| - 1 <= |Join(parts, ':')| <= 5 * |parts| - 1
    ensures Split(Join(parts, ':'), ':') == parts
  {
    if |parts| > 1 {
      JoinedGroups(parts[1..]);
    }
    SplitJoin(parts, ':');
  }

  lemma HalfReads(parts: seq<string>)
    requires AreGroups(parts)
    ensures ParseHalf(Join(parts, ':')) == Some(GroupValues(parts))
  {
    if parts == [] { assert GroupValues(parts) == []; } else { JoinedGroups(parts); }
  }

  lemma PlainParses(parts: seq<string>)
    requires AreGroups(parts) && |parts| == 8
    ensures ParseGroups(Join(parts, ':')) == Some(GroupValues(parts))
  {
    JoinedGroups(parts);
    SplitDoubleKeeps(Join(parts, ':'));
    HalfReads(parts);
    assert GroupValues(parts) + Zeros(0) + [] == GroupValues(parts);
  }

  predicate IsColonChar(c: char) { IsHexDigit(c) || c == ':' }

  lemma Ipv6RoundTrip(bytes: seq<Byte>)
    requires |bytes| == 16 && !IsMapped(bytes)
    ensures ParseAddress(Canonical(V6, bytes)) == Some(MakeAddress(V6, bytes))
    ensures var t := Canonical(V6, bytes); 15 <= |t| <= 39 && forall k :: 0 <= k < |t| ==> IsColonChar(t[k])
  {
    hide ParseIpv4, ParseIpv6, ParseGroups, Trim, NoDouble, BytesOf, Hexes, GroupsOf;
    var groups := GroupsOf(bytes);
    var parts := Hexes(groups);
    var text := Join(parts, ':');
    BytesOfGroups(bytes);
    GroupsRead(groups);
    JoinedGroups(parts);
    JoinedChars(parts, ':', IsColonChar);
    assert ParseGroups(text) == Some(groups) by { PlainParses(parts); }
    ColonText(text, groups);
    TrimKeeps(text);
  }

  /** A text without dots that holds the groups. */
  lemma ColonText(text: string, groups: seq<Word>)
    requires text != "" && ParseGroups(text) == Some(groups) && forall k :: 0 <= k < |text| ==> IsColonChar(text[k])
    ensures ParseIpv4(text).None? && ParseIpv6(text) == Some(BytesOf(groups))
  {
    hide ParseGroups;
    assert '.' !in text;
    SplitPart(text, '.');
  }

  /** Every address prints to a text that parses to it, whatever text it came from. */
  lemma CanonicalParses(family: Family, bytes: seq<Byte>)
    requires IsAddress(family, bytes)
    ensures ParseAddress(Canonical(family, bytes)) == Some(MakeAddress(family, bytes))
  {
    if family.V4? { Ipv4RoundTrip(bytes); } else { Ipv6RoundTrip(bytes); }
  }

  lemma ParsedIsAddress(value: string)
    ensures ParseAddress(value).Some? ==> IsWellFormed(ParseAddress(value).value)
  {
    hide ParseIpv6, ParseIpv4, FromIpv6, Canonical, Trim;
    if ParseIpv4(value).Some? {
      Ipv4Length(value);
    } else if ParseIpv6(value).Some? {
      Ipv6Length(value);
      FromIpv6IsAddress(ParseIpv6(value).value);
    }
  }

  /** Nothing empty, longer than 64 characters or with outer blanks is read. */
  lemma AddressTextsAreBounded(value: string)
    ensures ParseAddress(value).Some? ==> 1 <= |value| <= 64 && HasNoOuterBlanks(value)
  {
    hide ParseIpv4, ParseIpv6, FromIpv6, Canonical, IsSpace;
    var left, right := TrimLeaves(value);
  }

  lemma ReparseKeeps(value: string)
    ensures ParseAddress(value).Some? ==> ParseAddress(ParseAddress(value).value.canonical) == ParseAddress(value)
  {
    hide ParseAddress, Canonical;
    ParsedIsAddress(value);
    if ParseAddress(value).Some? {
      var a := ParseAddress(value).value;
      CanonicalParses(a.family, a.bytes);
    }
  }

  // ----- the grammar of section 2.2 of RFC 4291 -----

  /** Eight groups between colons. */
  ghost predicate IsPlain(s: string, groups: seq<Word>)
  {
    exists parts :: AreGroups(parts) && |parts| == 8 && s == Join(parts, ':') && groups == GroupValues(parts)
  }

  /** A double colon for one or more zero groups. */
  ghost predicate IsCompressed(s: string, groups: seq<Word>)
  {
    exists left, right :: Compresses(left, right, s, groups)
  }

  predicate Compresses(left: seq<string>, right: seq<string>, s: string, groups: seq<Word>)
  {
    && AreGroups(left) && AreGroups(right) && |left| + |right| <= 7
    && s == Join(left, ':') + "::" + Join(right, ':')
    && groups == GroupValues(left) + Zeros(8 - |left| - |right|) + GroupValues(right)
  }

  lemma Regroup(a: string, b: string, c: string, d: string)
    ensures a + (b + c + d) == (a + b) + c + d
  {
  }

  lemma {:induction false} SplitDoubleJoins(s: string)
    ensures var halves := SplitDouble(s);
            && (|halves| == 1 ==> s == halves[0])
            && (|halves| == 2 ==> s == halves[0] + "::" + halves[1])
  {
    if |s| >= 2 {
      if s[0] == ':' && s[1] == ':' {
        SplitDoubleJoins(s[2..]);
        assert s == "" + "::" + s[2..];
      } else {
        SplitDoubleJoins(s[1..]);
        var rest := SplitDouble(s[1..]);
        assert s == [s[0]] + s[1..];
        if |rest| == 2 {
          Regroup([s[0]], rest[0], "::", rest[1]);
        }
      }
    }
  }

  lemma {:induction false} SplitDoubleAt(head: string, tail: string)
    requires NoDouble(head) && (head != "" ==> head[|head| - 1] != ':')
    requires NoDouble(tail)
    ensures SplitDouble(head + "::" + tail) == [head, tail]
  {
    var s := head + "::" + tail;
    if head == "" {
      assert s[2..] == tail;
      SplitDoubleKeeps(tail);
    } else {
      assert s[1..] == head[1..] + "::" + tail;
      SplitDoubleAt(head[1..], tail);
      assert head == [head[0]] + head[1..];
    }
  }

  lemma HalfIsJoined(half: string) returns (parts: seq<string>)
    requires ParseHalf(half).Some?
    ensures AreGroups(parts) && half == Join(parts, ':') && ParseHalf(half).value == GroupValues(parts)
  {
    if half == "" {
      parts := [];
    } else {
      parts := Split(half, ':');
      JoinSplit(half, ':');
    }
  }

  lemma CompressedParses(left: seq<string>, right: seq<string>, s: string, groups: seq<Word>)
    requires Compresses(left, right, s, groups)
    ensures ParseGroups(s) == Some(groups)
  {
    hide ParseHalf, SplitDouble, Join, Split, NoDouble, IsGroup;
    JoinedHalf(left);
    JoinedHalf(right);
    SplitDoubleAt(Join(left, ':'), Join(right, ':'));
    HalfReads(left);
    HalfReads(right);
  }

  lemma JoinedHalf(parts: seq<string>)
    requires AreGroups(parts)
    ensures var s := Join(parts, ':'); NoDouble(s) && (s != "" ==> s[|s| - 1] != ':')
  {
    if parts != [] { JoinedGroups(parts); }
  }

  /** The group parser accepts exactly the plain and the compressed forms, with their values. */
  lemma GroupsAreExact(s: string, groups: seq<Word>)
    ensures ParseGroups(s) == Some(groups) <==> IsPlain(s, groups) || IsCompressed(s, groups)
  {
    if ParseGroups(s) == Some(groups) {
      SplitDoubleJoins(s);
      var halves := SplitDouble(s);
      var left := HalfIsJoined(halves[0]);
      if |halves| == 1 {
        assert GroupValues(left) + Zeros(0) + [] == GroupValues(left);
      } else {
        var right := HalfIsJoined(halves[1]);
        assert Compresses(left, right, s, groups);
      }
    }
    if IsPlain(s, groups) {
      var parts :| AreGroups(parts) && |parts| == 8 && s == Join(parts, ':') && groups == GroupValues(parts);
      PlainParses(parts);
    }
    if IsCompressed(s, groups) {
      var left, right :| Compresses(left, right, s, groups);
      CompressedParses(left, right, s, groups);
    }
  }

  /** The head of an embedded form with its last four bytes in hexadecimal. */
  function WithHexTail(head: string, b: seq<Byte>): string
    requires |b| == 4
  {
    head + ":" + Numeral(Pair(b[0], b[1]), 16) + ":" + Numeral(Pair(b[2], b[3]), 16)
  }

  lemma LastAt(head: string, tail: string, c: char)
    requires c !in tail
    ensures var s := head + [c] + tail;
            LastIndexOf(s, c) == |head| && s[|head| + 1..] == tail && s[..|head|] == head
  {
    var s := head + [c] + tail;
    assert s[|head|] == c && forall k :: |head| < k < |s| ==> s[k] == tail[k - |head| - 1];
  }

  lemma DottedExpands(head: string, b: seq<Byte>)
    requires |b| == 4
    ensures var value := head + ":" + Canonical(V4, b);
            '.' in value && Expanded(value) == Some(WithHexTail(head, b))
  {
    hide Canonical, WithHexTail, ParseIpv4, LastIndexOf;
    var tail := Canonical(V4, b);
    Ipv4RoundTrip(b);
    Ipv4Reads(b);
    DottedHasDot(b);
    assert ':' !in tail;
    LastAt(head, tail, ':');
    HexTailIs(head, b);
  }

  lemma HexTailIs(head: string, b: seq<Byte>)
    requires |b| == 4
    ensures WithHexTail(head, b) == head + ":" + Numeral(Pair(b[0], b[1]), 16) + ":" + Numeral(Pair(b[2], b[3]), 16)
  {
  }

  lemma SameExpansion(v: string, w: string)
    requires v != "" && w != "" && Expanded(v) == Expanded(w)
    requires forall i :: 0 <= i < |v| ==> IsIpv6Char(v[i])
    requires forall i :: 0 <= i < |w| ==> IsIpv6Char(w[i])
    ensures ParseIpv6(v) == ParseIpv6(w)
  {
    hide Expanded, ParseGroups;
  }

  /** A dotted tail means the two groups that its four octets make. */
  lemma EmbeddedParses(head: string, b: seq<Byte>)
    requires |b| == 4 && forall i :: 0 <= i < |head| ==> IsColonChar(head[i])
    ensures ParseIpv6(head + ":" + Canonical(V4, b)) == ParseIpv6(WithHexTail(head, b))
  {
    hide ParseIpv6, Canonical, WithHexTail, ParseIpv4, ParseAddress;
    Ipv4RoundTrip(b);
    DottedExpands(head, b);
    HexTailChars(head, b);
    SameExpansion(head + ":" + Canonical(V4, b), WithHexTail(head, b));
  }

  lemma HexTailChars(head: string, b: seq<Byte>)
    requires |b| == 4 && forall i :: 0 <= i < |head| ==> IsColonChar(head[i])
    ensures var hex := WithHexTail(head, b);
            hex != "" && Expanded(hex) == Some(hex) && forall i :: 0 <= i < |hex| ==> IsColonChar(hex[i])
  {
    NumeralReads(Pair(b[0], b[1]), 16);
    NumeralReads(Pair(b[2], b[3]), 16);
    var hex := WithHexTail(head, b);
    assert forall i :: 0 <= i < |hex| ==> IsColonChar(hex[i]);
    assert '.' !in hex;
  }

  lemma DottedHasDot(b: seq<Byte>)
    requires |b| == 4
    ensures '.' in Canonical(V4, b)
  {
    var parts := Decimals(b);
    assert Join(parts, '.')[|parts[0]|] == '.';
  }
}
