/**
 Networks of trusted proxies: byte masks are integer arithmetic on the big-endian value, so
 matching is membership in one aligned range per network.
 */
module ClientRanges {
  import opened Wrappers
  import opened Text
  import opened ClientAddress

  function Pow2(n: nat): (p: nat)
    ensures p >= 1
  {
    if n == 0 then 1 else 2 * Pow2(n - 1)
  }

  /** The operator `&` on non-negative integers. */
  function BitAnd(a: nat, b: nat): nat
  {
    if a == 0 || b == 0 then 0
    else 2 * BitAnd(a / 2, b / 2) + (if a % 2 == 1 && b % 2 == 1 then 1 else 0)
  }

  // ----- arithmetic of masks -----

  lemma ModIs(x: int, d: nat, q: int, r: nat)
    requires d > 0 && x == d * q + r && r < d
    ensures x % d == r && x / d == q
  {
    var k := x / d;
    assert x == d * k + x % d;
    assert d * (q - k) == d * q - d * k;
    Grows(d, q - k);
  }

  lemma Grows(d: int, n: int)
    requires d >= 0
    ensures n >= 1 ==> d * n >= d
    ensures n <= -1 ==> d * n <= -d
  {
    assert d * n == d + d * (n - 1);
    assert d * n == d * (n + 1) - d;
  }

  lemma ModShift(d: nat, k: nat, low: nat)
    requires d > 0
    ensures (d * k + low) % d == low % d
  {
    assert d * (k + low / d) == d * k + d * (low / d);
    ModIs(d * k + low, d, k + low / d, low % d);
  }

  /** Appending a digit to a number appends it to the remainder. */
  lemma ScaledMod(c: nat, a: nat, b: nat, m: nat)
    requires b < c && m > 0
    ensures c * m > 0 && (c * a + b) % (c * m) == c * (a % m) + b
  {
    var q, r := a / m, a % m;
    Distribute(c, m, q, r);
    assert c * (m - r) == c * m - c * r;
    Grows(c, m - r);
    Grows(c, m);
    ModIs(c * a + b, c * m, q, c * r + b);
  }

  lemma Distribute(c: nat, m: nat, q: nat, r: nat)
    ensures c * (m * q + r) == (c * m) * q + c * r
  {
  }

  lemma {:induction false} AndAll(a: nat, k: nat)
    requires a < Pow2(k)
    ensures BitAnd(a, Pow2(k) - 1) == a
  {
    if k > 0 {
      assert (Pow2(k) - 1) / 2 == Pow2(k - 1) - 1;
      AndAll(a / 2, k - 1);
    }
  }

  lemma AndDouble(a: nat, h: nat)
    ensures BitAnd(a, 2 * h) == 2 * BitAnd(a / 2, h)
  {
    assert (2 * h) / 2 == h && (2 * h) % 2 == 0;
  }

  /** Anding with ones above `s` zeros clears the low `s` bits. */
  lemma {:induction false} AndClearsLow(a: nat, k: nat, s: nat)
    requires a < Pow2(k + s)
    ensures BitAnd(a, (Pow2(k) - 1) * Pow2(s)) == a - a % Pow2(s)
  {
    hide BitAnd;
    if s == 0 {
      AndAll(a, k);
    } else {
      var m, half := Pow2(s - 1), (Pow2(k) - 1) * Pow2(s - 1);
      assert (Pow2(k) - 1) * (2 * m) == 2 * half;
      AndDouble(a, half);
      AndClearsLow(a / 2, k, s - 1);
      ScaledMod(2, a / 2, a % 2, m);
    }
  }

  lemma ModBelow(v: nat, d: nat)
    requires d > 0
    ensures 0 <= v % d <= v
  {
    assert v == d * (v / d) + v % d;
    Grows(d, v / d);
  }

  function ClearLow(b: Byte, s: nat): Byte
  {
    var v: nat := b;
    ModBelow(v, Pow2(s));
    v - v % Pow2(s)
  }

  function MaskedByte(b: Byte, prefix: nat, i: nat): Byte
  {
    if prefix >= 8 * (i + 1) then b
    else if prefix <= 8 * i then 0
    else ClearLow(b, 8 - prefix % 8)
  }

  function Masked(bytes: seq<Byte>, prefix: nat): seq<Byte>
  {
    seq(|bytes|, i requires 0 <= i < |bytes| => MaskedByte(bytes[i], prefix, i))
  }

  /** Masks the partial byte in a copy and zeroes the bytes behind it. */
  method MaskBytes(bytes: seq<Byte>, prefix: nat) returns (r: seq<Byte>)
    ensures r == Masked(bytes, prefix)
  {
    var result := new Byte[|bytes|](i requires 0 <= i < |bytes| => bytes[i]);
    var completeBytes := prefix / 8;
    var remainingBits := prefix % 8;
    if remainingBits > 0 && completeBytes < |bytes| {
      var current: nat := result[completeBytes];
      Byte256(current, 8 - remainingBits);
      result[completeBytes] := BitAnd(current, 0xff * Pow2(8 - remainingBits));
    }
    var start := completeBytes + if remainingBits > 0 then 1 else 0;
    var index := start;
    while index < result.Length
      invariant start <= index && (start <= |bytes| ==> index <= |bytes|)
      invariant forall i :: 0 <= i < |bytes| && i < index ==> result[i] == MaskedByte(bytes[i], prefix, i)
    {
      result[index] := 0;
      index := index + 1;
    }
    r := result[..];
  }

  lemma Byte256(current: nat, s: nat)
    requires current < 256 && s < 8
    ensures BitAnd(current, 0xff * Pow2(s)) == current - current % Pow2(s) < 256
  {
    assert Pow2(8) == 256;
    Pow2Grows(8, s);
    AndClearsLow(current, 8, s);
  }

  lemma {:induction false} Pow2Grows(k: nat, s: nat)
    ensures Pow2(k + s) == Pow2(k) * Pow2(s) && Pow2(k + s) >= Pow2(k)
  {
    if s > 0 { Pow2Grows(k, s - 1); }
  }

  /** The big-endian value. */
  function Value(bytes: seq<Byte>): nat
  {
    if bytes == [] then 0 else 256 * Value(bytes[..|bytes| - 1]) + (bytes[|bytes| - 1] as nat)
  }

  lemma {:induction false} ValueIsInjective(a: seq<Byte>, b: seq<Byte>)
    requires |a| == |b| && Value(a) == Value(b)
    ensures a == b
  {
    if a != [] {
      var n := |a| - 1;
      ValueIsInjective(a[..n], b[..n]);
      assert a == a[..n] + [a[n]] && b == b[..n] + [b[n]];
    }
  }

  lemma ByteMod(high: nat, low: nat, s: nat)
    requires s < 8
    ensures (256 * high + low) % Pow2(s) == low % Pow2(s)
  {
    Pow2Grows(s, 8 - s);
    assert Pow2(8) == 256;
    var p, c := Pow2(s), Pow2(8 - s);
    Associates(p, c, high);
    ModShift(p, c * high, low);
  }

  lemma Associates(a: int, b: int, c: int)
    ensures (a * b) * c == a * (b * c)
  {
  }

  lemma FrontMod(front: nat, last: nat, k: nat)
    requires last < 256
    ensures (256 * front + last) % Pow2(k + 8) == 256 * (front % Pow2(k)) + last
  {
    Pow2Grows(k, 8);
    assert Pow2(8) == 256;
    ScaledMod(256, front, last, Pow2(k));
  }

  lemma ValueOfMore(bytes: seq<Byte>, n: nat)
    requires |bytes| == n + 1
    ensures Value(bytes) == 256 * Value(bytes[..n]) + (bytes[n] as nat)
  {
  }

  lemma MaskedOfMore(bytes: seq<Byte>, prefix: nat, n: nat)
    requires |bytes| == n + 1 && prefix <= 8 * (n + 1)
    ensures var m := Masked(bytes, prefix);
            && |m| == n + 1
            && (prefix <= 8 * n ==> m[..n] == Masked(bytes[..n], prefix) && m[n] == 0)
            && (prefix > 8 * n ==> m[..n] == bytes[..n] && m[n] == ClearLow(bytes[n], 8 * (n + 1) - prefix))
  {
    var m := Masked(bytes, prefix);
    if prefix <= 8 * n {
      assert m[..n] == Masked(bytes[..n], prefix);
    } else {
      assert m[..n] == bytes[..n];
      if prefix < 8 * (n + 1) { assert 8 * (n + 1) - prefix == 8 - prefix % 8; }
    }
  }

  /** The mask clears the low bits of the value. */
  lemma {:induction false} MaskedIsArithmetic(bytes: seq<Byte>, prefix: nat)
    requires prefix <= 8 * |bytes|
    ensures Value(Masked(bytes, prefix)) == Value(bytes) - Value(bytes) % Pow2(8 * |bytes| - prefix)
  {
    hide Masked, Value, Pow2;
    if bytes == [] {
      EmptyValue(prefix);
    } else {
      var n := |bytes| - 1;
      MaskedOfMore(bytes, prefix, n);
      ValueOfMore(bytes, n);
      ValueOfMore(Masked(bytes, prefix), n);
      if prefix <= 8 * n {
        MaskedIsArithmetic(bytes[..n], prefix);
        FrontMod(Value(bytes[..n]), bytes[n], 8 * n - prefix);
      } else {
        ByteMod(Value(bytes[..n]), bytes[n], 8 * (n + 1) - prefix);
        ModBelow(bytes[n], Pow2(8 * (n + 1) - prefix));
      }
    }
  }

  lemma EmptyValue(prefix: nat)
    ensures Masked([], prefix) == [] && Value([]) == 0
  {
  }

  // ----- networks -----

  datatype Cidr = Cidr(family: Family, network: seq<Byte>, prefix: nat, canonical: string)

  function Width(family: Family): nat { if family.V4? then 32 else 128 }

  function CidrText(family: Family, network: seq<Byte>, prefix: nat): string
    requires |network| % 2 == 0
  {
    Canonical(family, network) + "/" + Numeral(prefix, 10)
  }

  predicate IsCidr(c: Cidr)
  {
    && IsAddress(c.family, c.network) && 8 <= c.prefix <= Width(c.family)
    && Masked(c.network, c.prefix) == c.network && c.canonical == CidrText(c.family, c.network, c.prefix)
  }

  predicate IsPrefixText(s: string)
  {
    1 <= |s| <= 3 && IsNumeral(s, 10)
  }

  const EXPLICIT := "each trusted proxy must be an explicit CIDR"
  const INVALID := "each trusted proxy must be a valid CIDR"
  const UNBOUNDED := "trusted proxy CIDR prefixes must be bounded"
  const NOT_CANONICAL := "trusted proxy CIDRs must use canonical network addresses"

  function CidrOf(a: Address, prefix: nat): Result<Cidr, string>
  {
    if prefix < 8 || prefix > Width(a.family) then Failure(UNBOUNDED)
    else if Masked(a.bytes, prefix) != a.bytes then Failure(NOT_CANONICAL)
    else Success(Cidr(a.family, a.bytes, prefix, a.canonical + "/" + Numeral(prefix, 10)))
  }

  function ParseCidr(value: string): Result<Cidr, string>
  {
    var separator := LastIndexOf(value, '/');
    if separator <= 0 || separator == |value| - 1 then Failure(EXPLICIT)
    else
      var address, prefixText := ParseAddress(value[..separator]), value[separator + 1..];
      if address.None? || !IsPrefixText(prefixText) then Failure(INVALID)
      else CidrOf(address.value, NumeralValue(prefixText, 10))
  }

  lemma ParsedIsCidr(value: string)
    ensures ParseCidr(value).Success? ==> IsCidr(ParseCidr(value).value)
  {
    hide ParseAddress, Masked, Canonical;
    var separator := LastIndexOf(value, '/');
    if separator > 0 { ParsedIsAddress(value[..separator]); }
  }

  /** The mask of a network lets exactly its aligned range pass. */
  predicate Matches(a: Address, c: Cidr)
  {
    c.family == a.family && Masked(a.bytes, c.prefix) == c.network
  }

  predicate MatchesAny(a: Address, cidrs: seq<Cidr>)
  {
    exists i :: 0 <= i < |cidrs| && Matches(a, cidrs[i])
  }

  ghost predicate InRange(a: Address, c: Cidr)
  {
    && c.family == a.family && c.prefix <= Width(c.family)
    && Value(c.network) <= Value(a.bytes) < Value(c.network) + Pow2(Width(c.family) - c.prefix)
  }

  lemma AlignedRange(v: nat, n: nat, m: nat)
    requires m > 0 && n % m == 0
    ensures v - v % m == n <==> n <= v < n + m
  {
    if n <= v < n + m {
      assert n == m * (n / m);
      ModIs(v, m, n / m, v - n);
    }
  }

  lemma MatchIsRange(a: Address, c: Cidr)
    requires IsWellFormed(a) && IsCidr(c)
    ensures Matches(a, c) <==> InRange(a, c)
  {
    hide Canonical, Masked, Value, IsMapped;
    if c.family == a.family {
      var m := Pow2(Width(c.family) - c.prefix);
      MaskedIsArithmetic(a.bytes, c.prefix);
      MaskedIsArithmetic(c.network, c.prefix);
      MaskedLength(a.bytes, c.prefix);
      assert Value(c.network) % m == 0;
      AlignedRange(Value(a.bytes), Value(c.network), m);
      if Value(Masked(a.bytes, c.prefix)) == Value(c.network) {
        ValueIsInjective(Masked(a.bytes, c.prefix), c.network);
      }
    }
  }

  lemma MaskedLength(bytes: seq<Byte>, prefix: nat)
    ensures |Masked(bytes, prefix)| == |bytes|
  {
  }

  /** An address is trusted exactly when it lies in the range of a network of its family. */
  lemma MatchesAnyIsMembership(a: Address, cidrs: seq<Cidr>)
    requires IsWellFormed(a) && forall i :: 0 <= i < |cidrs| ==> IsCidr(cidrs[i])
    ensures MatchesAny(a, cidrs) <==> exists i :: 0 <= i < |cidrs| && InRange(a, cidrs[i])
  {
    hide InRange, Matches, IsCidr, IsWellFormed;
    forall i | 0 <= i < |cidrs| ensures Matches(a, cidrs[i]) <==> InRange(a, cidrs[i]) {
      MatchIsRange(a, cidrs[i]);
    }
  }

  // ----- the configured list -----

  const REQUIRED := "must be configured in production"
  const TOO_LONG := "must not exceed 2048 bytes"
  const BAD_COUNT := "must contain from 1 to 32 comma-separated CIDRs"
  const DUPLICATE := "must not contain duplicate CIDRs"
  const MAXIMUM_HEADER_BYTES := 2_048
  const MAXIMUM_CIDRS := 32

  function TrimAll(entries: seq<string>): seq<string>
  {
    seq(|entries|, i requires 0 <= i < |entries| => Trim(entries[i]))
  }

  /** `map(parseCidr)`: the first entry that is refused ends it. */
  function ParseAll(entries: seq<string>): Result<seq<Cidr>, string>
  {
    if entries == [] then Success([])
    else
      match ParseCidr(entries[0])
      case Failure(error) => Failure(error)
      case Success(c) =>
        match ParseAll(entries[1..])
        case Failure(error) => Failure(error)
        case Success(rest) => Success([c] + rest)
  }

  function CanonicalTexts(cidrs: seq<Cidr>): seq<string>
  {
    seq(|cidrs|, i requires 0 <= i < |cidrs| => cidrs[i].canonical)
  }

  predicate NoDuplicates(texts: seq<string>)
  {
    forall i, j :: 0 <= i < j < |texts| ==> texts[i] != texts[j]
  }

  function ParseEntries(entries: seq<string>): Result<seq<string>, string>
  {
    if |entries| > MAXIMUM_CIDRS || "" in entries then Failure(BAD_COUNT)
    else
      match ParseAll(entries)
      case Failure(error) => Failure(error)
      case Success(cidrs) =>
        if NoDuplicates(CanonicalTexts(cidrs)) then Success(CanonicalTexts(cidrs)) else Failure(DUPLICATE)
  }

  function ParseTrustedProxyCidrs(value: Option<string>, required: bool): Result<seq<string>, string>
  {
    if value.None? || Trim(value.value) == "" then if required then Failure(REQUIRED) else Success([])
    else if |value.value| > MAXIMUM_HEADER_BYTES then Failure(TOO_LONG)
    else ParseEntries(TrimAll(Split(value.value, ',')))
  }
}
