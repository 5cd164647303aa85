/**
 Semantic versions: the accepted text form and the precedence order
 (section 11 of SemVer 2.0.0). Numbers are exact integers.
 */
module Versioning {
  import opened Wrappers
  import opened Text

  datatype Version = Version(major: nat, minor: nat, patch: nat, prerelease: seq<string>)

  predicate IsIdentifierChar(c: char)
  {
    IsDigit(c) || 'a' <= c <= 'z' || 'A' <= c <= 'Z' || c == '-'
  }

  predicate IsNumeric(identifier: string) { IsNumeral(identifier, 10) }

  predicate IsBuildIdentifier(identifier: string)
  {
    |identifier| > 0 && forall i :: 0 <= i < |identifier| ==> IsIdentifierChar(identifier[i])
  }

  /** Numeric identifiers carry no leading zero. */
  predicate IsPrereleaseIdentifier(identifier: string)
  {
    IsBuildIdentifier(identifier) && (IsNumeric(identifier) ==> IsCanonicalDecimal(identifier))
  }

  predicate AllPrerelease(identifiers: seq<string>)
  {
    forall i :: 0 <= i < |identifiers| ==> IsPrereleaseIdentifier(identifiers[i])
  }

  /** The text before the build metadata. */
  function WithoutBuild(text: string): string
  {
    var plus := IndexOf(text, '+');
    if plus < 0 then text else text[..plus]
  }

  predicate BuildIsValid(text: string)
  {
    var plus := IndexOf(text, '+');
    plus < 0 || var build := Split(text[plus + 1..], '.');
                forall i :: 0 <= i < |build| ==> IsBuildIdentifier(build[i])
  }

  function ParseCore(core: string, prerelease: seq<string>): Option<Version>
  {
    var parts := Split(core, '.');
    if |parts| == 3 && IsCanonicalDecimal(parts[0]) && IsCanonicalDecimal(parts[1]) && IsCanonicalDecimal(parts[2])
    then Some(Version(NumeralValue(parts[0], 10), NumeralValue(parts[1], 10), NumeralValue(parts[2], 10), prerelease))
    else None
  }

  function ParsePrecedence(text: string): Option<Version>
  {
    var dash := IndexOf(text, '-');
    if dash < 0 then ParseCore(text, [])
    else
      var prerelease := Split(text[dash + 1..], '.');
      if AllPrerelease(prerelease) then ParseCore(text[..dash], prerelease) else None
  }

  /** `None` where the source throws. */
  function ParseSemanticVersion(text: string): Option<Version>
  {
    if BuildIsValid(text) then ParsePrecedence(WithoutBuild(text)) else None
  }

  predicate IsSemanticVersion(text: string) { ParseSemanticVersion(text).Some? }

  /** What parsing guarantees of its result. */
  ghost predicate WellFormed(v: Version) { AllPrerelease(v.prerelease) }

  // ----- the precedence order, by section 11 of SemVer 2.0.0 -----

  /** Numeric identifiers come before the others; each kind has its own order. */
  ghost predicate IdentifierLess(a: string, b: string)
  {
    if IsNumeric(a) && IsNumeric(b) then NumeralValue(a, 10) < NumeralValue(b, 10)
    else if IsNumeric(a) != IsNumeric(b) then IsNumeric(a)
    else Before(a, b)
  }

  /** Nonempty lists: identifier by identifier, a proper prefix comes first. */
  ghost predicate ListLess(a: seq<string>, b: seq<string>)
  {
    if b == [] then false
    else if a == [] then true
    else if a[0] == b[0] then ListLess(a[1..], b[1..])
    else IdentifierLess(a[0], b[0])
  }

  /** A release comes after all of its prereleases. */
  ghost predicate PrereleaseLess(a: seq<string>, b: seq<string>)
  {
    if a == [] || b == [] then a != [] && b == []
    else ListLess(a, b)
  }

  ghost predicate Less(a: Version, b: Version)
  {
    if a.major != b.major then a.major < b.major
    else if a.minor != b.minor then a.minor < b.minor
    else if a.patch != b.patch then a.patch < b.patch
    else PrereleaseLess(a.prerelease, b.prerelease)
  }

  // ----- the comparison as the source computes it -----

  method ComparePrerelease(left: seq<string>, right: seq<string>) returns (r: int)
    requires AllPrerelease(left) && AllPrerelease(right)
    ensures -1 <= r <= 1
    ensures r == -1 <==> PrereleaseLess(left, right)
    ensures r == 1 <==> PrereleaseLess(right, left)
    ensures r == 0 <==> left == right
  {
    PrereleaseIsTotal(left, right);
    if |left| == 0 || |right| == 0 {
      return if |left| == |right| then 0 else if |left| == 0 then 1 else -1;
    }
    var index := 0;
    var longest := if |left| < |right| then |right| else |left|;
    while index < longest
      invariant 0 <= index <= longest
      invariant index <= |left| && index <= |right| && left[..index] == right[..index]
      invariant ListLess(left, right) == ListLess(left[index..], right[index..])
      invariant ListLess(right, left) == ListLess(right[index..], left[index..])
    {
      if index >= |left| || index >= |right| {
        return if index >= |left| then -1 else 1;
      }
      var a, b := left[index], right[index];
      if a == b {
        assert left[index..][1..] == left[index + 1..] && right[index..][1..] == right[index + 1..];
        index := index + 1;
        continue;
      }
      IdentifierIsTotal(a, b);
      assert ListLess(left, right) == IdentifierLess(a, b) && ListLess(right, left) == IdentifierLess(b, a);
      var aNumeric, bNumeric := IsNumeric(a), IsNumeric(b);
      if aNumeric && bNumeric {
        return if NumeralValue(a, 10) < NumeralValue(b, 10) then -1 else 1;
      }
      if aNumeric != bNumeric {
        return if aNumeric then -1 else 1;
      }
      return if Before(a, b) then -1 else 1;
    }
    assert left[..index] == left && right[..index] == right;
    return 0;
  }

  /**
   `None` where the source throws on a text that is no version; otherwise the sign of
   the order, zero exactly when the texts agree up to build metadata.
   */
  method CompareSemanticVersions(left: string, right: string) returns (r: Option<int>)
    ensures r.Some? <==> IsSemanticVersion(left) && IsSemanticVersion(right)
    ensures r.Some? ==>
      var a, b := ParseSemanticVersion(left).value, ParseSemanticVersion(right).value;
      && -1 <= r.value <= 1
      && (r.value == -1 <==> Less(a, b))
      && (r.value == 1 <==> Less(b, a))
      && (r.value == 0 <==> WithoutBuild(left) == WithoutBuild(right))
  {
    var parsedLeft := ParseSemanticVersion(left);
    if parsedLeft.None? { return None; }
    var parsedRight := ParseSemanticVersion(right);
    if parsedRight.None? { return None; }
    var a, b := parsedLeft.value, parsedRight.value;
    ParsedIsWellFormed(left);
    ParsedIsWellFormed(right);
    EqualUpToBuild(left, right);
    OrderIsTotal(a, b);
    var fields := [(a.major, b.major), (a.minor, b.minor), (a.patch, b.patch)];
    var index := 0;
    while index < |fields|
      invariant 0 <= index <= 3
      invariant forall j :: 0 <= j < index ==> fields[j].0 == fields[j].1
    {
      if fields[index].0 != fields[index].1 {
        assert index >= 1 ==> fields[0].0 == fields[0].1;
        assert index >= 2 ==> fields[1].0 == fields[1].1;
        return Some(if fields[index].0 < fields[index].1 then -1 else 1);
      }
      index := index + 1;
    }
    assert fields[0].0 == fields[0].1 && fields[1].0 == fields[1].1 && fields[2].0 == fields[2].1;
    var rest := ComparePrerelease(a.prerelease, b.prerelease);
    return Some(rest);
  }

  // ----- the order is a strict total order -----

  lemma IdentifierIsTotal(a: string, b: string)
    requires IsPrereleaseIdentifier(a) && IsPrereleaseIdentifier(b)
    ensures a == b || IdentifierLess(a, b) || IdentifierLess(b, a)
    ensures !(IdentifierLess(a, b) && IdentifierLess(b, a))
    ensures !IdentifierLess(a, a)
  {
    BeforeIsTotal(a, b);
    BeforeIsTotal(a, a);
    if IsNumeric(a) && IsNumeric(b) {
      CanonicalDecimalPrints(a);
      CanonicalDecimalPrints(b);
    }
  }

  lemma IdentifierIsTransitive(a: string, b: string, c: string)
    requires IdentifierLess(a, b) && IdentifierLess(b, c)
    ensures IdentifierLess(a, c)
  {
    if !IsNumeric(a) && !IsNumeric(b) && !IsNumeric(c) {
      BeforeIsTransitive(a, b, c);
    }
  }

  lemma {:induction false} ListIsTotal(a: seq<string>, b: seq<string>)
    requires AllPrerelease(a) && AllPrerelease(b)
    ensures a == b || ListLess(a, b) || ListLess(b, a)
    ensures !(ListLess(a, b) && ListLess(b, a))
    ensures a == b ==> !ListLess(a, b)
  {
    if a != [] && b != [] {
      if a[0] == b[0] {
        ListIsTotal(a[1..], b[1..]);
        assert a == [a[0]] + a[1..] && b == [b[0]] + b[1..];
      } else {
        IdentifierIsTotal(a[0], b[0]);
      }
    }
  }

  lemma {:induction false} ListIsTransitive(a: seq<string>, b: seq<string>, c: seq<string>)
    requires AllPrerelease(a) && AllPrerelease(b) && AllPrerelease(c)
    requires ListLess(a, b) && ListLess(b, c)
    ensures ListLess(a, c)
  {
    if a != [] {
      if a[0] == b[0] == c[0] {
        ListIsTransitive(a[1..], b[1..], c[1..]);
      } else if a[0] != b[0] && b[0] != c[0] {
        IdentifierIsTransitive(a[0], b[0], c[0]);
        IdentifierIsTotal(a[0], c[0]);
      }
    }
  }

  lemma PrereleaseIsTotal(a: seq<string>, b: seq<string>)
    requires AllPrerelease(a) && AllPrerelease(b)
    ensures a == b || PrereleaseLess(a, b) || PrereleaseLess(b, a)
    ensures !(PrereleaseLess(a, b) && PrereleaseLess(b, a))
    ensures a == b ==> !PrereleaseLess(a, b)
  {
    ListIsTotal(a, b);
  }

  /** Any two distinct versions are ordered one way and not the other. */
  lemma OrderIsTotal(a: Version, b: Version)
    requires WellFormed(a) && WellFormed(b)
    ensures a == b || Less(a, b) || Less(b, a)
    ensures !(Less(a, b) && Less(b, a))
    ensures a == b ==> !Less(a, b)
  {
    PrereleaseIsTotal(a.prerelease, b.prerelease);
  }

  lemma OrderIsTransitive(a: Version, b: Version, c: Version)
    requires WellFormed(a) && WellFormed(b) && WellFormed(c)
    requires Less(a, b) && Less(b, c)
    ensures Less(a, c)
  {
    if a.prerelease != [] && b.prerelease != [] && c.prerelease != []
       && ListLess(a.prerelease, b.prerelease) && ListLess(b.prerelease, c.prerelease) {
      ListIsTransitive(a.prerelease, b.prerelease, c.prerelease);
    }
  }

  /** The chain of section 11.4.4: 1.0.0-alpha, -alpha.1, -alpha.beta, -beta, -beta.2, -beta.11, -rc.1, 1.0.0. */
  lemma StandardExample()
    ensures var v := (prerelease: seq<string>) => Version(1, 0, 0, prerelease);
            && Less(v(["alpha"]), v(["alpha", "1"])) && Less(v(["alpha", "1"]), v(["alpha", "beta"]))
            && Less(v(["alpha", "beta"]), v(["beta"])) && Less(v(["beta"]), v(["beta", "2"]))
            && Less(v(["beta", "2"]), v(["beta", "11"])) && Less(v(["beta", "11"]), v(["rc", "1"]))
            && Less(v(["rc", "1"]), v([]))
  {
    assert IsNumeric("1") && IsNumeric("2") && IsNumeric("11");
    assert !IsDigit("beta"[0]) && !IsNumeric("beta");
    assert "11"[..1] == "1" && "1"[..0] == "" && "2"[..0] == "";
    assert NumeralValue("1", 10) == 1 && NumeralValue("11", 10) == 11 && NumeralValue("2", 10) == 2;
    assert !IsDigit("alpha"[0]) && !IsNumeric("alpha") && !IsDigit("rc"[0]) && !IsNumeric("rc");
    assert ["alpha", "1"][1..] == ["1"] && ["alpha", "beta"][1..] == ["beta"];
    assert ["beta", "2"][1..] == ["2"] && ["beta", "11"][1..] == ["11"];
  }

  /** The larger number at the first difference wins, and a release comes after its prereleases. */
  lemma LessIsExact(a: Version, b: Version)
    ensures Less(a, b) <==>
              || a.major < b.major
              || (a.major == b.major && a.minor < b.minor)
              || (a.major == b.major && a.minor == b.minor && a.patch < b.patch)
              || (a.major == b.major && a.minor == b.minor && a.patch == b.patch
                  && a.prerelease != [] && (b.prerelease == [] || ComesFirst(a.prerelease, b.prerelease)))
  {
    if a.prerelease != [] && b.prerelease != [] { ListIsExact(a.prerelease, b.prerelease); }
  }

  /** All of the shorter list, or a smaller identifier at the first difference. */
  ghost predicate ComesFirst(a: seq<string>, b: seq<string>)
  {
    exists k :: ComesFirstAt(a, b, k)
  }

  ghost predicate ComesFirstAt(a: seq<string>, b: seq<string>, k: nat)
  {
    k <= |a| && k < |b| && (forall i :: 0 <= i < k ==> a[i] == b[i]) && (k == |a| || IsSmaller(a[k], b[k]))
  }

  /** Numbers by value and before texts, texts by code unit. */
  ghost predicate IsSmaller(a: string, b: string)
  {
    || (IsNumber(a) && IsNumber(b) && NumeralValue(a, 10) < NumeralValue(b, 10))
    || (IsNumber(a) && !IsNumber(b))
    || (!IsNumber(a) && !IsNumber(b) && exists k :: IsSmallerAt(a, b, k))
  }

  predicate IsNumber(s: string) { s != "" && forall i :: 0 <= i < |s| ==> '0' <= s[i] <= '9' }

  predicate IsSmallerAt(a: string, b: string, k: nat)
  {
    k <= |a| && k < |b| && (forall i :: 0 <= i < k ==> a[i] == b[i]) && (k == |a| || a[k] < b[k])
  }

  lemma {:induction false} TextIsExact(a: string, b: string)
    ensures Before(a, b) <==> exists k :: IsSmallerAt(a, b, k)
  {
    if b != "" && (a == "" || a[0] < b[0]) {
      assert IsSmallerAt(a, b, 0);
    } else if b != "" && a[0] == b[0] {
      var c, d := a[1..], b[1..];
      TextIsExact(c, d);
      if k: nat :| IsSmallerAt(a, b, k) { assert IsSmallerAt(c, d, k - 1); }
      if k: nat :| IsSmallerAt(c, d, k) { assert IsSmallerAt(a, b, k + 1); }
    }
  }

  lemma IdentifiersAreExact(a: string, b: string)
    ensures IdentifierLess(a, b) <==> IsSmaller(a, b)
  {
    assert IsNumeric(a) <==> IsNumber(a);
    assert IsNumeric(b) <==> IsNumber(b);
    TextIsExact(a, b);
  }

  lemma {:induction false} ListIsExact(a: seq<string>, b: seq<string>)
    ensures ListLess(a, b) <==> ComesFirst(a, b)
  {
    hide IsSmaller, IdentifierLess;
    if b != [] && a != [] {
      IdentifiersAreExact(a[0], b[0]);
      if a[0] == b[0] {
        var c, d := a[1..], b[1..];
        ListIsExact(c, d);
        NothingIsSmaller(a[0]);
        if k: nat :| ComesFirstAt(a, b, k) { assert ComesFirstAt(c, d, k - 1); }
        if k: nat :| ComesFirstAt(c, d, k) { assert ComesFirstAt(a, b, k + 1); }
      } else if IsSmaller(a[0], b[0]) {
        assert ComesFirstAt(a, b, 0);
      }
    } else if b != [] {
      assert ComesFirstAt(a, b, 0);
    }
  }

  lemma NothingIsSmaller(a: string)
    ensures !IsSmaller(a, a)
  {
  }

  // ----- parsing loses nothing but the build metadata -----

  lemma ParsedIsWellFormed(text: string)
    requires IsSemanticVersion(text)
    ensures WellFormed(ParseSemanticVersion(text).value)
  {
  }

  function PrintCore(v: Version): string
  {
    Join([Numeral(v.major, 10), Numeral(v.minor, 10), Numeral(v.patch, 10)], '.')
  }

  function Print(v: Version): string
  {
    if v.prerelease == [] then PrintCore(v) else PrintCore(v) + "-" + Join(v.prerelease, '.')
  }

  lemma CorePrints(core: string, prerelease: seq<string>)
    requires ParseCore(core, prerelease).Some?
    ensures PrintCore(ParseCore(core, prerelease).value) == core
  {
    var parts := Split(core, '.');
    JoinSplit(core, '.');
    CanonicalDecimalPrints(parts[0]);
    CanonicalDecimalPrints(parts[1]);
    CanonicalDecimalPrints(parts[2]);
    assert parts == [parts[0], parts[1], parts[2]];
  }

  /** Printing a parsed version gives back its text without the build metadata. */
  lemma ParsedPrints(text: string)
    requires IsSemanticVersion(text)
    ensures Print(ParseSemanticVersion(text).value) == WithoutBuild(text)
  {
    var stripped := WithoutBuild(text);
    var dash := IndexOf(stripped, '-');
    if dash < 0 {
      CorePrints(stripped, []);
    } else {
      var prerelease := Split(stripped[dash + 1..], '.');
      CorePrints(stripped[..dash], prerelease);
      JoinSplit(stripped[dash + 1..], '.');
      assert stripped == stripped[..dash] + "-" + stripped[dash + 1..];
    }
  }

  lemma EqualUpToBuild(left: string, right: string)
    requires IsSemanticVersion(left) && IsSemanticVersion(right)
    ensures ParseSemanticVersion(left) == ParseSemanticVersion(right) <==> WithoutBuild(left) == WithoutBuild(right)
  {
    ParsedPrints(left);
    ParsedPrints(right);
  }

  // ----- the accepted texts, exactly -----

  /** A dot-separated identifier, by section 9 of SemVer 2.0.0. */
  predicate IsIdentifier(s: string)
  {
    s != "" && forall i :: 0 <= i < |s| ==>
      '0' <= s[i] <= '9' || 'A' <= s[i] <= 'Z' || 'a' <= s[i] <= 'z' || s[i] == '-'
  }

  predicate HasNoLeadingZero(s: string) { IsNumber(s) && s[0] == '0' ==> s == "0" }

  /** The text is the version, its prerelease without leading zeros, and any build metadata. */
  ghost predicate IsWritten(text: string, v: Version, build: seq<string>)
  {
    && (forall i :: 0 <= i < |v.prerelease| ==>
          IsIdentifier(v.prerelease[i]) && HasNoLeadingZero(v.prerelease[i]))
    && (forall i :: 0 <= i < |build| ==> IsIdentifier(build[i]))
    && text == Print(v) + if build == [] then "" else "+" + Join(build, '.')
  }

  lemma IdentifiersAre(s: string)
    ensures IsBuildIdentifier(s) <==> IsIdentifier(s)
    ensures IsPrereleaseIdentifier(s) <==> IsIdentifier(s) && HasNoLeadingZero(s)
  {
    assert IsNumeric(s) <==> IsNumber(s);
  }

  lemma FirstIndex(head: string, tail: string, c: char)
    requires c !in head
    ensures IndexOf(head, c) == -1 && IndexOf(head + [c] + tail, c) == |head|
  {
    var s := head + [c] + tail;
    assert s[|head|] == c;
    assert forall i :: 0 <= i < |head| ==> s[i] == head[i] && head[i] in head;
  }

  lemma {:induction false} NumeralHasDigits(n: nat)
    ensures '.' !in Numeral(n, 10) && '-' !in Numeral(n, 10) && '+' !in Numeral(n, 10) && IsCanonicalDecimal(Numeral(n, 10))
  {
    NumeralReads(n, 10);
    if n == 0 { assert Numeral(0, 10) == "0"; }
  }

  lemma CoreParses(v: Version)
    ensures ParseCore(PrintCore(v), v.prerelease) == Some(v)
    ensures '-' !in PrintCore(v) && '+' !in PrintCore(v)
  {
    var parts := [Numeral(v.major, 10), Numeral(v.minor, 10), Numeral(v.patch, 10)];
    NumeralHasDigits(v.major);
    NumeralHasDigits(v.minor);
    NumeralHasDigits(v.patch);
    NumeralReads(v.major, 10);
    NumeralReads(v.minor, 10);
    NumeralReads(v.patch, 10);
    SplitJoin(parts, '.');
    NotInJoin(parts, '.', '-');
    NotInJoin(parts, '.', '+');
  }

  lemma {:induction false} NotInJoin(parts: seq<string>, sep: char, c: char)
    requires c != sep && forall i :: 0 <= i < |parts| ==> c !in parts[i]
    ensures c !in Join(parts, sep)
  {
    if |parts| > 1 { NotInJoin(parts[1..], sep, c); }
  }

  /** Every well-formed version parses from its text. */
  lemma PrintedParses(v: Version)
    requires WellFormed(v)
    ensures ParsePrecedence(Print(v)) == Some(v) && '+' !in Print(v)
  {
    hide ParseCore, PrintCore, Join, Split;
    CoreParses(v);
    if v.prerelease == [] {
      FirstIndex(PrintCore(v), "", '-');
    } else {
      var rest := Join(v.prerelease, '.');
      FirstIndex(PrintCore(v), rest, '-');
      var text := PrintCore(v) + ['-'] + rest;
      assert Print(v) == text && text[..|PrintCore(v)|] == PrintCore(v) && text[|PrintCore(v)| + 1..] == rest;
      forall i | 0 <= i < |v.prerelease| ensures '.' !in v.prerelease[i] && '+' !in v.prerelease[i] { IdentifiersAre(v.prerelease[i]); }
      SplitJoin(v.prerelease, '.');
      NotInJoin(v.prerelease, '.', '+');
    }
  }

  /** A text parses to a version exactly when it writes it, with any build metadata behind. */
  lemma ParsesExactly(text: string, v: Version)
    ensures ParseSemanticVersion(text) == Some(v) <==> exists build :: IsWritten(text, v, build)
  {
    hide Print, Join, Split, ParsePrecedence;
    if ParseSemanticVersion(text) == Some(v) { var build := WrittenBy(text, v); }
    if build :| IsWritten(text, v, build) {
      assert WellFormed(v) by {
        forall i | 0 <= i < |v.prerelease| ensures IsPrereleaseIdentifier(v.prerelease[i]) { IdentifiersAre(v.prerelease[i]); }
      }
      PrintedParses(v);
      BuildParses(text, v, build);
    }
  }

  lemma BuildParses(text: string, v: Version, build: seq<string>)
    requires IsWritten(text, v, build) && '+' !in Print(v)
    ensures BuildIsValid(text) && WithoutBuild(text) == Print(v)
  {
    hide Print, Join, Split;
    if build == [] {
      assert text == Print(v);
      FirstIndex(Print(v), "", '+');
    } else {
      var rest := Join(build, '.');
      FirstIndex(Print(v), rest, '+');
      assert text == Print(v) + ['+'] + rest;
      assert text[..|Print(v)|] == Print(v) && text[|Print(v)| + 1..] == rest;
      forall i | 0 <= i < |build| ensures '.' !in build[i] && IsBuildIdentifier(build[i]) { IdentifiersAre(build[i]); }
      SplitJoin(build, '.');
    }
  }

  lemma WrittenBy(text: string, v: Version) returns (build: seq<string>)
    requires ParseSemanticVersion(text) == Some(v)
    ensures IsWritten(text, v, build)
  {
    hide Print, Join, Split, ParsePrecedence, IsIdentifier, HasNoLeadingZero, IsPrereleaseIdentifier, WithoutBuild, BuildIsValid;
    ParsedPrints(text);
    ParsedIsWellFormed(text);
    forall i | 0 <= i < |v.prerelease|
      ensures IsIdentifier(v.prerelease[i]) && HasNoLeadingZero(v.prerelease[i])
    {
      IdentifiersAre(v.prerelease[i]);
    }
    build := BuildOf(text);
  }

  /** The build metadata of a text. */
  lemma BuildOf(text: string) returns (build: seq<string>)
    requires BuildIsValid(text)
    ensures forall i :: 0 <= i < |build| ==> IsIdentifier(build[i])
    ensures text == WithoutBuild(text) + if build == [] then "" else "+" + Join(build, '.')
  {
    hide Join, Split, IsIdentifier, IsBuildIdentifier;
    var plus := IndexOf(text, '+');
    build := [];
    if plus >= 0 {
      build := Split(text[plus + 1..], '.');
      JoinSplit(text[plus + 1..], '.');
      assert text == text[..plus] + ("+" + text[plus + 1..]);
      SplitIsNonempty(text[plus + 1..], '.');
      forall i | 0 <= i < |build| ensures IsIdentifier(build[i]) { IdentifiersAre(build[i]); }
    }
  }

  lemma SplitIsNonempty(s: string, sep: char)
    ensures Split(s, sep) != []
  {
  }

  lemma EmptyIsNoVersion()
    ensures !IsSemanticVersion("")
  {
    assert Split("", '.') == [""];
  }
}
