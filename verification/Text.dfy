/**
 Strings as the parsers of the repository use them: splitting and joining on a
 separator, numerals in base ten and sixteen, trimming, and comparison by code unit.
 */
module Text {

  /** Splits on every occurrence of `sep`; the empty string gives one empty part. */
  function Split(s: string, sep: char): (parts: seq<string>)
    ensures |parts| >= 1
  {
    if s == "" then [""]
    else if s[0] == sep then [""] + Split(s[1..], sep)
    else
      var rest := Split(s[1..], sep);
      [[s[0]] + rest[0]] + rest[1..]
  }

  function Join(parts: seq<string>, sep: char): string
  {
    if |parts| == 0 then ""
    else if |parts| == 1 then parts[0]
    else parts[0] + [sep] + Join(parts[1..], sep)
  }

  /** A character in front of the first part. */
  lemma JoinPrepended(c: char, parts: seq<string>, sep: char)
    requires parts != []
    ensures Join([[c] + parts[0]] + parts[1..], sep) == [c] + Join(parts, sep)
  {
    var longer := [[c] + parts[0]] + parts[1..];
    assert longer[1..] == parts[1..];
    if |parts| > 1 {
      var tail := Join(parts[1..], sep);
      assert [c] + parts[0] + [sep] + tail == [c] + (parts[0] + [sep] + tail);
    }
  }

  lemma {:induction false} JoinSplit(s: string, sep: char)
    ensures Join(Split(s, sep), sep) == s
  {
    if s == "" {
    } else {
      JoinSplit(s[1..], sep);
      var rest := Split(s[1..], sep);
      if s[0] == sep {
        assert ([""] + rest)[1..] == rest;
      } else {
        JoinPrepended(s[0], rest, sep);
        assert s == [s[0]] + s[1..];
      }
    }
  }

  lemma {:induction false} SplitPart(s: string, sep: char)
    requires sep !in s
    ensures Split(s, sep) == [s]
  {
    if s != "" {
      SplitPart(s[1..], sep);
      assert s == [s[0]] + s[1..];
    }
  }

  lemma {:induction false} SplitAt(head: string, tail: string, sep: char)
    requires sep !in head
    ensures Split(head + [sep] + tail, sep) == [head] + Split(tail, sep)
  {
    var s := head + [sep] + tail;
    if head == "" {
      assert s[1..] == tail;
    } else {
      assert s[1..] == head[1..] + [sep] + tail;
      SplitAt(head[1..], tail, sep);
      assert head == [head[0]] + head[1..];
    }
  }

  /** Splitting undoes joining when no part holds the separator. */
  lemma {:induction false} SplitJoin(parts: seq<string>, sep: char)
    requires |parts| >= 1
    requires forall i :: 0 <= i < |parts| ==> sep !in parts[i]
    ensures Split(Join(parts, sep), sep) == parts
  {
    if |parts| == 1 {
      SplitPart(parts[0], sep);
    } else {
      SplitJoin(parts[1..], sep);
      SplitAt(parts[0], Join(parts[1..], sep), sep);
    }
  }

  lemma {:induction false} SplitHasNoSeparator(s: string, sep: char)
    ensures forall i :: 0 <= i < |Split(s, sep)| ==> sep !in Split(s, sep)[i]
  {
    if s != "" {
      SplitHasNoSeparator(s[1..], sep);
    }
  }

  /** Every character of a joined text comes from a part or is the separator. */
  lemma {:induction false} JoinChars(parts: seq<string>, sep: char, c: char)
    requires c in Join(parts, sep)
    ensures c == sep || exists i :: 0 <= i < |parts| && c in parts[i]
  {
    if |parts| > 1 && c != sep && c !in parts[0] {
      JoinChars(parts[1..], sep, c);
      var i :| 0 <= i < |parts[1..]| && c in parts[1..][i];
      assert c in parts[i + 1];
    } else if |parts| > 0 && c in parts[0] {
      assert c in parts[0];
    }
  }

  lemma {:induction false} JoinLength(parts: seq<string>, sep: char, bound: nat)
    requires forall i :: 0 <= i < |parts| ==> |parts[i]| <= bound
    ensures |Join(parts, sep)| <= |parts| * (bound + 1)
    ensures |parts| >= 1 ==> |Join(parts, sep)| >= |parts| - 1
  {
    if |parts| > 1 {
      JoinLength(parts[1..], sep, bound);
    }
  }

  // ----- numerals -----

  predicate IsDigit(c: char) { '0' <= c <= '9' }

  predicate IsHexDigit(c: char) { IsDigit(c) || 'a' <= c <= 'f' || 'A' <= c <= 'F' }

  function DigitValue(c: char): nat
  {
    if '0' <= c <= '9' then (c - '0') as nat
    else if 'a' <= c <= 'f' then 10 + (c - 'a') as nat
    else if 'A' <= c <= 'F' then 10 + (c - 'A') as nat
    else 0
  }

  function DigitChar(d: nat): char
    requires d < 16
  {
    if d < 10 then '0' + d as char else 'a' + (d - 10) as char
  }

  type Base = b: int | b == 10 || b == 16 witness 10

  predicate IsNumeral(s: string, base: Base)
  {
    |s| > 0 && forall i :: 0 <= i < |s| ==> (if base == 10 then IsDigit(s[i]) else IsHexDigit(s[i]))
  }

  /** `Number(text)` for decimal digits and `parseInt(text, 16)` for hexadecimal ones. */
  function NumeralValue(s: string, base: Base): nat
  {
    if s == "" then 0
    else if base == 10 then 10 * NumeralValue(s[..|s| - 1], base) + DigitValue(s[|s| - 1])
    else 16 * NumeralValue(s[..|s| - 1], base) + DigitValue(s[|s| - 1])
  }

  /** `String(n)` and `n.toString(16)`. */
  function Numeral(n: nat, base: Base): string
  {
    if n < base then [DigitChar(n)] else Numeral(n / base, base) + [DigitChar(n % base)]
  }

  lemma LastDigit(n: nat, base: Base)
    ensures n == base * (n / base) + n % base
  {
    if base == 10 {
      assert n == 10 * (n / 10) + n % 10;
    } else {
      assert n == 16 * (n / 16) + n % 16;
    }
  }

  lemma {:induction false} NumeralReads(n: nat, base: Base)
    ensures NumeralValue(Numeral(n, base), base) == n
    ensures IsNumeral(Numeral(n, base), base)
    ensures n == 0 || Numeral(n, base)[0] != '0'
  {
    var s := Numeral(n, base);
    if n < base {
      assert s[..0] == "";
    } else {
      NumeralReads(n / base, base);
      assert s[..|s| - 1] == Numeral(n / base, base);
      LastDigit(n, base);
    }
  }

  /** No leading zero: what the patterns `0|[1-9]\d*` accept. */
  predicate IsCanonicalDecimal(s: string)
  {
    IsNumeral(s, 10) && (|s| == 1 || s[0] != '0')
  }

  lemma {:induction false} CanonicalDecimalPrints(s: string)
    requires IsCanonicalDecimal(s)
    ensures Numeral(NumeralValue(s, 10), 10) == s
    ensures |s| > 1 ==> NumeralValue(s, 10) >= 10
  {
    var last := |s| - 1;
    assert s[..last] + [s[last]] == s;
    assert IsDigit(s[last]);
    assert DigitChar(DigitValue(s[last])) == s[last];
    if |s| == 1 {
      assert s[..0] == "";
    } else {
      var front := s[..last];
      if |front| > 1 {
        CanonicalDecimalPrints(front);
      } else {
        assert front[..0] == "" && IsDigit(front[0]);
        CanonicalDecimalPrints(front);
      }
      var v := NumeralValue(front, 10);
      assert v >= 1 by {
        if |front| == 1 { assert front[..0] == ""; assert v == DigitValue(front[0]); }
      }
      assert (10 * v + DigitValue(s[last])) / 10 == v;
    }
  }

  lemma {:induction false} NumeralLength(n: nat, base: Base, width: nat)
    requires width >= 1 && n < Power(base, width)
    ensures |Numeral(n, base)| <= width
  {
    if n >= base {
      if base == 10 {
        assert n / 10 < Power(10, width - 1);
      } else {
        assert n / 16 < Power(16, width - 1);
      }
      assert width > 1;
      NumeralLength(n / base, base, width - 1);
    }
  }

  function Power(base: nat, exponent: nat): nat
  {
    if exponent == 0 then 1 else base * Power(base, exponent - 1)
  }

  // ----- trimming and searching -----

  /** White space and line terminators as `String.prototype.trim` removes them. */
  predicate IsSpace(c: char)
  {
    c in "\t\n\r \U{000B}\U{000C}\U{00A0}\U{1680}\U{2028}\U{2029}\U{202F}\U{205F}\U{3000}\U{FEFF}"
    || '\U{2000}' <= c <= '\U{200A}'
  }

  function TrimStart(s: string): string
  {
    if s != "" && IsSpace(s[0]) then TrimStart(s[1..]) else s
  }

  function TrimEnd(s: string): string
  {
    if s != "" && IsSpace(s[|s| - 1]) then TrimEnd(s[..|s| - 1]) else s
  }

  function Trim(s: string): string { TrimEnd(TrimStart(s)) }

  /** The index of the last occurrence, or -1. */
  function LastIndexOf(s: string, c: char): (i: int)
    ensures -1 <= i < |s|
    ensures i >= 0 ==> s[i] == c
    ensures forall j :: i < j < |s| ==> s[j] != c
  {
    if s == "" then -1
    else if s[|s| - 1] == c then |s| - 1
    else LastIndexOf(s[..|s| - 1], c)
  }

  /** The index of the first occurrence, or -1. */
  function IndexOf(s: string, c: char): (i: int)
    ensures -1 <= i < |s|
    ensures i >= 0 ==> s[i] == c
    ensures forall j :: 0 <= j < (if i < 0 then |s| else i) ==> s[j] != c
  {
    if s == "" then -1
    else if s[0] == c then 0
    else
      var rest := IndexOf(s[1..], c);
      if rest < 0 then -1 else rest + 1
  }

  // ----- order by code unit -----

  /** The operator `<` of the source on strings. */
  predicate Before(a: string, b: string)
  {
    if b == "" then false
    else if a == "" then true
    else if a[0] != b[0] then a[0] < b[0]
    else Before(a[1..], b[1..])
  }

  lemma {:induction false} BeforeIsTotal(a: string, b: string)
    ensures a == b || Before(a, b) || Before(b, a)
    ensures !(Before(a, b) && Before(b, a))
    ensures a == b ==> !Before(a, b)
  {
    if a != "" && b != "" && a[0] == b[0] {
      BeforeIsTotal(a[1..], b[1..]);
      assert a == [a[0]] + a[1..] && b == [b[0]] + b[1..];
    }
  }

  lemma {:induction false} BeforeIsTransitive(a: string, b: string, c: string)
    requires Before(a, b) && Before(b, c)
    ensures Before(a, c)
  {
    if a != "" && a[0] == b[0] == c[0] {
      BeforeIsTransitive(a[1..], b[1..], c[1..]);
    }
  }

  /** Only blanks. */
  predicate IsBlank(s: string) { forall i :: 0 <= i < |s| ==> IsSpace(s[i]) }

  /** No blank at either end. */
  predicate HasNoOuterBlanks(s: string) { s == "" || (!IsSpace(s[0]) && !IsSpace(s[|s| - 1])) }

  /** Blanks around a text without outer blanks are cut off. */
  lemma TrimCutsBlanks(left: string, s: string, right: string)
    requires IsBlank(left) && IsBlank(right) && HasNoOuterBlanks(s)
    ensures Trim(left + s + right) == s
  {
    hide IsSpace;
    if s == "" {
      StartCutsBlanks(left + right, "");
      assert left + s + right == left + right + "" && TrimEnd("") == "";
    } else {
      StartCutsBlanks(left, s + right);
      assert left + (s + right) == left + s + right;
      EndCutsBlanks(s, right);
    }
  }

  lemma {:induction false} StartCutsBlanks(left: string, s: string)
    requires IsBlank(left) && (s == "" || !IsSpace(s[0]))
    ensures TrimStart(left + s) == s
  {
    hide IsSpace;
    if left == "" {
      assert left + s == s;
    } else {
      StartCutsBlanks(left[1..], s);
      assert (left + s)[1..] == left[1..] + s && (left + s)[0] == left[0];
    }
  }

  lemma {:induction false} EndCutsBlanks(s: string, right: string)
    requires IsBlank(right) && s != "" && !IsSpace(s[|s| - 1])
    ensures TrimEnd(s + right) == s
    decreases |right|
  {
    hide IsSpace;
    if right == "" {
      assert s + right == s;
    } else {
      var n := |right| - 1;
      EndCutsBlanks(s, right[..n]);
      assert (s + right)[..|s| + n] == s + right[..n] && (s + right)[|s| + n] == right[n];
    }
  }

  /** What trimming leaves stands between blanks and has no outer ones. */
  lemma TrimLeaves(s: string) returns (left: string, right: string)
    ensures IsBlank(left) && IsBlank(right) && HasNoOuterBlanks(Trim(s)) && s == left + Trim(s) + right
  {
    hide IsSpace;
    var rest := TrimStart(s);
    left := StartLeaves(s);
    right := EndLeaves(rest);
    assert s == left + rest && rest == Trim(s) + right;
    if Trim(s) != "" { assert Trim(s)[0] == rest[0]; }
    assert left + (Trim(s) + right) == left + Trim(s) + right;
  }

  lemma {:induction false} StartLeaves(s: string) returns (left: string)
    ensures IsBlank(left) && s == left + TrimStart(s) && (TrimStart(s) == "" || !IsSpace(TrimStart(s)[0]))
  {
    hide IsSpace;
    left := "";
    if s != "" && IsSpace(s[0]) {
      var rest := StartLeaves(s[1..]);
      left := [s[0]] + rest;
      assert s == [s[0]] + s[1..];
      assert [s[0]] + (rest + TrimStart(s[1..])) == left + TrimStart(s[1..]);
    }
  }

  lemma {:induction false} EndLeaves(s: string) returns (right: string)
    ensures IsBlank(right) && s == TrimEnd(s) + right && (TrimEnd(s) == "" || !IsSpace(TrimEnd(s)[|TrimEnd(s)| - 1]))
  {
    hide IsSpace;
    right := "";
    if s != "" && IsSpace(s[|s| - 1]) {
      var n := |s| - 1;
      var rest := EndLeaves(s[..n]);
      right := rest + [s[n]];
      assert s == s[..n] + [s[n]];
      assert (TrimEnd(s[..n]) + rest) + [s[n]] == TrimEnd(s[..n]) + right;
    }
  }

  // ----- characters -----

  /** The code points of white space and line ends in ECMAScript. */
  lemma SpacesAre(c: char)
    ensures IsSpace(c) <==>
              var code := c as int;
              9 <= code <= 13 || code == 32 || code == 160 || code == 5760 || 8192 <= code <= 8202
              || code == 8232 || code == 8233 || code == 8239 || code == 8287 || code == 12288 || code == 65279
  {
  }

  /** Hexadecimal digits of either case and their values. */
  lemma HexDigitsAre(c: char)
    ensures IsHexDigit(c) <==> '0' <= c <= '9' || 'a' <= c <= 'f' || 'A' <= c <= 'F'
    ensures '0' <= c <= '9' ==> DigitValue(c) == c as int - 48
    ensures 'a' <= c <= 'f' ==> DigitValue(c) == c as int - 87
    ensures 'A' <= c <= 'F' ==> DigitValue(c) == c as int - 55
  {
  }

  /** The value of a numeral grows by its last digit. */
  lemma ValueOfOneMore(s: string, c: char, base: Base)
    requires s != "" && IsNumeral(s + [c], base)
    ensures IsNumeral(s, base) && NumeralValue(s + [c], base) == base * NumeralValue(s, base) + DigitValue(c)
  {
    var all := s + [c];
    assert all[..|all| - 1] == s;
    assert forall i :: 0 <= i < |s| ==> s[i] == all[i];
  }
}
