/**
  The pieces of Go's `strings` and `strconv` packages that the path parser and the
  sorters rely on: white-space trimming, splitting on a separator, first index of an
  element, byte-wise string ordering and `strconv.Atoi`.
 */
module Text {
  import opened Wrappers

  /** Go's `unicode.IsSpace`, the test `strings.TrimSpace` applies at both ends. */
  predicate IsSpace(c: char) {
    || c == ' ' || c == '\t' || c == '\n' || c == '\r' || c == '\U{000B}' || c == '\U{000C}'
    || c == '\U{0085}' || c == '\U{00A0}' || c == '\U{1680}'
    || ('\U{2000}' <= c <= '\U{200A}')
    || c == '\U{2028}' || c == '\U{2029}' || c == '\U{202F}' || c == '\U{205F}' || c == '\U{3000}'
  }

  /** Drops leading white space: the result is a suffix that starts with a non-space. */
  function TrimLeft(s: string): (r: string)
    ensures |r| <= |s| && r == s[|s| - |r|..]
    ensures forall k :: 0 <= k < |s| - |r| ==> IsSpace(s[k])
    ensures r == [] || !IsSpace(r[0])
  {
    if s != [] && IsSpace(s[0]) then TrimLeft(s[1..]) else s
  }

  /** Drops trailing white space: the result is a prefix that ends with a non-space. */
  function TrimRight(s: string): (r: string)
    ensures |r| <= |s| && r == s[..|r|]
    ensures forall k :: |r| <= k < |s| ==> IsSpace(s[k])
    ensures r == [] || !IsSpace(r[|r| - 1])
  {
    if s != [] && IsSpace(s[|s| - 1]) then TrimRight(s[..|s| - 1]) else s
  }

  predicate AllSpace(s: string) {
    forall k :: 0 <= k < |s| ==> IsSpace(s[k])
  }

  /** Go's `strings.TrimSpace`. */
  function TrimSpace(s: string): (r: string)
    ensures r == [] <==> AllSpace(s)
    ensures r != [] ==> !IsSpace(r[0]) && !IsSpace(r[|r| - 1])
    ensures s == [] || (!IsSpace(s[0]) && !IsSpace(s[|s| - 1])) ==> r == s
  {
    var l := TrimLeft(s);
    var r := TrimRight(l);
    r
  }

  /**
    TrimSpace keeps the part of `s` between its leading and its trailing white space:
    a slice of `s` with only white space before and after it.
   */
  lemma TrimSpaceSlice(s: string)
    ensures exists i, j :: 0 <= i <= j <= |s| && TrimSpace(s) == s[i..j] && AllSpace(s[..i]) && AllSpace(s[j..])
  {
    var l := TrimLeft(s);
    var r := TrimRight(l);
    var i, j := |s| - |l|, |s| - |l| + |r|;
    assert s[i..j] == r;
    forall k | 0 <= k < i ensures IsSpace(s[..i][k]) {
      assert s[..i][k] == s[k];
    }
    forall k | 0 <= k < |s| - j ensures IsSpace(s[j..][k]) {
      assert s[j..][k] == l[|r| + k];
    }
    assert AllSpace(s[..i]) && AllSpace(s[j..]);
  }

  /** Go's `strings.Index` for a one-element needle: the first position of `x`, or -1. */
  function IndexOf<T(==)>(s: seq<T>, x: T): (i: int)
    ensures -1 <= i < |s|
    ensures i == -1 <==> x !in s
    ensures i >= 0 ==> s[i] == x && x !in s[..i]
  {
    if s == [] then -1
    else if s[0] == x then 0
    else
      var j := IndexOf(s[1..], x);
      if j == -1 then -1
      else
        assert s[..j + 1] == [s[0]] + s[1..][..j];
        j + 1
  }

  /** The inverse of Split: the parts glued back together with `sep` between them. */
  function Join<T>(parts: seq<seq<T>>, sep: T): seq<T>
    requires |parts| >= 1
  {
    if |parts| == 1 then parts[0] else parts[0] + [sep] + Join(parts[1..], sep)
  }

  /**
    Go's `strings.Split` and `bytes.Split` with a one-element separator: the pieces
    between the separators, one more piece than there are separators.
   */
  function Split<T(==)>(s: seq<T>, sep: T): (parts: seq<seq<T>>)
    ensures |parts| >= 1
    ensures forall i :: 0 <= i < |parts| ==> sep !in parts[i]
    ensures Join(parts, sep) == s
    decreases |s|
  {
    var i := IndexOf(s, sep);
    if i == -1 then [s]
    else
      var rest := Split(s[i + 1..], sep);
      var parts := [s[..i]] + rest;
      assert parts[1..] == rest;
      assert forall j :: 1 <= j < |parts| ==> parts[j] == rest[j - 1];
      assert s == s[..i] + [sep] + s[i + 1..];
      parts
  }

  lemma IndexOfFirst<T>(a: seq<T>, x: T, b: seq<T>)
    requires x !in a
    ensures IndexOf(a + [x] + b, x) == |a|
  {
    var s := a + [x] + b;
    var i := IndexOf(s, x);
    assert s[|a|] == x;
  }

  /** Splitting undoes joining, so Split and Join are inverse to each other. */
  lemma {:induction false} SplitJoin<T>(parts: seq<seq<T>>, sep: T)
    requires |parts| >= 1
    requires forall i :: 0 <= i < |parts| ==> sep !in parts[i]
    ensures Split(Join(parts, sep), sep) == parts
  {
    if |parts| == 1 {
    } else {
      var rest := Join(parts[1..], sep);
      IndexOfFirst(parts[0], sep, rest);
      var s := parts[0] + [sep] + rest;
      assert s[|parts[0]| + 1..] == rest;
      assert s[..|parts[0]|] == parts[0];
      SplitJoin(parts[1..], sep);
    }
  }

  /**
    Go's `<` on strings. Go compares the UTF-8 bytes; for well-formed text that order
    coincides with the order of the code points compared here.
   */
  predicate Less(a: string, b: string)
    decreases |a|
  {
    if b == [] then false
    else if a == [] then true
    else if a[0] != b[0] then a[0] < b[0]
    else Less(a[1..], b[1..])
  }

  lemma {:induction false} LessIrreflexive(a: string)
    ensures !Less(a, a)
    decreases |a|
  {
    if a != [] {
      LessIrreflexive(a[1..]);
    }
  }

  lemma {:induction false} LessTransitive(a: string, b: string, c: string)
    requires Less(a, b) && Less(b, c)
    ensures Less(a, c)
    decreases |a|
  {
    if a != [] && a[0] == b[0] && b[0] == c[0] {
      LessTransitive(a[1..], b[1..], c[1..]);
    }
  }

  lemma {:induction false} LessTotal(a: string, b: string)
    ensures a == b || Less(a, b) || Less(b, a)
    decreases |a|
  {
    if a != [] && b != [] && a[0] == b[0] {
      LessTotal(a[1..], b[1..]);
      if a[1..] == b[1..] {
        assert a == [a[0]] + a[1..] && b == [b[0]] + b[1..];
      }
    }
  }

  lemma {:induction false} LessAsymmetric(a: string, b: string)
    requires Less(a, b)
    ensures !Less(b, a)
    decreases |a|
  {
    if a != [] && a[0] == b[0] {
      LessAsymmetric(a[1..], b[1..]);
    }
  }

  /** The range of Go's 64-bit `int`, outside of which `strconv.Atoi` reports an error. */
  const MinInt: int := -0x8000_0000_0000_0000
  const MaxInt: int := 0x7FFF_FFFF_FFFF_FFFF

  predicate IsDigit(c: char) {
    '0' <= c <= '9'
  }

  predicate AllDigits(s: string) {
    forall k :: 0 <= k < |s| ==> IsDigit(s[k])
  }

  /** The decimal value of a run of ASCII digits. */
  function DigitsValue(s: string): nat
    requires AllDigits(s)
  {
    if s == [] then 0 else DigitsValue(s[..|s| - 1]) * 10 + (s[|s| - 1] as int - '0' as int)
  }

  /** The text of `s` without one leading sign character. */
  function Unsigned(s: string): string {
    if s != [] && (s[0] == '-' || s[0] == '+') then s[1..] else s
  }

  /**
    Go's `strconv.Atoi`: an optional `+` or `-`, then one or more ASCII digits, whose
    value must fit a 64-bit `int`; anything else is a syntax or range error.
   */
  function Atoi(s: string): (r: Option<int>)
    ensures r.Some? ==> MinInt <= r.value <= MaxInt
    ensures r.Some? ==> Unsigned(s) != [] && AllDigits(Unsigned(s))
    ensures r.Some? && r.value < 0 ==> s[0] == '-'
  {
    var d := Unsigned(s);
    if d == [] || !AllDigits(d) then None
    else
      var v: int := DigitsValue(d);
      var n := if s[0] == '-' then -v else v;
      if MinInt <= n <= MaxInt then Some(n) else None
  }

  /** A `0` in front of the digits does not change their value. */
  lemma {:induction false} DigitsValueLeadingZero(d: string)
    requires AllDigits(d)
    ensures AllDigits("0" + d) && DigitsValue("0" + d) == DigitsValue(d)
    decreases |d|
  {
    var z := "0" + d;
    if d != [] {
      var init := d[..|d| - 1];
      assert z[..|z| - 1] == "0" + init && z[|z| - 1] == d[|d| - 1];
      DigitsValueLeadingZero(init);
    }
  }

  /** A leading `+` reads the same as no sign at all. */
  lemma AtoiPlus(d: string)
    requires AllDigits(d)
    ensures Atoi("+" + d) == Atoi(d)
  {
    var s := "+" + d;
    assert s[0] == '+' && Unsigned(s) == d;
    if d != [] {
      assert IsDigit(d[0]) && Unsigned(d) == d;
    }
  }

  /** A leading zero after the sign, if any, does not change the result. */
  lemma AtoiLeadingZero(sign: string, d: string)
    requires sign == "" || sign == "+" || sign == "-"
    requires d != [] && AllDigits(d)
    ensures Atoi(sign + "0" + d) == Atoi(sign + d)
  {
    DigitsValueLeadingZero(d);
    assert sign + "0" + d == sign + ("0" + d);
    AtoiInRange(sign, "0" + d);
    AtoiInRange(sign, d);
  }

  /**
    Digits after an optional sign parse exactly when their signed value fits a 64-bit
    `int`, and then to that value.
   */
  lemma AtoiInRange(sign: string, d: string)
    requires sign == "" || sign == "+" || sign == "-"
    requires d != [] && AllDigits(d)
    ensures var v: int := if sign == "-" then -(DigitsValue(d) as int) else DigitsValue(d);
      Atoi(sign + d) == if MinInt <= v <= MaxInt then Some(v) else None
  {
    var s := sign + d;
    assert IsDigit(d[0]);
    if sign == "" {
      assert s == d && Unsigned(s) == d && s[0] != '-';
    } else {
      assert s[0] == sign[0] && Unsigned(s) == d;
    }
  }

  function DigitChar(d: nat): char
    requires d < 10
  {
    ('0' as int + d) as char
  }

  /** The decimal digits of a natural number, without leading zeros. */
  function Digits(n: nat): string
  {
    if n < 10 then [DigitChar(n)] else Digits(n / 10) + [DigitChar(n % 10)]
  }

  /** Go's `strconv.Itoa`: decimal text, with a `-` in front of a negative number. */
  function Itoa(n: int): string {
    if n < 0 then "-" + Digits(-n) else Digits(n)
  }

  lemma {:induction false} DigitsValueOfDigits(n: nat)
    ensures Digits(n) != [] && AllDigits(Digits(n))
    ensures DigitsValue(Digits(n)) == n
  {
    if n >= 10 {
      DigitsValueOfDigits(n / 10);
      var s := Digits(n);
      assert s[..|s| - 1] == Digits(n / 10);
    }
  }

  /** Atoi reads back every 64-bit integer that Itoa writes. */
  lemma AtoiItoa(n: int)
    requires MinInt <= n <= MaxInt
    ensures Atoi(Itoa(n)) == Some(n)
  {
    var m: nat := if n < 0 then -n else n;
    DigitsValueOfDigits(m);
    var d := Digits(m);
    assert IsDigit(d[0]);
    var s := Itoa(n);
    if n < 0 {
      assert s == "-" + d && s[0] == '-';
      assert Unsigned(s) == d;
    } else {
      assert s == d;
      assert Unsigned(s) == d;
    }
  }
}
