/** Position tags: indexes as zero-padded decimals that compare as strings. */
module Keys {
  import opened Wrappers
  import opened Bytes

  const TAG_WIDTH := 20
  const U64_MAX := 0xFFFF_FFFF_FFFF_FFFF

  function DigitChar(d: nat): (c: char)
    requires d < 10
    ensures c == "0123456789"[d] && DigitValue(c) == d
  {
    '0' + d as char
  }

  predicate IsDigit(c: char) {
    '0' <= c <= '9'
  }

  function DigitValue(c: char): (d: nat)
    requires IsDigit(c)
    ensures d < 10
  {
    (c - '0') as nat
  }

  predicate AllDigits(s: string) {
    forall i :: 0 <= i < |s| ==> IsDigit(s[i])
  }

  /** The shortest decimal form. */
  function Decimal(n: nat): (s: string)
    ensures s != [] && AllDigits(s)
  {
    if n < 10 then [DigitChar(n)] else Decimal(n / 10) + [DigitChar(n % 10)]
  }

  /** What a digit string reads as. */
  function Value(s: string): nat
    requires AllDigits(s)
  {
    if s == [] then 0 else 10 * Value(s[..|s| - 1]) + DigitValue(s[|s| - 1])
  }

  function Zeroes(n: nat): (z: string)
    ensures |z| == n && AllDigits(z)
  {
    if n == 0 then [] else Zeroes(n - 1) + ['0']
  }

  /** `{index:020}`: the decimal form, padded with zeros to the tag width. */
  function IndexTag(index: u64): string {
    var digits := Decimal(index);
    (if |digits| < TAG_WIDTH then Zeroes(TAG_WIDTH - |digits|) else []) + digits
  }

  /** Rust's `u64` parser: one optional plus sign, then digits only, in
      range. */
  function ParseU64(s: string): Option<u64> {
    var digits := if |s| > 0 && s[0] == '+' then s[1..] else s;
    if digits == [] || !AllDigits(digits) || Value(digits) > U64_MAX then None else Some(Value(digits))
  }

  function ParseTag(tag: string): Option<u64> {
    if |tag| == TAG_WIDTH then ParseU64(tag) else None
  }

  /** Byte order on strings, as Redis and Lua compare them. */
  predicate Less(a: string, b: string) {
    if b == [] then false
    else if a == [] then true
    else if a[0] != b[0] then a[0] < b[0]
    else Less(a[1..], b[1..])
  }

  // ----- values and forms

  function Pow10(n: nat): nat {
    if n == 0 then 1 else 10 * Pow10(n - 1)
  }

  lemma {:induction false} DecimalValue(n: nat)
    ensures Value(Decimal(n)) == n
  {
    if n >= 10 {
      DecimalValue(n / 10);
      assert Decimal(n)[..|Decimal(n)| - 1] == Decimal(n / 10);
    }
  }

  lemma DecimalInjective(a: nat, b: nat)
    requires Decimal(a) == Decimal(b)
    ensures a == b
  {
    DecimalValue(a);
    DecimalValue(b);
  }

  lemma {:induction false} PaddedValue(n: nat, s: string)
    requires AllDigits(s)
    ensures AllDigits(Zeroes(n) + s) && Value(Zeroes(n) + s) == Value(s)
  {
    if s == [] {
      assert Zeroes(n) + s == Zeroes(n);
      ZeroesValue(n);
    } else {
      PaddedValue(n, s[..|s| - 1]);
      assert (Zeroes(n) + s)[..n + |s| - 1] == Zeroes(n) + s[..|s| - 1];
    }
  }

  lemma {:induction false} ZeroesValue(n: nat)
    ensures Value(Zeroes(n)) == 0
  {
    if n > 0 {
      ZeroesValue(n - 1);
      assert Zeroes(n)[..n - 1] == Zeroes(n - 1);
    }
  }

  lemma {:induction false} DecimalWidth(n: nat, w: nat)
    requires n < Pow10(w) && w > 0
    ensures |Decimal(n)| <= w
  {
    if n >= 10 {
      DecimalWidth(n / 10, w - 1);
    }
  }

  lemma TagIsDigits(n: u64)
    ensures |IndexTag(n)| == 20 && AllDigits(IndexTag(n)) && Value(IndexTag(n)) == n
  {
    assert Pow10(8) == 1_0000_0000;
    assert Pow10(16) == 1_0000_0000_0000_0000;
    assert Pow10(20) == 1_0000_0000_0000_0000_0000;
    DecimalWidth(n, TAG_WIDTH);
    DecimalValue(n);
    PaddedValue(TAG_WIDTH - |Decimal(n)|, Decimal(n));
    assert |Decimal(n)| == TAG_WIDTH ==> Zeroes(0) + Decimal(n) == Decimal(n);
  }

  // ----- order

  lemma {:induction false} HeadValue(s: string)
    requires s != [] && AllDigits(s)
    ensures Value(s) == DigitValue(s[0]) * Pow10(|s| - 1) + Value(s[1..])
    ensures Value(s[1..]) < Pow10(|s| - 1)
  {
    if |s| == 1 {
      assert s[..0] == [];
    } else {
      var m := |s| - 1;
      HeadValue(s[..m]);
      assert s[..m][1..] == s[1..][..m - 1];
      assert s[1..][m - 1] == s[m];
      ShiftDigit(DigitValue(s[0]), Pow10(m - 1), Value(s[1..][..m - 1]), DigitValue(s[m]));
    }
  }

  lemma ShiftDigit(d: nat, p: nat, v: nat, last: nat)
    requires v < p && last < 10
    ensures 10 * (d * p + v) + last == d * (10 * p) + (10 * v + last)
    ensures 10 * v + last < 10 * p
  {
  }

  /** Digit strings of one width order as the numbers they read as. */
  lemma {:induction false} SameWidthOrder(a: string, b: string)
    requires |a| == |b| && AllDigits(a) && AllDigits(b)
    ensures Less(a, b) <==> Value(a) < Value(b)
    ensures a == b <==> Value(a) == Value(b)
  {
    if a != [] {
      SameWidthOrder(a[1..], b[1..]);
      HeadValue(a);
      HeadValue(b);
      var p := Pow10(|a| - 1);
      DigitsDecide(DigitValue(a[0]), DigitValue(b[0]), p, Value(a[1..]), Value(b[1..]));
      assert a == [a[0]] + a[1..] && b == [b[0]] + b[1..];
    }
  }

  lemma DigitsDecide(d: nat, e: nat, p: nat, x: nat, y: nat)
    requires x < p && y < p
    ensures d < e ==> d * p + x < e * p + y
    ensures e < d ==> e * p + y < d * p + x
  {
    if d < e {
      SmallerHead(d, e, p, x, y);
    } else if e < d {
      SmallerHead(e, d, p, y, x);
    }
  }

  lemma SmallerHead(d: nat, e: nat, p: nat, x: nat, y: nat)
    requires d < e && x < p
    ensures d * p + x < e * p + y
  {
    var k := e - d - 1;
    assert e * p == (d + 1 + k) * p == d * p + p + k * p;
  }

  /** Tags order and differ exactly as their indexes do. */
  lemma TagsOrderAsIndexes(a: u64, b: u64)
    ensures Less(IndexTag(a), IndexTag(b)) <==> a < b
    ensures IndexTag(a) == IndexTag(b) <==> a == b
  {
    TagIsDigits(a);
    TagIsDigits(b);
    SameWidthOrder(IndexTag(a), IndexTag(b));
  }

  // ----- parsing

  lemma TagRoundTrip(n: u64)
    ensures ParseTag(IndexTag(n)) == Some(n)
  {
    TagIsDigits(n);
    assert IsDigit(IndexTag(n)[0]);
  }

  /** `ParseTag` promises `None` for anything but a tag. It keeps the promise
      exactly for strings that do not start with a plus sign. */
  lemma ParsesOnlyTagsUnlessPlus(tag: string)
    requires ParseTag(tag).Some?
    ensures tag == IndexTag(ParseTag(tag).value) <==> tag[0] != '+'
  {
    var n := ParseTag(tag).value;
    TagIsDigits(n);
    if tag[0] == '+' {
      assert IsDigit(IndexTag(n)[0]);
    } else {
      SameWidthOrder(tag, IndexTag(n));
    }
  }

  /** What parses, exactly: a tag, or a plus sign before nineteen digits. */
  lemma ParseTagIff(tag: string, n: u64)
    ensures ParseTag(tag) == Some(n) <==>
              || tag == IndexTag(n)
              || (|tag| == 20 && tag[0] == '+' && AllDigits(tag[1..]) && Value(tag[1..]) == n)
  {
    TagIsDigits(n);
    TagRoundTrip(n);
    if ParseTag(tag) == Some(n) {
      ParsesOnlyTagsUnlessPlus(tag);
    }
  }

  lemma PlusSignParses()
    ensures ParseTag("+0000000000000000007") == Some(7)
    ensures "+0000000000000000007" != IndexTag(7)
  {
    var s := "0000000000000000007";
    assert "+0000000000000000007"[1..] == s;
    assert s == Zeroes(18) + "7" by {
      ZeroesAre(18);
    }
    PaddedValue(18, "7");
    assert Value("7") == 7 by { assert "7"[..0] == []; }
    TagIsDigits(7);
    assert IsDigit(IndexTag(7)[0]);
  }

  lemma {:induction false} ZeroesAre(n: nat)
    ensures forall i :: 0 <= i < n ==> Zeroes(n)[i] == '0'
  {
    if n > 0 {
      ZeroesAre(n - 1);
    }
  }
}
