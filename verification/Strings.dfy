// The number conversions of kernel/lib/string.c. A string stands for the characters before the
// terminating NUL.
module Strings {
  import opened Memory

  const DIGITS: string := "0123456789abcdef"

  // value in this base, most significant digit first
  function Numeral(value: nat, base: nat): (s: string)
    requires 2 <= base <= 16
    ensures s != ""
    decreases value
  {
    var last := [DIGITS[value % base]];
    if value < base then last else QuotientBelow(value, base); Numeral(value / base, base) + last
  }

  lemma AtLeastTwice(q: nat, base: nat)
    requires 2 <= base
    ensures q * base >= q * 2
  {
    assert q * base == q * 2 + q * (base - 2);
  }

  lemma QuotientBelow(v: nat, base: nat)
    requires 2 <= base && v > 0
    ensures v / base < v && (v / base == 0 <==> v < base)
  {
    var q := v / base;
    assert v == q * base + v % base;
    AtLeastTwice(q, base);
    if q == 0 { assert q * base == 0; }
  }

  function Reverse(s: string): (r: string)
    ensures |r| == |s| && forall i :: 0 <= i < |s| ==> r[i] == s[|s| - 1 - i]
  {
    if s == "" then "" else Reverse(s[1..]) + [s[0]]
  }

  // utoa: digits are produced from the last to the first and then copied in reverse.
  method Utoa(value: word, base: int) returns (s: string)
    ensures s == if 2 <= base <= 16 then Numeral(value, base) else ""
  {
    if base < 2 || base > 16 { return ""; }
    var tmp := "";
    var v: nat := value;
    if v == 0 { tmp := tmp + ['0']; }
    while v != 0
      invariant v == 0 ==> Reverse(tmp) == Numeral(value, base)
      invariant v != 0 ==> Numeral(v, base) + Reverse(tmp) == Numeral(value, base)
      decreases v
    {
      var d := DIGITS[v % base];
      ReverseSnoc(tmp, d);
      if v >= base { assert Numeral(v, base) + Reverse(tmp) == Numeral(v / base, base) + ([d] + Reverse(tmp)); }
      tmp := tmp + [d];
      QuotientBelow(v, base);
      v := v / base;
    }
    s := CopyReversed(tmp);
  }

  // while (i) buf[j++] = tmp[--i]
  method CopyReversed(tmp: string) returns (s: string)
    ensures s == Reverse(tmp)
  {
    s := "";
    var i := |tmp|;
    while i > 0
      invariant 0 <= i <= |tmp| && s == Reverse(tmp)[..|tmp| - i]
    {
      i := i - 1;
      s := s + [tmp[i]];
    }
    assert Reverse(tmp)[..|tmp|] == Reverse(tmp);
  }

  lemma {:induction false} ReverseSnoc(s: string, c: char)
    ensures Reverse(s + [c]) == [c] + Reverse(s)
  {
  }

  // itoa in base 10
  function Decimal(v: int): string {
    if v < 0 then "-" + Numeral(-v, 10) else Numeral(v, 10)
  }

  // itoa; negating the smallest int is undefined and left out.
  method Itoa(v: int, base: int) returns (s: string)
    requires -0x8000_0000 < v < 0x8000_0000
    ensures base == 10 ==> s == Decimal(v)
    ensures base != 10 && 2 <= base <= 16 ==> s == Numeral(v % 0x1_0000_0000, base)
  {
    if base == 10 && v < 0 {
      var t := Utoa(-v, base);
      return "-" + t;
    }
    s := Utoa(v % 0x1_0000_0000, base);
  }

  // What a buffer of n bytes keeps of a string, its terminator included:
  // strncpy(buf, s, n - 1); buf[n - 1] = 0
  function Cut(s: string, n: nat): string
    requires n > 0
  {
    if |s| < n then s else s[..n - 1]
  }

  predicate IsDigit(c: char) {
    '0' <= c <= '9'
  }

  predicate IsBlank(c: char) {
    c == ' ' || c == '\t'
  }

  // Two's complement wrap-around to a 32-bit int
  function Wrap(v: int): (r: int)
    ensures -0x8000_0000 <= r < 0x8000_0000
    ensures -0x8000_0000 <= v < 0x8000_0000 ==> r == v
  {
    (v + 0x8000_0000) % 0x1_0000_0000 - 0x8000_0000
  }

  function SkipBlanks(s: string): (r: string)
    ensures r != "" ==> !IsBlank(r[0])
    ensures |r| <= |s|
  {
    if s != "" && IsBlank(s[0]) then SkipBlanks(s[1..]) else s
  }

  // The digit loop of atoi, from accumulator acc on.
  function Digits(s: string, acc: int): int
    decreases |s|
  {
    if s == "" || !IsDigit(s[0]) then acc
    else Digits(s[1..], Wrap(acc * 10 + (s[0] as int - '0' as int)))
  }

  function Number(s: string): int {
    var t := SkipBlanks(s);
    if t != "" && t[0] == '-' then Wrap(-Digits(t[1..], 0))
    else if t != "" && t[0] == '+' then Digits(t[1..], 0)
    else Digits(t, 0)
  }

  // while (*s == ' ' || *s == '\t') s++
  method DropBlanks(s: string) returns (r: string)
    ensures r == SkipBlanks(s)
  {
    var i := 0;
    assert s[0..] == s;
    while i < |s| && IsBlank(s[i])
      invariant i <= |s| && SkipBlanks(s[i..]) == SkipBlanks(s)
    {
      assert s[i..][1..] == s[i + 1..];
      i := i + 1;
    }
    r := s[i..];
  }

  method ReadDigits(s: string) returns (val: int)
    ensures val == Digits(s, 0)
  {
    var i := 0;
    val := 0;
    assert s[0..] == s;
    while i < |s| && IsDigit(s[i])
      invariant i <= |s| && Digits(s[i..], val) == Digits(s, 0)
    {
      assert s[i..][1..] == s[i + 1..];
      val := Wrap(val * 10 + (s[i] as int - '0' as int));
      i := i + 1;
    }
  }

  method Atoi(s: string) returns (v: int)
    ensures v == Number(s)
  {
    var t := DropBlanks(s);
    if t != "" && t[0] == '-' {
      v := ReadDigits(t[1..]);
      v := Wrap(-v);
    } else if t != "" && t[0] == '+' {
      v := ReadDigits(t[1..]);
    } else {
      v := ReadDigits(t);
    }
  }

  // ---- atoi undoes itoa ----

  lemma DigitOf(d: nat)
    requires d < 10
    ensures IsDigit(DIGITS[d]) && DIGITS[d] as int - '0' as int == d
  {
  }

  // Reading the numeral of v leaves v in the accumulator.
  lemma {:induction false} DigitsOfNumeral(v: nat, rest: string)
    requires v < 0x8000_0000
    ensures Digits(Numeral(v, 10) + rest, 0) == Digits(rest, v)
    decreases v
  {
    var d := DIGITS[v % 10];
    DigitOf(v % 10);
    var back := [d] + rest;
    assert back[1..] == rest;
    if v < 10 {
      assert Numeral(v, 10) + rest == back;
    } else {
      DigitsOfNumeral(v / 10, back);
      assert Numeral(v, 10) + rest == Numeral(v / 10, 10) + back;
    }
  }

  lemma {:induction false} NumeralDigits(v: nat)
    ensures IsDigit(Numeral(v, 10)[0]) && forall i :: 0 <= i < |Numeral(v, 10)| ==> IsDigit(Numeral(v, 10)[i])
    decreases v
  {
    DigitOf(v % 10);
    if v >= 10 { NumeralDigits(v / 10); }
  }

  // atoi reads back what itoa wrote, whatever non-digit follows.
  lemma AtoiOfItoa(v: int, rest: string)
    requires -0x8000_0000 < v < 0x8000_0000
    requires rest == "" || !IsDigit(rest[0])
    ensures Number(Decimal(v) + rest) == v
  {
    var n := if v < 0 then -v else v;
    var s := Decimal(v) + rest;
    NumeralDigits(n);
    DigitsOfNumeral(n, rest);
    if v < 0 {
      assert s[1..] == Numeral(n, 10) + rest;
    }
  }
}
