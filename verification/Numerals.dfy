/** Decimal numerals, as streams print them, and what they are worth in a base. */
module Numerals {
  import opened Bytes

  function Digits(n: nat): string {
    (if n < 10 then "" else Digits(n / 10)) + [(n % 10 + '0' as int) as char]
  }

  function Decimal(n: int): string {
    if n < 0 then "-" + Digits(-n) else Digits(n)
  }

  predicate IsDigit(c: char) {
    '0' <= c <= '9'
  }

  predicate IsHexDigit(c: char) {
    IsDigit(c) || 'a' <= c <= 'f' || 'A' <= c <= 'F'
  }

  function DigitOf(c: char): nat
    requires IsHexDigit(c)
  {
    if IsDigit(c) then c as int - '0' as int
    else if 'a' <= c <= 'f' then c as int - 'a' as int + 10
    else c as int - 'A' as int + 10
  }

  /** The value of a run of digits in a base. */
  function Value(s: string, base: nat): nat
    requires forall c | c in s :: IsHexDigit(c)
  {
    if s == "" then 0 else Value(s[..|s| - 1], base) * base + DigitOf(s[|s| - 1])
  }

  lemma ValueAppend(s: string, digit: char, base: nat)
    requires IsDigit(digit) && forall c | c in s :: IsDigit(c)
    ensures forall c | c in s + [digit] :: IsDigit(c)
    ensures Value(s + [digit], base) == Value(s, base) * base + (digit as int - '0' as int)
  {
    assert (s + [digit])[..|s|] == s;
  }

  lemma {:induction false} DigitsValue(n: nat, base: nat)
    ensures Digits(n) != "" && forall c | c in Digits(n) :: IsDigit(c)
    ensures base == 10 ==> Value(Digits(n), base) == n
    ensures base > 10 ==> Value(Digits(n), base) >= n && (Value(Digits(n), base) == n <==> n < 10)
    decreases n
  {
    var last := (n % 10 + '0' as int) as char;
    var front := if n < 10 then "" else Digits(n / 10);
    assert Digits(n) == front + [last];
    if n < 10 {
      ValueAppend("", last, base);
      assert Value("", base) == 0;
      assert 0 * base == 0;
    } else {
      DigitsValue(n / 10, base);
      ValueAppend(front, last, base);
      hide Digits, Value;
      if base > 10 {
        Bigger(Value(front, base), n / 10, base);
      }
    }
  }

  lemma Bigger(v: nat, w: nat, base: nat)
    requires v >= w > 0 && base > 10
    ensures v * base > w * 10
  {
    assert v * base >= w * base && w * base == w * 10 + w * (base - 10);
    assert w * (base - 10) > 0;
  }

  lemma DecimalInjective(a: int, b: int)
    ensures Decimal(a) == Decimal(b) <==> a == b
  {
    DigitsValue(if a < 0 then -a else a, 10);
    DigitsValue(if b < 0 then -b else b, 10);
    var x, y := Digits(if a < 0 then -a else a), Digits(if b < 0 then -b else b);
    assert x[0] in x && y[0] in y;
    if a < 0 {
      assert Decimal(a)[1..] == x;
    }
    if b < 0 {
      assert Decimal(b)[1..] == y;
    }
  }

  /** The integer a word is, if it is one: digits, perhaps behind a minus sign. */
  function IntegerOf(word: string): Option<int> {
    var negative := word != "" && word[0] == '-';
    var digits := if negative then word[1..] else word;
    if digits == "" || exists c | c in digits :: !IsDigit(c) then None
    else
      var value: int := Value(digits, 10);
      Some(if negative then -value else value)
  }

  lemma IntegerOfDigits(digits: string, negative: bool)
    requires digits != "" && forall c | c in digits :: IsDigit(c)
    ensures IntegerOf(if negative then "-" + digits else digits)
         == Some(if negative then -(Value(digits, 10) as int) else Value(digits, 10))
  {
    assert digits[0] in digits;
    assert negative ==> ("-" + digits)[1..] == digits;
    hide Value;
  }

  lemma IntegerOfDecimal(n: int)
    ensures IntegerOf(Decimal(n)) == Some(n)
  {
    DigitsValue(if n < 0 then -n else n, 10);
    hide Digits, Value, IntegerOf;
    IntegerOfDigits(Digits(if n < 0 then -n else n), n < 0);
  }

  lemma ShortDigits(n: nat)
    ensures n < 10 ==> |Digits(n)| == 1
  {
  }
}
