/** The hexadecimal printer for 32-bit ints. */
module Hex {

  import opened Common

  type Int32 = n: int | -0x8000_0000 <= n < 0x8000_0000

  const HEX: string := "0123456789abcdef"

  function Digit(c: char): int {
    if '0' <= c <= '9' then c as int - '0' as int
    else if 'a' <= c <= 'f' then c as int - 'a' as int + 10
    else -1
  }

  predicate IsHex(s: string) {
    forall i :: 0 <= i < |s| ==> 0 <= Digit(s[i])
  }

  /** The number a text in hexadecimal stands for. */
  function Value(s: string): int {
    if s == "" then 0 else Value(s[..|s| - 1]) * 16 + Digit(s[|s| - 1])
  }

  function Pow16(k: nat): (p: nat)
    ensures p > 0
  {
    if k == 0 then 1 else 16 * Pow16(k - 1)
  }

  /** The text is the shortest one for num modulo 2 to the 32. */
  predicate Prints(num: Int32, s: string) {
    && s != "" && IsHex(s)
    && Value(s) == num % TWO_32
    && (s[0] == '0' ==> s == "0")
  }

  lemma {:induction false} ValueCons(c: char, s: string)
    ensures Value([c] + s) == Digit(c) * Pow16(|s|) + Value(s)
  {
    var t := [c] + s;
    if s == "" {
      assert t[..|t| - 1] == "";
    } else {
      ValueCons(c, s[..|s| - 1]);
      assert t[..|t| - 1] == [c] + s[..|s| - 1];
      assert Digit(c) * Pow16(|s|) == Digit(c) * Pow16(|s| - 1) * 16;
    }
  }

  lemma {:induction false} ValueBound(s: string)
    requires IsHex(s)
    ensures 0 <= Value(s) < Pow16(|s|)
  {
    if s != "" {
      ValueBound(s[..|s| - 1]);
    }
  }

  lemma DigitOfHex(n: nat)
    requires n < 16
    ensures Digit(HEX[n]) == n && (HEX[n] == '0' <==> n == 0)
  {
    assert HEX == ['0', '1', '2', '3', '4', '5', '6', '7', '8', '9', 'a', 'b', 'c', 'd', 'e', 'f'];
  }

  /** k digits have been taken off num, leaving rest; result spells them. */
  ghost predicate Partial(num: int, rest: int, result: string, k: nat) {
    && |result| == k && IsHex(result)
    && num == rest * Pow16(k) + Value(result)
  }

  /** One more digit. */
  lemma NextDigit(num: int, rest: int, result: string, k: nat)
    requires Partial(num, rest, result, k)
    ensures Partial(num, rest / 16, [HEX[rest % 16]] + result, k + 1)
  {
    var d := rest % 16;
    DigitOfHex(d);
    ValueCons(HEX[d], result);
    assert rest == rest / 16 * 16 + d;
    Distribute(rest / 16, d, Pow16(k));
  }

  lemma Distribute(q: int, d: int, p: nat)
    ensures (q * 16 + d) * p == q * (16 * p) + d * p
  {
  }

  lemma Pow16Of8()
    ensures Pow16(7) == 0x1000_0000 && Pow16(8) == TWO_32
  {
    assert Pow16(4) == 0x1_0000;
  }

  /** Nothing is left of a number after seven digits but its sign and one digit. */
  lemma SevenDigits(num: Int32, rest: int, result: string)
    requires Partial(num, rest, result, 7)
    ensures -8 <= rest < 8
  {
    Pow16Of8();
    ValueBound(result);
  }

  /** The digit that turns out to be the first one is not zero. */
  lemma LeadingDigit(num: Int32, rest: int, result: string, k: nat)
    requires Partial(num, rest, result, k) && rest != 0 && k < 8
    ensures rest / 16 == 0 || k == 7 ==> HEX[rest % 16] != '0'
  {
    DigitOfHex(rest % 16);
    if k == 7 {
      SevenDigits(num, rest, result);
    }
  }

  method ToHex(num0: Int32) returns (result: string)
    ensures Prints(num0, result)
    ensures num0 < 0 ==> |result| == 8
    ensures |result| <= 8
  {
    if num0 == 0 {
      assert Digit('0') == 0 && "0"[..0] == "";
      return "0";
    }
    result := "";
    var num: int, count := num0, 0;
    while num != 0 && count < 8
      invariant count <= 8 && Partial(num0, num, result, count)
      invariant count < 8 && num0 < 0 ==> num < 0
      invariant num0 > 0 ==> num >= 0
      invariant num == 0 || count == 8 ==> result != "" && result[0] != '0'
      decreases 8 - count
    {
      NextDigit(num0, num, result, count);
      LeadingDigit(num0, num, result, count);
      count := count + 1;
      result := [HEX[num % 16]] + result;
      num := num / 16;
    }
    ValueBound(result);
    Pow16Of8();
  }

  // ----------------------------------------------------------- injectivity

  lemma {:induction false} ValueLow(s: string)
    requires IsHex(s) && s != "" && s[0] != '0'
    ensures Value(s) >= Pow16(|s| - 1)
  {
    if |s| > 1 {
      ValueLow(s[..|s| - 1]);
    } else {
      assert s[..0] == "";
    }
  }

  lemma {:induction false} ValueInjective(s: string, t: string)
    requires IsHex(s) && IsHex(t) && |s| == |t| && Value(s) == Value(t)
    ensures s == t
  {
    if s != "" {
      var s', t' := s[..|s| - 1], t[..|t| - 1];
      LastDigit(Value(s'), s[|s| - 1], Value(t'), t[|t| - 1]);
      ValueInjective(s', t');
      assert s == s' + [s[|s| - 1]] && t == t' + [t[|t| - 1]];
    }
  }

  lemma LastDigit(a: int, c: char, b: int, d: char)
    requires 0 <= Digit(c) && 0 <= Digit(d) && a * 16 + Digit(c) == b * 16 + Digit(d)
    ensures a == b && c == d
  {
    assert Digit(c) < 16 && Digit(d) < 16;
    assert 16 * (a - b) == Digit(d) - Digit(c);
  }

  lemma {:induction false} Pow16Grows(a: nat, b: nat)
    requires a <= b
    ensures Pow16(a) <= Pow16(b)
    decreases b
  {
    if a < b {
      Pow16Grows(a, b - 1);
    }
  }

  lemma SameLength(s: string, t: string)
    requires IsHex(s) && IsHex(t) && s != "" && Value(s) == Value(t)
    requires s[0] != '0'
    ensures |s| <= |t|
  {
    ValueLow(s);
    ValueBound(t);
    Pow16Grows(if |t| < |s| then |t| else |s| - 1, |s| - 1);
  }

  lemma ZeroOnly(s: string)
    requires IsHex(s) && s != "" && (s[0] == '0' ==> s == "0")
    ensures s[0] == '0' <==> Value(s) == 0
  {
    assert "0"[..0] == "";
    if s[0] != '0' {
      ValueLow(s);
    }
  }

  /** Exactly one text prints a number, and a text prints exactly one 32-bit int: printing can be undone. */
  lemma PrintsInjective(m: Int32, n: Int32, s: string, t: string)
    requires Prints(m, s) && Prints(n, t)
    ensures s == t <==> m == n
  {
    if m == n {
      ZeroOnly(s);
      ZeroOnly(t);
      if s[0] != '0' {
        SameLength(s, t);
        SameLength(t, s);
        ValueInjective(s, t);
      }
    }
  }
}
