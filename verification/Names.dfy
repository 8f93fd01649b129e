/** Connection names: the server's name, a colon and a running number in decimal. */
module Names {

  function Decimal(n: nat): (s: string)
    ensures s != ""
  {
    if n < 10 then ["0123456789"[n]] else Decimal(n / 10) + ["0123456789"[n % 10]]
  }

  function ConnName(base: string, id: nat): string {
    base + ":" + Decimal(id)
  }

  lemma DigitInjective(a: nat, b: nat)
    requires a < 10 && b < 10 && "0123456789"[a] == "0123456789"[b]
    ensures a == b
  {
    assert "0123456789" == ['0', '1', '2', '3', '4', '5', '6', '7', '8', '9'];
  }

  lemma {:induction false} DecimalInjective(a: nat, b: nat)
    requires Decimal(a) == Decimal(b)
    ensures a == b
  {
    var s, t := Decimal(a), Decimal(b);
    assert s[|s| - 1] == "0123456789"[a % 10] && t[|t| - 1] == "0123456789"[b % 10];
    DigitInjective(a % 10, b % 10);
    if a >= 10 && b >= 10 {
      assert s[..|s| - 1] == Decimal(a / 10) && t[..|t| - 1] == Decimal(b / 10);
      DecimalInjective(a / 10, b / 10);
    } else {
      assert a < 10 ==> |s| == 1;
      assert b < 10 ==> |t| == 1;
    }
  }

  /** Different numbers give different names. */
  lemma NamesDiffer(base: string, i: nat, j: nat)
    ensures ConnName(base, i) == ConnName(base, j) <==> i == j
  {
    var p := base + ":";
    if ConnName(base, i) == ConnName(base, j) {
      assert (p + Decimal(i))[|p|..] == Decimal(i) && (p + Decimal(j))[|p|..] == Decimal(j);
      DecimalInjective(i, j);
    }
  }

  /** The number that a text of digits stands for. */
  function Value(s: string): int {
    if s == "" then 0 else Value(s[..|s| - 1]) * 10 + (s[|s| - 1] as int - '0' as int)
  }

  lemma DigitValue(n: nat)
    requires n < 10
    ensures "0123456789"[n] as int - '0' as int == n
  {
    assert "0123456789" == ['0', '1', '2', '3', '4', '5', '6', '7', '8', '9'];
  }

  /** The text is the number's, most significant digit first and without leading zeros. */
  lemma {:induction false} DecimalIs(n: nat)
    ensures Value(Decimal(n)) == n && (Decimal(n)[0] == '0' <==> n == 0)
  {
    var s := Decimal(n);
    DigitValue(n % 10);
    if n < 10 {
      assert s[..0] == "";
    } else {
      DecimalIs(n / 10);
      assert s[..|s| - 1] == Decimal(n / 10);
    }
  }

  /** The server's name, a colon, and the number. */
  lemma NameFormat(base: string, id: nat)
    ensures var s := ConnName(base, id);
      && |s| > |base| + 1 && s[..|base|] == base && s[|base|] == ':'
      && Value(s[|base| + 1..]) == id && (s[|base| + 1] == '0' <==> id == 0)
  {
    var s := ConnName(base, id);
    assert s == (base + ":") + Decimal(id);
    assert s[|base| + 1..] == Decimal(id);
    DecimalIs(id);
  }
}
