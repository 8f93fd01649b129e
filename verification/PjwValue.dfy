/** What the PJW hash is, digit by digit in hexadecimal. */
module PjwValue {
  import opened Common
  import opened Bits
  import opened Hash

  /** A digit t in bits 4 to 7 changes digit 1. */
  lemma LowMask(x: nat, t: nat, y: nat)
    requires t < 16 && y == Xor(x, t * 16)
    ensures y % 16 == x % 16 && y / 16 % 16 == Xor(x / 16 % 16, t) && y / 256 == x / 256
  {
    MaskAt4(x, t * 16, t, y, x / 16, x % 16);
    MaskDigit(x / 16, t, y / 16, x / 16 / 16, x / 16 % 16);
    assert y / 256 == y / 16 / 16 && x / 256 == x / 16 / 16;
  }

  lemma MaskAt4(x: nat, m: nat, t: nat, y: nat, h: nat, l: nat)
    requires y == Xor(x, m) && m == t * 16 && h == x / 16 && l == x % 16
    ensures y % 16 == l && y / 16 == Xor(h, t)
  {
    XorAt4(x, m, y, h, l, t, 0);
    XorZero(l);
  }

  lemma MaskDigit(x: nat, t: nat, y: nat, h: nat, l: nat)
    requires t < 16 && y == Xor(x, t) && h == x / 16 && l == x % 16
    ensures y % 16 == Xor(l, t) && y / 16 == h
  {
    XorAt4(x, t, y, h, l, 0, t);
    XorZero(h);
  }

  /** A digit t in bits 28 to 31 leaves the digits below alone. */
  lemma HighMask(y: nat, t: nat, r: nat)
    requires t < 16 && r == Xor(y, t * 0x1000_0000)
    ensures r % 256 == y % 256 && r / 256 % 0x10_0000 == y / 256 % 0x10_0000
  {
    var h, l, m := y / 256, y % 256, t * 0x10_0000;
    XorAt8(y, t * 0x1000_0000, r, h, l, m, 0);
    XorZero(l);
    XorAt20(h, m, r / 256, h / 0x10_0000, h % 0x10_0000, t, 0);
    XorZero(h % 0x10_0000);
  }

  /**
   Folding back, hexadecimal digit by digit: digit 7 (bits 28 to 31) is cleared
   and exclusive-ored onto digit 1; all others stay.
   */
  lemma FoldBackDigits(x: nat)
    requires x < TWO_64
    ensures var r := FoldBack(x);
      && r % 16 == x % 16
      && r / 16 % 16 == Xor(x / 16 % 16, x / 0x1000_0000 % 16)
      && r / 256 % 0x10_0000 == x / 256 % 0x10_0000
      && r / 0x1000_0000 % 16 == 0
      && r / 0x1_0000_0000 == x / 0x1_0000_0000
  {
    var t := x / 0x1000_0000 % 16;
    FoldBackLow(x);
    FoldBackHigh(x);
    FoldBackIs(x, t);
    Folded(x, t, Xor(x, t * 16), FoldBack(x));
  }

  lemma FoldBackIs(x: nat, t: nat)
    requires t == x / 0x1000_0000 % 16
    ensures FoldBack(x) == Xor(Xor(x, t * 16), t * 0x1000_0000)
  {
    NibbleMasks(t);
    XorZero(x);
  }

  lemma Folded(x: nat, t: nat, y: nat, r: nat)
    requires t < 16 && y == Xor(x, t * 16) && r == Xor(y, t * 0x1000_0000)
    ensures r % 16 == x % 16 && r / 16 % 16 == Xor(x / 16 % 16, t)
    ensures r / 256 % 0x10_0000 == x / 256 % 0x10_0000
  {
    LowMask(x, t, y);
    HighMask(y, t, r);
    TwoDigits(r);
    TwoDigits(y);
  }

  lemma TwoDigits(x: nat)
    ensures x % 16 == x % 256 % 16 && x / 16 % 16 == x % 256 / 16
  {
    var d := x % 256;
    DivModUnique(x, 16, 16 * (x / 256) + d / 16, d % 16);
    DivModUnique(x / 16, 16, x / 256, d / 16);
  }

  /** A number below 2 to the 64 from these digits. */
  lemma FromDigits(r: nat, low: nat, one: nat, middle: nat, high: nat)
    requires r % 16 == low && r / 16 % 16 == one && r / 256 % 0x10_0000 == middle
    requires r / 0x1000_0000 % 16 == 0 && r / 0x1_0000_0000 == high
    ensures r == high * 0x1_0000_0000 + middle * 256 + one * 16 + low
  {
    Divisions(r);
    var a, b, c := r / 16, r / 256, r / 0x1000_0000;
    assert r == 16 * a + low && a == 16 * b + one;
    assert b == 0x10_0000 * c + middle && c == 16 * high;
  }

  lemma Divisions(r: nat)
    ensures r / 256 == r / 16 / 16 && r / 0x1000_0000 == r / 256 / 0x10_0000
    ensures r / 0x1_0000_0000 == r / 0x1000_0000 / 16
  {
    var a, b, c := r / 16, r / 256, r / 0x1000_0000;
    DivModUnique(r, 256, a / 16, a % 16 * 16 + r % 16);
    DivModUnique(r, 0x1000_0000, b / 0x10_0000, b % 0x10_0000 * 256 + r % 256);
    DivModUnique(r, 0x1_0000_0000, c / 16, c % 16 * 0x1000_0000 + r % 0x1000_0000);
  }

  lemma SumIs(h: nat, c: Char)
    ensures PjwSum(h, c, TWO_64) == (h * 16 + c) % TWO_64
  {
    var x, y := h * 16 % TWO_64 + Widen64(c), h * 16 + c;
    var q := h * 16 / TWO_64 - if c >= 0 then 0 else 1;
    assert y == x + TWO_64 * q;
    var r := x % TWO_64;
    assert y == TWO_64 * (x / TWO_64 + q) + r;
    SameRemainder(y, x / TWO_64 + q, r);
  }

  lemma SameRemainder(y: int, q: int, r: nat)
    requires y == TWO_64 * q + r && r < TWO_64
    ensures y % TWO_64 == r
  {
  }

  /**
   One char, for every accumulator: shift by a digit and add the char on 64
   bits, then clear digit 7 and exclusive-or it onto digit 1.
   */
  lemma OneChar(h: nat, c: Char)
    ensures var x, r := (h * 16 + c) % 0x1_0000_0000_0000_0000, PjwStep(h, c, TWO_64);
      r == x / 0x1_0000_0000 * 0x1_0000_0000 + x / 256 % 0x10_0000 * 256
           + Xor(x / 16 % 16, x / 0x1000_0000 % 16) * 16 + x % 16
  {
    var x := (h * 16 + c) % TWO_64;
    OneCharIs(h, c, x, x / 16 % 16, x / 0x1000_0000 % 16, Xor(x / 16 % 16, x / 0x1000_0000 % 16));
  }

  lemma OneCharIs(h: nat, c: Char, x: nat, one: nat, seven: nat, z: nat)
    requires x == (h * 16 + c) % TWO_64
    requires one == x / 16 % 16 && seven == x / 0x1000_0000 % 16 && z == Xor(one, seven)
    ensures PjwStep(h, c, TWO_64)
         == x / 0x1_0000_0000 * 0x1_0000_0000 + x / 256 % 0x10_0000 * 256 + z * 16 + x % 16
  {
    SumIs(h, c);
    FoldBackDigits(x);
    FromDigits(FoldBack(x), x % 16, z, x / 256 % 0x10_0000, x / 0x1_0000_0000);
  }

  /** The chars as digits of a number in base 16, first char first. */
  function Base16(s: seq<Char>): int {
    if s == [] then 0 else Base16(s[..|s| - 1]) * 16 + s[|s| - 1]
  }

  /** The largest such number of k chars. */
  function Most(k: nat): nat {
    if k == 0 then 0 else Most(k - 1) * 16 + 127
  }

  /** A char that brings nothing into digit 7 is just added. */
  lemma NoFold(h: nat, c: Char)
    requires c >= 0 && h * 16 + c < 0x1000_0000
    ensures PjwStep(h, c, TWO_64) == h * 16 + c
  {
    var x := h * 16 + c;
    assert PjwSum(h, c, TWO_64) == x;
    assert HighNibble(x) == 0;
  }

  /** Up to six 7-bit chars are just that number. */
  lemma {:induction false} ShortText(s: seq<Char>)
    requires |s| <= 6 && forall i :: 0 <= i < |s| ==> s[i] >= 0
    ensures Pjw(s, TWO_64) == Base16(s) <= Most(|s|)
  {
    if s != [] {
      var front, c := s[..|s| - 1], s[|s| - 1];
      ShortText(front);
      MostGrows(|s|, 6);
      MostOfSix();
      NoFold(Pjw(front, TWO_64), c);
    }
  }

  lemma MostOfSix()
    ensures Most(6) == 142047087
  {
    assert Most(3) == 34671;
  }

  lemma {:induction false} MostGrows(k: nat, n: nat)
    requires k <= n
    ensures Most(k) <= Most(n)
    decreases n
  {
    if k < n {
      MostGrows(k, n - 1);
    }
  }

  /** The seventh char is the first that can reach digit 7: "abcdefg" is folded. */
  lemma SevenChars(s: seq<Char>)
    requires s == [97, 98, 99, 100, 101, 102, 103]
    ensures Pjw(s, TWO_64) == 0x789_ABA7
  {
    ShortText(s[..6]);
    BaseOfSix(s[..6]);
    SeventhChar(s, Pjw(s[..6], TWO_64) * 16 + 103);
  }

  lemma SeventhChar(s: seq<Char>, x: nat)
    requires |s| == 7 && s[6] == 103 && x == Pjw(s[..6], TWO_64) * 16 + 103
    requires x < 0x1_0000_0000 && x % 16 == 7 && x / 16 % 16 == 12 && x / 0x1000_0000 == 6
    requires x / 256 % 0x10_0000 == 0x7_89AB
    ensures Pjw(s, TWO_64) == 0x789_ABA7
  {
    XorOfDigits(x / 16 % 16, x / 0x1000_0000 % 16);
    SeventhStep(Pjw(s[..6], TWO_64), s[6], x, x / 16 % 16, x / 0x1000_0000 % 16, 10);
    LastChar(s, 6);
  }

  lemma LastChar(s: seq<Char>, k: nat)
    requires |s| == k + 1
    ensures Pjw(s, TWO_64) == PjwStep(Pjw(s[..k], TWO_64), s[k], TWO_64)
  {
  }

  lemma SeventhStep(h: nat, c: Char, x: nat, one: nat, seven: nat, z: nat)
    requires x == h * 16 + c && one == x / 16 % 16 && seven == x / 0x1000_0000 % 16
    requires z == Xor(one, seven) && z == 10
    requires x < 0x1_0000_0000 && x % 16 == 7 && x / 256 % 0x10_0000 == 0x7_89AB
    ensures PjwStep(h, c, TWO_64) == 0x789_ABA7
  {
    assert x == (h * 16 + c) % TWO_64;
    OneCharIs(h, c, x, one, seven, z);
    Collect(x, x / 256 % 0x10_0000, PjwStep(h, c, TWO_64));
  }

  lemma Collect(x: nat, middle: nat, r: nat)
    requires x < 0x1_0000_0000 && x % 16 == 7 && middle == 0x7_89AB
    requires r == x / 0x1_0000_0000 * 0x1_0000_0000 + middle * 256 + 10 * 16 + x % 16
    ensures r == 0x789_ABA7
  {
  }

  lemma BaseOfSix(s: seq<Char>)
    requires s == [97, 98, 99, 100, 101, 102]
    ensures Base16(s) == 0x678_9AB6
  {
    assert s[..5][..4] == s[..4] && s[..4][..3] == s[..3] && s[..3][..2] == s[..2] && s[..2][..1] == s[..1];
    assert s[..1][..0] == [];
    assert Base16(s[..1]) == 97;
    assert Base16(s[..2]) == 97 * 16 + 98;
    assert Base16(s[..3]) == (97 * 16 + 98) * 16 + 99;
    assert Base16(s[..4]) == ((97 * 16 + 98) * 16 + 99) * 16 + 100;
    assert Base16(s[..5]) == (((97 * 16 + 98) * 16 + 99) * 16 + 100) * 16 + 101;
  }

  lemma XorOfDigits(a: nat, b: nat)
    requires a == 12 && b == 6
    ensures Xor(a, b) == 10
  {
    XorZero(1);
    XorFromParts(a / 4, b / 4, 2);
    XorFromParts(a / 2, b / 2, 5);
    XorFromParts(a, b, 10);
  }
}
