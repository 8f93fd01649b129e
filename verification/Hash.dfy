/**
 The hash functions and the hexadecimal printer. `unsigned long` has 64 bits,
 `char` is signed, and `int` has 32 bits with an arithmetic right shift.
 */
module Hash {
  import opened Common
  import opened Bits

  const TWO_64: nat := 0x1_0000_0000_0000_0000
  const PRIME: nat := 16777619
  const OFFSET_BASIS: nat := 2166136261

  type Char = c: int | -128 <= c < 128

  /** A signed char converted to a 64-bit or a 32-bit unsigned number. */
  function Widen64(c: Char): nat {
    if c >= 0 then c else c + TWO_64
  }

  function Widen32(c: Char): nat {
    if c >= 0 then c else c + TWO_32
  }

  /** A left shift of a 64-bit number. */
  function Shl(h: nat, factor: nat): nat {
    h * factor % TWO_64
  }

  lemma Pow2Of32()
    ensures Pow2(32) == TWO_32
  {
    assert Pow2(8) == 0x100;
    assert Pow2(16) == 0x1_0000;
    assert Pow2(24) == 0x100_0000;
  }

  lemma Pow2Of64()
    ensures Pow2(64) == TWO_64
  {
    Pow2Of32();
    assert Pow2(40) == 0x100_0000_0000;
    assert Pow2(48) == 0x1_0000_0000_0000;
    assert Pow2(56) == 0x100_0000_0000_0000;
  }

  // -------------------------------------------------------------------- FNV

  /** One byte as the comment beside the code has it: multiply by the prime, then exclusive-or the widened char. */
  function Step(h: nat, c: Char): nat {
    Xor(h * PRIME % TWO_32, Widen32(c))
  }

  function Fold(s: seq<Char>): nat {
    if s == [] then OFFSET_BASIS else Step(Fold(s[..|s| - 1]), s[|s| - 1])
  }

  /** The sum that `FNV_OP` adds to the accumulator, and the accumulator it leaves. */
  function ShiftAdd(h: nat): nat {
    (h + (Shl(h, 0x2) + Shl(h, 0x10) + Shl(h, 0x80) + Shl(h, 0x100) + Shl(h, 0x100_0000))) % TWO_64
  }

  lemma ModTwo64(x: nat, q: int, r: nat)
    requires x == TWO_64 * q + r && r < TWO_64
    ensures x % TWO_64 == r
  {
  }

  /** The shifts and additions multiply by the prime, on 64 bits and hence on the low 32. */
  lemma ShiftAddIsProduct(h: nat)
    ensures ShiftAdd(h) == h * PRIME % TWO_64
    ensures ShiftAdd(h) % TWO_32 == h % TWO_32 * PRIME % TWO_32
  {
    var q1, q4, q7 := h * 0x2 / TWO_64, h * 0x10 / TWO_64, h * 0x80 / TWO_64;
    var q8, q24 := h * 0x100 / TWO_64, h * 0x100_0000 / TWO_64;
    var sum := h + (Shl(h, 0x2) + Shl(h, 0x10) + Shl(h, 0x80) + Shl(h, 0x100) + Shl(h, 0x100_0000));
    assert sum + TWO_64 * (q1 + q4 + q7 + q8 + q24) == h * PRIME;
    ModTwo64(h * PRIME, sum / TWO_64 + (q1 + q4 + q7 + q8 + q24), sum % TWO_64);
    LowOfLow(h * PRIME);
    LowOfProduct(h);
  }

  lemma ModTwo32(x: nat, q: int, r: nat)
    requires x == TWO_32 * q + r && r < TWO_32
    ensures x % TWO_32 == r
  {
  }

  /** Reducing to 64 bits first does not change the low 32. */
  lemma LowOfLow(x: nat)
    ensures x % TWO_64 % TWO_32 == x % TWO_32
  {
    var r := x % TWO_64;
    ModTwo32(x, TWO_32 * (x / TWO_64) + r / TWO_32, r % TWO_32);
  }

  /** Reducing a factor first does not change the low 32 bits of a product by the prime. */
  lemma LowOfProduct(h: nat)
    ensures h * PRIME % TWO_32 == h % TWO_32 * PRIME % TWO_32
  {
    var r := h % TWO_32 * PRIME;
    ModTwo32(h * PRIME, h / TWO_32 * PRIME + r / TWO_32, r % TWO_32);
  }

  /** `FNV_OP`, on 64 bits by shifts and additions; its low half is one step of the 32-bit hash. */
  method FnvOp(hash: nat, c: Char) returns (h: nat)
    requires hash < TWO_64
    ensures h < TWO_64 && h % TWO_32 == Step(hash % TWO_32, c)
  {
    h := (hash + (Shl(hash, 0x2) + Shl(hash, 0x10) + Shl(hash, 0x80) + Shl(hash, 0x100) + Shl(hash, 0x100_0000)))
         % TWO_64;
    ShiftAddIsProduct(hash);
    XorIsStep(hash % TWO_32, h, c);
    h := Xor(h, Widen64(c));
  }

  lemma WidenAgrees(c: Char)
    ensures Widen64(c) < TWO_64 && Widen64(c) % TWO_32 == Widen32(c)
  {
    ModTwo32(Widen64(c), if c >= 0 then 0 else TWO_32 - 1, Widen32(c));
  }

  lemma XorIsStep(low: nat, x: nat, c: Char)
    requires x < TWO_64 && x % TWO_32 == low * PRIME % TWO_32
    ensures Xor(x, Widen64(c)) < TWO_64 && Xor(x, Widen64(c)) % TWO_32 == Step(low, c)
  {
    WidenAgrees(c);
    XorLow64(x, Widen64(c));
  }

  lemma XorLow64(a: nat, b: nat)
    requires a < TWO_64 && b < TWO_64
    ensures Xor(a, b) < TWO_64 && Xor(a, b) % TWO_32 == Xor(a % TWO_32, b % TWO_32)
  {
    Pow2Of32();
    Pow2Of64();
    XorLow(a, b, 32);
    XorBound(a, b, 64);
  }

  /** The low half of the accumulator is the hash of the first n characters. */
  ghost predicate Hashed(hash: nat, s: seq<Char>, n: int) {
    0 <= n <= |s| && hash < TWO_64 && hash % TWO_32 == Fold(s[..n])
  }

  method Consume(hash: nat, s: seq<Char>, n: int) returns (h: nat)
    requires Hashed(hash, s, n) && n < |s|
    ensures Hashed(h, s, n + 1)
  {
    assert s[..n + 1][..n] == s[..n];
    h := FnvOp(hash, s[n]);
  }

  /** The unrolled body. */
  method ConsumeEight(hash: nat, s: seq<Char>, n: int) returns (h: nat)
    requires Hashed(hash, s, n) && n + 8 <= |s|
    ensures Hashed(h, s, n + 8)
  {
    h := Consume(hash, s, n);
    h := Consume(h, s, n + 1);
    h := Consume(h, s, n + 2);
    h := Consume(h, s, n + 3);
    h := Consume(h, s, n + 4);
    h := Consume(h, s, n + 5);
    h := Consume(h, s, n + 6);
    h := Consume(h, s, n + 7);
  }

  /** The switch: from the case of `rest` all further cases fall through. */
  method ConsumeRest(hash: nat, s: seq<Char>, n: int, rest: int) returns (h: nat)
    requires Hashed(hash, s, n) && 0 <= rest < 8 && n + rest == |s|
    ensures Hashed(h, s, |s|)
  {
    h := hash;
    if rest >= 7 { h := Consume(h, s, |s| - 7); }
    assert Hashed(h, s, |s| - if rest < 6 then rest else 6);
    if rest >= 6 { h := Consume(h, s, |s| - 6); }
    assert Hashed(h, s, |s| - if rest < 5 then rest else 5);
    if rest >= 5 { h := Consume(h, s, |s| - 5); }
    assert Hashed(h, s, |s| - if rest < 4 then rest else 4);
    if rest >= 4 { h := Consume(h, s, |s| - 4); }
    assert Hashed(h, s, |s| - if rest < 3 then rest else 3);
    if rest >= 3 { h := Consume(h, s, |s| - 3); }
    assert Hashed(h, s, |s| - if rest < 2 then rest else 2);
    if rest >= 2 { h := Consume(h, s, |s| - 2); }
    assert Hashed(h, s, |s| - if rest < 1 then rest else 1);
    if rest >= 1 { h := Consume(h, s, |s| - 1); }
  }

  /** Eight characters at a time, then the switch, which has no case for a negative length. */
  method FnvHash(str: seq<Char>, len: int) returns (h: nat)
    requires len <= |str|
    ensures h == Fold(str[..if len < 0 then 0 else len])
  {
    var s := str[..if len < 0 then 0 else len];
    var hash: nat, rest, i := OFFSET_BASIS, len, 0;
    while rest >= 8
      invariant Hashed(hash, s, i)
      invariant len >= 0 ==> i + rest == |s| && rest >= 0
      invariant len < 0 ==> i == 0 && rest < 0
    {
      hash := ConsumeEight(hash, s, i);
      rest, i := rest - 8, i + 8;
    }
    if 0 <= rest {
      hash := ConsumeRest(hash, s, i, rest);
    }
    assert s[..|s|] == s;
    h := hash % TWO_32;
  }

  // -------------------------------------------------------------------- PJW

  /** `h & 0xF0000000` */
  function HighNibble(h: nat): nat {
    h / 0x1000_0000 % 16 * 0x1000_0000
  }

  /** The top nibble of the low 32 bits, if any, goes into bits 4 to 7 and is cleared. */
  function FoldBack(x: nat): nat {
    var g := HighNibble(x);
    if g != 0 then Xor(Xor(x, g / 0x100_0000), g) else x
  }

  function PjwSum(h: nat, c: Char, width: nat): nat
    requires width >= 128
  {
    (h * 16 % width + (if c >= 0 then c else c + width)) % width
  }

  /** One character of the hash on unsigned numbers below `width`. */
  function PjwStep(h: nat, c: Char, width: nat): nat
    requires width >= 128
  {
    FoldBack(PjwSum(h, c, width))
  }

  function Pjw(s: seq<Char>, width: nat): nat
    requires width >= 128
  {
    if s == [] then 0 else PjwStep(Pjw(s[..|s| - 1], width), s[|s| - 1], width)
  }

  lemma PjwNext(s: seq<Char>, i: nat)
    requires i < |s|
    ensures Pjw(s[..i + 1], TWO_64) == FoldBack((Shl(Pjw(s[..i], TWO_64), 16) + Widen64(s[i])) % TWO_64)
  {
    assert s[..i + 1][..i] == s[..i];
  }

  method HashPjw(s: seq<Char>) returns (h: nat)
    ensures h == Pjw(s, TWO_64)
  {
    h := 0;
    for i := 0 to |s|
      invariant h == Pjw(s[..i], TWO_64)
    {
      PjwNext(s, i);
      h := (Shl(h, 16) + Widen64(s[i])) % TWO_64;
      var g := HighNibble(h);
      if g != 0 {
        h := Xor(h, g / 0x100_0000);
        h := Xor(h, g);
      }
    }
    assert s[..|s|] == s;
  }

  lemma NibbleOfLow(x: nat)
    ensures HighNibble(x % TWO_32) == HighNibble(x)
  {
    var r := x % TWO_32;
    assert x / 0x1000_0000 == x / TWO_32 * 16 + r / 0x1000_0000;
  }

  lemma Pow2Of28()
    ensures Pow2(28) == 0x1000_0000 && Pow2(4) == 16
  {
    assert Pow2(8) == 0x100;
    assert Pow2(16) == 0x1_0000;
    assert Pow2(24) == 0x100_0000;
  }

  lemma XorAbove28(a: nat, b: nat)
    ensures Xor(a, b) / 0x1000_0000 == Xor(a / 0x1000_0000, b / 0x1000_0000)
  {
    Pow2Of28();
    HighIsDivision(a, 28);
    HighIsDivision(b, 28);
    HighIsDivision(Xor(a, b), 28);
    XorHigh(a, b, 28);
  }

  lemma XorAbove32(a: nat, b: nat)
    ensures Xor(a, b) / TWO_32 == Xor(a / TWO_32, b / TWO_32)
  {
    Pow2Of32();
    HighIsDivision(a, 32);
    HighIsDivision(b, 32);
    HighIsDivision(Xor(a, b), 32);
    XorHigh(a, b, 32);
  }

  lemma XorNibble(a: nat, b: nat, c: nat, d: nat)
    requires c == a % 16 && d == b % 16
    ensures Xor(a, b) % 16 == Xor(c, d)
  {
    Pow2Of28();
    XorLow(a, b, 4);
  }

  lemma NibbleOut(x: nat, t: nat)
    requires t == x % 16
    ensures Xor(x, t) % 16 == 0
  {
    assert t == t % 16;
    XorSelf(t);
    XorNibble(x, t, t, t);
  }

  /** Masks a, below bit 28, and then b, with bits 28 to 31 as in x, clear those bits. */
  lemma NibbleCleared(x: nat, a: nat, b: nat)
    requires a / 0x1000_0000 == 0 && b / 0x1000_0000 == x / 0x1000_0000 % 16
    ensures Xor(Xor(x, a), b) / 0x1000_0000 % 16 == 0
  {
    var h, t := x / 0x1000_0000, b / 0x1000_0000;
    XorAbove28(x, a);
    XorZero(h);
    XorAbove28(Xor(x, a), b);
    NibbleOut(h, t);
  }

  lemma MaskLow(x: nat, m: nat)
    requires x < TWO_64 && m < TWO_32
    ensures Xor(x, m) < TWO_64 && Xor(x, m) % TWO_32 == Xor(x % TWO_32, m)
  {
    assert m % TWO_32 == m;
    XorLow64(x, m);
  }

  lemma MasksLow(x: nat, a: nat, b: nat, y: nat)
    requires x < TWO_64 && a < TWO_32 && b < TWO_32 && y == Xor(x, a)
    ensures Xor(y, b) < TWO_64 && Xor(y, b) % TWO_32 == Xor(Xor(x % TWO_32, a), b)
  {
    MaskLow(x, a);
    MaskLow(y, b);
  }

  lemma NibbleMasks(t: nat)
    requires t < 16
    ensures t * 16 / 0x1000_0000 == 0 && t * 0x1000_0000 / 0x1000_0000 == t
    ensures t * 0x1000_0000 / 0x100_0000 == t * 16 && t * 0x1000_0000 % TWO_32 == t * 0x1000_0000
    ensures t * 16 / TWO_32 == 0 && t * 0x1000_0000 / TWO_32 == 0
  {
  }

  lemma FoldBackLow(x: nat)
    requires x < TWO_64
    ensures FoldBack(x) < TWO_64 && FoldBack(x) % TWO_32 == FoldBack(x % TWO_32)
    ensures HighNibble(FoldBack(x)) == 0
  {
    var t := x / 0x1000_0000 % 16;
    NibbleMasks(t);
    NibbleOfLow(x);
    NibbleCleared(x, t * 16, t * 0x1000_0000);
    MasksLow(x, t * 16, t * 0x1000_0000, Xor(x, t * 16));
  }

  /** Folding back does not touch the bits above bit 31. */
  lemma FoldBackHigh(x: nat)
    ensures FoldBack(x) / TWO_32 == x / TWO_32
  {
    var t := x / 0x1000_0000 % 16;
    var a, b := t * 16, t * 0x1000_0000;
    NibbleMasks(t);
    XorAbove32(x, a);
    XorAbove32(Xor(x, a), b);
    XorZero(x / TWO_32);
  }

  lemma PjwStepLow(h: nat, c: Char)
    ensures PjwStep(h, c, TWO_64) < TWO_64
    ensures PjwStep(h, c, TWO_64) % TWO_32 == PjwStep(h % TWO_32, c, TWO_32)
    ensures HighNibble(PjwStep(h, c, TWO_64)) == 0
  {
    PjwSumLow(h, c);
    FoldBackLow(PjwSum(h, c, TWO_64));
  }

  lemma PjwSumLow(h: nat, c: Char)
    ensures PjwSum(h, c, TWO_64) < TWO_64
    ensures PjwSum(h, c, TWO_64) % TWO_32 == PjwSum(h % TWO_32, c, TWO_32)
  {
    var x, r := h * 16 % TWO_64 + Widen64(c), h % TWO_32 * 16;
    LowOfLow(x);
    var q64, q32 := h * 16 / TWO_64, r / TWO_32;
    var carry := if c >= 0 then 0 else TWO_32 - 1;
    assert h == h / TWO_32 * TWO_32 + h % TWO_32;
    assert x == TWO_32 * (h / TWO_32 * 16 - q64 * TWO_32 + q32 + carry) + (r % TWO_32 + Widen32(c));
    var y := r % TWO_32 + Widen32(c);
    ModTwo32(x, h / TWO_32 * 16 - q64 * TWO_32 + q32 + carry + y / TWO_32, y % TWO_32);
  }

  /**
   The hash does not depend on the width of the accumulator, as far as its low
   32 bits go, and bits 28 to 31 are clear after every character.
   */
  lemma {:induction false} PjwWidthIndependent(s: seq<Char>)
    ensures Pjw(s, TWO_64) < TWO_64 && HighNibble(Pjw(s, TWO_64)) == 0
    ensures Pjw(s, TWO_64) % TWO_32 == Pjw(s, TWO_32)
  {
    if s != [] {
      PjwWidthIndependent(s[..|s| - 1]);
      PjwStepLow(Pjw(s[..|s| - 1], TWO_64), s[|s| - 1]);
    }
  }

  lemma PjwHigh(h: nat, c: Char)
    requires h == 0 && c < 0
    ensures PjwStep(h, c, TWO_64) >= TWO_32
  {
    var x := PjwSum(h, c, TWO_64);
    assert x == c + TWO_64;
    FoldBackHigh(x);
  }

  /** The full 64 bits do depend on it: a single char above 127 sets bits above bit 31. */
  lemma PjwCarries(c: Char)
    requires c < 0
    ensures Pjw([c], TWO_64) >= TWO_32
  {
    assert [c][..0] == [];
    PjwHigh(Pjw([], TWO_64), c);
  }
}
