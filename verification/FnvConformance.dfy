/**
 Where the hash is 32-bit FNV-1, section 2 of draft-eastlake-fnv, in which the
 byte is unsigned: on 7-bit text, and otherwise only by coincidence.
 */
module FnvConformance {
  import opened Common
  import opened Bits
  import opened Hash

  /** The byte itself. */
  function Octet(c: Char): nat {
    if c >= 0 then c else c + 256
  }

  predicate SevenBit(s: seq<Char>) {
    forall i :: 0 <= i < |s| ==> s[i] >= 0
  }

  function Scaled(h: nat): nat {
    h * PRIME % TWO_32
  }

  function Fnv1(s: seq<Char>): nat {
    if s == [] then OFFSET_BASIS else Xor(Scaled(Fnv1(s[..|s| - 1])), Octet(s[|s| - 1]))
  }

  predicate Conforms(s: seq<Char>) {
    Fold(s) == Fnv1(s)
  }

  lemma {:induction false} FoldBound(s: seq<Char>)
    ensures Fold(s) < TWO_32 && Fnv1(s) < TWO_32
  {
    if s != [] {
      Pow2Of32();
      XorBound(Scaled(Fold(s[..|s| - 1])), Widen32(s[|s| - 1]), 32);
      XorBound(Scaled(Fnv1(s[..|s| - 1])), Octet(s[|s| - 1]), 32);
    }
  }

  // ------------------------------------------------ multiplying by the prime

  /** The inverse of the prime modulo 2 to the 32. */
  const INVERSE: nat := 0x359C_449B

  /** Multiplying by the prime loses nothing. */
  lemma ProductInjective(a: nat, b: nat)
    requires a < TWO_32 && b < TWO_32
    ensures Scaled(a) == Scaled(b) <==> a == b
  {
    if Scaled(a) == Scaled(b) {
      Divided(a - b, a * PRIME / TWO_32 - b * PRIME / TWO_32);
    }
  }

  lemma Divided(d: int, k: int)
    requires d * PRIME == TWO_32 * k
    ensures d % TWO_32 == 0
  {
    assert PRIME * INVERSE == 1 + TWO_32 * 3513497;
    assert d == TWO_32 * (k * INVERSE - d * 3513497);
  }

  // ----------------------------------------------- numbers that mirror each other

  /** Equal in the low byte and different in each of the 24 bits above it. */
  predicate Mirrored(x: nat, y: nat) {
    x % 256 == y % 256 && x / 256 + y / 256 == 0xFF_FFFF
  }

  lemma Pow2Of24()
    ensures Pow2(24) == 0x100_0000
  {
    assert Pow2(8) == 256;
    assert Pow2(16) == 0x1_0000;
  }

  lemma CutAt8(x: nat, y: nat)
    ensures Xor(x, y) % 256 == Xor(x % 256, y % 256) && Xor(x, y) / 256 == Xor(x / 256, y / 256)
  {
    XorAt8(x, y, Xor(x, y), x / 256, x % 256, y / 256, y % 256);
  }

  lemma XorIsZero(x: nat, y: nat)
    ensures Xor(x, y) == 0 <==> x == y
  {
    XorSelf(x);
    XorUndo(y, x);
    XorCommutes(x, y);
    XorZero(x);
    XorCommutes(x, 0);
  }

  lemma MirroredIsXor(x: nat, y: nat)
    requires x < TWO_32 && y < TWO_32
    ensures Mirrored(x, y) <==> Xor(x, y) == 0xFFFF_FF00
  {
    CutAt8(x, y);
    XorIsZero(x % 256, y % 256);
    Pow2Of24();
    XorOnes(x / 256, y / 256, 24);
  }

  lemma SameMask(x: nat, y: nat, w: nat)
    ensures Xor(x, w) == Xor(y, w) <==> x == y
  {
    XorMove(x, w, y, w);
    XorIsZero(x, y);
    XorSelf(w);
  }

  /** Masks that mirror each other make numbers equal exactly if these mirror each other. */
  lemma MirroredMasks(x: nat, y: nat, w: nat, o: nat)
    requires x < TWO_32 && y < TWO_32 && w < TWO_32 && o < TWO_32 && Mirrored(w, o)
    ensures Xor(x, w) == Xor(y, o) <==> Mirrored(x, y)
  {
    XorMove(x, w, y, o);
    MirroredIsXor(x, y);
    MirroredIsXor(w, o);
  }

  // ------------------------------------------------------- the exact condition

  /**
   One char: agreement is carried over by a 7-bit one, and brought about by
   another exactly if the products mirror each other.
   */
  lemma StepConforms(a: nat, b: nat, c: Char)
    requires a < TWO_32 && b < TWO_32
    ensures Step(a, c) == Xor(Scaled(b), Octet(c)) <==> if c >= 0 then a == b else Mirrored(Scaled(a), Scaled(b))
  {
    WidenedMasks(Scaled(a), Scaled(b), c);
    ProductInjective(a, b);
  }

  lemma WidenedMasks(x: nat, y: nat, c: Char)
    requires x < TWO_32 && y < TWO_32
    ensures Xor(x, Widen32(c)) == Xor(y, Octet(c)) <==> if c >= 0 then x == y else Mirrored(x, y)
  {
    if c >= 0 {
      SameMask(x, y, c);
    } else {
      MirroredMasks(x, y, Widen32(c), Octet(c));
    }
  }

  lemma ConformsSnoc(s: seq<Char>, c: Char)
    ensures Conforms(s + [c])
       <==> if c >= 0 then Conforms(s) else Mirrored(Scaled(Fold(s)), Scaled(Fnv1(s)))
  {
    assert (s + [c])[..|s|] == s;
    FoldBound(s);
    StepConforms(Fold(s), Fnv1(s), c);
  }

  /** 7-bit text at the end neither spoils nor repairs anything. */
  lemma {:induction false} SevenBitTail(a: seq<Char>, b: seq<Char>)
    requires SevenBit(b)
    ensures Conforms(a + b) <==> Conforms(a)
  {
    if b == [] {
      assert a + b == a;
    } else {
      var front, c := b[..|b| - 1], b[|b| - 1];
      SevenBitTail(a, front);
      assert a + b == (a + front) + [c];
      ConformsSnoc(a + front, c);
    }
  }

  /** On 7-bit text the function is FNV-1. */
  lemma FnvOnSevenBit(s: seq<Char>)
    requires SevenBit(s)
    ensures Conforms(s)
  {
    SevenBitTail([], s);
    assert [] + s == s;
  }

  /**
   All other text: with c its last char above 127, the function is FNV-1
   exactly if the products before c differ in all bits above the low byte.
   */
  lemma ConformsIff(a: seq<Char>, c: Char, b: seq<Char>)
    requires c < 0 && SevenBit(b)
    ensures Conforms(a + [c] + b) <==> Xor(Scaled(Fold(a)), Scaled(Fnv1(a))) == 0xFFFF_FF00
  {
    SevenBitTail(a + [c], b);
    ConformsSnoc(a, c);
    MirroredIsXor(Scaled(Fold(a)), Scaled(Fnv1(a)));
  }

  /** A single char above 127 makes the result wrong, whatever 7-bit text surrounds it. */
  lemma OneHighChar(s: seq<Char>)
    requires forall i, j :: 0 <= i < j < |s| ==> s[i] >= 0 || s[j] >= 0
    ensures Conforms(s) <==> SevenBit(s)
  {
    if SevenBit(s) {
      FnvOnSevenBit(s);
    } else {
      var i :| 0 <= i < |s| && s[i] < 0;
      assert s == s[..i] + [s[i]] + s[i + 1..];
      FnvOnSevenBit(s[..i]);
      XorSelf(Scaled(Fold(s[..i])));
      ConformsIff(s[..i], s[i], s[i + 1..]);
    }
  }

  // ------------------------------------------------ two chars that cancel out

  /** A number from its byte and the rest, multiplied by the prime. */
  lemma ScaledParts(h: nat, l: nat)
    requires h < 0x100_0000 && l < 256
    ensures var q := l * PRIME / 256;
      Scaled(h * 256 + l) % 256 == l * PRIME % 256 && Scaled(h * 256 + l) / 256 == (h * PRIME + q) % 0x100_0000
  {
    var q, r := l * PRIME / 256, l * PRIME % 256;
    var z := h * PRIME + q;
    assert (h * 256 + l) * PRIME == 256 * z + r;
    CutParts(z, r);
  }

  lemma CutParts(z: nat, r: nat)
    requires r < 256
    ensures (256 * z + r) % TWO_32 % 256 == r && (256 * z + r) % TWO_32 / 256 == z % 0x100_0000
  {
    var m := z % 0x100_0000;
    ModTwo32(256 * z + r, z / 0x100_0000, 256 * m + r);
  }

  /** Numbers that mirror each other are multiplied to such numbers exactly if their low byte is 128. */
  lemma MirroredAgain(a: nat, b: nat)
    requires a < TWO_32 && b < TWO_32 && Mirrored(a, b)
    ensures Mirrored(Scaled(a), Scaled(b)) <==> a % 256 == 128
  {
    var h, k, l := a / 256, b / 256, a % 256;
    var q := l * PRIME / 256;
    ScaledParts(h, l);
    ScaledParts(k, l);
    SumOfHighParts(h, k, q);
    if l <= 127 {
      assert q <= 8323272;
      assert l > 0 ==> q > 201;
    } else if l >= 129 {
      assert q >= 8454346;
    }
  }

  lemma SumOfHighParts(h: nat, k: nat, q: nat)
    requires h + k == 0xFF_FFFF && q <= 0xFF_FFFF
    ensures (h * PRIME + q) % 0x100_0000 + (k * PRIME + q) % 0x100_0000 == 0xFF_FFFF
       <==> q == 201 || q == 8388809
  {
    var x, y := h * PRIME + q, k * PRIME + q;
    assert x + y == 0xFF_FFFF * PRIME + 2 * q;
    var w := PRIME - x / 0x100_0000 - y / 0x100_0000;
    assert x % 0x100_0000 + y % 0x100_0000 == 2 * q - PRIME + 0x100_0000 * w;
  }

  /**
   A second char above 127 right after the first one undoes the damage exactly
   if the low byte of the accumulator between them is 128.
   */
  lemma SecondHighChar(a: seq<Char>, c: Char, d: Char)
    requires Conforms(a) && c < 0 && d < 0
    ensures Conforms(a + [c] + [d]) <==> Fnv1(a + [c]) % 256 == 128
  {
    var s := a + [c];
    AfterHighChar(a, c);
    MirroredAgain(Fold(s), Fnv1(s));
    ConformsSnoc(s, d);
  }

  /** A char above 127 after agreement makes the accumulators mirror each other. */
  lemma AfterHighChar(a: seq<Char>, c: Char)
    requires Conforms(a) && c < 0
    ensures Fold(a + [c]) < TWO_32 && Fnv1(a + [c]) < TWO_32 && Mirrored(Fold(a + [c]), Fnv1(a + [c]))
  {
    FoldBound(a + [c]);
    Snoc(a, c, Scaled(Fold(a)), Fold(a + [c]), Fnv1(a + [c]));
  }

  lemma Snoc(a: seq<Char>, c: Char, x: nat, u: nat, v: nat)
    requires Conforms(a) && c < 0 && x == Scaled(Fold(a))
    requires u == Fold(a + [c]) < TWO_32 && v == Fnv1(a + [c]) < TWO_32
    ensures Mirrored(u, v)
  {
    assert (a + [c])[..|a|] == a;
    OneMask(x, Widen32(c), Octet(c), u, v);
  }

  /** One number under masks that mirror each other gives numbers that do. */
  lemma OneMask(x: nat, w: nat, o: nat, u: nat, v: nat)
    requires w < TWO_32 && o < TWO_32 && Mirrored(w, o)
    requires u == Xor(x, w) < TWO_32 && v == Xor(x, o) < TWO_32
    ensures Mirrored(u, v)
  {
    XorUndo(x, w);
    XorUndo(x, o);
    MirroredMasks(u, v, w, o);
  }

  lemma LowByteAfter159(x: nat)
    requires x % 256 == 31
    ensures Xor(x, 159) % 256 == 128
  {
    var c := 159;
    CutAt8(x, c);
    LowByte(x % 256, c);
  }

  lemma LowByte(b: nat, c: nat)
    requires b == 31 && c == 159
    ensures Xor(b, c) == 128
  {
    XorZero(4);
    XorCommutes(4, b / 32);
    XorFromParts(b / 16, c / 16, 8);
    XorFromParts(b / 8, c / 8, 16);
    XorFromParts(b / 4, c / 4, 32);
    XorFromParts(b / 2, c / 2, 64);
    XorFromParts(b, c, 128);
  }

  /** The shortest such text: after char 159 any char above 127 restores FNV-1. */
  lemma HighCharsCancel(d: Char)
    requires d < 0
    ensures !Conforms([-97]) && Conforms([-97, d])
  {
    var c: Char := -97;
    OneHighChar([c]);
    FirstAccumulator(c);
    assert [] + [c] == [c] && [c] + [d] == [c, d];
    SecondHighChar([], c, d);
  }

  lemma FirstAccumulator(c: Char)
    requires c == -97
    ensures Fnv1([c]) % 256 == 128
  {
    assert [c][..0] == [];
    LowByteAfter159(Scaled(OFFSET_BASIS));
  }

  // ------------------------------------------- the condition without the hash

  /** The number of chars above 127. */
  function HighChars(s: seq<Char>): nat {
    if s == [] then 0 else HighChars(s[..|s| - 1]) + if s[|s| - 1] < 0 then 1 else 0
  }

  /**
   How far the upper 24 bits of the function are from those of FNV-1, from
   FNV-1 alone: every char multiplies the drift by the prime, and one above 127
   also adds an odd number and changes the sign. Written out it is an
   alternating sum with one term for each char above 127.
   */
  function Drift(s: seq<Char>): int {
    if s == [] then 0
    else
      var before := Drift(s[..|s| - 1]) * PRIME;
      if s[|s| - 1] >= 0 then before else -(before + 2 * (Fnv1(s) / 256) + 1)
  }

  /** The low bytes are equal, and the upper bits differ by the drift. */
  ghost predicate Drifted(a: nat, b: nat, drift: int) {
    a % 256 == b % 256 && (a / 256 - b / 256 - drift) % 0x100_0000 == 0
  }

  lemma DriftedProduct(a: nat, b: nat, drift: int)
    requires a < TWO_32 && b < TWO_32 && Drifted(a, b, drift)
    ensures Drifted(Scaled(a), Scaled(b), drift * PRIME)
  {
    var h, k, l := a / 256, b / 256, a % 256;
    var q := l * PRIME / 256;
    ScaledParts(h, l);
    ScaledParts(k, l);
    SameMultiple(h, k, q, drift);
  }

  lemma SameMultiple(h: nat, k: nat, q: nat, drift: int)
    requires (h - k - drift) % 0x100_0000 == 0
    ensures ((h * PRIME + q) % 0x100_0000 - (k * PRIME + q) % 0x100_0000 - drift * PRIME) % 0x100_0000 == 0
  {
    var t := (h - k - drift) / 0x100_0000;
    assert h - k - drift == 0x100_0000 * t;
    var u, v := (h * PRIME + q) / 0x100_0000, (k * PRIME + q) / 0x100_0000;
    assert (h * PRIME + q) % 0x100_0000 - (k * PRIME + q) % 0x100_0000 - drift * PRIME
        == 0x100_0000 * (t * PRIME - u + v);
  }

  /** The widened char has all upper bits set or none, the byte has none. */
  lemma XorUpper(x: nat, w: nat)
    requires x < TWO_32 && (w / 256 == 0 || w / 256 == 0xFF_FFFF)
    ensures Xor(x, w) / 256 == if w / 256 == 0 then x / 256 else 0xFF_FFFF - x / 256
    ensures Xor(x, w) % 256 == Xor(x % 256, w % 256)
  {
    CutAt8(x, w);
    XorZero(x / 256);
    var h := x / 256;
    var rest := 0xFF_FFFF - h;
    Pow2Of24();
    XorOnes(rest, h, 24);
    XorUndo(rest, h);
    XorCommutes(h, w / 256);
  }

  lemma DriftStep(x: nat, y: nat, drift: int, c: Char, u: nat, v: nat)
    requires x < TWO_32 && y < TWO_32 && Drifted(x, y, drift)
    requires u == Xor(x, Widen32(c)) && v == Xor(y, Octet(c))
    ensures Drifted(u, v, if c >= 0 then drift else -(drift + 2 * (v / 256) + 1))
  {
    MaskedParts(x, y, c);
    if c < 0 {
      Reflected(x, y, drift, u, v);
    }
  }

  lemma MaskedParts(x: nat, y: nat, c: Char)
    requires x < TWO_32 && y < TWO_32 && x % 256 == y % 256
    ensures Xor(x, Widen32(c)) % 256 == Xor(y, Octet(c)) % 256
    ensures Xor(x, Widen32(c)) / 256 == if c >= 0 then x / 256 else 0xFF_FFFF - x / 256
    ensures Xor(y, Octet(c)) / 256 == y / 256
  {
    XorUpper(x, Widen32(c));
    XorUpper(y, Octet(c));
  }

  /** Complementing the upper bits of one of two numbers reverses the drift between them. */
  lemma Reflected(x: nat, y: nat, drift: int, u: nat, v: nat)
    requires Drifted(x, y, drift) && u % 256 == v % 256
    requires u / 256 == 0xFF_FFFF - x / 256 && v / 256 == y / 256
    ensures Drifted(u, v, -(drift + 2 * (v / 256) + 1))
  {
    var t := (x / 256 - y / 256 - drift) / 0x100_0000;
    assert u / 256 - v / 256 + drift + 2 * (v / 256) + 1 == 0x100_0000 * (1 - t);
  }

  lemma {:induction false} DriftTracks(s: seq<Char>)
    ensures Drifted(Fold(s), Fnv1(s), Drift(s))
  {
    if s != [] {
      var front, c := s[..|s| - 1], s[|s| - 1];
      DriftTracks(front);
      FoldBound(front);
      DriftedProduct(Fold(front), Fnv1(front), Drift(front));
      DriftStep(Scaled(Fold(front)), Scaled(Fnv1(front)), Drift(front) * PRIME, c, Fold(s), Fnv1(s));
    }
  }

  /** The function is FNV-1 exactly on the texts whose drift is 0 modulo 2 to the 24. */
  lemma ConformsIffNoDrift(s: seq<Char>)
    ensures Conforms(s) <==> Drift(s) % 0x100_0000 == 0
  {
    DriftTracks(s);
    FoldBound(s);
    SmallDifference(Fold(s) / 256 - Fnv1(s) / 256, Drift(s));
  }

  lemma SmallDifference(d: int, drift: int)
    requires -0x100_0000 < d < 0x100_0000 && (d - drift) % 0x100_0000 == 0
    ensures d == 0 <==> drift % 0x100_0000 == 0
  {
    var t := (d - drift) / 0x100_0000;
    assert d - drift == 0x100_0000 * t;
  }

  lemma {:induction false} DriftParity(s: seq<Char>)
    ensures Drift(s) % 2 == HighChars(s) % 2
  {
    if s != [] {
      DriftParity(s[..|s| - 1]);
      Parity(Drift(s[..|s| - 1]), Fnv1(s) / 256, HighChars(s[..|s| - 1]));
    }
  }

  lemma Parity(d: int, m: int, n: nat)
    requires d % 2 == n % 2
    ensures d * PRIME % 2 == n % 2 && -(d * PRIME + 2 * m + 1) % 2 == (n + 1) % 2
  {
    assert d * PRIME == d + 2 * (d * 8388809);
    assert -(d * PRIME + 2 * m + 1) == d + 1 - 2 * (d + d * 8388809 + m + 1);
  }

  /** No text with an odd number of chars above 127 is hashed as FNV-1. */
  lemma OddHighChars(s: seq<Char>)
    requires HighChars(s) % 2 == 1
    ensures !Conforms(s)
  {
    ConformsIffNoDrift(s);
    DriftParity(s);
  }

  // ------------------------------------------------------------ check values

  /** The published values of 32-bit FNV-1 for the empty text and for "a". */
  lemma CheckValues(a: seq<Char>)
    requires a == []
    ensures Fold(a) == 0x811C_9DC5 && Fold(a + [97]) == 0x050C_5D7E
  {
    AppendA(a, 97, 0x5_0C5D, 31);
  }

  lemma AppendA(a: seq<Char>, c: Char, h: nat, l: nat)
    requires c == 97 && Scaled(Fold(a)) == h * 256 + l && l == 31
    ensures Fold(a + [c]) == h * 256 + 126
  {
    assert (a + [c])[..|a|] == a;
    LastByte(Scaled(Fold(a)), c, Fold(a + [c]), h, l);
  }

  lemma LastByte(x: nat, c: nat, u: nat, h: nat, l: nat)
    requires h == x / 256 && l == x % 256 && l == 31 && c == 97 && u == Xor(x, c)
    ensures u == h * 256 + 126
  {
    XorAt8(x, c, u, h, l, 0, c);
    XorZero(h);
    ThirtyOne(l, c);
  }

  lemma ThirtyOne(b: nat, c: nat)
    requires b == 31 && c == 97
    ensures Xor(b, c) == 126
  {
    XorZero(3);
    XorCommutes(3, b / 32);
    XorFromParts(b / 16, c / 16, 7);
    XorFromParts(b / 8, c / 8, 15);
    XorFromParts(b / 4, c / 4, 31);
    XorFromParts(b / 2, c / 2, 63);
    XorFromParts(b, c, 126);
  }
}
