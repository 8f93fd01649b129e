/** Exclusive or on natural numbers, bit by bit, and how it meets division and remainder by powers of two. */
module Bits {

  function Pow2(k: nat): (p: nat)
    ensures p > 0
  {
    if k == 0 then 1 else 2 * Pow2(k - 1)
  }

  function Xor(a: nat, b: nat): nat {
    if a == 0 && b == 0 then 0 else (a % 2 + b % 2) % 2 + 2 * Xor(a / 2, b / 2)
  }

  lemma XorParts(a: nat, b: nat)
    ensures Xor(a, b) % 2 == (a % 2 + b % 2) % 2
    ensures Xor(a, b) / 2 == Xor(a / 2, b / 2)
  {
  }

  /** Remainder by twice p, from the last bit and the rest. */
  lemma ModTwice(a: nat, p: nat)
    requires p > 0
    ensures a % (2 * p) == a % 2 + 2 * (a / 2 % p)
    ensures a % (2 * p) % 2 == a % 2 && a % (2 * p) / 2 == a / 2 % p
    ensures a / (2 * p) == a / 2 / p
  {
    var h, q := a / 2, a / 2 / p;
    assert h == p * q + h % p;
    var r := a % 2 + 2 * (h % p);
    assert a == 2 * p * q + r by {
      assert a == 2 * h + a % 2;
      assert 2 * (p * q) == 2 * p * q;
    }
    DivModUnique(a, 2 * p, q, r);
  }

  lemma DivModUnique(a: nat, p: nat, q: nat, r: nat)
    requires p > 0 && a == p * q + r && r < p
    ensures a % p == r && a / p == q
  {
    var q', r' := a / p, a % p;
    assert a == p * q' + r';
    if q > q' {
      Gap(p, q', q);
    } else if q < q' {
      Gap(p, q, q');
    }
  }

  lemma Gap(p: nat, lo: int, hi: int)
    requires lo < hi
    ensures p * hi >= p * lo + p
  {
    assert p * hi == p * lo + p * (hi - lo);
    assert p * (hi - lo) == p + p * (hi - lo - 1);
  }

  /** A number with the last bit and the other bits of an exclusive or is it. */
  lemma XorFromParts(x: nat, y: nat, z: nat)
    requires z % 2 == (x % 2 + y % 2) % 2 && z / 2 == Xor(x / 2, y / 2)
    ensures z == Xor(x, y)
  {
  }

  /** The low k bits of an exclusive or are the exclusive or of the low k bits. */
  lemma {:induction false} XorLow(a: nat, b: nat, k: nat)
    ensures Xor(a, b) % Pow2(k) == Xor(a % Pow2(k), b % Pow2(k))
  {
    if k > 0 {
      var p := Pow2(k - 1);
      XorLow(a / 2, b / 2, k - 1);
      ModTwice(a, p);
      ModTwice(b, p);
      ModTwice(Xor(a, b), p);
      XorParts(a, b);
      XorFromParts(a % (2 * p), b % (2 * p), Xor(a, b) % (2 * p));
    }
  }

  /** a without its k lowest bits. */
  function High(a: nat, k: nat): nat {
    if k == 0 then a else High(a / 2, k - 1)
  }

  lemma {:induction false} HighIsDivision(a: nat, k: nat)
    ensures High(a, k) == a / Pow2(k)
  {
    if k > 0 {
      HighIsDivision(a / 2, k - 1);
      ModTwice(a, Pow2(k - 1));
    }
  }

  /** The bits from k upwards likewise. */
  lemma {:induction false} XorHigh(a: nat, b: nat, k: nat)
    ensures High(Xor(a, b), k) == Xor(High(a, k), High(b, k))
  {
    if k > 0 {
      XorHigh(a / 2, b / 2, k - 1);
      XorParts(a, b);
    }
  }

  lemma {:induction false} XorSelf(a: nat)
    ensures Xor(a, a) == 0
  {
    if a > 0 {
      XorSelf(a / 2);
    }
  }

  lemma {:induction false} XorZero(a: nat)
    ensures Xor(a, 0) == a
  {
    if a > 0 {
      XorZero(a / 2);
    }
  }

  /** Applying the same mask twice undoes it. */
  lemma XorUndo(a: nat, c: nat)
    ensures Xor(Xor(a, c), c) == a
  {
    XorBack(a, c, Xor(a, c));
  }

  lemma {:induction false} XorBack(a: nat, c: nat, x: nat)
    requires x == Xor(a, c)
    ensures Xor(x, c) == a
    decreases a + c
  {
    if a > 0 || c > 0 {
      XorParts(a, c);
      XorBack(a / 2, c / 2, x / 2);
      LastBit(a, c, x);
      XorFromParts(x, c, a);
    }
  }

  lemma LastBit(a: nat, c: nat, x: nat)
    requires x % 2 == (a % 2 + c % 2) % 2
    ensures a % 2 == (x % 2 + c % 2) % 2
  {
  }

  lemma {:induction false} XorCommutes(a: nat, b: nat)
    ensures Xor(a, b) == Xor(b, a)
  {
    if a > 0 || b > 0 {
      XorCommutes(a / 2, b / 2);
    }
  }

  /** An exclusive or of two k-bit numbers has k bits. */
  lemma {:induction false} XorBound(a: nat, b: nat, k: nat)
    requires a < Pow2(k) && b < Pow2(k)
    ensures Xor(a, b) < Pow2(k)
  {
    if k > 0 {
      XorBound(a / 2, b / 2, k - 1);
      XorParts(a, b);
    }
  }

  /** Masks may be moved across an equation. */
  lemma {:induction false} XorMove(x: nat, w: nat, y: nat, o: nat)
    ensures Xor(x, w) == Xor(y, o) <==> Xor(x, y) == Xor(w, o)
    decreases x + w + y + o
  {
    if x + w + y + o > 0 {
      XorMove(x / 2, w / 2, y / 2, o / 2);
      XorParts(x, w);
      XorParts(y, o);
      XorParts(x, y);
      XorParts(w, o);
      SameParts(Xor(x, w), Xor(y, o));
      SameParts(Xor(x, y), Xor(w, o));
      ParityMoves(x, w, y, o);
    }
  }

  lemma SameParts(a: nat, b: nat)
    ensures a == b <==> a % 2 == b % 2 && a / 2 == b / 2
  {
  }

  lemma ParityMoves(x: nat, w: nat, y: nat, o: nat)
    ensures (x % 2 + w % 2) % 2 == (y % 2 + o % 2) % 2 <==> (x % 2 + y % 2) % 2 == (w % 2 + o % 2) % 2
  {
  }

  /** Two k-bit numbers differ in every bit exactly if they add up to the largest one. */
  lemma {:induction false} XorOnes(a: nat, b: nat, k: nat)
    requires a < Pow2(k) && b < Pow2(k)
    ensures Xor(a, b) == Pow2(k) - 1 <==> a + b == Pow2(k) - 1
  {
    if k > 0 {
      XorOnes(a / 2, b / 2, k - 1);
      XorParts(a, b);
      SameParts(Xor(a, b), Pow2(k) - 1);
    }
  }

  lemma SmallPowers()
    ensures Pow2(4) == 16 && Pow2(8) == 256 && Pow2(20) == 0x10_0000
  {
    assert Pow2(4) == 16;
    assert Pow2(8) == 256;
    assert Pow2(16) == 0x1_0000;
  }

  /** An exclusive or z of x and y, cut at bit 4, 8 or 20, from the parts of x and y above and below. */
  lemma XorAt4(x: nat, y: nat, z: nat, xHigh: nat, xLow: nat, yHigh: nat, yLow: nat)
    requires z == Xor(x, y) && xHigh == x / 16 && xLow == x % 16 && yHigh == y / 16 && yLow == y % 16
    ensures z / 16 == Xor(xHigh, yHigh) && z % 16 == Xor(xLow, yLow)
  {
    SmallPowers();
    XorLow(x, y, 4);
    XorHigh(x, y, 4);
    HighIsDivision(x, 4);
    HighIsDivision(y, 4);
    HighIsDivision(z, 4);
  }

  lemma XorAt8(x: nat, y: nat, z: nat, xHigh: nat, xLow: nat, yHigh: nat, yLow: nat)
    requires z == Xor(x, y) && xHigh == x / 256 && xLow == x % 256 && yHigh == y / 256 && yLow == y % 256
    ensures z / 256 == Xor(xHigh, yHigh) && z % 256 == Xor(xLow, yLow)
  {
    SmallPowers();
    XorLow(x, y, 8);
    XorHigh(x, y, 8);
    HighIsDivision(x, 8);
    HighIsDivision(y, 8);
    HighIsDivision(z, 8);
  }

  lemma XorAt20(x: nat, y: nat, z: nat, xHigh: nat, xLow: nat, yHigh: nat, yLow: nat)
    requires z == Xor(x, y) && xHigh == x / 0x10_0000 && xLow == x % 0x10_0000
    requires yHigh == y / 0x10_0000 && yLow == y % 0x10_0000
    ensures z / 0x10_0000 == Xor(xHigh, yHigh) && z % 0x10_0000 == Xor(xLow, yLow)
  {
    SmallPowers();
    XorLow(x, y, 20);
    XorHigh(x, y, 20);
    HighIsDivision(x, 20);
    HighIsDivision(y, 20);
    HighIsDivision(z, 20);
  }
}
