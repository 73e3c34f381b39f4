/** Unsigned machine words as naturals: shifts halve and double, and the bitwise
    operators are defined bit by bit. */
module Bits {

  type Byte = x: int | 0 <= x < 256

  function Pow2(n: nat): (p: nat)
    ensures p >= 1
  {
    if n == 0 then 1 else 2 * Pow2(n - 1)
  }

  function And(x: nat, y: nat): nat
  {
    if x == 0 || y == 0 then 0
    else 2 * And(x / 2, y / 2) + if x % 2 == 1 && y % 2 == 1 then 1 else 0
  }

  function Xor(x: nat, y: nat): nat
  {
    if x == 0 && y == 0 then 0
    else 2 * Xor(x / 2, y / 2) + if x % 2 == y % 2 then 0 else 1
  }

  /** x << k, before any truncation to the word size. */
  function Shl(x: nat, k: nat): nat
  {
    if k == 0 then x else 2 * Shl(x, k - 1)
  }

  /** x >> k. */
  function Shr(x: nat, k: nat): nat
  {
    if k == 0 then x else Shr(x / 2, k - 1)
  }

  /** The low k bits of x. */
  function Low(x: nat, k: nat): nat
  {
    if k == 0 then 0 else 2 * Low(x / 2, k - 1) + x % 2
  }

  /** The complement of x in a word of `width` bits. */
  function Not(x: nat, width: nat): nat
    requires x < Pow2(width)
  {
    Pow2(width) - 1 - x
  }

  ghost predicate IsPow2(n: nat) {
    exists k: nat :: n == Pow2(k)
  }

  // ---- Powers of two, division and remainder ----

  lemma {:induction false} Pow2Add(a: nat, b: nat)
    ensures Pow2(a + b) == Pow2(a) * Pow2(b)
  {
    if a > 0 {
      Pow2Add(a - 1, b);
      assert Pow2(a + b) == 2 * Pow2(a - 1 + b);
      assert 2 * (Pow2(a - 1) * Pow2(b)) == Pow2(a) * Pow2(b);
    }
  }

  lemma {:induction false} Pow2Mono(a: nat, b: nat)
    requires a <= b
    ensures Pow2(a) <= Pow2(b)
  {
    if a < b { Pow2Mono(a, b - 1); }
  }

  lemma MulMono(d: nat, a: nat, b: nat)
    requires a <= b
    ensures d * a <= d * b
  {
    assert d * b == d * a + d * (b - a);
  }

  lemma DivModUnique(x: nat, d: nat, q: nat, r: nat)
    requires 0 <= r < d && x == d * q + r
    ensures x / d == q && x % d == r
  {
    var q0 := x / d;
    if q0 < q {
      MulMono(d, q0 + 1, q);
    } else if q < q0 {
      MulMono(d, q + 1, q0);
    }
  }

  lemma ModOfMultiple(q: nat, d: nat)
    requires d > 0
    ensures (q * d) % d == 0
  {
    DivModUnique(q * d, d, q, 0);
  }

  /** x % 2p splits into the low bit and the rest. */
  lemma HalfMod(x: nat, p: nat)
    requires p > 0
    ensures x % (2 * p) == 2 * ((x / 2) % p) + x % 2
  {
    var h := x / 2;
    assert h == p * (h / p) + h % p;
    var r := 2 * (h % p) + x % 2;
    assert x == (2 * p) * (h / p) + r;
    DivModUnique(x, 2 * p, h / p, r);
  }

  lemma {:induction false} LowIsMod(x: nat, k: nat)
    ensures Low(x, k) == x % Pow2(k)
  {
    if k > 0 {
      LowIsMod(x / 2, k - 1);
      HalfMod(x, Pow2(k - 1));
    }
  }

  // ---- Masks ----

  /** Masking with 2^k - 1 keeps the low k bits. */
  lemma {:induction false} AndLowMask(x: nat, k: nat)
    ensures And(x, Pow2(k) - 1) == Low(x, k)
  {
    if k > 0 {
      AndLowMask(x / 2, k - 1);
      if x == 0 { LowZero(k); }
    }
  }

  lemma {:induction false} LowBound(x: nat, k: nat)
    ensures Low(x, k) < Pow2(k) && Low(x, k) <= x
  {
    if k > 0 { LowBound(x / 2, k - 1); }
  }

  lemma {:induction false} LowZero(k: nat)
    ensures Low(0, k) == 0
  {
    if k > 0 { LowZero(k - 1); }
  }

  lemma {:induction false} LowOfSmall(x: nat, k: nat)
    requires x < Pow2(k)
    ensures Low(x, k) == x
  {
    if k > 0 { LowOfSmall(x / 2, k - 1); }
  }

  lemma {:induction false} LowOfLow(x: nat, j: nat, k: nat)
    requires j <= k
    ensures Low(Low(x, k), j) == Low(x, j)
  {
    if j > 0 { LowOfLow(x / 2, j - 1, k - 1); }
  }

  /** x & ~(2^k - 1) rounds x down to a multiple of 2^k: the C idiom for alignment. */
  lemma {:induction false} AndHighMask(x: nat, k: nat, width: nat)
    requires k <= width && x < Pow2(width)
    ensures Pow2(k) - 1 < Pow2(width)
    ensures And(x, Not(Pow2(k) - 1, width)) == x - Low(x, k)
  {
    Pow2Mono(k, width);
    if k == 0 {
      AndLowMask(x, width);
      LowOfSmall(x, width);
    } else {
      AndHighMask(x / 2, k - 1, width - 1);
      assert Not(Pow2(k) - 1, width) == 2 * Not(Pow2(k - 1) - 1, width - 1);
      if x == 0 { LowZero(k); }
    }
  }

  /** Testing a single bit: x & 2^k is non-zero exactly when bit k of x is set. */
  lemma {:induction false} AndBit(x: nat, k: nat)
    ensures And(x, Pow2(k)) != 0 <==> Shr(x, k) % 2 == 1
  {
    if k > 0 {
      AndBit(x / 2, k - 1);
      if x == 0 { ShrSmall(0, k); }
    } else if x != 0 {
      assert And(x / 2, 0) == 0;
    }
  }

  /** (g & (g - 1)) == 0 is the power-of-two test. */
  lemma {:induction false} PowerOfTwoTest(g: nat)
    requires g > 0
    ensures And(g, g - 1) == 0 <==> IsPow2(g)
  {
    if g == 1 {
      assert g == Pow2(0);
    } else if g % 2 == 0 {
      PowerOfTwoTest(g / 2);
      if IsPow2(g / 2) {
        var k: nat :| g / 2 == Pow2(k);
        assert g == Pow2(k + 1);
      }
      if IsPow2(g) {
        var k: nat :| g == Pow2(k);
        assert g / 2 == Pow2(k - 1);
      }
    } else {
      assert And(g, g - 1) == 2 * And(g / 2, (g - 1) / 2);
      AndSelf(g / 2);
      forall k: nat
        ensures g != Pow2(k)
      {
        if k > 0 { assert Pow2(k) == 2 * Pow2(k - 1); }
      }
    }
  }

  lemma {:induction false} AndSelf(x: nat)
    ensures And(x, x) == x
  {
    if x > 0 { AndSelf(x / 2); }
  }

  // ---- Exclusive or is associative, commutative and linear for shifts ----

  lemma {:induction false} XorZero(x: nat)
    ensures Xor(x, 0) == x && Xor(0, x) == x
  {
    if x > 0 { XorZero(x / 2); }
  }

  lemma {:induction false} XorSelf(x: nat)
    ensures Xor(x, x) == 0
  {
    if x > 0 { XorSelf(x / 2); }
  }

  lemma {:induction false} XorComm(x: nat, y: nat)
    ensures Xor(x, y) == Xor(y, x)
  {
    if x > 0 || y > 0 { XorComm(x / 2, y / 2); }
  }

  lemma XorBits(x: nat, y: nat)
    ensures Xor(x, y) / 2 == Xor(x / 2, y / 2)
    ensures Xor(x, y) % 2 == if x % 2 == y % 2 then 0 else 1
  {
  }

  lemma {:induction false} XorAssoc(x: nat, y: nat, z: nat)
    ensures Xor(Xor(x, y), z) == Xor(x, Xor(y, z))
  {
    if x > 0 || y > 0 || z > 0 {
      XorAssoc(x / 2, y / 2, z / 2);
      XorBits(x, y);
      XorBits(y, z);
      XorBits(Xor(x, y), z);
      XorBits(x, Xor(y, z));
    }
  }

  lemma {:induction false} XorBound(x: nat, y: nat, n: nat)
    requires x < Pow2(n) && y < Pow2(n)
    ensures Xor(x, y) < Pow2(n)
  {
    if n > 0 { XorBound(x / 2, y / 2, n - 1); }
  }

  /** The four-term exchange used to split a register into two parts. */
  lemma XorSwap(a: nat, b: nat, c: nat, d: nat)
    ensures Xor(Xor(a, b), Xor(c, d)) == Xor(Xor(a, c), Xor(b, d))
  {
    XorAssoc(a, b, Xor(c, d));
    XorAssoc(b, c, d);
    XorComm(b, c);
    XorAssoc(c, b, d);
    XorAssoc(a, c, Xor(b, d));
  }

  lemma {:induction false} XorShl(x: nat, y: nat, k: nat)
    ensures Xor(Shl(x, k), Shl(y, k)) == Shl(Xor(x, y), k)
  {
    if k > 0 { XorShl(x, y, k - 1); }
  }

  lemma {:induction false} XorLow(x: nat, y: nat, k: nat)
    ensures Low(Xor(x, y), k) == Xor(Low(x, k), Low(y, k))
  {
    if k > 0 {
      XorLow(x / 2, y / 2, k - 1);
      XorBits(x, y);
    }
  }

  lemma {:induction false} XorShr(x: nat, y: nat, k: nat)
    ensures Shr(Xor(x, y), k) == Xor(Shr(x, k), Shr(y, k))
  {
    if k > 0 {
      XorShr(x / 2, y / 2, k - 1);
      XorBits(x, y);
    }
  }

  /** A word is its high part xor its low k bits. */
  lemma {:induction false} SplitAt(x: nat, k: nat)
    ensures x == Shl(Shr(x, k), k) + Low(x, k)
    ensures x == Xor(Shl(Shr(x, k), k), Low(x, k))
  {
    if k > 0 {
      SplitAt(x / 2, k - 1);
      assert Shl(Shr(x, k), k) == 2 * Shl(Shr(x / 2, k - 1), k - 1);
    } else {
      XorZero(x);
    }
  }

  // ---- Shifts ----

  lemma {:induction false} ShlBound(x: nat, k: nat, n: nat)
    requires x < Pow2(n)
    ensures Shl(x, k) < Pow2(n + k)
  {
    if k > 0 { ShlBound(x, k - 1, n); }
  }

  lemma {:induction false} ShlAdd(x: nat, a: nat, b: nat)
    ensures Shl(Shl(x, a), b) == Shl(x, a + b)
  {
    if b > 0 { ShlAdd(x, a, b - 1); }
  }

  lemma {:induction false} ShlZero(k: nat)
    ensures Shl(0, k) == 0
  {
    if k > 0 { ShlZero(k - 1); }
  }

  lemma {:induction false} ShlOne(k: nat)
    ensures Shl(1, k) == Pow2(k)
  {
    if k > 0 { ShlOne(k - 1); }
  }

  lemma {:induction false} ShrSmall(x: nat, k: nat)
    requires x < Pow2(k)
    ensures Shr(x, k) == 0
  {
    if k > 0 { ShrSmall(x / 2, k - 1); }
  }

  lemma {:induction false} ShrBound(x: nat, k: nat, n: nat)
    requires x < Pow2(n + k)
    ensures Shr(x, k) < Pow2(n)
  {
    if k > 0 { ShrBound(x / 2, k - 1, n); }
  }

  lemma {:induction false} ShrOfShl(x: nat, k: nat)
    ensures Shr(Shl(x, k), k) == x && Low(Shl(x, k), k) == 0
  {
    if k > 0 { ShrOfShl(x, k - 1); }
  }

  /** A part of a part of a sequence. */
  lemma SliceOf<T>(f: seq<T>, off: nat, e: seq<T>, i: nat, j: nat)
    requires off + |e| <= |f| && f[off..off + |e|] == e && i <= j <= |e|
    ensures f[off + i..off + j] == e[i..j]
  {
    assert |f[off + i..off + j]| == |e[i..j]|;
    forall k | 0 <= k < j - i
      ensures f[off + i..off + j][k] == e[i..j][k]
    {
      assert f[off..off + |e|][i + k] == e[i + k];
    }
  }
}
