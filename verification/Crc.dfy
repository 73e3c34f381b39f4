/** The CRC engines of the log library: the bit-serial reference, the byte-wise
    and table-driven engines that refine it, and what they compute. */
module Crc {
  import opened Bits

  /** Parameters in the engine's own domain: `poly` is already reflected when
      `refin` is set. */
  datatype Model = Model(width: nat, poly: nat, refin: bool)

  ghost predicate Normal(m: Model) {
    1 <= m.width <= 32 && m.poly < Pow2(m.width)
  }

  // ---- Reference: one message bit at a time ----

  /** The register bit that decides whether the polynomial is applied. */
  function OutBit(m: Model, reg: nat): nat
    requires m.width >= 1
  {
    if m.refin then reg % 2 else Shr(reg, m.width - 1) % 2
  }

  function Shift(m: Model, reg: nat): nat {
    if m.refin then reg / 2 else Low(2 * reg, m.width)
  }

  function Select(bit: nat, poly: nat): nat {
    if bit == 1 then poly else 0
  }

  function Step(m: Model, reg: nat): nat
    requires m.width >= 1
  {
    Xor(Shift(m, reg), Select(OutBit(m, reg), m.poly))
  }

  /** Where an n-bit input value meets the register. */
  function Place(m: Model, v: nat, n: nat): nat
    requires n <= m.width
  {
    if m.refin then v else Shl(v, m.width - n)
  }

  function FeedBit(m: Model, reg: nat, bit: nat): nat
    requires m.width >= 1
  {
    Step(m, Xor(reg, Place(m, bit, 1)))
  }

  /** The n bits of v in wire order: low bit first when reflected, high bit first otherwise. */
  function FeedBits(m: Model, reg: nat, v: nat, n: nat): nat
    requires m.width >= 1
    decreases n, v
  {
    if n == 0 then reg
    else if m.refin then FeedBits(m, FeedBit(m, reg, v % 2), v / 2, n - 1)
    else FeedBits(m, FeedBit(m, reg, Shr(v, n - 1) % 2), Low(v, n - 1), n - 1)
  }

  function Feed(m: Model, reg: nat, data: seq<Byte>): nat
    requires m.width >= 1
  {
    if data == [] then reg
    else FeedBits(m, Feed(m, reg, data[..|data| - 1]), data[|data| - 1], 8)
  }

  /** k register steps without input. */
  function Iter(m: Model, reg: nat, k: nat): nat
    requires m.width >= 1
    decreases k, reg
  {
    if k == 0 then reg else Iter(m, Step(m, reg), k - 1)
  }

  function TableEntry(m: Model, i: Byte): nat
    requires m.width >= 8
  {
    Iter(m, Place(m, i, 8), 8)
  }

  // ---- Segmentation ----

  /** Feeding a message in two segments, cut anywhere, is feeding it whole. */
  lemma {:induction false} FeedConcat(m: Model, reg: nat, a: seq<Byte>, b: seq<Byte>)
    requires m.width >= 1
    ensures Feed(m, reg, a + b) == Feed(m, Feed(m, reg, a), b)
  {
    if b == [] {
      assert a + b == a;
    } else {
      var b' := b[..|b| - 1];
      FeedConcat(m, reg, a, b');
      assert (a + b)[..|a + b| - 1] == a + b';
    }
  }

  // ---- The register step is linear ----

  lemma SelectXor(b: nat, c: nat, poly: nat)
    requires b < 2 && c < 2
    ensures Xor(Select(b, poly), Select(c, poly)) == Select(if b == c then 0 else 1, poly)
  {
    XorSelf(poly);
    XorZero(poly);
  }

  lemma ShiftLinear(m: Model, x: nat, y: nat)
    ensures Shift(m, Xor(x, y)) == Xor(Shift(m, x), Shift(m, y))
  {
    if m.refin {
      XorBits(x, y);
    } else {
      Doubles(x, y);
      XorLow(2 * x, 2 * y, m.width);
    }
  }

  lemma OutBitLinear(m: Model, x: nat, y: nat)
    requires m.width >= 1
    ensures OutBit(m, Xor(x, y)) == if OutBit(m, x) == OutBit(m, y) then 0 else 1
  {
    if m.refin {
      XorBits(x, y);
    } else {
      XorShr(x, y, m.width - 1);
      XorBits(Shr(x, m.width - 1), Shr(y, m.width - 1));
    }
  }

  lemma StepLinear(m: Model, x: nat, y: nat)
    requires m.width >= 1
    ensures Step(m, Xor(x, y)) == Xor(Step(m, x), Step(m, y))
  {
    ShiftLinear(m, x, y);
    OutBitLinear(m, x, y);
    SelectXor(OutBit(m, x), OutBit(m, y), m.poly);
    XorSwap(Shift(m, x), Select(OutBit(m, x), m.poly), Shift(m, y), Select(OutBit(m, y), m.poly));
  }

  lemma Doubles(x: nat, y: nat)
    ensures Xor(2 * x, 2 * y) == 2 * Xor(x, y)
  {
    XorShl(x, y, 1);
    assert Shl(x, 1) == 2 * Shl(x, 0) && Shl(y, 1) == 2 * Shl(y, 0);
  }

  lemma {:induction false} IterLinear(m: Model, x: nat, y: nat, k: nat)
    requires m.width >= 1
    ensures Iter(m, Xor(x, y), k) == Xor(Iter(m, x, k), Iter(m, y, k))
    decreases k
  {
    if k > 0 {
      StepLinear(m, x, y);
      IterLinear(m, Step(m, x), Step(m, y), k - 1);
    }
  }

  lemma StepRange(m: Model, reg: nat)
    requires Normal(m) && reg < Pow2(m.width)
    ensures Step(m, reg) < Pow2(m.width)
  {
    LowBound(2 * reg, m.width);
    assert reg / 2 < Pow2(m.width);
    XorBound(Shift(m, reg), Select(OutBit(m, reg), m.poly), m.width);
  }

  lemma FeedBitRange(m: Model, reg: nat, bit: nat)
    requires Normal(m) && reg < Pow2(m.width) && bit < 2
    ensures FeedBit(m, reg, bit) < Pow2(m.width)
  {
    ShlBound(bit, m.width - 1, 1);
    XorBound(reg, Place(m, bit, 1), m.width);
    StepRange(m, Xor(reg, Place(m, bit, 1)));
  }

  lemma {:induction false} FeedBitsRange(m: Model, reg: nat, v: nat, n: nat)
    requires Normal(m) && reg < Pow2(m.width)
    ensures FeedBits(m, reg, v, n) < Pow2(m.width)
    decreases n
  {
    if n > 0 {
      if m.refin {
        FeedBitRange(m, reg, v % 2);
        FeedBitsRange(m, FeedBit(m, reg, v % 2), v / 2, n - 1);
      } else {
        FeedBitRange(m, reg, Shr(v, n - 1) % 2);
        FeedBitsRange(m, FeedBit(m, reg, Shr(v, n - 1) % 2), Low(v, n - 1), n - 1);
      }
    }
  }

  /** An in-range register stays in range over any message. */
  lemma {:induction false} FeedRange(m: Model, reg: nat, data: seq<Byte>)
    requires Normal(m) && reg < Pow2(m.width)
    ensures Feed(m, reg, data) < Pow2(m.width)
  {
    if data != [] {
      FeedRange(m, reg, data[..|data| - 1]);
      FeedBitsRange(m, Feed(m, reg, data[..|data| - 1]), data[|data| - 1], 8);
    }
  }

  // ---- Byte-wise input refines bit-serial input ----

  /** A value whose leading bits are zero is only shifted towards the output end. */
  lemma StepOfTail(m: Model, low: nat, n: nat)
    requires 1 <= n <= m.width && low < Pow2(n - 1)
    ensures m.refin ==> Step(m, 2 * low) == low
    ensures !m.refin ==> Step(m, Shl(low, m.width - n)) == Shl(low, m.width - n + 1)
  {
    if m.refin {
      XorZero(low);
    } else {
      var x := Shl(low, m.width - n);
      ShlBound(low, m.width - n, n - 1);
      ShrSmall(x, m.width - 1);
      LowOfSmall(2 * x, m.width);
      XorZero(2 * x);
    }
  }

  /** Xor-ing a whole n-bit value in first and then stepping n times gives what
      feeding its bits one by one gives. */
  lemma {:induction false} XorThenStep(m: Model, reg: nat, v: nat, n: nat)
    requires 1 <= m.width && n <= m.width && v < Pow2(n)
    ensures FeedBits(m, reg, v, n) == Iter(m, Xor(reg, Place(m, v, n)), n)
    decreases n
  {
    if n == 0 {
      ShlZero(m.width);
      XorZero(reg);
    } else if m.refin {
      XorThenStepReflected(m, reg, v, n);
      XorThenStep(m, FeedBit(m, reg, v % 2), v / 2, n - 1);
    } else {
      LowBound(v, n - 1);
      XorThenStepPlain(m, reg, v, n);
      XorThenStep(m, FeedBit(m, reg, Shr(v, n - 1) % 2), Low(v, n - 1), n - 1);
    }
  }

  lemma XorThenStepReflected(m: Model, reg: nat, v: nat, n: nat)
    requires 1 <= n <= m.width && v < Pow2(n) && m.refin
    ensures Step(m, Xor(reg, v)) == Xor(FeedBit(m, reg, v % 2), v / 2)
  {
    var b, h := v % 2, v / 2;
    SplitAt(v, 1);
    assert Low(v, 1) == b by { assert Low(v / 2, 0) == 0; }
    assert Shl(Shr(v, 1), 1) == 2 * h by { assert Shr(v, 1) == Shr(v / 2, 0); assert Shl(h, 0) == h; }
    XorComm(2 * h, b);
    XorAssoc(reg, b, 2 * h);
    StepLinear(m, Xor(reg, b), 2 * h);
    StepOfTail(m, h, n);
  }

  lemma XorThenStepPlain(m: Model, reg: nat, v: nat, n: nat)
    requires 1 <= n <= m.width && v < Pow2(n) && !m.refin
    ensures Step(m, Xor(reg, Shl(v, m.width - n)))
         == Xor(FeedBit(m, reg, Shr(v, n - 1) % 2), Shl(Low(v, n - 1), m.width - n + 1))
  {
    var t, low, s := Shr(v, n - 1), Low(v, n - 1), m.width - n;
    var high, tail := Xor(reg, Shl(t, m.width - 1)), Shl(low, s);
    assert t % 2 == t by { ShrBound(v, n - 1, 1); }
    assert Xor(reg, Shl(v, s)) == Xor(high, tail) by {
      ShlSplit(v, n - 1, s);
      XorAssoc(reg, Shl(t, m.width - 1), tail);
    }
    assert Step(m, tail) == Shl(low, s + 1) by {
      LowBound(v, n - 1);
      StepOfTail(m, low, n);
    }
    StepLinear(m, high, tail);
  }

  /** A shifted word, split at bit k before the shift. */
  lemma ShlSplit(v: nat, k: nat, s: nat)
    ensures Shl(v, s) == Xor(Shl(Shr(v, k), k + s), Shl(Low(v, k), s))
  {
    SplitAt(v, k);
    XorShl(Shl(Shr(v, k), k), Low(v, k), s);
    ShlAdd(Shr(v, k), k, s);
  }

  // ---- The table engine ----

  lemma {:induction false} IterShiftsDown(m: Model, h: nat, k: nat)
    requires m.width >= 1 && m.refin
    ensures Iter(m, Shl(h, k), k) == h
    decreases k
  {
    if k > 0 {
      XorZero(Shl(h, k - 1));
      IterShiftsDown(m, h, k - 1);
    }
  }

  lemma {:induction false} IterShiftsUp(m: Model, low: nat, k: nat)
    requires m.width >= 1 && !m.refin && k <= m.width && low < Pow2(m.width - k)
    ensures Iter(m, low, k) == Shl(low, k)
    decreases k
  {
    if k > 0 {
      Pow2Mono(m.width - k, m.width - 1);
      ShrSmall(low, m.width - 1);
      LowOfSmall(2 * low, m.width);
      XorZero(2 * low);
      IterShiftsUp(m, 2 * low, k - 1);
      ShlAdd(low, 1, k - 1);
      assert Shl(low, 1) == 2 * Shl(low, 0);
    }
  }

  lemma {:induction false} LowOfShl(x: nat, n: nat, k: nat)
    ensures Low(Shl(x, k), n + k) == Shl(Low(x, n), k)
  {
    if k > 0 { LowOfShl(x, n, k - 1); }
  }

  lemma Pow2Eight()
    ensures Pow2(8) == 256 && Pow2(16) == 0x1_0000 && Pow2(32) == 0x1_0000_0000
  {
    Pow2Add(4, 4);
    assert Pow2(4) == 16;
    Pow2Add(8, 8);
    Pow2Add(16, 16);
  }

  /** One table look-up advances a reflected register by a whole byte. */
  lemma TableStepReflected(m: Model, reg: nat, b: Byte)
    requires Normal(m) && m.width >= 8 && m.refin
    ensures Low(Xor(reg, b), 8) < 256
    ensures FeedBits(m, reg, b, 8) == Xor(Shr(reg, 8), TableEntry(m, Low(Xor(reg, b), 8)))
  {
    Pow2Eight();
    var x := Xor(reg, b);
    XorThenStep(m, reg, b, 8);
    LowBound(x, 8);
    SplitAt(x, 8);
    IterLinear(m, Shl(Shr(x, 8), 8), Low(x, 8), 8);
    IterShiftsDown(m, Shr(x, 8), 8);
    XorShr(reg, b, 8);
    ShrSmall(b, 8);
    XorZero(Shr(reg, 8));
  }

  /** Input placed at bit s only meets the part of the register above bit s. */
  lemma RegroupHigh(reg: nat, b: nat, s: nat)
    ensures Xor(reg, Shl(b, s)) == Xor(Low(reg, s), Shl(Xor(Shr(reg, s), b), s))
  {
    var hi, low := Shr(reg, s), Low(reg, s);
    SplitAt(reg, s);
    XorComm(Shl(hi, s), low);
    XorAssoc(low, Shl(hi, s), Shl(b, s));
    XorShl(hi, b, s);
  }

  /** n bits of input: the high part of the register indexes a table, the low part shifts up. */
  lemma TableStepHigh(m: Model, reg: nat, b: nat, n: nat)
    requires Normal(m) && n <= m.width && !m.refin && reg < Pow2(m.width) && b < Pow2(n)
    ensures Xor(Shr(reg, m.width - n), b) < Pow2(n)
    ensures FeedBits(m, reg, b, n)
         == Xor(Low(Shl(reg, n), m.width), Iter(m, Shl(Xor(Shr(reg, m.width - n), b), m.width - n), n))
  {
    hide Iter;
    hide FeedBits;
    hide Xor;
    hide Pow2;
    var s := m.width - n;
    var hi, low := Shr(reg, s), Low(reg, s);
    var h := Xor(hi, b);
    assert h < Pow2(n) by {
      ShrBound(reg, s, n);
      XorBound(hi, b, n);
    }
    assert FeedBits(m, reg, b, n) == Iter(m, Xor(low, Shl(h, s)), n) by {
      XorThenStep(m, reg, b, n);
      RegroupHigh(reg, b, s);
    }
    assert Iter(m, low, n) == Low(Shl(reg, n), m.width) by {
      LowBound(reg, s);
      IterShiftsUp(m, low, n);
      LowOfShl(reg, s, n);
    }
    IterLinear(m, low, Shl(h, s), n);
  }

  /** One table look-up advances an unreflected register by a whole byte. */
  lemma TableStepPlain(m: Model, reg: nat, b: Byte)
    requires Normal(m) && m.width >= 8 && !m.refin && reg < Pow2(m.width)
    ensures Xor(Shr(reg, m.width - 8), b) < 256
    ensures FeedBits(m, reg, b, 8)
         == Xor(Low(Shl(reg, 8), m.width), TableEntry(m, Xor(Shr(reg, m.width - 8), b)))
  {
    Pow2Eight();
    TableStepHigh(m, reg, b, 8);
  }

  // ---- Reflection ----

  function Reflect(v: nat, width: nat): nat
  {
    if width == 0 then 0 else Shl(v % 2, width - 1) + Reflect(v / 2, width - 1)
  }

  function ReflectBytes(data: seq<Byte>): (r: seq<Byte>)
    ensures |r| == |data|
  {
    seq(|data|, i requires 0 <= i < |data| => ReflectByte(data[i]))
  }

  function ReflectByte(b: Byte): Byte {
    Pow2Eight();
    ReflectBound(b, 8);
    Reflect(b, 8)
  }

  lemma {:induction false} ReflectBound(v: nat, width: nat)
    ensures Reflect(v, width) < Pow2(width)
  {
    if width > 0 {
      ReflectBound(v / 2, width - 1);
      BitShl(v % 2, width - 1);
    }
  }

  lemma BitShl(b: nat, k: nat)
    requires b < 2
    ensures Shl(b, k) == if b == 1 then Pow2(k) else 0
  {
    ShlZero(k);
    ShlOne(k);
  }

  /** Reflection as "high output bit is the low input bit" and, equally, as
      "low output bit is the high input bit". */
  lemma {:induction false} ReflectEnds(v: nat, width: nat)
    requires width >= 1
    ensures Reflect(v, width) % 2 == Shr(v, width - 1) % 2
    ensures Reflect(v, width) / 2 == Reflect(Low(v, width - 1), width - 1)
  {
    if width > 1 {
      ReflectEnds(v / 2, width - 1);
      assert Low(v, width - 1) % 2 == v % 2 && Low(v, width - 1) / 2 == Low(v / 2, width - 2);
      assert Shl(v % 2, width - 1) == 2 * Shl(v % 2, width - 2);
    }
  }

  lemma {:induction false} ReflectXor(x: nat, y: nat, width: nat)
    ensures Reflect(Xor(x, y), width) == Xor(Reflect(x, width), Reflect(y, width))
  {
    if width > 0 {
      XorBits(x, y);
      ReflectXor(x / 2, y / 2, width - 1);
      ReflectSplit(x, width);
      ReflectSplit(y, width);
      ReflectSplit(Xor(x, y), width);
      var bitX, bitY, k := x % 2, y % 2, width - 1;
      XorShl(bitX, bitY, k);
      XorSwap(Shl(bitX, k), Reflect(x / 2, k), Shl(bitY, k), Reflect(y / 2, k));
    }
  }

  lemma ReflectSplit(v: nat, width: nat)
    requires width >= 1
    ensures Reflect(v, width) == Xor(Shl(v % 2, width - 1), Reflect(v / 2, width - 1))
  {
    ReflectBound(v / 2, width - 1);
    ShrOfShlPlus(v % 2, Reflect(v / 2, width - 1), width - 1);
    SplitAt(Reflect(v, width), width - 1);
  }

  lemma {:induction false} ShrOfShlPlus(h: nat, low: nat, k: nat)
    requires low < Pow2(k)
    ensures Shr(Shl(h, k) + low, k) == h && Low(Shl(h, k) + low, k) == low
  {
    if k > 0 {
      ShrOfShlPlus(h, low / 2, k - 1);
      assert (Shl(h, k) + low) / 2 == Shl(h, k - 1) + low / 2;
    }
  }

  /** Reflecting twice gives the value back. */
  lemma {:induction false} ReflectTwice(v: nat, width: nat)
    requires v < Pow2(width)
    ensures Reflect(Reflect(v, width), width) == v
  {
    hide Shl;
    hide Shr;
    hide Low;
    if width > 0 {
      ReflectTwice(v / 2, width - 1);
      ReflectBound(v / 2, width - 1);
      ShrOfShlPlus(v % 2, Reflect(v / 2, width - 1), width - 1);
      ReflectEnds(Reflect(v, width), width);
    }
  }

  // ---- Reflected and unreflected engines mirror each other ----

  function Mirror(m: Model): Model {
    Model(m.width, Reflect(m.poly, m.width), !m.refin)
  }

  lemma StepMirror(m: Model, reg: nat)
    requires m.width >= 1 && !m.refin
    ensures Reflect(Step(m, reg), m.width) == Step(Mirror(m), Reflect(reg, m.width))
  {
    var w := m.width;
    ReflectEnds(reg, w);
    assert Low(2 * reg, w) == 2 * Low(reg, w - 1);
    assert Reflect(Low(2 * reg, w), w) == Reflect(Low(reg, w - 1), w - 1) by { ShlZero(w - 1); }
    ReflectXor(Shift(m, reg), Select(OutBit(m, reg), m.poly), w);
    ReflectZero(w);
  }

  lemma {:induction false} ReflectZero(width: nat)
    ensures Reflect(0, width) == 0
  {
    if width > 0 {
      ReflectZero(width - 1);
      ShlZero(width - 1);
    }
  }

  lemma FeedBitMirror(m: Model, reg: nat, bit: nat)
    requires m.width >= 1 && !m.refin && bit < 2
    ensures Reflect(FeedBit(m, reg, bit), m.width) == FeedBit(Mirror(m), Reflect(reg, m.width), bit)
  {
    var w := m.width;
    var p := Shl(bit, w - 1);
    assert Reflect(p, w) == bit by {
      ReflectEnds(p, w);
      ShrOfShl(bit, w - 1);
      ReflectZero(w - 1);
    }
    ReflectXor(reg, p, w);
    StepMirror(m, Xor(reg, p));
  }

  lemma {:induction false} FeedBitsMirror(m: Model, reg: nat, v: nat, n: nat)
    requires m.width >= 1 && !m.refin
    ensures Reflect(FeedBits(m, reg, Reflect(v, n), n), m.width)
         == FeedBits(Mirror(m), Reflect(reg, m.width), v, n)
    decreases n
  {
    if n > 0 {
      var u, b, rest := Reflect(v, n), v % 2, Reflect(v / 2, n - 1);
      assert Shr(u, n - 1) == b && Low(u, n - 1) == rest by {
        ReflectBound(v / 2, n - 1);
        ShrOfShlPlus(b, rest, n - 1);
      }
      var next := FeedBit(m, reg, b);
      assert FeedBits(m, reg, u, n) == FeedBits(m, next, rest, n - 1);
      FeedBitMirror(m, reg, b);
      FeedBitsMirror(m, next, v / 2, n - 1);
    }
  }

  /** For every width, polynomial, register and message, the engine with reflected
      parameters computes the reflection of the other engine on reflected bytes. */
  lemma {:induction false} EnginesMirror(m: Model, reg: nat, data: seq<Byte>)
    requires m.width >= 1 && !m.refin
    ensures Feed(Mirror(m), Reflect(reg, m.width), data)
         == Reflect(Feed(m, reg, ReflectBytes(data)), m.width)
  {
    if data != [] {
      var front, last := data[..|data| - 1], data[|data| - 1];
      EnginesMirror(m, reg, front);
      assert ReflectBytes(data)[..|data| - 1] == ReflectBytes(front);
      FeedBitsMirror(m, Feed(m, reg, ReflectBytes(front)), last, 8);
    }
  }

  // ---- What the register means: the remainder of a polynomial division ----

  /** Carry-less multiplication: the product of polynomials over GF(2). */
  function Clmul(q: nat, p: nat): nat
  {
    if q == 0 then 0 else Xor(2 * Clmul(q / 2, p), Select(q % 2, p))
  }

  /** The generator polynomial, with the leading term the code leaves implicit. */
  function Generator(m: Model): nat {
    Pow2(m.width) + m.poly
  }

  /** The message as one polynomial, first bit first. */
  function Message(data: seq<Byte>): nat
  {
    if data == [] then 0 else Shl(Message(data[..|data| - 1]), 8) + data[|data| - 1]
  }

  lemma ClmulNext(q: nat, t: nat, p: nat)
    requires t < 2
    ensures Clmul(2 * q + t, p) == Xor(2 * Clmul(q, p), Select(t, p))
  {
    if 2 * q + t == 0 {
      assert Xor(0, 0) == 0;
    }
  }

  /** One step subtracts the generator exactly when the outgoing bit is set. */
  lemma StepSubtracts(m: Model, reg: nat)
    requires Normal(m) && !m.refin && reg < Pow2(m.width)
    ensures Step(m, reg) == Xor(2 * reg, Select(OutBit(m, reg), Generator(m)))
  {
    hide Xor;
    hide Low;
    hide OutBit;
    hide Generator;
    var w, t := m.width, OutBit(m, reg);
    var low, top := Low(2 * reg, w), Select(t, Pow2(w));
    TopAndRest(m, reg);
    if t == 1 {
      GeneratorSplit(m);
      XorCancelMiddle(low, top, m.poly);
    } else {
      XorZero(2 * reg);
      XorZero(low);
    }
  }

  /** Twice the register is its shifted rest with the bit that left it on top. */
  lemma TopAndRest(m: Model, reg: nat)
    requires Normal(m) && !m.refin && reg < Pow2(m.width)
    ensures OutBit(m, reg) < 2
    ensures 2 * reg == Xor(Low(2 * reg, m.width), Select(OutBit(m, reg), Pow2(m.width)))
  {
    hide Xor;
    hide Low;
    var w, t := m.width, OutBit(m, reg);
    assert Pow2(1) == 2;
    ShrBound(reg, w - 1, 1);
    assert Shr(2 * reg, w) == t;
    hide Shr;
    hide Shl;
    SplitAt(2 * reg, w);
    BitShl(t, w);
    XorComm(Low(2 * reg, w), Select(t, Pow2(w)));
  }

  lemma GeneratorSplit(m: Model)
    requires m.poly < Pow2(m.width)
    ensures Generator(m) == Xor(Pow2(m.width), m.poly)
  {
    ShlOne(m.width);
    ShrOfShlPlus(1, m.poly, m.width);
    SplitAt(Generator(m), m.width);
  }

  lemma XorCancelMiddle(a: nat, b: nat, c: nat)
    ensures Xor(Xor(a, b), Xor(b, c)) == Xor(a, c)
  {
    XorComm(b, c);
    XorCancel(a, c, b);
  }

  ghost predicate Divides(m: Model, q: nat, dividend: nat, remainder: nat) {
    dividend == Xor(Clmul(q, Generator(m)), remainder)
  }

  /** A common term on both sides cancels. */
  lemma XorCancel(a: nat, b: nat, c: nat)
    ensures Xor(Xor(a, c), Xor(b, c)) == Xor(a, b)
  {
    XorSwap(a, c, b, c);
    XorSelf(c);
    XorZero(Xor(a, b));
  }

  lemma DivideBit(m: Model, q: nat, x: nat, reg: nat, bit: nat) returns (q': nat)
    requires Normal(m) && !m.refin && reg < Pow2(m.width) && bit < 2
    requires Divides(m, q, x, reg)
    ensures Divides(m, q', Xor(2 * x, Shl(bit, m.width)), FeedBit(m, reg, bit))
  {
    var g, w := Generator(m), m.width;
    var c, p := Clmul(q, g), Shl(bit, w - 1);
    ShlBound(bit, w - 1, 1);
    XorBound(reg, p, w);
    var t := OutBit(m, Xor(reg, p));
    q' := 2 * q + t;
    ClmulNext(q, t, g);
    StepSubtracts(m, Xor(reg, p));
    XorCancel(2 * c, 2 * Xor(reg, p), Select(t, g));
    assert Xor(2 * c, 2 * Xor(reg, p)) == Xor(2 * x, 2 * p) by {
      Doubles(c, Xor(reg, p));
      XorAssoc(c, reg, p);
      Doubles(x, p);
    }
  }

  /** Appending the top bit of v and then the rest is appending v. */
  lemma RegroupBits(x: nat, v: nat, n: nat, w: nat)
    requires n >= 1
    ensures Xor(Shl(Xor(2 * x, Shl(Shr(v, n - 1), w)), n - 1), Shl(Low(v, n - 1), w))
         == Xor(Shl(x, n), Shl(v, w))
  {
    var t, low := Shr(v, n - 1), Low(v, n - 1);
    XorShl(2 * x, Shl(t, w), n - 1);
    assert Shl(2 * x, n - 1) == Shl(x, n) by {
      assert Shl(x, 1) == 2 * Shl(x, 0);
      ShlAdd(x, 1, n - 1);
    }
    ShlAdd(t, w, n - 1);
    XorAssoc(Shl(x, n), Shl(t, w + (n - 1)), Shl(low, w));
    ShlSplit(v, n - 1, w);
  }

  lemma {:induction false} DivideBits(m: Model, q: nat, x: nat, reg: nat, v: nat, n: nat) returns (q': nat)
    requires Normal(m) && !m.refin && reg < Pow2(m.width) && v < Pow2(n)
    requires Divides(m, q, x, reg)
    ensures Divides(m, q', Xor(Shl(x, n), Shl(v, m.width)), FeedBits(m, reg, v, n))
    decreases n
  {
    hide Xor;
    hide Divides;
    hide Step;
    if n == 0 {
      ShlZero(m.width);
      XorZero(x);
      q' := q;
    } else {
      var t, low, w := Shr(v, n - 1), Low(v, n - 1), m.width;
      assert t < 2 by { ShrBound(v, n - 1, 1); }
      assert low < Pow2(n - 1) by { LowBound(v, n - 1); }
      var next := FeedBit(m, reg, t);
      assert next < Pow2(w) by { FeedBitRange(m, reg, t); }
      var q1 := DivideBit(m, q, x, reg, t);
      q' := DivideBits(m, q1, Xor(2 * x, Shl(t, w)), next, low, n - 1);
      assert FeedBits(m, reg, v, n) == FeedBits(m, next, low, n - 1);
      RegroupBits(x, v, n, w);
    }
  }

  lemma DivideByte(m: Model, q: nat, msg: nat, rest: nat, reg: nat, v: nat, n: nat) returns (q': nat)
    requires Normal(m) && !m.refin && reg < Pow2(m.width) && v < Pow2(n)
    requires Divides(m, q, Xor(Shl(msg, m.width), rest), reg)
    ensures Divides(m, q', Xor(Shl(Shl(msg, n) + v, m.width), Shl(rest, n)), FeedBits(m, reg, v, n))
  {
    var w := m.width;
    q' := DivideBits(m, q, Xor(Shl(msg, w), rest), reg, v, n);
    RegroupMessage(msg, rest, v, n, w);
  }

  lemma RegroupMessage(msg: nat, rest: nat, v: nat, n: nat, w: nat)
    requires v < Pow2(n)
    ensures Xor(Shl(Xor(Shl(msg, w), rest), n), Shl(v, w))
         == Xor(Shl(Shl(msg, n) + v, w), Shl(rest, n))
  {
    var a, b, c := Shl(msg, w + n), Shl(rest, n), Shl(v, w);
    XorShl(Shl(msg, w), rest, n);
    ShlAdd(msg, w, n);
    XorAssoc(a, b, c);
    XorComm(b, c);
    XorAssoc(a, c, b);
    ShrOfShlPlus(msg, v, n);
    ShlSplit(Shl(msg, n) + v, n, w);
  }

  /** The register after any message is the remainder, on division by the generator,
      of message * x^width plus the initial register moved past the message. Together
      with FeedRange (degree below the width) this determines it. */
  lemma {:induction false} RegisterIsRemainder(m: Model, init: nat, data: seq<Byte>) returns (q: nat)
    requires Normal(m) && !m.refin && init < Pow2(m.width)
    ensures Divides(m, q, Xor(Shl(Message(data), m.width), Shl(init, 8 * |data|)), Feed(m, init, data))
  {
    if data == [] {
      ShlZero(m.width);
      XorZero(init);
      q := 0;
    } else {
      var front, last, w := data[..|data| - 1], data[|data| - 1], m.width;
      var q0 := RegisterIsRemainder(m, init, front);
      FeedRange(m, init, front);
      Pow2Eight();
      q := DivideByte(m, q0, Message(front), Shl(init, 8 * |front|), Feed(m, init, front), last, 8);
      ShlAdd(init, 8 * |front|, 8);
    }
  }

  lemma {:induction false} ClmulXor(q: nat, r: nat, p: nat)
    ensures Clmul(Xor(q, r), p) == Xor(Clmul(q, p), Clmul(r, p))
  {
    if q > 0 || r > 0 {
      XorBits(q, r);
      ClmulXor(q / 2, r / 2, p);
      ClmulNext(q / 2, q % 2, p);
      ClmulNext(r / 2, r % 2, p);
      ClmulNext(Xor(q, r) / 2, Xor(q, r) % 2, p);
      SelectXor(q % 2, r % 2, p);
      Doubles(Clmul(q / 2, p), Clmul(r / 2, p));
      XorSwap(2 * Clmul(q / 2, p), Select(q % 2, p), 2 * Clmul(r / 2, p), Select(r % 2, p));
    } else {
      assert Xor(0, 0) == 0;
    }
  }

  lemma {:induction false} XorKeepsHigh(x: nat, y: nat, k: nat)
    requires x >= Pow2(k) && y < Pow2(k)
    ensures Xor(x, y) >= Pow2(k)
  {
    if k > 0 {
      XorKeepsHigh(x / 2, y / 2, k - 1);
      XorBits(x, y);
    } else {
      XorZero(x);
    }
  }

  lemma {:induction false} ClmulLarge(q: nat, m: Model)
    requires q > 0 && m.poly < Pow2(m.width)
    ensures Clmul(q, Generator(m)) >= Pow2(m.width)
  {
    var g, h := Generator(m), q / 2;
    ClmulNext(h, q % 2, g);
    if h == 0 {
      XorZero(g);
    } else {
      ClmulLarge(h, m);
      XorKeepsHigh(2 * Clmul(h, g), Select(q % 2, g), m.width + 1);
    }
  }

  /** At most one value of degree below the width is a remainder of a given dividend. */
  lemma RemainderUnique(m: Model, x: nat, q: nat, r: nat, q': nat, r': nat)
    requires Normal(m) && r < Pow2(m.width) && r' < Pow2(m.width)
    requires Divides(m, q, x, r) && Divides(m, q', x, r')
    ensures r == r'
  {
    var g := Generator(m);
    var c, c' := Clmul(q, g), Clmul(q', g);
    XorSwap(c, r, c', r');
    XorSelf(x);
    ClmulXor(q, q', g);
    XorBound(r, r', m.width);
    XorZeroMeansEqual(Xor(c, c'), Xor(r, r'));
    if Xor(q, q') > 0 {
      ClmulLarge(Xor(q, q'), m);
    } else {
      assert Clmul(0, g) == 0;
    }
    XorZeroMeansEqual(r, r');
  }

  lemma {:induction false} XorZeroMeansEqual(x: nat, y: nat)
    requires Xor(x, y) == 0
    ensures x == y
  {
    if x > 0 || y > 0 {
      XorBits(x, y);
      XorZeroMeansEqual(x / 2, y / 2);
    }
  }
}
