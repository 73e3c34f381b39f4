/** What the CRC is for: two messages that differ in one burst of at most `width` bits never have the
    same value, if and only if the polynomial has its constant term. */
module CrcDetect {
  import opened Bits
  import opened Crc
  import opened CrcEngine

  // ---- Messages as bits in wire order ----

  function FeedSeq(m: Model, reg: nat, bits: seq<nat>): nat
    requires m.width >= 1
    decreases |bits|
  {
    if bits == [] then reg else FeedSeq(m, FeedBit(m, reg, bits[0]), bits[1..])
  }

  /** The n bits of v: low bit first when reflected, high bit first otherwise. */
  function Wire(refin: bool, v: nat, n: nat): (r: seq<nat>)
    ensures |r| == n
    decreases n, v
  {
    if n == 0 then []
    else if refin then [v % 2] + Wire(refin, v / 2, n - 1)
    else [Shr(v, n - 1) % 2] + Wire(refin, Low(v, n - 1), n - 1)
  }

  function WireAll(refin: bool, data: seq<Byte>): (r: seq<nat>)
    ensures |r| == 8 * |data|
  {
    if data == [] then [] else WireAll(refin, data[..|data| - 1]) + Wire(refin, data[|data| - 1], 8)
  }

  ghost predicate Bits01(bits: seq<nat>) {
    forall i :: 0 <= i < |bits| ==> bits[i] < 2
  }

  lemma {:induction false} WireIsBits(refin: bool, v: nat, n: nat)
    ensures Bits01(Wire(refin, v, n))
    decreases n
  {
    if n > 0 { WireIsBits(refin, if refin then v / 2 else Low(v, n - 1), n - 1); }
  }

  lemma {:induction false} WireAllIsBits(refin: bool, data: seq<Byte>)
    ensures Bits01(WireAll(refin, data))
  {
    if data != [] {
      WireAllIsBits(refin, data[..|data| - 1]);
      WireIsBits(refin, data[|data| - 1], 8);
    }
  }

  lemma {:induction false} FeedSeqConcat(m: Model, reg: nat, a: seq<nat>, b: seq<nat>)
    requires m.width >= 1
    ensures FeedSeq(m, reg, a + b) == FeedSeq(m, FeedSeq(m, reg, a), b)
    decreases |a|
  {
    hide FeedBit;
    if a == [] {
      assert a + b == b;
    } else {
      assert (a + b)[1..] == a[1..] + b;
      FeedSeqConcat(m, FeedBit(m, reg, a[0]), a[1..], b);
    }
  }

  lemma {:induction false} WireFeeds(m: Model, reg: nat, v: nat, n: nat)
    requires m.width >= 1
    ensures FeedSeq(m, reg, Wire(m.refin, v, n)) == FeedBits(m, reg, v, n)
    decreases n
  {
    hide FeedBit;
    if n > 0 {
      var w := Wire(m.refin, v, n);
      if m.refin {
        assert w[1..] == Wire(true, v / 2, n - 1);
        WireFeeds(m, FeedBit(m, reg, v % 2), v / 2, n - 1);
      } else {
        assert w[1..] == Wire(false, Low(v, n - 1), n - 1);
        WireFeeds(m, FeedBit(m, reg, Shr(v, n - 1) % 2), Low(v, n - 1), n - 1);
      }
    }
  }

  /** The engines feed exactly the wire bits. */
  lemma {:induction false} FeedIsWire(m: Model, reg: nat, data: seq<Byte>)
    requires m.width >= 1
    ensures Feed(m, reg, data) == FeedSeq(m, reg, WireAll(m.refin, data))
  {
    hide FeedBits;
    hide FeedSeq;
    if data == [] {
      FeedNone(m, reg);
    } else {
      var front, last := data[..|data| - 1], data[|data| - 1];
      FeedIsWire(m, reg, front);
      WireFeeds(m, Feed(m, reg, front), last, 8);
      FeedSeqConcat(m, reg, WireAll(m.refin, front), Wire(m.refin, last, 8));
    }
  }

  lemma FeedNone(m: Model, reg: nat)
    requires m.width >= 1
    ensures FeedSeq(m, reg, []) == reg
  {
  }

  /** The number whose wire bits these are. */
  function Num(refin: bool, bits: seq<nat>): nat
    decreases |bits|
  {
    if bits == [] then 0
    else if refin then bits[0] + 2 * Num(refin, bits[1..])
    else Shl(bits[0], |bits| - 1) + Num(refin, bits[1..])
  }

  lemma {:induction false} NumBound(refin: bool, bits: seq<nat>)
    requires Bits01(bits)
    ensures Num(refin, bits) < Pow2(|bits|)
    decreases |bits|
  {
    if bits != [] {
      NumBound(refin, bits[1..]);
      BitShl(bits[0], |bits| - 1);
    }
  }

  lemma {:induction false} WireOfNum(refin: bool, bits: seq<nat>)
    requires Bits01(bits)
    ensures Wire(refin, Num(refin, bits), |bits|) == bits
    decreases |bits|
  {
    hide Shl;
    hide Shr;
    hide Low;
    if bits != [] {
      var rest := bits[1..];
      WireOfNum(refin, rest);
      assert bits == [bits[0]] + rest;
      if refin {
        LowBitOf(bits[0], Num(true, rest));
      } else {
        NumBound(false, rest);
        ShrOfShlPlus(bits[0], Num(false, rest), |rest|);
      }
    }
  }

  lemma LowBitOf(b: nat, x: nat)
    requires b < 2
    ensures (b + 2 * x) % 2 == b && (b + 2 * x) / 2 == x
  {
  }

  lemma TopBit(v: nat, n: nat)
    requires n > 0 && v < Pow2(n)
    ensures Shl(Shr(v, n - 1) % 2, n - 1) + Low(v, n - 1) == v
  {
    hide Shl;
    hide Low;
    assert Pow2(1) == 2;
    ShrBound(v, n - 1, 1);
    hide Shr;
    SplitAt(v, n - 1);
  }

  lemma {:induction false} NumOfWire(refin: bool, v: nat, n: nat)
    requires v < Pow2(n)
    ensures Num(refin, Wire(refin, v, n)) == v
    decreases n
  {
    if n > 0 {
      var w := Wire(refin, v, n);
      if refin {
        assert w[1..] == Wire(true, v / 2, n - 1);
        NumOfWire(true, v / 2, n - 1);
      } else {
        assert w[1..] == Wire(false, Low(v, n - 1), n - 1);
        LowBound(v, n - 1);
        NumOfWire(false, Low(v, n - 1), n - 1);
        TopBit(v, n);
      }
    }
  }

  // ---- The register step is one-to-one exactly with a constant term ----

  /** The generator polynomial has the term of degree 0. */
  predicate HasConstant(m: Model)
    requires m.width >= 1
  {
    if m.refin then m.poly >= Pow2(m.width - 1) else m.poly % 2 == 1
  }

  lemma StepKernel(m: Model, z: nat)
    requires Normal(m) && HasConstant(m) && z < Pow2(m.width) && Step(m, z) == 0
    ensures z == 0
  {
    hide Xor;
    hide Low;
    hide Shr;
    XorZeroMeansEqual(Shift(m, z), Select(OutBit(m, z), m.poly));
    if !m.refin { PlainKernel(m, z); }
  }

  lemma PlainKernel(m: Model, z: nat)
    requires Normal(m) && !m.refin && HasConstant(m) && z < Pow2(m.width)
    requires Low(2 * z, m.width) == Select(Shr(z, m.width - 1) % 2, m.poly)
    ensures z == 0
  {
    hide Shl;
    hide Shr;
    var w := m.width;
    LowDoubles(z, w);
    ShrBound(z, w - 1, 1);
    assert Pow2(1) == 2;
    SplitAt(z, w - 1);
    ShlZero(w - 1);
    hide Low;
  }

  /** Without the constant term one register other than zero is stepped to zero. */
  lemma NotOneToOne(m: Model) returns (z: nat)
    requires Normal(m) && !HasConstant(m)
    ensures 0 < z < Pow2(m.width) && Step(m, z) == 0
  {
    if m.refin {
      z := 2 * m.poly + 1;
      ReflectedToZero(m);
    } else {
      z := Shl(1, m.width - 1) + m.poly / 2;
      PlainToZero(m);
    }
  }

  lemma ReflectedToZero(m: Model)
    requires Normal(m) && m.refin && m.poly < Pow2(m.width - 1)
    ensures 2 * m.poly + 1 < Pow2(m.width) && Step(m, 2 * m.poly + 1) == 0
  {
    hide Xor;
    assert (2 * m.poly + 1) / 2 == m.poly;
    XorSelf(m.poly);
  }

  lemma PlainToZero(m: Model)
    requires Normal(m) && !m.refin && m.poly % 2 == 0
    ensures 0 < Shl(1, m.width - 1) + m.poly / 2 < Pow2(m.width) && Step(m, Shl(1, m.width - 1) + m.poly / 2) == 0
  {
    hide Xor;
    hide Shl;
    hide Shr;
    var p, k := m.poly / 2, m.width - 1;
    var z := Shl(1, k) + p;
    ShlOne(k);
    ShrOfShlPlus(1, p, k);
    LowDoubles(z, m.width);
    XorSelf(m.poly);
  }

  lemma LowDoubles(z: nat, w: nat)
    requires w >= 1
    ensures Low(2 * z, w) == 2 * Low(z, w - 1)
  {
    assert (2 * z) / 2 == z;
  }

  lemma StepZero(m: Model)
    requires Normal(m)
    ensures Step(m, 0) == 0
  {
    LowZero(m.width);
    ShrSmall(0, m.width - 1);
  }

  lemma {:induction false} IterZero(m: Model, k: nat)
    requires Normal(m)
    ensures Iter(m, 0, k) == 0
    decreases k
  {
    hide Step;
    StepZero(m);
    if k > 0 { IterZero(m, k - 1); }
  }

  lemma {:induction false} IterKernel(m: Model, z: nat, k: nat)
    requires Normal(m) && HasConstant(m) && z < Pow2(m.width) && Iter(m, z, k) == 0
    ensures z == 0
    decreases k
  {
    hide Step;
    if k > 0 {
      StepRange(m, z);
      IterKernel(m, Step(m, z), k - 1);
      StepKernel(m, z);
    }
  }

  lemma IterOneToOne(m: Model, x: nat, y: nat, k: nat)
    requires Normal(m) && HasConstant(m) && x < Pow2(m.width) && y < Pow2(m.width) && Iter(m, x, k) == Iter(m, y, k)
    ensures x == y
  {
    hide Iter;
    hide Xor;
    IterLinear(m, x, y, k);
    XorSelf(Iter(m, x, k));
    XorBound(x, y, m.width);
    IterKernel(m, Xor(x, y), k);
    XorZeroMeansEqual(x, y);
  }

  // ---- Bursts ----

  lemma PlaceBound(m: Model, v: nat, n: nat)
    requires Normal(m) && n <= m.width && v < Pow2(n)
    ensures Place(m, v, n) < Pow2(m.width)
  {
    hide Shl;
    hide Pow2;
    Pow2Mono(n, m.width);
    ShlBound(v, m.width - n, n);
  }

  lemma PlaceOneToOne(m: Model, v: nat, u: nat, n: nat)
    requires n <= m.width && Place(m, v, n) == Place(m, u, n)
    ensures v == u
  {
    ShrOfShl(v, m.width - n);
    ShrOfShl(u, m.width - n);
  }

  lemma XorOneToOne(a: nat, b: nat, c: nat)
    requires Xor(a, b) == Xor(a, c)
    ensures b == c
  {
    hide Xor;
    XorCancel(b, c, a);
    XorComm(a, b);
    XorComm(a, c);
    XorSelf(Xor(a, b));
    XorZeroMeansEqual(b, c);
  }

  /** Up to `width` bits reach the register without any two of them coinciding. */
  lemma WindowOneToOne(m: Model, reg: nat, a: seq<nat>, b: seq<nat>)
    requires Normal(m) && HasConstant(m) && reg < Pow2(m.width) && |a| == |b| <= m.width && Bits01(a) && Bits01(b)
    requires FeedSeq(m, reg, a) == FeedSeq(m, reg, b)
    ensures a == b
  {
    hide FeedSeq;
    hide FeedBits;
    hide Iter;
    hide Xor;
    hide Wire;
    hide Num;
    hide HasConstant;
    var n, v, u := |a|, Num(m.refin, a), Num(m.refin, b);
    NumBound(m.refin, a);
    NumBound(m.refin, b);
    WireOfNum(m.refin, a);
    WireOfNum(m.refin, b);
    WireFeeds(m, reg, v, n);
    WireFeeds(m, reg, u, n);
    XorThenStep(m, reg, v, n);
    XorThenStep(m, reg, u, n);
    PlaceBound(m, v, n);
    PlaceBound(m, u, n);
    XorBound(reg, Place(m, v, n), m.width);
    XorBound(reg, Place(m, u, n), m.width);
    IterOneToOne(m, Xor(reg, Place(m, v, n)), Xor(reg, Place(m, u, n)), n);
    XorOneToOne(reg, Place(m, v, n), Place(m, u, n));
    PlaceOneToOne(m, v, u, n);
  }

  /** Registers that differ still differ after the same further bits. */
  lemma {:induction false} TailOneToOne(m: Model, x: nat, y: nat, bits: seq<nat>)
    requires Normal(m) && HasConstant(m) && x < Pow2(m.width) && y < Pow2(m.width) && Bits01(bits)
    requires FeedSeq(m, x, bits) == FeedSeq(m, y, bits)
    ensures x == y
    decreases |bits|
  {
    hide FeedBit;
    hide HasConstant;
    if bits != [] {
      FeedBitRange(m, x, bits[0]);
      FeedBitRange(m, y, bits[0]);
      TailOneToOne(m, FeedBit(m, x, bits[0]), FeedBit(m, y, bits[0]), bits[1..]);
      BitOneToOne(m, x, y, bits[0]);
    }
  }

  lemma BitOneToOne(m: Model, x: nat, y: nat, bit: nat)
    requires Normal(m) && HasConstant(m) && x < Pow2(m.width) && y < Pow2(m.width) && bit < 2
    requires FeedBit(m, x, bit) == FeedBit(m, y, bit)
    ensures x == y
  {
    hide Step;
    hide Xor;
    hide HasConstant;
    hide Place;
    var p := Place(m, bit, 1);
    assert Pow2(1) == 2;
    PlaceBound(m, bit, 1);
    XorBound(x, p, m.width);
    XorBound(y, p, m.width);
    OneStep(m, Xor(x, p));
    OneStep(m, Xor(y, p));
    IterOneToOne(m, Xor(x, p), Xor(y, p), 1);
    XorComm(x, p);
    XorComm(y, p);
    XorOneToOne(p, x, y);
  }

  lemma OneStep(m: Model, z: nat)
    requires m.width >= 1
    ensures Iter(m, z, 1) == Step(m, z)
  {
  }

  lemma {:induction false} FeedSeqRange(m: Model, reg: nat, bits: seq<nat>)
    requires Normal(m) && reg < Pow2(m.width) && Bits01(bits)
    ensures FeedSeq(m, reg, bits) < Pow2(m.width)
    decreases |bits|
  {
    hide FeedBit;
    if bits != [] {
      FeedBitRange(m, reg, bits[0]);
      FeedSeqRange(m, FeedBit(m, reg, bits[0]), bits[1..]);
    }
  }

  /** A burst of at most `width` bits, anywhere in a message, changes the register. */
  lemma BurstChangesRegister(m: Model, reg: nat, pre: seq<nat>, a: seq<nat>, b: seq<nat>, post: seq<nat>)
    requires Normal(m) && HasConstant(m) && reg < Pow2(m.width) && Bits01(pre) && Bits01(a) && Bits01(b) && Bits01(post)
    requires |a| == |b| <= m.width && a != b
    ensures FeedSeq(m, reg, pre + a + post) != FeedSeq(m, reg, pre + b + post)
  {
    hide FeedSeq;
    hide HasConstant;
    FeedSeqConcat(m, reg, pre + a, post);
    FeedSeqConcat(m, reg, pre + b, post);
    FeedSeqConcat(m, reg, pre, a);
    FeedSeqConcat(m, reg, pre, b);
    FeedSeqRange(m, reg, pre);
    var r := FeedSeq(m, reg, pre);
    FeedSeqRange(m, r, a);
    FeedSeqRange(m, r, b);
    if FeedSeq(m, FeedSeq(m, r, a), post) == FeedSeq(m, FeedSeq(m, r, b), post) {
      TailOneToOne(m, FeedSeq(m, r, a), FeedSeq(m, r, b), post);
      WindowOneToOne(m, r, a, b);
    }
  }

  ghost predicate DetectsBursts(m: Model)
    requires m.width >= 1
  {
    forall reg: nat, pre, a, b, post ::
      reg < Pow2(m.width) && Bits01(pre) && Bits01(a) && Bits01(b) && Bits01(post) && |a| == |b| <= m.width && a != b ==>
        FeedSeq(m, reg, pre + a + post) != FeedSeq(m, reg, pre + b + post)
  }

  /** All such bursts are detected if and only if the polynomial has its constant term. */
  lemma BurstsDetectedIff(m: Model)
    requires Normal(m)
    ensures DetectsBursts(m) <==> HasConstant(m)
  {
    if HasConstant(m) {
      forall reg: nat, pre, a, b, post
        | reg < Pow2(m.width) && Bits01(pre) && Bits01(a) && Bits01(b) && Bits01(post) && |a| == |b| <= m.width && a != b
        ensures FeedSeq(m, reg, pre + a + post) != FeedSeq(m, reg, pre + b + post)
      {
        BurstChangesRegister(m, reg, pre, a, b, post);
      }
    } else {
      UndetectedBurst(m);
    }
  }

  lemma UndetectedBurst(m: Model)
    requires Normal(m) && !HasConstant(m)
    ensures !DetectsBursts(m)
  {
    hide FeedSeq;
    hide FeedBits;
    hide Iter;
    hide Step;
    hide Wire;
    hide Xor;
    hide HasConstant;
    var w := m.width;
    var z := NotOneToOne(m);
    var a, b := Wire(m.refin, z, w), Wire(m.refin, 0, w);
    WireIsBits(m.refin, z, w);
    WireIsBits(m.refin, 0, w);
    NumOfWire(m.refin, z, w);
    NumOfWire(m.refin, 0, w);
    WindowVanishes(m, 0, z);
    assert [] + a + [] == a && [] + b + [] == b;
    assert FeedSeq(m, 0, [] + a + []) == FeedSeq(m, 0, [] + b + []);
  }

  lemma IterFirst(m: Model, z: nat, k: nat)
    requires m.width >= 1 && k >= 1
    ensures Iter(m, z, k) == Iter(m, Step(m, z), k - 1)
  {
  }

  // ---- The value reported ----

  lemma ConstantTerm(p: Params)
    requires Usable(p)
    ensures HasConstant(EngineModel(p)) <==> p.poly % 2 == 1
  {
    hide Reflect;
    hide Low;
    hide Pow2;
    TopOfReflect(p.poly, p.width);
    LowParity(p.poly, p.width);
  }

  lemma TopOfReflect(x: nat, w: nat)
    requires w >= 1
    ensures Reflect(x, w) >= Pow2(w - 1) <==> x % 2 == 1
  {
    hide Shl;
    hide Pow2;
    BitShl(x % 2, w - 1);
    ReflectBound(x / 2, w - 1);
    ShlOne(w - 1);
    ShlZero(w - 1);
  }

  lemma LowParity(x: nat, w: nat)
    requires w >= 1
    ensures Low(x, w) % 2 == x % 2
  {
  }

  /** The output step loses nothing. */
  lemma FinalOneToOne(p: Params, x: nat, y: nat)
    requires Usable(p) && x < Pow2(p.width) && y < Pow2(p.width)
    requires Low(Xor(if p.refin != p.refout then Reflect(x, p.width) else x, p.xorOut), p.width)
          == Low(Xor(if p.refin != p.refout then Reflect(y, p.width) else y, p.xorOut), p.width)
    ensures x == y
  {
    hide Xor;
    hide Low;
    hide Reflect;
    var w := p.width;
    var x', y' := if p.refin != p.refout then Reflect(x, w) else x, if p.refin != p.refout then Reflect(y, w) else y;
    ReflectBound(x, w);
    ReflectBound(y, w);
    XorLow(x', p.xorOut, w);
    XorLow(y', p.xorOut, w);
    LowOfSmall(x', w);
    LowOfSmall(y', w);
    XorComm(x', Low(p.xorOut, w));
    XorComm(y', Low(p.xorOut, w));
    XorOneToOne(Low(p.xorOut, w), x', y');
    ReflectTwice(x, w);
    ReflectTwice(y, w);
  }

  /** The two messages differ, and only within n consecutive bits on the wire. */
  ghost predicate BurstApart(refin: bool, d: seq<Byte>, e: seq<Byte>, s: nat, n: nat) {
    && |d| == |e| && s + n <= 8 * |d|
    && var (x, y) := (WireAll(refin, d), WireAll(refin, e));
       x[..s] == y[..s] && x[s + n..] == y[s + n..] && x != y
  }

  /** For every usable parameter set whose polynomial is odd, two messages that differ in one burst of at
      most `width` bits have different CRC values. */
  lemma ValueDetectsBursts(p: Params, d: seq<Byte>, e: seq<Byte>, s: nat, n: nat)
    requires Usable(p) && p.poly % 2 == 1 && n <= p.width && BurstApart(p.refin, d, e, s, n)
    ensures Value(p, d) != Value(p, e)
  {
    hide Feed;
    hide FeedSeq;
    hide WireAll;
    hide HasConstant;
    var m, reg := EngineModel(p), StartReg(p);
    var x, y := WireAll(p.refin, d), WireAll(p.refin, e);
    ConstantTerm(p);
    WireAllIsBits(p.refin, d);
    WireAllIsBits(p.refin, e);
    FeedIsWire(m, reg, d);
    FeedIsWire(m, reg, e);
    assert x == x[..s] + x[s..s + n] + x[s + n..];
    assert y == x[..s] + y[s..s + n] + x[s + n..];
    BurstChangesRegister(m, reg, x[..s], x[s..s + n], y[s..s + n], x[s + n..]);
    FeedRange(m, reg, d);
    FeedRange(m, reg, e);
    if Value(p, d) == Value(p, e) {
      FinalOneToOne(p, Feed(m, reg, d), Feed(m, reg, e));
    }
  }

  /** The bytes whose wire bits these are. */
  ghost function Pack(refin: bool, bits: seq<nat>): (d: seq<Byte>)
    requires Bits01(bits) && |bits| % 8 == 0
    ensures 8 * |d| == |bits|
    decreases |bits|
  {
    if bits == [] then []
    else
      var k := |bits| - 8;
      assert Pow2(8) == 256;
      NumBound(refin, bits[k..]);
      Pack(refin, bits[..k]) + [Num(refin, bits[k..])]
  }

  lemma {:induction false} WireOfPack(refin: bool, bits: seq<nat>)
    requires Bits01(bits) && |bits| % 8 == 0
    ensures WireAll(refin, Pack(refin, bits)) == bits
    decreases |bits|
  {
    hide Num;
    hide Wire;
    if bits != [] {
      var k := |bits| - 8;
      var d := Pack(refin, bits);
      WireOfPack(refin, bits[..k]);
      WireOfNum(refin, bits[k..]);
      assert d[..|d| - 1] == Pack(refin, bits[..k]);
      assert bits == bits[..k] + bits[k..];
    }
  }

  /** A full window that steps to nothing leaves the register as a window of zeros does. */
  lemma WindowVanishes(m: Model, reg: nat, z: nat)
    requires Normal(m) && reg < Pow2(m.width) && z < Pow2(m.width) && Step(m, z) == 0
    ensures FeedSeq(m, reg, Wire(m.refin, z, m.width)) == FeedSeq(m, reg, Wire(m.refin, 0, m.width))
  {
    hide FeedSeq;
    hide FeedBits;
    hide Iter;
    hide Step;
    hide Wire;
    hide Xor;
    var w := m.width;
    Window(m, reg, z);
    Window(m, reg, 0);
    IterLinear(m, reg, z, w);
    IterLinear(m, reg, 0, w);
    IterFirst(m, z, w);
    IterZero(m, w - 1);
    IterZero(m, w);
  }

  lemma Window(m: Model, reg: nat, v: nat)
    requires Normal(m) && reg < Pow2(m.width) && v < Pow2(m.width)
    ensures FeedSeq(m, reg, Wire(m.refin, v, m.width)) == Iter(m, Xor(reg, v), m.width)
  {
    hide FeedSeq;
    hide FeedBits;
    hide Iter;
    hide Wire;
    WireFeeds(m, reg, v, m.width);
    XorThenStep(m, reg, v, m.width);
    assert Place(m, v, m.width) == v;
  }

  ghost predicate ValueDetects(p: Params) {
    forall d, e, s: nat, n: nat :: n <= p.width && BurstApart(p.refin, d, e, s, n) ==> Value(p, d) != Value(p, e)
  }

  /** For byte messages and the values reported: every burst of at most `width` bits is detected if and
      only if the polynomial is odd. */
  lemma ValueDetectsIff(p: Params)
    requires Usable(p)
    ensures ValueDetects(p) <==> p.poly % 2 == 1
  {
    hide Value;
    hide BurstApart;
    if p.poly % 2 == 1 {
      forall d, e, s: nat, n: nat | n <= p.width && BurstApart(p.refin, d, e, s, n) ensures Value(p, d) != Value(p, e) {
        ValueDetectsBursts(p, d, e, s, n);
      }
    } else {
      var d, e := UndetectedMessages(p);
    }
  }

  lemma UndetectedMessages(p: Params) returns (d: seq<Byte>, e: seq<Byte>)
    requires Usable(p) && p.poly % 2 == 0
    ensures BurstApart(p.refin, d, e, 0, p.width) && Value(p, d) == Value(p, e)
  {
    hide FeedSeq;
    hide Feed;
    hide Step;
    hide Wire;
    hide HasConstant;
    var m, reg, w := EngineModel(p), StartReg(p), p.width;
    ConstantTerm(p);
    var z := NotOneToOne(m);
    var a, b := Wire(p.refin, z, w), Wire(p.refin, 0, w);
    WireIsBits(p.refin, z, w);
    WireIsBits(p.refin, 0, w);
    NumOfWire(p.refin, z, w);
    NumOfWire(p.refin, 0, w);
    WindowVanishes(m, reg, z);
    d, e := Padded(m, reg, a, b);
  }

  /** Windows with the same effect, filled up with zeros to whole bytes. */
  lemma Padded(m: Model, reg: nat, a: seq<nat>, b: seq<nat>) returns (d: seq<Byte>, e: seq<Byte>)
    requires m.width >= 1 && |a| == |b| && Bits01(a) && Bits01(b) && a != b && FeedSeq(m, reg, a) == FeedSeq(m, reg, b)
    ensures BurstApart(m.refin, d, e, 0, |a|) && Feed(m, reg, d) == Feed(m, reg, e)
  {
    hide FeedSeq;
    hide Feed;
    hide Pack;
    hide WireAll;
    var post: seq<nat> := seq((8 - |a| % 8) % 8, _ => 0);
    assert |a + post| % 8 == 0 && |b + post| % 8 == 0;
    FeedSeqConcat(m, reg, a, post);
    FeedSeqConcat(m, reg, b, post);
    d, e := Pack(m.refin, a + post), Pack(m.refin, b + post);
    WireOfPack(m.refin, a + post);
    WireOfPack(m.refin, b + post);
    FeedIsWire(m, reg, d);
    FeedIsWire(m, reg, e);
    assert (a + post)[..|a|] == a && (b + post)[..|a|] == b;
    assert (a + post)[|a|..] == post && (b + post)[|a|..] == post;
  }

  /** Every reported value is the remainder of a polynomial division, reflected or not: of the message (its
      bytes reflected when the input is) with the initial value in front, by the polynomial as given;
      reflected if the output is, and xored. */
  lemma ValueIsRemainder(p: Params, data: seq<Byte>) returns (q: nat, r: nat)
    requires Usable(p)
    ensures var m := Model(p.width, Low(p.poly, p.width), false);
            var msg := if p.refin then ReflectBytes(data) else data;
            && r < Pow2(p.width)
            && Divides(m, q, Xor(Shl(Message(msg), p.width), Shl(Low(p.init, p.width), 8 * |data|)), r)
            && Value(p, data) == Low(Xor(if p.refout then Reflect(r, p.width) else r, p.xorOut), p.width)
  {
    hide Feed;
    hide Divides;
    hide Xor;
    hide Low;
    hide Reflect;
    var w := p.width;
    LowBound(p.poly, w);
    LowBound(p.init, w);
    var m := Model(w, Low(p.poly, w), false);
    var msg := if p.refin then ReflectBytes(data) else data;
    r := Feed(m, Low(p.init, w), msg);
    FeedRange(m, Low(p.init, w), msg);
    q := RegisterIsRemainder(m, Low(p.init, w), msg);
    if p.refin {
      ReflectOfLow(p.poly, w);
      ReflectOfLow(p.init, w);
      EnginesMirror(m, Low(p.init, w), data);
      assert EngineModel(p) == Mirror(m);
      ReflectTwice(r, w);
    }
  }
}
