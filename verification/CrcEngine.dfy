/** The engines as the library runs them: loops over machine words, one shared
    look-up table rebuilt on demand, and streams fed in segments. */
module CrcEngine {
  import opened Bits
  import opened Crc

  function Mask(width: nat): (m: nat)
    requires 1 <= width <= 32
    ensures m == Pow2(width) - 1
  {
    Pow2Eight();
    ShlOne(width);
    if width >= 32 then 0xFFFF_FFFF else Shl(1, width) - 1
  }

  // ---- One register step in the words of the code ----

  function StepRight(reg: nat, poly: nat, mask: nat): nat {
    And(if And(reg, 1) != 0 then Xor(Shr(reg, 1), poly) else Shr(reg, 1), mask)
  }

  function StepLeft(reg: nat, poly: nat, top: nat, mask: nat): nat {
    And(if And(reg, top) != 0 then Xor(Low(Shl(reg, 1), 32), poly) else Low(Shl(reg, 1), 32), mask)
  }

  lemma AndOne(x: nat)
    ensures And(x, 1) == x % 2
  {
    AndLowMask(x, 1);
    assert Low(x, 1) == 2 * Low(x / 2, 0) + x % 2;
  }

  lemma StepRightIsStep(m: Model, reg: nat)
    requires Normal(m) && m.refin && reg < Pow2(m.width)
    ensures StepRight(reg, m.poly, Pow2(m.width) - 1) == Step(m, reg)
  {
    AndOne(reg);
    assert Shr(reg, 1) == Shr(reg / 2, 0);
    XorZero(reg / 2);
    StepRange(m, reg);
    AndLowMask(Step(m, reg), m.width);
    LowOfSmall(Step(m, reg), m.width);
  }

  /** Truncating to the word and then masking to the width is masking to the width. */
  lemma MaskedXor(x: nat, poly: nat, width: nat, word: nat)
    requires width <= word && poly < Pow2(width)
    ensures And(Xor(Low(x, word), poly), Pow2(width) - 1) == Xor(Low(x, width), poly)
    ensures And(Low(x, word), Pow2(width) - 1) == Low(x, width)
  {
    AndLowMask(Low(x, word), width);
    AndLowMask(Xor(Low(x, word), poly), width);
    LowOfLow(x, width, word);
    XorLow(Low(x, word), poly, width);
    LowOfSmall(poly, width);
  }

  lemma StepLeftIsStep(m: Model, reg: nat)
    requires Normal(m) && !m.refin && reg < Pow2(m.width)
    ensures StepLeft(reg, m.poly, Pow2(m.width - 1), Pow2(m.width) - 1) == Step(m, reg)
  {
    assert And(reg, Pow2(m.width - 1)) != 0 <==> OutBit(m, reg) == 1 by { AndBit(reg, m.width - 1); }
    assert Shl(reg, 1) == 2 * reg by { assert Shl(reg, 0) == reg; }
    MaskedXor(2 * reg, m.poly, m.width, 32);
    if OutBit(m, reg) != 1 {
      XorZero(Low(2 * reg, m.width));
    }
  }

  // ---- Bit reversal ----

  method ReflectWord(value: nat, width: nat) returns (result: nat)
    requires 1 <= width <= 32
    ensures result == Reflect(value, width)
  {
    result := 0;
    var v := value;
    ShlZero(width);
    for i := 0 to width
      invariant Shl(result, width - i) + Reflect(v, width - i) == Reflect(value, width)
    {
      // (result << 1) | (value & 1): the low bit of the shifted word is clear.
      ShlJoin(result, v % 2, width - i - 1);
      result := 2 * result + v % 2;
      v := v / 2;
    }
  }

  lemma {:induction false} ShlJoin(x: nat, b: nat, k: nat)
    ensures Shl(2 * x + b, k) == Shl(x, k + 1) + Shl(b, k)
  {
    if k > 0 { ShlJoin(x, b, k - 1); }
  }

  // ---- Bitwise engine ----

  method FeedByte(start: nat, byte: Byte, refin: bool, poly: nat, width: nat, mask: nat) returns (reg: nat)
    requires Normal(Model(width, poly, refin)) && start < Pow2(width) && mask == Pow2(width) - 1
    ensures reg == FeedBits(Model(width, poly, refin), start, byte, 8)
    ensures reg < Pow2(width)
  {
    var m := Model(width, poly, refin);
    Pow2Eight();
    FeedBitsRange(m, start, byte, 8);
    if width >= 8 {
      XorThenStep(m, start, byte, 8);
      Pow2Mono(8, width);
      if refin {
        reg := Xor(start, byte);
        XorBound(start, byte, width);
        reg := StepsRight(m, reg, mask, 8);
      } else {
        reg := Xor(start, Shl(byte, width - 8));
        ShlBound(byte, width - 8, 8);
        XorBound(start, Shl(byte, width - 8), width);
        reg := StepsLeft(m, reg, mask, 8);
      }
    } else {
      if refin {
        reg := FeedNarrowRight(m, start, byte, mask, 8);
      } else {
        reg := FeedNarrowLeft(m, start, byte, mask, 8);
      }
    }
  }

  method StepsRight(m: Model, start: nat, mask: nat, count: nat) returns (reg: nat)
    requires Normal(m) && m.refin && start < Pow2(m.width) && mask == Pow2(m.width) - 1
    ensures reg == Iter(m, start, count)
  {
    reg := start;
    for i := 0 to count
      invariant reg < Pow2(m.width)
      invariant Iter(m, reg, count - i) == Iter(m, start, count)
    {
      StepRightIsStep(m, reg);
      StepRange(m, reg);
      reg := StepRight(reg, m.poly, mask);
    }
  }

  method StepsLeft(m: Model, start: nat, mask: nat, count: nat) returns (reg: nat)
    requires Normal(m) && !m.refin && start < Pow2(m.width) && mask == Pow2(m.width) - 1
    ensures reg == Iter(m, start, count)
  {
    reg := start;
    ShlOne(m.width - 1);
    var top := Shl(1, m.width - 1);
    for i := 0 to count
      invariant reg < Pow2(m.width)
      invariant Iter(m, reg, count - i) == Iter(m, start, count)
    {
      StepLeftIsStep(m, reg);
      StepRange(m, reg);
      reg := StepLeft(reg, m.poly, top, mask);
    }
  }

  lemma {:induction false} ShrNext(x: nat, i: nat)
    ensures Shr(x, i) / 2 == Shr(x, i + 1)
  {
    if i > 0 { ShrNext(x / 2, i - 1); }
  }

  lemma {:induction false} BitOfLow(x: nat, i: nat, k: nat)
    requires i < k
    ensures Shr(Low(x, k), i) % 2 == Shr(x, i) % 2
  {
    if i > 0 { BitOfLow(x / 2, i - 1, k - 1); }
  }

  /** Widths below eight take their input bit by bit, low bit first when reflected. */
  method FeedNarrowRight(m: Model, start: nat, byte: Byte, mask: nat, count: nat) returns (reg: nat)
    requires Normal(m) && m.refin && start < Pow2(m.width) && mask == Pow2(m.width) - 1
    ensures reg == FeedBits(m, start, byte, count)
  {
    reg := start;
    for i := 0 to count
      invariant reg < Pow2(m.width)
      invariant FeedBits(m, reg, Shr(byte, i), count - i) == FeedBits(m, start, byte, count)
    {
      ghost var bit := Shr(byte, i) % 2;
      AndOne(Shr(byte, i));
      ShrNext(byte, i);
      FeedBitRange(m, reg, bit);
      StepBitRange(m, reg, bit);
      StepRightIsStep(m, Xor(reg, bit));
      reg := StepRight(Xor(reg, And(Shr(byte, i), 1)), m.poly, mask);
    }
  }

  lemma FeedBitsUnfold(m: Model, reg: nat, v: nat, i: nat)
    requires m.width >= 1 && !m.refin
    ensures FeedBits(m, reg, Low(v, i + 1), i + 1)
         == FeedBits(m, FeedBit(m, reg, Shr(v, i) % 2), Low(v, i), i)
  {
    BitOfLow(v, i, i + 1);
    LowOfLow(v, i, i + 1);
  }

  lemma CodeBitLeft(m: Model, reg: nat, v: nat)
    requires Normal(m) && !m.refin && reg < Pow2(m.width)
    ensures StepLeft(Xor(reg, Shl(And(v, 1), m.width - 1)), m.poly, Pow2(m.width - 1), Pow2(m.width) - 1)
         == FeedBit(m, reg, v % 2) < Pow2(m.width)
  {
    AndOne(v);
    FeedBitRange(m, reg, v % 2);
    StepBitRange(m, reg, v % 2);
    StepLeftIsStep(m, Xor(reg, Shl(v % 2, m.width - 1)));
  }

  method FeedBitLeft(m: Model, reg: nat, byte: nat, i: nat, top: nat, mask: nat) returns (r: nat)
    requires Normal(m) && !m.refin && reg < Pow2(m.width)
    requires top == Pow2(m.width - 1) && mask == Pow2(m.width) - 1
    ensures r == FeedBit(m, reg, Shr(byte, i) % 2) < Pow2(m.width)
  {
    CodeBitLeft(m, reg, Shr(byte, i));
    r := StepLeft(Xor(reg, Shl(And(Shr(byte, i), 1), m.width - 1)), m.poly, top, mask);
  }

  /** Widths below eight, high bit first when not reflected. */
  method FeedNarrowLeft(m: Model, start: nat, byte: Byte, mask: nat, count: nat) returns (reg: nat)
    requires Normal(m) && !m.refin && start < Pow2(m.width) && mask == Pow2(m.width) - 1
    requires byte < Pow2(count)
    ensures reg == FeedBits(m, start, byte, count)
  {
    reg := start;
    LowOfSmall(byte, count);
    ShlOne(m.width - 1);
    var top := Shl(1, m.width - 1);
    for i := count downto 0
      invariant reg < Pow2(m.width)
      invariant FeedBits(m, reg, Low(byte, i), i) == FeedBits(m, start, byte, count)
    {
      FeedBitsUnfold(m, reg, byte, i);
      reg := FeedBitLeft(m, reg, byte, i, top, mask);
    }
  }

  lemma StepBitRange(m: Model, reg: nat, bit: nat)
    requires Normal(m) && reg < Pow2(m.width) && bit < 2
    ensures Xor(reg, Place(m, bit, 1)) < Pow2(m.width)
  {
    ShlBound(bit, m.width - 1, 1);
    Pow2Mono(1, m.width);
    XorBound(reg, Place(m, bit, 1), m.width);
  }

  /** The bit-serial engine: computes the reference on every width. */
  method BitwiseEngine(data: seq<Byte>, start: nat, refin: bool, poly: nat, width: nat, mask: nat) returns (reg: nat)
    requires Normal(Model(width, poly, refin)) && start < Pow2(width) && mask == Pow2(width) - 1
    ensures reg == Feed(Model(width, poly, refin), start, data)
  {
    reg := start;
    for i := 0 to |data|
      invariant reg < Pow2(width)
      invariant reg == Feed(Model(width, poly, refin), start, data[..i])
    {
      assert data[..i + 1][..i] == data[..i];
      reg := FeedByte(reg, data[i], refin, poly, width, mask);
    }
    assert data[..|data|] == data;
  }

  // ---- Table engine with its cached key ----

  class TableCache {
    const table: array<nat>
    var poly: nat
    var width: nat
    var refin: bool
    var ready: bool

    /** Whenever the table is marked ready it is the table of the cached key. */
    ghost predicate Valid()
      reads this, table
    {
      table.Length == 256 &&
      (ready ==>
         Normal(Model(width, poly, refin)) && width >= 8 &&
         forall i :: 0 <= i < 256 ==> table[i] == TableEntry(Model(width, poly, refin), i))
    }

    constructor ()
      ensures Valid() && fresh(table) && !ready
    {
      table := new nat[256];
      poly, width, refin, ready := 0, 0, false, false;
    }

    method Build(newPoly: nat, newWidth: nat, newRefin: bool)
      requires Normal(Model(newWidth, newPoly, newRefin)) && newWidth >= 8
      requires Valid()
      modifies this, table
      ensures Valid() && ready && width == newWidth && poly == newPoly && refin == newRefin
    {
      var mask := Mask(newWidth);
      var m := Model(newWidth, newPoly, newRefin);
      Pow2Eight();
      for i := 0 to 256
        invariant forall j :: 0 <= j < i ==> table[j] == TableEntry(m, j)
      {
        var r: nat;
        ShlBound(i, newWidth - 8, 8);
        Pow2Mono(8, newWidth);
        // The reflected loop leaves the mask to the end; on in-range words it changes nothing.
        if newRefin {
          r := StepsRight(m, i, mask, 8);
        } else {
          r := StepsLeft(m, Shl(i, newWidth - 8), mask, 8);
        }
        table[i] := r;
      }
      poly, width, refin, ready := newPoly, newWidth, newRefin, true;
    }

    method LookUpRight(reg: nat, b: Byte) returns (r: nat)
      requires Valid() && ready && refin
      ensures r == FeedBits(Model(width, poly, refin), reg, b, 8)
    {
      TableStepReflected(Model(width, poly, refin), reg, b);
      IndexReflected(reg, b);
      r := Xor(Shr(reg, 8), table[And(Xor(reg, b), 0xFF)]);
    }

    method LookUpLeft(reg: nat, b: Byte, mask: nat) returns (r: nat)
      requires Valid() && ready && !refin && reg < Pow2(width) && mask == Pow2(width) - 1
      ensures r == FeedBits(Model(width, poly, refin), reg, b, 8)
    {
      TableStepPlain(Model(width, poly, refin), reg, b);
      IndexPlain(Model(width, poly, refin), reg, b);
      r := Xor(And(Low(Shl(reg, 8), 32), mask), table[Low(Xor(Shr(reg, width - 8), b), 8)]);
    }

    /** The table engine computes the reference, whatever key was cached before. */
    method Engine(data: seq<Byte>, start: nat, inRefin: bool, inPoly: nat, inWidth: nat, mask: nat)
      returns (reg: nat)
      requires Valid()
      requires Normal(Model(inWidth, inPoly, inRefin)) && start < Pow2(inWidth) && mask == Pow2(inWidth) - 1
      modifies this, table
      ensures Valid()
      ensures reg == Feed(Model(inWidth, inPoly, inRefin), start, data)
    {
      if inWidth < 8 {
        reg := BitwiseEngine(data, start, inRefin, inPoly, inWidth, mask);
        return;
      }
      if !ready || width != inWidth || refin != inRefin || poly != inPoly {
        Build(inPoly, inWidth, inRefin);
      }
      ghost var m := Model(inWidth, inPoly, inRefin);
      reg := start;
      for i := 0 to |data|
        invariant Valid() && ready && width == inWidth && poly == inPoly && refin == inRefin
        invariant reg < Pow2(inWidth)
        invariant reg == Feed(m, start, data[..i])
      {
        assert data[..i + 1][..i] == data[..i];
        FeedBitsRange(m, reg, data[i], 8);
        if inRefin {
          reg := LookUpRight(reg, data[i]);
        } else {
          reg := LookUpLeft(reg, data[i], mask);
        }
      }
      assert data[..|data|] == data;
    }
  }

  lemma IndexReflected(reg: nat, b: Byte)
    ensures And(Xor(reg, b), 0xFF) == Low(Xor(reg, b), 8) < 256
  {
    Pow2Eight();
    LowBound(Xor(reg, b), 8);
    AndLowMask(Xor(reg, b), 8);
  }

  lemma IndexPlain(m: Model, reg: nat, b: Byte)
    requires Normal(m) && m.width >= 8 && Xor(Shr(reg, m.width - 8), b) < 256
    ensures Low(Xor(Shr(reg, m.width - 8), b), 8) == Xor(Shr(reg, m.width - 8), b)
    ensures And(Low(Shl(reg, 8), 32), Pow2(m.width) - 1) == Low(Shl(reg, 8), m.width)
  {
    Pow2Eight();
    LowOfSmall(Xor(Shr(reg, m.width - 8), b), 8);
    AndLowMask(Low(Shl(reg, 8), 32), m.width);
    LowOfLow(Shl(reg, 8), m.width, 32);
  }

  // ---- Streams ----

  /** The six catalogue parameters of a CRC, as the caller passes them. */
  datatype Params = Params(init: nat, refin: bool, refout: bool, xorOut: nat, poly: nat, width: nat)

  predicate Usable(p: Params) {
    1 <= p.width <= 32
  }

  function EngineModel(p: Params): (m: Model)
    requires Usable(p)
    ensures Normal(m) && m.width == p.width
  {
    ReflectBound(p.poly, p.width);
    LowBound(p.poly, p.width);
    Model(p.width, if p.refin then Reflect(p.poly, p.width) else Low(p.poly, p.width), p.refin)
  }

  function StartReg(p: Params): (r: nat)
    requires Usable(p)
    ensures r < Pow2(p.width)
  {
    ReflectBound(p.init, p.width);
    LowBound(p.init, p.width);
    if p.refin then Reflect(p.init, p.width) else Low(p.init, p.width)
  }

  /** The CRC of a whole message. */
  function Value(p: Params, data: seq<Byte>): nat
  {
    if !Usable(p) then 0
    else
      var reg := Feed(EngineModel(p), StartReg(p), data);
      Low(Xor(if p.refin != p.refout then Reflect(reg, p.width) else reg, p.xorOut), p.width)
  }

  class Stream {
    var reg: nat
    var poly: nat
    var width: nat
    var refin: bool
    var refout: bool
    var xorOut: nat
    ghost var params: Params      // what the stream was started with
    ghost var fed: seq<Byte>      // everything fed since then

    ghost predicate Valid()
      reads this
    {
      if Usable(params) then
        width == params.width && poly == EngineModel(params).poly && refin == params.refin &&
        refout == params.refout && xorOut == params.xorOut &&
        reg == Feed(EngineModel(params), StartReg(params), fed)
      else
        width == 0
    }

    constructor (init: nat, inRefin: bool, inRefout: bool, inXorOut: nat, inPoly: nat, inWidth: nat)
      ensures Valid() && fed == []
      ensures params == Params(init, inRefin, inRefout, inXorOut, inPoly, inWidth)
    {
      var p := Params(init, inRefin, inRefout, inXorOut, inPoly, inWidth);
      params, fed := p, [];
      reg, poly, refin, refout, xorOut := 0, 0, inRefin, inRefout, inXorOut;
      width := if Usable(p) then inWidth else 0;
      if Usable(p) {
        var mask := Mask(inWidth);
        if inRefin {
          var r := ReflectWord(init, inWidth);
          ReflectBound(init, inWidth);
          AndLowMask(r, inWidth);
          LowOfSmall(r, inWidth);
          reg := And(r, mask);
          r := ReflectWord(inPoly, inWidth);
          ReflectBound(inPoly, inWidth);
          AndLowMask(r, inWidth);
          LowOfSmall(r, inWidth);
          poly := And(r, mask);
        } else {
          AndLowMask(init, inWidth);
          AndLowMask(inPoly, inWidth);
          reg := And(init, mask);
          poly := And(inPoly, mask);
        }
      }
    }

    /** Any number of streams may share one cache: a feed only extends its own message. */
    method FeedSegment(cache: TableCache, data: seq<Byte>)
      requires Valid() && cache.Valid()
      modifies this, cache, cache.table
      ensures Valid() && cache.Valid()
      ensures params == old(params) && fed == old(fed) + data
    {
      FeedSegmentSpec(params, fed, data);
      fed := fed + data;
      if width == 0 || width > 32 {
        return;
      }
      var mask := Mask(width);
      FeedRange(EngineModel(params), StartReg(params), old(fed));
      reg := cache.Engine(data, reg, refin, poly, width, mask);
    }

    /** Whatever the segmentation, the result is the CRC of everything fed. */
    method Finish() returns (r: nat)
      requires Valid()
      ensures r == Value(params, fed)
    {
      if width == 0 || width > 32 {
        return 0;
      }
      var mask := Mask(width);
      var out := reg;
      if refin != refout {
        out := ReflectWord(out, width);
      }
      AndLowMask(Xor(out, xorOut), width);
      r := And(Xor(out, xorOut), mask);
    }
  }

  lemma FeedSegmentSpec(p: Params, fed: seq<Byte>, data: seq<Byte>)
    ensures Usable(p) ==>
              (Feed(EngineModel(p), StartReg(p), fed + data)
               == Feed(EngineModel(p), Feed(EngineModel(p), StartReg(p), fed), data))
  {
    if Usable(p) { FeedConcat(EngineModel(p), StartReg(p), fed, data); }
  }

  lemma {:induction false} ReflectOfLow(v: nat, width: nat)
    ensures Reflect(Low(v, width), width) == Reflect(v, width)
  {
    if width > 0 { ReflectOfLow(v / 2, width - 1); }
  }

  /** The published value does not depend on which engine computes it: reflected input
      is unreflected input with every byte bit-reversed. */
  lemma ValueMirror(p: Params, data: seq<Byte>)
    ensures Value(p.(refin := true), data) == Value(p.(refin := false), ReflectBytes(data))
  {
    if Usable(p) {
      var plain := p.(refin := false);
      var m, w := EngineModel(plain), p.width;
      ReflectOfLow(p.poly, w);
      ReflectOfLow(p.init, w);
      assert EngineModel(p.(refin := true)) == Mirror(m);
      EnginesMirror(m, StartReg(plain), data);
      var u := Feed(m, StartReg(plain), ReflectBytes(data));
      FeedRange(m, StartReg(plain), ReflectBytes(data));
      ReflectTwice(u, w);
    }
  }
}
