/** Little-endian fields of frames and blobs. */
module LittleEndian {
  import opened Bits

  function Le16(x: nat): (s: seq<Byte>)
    ensures |s| == 2
  {
    [x % 256, (x / 256) % 256]
  }

  function U16(lo: Byte, hi: Byte): nat {
    lo + 256 * hi
  }

  function Le32(x: nat): (s: seq<Byte>)
    ensures |s| == 4
  {
    Le16(x) + Le16(x / 0x1_0000)
  }

  function U32(s: seq<Byte>): nat
    requires |s| == 4
  {
    U16(s[0], s[1]) + 0x1_0000 * U16(s[2], s[3])
  }

  lemma Le16RoundTrip(x: nat)
    requires x < 0x1_0000
    ensures U16(Le16(x)[0], Le16(x)[1]) == x
  {
  }

  lemma Le16Low(x: nat)
    ensures U16(Le16(x)[0], Le16(x)[1]) == x % 0x1_0000
  {
  }

  lemma Le32RoundTrip(x: nat)
    requires x < 0x1_0000_0000
    ensures U32(Le32(x)) == x
  {
    Le16Low(x);
    Le16RoundTrip(x / 0x1_0000);
  }

  /** And back: four bytes are the bytes of their value. */
  lemma Le32Inverse(s: seq<Byte>)
    requires |s| == 4
    ensures Le32(U32(s)) == s
  {
    var hi := U16(s[2], s[3]);
    assert Le16(U32(s)) == s[..2] && U32(s) / 0x1_0000 == hi by { SplitLow(s[0], s[1], hi); }
    assert Le16(hi) == s[2..] by { SplitLow(s[2], s[3], 0); }
    hide Le16;
    hide U32;
    hide U16;
  }

  lemma SplitLow(a: Byte, b: Byte, hi: nat)
    ensures var x := U16(a, b) + 0x1_0000 * hi; Le16(x) == [a, b] && x / 0x1_0000 == hi
  {
    var x, y := U16(a, b) + 0x1_0000 * hi, b + 256 * hi;
    assert x == a + 256 * y;
    assert x % 256 == a && x / 256 == y;
    assert y % 256 == b && y / 256 == hi;
  }
}
