/** Unsigned integers of the protocol, their network byte order, and the exclusive or
    of two bytes.  Memory is that of a little-endian host, as the source assumes. */
module Bytes {
  type Byte = x: int | 0 <= x < 0x100
  type Word = x: int | 0 <= x < 0x1_0000
  type DWord = x: int | 0 <= x < 0x1_0000_0000

  // ---- Byte order -------------------------------------------------------------------

  function EndianSwap16(v: Word): Word {
    (v % 0x100) * 0x100 + v / 0x100
  }

  function EndianSwap32(v: DWord): DWord {
    v / 0x100_0000
    + (v / 0x1_0000 % 0x100) * 0x100
    + (v / 0x100 % 0x100) * 0x1_0000
    + (v % 0x100) * 0x100_0000
  }

  /** What memcpy of a 16-bit variable leaves in memory on a little-endian host. */
  function Store16(v: Word): seq<Byte> {
    [v % 0x100, v / 0x100]
  }

  function Store32(v: DWord): seq<Byte> {
    [v % 0x100, v / 0x100 % 0x100, v / 0x1_0000 % 0x100, v / 0x100_0000]
  }

  function Load16(s: seq<Byte>): Word
    requires |s| == 2
  {
    s[0] as int + 0x100 * (s[1] as int)
  }

  function Load32(s: seq<Byte>): DWord
    requires |s| == 4
  {
    s[0] as int + 0x100 * (s[1] as int) + 0x1_0000 * (s[2] as int) + 0x100_0000 * (s[3] as int)
  }

  /** A 16-bit value as it stands on the wire: most significant byte first. */
  function Be16(v: Word): (s: seq<Byte>)
    ensures |s| == 2
  {
    [v / 0x100, v % 0x100]
  }

  function Be32(v: DWord): (s: seq<Byte>)
    ensures |s| == 4
  {
    Be16(v / 0x1_0000) + Be16(v % 0x1_0000)
  }

  /** The 16-bit value on the wire at index i. */
  function WordAt(s: seq<Byte>, i: nat): Word
    requires i + 2 <= |s|
  {
    (s[i] as int) * 0x100 + s[i + 1] as int
  }

  function DWordAt(s: seq<Byte>, i: nat): DWord
    requires i + 4 <= |s|
  {
    (WordAt(s, i) as int) * 0x1_0000 + WordAt(s, i + 2) as int
  }

  /** Swapping before the store puts the most significant byte first, and swapping after
      the load reads it back: what every field of every message relies on. */
  lemma SwapIsNetworkOrder16(v: Word, s: seq<Byte>)
    requires |s| == 2
    ensures Store16(EndianSwap16(v)) == Be16(v)
    ensures EndianSwap16(Load16(s)) == WordAt(s, 0)
    ensures EndianSwap16(EndianSwap16(v)) == v
  {
    var w := EndianSwap16(v);
    assert w % 0x100 == v / 0x100 && w / 0x100 == v % 0x100;
    var l := Load16(s);
    assert l % 0x100 == s[0] && l / 0x100 == s[1];
  }

  lemma SwapStores32(v: DWord)
    ensures Store32(EndianSwap32(v)) == Be32(v)
  {
    var hi, lo := v / 0x1_0000, v % 0x1_0000;
    var b3, b2, b1, b0 := hi / 0x100, hi % 0x100, lo / 0x100, lo % 0x100;
    assert v == b0 + 0x100 * b1 + 0x1_0000 * b2 + 0x100_0000 * b3;
    SplitDWord(b0, b1, b2, b3);
    SplitDWord(b3, b2, b1, b0);
  }

  lemma SwapLoads32(s: seq<Byte>)
    requires |s| == 4
    ensures EndianSwap32(Load32(s)) == DWordAt(s, 0)
  {
    SplitDWord(s[0], s[1], s[2], s[3]);
  }

  /** Network order is most significant byte first, the host's order the other way round. */
  lemma MostSignificantFirst(a: Byte, b: Byte, c: Byte, d: Byte)
    ensures var v := 0x100 * a + b; Be16(v) == [a, b] && Store16(v) == [b, a]
    ensures var v := 0x100_0000 * a + 0x1_0000 * b + 0x100 * c + d;
            Be32(v) == [a, b, c, d] && Store32(v) == [d, c, b, a]
    ensures WordAt([a, b, c, d], 1) == 0x100 * b + c
    ensures DWordAt([a, b, c, d], 0) == 0x100_0000 * a + 0x1_0000 * b + 0x100 * c + d
  {
    SplitDWord(d, c, b, a);
    var hi, lo := 0x100 * a + b, 0x100 * c + d;
    assert 0x1_0000 * hi + lo == 0x100_0000 * a + 0x1_0000 * b + 0x100 * c + d;
    assert (0x1_0000 * hi + lo) / 0x1_0000 == hi && (0x1_0000 * hi + lo) % 0x1_0000 == lo;
  }

  /** The four bytes of a 32-bit value, least significant first, are recovered by division. */
  lemma SplitDWord(b0: Byte, b1: Byte, b2: Byte, b3: Byte)
    ensures var v := b0 + 0x100 * b1 + 0x1_0000 * b2 + 0x100_0000 * b3;
            v % 0x100 == b0 && v / 0x100 % 0x100 == b1
            && v / 0x1_0000 % 0x100 == b2 && v / 0x100_0000 == b3
  {
    var v := b0 + 0x100 * b1 + 0x1_0000 * b2 + 0x100_0000 * b3;
    assert v / 0x100 == b1 + 0x100 * b2 + 0x1_0000 * b3;
    assert v / 0x1_0000 == b2 + 0x100 * b3;
    assert v / 0x100_0000 == b3;
  }

  lemma ReadBack16(v: Word, s: seq<Byte>, i: nat)
    requires i + 2 <= |s| && s[i..i + 2] == Be16(v)
    ensures WordAt(s, i) == v
  {
  }

  lemma ReadBack32(v: DWord, s: seq<Byte>, i: nat)
    requires i + 4 <= |s| && s[i..i + 4] == Be32(v)
    ensures DWordAt(s, i) == v
  {
  }

  // ---- Exclusive or -----------------------------------------------------------------

  /** Bitwise exclusive or, lowest bit first. */
  function XorBits(a: nat, b: nat): nat
    decreases a + b
  {
    if a == 0 && b == 0 then 0 else 2 * XorBits(a / 2, b / 2) + (a + b) % 2
  }

  lemma {:induction false} XorBelow(a: nat, b: nat, bound: nat)
    requires a < bound && b < bound
    requires bound in {1, 2, 4, 8, 16, 32, 64, 128, 256}
    ensures XorBits(a, b) < bound
  {
    if bound > 1 {
      XorBelow(a / 2, b / 2, bound / 2);
    }
  }

  function Xor(a: Byte, b: Byte): Byte {
    XorBelow(a, b, 0x100);
    XorBits(a, b)
  }

  lemma {:induction false} XorCommutes(a: nat, b: nat)
    ensures XorBits(a, b) == XorBits(b, a)
    decreases a + b
  {
    if a + b > 0 {
      XorCommutes(a / 2, b / 2);
    }
  }

  /** Halving takes the lowest bit off an exclusive or. */
  lemma XorSplits(a: nat, b: nat)
    ensures XorBits(a, b) / 2 == XorBits(a / 2, b / 2) && XorBits(a, b) % 2 == (a + b) % 2
  {
  }

  lemma {:induction false} XorCancels(a: nat, b: nat, c: nat)
    requires XorBits(a, b) == XorBits(a, c)
    ensures b == c
    decreases a + b + c
  {
    hide XorBits;
    if a + b + c > 0 {
      XorSplits(a, b);
      XorSplits(a, c);
      XorCancels(a / 2, b / 2, c / 2);
    }
  }

  /** Bit i of a number, the lowest being bit 0. */
  function Bit(v: nat, i: nat): nat {
    if i == 0 then v % 2 else Bit(v / 2, i - 1)
  }

  /** A bit of an exclusive or is set exactly when it differs in the two numbers. */
  lemma {:induction false} XorBit(a: nat, b: nat, i: nat)
    ensures Bit(XorBits(a, b), i) == (Bit(a, i) + Bit(b, i)) % 2
    decreases i
  {
    hide XorBits;
    XorSplits(a, b);
    if i > 0 {
      XorBit(a / 2, b / 2, i - 1);
    } else {
      SumParity(a, b);
    }
  }

  lemma SumParity(a: nat, b: nat)
    ensures (a + b) % 2 == (a % 2 + b % 2) % 2
  {
  }

  /** A number is known by its bits. */
  lemma {:induction false} KnownByBits(v: nat, w: nat)
    requires forall i: nat :: Bit(v, i) == Bit(w, i)
    ensures v == w
    decreases v + w
  {
    assert Bit(v, 0) == Bit(w, 0);
    if v + w > 0 {
      forall i: nat
        ensures Bit(v / 2, i) == Bit(w / 2, i)
      {
        assert Bit(v, i + 1) == Bit(w, i + 1);
      }
      KnownByBits(v / 2, w / 2);
    }
  }
}
