/** Packed decimal digits: two to a byte. */
module Bcd {
  import opened Bytes

  const ZERO: Byte := 0x30

  function BcdFromHex(v: Byte): Byte {
    (v / 10 * 16 + v % 10) % 0x100
  }

  function HexFromBcd(b: Byte): Byte {
    b / 16 * 10 + b % 16
  }

  predicate IsDigit(c: Byte) { ZERO <= c <= ZERO + 9 }

  predicate Digits(s: seq<Byte>) {
    forall i :: 0 <= i < |s| ==> IsDigit(s[i])
  }

  /** Both halves of the byte are decimal digits. */
  predicate IsBcd(b: Byte) { b / 16 < 10 && b % 16 < 10 }

  predicate ValidBcd(a: seq<Byte>) {
    forall i :: 0 <= i < |a| ==> IsBcd(a[i])
  }

  /** The byte of two digit values, and the two digit characters of a byte, as the loops
      compute them. */
  function Pack(tens: nat, ones: nat): Byte
    requires tens < 10 && ones < 10
  {
    BcdFromHex(tens * 10 + ones)
  }

  function Tens(b: Byte): Byte {
    HexFromBcd(b) / 10 + ZERO
  }

  function Ones(b: Byte): Byte {
    HexFromBcd(b) % 10 + ZERO
  }

  /** The same through a char, which is signed here: from 0x80 on the value is negative, and
      division truncates toward zero. */
  function SignedTens(b: Byte): Byte {
    if HexFromBcd(b) < 0x80 then Tens(b) else ZERO - (0x100 - HexFromBcd(b)) / 10
  }

  function SignedOnes(b: Byte): Byte {
    if HexFromBcd(b) < 0x80 then Ones(b) else ZERO - (0x100 - HexFromBcd(b)) % 10
  }

  lemma DigitsOfBcd(b: Byte)
    requires IsBcd(b)
    ensures SignedTens(b) == Tens(b) && SignedOnes(b) == Ones(b) && IsDigit(Tens(b)) && IsDigit(Ones(b))
  {
  }

  lemma PackUnpack(tens: nat, ones: nat)
    requires tens < 10 && ones < 10
    ensures var b := Pack(tens, ones); IsBcd(b) && Tens(b) == tens + ZERO && Ones(b) == ones + ZERO
  {
    hide BcdFromHex, HexFromBcd;
    PackIs(tens, ones);
    UnpackIs(tens, ones);
  }

  lemma PackIs(tens: nat, ones: nat)
    requires tens < 10 && ones < 10
    ensures BcdFromHex(tens * 10 + ones) == tens * 16 + ones
  {
    DivMod(tens, ones, 10);
  }

  lemma UnpackIs(tens: nat, ones: nat)
    requires tens < 10 && ones < 10
    ensures var b := tens * 16 + ones;
            b / 16 == tens && b % 16 == ones
            && HexFromBcd(b) / 10 == tens && HexFromBcd(b) % 10 == ones
  {
  }

  lemma DivMod(q: nat, r: nat, d: nat)
    requires r < d && (d == 10 || d == 16)
    ensures (q * d + r) / d == q && (q * d + r) % d == r
  {
  }

  lemma UnpackPack(b: Byte)
    requires IsBcd(b)
    ensures IsDigit(Tens(b)) && IsDigit(Ones(b)) && Pack(Tens(b) - ZERO, Ones(b) - ZERO) == b
  {
    hide BcdFromHex;
    UnpackIs(b / 16, b % 16);
    PackIs(b / 16, b % 16);
  }

  // ---- Specification ----------------------------------------------------------------

  /** The pairs of an even number of digits. */
  function Pairs(s: seq<Byte>): seq<Byte>
    requires |s| % 2 == 0 && Digits(s)
  {
    if s == [] then [] else [Pack(s[0] - ZERO, s[1] - ZERO)] + Pairs(s[2..])
  }

  /** An odd first digit gets a byte of its own. */
  function Compress(s: seq<Byte>): seq<Byte>
    requires Digits(s)
  {
    if |s| % 2 == 1 then [Pack(0, s[0] - ZERO)] + Pairs(s[1..]) else Pairs(s)
  }

  /** Every byte as two digits. */
  function Filled(a: seq<Byte>): seq<Byte> {
    if a == [] then [] else [SignedTens(a[0]), SignedOnes(a[0])] + Filled(a[1..])
  }

  /** A store at position i of a zeroed destination of which |w| characters are written. */
  function Store(w: seq<Byte>, i: nat, c: Byte): (w': seq<Byte>)
    requires i <= |w|
    ensures |w'| == if i == |w| then |w| + 1 else |w|
  {
    if i == |w| then w + [c] else w[i := c]
  }

  /** The loop that is meant to drop a leading zero: while the first character written is a
      zero, the second digit of a byte goes to the front again. */
  function Expanded(a: seq<Byte>, w: seq<Byte>, at: nat): seq<Byte>
    requires at <= |w|
    decreases |a|
  {
    if a == [] then w
    else
      var w1 := Store(w, at, Tens(a[0]));
      var at1 := if w1[0] == ZERO then 0 else at + 1;
      Expanded(a[1..], Store(w1, at1, Ones(a[0])), at1 + 1)
  }

  function Expand(a: seq<Byte>): seq<Byte> {
    Expanded(a, [], 0)
  }

  /** 1234 and 123. */
  lemma SampleExpand()
    ensures Expand([0x12, 0x34]) == [0x31, 0x32, 0x33, 0x34] && Expand([0x01, 0x23]) == [0x31, 0x32, 0x33]
  {
    assert Expanded([0x34], [0x31, 0x32], 2) == Expanded([], [0x31, 0x32, 0x33, 0x34], 4);
    assert Expanded([0x23], [0x31], 1) == Expanded([], [0x31, 0x32, 0x33], 3);
  }

  /** Any byte, packed decimals or not: halves of ten and more carry over, and from 128 on the
      characters lie below those of the digits. */
  lemma AnyByteFilled(b: Byte, h: int)
    requires h == b as int / 16 * 10 + b as int % 16
    ensures Filled([b]) == if h < 128 then [0x30 + h / 10, 0x30 + h % 10]
                           else [0x30 - (256 - h) / 10, 0x30 - (256 - h) % 10]
  {
    assert [b][1..] == [];
    assert 0 <= h <= 165;
  }

  /** 0xFF is 165, and behind a zero byte a digit goes to the front. */
  lemma OddExpand()
    ensures Expand([0xFF]) == [0x40, 0x35] && Expand([0x00, 0x12]) == [0x32, 0x31]
  {
    assert Expanded([0x12], [0x30], 1) == Expanded([], [0x32, 0x31], 1);
  }

  // ---- The loops --------------------------------------------------------------------

  /** One round of the compressing loop. */
  method PackPair(c: Byte, d: Byte) returns (b: Byte)
    requires IsDigit(c) && IsDigit(d)
    ensures b == Pack(c - ZERO, d - ZERO)
  {
    var temp := c - ZERO;
    temp := temp * 10;
    temp := temp + (d - ZERO);
    b := BcdFromHex(temp);
  }

  /** The terminating zero that is stored behind the bytes is a byte too many for callers that
      have room for the digits only. */
  method BcdFromStringCompress(src: seq<Byte>) returns (dst: seq<Byte>)
    requires Digits(src)
    ensures dst == Compress(src) + [0]
  {
    hide Pack, Pairs, Compress;
    dst := [];
    var i := 0;
    CompressBegins(src);
    if |src| % 2 != 0 {
      var b := PackPair(ZERO, src[i]);
      dst := dst + [b];
      i := i + 1;
    }
    assert src[0..] == src;
    while i < |src|
      invariant 0 <= i <= |src| && (|src| - i) % 2 == 0
      invariant dst + Pairs(src[i..]) == Compress(src)
    {
      var b := PackPair(src[i], src[i + 1]);
      PairsNext(src, i, dst);
      dst := dst + [b];
      i := i + 2;
    }
    CompressEnds(src[i..], dst);
    dst := dst + [0];
  }

  lemma CompressBegins(s: seq<Byte>)
    requires Digits(s)
    ensures |s| % 2 == 0 ==> [] + Pairs(s) == Compress(s)
    ensures |s| % 2 == 1 ==> [] + [Pack(0, s[0] - ZERO)] + Pairs(s[1..]) == Compress(s)
  {
  }

  lemma CompressEnds(s: seq<Byte>, dst: seq<Byte>)
    requires s == []
    ensures dst + Pairs(s) == dst
  {
  }

  lemma PairsNext(s: seq<Byte>, i: nat, dst: seq<Byte>)
    requires i + 2 <= |s| && (|s| - i) % 2 == 0 && Digits(s)
    ensures dst + Pairs(s[i..]) == dst + [Pack(s[i] - ZERO, s[i + 1] - ZERO)] + Pairs(s[i + 2..])
  {
  }

  method StringFromBcdCompress(src: seq<Byte>) returns (dst: seq<Byte>)
    ensures dst == Expand(src)
  {
    hide HexFromBcd;
    dst := [];
    var at := 0;
    for i := 0 to |src|
      invariant at <= |dst| && Expanded(src[i..], dst, at) == Expand(src)
    {
      HalvesFit(src[i]);
      var temp := HexFromBcd(src[i]);
      assert src[i..][1..] == src[i + 1..];
      dst := Store(dst, at, temp / 10 + ZERO);
      at := at + 1;
      if dst[0] == ZERO {
        at := 0;
      }
      dst := Store(dst, at, temp % 10 + ZERO);
      at := at + 1;
    }
  }

  lemma HalvesFit(b: Byte)
    ensures HexFromBcd(b) <= 165
  {
  }

  method StringFromBcdCompressFillingZero(src: seq<Byte>) returns (dst: seq<Byte>)
    ensures dst == Filled(src)
  {
    hide SignedTens, SignedOnes;
    dst := [];
    for i := 0 to |src|
      invariant dst + Filled(src[i..]) == Filled(src)
    {
      FilledNext(src[i..], dst);
      assert src[i..][1..] == src[i + 1..];
      var tens, ones := SignedDigits(src[i]);
      dst := dst + [tens];
      dst := dst + [ones];
    }
    assert src[|src|..] == [];
  }

  /** Two characters from a signed char. */
  method SignedDigits(b: Byte) returns (tens: Byte, ones: Byte)
    ensures tens == SignedTens(b) && ones == SignedOnes(b)
  {
    hide HexFromBcd;
    HalvesFit(b);
    var temp: int := HexFromBcd(b);
    if temp >= 0x80 {
      temp := temp - 0x100;
    }
    // Truncating division on a negative value.
    tens := (if temp >= 0 then temp / 10 else -(-temp / 10)) + ZERO;
    ones := (if temp >= 0 then temp % 10 else -(-temp % 10)) + ZERO;
  }

  lemma FilledNext(a: seq<Byte>, w: seq<Byte>)
    requires a != []
    ensures w + Filled(a) == w + [SignedTens(a[0])] + [SignedOnes(a[0])] + Filled(a[1..])
  {
    hide SignedTens, SignedOnes;
    assert Filled(a) == [SignedTens(a[0]), SignedOnes(a[0])] + Filled(a[1..]);
  }

  // ---- Digit by digit ---------------------------------------------------------------

  lemma {:induction false} PairAt(s: seq<Byte>, m: nat)
    requires |s| % 2 == 0 && Digits(s) && 2 * m < |s|
    ensures |Pairs(s)| > m && Pairs(s)[m] == Pack(s[2 * m] - ZERO, s[2 * m + 1] - ZERO)
    decreases m
  {
    hide Pack;
    if m > 0 {
      PairAt(s[2..], m - 1);
    }
  }

  /** Every byte of an even number of digits holds two of them, the first in its upper half. */
  lemma CompressedEven(s: seq<Byte>, m: nat)
    requires Digits(s) && |s| % 2 == 0 && 2 * m + 1 < |s|
    ensures |Compress(s)| > m
    ensures Compress(s)[m] as int == 16 * (s[2 * m] as int - 0x30) + (s[2 * m + 1] as int - 0x30)
  {
    hide BcdFromHex, Pairs, Compress;
    CompressBegins(s);
    assert [] + Pairs(s) == Pairs(s);
    PairAt(s, m);
    PackIs(s[2 * m] - ZERO, s[2 * m + 1] - ZERO);
  }

  /** Of an odd number of digits the first one stands alone. */
  lemma CompressedOdd(d: Byte, t: seq<Byte>)
    requires IsDigit(d) && Digits(t) && |t| % 2 == 0
    ensures Digits([d] + t) && Compress([d] + t) == [d - 0x30] + Compress(t)
  {
    hide BcdFromHex, Pairs, Compress;
    var s := [d] + t;
    assert s[1..] == t;
    FirstByteOdd(s);
    PackIs(0, d - ZERO);
    CompressBegins(t);
    assert [] + Pairs(t) == Pairs(t);
  }

  /** And is written as two characters, upper half first. */
  lemma {:induction false} FilledAt(a: seq<Byte>, m: nat)
    requires ValidBcd(a) && m < |a|
    ensures |Filled(a)| > 2 * m + 1 && Filled(a)[2 * m] == 0x30 + a[m] / 16 && Filled(a)[2 * m + 1] == 0x30 + a[m] % 16
    decreases m
  {
    hide SignedTens, SignedOnes, HexFromBcd, BcdFromHex;
    if m > 0 {
      FilledAt(a[1..], m - 1);
    } else {
      DigitsOfBcd(a[0]);
      UnpackIs(a[0] / 16, a[0] % 16);
    }
  }

  // ---- Round trips ------------------------------------------------------------------

  lemma {:induction false} PairsAreValid(s: seq<Byte>)
    requires |s| % 2 == 0 && Digits(s)
    ensures ValidBcd(Pairs(s)) && |Pairs(s)| == |s| / 2
  {
    hide Pack, IsBcd;
    if s != [] {
      PackUnpack(s[0] - ZERO, s[1] - ZERO);
      PairsAreValid(s[2..]);
    }
  }

  lemma CompressedIsValid(s: seq<Byte>)
    requires Digits(s)
    ensures ValidBcd(Compress(s)) && |Compress(s)| == (|s| + 1) / 2
  {
    hide Pack, IsBcd, Pairs;
    if |s| % 2 == 1 {
      PackUnpack(0, s[0] - ZERO);
      PairsAreValid(s[1..]);
    } else {
      PairsAreValid(s);
    }
  }

  /** Writing every byte as two digits and compressing them gives the bytes back. */
  lemma {:induction false} FillThenCompress(a: seq<Byte>)
    requires ValidBcd(a)
    ensures Digits(Filled(a)) && |Filled(a)| == 2 * |a| && Compress(Filled(a)) == a
  {
    hide Pack, IsBcd, Tens, Ones, SignedTens, SignedOnes;
    if a != [] {
      UnpackPack(a[0]);
      DigitsOfBcd(a[0]);
      FillThenCompress(a[1..]);
      var f := Filled(a);
      assert f[2..] == Filled(a[1..]);
      assert f[0] == Tens(a[0]) && f[1] == Ones(a[0]);
      assert a == [a[0]] + a[1..];
    }
  }

  /** Once a digit other than zero stands in front, the loop just appends. */
  lemma {:induction false} ExpandAppends(s: seq<Byte>, w: seq<Byte>)
    requires |s| % 2 == 0 && Digits(s) && w != [] && w[0] != ZERO
    ensures ValidBcd(Pairs(s)) && Expanded(Pairs(s), w, |w|) == w + s
    decreases |s|
  {
    hide Pack, IsBcd, Tens, Ones;
    PairsAreValid(s);
    if s == [] {
      assert w + [] == w;
    } else {
      PackUnpack(s[0] - ZERO, s[1] - ZERO);
      var w2 := w + [s[0]] + [s[1]];
      assert Pairs(s)[1..] == Pairs(s[2..]);
      ExpandAppends(s[2..], w2);
      assert w2 + s[2..] == w + s;
    }
  }

  lemma FirstByteEven(s: seq<Byte>)
    requires Digits(s) && s != [] && |s| % 2 == 0
    ensures Compress(s) == [Pack(s[0] - ZERO, s[1] - ZERO)] + Pairs(s[2..])
  {
  }

  lemma FirstByteOdd(s: seq<Byte>)
    requires Digits(s) && |s| % 2 == 1
    ensures Compress(s) == [Pack(0, s[0] - ZERO)] + Pairs(s[1..])
  {
  }

  lemma ExpandEven(s: seq<Byte>)
    requires Digits(s) && s != [] && s[0] != ZERO && |s| % 2 == 0
    ensures ValidBcd(Compress(s)) && Expand(Compress(s)) == s
  {
    hide Pack, IsBcd, Tens, Ones, Compress, Pairs, Expand, Expanded;
    CompressedIsValid(s);
    FirstByteEven(s);
    PackUnpack(s[0] - ZERO, s[1] - ZERO);
    var a := Compress(s);
    assert a[1..] == Pairs(s[2..]);
    ExpandAppends(s[2..], [s[0], s[1]]);
    ExpandedFirst(a);
    assert [s[0], s[1]] + s[2..] == s;
  }

  lemma ExpandedFirst(a: seq<Byte>)
    requires a != [] && Tens(a[0]) != ZERO
    ensures Expand(a) == Expanded(a[1..], [Tens(a[0]), Ones(a[0])], 2)
  {
    hide Tens, Ones;
    var c, d := Tens(a[0]), Ones(a[0]);
    assert Store(Store([], 0, c), 1, d) == [c, d];
  }

  lemma ExpandOdd(s: seq<Byte>)
    requires Digits(s) && s != [] && s[0] != ZERO && |s| % 2 == 1
    ensures ValidBcd(Compress(s)) && Expand(Compress(s)) == s
  {
    hide Pack, IsBcd, Tens, Ones, Compress, Pairs;
    CompressedIsValid(s);
    FirstByteOdd(s);
    PackUnpack(0, s[0] - ZERO);
    var a := Compress(s);
    assert a[1..] == Pairs(s[1..]);
    ExpandAppends(s[1..], [s[0]]);
    assert Store(Store([], 0, ZERO), 0, s[0]) == [s[0]];
    assert Expanded(a, [], 0) == Expanded(a[1..], [s[0]], 1);
    assert [s[0]] + s[1..] == s;
  }

  lemma {:induction false} ExpandedLength(a: seq<Byte>, w: seq<Byte>, at: nat)
    requires ValidBcd(a) && at <= |w|
    ensures |Expanded(a, w, at)| <= if |w| >= at + 2 * |a| then |w| else at + 2 * |a|
    decreases |a|
  {
    hide IsBcd, Tens, Ones;
    if a != [] {
      var w1 := Store(w, at, Tens(a[0]));
      var at1 := if w1[0] == ZERO then 0 else at + 1;
      ExpandedLength(a[1..], Store(w1, at1, Ones(a[0])), at1 + 1);
    }
  }

  /** Compressing and expanding gives back exactly the digit strings that do not start with a
      zero, and the single zero: a leading zero costs a character. */
  lemma RoundTripExactlyWhen(s: seq<Byte>)
    requires Digits(s) && s != []
    ensures ValidBcd(Compress(s))
    ensures Expand(Compress(s)) == s <==> s[0] != ZERO || |s| == 1
  {
    hide Compress, Expand;
    CompressedIsValid(s);
    if s[0] != ZERO {
      if |s| % 2 == 0 {
        ExpandEven(s);
      } else {
        ExpandOdd(s);
      }
    } else {
      LeadingZeroIsLost(s);
    }
  }

  lemma LeadingZeroIsLost(s: seq<Byte>)
    requires Digits(s) && s != [] && s[0] == ZERO && ValidBcd(Compress(s))
    ensures if |s| == 1 then Expand(Compress(s)) == s else |Expand(Compress(s))| < |s|
  {
    hide Pack, IsBcd, Tens, Ones, Compress, Pairs;
    CompressedIsValid(s);
    var a := Compress(s);
    if |s| % 2 == 0 {
      FirstByteEven(s);
      PackUnpack(0, s[1] - ZERO);
      assert Store(Store([], 0, ZERO), 0, s[1]) == [s[1]];
      ExpandedLength(a[1..], [s[1]], 1);
    } else {
      FirstByteOdd(s);
      PackUnpack(0, 0);
      assert Store(Store([], 0, ZERO), 0, ZERO) == [ZERO];
      if |s| == 1 {
        assert a[1..] == [] && s == [ZERO];
        assert Expanded(a, [], 0) == Expanded(a[1..], [ZERO], 1);
      } else {
        var t := s[1..];
        assert a[1..] == Pairs(t);
        FirstByteEven(t);
        assert Compress(t) == Pairs(t) by { CompressBegins(t); assert [] + Pairs(t) == Pairs(t); }
        PackUnpack(t[0] - ZERO, t[1] - ZERO);
        SecondByteGoesFirst(a[1..], t[0], t[1]);
      }
    }
  }

  /** With only a zero written, the next byte's second digit overwrites it. */
  lemma SecondByteGoesFirst(a: seq<Byte>, c: Byte, d: Byte)
    requires ValidBcd(a) && a != [] && Tens(a[0]) == c && Ones(a[0]) == d
    ensures |Expanded(a, [ZERO], 1)| <= 2 * |a|
  {
    hide IsBcd, Tens, Ones;
    assert Store(Store([ZERO], 1, c), 0, d) == [d, c];
    ExpandedLength(a[1..], [d, c], 1);
  }

  // ---- Telling numbers apart --------------------------------------------------------

  /** A digit string of even length: an odd one gets a zero in front. */
  function Evened(s: seq<Byte>): seq<Byte> {
    if |s| % 2 == 1 then [ZERO] + s else s
  }

  lemma {:induction false} PairsThenFill(s: seq<Byte>)
    requires |s| % 2 == 0 && Digits(s)
    ensures ValidBcd(Pairs(s)) && Filled(Pairs(s)) == s
    decreases |s|
  {
    hide Pack, IsBcd, Tens, Ones, SignedTens, SignedOnes;
    PairsAreValid(s);
    if s != [] {
      PackUnpack(s[0] - ZERO, s[1] - ZERO);
      DigitsOfBcd(Pairs(s)[0]);
      PairsThenFill(s[2..]);
      assert Pairs(s)[1..] == Pairs(s[2..]);
      assert s == [s[0], s[1]] + s[2..];
    }
  }

  /** Compressing and filling gives the digits back, an odd string with its zero. */
  lemma CompressThenFill(s: seq<Byte>)
    requires Digits(s)
    ensures ValidBcd(Compress(s)) && Filled(Compress(s)) == Evened(s)
  {
    hide Pairs, Filled, Compress;
    CompressedIsValid(s);
    if |s| % 2 == 0 {
      CompressBegins(s);
      assert [] + Pairs(s) == Pairs(s);
      PairsThenFill(s);
    } else {
      OddThenFill(s);
    }
  }

  lemma OddThenFill(s: seq<Byte>)
    requires Digits(s) && |s| % 2 == 1
    ensures Filled(Compress(s)) == [ZERO] + s
  {
    hide Pack, IsBcd, Tens, Ones, Pairs, Compress, Filled, SignedTens, SignedOnes;
    FirstByteOdd(s);
    var b := Pack(0, s[0] - ZERO);
    PackUnpack(0, s[0] - ZERO);
    DigitsOfBcd(b);
    PairsThenFill(s[1..]);
    FilledConcat([b], Pairs(s[1..]));
    FilledOne(b);
    assert [ZERO, s[0]] + s[1..] == [ZERO] + s;
  }

  lemma FilledOne(b: Byte)
    ensures Filled([b]) == [SignedTens(b), SignedOnes(b)]
  {
    hide SignedTens, SignedOnes;
    assert [b][1..] == [];
  }

  /** The six bytes of a phone number that are compared: what is compressed into a zeroed
      array. */
  function SixBytes(s: seq<Byte>): (b: seq<Byte>)
    requires Digits(s)
    ensures |b| == 6
  {
    (Compress(s) + seq(6, _ => 0))[..6]
  }

  /** Twelve digits: an odd number gets a zero in front, and every number zeros behind. */
  function TwelveDigits(s: seq<Byte>): (t: seq<Byte>)
    requires |s| <= 12
    ensures |t| == 12
  {
    Evened(s) + seq(12 - |Evened(s)|, _ => ZERO)
  }

  lemma {:induction false} FilledConcat(a: seq<Byte>, b: seq<Byte>)
    ensures Filled(a + b) == Filled(a) + Filled(b)
  {
    hide SignedTens, SignedOnes;
    if a == [] {
      assert a + b == b;
    } else {
      assert (a + b)[0] == a[0] && (a + b)[1..] == a[1..] + b;
      FilledConcat(a[1..], b);
    }
  }

  lemma {:induction false} FilledZeros(z: seq<Byte>)
    requires forall i :: 0 <= i < |z| ==> z[i] == 0
    ensures |Filled(z)| == 2 * |z| && forall i :: 0 <= i < |Filled(z)| ==> Filled(z)[i] == ZERO
  {
    if z != [] {
      FilledZeros(z[1..]);
    }
  }

  lemma SixBytesFilled(s: seq<Byte>)
    requires Digits(s) && |s| <= 12
    ensures ValidBcd(SixBytes(s)) && Filled(SixBytes(s)) == TwelveDigits(s)
  {
    hide Compress, Filled, Pack, Tens, Ones, SignedTens, SignedOnes;
    CompressedIsValid(s);
    CompressThenFill(s);
    var c := Compress(s);
    var z: seq<Byte> := seq(6 - |c|, _ => 0);
    assert SixBytes(s) == c + z;
    FilledConcat(c, z);
    FilledZeros(z);
  }

  /** Devices are told apart by six bytes of their phone numbers.  Two numbers of at most
      eleven digits have the same bytes exactly when they agree as twelve digits; numbers of
      the same length exactly when they are the same. */
  lemma SameBytesExactlyWhen(s: seq<Byte>, t: seq<Byte>)
    requires Digits(s) && Digits(t) && |s| <= 11 && |t| <= 11
    ensures SixBytes(s) == SixBytes(t) <==> TwelveDigits(s) == TwelveDigits(t)
    ensures |s| == |t| ==> (SixBytes(s) == SixBytes(t) <==> s == t)
  {
    hide SixBytes, Filled, TwelveDigits;
    SixBytesFilled(s);
    SixBytesFilled(t);
    if TwelveDigits(s) == TwelveDigits(t) {
      FillThenCompress(SixBytes(s));
      FillThenCompress(SixBytes(t));
      if |s| == |t| {
        SameDigits(s, t);
      }
    }
  }

  lemma SameDigits(s: seq<Byte>, t: seq<Byte>)
    requires |s| == |t| <= 12 && TwelveDigits(s) == TwelveDigits(t)
    ensures s == t
  {
    var n, k := |s|, |s| % 2;
    assert TwelveDigits(s)[k..n + k] == s;
    assert TwelveDigits(t)[k..n + k] == t;
  }

  /** "13" and "1300" are the same device. */
  lemma ShortNumbersMeet()
    ensures var s: seq<Byte>, t: seq<Byte> := [0x31, 0x33], [0x31, 0x33, 0x30, 0x30];
            Digits(s) && Digits(t) && s != t && SixBytes(s) == SixBytes(t)
  {
    var s: seq<Byte>, t: seq<Byte> := [0x31, 0x33], [0x31, 0x33, 0x30, 0x30];
    assert TwelveDigits(s) == TwelveDigits(t);
    SameBytesExactlyWhen(s, t);
  }
}
