/** Numbers as text: what printf and to_string write and sscanf and atoi read, on the bytes
    of a C string.  Signs, blanks and the 0x prefix are not part of this model. */
module Text {
  import opened Bytes

  const SEMICOLON: Byte := 0x3B
  const COLON: Byte := 0x3A
  const NEWLINE: Byte := 0x0A

  function Digit(d: nat, upper: bool): Byte
    requires d < 16
  {
    if d < 10 then 0x30 + d else if upper then 0x41 + d - 10 else 0x61 + d - 10
  }

  /** The value of a digit character, or 16 for any other character. */
  function DigitValue(c: Byte): (v: nat)
    ensures v <= 16
  {
    if 0x30 <= c <= 0x39 then c - 0x30
    else if 0x41 <= c <= 0x46 then c - 0x41 + 10
    else if 0x61 <= c <= 0x66 then c - 0x61 + 10
    else 16
  }

  /** The characters of the sixteen digits, and what each character is worth. */
  lemma DigitCharacters(d: nat, c: Byte)
    requires d < 16
    ensures Digit(d, false) == [0x30, 0x31, 0x32, 0x33, 0x34, 0x35, 0x36, 0x37, 0x38, 0x39,
                                0x61, 0x62, 0x63, 0x64, 0x65, 0x66][d]
    ensures Digit(d, true) == if d < 10 then 0x30 + d else 0x37 + d
    ensures DigitValue(c) < 16 <==> 0x30 <= c <= 0x39 || 0x41 <= c <= 0x46 || 0x61 <= c <= 0x66
    ensures DigitValue(Digit(d, false)) == d == DigitValue(Digit(d, true))
  {
  }

  /** %u and %x, most significant digit first. */
  function Print(n: nat, base: nat, upper: bool): (s: seq<Byte>)
    requires 2 <= base <= 16
    ensures |s| > 0
  {
    if n < base then [Digit(n, upper)] else Print(n / base, base, upper) + [Digit(n % base, upper)]
  }

  function Dec(n: nat): (s: seq<Byte>)
    ensures |s| > 0
  {
    Print(n, 10, false)
  }

  function Hex(n: nat): (s: seq<Byte>)
    ensures |s| > 0
  {
    Print(n, 16, false)
  }

  /** Reads digits of the base as long as there are any. */
  function Scan(acc: nat, s: seq<Byte>, base: nat): (nat, seq<Byte>)
    requires 2 <= base <= 16
    decreases |s|
  {
    if s != [] && DigitValue(s[0]) < base then Scan(acc * base + DigitValue(s[0]), s[1..], base) else (acc, s)
  }

  function ScanDec(s: seq<Byte>): nat {
    Scan(0, s, 10).0
  }

  function ScanHex(s: seq<Byte>): nat {
    Scan(0, s, 16).0
  }

  lemma ScanDigit(acc: nat, d: nat, base: nat, upper: bool, t: seq<Byte>)
    requires 2 <= base <= 16 && d < base
    ensures Scan(acc, [Digit(d, upper)] + t, base) == Scan(acc * base + d, t, base)
  {
  }

  lemma {:induction false} ScanPrinted(n: nat, base: nat, upper: bool, t: seq<Byte>)
    requires 2 <= base <= 16
    ensures Scan(0, Print(n, base, upper) + t, base) == Scan(n, t, base)
    decreases n
  {
    hide Scan, DigitValue, Digit;
    var d := Digit(n % base, upper);
    if n < base {
      ScanDigit(0, n, base, upper, t);
      assert n % base == n by { SmallMod(n, base); }
    } else {
      Quotient(n, base);
      ScanPrinted(n / base, base, upper, [d] + t);
      ScanDigit(n / base, n % base, base, upper, t);
      assert Print(n, base, upper) + t == Print(n / base, base, upper) + ([d] + t);
    }
  }

  lemma SmallMod(n: nat, base: nat)
    requires n < base
    ensures n % base == n && n / base == 0
  {
  }

  lemma Quotient(n: nat, base: nat)
    requires 2 <= base <= n
    ensures n / base < n && (n / base) * base + n % base == n && n % base < base
  {
  }

  /** Printing and reading invert each other, whatever follows the number. */
  lemma ReadsBack(n: nat, base: nat, upper: bool, t: seq<Byte>)
    requires 2 <= base <= 16 && (t == [] || DigitValue(t[0]) >= base)
    ensures Scan(0, Print(n, base, upper) + t, base) == (n, t)
  {
    ScanPrinted(n, base, upper, t);
  }

  lemma DecReadsBack(n: nat)
    ensures ScanDec(Dec(n)) == n
  {
    ReadsBack(n, 10, false, []);
    assert Dec(n) + [] == Dec(n);
  }

  lemma HexReadsBack(n: nat)
    ensures ScanHex(Hex(n)) == n
  {
    ReadsBack(n, 16, false, []);
    assert Hex(n) + [] == Hex(n);
  }

  /** A printed number is made of digits only. */
  lemma {:induction false} PrintedDigits(n: nat, base: nat, upper: bool)
    requires 2 <= base <= 16
    ensures forall i :: 0 <= i < |Print(n, base, upper)| ==>
                          DigitValue(Print(n, base, upper)[i]) < base && Print(n, base, upper)[i] >= 0x30
    decreases n
  {
    if n >= base {
      Quotient(n, base);
      PrintedDigits(n / base, base, upper);
    }
  }

  // ---- Decimal text read as hexadecimal ---------------------------------------------

  /** What %x makes of a number printed with %u. */
  function DecAsHex(n: nat): nat {
    if n < 10 then n else 16 * DecAsHex(n / 10) + n % 10
  }

  lemma {:induction false} ScanDecAsHex(n: nat, t: seq<Byte>)
    ensures Scan(0, Dec(n) + t, 16) == Scan(DecAsHex(n), t, 16)
    decreases n
  {
    hide Scan, DigitValue, Digit, Print, DecAsHex;
    var q, r := Peel(n);
    var d := Digit(r, false);
    DecUnfolds(n, q, r);
    ScanDigit(DecAsHex(q), r, 16, false, t);
    if n >= 10 {
      ScanDecAsHex(q, [d] + t);
      assert Dec(q) + [d] + t == Dec(q) + ([d] + t);
    } else {
      OneDigit(q);
    }
  }

  /** The last digit of a printed number, and the digits before it. */
  lemma HexUnfolds(n: nat, q: nat, r: nat)
    requires n == 16 * q + r && r < 16
    ensures Hex(n) == if n < 16 then [Digit(r, false)] else Hex(q) + [Digit(r, false)]
  {
  }

  lemma DecUnfolds(n: nat, q: nat, r: nat)
    requires n == 10 * q + r && r < 10
    ensures Dec(n) == if n < 10 then [Digit(r, false)] else Dec(q) + [Digit(r, false)]
  {
  }

  lemma DecReadAsHex(n: nat)
    ensures ScanHex(Dec(n)) == DecAsHex(n)
  {
    ScanDecAsHex(n, []);
    assert Dec(n) + [] == Dec(n);
  }

  /** The last digit comes off both readings. */
  lemma Peel(n: nat) returns (q: nat, r: nat)
    ensures n == 10 * q + r && r < 10 && DecAsHex(n) == 16 * DecAsHex(q) + r
  {
    q, r := n / 10, n % 10;
  }

  lemma OneDigit(n: nat)
    requires n < 10
    ensures DecAsHex(n) == n
  {
  }

  /** Kept in a byte, the misread number is the printed one only below ten. */
  lemma MisreadByte(n: nat)
    requires n < 0x100
    ensures DecAsHex(n) % 0x100 == n <==> n < 10
  {
    hide DecAsHex;
    var n1, y := Peel(n);
    var q, x := Peel(n1);
    OneDigit(q);
    LowPart(q, 16 * x + y, 0x100);
  }

  /** The same for a word. */
  lemma MisreadWord(n: nat)
    requires n < 0x1_0000
    ensures DecAsHex(n) % 0x1_0000 == n <==> n < 10
  {
    hide DecAsHex;
    var n1, w := Peel(n);
    var n2, z := Peel(n1);
    var n3, y := Peel(n2);
    var e, x := Peel(n3);
    OneDigit(e);
    Unrolled(n1, n2, n3, DecAsHex(n1), DecAsHex(n2), DecAsHex(n3), e, x, y, z);
    MisreadDigits(e, x, y, z, w);
    BelowTen(e, x, y, z, w);
  }

  lemma Unrolled(n1: nat, n2: nat, n3: nat, h1: nat, h2: nat, h3: nat, e: nat, x: nat, y: nat, z: nat)
    requires n1 == 10 * n2 + z && n2 == 10 * n3 + y && n3 == 10 * e + x
    requires h1 == 16 * h2 + z && h2 == 16 * h3 + y && h3 == 16 * e + x
    ensures 10 * n1 == 10000 * e + 1000 * x + 100 * y + 10 * z
    ensures 16 * h1 == 0x1_0000 * e + 256 * (16 * x + y) + 16 * z
  {
  }

  lemma BelowTen(e: nat, x: nat, y: nat, z: nat, w: nat)
    requires w < 10
    ensures 10000 * e + 1000 * x + 100 * y + 10 * z + w < 10 <==> x == y == z == e == 0
  {
  }

  lemma MisreadDigits(e: nat, x: nat, y: nat, z: nat, w: nat)
    requires x < 10 && y < 10 && z < 10 && w < 10 && e < 7
    ensures (0x1_0000 * e + 256 * (16 * x + y) + 16 * z + w) % 0x1_0000
            == 10000 * e + 1000 * x + 100 * y + 10 * z + w
            <==> x == y == z == e == 0
  {
    var low := 256 * (16 * x + y) + 16 * z + w;
    LowPart(e, low, 0x1_0000);
    FourDigitsLow(x, y, z, e);
    assert low - (10000 * e + 1000 * x + 100 * y + 10 * z + w) == 3096 * x + 156 * y + 6 * z - 10000 * e;
  }

  lemma FourDigitsLow(x: nat, y: nat, z: nat, e: nat)
    requires x < 10 && y < 10 && z < 10 && e < 7
    ensures 3096 * x + 156 * y + 6 * z == 10000 * e <==> x == y == z == e == 0
  {
  }

  lemma LowPart(q: nat, low: nat, m: nat)
    requires low < m && (m == 0x100 || m == 0x1_0000)
    ensures (m * q + low) % m == low
  {
  }

  // ---- Pieces of text ---------------------------------------------------------------

  /** What stands before the first c, or everything. */
  function Before(s: seq<Byte>, c: Byte): (p: seq<Byte>)
    ensures |p| <= |s| && p == s[..|p|] && c !in p && (|p| < |s| ==> s[|p|] == c)
  {
    if s == [] || s[0] == c then [] else [s[0]] + Before(s[1..], c)
  }

  /** What is left of s when its first line, of the given length, is taken. */
  function Rest(s: seq<Byte>, line: nat): (r: seq<Byte>)
    requires line <= |s|
    ensures s != [] ==> |r| < |s|
  {
    if line < |s| then s[line + 1..] else []
  }

  lemma {:induction false} BeforeEnds(a: seq<Byte>, c: Byte, b: seq<Byte>)
    requires c !in a
    ensures Before(a + [c] + b, c) == a
  {
    var s := a + [c] + b;
    if a != [] {
      assert s[1..] == a[1..] + [c] + b;
      BeforeEnds(a[1..], c, b);
    }
  }
}
