/** Check byte, escaping and the delimited frame (sections 4.4.2 to 4.4.4 of JT/T 808-2011).
    The specification is by functions on sequences; the methods are the in-place
    algorithms over a buffer and are proved equal to them. */
module Framing {
  import opened Bytes

  const SIGN: Byte := 0x7E
  const ESCAPE: Byte := 0x7D
  const ESCAPE_SIGN: Byte := 0x02
  const ESCAPE_ESCAPE: Byte := 0x01

  // ---- Check byte -------------------------------------------------------------------

  function Bcc(s: seq<Byte>): Byte {
    if s == [] then 0 else Xor(Bcc(s[..|s| - 1]), s[|s| - 1])
  }

  method BccCheckSum(a: array<Byte>, from: nat, len: nat) returns (checksum: Byte)
    requires from + len <= a.Length
    ensures checksum == Bcc(a[from..from + len])
  {
    checksum := 0;
    for i := 0 to len
      invariant checksum == Bcc(a[from..from + i])
    {
      checksum := Xor(checksum, a[from + i]);
      assert a[from..from + i + 1][..i] == a[from..from + i];
    }
  }

  /** How many bytes of a text have bit i set. */
  function WithBit(s: seq<Byte>, i: nat): nat {
    if s == [] then 0 else WithBit(s[1..], i) + Bit(s[0], i)
  }

  lemma {:induction false} WithBitConcat(s: seq<Byte>, t: seq<Byte>, i: nat)
    ensures WithBit(s + t, i) == WithBit(s, i) + WithBit(t, i)
  {
    if s == [] {
      assert s + t == t;
    } else {
      assert (s + t)[1..] == s[1..] + t;
      WithBitConcat(s[1..], t, i);
    }
  }

  /** What the check byte is: each of its bits tells whether an odd number of bytes has it. */
  lemma {:induction false} BccIsParity(s: seq<Byte>, i: nat)
    ensures Bit(Bcc(s), i) == WithBit(s, i) % 2
    decreases |s|
  {
    hide Bit, WithBit, XorBits;
    if s == [] {
      NoBits(i);
    } else {
      var n := |s| - 1;
      BccIsParity(s[..n], i);
      XorBit(Bcc(s[..n]), s[n], i);
      WithBitLast(s, i);
    }
  }

  lemma WithBitLast(s: seq<Byte>, i: nat)
    requires s != []
    ensures WithBit(s, i) == WithBit(s[..|s| - 1], i) + Bit(s[|s| - 1], i)
  {
    hide Bit;
    var n := |s| - 1;
    assert s == s[..n] + [s[n]] && [s[n]][1..] == [];
    WithBitConcat(s[..n], [s[n]], i);
  }

  lemma {:induction false} NoBits(i: nat)
    ensures Bit(0, i) == 0 && WithBit([], i) == 0
  {
    if i > 0 {
      NoBits(i - 1);
    }
  }

  /** The check byte of one byte is that byte, and of two the exclusive or. */
  lemma BccOfFew(b: Byte, c: Byte)
    ensures Bcc([]) == 0 && Bcc([b]) == b && Bcc([b, c]) == Xor(b, c)
  {
    assert [b][..0] == [] && [b, c][..1] == [b];
    XorNothing(b);
  }

  lemma XorSamples()
    ensures Xor(0x01, 0x02) == 0x03 && Xor(0x55, 0x0F) == 0x5A && Xor(0x01, 0x7E) == 0x7F
  {
  }

  lemma {:induction false} XorNothing(b: nat)
    ensures XorBits(0, b) == b
  {
    if b > 0 {
      XorNothing(b / 2);
    }
  }

  /** Changing any one byte changes the check byte. */
  lemma {:induction false} BccSeesOneByte(s: seq<Byte>, i: nat, b: Byte)
    requires i < |s| && b != s[i]
    ensures Bcc(s[i := b]) != Bcc(s)
  {
    var n, t := |s| - 1, s[i := b];
    if i == n {
      assert t[..n] == s[..n];
      if Bcc(t) == Bcc(s) {
        XorCancels(Bcc(s[..n]), b, s[n]);
      }
    } else {
      assert t[..n] == s[..n][i := b];
      BccSeesOneByte(s[..n], i, b);
      if Bcc(t) == Bcc(s) {
        XorCommutes(Bcc(t[..n]), s[n]);
        XorCommutes(Bcc(s[..n]), s[n]);
        XorCancels(s[n], Bcc(t[..n]), Bcc(s[..n]));
      }
    }
  }

  /** The last byte of s is the check byte of the bytes before it. */
  predicate Checked(s: seq<Byte>)
    requires |s| > 0
  {
    Bcc(s[..|s| - 1]) == s[|s| - 1]
  }

  /** One altered byte, in the content or in the check byte itself, never goes unnoticed. */
  lemma OneAlteredByteIsSeen(content: seq<Byte>, i: nat, b: Byte)
    requires i <= |content|
    requires b != (content + [Bcc(content)])[i]
    ensures !Checked((content + [Bcc(content)])[i := b])
  {
    var s := content + [Bcc(content)];
    var t := s[i := b];
    assert s[..|s| - 1] == content;
    if i < |content| {
      assert t[..|t| - 1] == content[i := b];
      BccSeesOneByte(content, i, b);
    } else {
      assert t[..|t| - 1] == content;
    }
  }

  // ---- Escaping ---------------------------------------------------------------------

  function EscapeByte(b: Byte): seq<Byte> {
    if b == SIGN then [ESCAPE, ESCAPE_SIGN]
    else if b == ESCAPE then [ESCAPE, ESCAPE_ESCAPE]
    else [b]
  }

  function Escape(s: seq<Byte>): seq<Byte> {
    if s == [] then [] else EscapeByte(s[0]) + Escape(s[1..])
  }

  /** What the reverse loop makes of the first len bytes of s.  It looks one byte ahead, so
      s is at least one byte longer, and that byte is swallowed when an escape pair
      straddles the end. */
  function Unescape(s: seq<Byte>, len: nat): seq<Byte>
    requires len == 0 || len < |s|
  {
    if len == 0 then []
    else if s[0] == ESCAPE && s[1] == ESCAPE_SIGN then
      [SIGN] + Unescape(s[2..], if len == 1 then 0 else len - 2)
    else if s[0] == ESCAPE && s[1] == ESCAPE_ESCAPE then
      [ESCAPE] + Unescape(s[2..], if len == 1 then 0 else len - 2)
    else
      [s[0]] + Unescape(s[1..], len - 1)
  }

  lemma {:induction false} EscapeBounds(s: seq<Byte>)
    ensures |s| <= |Escape(s)| <= 2 * |s|
  {
    if s != [] {
      EscapeBounds(s[1..]);
    }
  }

  lemma {:induction false} UnescapeBound(s: seq<Byte>, len: nat)
    requires len == 0 || len < |s|
    ensures |Unescape(s, len)| <= len
    decreases len
  {
    if len > 1 {
      if s[0] == ESCAPE && (s[1] == ESCAPE_SIGN || s[1] == ESCAPE_ESCAPE) {
        UnescapeBound(s[2..], len - 2);
      } else {
        UnescapeBound(s[1..], len - 1);
      }
    }
  }

  lemma {:induction false} EscapeConcat(s: seq<Byte>, t: seq<Byte>)
    ensures Escape(s + t) == Escape(s) + Escape(t)
  {
    if s == [] {
      assert s + t == t;
    } else {
      assert (s + t)[1..] == s[1..] + t;
      EscapeConcat(s[1..], t);
    }
  }

  /** How many bytes of s need escaping. */
  function Specials(s: seq<Byte>): nat {
    if s == [] then 0
    else (if s[0] == SIGN || s[0] == ESCAPE then 1 else 0) + Specials(s[1..])
  }

  /** An escaped text has no flag byte in it, every escape byte in it opens a known pair,
      and it is longer by the number of bytes that needed escaping. */
  lemma {:induction false} EscapedForm(s: seq<Byte>)
    ensures SIGN !in Escape(s)
    ensures |Escape(s)| == |s| + Specials(s)
    ensures forall i :: 0 <= i < |Escape(s)| && Escape(s)[i] == ESCAPE ==>
                          i + 1 < |Escape(s)| && Escape(s)[i + 1] in {ESCAPE_SIGN, ESCAPE_ESCAPE}
  {
    if s != [] {
      EscapedForm(s[1..]);
      var h, t := EscapeByte(s[0]), Escape(s[1..]);
      forall i | 0 <= i < |Escape(s)| && Escape(s)[i] == ESCAPE
        ensures i + 1 < |Escape(s)| && Escape(s)[i + 1] in {ESCAPE_SIGN, ESCAPE_ESCAPE}
      {
        if i >= |h| {
          assert t[i - |h|] == ESCAPE;
        }
      }
    }
  }

  /** The two codes of section 4.4.2; every other byte stands for itself. */
  lemma EscapeCodes(b: Byte)
    ensures Escape([0x7E]) == [0x7D, 0x02] && Escape([0x7D]) == [0x7D, 0x01]
    ensures b != 0x7E && b != 0x7D ==> Escape([b]) == [b]
  {
    assert forall c: Byte :: [c][1..] == [];
  }

  /** The reverse loop takes the two codes for what they stand for, also where a code begins in
      the last byte it is given; an escape byte before anything else stands for itself. */
  lemma UnescapeCodes(c: Byte)
    ensures Unescape([0x7D, 0x02, c], 2) == [0x7E] == Unescape([0x7D, 0x02], 1)
    ensures Unescape([0x7D, 0x01, c], 2) == [0x7D] == Unescape([0x7D, 0x01], 1)
    ensures c != 1 && c != 2 ==> Unescape([0x7D, c], 1) == [0x7D]
    ensures c != 1 && c != 2 ==> Unescape([0x7D, c, 0], 2) == [0x7D, c]
  {
    assert [0x7D, 0x02, c][2..] == [c] && [0x7D, 0x01, c][2..] == [c];
    var t: seq<Byte> := [c, 0];
    assert [0x7D, c, 0][1..] == t && Unescape(t[1..], 0) == [];
    assert c != 1 && c != 2 ==> Unescape(t, 1) == [c];
  }

  /** A text without an escape byte is left as it is. */
  lemma {:induction false} UnescapePlain(s: seq<Byte>, len: nat)
    requires (len == 0 || len < |s|) && forall i :: 0 <= i < len ==> s[i] != 0x7D
    ensures Unescape(s, len) == s[..len]
    decreases len
  {
    if len > 0 {
      UnescapePlain(s[1..], len - 1);
      assert s[..len] == [s[0]] + s[1..][..len - 1];
    }
  }

  lemma EscapeUnfolds(s: seq<Byte>)
    ensures Escape(s) == if s == [] then [] else EscapeByte(s[0]) + Escape(s[1..])
  {
  }

  lemma UnescapeNothing(s: seq<Byte>)
    ensures Unescape(s, 0) == []
  {
  }

  /** One escaped byte is one step of the reverse loop. */
  lemma UnescapeStep(b: Byte, rest: seq<Byte>, k: nat)
    requires k < |rest|
    ensures Unescape(EscapeByte(b) + rest, |EscapeByte(b)| + k) == [b] + Unescape(rest, k)
  {
  }

  /** Unescaping undoes escaping and then carries on with whatever follows. */
  lemma {:induction false} UnescapeEscape(s: seq<Byte>, tail: seq<Byte>, k: nat)
    requires k < |tail|
    ensures Unescape(Escape(s) + tail, |Escape(s)| + k) == s + Unescape(tail, k)
  {
    hide Escape, Unescape;
    EscapeUnfolds(s);
    if s == [] {
      assert Escape(s) + tail == tail;
    } else {
      var h, e := EscapeByte(s[0]), Escape(s[1..]);
      assert Escape(s) + tail == h + (e + tail);
      UnescapeStep(s[0], e + tail, |e| + k);
      UnescapeEscape(s[1..], tail, k);
      assert [s[0]] + (s[1..] + Unescape(tail, k)) == s + Unescape(tail, k);
    }
  }

  /** Two different texts never have the same escaped form. */
  lemma EscapeInjective(s: seq<Byte>, t: seq<Byte>)
    requires Escape(s) == Escape(t)
    ensures s == t
  {
    UnescapeEscape(s, [0], 0);
    UnescapeEscape(t, [0], 0);
    assert Unescape([0], 0) == [];
    assert s + [] == s && t + [] == t;
  }

  lemma EscapeNext(src: seq<Byte>, i: nat, done: seq<Byte>)
    requires i < |src| && done + Escape(src[i..]) == Escape(src)
    ensures done + EscapeByte(src[i]) + Escape(src[i + 1..]) == Escape(src)
  {
  }

  /** The loop of Escape: fills a scratch buffer with the escaped form. */
  method EscapeToBuffer(a: array<Byte>, from: nat, len: nat) returns (buffer: array<Byte>, j: nat)
    requires from + len <= a.Length
    ensures fresh(buffer) && j <= buffer.Length
    ensures buffer[..j] == Escape(a[from..from + len])
  {
    hide Escape;
    ghost var src := a[from..from + len];
    ghost var done: seq<Byte> := [];
    buffer := new Byte[len * 2](_ => 0);
    var i := 0;
    j := 0;
    while i < len
      invariant 0 <= i <= len && j <= 2 * i
      invariant buffer[..j] == done
      invariant done + Escape(src[i..]) == Escape(src)
      modifies buffer
    {
      EscapeNext(src, i, done);
      done := done + EscapeByte(src[i]);
      if a[from + i] == SIGN {
        j := Put2(buffer, j, ESCAPE, ESCAPE_SIGN);
      } else if a[from + i] == ESCAPE {
        j := Put2(buffer, j, ESCAPE, ESCAPE_ESCAPE);
      } else {
        j := Put1(buffer, j, a[from + i]);
      }
      i := i + 1;
    }
    EscapeUnfolds(src[i..]);
  }

  method EscapeInPlace(a: array<Byte>, from: nat, len: nat) returns (j: nat)
    requires from + len <= a.Length
    requires from + |Escape(a[from..from + len])| <= a.Length
    modifies a
    ensures j == |Escape(old(a[from..from + len]))|
    ensures a[..] == old(a[..from]) + Escape(old(a[from..from + len])) + old(a[from + j..])
  {
    var buffer;
    buffer, j := EscapeToBuffer(a, from, len);
    CopyInto(a, from, buffer, j);
  }

  /** How far one round of the reverse loop moves. */
  function Taken(s: seq<Byte>): nat
    requires |s| > 1
  {
    if s[0] == ESCAPE && (s[1] == ESCAPE_SIGN || s[1] == ESCAPE_ESCAPE) then 2 else 1
  }

  function Left(len: nat, i: nat): nat {
    if i <= len then len - i else 0
  }

  lemma UnescapeNext(src: seq<Byte>, len: nat, i: nat, b: Byte, done: seq<Byte>)
    requires i < len < |src|
    requires done + Unescape(src[i..], len - i) == Unescape(src, len)
    requires b == if Taken(src[i..]) == 1 then src[i] else if src[i + 1] == ESCAPE_SIGN then SIGN else ESCAPE
    ensures done + [b] + Unescape(src[i + Taken(src[i..])..], Left(len, i + Taken(src[i..]))) == Unescape(src, len)
  {
    hide Escape;
    var rest, n := src[i..], len - i;
    assert rest[1..] == src[i + 1..] && rest[2..] == src[i + 2..];
    assert Unescape(rest, n) == [b] + Unescape(rest[Taken(rest)..], Left(n, Taken(rest)));
  }

  /** The loop of ReverseEscape. */
  method UnescapeToBuffer(a: array<Byte>, from: nat, len: nat) returns (buffer: array<Byte>, j: nat)
    requires from + len < a.Length
    ensures fresh(buffer) && j <= buffer.Length == len
    ensures buffer[..j] == Unescape(a[from..], len)
  {
    hide Unescape;
    ghost var src := a[from..];
    ghost var done: seq<Byte> := [];
    buffer := new Byte[len](_ => 0);
    var i := 0;
    j := 0;
    while i < len
      invariant 0 <= i <= len + 1 && j <= i && j <= len
      invariant buffer[..j] == done
      invariant done + Unescape(src[i..], Left(len, i)) == Unescape(src, len)
      modifies buffer
    {
      ghost var at := i;
      var b, next := a[from + i], a[from + i + 1];
      if b == ESCAPE && next == ESCAPE_SIGN {
        b := SIGN;
        i := i + 1;
      } else if b == ESCAPE && next == ESCAPE_ESCAPE {
        i := i + 1;
      }
      UnescapeNext(src, len, at, b, done);
      done := done + [b];
      j := Put1(buffer, j, b);
      i := i + 1;
    }
    UnescapeNothing(src[i..]);
  }

  method ReverseEscapeInPlace(a: array<Byte>, from: nat, len: nat) returns (j: nat)
    requires from + len < a.Length
    modifies a
    ensures j == |Unescape(old(a[from..]), len)| <= len
    ensures a[..] == old(a[..from]) + Unescape(old(a[from..]), len) + old(a[from + j..])
  {
    var buffer;
    buffer, j := UnescapeToBuffer(a, from, len);
    CopyInto(a, from, buffer, j);
  }

  /** buffer[j++] = b */
  method Put1(buffer: array<Byte>, j: nat, b: Byte) returns (j': nat)
    requires j < buffer.Length
    modifies buffer
    ensures j' == j + 1 && buffer[..j'] == old(buffer[..j]) + [b]
  {
    buffer[j] := b;
    j' := j + 1;
  }

  method Put2(buffer: array<Byte>, j: nat, b: Byte, c: Byte) returns (j': nat)
    requires j + 1 < buffer.Length
    modifies buffer
    ensures j' == j + 2 && buffer[..j'] == old(buffer[..j]) + [b, c]
  {
    buffer[j] := b;
    buffer[j + 1] := c;
    j' := j + 2;
  }

  /** memcpy of the first n elements of b to position `from` of a. */
  method CopyInto(a: array<Byte>, from: nat, b: array<Byte>, n: nat)
    requires a != b && n <= b.Length && from + n <= a.Length
    modifies a
    ensures a[..] == old(a[..from]) + b[..n] + old(a[from + n..])
  {
    forall k | 0 <= k < n {
      a[from + k] := b[k];
    }
    assert forall k :: 0 <= k < n ==> a[from + k] == b[k];
    assert a[..from] == old(a[..from]);
    assert a[from..from + n] == b[..n];
    assert a[from + n..] == old(a[from + n..]);
    assert a[..] == a[..from] + a[from..from + n] + a[from + n..];
  }

  // ---- Frames -----------------------------------------------------------------------

  /** The frame that carries a header and body. */
  function Wire(content: seq<Byte>): seq<Byte> {
    Delimited(content + [Bcc(content)])
  }

  /** An unescaped text between two flags, whether or not its check byte is right. */
  function Delimited(text: seq<Byte>): seq<Byte> {
    [SIGN] + Escape(text) + [SIGN]
  }

  /** The receiver loop runs over the frame behind the opening flag and one byte beyond it.
      In a zeroed buffer it therefore leaves the text, the closing flag and one zero. */
  lemma UnescapeDelimited(text: seq<Byte>, zeros: seq<Byte>)
    requires |zeros| >= 2 && zeros[0] == 0
    ensures var f := Delimited(text);
            |f| < |(f + zeros)[1..]|
            && Unescape((f + zeros)[1..], |f|) == text + [SIGN, 0]
  {
    var f := Delimited(text);
    var tail := [SIGN] + zeros;
    assert (f + zeros)[1..] == Escape(text) + tail;
    UnescapeEscape(text, tail, 2);
    assert tail[1..] == zeros;
    assert Unescape(zeros, 1) == [zeros[0]] + Unescape(zeros[1..], 0);
    assert Unescape(tail, 2) == [SIGN, 0];
  }

  /** A frame is at most two flags and twice its text, and a full-size message fits. */
  lemma FrameLength(content: seq<Byte>)
    ensures |content| + 3 <= |Wire(content)| <= 2 * |content| + 4
    ensures |content| <= 16 + 1023 ==> |Wire(content)| <= 2082 < 4096
  {
    EscapeBounds(content + [Bcc(content)]);
  }

  /** A whole frame: content 01 7E, check byte 7F, the flag inside escaped. */
  lemma SampleFrame()
    ensures Wire([0x01, 0x7E]) == [0x7E, 0x01, 0x7D, 0x02, 0x7F, 0x7E]
  {
    hide Bcc, Escape, XorBits, Xor;
    var a: seq<Byte>, b: seq<Byte>, c: seq<Byte> := [0x01], [0x7E], [0x7F];
    var content: seq<Byte> := [0x01, 0x7E];
    BccOfFew(0x01, 0x7E);
    XorSamples();
    assert Bcc(content) == 0x7F;
    assert a + b == content && content + [0x7F] == content + c;
    EscapeConcat(a, b);
    EscapeConcat(content, c);
    EscapeCodes(0x01);
    EscapeCodes(0x7F);
    assert Escape(content + c) == [0x01, 0x7D, 0x02, 0x7F];
  }

  /** Frames cut themselves out of a byte stream: the only flags are the two at the ends. */
  lemma FrameDelimitsItself(content: seq<Byte>, i: nat)
    requires i < |Wire(content)|
    ensures Wire(content)[i] == SIGN <==> i == 0 || i == |Wire(content)| - 1
  {
    EscapedForm(content + [Bcc(content)]);
    if 0 < i < |Wire(content)| - 1 {
      assert Wire(content)[i] == Escape(content + [Bcc(content)])[i - 1];
    }
  }
}
