/** The message buffer both sides pack into and parse from, the header, and the bookkeeping
    of three numbers that must stay in step while a body is written: the write pointer, the
    size field and the 10-bit length in the attribute word. */
module Messages {
  import opened Bytes
  import opened Framing

  const BUFFER_LEN := 4096
  const NOPACKAGE_POS := 13
  const PACKAGE_POS := 17
  const MAX_BODY := 1023

  // ---- Header -----------------------------------------------------------------------

  /** Attribute word: length in bits 0 to 9, package flag in bit 13, the rest zero. */
  function Attribute(msglen: nat, packaged: bool): Word
    requires msglen < 1024
  {
    msglen + if packaged then 0x2000 else 0
  }

  function AttributeLength(v: Word): nat { v % 1024 }

  predicate AttributePackaged(v: Word) { v / 0x2000 % 2 == 1 }

  lemma AttributeFields(msglen: nat, packaged: bool)
    requires msglen < 1024
    ensures AttributeLength(Attribute(msglen, packaged)) == msglen
    ensures AttributePackaged(Attribute(msglen, packaged)) == packaged
  {
  }

  /** The package flag is bit 13, whatever the other bits are. */
  lemma PackageBit(v: Word)
    ensures AttributePackaged(v) <==> v % 0x4000 >= 0x2000
    ensures AttributeLength(v) == v % 0x400
    ensures Attribute(0x3FF, true) == 0x23FF && Attribute(0x3FF, false) == 0x3FF
  {
  }

  datatype Part = Whole | Part(total: Word, sequence: Word)

  function PartBytes(part: Part): seq<Byte> {
    match part
    case Whole => []
    case Part(total, sequence) => Be16(total) + Be16(sequence)
  }

  function Header(id: Word, attribute: Word, phone: seq<Byte>, flow: Word): (h: seq<Byte>)
    requires |phone| == 6
    ensures |h| == 12
  {
    Be16(id) + Be16(attribute) + phone + Be16(flow)
  }

  /** Everything between the opening flag and the check byte. */
  function Content(id: Word, phone: seq<Byte>, flow: Word, part: Part, body: seq<Byte>): seq<Byte>
    requires |phone| == 6
  {
    ContentWith(id, |body| % 1024, phone, flow, part, body)
  }

  /** The same with whatever length the packer put in the attribute word. */
  function ContentWith(id: Word, msglen: nat, phone: seq<Byte>, flow: Word, part: Part, body: seq<Byte>)
    : seq<Byte>
    requires |phone| == 6 && msglen < 1024
  {
    Header(id, Attribute(msglen, part.Part?), phone, flow) + PartBytes(part) + body
  }

  // ---- Values of a received message -------------------------------------------------

  /** A Message by value, as it is copied into a packet map. */
  datatype Packet = Packet(buffer: seq<Byte>, size: nat)

  predicate Sized(p: Packet) {
    |p.buffer| == BUFFER_LEN && p.size < BUFFER_LEN
  }

  function Zeros(n: nat): (z: seq<Byte>)
    ensures |z| == n && forall i :: 0 <= i < n ==> z[i] == 0
  {
    seq(n, _ => 0)
  }

  /** The buffer after memset and a receive of one frame. */
  function Loaded(frame: seq<Byte>): (b: seq<Byte>)
    requires |frame| <= BUFFER_LEN
    ensures |b| == BUFFER_LEN
  {
    frame + Zeros(BUFFER_LEN - |frame|)
  }

  /** The largest frame the parser can be given without reading past its buffer. */
  const MAX_FRAME := BUFFER_LEN - 2

  /** The message after the reverse escape at the head of the parser. */
  function Parse(frame: seq<Byte>): (p: Packet)
    requires 0 < |frame| <= MAX_FRAME
    ensures Sized(p)
  {
    var b := Loaded(frame);
    var u := Unescape(b[1..], |frame|);
    UnescapeBound(b[1..], |frame|);
    Packet(b[..1] + u + b[1 + |u|..], |u|)
  }

  /** The comparison the upgrade branch makes: the byte at size-2 against the check byte of
      the size-3 bytes behind the flag. */
  predicate CheckPasses(p: Packet)
    requires Sized(p) && p.size >= 3
  {
    p.buffer[p.size - 2] == Bcc(p.buffer[1..p.size - 2])
  }

  /** Parsing a delimited text leaves it behind the flag, with the closing flag and a zero. */
  lemma ParseBuffer(text: seq<Byte>) returns (rest: seq<Byte>)
    requires |text| > 0 && |Delimited(text)| <= MAX_FRAME
    ensures var p := Parse(Delimited(text));
            p.size == |text| + 2 && p.buffer == [SIGN] + (text + [SIGN, 0]) + rest
    ensures |text| + |rest| + 3 == BUFFER_LEN
  {
    hide Escape, Unescape;
    var f := Delimited(text);
    UnescapeDelimited(text, Zeros(BUFFER_LEN - |f|));
    var p := Parse(f);
    rest := Loaded(f)[|text| + 3..];
    assert Loaded(f)[..1] == [SIGN];
  }

  /** The check the parser makes on it looks at exactly the text's last byte. */
  lemma ParseDelimited(text: seq<Byte>)
    requires |text| > 0 && |Delimited(text)| <= MAX_FRAME
    ensures var p := Parse(Delimited(text));
            Sized(p) && p.size == |text| + 2 && p.size + 1 < BUFFER_LEN
            && p.buffer[1..|text| + 3] == text + [SIGN, 0]
            && p.buffer[1..|text| + 1] == text
            && (CheckPasses(p) <==> Checked(text))
  {
    hide Parse, Bcc, Escape;
    var n := |text|;
    var rest := ParseBuffer(text);
    var p := Parse(Delimited(text));
    EscapedIsLonger(text);
    assert p.buffer[1..n + 3] == text + [SIGN, 0];
    assert p.buffer[1..n + 1] == text;
    assert p.buffer[1..n] == text[..n - 1];
    assert p.buffer[n] == text[n - 1];
  }

  lemma EscapedIsLonger(text: seq<Byte>)
    ensures |text| + 2 <= |Delimited(text)|
  {
    EscapeBounds(text);
  }

  /** The frame round trip: what was packed comes out of the parser byte for byte behind the
      flag, followed by its check byte, and the check passes. */
  lemma FrameRoundTrip(content: seq<Byte>)
    requires |content| <= 16 + MAX_BODY
    ensures |Wire(content)| <= 2082
    ensures var p := Parse(Wire(content));
            p.size == |content| + 3
            && p.buffer[1..|content| + 1] == content
            && p.buffer[|content| + 1] == Bcc(content)
            && CheckPasses(p)
  {
    hide Delimited, Parse, Bcc;
    FrameLength(content);
    var n, text := |content|, content + [Bcc(content)];
    ParseDelimited(text);
    var p := Parse(Wire(content));
    assert text[..n] == content && text[n] == Bcc(content);
    assert p.buffer[1..n + 1] == p.buffer[1..n + 2][..n];
    assert p.buffer[n + 1] == p.buffer[1..n + 2][n];
  }

  // ---- Packing ----------------------------------------------------------------------

  /** The tail of the packer on a buffer of any shape: the check byte of the bytes up to
      size goes where the write pointer stands, one byte more than size is escaped, and the
      closing flag replaces the last escaped byte. */
  function Tail(b: seq<Byte>, size: nat, cursor: nat): (f: seq<Byte>)
    requires |b| == BUFFER_LEN && 1 <= size && size + 2 <= BUFFER_LEN && cursor < BUFFER_LEN
    ensures |f| >= 2
  {
    var e := Escape(b[cursor := Bcc(b[1..size])][1..size + 2]);
    EscapeBounds(b[cursor := Bcc(b[1..size])][1..size + 2]);
    [SIGN] + e[..|e| - 1] + [SIGN]
  }

  /** With the pointer at size and zeros behind it, the extra byte is a zero, and it is the
      one the closing flag replaces: the frame is exact. */
  lemma TailIsWire(b: seq<Byte>, size: nat)
    requires |b| == BUFFER_LEN && 1 <= size && size + 2 <= BUFFER_LEN
    requires forall k :: size <= k < BUFFER_LEN ==> b[k] == 0
    ensures Tail(b, size, size) == Wire(b[1..size])
  {
    var content := b[1..size];
    var text := content + [Bcc(content)];
    assert b[size := Bcc(content)][1..size + 2] == text + [0];
    EscapeConcat(text, [0]);
    assert Escape([0]) == [0] by { assert [0][1..] == []; }
    var e := Escape(text + [0]);
    assert e[..|e| - 1] == Escape(text);
  }

  /** With a size that is short of the pointer, the frame ends early: behind the bytes up to and
      including the one at size there is at most an escape byte, left of the last byte escaped.
      That byte is the check byte, of the bytes below size, if the size is short by one. */
  lemma TailCutsShort(b: seq<Byte>, size: nat, cursor: nat)
    requires |b| == BUFFER_LEN && 1 <= size < cursor && size + 2 <= BUFFER_LEN && cursor < BUFFER_LEN
    ensures var last: Byte := if cursor == size + 1 then Bcc(b[1..size]) else b[size + 1];
            Tail(b, size, cursor)
            == [0x7E] + (Escape(b[1..size + 1]) + if last == 0x7E || last == 0x7D then [0x7D] else []) + [0x7E]
  {
    hide Escape, Bcc;
    var last: Byte := if cursor == size + 1 then Bcc(b[1..size]) else b[size + 1];
    assert b[cursor := Bcc(b[1..size])][1..size + 2] == b[1..size + 1] + [last];
    EscapeConcat(b[1..size + 1], [last]);
    EscapeLast(last);
    var front, e := Escape(b[1..size + 1]), Escape([last]);
    assert (front + e)[..|front + e| - 1] == front + e[..|e| - 1];
  }

  lemma EscapeLast(x: Byte)
    ensures |Escape([x])| > 0
    ensures Escape([x])[..|Escape([x])| - 1] == if x == 0x7E || x == 0x7D then [0x7D] else []
  {
    assert [x][1..] == [];
  }

  /** Overwriting the two bytes behind the id turns a header without attribute into one with. */
  lemma SetAttribute(b: seq<Byte>, end: nat, id: Word, attribute: Word, phone: seq<Byte>, flow: Word,
                     rest: seq<Byte>)
    requires |phone| == 6 && 13 <= end <= |b|
    requires b[1..end] == Header(id, 0, phone, flow) + rest
    ensures (b[..3] + Be16(attribute) + b[5..])[1..end] == Header(id, attribute, phone, flow) + rest
  {
    var h := Header(id, 0, phone, flow) + rest;
    var b1 := b[..3] + Be16(attribute) + b[5..];
    assert b1[1..end] == b[1..end][..2] + Be16(attribute) + b[1..end][4..];
    assert h[..2] == Be16(id);
    assert h[4..] == phone + Be16(flow) + rest;
  }

  lemma InParts(b: seq<Byte>, c: seq<Byte>)
    requires 1 + |c| <= |b| && b[0] == 0 && b[1..1 + |c|] == c && forall k :: 1 + |c| <= k < |b| ==> b[k] == 0
    ensures b == [0] + c + Zeros(|b| - 1 - |c|)
  {
    assert b == b[..1] + b[1..1 + |c|] + b[1 + |c|..];
    assert b[1 + |c|..] == Zeros(|b| - 1 - |c|);
  }

  class Message {
    const buffer: array<Byte>
    var size: nat
    var cursor: nat     // msg_body
    var msglen: nat     // attribute.bit.msglen, ten bits wide
    var packaged: bool  // attribute.bit.package
    ghost var text: seq<Byte>  // what has been written behind the flag

    constructor ()
      ensures fresh(buffer) && buffer.Length == BUFFER_LEN
      ensures forall k :: 0 <= k < BUFFER_LEN ==> buffer[k] == 0
    {
      buffer := new Byte[BUFFER_LEN](_ => 0);
      size, cursor, msglen, packaged, text := 0, 1, 0, false, [];
    }

    ghost predicate ZeroFrom(from: nat)
      reads this, buffer
    {
      forall k :: from <= k < buffer.Length ==> buffer[k] == 0
    }

    /** The state between Begin and Finish. */
    ghost predicate Packing()
      reads this, buffer
    {
      && buffer.Length == BUFFER_LEN
      && cursor == 1 + |text| < BUFFER_LEN
      && msglen < 1024
      && buffer[0] == 0 && buffer[1..cursor] == text
      && ZeroFrom(cursor)
    }

    method Clear()
      requires buffer.Length == BUFFER_LEN
      modifies buffer
      ensures ZeroFrom(0)
    {
      forall k | 0 <= k < buffer.Length {
        buffer[k] := 0;
      }
    }

    /** The header, with an attribute word that is still zero. */
    method Begin(id: Word, phone: seq<Byte>, flow: Word)
      requires buffer.Length == BUFFER_LEN && |phone| == 6
      requires ZeroFrom(0)
      modifies this, buffer
      ensures Packing() && text == Header(id, 0, phone, flow)
      ensures size == 13 && msglen == 0 && !packaged
    {
      size, cursor, msglen, packaged, text := 13, 1, 0, false, [];
      Put16(id);
      Put16(0);
      PutBytes(phone);
      Put16(flow);
    }

    /** The package bit and the two words that follow the header then. */
    method SetPackage(total: Word, sequence: Word)
      requires Packing() && cursor == NOPACKAGE_POS
      modifies this, buffer
      ensures Packing() && text == old(text) + PartBytes(Part(total, sequence))
      ensures size == old(size) + 4 && msglen == old(msglen) && packaged
    {
      Put16(total);
      Put16(sequence);
      packaged := true;
      size := size + 4;
    }

    method PutByte(b: Byte)
      requires Packing() && cursor + 1 < BUFFER_LEN
      modifies this, buffer
      ensures Packing() && text == old(text) + [b]
      ensures size == old(size) && msglen == old(msglen) && packaged == old(packaged)
    {
      buffer[cursor] := b;
      cursor := cursor + 1;
      text := text + [b];
      assert buffer[1..cursor] == old(buffer[1..cursor]) + [b];
    }

    method Put16(v: Word)
      requires Packing() && cursor + 2 < BUFFER_LEN
      modifies this, buffer
      ensures Packing() && text == old(text) + Be16(v)
      ensures size == old(size) && msglen == old(msglen) && packaged == old(packaged)
    {
      SwapIsNetworkOrder16(v, [0, 0]);
      PutBytes(Store16(EndianSwap16(v)));
    }

    method Put32(v: DWord)
      requires Packing() && cursor + 4 < BUFFER_LEN
      modifies this, buffer
      ensures Packing() && text == old(text) + Be32(v)
      ensures size == old(size) && msglen == old(msglen) && packaged == old(packaged)
    {
      SwapStores32(v);
      PutBytes(Store32(EndianSwap32(v)));
    }

    /** memcpy to the write pointer, which then moves on. */
    method PutBytes(s: seq<Byte>)
      requires Packing() && cursor + |s| < BUFFER_LEN
      modifies this, buffer
      ensures Packing() && text == old(text) + s
      ensures size == old(size) && msglen == old(msglen) && packaged == old(packaged)
    {
      forall k | 0 <= k < |s| {
        buffer[cursor + k] := s[k];
      }
      assert buffer[cursor..cursor + |s|] == s;
      assert buffer[1..cursor] == old(buffer[1..cursor]);
      assert buffer[1..cursor + |s|] == buffer[1..cursor] + buffer[cursor..cursor + |s|];
      cursor := cursor + |s|;
      text := text + s;
    }

    /** The size field and the attribute's length move on by n. */
    method Account(n: nat)
      requires Packing()
      modifies this
      ensures Packing() && text == old(text) && packaged == old(packaged)
      ensures size == old(size) + n && msglen == (old(msglen) + n) % 1024
    {
      size := size + n;
      msglen := (msglen + n) % 1024;
    }

    /** The two numbers where the source moves them on differently. */
    method AccountApart(sizeStep: nat, lengthStep: nat)
      requires Packing()
      modifies this
      ensures Packing() && text == old(text) && packaged == old(packaged)
      ensures size == old(size) + sizeStep && msglen == (old(msglen) + lengthStep) % 1024
    {
      size := size + sizeStep;
      msglen := (msglen + lengthStep) % 1024;
    }

    /** The attribute word in its final byte order, as the last header field to be set. */
    method StoreAttribute()
      requires buffer.Length == BUFFER_LEN && msglen < 1024
      modifies buffer
      ensures buffer[..] == old(buffer[..])[..3] + Be16(Attribute(msglen, packaged)) + old(buffer[..])[5..]
    {
      var w := EndianSwap16(Attribute(msglen, packaged));
      buffer[3], buffer[4] := w % 0x100, w / 0x100;
      SwapIsNetworkOrder16(Attribute(msglen, packaged), Be16(0));
    }

    /** Check byte, escaping and flags, whether or not the numbers are in step. */
    method CloseFrame()
      requires buffer.Length == BUFFER_LEN && cursor < BUFFER_LEN && 1 <= size <= 2040
      modifies this, buffer
      ensures buffer.Length == BUFFER_LEN && size <= BUFFER_LEN
      ensures buffer[..size] == Tail(old(buffer[..]), old(size), old(cursor))
    {
      hide Escape, Bcc;
      ghost var b := buffer[..];
      var check := BccCheckSum(buffer, 1, size - 1);
      assert buffer[1..1 + (size - 1)] == b[1..size];
      buffer[cursor] := check;
      size := size + 1;
      ghost var text := buffer[1..1 + size];
      assert text == b[cursor := check][1..size + 1];
      EscapeBounds(text);
      size := EscapeInPlace(buffer, 1, size);
      PutFlags(Escape(text));
    }

    /** The two flags around an escaped text that has one byte too many. */
    method PutFlags(ghost e: seq<Byte>)
      requires 1 <= size == |e| && 1 + size < buffer.Length && buffer[1..1 + size] == e
      modifies this, buffer
      ensures size == |e| + 1 <= buffer.Length
      ensures buffer[..size] == [SIGN] + e[..|e| - 1] + [SIGN]
    {
      buffer[0] := SIGN;
      buffer[size] := SIGN;
      size := size + 1;
    }

    /** The whole tail of the packer, wherever size says the body ends. */
    method FinishApart(ghost id: Word, ghost phone: seq<Byte>, ghost flow: Word, ghost part: Part, ghost body: seq<Byte>)
      requires Packing() && 1 <= size <= 2040 && |phone| == 6 && part.Part? == packaged
      requires text == Header(id, 0, phone, flow) + PartBytes(part) + body
      modifies this, buffer
      ensures buffer.Length == BUFFER_LEN && size <= BUFFER_LEN
      ensures var c := ContentWith(id, old(msglen), phone, flow, part, body);
              1 + |c| < BUFFER_LEN
              && buffer[..size] == Tail([0] + c + Zeros(BUFFER_LEN - 1 - |c|), old(size), 1 + |c|)
    {
      hide Tail, Header;
      ghost var before := buffer[..];
      ghost var c := ContentWith(id, msglen, phone, flow, part, body);
      StoreAttribute();
      assert before[1..cursor] == Header(id, 0, phone, flow) + (PartBytes(part) + body);
      SetAttribute(before, cursor, id, Attribute(msglen, packaged), phone, flow, PartBytes(part) + body);
      ghost var b := buffer[..];
      assert b[1..cursor] == c;
      assert b == [0] + c + Zeros(BUFFER_LEN - 1 - |c|) by { InParts(b, c); }
      CloseFrame();
    }

    /** The whole tail of the packer, with the write pointer where size says the body ends. */
    method Finish(ghost id: Word, ghost phone: seq<Byte>, ghost flow: Word, ghost part: Part, ghost body: seq<Byte>)
      requires Packing() && size == cursor && |phone| == 6
      requires part.Part? == packaged && |body| <= MAX_BODY
      requires text == Header(id, 0, phone, flow) + PartBytes(part) + body
      modifies this, buffer
      ensures buffer.Length == BUFFER_LEN && size <= BUFFER_LEN
      ensures buffer[..size] == Wire(ContentWith(id, old(msglen), phone, flow, part, body))
    {
      hide Wire, Tail, Header;
      ghost var before := buffer[..];
      StoreAttribute();
      assert before[1..cursor] == Header(id, 0, phone, flow) + (PartBytes(part) + body);
      SetAttribute(before, cursor, id, Attribute(msglen, packaged), phone, flow, PartBytes(part) + body);
      ghost var b := buffer[..];
      assert b[1..size] == ContentWith(id, msglen, phone, flow, part, body);
      TailIsWire(b, size);
      CloseFrame();
    }

    /** memset, then one frame received. */
    method Receive(frame: seq<Byte>)
      requires buffer.Length == BUFFER_LEN && |frame| <= BUFFER_LEN
      modifies this, buffer
      ensures buffer[..] == Loaded(frame) && size == |frame|
    {
      Clear();
      forall k | 0 <= k < |frame| {
        buffer[k] := frame[k];
      }
      size := |frame|;
    }

    /** The head of the parser. */
    method Unwrap(ghost frame: seq<Byte>)
      requires buffer.Length == BUFFER_LEN
      requires 0 < |frame| <= MAX_FRAME && buffer[..] == Loaded(frame) && size == |frame|
      modifies this, buffer
      ensures Packet(buffer[..], size) == Parse(frame)
    {
      ghost var b := buffer[..];
      assert buffer[1..] == b[1..];
      size := ReverseEscapeInPlace(buffer, 1, size);
    }
  }
}
