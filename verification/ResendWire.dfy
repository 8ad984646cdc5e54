/** The terminal's request for lost packets (DOWN_PACKETRESEND) and the service's reading of
    it.  The packer counts one byte for every id although it writes two; the model keeps
    that, beside the request as it was meant. */
module ResendWire {
  import opened Bytes
  import opened Framing
  import opened IdSets
  import opened Messages
  import opened UpgradeWire

  const DOWN_PACKETRESEND: Word := 0x8003

  function IdBytes(ids: seq<Word>): (s: seq<Byte>)
    ensures |s| == 2 * |ids|
  {
    if ids == [] then [] else IdBytes(ids[..|ids| - 1]) + Be16(ids[|ids| - 1])
  }

  /** First flow number, count in one byte, ids. */
  function ResendBody(firstFlow: Word, ids: seq<Word>): (b: seq<Byte>)
    ensures |b| == 3 + 2 * |ids|
  {
    Be16(firstFlow) + [|ids| % 0x100] + IdBytes(ids)
  }

  lemma {:induction false} IdAt(ids: seq<Word>, i: nat)
    requires i < |ids|
    ensures IdBytes(ids)[2 * i..2 * i + 2] == Be16(ids[i])
  {
    if i < |ids| - 1 {
      IdAt(ids[..|ids| - 1], i);
    }
  }

  // ---- Packing ----------------------------------------------------------------------

  method PutIds(msg: Message, ids: seq<Word>)
    requires msg.Packing() && msg.cursor + 2 * |ids| < BUFFER_LEN
    modifies msg, msg.buffer
    ensures msg.Packing() && msg.text == old(msg.text) + IdBytes(ids)
    ensures msg.size == old(msg.size) && msg.msglen == old(msg.msglen) && msg.packaged == old(msg.packaged)
  {
    ghost var t := msg.text;
    for i := 0 to |ids|
      invariant msg.Packing() && msg.text == t + IdBytes(ids[..i])
      invariant msg.size == old(msg.size) && msg.msglen == old(msg.msglen) && msg.packaged == old(msg.packaged)
    {
      msg.Put16(ids[i]);
      assert ids[..i + 1][..i] == ids[..i];
      assert t + IdBytes(ids[..i]) + Be16(ids[i]) == t + (IdBytes(ids[..i]) + Be16(ids[i]));
    }
    assert ids[..|ids|] == ids;
  }

  /** Header, body and accounting of the packer's branch: text as written, and a size that
      is short by one byte for every id. */
  function Written(phone: seq<Byte>, flow: Word, firstFlow: Word, ids: seq<Word>): (t: seq<Byte>)
    requires |phone| == 6
    ensures |t| == 15 + 2 * |ids|
  {
    Header(DOWN_PACKETRESEND, Attribute((3 + |ids|) % 1024, false), phone, flow) + ResendBody(firstFlow, ids)
  }

  /** The most ids the branch can write without leaving the buffer. */
  const MAX_IDS := 2024

  /** The frame that results. */
  function AsWritten(phone: seq<Byte>, flow: Word, firstFlow: Word, ids: seq<Word>): (f: seq<Byte>)
    requires |phone| == 6 && |ids| <= MAX_IDS
    ensures |f| >= 2
  {
    var t := Written(phone, flow, firstFlow, ids);
    Tail([0] + t + Zeros(BUFFER_LEN - 1 - |t|), 16 + |ids|, 16 + 2 * |ids|)
  }

  method PackResend(msg: Message, phone: seq<Byte>, flow: Word, firstFlow: Word, ids: seq<Word>)
    requires msg.buffer.Length == BUFFER_LEN && msg.ZeroFrom(0) && |phone| == 6 && |ids| <= MAX_IDS
    modifies msg, msg.buffer
    ensures msg.size <= BUFFER_LEN == msg.buffer.Length
    ensures msg.buffer[..msg.size] == AsWritten(phone, flow, firstFlow, ids)
  {
    hide Header, Tail, IdBytes, Attribute, Be16;
    msg.Begin(DOWN_PACKETRESEND, phone, flow);
    ghost var h := msg.text;
    msg.Put16(firstFlow);
    msg.PutByte(|ids| % 0x100);
    PutIds(msg, ids);
    ConcatAssoc(h, Be16(firstFlow), [|ids| % 0x100], IdBytes(ids));
    msg.Account(3 + |ids|);
    PutAttribute(msg, phone, flow, firstFlow, ids);
    msg.CloseFrame();
  }

  method PutAttribute(msg: Message, ghost phone: seq<Byte>, ghost flow: Word, ghost firstFlow: Word, ghost ids: seq<Word>)
    requires msg.Packing() && |phone| == 6 && |ids| <= MAX_IDS
    requires msg.text == Header(DOWN_PACKETRESEND, 0, phone, flow) + ResendBody(firstFlow, ids)
    requires msg.msglen == (3 + |ids|) % 1024 && !msg.packaged
    modifies msg.buffer
    ensures var t := Written(phone, flow, firstFlow, ids);
            msg.buffer[..] == [0] + t + Zeros(BUFFER_LEN - 1 - |t|)
  {
    hide Header, ResendBody;
    ghost var before := msg.buffer[..];
    ghost var t := Written(phone, flow, firstFlow, ids);
    assert before[1..msg.cursor] == msg.text;
    msg.StoreAttribute();
    SetAttribute(before, msg.cursor, DOWN_PACKETRESEND, Attribute(msg.msglen, false), phone, flow,
                 ResendBody(firstFlow, ids));
    ghost var after := msg.buffer[..];
    assert after[1..msg.cursor] == t;
    assert after[..1] == [0];
    assert after[msg.cursor..] == Zeros(BUFFER_LEN - 1 - |t|);
    assert after == after[..1] + after[1..msg.cursor] + after[msg.cursor..];
  }

  /** The request with two bytes counted for every id. */
  function AsMeant(phone: seq<Byte>, flow: Word, firstFlow: Word, ids: seq<Word>): (f: seq<Byte>)
    requires |phone| == 6 && |ids| <= 510
    ensures 0 < |f| <= 2082
  {
    FrameLength(Content(DOWN_PACKETRESEND, phone, flow, Whole, ResendBody(firstFlow, ids)));
    Wire(Content(DOWN_PACKETRESEND, phone, flow, Whole, ResendBody(firstFlow, ids)))
  }

  // ---- Reading ----------------------------------------------------------------------

  /** The ids the service takes from a parsed request: as many as the count byte says. */
  function ReadIds(b: seq<Byte>, at: nat, count: nat): (ids: seq<Word>)
    requires at + 2 * count <= |b|
    ensures |ids| == count && forall i :: 0 <= i < count ==> ids[i] == WordAt(b, at + 2 * i)
  {
    seq(count, i requires 0 <= i < count => WordAt(b, at + 2 * i))
  }

  /** The body starts behind the package fields, if the frame has them. */
  function BodyOf(p: Packet): (at: nat)
    requires Sized(p)
    ensures at <= PACKAGE_POS
  {
    if PackagedOf(p) then PACKAGE_POS else NOPACKAGE_POS
  }

  function Requested(p: Packet): seq<Word>
    requires Sized(p)
  {
    ReadIds(p.buffer, BodyOf(p) + 3, p.buffer[BodyOf(p) + 2])
  }

  /** The service's branch for the request: appends to the list it already has. */
  method ReadRequest(p: Packet, list: seq<Word>) returns (list': seq<Word>)
    requires Sized(p)
    ensures list' == list + Requested(p)
  {
    hide PackagedOf, WordAt;
    list' := list;
    var at := NOPACKAGE_POS;
    if PackagedOf(p) {
      at := at + 4;
    }
    at := at + 2;
    var count := p.buffer[at];
    at := at + 1;
    for i := 0 to count
      invariant at == BodyOf(p) + 3 + 2 * i && list' == list + Requested(p)[..i]
    {
      list' := list' + [WordAt(p.buffer, at)];
      at := at + 2;
    }
  }

  /** Where the service looks: for the count at byte 15 and the ids from byte 16 on, or four bytes
      later if the frame has package fields. */
  lemma RequestedFrom(p: Packet)
    requires Sized(p)
    ensures var at := if WordAt(p.buffer, 3) % 0x4000 >= 0x2000 then 19 else 15;
            |Requested(p)| == p.buffer[at]
            && forall i :: 0 <= i < |Requested(p)| ==> Requested(p)[i] == WordAt(p.buffer, at + 1 + 2 * i)
  {
    hide WordAt;
    PackageBit(WordAt(p.buffer, 3));
  }

  lemma IdsReadBack(b: seq<Byte>, at: nat, ids: seq<Word>, i: nat)
    requires at + 2 * |ids| <= |b| && b[at..at + 2 * |ids|] == IdBytes(ids) && i < |ids|
    ensures WordAt(b, at + 2 * i) == ids[i]
  {
    hide IdBytes;
    IdAt(ids, i);
    BodySlice(b, at, IdBytes(ids), 2 * i, 2 * i + 2);
    ReadBack16(ids[i], b, at + 2 * i);
  }

  /** As meant, a request of up to 255 ids arrives whole; of more, only the first n mod 256
      do, because the count has one byte. */
  lemma MeantRequestArrives(phone: seq<Byte>, flow: Word, firstFlow: Word, ids: seq<Word>)
    requires |phone| == 6 && |ids| <= 510
    ensures var p := Parse(AsMeant(phone, flow, firstFlow, ids));
            IdOf(p) == DOWN_PACKETRESEND == 0x8003 && !PackagedOf(p)
            && p.buffer[5..11] == phone && WordAt(p.buffer, 11) == flow && WordAt(p.buffer, 13) == firstFlow
            && p.buffer[15] == |ids| % 0x100 && (forall i :: 0 <= i < |ids| ==> WordAt(p.buffer, 16 + 2 * i) == ids[i])
            && Requested(p) == ids[..|ids| % 0x100]
            && (Requested(p) == ids <==> |ids| < 0x100)
  {
    hide Parse, Wire, Escape, IdBytes, Requested, AsMeant, Header, WordAt, CheckPasses;
    var body := ResendBody(firstFlow, ids);
    var content := Content(DOWN_PACKETRESEND, phone, flow, Whole, body);
    FrameRoundTrip(content);
    var p := Parse(AsMeant(phone, flow, firstFlow, ids));
    assert p == Parse(Wire(content)) by {
      MeantIsWire(phone, flow, firstFlow, ids);
    }
    HeaderReadBack(p, DOWN_PACKETRESEND, |body| % 1024, phone, flow, Whole, body);
    BodyReadBack(p, DOWN_PACKETRESEND, |body| % 1024, phone, flow, Whole, body);
    RequestBodyReadBack(p, firstFlow, ids);
    RequestBodyLies(p.buffer, firstFlow, ids);
  }

  /** The words and the byte of a request's body. */
  lemma RequestBodyLies(b: seq<Byte>, firstFlow: Word, ids: seq<Word>)
    requires 16 + 2 * |ids| <= |b| && b[13..16 + 2 * |ids|] == ResendBody(firstFlow, ids)
    ensures WordAt(b, 13) == firstFlow && b[15] == |ids| % 0x100
    ensures forall i :: 0 <= i < |ids| ==> WordAt(b, 16 + 2 * i) == ids[i]
  {
    hide IdBytes, WordAt, Be16;
    var body := ResendBody(firstFlow, ids);
    BodySlice(b, 13, body, 0, 2);
    assert body[0..2] == Be16(firstFlow);
    ReadBack16(firstFlow, b, 13);
    BodySlice(b, 13, body, 2, 3);
    assert b[15] == b[15..16][0];
    BodySlice(b, 13, body, 3, |body|);
    assert body[3..] == IdBytes(ids);
    forall i | 0 <= i < |ids|
      ensures WordAt(b, 16 + 2 * i) == ids[i]
    {
      IdsReadBack(b, 16, ids, i);
    }
  }

  lemma MeantIsWire(phone: seq<Byte>, flow: Word, firstFlow: Word, ids: seq<Word>)
    requires |phone| == 6 && |ids| <= 510
    ensures AsMeant(phone, flow, firstFlow, ids)
         == Wire(Content(DOWN_PACKETRESEND, phone, flow, Whole, ResendBody(firstFlow, ids)))
  {
  }

  lemma RequestBodyReadBack(p: Packet, firstFlow: Word, ids: seq<Word>)
    requires Sized(p) && !PackagedOf(p) && 16 + 2 * |ids| <= BUFFER_LEN
    requires p.buffer[13..16 + 2 * |ids|] == ResendBody(firstFlow, ids)
    ensures Requested(p) == ids[..|ids| % 0x100]
  {
    hide IdBytes, PackagedOf;
    var body := ResendBody(firstFlow, ids);
    BodySlice(p.buffer, 13, body, 2, 3);
    BodySlice(p.buffer, 13, body, 3, |body|);
    assert body[2..3] == [|ids| % 0x100] && body[3..] == IdBytes(ids);
    assert p.buffer[15] == p.buffer[15..16][0];
    forall i | 0 <= i < |ids| % 0x100
      ensures Requested(p)[i] == ids[i]
    {
      IdsReadBack(p.buffer, 16, ids, i);
    }
  }

  // ---- The request as it is written -------------------------------------------------

  /** Cutting the text short: all but the last byte of what is escaped arrives, and the last
      one arrives as a flag, or as an escape byte and a flag. */
  lemma CutShort(front: seq<Byte>, x: Byte)
    requires |front| > 0 && 2 * |front| + 6 <= MAX_FRAME
    ensures 0 < |Escape(front + [x])| <= 2 * |front| + 2
    ensures var e := Escape(front + [x]);
            var f := [SIGN] + e[..|e| - 1] + [SIGN];
            var p := Parse(f);
            p.buffer[1..|front| + 3] == front + (if x == SIGN || x == ESCAPE then [ESCAPE, SIGN] else [SIGN, 0])
            && ((x == SIGN || x == ESCAPE) ==>
                  p.buffer[|front| + 3] == 0 && p.buffer[|front| + 4..] == Loaded(f)[|front| + 4..])
  {
    hide Parse, Escape, Unescape, EscapeByte, Loaded;
    EscapeBounds(front);
    EscapedLast(front, x);
    if x == SIGN || x == ESCAPE {
      CutInsidePair(front);
    } else {
      CutBehind(front);
    }
  }

  lemma EscapedLast(front: seq<Byte>, x: Byte)
    requires front != []
    ensures |Escape(front + [x])| > 0 && |Escape(front + [x])| <= 2 * |front| + 2
    ensures var e := Escape(front + [x]);
            e[..|e| - 1] == if x == SIGN || x == ESCAPE then Escape(front) + [ESCAPE] else Escape(front)
  {
    hide Escape;
    EscapeConcat(front, [x]);
    EscapedOne(x);
    EscapeBounds(front + [x]);
    WithoutLast(Escape(front), EscapeByte(x));
  }

  lemma EscapedOne(x: Byte)
    ensures Escape([x]) == EscapeByte(x)
    ensures if x == SIGN || x == ESCAPE then |EscapeByte(x)| == 2 && EscapeByte(x)[0] == ESCAPE
            else |EscapeByte(x)| == 1
  {
    assert [x][1..] == [];
  }

  lemma WithoutLast(e: seq<Byte>, y: seq<Byte>)
    requires 1 <= |y| <= 2
    ensures (e + y)[..|e + y| - 1] == if |y| == 2 then e + [y[0]] else e
  {
  }

  lemma CutBehind(front: seq<Byte>)
    requires |front| > 0 && 2 * |front| + 6 <= MAX_FRAME
    ensures |Escape(front)| <= 2 * |front|
    ensures Parse([SIGN] + Escape(front) + [SIGN]).buffer[1..|front| + 3] == front + [SIGN, 0]
  {
    hide Parse, Escape;
    EscapeBounds(front);
    var r := ParseBuffer(front);
    var p := Parse(Delimited(front));
    assert p.buffer[1..|front| + 3] == front + [SIGN, 0];
  }

  lemma CutInsidePair(front: seq<Byte>)
    requires |front| > 0 && 2 * |front| + 6 <= MAX_FRAME
    ensures |Escape(front)| <= 2 * |front|
    ensures var f := [SIGN] + (Escape(front) + [ESCAPE]) + [SIGN];
            var p := Parse(f);
            p.buffer[1..|front| + 3] == front + [ESCAPE, SIGN] && p.buffer[|front| + 3] == 0
            && p.buffer[|front| + 4..] == Loaded(f)[|front| + 4..]
  {
    hide Escape, Unescape;
    EscapeBounds(front);
    var f := [SIGN] + (Escape(front) + [ESCAPE]) + [SIGN];
    var zeros := Zeros(BUFFER_LEN - |f|);
    var tail := [ESCAPE, SIGN] + zeros;
    assert Loaded(f)[1..] == Escape(front) + tail;
    UnescapeEscape(front, tail, 3);
    TailOfPair(zeros);
    var p := Parse(f);
    var u := front + [ESCAPE, SIGN, 0];
    assert p.buffer == Loaded(f)[..1] + u + Loaded(f)[1 + |u|..];
  }

  lemma TailOfPair(zeros: seq<Byte>)
    requires |zeros| >= 2 && zeros[0] == 0
    ensures Unescape([ESCAPE, SIGN] + zeros, 3) == [ESCAPE, SIGN, 0]
  {
    var t := [ESCAPE, SIGN] + zeros;
    assert t[1..] == [SIGN] + zeros;
    assert ([SIGN] + zeros)[1..] == zeros;
    assert Unescape(zeros, 1) == [zeros[0]] + Unescape(zeros[1..], 0);
    assert Unescape([SIGN] + zeros, 2) == [SIGN] + Unescape(zeros, 1);
  }

  /** The text the short size lets through: up to and including the byte at size. */
  function Front(phone: seq<Byte>, flow: Word, firstFlow: Word, ids: seq<Word>): (f: seq<Byte>)
    requires |phone| == 6 && |ids| >= 2
    ensures |f| == 16 + |ids|
  {
    Written(phone, flow, firstFlow, ids)[..16 + |ids|]
  }

  /** From two ids on, the check byte lies beyond what is escaped, and so do the ids from the
      middle of the list on. */
  lemma ShortRequest(phone: seq<Byte>, flow: Word, firstFlow: Word, ids: seq<Word>)
    requires |phone| == 6 && 2 <= |ids| <= MAX_IDS
    ensures var t, n := Written(phone, flow, firstFlow, ids), |ids|;
            var e := Escape(Front(phone, flow, firstFlow, ids) + [t[16 + n]]);
            |e| > 0 && AsWritten(phone, flow, firstFlow, ids) == [SIGN] + e[..|e| - 1] + [SIGN]
  {
    hide Written, Escape;
    var t, n := Written(phone, flow, firstFlow, ids), |ids|;
    var b := [0] + t + Zeros(BUFFER_LEN - 1 - |t|);
    var kept := b[16 + 2 * n := Bcc(b[1..16 + n])][1..18 + n];
    assert kept == t[..17 + n];
    assert kept == Front(phone, flow, firstFlow, ids) + [t[16 + n]];
    EscapeBounds(kept);
  }

  /** The service's view of a request of two or more ids: the bytes before the cut as sent,
      and at the cut a flag, or an escape byte, a flag and a zero, and behind those what the frame
      holds there. */
  lemma ShortRequestArrives(phone: seq<Byte>, flow: Word, firstFlow: Word, ids: seq<Word>)
    requires |phone| == 6 && 2 <= |ids| <= MAX_IDS
    ensures 0 < |AsWritten(phone, flow, firstFlow, ids)| <= MAX_FRAME
    ensures var t, n := Written(phone, flow, firstFlow, ids), |ids|;
            var p := Parse(AsWritten(phone, flow, firstFlow, ids));
            p.buffer[1..17 + n] == t[..16 + n]
            && p.buffer[17 + n] == (if t[16 + n] == SIGN || t[16 + n] == ESCAPE then ESCAPE else SIGN)
            && ((t[16 + n] == SIGN || t[16 + n] == ESCAPE) ==>
                  && p.buffer[18 + n] == SIGN && p.buffer[19 + n] == 0
                  && p.buffer[20 + n..] == Loaded(AsWritten(phone, flow, firstFlow, ids))[20 + n..])
  {
    hide Written, Escape, Parse, AsWritten, Front, Loaded;
    var t, n := Written(phone, flow, firstFlow, ids), |ids|;
    var front := Front(phone, flow, firstFlow, ids);
    FrontIs(phone, flow, firstFlow, ids);
    ShortRequest(phone, flow, firstFlow, ids);
    CutShort(front, t[16 + n]);
    AroundCut(Parse(AsWritten(phone, flow, firstFlow, ids)).buffer, front, t[16 + n]);
  }

  lemma FrontIs(phone: seq<Byte>, flow: Word, firstFlow: Word, ids: seq<Word>)
    requires |phone| == 6 && |ids| >= 2
    ensures Front(phone, flow, firstFlow, ids) == Written(phone, flow, firstFlow, ids)[..16 + |ids|]
  {
  }

  lemma AroundCut(b: seq<Byte>, front: seq<Byte>, x: Byte)
    requires |b| > |front| + 3
    requires b[1..|front| + 3] == front + if x == SIGN || x == ESCAPE then [ESCAPE, SIGN] else [SIGN, 0]
    ensures b[1..|front| + 1] == front
    ensures b[|front| + 1] == (if x == SIGN || x == ESCAPE then ESCAPE else SIGN)
    ensures (x == SIGN || x == ESCAPE) ==> b[|front| + 2] == SIGN
  {
    var u := b[1..|front| + 3];
    assert b[1..|front| + 1] == u[..|front|];
    assert b[|front| + 1] == u[|front|] && b[|front| + 2] == u[|front| + 1];
  }

  /** Bytes of the written text behind the count are the bytes of the ids. */
  lemma WrittenId(phone: seq<Byte>, flow: Word, firstFlow: Word, ids: seq<Word>, i: nat)
    requires |phone| == 6 && i < |ids|
    ensures var t := Written(phone, flow, firstFlow, ids);
            t[14] == |ids| % 0x100 && t[15 + 2 * i] == ids[i] / 0x100 && t[16 + 2 * i] == ids[i] % 0x100
  {
    hide IdBytes, Header;
    var t := Written(phone, flow, firstFlow, ids);
    IdAt(ids, i);
    var s := IdBytes(ids)[2 * i..2 * i + 2];
    assert t[15 + 2 * i] == IdBytes(ids)[2 * i] == s[0];
    assert t[16 + 2 * i] == IdBytes(ids)[2 * i + 1] == s[1];
  }

  /** With no id the frame is exact. */
  lemma NoIds(phone: seq<Byte>, flow: Word, firstFlow: Word)
    requires |phone| == 6
    ensures |AsWritten(phone, flow, firstFlow, [])| <= MAX_FRAME
    ensures var t := Written(phone, flow, firstFlow, []);
            0 < |AsWritten(phone, flow, firstFlow, [])|
            && Parse(AsWritten(phone, flow, firstFlow, [])).buffer[1..|t| + 1] == t
  {
    hide Written, Parse, Wire, Tail;
    var t := Written(phone, flow, firstFlow, []);
    var b := [0] + t + Zeros(BUFFER_LEN - 1 - |t|);
    assert b[1..16] == t;
    TailIsWire(b, 16);
    FrameRoundTrip(t);
  }

  /** With one id, only the check byte is cut. */
  lemma OneId(phone: seq<Byte>, flow: Word, firstFlow: Word, id: Word)
    requires |phone| == 6
    ensures |AsWritten(phone, flow, firstFlow, [id])| <= MAX_FRAME
    ensures var t := Written(phone, flow, firstFlow, [id]);
            0 < |AsWritten(phone, flow, firstFlow, [id])|
            && Parse(AsWritten(phone, flow, firstFlow, [id])).buffer[1..|t| + 1] == t
  {
    hide Written, Parse, Escape;
    var t := Written(phone, flow, firstFlow, [id]);
    var b := [0] + t + Zeros(BUFFER_LEN - 1 - |t|);
    var check := Bcc(b[1..17]);
    assert b[18 := check][1..19] == t + [check];
    CutShort(t, check);
    var p := Parse(AsWritten(phone, flow, firstFlow, [id]));
    assert p.buffer[1..|t| + 1] == p.buffer[1..|t| + 3][..|t|];
  }

  lemma ShortestRequests(phone: seq<Byte>, flow: Word, firstFlow: Word, ids: seq<Word>)
    requires |phone| == 6 && |ids| <= 1
    ensures 0 < |AsWritten(phone, flow, firstFlow, ids)| <= MAX_FRAME
    ensures Requested(Parse(AsWritten(phone, flow, firstFlow, ids))) == ids
  {
    hide Parse, AsWritten, IdBytes;
    var t := Written(phone, flow, firstFlow, ids);
    if |ids| == 0 {
      NoIds(phone, flow, firstFlow);
    } else {
      assert ids == [ids[0]];
      OneId(phone, flow, firstFlow, ids[0]);
    }
    var p := Parse(AsWritten(phone, flow, firstFlow, ids));
    BodySlice(p.buffer, 1, t, 0, 12);
    BodySlice(p.buffer, 1, t, 12, |t|);
    assert t[12..] == ResendBody(firstFlow, ids);
    NotPackaged(p, phone, flow, firstFlow, ids);
    RequestBodyReadBack(p, firstFlow, ids);
  }

  /** The package bit is not set in the header of a request. */
  lemma NotPackaged(p: Packet, phone: seq<Byte>, flow: Word, firstFlow: Word, ids: seq<Word>)
    requires Sized(p) && |phone| == 6 && p.buffer[1..13] == Written(phone, flow, firstFlow, ids)[..12]
    ensures !PackagedOf(p)
  {
    hide IdBytes, Attribute, AttributePackaged, WordAt, Be16, ResendBody;
    var t, a := Written(phone, flow, firstFlow, ids), Attribute((3 + |ids|) % 1024, false);
    assert t[..12] == Header(DOWN_PACKETRESEND, a, phone, flow);
    assert Header(DOWN_PACKETRESEND, a, phone, flow)[2..4] == Be16(a);
    BodySlice(p.buffer, 1, p.buffer[1..13], 2, 4);
    ReadBack16(a, p.buffer, 3);
    AttributeFields((3 + |ids|) % 1024, false);
  }

  /** As written, too, the head of the request is found by the service: the terminal's first flow
      number and the count, whatever becomes of the ids. */
  lemma RequestHeadArrives(phone: seq<Byte>, flow: Word, firstFlow: Word, ids: seq<Word>)
    requires |phone| == 6 && |ids| <= MAX_IDS
    ensures 0 < |AsWritten(phone, flow, firstFlow, ids)| <= MAX_FRAME
    ensures var b := Parse(AsWritten(phone, flow, firstFlow, ids)).buffer;
            WordAt(b, 1) == 0x8003 && WordAt(b, 3) == (3 + |ids|) % 1024 && b[5..11] == phone
            && WordAt(b, 11) == flow && WordAt(b, 13) == firstFlow && b[15] == |ids| % 0x100
  {
    hide Parse, AsWritten, Written, WordAt;
    var t := Written(phone, flow, firstFlow, ids);
    if |ids| >= 2 {
      ShortRequestArrives(phone, flow, firstFlow, ids);
    } else if |ids| == 1 {
      assert ids == [ids[0]];
      OneId(phone, flow, firstFlow, ids[0]);
    } else {
      NoIds(phone, flow, firstFlow);
    }
    var b := Parse(AsWritten(phone, flow, firstFlow, ids)).buffer;
    FirstFifteen(b, t, if |ids| >= 2 then 16 + |ids| else |t|);
    HeadLies(b, phone, flow, firstFlow, ids);
  }

  lemma FirstFifteen(b: seq<Byte>, t: seq<Byte>, n: nat)
    requires 15 <= n <= |t| && n + 1 <= |b| && b[1..n + 1] == t[..n]
    ensures b[1..16] == t[..15]
  {
    assert b[1..16] == b[1..n + 1][..15] && t[..15] == t[..n][..15];
  }

  lemma HeadLies(b: seq<Byte>, phone: seq<Byte>, flow: Word, firstFlow: Word, ids: seq<Word>)
    requires |phone| == 6 && |b| == BUFFER_LEN && b[1..16] == Written(phone, flow, firstFlow, ids)[..15]
    ensures WordAt(b, 1) == 0x8003 && WordAt(b, 3) == (3 + |ids|) % 1024 && b[5..11] == phone
    ensures WordAt(b, 11) == flow && WordAt(b, 13) == firstFlow && b[15] == |ids| % 0x100
  {
    hide IdBytes, Be16, WordAt;
    var n: Byte := |ids| % 0x100;
    var id, length := Be16(DOWN_PACKETRESEND), Be16((3 + |ids|) % 1024);
    var s := id + length + phone + Be16(flow) + Be16(firstFlow) + [n];
    assert b[1..16] == s;
    assert s[..2] == id && s[2..4] == length && s[4..10] == phone && s[10..12] == Be16(flow)
        && s[12..14] == Be16(firstFlow) && s[14] == n;
    BodySlice(b, 1, s, 0, 2);
    BodySlice(b, 1, s, 2, 4);
    BodySlice(b, 1, s, 4, 10);
    BodySlice(b, 1, s, 10, 12);
    BodySlice(b, 1, s, 12, 14);
    ReadBack16(0x8003, b, 1);
    ReadBack16((3 + |ids|) % 1024, b, 3);
    ReadBack16(flow, b, 11);
    ReadBack16(firstFlow, b, 13);
    assert b[15] == b[1..16][14];
  }

  /** The lists the cut leaves as they are. */
  predicate SurvivesCut(ids: seq<Word>) {
    || |ids| <= 1
    || (|ids| == 2 && ids[1] % 0x100 == ESCAPE)
    || (|ids| == 3 && ids[2] == 0x7D7E)
    || (|ids| == 4 && ids[2] % 0x100 == ESCAPE && ids[3] == 0x7E00)
  }

  /** A received text whose bytes behind the header are cut as they are in a short request. */
  predicate Cut(b: seq<Byte>, t: seq<Byte>, ids: seq<Word>, frame: seq<Byte>) {
    var n := |ids|;
    && 2 <= n <= MAX_IDS && |b| == BUFFER_LEN && |frame| <= BUFFER_LEN && |t| == 15 + 2 * n
    && b[1..17 + n] == t[..16 + n] && t[15..] == IdBytes(ids)
    && (forall i :: 0 <= i < n ==> t[15 + 2 * i] == ids[i] / 0x100 && t[16 + 2 * i] == ids[i] % 0x100)
    && if t[16 + n] == SIGN || t[16 + n] == ESCAPE
       then b[17 + n] == ESCAPE && b[18 + n] == SIGN && b[19 + n] == 0 && b[20 + n..] == Loaded(frame)[20 + n..]
       else b[17 + n] == SIGN
  }

  /** A list arrives if every one of its bytes from the cut on does. */
  lemma WholeBytes(b: seq<Byte>, t: seq<Byte>, ids: seq<Word>, frame: seq<Byte>)
    requires Cut(b, t, ids, frame)
    ensures ReadIds(b, 16, |ids|) == ids <==> forall k :: 16 + |ids| <= k < 15 + 2 * |ids| ==> b[k + 1] == t[k]
  {
    hide Loaded, IdBytes;
    var n, r := |ids|, ReadIds(b, 16, |ids|);
    forall i | 0 <= i < n
      ensures r[i] == ids[i] <==> b[16 + 2 * i] == t[15 + 2 * i] && b[17 + 2 * i] == t[16 + 2 * i]
    {
      assert r[i] == WordAt(b, 16 + 2 * i);
    }
    forall k | 15 <= k < 16 + n
      ensures b[k + 1] == t[k]
    {
      assert b[1..17 + n][k] == t[..16 + n][k];
    }
    if forall k :: 16 + n <= k < 15 + 2 * n ==> b[k + 1] == t[k] {
      assert forall i :: 0 <= i < n ==> r[i] == ids[i];
    } else {
      var k :| 16 + n <= k < 15 + 2 * n && b[k + 1] != t[k];
      assert r[(k - 15) / 2] != ids[(k - 15) / 2];
    }
  }

  /** Up to four ids the bytes behind the cut are a flag, or an escape byte, a flag and a zero. */
  lemma FewIds(b: seq<Byte>, t: seq<Byte>, ids: seq<Word>, frame: seq<Byte>)
    requires Cut(b, t, ids, frame) && |ids| <= 4
    ensures ReadIds(b, 16, |ids|) == ids <==> SurvivesCut(ids)
  {
    hide ReadIds, Loaded, IdBytes;
    WholeBytes(b, t, ids, frame);
    var n := |ids|;
    assert t[18] == ids[1] % 0x100;
    if n > 2 {
      assert t[19] == ids[2] / 0x100 && t[20] == ids[2] % 0x100;
    }
    if n > 3 {
      assert t[21] == ids[3] / 0x100 && t[22] == ids[3] % 0x100;
    }
  }

  /** In a longer list, the rest of it too must stand in the frame behind the cut. */
  predicate LongSurvivesCut(ids: seq<Word>, frame: seq<Byte>)
    requires 4 < |ids| <= MAX_IDS && |frame| <= BUFFER_LEN
  {
    IdBytes(ids)[|ids| + 1..] == [ESCAPE, SIGN, 0] + Loaded(frame)[20 + |ids|..16 + 2 * |ids|]
  }

  lemma ManyIds(b: seq<Byte>, t: seq<Byte>, ids: seq<Word>, frame: seq<Byte>)
    requires Cut(b, t, ids, frame) && |ids| > 4
    ensures ReadIds(b, 16, |ids|) == ids <==> LongSurvivesCut(ids, frame)
  {
    hide ReadIds, Loaded, IdBytes;
    WholeBytes(b, t, ids, frame);
    var n := |ids|;
    var behind := [ESCAPE, SIGN, 0] + Loaded(frame)[20 + n..16 + 2 * n];
    var sent := IdBytes(ids)[n + 1..];
    forall i | 0 <= i < n - 1
      ensures sent[i] == t[16 + n + i]
    {
      assert t[15..][n + 1 + i] == t[16 + n + i];
    }
    if t[16 + n] == SIGN || t[16 + n] == ESCAPE {
      forall i | 0 <= i < n - 1
        ensures behind[i] == b[17 + n + i]
      {
        assert i >= 3 ==> b[20 + n..][i - 3] == b[17 + n + i];
        assert i >= 3 ==> Loaded(frame)[20 + n..][i - 3] == Loaded(frame)[17 + n + i];
      }
      SameFrom(sent, behind, b, t, n);
    } else {
      assert b[16 + n + 1] != t[16 + n];
      assert sent[0] == t[16 + n] != behind[0];
    }
  }

  lemma SameFrom(sent: seq<Byte>, behind: seq<Byte>, b: seq<Byte>, t: seq<Byte>, n: nat)
    requires |sent| == |behind| == n - 1 && |b| >= 16 + 2 * n && |t| == 15 + 2 * n
    requires forall i :: 0 <= i < n - 1 ==> sent[i] == t[16 + n + i] && behind[i] == b[17 + n + i]
    ensures sent == behind <==> forall k :: 16 + n <= k < 15 + 2 * n ==> b[k + 1] == t[k]
  {
    if sent == behind {
      forall k | 16 + n <= k < 15 + 2 * n
        ensures b[k + 1] == t[k]
      {
        assert sent[k - 16 - n] == behind[k - 16 - n];
      }
    }
    if forall k :: 16 + n <= k < 15 + 2 * n ==> b[k + 1] == t[k] {
      forall i | 0 <= i < n - 1
        ensures sent[i] == behind[i]
      {
        assert b[16 + n + i + 1] == t[16 + n + i];
      }
    }
  }

  /** The accounting error decides what a lost transfer costs: as written, the service reads
      back the ids that were asked for exactly when the cut happens to fall on bytes that are
      there anyway. */
  lemma RequestArrivesExactlyWhen(phone: seq<Byte>, flow: Word, firstFlow: Word, ids: seq<Word>)
    requires |phone| == 6 && |ids| <= MAX_IDS
    ensures 0 < |AsWritten(phone, flow, firstFlow, ids)| <= MAX_FRAME
    ensures Requested(Parse(AsWritten(phone, flow, firstFlow, ids))) == ids
       <==> if |ids| <= 4 then SurvivesCut(ids)
            else |ids| < 0x100 && LongSurvivesCut(ids, AsWritten(phone, flow, firstFlow, ids))
  {
    hide Written, Escape, Parse, AsWritten, WordAt, PackagedOf, SurvivesCut, LongSurvivesCut, Loaded, IdBytes;
    var n := |ids|;
    if n <= 1 {
      ShortestRequests(phone, flow, firstFlow, ids);
      ShortSurvives(ids);
    } else {
      var frame := AsWritten(phone, flow, firstFlow, ids);
      ShortRequestArrives(phone, flow, firstFlow, ids);
      var t, p := Written(phone, flow, firstFlow, ids), Parse(frame);
      WrittenIds(phone, flow, firstFlow, ids);
      BodySlice(p.buffer, 1, t[..16 + n], 0, 12);
      assert t[..16 + n][0..12] == t[..12];
      NotPackaged(p, phone, flow, firstFlow, ids);
      assert p.buffer[15] == p.buffer[1..17 + n][14] == n % 0x100;
      assert Cut(p.buffer, t, ids, frame);
      if n <= 4 {
        FewIds(p.buffer, t, ids, frame);
      } else if n < 0x100 {
        ManyIds(p.buffer, t, ids, frame);
      }
    }
  }

  /** An ascending list of more than four that arrives is even, and has an escape byte at the
      end of the id behind its middle and 0x7E00 next. */
  lemma LongListsAreCut(ids: seq<Word>, frame: seq<Byte>)
    requires 4 < |ids| <= MAX_IDS && |frame| <= BUFFER_LEN && StrictlyAscending(ids) && LongSurvivesCut(ids, frame)
    ensures var i := |ids| / 2; |ids| % 2 == 0 && ids[i] % 0x100 == ESCAPE && ids[i + 1] == 0x7E00
  {
    hide Loaded, IdBytes;
    var n := |ids|;
    var i := (n + 1) / 2;
    var sent := IdBytes(ids)[n + 1..];
    assert sent[0] == ESCAPE && sent[1] == SIGN && sent[2] == 0;
    IdAt(ids, i);
    IdAt(ids, i + 1);
    BytesOf(IdBytes(ids), i, ids[i]);
    BytesOf(IdBytes(ids), i + 1, ids[i + 1]);
  }

  lemma BytesOf(s: seq<Byte>, i: nat, id: Word)
    requires 2 * i + 2 <= |s| && s[2 * i..2 * i + 2] == Be16(id)
    ensures s[2 * i] == id / 0x100 && s[2 * i + 1] == id % 0x100
  {
    assert s[2 * i] == s[2 * i..2 * i + 2][0] && s[2 * i + 1] == s[2 * i..2 * i + 2][1];
  }

  lemma ShortSurvives(ids: seq<Word>)
    requires |ids| <= 1
    ensures SurvivesCut(ids)
  {
  }

  lemma WrittenTail(phone: seq<Byte>, flow: Word, firstFlow: Word, ids: seq<Word>)
    requires |phone| == 6
    ensures Written(phone, flow, firstFlow, ids)[15..] == IdBytes(ids)
  {
    hide IdBytes, Header;
  }

  lemma WrittenIds(phone: seq<Byte>, flow: Word, firstFlow: Word, ids: seq<Word>)
    requires |phone| == 6 && ids != []
    ensures var t := Written(phone, flow, firstFlow, ids);
            t[14] == |ids| % 0x100 && t[15..] == IdBytes(ids)
            && forall i :: 0 <= i < |ids| ==> t[15 + 2 * i] == ids[i] / 0x100 && t[16 + 2 * i] == ids[i] % 0x100
  {
    hide Written, IdBytes;
    WrittenTail(phone, flow, firstFlow, ids);
    WrittenId(phone, flow, firstFlow, ids, 0);
    forall i | 0 <= i < |ids|
      ensures var t := Written(phone, flow, firstFlow, ids);
              t[15 + 2 * i] == ids[i] / 0x100 && t[16 + 2 * i] == ids[i] % 0x100
    {
      WrittenId(phone, flow, firstFlow, ids, i);
    }
  }

  /** Two lost packets, 1 and 2: the service takes the second for number 0x7E. */
  lemma TwoLostPacketsMisread(phone: seq<Byte>, flow: Word, firstFlow: Word)
    requires |phone| == 6
    ensures |AsWritten(phone, flow, firstFlow, [1, 2])| <= MAX_FRAME
    ensures Requested(Parse(AsWritten(phone, flow, firstFlow, [1, 2]))) == [1, 0x7E]
  {
    hide Written, Escape, Parse, AsWritten;
    var ids: seq<Word> := [1, 2];
    ShortRequestArrives(phone, flow, firstFlow, ids);
    WrittenId(phone, flow, firstFlow, ids, 0);
    WrittenId(phone, flow, firstFlow, ids, 1);
    var t := Written(phone, flow, firstFlow, ids);
    var b := Parse(AsWritten(phone, flow, firstFlow, ids)).buffer;
    assert b[15] == b[1..19][14] && b[16] == b[1..19][15] && b[17] == b[1..19][16] && b[18] == b[1..19][17];
    assert b[1..13] == t[..12] by { assert b[1..13] == b[1..19][..12] && t[..18][..12] == t[..12]; }
    NotPackaged(Parse(AsWritten(phone, flow, firstFlow, ids)), phone, flow, firstFlow, ids);
    assert ReadIds(b, 16, 2)[0] == WordAt(b, 16 + 2 * 0) && ReadIds(b, 16, 2)[1] == WordAt(b, 16 + 2 * 1);
  }
}
