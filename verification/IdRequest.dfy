/** Messages whose body is a count byte and that many 32-bit ids: a query for some of the
    parameters, and the deletion of areas or routes. */
module IdRequest {
  import opened Bytes
  import opened Framing
  import opened Messages
  import opened UpgradeWire

  const DOWN_DELCIRCULARAREA: Word := 0x8601
  const DOWN_DELRECTANGLEAREA: Word := 0x8603
  const DOWN_DELPOLYGONALAREA: Word := 0x8605
  const DOWN_DELROUTE: Word := 0x8607

  function IdBytes(ids: seq<DWord>): (s: seq<Byte>)
    ensures |s| == 4 * |ids|
  {
    if ids == [] then [] else IdBytes(ids[..|ids| - 1]) + Be32(ids[|ids| - 1])
  }

  function IdBody(ids: seq<DWord>): (b: seq<Byte>)
    ensures |b| == 1 + 4 * |ids|
  {
    [|ids| % 0x100] + IdBytes(ids)
  }

  lemma {:induction false} IdAt(ids: seq<DWord>, i: nat)
    requires i < |ids|
    ensures IdBytes(ids)[4 * i..4 * i + 4] == Be32(ids[i])
  {
    hide Be32;
    if i < |ids| - 1 {
      IdAt(ids[..|ids| - 1], i);
    }
  }

  method PackIds(msg: Message, id: Word, phone: seq<Byte>, flow: Word, ids: seq<DWord>)
    requires msg.buffer.Length == BUFFER_LEN && msg.ZeroFrom(0) && |phone| == 6 && |ids| <= 255
    modifies msg, msg.buffer
    ensures msg.size <= BUFFER_LEN == msg.buffer.Length
    ensures msg.buffer[..msg.size] == Wire(Content(id, phone, flow, Whole, IdBody(ids)))
  {
    hide Header, Wire, IdBytes, Be32;
    msg.Begin(id, phone, flow);
    ghost var h := msg.text;
    msg.PutByte(|ids|);
    msg.Account(1);
    PutIds(msg, ids);
    assert msg.text == h + [] + IdBody(ids);
    msg.Finish(id, phone, flow, Whole, IdBody(ids));
  }

  method PutIds(msg: Message, ids: seq<DWord>)
    requires msg.Packing() && msg.cursor + 4 * |ids| < BUFFER_LEN
    modifies msg, msg.buffer
    ensures msg.Packing() && msg.text == old(msg.text) + IdBytes(ids) && msg.packaged == old(msg.packaged)
    ensures msg.size == old(msg.size) + 4 * |ids| && msg.msglen == (old(msg.msglen) + 4 * |ids|) % 1024
  {
    hide Be32, IdBytes;
    ghost var t, l := msg.text, msg.msglen;
    NoIds(t);
    assert ids[..0] == [];
    for i := 0 to |ids|
      invariant msg.Packing() && msg.text == t + IdBytes(ids[..i]) && msg.packaged == old(msg.packaged)
      invariant msg.size == old(msg.size) + 4 * i && msg.msglen == (l + 4 * i) % 1024
    {
      msg.PutBytes(Be32(ids[i]));
      msg.Account(4);
      IdNext(ids, i, t);
      LengthStep(l + 4 * i, 4);
    }
    assert ids[..|ids|] == ids;
  }

  lemma NoIds(t: seq<Byte>)
    ensures t + IdBytes([]) == t
  {
  }

  lemma IdNext(ids: seq<DWord>, i: nat, t: seq<Byte>)
    requires i < |ids|
    ensures t + IdBytes(ids[..i]) + Be32(ids[i]) == t + IdBytes(ids[..i + 1])
  {
    hide Be32;
    assert ids[..i + 1][..i] == ids[..i];
    assert t + IdBytes(ids[..i]) + Be32(ids[i]) == t + (IdBytes(ids[..i]) + Be32(ids[i]));
  }

  /** The ten bits of the length field add up as the full length does. */
  lemma LengthStep(a: nat, b: nat)
    ensures (a % 1024 + b) % 1024 == (a + b) % 1024
  {
  }

  /** The ids behind a count byte, as many as it says. */
  function IdsIn(b: seq<Byte>, at: nat, count: nat): (ids: seq<DWord>)
    requires at + 4 * count <= |b|
    ensures |ids| == count && forall i :: 0 <= i < count ==> ids[i] == DWordAt(b, at + 4 * i)
  {
    seq(count, i requires 0 <= i < count => DWordAt(b, at + 4 * i))
  }

  /** Every such request arrives as it was sent. */
  lemma IdsArrive(id: Word, phone: seq<Byte>, flow: Word, ids: seq<DWord>)
    requires |phone| == 6 && |ids| <= 255
    ensures var c := Content(id, phone, flow, Whole, IdBody(ids));
            0 < |Wire(c)| <= MAX_FRAME
            && var p := Parse(Wire(c));
               !PackagedOf(p) && p.buffer[NOPACKAGE_POS] == |ids|
               && IdsIn(p.buffer, NOPACKAGE_POS + 1, |ids|) == ids
  {
    hide Parse, Wire, IdBytes, WordAt, DWordAt, Be32, ContentWith, AttributePackaged;
    var body := IdBody(ids);
    WholeArrives(id, |body| % 1024, phone, flow, body);
    IdsReadBack(Parse(Wire(Content(id, phone, flow, Whole, body))).buffer, NOPACKAGE_POS, ids);
  }

  lemma IdsReadBack(b: seq<Byte>, at: nat, ids: seq<DWord>)
    requires at + 1 + 4 * |ids| <= |b| && b[at..at + |IdBody(ids)|] == IdBody(ids) && |ids| <= 255
    ensures b[at] == |ids| && IdsIn(b, at + 1, |ids|) == ids
  {
    hide IdBytes, DWordAt, Be32;
    var body := IdBody(ids);
    BodySlice(b, at, body, 0, 1);
    assert b[at] == b[at + 0..at + 1][0] == body[0..1][0];
    forall i | 0 <= i < |ids|
      ensures DWordAt(b, at + 1 + 4 * i) == ids[i]
    {
      IdAt(ids, i);
      BodySlice(b, at, body, 1 + 4 * i, 5 + 4 * i);
      BehindFirst(|ids| % 0x100, IdBytes(ids), 4 * i, 4 * i + 4);
      ReadBack32(ids[i], b, at + 1 + 4 * i);
    }
  }

  lemma BehindFirst(first: Byte, s: seq<Byte>, i: nat, j: nat)
    requires i <= j <= |s|
    ensures ([first] + s)[1 + i..1 + j] == s[i..j]
  {
  }
}
