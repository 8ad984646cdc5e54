/** The upgrade packet on the wire, and how a file is cut into packets. */
module UpgradeWire {
  import opened Bytes
  import opened Framing
  import opened Messages

  const DOWN_UPGRADEPACKAGE: Word := 0x8108

  // ---- One packet -------------------------------------------------------------------

  function UpgradeBody(kind: Byte, manufacturer: seq<Byte>, version: seq<Byte>, data: seq<Byte>): seq<Byte>
    requires |version| < 0x100 && |data| < 0x1_0000_0000
  {
    [kind] + manufacturer + [|version|] + version + Be32(|data|) + data
  }

  /** The DOWN_UPGRADEPACKAGE branch of the service's packer. */
  method PackUpgrade(msg: Message, flow: Word, phone: seq<Byte>, total: Word, sequence: Word,
                     kind: Byte, manufacturer: seq<Byte>, version: seq<Byte>, data: seq<Byte>)
    requires msg.buffer.Length == BUFFER_LEN && msg.ZeroFrom(0)
    requires |phone| == 6 && |manufacturer| == 5 && 11 + |version| + |data| <= MAX_BODY
    requires |version| < 0x100
    modifies msg, msg.buffer
    ensures msg.size <= BUFFER_LEN == msg.buffer.Length
    ensures msg.buffer[..msg.size] ==
            Wire(Content(DOWN_UPGRADEPACKAGE, phone, flow, if total > 1 then Part(total, sequence) else Whole,
                         UpgradeBody(kind, manufacturer, version, data)))
  {
    hide UpgradeBody, Wire, Header;
    ghost var part := if total > 1 then Part(total, sequence) else Whole;
    ghost var body := UpgradeBody(kind, manufacturer, version, data);
    UpgradeBodyFields(kind, manufacturer, version, data);
    msg.Begin(DOWN_UPGRADEPACKAGE, phone, flow);
    if total > 1 {
      msg.SetPackage(total, sequence);
    }
    assert msg.text == Header(DOWN_UPGRADEPACKAGE, 0, phone, flow) + PartBytes(part);
    PutUpgradeBody(msg, kind, manufacturer, version, data);
    msg.Finish(DOWN_UPGRADEPACKAGE, phone, flow, part, body);
  }

  method PutUpgradeBody(msg: Message, kind: Byte, manufacturer: seq<Byte>, version: seq<Byte>, data: seq<Byte>)
    requires msg.Packing() && msg.size == msg.cursor <= PACKAGE_POS && msg.msglen == 0
    requires |manufacturer| == 5 && 11 + |version| + |data| <= MAX_BODY && |version| < 0x100
    modifies msg, msg.buffer
    ensures msg.Packing() && msg.text == old(msg.text) + UpgradeBody(kind, manufacturer, version, data)
    ensures msg.size == msg.cursor && msg.packaged == old(msg.packaged)
    ensures msg.msglen == 11 + |version| + |data|
  {
    ghost var t := msg.text;
    PutVersion(msg, kind, manufacturer, version);
    msg.Put32(|data|);
    msg.PutBytes(data);
    ConcatAssoc(t, [kind] + manufacturer + [|version|] + version, Be32(|data|), data);
    msg.Account(11 + |version| + |data|);
  }

  method PutVersion(msg: Message, kind: Byte, manufacturer: seq<Byte>, version: seq<Byte>)
    requires msg.Packing() && msg.cursor <= PACKAGE_POS
    requires |manufacturer| == 5 && |version| < 0x100
    modifies msg, msg.buffer
    ensures msg.Packing() && msg.text == old(msg.text) + ([kind] + manufacturer + [|version|] + version)
    ensures msg.size == old(msg.size) && msg.msglen == old(msg.msglen) && msg.packaged == old(msg.packaged)
  {
    ghost var t := msg.text;
    msg.PutByte(kind);
    msg.PutBytes(manufacturer);
    msg.PutByte(|version|);
    ConcatAssoc(t, [kind], manufacturer, [|version|]);
    msg.PutBytes(version);
    assert t + ([kind] + manufacturer + [|version|]) + version == t + ([kind] + manufacturer + [|version|] + version);
  }

  lemma ConcatAssoc(t: seq<Byte>, a: seq<Byte>, b: seq<Byte>, c: seq<Byte>)
    ensures t + a + b + c == t + (a + b + c)
  {
  }

  // ---- Fields as the terminal reads them from a parsed buffer ------------------------

  function IdOf(p: Packet): Word requires Sized(p) { WordAt(p.buffer, 1) }

  predicate PackagedOf(p: Packet) requires Sized(p) { AttributePackaged(WordAt(p.buffer, 3)) }

  function FlowOf(p: Packet): Word requires Sized(p) { WordAt(p.buffer, 11) }

  function TotalOf(p: Packet): Word requires Sized(p) { WordAt(p.buffer, 13) }

  function SequenceOf(p: Packet): Word requires Sized(p) { WordAt(p.buffer, 15) }

  function KindOf(p: Packet, body: nat): Byte
    requires Sized(p) && body <= PACKAGE_POS
  {
    p.buffer[body]
  }

  function VersionOf(p: Packet, body: nat): seq<Byte>
    requires Sized(p) && body <= PACKAGE_POS
  {
    p.buffer[body + 7..body + 7 + p.buffer[body + 6]]
  }

  function DataLenOf(p: Packet, body: nat): DWord
    requires Sized(p) && body <= PACKAGE_POS
  {
    DWordAt(p.buffer, body + 7 + p.buffer[body + 6])
  }

  /** The announced data lies inside the message buffer. */
  predicate DataInBuffer(p: Packet, body: nat)
    requires Sized(p) && body <= PACKAGE_POS
  {
    body + 11 + p.buffer[body + 6] + DataLenOf(p, body) <= BUFFER_LEN
  }

  function DataOf(p: Packet, body: nat): seq<Byte>
    requires Sized(p) && body <= PACKAGE_POS && DataInBuffer(p, body)
  {
    var from := body + 11 + p.buffer[body + 6];
    p.buffer[from..from + DataLenOf(p, body)]
  }

  /** p carries this content behind its opening flag. */
  predicate Carries(p: Packet, content: seq<Byte>) {
    Sized(p) && |content| + 1 <= BUFFER_LEN && p.buffer[1..|content| + 1] == content
  }

  lemma CarriedSlice(p: Packet, content: seq<Byte>, i: nat, j: nat)
    requires Carries(p, content) && i <= j <= |content|
    ensures p.buffer[1 + i..1 + j] == content[i..j]
  {
    BodySlice(p.buffer, 1, content, i, j);
  }

  lemma HeaderReadBack(p: Packet, id: Word, msglen: nat, phone: seq<Byte>, flow: Word, part: Part, body: seq<Byte>)
    requires |phone| == 6 && msglen < 1024
    requires Carries(p, ContentWith(id, msglen, phone, flow, part, body))
    ensures WordAt(p.buffer, 1) == id && p.buffer[5..11] == phone && WordAt(p.buffer, 11) == flow
    ensures WordAt(p.buffer, 3) == msglen + if part.Part? then 0x2000 else 0
    ensures part.Part? ==> WordAt(p.buffer, 13) == part.total && WordAt(p.buffer, 15) == part.sequence
    ensures IdOf(p) == id && FlowOf(p) == flow && PackagedOf(p) == part.Part?
    ensures part.Part? ==> TotalOf(p) == part.total && SequenceOf(p) == part.sequence
  {
    var c := ContentWith(id, msglen, phone, flow, part, body);
    assert c[0..2] == Be16(id);
    CarriedSlice(p, c, 0, 2);
    ReadBack16(id, p.buffer, 1);
    assert c[2..4] == Be16(Attribute(msglen, part.Part?));
    CarriedSlice(p, c, 2, 4);
    ReadBack16(Attribute(msglen, part.Part?), p.buffer, 3);
    AttributeFields(msglen, part.Part?);
    assert c[4..10] == phone;
    CarriedSlice(p, c, 4, 10);
    assert c[10..12] == Be16(flow);
    CarriedSlice(p, c, 10, 12);
    ReadBack16(flow, p.buffer, 11);
    if part.Part? {
      assert c[12..14] == Be16(part.total) && c[14..16] == Be16(part.sequence);
      CarriedSlice(p, c, 12, 14);
      CarriedSlice(p, c, 14, 16);
      ReadBack16(part.total, p.buffer, 13);
      ReadBack16(part.sequence, p.buffer, 15);
    }
  }

  /** Where the body starts behind the flag. */
  function BodyPos(part: Part): nat {
    if part.Part? then PACKAGE_POS else NOPACKAGE_POS
  }

  lemma BodyReadBack(p: Packet, id: Word, msglen: nat, phone: seq<Byte>, flow: Word, part: Part, body: seq<Byte>)
    requires |phone| == 6 && msglen < 1024
    requires Carries(p, ContentWith(id, msglen, phone, flow, part, body))
    ensures BodyPos(part) == (if part.Part? then 17 else 13) && BodyPos(part) + |body| <= BUFFER_LEN == 4096
    ensures p.buffer[BodyPos(part)..BodyPos(part) + |body|] == body
  {
    var c, at := ContentWith(id, msglen, phone, flow, part, body), BodyPos(part);
    assert c[at - 1..] == body;
    CarriedSlice(p, c, at - 1, |c|);
  }

  /** A message without package fields arrives: id and body are where the parser looks,
      whatever length the packer put in the header. */
  lemma WholeArrives(id: Word, msglen: nat, phone: seq<Byte>, flow: Word, body: seq<Byte>)
    requires |phone| == 6 && msglen < 1024 && |body| <= MAX_BODY
    ensures var c := ContentWith(id, msglen, phone, flow, Whole, body);
            0 < |Wire(c)| <= MAX_FRAME
            && var p := Parse(Wire(c));
               IdOf(p) == id && !PackagedOf(p)
               && p.buffer[NOPACKAGE_POS..NOPACKAGE_POS + |body|] == body
  {
    hide Parse, Wire, CheckPasses, WordAt, AttributePackaged, ContentWith;
    var c := ContentWith(id, msglen, phone, flow, Whole, body);
    ContentLength(id, msglen, phone, flow, Whole, body);
    FrameLength(c);
    FrameRoundTrip(c);
    HeaderReadBack(Parse(Wire(c)), id, msglen, phone, flow, Whole, body);
    BodyReadBack(Parse(Wire(c)), id, msglen, phone, flow, Whole, body);
  }

  lemma ContentLength(id: Word, msglen: nat, phone: seq<Byte>, flow: Word, part: Part, body: seq<Byte>)
    requires |phone| == 6 && msglen < 1024
    ensures |ContentWith(id, msglen, phone, flow, part, body)| == 12 + (if part.Part? then 4 else 0) + |body|
  {
  }

  lemma BodySlice(b: seq<Byte>, at: nat, body: seq<Byte>, i: nat, j: nat)
    requires at + |body| <= |b| && b[at..at + |body|] == body && i <= j <= |body|
    ensures b[at + i..at + j] == body[i..j]
  {
    forall k | i <= k < j
      ensures b[at + k] == body[k]
    {
      assert b[at..at + |body|][k] == b[at + k];
    }
  }

  lemma UpgradeBodyFields(kind: Byte, manufacturer: seq<Byte>, version: seq<Byte>, data: seq<Byte>)
    requires |manufacturer| == 5 && |version| < 0x100 && |data| < 0x1_0000_0000
    ensures var body, v := UpgradeBody(kind, manufacturer, version, data), |version|;
            |body| == 11 + v + |data|
            && body[0..1] == [kind] && body[6..7] == [v] && body[7..7 + v] == version
            && body[7 + v..11 + v] == Be32(|data|) && body[11 + v..11 + v + |data|] == data
  {
  }

  /** The terminal reads from a parsed upgrade packet exactly what the service put in. */
  lemma UpgradeReadBack(p: Packet, at: nat, kind: Byte, manufacturer: seq<Byte>, version: seq<Byte>, data: seq<Byte>)
    requires |manufacturer| == 5 && |version| < 0x100 && |data| < 0x1_0000_0000
    requires Sized(p) && at <= PACKAGE_POS
    requires var body := UpgradeBody(kind, manufacturer, version, data);
             at + |body| <= BUFFER_LEN && p.buffer[at..at + |body|] == body
    ensures KindOf(p, at) == kind && VersionOf(p, at) == version
    ensures DataInBuffer(p, at) && DataOf(p, at) == data
  {
    var body, v, n := UpgradeBody(kind, manufacturer, version, data), |version|, |data|;
    UpgradeBodyFields(kind, manufacturer, version, data);
    BodySlice(p.buffer, at, body, 0, 1);
    BodySlice(p.buffer, at, body, 6, 7);
    assert p.buffer[at] == p.buffer[at + 0..at + 1][0] && p.buffer[at + 6] == p.buffer[at + 6..at + 7][0];
    BodySlice(p.buffer, at, body, 7, 7 + v);
    BodySlice(p.buffer, at, body, 7 + v, 11 + v);
    ReadBack32(n, p.buffer, at + 7 + v);
    BodySlice(p.buffer, at, body, 11 + v, 11 + v + n);
  }

  /** Where the fields of an upgrade packet stand, the manufacturer's number included, which
      the terminal does not look at. */
  lemma UpgradeBodyLies(b: seq<Byte>, at: nat, kind: Byte, manufacturer: seq<Byte>, version: seq<Byte>, data: seq<Byte>)
    requires |manufacturer| == 5 && |version| < 0x100 && |data| < 0x1_0000_0000
    requires var body := UpgradeBody(kind, manufacturer, version, data);
             at + |body| <= |b| && b[at..at + |body|] == body
    ensures var v := |version|;
            at + 11 + v + |data| <= |b|
            && b[at] == kind && b[at + 1..at + 6] == manufacturer && b[at + 6] == v
            && b[at + 7..at + 7 + v] == version && DWordAt(b, at + 7 + v) == |data|
            && b[at + 11 + v..at + 11 + v + |data|] == data
  {
    hide DWordAt, Be32;
    var body, v, n := UpgradeBody(kind, manufacturer, version, data), |version|, |data|;
    UpgradeBodyFields(kind, manufacturer, version, data);
    assert body[1..6] == manufacturer;
    BodySlice(b, at, body, 0, 1);
    BodySlice(b, at, body, 1, 6);
    BodySlice(b, at, body, 6, 7);
    assert b[at] == b[at + 0..at + 1][0] && b[at + 6] == b[at + 6..at + 7][0];
    BodySlice(b, at, body, 7, 7 + v);
    BodySlice(b, at, body, 7 + v, 11 + v);
    ReadBack32(n, b, at + 7 + v);
    BodySlice(b, at, body, 11 + v, 11 + v + n);
  }

  /** The longest data a packet without a version can announce and be read. */
  lemma LongestData(p: Packet)
    requires Sized(p) && p.buffer[23] == 0
    ensures DataInBuffer(p, 17) <==> DWordAt(p.buffer, 24) <= 4068
    ensures DataInBuffer(p, 17) ==> DataOf(p, 17) == p.buffer[28..28 + DWordAt(p.buffer, 24)]
  {
    hide DWordAt;
  }

  // ---- Cutting a file ---------------------------------------------------------------

  /** The pieces the sender's loop takes off the file, in order. */
  function Chunks(file: seq<Byte>, max: nat): seq<seq<Byte>>
    requires max > 0
  {
    if file == [] then [] else if |file| <= max then [file] else [file[..max]] + Chunks(file[max..], max)
  }

  function Flatten(pieces: seq<seq<Byte>>): seq<Byte> {
    if pieces == [] then [] else pieces[0] + Flatten(pieces[1..])
  }

  /** The pieces make up the file, none is empty or too long, and there are as many as the
      quotient rounded up. */
  lemma {:induction false} ChunksCoverFile(file: seq<Byte>, max: nat)
    requires max > 0
    ensures Flatten(Chunks(file, max)) == file
    ensures forall i :: 0 <= i < |Chunks(file, max)| ==> 0 < |Chunks(file, max)[i]| <= max
    ensures |Chunks(file, max)| == |file| / max + if |file| % max == 0 then 0 else 1
  {
    var cs := Chunks(file, max);
    if file == [] {
      assert 0 / max == 0 && 0 % max == 0;
    } else if |file| <= max {
      assert Flatten(cs) == file + Flatten([]);
      if |file| == max {
        assert max / max == 1 && max % max == 0;
      } else {
        assert |file| / max == 0 && |file| % max == |file|;
      }
    } else {
      ChunksCoverFile(file[max..], max);
      assert cs[1..] == Chunks(file[max..], max);
      assert file == file[..max] + file[max..];
      OneLess(|file|, max);
    }
  }

  lemma OneLess(n: nat, max: nat)
    requires 0 < max <= n
    ensures n / max == (n - max) / max + 1 && n % max == (n - max) % max
  {
    var q, r := (n - max) / max, (n - max) % max;
    assert n == (q + 1) * max + r;
    DivModUnique(n, max, q + 1, r);
  }

  lemma DivModUnique(n: nat, d: nat, q: nat, r: nat)
    requires 0 < d && n == q * d + r && r < d
    ensures n / d == q && n % d == r
  {
    var q', r' := n / d, n % d;
    assert n == d * q' + r';
    if q' < q {
      AtLeastOnce(q, q', d);
    } else if q < q' {
      AtLeastOnce(q', q, d);
    }
  }

  lemma AtLeastOnce(p: nat, q: nat, d: nat)
    requires p > q
    ensures p * d >= q * d + d
  {
    var k := p - q;
    assert p * d == q * d + k * d;
    assert k * d == d + (k - 1) * d;
  }

  /** Each piece is the stretch of the file the sender copies it from. */
  lemma {:induction false} ChunkAt(file: seq<Byte>, max: nat, k: nat)
    requires max > 0 && k < |Chunks(file, max)|
    ensures max * k < |file|
    ensures Chunks(file, max)[k] ==
            file[max * k..if max * k + max <= |file| then max * k + max else |file|]
  {
    if k == 0 {
      assert max * k == 0;
    } else {
      ChunkAt(file[max..], max, k - 1);
      var at := max * (k - 1);
      assert at == max * k - max;
      assert Chunks(file, max)[k] == Chunks(file[max..], max)[k - 1];
      StretchBehind(file, max, at, if at + max <= |file| - max then at + max else |file| - max);
    }
  }

  lemma StretchBehind(file: seq<Byte>, n: nat, i: nat, j: nat)
    requires n <= |file| && i <= j <= |file| - n
    ensures file[n..][i..j] == file[n + i..n + j]
  {
  }

  /** The piece that reaches the end of the file is the last one. */
  lemma {:induction false} LastChunk(file: seq<Byte>, max: nat, k: nat)
    requires max > 0 && k < |Chunks(file, max)|
    ensures k + 1 == |Chunks(file, max)| <==> max * k + max >= |file|
  {
    if k == 0 {
      assert max * 0 == 0;
    } else {
      LastChunk(file[max..], max, k - 1);
      assert max * (k - 1) == max * k - max;
    }
  }

  /** Every piece but the last is full. */
  lemma FullChunk(file: seq<Byte>, max: nat, k: nat)
    requires max > 0 && k + 1 < |Chunks(file, max)|
    ensures |Chunks(file, max)[k]| == max
  {
    ChunkAt(file, max, k);
    LastChunk(file, max, k);
  }
}
