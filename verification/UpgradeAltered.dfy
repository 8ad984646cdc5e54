/** One packet of an upgrade with any one of its bytes altered, as the terminal takes it. */
module UpgradeAltered {
  import opened Bytes
  import opened Framing
  import opened Messages
  import opened UpgradeJob
  import opened UpgradeRecovery
  import opened UpgradeTerminal
  import opened UpgradeWire

  /** What the line does to a packet: it delivers it, or alters byte i of its content and
      check byte to b, or loses it. */
  datatype Fate = Arrives | Altered(i: nat, b: Byte) | Lost

  /** Content and check byte of packet k. */
  function TextAt(j: Job, k: nat): seq<Byte>
    requires Sendable(j) && IsPacket(j, k)
  {
    ContentAt(j, k) + [Bcc(ContentAt(j, k))]
  }

  predicate Alters(j: Job, k: nat, f: Fate)
    requires Sendable(j) && IsPacket(j, k)
  {
    f.Altered? ==> f.i < |TextAt(j, k)| && f.b != TextAt(j, k)[f.i]
  }

  function ArrivalOf(j: Job, k: nat, f: Fate): (a: Arrival)
    requires Sendable(j) && IsPacket(j, k) && Alters(j, k, f) && !f.Lost?
    ensures Possible(j, a)
  {
    match f
    case Arrives => Intact(k)
    case Altered(i, b) =>
      OneAlteredByteIsDamage(j, k, i, b);
      Damaged(TextAt(j, k)[i := b])
  }

  // ---- Fields of an altered packet --------------------------------------------------

  /** A 16-bit field at m when byte i of the text has become b. */
  function Patched(v: Word, m: nat, i: nat, b: Byte): Word {
    if i == m then b * 0x100 + v % 0x100 else if i == m + 1 then v / 0x100 * 0x100 + b else v
  }

  /** What an altered frame is to the terminal: a frame of another id, an upgrade frame without
      the package bit, or a packet with a number. */
  datatype Mark = Foreign | Unpackaged | Numbered(number: Word)

  function MarkOf(k: Word, f: Fate): Mark
    requires f.Altered?
  {
    if f.i < 2 then Foreign
    else if f.i == 2 && f.b / 0x20 % 2 == 0 then Unpackaged
    else Numbered(Patched(k, 14, f.i, f.b))
  }

  /** The flow number an answer refers to. */
  function FlowSeen(j: Job, k: nat, f: Fate): Word {
    if f.Altered? then Patched(FlowAt(j, k), 10, f.i, f.b) else FlowAt(j, k)
  }

  /** The alteration leaves id, package bit and sequence number alone. */
  predicate KeepsNumber(f: Fate) {
    f.Altered? ==> f.i >= 2 && f.i != 14 && f.i != 15 && (f.i == 2 ==> f.b / 0x20 % 2 == 1)
  }

  lemma PatchedWord(t: seq<Byte>, m: nat, i: nat, b: Byte)
    requires m + 2 <= |t| && i < |t|
    ensures WordAt(t[i := b], m) == Patched(WordAt(t, m), m, i, b)
  {
  }

  lemma PatchedDiffers(t: seq<Byte>, m: nat, i: nat, b: Byte)
    requires m + 2 <= |t| && m <= i < m + 2 && b != t[i]
    ensures WordAt(t[i := b], m) != WordAt(t, m)
  {
  }

  /** The header fields of packet k where the terminal looks for them. */
  lemma HeaderFields(j: Job, k: nat)
    requires Proper(j) && IsPacket(j, k)
    ensures var t := TextAt(j, k);
            |t| > 17 && WordAt(t, 0) == DOWN_UPGRADEPACKAGE && t[2] / 0x20 % 2 == 1 && AttributePackaged(WordAt(t, 2))
            && WordAt(t, 10) == FlowAt(j, k) && WordAt(t, 14) == k
  {
    hide Bcc, BodyAt, Declared, Attribute, AttributePackaged, WordAt;
    var t, c, body := TextAt(j, k), ContentAt(j, k), BodyAt(j, k);
    var n := Count(j);
    var attribute := Attribute(|body| % 1024, true);
    assert c == Header(DOWN_UPGRADEPACKAGE, attribute, Zeros(6), FlowAt(j, k)) + PartBytes(PartAt(j, k)) + body;
    FieldAt(t, 0, DOWN_UPGRADEPACKAGE);
    FieldAt(t, 2, attribute);
    FieldAt(t, 10, FlowAt(j, k));
    FieldAt(t, 14, k);
    AttributeFields(|body| % 1024, true);
    PackageBit(t, 2);
  }

  lemma FieldAt(t: seq<Byte>, m: nat, v: Word)
    requires m + 2 <= |t| && [t[m], t[m + 1]] == Be16(v)
    ensures WordAt(t, m) == v
  {
  }

  /** The package bit is a bit of the first byte of the attribute. */
  lemma PackageBit(t: seq<Byte>, m: nat)
    requires m + 2 <= |t|
    ensures AttributePackaged(WordAt(t, m)) <==> t[m] / 0x20 % 2 == 1
  {
    var x, y: int := t[m], t[m + 1];
    assert (x * 0x100 + y) / 0x2000 == x / 0x20;
  }

  /** The fields the terminal reads are those of the text behind the flag. */
  lemma FieldsRead(p: Packet, t: seq<Byte>)
    requires Sized(p) && 17 < |t| < BUFFER_LEN && p.buffer[1..|t| + 1] == t
    ensures IdOf(p) == WordAt(t, 0) && FlowOf(p) == WordAt(t, 10) && SequenceOf(p) == WordAt(t, 14)
    ensures PackagedOf(p) <==> AttributePackaged(WordAt(t, 2))
  {
    hide AttributePackaged;
    forall m | 0 <= m < |t|
      ensures t[m] == p.buffer[m + 1]
    {
      assert p.buffer[1..|t| + 1][m] == p.buffer[m + 1];
    }
  }

  lemma AlteredFields(j: Job, k: nat, f: Fate)
    requires Proper(j) && IsPacket(j, k) && f.Altered? && Alters(j, k, f)
    ensures Possible(j, Damaged(TextAt(j, k)[f.i := f.b]))
    ensures var p := Parse(Delimited(TextAt(j, k)[f.i := f.b]));
            p.size >= 3 && !CheckPasses(p)
            && (IdOf(p) == DOWN_UPGRADEPACKAGE <==> f.i >= 2)
            && (f.i >= 2 ==> (PackagedOf(p) <==> !MarkOf(k, f).Unpackaged?))
            && FlowOf(p) == FlowSeen(j, k, f) && SequenceOf(p) == Patched(k, 14, f.i, f.b)
  {
    hide Parse, Bcc, ContentAt, CheckPasses, Checked, WordAt, AttributePackaged, Patched;
    var t := TextAt(j, k);
    var text := t[f.i := f.b];
    OneAlteredByteIsDamage(j, k, f.i, f.b);
    DamageIsSeen(text);
    ParseDelimited(text);
    HeaderFields(j, k);
    var p := Parse(Delimited(text));
    FieldsRead(p, text);
    PatchedWord(t, 0, f.i, f.b);
    PatchedWord(t, 10, f.i, f.b);
    PatchedWord(t, 14, f.i, f.b);
    PackageBit(text, 2);
    if f.i < 2 {
      PatchedDiffers(t, 0, f.i, f.b);
    } else {
      Untouched(DOWN_UPGRADEPACKAGE, 0, f.i, f.b);
    }
  }

  lemma Untouched(v: Word, m: nat, i: nat, b: Byte)
    requires i != m && i != m + 1
    ensures Patched(v, m, i, b) == v
  {
  }

  /** What one altered byte of a packet does, in every case: with another id nothing; without
      the package bit zero is queued, or there is no list yet to queue it in; and else the
      number that is read is queued and the error reported. */
  lemma AlteredStep(j: Job, s: Session, k: nat, f: Fate)
    requires Proper(j) && IsPacket(j, k) && Well(s) && f.Altered? && Alters(j, k, f)
    ensures var o := Step(s, Parse(Frame(j, ArrivalOf(j, k, f))));
            var wrong := Ack(FlowSeen(j, k, f), DOWN_UPGRADEPACKAGE, MESSAGE_HAS_WRONG);
            match MarkOf(k, f)
            case Foreign => o == Next(s, [])
            case Unpackaged => o == if s.Idle? then Fault else Next(s.(ids := s.ids + [0]), [wrong])
            case Numbered(number) =>
              var s1 := if s.Idle? then Active(map[], [], FlowSeen(j, k, f)) else s;
              o == Next(s1.(ids := s1.ids + [number]), [wrong])
  {
    hide Parse, TextAt, CheckPasses, Accept, IdOf, FlowOf, PackagedOf, TotalOf, SequenceOf, Checked, FlowSeen, Patched;
    AlteredFields(j, k, f);
    assert Frame(j, ArrivalOf(j, k, f)) == Delimited(TextAt(j, k)[f.i := f.b]);
  }

  /** Of a packet that keeps its number, it is that number that is queued. */
  lemma KeptNumber(k: Word, f: Fate)
    requires f.Altered? && KeepsNumber(f)
    ensures MarkOf(k, f) == Numbered(k)
  {
  }
}
