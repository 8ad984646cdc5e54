/** The terminal's side of an upgrade: one frame in, a new session state and outputs out.
    Step is the specification; class Terminal does the same in place on its message buffer
    and protocol fields. */
module UpgradeTerminal {
  import opened Bytes
  import opened Framing
  import opened IdSets
  import opened Messages
  import opened UpgradeWire
  import opened Wrappers

  const SUCCESS: Byte := 0
  const MESSAGE_HAS_WRONG: Byte := 2
  const NOT_SUPPORT: Byte := 3

  /** packet_map and packet_id_list are created and deleted together. */
  datatype Session = Idle | Active(packets: map<Word, Packet>, ids: seq<Word>, firstFlow: Word)

  datatype Output =
    | Ack(flow: Word, id: Word, result: Byte)
    | ResendRequest(firstFlow: Word, ids: seq<Word>)
    | FileWritten(kind: Byte, version: seq<Byte>, data: seq<Byte>)

  /** Fault stands for what the source leaves undefined: a null pointer followed, memory
      outside a buffer, or a loop that cannot end. */
  datatype Outcome = Fault | Next(session: Session, outputs: seq<Output>)

  /** Terminal module, card reader, satellite receiver. */
  predicate KnownKind(kind: Byte) {
    kind == 0x00 || kind == 0x0C || kind == 0x34
  }

  /** Size of upgrade_info_.version_id. */
  const VERSION_ID_LEN := 16

  // ---- Specification of one frame ---------------------------------------------------

  function Total(p: Packet): Word
    requires Sized(p)
  {
    if PackagedOf(p) then TotalOf(p) else 0
  }

  function Sequence(p: Packet): Word
    requires Sized(p)
  {
    if PackagedOf(p) then SequenceOf(p) else 0
  }

  /** The first packet with the package bit creates the map and the list. */
  function Opened(s: Session, p: Packet): Session
    requires Sized(p)
  {
    if PackagedOf(p) && s.Idle? then Active(map[], [], FlowOf(p)) else s
  }

  predicate Well(s: Session) {
    s.Active? ==> forall k :: k in s.packets ==> Sized(s.packets[k])
  }

  function Step(s: Session, p: Packet): (o: Outcome)
    requires Sized(p) && Well(s)
    ensures o.Next? ==> Well(o.session)
  {
    var s1 := Opened(s, p);
    if IdOf(p) != DOWN_UPGRADEPACKAGE then
      Next(s, [])
    else if p.size < 3 || s1.Idle? then
      Fault
    else if !CheckPasses(p) then
      Next(s1.(ids := s1.ids + [Sequence(p)]), [Ack(FlowOf(p), IdOf(p), MESSAGE_HAS_WRONG)])
    else
      Accept(s1, p)
  }

  /** map::insert: the first packet with an id stays. */
  function Insert(m: map<Word, Packet>, key: Word, p: Packet): map<Word, Packet> {
    if key in m then m else m[key := p]
  }

  function Stored(s: Session, p: Packet): map<Word, Packet>
    requires Sized(p) && s.Active?
  {
    Insert(s.packets, if Total(p) != 0 then Sequence(p) else 1, p)
  }

  /** The id whose arrival makes the terminal look at what it has: the last one asked for,
      or the last one of the file. */
  function Awaited(s: Session, total: Word): Word
    requires s.Active?
  {
    if s.ids != [] then s.ids[|s.ids| - 1] else total
  }

  function Accept(s: Session, p: Packet): (o: Outcome)
    requires Sized(p) && Well(s) && s.Active?
    ensures o.Next? ==> Well(o.session)
  {
    var total, sequence := Total(p), Sequence(p);
    var s2 := Active(Stored(s, p), RemoveFirst(s.ids, sequence), s.firstFlow);
    var ack := Ack(FlowOf(p), IdOf(p), SUCCESS);
    if Awaited(s, total) == sequence && |s2.packets| != total then
      Request(s2, total, ack)
    else if total == 0 || |s2.packets| == total then
      Assemble(s2, p, ack)
    else
      Next(s2, [ack])
  }

  /** Ask again for what is still on the list, or for every gap when there is no list. */
  function Request(s: Session, total: Word, ack: Output): (o: Outcome)
    requires Well(s) && s.Active?
    ensures o.Next? ==> Well(o.session)
  {
    if s.ids == [] && total == 0xFFFF then
      Fault  // a 16-bit counter is never greater than 0xFFFF
    else
      var ids := if s.ids == [] then Gaps(KeyOrder(s.packets.Keys), 1, total) else s.ids;
      Next(s.(ids := ids), [ack, ResendRequest(s.firstFlow, ids)])
  }

  /** The data of the packets with these keys, one after the other. */
  function AllData(m: map<Word, Packet>, keys: seq<Word>): Option<seq<Byte>>
    requires forall k :: k in m ==> Sized(m[k])
    requires forall k :: k in keys ==> k in m
  {
    if keys == [] then Some([])
    else if !DataInBuffer(m[keys[0]], PACKAGE_POS) then None
    else
      var rest := AllData(m, keys[1..]);
      if rest.None? then None else Some(DataOf(m[keys[0]], PACKAGE_POS) + rest.value)
  }

  /** What the complete branch writes, when everything it reads lies inside the buffers. */
  function Assembled(m: map<Word, Packet>, keys: seq<Word>, packaged: bool): Option<seq<Byte>>
    requires forall k :: k in m ==> Sized(m[k])
    requires keys != [] && forall k :: k in keys ==> k in m
  {
    if packaged then AllData(m, keys)
    else if DataInBuffer(m[keys[0]], NOPACKAGE_POS) then Some(DataOf(m[keys[0]], NOPACKAGE_POS))
    else None
  }

  function Assemble(s: Session, p: Packet, ack: Output): (o: Outcome)
    requires Sized(p) && Well(s) && s.Active?
    ensures o.Next? ==> Well(o.session)
  {
    var keys := KeyOrder(s.packets.Keys);
    AscendingMembers(s.packets.Keys, 0, IDS);
    if keys == [] then Fault
    else
      assert keys[0] in keys;
      var first, at := s.packets[keys[0]], if Total(p) != 0 then PACKAGE_POS else NOPACKAGE_POS;
      if |VersionOf(first, at)| > VERSION_ID_LEN then
        Fault
      else if !KnownKind(KindOf(first, at)) then
        Next(s, [ack, Ack(FlowOf(p), IdOf(p), NOT_SUPPORT)])
      else
        var data := Assembled(s.packets, keys, Total(p) != 0);
        if data.None? then Fault
        else
          Next(if Total(p) != 0 then Idle else s,
               [ack, FileWritten(KindOf(first, at), VersionOf(first, at), data.value)])
  }

  // ---- Answers, byte by byte --------------------------------------------------------

  /** A wrong check byte: the number, 0 without package fields, goes on the list, and answer 2 out. */
  lemma WrongCheckAnswered(s: Session, p: Packet)
    requires Sized(p) && p.size >= 3 && Well(s) && s.Active? && WordAt(p.buffer, 1) == 0x8108
    requires p.buffer[p.size - 2] != Bcc(p.buffer[1..p.size - 2])
    ensures var number: Word := if WordAt(p.buffer, 3) % 0x4000 >= 0x2000 then WordAt(p.buffer, 15) else 0;
            Step(s, p) == Next(Active(s.packets, s.ids + [number], s.firstFlow),
                               [Ack(WordAt(p.buffer, 11), 0x8108, 2)])
  {
    hide WordAt, Bcc, Accept;
    PackageBit(WordAt(p.buffer, 3));
  }

  /** A right one: answer 0, before anything else is sent. */
  lemma RightCheckAnswered(s: Session, p: Packet)
    requires Sized(p) && p.size >= 3 && Well(s) && WordAt(p.buffer, 1) == 0x8108
    requires p.buffer[p.size - 2] == Bcc(p.buffer[1..p.size - 2])
    ensures var o := Step(s, p); o.Next? ==> o.outputs != [] && o.outputs[0] == Ack(WordAt(p.buffer, 11), 0x8108, 0)
  {
    hide WordAt, Bcc, Stored, Awaited, Assembled, Gaps, KeyOrder, KindOf, VersionOf;
  }

  /** The first packet of a session gives it its flow number, which every request then names
      along with the list. */
  lemma FirstFlowStays(s: Session, p: Packet)
    requires Sized(p) && Well(s)
    ensures var o := Step(s, p);
            o.Next? && o.session.Active? ==>
              && o.session.firstFlow == (if s.Active? then s.firstFlow else WordAt(p.buffer, 11))
              && forall i :: 0 <= i < |o.outputs| && o.outputs[i].ResendRequest? ==>
                               o.outputs[i] == ResendRequest(o.session.firstFlow, o.session.ids)
  {
    hide WordAt, CheckPasses, Stored, Awaited, Assembled, Gaps, KeyOrder, KindOf, VersionOf, RemoveFirst;
  }

  /** The complete branch looks at packet 1: a version of more than sixteen characters overruns
      its array, and a kind other than 0x00, 0x0C and 0x34 is refused by answer 3, with nothing
      written and the session as it was.  Without a total its data alone is written. */
  lemma KindAndVersionTested(s: Session, p: Packet, ack: Output)
    requires Sized(p) && Well(s) && s.Active? && 1 in s.packets && 0 !in s.packets
    ensures var b, at := s.packets[1].buffer, if Total(p) != 0 then 17 else 13;
            var o := Assemble(s, p, ack);
            && (b[at + 6] > 16 ==> o == Fault)
            && (b[at + 6] <= 16 && b[at] != 0x00 && b[at] != 0x0C && b[at] != 0x34 ==>
                  o == Next(s, [ack, Ack(WordAt(p.buffer, 11), WordAt(p.buffer, 1), 3)]))
            && (o.Next? && (b[at] == 0x00 || b[at] == 0x0C || b[at] == 0x34) ==>
                  |o.outputs| == 2 && o.outputs[1].FileWritten? && o.outputs[1].kind == b[at]
                  && o.outputs[1].version == b[at + 7..at + 7 + b[at + 6]])
            && (o.Next? && o.outputs != [] && o.outputs[|o.outputs| - 1].FileWritten? && Total(p) == 0 ==>
                  var v := b[19];
                  24 + v + DWordAt(b, 20 + v) <= 4096
                  && o.outputs[|o.outputs| - 1].data == b[24 + v..24 + v + DWordAt(b, 20 + v)])
  {
    hide WordAt, DWordAt, AllData, KeyOrder;
    OneIsFirst(s.packets.Keys);
  }

  lemma OneIsFirst(s: set<Word>)
    requires 1 in s && 0 !in s
    ensures KeyOrder(s) != [] && KeyOrder(s)[0] == 1
  {
    assert Ascending(s, 0, IDS) == Ascending(s, 1, IDS);
  }

  // ---- The terminal object ----------------------------------------------------------

  class Terminal {
    const message: Message
    var packetMap: Option<map<Word, Packet>>  // pro_para_.packet_map
    var packetIdList: Option<seq<Word>>       // pro_para_.packet_id_list
    var packetFirstFlowNum: Word
    var packetTotalNum: Word
    var respondFlowNum: Word
    var respondId: Word
    var sent: seq<Output>
    var faulted: bool

    constructor ()
      ensures Valid() && CurrentSession() == Idle && sent == [] && !faulted
      ensures fresh(message) && fresh(message.buffer)
    {
      message := new Message();
      packetMap, packetIdList := None, None;
      packetFirstFlowNum, packetTotalNum, respondFlowNum, respondId := 0, 0, 0, 0;
      sent, faulted := [], false;
    }

    ghost predicate Valid()
      reads this, message, message.buffer
    {
      && message.buffer.Length == BUFFER_LEN
      && (packetMap.Some? <==> packetIdList.Some?)
      && Well(CurrentSession())
    }

    ghost function CurrentSession(): Session
      reads this
    {
      if packetMap.Some? && packetIdList.Some?
      then Active(packetMap.value, packetIdList.value, packetFirstFlowNum) else Idle
    }

    /** The state and the log after a frame, against the specification. */
    ghost predicate Did(o: Outcome, log: seq<Output>)
      reads this
    {
      if o.Fault? then faulted else CurrentSession() == o.session && sent == log + o.outputs && !faulted
    }

    /** A receive and the parser's upgrade branch. */
    method OnFrame(frame: seq<Byte>)
      requires Valid() && !faulted && 0 < |frame| <= MAX_FRAME
      modifies this, message, message.buffer
      ensures faulted || Valid()
      ensures Did(Step(old(CurrentSession()), Parse(frame)), old(sent))
    {
      message.Receive(frame);
      message.Unwrap(frame);
      var p := Packet(message.buffer[..], message.size);
      if IdOf(p) == DOWN_UPGRADEPACKAGE {
        OnUpgradePackage(p);
      }
    }

    method OnUpgradePackage(p: Packet)
      requires Valid() && !faulted && Sized(p) && IdOf(p) == DOWN_UPGRADEPACKAGE
      modifies this
      ensures faulted || Valid()
      ensures Did(Step(old(CurrentSession()), p), old(sent))
    {
      hide Accept, IdOf, FlowOf, Bcc;
      respondFlowNum, respondId := FlowOf(p), IdOf(p);
      packetTotalNum := Total(p);
      if PackagedOf(p) {
        if packetMap.None? {
          packetMap := Some(map[]);
        }
        if packetIdList.None? {
          packetIdList := Some([]);
          packetFirstFlowNum := respondFlowNum;
        }
      }
      if p.size < 3 || packetIdList.None? {
        faulted := true;
      } else if p.buffer[p.size - 2] != Bcc(p.buffer[1..p.size - 2]) {
        packetIdList := Some(packetIdList.value + [Sequence(p)]);
        sent := sent + [Ack(respondFlowNum, respondId, MESSAGE_HAS_WRONG)];
      } else {
        OnGoodPackage(p);
      }
    }

    method OnGoodPackage(p: Packet)
      requires Valid() && !faulted && CurrentSession().Active? && Sized(p)
      requires respondFlowNum == FlowOf(p) && respondId == IdOf(p) && packetTotalNum == Total(p)
      modifies this
      ensures faulted || Valid()
      ensures Did(Accept(old(CurrentSession()), p), old(sent))
    {
      hide Request, Assemble, KindOf, VersionOf, IdOf, FlowOf, Total, Sequence;
      ghost var s0, log := CurrentSession(), sent;
      var sequence := Sequence(p);
      packetMap := Some(Insert(packetMap.value, if packetTotalNum != 0 then sequence else 1, p));
      sent := sent + [Ack(respondFlowNum, respondId, SUCCESS)];
      var packetTotal := packetTotalNum;
      if packetIdList.value != [] {
        packetTotal := packetIdList.value[|packetIdList.value| - 1];
        var rest := EraseFirst(packetIdList.value, sequence);
        packetIdList := Some(rest);
      }
      ghost var ack := Ack(FlowOf(p), IdOf(p), SUCCESS);
      ghost var s2 := CurrentSession();
      assert s2 == Active(Stored(s0, p), RemoveFirst(s0.ids, sequence), s0.firstFlow);
      if packetTotal == sequence && |packetMap.value| != packetTotalNum {
        RequestResend(log, ack);
      } else if packetTotalNum == 0 || |packetMap.value| == packetTotalNum {
        WriteFile(p, log, ack);
      } else {
        assert sent == log + [ack];
      }
    }

    method RequestResend(ghost log: seq<Output>, ghost ack: Output)
      requires Valid() && !faulted && CurrentSession().Active? && sent == log + [ack]
      modifies this
      ensures faulted || Valid()
      ensures Did(Request(old(CurrentSession()), old(packetTotalNum), ack), log)
    {
      if packetIdList.value == [] {
        if packetTotalNum == 0xFFFF {
          faulted := true;
          return;
        }
        var ids := CollectGaps(KeyOrder(packetMap.value.Keys), packetTotalNum);
        packetIdList := Some(ids);
      }
      Log(ResendRequest(packetFirstFlowNum, packetIdList.value), log, ack);
    }

    method WriteFile(p: Packet, ghost log: seq<Output>, ghost ack: Output)
      requires Valid() && !faulted && CurrentSession().Active? && Sized(p) && sent == log + [ack]
      requires respondFlowNum == FlowOf(p) && respondId == IdOf(p) && packetTotalNum == Total(p)
      modifies this
      ensures faulted || Valid()
      ensures Did(Assemble(old(CurrentSession()), p, ack), log)
    {
      hide KindOf, VersionOf, FlowOf, IdOf, Total, Assembled, Ascending, KnownKind;
      var keys := KeyOrder(packetMap.value.Keys);
      AscendingMembers(packetMap.value.Keys, 0, IDS);
      if keys == [] {
        faulted := true;
        return;
      }
      assert keys[0] in keys;
      var first, at := packetMap.value[keys[0]], if packetTotalNum != 0 then PACKAGE_POS else NOPACKAGE_POS;
      var kind, version := KindOf(first, at), VersionOf(first, at);
      if |version| > VERSION_ID_LEN {
        faulted := true;
        return;
      }
      if !KnownKind(kind) {
        Refuse(log, ack);
        return;
      }
      var data := CollectData(packetMap.value, keys, packetTotalNum != 0);
      WriteData(kind, version, data, log, ack);
    }

    method Refuse(ghost log: seq<Output>, ghost ack: Output)
      requires Valid() && !faulted && sent == log + [ack]
      modifies this
      ensures Valid()
      ensures Did(Next(old(CurrentSession()), [ack, Ack(old(respondFlowNum), old(respondId), NOT_SUPPORT)]), log)
    {
      Log(Ack(respondFlowNum, respondId, NOT_SUPPORT), log, ack);
    }

    method WriteData(kind: Byte, version: seq<Byte>, data: Option<seq<Byte>>,
                     ghost log: seq<Output>, ghost ack: Output)
      requires Valid() && !faulted && CurrentSession().Active? && sent == log + [ack]
      modifies this
      ensures faulted || Valid()
      ensures Did(if data.None? then Fault
                  else Next(if old(packetTotalNum) != 0 then Idle else old(CurrentSession()),
                            [ack, FileWritten(kind, version, data.value)]), log)
    {
      if data.None? {
        faulted := true;
        return;
      }
      if packetTotalNum != 0 {
        packetMap, packetIdList := None, None;
      }
      packetTotalNum := 0;
      Log(FileWritten(kind, version, data.value), log, ack);
    }

    method Log(o: Output, ghost log: seq<Output>, ghost ack: Output)
      requires sent == log + [ack]
      modifies this`sent
      ensures sent == log + [ack, o]
    {
      assert log + [ack] + [o] == log + [ack, o];
      sent := sent + [o];
    }
  }

  method CollectData(m: map<Word, Packet>, keys: seq<Word>, packaged: bool) returns (data: Option<seq<Byte>>)
    requires forall k :: k in m ==> Sized(m[k])
    requires keys != [] && forall k :: k in keys ==> k in m
    ensures data == Assembled(m, keys, packaged)
  {
    if packaged {
      data := ConcatData(m, keys);
    } else {
      assert keys[0] in keys;
      data := if DataInBuffer(m[keys[0]], NOPACKAGE_POS) then Some(DataOf(m[keys[0]], NOPACKAGE_POS)) else None;
    }
  }

  /** The loop that appends every packet's data to the file. */
  method ConcatData(m: map<Word, Packet>, keys: seq<Word>) returns (data: Option<seq<Byte>>)
    requires forall k :: k in m ==> Sized(m[k])
    requires forall k :: k in keys ==> k in m
    ensures data == AllData(m, keys)
  {
    var out: seq<Byte> := [];
    var i := 0;
    assert keys[0..] == keys;
    assert AllData(m, keys).Some? ==> out + AllData(m, keys).value == AllData(m, keys).value;
    while i < |keys|
      invariant 0 <= i <= |keys|
      invariant AllData(m, keys) ==
                (var rest := AllData(m, keys[i..]); if rest.None? then None else Some(out + rest.value))
    {
      assert keys[i..][1..] == keys[i + 1..] && keys[i] in keys;
      if !DataInBuffer(m[keys[i]], PACKAGE_POS) {
        return None;
      }
      ghost var rest := AllData(m, keys[i + 1..]);
      if rest.Some? {
        assert out + (DataOf(m[keys[i]], PACKAGE_POS) + rest.value)
            == (out + DataOf(m[keys[i]], PACKAGE_POS)) + rest.value;
      }
      out := out + DataOf(m[keys[i]], PACKAGE_POS);
      i := i + 1;
    }
    assert keys[i..] == [] && out + [] == out;
    return Some(out);
  }
}
