/** The service's side of an upgrade: sending the packets one by one, and answering requests
    for lost ones.  The connection is a sequence of events in and a sequence of frames out;
    it closes when the events run out. */
module UpgradeService {
  import opened Bytes
  import opened Framing
  import opened IdSets
  import opened Messages
  import opened UpgradeJob
  import opened UpgradeWire

  /** A received frame after parsing, as far as an upgrade looks at it. */
  datatype Reply = Response(id: Word, result: Byte) | ResendList(ids: seq<Word>) | OtherFrame

  /** Quiet is a receive that timed out. */
  datatype Event = Quiet | Arrived(reply: Reply)

  datatype Sent = PacketSent(frame: seq<Byte>) | ResendAcknowledged

  datatype Link = Link(open: bool, success: Word, ids: seq<Word>, inbox: seq<Event>, sent: seq<Sent>)

  // ---- Specification ----------------------------------------------------------------

  predicate IsUpgradeAck(e: Event) {
    e.Arrived? && e.reply.Response? && e.reply.id == DOWN_UPGRADEPACKAGE
  }

  predicate IsRequest(e: Event) {
    e.Arrived? && e.reply.ResendList?
  }

  /** The parser's effect on the upgrade's parameters. */
  function Digest(l: Link, total: Word, e: Event): Link {
    if IsUpgradeAck(e) && total != 0 && e.reply.result == 0 then l.(success := (l.success + 1) % 0x1_0000)
    else if IsRequest(e) then l.(ids := l.ids + e.reply.ids)
    else l
  }

  function Take(l: Link, total: Word): (l': Link)
    requires l.inbox != []
    ensures l'.inbox == l.inbox[1..]
  {
    Digest(l.(inbox := l.inbox[1..]), total, l.inbox[0])
  }

  /** What one event changes: the counter for a good answer to an upgrade packet if a total was
      declared, the list for a request, and nothing for anything else. */
  lemma TakeIs(l: Link, total: Word)
    requires l.inbox != []
    ensures var e, l' := l.inbox[0], Take(l, total);
            && l'.open == l.open && l'.sent == l.sent && l'.inbox == l.inbox[1..]
            && l'.success == (if e == Arrived(Response(0x8108, 0)) && total > 0 then (l.success + 1) % 0x1_0000
                              else l.success)
            && l'.ids == (if e.Arrived? && e.reply.ResendList? then l.ids + e.reply.ids else l.ids)
  {
  }

  /** Waiting for the acknowledgement of an upgrade packet. */
  function Await(l: Link, total: Word): (l': Link)
    ensures |l'.inbox| <= |l.inbox|
    decreases |l.inbox|
  {
    if l.inbox == [] then l.(open := false)
    else if IsUpgradeAck(l.inbox[0]) then Take(l, total)
    else Await(Take(l, total), total)
  }

  /** Waiting goes on to the first answer to an upgrade packet, whatever its result. */
  lemma {:induction false} AwaitGoesTo(l: Link, total: Word, i: nat, result: Byte)
    requires i < |l.inbox| && l.inbox[i] == Arrived(Response(0x8108, result))
    requires forall k :: 0 <= k < i ==> !IsUpgradeAck(l.inbox[k])
    ensures var l' := Await(l, total);
            l'.open == l.open && l'.inbox == l.inbox[i + 1..]
            && l'.success == (if result == 0 && total > 0 then (l.success + 1) % 0x1_0000 else l.success)
    decreases i
  {
    hide Take, Digest;
    TakeIs(l, total);
    if i > 0 {
      AwaitGoesTo(Take(l, total), total, i - 1, result);
    }
  }

  /** Without one it ends with a closed connection. */
  lemma {:induction false} AwaitInVain(l: Link, total: Word)
    requires forall k :: 0 <= k < |l.inbox| ==> !IsUpgradeAck(l.inbox[k])
    ensures !Await(l, total).open && Await(l, total).inbox == [] && Await(l, total).success == l.success
    decreases |l.inbox|
  {
    hide Take, Digest;
    if l.inbox != [] {
      TakeIs(l, total);
      AwaitInVain(Take(l, total), total);
    }
  }

  /** One walk through the packet map beside the list of requested ids.  The iterator into
      the list stands on its first element throughout. */
  function Merge(l: Link, total: Word, keys: seq<Word>, packets: map<Word, seq<Byte>>): (l': Link)
    requires forall i :: 0 <= i < |keys| ==> keys[i] in packets
    ensures |l'.inbox| <= |l.inbox|
    decreases |keys|
  {
    if keys == [] || l.ids == [] then l
    else if keys[0] != l.ids[0] then Merge(l, total, keys[1..], packets)
    else
      var l1 := Await(l.(sent := l.sent + [PacketSent(packets[keys[0]])]), total);
      if !l1.open || l1.ids == [] then l1
      else Merge(l1.(ids := l1.ids[1..]), total, keys[1..], packets)
  }

  /** Ids are never taken off the list while waiting. */
  lemma {:induction false} AwaitKeepsIds(l: Link, total: Word)
    ensures l.ids <= Await(l, total).ids && l.sent == Await(l, total).sent
    ensures Await(l, total).open ==> l.open
    decreases |l.inbox|
  {
    if l.inbox != [] && !IsUpgradeAck(l.inbox[0]) {
      AwaitKeepsIds(Take(l, total), total);
    }
  }

  /** The loop of CheckPacketComplete behind the test on entry. */
  function Serve(l: Link, total: Word, packets: map<Word, seq<Byte>>): (l': Link)
    ensures |l'.inbox| <= |l.inbox| && (l'.open ==> |l'.inbox| < |l.inbox|)
    decreases |l.inbox|
  {
    if l.inbox == [] then l.(open := false)
    else
      var l1 := Take(l, total);
      if IsRequest(l.inbox[0]) then
        l1.(sent := l1.sent + [ResendAcknowledged])  // the break leaves the function
      else
        AscendingIndices(packets.Keys);
        var l2 := Merge(l1, total, KeyOrder(packets.Keys), packets);
        if !l2.open then l2 else Serve(l2, total, packets)
  }

  lemma AscendingIndices(s: set<Word>)
    ensures forall i :: 0 <= i < |KeyOrder(s)| ==> KeyOrder(s)[i] in s
  {
    AscendingMembers(s, 0, IDS);
    forall i | 0 <= i < |KeyOrder(s)|
      ensures KeyOrder(s)[i] in s
    {
      assert KeyOrder(s)[i] in KeyOrder(s);
    }
  }

  /** A pass is made after any frame that is no request, as after none at all. */
  lemma AnyFrameWillDo(l: Link, total: Word, e: Event, rest: seq<Event>, packets: map<Word, seq<Byte>>)
    requires !IsRequest(e) && e != Arrived(Response(0x8108, 0))
    ensures Serve(l.(inbox := [e] + rest), total, packets) == Serve(l.(inbox := [Quiet] + rest), total, packets)
  {
    hide Merge, KeyOrder;
    var a, b := l.(inbox := [e] + rest), l.(inbox := [Quiet] + rest);
    TakeIs(a, total);
    TakeIs(b, total);
    assert a.inbox[1..] == rest == b.inbox[1..];
    assert Take(a, total) == Take(b, total);
  }

  predicate CompleteOnEntry(l: Link, total: Word) {
    total != 0 && total == l.success
  }

  datatype Ending = Ending(link: Link, complete: bool)

  /** The loop of UpgradeHandler around CheckPacketComplete. */
  function Finish(l: Link, total: Word, packets: map<Word, seq<Byte>>): Ending
    decreases |l.inbox|
  {
    if CompleteOnEntry(l, total) then Ending(l, true)
    else
      var l1 := Serve(l, total, packets);
      if !l1.open then Ending(l1, false) else Finish(l1, total, packets)
  }

  /** Packets k, k+1, ... of the job, each acknowledged before the next. */
  function SendFrom(l: Link, j: Job, k: nat): Link
    requires Sendable(j) && k >= 1
    decreases |Pieces(j)| as int + 1 - k
  {
    if k > |Pieces(j)| then l
    else
      var l1 := Await(l.(sent := l.sent + [PacketSent(FrameAt(j, k))]), Declared(j));
      if !l1.open then l1 else SendFrom(l1, j, k + 1)
  }

  /** The service's packet map after k packets. */
  function PacketMap(j: Job, k: nat): map<Word, seq<Byte>>
    requires Sendable(j) && k <= |Pieces(j)|
  {
    map i: Word | 1 <= i <= k :: FrameAt(j, i)
  }

  lemma SendFromNext(l: Link, j: Job, k: nat)
    requires Sendable(j) && k >= 1
    ensures SendFrom(l, j, k)
         == if k > |Pieces(j)| then l
            else
              var l1 := Await(l.(sent := l.sent + [PacketSent(FrameAt(j, k))]), Declared(j));
              if !l1.open then l1 else SendFrom(l1, j, k + 1)
  {
  }

  /** How many answers to upgrade packets are among the events. */
  function Answers(inbox: seq<Event>): nat {
    if inbox == [] then 0 else (if IsUpgradeAck(inbox[0]) then 1 else 0) + Answers(inbox[1..])
  }

  lemma {:induction false} AwaitTakesOne(l: Link, total: Word)
    ensures var l' := Await(l, total);
            l'.sent == l.sent
            && if Answers(l.inbox) == 0 then !l'.open else l'.open == l.open && Answers(l'.inbox) == Answers(l.inbox) - 1
    decreases |l.inbox|
  {
    hide Take, Digest;
    if l.inbox != [] {
      TakeIs(l, total);
      if !IsUpgradeAck(l.inbox[0]) {
        AwaitTakesOne(Take(l, total), total);
      }
    }
  }

  /** n packets from packet k on, in order. */
  function InSequence(j: Job, k: nat, n: nat): (sent: seq<Sent>)
    requires Sendable(j) && k >= 1 && k + n <= |Pieces(j)| + 1
    ensures |sent| == n
    decreases n
  {
    if n == 0 then [] else [PacketSent(FrameAt(j, k))] + InSequence(j, k + 1, n - 1)
  }

  /** The packets that are sent: one more than there are answers, as long as there are packets;
      and the connection stays open exactly if every packet is answered. */
  lemma {:induction false} SendsAsAnswered(l: Link, j: Job, k: nat)
    requires Sendable(j) && l.open && 1 <= k <= |Pieces(j)| + 1
    ensures var l', left := SendFrom(l, j, k), |Pieces(j)| + 1 - k;
            (l'.open <==> Answers(l.inbox) >= left)
            && l'.sent == l.sent + InSequence(j, k, if Answers(l.inbox) < left then Answers(l.inbox) + 1 else left)
    decreases |Pieces(j)| + 1 - k
  {
    hide Await, FrameAt, Pieces, InSequence, SendFrom;
    SendFromNext(l, j, k);
    if k <= |Pieces(j)| {
      var l0 := l.(sent := l.sent + [PacketSent(FrameAt(j, k))]);
      AwaitTakesOne(l0, Declared(j));
      var l1, left := Await(l0, Declared(j)), |Pieces(j)| + 1 - k;
      FirstOf(l, j, k, if Answers(l.inbox) < left then Answers(l.inbox) + 1 else left);
      if l1.open {
        SendsAsAnswered(l1, j, k + 1);
      } else {
        NoneOf(l0, j, k + 1);
      }
    } else {
      NoneOf(l, j, k);
    }
  }

  lemma FirstOf(l: Link, j: Job, k: nat, n: nat)
    requires Sendable(j) && k >= 1 && 1 <= n && k + n <= |Pieces(j)| + 1
    ensures l.sent + InSequence(j, k, n) == l.sent + [PacketSent(FrameAt(j, k))] + InSequence(j, k + 1, n - 1)
  {
    hide FrameAt, Pieces;
  }

  lemma NoneOf(l: Link, j: Job, k: nat)
    requires Sendable(j) && 1 <= k <= |Pieces(j)| + 1
    ensures l.sent + InSequence(j, k, 0) == l.sent
  {
  }

  lemma FrameIs(j: Job, k: nat)
    requires Sendable(j) && IsPacket(j, k)
    ensures |j.version| + |Pieces(j)[k - 1]| + 11 <= MAX_BODY
    ensures FrameAt(j, k)
         == Wire(Content(DOWN_UPGRADEPACKAGE, Zeros(6), FlowAt(j, k), PartAt(j, k),
                         UpgradeBody(j.kind, Zeros(5), j.version, Pieces(j)[k - 1])))
  {
    hide Wire, Pieces, Content, UpgradeBody;
    var b := BodyAt(j, k);
  }

  /** How much of the file is left before packet k. */
  function Unsent(j: Job, k: nat): int
    requires |j.version| <= MAX_VERSION && k >= 1
  {
    if k <= |Pieces(j)| then |j.file| - MaxData(j) * (k - 1) else 0
  }

  lemma NothingSentYet(j: Job)
    requires Sendable(j)
    ensures PacketMap(j, 0) == map[] && FlowAt(j, 0) == j.flow && Unsent(j, 1) == |j.file|
  {
  }

  /** The next packet takes a full piece, or what is left. */
  lemma UnsentShrinks(j: Job, k: nat)
    requires Sendable(j) && k >= 1
    ensures Unsent(j, k) > 0 <==> k <= |Pieces(j)|
    ensures k <= |Pieces(j)| ==>
              var n, from := if Unsent(j, k) > MaxData(j) then MaxData(j) else Unsent(j, k), MaxData(j) * (k - 1);
              Unsent(j, k + 1) == Unsent(j, k) - n
              && from + n <= |j.file| && j.file[from..from + n] == Pieces(j)[k - 1]
  {
    hide Chunks;
    var max := MaxData(j);
    if k <= |Pieces(j)| {
      ChunkAt(j.file, max, k - 1);
      LastChunk(j.file, max, k - 1);
      assert max * (k - 1) + max == max * k;
    }
  }

  /** The state between two packets of the sending loop. */
  ghost predicate Between(j: Job, s0: Link, sequence: nat, len: nat, total: Word, flow: Word,
                          packets: map<Word, seq<Byte>>, l: Link) {
    && l.open && Sendable(j) && total == Declared(j)
    && 1 <= sequence <= |Pieces(j)| + 1 && len == Unsent(j, sequence)
    && flow == FlowAt(j, sequence - 1) && packets == PacketMap(j, sequence - 1)
    && SendFrom(l, j, sequence) == SendFrom(s0, j, 1)
  }

  /** The fields of the service when packet `sequence` is next. */
  ghost predicate Ready(j: Job, sequence: nat, total: Word, flow: Word, packets: map<Word, seq<Byte>>) {
    && Sendable(j) && IsPacket(j, sequence) && total == Declared(j)
    && flow == FlowAt(j, sequence - 1) && packets == PacketMap(j, sequence - 1)
  }

  ghost predicate IsPiece(j: Job, sequence: nat, data: seq<Byte>) {
    Sendable(j) && IsPacket(j, sequence) && data == Pieces(j)[sequence - 1]
  }

  /** Packet `sequence` was sent from l and waited for. */
  ghost predicate Acked(j: Job, sequence: nat, total: Word, l: Link, l': Link) {
    Sendable(j) && IsPacket(j, sequence)
    && l' == Await(l.(sent := l.sent + [PacketSent(FrameAt(j, sequence))]), total)
  }

  /** What the next packet is made of. */
  lemma NextPiece(j: Job, sequence: nat, len: nat, max: nat)
    requires Sendable(j) && sequence >= 1 && len == Unsent(j, sequence) && len > 0 && max == MaxData(j)
    ensures IsPacket(j, sequence)
    ensures var n, from := if len > max then max else len, max * (sequence - 1);
            0 <= from && from + n <= |j.file| && IsPiece(j, sequence, j.file[from..from + n])
  {
    hide Pieces, Unsent;
    UnsentShrinks(j, sequence);
    assert 0 <= max * (sequence - 1);
  }

  lemma BetweenFacts(j: Job, s0: Link, sequence: nat, len: nat, max: nat, total: Word, flow: Word,
                     packets: map<Word, seq<Byte>>, l: Link)
    requires Between(j, s0, sequence, len, total, flow, packets, l) && len > 0
    requires |j.version| <= MAX_VERSION && max == MaxData(j)
    ensures l.open && sequence < IDS && total == Declared(j) && Ready(j, sequence, total, flow, packets)
    ensures var n, from := if len > max then max else len, max * (sequence - 1);
            0 <= from && from + n <= |j.file| && IsPiece(j, sequence, j.file[from..from + n])
  {
    hide Pieces, FrameAt, Await, SendFrom, PacketMap, FlowAt, Unsent, Declared, IsPiece;
    NextPiece(j, sequence, len, max);
  }

  /** And the state behind it, if it was acknowledged. */
  lemma BetweenNext(j: Job, s0: Link, sequence: nat, len: nat, max: nat, total: Word, flow: Word,
                    packets: map<Word, seq<Byte>>, l: Link, flow': Word, packets': map<Word, seq<Byte>>, l': Link)
    requires Between(j, s0, sequence, len, total, flow, packets, l) && len > 0
    requires |j.version| <= MAX_VERSION && max == MaxData(j)
    requires Acked(j, sequence, total, l, l')
    requires flow' == FlowAt(j, sequence) && packets' == PacketMap(j, sequence)
    ensures var len' := if len > max then len - max else 0;
            if l'.open then Between(j, s0, sequence + 1, len', total, flow', packets', l') else l' == SendFrom(s0, j, 1)
  {
    hide Pieces, FrameAt, Await, SendFrom, PacketMap, FlowAt, Unsent, Chunks, Declared;
    UnsentShrinks(j, sequence);
    UnsentShrinks(j, sequence + 1);
    SendFromNext(l, j, sequence);
  }

  // ---- The service object -----------------------------------------------------------

  class Service {
    const message: Message
    var messageFlowNum: Word
    var open: bool
    var responseSuccessNum: Word
    var packetTotalNum: Word
    var packetIdList: seq<Word>
    var packetMap: map<Word, seq<Byte>>
    var inbox: seq<Event>
    var sent: seq<Sent>

    constructor (flow: Word, events: seq<Event>)
      ensures State() == Link(true, 0, [], events, []) && messageFlowNum == flow
      ensures message.buffer.Length == BUFFER_LEN && fresh(message) && fresh(message.buffer)
    {
      message := new Message();
      messageFlowNum, open, responseSuccessNum, packetTotalNum := flow, true, 0, 0;
      packetIdList, packetMap, inbox, sent := [], map[], events, [];
    }

    function State(): Link
      reads this
    {
      Link(open, responseSuccessNum, packetIdList, inbox, sent)
    }

    /** RecvFrameData and Jt808FrameParse on the next event. */
    method Receive() returns (e: Event)
      requires inbox != []
      modifies `inbox, `responseSuccessNum, `packetIdList
      ensures e == old(inbox)[0] && State() == Take(old(State()), packetTotalNum)
    {
      e := inbox[0];
      inbox := inbox[1..];
      if IsUpgradeAck(e) {
        if packetTotalNum != 0 && e.reply.result == 0 {
          responseSuccessNum := (responseSuccessNum + 1) % 0x1_0000;
        }
      } else if IsRequest(e) {
        packetIdList := packetIdList + e.reply.ids;
      }
    }

    /** while (1) { receive until the packet is acknowledged } */
    method AwaitAck()
      modifies `inbox, `responseSuccessNum, `packetIdList, `open
      ensures State() == Await(old(State()), packetTotalNum)
    {
      while true
        invariant Await(State(), packetTotalNum) == Await(old(State()), packetTotalNum)
        decreases |inbox|
      {
        if inbox == [] {
          open := false;
          return;
        }
        var e := Receive();
        if IsUpgradeAck(e) {
          return;
        }
      }
    }

    /** One pass over the packet map. */
    method MergePass()
      modifies `inbox, `responseSuccessNum, `packetIdList, `open, `sent
      ensures (AscendingIndices(packetMap.Keys);
               State() == Merge(old(State()), packetTotalNum, KeyOrder(packetMap.Keys), packetMap))
    {
      hide Await, Ascending, Digest;
      var keys := KeyOrder(packetMap.Keys);
      AscendingIndices(packetMap.Keys);
      var i := 0;
      assert keys[0..] == keys;
      while i < |keys|
        invariant 0 <= i <= |keys|
        invariant Merge(State(), packetTotalNum, keys[i..], packetMap)
               == Merge(old(State()), packetTotalNum, keys, packetMap)
      {
        if packetIdList == [] {
          return;
        }
        assert keys[i..][1..] == keys[i + 1..];
        if keys[i] == packetIdList[0] {
          sent := sent + [PacketSent(packetMap[keys[i]])];
          AwaitKeepsIds(State(), packetTotalNum);
          AwaitAck();
          if !open {
            return;
          }
          packetIdList := packetIdList[1..];
        }
        i := i + 1;
      }
    }

    method CheckPacketComplete() returns (complete: bool)
      modifies `inbox, `responseSuccessNum, `packetIdList, `open, `sent
      ensures complete == CompleteOnEntry(old(State()), packetTotalNum)
      ensures State() == if complete then old(State()) else Serve(old(State()), packetTotalNum, packetMap)
    {
      if packetTotalNum != 0 && packetTotalNum == responseSuccessNum {
        return true;
      }
      while true
        invariant Serve(State(), packetTotalNum, packetMap) == Serve(old(State()), packetTotalNum, packetMap)
        decreases |inbox|
      {
        if inbox == [] {
          open := false;
          return false;
        }
        ghost var before := State();
        var e := Receive();
        if IsRequest(e) {
          sent := sent + [ResendAcknowledged];
          return false;
        }
        MergePass();
        if !open {
          return false;
        }
      }
    }

    /** while (!CheckPacketComplete(...)) { if the socket is closed, break } */
    method FinishUpgrade() returns (complete: bool)
      modifies `inbox, `responseSuccessNum, `packetIdList, `open, `sent
      ensures Finish(old(State()), packetTotalNum, packetMap) == Ending(State(), complete)
    {
      hide Serve;
      while true
        invariant Finish(State(), packetTotalNum, packetMap) == Finish(old(State()), packetTotalNum, packetMap)
        decreases |inbox|
      {
        complete := CheckPacketComplete();
        if complete || !open {
          return;
        }
      }
    }

    /** Between two packets of the sending loop; s0 is the state it started from. */
    ghost predicate Sending(j: Job, s0: Link, sequence: nat, len: nat)
      reads this, message
    {
      message.buffer.Length == BUFFER_LEN
      && Between(j, s0, sequence, len, packetTotalNum, messageFlowNum, packetMap, State())
    }

    /** The sending loop of UpgradeHandler. */
    method SendFile(kind: Byte, version: seq<Byte>, file: seq<Byte>)
      requires message.buffer.Length == BUFFER_LEN && open
      requires Sendable(Job(kind, version, file, messageFlowNum))
      modifies this, message, message.buffer
      ensures var j := Job(kind, version, file, old(messageFlowNum));
              State() == SendFrom(old(State()), j, 1) && packetTotalNum == Declared(j)
              && (open ==> packetMap == PacketMap(j, |Pieces(j)|))
    {
      hide Declared, Pieces, FrameAt, Await, SendFrom, PacketMap, FlowAt, Unsent, Chunks;
      ghost var j := Job(kind, version, file, messageFlowNum);
      ghost var s0 := State();
      var max := 1023 - 11 - |version|;
      var len := |file|;
      DeclareTotal(j, len, max);
      packetMap := map[];
      NothingSentYet(j);
      var sequence := 1;
      while len > 0
        invariant 0 <= len
        invariant Sending(j, s0, sequence, len)
        decreases len
      {
        len := SendNext(j, s0, kind, version, file, max, sequence, len);
        if !open {
          return;
        }
        sequence := sequence + 1;
      }
      UnsentShrinks(j, sequence);
      SendFromNext(State(), j, sequence);
    }

    /** One round of that loop. */
    method SendNext(ghost j: Job, ghost s0: Link, kind: Byte, version: seq<Byte>, file: seq<Byte>, max: nat,
                    sequence: nat, len: nat) returns (len': nat)
      requires Sending(j, s0, sequence, len) && len > 0
      requires kind == j.kind && version == j.version && file == j.file && max == MaxData(j)
      modifies this, message, message.buffer
      ensures packetTotalNum == Declared(j) && len' < len
      ensures if open then Sending(j, s0, sequence + 1, len') else State() == SendFrom(s0, j, 1)
    {
      hide Between, Ready, IsPiece, Acked, Declared, Pieces, FrameAt, Await, SendFrom, PacketMap, FlowAt;
      ghost var l, flow, packets := State(), messageFlowNum, packetMap;
      BetweenFacts(j, s0, sequence, len, max, packetTotalNum, flow, packets, l);
      var dataLen := if len > max then max else len;
      len' := len - dataLen;
      var from := max * (sequence - 1);
      SendPacket(j, sequence, kind, version, file[from..from + dataLen]);
      BetweenNext(j, s0, sequence, len, max, packetTotalNum, flow, packets, l, messageFlowNum, packetMap, State());
    }

    method DeclareTotal(ghost j: Job, len: nat, max: nat)
      requires |j.version| <= MAX_VERSION && len == |j.file| && max == MaxData(j)
      modifies `packetTotalNum
      ensures packetTotalNum == Declared(j)
    {
      packetTotalNum := (len / max + 1) % 0x1_0000;
    }

    method SendPacket(ghost j: Job, sequence: Word, kind: Byte, version: seq<Byte>, data: seq<Byte>)
      requires message.buffer.Length == BUFFER_LEN && open
      requires Ready(j, sequence, packetTotalNum, messageFlowNum, packetMap) && IsPiece(j, sequence, data)
      requires kind == j.kind && version == j.version
      modifies this, message, message.buffer
      ensures message.buffer.Length == BUFFER_LEN && packetTotalNum == old(packetTotalNum)
      ensures Sendable(j) && sequence <= |Pieces(j)|
      ensures messageFlowNum == FlowAt(j, sequence) && packetMap == PacketMap(j, sequence)
      ensures Acked(j, sequence, packetTotalNum, old(State()), State())
    {
      hide Wire, Pieces, Declared, Await, UpgradeBody, FrameAt, Content;
      FrameIs(j, sequence);
      message.Clear();
      messageFlowNum := (messageFlowNum + 1) % 0x1_0000;
      PackUpgrade(message, messageFlowNum, Zeros(6), packetTotalNum, sequence, kind, Zeros(5), version, data);
      var frame := message.buffer[..message.size];
      FrameIs(j, sequence);
      packetMap := packetMap[sequence := frame];
      assert packetMap == PacketMap(j, sequence);
      sent := sent + [PacketSent(frame)];
      AwaitAck();
    }
  }
}
