/** Safety of the upgrade transfer over whole runs: whatever arrives, in whatever order and
    however often, the terminal never writes anything but the file that was sent. */
module UpgradeSafety {
  import opened Bytes
  import opened Framing
  import opened IdSets
  import opened Messages
  import opened UpgradeJob
  import opened UpgradeTerminal
  import opened UpgradeWire
  import opened Wrappers

  // ---- Maps of packets that hold pieces of a file -----------------------------------

  /** Packet number k carries piece number k; `at` is where the bodies start. */
  ghost predicate Holds(packets: map<Word, Packet>, pieces: seq<seq<Byte>>, at: nat)
    requires at <= PACKAGE_POS
  {
    |pieces| < IDS
    && forall k :: k in packets ==>
                     1 <= k <= |pieces| && Sized(packets[k])
                     && DataInBuffer(packets[k], at) && DataOf(packets[k], at) == pieces[k - 1]
  }

  lemma HeldIds(packets: map<Word, Packet>, pieces: seq<seq<Byte>>, at: nat)
    requires at <= PACKAGE_POS && Holds(packets, pieces, at)
    ensures Within(packets.Keys, |pieces|) && |packets| <= |pieces|
    ensures |packets| == |pieces| ==> KeyOrder(packets.Keys) == UpTo(1, |pieces|)
                                      && forall k :: 1 <= k <= |pieces| ==> k in packets
  {
    hide DataInBuffer, DataOf, Missing, UpTo;
    var s := packets.Keys;
    assert |packets| == |s|;
    PresentPlusMissing(s, |pieces|);
    if |s| == |pieces| {
      FullOrder(s, 1, |pieces|);
      assert 0 !in s;
    }
  }

  /** The data of the packets from `from` on is the rest of the file. */
  lemma {:induction false} AllDataIsRest(packets: map<Word, Packet>, pieces: seq<seq<Byte>>, from: nat)
    requires Holds(packets, pieces, PACKAGE_POS)
    requires 1 <= from <= |pieces| + 1 && forall k :: 1 <= k <= |pieces| ==> k in packets
    ensures forall k :: k in UpTo(from, |pieces|) ==> k in packets
    ensures AllData(packets, UpTo(from, |pieces|)) == Some(Flatten(pieces[from - 1..]))
    decreases |pieces| + 1 - from
  {
    hide DataInBuffer, DataOf;
    var n := |pieces|;
    if from <= n {
      AllDataIsRest(packets, pieces, from + 1);
      assert UpTo(from, n)[1..] == UpTo(from + 1, n);
      assert pieces[from - 1..][1..] == pieces[from..];
    }
  }

  /** A full map assembles to the pieces in order. */
  lemma FullMapAssembles(packets: map<Word, Packet>, pieces: seq<seq<Byte>>)
    requires Holds(packets, pieces, PACKAGE_POS) && |packets| == |pieces| > 0
    ensures var keys := UpTo(1, |pieces|);
            KeyOrder(packets.Keys) == keys && keys != [] && keys[0] == 1
            && (forall k :: k in keys ==> k in packets)
            && Assembled(packets, keys, true) == Some(Flatten(pieces))
  {
    hide DataInBuffer, DataOf, AllData, KeyOrder;
    HeldIds(packets, pieces, PACKAGE_POS);
    AllDataIsRest(packets, pieces, 1);
    assert pieces[0..] == pieces;
  }

  /** So does a map with the only packet of a file that needs no package bit. */
  lemma SinglePacketAssembles(packets: map<Word, Packet>, pieces: seq<seq<Byte>>)
    requires Holds(packets, pieces, NOPACKAGE_POS) && packets.Keys != {} && |pieces| <= 1
    ensures 1 in packets && Assembled(packets, [1], false) == Some(Flatten(pieces))
    ensures |pieces| == 1 && KeyOrder(packets.Keys) == [1]
  {
    hide DataInBuffer, DataOf, AllData, KeyOrder;
    var k :| k in packets;
    assert packets.Keys == {1};
    HeldIds(packets, pieces, NOPACKAGE_POS);
    assert |packets| == |packets.Keys| == 1;
    assert UpTo(1, 1) == [1] + UpTo(2, 1);
    assert pieces[1..] == [] && pieces[0] + [] == pieces[0];
  }

  // ---- Genuine packets --------------------------------------------------------------

  /** The packet map holds nothing but packets of the job, each under its own number. */
  ghost predicate Genuine(j: Job, packets: map<Word, Packet>)
    requires Sendable(j)
  {
    forall k :: k in packets ==> IsPacket(j, k) && Carries(packets[k], ContentAt(j, k))
  }

  ghost predicate GenuineSession(j: Job, s: Session)
    requires Sendable(j)
  {
    s.Active? ==> Genuine(j, s.packets)
  }

  /** Whatever was written is the file, under its kind and version. */
  ghost predicate OnlyTheFile(j: Job, outputs: seq<Output>) {
    forall i :: 0 <= i < |outputs| && outputs[i].FileWritten? ==>
                  outputs[i] == FileWritten(j.kind, j.version, j.file)
  }

  /** Where the bodies of the job's packets start. */
  function Pos(j: Job): (at: nat)
    requires |j.version| <= MAX_VERSION
    ensures at <= PACKAGE_POS
  {
    if Declared(j) > 1 then PACKAGE_POS else NOPACKAGE_POS
  }

  /** What the receiver makes of any buffer with packet k in it. */
  ghost predicate Shows(j: Job, k: nat, p: Packet)
    requires |j.version| <= MAX_VERSION
  {
    && IsPacket(j, k) && Sized(p)
    && IdOf(p) == DOWN_UPGRADEPACKAGE && FlowOf(p) == FlowAt(j, k)
    && Total(p) == (if Declared(j) > 1 then Declared(j) else 0)
    && (if Total(p) != 0 then Sequence(p) else 1) == k
    && (PackagedOf(p) <==> Declared(j) > 1)
    && KindOf(p, Pos(j)) == j.kind && VersionOf(p, Pos(j)) == j.version
    && DataInBuffer(p, Pos(j)) && DataOf(p, Pos(j)) == Pieces(j)[k - 1]
  }

  lemma GenuineShows(j: Job, k: nat, p: Packet)
    requires Sendable(j) && IsPacket(j, k) && Carries(p, ContentAt(j, k))
    ensures Shows(j, k, p)
  {
    hide ContentAt, KindOf, VersionOf, DataOf, DataInBuffer, IdOf, FlowOf, TotalOf, SequenceOf, PackagedOf, Chunks;
    PacketReadBack(j, k, p);
    DeclaredVersusSent(j);
  }

  lemma GenuineHolds(j: Job, packets: map<Word, Packet>)
    requires Sendable(j) && Genuine(j, packets)
    ensures Holds(packets, Pieces(j), Pos(j))
  {
    hide Carries, ContentAt, KindOf, VersionOf, DataOf, DataInBuffer, IdOf, FlowOf, TotalOf, SequenceOf, Chunks, Declared;
    forall k | k in packets
      ensures Shows(j, k, packets[k])
    {
      GenuineShows(j, k, packets[k]);
    }
  }

  /** The complete branch on genuine packets writes the file, or refuses its kind. */
  lemma AssembleGenuine(j: Job, s: Session, p: Packet, k: nat, ack: Output)
    requires Sendable(j) && Well(s) && s.Active? && s.packets.Keys != {} && Genuine(j, s.packets)
    requires Shows(j, k, p)
    requires Total(p) == 0 || |s.packets| == Total(p)
    ensures Assemble(s, p, ack)
         == if KnownKind(j.kind)
            then Next(if Total(p) != 0 then Idle else s, [ack, FileWritten(j.kind, j.version, j.file)])
            else Next(s, [ack, Ack(FlowOf(p), IdOf(p), NOT_SUPPORT)])
  {
    hide Carries, ContentAt, KindOf, VersionOf, DataOf, DataInBuffer, IdOf, FlowOf, Chunks, Declared, Ascending, UpTo,
         AllData, Total, Sequence, PackagedOf, Flatten;
    GenuineHolds(j, s.packets);
    HeldIds(s.packets, Pieces(j), Pos(j));
    DeclaredVersusSent(j);
    ChunksCoverFile(j.file, MaxData(j));
    if Declared(j) > 1 {
      FullMapAssembles(s.packets, Pieces(j));
    } else {
      assert |j.file| < MaxData(j);
      PieceOfSmallFile(j);
      SinglePacketAssembles(s.packets, Pieces(j));
    }
    GenuineShows(j, 1, s.packets[1]);
  }

  lemma PieceOfSmallFile(j: Job)
    requires |j.version| <= MAX_VERSION && |j.file| < MaxData(j)
    ensures |Pieces(j)| <= 1
  {
  }

  /** One intact packet keeps the map genuine, and if it completes the transfer, what is
      written is the file. */
  lemma IntactStep(j: Job, s: Session, k: nat)
    requires Sendable(j) && IsPacket(j, k) && Well(s) && GenuineSession(j, s)
    ensures var o := Step(s, Parse(FrameAt(j, k)));
            o.Next? ==> GenuineSession(j, o.session) && OnlyTheFile(j, o.outputs)
  {
    hide Parse, FrameAt, ContentAt, CheckPasses, Carries, KindOf, VersionOf, DataOf, DataInBuffer, IdOf, FlowOf, Chunks,
         Declared, Ascending, Assemble, Gaps, Total, Sequence, PackagedOf, KeyOrder;
    var p := Parse(FrameAt(j, k));
    FrameArrives(j, k);
    GenuineShows(j, k, p);
    var s1 := Opened(s, p);
    if s1.Active? {
      var packets := Stored(s1, p);
      assert Genuine(j, packets);
      assert k in packets.Keys;
      var s2 := Active(packets, RemoveFirst(s1.ids, Sequence(p)), s1.firstFlow);
      if Total(p) == 0 || |packets| == Total(p) {
        AssembleGenuine(j, s2, p, k, Ack(FlowOf(p), IdOf(p), SUCCESS));
      }
    }
  }

  /** A damaged frame never enters the map and never completes anything. */
  lemma DamagedStep(j: Job, s: Session, text: seq<Byte>)
    requires Sendable(j) && Possible(j, Damaged(text)) && Well(s) && GenuineSession(j, s)
    ensures var o := Step(s, Parse(Delimited(text)));
            o.Next? ==> (o.session.Active? ==> o.session.packets == if s.Active? then s.packets else map[])
                        && (o.session.Idle? ==> s.Idle?) && OnlyTheFile(j, o.outputs)
  {
    hide Parse, CheckPasses, Accept, IdOf, FlowOf, Total, Sequence, Checked;
    DamageIsSeen(text);
  }

  lemma ArrivalStep(j: Job, s: Session, a: Arrival)
    requires Sendable(j) && Possible(j, a) && Well(s) && GenuineSession(j, s)
    ensures var o := Step(s, Parse(Frame(j, a)));
            o.Next? ==> GenuineSession(j, o.session) && OnlyTheFile(j, o.outputs)
  {
    hide Parse, Step, Carries, Checked, ContentAt, Chunks;
    match a
    case Intact(k) =>
      IntactStep(j, s, k);
      assert Frame(j, a) == FrameAt(j, k);
    case Damaged(text) =>
      DamagedStep(j, s, text);
      assert Frame(j, a) == Delimited(text);
  }

  /** Safety: in every run from a clean terminal, with packets in any order, repeated,
      missing or damaged, the map holds only genuine packets, and every file ever written is
      the file that was sent, whole. */
  lemma {:induction false} RunIsSafe(j: Job, s: Session, run: seq<Arrival>)
    requires Sendable(j) && AllPossible(j, run) && Well(s) && GenuineSession(j, s)
    ensures var o := Run(s, j, run);
            o.Next? ==> GenuineSession(j, o.session) && OnlyTheFile(j, o.outputs)
    decreases |run|
  {
    hide Parse, Frame, Step, Possible, Genuine;
    if run != [] {
      ArrivalStep(j, s, run[0]);
      var o := Step(s, Parse(Frame(j, run[0])));
      if o.Next? {
        RunIsSafe(j, o.session, run[1..]);
      }
    }
  }
}
