/** A session that is still open: what it holds stays, whatever comes, also when the packets of
    another upgrade come into it. */
module UpgradeHeld {
  import opened Bytes
  import opened IdSets
  import opened Messages
  import opened UpgradeDamage
  import opened UpgradeJob
  import opened UpgradeLimits
  import opened UpgradeMended
  import opened UpgradeRecovery
  import opened UpgradeSafety
  import opened UpgradeTerminal
  import opened UpgradeWire
  import opened Wrappers

  // ---- One frame --------------------------------------------------------------------

  /** The number a packet is kept under. */
  function KeptUnder(p: Packet): Word
    requires Sized(p)
  {
    if PackagedOf(p) && TotalOf(p) != 0 then SequenceOf(p) else 1
  }

  /** A number that is held keeps the packet that came first, any other number gets the one
      that comes now, if its check passes; a frame of another id changes nothing. */
  lemma FirstPacketStays(s: Session, p: Packet)
    requires Sized(p) && Well(s)
    ensures WordAt(p.buffer, 1) != 0x8108 ==> Step(s, p) == Next(s, [])
    ensures var o := Step(s, p);
            s.Active? && o.Next? && o.session.Active? ==>
              && (KeptUnder(p) in s.packets ==> o.session.packets == s.packets)
              && (KeptUnder(p) !in s.packets ==>
                    o.session.packets
                    == if IdOf(p) == DOWN_UPGRADEPACKAGE && CheckPasses(p) then s.packets[KeptUnder(p) := p]
                       else s.packets)
  {
    hide CheckPasses, WordAt, PackagedOf, KindOf, VersionOf, Assembled, KeyOrder;
  }

  /** All that one whole packet does in an open session, by the words at bytes 13 and 15: it is
      acknowledged and counted; if it is the one awaited, the last of the list or else of the
      file, and the map is not full, what is left of the list is asked for, or everything missing
      if nothing is left of it; and without a total, or with a full map, the file is due. */
  lemma WholePacket(s: Session, p: Packet)
    requires Sized(p) && p.size >= 3 && Well(s) && s.Active? && WordAt(p.buffer, 1) == 0x8108 && CheckPasses(p)
    ensures var many := WordAt(p.buffer, 3) % 0x4000 >= 0x2000;
            var total: Word, number: Word := if many then WordAt(p.buffer, 13) else 0,
                                             if many then WordAt(p.buffer, 15) else 0;
            var keys, left := s.packets.Keys + {KeptUnder(p)}, RemoveFirst(s.ids, number);
            var awaited := if s.ids == [] then total else s.ids[|s.ids| - 1];
            var ids := if left != [] then left
                       else if 0 in keys then UpTo(1, total) else Missing(keys, total);
            var ack, o := Ack(WordAt(p.buffer, 11), 0x8108, 0), Step(s, p);
            if awaited == number && |keys| != total as int then
              if left == [] && total == 0xFFFF then o == Fault
              else
                o.Next? && o.session.Active? && o.session.packets.Keys == keys && o.session.ids == ids
                && o.outputs == [ack, ResendRequest(s.firstFlow, ids)]
            else if total != 0 && |keys| != total as int then
              o.Next? && o.session.Active? && o.session.packets.Keys == keys && o.session.ids == left
              && o.outputs == [ack]
            else
              o.Next? ==> |o.outputs| == 2 && o.outputs[0] == ack && !o.outputs[1].ResendRequest?
                          && (o.outputs[1].FileWritten? && total != 0 <==> o.session.Idle?)
  {
    hide WordAt, CheckPasses, KindOf, VersionOf, Assembled, KeyOrder, Gaps, Missing, UpTo, RemoveFirst, Total,
         Sequence, IdOf, FlowOf, PackagedOf, KeptUnder;
    ReadAs(p);
    var keys := s.packets.Keys + {KeptUnder(p)};
    assert Stored(s, p).Keys == keys && |Stored(s, p)| == |keys|;
    GapsExactly(keys, Total(p));
  }

  lemma ReadAs(p: Packet)
    requires Sized(p)
    ensures PackagedOf(p) <==> WordAt(p.buffer, 3) % 0x4000 >= 0x2000
    ensures Total(p) == (if PackagedOf(p) then WordAt(p.buffer, 13) else 0)
    ensures Sequence(p) == (if PackagedOf(p) then WordAt(p.buffer, 15) else 0)
    ensures KeptUnder(p) == (if Total(p) != 0 then Sequence(p) else 1)
    ensures IdOf(p) == WordAt(p.buffer, 1) && FlowOf(p) == WordAt(p.buffer, 11)
  {
    hide WordAt;
    PackageBit(WordAt(p.buffer, 3));
  }

  // ---- Any frames -------------------------------------------------------------------

  predicate Receivable(frames: seq<seq<Byte>>) {
    forall i :: 0 <= i < |frames| ==> 0 < |frames[i]| <= MAX_FRAME
  }

  /** The session after these frames, as long as it stays open. */
  function Through(s: Session, frames: seq<seq<Byte>>): (r: Option<Session>)
    requires Well(s) && Receivable(frames)
    ensures r.Some? ==> Well(r.value)
    decreases |frames|
  {
    if s.Idle? then None
    else if frames == [] then Some(s)
    else
      var o := Step(s, Parse(frames[0]));
      if o.Fault? then None else Through(o.session, frames[1..])
  }

  /** Whatever frames come, a packet that is held is held until the session ends. */
  lemma {:induction false} HeldUntilTheEnd(s: Session, frames: seq<seq<Byte>>)
    requires Well(s) && Receivable(frames) && s.Active?
    ensures var r := Through(s, frames);
            r.Some? ==> r.value.Active? && forall k :: k in s.packets ==> k in r.value.packets
                                                                          && r.value.packets[k] == s.packets[k]
    decreases |frames|
  {
    hide Step, Parse, KeptUnder;
    if frames != [] {
      FirstPacketStays(s, Parse(frames[0]));
      var o := Step(s, Parse(frames[0]));
      if o.Next? && o.session.Active? {
        HeldUntilTheEnd(o.session, frames[1..]);
      }
    }
  }

  // ---- Another upgrade in the same session ------------------------------------------

  /** Packets of job a for the numbers in h, and of job b for the others. */
  ghost predicate Mixed(a: Job, b: Job, h: set<Word>, packets: map<Word, Packet>)
    requires Proper(a) && Proper(b)
  {
    && h <= packets.Keys
    && forall k :: k in packets ==>
                     1 <= k <= Count(a) && 1 <= k <= Count(b)
                     && Carries(packets[k], if k in h then ContentAt(a, k) else ContentAt(b, k))
  }

  /** The pieces of a for the numbers in h, and of b for the others. */
  function MixedPieces(a: Job, b: Job, h: set<Word>): (pieces: seq<seq<Byte>>)
    requires Proper(a) && Proper(b) && Count(a) == Count(b)
    ensures |pieces| == Count(b)
    ensures forall i :: 0 <= i < |pieces| ==> pieces[i] == if (i + 1) as Word in h then Pieces(a)[i] else Pieces(b)[i]
  {
    seq(Count(b), i requires 0 <= i < Count(b) => if (i + 1) as Word in h then Pieces(a)[i] else Pieces(b)[i])
  }

  /** Whose packet 1 is kept: the kind and the version of the file are taken from it. */
  function FirstJob(a: Job, b: Job, h: set<Word>): Job {
    if 1 in h then a else b
  }

  function MixedFile(a: Job, b: Job, h: set<Word>): Output
    requires Proper(a) && Proper(b) && Count(a) == Count(b)
  {
    FileWritten(FirstJob(a, b, h).kind, FirstJob(a, b, h).version, Flatten(MixedPieces(a, b, h)))
  }

  lemma MixedHolds(a: Job, b: Job, h: set<Word>, packets: map<Word, Packet>)
    requires Proper(a) && Proper(b) && Count(a) == Count(b) && Mixed(a, b, h, packets)
    ensures Holds(packets, MixedPieces(a, b, h), PACKAGE_POS)
  {
    hide Carries, ContentAt, KindOf, VersionOf, DataOf, DataInBuffer, IdOf, FlowOf, TotalOf, SequenceOf, Chunks, Declared;
    forall k | k in packets
      ensures Shows(if k in h then a else b, k, packets[k])
    {
      GenuineShows(if k in h then a else b, k, packets[k]);
    }
    var n := Count(a);
  }

  /** A full map of packets of both writes the pieces of both. */
  lemma AssembleMixed(a: Job, b: Job, h: set<Word>, s: Session, p: Packet, ack: Output)
    requires Proper(a) && Proper(b) && Count(a) == Count(b) && s.Active? && Well(s) && Sized(p)
    requires Mixed(a, b, h, s.packets) && |s.packets| == Count(b) == Total(p)
    ensures Assemble(s, p, ack) == Next(Idle, [ack, MixedFile(a, b, h)])
  {
    hide Carries, ContentAt, KindOf, VersionOf, DataOf, DataInBuffer, IdOf, FlowOf, Chunks, Declared, Ascending, UpTo,
         AllData, Total, Flatten, MixedPieces, KnownKind;
    MixedHolds(a, b, h, s.packets);
    FullMapAssembles(s.packets, MixedPieces(a, b, h));
    assert 1 in s.packets by { assert UpTo(1, Count(b))[0] in UpTo(1, Count(b)); }
    GenuineShows(FirstJob(a, b, h), 1, s.packets[1]);
  }

  /** A whole packet of the second upgrade. */
  lemma MixedAccept(a: Job, b: Job, h: set<Word>, s: Session, k: nat, p: Packet)
    requires Proper(a) && Proper(b) && Count(a) == Count(b) && s.Active? && Well(s) && Mixed(a, b, h, s.packets)
    requires Shows(b, k, p) && Carries(p, ContentAt(b, k))
    ensures var o, keys := Accept(s, p), s.packets.Keys + {k as Word};
            if |keys| == Count(b) then
              o == Next(Idle, [Ack(FlowAt(b, k), DOWN_UPGRADEPACKAGE, SUCCESS), MixedFile(a, b, h)])
            else
              o.Next? && o.session.Active? && o.session.packets.Keys == keys && Mixed(a, b, h, o.session.packets)
              && NoFile(o.outputs)
  {
    hide Carries, ContentAt, KindOf, VersionOf, DataOf, DataInBuffer, IdOf, FlowOf, Chunks, Declared, Assemble, Gaps,
         Total, Sequence, PackagedOf, KeyOrder, RemoveFirst, MixedFile;
    StoredKeys(b, s, k, p);
    var s2 := Active(Stored(s, p), RemoveFirst(s.ids, k), s.firstFlow);
    MixedStored(a, b, h, s, k, p);
    var n := Count(b);
    assert Total(p) == n && Sequence(p) == k;
    if |s2.packets| == n {
      AssembleMixed(a, b, h, s2, p, Ack(FlowOf(p), IdOf(p), SUCCESS));
    }
  }

  lemma MixedStored(a: Job, b: Job, h: set<Word>, s: Session, k: nat, p: Packet)
    requires Proper(a) && Proper(b) && Count(a) == Count(b) && s.Active? && Mixed(a, b, h, s.packets)
    requires Shows(b, k, p) && Carries(p, ContentAt(b, k))
    ensures Mixed(a, b, h, Stored(s, p))
  {
    hide Carries, ContentAt, KindOf, VersionOf, DataOf, DataInBuffer, IdOf, FlowOf, Chunks, Declared, Total, Sequence,
         PackagedOf;
    var n := Count(b);
  }

  /** The packets of the second upgrade from m on, those before it and those in h being there. */
  lemma {:induction false} SecondRun(a: Job, b: Job, h: set<Word>, s: Session, m: nat)
    requires Proper(a) && Proper(b) && Count(a) == Count(b) && s.Active? && Well(s) && Mixed(a, b, h, s.packets)
    requires 1 <= m <= Count(b) && (forall i: Word :: 1 <= i < m ==> i in s.packets) && Count(b) as Word !in s.packets
    ensures var o := Run(s, b, InOrder(b, m));
            o.Next? && o.session == Idle && OnlyAtTheEnd(o.outputs, MixedFile(a, b, h))
    decreases Count(b) - m
  {
    hide Step, Parse, FrameAt, Mixed, Genuine, MixedFile;
    SecondStep(a, b, h, s, m);
    InOrderUnfolds(s, b, m);
    var o := Step(s, Parse(FrameAt(b, m)));
    if m < Count(b) {
      SecondRun(a, b, h, o.session, m + 1);
      LaterAtTheEnd(o.outputs, Run(o.session, b, InOrder(b, m + 1)).outputs, MixedFile(a, b, h));
    }
  }

  /** This file at the end, and no file before it. */
  ghost predicate OnlyAtTheEnd(outputs: seq<Output>, file: Output) {
    |outputs| > 0 && NoFile(outputs[..|outputs| - 1]) && outputs[|outputs| - 1] == file
  }

  lemma LaterAtTheEnd(first: seq<Output>, rest: seq<Output>, file: Output)
    requires NoFile(first) && OnlyAtTheEnd(rest, file)
    ensures OnlyAtTheEnd(first + rest, file)
  {
    var all := first + rest;
    assert all[..|all| - 1] == first + rest[..|rest| - 1];
  }

  lemma InOrderUnfolds(s: Session, b: Job, m: nat)
    requires Proper(b) && Well(s) && 1 <= m <= Count(b)
    ensures var o := Step(s, Parse(FrameAt(b, m)));
            Run(s, b, InOrder(b, m))
            == if o.Fault? then Fault else if m == Count(b) then o else Then(o, Run(o.session, b, InOrder(b, m + 1)))
  {
    hide Step, Parse, FrameAt;
    assert Frame(b, Intact(m)) == FrameAt(b, m);
    assert InOrder(b, m)[1..] == InOrder(b, m + 1);
    var o := Step(s, Parse(FrameAt(b, m)));
    if o.Next? && m == Count(b) {
      assert InOrder(b, m + 1) == [];
      assert o.outputs + [] == o.outputs;
    }
  }

  lemma SecondStep(a: Job, b: Job, h: set<Word>, s: Session, m: nat)
    requires Proper(a) && Proper(b) && Count(a) == Count(b) && s.Active? && Well(s) && Mixed(a, b, h, s.packets)
    requires 1 <= m <= Count(b) && (forall i: Word :: 1 <= i < m ==> i in s.packets) && Count(b) as Word !in s.packets
    ensures var o := Step(s, Parse(FrameAt(b, m)));
            if m == Count(b) then
              o == Next(Idle, [Ack(FlowAt(b, m), DOWN_UPGRADEPACKAGE, SUCCESS), MixedFile(a, b, h)])
            else
              o.Next? && o.session.Active? && o.session.packets.Keys == s.packets.Keys + {m as Word}
              && Mixed(a, b, h, o.session.packets) && NoFile(o.outputs)
  {
    hide Parse, FrameAt, ContentAt, CheckPasses, Carries, KindOf, VersionOf, DataOf, DataInBuffer, IdOf, FlowOf,
         Chunks, Declared, Total, Sequence, PackagedOf, Accept, MixedFile;
    var p := Parse(FrameAt(b, m));
    FrameArrives(b, m);
    GenuineShows(b, m, p);
    MixedAccept(a, b, h, s, m, p);
    FullExactlyAt(s.packets.Keys, Count(b), m);
  }

  lemma FullExactlyAt(keys: set<Word>, n: nat, m: nat)
    requires 1 <= m <= n < IDS && Within(keys, n) && n as Word !in keys && forall i: Word :: 1 <= i < m ==> i in keys
    ensures |keys + {m as Word}| == n <==> m == n
  {
    hide Missing;
    PresentPlusMissing(keys + {m as Word}, n);
    MissingMembersAll(keys + {m as Word}, n);
    if m < n {
      assert n as Word in Missing(keys + {m as Word}, n);
    } else {
      assert Missing(keys + {m as Word}, n) == [];
    }
  }

  // ---- What is written --------------------------------------------------------------

  lemma {:induction false} NotLonger(p: seq<seq<Byte>>, q: seq<seq<Byte>>)
    requires |p| == |q| && forall i :: 0 <= i < |p| ==> |p[i]| <= |q[i]|
    ensures |Flatten(p)| <= |Flatten(q)|
  {
    if p != [] {
      NotLonger(p[1..], q[1..]);
    }
  }

  /** Pieces of which none is longer join to the same only if they are the same. */
  lemma {:induction false} SamePieces(p: seq<seq<Byte>>, q: seq<seq<Byte>>)
    requires |p| == |q| && (forall i :: 0 <= i < |p| ==> |p[i]| <= |q[i]|) && Flatten(p) == Flatten(q)
    ensures p == q
  {
    if p != [] {
      NotLonger(p[1..], q[1..]);
      var n := |p[0]|;
      assert Flatten(p)[..n] == p[0] && Flatten(q)[..n] == q[0];
      assert Flatten(p)[n..] == Flatten(p[1..]) && Flatten(q)[n..] == Flatten(q[1..]);
      SamePieces(p[1..], q[1..]);
    }
  }

  /** Pieces of two jobs are pieces of the second one's file exactly if those of the first are
      the same. */
  lemma MixedAgrees(a: Job, b: Job, h: set<Word>)
    requires Proper(a) && Proper(b) && Count(a) == Count(b)
    requires forall k :: k in h ==> 1 <= k < Count(b)
    ensures Flatten(MixedPieces(a, b, h)) == b.file
       <==> forall k :: k in h ==> Pieces(a)[k - 1] == Pieces(b)[k - 1]
  {
    hide Flatten, Chunks;
    var p, q := MixedPieces(a, b, h), Pieces(b);
    ChunksCoverFile(b.file, MaxData(b));
    if forall k :: k in h ==> Pieces(a)[k - 1] == Pieces(b)[k - 1] {
      assert p == q;
    }
    if Flatten(p) == b.file {
      forall i | 0 <= i < |p|
        ensures |b.version| <= |a.version| ==> |p[i]| <= |q[i]|
        ensures |a.version| <= |b.version| ==> |q[i]| <= |p[i]|
      {
        if i + 1 < |p| {
          FullChunk(a.file, MaxData(a), i);
          FullChunk(b.file, MaxData(b), i);
        }
      }
      if |b.version| <= |a.version| {
        SamePieces(p, q);
      } else {
        SamePieces(q, p);
      }
      forall k | k in h
        ensures Pieces(a)[k - 1] == Pieces(b)[k - 1]
      {
        assert p[k - 1] == q[k - 1];
      }
    }
  }

  /** A second upgrade of the same total comes into a session that a first one has left open.
      The packets that are held stay: what is written is made of the first one's pieces for
      their numbers and the second one's for the others, under the kind and version of packet
      1, and it is the second file exactly if what is held agrees with it. */
  lemma SecondUpgrade(a: Job, b: Job, s: Session)
    requires Proper(a) && Proper(b) && Declared(a) == Declared(b)
    requires s.Active? && Well(s) && Genuine(a, s.packets) && Count(b) as Word !in s.packets
    ensures Count(a) == Count(b)
    ensures var o, h := Run(s, b, InOrder(b, 1)), s.packets.Keys;
            o.Next? && o.session == Idle && OnlyAtTheEnd(o.outputs, MixedFile(a, b, h))
            && (Writes(b, o) <==>
                  && (1 in h ==> a.kind == b.kind && a.version == b.version)
                  && forall k :: k in h ==> 1 <= k <= |Pieces(a)| && 1 <= k <= |Pieces(b)|
                                            && Pieces(a)[k - 1] == Pieces(b)[k - 1])
  {
    hide Run, Carries, ContentAt, Chunks, Flatten, MixedPieces, InOrder;
    var h, n := s.packets.Keys, Count(b);
    assert Count(a) == n;
    SecondRun(a, b, h, s, 1);
    MixedAgrees(a, b, h);
    var o := Run(s, b, InOrder(b, 1));
    OneFile(o.outputs, MixedFile(a, b, h), FileWritten(b.kind, b.version, b.file));
  }

  lemma OneFile(outputs: seq<Output>, file: Output, other: Output)
    requires OnlyAtTheEnd(outputs, file) && other.FileWritten?
    ensures other in outputs <==> other == file
  {
    var n := |outputs| - 1;
    assert forall i :: 0 <= i < n ==> outputs[..n][i] == outputs[i];
  }

  /** From a clean terminal: i packets of one upgrade, and then another one whole.  The file
      begins with the first i pieces of the one and goes on with the other. */
  lemma InterruptedThenAnother(a: Job, b: Job, i: nat)
    requires Proper(a) && Proper(b) && Declared(a) == Declared(b) && 1 <= i < Count(a)
    ensures InRange(a, Numbers(1, i + 1)) && i < Count(b)
    ensures var s := Deliver(a, Idle, Numbers(1, i + 1));
            s.Next? && s.session.Active?
            && var o := Run(s.session, b, InOrder(b, 1));
               o.Next? && OnlyAtTheEnd(o.outputs, FileWritten(a.kind, a.version,
                                                              Flatten(Pieces(a)[..i] + Pieces(b)[i..])))
  {
    hide Run, Deliver, Carries, ContentAt, Chunks, Flatten, InOrder, Halfway, Genuine, MixedPieces, Declared;
    StartsHalfway(a);
    CleanRun(a, Idle, 1, i + 1);
    var s := Deliver(a, Idle, Numbers(1, i + 1)).session;
    HalfwayHolds(a, s, i + 1);
    SecondUpgrade(a, b, s);
    FrontAndBack(a, b, s.packets.Keys, i);
  }

  lemma HalfwayHolds(j: Job, s: Session, k: nat)
    requires Proper(j) && Halfway(j, s, k, []) && 1 < k <= Count(j)
    ensures s.Active? && Well(s) && Genuine(j, s.packets) && forall m :: m in s.packets.Keys <==> 1 <= m < k
  {
    hide Carries, ContentAt, Chunks, Declared, Genuine;
    forall m
      ensures m in s.packets.Keys <==> 1 <= m < k
    {
      assert m in Have(s) <==> 1 <= m < k && m !in [];
    }
  }

  lemma FrontAndBack(a: Job, b: Job, h: set<Word>, i: nat)
    requires Proper(a) && Proper(b) && Count(a) == Count(b) && 1 <= i < Count(a)
    requires forall k :: k in h <==> 1 <= k < i + 1
    ensures MixedPieces(a, b, h) == Pieces(a)[..i] + Pieces(b)[i..] && 1 in h
  {
    hide Chunks, Declared;
  }
}
