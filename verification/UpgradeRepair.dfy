/** A lost packet asked for and resent, both sides: the request as a frame, the service's
    loop, and the terminal's answers to what the service resends. */
module UpgradeRepair {
  import opened Bytes
  import opened IdSets
  import opened Messages
  import opened ResendWire
  import opened UpgradeCompletion
  import opened UpgradeDialogue
  import opened UpgradeJob
  import opened UpgradeRecovery
  import opened UpgradeService
  import opened UpgradeTerminal
  import opened UpgradeTransfer
  import opened UpgradeWire

  predicate AllSuccesses(inbox: seq<Event>) {
    forall i :: 0 <= i < |inbox| ==> IsSuccessAck(inbox[i])
  }

  lemma {:induction false} CountSuccesses(inbox: seq<Event>)
    requires AllSuccesses(inbox)
    ensures Successes(inbox) == AcksIn(inbox) == |inbox|
  {
    if inbox != [] {
      assert IsSuccessAck(inbox[0]);
      CountSuccesses(inbox[1..]);
    }
  }

  /** The pass after the request, with as many successes as ids to come. */
  lemma RepairPass(l: Link, total: Word, packets: map<Word, seq<Byte>>)
    requires total != 0 && l.open && StrictlyAscending(l.ids) && forall i :: 0 <= i < |l.ids| ==> l.ids[i] in packets
    requires AllSuccesses(l.inbox) && |l.inbox| == |l.ids|
    ensures (AscendingIndices(packets.Keys);
             Merge(l, total, KeyOrder(packets.Keys), packets)
             == Link(true, (l.success + |l.ids|) % 0x1_0000, [], [], l.sent + Frames(packets, l.ids)))
  {
    hide KeyOrder, Merge, Frames, Successes, AcksIn, Matched;
    AscendingIndices(packets.Keys);
    var keys, n := KeyOrder(packets.Keys), |l.ids|;
    CountSuccesses(l.inbox);
    MissingMatchesWholly(packets.Keys, l.ids);
    MergeSendsMatched(l, total, keys, packets);
    AfterMerge(l, total, keys, packets);
    var m := Merge(l, total, keys, packets);
    assert l.ids[..n] == l.ids && l.ids[n..] == [];
    assert AllSuccesses(m.inbox);
    CountSuccesses(m.inbox);
    assert l.inbox[..n] == l.inbox;
  }

  /** The loop of calls over a request, a receive that times out, and the successes. */
  lemma RepairLoop(l: Link, total: Word, packets: map<Word, seq<Byte>>, ids: seq<Word>, replies: seq<Event>)
    requires total != 0 && l.open && l.ids == [] && l.inbox == [Arrived(ResendList(ids)), Quiet] + replies
    requires ids != [] && StrictlyAscending(ids) && forall i :: 0 <= i < |ids| ==> ids[i] in packets
    requires AllSuccesses(replies) && |replies| == |ids| && l.success != total
    ensures Finish(l, total, packets)
         == Ending(Link(false, (l.success + |ids|) % 0x1_0000, [], [],
                        l.sent + [ResendAcknowledged] + Frames(packets, ids)), false)
  {
    hide KeyOrder, Merge, Frames, AllSuccesses, StrictlyAscending;
    assert l.inbox[0] == Arrived(ResendList(ids));
    assert [] + ids == ids;
    var l1 := Serve(l, total, packets);
    assert l1 == Link(true, l.success, ids, l.inbox[1..], l.sent + [ResendAcknowledged]);
    assert l1.inbox[0] == Quiet && l1.inbox[1..] == replies;
    var l2 := Take(l1, total);
    assert l2 == l1.(inbox := replies);
    RepairPass(l2, total, packets);
    AscendingIndices(packets.Keys);
    var m := Merge(l2, total, KeyOrder(packets.Keys), packets);
    assert Serve(l1, total, packets) == Serve(m, total, packets) == m.(open := false);
  }

  /** The terminal's answers to the listed packets are one success each. */
  lemma {:induction false} AcksAreSuccesses(acks: seq<Output>)
    requires OnlyAcks(acks)
    ensures |Replies(acks)| == |acks| && AllSuccesses(Replies(acks))
  {
    if acks != [] {
      assert IsSuccess(acks[0]);
      AcksAreSuccesses(acks[1..]);
    }
  }

  lemma {:induction false} RepliesThenFile(acks: seq<Output>, file: Output)
    requires OnlyAcks(acks) && file.FileWritten?
    ensures Replies(acks + [file]) == Replies(acks)
  {
    if acks == [] {
      assert acks + [file] == [file] && [file][1..] == [];
    } else {
      assert (acks + [file])[1..] == acks[1..] + [file];
      RepliesThenFile(acks[1..], file);
    }
  }

  lemma RepliesToListed(j: Job, outputs: seq<Output>)
    requires FileAtTheEnd(j, outputs)
    ensures |Replies(outputs)| == |outputs| - 1 && AllSuccesses(Replies(outputs))
  {
    hide Replies, AllSuccesses;
    var n := |outputs| - 1;
    assert outputs[..n] + [outputs[n]] == outputs;
    AcksAreSuccesses(outputs[..n]);
    RepliesThenFile(outputs[..n], outputs[n]);
  }

  /** The frame of a request that arrives whole: as meant, or as written where the cut does
      no harm, as for a single lost packet. */
  predicate ArrivesWhole(request: seq<Byte>, phone: seq<Byte>, flow: Word, firstFlow: Word, ids: seq<Word>) {
    && |phone| == 6
    && ((|ids| <= 255 && request == AsMeant(phone, flow, firstFlow, ids))
        || (|ids| <= MAX_IDS && request == AsWritten(phone, flow, firstFlow, ids)
            && |request| <= MAX_FRAME
            && if |ids| <= 4 then SurvivesCut(ids) else |ids| < 0x100 && LongSurvivesCut(ids, request)))
  }

  lemma RequestRead(j: Job, s: Session, request: seq<Byte>, phone: seq<Byte>, flow: Word)
    requires Proper(j) && Inv(j, s) && s.Active? && s.ids != []
    requires ArrivesWhole(request, phone, flow, s.firstFlow, s.ids)
    ensures 0 < |request| <= MAX_FRAME && Requested(Parse(request)) == s.ids
  {
    hide Inv, Parse, Requested, AsMeant, AsWritten, SurvivesCut, LongSurvivesCut;
    RequestReachesService(j, s, phone, flow);
  }

  /** The list is asked for and its packets resent: the file is complete at the terminal, the
      service has sent exactly these packets and counted their answers, and has closed the
      connection without seeing completion. */
  ghost predicate RepairedUnseen(j: Job, s: Session, l: Link, request: seq<Byte>)
    requires Proper(j) && Well(s) && s.Active? && InRange(j, s.ids) && 0 < |request| <= MAX_FRAME
  {
    var o, n, packets := Deliver(j, s, s.ids), |s.ids|, PacketMap(j, Count(j));
    var asked := Arrived(ResendList(Requested(Parse(request))));
    && o.Next? && o.session == Idle && FileAtTheEnd(j, o.outputs)
    && (forall i :: 0 <= i < n ==> s.ids[i] in packets && packets[s.ids[i]] == FrameAt(j, s.ids[i]))
    && Finish(l.(inbox := [asked, Quiet] + Replies(o.outputs)), Declared(j), packets)
       == Ending(Link(false, (l.success + n) % 0x1_0000, [], [],
                      l.sent + [ResendAcknowledged] + Frames(packets, s.ids)), false)
  }

  /** A repair from end to end.  The terminal waits with a list of missing packets; its
      request reaches the service; the service resends exactly those packets; they complete the
      file at the terminal; its answers are all counted.  And yet the service never sees
      completion, not even when the counter has reached the total. */
  lemma RepairSucceedsUnseen(j: Job, s: Session, l: Link, request: seq<Byte>, phone: seq<Byte>, flow: Word)
    requires Proper(j) && Inv(j, s) && s.Active? && s.ids != []
    requires ArrivesWhole(request, phone, flow, s.firstFlow, s.ids)
    requires l.open && l.ids == [] && l.success != Declared(j)
    ensures Well(s) && InRange(j, s.ids) && 0 < |request| <= MAX_FRAME
    ensures RepairedUnseen(j, s, l, request)
  {
    hide Inv, Deliver, Parse, Requested, ArrivesWhole, FrameAt, PacketMap, Count, Declared, Finish,
         Frames, Replies, FileAtTheEnd, AllSuccesses;
    WellOf(j, s);
    ListedPacketsComplete(j, s);
    ListAndMapShareTheIds(j, s);
    RequestRead(j, s, request, phone, flow);
    DeclaresSomething(j);
    var packets := PacketMap(j, Count(j));
    forall i | 0 <= i < |s.ids|
      ensures s.ids[i] in packets && packets[s.ids[i]] == FrameAt(j, s.ids[i])
    {
      PacketMapHasAll(j, s.ids[i]);
    }
    var replies := Replies(Deliver(j, s, s.ids).outputs);
    RepliesToListed(j, Deliver(j, s, s.ids).outputs);
    RepairLoop(l.(inbox := [Arrived(ResendList(s.ids)), Quiet] + replies), Declared(j), packets, s.ids, replies);
  }

  // ---- A list of any shape ----------------------------------------------------------

  /** A pass whose packets are answered one by one; what comes later is left alone. */
  lemma {:induction false} MergeAnswered(l: Link, total: Word, keys: seq<Word>, packets: map<Word, seq<Byte>>,
                                         answers: seq<Event>, later: seq<Event>)
    requires total != 0 && l.open && forall i :: 0 <= i < |keys| ==> keys[i] in packets
    requires l.inbox == answers + later && AllSuccesses(answers) && |answers| == Matched(keys, l.ids)
    ensures forall i :: 0 <= i < Matched(keys, l.ids) ==> l.ids[i] in packets
    ensures var n := Matched(keys, l.ids);
            Merge(l, total, keys, packets)
            == Link(true, (l.success + n) % 0x1_0000, l.ids[n..], later, l.sent + Frames(packets, l.ids[..n]))
    decreases |keys|
  {
    hide Frames, AllSuccesses;
    if keys == [] || l.ids == [] {
      NothingSent(l, packets, answers, later);
    } else if keys[0] != l.ids[0] {
      MergeAnswered(l, total, keys[1..], packets, answers, later);
    } else {
      FirstAnswer(answers, later);
      var l0 := l.(sent := l.sent + [PacketSent(packets[keys[0]])]);
      var l1 := Take(l0, total);
      assert Await(l0, total) == l1 == l0.(inbox := answers[1..] + later, success := (l.success + 1) % 0x1_0000);
      MergeAnswered(l1.(ids := l1.ids[1..]), total, keys[1..], packets, answers[1..], later);
      FramesOfFront(packets, l.ids, Matched(keys[1..], l.ids[1..]), l.sent);
      CountedOnce(l.success, Matched(keys[1..], l.ids[1..]));
    }
  }

  lemma CountedOnce(a: nat, n: nat)
    ensures ((a + 1) % 0x1_0000 + n) % 0x1_0000 == (a + (n + 1)) % 0x1_0000
  {
  }

  lemma NothingSent(l: Link, packets: map<Word, seq<Byte>>, answers: seq<Event>, later: seq<Event>)
    requires l.inbox == answers + later && answers == []
    ensures l.inbox == later && l.ids[0..] == l.ids && l.sent + Frames(packets, l.ids[..0]) == l.sent
  {
    assert Frames(packets, l.ids[..0]) == [];
  }

  lemma FirstAnswer(answers: seq<Event>, later: seq<Event>)
    requires answers != [] && AllSuccesses(answers)
    ensures (answers + later)[0] == answers[0] && IsSuccessAck(answers[0])
    ensures (answers + later)[1..] == answers[1..] + later && AllSuccesses(answers[1..])
  {
  }

  predicate AllIn(ids: seq<Word>, s: set<Word>) {
    forall i :: 0 <= i < |ids| ==> ids[i] in s
  }

  /** The list after so many passes. */
  function Left(s: set<Word>, ids: seq<Word>, passes: nat): (left: seq<Word>)
    requires AllIn(ids, s)
    ensures |left| <= |ids| && left == ids[|ids| - |left|..]
    decreases passes
  {
    if passes == 0 || ids == [] then ids else Left(s, ids[OnePass(s, ids)..], passes - 1)
  }

  /** An empty list takes no pass, and each pass takes one ascending stretch. */
  lemma {:induction false} NothingLeftExactlyWhen(s: set<Word>, ids: seq<Word>, passes: nat)
    requires AllIn(ids, s)
    ensures Left(s, ids, passes) == [] <==> ids == [] || passes > Descents(ids)
    decreases passes
  {
    hide KeyOrder, OnePass, Descents;
    PassesAreAscendingRuns(s, ids);
    if passes > 0 && ids != [] {
      NothingLeftExactlyWhen(s, ids[OnePass(s, ids)..], passes - 1);
      PassesAreAscendingRuns(s, ids[OnePass(s, ids)..]);
    }
  }

  function Successful(n: nat): (answers: seq<Event>)
    ensures |answers| == n && AllSuccesses(answers)
  {
    seq(n, _ => Arrived(Response(DOWN_UPGRADEPACKAGE, 0)))
  }

  /** An inbox for so many passes: a receive that times out, and an answer to every packet of
      the pass. */
  function Schedule(s: set<Word>, ids: seq<Word>, passes: nat): seq<Event>
    requires AllIn(ids, s)
    decreases passes
  {
    if passes == 0 then []
    else
      var n := if ids == [] then 0 else OnePass(s, ids);
      [Quiet] + (Successful(n) + Schedule(s, ids[n..], passes - 1))
  }

  /** The closed link when all but these ids of the list have been resent and answered. */
  function Served(l: Link, packets: map<Word, seq<Byte>>, left: seq<Word>): Link
    requires AllIn(l.ids, packets.Keys) && |left| <= |l.ids|
  {
    var n := |l.ids| - |left|;
    Link(false, (l.success + n) % 0x1_0000, left, [], l.sent + Frames(packets, l.ids[..n]))
  }

  /** What the service does with a list of any shape: in each pass it resends the ascending
      front of what is left, and the list is empty exactly after more passes than it has
      descents. */
  lemma {:induction false} ServeTakesPasses(l: Link, total: Word, packets: map<Word, seq<Byte>>, passes: nat)
    requires total != 0 && l.open && AllIn(l.ids, packets.Keys)
    requires l.inbox == Schedule(packets.Keys, l.ids, passes)
    ensures Serve(l, total, packets) == Served(l, packets, Left(packets.Keys, l.ids, passes))
    ensures Left(packets.Keys, l.ids, passes) == [] <==> l.ids == [] || passes > Descents(l.ids)
    decreases passes
  {
    hide KeyOrder, Serve, OnePass, Descents, Left, AllIn, Served, Schedule;
    NothingLeftExactlyWhen(packets.Keys, l.ids, passes);
    if passes == 0 {
      ClosedAtOnce(l, total, packets);
    } else {
      var n, m := PassStep(l, total, packets, passes);
      ServeTakesPasses(m, total, packets, passes - 1);
      LeftOnce(packets.Keys, l.ids, passes);
      PassesJoin(l, m, n, Left(packets.Keys, m.ids, passes - 1), packets);
    }
  }

  lemma PassesJoin(l: Link, m: Link, n: nat, left: seq<Word>, packets: map<Word, seq<Byte>>)
    requires n <= |l.ids| && AllIn(l.ids, packets.Keys) && m.ids == l.ids[n..] && |left| <= |m.ids|
    requires m.sent == l.sent + Frames(packets, l.ids[..n]) && m.success == (l.success + n) % 0x1_0000
    requires AllIn(m.ids, packets.Keys)
    ensures Served(m, packets, left) == Served(l, packets, left)
  {
    hide Frames;
    var k := |m.ids| - |left|;
    TwoStretches(packets, l.ids, n, k, l.sent);
    CountedTwice(l.success, n, k);
  }

  lemma ClosedAtOnce(l: Link, total: Word, packets: map<Word, seq<Byte>>)
    requires l.open && AllIn(l.ids, packets.Keys) && l.inbox == Schedule(packets.Keys, l.ids, 0)
    ensures Serve(l, total, packets) == Served(l, packets, Left(packets.Keys, l.ids, 0))
  {
    assert Frames(packets, l.ids[..0]) == [];
  }

  lemma LeftOnce(s: set<Word>, ids: seq<Word>, passes: nat)
    requires AllIn(ids, s) && passes > 0
    ensures var n := if ids == [] then 0 else OnePass(s, ids);
            AllIn(ids[n..], s) && Left(s, ids, passes) == Left(s, ids[n..], passes - 1)
  {
    hide KeyOrder, OnePass;
    if ids == [] {
      assert ids[0..] == [];
    }
  }

  /** The first of several passes. */
  lemma PassStep(l: Link, total: Word, packets: map<Word, seq<Byte>>, passes: nat) returns (n: nat, m: Link)
    requires total != 0 && l.open && AllIn(l.ids, packets.Keys) && passes > 0
    requires l.inbox == Schedule(packets.Keys, l.ids, passes)
    ensures n == if l.ids == [] then 0 else OnePass(packets.Keys, l.ids)
    ensures n <= |l.ids| && AllIn(l.ids[..n], packets.Keys) && AllIn(l.ids[n..], packets.Keys)
    ensures m == Link(true, (l.success + n) % 0x1_0000, l.ids[n..], Schedule(packets.Keys, l.ids[n..], passes - 1),
                      l.sent + Frames(packets, l.ids[..n]))
    ensures Serve(l, total, packets) == Serve(m, total, packets)
  {
    hide KeyOrder, Merge, Frames, OnePass;
    n := if l.ids == [] then 0 else OnePass(packets.Keys, l.ids);
    var later := Schedule(packets.Keys, l.ids[n..], passes - 1);
    AscendingIndices(packets.Keys);
    var l1 := Take(l, total);
    assert l.inbox[1..] == Successful(n) + later;
    OnePassIs(packets.Keys, l.ids);
    MergeAnswered(l1, total, KeyOrder(packets.Keys), packets, Successful(n), later);
    m := Merge(l1, total, KeyOrder(packets.Keys), packets);
  }

  lemma OnePassIs(s: set<Word>, ids: seq<Word>)
    requires AllIn(ids, s)
    ensures Matched(KeyOrder(s), ids) == if ids == [] then 0 else OnePass(s, ids)
  {
  }

  lemma TwoStretches(packets: map<Word, seq<Byte>>, ids: seq<Word>, n: nat, m: nat, sent: seq<Sent>)
    requires n + m <= |ids| && AllIn(ids, packets.Keys)
    ensures sent + Frames(packets, ids[..n]) + Frames(packets, ids[n..][..m]) == sent + Frames(packets, ids[..n + m])
  {
    assert Frames(packets, ids[..n + m]) == Frames(packets, ids[..n]) + Frames(packets, ids[n..][..m]);
  }
}
