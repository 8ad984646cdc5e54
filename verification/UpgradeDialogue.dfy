/** Both sides together: what one merge pass sends, how many passes a list takes, and that
    what the service sends is what the terminal waits for. */
module UpgradeDialogue {
  import opened Bytes
  import opened IdSets
  import opened Messages
  import opened ResendWire
  import opened UpgradeJob
  import opened UpgradeLimits
  import opened UpgradeRecovery
  import opened UpgradeService
  import opened UpgradeTerminal
  import opened UpgradeWire

  // ---- One merge pass ---------------------------------------------------------------

  function AcksIn(inbox: seq<Event>): nat {
    if inbox == [] then 0 else (if IsUpgradeAck(inbox[0]) then 1 else 0) + AcksIn(inbox[1..])
  }

  predicate NoRequests(inbox: seq<Event>) {
    forall i :: 0 <= i < |inbox| ==> !IsRequest(inbox[i])
  }

  /** How many ids of the list one walk through keys matches. */
  function Matched(keys: seq<Word>, ids: seq<Word>): (n: nat)
    ensures n <= |ids|
    decreases |keys|
  {
    if keys == [] || ids == [] then 0
    else if keys[0] != ids[0] then Matched(keys[1..], ids)
    else 1 + Matched(keys[1..], ids[1..])
  }

  function Frames(packets: map<Word, seq<Byte>>, ids: seq<Word>): (f: seq<Sent>)
    requires forall i :: 0 <= i < |ids| ==> ids[i] in packets
    ensures |f| == |ids|
  {
    seq(|ids|, i requires 0 <= i < |ids| => PacketSent(packets[ids[i]]))
  }

  lemma FramesOfFront(packets: map<Word, seq<Byte>>, ids: seq<Word>, n: nat, sent: seq<Sent>)
    requires n < |ids| && ids[0] in packets && forall i :: 0 <= i < n ==> ids[1..][i] in packets
    ensures forall i :: 0 <= i < n + 1 ==> ids[i] in packets
    ensures ids[1..][n..] == ids[n + 1..]
    ensures sent + [PacketSent(packets[ids[0]])] + Frames(packets, ids[1..][..n])
         == sent + Frames(packets, ids[..n + 1])
  {
    forall i | 0 <= i < n + 1
      ensures ids[i] in packets
    {
      assert i > 0 ==> ids[i] == ids[1..][i - 1];
    }
    assert ids[..n + 1] == [ids[0]] + ids[1..][..n];
    assert Frames(packets, ids[..n + 1]) == [PacketSent(packets[ids[0]])] + Frames(packets, ids[1..][..n]);
  }

  lemma {:induction false} AwaitAnswered(l: Link, total: Word)
    requires l.open && AcksIn(l.inbox) > 0 && NoRequests(l.inbox)
    ensures var a := Await(l, total);
            a.open && a.ids == l.ids && a.sent == l.sent
            && AcksIn(a.inbox) == AcksIn(l.inbox) - 1 && NoRequests(a.inbox)
    decreases |l.inbox|
  {
    if !IsUpgradeAck(l.inbox[0]) {
      AwaitAnswered(Take(l, total), total);
    }
  }

  /** With every packet acknowledged, a pass sends the packets of the matched front of the
      list in its order and takes exactly that front off the list. */
  lemma {:induction false} MergeSendsMatched(l: Link, total: Word, keys: seq<Word>, packets: map<Word, seq<Byte>>)
    requires l.open && NoRequests(l.inbox) && AcksIn(l.inbox) >= Matched(keys, l.ids)
    requires forall i :: 0 <= i < |keys| ==> keys[i] in packets
    ensures forall i :: 0 <= i < Matched(keys, l.ids) ==> l.ids[i] in packets
    ensures var n := Matched(keys, l.ids);
            var m := Merge(l, total, keys, packets);
            m.open && m.ids == l.ids[n..] && m.sent == l.sent + Frames(packets, l.ids[..n])
            && NoRequests(m.inbox) && AcksIn(m.inbox) == AcksIn(l.inbox) - n
    decreases |keys|
  {
    hide Await, Frames, AcksIn, NoRequests;
    if keys == [] || l.ids == [] {
      assert Frames(packets, l.ids[..0]) == [];
      assert l.sent + [] == l.sent;
    } else if keys[0] != l.ids[0] {
      MergeSendsMatched(l, total, keys[1..], packets);
    } else {
      var l0 := l.(sent := l.sent + [PacketSent(packets[keys[0]])]);
      AwaitAnswered(l0, total);
      var l1 := Await(l0, total);
      var l2 := l1.(ids := l1.ids[1..]);
      MergeSendsMatched(l2, total, keys[1..], packets);
      FramesOfFront(packets, l.ids, Matched(keys[1..], l2.ids), l.sent);
    }
  }

  // ---- What is matched --------------------------------------------------------------

  /** n is the length of the longest front of ids that is strictly ascending and inside s. */
  ghost predicate LongestFront(s: set<Word>, from: nat, ids: seq<Word>, n: nat) {
    && n <= |ids|
    && StrictlyAscending(ids[..n])
    && (forall i :: 0 <= i < n ==> ids[i] in s && from <= ids[i])
    && (n < |ids| ==> ids[n] !in s || ids[n] < from || (n > 0 && ids[n] <= ids[n - 1]))
  }

  lemma FrontGrows(s: set<Word>, from: Word, ids: seq<Word>, n: nat)
    requires ids != [] && ids[0] == from && from in s
    requires LongestFront(s, from + 1, ids[1..], n)
    ensures LongestFront(s, from, ids, n + 1)
  {
    var rest := ids[1..];
    assert ids[..n + 1] == [ids[0]] + rest[..n];
    forall k | k in rest[..n]
      ensures ids[0] < k
    {
      var i :| 0 <= i < n && rest[..n][i] == k;
      assert rest[i] == k;
    }
    Prepend(ids[0], rest[..n]);
    forall i | 0 <= i < n + 1
      ensures ids[i] in s && from <= ids[i]
    {
      if i > 0 {
        assert ids[i] == rest[i - 1];
      }
    }
    if n + 1 < |ids| {
      assert ids[n + 1] == rest[n];
      assert n > 0 ==> ids[n] == rest[n - 1];
    }
  }

  lemma FrontStays(s: set<Word>, from: Word, ids: seq<Word>, n: nat)
    requires ids != [] && (ids[0] != from || from !in s)
    requires LongestFront(s, from + 1, ids, n)
    ensures LongestFront(s, from, ids, n)
  {
  }

  /** A walk over any map consumes exactly the longest strictly ascending front of the list
      whose ids are all in the map. */
  lemma {:induction false} MatchedIsLongestFront(s: set<Word>, from: nat, ids: seq<Word>)
    requires from <= IDS
    ensures LongestFront(s, from, ids, Matched(Ascending(s, from, IDS), ids))
    decreases IDS - from
  {
    hide LongestFront;
    var keys := Ascending(s, from, IDS);
    if from == IDS || ids == [] {
      NoFront(s, from, ids);
    } else if from in s && ids[0] == from {
      assert keys[0] == from && keys[1..] == Ascending(s, from + 1, IDS);
      MatchedIsLongestFront(s, from + 1, ids[1..]);
      FrontGrows(s, from, ids, Matched(keys[1..], ids[1..]));
    } else {
      assert from in s ==> keys[0] == from && keys[1..] == Ascending(s, from + 1, IDS);
      assert from !in s ==> keys == Ascending(s, from + 1, IDS);
      MatchedIsLongestFront(s, from + 1, ids);
      FrontStays(s, from, ids, Matched(Ascending(s, from + 1, IDS), ids));
    }
  }

  lemma NoFront(s: set<Word>, from: nat, ids: seq<Word>)
    requires from == IDS || ids == []
    ensures LongestFront(s, from, ids, 0)
  {
  }

  lemma OnePassTakesAscendingFront(s: set<Word>, ids: seq<Word>)
    ensures LongestFront(s, 0, ids, Matched(KeyOrder(s), ids))
    ensures ids != [] && ids[0] in s ==> Matched(KeyOrder(s), ids) > 0
  {
    hide Ascending;
    MatchedIsLongestFront(s, 0, ids);
  }

  function OnePass(s: set<Word>, ids: seq<Word>): (n: nat)
    requires ids != [] && forall i :: 0 <= i < |ids| ==> ids[i] in s
    ensures 0 < n <= |ids|
  {
    OnePassTakesAscendingFront(s, ids);
    Matched(KeyOrder(s), ids)
  }

  /** How many passes empty a list of ids that are all in the map. */
  function Passes(s: set<Word>, ids: seq<Word>): nat
    requires forall i :: 0 <= i < |ids| ==> ids[i] in s
    decreases |ids|
  {
    if ids == [] then 0 else 1 + Passes(s, ids[OnePass(s, ids)..])
  }

  /** Places where the list does not go up. */
  function Descents(ids: seq<Word>): nat {
    if |ids| < 2 then 0 else (if ids[1] <= ids[0] then 1 else 0) + Descents(ids[1..])
  }

  lemma {:induction false} DescentsBehindFront(ids: seq<Word>, n: nat)
    requires 0 < n <= |ids| && StrictlyAscending(ids[..n])
    requires n < |ids| ==> ids[n] <= ids[n - 1]
    ensures Descents(ids) == if n == |ids| then 0 else 1 + Descents(ids[n..])
    decreases n
  {
    if n == 1 {
    } else {
      assert ids[..n][0] < ids[..n][1];
      assert ids[1..][..n - 1] == ids[..n][1..];
      assert StrictlyAscending(ids[1..][..n - 1]);
      DescentsBehindFront(ids[1..], n - 1);
      assert ids[1..][n - 1..] == ids[n..];
    }
  }

  /** The number of passes is the number of maximal ascending stretches of the list. */
  lemma {:induction false} PassesAreAscendingRuns(s: set<Word>, ids: seq<Word>)
    requires forall i :: 0 <= i < |ids| ==> ids[i] in s
    ensures Passes(s, ids) == if ids == [] then 0 else Descents(ids) + 1
    decreases |ids|
  {
    hide KeyOrder;
    if ids != [] {
      OnePassTakesAscendingFront(s, ids);
      var n := OnePass(s, ids);
      DescentsBehindFront(ids, n);
      PassesAreAscendingRuns(s, ids[n..]);
    }
  }

  // ---- The first sending ------------------------------------------------------------

  /** An inbox with one success for each of n packets and nothing else. */
  predicate AllSucceed(inbox: seq<Event>, n: nat) {
    |inbox| == n && forall i :: 0 <= i < n ==> inbox[i] == Arrived(Response(DOWN_UPGRADEPACKAGE, 0))
  }

  lemma DeclaresSomething(j: Job)
    requires Sendable(j)
    ensures Declared(j) != 0
  {
    DeclaredVersusSent(j);
  }

  lemma {:induction false} SendingCounts(l: Link, j: Job, k: nat)
    requires Sendable(j) && 1 <= k <= |Pieces(j)| + 1 && l.open && l.success == k - 1
    requires AllSucceed(l.inbox, |Pieces(j)| + 1 - k)
    ensures SendFrom(l, j, k) == Link(true, |Pieces(j)|, l.ids, [], l.sent + InSequence(j, k, |Pieces(j)| + 1 - k))
    decreases |Pieces(j)| + 1 - k
  {
    hide Pieces, FrameAt, Declared;
    DeclaresSomething(j);
    if k <= |Pieces(j)| {
      FirstOf(l, j, k, |Pieces(j)| + 1 - k);
      var l1 := l.(sent := l.sent + [PacketSent(FrameAt(j, k))]);
      assert l1.inbox[0] == Arrived(Response(DOWN_UPGRADEPACKAGE, 0));
      assert Await(l1, Declared(j)) == Take(l1, Declared(j));
      var l2 := Take(l1, Declared(j));
      assert l2.inbox == l1.inbox[1..];
      SendingCounts(l2, j, k + 1);
    } else {
      assert l.sent + [] == l.sent;
    }
  }

  /** With one success for every packet, all packets of the file are sent in order, and the
      completion test then holds at once exactly when the last chunk is not full. */
  lemma AllAcknowledged(j: Job, inbox: seq<Event>)
    requires Sendable(j) && AllSucceed(inbox, |Pieces(j)|)
    ensures var l := SendFrom(Link(true, 0, [], inbox, []), j, 1);
            l.open && l.inbox == [] && l.sent == InSequence(j, 1, |Pieces(j)|)
            && (CompleteOnEntry(l, Declared(j)) <==> |j.file| % MaxData(j) != 0)
  {
    hide Pieces, FrameAt, SendFrom, InSequence;
    SendingCounts(Link(true, 0, [], inbox, []), j, 1);
    DeclaredVersusSent(j);
    assert [] + InSequence(j, 1, |Pieces(j)|) == InSequence(j, 1, |Pieces(j)|);
  }

  /** What the service receives when the terminal's responses come back to it. */
  function Responses(outputs: seq<Output>): (inbox: seq<Event>)
    ensures |inbox| == |outputs|
  {
    seq(|outputs|, i requires 0 <= i < |outputs| =>
      if outputs[i].Ack? then Arrived(Response(outputs[i].id, outputs[i].result)) else Quiet)
  }

  /** Both sides of a transfer without loss: the terminal writes the file, and its responses
      make the service send every packet and find the transfer complete at once. */
  lemma LosslessDialogue(j: Job)
    requires Proper(j)
    ensures var o := Run(Idle, j, InOrder(j, 1));
            o.Next? && o.outputs != [] && FileAtTheEnd(j, o.outputs)
            && var l := SendFrom(Link(true, 0, [], Responses(o.outputs[..|o.outputs| - 1]), []), j, 1);
               l.open && l.sent == InSequence(j, 1, |Pieces(j)|) && CompleteOnEntry(l, Declared(j))
  {
    hide Run, Pieces, FrameAt, SendFrom, InSequence;
    ProperFileArrives(j);
    var o := Run(Idle, j, InOrder(j, 1));
    AllAcknowledged(j, Responses(o.outputs[..|o.outputs| - 1]));
  }

  // ---- Repairing a loss -------------------------------------------------------------

  lemma MissingMatchesWholly(s: set<Word>, ids: seq<Word>)
    requires StrictlyAscending(ids) && forall i :: 0 <= i < |ids| ==> ids[i] in s
    ensures Matched(KeyOrder(s), ids) == |ids|
  {
    hide Ascending;
    OnePassTakesAscendingFront(s, ids);
    FrontIsAll(s, ids, Matched(KeyOrder(s), ids));
  }

  lemma FrontIsAll(s: set<Word>, ids: seq<Word>, n: nat)
    requires LongestFront(s, 0, ids, n) && (ids != [] ==> n > 0)
    requires StrictlyAscending(ids) && forall i :: 0 <= i < |ids| ==> ids[i] in s
    ensures n == |ids|
  {
  }

  /** The service's map after sending holds every packet. */
  lemma PacketMapHasAll(j: Job, k: nat)
    requires Sendable(j) && IsPacket(j, k)
    ensures k in PacketMap(j, |Pieces(j)|) && PacketMap(j, |Pieces(j)|)[k] == FrameAt(j, k)
  {
  }

  /** The loop closed: the terminal waits with a list of missing ids, the list reaches the
      service, one pass over the packet map sends the frames of exactly these packets in
      order, and they complete the file at the terminal on the last of them. */
  lemma LossIsRepaired(j: Job, s: Session, l: Link)
    requires Proper(j) && Inv(j, s) && s.Active? && s.ids != []
    requires l.open && l.ids == s.ids && NoRequests(l.inbox) && AcksIn(l.inbox) >= |s.ids|
    ensures var packets := PacketMap(j, Count(j));
            var keys := KeyOrder(packets.Keys);
            (AscendingIndices(packets.Keys);
             var m := Merge(l, Declared(j), keys, packets);
             m.open && m.ids == [] && |m.sent| == |l.sent| + |s.ids|
             && m.sent[..|l.sent|] == l.sent
             && forall i :: 0 <= i < |s.ids| ==>
                              IsPacket(j, s.ids[i]) && m.sent[|l.sent| + i] == PacketSent(FrameAt(j, s.ids[i])))
    ensures InRange(j, s.ids)
    ensures var o := Deliver(j, s, s.ids);
            o.Next? && o.session == Idle && FileAtTheEnd(j, o.outputs)
  {
    hide Deliver, Inv, FrameAt, PacketMap, Count, KeyOrder, Merge, FileAtTheEnd;
    ListedPacketsComplete(j, s);
    ListAndMapShareTheIds(j, s);
    var packets := PacketMap(j, Count(j));
    AscendingIndices(packets.Keys);
    forall i | 0 <= i < |s.ids|
      ensures IsPacket(j, s.ids[i]) && s.ids[i] in packets && packets[s.ids[i]] == FrameAt(j, s.ids[i])
    {
      PacketMapHasAll(j, s.ids[i]);
    }
    MissingMatchesWholly(packets.Keys, s.ids);
    MergeSendsMatched(l, Declared(j), KeyOrder(packets.Keys), packets);
    assert s.ids[..|s.ids|] == s.ids;
  }

  /** The list reaches the service whole when it is counted as meant and has at most 255
      ids; as the code counts, only when the cut does no harm, as for a single lost packet. */
  lemma RequestReachesService(j: Job, s: Session, phone: seq<Byte>, flow: Word)
    requires Proper(j) && Inv(j, s) && s.Active? && s.ids != [] && |phone| == 6
    ensures |s.ids| <= 255 ==>
              Requested(Parse(AsMeant(phone, flow, s.firstFlow, s.ids))) == s.ids
    ensures |s.ids| <= MAX_IDS ==>
              0 < |AsWritten(phone, flow, s.firstFlow, s.ids)| <= MAX_FRAME
              && (Requested(Parse(AsWritten(phone, flow, s.firstFlow, s.ids))) == s.ids
                  <==> if |s.ids| <= 4 then SurvivesCut(s.ids)
                       else |s.ids| < 0x100
                            && LongSurvivesCut(s.ids, AsWritten(phone, flow, s.firstFlow, s.ids)))
  {
    hide Parse, AsMeant, AsWritten, Requested, Inv, SurvivesCut, LongSurvivesCut;
    if |s.ids| <= 255 {
      MeantRequestArrives(phone, flow, s.firstFlow, s.ids);
      assert s.ids[..|s.ids|] == s.ids;
    }
    if |s.ids| <= MAX_IDS {
      RequestArrivesExactlyWhen(phone, flow, s.firstFlow, s.ids);
    }
  }

  // ---- What the service does not notice ---------------------------------------------

  lemma {:induction false} AwaitRequests(l: Link, total: Word)
    requires NoRequests(l.inbox)
    ensures NoRequests(Await(l, total).inbox)
    decreases |l.inbox|
  {
    if l.inbox != [] && !IsUpgradeAck(l.inbox[0]) {
      AwaitRequests(Take(l, total), total);
    }
  }

  lemma {:induction false} MergeRequests(l: Link, total: Word, keys: seq<Word>, packets: map<Word, seq<Byte>>)
    requires NoRequests(l.inbox) && forall i :: 0 <= i < |keys| ==> keys[i] in packets
    ensures NoRequests(Merge(l, total, keys, packets).inbox)
    decreases |keys|
  {
    if keys != [] && l.ids != [] {
      if keys[0] != l.ids[0] {
        MergeRequests(l, total, keys[1..], packets);
      } else {
        var l0 := l.(sent := l.sent + [PacketSent(packets[keys[0]])]);
        AwaitRequests(l0, total);
        var l1 := Await(l0, total);
        if l1.open && l1.ids != [] {
          MergeRequests(l1.(ids := l1.ids[1..]), total, keys[1..], packets);
        }
      }
    }
  }

  /** Completion is tested on entry only: whatever acknowledgements still come in, without a
      further request the loop ends with a closed connection and never reports success. */
  lemma {:induction false} RepairGoesUnnoticed(l: Link, total: Word, packets: map<Word, seq<Byte>>)
    requires NoRequests(l.inbox)
    ensures !Serve(l, total, packets).open
    decreases |l.inbox|
  {
    hide Merge, KeyOrder;
    if l.inbox != [] {
      var l1 := Take(l, total);
      AscendingIndices(packets.Keys);
      MergeRequests(l1, total, KeyOrder(packets.Keys), packets);
      var l2 := Merge(l1, total, KeyOrder(packets.Keys), packets);
      if l2.open {
        RepairGoesUnnoticed(l2, total, packets);
      }
    }
  }
}
