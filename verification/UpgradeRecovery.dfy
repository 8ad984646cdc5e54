/** Progress of the upgrade transfer: what the terminal keeps while packets arrive intact,
    how it recovers lost ones, and exactly which files arrive at all. */
module UpgradeRecovery {
  import opened Bytes
  import opened Framing
  import opened IdSets
  import opened Messages
  import opened UpgradeJob
  import opened UpgradeSafety
  import opened UpgradeTerminal
  import opened UpgradeWire

  /** A file longer than one chunk whose last chunk is not full: the declared total is the
      number of packets sent. */
  predicate Proper(j: Job) {
    && Sendable(j) && KnownKind(j.kind)
    && |j.file| > MaxData(j) && |j.file| % MaxData(j) != 0
  }

  function Count(j: Job): (n: nat)
    requires Proper(j)
    ensures 2 <= n <= 65534 && n == |Pieces(j)| == Declared(j)
    ensures Pos(j) == PACKAGE_POS
  {
    DeclaredVersusSent(j);
    |Pieces(j)|
  }

  function Have(s: Session): set<Word> {
    if s.Active? then s.packets.Keys else {}
  }

  /** What holds of the terminal in every state of a run with intact packets: the map is
      genuine and not yet full, and the list is empty until the first request and from then
      on exactly the ascending list of the ids the map lacks. */
  ghost predicate Inv(j: Job, s: Session)
    requires Proper(j)
  {
    && Well(s) && GenuineSession(j, s)
    && Within(Have(s), Count(j)) && |Have(s)| < Count(j)
    && (s.Active? ==> s.ids == [] || s.ids == Missing(s.packets.Keys, Count(j)))
  }

  /** The smallest file there are two packets for, one of them with a single byte. */
  lemma SmallestProperFile()
    ensures var j := Job(0, [], Zeros(1013), 0);
            Proper(j) && Count(j) == 2 && Inv(j, Idle) && Waiting(j, Idle)
  {
    hide Chunks;
    var j := Job(0, [], Zeros(1013), 0);
    ChunksCoverFile(j.file, 1012);
    assert MaxData(j) == 1012;
  }

  /** With the list in use nothing is lost from sight: ids held and ids listed make up the
      file, and the list is not empty before the file is complete. */
  lemma ListAndMapShareTheIds(j: Job, s: Session)
    requires Proper(j) && Inv(j, s) && s.Active? && s.ids != []
    ensures |s.packets| + |s.ids| == Count(j)
    ensures StrictlyAscending(s.ids)
    ensures forall k :: 1 <= k <= Count(j) ==> (k in s.ids <==> k !in s.packets)
    ensures |Missing(s.packets.Keys, Count(j))| > 0
  {
    hide Genuine, Missing;
    PresentPlusMissing(s.packets.Keys, Count(j));
    MissingMembersAll(s.packets.Keys, Count(j));
    assert |s.packets| == |s.packets.Keys|;
  }

  lemma MissingMembersAll(s: set<Word>, n: nat)
    requires n < IDS
    ensures forall k :: k in Missing(s, n) <==> k !in s && 1 <= k <= n
    ensures StrictlyAscending(Missing(s, n))
  {
    MissingMembers(s, 1, n);
  }

  /** The number whose arrival triggers a look at the map. */
  function Trigger(j: Job, s: Session): Word
    requires Proper(j)
  {
    if s.Active? && s.ids != [] then s.ids[|s.ids| - 1] else Count(j)
  }

  function FirstFlow(j: Job, s: Session, k: nat): Word {
    if s.Active? then s.firstFlow else FlowAt(j, k)
  }

  /** Everything one intact packet does. */
  ghost predicate Effect(j: Job, s: Session, k: nat, o: Outcome)
    requires Proper(j)
  {
    var n, have := Count(j), Have(s) + {k};
    var ack := Ack(FlowAt(j, k), DOWN_UPGRADEPACKAGE, SUCCESS);
    && o.Next? && Inv(j, o.session)
    && if |have| == n then
         o == Next(Idle, [ack, FileWritten(j.kind, j.version, j.file)])
       else
         && o.session.Active? && o.session.packets.Keys == have
         && o.session.firstFlow == FirstFlow(j, s, k)
         && if k == Trigger(j, s) then
              o.session.ids == Missing(have, n)
              && o.outputs == [ack, ResendRequest(FirstFlow(j, s, k), Missing(have, n))]
            else
              o.session.ids == (if s.Active? && s.ids != [] then Missing(have, n) else [])
              && o.outputs == [ack]
  }

  /** The list after packet k: what was on it, without k. */
  lemma ListAfter(j: Job, s: Session, k: nat)
    requires Proper(j) && Inv(j, s) && s.Active? && k < IDS
    ensures RemoveFirst(s.ids, k) == if s.ids == [] then [] else Missing(s.packets.Keys + {k}, Count(j))
  {
    hide Genuine;
    FillingAGap(s.packets.Keys, k, 1, Count(j));
  }

  lemma StoredKeys(j: Job, s: Session, k: nat, p: Packet)
    requires Sendable(j) && s.Active? && Shows(j, k, p)
    ensures Stored(s, p).Keys == s.packets.Keys + {k}
    ensures |Stored(s, p)| == |s.packets.Keys + {k}|
  {
  }

  lemma OneMore(j: Job, have: set<Word>, k: nat)
    requires Proper(j) && Within(have, Count(j)) && 1 <= k <= Count(j)
    ensures Within(have + {k}, Count(j)) && |have + {k}| <= Count(j)
    ensures |have + {k}| == Count(j) <==> Missing(have + {k}, Count(j)) == []
  {
    hide Missing;
    PresentPlusMissing(have + {k}, Count(j));
  }

  /** The invariant is kept, and the outcome is exactly as described. */
  lemma ProperStep(j: Job, s: Session, k: nat)
    requires Proper(j) && Inv(j, s) && 1 <= k <= Count(j)
    ensures Effect(j, s, k, Step(s, Parse(FrameAt(j, k))))
  {
    hide Parse, FrameAt, ContentAt, CheckPasses, Carries, KindOf, VersionOf, DataOf, DataInBuffer, IdOf, FlowOf,
         Chunks, Declared, Ascending, Assemble, Gaps, Total, Sequence, PackagedOf, KeyOrder, Missing, Accept, Genuine;
    var p := Parse(FrameAt(j, k));
    FrameArrives(j, k);
    GenuineShows(j, k, p);
    var s1 := Opened(s, p);
    assert PackagedOf(p);
    assert s1.Active?;
    assert s1.packets.Keys == Have(s);
    assert GenuineSession(j, s1) by {
      if s.Idle? {
        NothingIsGenuine(j);
      }
    }
    AcceptProper(j, s1, k, p);
  }

  lemma NothingIsGenuine(j: Job)
    requires Sendable(j)
    ensures Genuine(j, map[])
  {
  }

  lemma StoredGenuine(j: Job, packets: map<Word, Packet>, k: nat, p: Packet)
    requires Sendable(j) && Genuine(j, packets) && IsPacket(j, k) && Carries(p, ContentAt(j, k))
    ensures Genuine(j, Insert(packets, k, p))
  {
    hide Carries, ContentAt, Chunks;
  }

  lemma AcceptProper(j: Job, s: Session, k: nat, p: Packet)
    requires Proper(j) && Inv(j, s) && s.Active? && 1 <= k <= Count(j)
    requires Shows(j, k, p) && Carries(p, ContentAt(j, k))
    ensures Effect(j, s, k, Accept(s, p))
  {
    hide Carries, ContentAt, KindOf, VersionOf, DataOf, DataInBuffer, IdOf, FlowOf,
         Chunks, Declared, Assemble, Gaps, Total, Sequence, PackagedOf, KeyOrder, Missing, Genuine, RemoveFirst;
    var n, have := Count(j), Have(s) + {k};
    StoredGenuine(j, s.packets, k, p);
    StoredKeys(j, s, k, p);
    ListAfter(j, s, k);
    OneMore(j, Have(s), k);
    var ack := Ack(FlowOf(p), IdOf(p), SUCCESS);
    var s2 := Active(Stored(s, p), RemoveFirst(s.ids, k), s.firstFlow);
    assert Total(p) == n && Sequence(p) == k;
    if |have| == n {
      AssembleGenuine(j, s2, p, k, ack);
    } else if Awaited(s, n) == k {
      WalkFindsMissing(s2.packets.Keys, n);
    }
  }

  lemma WalkFindsMissing(s: set<Word>, n: nat)
    requires n < IDS && Within(s, n)
    ensures Gaps(KeyOrder(s), 1, n) == Missing(s, n)
  {
    GapsAreMissing(s, 1, n);
    assert 0 !in s;
    assert KeyOrder(s) == Ascending(s, 1, IDS);
  }

  // ---- Runs of intact packets -------------------------------------------------------

  function Intacts(ids: seq<Word>): (run: seq<Arrival>)
    ensures |run| == |ids| && forall i :: 0 <= i < |ids| ==> run[i] == Intact(ids[i])
  {
    seq(|ids|, i requires 0 <= i < |ids| => Intact(ids[i]))
  }

  predicate InRange(j: Job, ids: seq<Word>)
    requires Proper(j)
  {
    forall i :: 0 <= i < |ids| ==> 1 <= ids[i] <= Count(j)
  }

  function Elements(ids: seq<Word>): set<Word> {
    set k | k in ids
  }

  /** The terminal through intact packets with these numbers. */
  function Deliver(j: Job, s: Session, ids: seq<Word>): (o: Outcome)
    requires Proper(j) && Well(s) && InRange(j, ids)
    ensures o.Next? ==> Well(o.session)
  {
    Run(s, j, Intacts(ids))
  }

  lemma DeliverFirst(j: Job, s: Session, ids: seq<Word>)
    requires Proper(j) && Well(s) && InRange(j, ids)
    ensures ids == [] ==> Deliver(j, s, ids) == Next(s, [])
    ensures ids != [] ==>
              var o := Step(s, Parse(FrameAt(j, ids[0])));
              Deliver(j, s, ids) == if o.Fault? then Fault else Then(o, Deliver(j, o.session, ids[1..]))
  {
    hide Parse, Step, ContentAt, Chunks, Wire;
    if ids != [] {
      assert Intacts(ids)[1..] == Intacts(ids[1..]);
      assert Frame(j, Intact(ids[0])) == FrameAt(j, ids[0]);
    }
  }

  /** The run invariant: over every run of intact packets, in any order and with any
      repetition, the terminal never faults and every state it reaches satisfies Inv. */
  lemma {:induction false} InvariantOverRuns(j: Job, s: Session, ids: seq<Word>)
    requires Proper(j) && Inv(j, s) && InRange(j, ids)
    ensures var o := Deliver(j, s, ids); o.Next? && Inv(j, o.session)
    decreases |ids|
  {
    hide Deliver, Step, Parse, FrameAt, Inv, Count;
    WellOf(j, s);
    DeliverFirst(j, s, ids);
    if ids != [] {
      assert ids[0] in ids;
      ProperStep(j, s, ids[0]);
      var o := Step(s, Parse(FrameAt(j, ids[0])));
      InvariantOverRuns(j, o.session, ids[1..]);
    }
  }

  lemma WellOf(j: Job, s: Session)
    requires Proper(j) && Inv(j, s)
    ensures Well(s) && Within(Have(s), Count(j))
  {
  }

  /** Acknowledged as received, and nothing else sent. */
  predicate IsSuccess(o: Output) {
    o.Ack? && o.id == DOWN_UPGRADEPACKAGE && o.result == SUCCESS
  }

  ghost predicate OnlyAcks(outputs: seq<Output>) {
    forall i :: 0 <= i < |outputs| ==> IsSuccess(outputs[i])
  }

  /** The file at the end, and nothing but acknowledgements before it. */
  ghost predicate FileAtTheEnd(j: Job, outputs: seq<Output>) {
    && |outputs| > 0 && OnlyAcks(outputs[..|outputs| - 1])
    && outputs[|outputs| - 1] == FileWritten(j.kind, j.version, j.file)
  }

  lemma AcksThenFile(j: Job, ack: Output, outputs: seq<Output>)
    requires IsSuccess(ack) && FileAtTheEnd(j, outputs)
    ensures FileAtTheEnd(j, [ack] + outputs)
  {
  }

  /** Delivering the listed packets in their order completes on the last of them, and not
      before: until then there are only acknowledgements, and then the file. */
  lemma {:induction false} ListedPacketsComplete(j: Job, s: Session)
    requires Proper(j) && Inv(j, s) && s.Active? && s.ids != []
    ensures InRange(j, s.ids)
    ensures var o := Deliver(j, s, s.ids);
            o.Next? && o.session == Idle && |o.outputs| == |s.ids| + 1 && FileAtTheEnd(j, o.outputs)
    decreases |s.ids|
  {
    hide Inv, Deliver, Step, Parse, FrameAt, Count, Missing;
    var ids := s.ids;
    WellOf(j, s);
    ListIsInRange(j, s);
    FirstListedPacket(j, s);
    DeliverFirst(j, s, ids);
    var o := Step(s, Parse(FrameAt(j, ids[0])));
    if |ids| == 1 {
      DeliverFirst(j, Idle, ids[1..]);
    } else {
      ListedPacketsComplete(j, o.session);
      AcksThenFile(j, o.outputs[0], Deliver(j, o.session, ids[1..]).outputs);
    }
  }

  lemma ListIsInRange(j: Job, s: Session)
    requires Proper(j) && Inv(j, s) && s.Active? && s.ids != []
    ensures InRange(j, s.ids)
  {
    hide Inv, Missing;
    ListAndMapShareTheIds(j, s);
    forall i | 0 <= i < |s.ids|
      ensures 1 <= s.ids[i] <= Count(j)
    {
      assert s.ids[i] in s.ids;
      InvIds(j, s);
      MissingMembersAll(s.packets.Keys, Count(j));
    }
  }

  lemma FirstListedPacket(j: Job, s: Session)
    requires Proper(j) && Inv(j, s) && s.Active? && s.ids != []
    ensures 1 <= s.ids[0] <= Count(j)
    ensures var o := Step(s, Parse(FrameAt(j, s.ids[0])));
            var ack := Ack(FlowAt(j, s.ids[0]), DOWN_UPGRADEPACKAGE, SUCCESS);
            if |s.ids| == 1 then o == Next(Idle, [ack, FileWritten(j.kind, j.version, j.file)])
            else o.Next? && Inv(j, o.session) && o.session.Active? && o.session.ids == s.ids[1..] && o.outputs == [ack]
  {
    hide Parse, FrameAt, Step, Genuine, Missing, Inv, MissingFrom;
    var k, n := s.ids[0], Count(j);
    ListIsInRange(j, s);
    InvIds(j, s);
    ProperStep(j, s, k);
    ListAndMapShareTheIds(j, s);
    HeadOfMissing(s.packets.Keys, n);
    OneMore(j, Have(s), k);
  }

  /** Filling the first gap leaves the others, and the last one is last until it is alone. */
  lemma HeadOfMissing(s: set<Word>, n: nat)
    requires n < IDS && Missing(s, n) != []
    ensures Missing(s + {Missing(s, n)[0]}, n) == Missing(s, n)[1..]
  {
    FillingAGap(s, Missing(s, n)[0], 1, n);
  }

  lemma InvIds(j: Job, s: Session)
    requires Proper(j) && Inv(j, s) && s.Active? && s.ids != []
    ensures s.ids == Missing(s.packets.Keys, Count(j)) && Within(Have(s), Count(j))
  {
  }

  // ---- Rounds of loss and recovery --------------------------------------------------

  /** Waiting for the trigger: it has not come yet. */
  ghost predicate Waiting(j: Job, s: Session)
    requires Proper(j)
  {
    Inv(j, s) && Trigger(j, s) !in Have(s)
  }

  lemma {:induction false} LastStays(ids: seq<Word>, k: Word)
    requires ids != [] && k != ids[|ids| - 1]
    ensures RemoveFirst(ids, k) != []
    ensures RemoveFirst(ids, k)[|RemoveFirst(ids, k)| - 1] == ids[|ids| - 1]
  {
    if ids[0] != k && |ids| > 1 {
      LastStays(ids[1..], k);
    }
  }

  /** An arrival other than the trigger is acknowledged and leaves the terminal waiting. */
  lemma NotTheTrigger(j: Job, s: Session, k: nat)
    requires Proper(j) && Waiting(j, s) && 1 <= k <= Count(j) && k != Trigger(j, s)
    ensures var o := Step(s, Parse(FrameAt(j, k)));
            o.Next? && Waiting(j, o.session) && OnlyAcks(o.outputs) && |o.outputs| == 1
            && Have(o.session) == Have(s) + {k} && Trigger(j, o.session) == Trigger(j, s)
            && o.session.Active? && o.session.firstFlow == FirstFlow(j, s, k)
  {
    hide Parse, FrameAt, Step, GenuineSession, Missing;
    ProperStep(j, s, k);
    TriggerInRange(j, s);
    OneMore(j, Have(s), k);
    MissingMembersAll(Have(s) + {k}, Count(j));
    if s.Active? && s.ids != [] {
      ListAfter(j, s, k);
      LastStays(s.ids, k);
    }
  }

  lemma TriggerInRange(j: Job, s: Session)
    requires Proper(j) && Inv(j, s)
    ensures 1 <= Trigger(j, s) <= Count(j)
  {
    hide GenuineSession, Missing;
    if s.Active? && s.ids != [] {
      ListIsInRange(j, s);
    }
  }

  lemma {:induction false} QuietUntilTheTrigger(j: Job, s: Session, ids: seq<Word>)
    requires Proper(j) && Waiting(j, s) && InRange(j, ids) && Trigger(j, s) !in ids
    ensures Well(s)
    ensures var o := Deliver(j, s, ids);
            o.Next? && Waiting(j, o.session) && OnlyAcks(o.outputs) && |o.outputs| == |ids|
            && Have(o.session) == Have(s) + Elements(ids) && Trigger(j, o.session) == Trigger(j, s)
            && (s.Active? ==> o.session.Active? && o.session.firstFlow == s.firstFlow)
    decreases |ids|
  {
    hide Deliver, Step, Parse, FrameAt, Inv, Count, Trigger;
    WellOf(j, s);
    DeliverFirst(j, s, ids);
    if ids == [] {
      assert Elements(ids) == {};
    } else {
      NotTheTrigger(j, s, ids[0]);
      var o := Step(s, Parse(FrameAt(j, ids[0])));
      QuietUntilTheTrigger(j, o.session, ids[1..]);
      assert Elements(ids) == {ids[0]} + Elements(ids[1..]);
    }
  }

  lemma DeliverConcat(j: Job, s: Session, ids: seq<Word>, k: Word)
    requires Proper(j) && Well(s) && InRange(j, ids) && 1 <= k <= Count(j)
    ensures InRange(j, ids + [k])
    ensures var o := Deliver(j, s, ids);
            Deliver(j, s, ids + [k]) == if o.Fault? then Fault else Then(o, Step(o.session, Parse(FrameAt(j, k))))
  {
    hide Step, Parse, FrameAt, Run, Count;
    assert Intacts(ids + [k]) == Intacts(ids) + Intacts([k]);
    RunConcat(s, j, Intacts(ids), Intacts([k]));
    var o := Deliver(j, s, ids);
    if o.Next? {
      DeliverFirst(j, o.session, [k]);
      var o2 := Step(o.session, Parse(FrameAt(j, k)));
      if o2.Next? {
        DeliverFirst(j, o2.session, [k][1..]);
        assert o2.outputs + [] == o2.outputs;
      }
    }
  }

  /** How a round of so many arrivals ends: every arrival acknowledged, and then with the
      file, or with a request for exactly what is still missing. */
  ghost predicate RoundEnd(j: Job, have: set<Word>, arrivals: nat, o: Outcome)
    requires Proper(j)
  {
    var missing := Missing(have, Count(j));
    && o.Next? && |o.outputs| == arrivals + 1
    && if missing == [] then
         o.session == Idle && FileAtTheEnd(j, o.outputs)
       else
         && Waiting(j, o.session) && o.session.Active? && o.session.ids == missing
         && Have(o.session) == have
         && OnlyAcks(o.outputs[..|o.outputs| - 1])
         && o.outputs[|o.outputs| - 1] == ResendRequest(o.session.firstFlow, missing)
  }

  /** What the awaited packet does on its own, after a round of none. */
  lemma TriggerStep(j: Job, s: Session)
    requires Proper(j) && Waiting(j, s)
    ensures Well(s) && 1 <= Trigger(j, s) <= Count(j)
    ensures RoundEnd(j, Have(s) + {Trigger(j, s)}, 1, Step(s, Parse(FrameAt(j, Trigger(j, s)))))
  {
    hide Step, Parse, FrameAt, GenuineSession, Missing, Count, Effect, RoundEnd;
    TriggerInRange(j, s);
    ProperStep(j, s, Trigger(j, s));
    TriggerEnds(j, s, Step(s, Parse(FrameAt(j, Trigger(j, s)))));
  }

  lemma TriggerEnds(j: Job, s: Session, o: Outcome)
    requires Proper(j) && Waiting(j, s) && 1 <= Trigger(j, s) <= Count(j) && Effect(j, s, Trigger(j, s), o)
    ensures RoundEnd(j, Have(s) + {Trigger(j, s)}, 1, o)
  {
    hide GenuineSession, Missing, Count;
    OneMore(j, Have(s), Trigger(j, s));
    MissingMembersAll(Have(s) + {Trigger(j, s)}, Count(j));
  }

  /** Acknowledged arrivals before it only lengthen the round. */
  lemma LongerRound(j: Job, have: set<Word>, o: Outcome, o2: Outcome)
    requires Proper(j) && o.Next? && OnlyAcks(o.outputs) && RoundEnd(j, have, 1, o2)
    ensures RoundEnd(j, have, |o.outputs| + 1, Then(o, o2))
  {
    hide Missing, Count, Waiting, Have, IsSuccess;
    var all, last := o.outputs + o2.outputs, |o2.outputs| - 1;
    assert all[..|all| - 1] == o.outputs + o2.outputs[..last];
    assert all[|all| - 1] == o2.outputs[last];
    assert OnlyAcks(o2.outputs[..last]);
  }

  /** One round: any packets in any order, repeated or lost, and then the one the terminal
      waits for.  Starting from a clean terminal that is the last packet of the file; later
      it is the last id of the previous request. */
  lemma OneRound(j: Job, s: Session, ids: seq<Word>)
    requires Proper(j) && Waiting(j, s) && InRange(j, ids) && Trigger(j, s) !in ids
    ensures Well(s) && 1 <= Trigger(j, s) <= Count(j) && InRange(j, ids + [Trigger(j, s)])
    ensures RoundEnd(j, Have(s) + Elements(ids) + {Trigger(j, s)}, |ids| + 1, Deliver(j, s, ids + [Trigger(j, s)]))
  {
    hide Deliver, Step, Parse, FrameAt, GenuineSession, Missing, Elements, Count, RoundEnd, Then, Trigger, Have, Inv;
    TriggerInRange(j, s);
    QuietUntilTheTrigger(j, s, ids);
    DeliverConcat(j, s, ids, Trigger(j, s));
    var o := Deliver(j, s, ids);
    TriggerStep(j, o.session);
    LongerRound(j, Have(s) + Elements(ids) + {Trigger(j, s)}, o, Step(o.session, Parse(FrameAt(j, Trigger(j, s)))));
  }

  /** Recovery in one round: whatever else was lost, once the last packet arrives the
      terminal asks for exactly the missing ids in ascending order, and delivering those
      completes the file on the final one and not before. */
  lemma RecoveryInOneRound(j: Job, ids: seq<Word>)
    requires Proper(j) && InRange(j, ids) && Count(j) !in ids
    ensures InRange(j, ids + [Count(j)])
    ensures var o := Deliver(j, Idle, ids + [Count(j)]);
            var missing := Missing(Elements(ids) + {Count(j)}, Count(j));
            RoundEnd(j, Elements(ids) + {Count(j)}, |ids| + 1, o)
            && (missing != [] ==>
                  InRange(j, missing)
                  && var o2 := Deliver(j, o.session, missing);
                     o2.Next? && o2.session == Idle && |o2.outputs| == |missing| + 1 && FileAtTheEnd(j, o2.outputs))
  {
    hide Deliver, Step, Parse, FrameAt, Missing, Elements, Count;
    OneRound(j, Idle, ids);
    assert {} + Elements(ids) + {Count(j)} == Elements(ids) + {Count(j)};
    var o := Deliver(j, Idle, ids + [Count(j)]);
    if Missing(Elements(ids) + {Count(j)}, Count(j)) != [] {
      ListedPacketsComplete(j, o.session);
    }
  }

  /** Every round is one the terminal can answer: it ends with the awaited packet. */
  ghost predicate RoundsFit(j: Job, s: Session, rounds: seq<seq<Word>>)
    requires Proper(j) && Well(s)
    decreases |rounds|
  {
    rounds != [] ==>
      && InRange(j, rounds[0]) && Trigger(j, s) !in rounds[0] && 1 <= Trigger(j, s) <= Count(j)
      && var o := Deliver(j, s, rounds[0] + [Trigger(j, s)]);
         o.Next? ==> RoundsFit(j, o.session, rounds[1..])
  }

  ghost predicate CompletesWithin(j: Job, s: Session, rounds: seq<seq<Word>>)
    requires Proper(j) && Well(s) && RoundsFit(j, s, rounds)
    decreases |rounds|
  {
    rounds != [] &&
    var o := Deliver(j, s, rounds[0] + [Trigger(j, s)]);
    o.Next? && (FileAtTheEnd(j, o.outputs) || CompletesWithin(j, o.session, rounds[1..]))
  }

  /** Recovery converges: as long as each round brings the packet the terminal waits for,
      whatever else of it is lost, there are at most as many rounds as packets missing. */
  lemma {:induction false} RecoveryConverges(j: Job, s: Session, rounds: seq<seq<Word>>)
    requires Proper(j) && Waiting(j, s) && Well(s) && RoundsFit(j, s, rounds)
    requires |rounds| >= |Missing(Have(s), Count(j))|
    ensures CompletesWithin(j, s, rounds)
    decreases |rounds|
  {
    hide Deliver, Inv, Missing, Count, Elements;
    var k := Trigger(j, s);
    SomethingIsMissing(j, s);
    OneRound(j, s, rounds[0]);
    var o := Deliver(j, s, rounds[0] + [k]);
    var have := Have(s) + Elements(rounds[0]) + {k};
    if Missing(have, Count(j)) != [] {
      WellOf(j, o.session);
      FewerMissing(j, s, have);
      RecoveryConverges(j, o.session, rounds[1..]);
    }
  }

  lemma SomethingIsMissing(j: Job, s: Session)
    requires Proper(j) && Waiting(j, s)
    ensures |Missing(Have(s), Count(j))| > 0
  {
    hide Missing;
    TriggerInRange(j, s);
    MissingMembersAll(Have(s), Count(j));
    assert Trigger(j, s) in Missing(Have(s), Count(j));
  }

  lemma FewerMissing(j: Job, s: Session, have: set<Word>)
    requires Proper(j) && Waiting(j, s) && Have(s) + {Trigger(j, s)} <= have && Within(have, Count(j))
    ensures |Missing(have, Count(j))| < |Missing(Have(s), Count(j))|
  {
    hide Missing;
    PresentPlusMissing(have, Count(j));
    PresentPlusMissing(Have(s), Count(j));
    Smaller(Have(s), have, Trigger(j, s));
  }

  lemma Smaller(s: set<Word>, t: set<Word>, x: Word)
    requires s <= t && x in t && x !in s
    ensures |s| < |t|
  {
    assert s <= t - {x};
    SubsetSize(s, t - {x});
  }

  lemma {:induction false} SubsetSize(s: set<Word>, t: set<Word>)
    requires s <= t
    ensures |s| <= |t|
    decreases s
  {
    if s != {} {
      var x :| x in s;
      SubsetSize(s - {x}, t - {x});
    }
  }
}
