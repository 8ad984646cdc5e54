/** When the terminal asks for packets again: each packet sent once and in order, each of them
    whole, lost, or with any one of its bytes altered. */
module UpgradeAsking {
  import opened Bytes
  import opened IdSets
  import opened Messages
  import opened UpgradeAltered
  import opened UpgradeDamage
  import opened UpgradeJob
  import opened UpgradeLimits
  import opened UpgradeRecovery
  import opened UpgradeSafety
  import opened UpgradeTerminal
  import opened UpgradeWire
  import opened Wrappers

  /** Nothing of an upgrade reaches the terminal. */
  predicate Silent(f: Fate) {
    f.Lost? || (f.Altered? && f.i < 2)
  }

  predicate Unpacks(f: Fate) {
    f.Altered? && f.i == 2 && f.b / 0x20 % 2 == 0
  }

  /** The number an altered packet k puts on the list of missing ones. */
  function QueuedBy(k: Word, f: Fate): Option<Word> {
    if !f.Altered? then None
    else
      match MarkOf(k, f)
      case Foreign => None
      case Unpackaged => Some(0)
      case Numbered(number) => Some(number)
  }

  // ---- The terminal's expectation ---------------------------------------------------

  /** The number awaited, whether every packet so far has arrived whole, and whether the
      terminal has asked for anything. */
  datatype Phase = Phase(awaited: Word, whole: bool, asked: bool)

  /** After packet k of count. */
  function NextPhase(count: nat, k: Word, f: Fate, ph: Phase): Phase {
    Phase(match QueuedBy(k, f) case Some(number) => number case None => ph.awaited,
          ph.whole && f.Arrives?,
          ph.asked || (f.Arrives? && ph.awaited == k && !(ph.whole && k == count)))
  }

  /** After the packets from k on. */
  function PhaseAfter(count: nat, k: nat, fates: seq<Fate>, ph: Phase): Phase
    requires k + |fates| <= IDS
    decreases |fates|
  {
    if fates == [] then ph else PhaseAfter(count, k + 1, fates[1..], NextPhase(count, k, fates[0], ph))
  }

  /** Some packet from k on arrives whole that is the one awaited: the last number queued
      before it, or the given one. */
  predicate AwaitedComes(k: nat, fates: seq<Fate>, awaited: Word)
    requires k + |fates| <= IDS
    decreases |fates|
  {
    fates != []
    && ((fates[0].Arrives? && awaited == k)
        || AwaitedComes(k + 1, fates[1..], match QueuedBy(k, fates[0]) case Some(number) => number case None => awaited))
  }

  /** The state before packet k. */
  ghost predicate At(j: Job, s: Session, k: nat, ph: Phase)
    requires Proper(j)
  {
    && 1 <= k <= Count(j) + 1 && Well(s) && GenuineSession(j, s)
    && (forall m :: m in Have(s) ==> 1 <= m < k)
    && (ph.whole <==> forall m: Word :: 1 <= m < k ==> m in Have(s))
    && if ph.asked then s.Active? && !ph.whole
       else
         && (s.Idle? ==> ph.awaited == Count(j))
         && (s.Active? ==> Awaited(s, Count(j)) == ph.awaited && (ph.whole ==> s.ids == []))
  }

  lemma AtStart(j: Job)
    requires Proper(j)
    ensures At(j, Idle, 1, Phase(Count(j), true, false))
  {
  }

  lemma AtWell(j: Job, s: Session, k: nat, ph: Phase)
    requires Proper(j) && At(j, s, k, ph)
    ensures Well(s) && 1 <= k <= Count(j) + 1 && (ph.asked ==> s.Active?)
  {
  }

  // ---- One packet -------------------------------------------------------------------

  /** The answer to a packet, and a request or nothing behind it. */
  ghost predicate Answer(outputs: seq<Output>, f: Fate, asks: bool) {
    && |outputs| == (if asks then 2 else 1)
    && outputs[0].Ack? && outputs[0].id == DOWN_UPGRADEPACKAGE && (outputs[0].result == SUCCESS <==> f.Arrives?)
    && (asks ==> outputs[1].ResendRequest?)
  }

  lemma Held(have: set<Word>, n: nat, k: nat)
    requires 1 <= k <= n < IDS && forall m :: m in have ==> 1 <= m <= k
    ensures |have| <= n && (|have| == n <==> k == n && forall m: Word :: 1 <= m <= k ==> m in have)
  {
    hide Missing;
    PresentPlusMissing(have, n);
    MissingMembersAll(have, n);
    if k < n {
      assert n as Word !in have;
      assert n as Word in Missing(have, n);
    }
    if Missing(have, n) != [] {
      assert Missing(have, n)[0] in Missing(have, n);
    }
  }

  /** A packet that leaves the map short of the total is acknowledged, and asked behind if it
      is the awaited one. */
  lemma AcceptShort(j: Job, s: Session, k: nat, p: Packet)
    requires Proper(j) && s.Active? && Well(s) && Shows(j, k, p) && |Stored(s, p)| != Count(j)
    ensures var o := Accept(s, p);
            var asks := Awaited(s, Count(j)) == k;
            o.Next? && Answer(o.outputs, Arrives, asks)
            && o.session.Active? && o.session.packets == Stored(s, p)
            && (!asks ==> o.session.ids == RemoveFirst(s.ids, k))
  {
    hide KindOf, VersionOf, DataOf, DataInBuffer, IdOf, FlowOf, Chunks, Declared, Assemble, Gaps, Total, Sequence,
         PackagedOf, KeyOrder, RemoveFirst, Stored;
    var n := Count(j);
    assert Total(p) == n && Sequence(p) == k;
  }

  lemma ExpectationStays(s: Session, count: Word, k: Word)
    requires s.Active? && Awaited(s, count) != k
    ensures Awaited(s.(ids := RemoveFirst(s.ids, k)), count) == Awaited(s, count)
    ensures s.ids == [] ==> RemoveFirst(s.ids, k) == []
  {
    if s.ids != [] {
      LastStays(s.ids, k);
    }
  }

  /** A whole packet at a terminal with a session. */
  lemma ArriveAt(j: Job, s: Session, k: nat, ph: Phase, p: Packet)
    requires Proper(j) && At(j, s, k, ph) && s.Active? && 1 <= k <= Count(j)
    requires Shows(j, k, p) && Carries(p, ContentAt(j, k))
    ensures var o := Accept(s, p);
            if ph.whole && k == Count(j)
            then
              o == Next(Idle, [Ack(FlowAt(j, k), DOWN_UPGRADEPACKAGE, SUCCESS), FileWritten(j.kind, j.version, j.file)])
            else o.Next? && o.session.Active? && At(j, o.session, k + 1, NextPhase(Count(j), k, Arrives, ph))
                 && exists asks :: Answer(o.outputs, Arrives, asks)
                                   && (!ph.asked ==> asks == NextPhase(Count(j), k, Arrives, ph).asked)
  {
    hide ContentAt, Carries, KindOf, VersionOf, DataOf, DataInBuffer, IdOf, FlowOf, Chunks, Declared, Assemble, Gaps,
         Total, Sequence, PackagedOf, KeyOrder, Genuine, RemoveFirst, Accept, Request, Stored, Answer;
    var n := Count(j);
    StoredUnder(j, s, k, p);
    StoredGenuine(j, s.packets, k, p);
    StoredKeys(j, s, k, p);
    Held(Have(s) + {k as Word}, n, k);
    if ph.whole && k == n {
      CompleteAt(j, s, k, p);
    } else {
      AcceptShort(j, s, k, p);
      if Awaited(s, n) != k {
        ExpectationStays(s, n, k);
      }
      ArrivedAt(j, s, Accept(s, p).session, k, ph);
      assert Answer(Accept(s, p).outputs, Arrives, Awaited(s, n) == k);
    }
  }

  lemma ArrivedAt(j: Job, s: Session, s2: Session, k: nat, ph: Phase)
    requires Proper(j) && At(j, s, k, ph) && s.Active? && k <= Count(j) && !(ph.whole && k == Count(j))
    requires s2.Active? && Well(s2) && Genuine(j, s2.packets) && s2.packets.Keys == s.packets.Keys + {k}
    requires Awaited(s, Count(j)) != k ==> Awaited(s2, Count(j)) == Awaited(s, Count(j)) && (s.ids == [] ==> s2.ids == [])
    ensures At(j, s2, k + 1, NextPhase(Count(j), k, Arrives, ph))
  {
    hide Genuine, Count;
    var ph2 := NextPhase(Count(j), k, Arrives, ph);
    assert ph2.awaited == ph.awaited && ph2.whole == ph.whole;
    assert forall m :: m in Have(s2) <==> m in Have(s) || m == k;
    assert ph2.whole <==> forall m: Word :: 1 <= m < k + 1 ==> m in Have(s2);
  }

  lemma StoredUnder(j: Job, s: Session, k: nat, p: Packet)
    requires Sendable(j) && s.Active? && Shows(j, k, p)
    ensures Stored(s, p) == Insert(s.packets, k, p)
  {
    hide Insert;
  }

  lemma CompleteAt(j: Job, s: Session, k: nat, p: Packet)
    requires Proper(j) && s.Active? && Well(s) && Shows(j, k, p) && Genuine(j, Stored(s, p))
    requires |Stored(s, p)| == Count(j)
    ensures Accept(s, p)
         == Next(Idle, [Ack(FlowAt(j, k), DOWN_UPGRADEPACKAGE, SUCCESS), FileWritten(j.kind, j.version, j.file)])
  {
    hide KindOf, VersionOf, DataOf, DataInBuffer, IdOf, FlowOf, Chunks, Declared, Assemble, Gaps, Total, Sequence,
         PackagedOf, KeyOrder, RemoveFirst, Genuine;
    var s2 := Active(Stored(s, p), RemoveFirst(s.ids, k), s.firstFlow);
    assert Total(p) == Count(j) && Sequence(p) == k;
    AssembleGenuine(j, s2, p, k, Ack(FlowOf(p), IdOf(p), SUCCESS));
  }

  lemma OpenedAt(j: Job, s: Session, k: nat, ph: Phase, firstFlow: Word)
    requires Proper(j) && At(j, s, k, ph)
    ensures var s1 := if s.Idle? then Active(map[], [], firstFlow) else s;
            At(j, s1, k, ph) && Have(s1) == Have(s)
  {
    hide Genuine, Count;
    NothingIsGenuine(j);
    var s1 := if s.Idle? then Active(map[], [], firstFlow) else s;
    assert Have(s1) == Have(s);
  }

  /** A packet that does not come leaves the terminal as it was, and one short for good. */
  lemma SilentAt(j: Job, s: Session, k: nat, f: Fate, ph: Phase)
    requires Proper(j) && At(j, s, k, ph) && k <= Count(j) && Silent(f)
    ensures At(j, s, k + 1, NextPhase(Count(j), k, f, ph))
  {
    hide GenuineSession, Count;
    assert k as Word !in Have(s);
    assert QueuedBy(k, f) == None;
  }

  /** An altered packet queues a number, and is missing for good. */
  lemma QueuedAt(j: Job, s: Session, k: nat, f: Fate, ph: Phase, firstFlow: Word)
    requires Proper(j) && At(j, s, k, ph) && k <= Count(j) && QueuedBy(k, f).Some?
    ensures var s1 := if s.Idle? then Active(map[], [], firstFlow) else s;
            At(j, s1.(ids := s1.ids + [QueuedBy(k, f).value]), k + 1, NextPhase(Count(j), k, f, ph))
  {
    hide Count, QueuedBy, Genuine;
    OpenedAt(j, s, k, ph, firstFlow);
    OnlyAltered(k, f);
    var s1, q := if s.Idle? then Active(map[], [], firstFlow) else s, QueuedBy(k, f).value;
    var s2, ph2 := s1.(ids := s1.ids + [q]), NextPhase(Count(j), k, f, ph);
    assert k as Word !in Have(s2) && !ph2.whole && ph2.asked == ph.asked && ph2.awaited == q;
    assert Awaited(s2, Count(j)) == q;
  }

  lemma OnlyAltered(k: Word, f: Fate)
    requires QueuedBy(k, f).Some?
    ensures f.Altered? && !Silent(f)
  {
  }

  /** The step of the line, for everything that can happen to packet k. */
  lemma PhaseStep(j: Job, s: Session, k: nat, f: Fate, ph: Phase)
    requires Proper(j) && At(j, s, k, ph) && k <= Count(j) && Alters(j, k, f) && !f.Lost?
    ensures var o := Step(s, Parse(Frame(j, ArrivalOf(j, k, f))));
            (o.Fault? <==> s.Idle? && Unpacks(f))
            && (o.Next? ==> StepEnds(j, s, k, f, ph, o))
  {
    hide Step, Parse, Frame, At, Count, Answer, FlowSeen, ArrivalOf, Alters;
    AtWell(j, s, k, ph);
    match f
    case Arrives =>
      WholeStep(j, s, k, ph);
    case Altered(i, b) =>
      AlteredStep(j, s, k, f);
      if Silent(f) {
        SilentAt(j, s, k, f, ph);
      } else {
        QueuedAt(j, s, k, f, ph, FlowSeen(j, k, f));
        OneWrong(j, k, f);
      }
  }

  lemma OneWrong(j: Job, k: nat, f: Fate)
    requires f.Altered? && k < IDS
    ensures Answer([Ack(FlowSeen(j, k, f), DOWN_UPGRADEPACKAGE, MESSAGE_HAS_WRONG)], f, false)
  {
  }

  /** How the step of packet k ends: with the file, with nothing, or with an answer, and behind
      it a request or none. */
  ghost predicate StepEnds(j: Job, s: Session, k: nat, f: Fate, ph: Phase, o: Outcome)
    requires Proper(j) && o.Next? && k < IDS
  {
    var ph2 := NextPhase(Count(j), k, f, ph);
    if Silent(f) then o == Next(s, []) && At(j, s, k + 1, ph2)
    else if f.Arrives? && ph.whole && k == Count(j) then
      o == Next(Idle, [Ack(FlowAt(j, k), DOWN_UPGRADEPACKAGE, SUCCESS), FileWritten(j.kind, j.version, j.file)])
    else
      && o.session.Active? && At(j, o.session, k + 1, ph2)
      && exists asks :: Answer(o.outputs, f, asks) && (!ph.asked ==> asks == ph2.asked)
  }

  lemma WholeStep(j: Job, s: Session, k: nat, ph: Phase)
    requires Proper(j) && At(j, s, k, ph) && 1 <= k <= Count(j) && Alters(j, k, Arrives) && Well(s)
    ensures var o := Step(s, Parse(Frame(j, ArrivalOf(j, k, Arrives))));
            o.Next? && StepEnds(j, s, k, Arrives, ph, o)
  {
    hide Parse, FrameAt, ContentAt, CheckPasses, Carries, KindOf, VersionOf, DataOf, DataInBuffer, IdOf, FlowOf,
         Chunks, Declared, Total, Sequence, PackagedOf, Accept, Genuine, Answer, NextPhase, At;
    assert Frame(j, ArrivalOf(j, k, Arrives)) == FrameAt(j, k);
    var p := Parse(FrameAt(j, k));
    AtWell(j, s, k, ph);
    FrameArrives(j, k);
    GenuineShows(j, k, p);
    var n := Count(j);
    var s1 := Opened(s, p);
    OpenedAt(j, s, k, ph, FlowAt(j, k));
    ArriveAt(j, s1, k, ph, p);
  }

  // ---- Whole lines ------------------------------------------------------------------

  /** The first packet to reach the terminal has lost its package bit. */
  predicate OpensUnpackaged(fates: seq<Fate>) {
    fates != [] && if Silent(fates[0]) then OpensUnpackaged(fates[1..]) else Unpacks(fates[0])
  }

  ghost predicate Asks(outputs: seq<Output>) {
    exists i :: 0 <= i < |outputs| && outputs[i].ResendRequest?
  }

  lemma AsksConcat(a: seq<Output>, b: seq<Output>)
    ensures Asks(a + b) <==> Asks(a) || Asks(b)
  {
    assert forall i :: 0 <= i < |a| ==> (a + b)[i] == a[i];
    assert forall i :: 0 <= i < |b| ==> b[i] == (a + b)[|a| + i];
  }

  ghost predicate LineEnds(j: Job, s: Session, k: nat, fates: seq<Fate>, ph: Phase, o: Outcome)
    requires Proper(j) && k + |fates| <= IDS
  {
    && (o.Fault? <==> s.Idle? && OpensUnpackaged(fates))
    && (o.Next? ==>
          && (Writes(j, o) <==> fates != [] && ph.whole && AllArrive(fates))
          && (ph.asked || Asks(o.outputs) <==> PhaseAfter(Count(j), k, fates, ph).asked))
  }

  lemma NoMore(j: Job, s: Session, k: nat, ph: Phase)
    requires Proper(j) && k <= IDS
    ensures LineEnds(j, s, k, [], ph, Next(s, []))
  {
  }

  /** A packet that did not come changes nothing in what follows but that the file is short. */
  lemma SilentFirst(j: Job, s: Session, k: nat, fates: seq<Fate>, ph: Phase, o: Outcome)
    requires Proper(j) && fates != [] && Silent(fates[0]) && k + |fates| <= IDS && !AllArrive(fates)
    requires LineEnds(j, s, k + 1, fates[1..], NextPhase(Count(j), k, fates[0], ph), o)
    ensures LineEnds(j, s, k, fates, ph, o)
  {
    hide AllArrive, Count, Asks, Writes;
  }

  /** The first packet and the ones behind it. */
  lemma AnswerFirst(j: Job, s: Session, k: nat, fates: seq<Fate>, ph: Phase, o: Outcome, r: Outcome)
    requires Proper(j) && 1 <= k && fates != [] && !Silent(fates[0]) && k + |fates| == Count(j) + 1
    requires AllArrive(fates) <==> fates[0].Arrives? && AllArrive(fates[1..])
    requires o.Next? && StepEnds(j, s, k, fates[0], ph, o) && !(s.Idle? && Unpacks(fates[0]))
    requires if |fates| == 1 then r == Next(o.session, [])
             else o.session.Active? && LineEnds(j, o.session, k + 1, fates[1..], NextPhase(Count(j), k, fates[0], ph), r)
    ensures LineEnds(j, s, k, fates, ph, Then(o, r))
  {
    hide AllArrive, Count, At, Asks, NextPhase, QueuedBy;
    var ph2 := NextPhase(Count(j), k, fates[0], ph);
    if r.Next? {
      AsksConcat(o.outputs, r.outputs);
      OneStep(j, s, k, fates[0], ph, o);
      WritesConcat(j, o, r);
      if |fates| == 1 {
        assert fates[1..] == [];
        NoMore(j, o.session, k + 1, ph2);
        AllOfNone();
      }
    }
  }

  lemma AllOfNone()
    ensures AllArrive([])
  {
  }

  lemma WritesConcat(j: Job, a: Outcome, b: Outcome)
    requires a.Next? && b.Next?
    ensures Writes(j, Then(a, b)) <==> Writes(j, a) || Writes(j, b)
  {
  }

  /** The phase says whether the step writes and whether it asks. */
  lemma OneStep(j: Job, s: Session, k: nat, f: Fate, ph: Phase, o: Outcome)
    requires Proper(j) && 1 <= k <= Count(j) && o.Next? && StepEnds(j, s, k, f, ph, o)
    ensures Writes(j, o) <==> f.Arrives? && ph.whole && k == Count(j)
    ensures ph.asked || Asks(o.outputs) <==> NextPhase(Count(j), k, f, ph).asked
    ensures NextPhase(Count(j), k, f, ph).whole == (ph.whole && f.Arrives?)
  {
    hide Count, At;
  }

  lemma EmptyLine(j: Job, s: Session, k: nat, fates: seq<Fate>)
    requires Proper(j) && Well(s) && Fates(j, k, fates)
    ensures fates == [] ==> Run(s, j, Line(j, k, fates)) == Next(s, [])
    ensures Then(Next(s, []), Run(s, j, Line(j, k, fates))) == Run(s, j, Line(j, k, fates))
  {
    hide Fates, Step, Parse, Frame, Coming;
    var r := Run(s, j, Line(j, k, fates));
    assert r.Next? ==> [] + r.outputs == r.outputs;
  }

  lemma NothingComes(j: Job, s: Session, k: nat, f: Fate, ph: Phase, o: Outcome)
    requires Proper(j) && k <= Count(j) && Silent(f) && (o.Fault? <==> s.Idle? && Unpacks(f))
    requires o.Next? ==> StepEnds(j, s, k, f, ph, o)
    ensures o == Next(s, [])
  {
  }

  lemma FirstUnpacks(j: Job, s: Session, k: nat, fates: seq<Fate>, ph: Phase)
    requires Proper(j) && k + |fates| <= IDS && fates != [] && !Silent(fates[0]) && s.Idle? && Unpacks(fates[0])
    ensures LineEnds(j, s, k, fates, ph, Fault)
  {
  }

  lemma StaysActive(j: Job, s: Session, k: nat, f: Fate, ph: Phase, o: Outcome)
    requires Proper(j) && 1 <= k < Count(j) && !Silent(f) && o.Next? && StepEnds(j, s, k, f, ph, o)
    ensures o.session.Active? && At(j, o.session, k + 1, NextPhase(Count(j), k, f, ph))
  {
    hide At;
  }

  lemma {:induction false} EveryLine(j: Job, s: Session, k: nat, fates: seq<Fate>, ph: Phase)
    requires Proper(j) && At(j, s, k, ph) && Fates(j, k, fates)
    ensures Well(s) && LineEnds(j, s, k, fates, ph, Run(s, j, Line(j, k, fates)))
    decreases |fates|
  {
    hide Step, Parse, Frame, ArrivalOf, At, Fates, Alters, Count, Run, Line, LineEnds, AllArrive, StepEnds, NextPhase,
         Unpacks;
    AtWell(j, s, k, ph);
    if fates == [] {
      EmptyLine(j, s, k, fates);
      NoMore(j, s, k, ph);
    } else {
      FatesRest(j, k, fates);
      FatesCount(j, k, fates);
      LineUnfolds(j, s, k, fates);
      var f, rest := fates[0], fates[1..];
      var ph2 := NextPhase(Count(j), k, f, ph);
      if Silent(f) {
        SilentAt(j, s, k, f, ph);
        EveryLine(j, s, k + 1, rest, ph2);
        SilentFirst(j, s, k, fates, ph, Run(s, j, Line(j, k + 1, rest)));
        if f.Altered? {
          PhaseStep(j, s, k, f, ph);
          NothingComes(j, s, k, f, ph, Step(s, Parse(Frame(j, ArrivalOf(j, k, f)))));
          EmptyLine(j, s, k + 1, rest);
        }
      } else {
        PhaseStep(j, s, k, f, ph);
        var o := Step(s, Parse(Frame(j, ArrivalOf(j, k, f))));
        if o.Fault? {
          FirstUnpacks(j, s, k, fates, ph);
        } else if rest == [] {
          AnswerFirst(j, s, k, fates, ph, o, Next(o.session, []));
          assert o.outputs + [] == o.outputs;
        } else {
          StaysActive(j, s, k, f, ph, o);
          EveryLine(j, o.session, k + 1, rest, ph2);
          AnswerFirst(j, s, k, fates, ph, o, Run(o.session, j, Line(j, k + 1, rest)));
        }
      }
    }
  }

  // ---- When it asks, and when it writes ---------------------------------------------

  lemma {:induction false} AskedExactlyWhen(count: nat, k: nat, fates: seq<Fate>, ph: Phase)
    requires 1 <= k && k + |fates| <= count + 1 <= IDS && (ph.whole ==> ph.awaited == count)
    ensures PhaseAfter(count, k, fates, ph).asked
       <==> ph.asked || (!(ph.whole && AllArrive(fates)) && AwaitedComes(k, fates, ph.awaited))
    decreases |fates|
  {
    hide AllArrive, QueuedBy;
    if fates != [] {
      FirstArrives(fates);
      NothingQueued(k, fates[0]);
      AskedExactlyWhen(count, k + 1, fates[1..], NextPhase(count, k, fates[0], ph));
      if |fates| == 1 {
        AllOfNone();
        assert fates[1..] == [];
      }
    }
  }

  lemma FirstArrives(fates: seq<Fate>)
    requires fates != []
    ensures AllArrive(fates) <==> fates[0].Arrives? && AllArrive(fates[1..])
  {
    assert forall i :: 0 <= i < |fates| - 1 ==> fates[1..][i] == fates[i + 1];
    assert forall i :: 0 < i < |fates| ==> fates[i] == fates[1..][i - 1];
  }

  lemma NothingQueued(k: Word, f: Fate)
    ensures f.Arrives? ==> QueuedBy(k, f) == None
  {
  }

  /** A line that may alter any one byte of any packet, or lose the packet, exactly.  The
      terminal is left in undefined behaviour exactly if the first packet to reach it has lost
      its package bit.  Else it writes the file exactly if every packet arrives whole, and asks
      for packets exactly if one does not and the one it awaits comes: the last number queued
      by an altered packet, or the last packet if none was. */
  lemma TerminalWorksExactlyWhen(j: Job, fates: seq<Fate>)
    requires Proper(j) && Fates(j, 1, fates)
    ensures var o := Run(Idle, j, Line(j, 1, fates));
            (o.Fault? <==> OpensUnpackaged(fates))
            && (o.Next? ==>
                  && (Writes(j, o) <==> AllArrive(fates))
                  && (Asks(o.outputs) <==> !AllArrive(fates) && AwaitedComes(1, fates, Count(j))))
  {
    hide Run, Line, Fates, At, AllArrive, Asks, Writes, PhaseAfter, AwaitedComes, OpensUnpackaged;
    FatesLength(j, fates);
    AtStart(j);
    EveryLine(j, Idle, 1, fates, Phase(Count(j), true, false));
    AskedExactlyWhen(Count(j), 1, fates, Phase(Count(j), true, false));
  }

  /** Alterations that leave the number alone, and no loss: nothing that is awaited comes. */
  lemma {:induction false} KeptNumbersHaveGone(count: nat, k: nat, fates: seq<Fate>, awaited: Word)
    requires 1 <= k && k + |fates| <= count + 1 <= IDS && NumbersKept(fates) && NoneLost(fates)
    requires awaited == count || awaited < k
    ensures AwaitedComes(k, fates, awaited) ==> awaited == count && AllArrive(fates) && k + |fates| == count + 1
    decreases |fates|
  {
    hide AllArrive, QueuedBy, KeepsNumber, MarkOf;
    if fates != [] {
      var f, rest := fates[0], fates[1..];
      assert forall i :: 0 <= i < |rest| ==> rest[i] == fates[i + 1];
      FirstArrives(fates);
      if f.Altered? {
        QueuesItself(k, f);
        KeptNumbersHaveGone(count, k + 1, rest, k);
        assert AwaitedComes(k, fates, awaited) == AwaitedComes(k + 1, rest, k);
        assert k == count ==> rest == [] && !AwaitedComes(k + 1, rest, k);
      } else {
        NothingQueued(k, f);
        KeptNumbersHaveGone(count, k + 1, rest, awaited);
        if k == count {
          AllOfNone();
          assert rest == [];
        }
      }
    }
  }

  lemma QueuesItself(k: Word, f: Fate)
    requires f.Altered? && KeepsNumber(f)
    ensures QueuedBy(k, f) == Some(k)
  {
    KeptNumber(k, f);
  }
}
