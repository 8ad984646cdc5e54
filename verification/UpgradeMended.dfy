/** An altered sequence number that mends itself: the terminal queues a packet that is still to
    come, and asks for the right one when it has. */
module UpgradeMended {
  import opened Bytes
  import opened IdSets
  import opened Messages
  import opened UpgradeAltered
  import opened UpgradeAsking
  import opened UpgradeDamage
  import opened UpgradeJob
  import opened UpgradeRecovery
  import opened UpgradeSafety
  import opened UpgradeTerminal
  import opened UpgradeWire
  import opened Wrappers

  /** The numbers from a up to but not including b. */
  function Numbers(a: nat, b: nat): (ids: seq<Word>)
    requires a <= b <= IDS
    ensures |ids| == b - a && forall i :: 0 <= i < b - a ==> ids[i] == a + i
  {
    seq(b - a, i requires 0 <= i < b - a => (a + i) as Word)
  }

  lemma NumbersFirst(a: nat, b: nat)
    requires a < b <= IDS
    ensures Numbers(a, b)[0] == a && Numbers(a, b)[1..] == Numbers(a + 1, b)
  {
  }

  // ---- Before the altered packet ----------------------------------------------------

  lemma {:induction false} CleanRun(j: Job, s: Session, a: nat, b: nat)
    requires Proper(j) && Halfway(j, s, a, []) && a <= b <= Count(j)
    ensures Well(s) && InRange(j, Numbers(a, b))
    ensures var o := Deliver(j, s, Numbers(a, b)); o.Next? && OnlyAcks(o.outputs) && Halfway(j, o.session, b, [])
    decreases b - a
  {
    hide Deliver, Step, Parse, FrameAt, Halfway, Count;
    HalfwayWell(j, s, a, []);
    FromOne(j, s, a);
    DeliverFirst(j, s, Numbers(a, b));
    if a < b {
      NumbersFirst(a, b);
      CleanStep(j, s, a);
      CleanRun(j, Step(s, Parse(FrameAt(j, a))).session, a + 1, b);
    }
  }

  lemma FromOne(j: Job, s: Session, a: nat)
    requires Proper(j) && Halfway(j, s, a, [])
    ensures 1 <= a
  {
  }

  // ---- Between the altered packet and the one it is taken for -----------------------

  /** All packets below m but k are there, and the list is the number k was read as. */
  ghost predicate Misled(j: Job, s: Session, k: nat, q: nat, m: nat)
    requires Proper(j)
  {
    && 1 <= k < m <= q <= Count(j) && Well(s) && s.Active? && GenuineSession(j, s)
    && (forall i :: i in s.packets <==> 1 <= i < m && i != k)
    && s.ids == [q as Word]
  }

  /** What is there when k alone is missing. */
  ghost predicate AllBut(have: set<Word>, k: nat, m: nat) {
    forall i :: i in have <==> 1 <= i <= m && i != k
  }

  lemma AllButMissing(have: set<Word>, n: nat, k: nat, m: nat)
    requires 1 <= k <= n < IDS && k < m <= n && AllBut(have, k, m)
    ensures Within(have, n) && |have| < n
    ensures m == n ==> Missing(have, n) == [k as Word]
    ensures var ids := Missing(have, n);
            ids != [] && ids[|ids| - 1] == (if m == n then k else n) && ids[|ids| - 1] as Word !in have
  {
    hide Missing;
    PresentPlusMissing(have, n);
    MissingMembersAll(have, n);
    var ids := Missing(have, n);
    assert k as Word in ids;
    if m == n {
      OnlyOne(ids, k);
    } else {
      assert n as Word in ids;
      LastIsGreatest(ids, n);
    }
  }

  lemma OnlyOne(ids: seq<Word>, k: Word)
    requires StrictlyAscending(ids) && forall i :: i in ids <==> i == k
    ensures ids == [k]
  {
    assert k in ids;
    assert ids[0] in ids && ids[|ids| - 1] in ids;
  }

  lemma LastIsGreatest(ids: seq<Word>, n: Word)
    requires StrictlyAscending(ids) && n in ids && forall i :: i in ids ==> i <= n
    ensures ids[|ids| - 1] == n
  {
    assert ids[|ids| - 1] in ids;
  }

  /** A whole packet before the one that is awaited. */
  lemma MisledStep(j: Job, s: Session, k: nat, q: nat, m: nat)
    requires Proper(j) && Misled(j, s, k, q, m) && m < q
    ensures var o := Step(s, Parse(FrameAt(j, m)));
            o.Next? && OnlyAcks(o.outputs) && Misled(j, o.session, k, q, m + 1)
  {
    hide Parse, FrameAt, ContentAt, CheckPasses, Carries, KindOf, VersionOf, DataOf, DataInBuffer, IdOf, FlowOf,
         Chunks, Declared, Assemble, Gaps, Total, Sequence, PackagedOf, KeyOrder, Missing, Genuine, Accept;
    var p := Parse(FrameAt(j, m));
    FrameArrives(j, m);
    GenuineShows(j, m, p);
    MisledAccept(j, s, k, q, m, p);
  }

  lemma MisledAccept(j: Job, s: Session, k: nat, q: nat, m: nat, p: Packet)
    requires Proper(j) && Misled(j, s, k, q, m) && m < q && Shows(j, m, p) && Carries(p, ContentAt(j, m))
    ensures var o := Accept(s, p);
            o.Next? && OnlyAcks(o.outputs) && Misled(j, o.session, k, q, m + 1)
  {
    hide ContentAt, Carries, KindOf, VersionOf, DataOf, DataInBuffer, IdOf, FlowOf, Chunks, Declared, Assemble, Request,
         Total, Sequence, PackagedOf, Missing, Genuine, RemoveFirst, KeyOrder;
    StoredGenuine(j, s.packets, m, p);
    StoredKeys(j, s, m, p);
    NothingToRemove(s.ids, m);
    AllButMissing(s.packets.Keys + {m as Word}, Count(j), k, m);
  }

  /** The awaited packet: the list is empty, and everything that is missing is asked for. */
  lemma MisledEnds(j: Job, s: Session, k: nat, q: nat)
    requires Proper(j) && Misled(j, s, k, q, q)
    ensures var o := Step(s, Parse(FrameAt(j, q)));
            o.Next? && Waiting(j, o.session) && o.session.Active? && AllBut(Have(o.session), k, q)
            && o.session.ids == Missing(Have(o.session), Count(j))
            && |o.outputs| == 2 && o.outputs[1] == ResendRequest(o.session.firstFlow, o.session.ids)
  {
    hide Parse, FrameAt, ContentAt, CheckPasses, Carries, KindOf, VersionOf, DataOf, DataInBuffer, IdOf, FlowOf,
         Chunks, Declared, Assemble, Gaps, Total, Sequence, PackagedOf, KeyOrder, Missing, Genuine, Accept;
    var p := Parse(FrameAt(j, q));
    FrameArrives(j, q);
    GenuineShows(j, q, p);
    AwaitedAccept(j, s, k, q, p);
  }

  lemma AwaitedAccept(j: Job, s: Session, k: nat, q: nat, p: Packet)
    requires Proper(j) && Misled(j, s, k, q, q) && Shows(j, q, p) && Carries(p, ContentAt(j, q))
    ensures var o := Accept(s, p);
            o.Next? && Waiting(j, o.session) && o.session.Active? && AllBut(Have(o.session), k, q)
            && o.session.ids == Missing(Have(o.session), Count(j))
            && |o.outputs| == 2 && o.outputs[1] == ResendRequest(o.session.firstFlow, o.session.ids)
  {
    hide ContentAt, Carries, KindOf, VersionOf, DataOf, DataInBuffer, IdOf, FlowOf, Chunks, Declared, Assemble, Gaps,
         Total, Sequence, PackagedOf, Missing, Genuine, KeyOrder;
    var n, have := Count(j), s.packets.Keys + {q as Word};
    StoredGenuine(j, s.packets, q, p);
    StoredKeys(j, s, q, p);
    assert RemoveFirst([q as Word], q) == [];
    AllButMissing(have, n, k, q);
    WalkFindsMissing(have, n);
  }

  lemma {:induction false} MisledRun(j: Job, s: Session, k: nat, q: nat, m: nat)
    requires Proper(j) && Misled(j, s, k, q, m)
    ensures Well(s) && InRange(j, Numbers(m, q))
    ensures var o := Deliver(j, s, Numbers(m, q)); o.Next? && Misled(j, o.session, k, q, q)
    decreases q - m
  {
    hide Deliver, Step, Parse, FrameAt, Misled, Count;
    MisledWell(j, s, k, q, m);
    DeliverFirst(j, s, Numbers(m, q));
    if m < q {
      NumbersFirst(m, q);
      MisledStep(j, s, k, q, m);
      MisledRun(j, Step(s, Parse(FrameAt(j, m))).session, k, q, m + 1);
    }
  }

  lemma MisledWell(j: Job, s: Session, k: nat, q: nat, m: nat)
    requires Proper(j) && Misled(j, s, k, q, m)
    ensures Well(s) && 1 <= k < m <= q <= Count(j)
  {
  }

  /** The packet whose number has become q. */
  lemma MisledStarts(j: Job, s: Session, k: nat, q: nat, f: Fate)
    requires Proper(j) && Halfway(j, s, k, []) && k < q <= Count(j)
    requires f.Altered? && Alters(j, k, f) && MarkOf(k, f) == Numbered(q) && Well(s)
    ensures var o := Step(s, Parse(Frame(j, ArrivalOf(j, k, f)))); o.Next? && Misled(j, o.session, k, q, k + 1)
  {
    hide Step, Parse, Frame, ArrivalOf, Alters, MarkOf, FlowSeen, Halfway, Misled, Count;
    FromOne(j, s, k);
    AlteredStep(j, s, k, f);
    MisledFrom(j, s, k, q, FlowSeen(j, k, f));
  }

  lemma MisledFrom(j: Job, s: Session, k: nat, q: Word, flow: Word)
    requires Proper(j) && Halfway(j, s, k, []) && k < q <= Count(j)
    ensures var s1 := if s.Idle? then Active(map[], [], flow) else s;
            Misled(j, s1.(ids := s1.ids + [q]), k, q, k + 1)
  {
    hide Genuine, Count;
    NothingIsGenuine(j);
    var s1 := if s.Idle? then Active(map[], [], flow) else s;
    assert s1.ids + [q] == [q];
    assert Have(s1) == Have(s);
  }

  // ---- Behind the request -----------------------------------------------------------

  /** What is asked for in the end, and what its coming does. */
  ghost predicate AsksFor(j: Job, o: Outcome, k: nat)
    requires Proper(j) && IsPacket(j, k)
  {
    && o.Next? && Waiting(j, o.session) && o.session.Active? && o.session.ids == [k as Word]
    && |o.outputs| > 0 && o.outputs[|o.outputs| - 1] == ResendRequest(o.session.firstFlow, [k as Word])
  }

  /** The packets that are left, of which the last one is awaited now. */
  lemma LastOnes(j: Job, s: Session, k: nat, q: nat)
    requires Proper(j) && 1 <= k < q < Count(j) && Waiting(j, s) && s.Active? && AllBut(Have(s), k, q)
    requires s.ids == Missing(Have(s), Count(j))
    ensures Well(s) && InRange(j, Numbers(q + 1, Count(j) + 1))
    ensures AsksFor(j, Deliver(j, s, Numbers(q + 1, Count(j) + 1)), k)
  {
    hide Deliver, Missing, Waiting, Count, AllBut, Have, Elements;
    var n, ids := Count(j), Numbers(q + 1, Count(j));
    AllButMissing(Have(s), n, k, q);
    assert Trigger(j, s) == n;
    assert ids + [n as Word] == Numbers(q + 1, n + 1);
    OneRound(j, s, ids);
    AllButGrows(Have(s), n, k, q);
    AllButMissing(Have(s) + Elements(ids) + {n as Word}, n, k, n);
  }

  lemma AllButGrows(have: set<Word>, n: nat, k: nat, q: nat)
    requires 1 <= k < q < n < IDS && AllBut(have, k, q)
    ensures AllBut(have + Elements(Numbers(q + 1, n)) + {n as Word}, k, n)
  {
    var ids := Numbers(q + 1, n);
    forall i: Word | q < i < n
      ensures i in Elements(ids)
    {
      assert ids[i - (q + 1)] == i;
    }
  }

  // ---- The whole line ---------------------------------------------------------------

  lemma RunOne(j: Job, s: Session, a: Arrival)
    requires Sendable(j) && Possible(j, a) && Well(s)
    ensures AllPossible(j, [a]) && Run(s, j, [a]) == Step(s, Parse(Frame(j, a)))
  {
    hide Step, Parse, Frame, Possible;
    assert [a][1..] == [];
    var o := Step(s, Parse(Frame(j, a)));
    if o.Next? {
      assert o.outputs + [] == o.outputs;
    }
  }

  /** All packets in order, packet k with one byte altered. */
  function OneAltered(j: Job, k: nat, f: Fate): (run: seq<Arrival>)
    requires Proper(j) && IsPacket(j, k) && Alters(j, k, f) && !f.Lost?
    ensures AllPossible(j, run)
  {
    hide Alters, ArrivalOf;
    Intacts(Numbers(1, k)) + ([ArrivalOf(j, k, f)] + Intacts(Numbers(k + 1, Count(j) + 1)))
  }

  /** Up to the packet that is awaited. */
  lemma UpToAwaited(j: Job, s: Session, k: nat, q: nat)
    requires Proper(j) && Misled(j, s, k, q, k + 1)
    ensures Well(s) && 1 <= k < q <= Count(j) && InRange(j, Numbers(k + 1, q + 1))
    ensures Awaits(j, Deliver(j, s, Numbers(k + 1, q + 1)), k, q)
  {
    hide Deliver, Misled, Step, Parse, FrameAt, Missing, Waiting, AllBut, Count, OnlyAcks, Awaits;
    MisledWell(j, s, k, q, k + 1);
    MisledRun(j, s, k, q, k + 1);
    var first := Numbers(k + 1, q);
    var o := Deliver(j, s, first);
    MisledEnds(j, o.session, k, q);
    DeliverConcat(j, s, first, q);
    assert first + [q as Word] == Numbers(k + 1, q + 1);
    AwaitsThen(j, o, Step(o.session, Parse(FrameAt(j, q))), k, q);
  }

  ghost predicate Awaits(j: Job, o: Outcome, k: nat, q: nat)
    requires Proper(j)
  {
    && o.Next? && Waiting(j, o.session) && o.session.Active? && AllBut(Have(o.session), k, q)
    && o.session.ids == Missing(Have(o.session), Count(j))
    && |o.outputs| > 0 && o.outputs[|o.outputs| - 1] == ResendRequest(o.session.firstFlow, o.session.ids)
  }

  lemma AwaitsThen(j: Job, o: Outcome, o2: Outcome, k: nat, q: nat)
    requires Proper(j) && o.Next? && o2.Next? && Waiting(j, o2.session) && o2.session.Active?
    requires AllBut(Have(o2.session), k, q) && o2.session.ids == Missing(Have(o2.session), Count(j))
    requires |o2.outputs| == 2 && o2.outputs[1] == ResendRequest(o2.session.firstFlow, o2.session.ids)
    ensures Awaits(j, Then(o, o2), k, q)
  {
    hide Waiting, Missing, AllBut, Have, Count;
  }

  /** The rest of the line behind the altered packet. */
  lemma FromMisled(j: Job, s: Session, k: nat, q: nat)
    requires Proper(j) && Misled(j, s, k, q, k + 1)
    ensures Well(s) && IsPacket(j, k) && InRange(j, Numbers(k + 1, Count(j) + 1))
    ensures AsksFor(j, Deliver(j, s, Numbers(k + 1, Count(j) + 1)), k)
  {
    hide Deliver, Misled, Missing, Waiting, AllBut, Have, AsksFor;
    var n := Count(j);
    UpToAwaited(j, s, k, q);
    var first, last := Numbers(k + 1, q + 1), Numbers(q + 1, n + 1);
    var o := Deliver(j, s, first);
    NowAwaited(j, o, k, q);
    if q < n {
      LastOnes(j, o.session, k, q);
      DeliverOn(j, s, first, last);
      assert first + last == Numbers(k + 1, n + 1);
      AsksLater(j, o, Deliver(j, o.session, last), k);
    }
  }

  lemma NowAwaited(j: Job, o: Outcome, k: nat, q: nat)
    requires Proper(j) && Awaits(j, o, k, q) && 1 <= k < q <= Count(j)
    ensures q == Count(j) ==> AsksFor(j, o, k)
  {
    hide Missing, Waiting, AllBut, Have;
    AllButMissing(Have(o.session), Count(j), k, q);
  }

  lemma DeliverOn(j: Job, s: Session, a: seq<Word>, b: seq<Word>)
    requires Proper(j) && Well(s) && InRange(j, a) && InRange(j, b)
    ensures InRange(j, a + b)
    ensures var o := Deliver(j, s, a);
            Deliver(j, s, a + b) == if o.Fault? then Fault else Then(o, Deliver(j, o.session, b))
  {
    hide Step, Parse, FrameAt, Run, Count;
    assert Intacts(a + b) == Intacts(a) + Intacts(b);
    RunConcat(s, j, Intacts(a), Intacts(b));
  }

  lemma AsksLater(j: Job, o: Outcome, r: Outcome, k: nat)
    requires Proper(j) && IsPacket(j, k) && o.Next? && AsksFor(j, r, k)
    ensures AsksFor(j, Then(o, r), k)
  {
    hide Waiting;
  }

  /** The transfer ends with a request for exactly packet k, and packet k completes the file. */
  ghost predicate Mends(j: Job, k: nat, f: Fate)
    requires Proper(j) && IsPacket(j, k) && Alters(j, k, f) && !f.Lost?
  {
    hide Alters, Step, Parse;
    var o := Run(Idle, j, OneAltered(j, k, f));
    && AsksFor(j, o, k)
    && Step(o.session, Parse(FrameAt(j, k)))
       == Next(Idle, [Ack(FlowAt(j, k), DOWN_UPGRADEPACKAGE, SUCCESS), FileWritten(j.kind, j.version, j.file)])
  }

  /** Packet k is read as packet q, which is still to come, and every other packet arrives whole
      and in order. */
  lemma AlteredNumberIsMended(j: Job, k: nat, q: nat, f: Fate)
    requires Proper(j) && 1 <= k < q <= Count(j)
    requires f.Altered? && Alters(j, k, f) && MarkOf(k, f) == Numbered(q)
    ensures Mends(j, k, f)
  {
    hide Run, Step, Parse, FrameAt, Frame, ArrivalOf, Alters, MarkOf, Misled, Halfway, Inv, Missing, Intacts;
    var n, a := Count(j), ArrivalOf(j, k, f);
    var before, behind := Intacts(Numbers(1, k)), Intacts(Numbers(k + 1, n + 1));
    StartsHalfway(j);
    CleanRun(j, Idle, 1, k);
    var o1 := Run(Idle, j, before);
    HalfwayWell(j, o1.session, k, []);
    MisledStarts(j, o1.session, k, q, f);
    RunOne(j, o1.session, a);
    RunConcat(Idle, j, before, [a]);
    var o2 := Run(Idle, j, before + [a]);
    FromMisled(j, o2.session, k, q);
    RunConcat(Idle, j, before + [a], behind);
    assert before + [a] + behind == before + ([a] + behind);
    var r := Run(o2.session, j, behind);
    AsksLater(j, o2, r, k);
    FirstListedPacket(j, r.session);
  }

  /** The smallest such run: the second byte of the first of three numbers becomes 2. */
  lemma FirstNumberAltered(j: Job)
    requires Proper(j) && Count(j) == 3
    ensures Alters(j, 1, Altered(15, 2)) && MarkOf(1, Altered(15, 2)) == Numbered(2)
    ensures Mends(j, 1, Altered(15, 2))
  {
    hide Mends, TextAt;
    HeaderFields(j, 1);
    assert TextAt(j, 1)[15] == 1;
    AlteredNumberIsMended(j, 1, 2, Altered(15, 2));
  }

  // ---- Exactly then -----------------------------------------------------------------

  /** The fates of the packets from a on when packet k alone is altered. */
  function OnlyAltered(j: Job, a: nat, k: nat, f: Fate): (fates: seq<Fate>)
    requires Proper(j) && a <= Count(j) + 1
    ensures |fates| == Count(j) + 1 - a && forall i :: 0 <= i < |fates| ==> fates[i] == if a + i == k then f else Arrives
  {
    seq(Count(j) + 1 - a, i => if a + i == k then f else Arrives)
  }

  lemma OnlyAlteredFirst(j: Job, a: nat, k: nat, f: Fate)
    requires Proper(j) && a <= Count(j)
    ensures var fates := OnlyAltered(j, a, k, f);
            fates[0] == (if a == k then f else Arrives) && fates[1..] == OnlyAltered(j, a + 1, k, f)
  {
    hide Count;
  }

  lemma OnlyAlteredFates(j: Job, a: nat, k: nat, f: Fate)
    requires Proper(j) && 1 <= a <= Count(j) + 1 && IsPacket(j, k) && Alters(j, k, f)
    ensures Fates(j, a, OnlyAltered(j, a, k, f))
  {
    hide TextAt;
  }

  /** What is awaited comes exactly if the altered packet is read as one still to come. */
  lemma {:induction false} ReadAsLater(j: Job, a: nat, k: nat, q: Word, f: Fate, awaited: Word)
    requires Proper(j) && 1 <= a <= Count(j) + 1 && 1 <= k <= Count(j) && f.Altered? && MarkOf(k, f) == Numbered(q)
    requires if a <= k then awaited == Count(j) else awaited == q
    ensures AwaitedComes(a, OnlyAltered(j, a, k, f), awaited) <==> k < q <= Count(j) && (a > k ==> q >= a)
    decreases Count(j) + 1 - a
  {
    hide MarkOf, Count;
    if a <= Count(j) {
      OnlyAlteredFirst(j, a, k, f);
      QueuedNumber(k, f, q);
      NothingQueued(a, Arrives);
      ReadAsLater(j, a + 1, k, q, f, if a + 1 <= k then Count(j) else q);
    }
  }

  lemma QueuedNumber(k: Word, f: Fate, q: Word)
    requires f.Altered? && MarkOf(k, f) == Numbered(q)
    ensures QueuedBy(k, f) == Some(q)
  {
  }

  /** The line from packet a on. */
  lemma LineFrom(j: Job, a: nat, k: nat, f: Fate)
    requires Proper(j) && 1 <= a <= Count(j) && IsPacket(j, k) && Alters(j, k, f)
    ensures Fates(j, a, OnlyAltered(j, a, k, f)) && Fates(j, a + 1, OnlyAltered(j, a + 1, k, f))
    ensures Line(j, a, OnlyAltered(j, a, k, f))
         == (if a == k then Coming(j, k, f) else [Intact(a)]) + Line(j, a + 1, OnlyAltered(j, a + 1, k, f))
  {
    hide Alters, Fates, Count, OnlyAltered, Coming;
    OnlyAlteredFates(j, a, k, f);
    OnlyAlteredFates(j, a + 1, k, f);
    OnlyAlteredFirst(j, a, k, f);
    if a != k {
      WholeComes(j, a);
    }
  }

  lemma WholeComes(j: Job, a: nat)
    requires Sendable(j) && IsPacket(j, a)
    ensures Coming(j, a, Arrives) == [Intact(a)]
  {
  }

  lemma IntactsFirst(a: nat, b: nat, rest: seq<Arrival>)
    requires a < b <= IDS
    ensures Intacts(Numbers(a, b)) + rest == [Intact(a)] + (Intacts(Numbers(a + 1, b)) + rest)
    ensures Intacts(Numbers(a, b)) == [Intact(a)] + Intacts(Numbers(a + 1, b))
  {
    NumbersFirst(a, b);
  }

  /** The two ways to write the line are the same. */
  lemma {:induction false} LineBehind(j: Job, a: nat, k: nat, f: Fate)
    requires Proper(j) && k < a <= Count(j) + 1 && IsPacket(j, k) && Alters(j, k, f)
    ensures Fates(j, a, OnlyAltered(j, a, k, f))
    ensures Line(j, a, OnlyAltered(j, a, k, f)) == Intacts(Numbers(a, Count(j) + 1))
    decreases Count(j) + 1 - a
  {
    hide Alters, Fates, Line, Count, Numbers, Intacts;
    if a <= Count(j) {
      LineFrom(j, a, k, f);
      LineBehind(j, a + 1, k, f);
      IntactsFirst(a, Count(j) + 1, []);
    } else {
      OnlyAlteredFates(j, a, k, f);
      NoneBehind(j, k, f);
    }
  }

  lemma NoneBehind(j: Job, k: nat, f: Fate)
    requires Proper(j) && Fates(j, Count(j) + 1, OnlyAltered(j, Count(j) + 1, k, f))
    ensures Line(j, Count(j) + 1, OnlyAltered(j, Count(j) + 1, k, f)) == Intacts(Numbers(Count(j) + 1, Count(j) + 1))
  {
  }

  lemma {:induction false} LineIs(j: Job, a: nat, k: nat, f: Fate)
    requires Proper(j) && 1 <= a <= k && IsPacket(j, k) && Alters(j, k, f) && !f.Lost?
    ensures Fates(j, a, OnlyAltered(j, a, k, f))
    ensures Line(j, a, OnlyAltered(j, a, k, f))
         == Intacts(Numbers(a, k)) + ([ArrivalOf(j, k, f)] + Intacts(Numbers(k + 1, Count(j) + 1)))
    decreases k - a
  {
    hide Alters, Fates, Line, ArrivalOf, Count, Numbers, Intacts;
    var behind := [ArrivalOf(j, k, f)] + Intacts(Numbers(k + 1, Count(j) + 1));
    LineFrom(j, a, k, f);
    if a == k {
      LineBehind(j, a + 1, k, f);
      assert Intacts(Numbers(k, k)) + behind == behind;
    } else {
      LineIs(j, a + 1, k, f);
      IntactsFirst(a, k, behind);
    }
  }

  /** An altered number is mended exactly if it is the number of a packet still to come: with
      every other packet whole and in order, the terminal then asks for exactly packet k at the
      end of the line, and packet k completes the file; and else it asks for nothing. */
  lemma MendedExactlyWhen(j: Job, k: nat, q: Word, f: Fate)
    requires Proper(j) && IsPacket(j, k) && f.Altered? && Alters(j, k, f) && MarkOf(k, f) == Numbered(q)
    ensures Mends(j, k, f) <==> k < q <= Count(j)
    ensures var o := Run(Idle, j, OneAltered(j, k, f)); o.Next? && (Asks(o.outputs) <==> k < q <= Count(j))
  {
    hide Run, Line, Alters, MarkOf, Fates, Step, Parse, Waiting, FrameAt, ArrivalOf, Intacts, AwaitedComes, AllArrive,
         OpensUnpackaged, Silent, Unpacks;
    var fates := OnlyAltered(j, 1, k, f);
    LineIs(j, 1, k, f);
    NumberedFirst(j, k, q, f);
    TerminalWorksExactlyWhen(j, fates);
    ReadAsLater(j, 1, k, q, f, Count(j));
    if k < q <= Count(j) {
      AlteredNumberIsMended(j, k, q, f);
    }
  }

  lemma NumberedFirst(j: Job, k: nat, q: Word, f: Fate)
    requires Proper(j) && IsPacket(j, k) && f.Altered? && MarkOf(k, f) == Numbered(q)
    ensures !AllArrive(OnlyAltered(j, 1, k, f)) && !OpensUnpackaged(OnlyAltered(j, 1, k, f))
  {
    var fates := OnlyAltered(j, 1, k, f);
    assert !fates[k - 1].Arrives?;
  }
}
