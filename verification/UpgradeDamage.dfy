/** What altered bytes do to a transfer: each packet once and in order, as the service sends
    them, each of them whole or with one byte changed that leaves its number alone. */
module UpgradeDamage {
  import opened Bytes
  import opened Framing
  import opened IdSets
  import opened Messages
  import opened UpgradeAltered
  import opened UpgradeJob
  import opened UpgradeLimits
  import opened UpgradeRecovery
  import opened UpgradeSafety
  import opened UpgradeTerminal
  import opened UpgradeWire

  // ---- One packet -------------------------------------------------------------------

  /** After packets 1 to k-1 in order, of which those in hurt were altered: the others are in
      the map, and the list is exactly hurt. */
  ghost predicate Halfway(j: Job, s: Session, k: nat, hurt: seq<Word>)
    requires Proper(j)
  {
    && 1 <= k <= Count(j) + 1 && Well(s) && GenuineSession(j, s)
    && (forall h :: h in hurt ==> 1 <= h < k)
    && (forall m :: m in Have(s) <==> 1 <= m < k && m !in hurt)
    && (if k == 1 then s.Idle? else s.Active? && s.ids == hurt)
  }

  lemma HalfwayWell(j: Job, s: Session, k: nat, hurt: seq<Word>)
    requires Proper(j) && Halfway(j, s, k, hurt)
    ensures Well(s)
  {
  }

  lemma HalfwayMaps(j: Job, s: Session, k: nat, hurt: seq<Word>)
    requires Proper(j) && Halfway(j, s, k, hurt)
    ensures Within(Have(s), Count(j)) && |Have(s)| <= Count(j)
    ensures |Have(s)| == Count(j) <==> k == Count(j) + 1 && hurt == []
  {
    hide Missing, Genuine;
    PresentPlusMissing(Have(s), Count(j));
    if hurt != [] {
      assert hurt[0] in hurt;
      assert hurt[0] !in Have(s);
    } else if k <= Count(j) {
      assert k !in Have(s);
    }
  }

  /** With nothing altered so far, a whole packet is acknowledged, and the last one completes. */
  lemma CleanStep(j: Job, s: Session, k: nat)
    requires Proper(j) && Halfway(j, s, k, []) && k <= Count(j)
    ensures var o := Step(s, Parse(FrameAt(j, k)));
            var ack := Ack(FlowAt(j, k), DOWN_UPGRADEPACKAGE, SUCCESS);
            if k == Count(j) then o == Next(Idle, [ack, FileWritten(j.kind, j.version, j.file)])
            else o.Next? && o.outputs == [ack] && Halfway(j, o.session, k + 1, [])
  {
    hide Step, Parse, FrameAt, Missing, Genuine, Effect;
    HalfwayMaps(j, s, k, []);
    ProperStep(j, s, k);
    CleanEffect(j, s, k, Step(s, Parse(FrameAt(j, k))));
  }

  lemma CleanEffect(j: Job, s: Session, k: nat, o: Outcome)
    requires Proper(j) && Halfway(j, s, k, []) && k <= Count(j) && Within(Have(s), Count(j)) && Effect(j, s, k, o)
    ensures var ack := Ack(FlowAt(j, k), DOWN_UPGRADEPACKAGE, SUCCESS);
            if k == Count(j) then o == Next(Idle, [ack, FileWritten(j.kind, j.version, j.file)])
            else o.Next? && o.outputs == [ack] && Halfway(j, o.session, k + 1, [])
  {
    hide Missing, Genuine, Count;
    FirstOnes(Have(s) + {k}, Count(j), k);
  }

  lemma FirstOnes(have: set<Word>, n: nat, k: nat)
    requires 1 <= k <= n < IDS && forall m :: m in have <==> 1 <= m <= k
    ensures |have| == n <==> k == n
  {
    hide Missing;
    PresentPlusMissing(have, n);
    assert k < n ==> n as Word !in have;
  }

  /** Once a packet was altered, a whole packet is acknowledged and kept, and that is all: the
      awaited number is a number that has passed, and the map stays short of the total. */
  lemma HurtStep(j: Job, s: Session, k: nat, hurt: seq<Word>)
    requires Proper(j) && Halfway(j, s, k, hurt) && k <= Count(j) && hurt != []
    ensures var o := Step(s, Parse(FrameAt(j, k)));
            o.Next? && o.outputs == [Ack(FlowAt(j, k), DOWN_UPGRADEPACKAGE, SUCCESS)]
            && Halfway(j, o.session, k + 1, hurt)
  {
    hide Parse, FrameAt, ContentAt, CheckPasses, Carries, KindOf, VersionOf, DataOf, DataInBuffer, IdOf, FlowOf,
         Chunks, Declared, Assemble, Gaps, Total, Sequence, PackagedOf, KeyOrder, Missing, Genuine, Accept;
    var p := Parse(FrameAt(j, k));
    assert hurt[0] in hurt;
    FrameArrives(j, k);
    GenuineShows(j, k, p);
    HurtAccept(j, s, k, hurt, p);
  }

  lemma HurtAccept(j: Job, s: Session, k: nat, hurt: seq<Word>, p: Packet)
    requires Proper(j) && Halfway(j, s, k, hurt) && 1 < k <= Count(j) && hurt != []
    requires Shows(j, k, p) && Carries(p, ContentAt(j, k))
    ensures var o := Accept(s, p);
            o.Next? && o.outputs == [Ack(FlowAt(j, k), DOWN_UPGRADEPACKAGE, SUCCESS)]
            && Halfway(j, o.session, k + 1, hurt)
  {
    hide ContentAt, Carries, KindOf, VersionOf, DataOf, DataInBuffer, IdOf, FlowOf, Chunks, Declared, Assemble, Request,
         Total, Sequence, PackagedOf, Missing, Genuine, RemoveFirst;
    StoredGenuine(j, s.packets, k, p);
    StoredKeys(j, s, k, p);
    NothingToRemove(hurt, k);
    var s2 := Active(Stored(s, p), hurt, s.firstFlow);
    assert hurt[|hurt| - 1] in hurt;
    HalfwayMaps(j, s2, k + 1, hurt);
    assert |Stored(s, p)| == |Have(s2)|;
  }

  /** The step of the line: what arrives of packet k, in every case. */
  lemma LineStep(j: Job, s: Session, k: nat, f: Fate, hurt: seq<Word>)
    requires Proper(j) && Halfway(j, s, k, hurt) && k <= Count(j)
    requires Alters(j, k, f) && KeepsNumber(f) && !f.Lost?
    ensures var o := Step(s, Parse(Frame(j, ArrivalOf(j, k, f))));
            var ack := Ack(FlowSeen(j, k, f), DOWN_UPGRADEPACKAGE, if f.Arrives? then SUCCESS else MESSAGE_HAS_WRONG);
            if f.Arrives? && hurt == [] && k == Count(j)
            then o == Next(Idle, [ack, FileWritten(j.kind, j.version, j.file)])
            else o.Next? && o.outputs == [ack]
                 && Halfway(j, o.session, k + 1, if f.Arrives? then hurt else hurt + [k])
  {
    hide Step, Parse, FrameAt, TextAt, Genuine, FlowSeen, KeepsNumber, MarkOf, Alters;
    match f
    case Arrives =>
      assert Frame(j, Intact(k)) == FrameAt(j, k) && FlowSeen(j, k, f) == FlowAt(j, k) by { WholeFlow(j, k, f); }
      if hurt == [] {
        CleanStep(j, s, k);
      } else {
        HurtStep(j, s, k, hurt);
      }
    case Altered(i, b) =>
      AlteredStep(j, s, k, f);
      KeptNumber(k, f);
      HurtMore(j, s, k, hurt, FlowSeen(j, k, f));
  }

  lemma WholeFlow(j: Job, k: nat, f: Fate)
    requires f.Arrives? && k < IDS
    ensures FlowSeen(j, k, f) == FlowAt(j, k)
  {
  }

  lemma HurtMore(j: Job, s: Session, k: nat, hurt: seq<Word>, flow: Word)
    requires Proper(j) && Halfway(j, s, k, hurt) && k <= Count(j)
    ensures var s1 := if s.Idle? then Active(map[], [], flow) else s;
            Halfway(j, s1.(ids := s1.ids + [k]), k + 1, hurt + [k])
  {
    NothingIsGenuine(j);
    assert hurt != [] ==> hurt[0] in hurt;
  }

  // ---- Whole transfers --------------------------------------------------------------

  /** One fate for each packet from k on. */
  predicate Fates(j: Job, k: nat, fates: seq<Fate>)
    requires Proper(j)
  {
    && 1 <= k && k + |fates| == Count(j) + 1
    && forall i :: 0 <= i < |fates| ==> Alters(j, k + i, fates[i])
  }

  predicate NumbersKept(fates: seq<Fate>) {
    forall i :: 0 <= i < |fates| ==> KeepsNumber(fates[i])
  }

  predicate NoneLost(fates: seq<Fate>) {
    forall i :: 0 <= i < |fates| ==> !fates[i].Lost?
  }

  predicate AllArrive(fates: seq<Fate>) {
    forall i :: 0 <= i < |fates| ==> fates[i].Arrives?
  }

  lemma FatesRest(j: Job, k: nat, fates: seq<Fate>)
    requires Proper(j) && Fates(j, k, fates) && fates != []
    ensures IsPacket(j, k) && Alters(j, k, fates[0]) && Fates(j, k + 1, fates[1..])
    ensures NoneLost(fates) <==> !fates[0].Lost? && NoneLost(fates[1..])
    ensures AllArrive(fates) <==> fates[0].Arrives? && AllArrive(fates[1..])
    ensures NumbersKept(fates) <==> KeepsNumber(fates[0]) && NumbersKept(fates[1..])
  {
    hide Alters, KeepsNumber;
    assert Alters(j, k + 0, fates[0]);
    assert forall i :: 0 <= i < |fates| - 1 ==> fates[1..][i] == fates[i + 1];
    assert forall i :: 0 < i < |fates| ==> fates[i] == fates[1..][i - 1];
    forall i | 0 <= i < |fates| - 1
      ensures Alters(j, k + 1 + i, fates[1..][i])
    {
      assert Alters(j, k + (i + 1), fates[i + 1]);
    }
  }

  function Coming(j: Job, k: nat, f: Fate): (run: seq<Arrival>)
    requires Sendable(j) && IsPacket(j, k) && Alters(j, k, f)
    ensures AllPossible(j, run)
  {
    if f.Lost? then [] else [ArrivalOf(j, k, f)]
  }

  /** What reaches the terminal. */
  function Line(j: Job, k: nat, fates: seq<Fate>): (run: seq<Arrival>)
    requires Proper(j) && Fates(j, k, fates)
    ensures AllPossible(j, run)
    decreases |fates|
  {
    hide Fates, Alters, Possible, ArrivalOf;
    if fates == [] then []
    else
      FatesRest(j, k, fates);
      Coming(j, k, fates[0]) + Line(j, k + 1, fates[1..])
  }

  /** The numbers of the altered packets. */
  function AlteredIds(k: nat, fates: seq<Fate>): seq<Word>
    requires k + |fates| <= IDS
    decreases |fates|
  {
    if fates == [] then []
    else (if fates[0].Altered? then [k as Word] else []) + AlteredIds(k + 1, fates[1..])
  }

  /** Acknowledgements only: no request for anything, and no file. */
  ghost predicate OnlyAnswers(outputs: seq<Output>) {
    forall i :: 0 <= i < |outputs| ==> outputs[i].Ack?
  }

  /** How a transfer of count more packets ends: with the file, or with the list of the altered
      packets and no word of them. */
  ghost predicate Ends(j: Job, o: Outcome, count: nat, hurt: seq<Word>)
    requires Proper(j)
  {
    && o.Next?
    && if hurt == [] then o.session == Idle && |o.outputs| == count + 1 && FileAtTheEnd(j, o.outputs)
       else Halfway(j, o.session, Count(j) + 1, hurt) && |o.outputs| == count && OnlyAnswers(o.outputs)
  }

  lemma EndsLater(j: Job, first: Outcome, o: Outcome, count: nat, hurt: seq<Word>)
    requires Proper(j) && Ends(j, o, count, hurt)
    requires first.Next? && |first.outputs| == 1 && first.outputs[0].Ack? && (hurt == [] ==> IsSuccess(first.outputs[0]))
    ensures Ends(j, Then(first, o), count + 1, hurt)
  {
    hide Halfway, Count;
    if hurt == [] {
      assert first.outputs == [first.outputs[0]];
      AcksThenFile(j, first.outputs[0], o.outputs);
    }
  }

  lemma {:induction false} LineRuns(j: Job, s: Session, k: nat, fates: seq<Fate>, hurt: seq<Word>)
    requires Proper(j) && Fates(j, k, fates) && NoneLost(fates) && NumbersKept(fates)
    requires fates != [] && Halfway(j, s, k, hurt)
    ensures Ends(j, Run(s, j, Line(j, k, fates)), |fates|, hurt + AlteredIds(k, fates))
    decreases |fates|
  {
    hide Step, Parse, Frame, ArrivalOf, Halfway, Fates, NoneLost, NumbersKept, KeepsNumber, FlowSeen, Alters, Count, Ends,
         Run, Line, Then, AlteredIds;
    FatesRest(j, k, fates);
    FatesCount(j, k, fates);
    HalfwayWell(j, s, k, hurt);
    var rest := fates[1..];
    LineStep(j, s, k, fates[0], hurt);
    LineUnfolds(j, s, k, fates);
    var o := Step(s, Parse(Frame(j, ArrivalOf(j, k, fates[0]))));
    var hurt1 := if fates[0].Arrives? then hurt else hurt + [k as Word];
    AlteredFirst(k, fates, hurt);
    if rest == [] {
      LastOfLine(j, o, hurt1);
      assert hurt1 + AlteredIds(k + 1, rest) == hurt1 by { AlteredNone(k + 1, rest); }
    } else {
      LineRuns(j, o.session, k + 1, rest, hurt1);
      EndsLater(j, o, Run(o.session, j, Line(j, k + 1, rest)), |rest|, hurt + AlteredIds(k, fates));
    }
  }

  lemma LineUnfolds(j: Job, s: Session, k: nat, fates: seq<Fate>)
    requires Proper(j) && Fates(j, k, fates) && fates != [] && Well(s)
    requires IsPacket(j, k) && Alters(j, k, fates[0]) && Fates(j, k + 1, fates[1..])
    ensures fates[0].Lost? ==> Run(s, j, Line(j, k, fates)) == Run(s, j, Line(j, k + 1, fates[1..]))
    ensures !fates[0].Lost? ==>
              var o := Step(s, Parse(Frame(j, ArrivalOf(j, k, fates[0]))));
              Run(s, j, Line(j, k, fates))
              == if o.Fault? then Fault
                 else if |fates| == 1 then o else Then(o, Run(o.session, j, Line(j, k + 1, fates[1..])))
  {
    hide Step, Parse, Frame, ArrivalOf, Fates, Alters;
    var rest := Line(j, k + 1, fates[1..]);
    if fates[0].Lost? {
      assert [] + rest == rest;
    } else {
      assert Line(j, k, fates) == [ArrivalOf(j, k, fates[0])] + rest;
      assert Line(j, k, fates)[1..] == rest;
      var o := Step(s, Parse(Frame(j, ArrivalOf(j, k, fates[0]))));
      if o.Next? && |fates| == 1 {
        assert rest == [];
        assert o.outputs + [] == o.outputs;
      }
    }
  }

  lemma AlteredFirst(k: nat, fates: seq<Fate>, hurt: seq<Word>)
    requires k + |fates| <= IDS && fates != [] && !fates[0].Lost?
    ensures (if fates[0].Arrives? then hurt else hurt + [k as Word]) + AlteredIds(k + 1, fates[1..])
         == hurt + AlteredIds(k, fates)
  {
    assert fates[0].Arrives? ==> [] + AlteredIds(k + 1, fates[1..]) == AlteredIds(k + 1, fates[1..]);
  }

  lemma AlteredNone(k: nat, fates: seq<Fate>)
    requires k <= IDS && fates == []
    ensures AlteredIds(k, fates) == []
  {
  }

  /** The last packet of the line decides between the two endings. */
  lemma LastOfLine(j: Job, o: Outcome, hurt: seq<Word>)
    requires Proper(j)
    requires if hurt == []
             then exists ack :: IsSuccess(ack) && o == Next(Idle, [ack, FileWritten(j.kind, j.version, j.file)])
             else o.Next? && |o.outputs| == 1 && o.outputs[0].Ack? && Halfway(j, o.session, Count(j) + 1, hurt)
    ensures Ends(j, o, 1, hurt)
  {
    hide Halfway, Count;
  }

  lemma FatesCount(j: Job, k: nat, fates: seq<Fate>)
    requires Proper(j) && Fates(j, k, fates) && fates != []
    ensures 1 <= k <= Count(j) && k + |fates| == Count(j) + 1 && (k == Count(j) <==> |fates| == 1)
  {
  }

  lemma {:induction false} AlteredOrArrive(k: nat, fates: seq<Fate>)
    requires k + |fates| <= IDS && NoneLost(fates)
    ensures AlteredIds(k, fates) == [] <==> AllArrive(fates)
    decreases |fates|
  {
    if fates != [] {
      assert forall i :: 0 <= i < |fates| - 1 ==> fates[1..][i] == fates[i + 1];
      assert forall i :: 0 < i < |fates| ==> fates[i] == fates[1..][i - 1];
      AlteredOrArrive(k + 1, fates[1..]);
    }
  }

  lemma StartsHalfway(j: Job)
    requires Proper(j)
    ensures Halfway(j, Idle, 1, [])
  {
  }

  /** Damage exactly: each packet sent once and in order, each whole or with one byte altered
      that leaves id, package bit and sequence number alone, the file is written exactly when
      none is altered.  The terminal never asks for anything; it ends with the altered numbers
      on its list, each reported in an answer of its own, and waits for one that has passed. */
  lemma DamagedTransferWorksExactlyWhen(j: Job, fates: seq<Fate>)
    requires Proper(j) && Fates(j, 1, fates) && NoneLost(fates) && NumbersKept(fates)
    ensures var o := Run(Idle, j, Line(j, 1, fates));
            o.Next? && (Writes(j, o) <==> AllArrive(fates))
            && (forall i :: 0 <= i < |o.outputs| ==> !o.outputs[i].ResendRequest?)
            && (!AllArrive(fates) ==> OnlyAnswers(o.outputs) && |o.outputs| == |fates|
                                      && o.session.Active? && o.session.ids == AlteredIds(1, fates))
  {
    hide Run, Line, Count, Fates, NoneLost, AllArrive, NumbersKept, AlteredIds;
    StartsHalfway(j);
    FatesLength(j, fates);
    LineRuns(j, Idle, 1, fates, []);
    assert [] + AlteredIds(1, fates) == AlteredIds(1, fates);
    AlteredOrArrive(1, fates);
  }

  lemma FatesLength(j: Job, fates: seq<Fate>)
    requires Proper(j) && Fates(j, 1, fates)
    ensures |fates| == Count(j) >= 2
  {
  }

  /** Where the kind stands in a text with header, total and sequence number. */
  const KIND_BYTE := 16

  /** The smallest case: two packets, the kind byte of the first one altered.  It is reported,
      the second is acknowledged, and nothing else happens. */
  lemma FirstPacketAltered()
    ensures var j := Job(0, [], Zeros(1013), 0);
            var fates := [Altered(KIND_BYTE, 1), Arrives];
            Proper(j) && Fates(j, 1, fates) && NoneLost(fates) && NumbersKept(fates)
            && var o := Run(Idle, j, Line(j, 1, fates));
               o.Next? && !Writes(j, o) && OnlyAnswers(o.outputs) && o.session.Active? && o.session.ids == [1]
  {
    hide Run, Line, ContentAt, Bcc, Chunks;
    var j := Job(0, [], Zeros(1013), 0);
    var fates := [Altered(KIND_BYTE, 1), Arrives];
    SmallestProperFile();
    KindByte(j, 1);
    assert !fates[0].Arrives? && fates[1].Arrives?;
    DamagedTransferWorksExactlyWhen(j, fates);
    assert AlteredIds(2, fates[1..]) == [] by { assert fates[1..] == [Arrives]; }
  }

  lemma KindByte(j: Job, k: nat)
    requires Proper(j) && IsPacket(j, k)
    ensures |ContentAt(j, k)| > KIND_BYTE && ContentAt(j, k)[KIND_BYTE] == j.kind
  {
    hide Header, Declared;
    var n := Count(j);
    var front := Header(DOWN_UPGRADEPACKAGE, Attribute(|BodyAt(j, k)| % 1024, true), Zeros(6), FlowAt(j, k))
                 + PartBytes(PartAt(j, k));
    assert ContentAt(j, k) == front + BodyAt(j, k) && |front| == KIND_BYTE;
    assert BodyAt(j, k)[0] == j.kind;
  }
}
