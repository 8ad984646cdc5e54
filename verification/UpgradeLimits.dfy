/** Where the transfer fails: exactly which files arrive at all, and exactly when the
    terminal is left in undefined behaviour. */
module UpgradeLimits {
  import opened Bytes
  import opened Framing
  import opened IdSets
  import opened Messages
  import opened UpgradeJob
  import opened UpgradeRecovery
  import opened UpgradeSafety
  import opened UpgradeTerminal
  import opened UpgradeWire

  ghost predicate NoFile(outputs: seq<Output>) {
    forall i :: 0 <= i < |outputs| ==> !outputs[i].FileWritten?
  }

  /** The declared total is out of reach: more packets are announced than are ever sent. */
  predicate OverDeclared(j: Job) {
    Sendable(j) && Declared(j) > 1 && Declared(j) > |Pieces(j)|
  }

  lemma OverDeclaredStep(j: Job, s: Session, a: Arrival)
    requires OverDeclared(j) && Possible(j, a) && Well(s) && GenuineSession(j, s)
    ensures var o := Step(s, Parse(Frame(j, a)));
            o.Next? ==> GenuineSession(j, o.session) && NoFile(o.outputs)
  {
    hide Parse, ContentAt, CheckPasses, Carries, KindOf, VersionOf, DataOf, DataInBuffer, IdOf, FlowOf, Chunks,
         Declared, Assemble, Gaps, Total, Sequence, PackagedOf, KeyOrder, Checked, Wire;
    ArrivalStep(j, s, a);
    match a
    case Damaged(text) =>
      DamageIsSeen(text);
      assert Frame(j, a) == Delimited(text);
    case Intact(k) =>
      assert Frame(j, a) == FrameAt(j, k);
      var p := Parse(FrameAt(j, k));
      FrameArrives(j, k);
      GenuineShows(j, k, p);
      var s1 := Opened(s, p);
      if s1.Active? {
        NothingIsGenuine(j);
        StoredGenuine(j, s1.packets, k, p);
        GenuineHolds(j, Stored(s1, p));
        HeldIds(Stored(s1, p), Pieces(j), Pos(j));
      }
  }

  /** Over-declared, no run ever writes a file, whatever arrives. */
  lemma {:induction false} OverDeclaredNeverCompletes(j: Job, s: Session, run: seq<Arrival>)
    requires OverDeclared(j) && AllPossible(j, run) && Well(s) && GenuineSession(j, s)
    ensures var o := Run(s, j, run); o.Next? ==> NoFile(o.outputs)
    decreases |run|
  {
    hide Parse, Frame, Step, Possible, Genuine;
    if run != [] {
      OverDeclaredStep(j, s, run[0]);
      var o := Step(s, Parse(Frame(j, run[0])));
      if o.Next? {
        OverDeclaredNeverCompletes(j, o.session, run[1..]);
      }
    }
  }

  /** A file below one chunk goes without the package bit, and a terminal that has seen no
      other packet follows a null pointer on it. */
  lemma SmallFileFaults(j: Job, run: seq<Arrival>)
    requires Sendable(j) && 0 < |j.file| < MaxData(j)
    requires AllPossible(j, run) && run != [] && run[0].Intact?
    ensures Run(Idle, j, run) == Fault
  {
    hide Parse, ContentAt, CheckPasses, Carries, KindOf, VersionOf, DataOf, DataInBuffer, Chunks, Declared, Accept, Wire;
    var k := run[0].k;
    FrameArrives(j, k);
    GenuineShows(j, k, Parse(FrameAt(j, k)));
    DeclaredVersusSent(j);
    assert Frame(j, run[0]) == FrameAt(j, k);
  }

  /** Every packet once, in order, nothing lost. */
  function InOrder(j: Job, from: nat): (run: seq<Arrival>)
    requires Sendable(j) && from >= 1
    ensures AllPossible(j, run)
    decreases |Pieces(j)| as int + 1 - from
  {
    if from > |Pieces(j)| then [] else [Intact(from)] + InOrder(j, from + 1)
  }

  predicate Writes(j: Job, o: Outcome) {
    o.Next? && FileWritten(j.kind, j.version, j.file) in o.outputs
  }

  lemma InOrderIsUpTo(j: Job, from: nat)
    requires Proper(j) && from >= 1
    ensures InOrder(j, from) == Intacts(UpTo(from, Count(j)))
    decreases Count(j) as int + 1 - from
  {
    if from <= Count(j) {
      InOrderIsUpTo(j, from + 1);
      assert UpTo(from, Count(j)) == [from as Word] + UpTo(from + 1, Count(j));
    }
  }

  lemma {:induction false} UpToMembers(from: nat, n: nat)
    requires n < IDS
    ensures forall k :: k in UpTo(from, n) <==> from <= k <= n
    decreases n as int + 1 - from
  {
    if from <= n {
      UpToMembers(from + 1, n);
    }
  }

  lemma {:induction false} UpToSplits(from: nat, n: nat)
    requires 1 <= from <= n < IDS
    ensures UpTo(from, n) == UpTo(from, n - 1) + [n]
    decreases n - from
  {
    if from < n {
      UpToSplits(from + 1, n);
      assert UpTo(from, n - 1) == [from as Word] + UpTo(from + 1, n - 1);
    }
  }

  /** A proper file sent over a lossless line: one success for every packet, then the file. */
  lemma ProperFileArrives(j: Job)
    requires Proper(j)
    ensures Writes(j, Run(Idle, j, InOrder(j, 1)))
    ensures var o := Run(Idle, j, InOrder(j, 1));
            o.Next? && |o.outputs| == Count(j) + 1 && FileAtTheEnd(j, o.outputs)
  {
    hide Run, FrameAt, Inv, Waiting, Missing, UpTo, InOrder;
    var n := Count(j);
    InOrderIsUpTo(j, 1);
    UpToSplits(1, n);
    UpToIs(1, n);
    var ids := UpTo(1, n - 1);
    UpToMembers(1, n - 1);
    forall i | 0 <= i < |ids|
      ensures 1 <= ids[i] <= n
    {
      assert ids[i] in ids;
    }
    RecoveryInOneRound(j, ids);
    PresentPlusMissing(Elements(ids) + {n}, n);
    assert Missing(Elements(ids) + {n}, n) == [];
    assert Deliver(j, Idle, ids + [n]).Next?;
  }

  /** Over a lossless line, delivering everything in order produces the file exactly when
      the file is longer than one chunk, which is what 1023 bytes leave beside eleven and the
      version, and its length is not a multiple of that. */
  lemma LosslessTransferWorksExactlyWhen(j: Job)
    requires Sendable(j) && KnownKind(j.kind)
    ensures Writes(j, Run(Idle, j, InOrder(j, 1)))
            <==> |j.file| > 1012 - |j.version| && |j.file| % (1012 - |j.version|) != 0
  {
    hide Run, Declared, FrameAt;
    var m := MaxData(j);
    DeclaredVersusSent(j);
    if |j.file| > m && |j.file| % m != 0 {
      ProperFileArrives(j);
    } else if j.file == [] {
      EmptyFile(j);
    } else if |j.file| < m {
      assert |Pieces(j)| >= 1;
      assert InOrder(j, 1)[0] == Intact(1);
      SmallFileFaults(j, InOrder(j, 1));
    } else {
      MultipleWhenEqual(|j.file|, m);
      OverDeclaredNeverCompletes(j, Idle, InOrder(j, 1));
    }
  }

  lemma EmptyFile(j: Job)
    requires Sendable(j) && j.file == []
    ensures Run(Idle, j, InOrder(j, 1)) == Next(Idle, [])
  {
  }

  lemma MultipleWhenEqual(n: nat, m: nat)
    requires 0 < m
    ensures n == m ==> n % m == 0
  {
  }

  /** 1012 bytes without a version fill one packet exactly: two are declared, one is sent. */
  lemma FullPacketNeverArrives(j: Job, run: seq<Arrival>)
    requires j.version == [] && |j.file| == 1012
    ensures Sendable(j) && Declared(j) == 2 && |Pieces(j)| == 1
    ensures AllPossible(j, run) && Run(Idle, j, run).Next? ==> NoFile(Run(Idle, j, run).outputs)
  {
    assert Pieces(j) == [j.file];
    if AllPossible(j, run) {
      OverDeclaredNeverCompletes(j, Idle, run);
    }
  }

  // ---- Undefined behaviour ----------------------------------------------------------

  /** Whatever arrives of a job, intact or damaged, the terminal is left in undefined
      behaviour exactly by an upgrade frame without the package bit that finds no session, and
      by the packet that empties its list when 0xFFFF packets are declared: the loop that then
      counts up to that total never ends. */
  lemma FaultsExactlyWhen(j: Job, s: Session, a: Arrival)
    requires Sendable(j) && Possible(j, a) && Well(s) && GenuineSession(j, s)
    ensures var p := Parse(Frame(j, a));
            Step(s, p) == Fault
            <==> (IdOf(p) == DOWN_UPGRADEPACKAGE && s.Idle? && !PackagedOf(p))
                 || (Declared(j) == 0xFFFF && a.Intact? && s.Active? && s.ids == [a.k as Word])
  {
    hide Parse, ContentAt, CheckPasses, Carries, KindOf, VersionOf, DataOf, DataInBuffer, IdOf, FlowOf, Chunks,
         Declared, Assemble, Gaps, TotalOf, SequenceOf, PackagedOf, KeyOrder, Checked, Wire;
    match a
    case Damaged(text) =>
      DamageIsSeen(text);
      assert Frame(j, a) == Delimited(text);
    case Intact(k) =>
      assert Frame(j, a) == FrameAt(j, k);
      var p := Parse(FrameAt(j, k));
      FrameArrives(j, k);
      GenuineShows(j, k, p);
      var s1 := Opened(s, p);
      if s1.Active? {
        NothingIsGenuine(j);
        StoredGenuine(j, s1.packets, k, p);
        AcceptFaultsExactlyWhen(j, s1, k, p);
      }
  }

  lemma AcceptFaultsExactlyWhen(j: Job, s: Session, k: nat, p: Packet)
    requires Sendable(j) && s.Active? && Well(s)
    requires Shows(j, k, p) && Genuine(j, Insert(s.packets, k, p))
    ensures Accept(s, p) == Fault <==> Declared(j) == 0xFFFF && s.ids == [k as Word]
  {
    hide Carries, ContentAt, KindOf, VersionOf, DataOf, DataInBuffer, IdOf, FlowOf, Chunks, Declared, Assemble, Gaps,
         PackagedOf, KeyOrder, Total, Sequence, RemoveFirst;
    StoredKeys(j, s, k, p);
    DeclaredVersusSent(j);
    LastRemoved(s.ids, k);
    var s2 := Active(Stored(s, p), RemoveFirst(s.ids, Sequence(p)), s.firstFlow);
    GenuineHolds(j, s2.packets);
    HeldIds(s2.packets, Pieces(j), Pos(j));
    if Total(p) == 0 || |s2.packets| == Total(p) {
      AssembleGenuine(j, s2, p, k, Ack(FlowOf(p), IdOf(p), SUCCESS));
    }
  }

  lemma LastRemoved(ids: seq<Word>, k: Word)
    ensures RemoveFirst(ids, k) == [] <==> ids == [] || ids == [k]
  {
    if |ids| == 1 {
      assert ids == [ids[0]];
    }
  }

  /** One damaged byte can do that: clear the package bit of the first packet. */
  lemma LostPackageBitFaults(j: Job)
    requires Proper(j)
    ensures var c := ContentAt(j, 1);
            |c| > 2 && c[2] >= 0x20
            && Possible(j, Damaged((c + [Bcc(c)])[2 := c[2] - 0x20]))
            && Step(Idle, Parse(Frame(j, Damaged((c + [Bcc(c)])[2 := c[2] - 0x20])))) == Fault
  {
    hide Step, Parse, Escape, Unescape, Checked, UpgradeBody, Bcc;
    var c := ContentAt(j, 1);
    var body := BodyAt(j, 1);
    var attribute := Attribute(|body| % 1024, true);
    assert Count(j) > 1 && PartAt(j, 1).Part?;
    HeaderStart(Zeros(6), attribute, FlowAt(j, 1), PartBytes(PartAt(j, 1)) + body);
    assert c == Header(DOWN_UPGRADEPACKAGE, attribute, Zeros(6), FlowAt(j, 1)) + (PartBytes(PartAt(j, 1)) + body);
    assert c[0..2] == Be16(DOWN_UPGRADEPACKAGE) && c[2..4] == Be16(attribute);
    assert c[0] == 0x81 && c[1] == 0x08 && c[2] == attribute / 0x100 && c[3] == attribute % 0x100;
    assert 0x20 <= c[2] < 0x24;
    OneAlteredByteIsDamage(j, 1, 2, c[2] - 0x20);
    var text := (c + [Bcc(c)])[2 := c[2] - 0x20];
    ClearedBit(text, c[2] - 0x20, c[3]);
  }

  lemma HeaderStart(phone: seq<Byte>, attribute: Word, flow: Word, rest: seq<Byte>)
    requires |phone| == 6
    ensures var c := Header(DOWN_UPGRADEPACKAGE, attribute, phone, flow) + rest;
            c[0..2] == Be16(DOWN_UPGRADEPACKAGE) && c[2..4] == Be16(attribute)
  {
  }

  lemma ClearedBit(text: seq<Byte>, hi: Byte, lo: Byte)
    requires |text| > 12 && |Delimited(text)| <= MAX_FRAME && !Checked(text)
    requires text[0] == 0x81 && text[1] == 0x08 && text[2] == hi && text[3] == lo && hi < 0x20
    ensures Step(Idle, Parse(Delimited(text))) == Fault
  {
    hide Escape, Parse, Checked, CheckPasses;
    ParseDelimited(text);
    var p := Parse(Delimited(text));
    forall i | 0 <= i < 4
      ensures p.buffer[1 + i] == text[i]
    {
      assert p.buffer[1..|text| + 1][i] == text[i];
    }
    assert WordAt(p.buffer, 1) == 0x8108;
  }
}
