/** An upgrade as the service sets it up: the packets it cuts, the total it declares, and
    what the terminal sees of each frame. */
module UpgradeJob {
  import opened Bytes
  import opened Framing
  import opened IdSets
  import opened Messages
  import opened UpgradeTerminal
  import opened UpgradeWire

  /** flow is the service's flow number before the first packet. */
  datatype Job = Job(kind: Byte, version: seq<Byte>, file: seq<Byte>, flow: Word)

  /** DeviceNode.upgrade_version holds eleven characters and a terminating zero. */
  const MAX_VERSION := 11

  function MaxData(j: Job): (m: nat)
    requires |j.version| <= MAX_VERSION
    ensures 1001 <= m <= 1012
  {
    1023 - 11 - |j.version|
  }

  /** Within these bounds the 16-bit packet numbers of both sides do not wrap. */
  predicate Sendable(j: Job) {
    |j.version| <= MAX_VERSION && |Pieces(j)| <= 65534
  }

  function Pieces(j: Job): seq<seq<Byte>>
    requires |j.version| <= MAX_VERSION
  {
    Chunks(j.file, MaxData(j))
  }

  /** What a job may be, in a caller's terms. */
  lemma SendableExactlyWhen(j: Job)
    ensures Sendable(j) <==> |j.version| <= 11 && |j.file| <= 65534 * (1012 - |j.version|)
  {
    hide Chunks;
    if |j.version| <= 11 {
      ChunksCoverFile(j.file, MaxData(j));
      RoundedUp(|j.file|, MaxData(j));
    }
  }

  lemma RoundedUp(n: nat, m: nat)
    requires m > 0
    ensures n / m + (if n % m == 0 then 0 else 1) <= 65534 <==> n <= 65534 * m
  {
    var q, r := n / m, n % m;
    assert n == q * m + r;
    if q <= 65533 {
      assert q * m <= 65533 * m;
    } else if q >= 65535 {
      assert q * m >= 65535 * m;
    }
  }

  /** The packet count the service declares. */
  function Declared(j: Job): Word
    requires |j.version| <= MAX_VERSION
  {
    (|j.file| / MaxData(j) + 1) % 0x1_0000
  }

  function FlowAt(j: Job, k: nat): Word {
    (j.flow + k) % 0x1_0000
  }

  function PartAt(j: Job, k: Word): Part
    requires |j.version| <= MAX_VERSION
  {
    if Declared(j) > 1 then Part(Declared(j), k) else Whole
  }

  predicate IsPacket(j: Job, k: nat)
    requires |j.version| <= MAX_VERSION
  {
    1 <= k <= |Pieces(j)| && k < IDS
  }

  function BodyAt(j: Job, k: nat): (b: seq<Byte>)
    requires Sendable(j) && IsPacket(j, k)
    ensures |b| == 11 + |j.version| + |Pieces(j)[k - 1]| <= MAX_BODY
  {
    ChunksCoverFile(j.file, MaxData(j));
    UpgradeBody(j.kind, Zeros(5), j.version, Pieces(j)[k - 1])
  }

  function ContentAt(j: Job, k: nat): (c: seq<Byte>)
    requires Sendable(j) && IsPacket(j, k)
    ensures |c| <= 16 + MAX_BODY
  {
    Content(DOWN_UPGRADEPACKAGE, Zeros(6), FlowAt(j, k), PartAt(j, k), BodyAt(j, k))
  }

  function FrameAt(j: Job, k: nat): (f: seq<Byte>)
    requires Sendable(j) && IsPacket(j, k)
    ensures 0 < |f| <= 2082
  {
    FrameLength(ContentAt(j, k));
    Wire(ContentAt(j, k))
  }

  /** The service sends as many packets as the quotient rounded up but declares the quotient
      rounded down plus one: the two agree exactly when the last packet is not full. */
  lemma DeclaredVersusSent(j: Job)
    requires Sendable(j)
    ensures Declared(j) == |j.file| / MaxData(j) + 1
    ensures |Pieces(j)| <= Declared(j) <= |Pieces(j)| + 1
    ensures Declared(j) == |Pieces(j)| <==> |j.file| % MaxData(j) != 0
    ensures Declared(j) > 1 <==> |j.file| >= MaxData(j)
  {
    hide Chunks, Flatten;
    ChunksCoverFile(j.file, MaxData(j));
    AtLeastOneQuotient(|j.file|, MaxData(j));
  }

  /** How a file is cut, without a word of the chunk size: every packet but the last carries a
      body of exactly 1023 bytes, the last one what is left, and the declared total is the
      quotient by what 1023 bytes leave beside the version. */
  lemma BodiesAreFull(j: Job, k: nat)
    requires Sendable(j) && IsPacket(j, k)
    ensures k < |Pieces(j)| ==> |BodyAt(j, k)| == 1023
    ensures k == |Pieces(j)| ==> |BodyAt(j, k)| == |j.file| - (1012 - |j.version|) * (k - 1) + 11 + |j.version| <= 1023
    ensures Declared(j) == |j.file| / (1012 - |j.version|) + 1
  {
    hide Chunks;
    DeclaredVersusSent(j);
    var m := MaxData(j);
    if k < |Pieces(j)| {
      FullChunk(j.file, m, k - 1);
    } else {
      ChunkAt(j.file, m, k - 1);
      LastChunk(j.file, m, k - 1);
    }
  }

  lemma AtLeastOneQuotient(n: nat, m: nat)
    requires m > 0
    ensures n / m >= 1 <==> n >= m
  {
  }

  /** What the terminal reads from any buffer that carries packet k. */
  lemma PacketReadBack(j: Job, k: nat, p: Packet)
    requires Sendable(j) && IsPacket(j, k) && Carries(p, ContentAt(j, k))
    ensures IdOf(p) == DOWN_UPGRADEPACKAGE && FlowOf(p) == FlowAt(j, k)
    ensures PackagedOf(p) <==> Declared(j) > 1
    ensures Declared(j) > 1 ==> TotalOf(p) == Declared(j) && SequenceOf(p) == k
    ensures var at := BodyPos(PartAt(j, k));
            KindOf(p, at) == j.kind && VersionOf(p, at) == j.version
            && DataInBuffer(p, at) && DataOf(p, at) == Pieces(j)[k - 1]
  {
    var body, part := BodyAt(j, k), PartAt(j, k);
    HeaderReadBack(p, DOWN_UPGRADEPACKAGE, |body| % 1024, Zeros(6), FlowAt(j, k), part, body);
    BodyReadBack(p, DOWN_UPGRADEPACKAGE, |body| % 1024, Zeros(6), FlowAt(j, k), part, body);
    UpgradeReadBack(p, BodyPos(part), j.kind, Zeros(5), j.version, Pieces(j)[k - 1]);
  }

  /** The same without the terminal's reading: which bytes stand where.  The service leaves the
      phone number and the manufacturer at zero, and numbers its messages and its packets. */
  lemma PacketLies(j: Job, k: nat, p: Packet)
    requires Sendable(j) && IsPacket(j, k) && Carries(p, ContentAt(j, k))
    ensures var b, v, piece := p.buffer, |j.version|, Pieces(j)[k - 1];
            var many := |j.file| >= 1012 - v;
            var at := if many then 17 else 13;
            && WordAt(b, 1) == 0x8108 && b[5..11] == Zeros(6) && WordAt(b, 11) == (j.flow + k) % 0x1_0000
            && WordAt(b, 3) == (11 + v + |piece|) + (if many then 0x2000 else 0)
            && (many ==> WordAt(b, 13) == |j.file| / (1012 - v) + 1 && WordAt(b, 15) == k)
            && at + 11 + v + |piece| <= 4096
            && b[at] == j.kind && b[at + 1..at + 6] == Zeros(5) && b[at + 6] == v && b[at + 7..at + 7 + v] == j.version
            && DWordAt(b, at + 7 + v) == |piece| && b[at + 11 + v..at + 11 + v + |piece|] == piece
  {
    hide WordAt, DWordAt, UpgradeBody, Chunks, IdOf, FlowOf, PackagedOf, TotalOf, SequenceOf, Declared, Header,
         PartBytes, Attribute, Zeros, Be16, Be32;
    DeclaredVersusSent(j);
    var body, part := BodyAt(j, k), PartAt(j, k);
    HeaderReadBack(p, DOWN_UPGRADEPACKAGE, |body| % 1024, Zeros(6), FlowAt(j, k), part, body);
    BodyReadBack(p, DOWN_UPGRADEPACKAGE, |body| % 1024, Zeros(6), FlowAt(j, k), part, body);
    UpgradeBodyLies(p.buffer, BodyPos(part), j.kind, Zeros(5), j.version, Pieces(j)[k - 1]);
  }

  /** Packet k survives framing, escaping and the parser, and its check passes. */
  lemma FrameArrives(j: Job, k: nat)
    requires Sendable(j) && IsPacket(j, k)
    ensures var p := Parse(FrameAt(j, k));
            p.size >= 3 && CheckPasses(p) && Carries(p, ContentAt(j, k))
  {
    FrameRoundTrip(ContentAt(j, k));
  }

  // ---- Arrivals ---------------------------------------------------------------------

  /** What may reach the terminal: an intact packet, any number of times and in any order,
      or a frame whose text does not fit its check byte. */
  datatype Arrival = Intact(k: nat) | Damaged(text: seq<Byte>)

  predicate Possible(j: Job, a: Arrival)
    requires Sendable(j)
  {
    match a
    case Intact(k) => IsPacket(j, k)
    case Damaged(text) => |text| > 0 && |Delimited(text)| <= MAX_FRAME && !Checked(text)
  }

  function Frame(j: Job, a: Arrival): (f: seq<Byte>)
    requires Sendable(j) && Possible(j, a)
    ensures 0 < |f| <= MAX_FRAME
  {
    match a
    case Intact(k) => FrameAt(j, k)
    case Damaged(text) => Delimited(text)
  }

  /** A packet with one byte of its content or its check byte changed is such a frame. */
  lemma OneAlteredByteIsDamage(j: Job, k: nat, i: nat, b: Byte)
    requires Sendable(j) && IsPacket(j, k) && i <= |ContentAt(j, k)|
    requires b != (ContentAt(j, k) + [Bcc(ContentAt(j, k))])[i]
    ensures Possible(j, Damaged((ContentAt(j, k) + [Bcc(ContentAt(j, k))])[i := b]))
  {
    var text := (ContentAt(j, k) + [Bcc(ContentAt(j, k))])[i := b];
    OneAlteredByteIsSeen(ContentAt(j, k), i, b);
    EscapeBounds(text);
  }

  /** A damaged frame never passes the check, whatever else it says. */
  lemma DamageIsSeen(text: seq<Byte>)
    requires |text| > 0 && |Delimited(text)| <= MAX_FRAME && !Checked(text)
    ensures Parse(Delimited(text)).size >= 3 && !CheckPasses(Parse(Delimited(text)))
  {
    ParseDelimited(text);
  }

  // ---- Runs -------------------------------------------------------------------------

  predicate AllPossible(j: Job, run: seq<Arrival>)
    requires Sendable(j)
  {
    forall i :: 0 <= i < |run| ==> Possible(j, run[i])
  }

  function Then(first: Outcome, second: Outcome): Outcome {
    if first.Fault? || second.Fault? then Fault else Next(second.session, first.outputs + second.outputs)
  }

  /** The terminal, from s, through a sequence of arrivals. */
  function Run(s: Session, j: Job, run: seq<Arrival>): (o: Outcome)
    requires Sendable(j) && AllPossible(j, run) && Well(s)
    ensures o.Next? ==> Well(o.session)
    decreases |run|
  {
    if run == [] then Next(s, [])
    else
      var o := Step(s, Parse(Frame(j, run[0])));
      if o.Fault? then Fault else Then(o, Run(o.session, j, run[1..]))
  }

  lemma ThenAssociates(a: Outcome, b: Outcome, c: Outcome)
    ensures Then(a, Then(b, c)) == Then(Then(a, b), c)
  {
  }

  /** A run, and then another from the state the first one leaves. */
  function RunOn(o: Outcome, j: Job, run: seq<Arrival>): (o': Outcome)
    requires Sendable(j) && AllPossible(j, run) && (o.Next? ==> Well(o.session))
    ensures o'.Next? ==> Well(o'.session)
  {
    if o.Fault? then Fault else Then(o, Run(o.session, j, run))
  }

  lemma {:induction false} RunConcat(s: Session, j: Job, run1: seq<Arrival>, run2: seq<Arrival>)
    requires Sendable(j) && AllPossible(j, run1) && AllPossible(j, run2) && Well(s)
    ensures AllPossible(j, run1 + run2)
    ensures Run(s, j, run1 + run2) == RunOn(Run(s, j, run1), j, run2)
    decreases |run1|
  {
    hide Step, Frame, Parse, Sendable;
    if run1 == [] {
      assert run1 + run2 == run2;
      var o := Run(s, j, run2);
      assert o.Next? ==> [] + o.outputs == o.outputs;
    } else {
      assert (run1 + run2)[0] == run1[0] && (run1 + run2)[1..] == run1[1..] + run2;
      var o := Step(s, Parse(Frame(j, run1[0])));
      if o.Next? {
        RunConcat(o.session, j, run1[1..], run2);
        var a := Run(o.session, j, run1[1..]);
        if a.Next? {
          ThenAssociates(o, a, Run(a.session, j, run2));
        }
      }
    }
  }
}
