/** A whole upgrade over one line: the service's sending loop and the terminal step by step,
    each packet delivered, altered or lost, every answer going back. */
module UpgradeTransfer {
  import opened Bytes
  import opened IdSets
  import opened Messages
  import opened UpgradeAltered
  import opened UpgradeAsking
  import opened UpgradeCompletion
  import opened UpgradeDamage
  import opened UpgradeDialogue
  import opened UpgradeJob
  import opened UpgradeLimits
  import opened UpgradeRecovery
  import opened UpgradeService
  import opened UpgradeTerminal
  import opened UpgradeWire

  /** What the terminal's outputs are to the service; writing the file sends nothing. */
  function Replies(outputs: seq<Output>): seq<Event> {
    if outputs == [] then []
    else
      (match outputs[0]
       case Ack(_, id, result) => [Arrived(Response(id, result))]
       case ResendRequest(_, ids) => [Arrived(ResendList(ids))]
       case FileWritten(_, _, _) => [])
      + Replies(outputs[1..])
  }

  /** Both ends of the line. */
  datatype Ends = Ends(terminal: Outcome, link: Link)

  /** The sending loop from packet k on.  A lost packet brings no answer, and the loop waits
      until the connection is closed. */
  function Transfer(j: Job, o: Outcome, l: Link, k: nat, fates: seq<Fate>): (e: Ends)
    requires Proper(j) && Fates(j, k, fates) && (o.Next? ==> Well(o.session))
    ensures e.terminal.Next? ==> Well(e.terminal.session)
    decreases |fates|
  {
    if fates == [] || !l.open || o.Fault? then Ends(o, l)
    else
      FatesRest(j, k, fates);
      var l1 := l.(sent := l.sent + [PacketSent(FrameAt(j, k))]);
      if fates[0].Lost? then
        Transfer(j, o, Await(l1, Declared(j)), k + 1, fates[1..])
      else
        var o1 := Step(o.session, Parse(Frame(j, ArrivalOf(j, k, fates[0]))));
        if o1.Fault? then Ends(Fault, l1)
        else
          Transfer(j, Then(o, o1), Await(l1.(inbox := l1.inbox + Replies(o1.outputs)), Declared(j)), k + 1, fates[1..])
  }

  // ---- The service while packets are answered ---------------------------------------

  predicate OnlyRequests(inbox: seq<Event>) {
    forall i :: 0 <= i < |inbox| ==> IsRequest(inbox[i])
  }

  /** The ids of the requests in an inbox. */
  function Wanted(inbox: seq<Event>): seq<Word> {
    if inbox == [] then []
    else (if IsRequest(inbox[0]) then inbox[0].reply.ids else []) + Wanted(inbox[1..])
  }

  /** Requests that lie in the inbox are read on the way to the answer. */
  lemma {:induction false} AwaitOver(l: Link, total: Word, pending: seq<Event>, rest: seq<Event>)
    requires OnlyRequests(pending)
    ensures Await(l.(inbox := pending + rest), total)
         == Await(l.(inbox := rest, ids := l.ids + Wanted(pending)), total)
    decreases |pending|
  {
    if pending == [] {
      assert pending + rest == rest && l.ids + [] == l.ids;
    } else {
      var l1 := Take(l.(inbox := pending + rest), total);
      assert (pending + rest)[0] == pending[0] && (pending + rest)[1..] == pending[1..] + rest;
      assert IsRequest(pending[0]);
      assert l1 == l.(inbox := pending[1..] + rest, ids := l.ids + pending[0].reply.ids);
      AwaitOver(l.(ids := l1.ids), total, pending[1..], rest);
      assert l.ids + (pending[0].reply.ids + Wanted(pending[1..])) == l1.ids + Wanted(pending[1..]);
    }
  }

  /** The answer to a packet, and a request or nothing behind it. */
  lemma Answered(l: Link, total: Word, outputs: seq<Output>, f: Fate, asks: bool)
    requires total != 0 && l.open && OnlyRequests(l.inbox)
    requires Answer(outputs, f, asks) || (f.Arrives? && !asks && Completes(outputs))
    ensures var l2 := Await(l.(inbox := l.inbox + Replies(outputs)), total);
            l2 == l.(ids := l.ids + Wanted(l.inbox), inbox := l2.inbox,
                     success := if f.Arrives? then (l.success + 1) % 0x1_0000 else l.success)
            && OnlyRequests(l2.inbox) && (l2.inbox != [] ==> asks)
  {
    var ack, rest := outputs[0], outputs[1..];
    var answer := Arrived(Response(ack.id, ack.result));
    assert Replies(outputs) == [answer] + Replies(rest);
    AwaitOver(l, total, l.inbox, Replies(outputs));
    assert ([answer] + Replies(rest))[1..] == Replies(rest);
    if rest != [] {
      assert rest[1..] == [];
      assert Replies(rest[1..]) == [];
    }
  }

  ghost predicate Completes(outputs: seq<Output>) {
    && |outputs| == 2
    && outputs[0].Ack? && outputs[0].id == DOWN_UPGRADEPACKAGE && outputs[0].result == SUCCESS
    && outputs[1].FileWritten?
  }

  lemma Unanswered(l: Link, total: Word)
    requires OnlyRequests(l.inbox)
    ensures Await(l, total) == l.(open := false, inbox := [], ids := l.ids + Wanted(l.inbox))
  {
    AwaitOver(l, total, l.inbox, []);
    assert l.inbox + [] == l.inbox;
  }

  // ---- One packet -------------------------------------------------------------------

  predicate NoneSilent(fates: seq<Fate>) {
    forall i :: 0 <= i < |fates| ==> !Silent(fates[i])
  }

  /** The packets up to the first that does not come; the service goes no further. */
  function Heard(fates: seq<Fate>): (h: seq<Fate>)
    ensures |h| <= |fates| && NoneSilent(h) && (|h| == |fates| <==> NoneSilent(fates))
    ensures forall i :: 0 <= i < |h| ==> h[i] == fates[i]
  {
    if fates == [] || Silent(fates[0]) then [] else [fates[0]] + Heard(fates[1..])
  }

  /** How many of them arrive whole. */
  function Arrivals(fates: seq<Fate>): nat {
    if fates == [] || Silent(fates[0]) then 0
    else (if fates[0].Arrives? then 1 else 0) + Arrivals(fates[1..])
  }

  lemma {:induction false} ArrivalsAtMost(fates: seq<Fate>)
    ensures Arrivals(fates) <= |fates| && (Arrivals(fates) == |fates| <==> AllArrive(fates))
  {
    if fates != [] {
      ArrivalsAtMost(fates[1..]);
      FirstArrives(fates);
    }
  }

  /** How the sending of the packets from k on ends, at both ends of the line. */
  ghost predicate Sends(j: Job, o: Outcome, l: Link, k: nat, fates: seq<Fate>, ph: Phase, e: Ends)
    requires Proper(j) && o.Next? && k + |fates| <= IDS
  {
    var asked := PhaseAfter(Count(j), k, Heard(fates), ph).asked;
    && (e.terminal.Fault? <==> fates != [] && o.session.Idle? && Unpacks(fates[0]))
    && (e.terminal.Fault? ==> e.link.success == l.success)
    && (e.terminal.Next? ==>
          && (e.link.open <==> NoneSilent(fates)) && e.link.success == l.success + Arrivals(fates)
          && (Writes(j, e.terminal) <==> Writes(j, o) || (fates != [] && ph.whole && AllArrive(fates)))
          && (Asks(e.terminal.outputs) <==> asked)
          && OnlyRequests(e.link.inbox) && (e.link.inbox != [] || e.link.ids != [] ==> asked))
  }

  /** What holds between two packets. */
  ghost predicate Sending(j: Job, o: Outcome, l: Link, k: nat, fates: seq<Fate>, ph: Phase)
    requires Proper(j)
  {
    && Fates(j, k, fates) && o.Next? && Well(o.session) && (fates != [] ==> At(j, o.session, k, ph))
    && (Asks(o.outputs) <==> ph.asked)
    && l.open && l.success <= k - 1 && OnlyRequests(l.inbox) && (l.inbox != [] || l.ids != [] ==> ph.asked)
  }

  /** One packet of a transfer. */
  lemma TransferStep(j: Job, o: Outcome, l: Link, k: nat, fates: seq<Fate>, ph: Phase)
    requires Proper(j) && Sending(j, o, l, k, fates, ph) && fates != []
    requires IsPacket(j, k) && Alters(j, k, fates[0]) && Fates(j, k + 1, fates[1..])
    ensures var l1 := l.(sent := l.sent + [PacketSent(FrameAt(j, k))]);
            if Silent(fates[0]) then
              Transfer(j, o, l, k, fates) == Ends(o, l1.(open := false, inbox := [], ids := l.ids + Wanted(l.inbox)))
            else
              var o1 := Step(o.session, Parse(Frame(j, ArrivalOf(j, k, fates[0]))));
              if o1.Fault? then Transfer(j, o, l, k, fates) == Ends(Fault, l1)
              else
                var l2 := Await(l1.(inbox := l1.inbox + Replies(o1.outputs)), Declared(j));
                Transfer(j, o, l, k, fates) == Transfer(j, Then(o, o1), l2, k + 1, fates[1..])
  {
    hide Step, Parse, Frame, ArrivalOf, At, Fates, Count, Await, Replies, FrameAt, Alters, OnlyRequests, Wanted;
    var l1 := l.(sent := l.sent + [PacketSent(FrameAt(j, k))]);
    if Silent(fates[0]) {
      Unanswered(l1, Declared(j));
      if fates[0].Altered? {
        AlteredStep(j, o.session, k, fates[0]);
        NoReply(o, l1);
      }
    }
  }

  lemma NoReply(o: Outcome, l: Link)
    requires o.Next?
    ensures Replies([]) == [] && l.(inbox := l.inbox + []) == l && Then(o, Next(o.session, [])) == o
  {
    assert l.inbox + [] == l.inbox && o.outputs + [] == o.outputs;
  }

  /** The state behind a packet that was answered. */
  lemma SendingOn(j: Job, o: Outcome, l: Link, k: nat, fates: seq<Fate>, ph: Phase, o1: Outcome)
    returns (l2: Link)
    requires Proper(j) && Sending(j, o, l, k, fates, ph) && fates != [] && !Silent(fates[0]) && k <= Count(j)
    requires Fates(j, k + 1, fates[1..]) && IsPacket(j, k) && (|fates| == 1 <==> k == Count(j))
    requires o1.Next? && StepEnds(j, o.session, k, fates[0], ph, o1) && Well(o1.session)
    ensures var l1 := l.(sent := l.sent + [PacketSent(FrameAt(j, k))]);
            l2 == Await(l1.(inbox := l1.inbox + Replies(o1.outputs)), Declared(j))
    ensures l2.success == l.success + if fates[0].Arrives? then 1 else 0
    ensures Sending(j, Then(o, o1), l2, k + 1, fates[1..], NextPhase(Count(j), k, fates[0], ph))
  {
    hide At, Fates, Count, Await, Replies, FrameAt, OnlyRequests, Asks, NextPhase, Answer, Wanted;
    var f, ph2, l1 := fates[0], NextPhase(Count(j), k, fates[0], ph), l.(sent := l.sent + [PacketSent(FrameAt(j, k))]);
    l2 := Await(l1.(inbox := l1.inbox + Replies(o1.outputs)), Declared(j));
    DeclaresSomething(j);
    OneStep(j, o.session, k, f, ph, o1);
    AsksConcat(o.outputs, o1.outputs);
    var asks := AsksOnce(j, o.session, k, f, ph, o1);
    Answered(l1, Declared(j), o1.outputs, f, asks);
    NothingWanted(l.inbox);
  }

  lemma NothingWanted(inbox: seq<Event>)
    ensures inbox == [] ==> Wanted(inbox) == []
  {
  }

  /** The shape of the outputs: with a request exactly if something is asked. */
  lemma AsksOnce(j: Job, s: Session, k: nat, f: Fate, ph: Phase, o1: Outcome) returns (asks: bool)
    requires Proper(j) && 1 <= k <= Count(j) && !Silent(f) && o1.Next? && StepEnds(j, s, k, f, ph, o1)
    ensures Answer(o1.outputs, f, asks) || (f.Arrives? && !asks && Completes(o1.outputs))
    ensures asks ==> Asks(o1.outputs)
  {
    hide At, Count, NextPhase;
    if f.Arrives? && ph.whole && k == Count(j) {
      asks := false;
    } else {
      asks :| Answer(o1.outputs, f, asks) && (!ph.asked ==> asks == NextPhase(Count(j), k, f, ph).asked);
    }
  }

  /** Seen from one packet earlier. */
  lemma SendsEarlier(j: Job, o: Outcome, l: Link, k: nat, fates: seq<Fate>, ph: Phase, o1: Outcome, l2: Link, e: Ends)
    requires Proper(j) && o.Next? && o1.Next? && fates != [] && !Silent(fates[0]) && 1 <= k && k + |fates| == Count(j) + 1
    requires StepEnds(j, o.session, k, fates[0], ph, o1)
    requires l2.success == l.success + if fates[0].Arrives? then 1 else 0
    requires !(o.session.Idle? && Unpacks(fates[0]))
    requires Sends(j, Then(o, o1), l2, k + 1, fates[1..], NextPhase(Count(j), k, fates[0], ph), e)
    ensures Sends(j, o, l, k, fates, ph, e)
  {
    hide At, Count, Asks, NextPhase, OnlyRequests, AllArrive, Writes, Unpacks;
    OneStep(j, o.session, k, fates[0], ph, o1);
    WritesConcat(j, o, o1);
    FirstArrives(fates);
    if |fates| == 1 {
      AllOfNone();
      assert fates[1..] == [];
    } else {
      StaysActive(j, o.session, k, fates[0], ph, o1);
    }
    HeardRest(fates);
  }

  lemma HeardRest(fates: seq<Fate>)
    requires fates != [] && !Silent(fates[0])
    ensures Heard(fates) == [fates[0]] + Heard(fates[1..]) && Heard(fates)[1..] == Heard(fates[1..])
    ensures NoneSilent(fates) <==> NoneSilent(fates[1..])
  {
  }

  lemma SendsNothing(j: Job, o: Outcome, l: Link, k: nat, fates: seq<Fate>, ph: Phase)
    requires Proper(j) && Sending(j, o, l, k, fates, ph) && k + |fates| <= IDS
    ensures fates == [] ==> Sends(j, o, l, k, fates, ph, Ends(o, l))
    ensures fates != [] && Silent(fates[0]) ==>
              var l1 := l.(sent := l.sent + [PacketSent(FrameAt(j, k))]);
              Sends(j, o, l, k, fates, ph, Ends(o, l1.(open := false, inbox := [], ids := l.ids + Wanted(l.inbox))))
  {
    hide At, Count, Fates, Asks, FrameAt;
    NothingWanted(l.inbox);
  }

  lemma {:induction false} TransferSends(j: Job, o: Outcome, l: Link, k: nat, fates: seq<Fate>, ph: Phase)
    requires Proper(j) && Sending(j, o, l, k, fates, ph)
    ensures k + |fates| <= IDS && Sends(j, o, l, k, fates, ph, Transfer(j, o, l, k, fates))
    decreases |fates|
  {
    hide Step, Parse, Frame, ArrivalOf, At, Fates, Count, Then, FrameAt, AllArrive, Transfer, Alters, Asks, Await,
         Replies, OnlyRequests, Sends, StepEnds, NextPhase, Unpacks;
    FatesFrom(j, k, fates);
    if fates == [] {
      SendsNothing(j, o, l, k, fates, ph);
      NothingToTransfer(j, o, l, k, fates);
    } else {
      FatesRest(j, k, fates);
      FatesCount(j, k, fates);
      TransferStep(j, o, l, k, fates, ph);
      var f := fates[0];
      if Silent(f) {
        SendsNothing(j, o, l, k, fates, ph);
      } else {
        PhaseStep(j, o.session, k, f, ph);
        var o1 := Step(o.session, Parse(Frame(j, ArrivalOf(j, k, f))));
        if o1.Fault? {
          FaultEnds(j, o, l, k, fates, ph);
        } else {
          var l2 := SendingOn(j, o, l, k, fates, ph, o1);
          TransferSends(j, Then(o, o1), l2, k + 1, fates[1..], NextPhase(Count(j), k, f, ph));
          SendsEarlier(j, o, l, k, fates, ph, o1, l2,
                       Transfer(j, Then(o, o1), l2, k + 1, fates[1..]));
        }
      }
    }
  }

  lemma FaultEnds(j: Job, o: Outcome, l: Link, k: nat, fates: seq<Fate>, ph: Phase)
    requires Proper(j) && IsPacket(j, k) && o.Next? && k + |fates| <= IDS
    requires fates != [] && o.session.Idle? && Unpacks(fates[0])
    ensures Sends(j, o, l, k, fates, ph, Ends(Fault, l.(sent := l.sent + [PacketSent(FrameAt(j, k))])))
  {
  }

  lemma NothingToTransfer(j: Job, o: Outcome, l: Link, k: nat, fates: seq<Fate>)
    requires Proper(j) && Fates(j, k, fates) && (o.Next? ==> Well(o.session)) && fates == []
    ensures Transfer(j, o, l, k, fates) == Ends(o, l)
  {
  }

  lemma FatesFrom(j: Job, k: nat, fates: seq<Fate>)
    requires Proper(j) && Fates(j, k, fates)
    ensures k >= 1 && k + |fates| == Count(j) + 1 && (fates == [] ==> k > |Pieces(j)|)
  {
  }

  // ---- The service's half -----------------------------------------------------------

  /** What comes later does not change a wait that has found its answer. */
  lemma {:induction false} AwaitMore(l: Link, total: Word, more: seq<Event>)
    requires l.open && Await(l, total).open
    ensures Await(l.(inbox := l.inbox + more), total) == Await(l, total).(inbox := Await(l, total).inbox + more)
    decreases |l.inbox|
  {
    if l.inbox != [] {
      assert (l.inbox + more)[0] == l.inbox[0] && (l.inbox + more)[1..] == l.inbox[1..] + more;
      if !IsUpgradeAck(l.inbox[0]) {
        AwaitMore(Take(l, total), total, more);
      }
    }
  }

  /** The service's half of a transfer is the sending loop on the answers that come. */
  lemma {:induction false} TransferIsSending(j: Job, o: Outcome, l: Link, k: nat, fates: seq<Fate>, ph: Phase)
    returns (answers: seq<Event>)
    requires Proper(j) && Sending(j, o, l, k, fates, ph)
    requires !(fates != [] && o.session.Idle? && Unpacks(fates[0]))
    ensures k >= 1 && Transfer(j, o, l, k, fates).link == SendFrom(l.(inbox := l.inbox + answers), j, k)
    decreases |fates|
  {
    hide Step, Parse, Frame, ArrivalOf, At, Fates, Count, FrameAt, Transfer, Alters, Asks, Await, Replies,
         OnlyRequests, StepEnds, NextPhase, Unpacks, SendFrom, Declared;
    answers := [];
    FatesFrom(j, k, fates);
    assert l.inbox + [] == l.inbox;
    SendFromNext(l, j, k);
    if fates == [] {
      NothingToTransfer(j, o, l, k, fates);
    } else {
      FatesRest(j, k, fates);
      FatesCount(j, k, fates);
      TransferStep(j, o, l, k, fates, ph);
      var f, l1 := fates[0], l.(sent := l.sent + [PacketSent(FrameAt(j, k))]);
      if Silent(f) {
        Unanswered(l1, Declared(j));
      } else {
        PhaseStep(j, o.session, k, f, ph);
        var o1 := Step(o.session, Parse(Frame(j, ArrivalOf(j, k, f))));
        var l2 := SendingOn(j, o, l, k, fates, ph, o1);
        StaysUnlessLast(j, o.session, k, fates, ph, o1);
        var later := TransferIsSending(j, Then(o, o1), l2, k + 1, fates[1..], NextPhase(Count(j), k, f, ph));
        answers := Replies(o1.outputs) + later;
        AwaitMore(l1.(inbox := l1.inbox + Replies(o1.outputs)), Declared(j), later);
        assert l.inbox + answers == l1.inbox + Replies(o1.outputs) + later;
        SendFromNext(l.(inbox := l.inbox + answers), j, k);
      }
    }
  }

  lemma StaysUnlessLast(j: Job, s: Session, k: nat, fates: seq<Fate>, ph: Phase, o1: Outcome)
    requires Proper(j) && 1 <= k <= Count(j) && fates != [] && !Silent(fates[0]) && (|fates| == 1 <==> k == Count(j))
    requires o1.Next? && StepEnds(j, s, k, fates[0], ph, o1)
    ensures fates[1..] != [] ==> o1.session.Active?
  {
    hide At, NextPhase;
  }

  // ---- The whole transfer -----------------------------------------------------------

  /** The transfer from the start. */
  function WholeTransfer(j: Job, fates: seq<Fate>): Ends
    requires Proper(j) && Fates(j, 1, fates)
  {
    Transfer(j, Next(Idle, []), Link(true, 0, [], [], []), 1, fates)
  }

  lemma StartsSending(j: Job, fates: seq<Fate>)
    requires Proper(j) && Fates(j, 1, fates)
    ensures |fates| == Count(j) >= 2
    ensures Sending(j, Next(Idle, []), Link(true, 0, [], [], []), 1, fates, Phase(Count(j), true, false))
  {
    hide At, Fates;
    FatesLength(j, fates);
    AtStart(j);
  }

  lemma HeardAll(fates: seq<Fate>)
    ensures AllArrive(fates) ==> Heard(fates) == fates
    ensures AllArrive(Heard(fates)) && |Heard(fates)| == |fates| ==> AllArrive(fates)
  {
  }

  /** While only whole packets come and the last one has not, nothing that is awaited comes. */
  lemma {:induction false} NotYet(k: nat, fates: seq<Fate>, awaited: Word)
    requires k + |fates| <= awaited && AllArrive(fates)
    ensures !AwaitedComes(k, fates, awaited)
    decreases |fates|
  {
    if fates != [] {
      FirstArrives(fates);
      NotYet(k + 1, fates[1..], awaited);
    }
  }

  /** The sending of an upgrade over a line that may alter any one byte of any packet, or lose
      the packet, exactly.  The terminal is left in undefined behaviour exactly if the first
      packet loses its package bit.  Else, when the loop has ended, the file has been written
      exactly if every packet arrived whole, packets have been asked for exactly if one did not
      and a number came that the terminal awaited, and the connection is open exactly if every
      packet was answered.  Completion is seen at once exactly if every packet arrived whole. */
  lemma SendingWorksExactlyWhen(j: Job, fates: seq<Fate>)
    requires Proper(j) && Fates(j, 1, fates)
    ensures |fates| >= 2
    ensures var e := WholeTransfer(j, fates);
            (e.terminal.Fault? <==> Unpacks(fates[0]))
            && (CompleteOnEntry(e.link, Declared(j)) <==> AllArrive(fates))
            && (e.terminal.Next? ==>
                  && (Writes(j, e.terminal) <==> AllArrive(fates))
                  && (Asks(e.terminal.outputs) <==> !AllArrive(fates) && AwaitedComes(1, Heard(fates), Count(j)))
                  && (e.link.open <==> NoneSilent(fates)))
  {
    hide Transfer, Fates, At, Count, AllArrive, Asks, Writes, NoneSilent, AwaitedComes, PhaseAfter;
    StartsSending(j, fates);
    var n, ph := Count(j), Phase(Count(j), true, false);
    TransferSends(j, Next(Idle, []), Link(true, 0, [], [], []), 1, fates, ph);
    AskedExactlyWhen(n, 1, Heard(fates), ph);
    ArrivalsAtMost(fates);
    DeclaresSomething(j);
    NothingAsked(j, fates);
  }

  lemma NothingAsked(j: Job, fates: seq<Fate>)
    requires Proper(j) && |fates| == Count(j)
    ensures !Writes(j, Next(Idle, []))
    ensures Unpacks(fates[0]) ==> !AllArrive(fates)
    ensures !AllArrive(fates) && AwaitedComes(1, Heard(fates), Count(j))
       <==> !AllArrive(Heard(fates)) && AwaitedComes(1, Heard(fates), Count(j))
  {
    hide Count, AwaitedComes, Heard, AllArrive;
    HeardAll(fates);
    UnpackedIsAltered(fates);
    if AllArrive(Heard(fates)) && |Heard(fates)| < |fates| {
      NotYet(1, Heard(fates), Count(j));
    }
  }

  lemma UnpackedIsAltered(fates: seq<Fate>)
    requires fates != []
    ensures Unpacks(fates[0]) ==> !AllArrive(fates)
  {
  }

  /** With numbers left alone it ends there: the terminal writes the file exactly when every
      packet arrives whole, the service's loop ends with completion exactly then, and no request
      is ever made. */
  lemma TransferWorksExactlyWhen(j: Job, fates: seq<Fate>, packets: map<Word, seq<Byte>>)
    requires Proper(j) && Fates(j, 1, fates) && NumbersKept(fates)
    ensures var e := WholeTransfer(j, fates);
            e.terminal.Next?
            && (FileWritten(j.kind, j.version, j.file) in e.terminal.outputs <==> AllArrive(fates))
            && (Finish(e.link, Declared(j), packets).complete <==> AllArrive(fates))
            && (e.link.open <==> NoneLost(fates))
            && forall i :: 0 <= i < |e.terminal.outputs| ==> !e.terminal.outputs[i].ResendRequest?
  {
    hide Transfer, Finish, Fates, At, NoneLost, AllArrive, Arrivals, Count, NumbersKept, AwaitedComes, PhaseAfter, Heard;
    SendingWorksExactlyWhen(j, fates);
    OnlyLossIsSilent(fates);
    StartsSending(j, fates);
    var e, ph := WholeTransfer(j, fates), Phase(Count(j), true, false);
    KeptNumbersHaveGone(Count(j), 1, Heard(fates), Count(j));
    HeardAll(fates);
    assert !Asks(e.terminal.outputs);
    TransferSends(j, Next(Idle, []), Link(true, 0, [], [], []), 1, fates, ph);
    assert NoRequests(e.link.inbox);
    DeclaresSomething(j);
    QuietCompletion(e.link, Declared(j), packets);
  }

  lemma OnlyLossIsSilent(fates: seq<Fate>)
    requires NumbersKept(fates)
    ensures NoneSilent(fates) <==> NoneLost(fates)
    ensures fates != [] ==> !Unpacks(fates[0])
    ensures NumbersKept(Heard(fates)) && NoneLost(Heard(fates))
  {
  }

  /** The service in it is the sending loop of the class, on some sequence of events. */
  lemma ServiceSends(j: Job, fates: seq<Fate>) returns (inbox: seq<Event>)
    requires Proper(j) && Fates(j, 1, fates) && !Unpacks(fates[0])
    ensures WholeTransfer(j, fates).link == SendFrom(Link(true, 0, [], inbox, []), j, 1)
  {
    hide Transfer, SendFrom, Fates, At;
    StartsSending(j, fates);
    inbox := TransferIsSending(j, Next(Idle, []), Link(true, 0, [], [], []), 1, fates, Phase(Count(j), true, false));
    assert [] + inbox == inbox;
  }
}
