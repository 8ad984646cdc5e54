/** When the service sees a transfer complete: the loop around CheckPacketComplete over any
    sequence of events. */
module UpgradeCompletion {
  import opened Bytes
  import opened IdSets
  import opened UpgradeDialogue
  import opened UpgradeService
  import opened UpgradeWire

  // ---- Counting ---------------------------------------------------------------------

  predicate IsSuccessAck(e: Event) {
    IsUpgradeAck(e) && e.reply.result == 0
  }

  /** Successes among the events. */
  function Successes(inbox: seq<Event>): nat {
    if inbox == [] then 0 else (if IsSuccessAck(inbox[0]) then 1 else 0) + Successes(inbox[1..])
  }

  lemma {:induction false} SuccessesConcat(a: seq<Event>, b: seq<Event>)
    ensures Successes(a + b) == Successes(a) + Successes(b)
  {
    if a == [] {
      assert a + b == b;
    } else {
      assert (a + b)[0] == a[0] && (a + b)[1..] == a[1..] + b;
      SuccessesConcat(a[1..], b);
    }
  }

  /** How many events were received between two states. */
  function Received(l: Link, l': Link): int {
    |l.inbox| - |l'.inbox|
  }

  /** l' comes after l: events were received from the front, and every success among them,
      and nothing else, was counted. */
  ghost predicate After(l: Link, l': Link) {
    && |l'.inbox| <= |l.inbox| && l'.inbox == l.inbox[Received(l, l')..]
    && l'.success == (l.success + Successes(l.inbox[..Received(l, l')])) % 0x1_0000
  }

  lemma AfterNothing(l: Link, l': Link)
    requires l'.inbox == l.inbox && l'.success == l.success
    ensures After(l, l')
  {
    hide Successes;
    var none := l.inbox[..Received(l, l')];
    NoSuccesses(none);
    assert l.inbox[Received(l, l')..] == l.inbox;
    Unchanged(l.success);
  }

  lemma NoSuccesses(none: seq<Event>)
    requires none == []
    ensures Successes(none) == 0
  {
  }

  lemma Unchanged(a: Word)
    ensures (a + 0) % 0x1_0000 == a
  {
  }

  lemma AfterBoth(l: Link, m: Link, n: Link)
    requires After(l, m) && After(m, n)
    ensures After(l, n)
  {
    var i, k := Received(l, m), Received(m, n);
    assert l.inbox[..i + k] == l.inbox[..i] + m.inbox[..k];
    SuccessesConcat(l.inbox[..i], m.inbox[..k]);
    CountedTwice(l.success, Successes(l.inbox[..i]), Successes(m.inbox[..k]));
  }

  lemma CountedTwice(a: nat, b: nat, c: nat)
    ensures ((a + b) % 0x1_0000 + c) % 0x1_0000 == (a + (b + c)) % 0x1_0000
  {
  }

  lemma AfterTake(l: Link, total: Word)
    requires l.inbox != [] && total != 0
    ensures After(l, Take(l, total))
  {
    assert l.inbox[..1] == [l.inbox[0]];
    assert Successes([l.inbox[0]]) == if IsSuccessAck(l.inbox[0]) then 1 else 0;
  }

  lemma {:induction false} AfterAwait(l: Link, total: Word)
    requires total != 0
    ensures After(l, Await(l, total))
    decreases |l.inbox|
  {
    hide After, Digest;
    if l.inbox == [] {
      AfterNothing(l, Await(l, total));
    } else {
      AfterTake(l, total);
      if !IsUpgradeAck(l.inbox[0]) {
        AfterAwait(Take(l, total), total);
        AfterBoth(l, Take(l, total), Await(l, total));
      }
    }
  }

  /** Neither the list nor what is sent matters for the count. */
  lemma AfterBeside(l: Link, l': Link, m: Link, m': Link)
    requires After(l, l') && m.inbox == l.inbox && m.success == l.success
    requires m'.inbox == l'.inbox && m'.success == l'.success
    ensures After(m, m')
  {
  }

  lemma {:induction false} AfterMerge(l: Link, total: Word, keys: seq<Word>, packets: map<Word, seq<Byte>>)
    requires total != 0 && forall i :: 0 <= i < |keys| ==> keys[i] in packets
    ensures After(l, Merge(l, total, keys, packets))
    decreases |keys|
  {
    hide After, Await;
    if keys == [] || l.ids == [] {
      AfterNothing(l, l);
    } else if keys[0] != l.ids[0] {
      AfterMerge(l, total, keys[1..], packets);
    } else {
      var l0 := l.(sent := l.sent + [PacketSent(packets[keys[0]])]);
      AfterAwait(l0, total);
      var l1 := Await(l0, total);
      AfterBeside(l0, l1, l, l1);
      if l1.open && l1.ids != [] {
        var l2 := l1.(ids := l1.ids[1..]);
        AfterBeside(l0, l1, l, l2);
        AfterMerge(l2, total, keys[1..], packets);
        AfterBoth(l, l2, Merge(l2, total, keys[1..], packets));
      }
    }
  }

  /** The counter after a call of CheckPacketComplete; and when the link is still open, the
      last event received was a request. */
  lemma {:induction false} AfterServe(l: Link, total: Word, packets: map<Word, seq<Byte>>)
    requires total != 0
    ensures var s := Serve(l, total, packets);
            After(l, s) && (s.open ==> Received(l, s) > 0 && IsRequest(l.inbox[Received(l, s) - 1]))
    decreases |l.inbox|
  {
    hide After, Merge, KeyOrder, Digest;
    var s := Serve(l, total, packets);
    if l.inbox == [] {
      AfterNothing(l, s);
    } else {
      AfterTake(l, total);
      var l1 := Take(l, total);
      if IsRequest(l.inbox[0]) {
        AfterBeside(l, l1, l, s);
      } else {
        AscendingIndices(packets.Keys);
        AfterMerge(l1, total, KeyOrder(packets.Keys), packets);
        var l2 := Merge(l1, total, KeyOrder(packets.Keys), packets);
        AfterBoth(l, l1, l2);
        if l2.open {
          AfterServe(l2, total, packets);
          AfterBoth(l, l2, s);
          SameEvent(l, l2, s);
        }
      }
    }
  }

  lemma SameEvent(l: Link, m: Link, n: Link)
    requires After(l, m) && After(m, n)
    ensures Received(m, n) > 0 ==> l.inbox[Received(l, n) - 1] == m.inbox[Received(m, n) - 1]
  {
  }

  // ---- Which requests are taken -----------------------------------------------------

  /** Event i is a request that the loop itself takes.  One that comes while a resent packet
      is waited for is read there and is not among these. */
  ghost predicate TakenAt(l: Link, total: Word, packets: map<Word, seq<Byte>>, i: int)
    decreases |l.inbox|
  {
    var s := Serve(l, total, packets);
    s.open && (i == Received(l, s) - 1 || (i >= Received(l, s) && TakenAt(s, total, packets, i - Received(l, s))))
  }

  /** The counter just before event i. */
  function CounterAt(l: Link, i: nat): Word
    requires i <= |l.inbox|
  {
    (l.success + Successes(l.inbox[..i])) % 0x1_0000
  }

  lemma {:induction false} TakenIsRequest(l: Link, total: Word, packets: map<Word, seq<Byte>>, i: int)
    requires total != 0 && TakenAt(l, total, packets, i)
    ensures 0 <= i < |l.inbox| && IsRequest(l.inbox[i])
    decreases |l.inbox|
  {
    hide Serve;
    AfterServe(l, total, packets);
    var s := Serve(l, total, packets);
    if i >= Received(l, s) {
      TakenIsRequest(s, total, packets, i - Received(l, s));
    }
  }

  lemma CounterLater(l: Link, s: Link, i: nat)
    requires After(l, s) && Received(l, s) <= i <= |l.inbox|
    ensures CounterAt(l, i) == CounterAt(s, i - Received(l, s))
  {
    var k := Received(l, s);
    hide Successes;
    assert l.inbox[..i] == l.inbox[..k] + s.inbox[..i - k];
    SuccessesConcat(l.inbox[..k], s.inbox[..i - k]);
    CountedTwice(l.success, Successes(l.inbox[..k]), Successes(s.inbox[..i - k]));
  }

  lemma CounterAtRequest(l: Link, s: Link)
    requires After(l, s) && Received(l, s) > 0 && IsRequest(l.inbox[Received(l, s) - 1])
    ensures CounterAt(l, Received(l, s) - 1) == s.success
  {
    var k := Received(l, s);
    assert l.inbox[..k] == l.inbox[..k - 1] + [l.inbox[k - 1]];
    SuccessesConcat(l.inbox[..k - 1], [l.inbox[k - 1]]);
  }

  /** Completion exactly: the counter equals the declared total when the packets have been
      sent, or at the moment the loop takes a request.  No acknowledgement that comes at any
      other time is ever compared. */
  lemma {:induction false} CompletionSeenExactlyWhen(l: Link, total: Word, packets: map<Word, seq<Byte>>)
    requires total != 0
    ensures forall i :: TakenAt(l, total, packets, i) ==> 0 <= i < |l.inbox|
    ensures Finish(l, total, packets).complete
       <==> l.success == total || exists i :: TakenAt(l, total, packets, i) && CounterAt(l, i) == total
    decreases |l.inbox|
  {
    hide Serve, After, CounterAt;
    forall i | TakenAt(l, total, packets, i)
      ensures 0 <= i < |l.inbox|
    {
      TakenIsRequest(l, total, packets, i);
    }
    var s := Serve(l, total, packets);
    if l.success != total && s.open {
      var k := Received(l, s);
      AfterServe(l, total, packets);
      CounterAtRequest(l, s);
      CompletionSeenExactlyWhen(s, total, packets);
      if exists i :: TakenAt(s, total, packets, i) && CounterAt(s, i) == total {
        var i :| TakenAt(s, total, packets, i) && CounterAt(s, i) == total;
        CounterLaterOf(l, s, i);
        assert TakenAt(l, total, packets, i + k);
      }
      if s.success == total {
        assert TakenAt(l, total, packets, k - 1);
      }
      forall i | TakenAt(l, total, packets, i) && CounterAt(l, i) == total
        ensures Finish(s, total, packets).complete
      {
        if i != k - 1 {
          CounterLaterOf(l, s, i - k);
          assert TakenAt(s, total, packets, i - k);
        }
      }
    }
  }

  lemma CounterLaterOf(l: Link, s: Link, i: int)
    requires After(l, s) && 0 <= i <= |s.inbox|
    ensures i + Received(l, s) <= |l.inbox| && CounterAt(l, i + Received(l, s)) == CounterAt(s, i)
  {
    CounterLater(l, s, i + Received(l, s));
  }

  // ---- In terms of the events -------------------------------------------------------

  lemma {:induction false} MergeNothing(l: Link, total: Word, keys: seq<Word>, packets: map<Word, seq<Byte>>)
    requires l.ids == [] && forall i :: 0 <= i < |keys| ==> keys[i] in packets
    ensures Merge(l, total, keys, packets) == l
  {
  }

  /** With nothing left to resend, a call ends with the first request, and its ids are then on
      the list; without a request it ends with a closed connection. */
  lemma {:induction false} ServeExactlyWhen(l: Link, total: Word, packets: map<Word, seq<Byte>>)
    requires l.open && l.ids == []
    ensures Serve(l, total, packets).open <==> !NoRequests(l.inbox)
    ensures forall i :: 0 <= i < |l.inbox| && NoRequests(l.inbox[..i]) && IsRequest(l.inbox[i]) ==>
                          var s := Serve(l, total, packets);
                          s.inbox == l.inbox[i + 1..] && s.ids == l.inbox[i].reply.ids
                          && s.sent == l.sent + [ResendAcknowledged]
    decreases |l.inbox|
  {
    hide Merge, KeyOrder;
    if l.inbox != [] && !IsRequest(l.inbox[0]) {
      var l1 := Take(l, total);
      AscendingIndices(packets.Keys);
      MergeNothing(l1, total, KeyOrder(packets.Keys), packets);
      ServeExactlyWhen(l1, total, packets);
      BehindFirst(l.inbox);
      forall i | 0 <= i < |l.inbox| && NoRequests(l.inbox[..i]) && IsRequest(l.inbox[i])
        ensures var s := Serve(l, total, packets);
                s.inbox == l.inbox[i + 1..] && s.ids == l.inbox[i].reply.ids && s.sent == l.sent + [ResendAcknowledged]
      {
        FirstRequest(l.inbox, i);
        assert l1.inbox[i - 1] == l.inbox[i] && l1.inbox[i..] == l.inbox[i + 1..];
      }
    } else if l.inbox != [] {
      forall i | 0 < i < |l.inbox|
        ensures !NoRequests(l.inbox[..i])
      {
        RequestBefore(l.inbox, i);
      }
    }
  }

  lemma RequestBefore(inbox: seq<Event>, i: nat)
    requires 0 < i < |inbox| && IsRequest(inbox[0])
    ensures !NoRequests(inbox[..i])
  {
    assert inbox[..i][0] == inbox[0];
  }

  lemma BehindFirst(inbox: seq<Event>)
    requires inbox != [] && !IsRequest(inbox[0])
    ensures NoRequests(inbox) <==> NoRequests(inbox[1..])
  {
    assert forall i :: 0 < i < |inbox| ==> inbox[i] == inbox[1..][i - 1];
  }

  lemma FirstRequest(inbox: seq<Event>, i: nat)
    requires 0 <= i < |inbox| && NoRequests(inbox[..i]) && IsRequest(inbox[i]) && !IsRequest(inbox[0])
    ensures i > 0 && NoRequests(inbox[1..][..i - 1])
  {
    assert inbox[1..][..i - 1] == inbox[..i][1..];
  }

  /** Without a request, completion is what the counter says when the packets have been sent,
      whatever acknowledgements still come. */
  lemma QuietCompletion(l: Link, total: Word, packets: map<Word, seq<Byte>>)
    requires total != 0 && NoRequests(l.inbox)
    ensures Finish(l, total, packets).complete <==> l.success == total
    ensures l.success != total ==> !Finish(l, total, packets).link.open
  {
    RepairGoesUnnoticed(l, total, packets);
  }

  /** With one request, the counter is looked at once more, as it stands when the request
      comes: the acknowledgements of the packets that are then resent are never looked at. */
  lemma OneRequestCompletion(l: Link, total: Word, packets: map<Word, seq<Byte>>, i: nat)
    requires total != 0 && l.open && l.ids == [] && i < |l.inbox| && IsRequest(l.inbox[i])
    requires NoRequests(l.inbox[..i]) && NoRequests(l.inbox[i + 1..])
    ensures Finish(l, total, packets).complete <==> l.success == total || CounterAt(l, i) == total
  {
    hide Serve, After, CounterAt;
    ServeExactlyWhen(l, total, packets);
    AfterServe(l, total, packets);
    var s := Serve(l, total, packets);
    assert !NoRequests(l.inbox);
    CounterAtRequest(l, s);
    assert Received(l, s) == i + 1;
    QuietCompletion(s, total, packets);
  }

  /** A request that comes while a resent packet is waited for is not taken: its ids go on the
      list, but it is neither acknowledged nor does it end the call. */
  lemma RequestInsideAWait(frame: seq<Byte>)
    ensures var l := Link(true, 1, [1], [Quiet, Arrived(ResendList([2])), Arrived(Response(DOWN_UPGRADEPACKAGE, 0))], []);
            var packets: map<Word, seq<Byte>> := map[1 := frame];
            Serve(l, 2, packets) == Link(false, 2, [2], [], [PacketSent(frame)])
            && !Finish(l, 2, packets).complete
  {
    hide KeyOrder;
    var l := Link(true, 1, [1], [Quiet, Arrived(ResendList([2])), Arrived(Response(DOWN_UPGRADEPACKAGE, 0))], []);
    var packets: map<Word, seq<Byte>> := map[1 := frame];
    var l1 := Take(l, 2);
    var keys := KeyOrder(packets.Keys);
    OnlyKey(packets.Keys);
    AscendingIndices(packets.Keys);
    var l0 := l1.(sent := [PacketSent(frame)]);
    var a := Take(l0, 2);
    assert Await(l0, 2) == Take(a, 2);
    assert l1.sent + [PacketSent(frame)] == l0.sent && keys[1..] == [];
    assert Take(a, 2).ids == [1, 2] && [1 as Word, 2][1..] == [2];
    var l2 := Merge(l1, 2, keys, packets);
    assert l2 == Merge(Take(a, 2).(ids := [2]), 2, [], packets);
    assert Serve(l2, 2, packets) == l2.(open := false);
  }

  lemma OnlyKey(s: set<Word>)
    requires s == {1}
    ensures KeyOrder(s) == [1]
  {
    hide Ascending;
    AscendingMembers(s, 0, IDS);
    OrderIsWhole(s, 0, IDS);
    assert (set k | k in s && 0 <= k < IDS) == s;
    assert KeyOrder(s)[0] in KeyOrder(s);
  }

  /** Where no total was declared nothing ever counts as complete. */
  lemma {:induction false} NeverWithoutTotal(l: Link, packets: map<Word, seq<Byte>>)
    ensures !Finish(l, 0, packets).complete
    decreases |l.inbox|
  {
    hide Serve;
    var l1 := Serve(l, 0, packets);
    if l1.open {
      NeverWithoutTotal(l1, packets);
    }
  }
}
