/** Setting parameters and asking for them again, over frames. */
module ParameterDialogue {
  import opened Bytes
  import opened Framing
  import opened IdRequest
  import opened Messages
  import opened ParameterReply
  import opened Parameters
  import opened UpgradeWire
  import opened Wrappers

  // ---- Setting ----------------------------------------------------------------------

  function SetFrame(phone: seq<Byte>, flow: Word, items: seq<Item>): (f: seq<Byte>)
    requires |phone| == 6 && |SetBody(items)| <= MAX_BODY
    ensures 0 < |f| <= 2082
  {
    var c := Content(DOWN_SETTERMPARA, phone, flow, Whole, SetBody(items));
    FrameLength(c);
    Wire(c)
  }

  /** A set message stores exactly the texts of its items whose ids are there. */
  lemma SetArrives(phone: seq<Byte>, flow: Word, items: seq<Item>, m: map<DWord, Value>)
    requires |phone| == 6 && |SetBody(items)| <= MAX_BODY && CanonicalItems(items)
    ensures var p := Parse(SetFrame(phone, flow, items));
            IdOf(p) == DOWN_SETTERMPARA == 0x8103 && !PackagedOf(p) && p.buffer[13] == |items|
            && Apply(m, p.buffer, NOPACKAGE_POS + 1, p.buffer[NOPACKAGE_POS]) == Some(Updated(m, Known(m, items)))
  {
    hide ItemsBytes, SetBody, Parse, Wire, Apply, Updated, Known, ContentWith, WordAt, AttributePackaged, CanonicalItems;
    var body := SetBody(items);
    WholeArrives(DOWN_SETTERMPARA, |body| % 1024, phone, flow, body);
    var p := Parse(SetFrame(phone, flow, items));
    SetParts(p.buffer, NOPACKAGE_POS, items);
    SetHoldsFew(items);
    SetStores(m, p.buffer, NOPACKAGE_POS + 1, items);
  }

  lemma SetParts(b: seq<Byte>, at: nat, items: seq<Item>)
    requires at + |SetBody(items)| <= |b| && b[at..at + |SetBody(items)|] == SetBody(items)
    ensures at + 1 + |ItemsBytes(items)| <= |b| && b[at] == |items| % 0x100
    ensures b[at + 1..at + 1 + |ItemsBytes(items)|] == ItemsBytes(items)
  {
    hide ItemsBytes;
    var body := SetBody(items);
    BodySlice(b, at, body, 0, 1);
    assert b[at] == b[at + 0..at + 1][0] == body[0..1][0];
    BodySlice(b, at, body, 1, |body|);
    assert body[1..] == ItemsBytes(items);
  }

  lemma SetHoldsFew(items: seq<Item>)
    requires |SetBody(items)| <= MAX_BODY && CanonicalItems(items)
    ensures |items| < 0x100
  {
    hide ItemsBytes, Total, CanonicalItems;
    TotalIsLength(items);
    FewItems(items);
    assert |SetBody(items)| == 1 + |ItemsBytes(items)|;
  }

  predicate Distinct(items: seq<Item>) {
    forall i, j :: 0 <= i < j < |items| ==> items[i].id != items[j].id
  }

  /** What a list of items with different ids leaves: its texts, and everything else as it was. */
  lemma {:induction false} UpdatedIs(m: map<DWord, Value>, items: seq<Item>)
    requires Distinct(items) && forall i :: 0 <= i < |items| ==> items[i].id in m
    ensures Updated(m, items).Keys == m.Keys
    ensures forall i :: 0 <= i < |items| ==> Updated(m, items)[items[i].id] == items[i].text
    ensures forall id :: id in m && (forall i :: 0 <= i < |items| ==> items[i].id != id) ==>
                           Updated(m, items)[id] == m[id]
    decreases |items|
  {
    if items != [] {
      var m1 := m[items[0].id := items[0].text];
      var rest := items[1..];
      assert m1.Keys == m.Keys;
      UpdatedIs(m1, rest);
      assert forall i :: 0 < i < |items| ==> items[i] == rest[i - 1];
      assert forall i :: 0 <= i < |rest| ==> rest[i] == items[i + 1];
    }
  }

  // ---- Asking -----------------------------------------------------------------------

  /** The frames of a reply, numbered on from flow. */
  function ReplyFrames(phone: seq<Byte>, flow: Word, respondFlow: Word, total: Word, packets: seq<seq<Item>>,
                       from: nat): (frames: seq<seq<Byte>>)
    requires |phone| == 6 && from <= |packets| && Packets(packets)
    ensures |frames| == |packets| - from
    ensures forall i :: 0 <= i < |frames| ==> 0 < |frames[i]| <= MAX_FRAME
    decreases |packets| - from
  {
    if from == |packets| then []
    else
      [ReplyFrame(phone, (flow + from) % 0x1_0000, respondFlow, PartOf(total, SequenceAt(total, from)), packets[from])]
      + ReplyFrames(phone, flow, respondFlow, total, packets, from + 1)
  }

  predicate Packets(packets: seq<seq<Item>>) {
    forall i :: 0 <= i < |packets| ==> CanonicalItems(packets[i]) && Total(packets[i]) <= MAX_DATA
  }

  /** The service's wait for a reply: finished with what it has collected, or still waiting. */
  datatype Query = Finished(texts: map<DWord, Value>) | Waiting | Broken

  predicate Receivable(frames: seq<seq<Byte>>) {
    forall i :: 0 <= i < |frames| ==> 0 < |frames[i]| <= MAX_FRAME
  }

  /** DealGetTerminalParameterRequest: frames of another id are ignored, and the wait goes on as
      long as total and sequence, which a reply without the package bit leaves alone, differ. */
  function Collect(acc: map<DWord, Value>, total: Word, sequence: Word, frames: seq<seq<Byte>>): Query
    requires Receivable(frames)
    decreases |frames|
  {
    if frames == [] then Waiting
    else
      var p := Parse(frames[0]);
      if IdOf(p) != UP_GETPARARESPONSE then Collect(acc, total, sequence, frames[1..])
      else
        var at := if PackagedOf(p) then PACKAGE_POS else NOPACKAGE_POS;
        var t, s := if PackagedOf(p) then TotalOf(p) else total, if PackagedOf(p) then SequenceOf(p) else sequence;
        var o := ReadReply(acc, p.buffer, at + 3, p.buffer[at + 2]);
        if o.None? then Broken
        else if t != s then Collect(o.value, t, s, frames[1..])
        else Finished(o.value)
  }

  /** A frame of another id is passed over; a reply adds its items, and the wait goes on as long as
      total and sequence differ: those of the reply, or, of one without the package bit, those
      that were there before. */
  lemma OtherFrames(acc: map<DWord, Value>, t: Word, s: Word, f: seq<Byte>, frames: seq<seq<Byte>>)
    requires 0 < |f| <= MAX_FRAME && Receivable(frames)
    ensures Receivable([f] + frames)
    ensures var b, q := Parse(f).buffer, Collect(acc, t, s, [f] + frames);
            var read := ReadReply(acc, b, 16, b[15]);
            && (WordAt(b, 1) != 0x0104 ==> q == Collect(acc, t, s, frames))
            && (WordAt(b, 1) == 0x0104 && WordAt(b, 3) % 0x4000 < 0x2000 ==>
                  q == if read.None? then Broken else if t != s then Collect(read.value, t, s, frames)
                       else Finished(read.value))
            && (WordAt(b, 1) == 0x0104 && WordAt(b, 3) % 0x4000 >= 0x2000 ==>
                  var part, total, sequence := ReadReply(acc, b, 20, b[19]), WordAt(b, 13), WordAt(b, 15);
                  q == if part.None? then Broken
                       else if total != sequence then Collect(part.value, total, sequence, frames)
                       else Finished(part.value))
  {
    hide Parse, ReadReply, WordAt;
    var all := [f] + frames;
    assert all[0] == f && all[1..] == frames;
    PackageBit(WordAt(Parse(f).buffer, 3));
  }

  method CollectReplies(frames: seq<seq<Byte>>) returns (q: Query)
    requires Receivable(frames)
    ensures q == Collect(map[], 0, 0, frames)
  {
    hide Parse, ReadReply, WordAt, AttributePackaged;
    var acc: map<DWord, Value> := map[];
    var total: Word, sequence: Word := 0, 0;
    assert frames[0..] == frames;
    for i := 0 to |frames|
      invariant Collect(acc, total, sequence, frames[i..]) == Collect(map[], 0, 0, frames)
    {
      var p := Parse(frames[i]);
      assert frames[i..][1..] == frames[i + 1..] && frames[i..][0] == frames[i];
      if IdOf(p) == UP_GETPARARESPONSE {
        var at := NOPACKAGE_POS;
        if PackagedOf(p) {
          total, sequence, at := TotalOf(p), SequenceOf(p), PACKAGE_POS;
        }
        var o := DealReply(p.buffer, at, acc);
        if o.None? {
          return Broken;
        }
        acc := o.value;
        if total == sequence {
          return Finished(acc);
        }
      }
    }
    return Waiting;
  }

  // ---- What is collected ------------------------------------------------------------

  /** The number of packets after which the service stops, if that many arrive. */
  function StopAfter(total: Word): nat {
    if total == 0 then 1 else total
  }

  lemma {:induction false} CollectedConcat(acc: map<DWord, Value>, a: seq<Item>, b: seq<Item>)
    ensures Collected(acc, a + b) == Collected(Collected(acc, a), b)
    decreases |a|
  {
    if a == [] {
      assert a + b == b;
    } else {
      assert (a + b)[0] == a[0] && (a + b)[1..] == a[1..] + b;
      CollectedConcat(if a[0].id in acc then acc else acc[a[0].id := a[0].text], a[1..], b);
    }
  }

  /** From packet `from` on, the service collects up to the packet it stops after. */
  lemma {:induction false} CollectFrom(phone: seq<Byte>, flow: Word, respondFlow: Word, total: Word,
                                       packets: seq<seq<Item>>, from: nat, acc: map<DWord, Value>, t: Word, s: Word)
    requires |phone| == 6 && from <= |packets| && Packets(packets) && total != 1
    requires from < StopAfter(total) && (total == 0 ==> t == s)
    ensures Collect(acc, t, s, ReplyFrames(phone, flow, respondFlow, total, packets, from))
         == if |packets| < StopAfter(total) then Waiting
            else Finished(Collected(acc, Joined(packets[from..StopAfter(total)])))
    decreases |packets| - from
  {
    hide Parse, ReadReply, WordAt, AttributePackaged, ReplyFrame, Collected, CanonicalItems, Total;
    var frames := ReplyFrames(phone, flow, respondFlow, total, packets, from);
    if from < |packets| {
      var sequence := SequenceAt(total, from);
      ReplyFrameArrives(phone, (flow + from) % 0x1_0000, respondFlow, PartOf(total, sequence), packets[from], acc);
      assert frames[1..] == ReplyFrames(phone, flow, respondFlow, total, packets, from + 1);
      var acc1 := Collected(acc, packets[from]);
      if from + 1 < StopAfter(total) {
        CollectFrom(phone, flow, respondFlow, total, packets, from + 1, acc1, total, sequence);
        if StopAfter(total) <= |packets| {
          JoinedFront(packets, from, StopAfter(total));
          CollectedConcat(acc, packets[from], Joined(packets[from + 1..StopAfter(total)]));
        }
      } else {
        JoinedFront(packets, from, from + 1);
        assert packets[from + 1..from + 1] == [];
        assert packets[from] + [] == packets[from];
      }
    }
  }

  lemma JoinedFront(packets: seq<seq<Item>>, from: nat, to: nat)
    requires from < to <= |packets|
    ensures Joined(packets[from..to]) == packets[from] + Joined(packets[from + 1..to])
  {
  }

  lemma {:induction false} JoinedConcat(a: seq<seq<Item>>, b: seq<seq<Item>>)
    ensures Joined(a + b) == Joined(a) + Joined(b)
    decreases |a|
  {
    if a == [] {
      assert a + b == b;
    } else {
      assert (a + b)[0] == a[0] && (a + b)[1..] == a[1..] + b;
      JoinedConcat(a[1..], b);
    }
  }

  /** Items with different ids are collected one by one; none is hidden by an earlier one. */
  lemma {:induction false} CollectedIs(acc: map<DWord, Value>, items: seq<Item>)
    requires Distinct(items) && forall i :: 0 <= i < |items| ==> items[i].id !in acc
    ensures var r := Collected(acc, items);
            (forall id :: id in r <==> id in acc || Named(items, id))
            && (forall id :: id in acc ==> r[id] == acc[id])
            && forall i :: 0 <= i < |items| ==> r[items[i].id] == items[i].text
    decreases |items|
  {
    if items != [] {
      var rest := items[1..];
      assert forall i :: 0 < i < |items| ==> items[i] == rest[i - 1];
      assert forall i :: 0 <= i < |rest| ==> rest[i] == items[i + 1];
      CollectedIs(acc[items[0].id := items[0].text], rest);
      forall id
        ensures Named(items, id) <==> id == items[0].id || Named(rest, id)
      {
        NamedFront(items, id);
      }
    }
  }

  predicate Named(items: seq<Item>, id: DWord) {
    exists i :: 0 <= i < |items| && items[i].id == id
  }

  lemma NamedFront(items: seq<Item>, id: DWord)
    requires items != []
    ensures Named(items, id) <==> id == items[0].id || Named(items[1..], id)
  {
  }

  lemma SplitPackets(items: seq<Item>)
    requires CanonicalItems(items)
    ensures EachFits(items) && Packets(Split(items))
  {
    hide Split, Total, Canonical, ParameterKind, ItemSize;
    TotalIsLength(items);
    SplitCovers(items);
    forall i | 0 <= i < |Split(items)|
      ensures CanonicalItems(Split(items)[i])
    {
      PacketIsPart(items, Split(items), i);
    }
  }

  lemma {:induction false} PacketIsPart(items: seq<Item>, packets: seq<seq<Item>>, i: nat)
    requires Joined(packets) == items && i < |packets|
    requires CanonicalItems(items)
    ensures CanonicalItems(packets[i])
    decreases |packets|
  {
    hide Canonical, ParameterKind;
    var rest := packets[1..];
    assert items == packets[0] + Joined(rest);
    if i == 0 {
      assert forall k :: 0 <= k < |packets[0]| ==> packets[0][k] == items[k];
    } else {
      assert forall k :: 0 <= k < |Joined(rest)| ==> Joined(rest)[k] == items[|packets[0]| + k];
      PacketIsPart(Joined(rest), rest, i - 1);
    }
  }

  function QueryFrames(phone: seq<Byte>, flow: Word, respondFlow: Word, items: seq<Item>): (frames: seq<seq<Byte>>)
    requires |phone| == 6 && CanonicalItems(items)
    ensures Receivable(frames)
  {
    SplitPackets(items);
    ReplyFrames(phone, flow, respondFlow, DeclaredTotal(items), Split(items), 0)
  }

  lemma {:induction false} FrameOfReply(phone: seq<Byte>, flow: Word, respondFlow: Word, total: Word,
                                        packets: seq<seq<Item>>, from: nat, i: nat)
    requires |phone| == 6 && from <= i < |packets| && Packets(packets)
    ensures ReplyFrames(phone, flow, respondFlow, total, packets, from)[i - from]
         == ReplyFrame(phone, (flow + i) % 0x1_0000, respondFlow, PartOf(total, SequenceAt(total, i)), packets[i])
    decreases i - from
  {
    hide ReplyFrame, Packets;
    if from < i {
      FrameOfReply(phone, flow, respondFlow, total, packets, from + 1, i);
    }
  }

  /** How the frames of a reply are numbered: each has the next flow number and answers the same
      one; a split reply counts its packets up to the declared total, which all further ones
      repeat. */
  lemma RepliesAreNumbered(phone: seq<Byte>, flow: Word, respondFlow: Word, items: seq<Item>, i: nat)
    requires |phone| == 6 && CanonicalItems(items) && EachFits(items) && i < |Split(items)|
    ensures |QueryFrames(phone, flow, respondFlow, items)| == |Split(items)|
    ensures var b, t := Parse(QueryFrames(phone, flow, respondFlow, items)[i]).buffer, Total(items) % 0x1_0000;
            && WordAt(b, 1) == 0x0104 && b[5..11] == phone && WordAt(b, 11) == (flow + i) % 0x1_0000
            && (t > 1020 ==>
                  && WordAt(b, 3) % 0x4000 >= 0x2000 && WordAt(b, 13) == t / 1020 + 1
                  && WordAt(b, 15) == (if i <= t / 1020 then i + 1 else t / 1020 + 1) && WordAt(b, 17) == respondFlow)
            && (t <= 1020 ==> WordAt(b, 3) % 0x4000 < 0x2000 && WordAt(b, 13) == respondFlow)
  {
    hide Parse, ReplyFrame, ReplyFrames, Split, Total, CanonicalItems, WordAt, Collected, ReadReply;
    SplitPackets(items);
    var total := DeclaredTotal(items);
    assert total as int == (var t := Total(items) % 0x1_0000; if t > 1020 then t / 1020 + 1 else 0);
    FrameOfReply(phone, flow, respondFlow, total, Split(items), 0, i);
    var part := PartOf(total, SequenceAt(total, i));
    ReplyFrameArrives(phone, (flow + i) % 0x1_0000, respondFlow, part, Split(items)[i], map[]);
    var p := Parse(ReplyFrame(phone, (flow + i) % 0x1_0000, respondFlow, part, Split(items)[i]));
    PackageBit(WordAt(p.buffer, 3));
  }

  /** What a query brings back, in every case: nothing yet if fewer packets come than were
      declared, and else the items of as many packets as the service waits for. */
  lemma QueryOutcome(phone: seq<Byte>, flow: Word, respondFlow: Word, items: seq<Item>)
    requires |phone| == 6 && CanonicalItems(items) && EachFits(items)
    ensures var stop := StopAfter(DeclaredTotal(items));
            Collect(map[], 0, 0, QueryFrames(phone, flow, respondFlow, items))
            == if |Split(items)| < stop then Waiting
               else Finished(Collected(map[], Joined(Split(items)[..stop])))
  {
    hide Collect, ReplyFrames, Split, Total, CanonicalItems, Collected, Joined, EachFits, Packets;
    SplitPackets(items);
    NeverOne(items);
    CollectFrom(phone, flow, respondFlow, DeclaredTotal(items), Split(items), 0, map[], 0, 0);
    if |Split(items)| >= StopAfter(DeclaredTotal(items)) {
      assert Split(items)[0..StopAfter(DeclaredTotal(items))] == Split(items)[..StopAfter(DeclaredTotal(items))];
    }
  }

  lemma NeverOne(items: seq<Item>)
    ensures DeclaredTotal(items) != 1
  {
  }

  /** As many packets as the bytes of an answer ask for: one for up to 1020 bytes, and else the
      quotient by 1020 and one more. */
  function Expected(bytes: nat): nat {
    if bytes % 0x1_0000 <= 1020 then 1 else bytes % 0x1_0000 / 1020 + 1
  }

  lemma StopIs(items: seq<Item>)
    ensures StopAfter(DeclaredTotal(items)) == Expected(Total(items))
    ensures Total(items) <= 1020 ==> Expected(Total(items)) == 1
    ensures 1020 < Total(items) < 0x1_0000 ==> Expected(Total(items)) == Total(items) / 1020 + 1
  {
    hide Total;
  }

  /** A query for different ids brings back all of their texts exactly when the greedy cut makes
      as many packets as the length of the answer asks for. */
  lemma QueryCompletesExactlyWhen(phone: seq<Byte>, flow: Word, respondFlow: Word, items: seq<Item>)
    requires |phone| == 6 && CanonicalItems(items) && EachFits(items) && Distinct(items) && items != []
    ensures Collect(map[], 0, 0, QueryFrames(phone, flow, respondFlow, items)) == Finished(Collected(map[], items))
       <==> |Split(items)| == if Total(items) % 0x1_0000 <= 1020 then 1 else Total(items) % 0x1_0000 / 1020 + 1
  {
    hide Collect, QueryFrames, Split, Total, CanonicalItems, Collected, Joined, EachFits, DeclaredTotal, Distinct;
    QueryOutcome(phone, flow, respondFlow, items);
    StopIs(items);
    SplitCovers(items);
    var stop, packets := StopAfter(DeclaredTotal(items)), Split(items);
    if |packets| >= stop {
      JoinedConcat(packets[..stop], packets[stop..]);
      assert packets[..stop] + packets[stop..] == packets;
      if |packets| == stop {
        assert packets[..stop] == packets;
      } else {
        SomeAreLost(items, Joined(packets[..stop]), Joined(packets[stop..]), packets[stop..]);
      }
    }
  }

  lemma SomeAreLost(items: seq<Item>, front: seq<Item>, back: seq<Item>, packets: seq<seq<Item>>)
    requires items == front + back && Distinct(items)
    requires back == Joined(packets) && packets != [] && packets[0] != []
    ensures Collected(map[], front) != Collected(map[], items)
  {
    hide Collected;
    assert |back| >= |packets[0]|;
    var lost := items[|front|].id;
    assert forall i :: 0 <= i < |front| ==> front[i] == items[i];
    CollectedIs(map[], front);
    CollectedIs(map[], items);
    assert !Named(front, lost);
    assert Named(items, lost);
  }

  // ---- Set, then get ----------------------------------------------------------------

  function ItemsOf(m: map<DWord, Value>, ids: seq<DWord>): (items: seq<Item>)
    requires forall i :: 0 <= i < |ids| ==> ids[i] in m
    ensures |items| == |ids| && forall i :: 0 <= i < |ids| ==> items[i] == Item(ids[i], m[ids[i]])
  {
    seq(|ids|, i requires 0 <= i < |ids| => Item(ids[i], m[ids[i]]))
  }

  /** PrepareTerminalParameterIdList: the ids of a query, if all of them are there. */
  method PrepareIdList(b: seq<Byte>, at: nat, count: nat, m: map<DWord, Value>) returns (r: Option<seq<DWord>>)
    requires at + 4 * count <= |b|
    ensures r == if forall i :: 0 <= i < count ==> IdsIn(b, at, count)[i] in m then Some(IdsIn(b, at, count)) else None
  {
    hide DWordAt;
    var ids: seq<DWord> := [];
    for i := 0 to count
      invariant ids == IdsIn(b, at, count)[..i]
      invariant forall k :: 0 <= k < i ==> IdsIn(b, at, count)[k] in m
    {
      var id := DWordAt(b, at + i * 4);
      assert id == IdsIn(b, at, count)[i];
      if id !in m {
        return None;
      }
      ids := ids + [id];
    }
    assert IdsIn(b, at, count)[..count] == IdsIn(b, at, count);
    return Some(ids);
  }

  predicate AllDifferent(ids: seq<DWord>) {
    forall i, j :: 0 <= i < j < |ids| ==> ids[i] != ids[j]
  }

  predicate CanonicalIn(m: map<DWord, Value>, ids: seq<DWord>) {
    forall i :: 0 <= i < |ids| ==> ids[i] in m && Canonical(ParameterKind(ids[i]), m[ids[i]])
  }

  /** Setting some parameters and asking for any: the terminal keeps its ids and every value
      that was not set, and the answer, once complete, gives the text that was set for each
      id that was set and the old text for the others. */
  lemma SetThenGet(phone: seq<Byte>, flow: Word, m: map<DWord, Value>, items: seq<Item>, ids: seq<DWord>,
                   replyFlow: Word, respondFlow: Word)
    requires |phone| == 6 && |SetBody(items)| <= MAX_BODY && CanonicalItems(items) && Distinct(items)
    requires forall i :: 0 <= i < |items| ==> items[i].id in m
    requires CanonicalIn(m, ids) && AllDifferent(ids) && ids != []
    ensures var p := Parse(SetFrame(phone, flow, items));
            var o := Apply(m, p.buffer, NOPACKAGE_POS + 1, p.buffer[NOPACKAGE_POS]);
            o == Some(Updated(m, items)) && o.value.Keys == m.Keys && AfterSet(m, items, o.value)
    ensures CanonicalIn(Updated(m, items), ids)
    ensures var asked := ItemsOf(Updated(m, items), ids);
            CanonicalItems(asked) && EachFits(asked)
            && (|Split(asked)| == Expected(Total(asked)) ==>
                  var q := Collect(map[], 0, 0, QueryFrames(phone, replyFlow, respondFlow, asked));
                  q.Finished? && Answers(q.texts, m, items, ids))
  {
    hide Parse, Apply, Updated, Split, DeclaredTotal, Collect, Canonical, ParameterKind, QueryFrames, SetBody,
         Collected, Total, ItemsBytes, ItemSize;
    SetArrives(phone, flow, items, m);
    AllKnown(m, items);
    UpdatedIs(m, items);
    StaysCanonical(m, items, ids);
    var asked := ItemsOf(Updated(m, items), ids);
    TotalIsLength(asked);
    if |Split(asked)| == Expected(Total(asked)) {
      QueryCompletesExactlyWhen(phone, replyFlow, respondFlow, asked);
      CollectedIs(map[], asked);
      AnswersAll(m, items, ids, Collected(map[], asked));
    }
  }

  /** m1 has the texts of items, and those of m for every other id. */
  ghost predicate AfterSet(m: map<DWord, Value>, items: seq<Item>, m1: map<DWord, Value>) {
    && (forall i :: 0 <= i < |items| ==> items[i].id in m1 && m1[items[i].id] == items[i].text)
    && (forall id :: id in m && !Named(items, id) ==> id in m1 && m1[id] == m[id])
  }

  ghost predicate Answers(texts: map<DWord, Value>, m: map<DWord, Value>, items: seq<Item>, ids: seq<DWord>) {
    && (forall id :: id in texts <==> id in ids)
    && (forall i :: 0 <= i < |items| && items[i].id in ids ==>
                      items[i].id in texts && texts[items[i].id] == items[i].text)
    && (forall id :: id in ids && !Named(items, id) ==> id in m && id in texts && texts[id] == m[id])
  }

  lemma StaysCanonical(m: map<DWord, Value>, items: seq<Item>, ids: seq<DWord>)
    requires CanonicalItems(items) && CanonicalIn(m, ids) && AfterSet(m, items, Updated(m, items))
    ensures CanonicalIn(Updated(m, items), ids)
  {
  }

  lemma AnswersAll(m: map<DWord, Value>, items: seq<Item>, ids: seq<DWord>, texts: map<DWord, Value>)
    requires CanonicalIn(m, ids) && AfterSet(m, items, Updated(m, items))
    requires forall i :: 0 <= i < |ids| ==> ids[i] in Updated(m, items)
    requires var asked := ItemsOf(Updated(m, items), ids);
             (forall id :: id in texts <==> Named(asked, id))
             && forall i :: 0 <= i < |asked| ==> texts[asked[i].id] == asked[i].text
    ensures Answers(texts, m, items, ids)
  {
    hide Canonical, ParameterKind, Updated;
    var asked := ItemsOf(Updated(m, items), ids);
    forall id
      ensures Named(asked, id) <==> id in ids
      ensures id in ids ==> id in texts && texts[id] == Updated(m, items)[id]
    {
      if id in ids {
        var i :| 0 <= i < |ids| && ids[i] == id;
        assert asked[i].id == id;
      }
    }
  }

  // ---- Where a query does not complete ----------------------------------------------

  /** When every packet is exactly full, one packet too many is declared and the service
      waits for it. */
  lemma FullPacketsNeverComplete(phone: seq<Byte>, flow: Word, respondFlow: Word, items: seq<Item>)
    requires |phone| == 6 && CanonicalItems(items) && EachFits(items) && MAX_DATA < Total(items) < 0x1_0000
    requires forall i :: 0 <= i < |Split(items)| ==> Total(Split(items)[i]) == MAX_DATA
    ensures Collect(map[], 0, 0, QueryFrames(phone, flow, respondFlow, items)) == Waiting
  {
    hide Collect, QueryFrames, Split, Total, CanonicalItems, Collected, Joined, EachFits, DeclaredTotal;
    QueryOutcome(phone, flow, respondFlow, items);
    SplitCovers(items);
    FullTotal(Split(items));
    DeclaredTotalIs(items);
  }

  lemma {:induction false} FullTotal(packets: seq<seq<Item>>)
    requires forall i :: 0 <= i < |packets| ==> Total(packets[i]) == MAX_DATA
    ensures Total(Joined(packets)) == MAX_DATA * |packets|
  {
    hide Total;
    if packets == [] {
      NothingLeft();
    } else {
      FullTotal(packets[1..]);
      TotalConcat(packets[0], Joined(packets[1..]));
    }
  }

  /** Eight strings of 250 bytes: two packets are sent, three are declared. */
  lemma EightLongTextsNeverComplete(phone: seq<Byte>, flow: Word, respondFlow: Word, items: seq<Item>)
    requires |phone| == 6 && CanonicalItems(items) && |items| == 8
    requires forall i :: 0 <= i < 8 ==> ItemSize(items[i]) == 255
    ensures EachFits(items)
    ensures |Split(items)| == 2 && DeclaredTotal(items) == 3
    ensures Collect(map[], 0, 0, QueryFrames(phone, flow, respondFlow, items)) == Waiting
  {
    hide Collect, QueryFrames, Split, Total, CanonicalItems, Fill, ItemSize;
    var back := items[4..];
    FourFill(items);
    FourFill(back);
    SplitUnfolds(items);
    SplitUnfolds(back);
    NothingLeft();
    assert back[4..] == [];
    assert back[..4] == back;
    TotalCut(items, 4);
    QueryOutcome(phone, flow, respondFlow, items);
  }

  lemma FourFill(items: seq<Item>)
    requires |items| >= 4 && forall i :: 0 <= i < |items| ==> ItemSize(items[i]) == 255
    ensures Fill(items, 0) == 4 && Total(items[..4]) == MAX_DATA
  {
    hide ItemSize;
    assert items[1..][1..] == items[2..] && items[2..][1..] == items[3..] && items[3..][1..] == items[4..];
    assert Fill(items[4..], 1020) == 0;
    assert Fill(items[3..], 765) == 1;
    assert Fill(items[2..], 510) == 2;
    assert Fill(items[1..], 255) == 3;
    var f := items[..4];
    assert f[1..][1..] == f[2..] && f[2..][1..] == f[3..] && f[3..][1..] == [];
    assert Total(f[3..]) == 255;
    assert Total(f[2..]) == 510;
    assert Total(f[1..]) == 765;
  }

  /** Six strings of 245 bytes, 1500 bytes in all: two packets are declared and two are sent, four
      strings in one and two in the other, and the query completes. */
  lemma SixLongTextsComplete(phone: seq<Byte>, flow: Word, respondFlow: Word, items: seq<Item>)
    requires |phone| == 6 && CanonicalItems(items) && Distinct(items) && |items| == 6
    requires forall i :: 0 <= i < 6 ==> ItemSize(items[i]) == 250
    ensures EachFits(items)
    ensures Split(items) == [items[..4], items[4..]] && DeclaredTotal(items) == 2
    ensures Collect(map[], 0, 0, QueryFrames(phone, flow, respondFlow, items)) == Finished(Collected(map[], items))
  {
    hide Collect, QueryFrames, Split, Total, CanonicalItems, Fill, ItemSize, Distinct, Collected;
    var back := items[4..];
    FourOfSix(items);
    TwoFill(back);
    SplitUnfolds(items);
    SplitUnfolds(back);
    NothingLeft();
    assert back[2..] == [];
    assert back[..2] == back;
    TotalCut(items, 4);
    QueryCompletesExactlyWhen(phone, flow, respondFlow, items);
  }

  lemma FourOfSix(items: seq<Item>)
    requires |items| == 6 && forall i :: 0 <= i < 6 ==> ItemSize(items[i]) == 250
    ensures Fill(items, 0) == 4 && Total(items[..4]) == 1000
  {
    hide ItemSize;
    assert items[1..][1..] == items[2..] && items[2..][1..] == items[3..] && items[3..][1..] == items[4..];
    assert Fill(items[4..], 1000) == 0;
    assert Fill(items[3..], 750) == 1;
    assert Fill(items[2..], 500) == 2;
    assert Fill(items[1..], 250) == 3;
    var f := items[..4];
    assert f[1..][1..] == f[2..] && f[2..][1..] == f[3..] && f[3..][1..] == [];
    assert Total(f[3..]) == 250;
    assert Total(f[2..]) == 500;
    assert Total(f[1..]) == 750;
  }

  lemma TwoFill(items: seq<Item>)
    requires |items| == 2 && ItemSize(items[0]) == ItemSize(items[1]) == 250
    ensures Fill(items, 0) == 2 && Total(items) == 500
  {
    hide ItemSize;
    assert items[1..][1..] == [];
    assert Fill(items[1..], 250) == 1 && Total(items[1..]) == 250;
  }

  /** An answer that fits one packet always completes. */
  lemma ShortAnswerCompletes(phone: seq<Byte>, flow: Word, respondFlow: Word, items: seq<Item>)
    requires |phone| == 6 && CanonicalItems(items) && items != [] && Total(items) <= MAX_DATA
    ensures Collect(map[], 0, 0, QueryFrames(phone, flow, respondFlow, items)) == Finished(Collected(map[], items))
  {
    hide Collect, QueryFrames, Split, Total, CanonicalItems, Collected, Joined, Fill, ItemSize;
    TotalIsLength(items);
    QueryOutcome(phone, flow, respondFlow, items);
    OnePacket(items);
    assert Split(items)[..1] == Split(items);
    SplitCovers(items);
  }

  lemma OnePacket(items: seq<Item>)
    requires EachFits(items) && items != [] && Total(items) <= MAX_DATA
    ensures |Split(items)| == 1
  {
    hide Split, Total, Fill, ItemSize;
    SplitOnce(items);
    var n := Fill(items, 0);
    if n < |items| {
      OneCounts(items, n);
    } else {
      assert items[n..] == [];
      NothingLeft();
    }
  }

  lemma OneCounts(items: seq<Item>, n: nat)
    requires n < |items|
    ensures Total(items) >= Total(items[..n]) + ItemSize(items[n])
  {
    hide ItemSize;
    TotalCut(items, n);
    assert items[n..][0] == items[n];
  }
}
