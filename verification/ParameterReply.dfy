/** Answering a parameter query: the greedy split of the reply into packets, the total that
    is declared for them, and what the service collects. */
module ParameterReply {
  import opened Bytes
  import opened Framing
  import opened Messages
  import opened Parameters
  import opened UpgradeWire
  import opened Wrappers

  const MAX_DATA := 1020

  // ---- Splitting --------------------------------------------------------------------

  /** The bytes an item is counted for. */
  function ItemSize(item: Item): nat {
    5 + if ParameterKind(item.id).StringKind? then |item.text| else KindLength(ParameterKind(item.id))
  }

  function Total(items: seq<Item>): nat {
    if items == [] then 0 else ItemSize(items[0]) + Total(items[1..])
  }

  /** How many items from the front still fit a packet of which used bytes are taken. */
  function Fill(items: seq<Item>, used: nat): (n: nat)
    ensures n <= |items|
    ensures items != [] && used + ItemSize(items[0]) <= MAX_DATA ==> n > 0
  {
    if items == [] || used + ItemSize(items[0]) > MAX_DATA then 0
    else 1 + Fill(items[1..], used + ItemSize(items[0]))
  }

  predicate EachFits(items: seq<Item>) {
    forall i :: 0 <= i < |items| ==> ItemSize(items[i]) <= MAX_DATA
  }

  /** The items of each packet. */
  function Split(items: seq<Item>): seq<seq<Item>>
    requires EachFits(items)
    decreases |items|
  {
    if items == [] then [] else [items[..Fill(items, 0)]] + Split(items[Fill(items, 0)..])
  }

  /** The total the terminal declares, in its 16-bit arithmetic; zero for no splitting. */
  function DeclaredTotal(items: seq<Item>): Word {
    var dataLen := Total(items) % 0x1_0000;
    if dataLen > MAX_DATA then dataLen / MAX_DATA + 1 else 0
  }

  /** The sequence number packet i is sent with. */
  function SequenceAt(total: Word, i: nat): Word {
    if i < total then i + 1 else total
  }

  /** The DOWN_GETTERMPARA branch from the list of ids on, each packet being answered. */
  method SplitReply(items: seq<Item>) returns (total: Word, packets: seq<seq<Item>>, sequences: seq<Word>)
    requires EachFits(items)
    ensures total == DeclaredTotal(items) && packets == Split(items)
    ensures |sequences| == |packets| && forall i :: 0 <= i < |sequences| ==> sequences[i] == SequenceAt(total, i)
  {
    hide ItemSize, Fill, Split;
    var dataLen := CountData(items);
    total := 0;
    var sequence: Word := 0;
    if dataLen > MAX_DATA {
      total := dataLen / MAX_DATA + 1;
      sequence := 1;
    }
    packets, sequences := [], [];
    var it := 0;
    assert items[0..] == items && [] + Split(items) == Split(items);
    while it < |items|
      invariant 0 <= it <= |items| && packets + Split(items[it..]) == Split(items)
      invariant |sequences| == |packets| && sequence == SequenceAt(total, |packets|)
      invariant forall i :: 0 <= i < |sequences| ==> sequences[i] == SequenceAt(total, i)
    {
      var n := FillPacket(items, it);
      SplitNext(items, it, packets);
      packets, sequences := packets + [items[it..n]], sequences + [sequence];
      it := n;
      if total > sequence {
        sequence := sequence + 1;
      }
    }
    SplitEnd(items, packets);
  }

  lemma SplitNext(items: seq<Item>, it: nat, packets: seq<seq<Item>>)
    requires it < |items| && EachFits(items)
    ensures var n := it + Fill(items[it..], 0);
            it < n <= |items|
            && packets + Split(items[it..]) == packets + [items[it..n]] + Split(items[n..])
  {
    hide ItemSize, Fill;
    var t, k := items[it..], Fill(items[it..], 0);
    assert ItemSize(t[0]) <= MAX_DATA;
    assert t[..k] == items[it..it + k] && t[k..] == items[it + k..];
    assert packets + ([t[..k]] + Split(t[k..])) == packets + [t[..k]] + Split(t[k..]);
  }

  lemma SplitEnd(items: seq<Item>, packets: seq<seq<Item>>)
    requires EachFits(items)
    ensures packets + Split(items[|items|..]) == packets
  {
  }

  method CountData(items: seq<Item>) returns (dataLen: Word)
    ensures dataLen == Total(items) % 0x1_0000
  {
    hide ItemSize;
    dataLen := 0;
    assert items[0..] == items;
    for i := 0 to |items|
      invariant (dataLen + Total(items[i..])) % 0x1_0000 == Total(items) % 0x1_0000
    {
      assert items[i..][1..] == items[i + 1..];
      WrapsOnce(dataLen, ItemSize(items[i]), Total(items[i + 1..]));
      dataLen := (dataLen + ItemSize(items[i])) % 0x1_0000;
    }
  }

  lemma WrapsOnce(a: nat, b: nat, c: nat)
    ensures ((a + b) % 0x1_0000 + c) % 0x1_0000 == (a + (b + c)) % 0x1_0000
  {
  }

  /** The inner loop: where the packet that starts at it ends. */
  method FillPacket(items: seq<Item>, it: nat) returns (n: nat)
    requires it <= |items|
    ensures n == it + Fill(items[it..], 0)
  {
    hide ItemSize;
    var dataLen: nat := 0;
    n := it;
    while n < |items|
      invariant it <= n <= |items| && n + Fill(items[n..], dataLen) == it + Fill(items[it..], 0)
    {
      dataLen := dataLen + ItemSize(items[n]);
      assert items[n..][1..] == items[n + 1..] && items[n..][0] == items[n];
      if dataLen > MAX_DATA {
        return;
      }
      n := n + 1;
    }
  }

  /** What is declared: nothing for up to 1020 bytes, and else the least number of packets whose
      room the bytes, in 16 bits, stay below. */
  lemma DeclaredTotalIs(items: seq<Item>)
    ensures var t, d := Total(items) % 0x1_0000, DeclaredTotal(items);
            if t <= 1020 then d == 0 else 1020 * (d as int - 1) <= t < 1020 * d
  {
    hide Total;
  }

  /** The bytes of an item by the type of its id. */
  lemma ItemSizes(text: Value)
    ensures ItemSize(Item(0x0090, text)) == 6 && ItemSize(Item(0x0101, text)) == 7
    ensures ItemSize(Item(0x0001, text)) == 9 && ItemSize(Item(0x0110, text)) == 5 + |text|
    ensures ItemSize(Item(0xFFFF, text)) == 5
  {
  }

  // ---- What the split is like -------------------------------------------------------

  function Joined(packets: seq<seq<Item>>): seq<Item> {
    if packets == [] then [] else packets[0] + Joined(packets[1..])
  }

  lemma {:induction false} TotalConcat(a: seq<Item>, b: seq<Item>)
    ensures Total(a + b) == Total(a) + Total(b)
  {
    hide ItemSize;
    if a == [] {
      assert a + b == b;
    } else {
      assert (a + b)[1..] == a[1..] + b;
      TotalConcat(a[1..], b);
    }
  }

  /** A packet is filled within the limit, and up to an item that does not fit. */
  lemma {:induction false} FillIsGreedy(items: seq<Item>, used: nat)
    requires used <= MAX_DATA
    ensures var n := Fill(items, used);
            used + Total(items[..n]) <= MAX_DATA
            && (n < |items| ==> used + Total(items[..n]) + ItemSize(items[n]) > MAX_DATA)
    decreases |items|
  {
    hide ItemSize;
    if items != [] && used + ItemSize(items[0]) <= MAX_DATA {
      var n := Fill(items, used);
      FillIsGreedy(items[1..], used + ItemSize(items[0]));
      assert items[..n][1..] == items[1..][..n - 1];
    }
  }

  lemma SplitOnce(items: seq<Item>)
    requires EachFits(items) && items != []
    ensures var n := Fill(items, 0);
            0 < n <= |items| && items[..n] + items[n..] == items && EachFits(items[n..])
            && Split(items) == [items[..n]] + Split(items[n..])
            && Total(items) == Total(items[..n]) + Total(items[n..]) && Total(items[..n]) <= MAX_DATA
            && (n < |items| ==> Total(items[..n]) + ItemSize(items[n]) > MAX_DATA)
  {
    hide ItemSize, Fill, Total, Split, EachFits;
    var n := Fill(items, 0);
    SplitUnfolds(items);
    FillIsGreedy(items, 0);
    TotalCut(items, n);
  }

  lemma TotalCut(items: seq<Item>, n: nat)
    requires n <= |items|
    ensures items[..n] + items[n..] == items && Total(items) == Total(items[..n]) + Total(items[n..])
  {
    hide *;
    CutJoins(items, n);
    TotalConcat(items[..n], items[n..]);
  }

  lemma CutJoins(items: seq<Item>, n: nat)
    requires n <= |items|
    ensures items[..n] + items[n..] == items
  {
  }

  lemma SplitUnfolds(items: seq<Item>)
    requires EachFits(items) && items != []
    ensures var n := Fill(items, 0);
            0 < n <= |items| && EachFits(items[n..]) && Split(items) == [items[..n]] + Split(items[n..])
  {
  }

  /** The packets are the items cut in order, none is empty, and each stays within the limit. */
  lemma {:induction false} SplitCovers(items: seq<Item>)
    requires EachFits(items)
    ensures Joined(Split(items)) == items
    ensures forall i :: 0 <= i < |Split(items)| ==> Split(items)[i] != [] && Total(Split(items)[i]) <= MAX_DATA
    ensures items != [] ==> |Split(items)| > 0
    decreases |items|
  {
    hide ItemSize, Fill, Split, Total;
    if items == [] {
      NothingLeft();
    } else {
      var n := Fill(items, 0);
      SplitOnce(items);
      SplitCovers(items[n..]);
      assert Split(items)[1..] == Split(items[n..]);
    }
  }

  /** How many packets there are: with items of at most 260 bytes every packet but the last
      carries at least 761. */
  lemma {:induction false} SplitCount(items: seq<Item>)
    requires forall i :: 0 <= i < |items| ==> ItemSize(items[i]) <= 260
    requires items != []
    ensures EachFits(items)
    ensures var k := |Split(items)|; k > 0 && MAX_DATA * k >= Total(items) && 761 * (k - 1) < Total(items)
    decreases |items|
  {
    hide ItemSize, Fill, Split, Total;
    var n := Fill(items, 0);
    SplitOnce(items);
    Positive(items);
    if n < |items| {
      SplitCount(items[n..]);
    } else {
      assert items[n..] == [];
      NothingLeft();
    }
  }

  lemma NothingLeft()
    ensures Total([]) == 0 && Split([]) == []
  {
  }

  lemma Positive(items: seq<Item>)
    requires items != []
    ensures Total(items) > 0
  {
  }

  /** The same as two quotients. */
  lemma SplitCountBounds(items: seq<Item>)
    requires forall i :: 0 <= i < |items| ==> ItemSize(items[i]) <= 260
    requires items != []
    ensures EachFits(items)
    ensures (Total(items) + MAX_DATA - 1) / MAX_DATA <= |Split(items)| <= (Total(items) - 1) / 761 + 1
  {
    hide ItemSize, Split, Total;
    SplitCount(items);
    QuotientBounds(Total(items), |Split(items)|);
  }

  lemma QuotientBounds(t: nat, k: nat)
    requires t > 0 && k > 0 && 1020 * k >= t && 761 * (k - 1) < t
    ensures (t + 1019) / 1020 <= k <= (t - 1) / 761 + 1
  {
  }

  // ---- Reply frames -----------------------------------------------------------------

  /** Texts of at most 254 bytes that fit their types. */
  lemma {:induction false} TotalIsLength(items: seq<Item>)
    requires CanonicalItems(items)
    ensures |ItemsBytes(items)| == Total(items) && EachFits(items)
    decreases |items|
  {
    hide ItemBytes, ItemsBytes, Canonical, Payload, ParameterKind;
    if items == [] {
      NoItems();
    } else {
      ItemsFront(items);
      ItemShape(items[0].id, items[0].text);
      PayloadSize(ParameterKind(items[0].id), items[0].text);
      TotalIsLength(items[1..]);
      EachFitsFront(items);
    }
  }

  lemma EachFitsFront(items: seq<Item>)
    requires items != [] && ItemSize(items[0]) <= MAX_DATA && EachFits(items[1..])
    ensures EachFits(items)
  {
  }

  function PartOf(total: Word, sequence: Word): Part {
    if total > 1 then Part(total, sequence) else Whole
  }

  /** A total of one is not announced. */
  lemma PartOfFew(sequence: Word)
    ensures PartOf(0, sequence) == PartOf(1, sequence) == Whole && PartOf(2, sequence) == Part(2, sequence)
  {
  }

  /** One packet of a reply; its length always fits the ten bits. */
  function ReplyFrame(phone: seq<Byte>, flow: Word, respondFlow: Word, part: Part, packet: seq<Item>): (f: seq<Byte>)
    requires |phone| == 6 && CanonicalItems(packet) && Total(packet) <= MAX_DATA
    ensures 0 < |f| <= 2082
  {
    hide ItemsBytes, Total;
    TotalIsLength(packet);
    ReplyLength(respondFlow, packet);
    var c := Content(UP_GETPARARESPONSE, phone, flow, part, ReplyBody(respondFlow, packet));
    FrameLength(c);
    Wire(c)
  }

  lemma ReplyFrameArrives(phone: seq<Byte>, flow: Word, respondFlow: Word, part: Part, packet: seq<Item>,
                          acc: map<DWord, Value>)
    requires |phone| == 6 && CanonicalItems(packet) && Total(packet) <= MAX_DATA
    ensures var p, at := Parse(ReplyFrame(phone, flow, respondFlow, part, packet)), BodyPos(part);
            IdOf(p) == UP_GETPARARESPONSE == 0x0104 && PackagedOf(p) == part.Part?
            && (part.Part? ==> TotalOf(p) == part.total && SequenceOf(p) == part.sequence)
            && p.buffer[5..11] == phone && WordAt(p.buffer, 11) == flow
            && WordAt(p.buffer, at) == respondFlow && p.buffer[at + 2] == |packet|
            && ReadReply(acc, p.buffer, at + 3, p.buffer[at + 2]) == Some(Collected(acc, packet))
  {
    hide ItemsBytes, Total, ReplyBody, Parse, Wire, ReadReply, Collected, Content, ContentWith, CheckPasses,
         WordAt, AttributePackaged, ItemSize, CanonicalItems;
    TotalIsLength(packet);
    ReplyLength(respondFlow, packet);
    var body := ReplyBody(respondFlow, packet);
    var c := Content(UP_GETPARARESPONSE, phone, flow, part, body);
    ContentIs(UP_GETPARARESPONSE, phone, flow, part, body);
    FrameLength(c);
    FrameRoundTrip(c);
    var p, at := Parse(Wire(c)), BodyPos(part);
    HeaderReadBack(p, UP_GETPARARESPONSE, |body| % 1024, phone, flow, part, body);
    BodyReadBack(p, UP_GETPARARESPONSE, |body| % 1024, phone, flow, part, body);
    ReplyParts(p.buffer, at, respondFlow, packet);
    FewItems(packet);
    ReplyReads(acc, p.buffer, at + 3, packet);
  }

  lemma ContentIs(id: Word, phone: seq<Byte>, flow: Word, part: Part, body: seq<Byte>)
    requires |phone| == 6 && |body| <= MAX_BODY
    ensures Content(id, phone, flow, part, body) == ContentWith(id, |body| % 1024, phone, flow, part, body)
    ensures |Content(id, phone, flow, part, body)| <= 16 + MAX_BODY
  {
  }

  lemma ReplyParts(b: seq<Byte>, at: nat, respondFlow: Word, packet: seq<Item>)
    requires at + |ReplyBody(respondFlow, packet)| <= |b|
    requires b[at..at + |ReplyBody(respondFlow, packet)|] == ReplyBody(respondFlow, packet)
    ensures at + 3 + |ItemsBytes(packet)| <= |b| && WordAt(b, at) == respondFlow && b[at + 2] == |packet| % 0x100
    ensures b[at + 3..at + 3 + |ItemsBytes(packet)|] == ItemsBytes(packet)
  {
    hide ItemsBytes, Be16, WordAt;
    var body := ReplyBody(respondFlow, packet);
    BodySlice(b, at, body, 0, 2);
    assert b[at + 0..at + 2] == b[at..at + 2] && body[0..2] == Be16(respondFlow);
    ReadBack16(respondFlow, b, at);
    BodySlice(b, at, body, 2, 3);
    assert b[at + 2] == b[at + 2..at + 3][0] == body[2..3][0];
    BodySlice(b, at, body, 3, |body|);
    assert body[3..] == ItemsBytes(packet);
  }

  /** A packet never holds as many items as its count byte can tell apart. */
  lemma {:induction false} FewItems(items: seq<Item>)
    ensures 5 * |items| <= Total(items)
    decreases |items|
  {
    if items != [] {
      FewItems(items[1..]);
    }
  }
}
