/** Areas and routes from the service's packer to the terminal's list. */
module AreaTransfer {
  import opened AreaDecoder
  import opened AreaEncoder
  import opened AreaLaws
  import opened AreaStore
  import opened Areas
  import opened Bytes
  import opened Framing
  import opened IdRequest
  import opened Messages
  import opened UpgradeWire
  import opened Wrappers

  function DeleteId(kind: Kind): Word {
    match kind
    case Circles => DOWN_DELCIRCULARAREA
    case Rectangles => DOWN_DELRECTANGLEAREA
    case Polygons => DOWN_DELPOLYGONALAREA
    case Routes => DOWN_DELROUTE
  }

  /** A request that fits one message. */
  predicate Sendable(kind: Kind, r: Request) {
    match r
    case Set(operation, areas) => AllProper(kind, areas) && |SetBody(operation, areas)| <= MAX_BODY
    case Delete(ids) => |ids| <= 255
  }

  function RequestContent(kind: Kind, phone: seq<Byte>, flow: Word, r: Request): (c: seq<Byte>)
    requires |phone| == 6 && Sendable(kind, r)
    ensures |c| <= 16 + MAX_BODY
  {
    match r
    case Set(operation, areas) => AreasContent(kind, phone, flow, operation, areas)
    case Delete(ids) => Content(DeleteId(kind), phone, flow, Whole, IdBody(ids))
  }

  function RequestFrame(kind: Kind, phone: seq<Byte>, flow: Word, r: Request): (f: seq<Byte>)
    requires |phone| == 6 && Sendable(kind, r)
    ensures 0 < |f| <= MAX_FRAME
  {
    FrameLength(RequestContent(kind, phone, flow, r));
    Wire(RequestContent(kind, phone, flow, r))
  }

  /** The terminal's branches for one kind, with the header of a set request read where each
      kind's decoder looks for it, or once as it was meant; None when a read leaves the buffer. */
  function Receive(once: bool, kind: Kind, list: Option<seq<Area>>, p: Packet): Option<Option<seq<Area>>>
    requires Sized(p)
  {
    var body := if PackagedOf(p) then PACKAGE_POS else NOPACKAGE_POS;
    if IdOf(p) == MessageId(kind) then
      var d := Deal(kind, list, p.buffer, if once then body else HeaderAt(kind, body));
      if d.Outside? then None else Some(d.list)
    else if IdOf(p) == DeleteId(kind) then Some(AfterDelete(list, IdsIn(p.buffer, body + 1, p.buffer[body])))
    else Some(list)
  }

  // ---- One request ------------------------------------------------------------------

  lemma {:induction false} TenForEachRectangle(kind: Kind, areas: seq<Area>)
    requires forall i :: 0 <= i < |areas| ==> Areas.KindOf(areas[i].shape) == kind
    ensures Uncounted(areas) == if kind.Rectangles? then 10 * |areas| else 0
  {
    if areas != [] {
      assert Areas.KindOf(areas[0].shape) == kind;
      TenForEachRectangle(kind, areas[1..]);
    }
  }

  /** The header every request arrives with: setting and deleting have neighbouring ids, and the
      length is ten bytes short for every rectangle. */
  lemma RequestHeader(kind: Kind, phone: seq<Byte>, flow: Word, r: Request)
    requires |phone| == 6 && Sendable(kind, r)
    ensures var b, first := Parse(RequestFrame(kind, phone, flow, r)).buffer,
                            match kind case Circles => 0x8600 case Rectangles => 0x8602
                                       case Polygons => 0x8604 case Routes => 0x8606;
            WordAt(b, 1) == first + (if r.Set? then 0 else 1) && b[5..11] == phone && WordAt(b, 11) == flow
            && WordAt(b, 3) == match r
                               case Set(operation, areas) =>
                                 (|SetBody(operation, areas)| - (if kind.Rectangles? then 10 * |areas| else 0)) % 1024
                               case Delete(ids) => 1 + 4 * |ids|
  {
    hide Parse, Wire, WordAt, ContentWith, SetBody, Uncounted, IdBody, ProperArea, Bcc, CheckPasses;
    var c := RequestContent(kind, phone, flow, r);
    FrameLength(c);
    FrameRoundTrip(c);
    match r
    case Set(operation, areas) =>
      TenForEachRectangle(kind, areas);
      HeaderArrives(MessageId(kind), (|SetBody(operation, areas)| - Uncounted(areas)) % 1024, phone, flow,
                    SetBody(operation, areas), Parse(Wire(c)));
    case Delete(ids) =>
      HeaderArrives(DeleteId(kind), |IdBody(ids)| % 1024, phone, flow, IdBody(ids), Parse(Wire(c)));
  }

  lemma HeaderArrives(id: Word, msglen: nat, phone: seq<Byte>, flow: Word, body: seq<Byte>, p: Packet)
    requires |phone| == 6 && msglen < 1024 && Carries(p, ContentWith(id, msglen, phone, flow, Whole, body))
    ensures WordAt(p.buffer, 1) == id && p.buffer[5..11] == phone && WordAt(p.buffer, 11) == flow
    ensures WordAt(p.buffer, 3) == msglen
  {
    hide WordAt, ContentWith, IdOf, FlowOf, PackagedOf;
    HeaderReadBack(p, id, msglen, phone, flow, Whole, body);
  }

  lemma AreaTakesSix(areas: seq<Area>)
    ensures 6 * |areas| <= |AreasBytes(areas)|
  {
  }

  lemma SetContent(kind: Kind, phone: seq<Byte>, flow: Word, operation: Byte, areas: seq<Area>)
    requires |phone| == 6 && Sendable(kind, Set(operation, areas))
    ensures |areas| < 0x100
    ensures RequestContent(kind, phone, flow, Set(operation, areas)) == AreasContent(kind, phone, flow, operation, areas)
    ensures |SetBody(operation, areas)| == 2 + |AreasBytes(areas)| <= MAX_BODY
  {
    hide AreasBytes, Uncounted, ContentWith, AllProper;
    AreaTakesSix(areas);
  }

  /** Header and areas of a set request as they lie in the parsed buffer, whatever the header
      of the message says about its length. */
  lemma SetLies(kind: Kind, phone: seq<Byte>, flow: Word, operation: Byte, areas: seq<Area>)
    requires |phone| == 6 && Sendable(kind, Set(operation, areas))
    ensures |areas| < 0x100
    ensures var p := Parse(RequestFrame(kind, phone, flow, Set(operation, areas)));
            IdOf(p) == MessageId(kind) && !PackagedOf(p)
            && Lies(p.buffer, NOPACKAGE_POS, SetBody(operation, areas))
  {
    hide Parse, Wire, CheckPasses, AreasBytes, WordAt, AttributePackaged, ContentWith, Sendable, Uncounted, SetBody,
         RequestContent, RequestFrame, MessageId, Lies, IdOf, PackagedOf;
    SetContent(kind, phone, flow, operation, areas);
    var body := SetBody(operation, areas);
    SetFrameIs(kind, phone, flow, operation, areas);
    WholeArrives(MessageId(kind), (|body| - Uncounted(areas)) % 1024, phone, flow, body);
    var p := Parse(RequestFrame(kind, phone, flow, Set(operation, areas)));
    assert Sized(p);
    SliceLies(p.buffer, NOPACKAGE_POS, body);
  }

  lemma SetFrameIs(kind: Kind, phone: seq<Byte>, flow: Word, operation: Byte, areas: seq<Area>)
    requires |phone| == 6 && Sendable(kind, Set(operation, areas))
    ensures RequestFrame(kind, phone, flow, Set(operation, areas))
         == Wire(ContentWith(MessageId(kind), (|SetBody(operation, areas)| - Uncounted(areas)) % 1024, phone, flow, Whole,
                             SetBody(operation, areas)))
  {
    hide Wire, AreasBytes, ContentWith, Uncounted, SetBody, MessageId;
  }

  lemma HeaderLies(b: seq<Byte>, at: nat, operation: Byte, areas: seq<Area>)
    requires Lies(b, at, SetBody(operation, areas)) && |areas| < 0x100
    ensures at + 2 <= |b| && b[at] == operation && b[at + 1] == |areas|
    ensures Lies(b, at + 2, AreasBytes(areas))
  {
    hide AreasBytes, Lies, Headed;
    TwoLie(b, at, operation, |areas| % 0x100, AreasBytes(areas));
  }

  lemma TwoLie(b: seq<Byte>, at: nat, x: Byte, y: Byte, rest: seq<Byte>)
    requires Lies(b, at, Headed(x, y, rest))
    ensures at + 2 <= |b| && b[at] == x && b[at + 1] == y && Lies(b, at + 2, rest)
  {
    hide Lies;
    LiesInside(b, at, Headed(x, y, rest));
    LiesApart(b, at, [x], [y] + rest);
    LiesApart(b, at + 1, [y], rest);
    LiesByte(b, at, x);
    LiesByte(b, at + 1, y);
  }

  lemma SliceLies(b: seq<Byte>, at: nat, s: seq<Byte>)
    requires at + |s| <= |b| && b[at..at + |s|] == s
    ensures Lies(b, at, s)
  {
  }

  /** Read from the place where its header is, a set request is stored as it was sent. */
  lemma SetArrives(kind: Kind, list: Option<seq<Area>>, phone: seq<Byte>, flow: Word, operation: Byte,
                   areas: seq<Area>)
    requires |phone| == 6 && Sendable(kind, Set(operation, areas))
    ensures var p := Parse(RequestFrame(kind, phone, flow, Set(operation, areas)));
            Deal(kind, list, p.buffer, NOPACKAGE_POS)
            == Dealt.Dealt(AfterSet(list, operation, areas), if areas != [] then 0 else 1)
  {
    hide Parse, RequestFrame, AreasBytes, Lies, ReadAreas, AllProper;
    SetLies(kind, phone, flow, operation, areas);
    var b := Parse(RequestFrame(kind, phone, flow, Set(operation, areas))).buffer;
    HeaderLies(b, NOPACKAGE_POS, operation, areas);
    AreasReadBack(kind, areas, b, NOPACKAGE_POS + 2);
  }

  /** Polygons and routes are read two bytes late: the first id's upper two bytes are taken
      for operation and count.  The terminal reports failure, and stores nothing, exactly
      when the second of that id's four bytes is zero. */
  lemma HeaderReadTwice(kind: Kind, list: Option<seq<Area>>, phone: seq<Byte>, flow: Word, operation: Byte,
                        areas: seq<Area>)
    requires |phone| == 6 && Sendable(kind, Set(operation, areas)) && areas != []
    requires kind.Polygons? || kind.Routes?
    ensures var p, id := Parse(RequestFrame(kind, phone, flow, Set(operation, areas))), areas[0].id;
            var d := Deal(kind, list, p.buffer, HeaderAt(kind, NOPACKAGE_POS));
            p.buffer[HeaderAt(kind, NOPACKAGE_POS)] == id / 0x100_0000
            && p.buffer[HeaderAt(kind, NOPACKAGE_POS) + 1] == id / 0x1_0000 % 0x100
            && (d == Dealt.Dealt(list, 1) <==> id / 0x1_0000 % 0x100 == 0)
  {
    hide Parse, RequestFrame, AreasBytes, Lies, AllProper, ReadArea, AreaEnd;
    SetLies(kind, phone, flow, operation, areas);
    var b, id := Parse(RequestFrame(kind, phone, flow, Set(operation, areas))).buffer, areas[0].id;
    HeaderLies(b, NOPACKAGE_POS, operation, areas);
    var rest := FirstId(areas);
    TwoLie(b, NOPACKAGE_POS + 2, id / 0x100_0000, id / 0x1_0000 % 0x100, rest);
  }

  lemma FirstId(areas: seq<Area>) returns (rest: seq<Byte>)
    requires areas != []
    ensures var id := areas[0].id;
            AreasBytes(areas) == Headed(id / 0x100_0000, id / 0x1_0000 % 0x100, rest)
  {
    hide FixedBytes, PeriodBytes, SpeedBytes, ListBytes;
    var id := areas[0].id;
    var s := AreasBytes(areas);
    assert s[..4] == Be32(id);
    assert s[0] == s[..4][0] == id / 0x1_0000 / 0x100;
    assert s[1] == s[..4][1] == id / 0x1_0000 % 0x100;
    rest := s[2..];
    assert s == [s[0]] + ([s[1]] + rest);
  }

  lemma DeleteArrives(once: bool, kind: Kind, list: Option<seq<Area>>, phone: seq<Byte>, flow: Word, ids: seq<DWord>)
    requires |phone| == 6 && |ids| <= 255
    ensures Receive(once, kind, list, Parse(RequestFrame(kind, phone, flow, Delete(ids)))) == Some(AfterDelete(list, ids))
  {
    hide Parse, RequestFrame, Wire, IdBody, AfterDelete, WordAt, AttributePackaged, CheckPasses, Deal, IdsIn, ContentWith;
    IdsArrive(DeleteId(kind), phone, flow, ids);
    DeleteIdArrives(kind, phone, flow, ids);
  }

  lemma DeleteIdArrives(kind: Kind, phone: seq<Byte>, flow: Word, ids: seq<DWord>)
    requires |phone| == 6 && |ids| <= 255
    ensures var c := Content(DeleteId(kind), phone, flow, Whole, IdBody(ids));
            RequestFrame(kind, phone, flow, Delete(ids)) == Wire(c) && 0 < |Wire(c)| <= MAX_FRAME
            && IdOf(Parse(Wire(c))) == DeleteId(kind) && MessageId(kind) != DeleteId(kind)
  {
    hide Parse, Wire, IdBytes, WordAt, AttributePackaged, CheckPasses, ContentWith, Bcc;
    var body := IdBody(ids);
    var c := Content(DeleteId(kind), phone, flow, Whole, body);
    FrameLength(c);
    ContentLength(DeleteId(kind), |body| % 1024, phone, flow, Whole, body);
    FrameRoundTrip(c);
    HeaderReadBack(Parse(Wire(c)), DeleteId(kind), |body| % 1024, phone, flow, Whole, body);
  }

  lemma RequestArrives(once: bool, kind: Kind, list: Option<seq<Area>>, phone: seq<Byte>, flow: Word, r: Request)
    requires |phone| == 6 && Sendable(kind, r) && (once || kind.Circles? || kind.Rectangles?)
    ensures Receive(once, kind, list, Parse(RequestFrame(kind, phone, flow, r))) == Some(Serve(list, r))
  {
    hide Parse, RequestFrame, AfterDelete, AfterSet, WordAt, DWordAt, AttributePackaged, Deal, Lies, SetBody, AllProper;
    match r
    case Set(operation, areas) =>
      SetLies(kind, phone, flow, operation, areas);
      SetArrives(kind, list, phone, flow, operation, areas);
    case Delete(ids) =>
      DeleteArrives(once, kind, list, phone, flow, ids);
  }

  // ---- Runs -------------------------------------------------------------------------

  function ReceiveAll(once: bool, kind: Kind, list: Option<seq<Area>>, phone: seq<Byte>, flow: nat, rs: seq<Request>)
    : Option<Option<seq<Area>>>
    requires |phone| == 6 && forall i :: 0 <= i < |rs| ==> Sendable(kind, rs[i])
    decreases |rs|
  {
    if rs == [] then Some(list)
    else
      var o := Receive(once, kind, list, Parse(RequestFrame(kind, phone, flow % 0x1_0000, rs[0])));
      if o.None? then None else ReceiveAll(once, kind, o.value, phone, flow + 1, rs[1..])
  }

  /** The service sends any run of requests, appending fresh ids only: for circles and
      rectangles, and for polygons and routes with the header read once, the terminal never
      reads outside its buffer, and its list stands for the map the requests make. */
  lemma {:induction false} FramesRefineMap(once: bool, kind: Kind, list: Option<seq<Area>>, phone: seq<Byte>,
                                           flow: nat, rs: seq<Request>)
    requires |phone| == 6 && (once || kind.Circles? || kind.Rectangles?)
    requires forall i :: 0 <= i < |rs| ==> Sendable(kind, rs[i])
    requires UniqueIds(OrEmpty(list)) && FreshRun(MapOf(OrEmpty(list)), rs)
    ensures var o := ReceiveAll(once, kind, list, phone, flow, rs);
            o.Some? && Stands(OrEmpty(o.value), ServeAllMap(MapOf(OrEmpty(list)), rs))
    decreases |rs|
  {
    hide Serve, ServeMap, FreshPuts, UniqueIds, MapOf, OrEmpty, Receive, Parse, RequestFrame, Sendable, Touches;
    if rs != [] {
      RequestArrives(once, kind, list, phone, flow % 0x1_0000, rs[0]);
      var ids := Touched(rs[0]);
      ServeStands(list, rs[0], ids);
      FramesRefineMap(once, kind, Serve(list, rs[0]), phone, flow + 1, rs[1..]);
    }
  }

  lemma Touched(r: Request) returns (ids: set<DWord>)
    ensures r == Delete([]) || forall id :: Touches(r, id) ==> id in ids
  {
    match r
    case Set(_, areas) => ids := set i | 0 <= i < |areas| :: areas[i].id;
    case Delete(named) => ids := set id | id in named;
  }
}
