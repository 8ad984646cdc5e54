/** Requests for polygons and routes as the terminal reads them, two bytes late: they are
    never stored as they were sent. */
module AreaMisread {
  import opened AreaDecoder
  import opened AreaEncoder
  import opened AreaExact
  import opened AreaLaws
  import opened AreaStore
  import opened AreaTransfer
  import opened Areas
  import opened Bytes
  import opened Framing
  import opened Messages
  import opened Wrappers

  // ---- Bytes read two places apart --------------------------------------------------

  /** s repeats its first two bytes. */
  ghost predicate Alternates(s: seq<Byte>) {
    |s| >= 2 && forall i :: 0 <= i < |s| ==> s[i] == s[i % 2]
  }

  lemma {:induction false} AlternatesFrom(s: seq<Byte>, i: nat)
    requires i < |s| && |s| >= 2 && forall k :: 0 <= k < |s| - 2 ==> s[k + 2] == s[k]
    ensures s[i] == s[i % 2]
  {
    if i >= 2 {
      AlternatesFrom(s, i - 2);
      assert s[i - 2 + 2] == s[i - 2];
    }
  }

  /** The same bytes two places apart repeat, and the last of them is the byte behind. */
  lemma TwiceTheSame(b: seq<Byte>, at: nat, s: seq<Byte>)
    requires |s| >= 2 && Lies(b, at, s) && Lies(b, at + 2, s)
    ensures Alternates(s) && at + |s| + 1 < |b| && b[at + |s| + 1] == s[|s| - 1]
  {
    forall i | 0 <= i < |s|
      ensures b[at + i] == s[i] && b[at + 2 + i] == s[i]
    {
      assert b[at..at + |s|][i] == b[at + i];
      assert b[at + 2..at + 2 + |s|][i] == b[at + 2 + i];
    }
    forall k | 0 <= k < |s| - 2
      ensures s[k + 2] == s[k]
    {
      assert b[at + (k + 2)] == s[k + 2] && b[at + 2 + k] == s[k];
    }
    forall i | 0 <= i < |s|
      ensures s[i] == s[i % 2]
    {
      AlternatesFrom(s, i);
    }
  }

  // ---- The first area ---------------------------------------------------------------

  /** How many elements the list of a polygon or route has. */
  function Elements(shape: Shape): nat {
    match shape
    case Polygon(corners) => |corners|
    case Route(points) => |points|
    case _ => 0
  }

  /** The bytes n elements take at least. */
  function ElementRoom(kind: Kind, n: nat): nat {
    if kind.Routes? then 18 * n else 8 * n
  }

  /** Where the element count of an area's bytes stands. */
  function CountAt(a: Area): nat {
    6 + |PeriodBytes(a.period)| + |SpeedBytes(a.speed)|
  }

  lemma {:induction false} PointsTakeRoom(points: seq<Point>)
    ensures 18 * |points| <= |PointsBytes(points)|
  {
    hide PointBytes;
    if points != [] {
      PointsTakeRoom(points[1..]);
    }
  }

  lemma CountFirst(n: Word, rest: seq<Byte>)
    ensures var l := Be16(n) + rest; |l| == 2 + |rest| && l[0] == n / 0x100 && l[1] == n % 0x100
  {
  }

  lemma ListTakesRoom(shape: Shape)
    requires (shape.Polygon? || shape.Route?) && ProperShape(shape)
    ensures var n, l := Elements(shape), ListBytes(shape);
            |l| >= 2 + ElementRoom(KindOf(shape), n) && l[0] == n / 0x100 && l[1] == n % 0x100
  {
    hide CornersBytes, PointsBytes, ProperPoint, Be16;
    var n := Elements(shape);
    ElementsFit(shape);
    WholeCount(n);
    if shape.Route? {
      PointsTakeRoom(shape.points);
      CountFirst(n, PointsBytes(shape.points));
    } else {
      CountFirst(n, CornersBytes(shape.corners));
    }
  }

  lemma WholeCount(n: Word)
    ensures n % 0x1_0000 == n
  {
  }

  /** Attribute, element count and size of the first area, in the bytes of the list. */
  lemma FirstArea(areas: seq<Area>)
    requires areas != [] && ProperArea(areas[0]) && (areas[0].shape.Polygon? || areas[0].shape.Route?)
    ensures var s, a := AreasBytes(areas), areas[0];
            var c, n := CountAt(a), Elements(a.shape);
            |s| >= c + 2 + ElementRoom(KindOf(a.shape), n)
            && s[4] == a.attribute / 0x100 && s[5] == a.attribute % 0x100
            && s[c] == n / 0x100 && s[c + 1] == n % 0x100
            && n < 0x1_0000
  {
    hide PeriodBytes, SpeedBytes, ListBytes, AreasBytes, ProperShape;
    var s, a := AreasBytes(areas), areas[0];
    var h, p, v, l := AreaHead(a), PeriodBytes(a.period), SpeedBytes(a.speed), ListBytes(a.shape);
    var front := h + p + v;
    var rest := AreasBytes(areas[1..]);
    ListTakesRoom(a.shape);
    ElementsFit(a.shape);
    FirstOfList(areas);
    assert s == front + (l + rest) by {
      assert h + ([] + (p + (v + l))) + rest == front + (l + rest);
    }
    assert h[4..6] == Be16(a.attribute);
    assert s[4] == h[4] == h[4..6][0] && s[5] == h[5] == h[4..6][1];
    assert s[|front|] == l[0] && s[|front| + 1] == l[1];
  }

  lemma ElementsFit(shape: Shape)
    requires ProperShape(shape)
    ensures Elements(shape) < 0x1_0000
  {
  }

  lemma FirstOfList(areas: seq<Area>)
    requires areas != [] && (areas[0].shape.Polygon? || areas[0].shape.Route?)
    ensures var a := areas[0];
            AreasBytes(areas) == AreaHead(a) + ([] + (PeriodBytes(a.period) + (SpeedBytes(a.speed) + ListBytes(a.shape))))
                                 + AreasBytes(areas[1..])
  {
    hide AreaHead, PeriodBytes, SpeedBytes, ListBytes;
  }

  /** Where the element count stands is odd exactly when there is a speed. */
  lemma CountParity(a: Area)
    requires ProperArea(a) && (a.shape.Polygon? || a.shape.Route?)
    ensures CountAt(a) % 2 == (if a.speed.Some? then 1 else 0)
    ensures a.speed.Some? <==> a.shape.Polygon? && Limited(a.attribute)
  {
    hide Limited, Timed;
  }

  /** Repeating bytes that end in a flag are no list of areas that fits a message and has as
      many areas as its second byte says. */
  lemma NoSuchList(kind: Kind, areas: seq<Area>)
    requires kind.Polygons? || kind.Routes?
    requires areas != [] && AllProper(kind, areas) && |AreasBytes(areas)| <= MAX_BODY - 2
    requires Alternates(AreasBytes(areas)) && |areas| == AreasBytes(areas)[1]
    ensures AreasBytes(areas)[|AreasBytes(areas)| - 1] != SIGN
  {
    hide AreasBytes, ProperArea, CountAt, Limited;
    var s, a := AreasBytes(areas), areas[0];
    var n, c := Elements(a.shape), CountAt(a);
    assert ProperArea(a) && KindOf(a.shape) == kind;
    FirstArea(areas);
    CountParity(a);
    var x, y: Byte := s[0], s[1];
    assert s[c] == s[c % 2] && s[c + 1] == s[(c + 1) % 2] && s[4] == s[4 % 2] && s[5] == s[5 % 2];
    assert s[|s| - 1] == s[(|s| - 1) % 2];
    Bytes16(n);
    Bytes16(a.attribute);
    if s[|s| - 1] == SIGN {
      SmallCount(kind, n, c, x, y, |s|);
      assert a.attribute == SIGN;
      FlagIsLimited(a.attribute);
    }
  }

  lemma Bytes16(v: Word)
    ensures v == v / 0x100 * 0x100 + v % 0x100
  {
  }

  lemma FlagIsLimited(attribute: Word)
    requires attribute == SIGN
    ensures Limited(attribute)
  {
  }

  /** The arithmetic of it: the count must be the second byte, and the flag. */
  lemma SmallCount(kind: Kind, n: nat, c: nat, x: Byte, y: Byte, size: nat)
    requires kind.Polygons? || kind.Routes?
    requires size <= 1021 && size >= c + 2 + ElementRoom(kind, n) && y > 0 && (x == SIGN || y == SIGN)
    requires n == if c % 2 == 0 then x * 0x100 + y else y * 0x100 + x
    ensures kind.Polygons? && c % 2 == 0 && x == 0 && y == SIGN
  {
  }

  // ---- Requests ---------------------------------------------------------------------

  /** The closing flag stands behind the check byte. */
  lemma FlagBehind(kind: Kind, phone: seq<Byte>, flow: Word, operation: Byte, areas: seq<Area>)
    requires |phone| == 6 && Sendable(kind, Set(operation, areas))
    ensures var b, end := Parse(RequestFrame(kind, phone, flow, Set(operation, areas))).buffer,
                          NOPACKAGE_POS + 2 + |AreasBytes(areas)|;
            end + 1 < |b| && b[end + 1] == SIGN
  {
    hide Parse, Bcc, AreasBytes, Delimited, Sendable, RequestContent;
    var c := RequestContent(kind, phone, flow, Set(operation, areas));
    SetContentLength(kind, phone, flow, operation, areas);
    var text := c + [Bcc(c)];
    FrameLength(c);
    ParseDelimited(text);
    var p := Parse(Delimited(text));
    assert p.buffer[|text| + 1] == p.buffer[1..|text| + 3][|text|];
  }

  lemma SetContentLength(kind: Kind, phone: seq<Byte>, flow: Word, operation: Byte, areas: seq<Area>)
    requires |phone| == 6 && Sendable(kind, Set(operation, areas))
    ensures |RequestContent(kind, phone, flow, Set(operation, areas))| == 14 + |AreasBytes(areas)|
    ensures |AreasBytes(areas)| <= MAX_BODY - 2
  {
    hide AreasBytes, Header, Uncounted, AllProper;
  }

  /** Whatever operation is asked for, the areas the terminal reads from a request for polygons
      or routes are never the areas that were sent. */
  lemma NeverReadAsSent(kind: Kind, phone: seq<Byte>, flow: Word, operation: Byte, areas: seq<Area>)
    requires |phone| == 6 && Sendable(kind, Set(operation, areas)) && areas != []
    requires kind.Polygons? || kind.Routes?
    ensures var b := Parse(RequestFrame(kind, phone, flow, Set(operation, areas))).buffer;
            var h := HeaderAt(kind, NOPACKAGE_POS);
            ReadAreas(kind, b, h + 2, b[h + 1]) != Some(areas)
  {
    hide Parse, RequestFrame, AreasBytes, Lies, AllProper, ReadAreas, Alternates;
    var b := Parse(RequestFrame(kind, phone, flow, Set(operation, areas))).buffer;
    var s := AreasBytes(areas);
    SetLies(kind, phone, flow, operation, areas);
    HeaderLies(b, NOPACKAGE_POS, operation, areas);
    SetContentLength(kind, phone, flow, operation, areas);
    if ReadAreas(kind, b, NOPACKAGE_POS + 4, b[NOPACKAGE_POS + 3]) == Some(areas) {
      AreasLie(kind, b, NOPACKAGE_POS + 4, b[NOPACKAGE_POS + 3], areas);
      AreaTakesSix(areas);
      TwiceTheSame(b, NOPACKAGE_POS + 2, s);
      SecondByte(b, NOPACKAGE_POS + 2, s);
      FlagBehind(kind, phone, flow, operation, areas);
      NoSuchList(kind, areas);
    }
  }

  lemma SecondByte(b: seq<Byte>, at: nat, s: seq<Byte>)
    requires Lies(b, at, s) && |s| >= 2
    ensures b[at + 1] == s[1]
  {
    assert b[at..at + |s|][1] == b[at + 1];
  }

  // ---- What is stored ---------------------------------------------------------------

  lemma {:induction false} OtherOperationsKeepLength(list: seq<Area>, operation: Byte, areas: seq<Area>)
    requires operation != APPEND
    ensures |PutAll(list, operation, areas)| == |list|
    decreases |areas|
  {
    if areas != [] {
      if HasId(list, areas[0].id) {
        RemoveShortens(list, areas[0].id);
      }
      OtherOperationsKeepLength(Put(list, operation, areas[0]), operation, areas[1..]);
    }
  }

  lemma {:induction false} RemoveShortens(list: seq<Area>, id: DWord)
    requires HasId(list, id)
    ensures |RemoveFirst(list, id)| == |list| - 1
  {
    if list[0].id != id {
      HasIdFront(list, id);
      RemoveShortens(list[1..], id);
    }
  }

  lemma {:induction false} AppendsAll(list: seq<Area>, areas: seq<Area>)
    ensures PutAll(list, APPEND, areas) == list + areas
    decreases |areas|
  {
    if areas == [] {
      assert list + [] == list;
    } else {
      AppendsAll(list + [areas[0]], areas[1..]);
      assert list + [areas[0]] + areas[1..] == list + areas;
    }
  }

  /** A request to append polygons or routes never does: whatever the terminal's list, and
      whatever is sent, the result is not the one that was asked for.  Either nothing is stored,
      or the list keeps its length, or other areas are appended, or a read leaves the buffer. */
  lemma NeverStoredAsSent(kind: Kind, list: Option<seq<Area>>, phone: seq<Byte>, flow: Word, areas: seq<Area>)
    requires |phone| == 6 && Sendable(kind, Set(APPEND, areas)) && areas != []
    requires kind.Polygons? || kind.Routes?
    ensures var p := Parse(RequestFrame(kind, phone, flow, Set(APPEND, areas)));
            var d := Deal(kind, list, p.buffer, HeaderAt(kind, NOPACKAGE_POS));
            d.Outside? || d.list != AfterSet(list, APPEND, areas)
  {
    hide Parse, RequestFrame, ReadAreas, AllProper, AfterSet, AreasBytes, Uncounted, Headed, RequestContent;
    NeverReadAsSent(kind, phone, flow, APPEND, areas);
    var b, h := Parse(RequestFrame(kind, phone, flow, Set(APPEND, areas))).buffer, HeaderAt(kind, NOPACKAGE_POS);
    var read := ReadAreas(kind, b, h + 2, b[h + 1]);
    if read.Some? {
      OthersAreOther(list, b[h], read.value, areas);
    }
  }

  lemma OthersAreOther(list: Option<seq<Area>>, operation: Byte, read: seq<Area>, areas: seq<Area>)
    requires read != areas && areas != []
    ensures AfterSet(list, operation, read) != AfterSet(list, APPEND, areas)
  {
    hide PutAll;
    AppendsAll(OrEmpty(list), areas);
    if operation == APPEND {
      AppendsAll(OrEmpty(list), read);
      SameFront(OrEmpty(list), read, areas);
    } else {
      OtherOperationsKeepLength(OrEmpty(list), operation, read);
    }
  }

  lemma SameFront(list: seq<Area>, a: seq<Area>, b: seq<Area>)
    requires a != b
    ensures list + a != list + b
  {
    assert (list + a)[|list|..] == a;
    assert (list + b)[|list|..] == b;
  }
}
