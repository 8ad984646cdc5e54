/** Packing a request that sets areas or routes.  The write pointer and the size stay in
    step; the length field does too, but for rectangles, which are counted ten bytes short. */
module AreaEncoder {
  import opened Areas
  import opened Bytes
  import opened Framing
  import opened Messages
  import opened Wrappers

  const DOWN_SETCIRCULARAREA: Word := 0x8600
  const DOWN_SETRECTANGLEAREA: Word := 0x8602
  const DOWN_SETPOLYGONALAREA: Word := 0x8604
  const DOWN_SETROUTE: Word := 0x8606

  function MessageId(kind: Kind): Word {
    match kind
    case Circles => DOWN_SETCIRCULARAREA
    case Rectangles => DOWN_SETRECTANGLEAREA
    case Polygons => DOWN_SETPOLYGONALAREA
    case Routes => DOWN_SETROUTE
  }

  /** What an area is missing in the length field. */
  function Short(a: Area): nat {
    if a.shape.Rectangle? then 10 else 0
  }

  function Uncounted(areas: seq<Area>): nat {
    if areas == [] then 0 else Short(areas[0]) + Uncounted(areas[1..])
  }

  /** msg has moved on by s from the given text, size and length. */
  ghost predicate Moved(msg: Message, text: seq<Byte>, size: nat, length: int, packaged: bool, s: seq<Byte>)
    reads msg, msg.buffer
  {
    && msg.Packing() && msg.text == text + s && msg.packaged == packaged
    && msg.size == size + |s| && msg.msglen == (length + |s|) % 1024
  }

  method PutCoordinate(msg: Message, c: Coordinate)
    requires msg.Packing() && msg.cursor + 8 < BUFFER_LEN
    modifies msg, msg.buffer
    ensures msg.Packing() && msg.text == old(msg.text) + CoordinateBytes(c)
    ensures msg.size == old(msg.size) && msg.msglen == old(msg.msglen) && msg.packaged == old(msg.packaged)
  {
    hide Be32;
    ghost var t := msg.text;
    msg.Put32(c.latitude);
    msg.Put32(c.longitude);
    assert t + Be32(c.latitude) + Be32(c.longitude) == t + CoordinateBytes(c);
  }

  method PutPeriod(msg: Message, period: Option<Period>)
    requires msg.Packing() && msg.cursor + |PeriodBytes(period)| < BUFFER_LEN
    modifies msg, msg.buffer
    ensures Moved(msg, old(msg.text), old(msg.size), old(msg.msglen), old(msg.packaged), PeriodBytes(period))
  {
    ghost var t := msg.text;
    if period.Some? {
      msg.PutBytes(period.value.start);
      msg.PutBytes(period.value.end);
      msg.Account(|period.value.start| + |period.value.end|);
      assert t + period.value.start + period.value.end == t + PeriodBytes(period);
    } else {
      assert t + [] == t;
    }
  }

  method PutSpeed(msg: Message, speed: Option<Speed>)
    requires msg.Packing() && msg.cursor + |SpeedBytes(speed)| < BUFFER_LEN
    modifies msg, msg.buffer
    ensures Moved(msg, old(msg.text), old(msg.size), old(msg.msglen), old(msg.packaged), SpeedBytes(speed))
  {
    hide Be16;
    ghost var t := msg.text;
    if speed.Some? {
      msg.Put16(speed.value.max);
      msg.PutByte(speed.value.duration);
      msg.Account(3);
      assert t + Be16(speed.value.max) + [speed.value.duration] == t + SpeedBytes(speed);
    } else {
      assert t + [] == t;
    }
  }

  method PutDriving(msg: Message, driving: Option<Driving>)
    requires msg.Packing() && msg.cursor + |DrivingBytes(driving)| < BUFFER_LEN
    modifies msg, msg.buffer
    ensures Moved(msg, old(msg.text), old(msg.size), old(msg.msglen), old(msg.packaged), DrivingBytes(driving))
  {
    hide Be16;
    ghost var t := msg.text;
    if driving.Some? {
      msg.Put16(driving.value.max);
      msg.Put16(driving.value.min);
      msg.Account(4);
      assert t + Be16(driving.value.max) + Be16(driving.value.min) == t + DrivingBytes(driving);
    } else {
      assert t + [] == t;
    }
  }

  method PutPoint(msg: Message, p: Point)
    requires msg.Packing() && msg.cursor + |PointBytes(p)| < BUFFER_LEN
    modifies msg, msg.buffer
    ensures Moved(msg, old(msg.text), old(msg.size), old(msg.msglen), old(msg.packaged), PointBytes(p))
  {
    hide PointHead;
    ghost var t, n, l, k := msg.text, msg.size, msg.msglen, msg.packaged;
    PutPointHead(msg, p);
    PutDriving(msg, p.driving);
    Move(t, l, PointHead(p), DrivingBytes(p.driving));
    PutSpeed(msg, p.speed);
    Move(t, l, PointHead(p) + DrivingBytes(p.driving), SpeedBytes(p.speed));
  }

  lemma Move(t: seq<Byte>, length: int, a: seq<Byte>, b: seq<Byte>)
    ensures t + a + b == t + (a + b) && |a + b| == |a| + |b|
    ensures ((length + |a|) % 1024 + |b|) % 1024 == (length + |a + b|) % 1024
  {
  }

  method PutPointHead(msg: Message, p: Point)
    requires msg.Packing() && msg.cursor + 18 < BUFFER_LEN
    modifies msg, msg.buffer
    ensures Moved(msg, old(msg.text), old(msg.size), old(msg.msglen), old(msg.packaged), PointHead(p))
  {
    hide Be32, CoordinateBytes;
    ghost var t := msg.text;
    msg.Put32(p.id);
    msg.Put32(p.section);
    PutCoordinate(msg, p.position);
    msg.PutByte(p.wide);
    msg.PutByte(p.attribute);
    msg.Account(18);
    assert t + Be32(p.id) + Be32(p.section) + CoordinateBytes(p.position) + [p.wide] + [p.attribute] == t + PointHead(p);
  }

  method PutCorners(msg: Message, corners: seq<Coordinate>)
    requires msg.Packing() && msg.cursor + |CornersBytes(corners)| < BUFFER_LEN
    modifies msg, msg.buffer
    ensures Moved(msg, old(msg.text), old(msg.size), old(msg.msglen), old(msg.packaged), CornersBytes(corners))
  {
    hide CornersBytes, CoordinateBytes;
    ghost var t, l := msg.text, msg.msglen;
    ghost var done: seq<Byte> := [];
    assert corners[0..] == corners && [] + CornersBytes(corners) == CornersBytes(corners) && t + [] == t;
    for i := 0 to |corners|
      invariant Moved(msg, t, old(msg.size), l, old(msg.packaged), done)
      invariant done + CornersBytes(corners[i..]) == CornersBytes(corners)
    {
      CornersNext(corners, i, done);
      PutCoordinate(msg, corners[i]);
      msg.Account(8);
      Move(t, l, done, CoordinateBytes(corners[i]));
      done := done + CoordinateBytes(corners[i]);
    }
    assert corners[|corners|..] == [];
    CornersNone(done);
  }

  lemma CornersNext(corners: seq<Coordinate>, i: nat, done: seq<Byte>)
    requires i < |corners|
    ensures done + CornersBytes(corners[i..]) == done + CoordinateBytes(corners[i]) + CornersBytes(corners[i + 1..])
    ensures |done + CornersBytes(corners[i..])| >= |done| + 8
  {
  }

  lemma CornersNone(done: seq<Byte>)
    ensures done + CornersBytes([]) == done
  {
  }

  method PutPoints(msg: Message, points: seq<Point>)
    requires msg.Packing() && msg.cursor + |PointsBytes(points)| < BUFFER_LEN
    modifies msg, msg.buffer
    ensures Moved(msg, old(msg.text), old(msg.size), old(msg.msglen), old(msg.packaged), PointsBytes(points))
  {
    hide PointsBytes, PointBytes;
    ghost var t, l := msg.text, msg.msglen;
    ghost var done: seq<Byte> := [];
    assert points[0..] == points && [] + PointsBytes(points) == PointsBytes(points) && t + [] == t;
    for i := 0 to |points|
      invariant Moved(msg, t, old(msg.size), l, old(msg.packaged), done)
      invariant done + PointsBytes(points[i..]) == PointsBytes(points)
    {
      PointsNext(points, i, done);
      PutPoint(msg, points[i]);
      Move(t, l, done, PointBytes(points[i]));
      done := done + PointBytes(points[i]);
    }
    assert points[|points|..] == [];
    PointsNone(done);
  }

  lemma PointsNext(points: seq<Point>, i: nat, done: seq<Byte>)
    requires i < |points|
    ensures done + PointsBytes(points[i..]) == done + PointBytes(points[i]) + PointsBytes(points[i + 1..])
    ensures |done + PointsBytes(points[i..])| >= |done| + |PointBytes(points[i])|
  {
  }

  lemma PointsNone(done: seq<Byte>)
    ensures done + PointsBytes([]) == done
  {
  }

  method PutList(msg: Message, shape: Shape)
    requires msg.Packing() && msg.cursor + |ListBytes(shape)| < BUFFER_LEN
    modifies msg, msg.buffer
    ensures Moved(msg, old(msg.text), old(msg.size), old(msg.msglen), old(msg.packaged), ListBytes(shape))
  {
    hide Be16, CornersBytes, PointsBytes;
    ghost var t, l := msg.text, msg.msglen;
    match shape {
      case Polygon(corners) =>
        msg.Put16(|corners| % 0x1_0000);
        msg.Account(2);
        PutCorners(msg, corners);
        Move(t, l, Be16(|corners| % 0x1_0000), CornersBytes(corners));
      case Route(points) =>
        msg.Put16(|points| % 0x1_0000);
        msg.Account(2);
        PutPoints(msg, points);
        Move(t, l, Be16(|points| % 0x1_0000), PointsBytes(points));
      case Circle(_, _) =>
        assert t + [] == t;
      case Rectangle(_, _) =>
        assert t + [] == t;
    }
  }

  method PutFixed(msg: Message, shape: Shape)
    requires msg.Packing() && msg.cursor + |FixedBytes(shape)| < BUFFER_LEN
    modifies msg, msg.buffer
    ensures msg.Packing() && msg.text == old(msg.text) + FixedBytes(shape)
    ensures msg.size == old(msg.size) && msg.msglen == old(msg.msglen) && msg.packaged == old(msg.packaged)
  {
    hide Be32, CoordinateBytes;
    ghost var t := msg.text;
    match shape {
      case Circle(center, radius) =>
        PutCoordinate(msg, center);
        msg.Put32(radius);
        assert t + CoordinateBytes(center) + Be32(radius) == t + FixedBytes(shape);
      case Rectangle(upperLeft, bottomRight) =>
        PutCoordinate(msg, upperLeft);
        PutCoordinate(msg, bottomRight);
        assert t + CoordinateBytes(upperLeft) + CoordinateBytes(bottomRight) == t + FixedBytes(shape);
      case Polygon(_) =>
        assert t + [] == t;
      case Route(_) =>
        assert t + [] == t;
    }
  }

  /** Id, attribute and the fixed part, and what they are counted for. */
  method PutFront(msg: Message, a: Area)
    requires msg.Packing() && msg.cursor + 6 + |FixedBytes(a.shape)| < BUFFER_LEN
    modifies msg, msg.buffer
    ensures Moved(msg, old(msg.text), old(msg.size), old(msg.msglen) - Short(a), old(msg.packaged),
                  AreaHead(a) + FixedBytes(a.shape))
  {
    hide Be32, Be16, FixedBytes;
    ghost var t := msg.text;
    msg.Put32(a.id);
    msg.Put16(a.attribute);
    PutFixed(msg, a.shape);
    assert t + Be32(a.id) + Be16(a.attribute) + FixedBytes(a.shape) == t + (AreaHead(a) + FixedBytes(a.shape));
    match a.shape {
      case Circle(_, _) => msg.Account(18);
      case Rectangle(_, _) => msg.AccountApart(22, 12);
      case Polygon(_) => msg.Account(6);
      case Route(_) => msg.Account(6);
    }
  }

  method PutArea(msg: Message, a: Area)
    requires msg.Packing() && msg.cursor + |AreaBytes(a)| < BUFFER_LEN
    modifies msg, msg.buffer
    ensures Moved(msg, old(msg.text), old(msg.size), old(msg.msglen) - Short(a), old(msg.packaged), AreaBytes(a))
  {
    hide AreaHead, FixedBytes, PeriodBytes, SpeedBytes, ListBytes, Short, AreaBytes;
    AreaParts(a);
    ghost var t, l := msg.text, msg.msglen - Short(a);
    ghost var front, options := AreaHead(a) + FixedBytes(a.shape), PeriodBytes(a.period) + SpeedBytes(a.speed);
    PutFront(msg, a);
    PutOptions(msg, a);
    Move(t, l, front, options);
    PutList(msg, a.shape);
    Move(t, l, front + options, ListBytes(a.shape));
  }

  /** The fields the attribute announces. */
  method PutOptions(msg: Message, a: Area)
    requires msg.Packing() && msg.cursor + |PeriodBytes(a.period) + SpeedBytes(a.speed)| < BUFFER_LEN
    modifies msg, msg.buffer
    ensures Moved(msg, old(msg.text), old(msg.size), old(msg.msglen), old(msg.packaged),
                  PeriodBytes(a.period) + SpeedBytes(a.speed))
  {
    hide PeriodBytes, SpeedBytes;
    ghost var t, l := msg.text, msg.msglen;
    PutPeriod(msg, a.period);
    PutSpeed(msg, a.speed);
    Move(t, l, PeriodBytes(a.period), SpeedBytes(a.speed));
  }

  lemma AreaParts(a: Area)
    ensures AreaHead(a) + FixedBytes(a.shape) + (PeriodBytes(a.period) + SpeedBytes(a.speed)) + ListBytes(a.shape)
         == AreaBytes(a)
    ensures |AreaBytes(a)| == 6 + |FixedBytes(a.shape)| + |PeriodBytes(a.period) + SpeedBytes(a.speed)|
                              + |ListBytes(a.shape)|
  {
    hide AreaHead, FixedBytes, PeriodBytes, SpeedBytes, ListBytes;
  }

  method PutAreas(msg: Message, areas: seq<Area>)
    requires msg.Packing() && msg.cursor + |AreasBytes(areas)| < BUFFER_LEN
    modifies msg, msg.buffer
    ensures Moved(msg, old(msg.text), old(msg.size), old(msg.msglen) - Uncounted(areas), old(msg.packaged),
                  AreasBytes(areas))
  {
    hide AreasBytes, AreaBytes, Uncounted, Short;
    ghost var t, l := msg.text, msg.msglen as int;
    ghost var done: seq<Byte> := [];
    assert areas[0..] == areas && [] + AreasBytes(areas) == AreasBytes(areas) && t + [] == t;
    for i := 0 to |areas|
      invariant Moved(msg, t, old(msg.size), l, old(msg.packaged), done)
      invariant l - Uncounted(areas[i..]) == old(msg.msglen) - Uncounted(areas)
      invariant done + AreasBytes(areas[i..]) == AreasBytes(areas)
    {
      AreasNext(areas, i, done);
      PutArea(msg, areas[i]);
      CountedShort(l, |done|, Short(areas[i]), |AreaBytes(areas[i])|);
      Move(t, l - Short(areas[i]), done, AreaBytes(areas[i]));
      done, l := done + AreaBytes(areas[i]), l - Short(areas[i]);
    }
    assert areas[|areas|..] == [];
    AreasNone(done);
  }

  /** Bytes missing once stay missing. */
  lemma CountedShort(length: int, a: nat, short: nat, b: nat)
    ensures ((length + a) % 1024 - short + b) % 1024 == ((length - short + a) % 1024 + b) % 1024
  {
  }

  lemma AreasNext(areas: seq<Area>, i: nat, done: seq<Byte>)
    requires i < |areas|
    ensures done + AreasBytes(areas[i..]) == done + AreaBytes(areas[i]) + AreasBytes(areas[i + 1..])
    ensures |done + AreasBytes(areas[i..])| >= |done| + |AreaBytes(areas[i])|
    ensures Uncounted(areas[i..]) == Short(areas[i]) + Uncounted(areas[i + 1..])
  {
    hide AreaBytes, Short;
    assert areas[i..][1..] == areas[i + 1..];
  }

  lemma AreasNone(done: seq<Byte>)
    ensures done + AreasBytes([]) == done && Uncounted([]) == 0
  {
  }

  /** The DOWN_SET branches of the service's packer. */
  method PackAreas(msg: Message, kind: Kind, phone: seq<Byte>, flow: Word, operation: Byte, areas: seq<Area>)
    requires msg.buffer.Length == BUFFER_LEN && msg.ZeroFrom(0) && |phone| == 6
    requires |SetBody(operation, areas)| <= MAX_BODY
    modifies msg, msg.buffer
    ensures msg.size <= BUFFER_LEN == msg.buffer.Length
    ensures msg.buffer[..msg.size] == Wire(AreasContent(kind, phone, flow, operation, areas))
  {
    hide Wire, Header, AreasBytes, Uncounted;
    msg.Begin(MessageId(kind), phone, flow);
    ghost var h := msg.text;
    msg.PutByte(operation);
    msg.PutByte(|areas| % 0x100);
    msg.Account(2);
    PutAreas(msg, areas);
    assert h + [operation] + [|areas| % 0x100] + AreasBytes(areas) == h + [] + SetBody(operation, areas);
    msg.Finish(MessageId(kind), phone, flow, Whole, SetBody(operation, areas));
  }

  /** What is sent: the length in the header is short by ten bytes for every rectangle. */
  function AreasContent(kind: Kind, phone: seq<Byte>, flow: Word, operation: Byte, areas: seq<Area>): seq<Byte>
    requires |phone| == 6
  {
    ContentWith(MessageId(kind), (|SetBody(operation, areas)| - Uncounted(areas)) % 1024, phone, flow, Whole,
                SetBody(operation, areas))
  }

  lemma {:induction false} RectanglesAreShort(areas: seq<Area>)
    ensures Uncounted(areas) <= |AreasBytes(areas)|
    ensures Uncounted(areas) == 0 <==> forall i :: 0 <= i < |areas| ==> !areas[i].shape.Rectangle?
  {
    if areas != [] {
      RectanglesAreShort(areas[1..]);
      assert forall i :: 0 < i < |areas| ==> areas[i] == areas[1..][i - 1];
      assert forall i :: 0 <= i < |areas| - 1 ==> areas[1..][i] == areas[i + 1];
    }
  }

  /** The header gives the body's length exactly when there is no rectangle in it. */
  lemma LengthFieldExactlyWhen(operation: Byte, areas: seq<Area>)
    requires |SetBody(operation, areas)| <= MAX_BODY
    ensures (|SetBody(operation, areas)| - Uncounted(areas)) % 1024 == |SetBody(operation, areas)|
       <==> forall i :: 0 <= i < |areas| ==> !areas[i].shape.Rectangle?
  {
    hide AreasBytes, Uncounted;
    RectanglesAreShort(areas);
  }
}
