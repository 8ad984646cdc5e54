/** The decoders take nothing but what stands there: whatever they read, its bytes lie where
    it was read. */
module AreaExact {
  import opened AreaDecoder
  import opened Areas
  import opened Bytes
  import opened Wrappers

  // ---- Fields -----------------------------------------------------------------------

  lemma LiesJoined(b: seq<Byte>, at: nat, s: seq<Byte>, t: seq<Byte>)
    requires Lies(b, at, s) && Lies(b, at + |s|, t)
    ensures Lies(b, at, s + t)
  {
    assert b[at..at + |s + t|] == b[at..at + |s|] + b[at + |s|..at + |s| + |t|];
  }

  lemma LiesNothing(b: seq<Byte>, at: nat)
    requires at <= |b|
    ensures Lies(b, at, [])
  {
  }

  lemma WordLies(b: seq<Byte>, at: nat)
    requires at + 2 <= |b|
    ensures Lies(b, at, Be16(WordAt(b, at)))
  {
    var hi, lo := b[at] as int, b[at + 1] as int;
    assert (hi * 0x100 + lo) / 0x100 == hi && (hi * 0x100 + lo) % 0x100 == lo;
  }

  lemma DWordLies(b: seq<Byte>, at: nat)
    requires at + 4 <= |b|
    ensures Lies(b, at, Be32(DWordAt(b, at)))
  {
    hide Lies, Be16, WordAt;
    var hi, lo := WordAt(b, at) as int, WordAt(b, at + 2) as int;
    assert (hi * 0x1_0000 + lo) / 0x1_0000 == hi && (hi * 0x1_0000 + lo) % 0x1_0000 == lo;
    WordLies(b, at);
    WordLies(b, at + 2);
    LiesJoined(b, at, Be16(hi), Be16(lo));
  }

  lemma ByteLies(b: seq<Byte>, at: nat)
    requires at < |b|
    ensures Lies(b, at, [b[at]])
  {
  }

  lemma CoordinateLies(b: seq<Byte>, at: nat)
    requires at + 8 <= |b|
    ensures Lies(b, at, CoordinateBytes(ReadCoordinate(b, at)))
  {
    hide Lies, Be32, DWordAt;
    DWordLies(b, at);
    DWordLies(b, at + 4);
    LiesJoined(b, at, Be32(DWordAt(b, at)), Be32(DWordAt(b, at + 4)));
  }

  lemma PeriodLies(b: seq<Byte>, at: nat, there: bool)
    requires at + PeriodSize(there) <= |b|
    ensures var s := PeriodBytes(ReadPeriod(b, at, there)); |s| == PeriodSize(there) && Lies(b, at, s)
  {
    if there {
      assert b[at..at + 12] == b[at..at + 6] + b[at + 6..at + 12];
    }
  }

  lemma SpeedLies(b: seq<Byte>, at: nat, there: bool)
    requires at + SpeedSize(there) <= |b|
    ensures Lies(b, at, SpeedBytes(ReadSpeed(b, at, there)))
  {
    hide Lies, Be16, WordAt;
    if there {
      WordLies(b, at);
      ByteLies(b, at + 2);
      LiesJoined(b, at, Be16(WordAt(b, at)), [b[at + 2]]);
    } else {
      LiesNothing(b, at);
    }
  }

  lemma DrivingLies(b: seq<Byte>, at: nat, there: bool)
    requires at + DrivingSize(there) <= |b|
    ensures Lies(b, at, DrivingBytes(ReadDriving(b, at, there)))
  {
    hide Lies, Be16, WordAt;
    if there {
      WordLies(b, at);
      WordLies(b, at + 2);
      LiesJoined(b, at, Be16(WordAt(b, at)), Be16(WordAt(b, at + 2)));
    } else {
      LiesNothing(b, at);
    }
  }

  // ---- Lists ------------------------------------------------------------------------

  lemma PointHeadLies(b: seq<Byte>, at: nat, p: Point)
    requires ReadPoint(b, at) == Some(p)
    ensures Lies(b, at, PointHead(p))
  {
    hide Lies, Be32, DWordAt, CoordinateBytes, ReadCoordinate;
    DWordLies(b, at);
    DWordLies(b, at + 4);
    CoordinateLies(b, at + 8);
    ByteLies(b, at + 16);
    ByteLies(b, at + 17);
    LiesJoined(b, at + 16, [b[at + 16]], [b[at + 17]]);
    assert [p.wide] + [p.attribute] == [p.wide, p.attribute];
    LiesJoined(b, at, Be32(p.id), Be32(p.section));
    LiesJoined(b, at, Be32(p.id) + Be32(p.section), CoordinateBytes(p.position));
    LiesJoined(b, at, Be32(p.id) + Be32(p.section) + CoordinateBytes(p.position), [p.wide, p.attribute]);
  }

  lemma PointLies(b: seq<Byte>, at: nat, p: Point)
    requires ReadPoint(b, at) == Some(p)
    ensures Lies(b, at, PointBytes(p)) && PointEnd(b, at) == at + |PointBytes(p)|
  {
    hide Lies, PointHead, DWordAt, ReadCoordinate, DrivingBytes, SpeedBytes, Timed, Limited;
    PointHeadLies(b, at, p);
    var attribute: Byte := b[at + 17];
    DrivingLies(b, at + 18, Timed(attribute));
    SpeedLies(b, at + 18 + DrivingSize(Timed(attribute)), Limited(attribute));
    LiesJoined(b, at, PointHead(p), DrivingBytes(p.driving));
    LiesJoined(b, at, PointHead(p) + DrivingBytes(p.driving), SpeedBytes(p.speed));
  }

  lemma {:induction false} PointsLie(b: seq<Byte>, at: nat, count: nat, points: seq<Point>)
    requires at <= |b| && ReadPoints(b, at, count) == Some(points)
    ensures |points| == count && Lies(b, at, PointsBytes(points)) && PointsEnd(b, at, count) == at + |PointsBytes(points)|
    decreases count
  {
    hide Lies, PointBytes, ReadPoint, PointEnd;
    if count == 0 {
      LiesNothing(b, at);
    } else {
      var p := ReadPoint(b, at).value;
      PointLies(b, at, p);
      LiesInside(b, at, PointBytes(p));
      PointsLie(b, PointEnd(b, at), count - 1, points[1..]);
      PointTakesRoom(b, at);
      LiesJoined(b, at, PointBytes(p), PointsBytes(points[1..]));
    }
  }

  lemma PointTakesRoom(b: seq<Byte>, at: nat)
    requires ReadPoint(b, at).Some?
    ensures at + 18 <= |b|
  {
  }

  lemma {:induction false} CornersLie(b: seq<Byte>, at: nat, count: nat, corners: seq<Coordinate>)
    requires at <= |b| && ReadCorners(b, at, count) == Some(corners)
    ensures |corners| == count && Lies(b, at, CornersBytes(corners))
    decreases count
  {
    hide Lies, CoordinateBytes, ReadCoordinate;
    if count == 0 {
      LiesNothing(b, at);
    } else {
      CoordinateLies(b, at);
      CornersLie(b, at + 8, count - 1, corners[1..]);
      LiesJoined(b, at, CoordinateBytes(corners[0]), CornersBytes(corners[1..]));
    }
  }

  lemma ShapeLies(kind: Kind, b: seq<Byte>, from: nat, behind: nat, shape: Shape)
    requires from + FixedSize(kind) <= behind <= |b| && ReadShape(kind, b, from, behind) == Some(shape)
    ensures KindOf(shape) == kind && Lies(b, from, FixedBytes(shape)) && Lies(b, behind, ListBytes(shape))
    ensures ShapeEnd(kind, b, behind) == behind + |ListBytes(shape)|
  {
    hide Lies, CoordinateBytes, ReadCoordinate, DWordAt, WordAt, Be32, Be16, CornersBytes, PointsBytes, ReadCorners,
         ReadPoints, PointsEnd;
    match kind
    case Circles =>
      CoordinateLies(b, from);
      DWordLies(b, from + 8);
      LiesJoined(b, from, CoordinateBytes(shape.center), Be32(shape.radius));
      LiesNothing(b, behind);
    case Rectangles =>
      CoordinateLies(b, from);
      CoordinateLies(b, from + 8);
      LiesJoined(b, from, CoordinateBytes(shape.upperLeft), CoordinateBytes(shape.bottomRight));
      LiesNothing(b, behind);
    case Polygons =>
      LiesNothing(b, from);
      WordLies(b, behind);
      CornersLie(b, behind + 2, WordAt(b, behind), shape.corners);
      LiesJoined(b, behind, Be16(|shape.corners|), CornersBytes(shape.corners));
    case Routes =>
      LiesNothing(b, from);
      WordLies(b, behind);
      PointsLie(b, behind + 2, WordAt(b, behind), shape.points);
      LiesJoined(b, behind, Be16(|shape.points|), PointsBytes(shape.points));
  }

  // ---- Areas ------------------------------------------------------------------------

  lemma AreaLies(kind: Kind, b: seq<Byte>, at: nat, a: Area)
    requires ReadArea(kind, b, at) == Some(a)
    ensures KindOf(a.shape) == kind && Lies(b, at, AreaBytes(a)) && AreaEnd(kind, b, at) == at + |AreaBytes(a)|
  {
    hide ShapeEnd, Lies, FixedBytes, ListBytes, PeriodBytes, SpeedBytes, Timed, HasSpeed, ReadShape, ReadPeriod,
         ReadSpeed, DWordAt, WordAt, FixedSize, Be32, Be16;
    var f, p, s, l := FixedBytes(a.shape), PeriodBytes(a.period), SpeedBytes(a.speed), ListBytes(a.shape);
    var period := at + 6 + FixedSize(kind);
    var speed := period + PeriodSize(Timed(a.attribute));
    ShapeLies(kind, b, at + 6, Behind(kind, b, at), a.shape);
    PeriodLies(b, period, Timed(a.attribute));
    SpeedLies(b, speed, HasSpeed(kind, a.attribute));
    DWordLies(b, at);
    WordLies(b, at + 4);
    LiesJoined(b, at, Be32(a.id), Be16(a.attribute));
    SpeedLength(b, speed, HasSpeed(kind, a.attribute));
    LiesJoined(b, speed, s, l);
    LiesJoined(b, period, p, s + l);
    LiesJoined(b, at + 6, f, p + (s + l));
    LiesJoined(b, at, AreaHead(a), f + (p + (s + l)));
  }

  lemma SpeedLength(b: seq<Byte>, at: nat, there: bool)
    requires at + SpeedSize(there) <= |b|
    ensures |SpeedBytes(ReadSpeed(b, at, there))| == SpeedSize(there)
  {
  }

  /** A list that was read lies where it was read, byte for byte as it would be sent. */
  lemma {:induction false} AreasLie(kind: Kind, b: seq<Byte>, at: nat, count: nat, areas: seq<Area>)
    requires at <= |b| && ReadAreas(kind, b, at, count) == Some(areas)
    ensures |areas| == count && Lies(b, at, AreasBytes(areas))
    decreases count
  {
    hide Lies, AreaBytes, ReadArea, AreaEnd;
    if count == 0 {
      LiesNothing(b, at);
    } else {
      var a := ReadArea(kind, b, at).value;
      AreaLies(kind, b, at, a);
      LiesInside(b, at, AreaBytes(a));
      AreasLie(kind, b, AreaEnd(kind, b, at), count - 1, areas[1..]);
      LiesJoined(b, at, AreaBytes(a), AreasBytes(areas[1..]));
    }
  }
}
