/** Reading areas and routes from a message, and that what was sent is read back. */
module AreaDecoder {
  import opened Areas
  import opened Bytes
  import opened Wrappers

  // ---- Reading ----------------------------------------------------------------------

  function ReadCoordinate(b: seq<Byte>, at: nat): Coordinate
    requires at + 8 <= |b|
  {
    Coordinate(DWordAt(b, at), DWordAt(b, at + 4))
  }

  function ReadPeriod(b: seq<Byte>, at: nat, there: bool): Option<Period>
    requires at + PeriodSize(there) <= |b|
  {
    if there then Some(Period(b[at..at + 6], b[at + 6..at + 12])) else None
  }

  function PeriodSize(there: bool): nat { if there then 12 else 0 }

  function ReadSpeed(b: seq<Byte>, at: nat, there: bool): Option<Speed>
    requires at + SpeedSize(there) <= |b|
  {
    if there then Some(Speed(WordAt(b, at), b[at + 2])) else None
  }

  function SpeedSize(there: bool): nat { if there then 3 else 0 }

  function ReadDriving(b: seq<Byte>, at: nat, there: bool): Option<Driving>
    requires at + DrivingSize(there) <= |b|
  {
    if there then Some(Driving(WordAt(b, at), WordAt(b, at + 2))) else None
  }

  function DrivingSize(there: bool): nat { if there then 4 else 0 }

  /** Where the optional fields of a point end. */
  function PointEnd(b: seq<Byte>, at: nat): nat
    requires at + 18 <= |b|
  {
    at + 18 + DrivingSize(Timed(b[at + 17])) + SpeedSize(Limited(b[at + 17]))
  }

  /** None when the point leaves the buffer. */
  function ReadPoint(b: seq<Byte>, at: nat): Option<Point> {
    if at + 18 > |b| || PointEnd(b, at) > |b| then None
    else
      var attribute: Byte := b[at + 17];
      Some(Point(DWordAt(b, at), DWordAt(b, at + 4), ReadCoordinate(b, at + 8), b[at + 16], attribute,
                 ReadDriving(b, at + 18, Timed(attribute)),
                 ReadSpeed(b, at + 18 + DrivingSize(Timed(attribute)), Limited(attribute))))
  }

  function ReadPoints(b: seq<Byte>, at: nat, count: nat): Option<seq<Point>>
    decreases count
  {
    if count == 0 then Some([])
    else if ReadPoint(b, at).None? then None
    else
      var rest := ReadPoints(b, PointEnd(b, at), count - 1);
      if rest.None? then None else Some([ReadPoint(b, at).value] + rest.value)
  }

  function ReadCorners(b: seq<Byte>, at: nat, count: nat): Option<seq<Coordinate>>
    decreases count
  {
    if count == 0 then Some([])
    else if at + 8 > |b| then None
    else
      var rest := ReadCorners(b, at + 8, count - 1);
      if rest.None? then None else Some([ReadCoordinate(b, at)] + rest.value)
  }

  /** The shape: its fixed part at from, its list behind the optional fields. */
  function ReadShape(kind: Kind, b: seq<Byte>, from: nat, behind: nat): Option<Shape>
    requires from + FixedSize(kind) <= behind <= |b|
  {
    match kind
    case Circles => Some(Circle(ReadCoordinate(b, from), DWordAt(b, from + 8)))
    case Rectangles => Some(Rectangle(ReadCoordinate(b, from), ReadCoordinate(b, from + 8)))
    case Polygons =>
      if behind + 2 > |b| then None
      else
        var corners := ReadCorners(b, behind + 2, WordAt(b, behind));
        if corners.None? then None else Some(Polygon(corners.value))
    case Routes =>
      if behind + 2 > |b| then None
      else
        var points := ReadPoints(b, behind + 2, WordAt(b, behind));
        if points.None? then None else Some(Route(points.value))
  }

  /** Where the optional fields of an area end. */
  function Behind(kind: Kind, b: seq<Byte>, at: nat): nat
    requires at + 6 + FixedSize(kind) <= |b|
  {
    var attribute := WordAt(b, at + 4);
    at + 6 + FixedSize(kind) + PeriodSize(Timed(attribute)) + SpeedSize(HasSpeed(kind, attribute))
  }

  /** One area or route; None when it leaves the buffer. */
  function ReadArea(kind: Kind, b: seq<Byte>, at: nat): Option<Area> {
    var period := at + 6 + FixedSize(kind);
    if period > |b| || Behind(kind, b, at) > |b| then None
    else
      var attribute := WordAt(b, at + 4);
      var speed := period + PeriodSize(Timed(attribute));
      var shape := ReadShape(kind, b, at + 6, Behind(kind, b, at));
      if shape.None? then None
      else Some(Area(DWordAt(b, at), attribute, shape.value, ReadPeriod(b, period, Timed(attribute)),
                     ReadSpeed(b, speed, HasSpeed(kind, attribute))))
  }

  function PointsEnd(b: seq<Byte>, at: nat, count: nat): nat
    decreases count
  {
    if count == 0 || at + 18 > |b| then at else PointsEnd(b, PointEnd(b, at), count - 1)
  }

  /** Where the list of the shape ends. */
  function ShapeEnd(kind: Kind, b: seq<Byte>, behind: nat): nat
    requires behind <= |b|
  {
    if kind.Circles? || kind.Rectangles? || behind + 2 > |b| then behind
    else if kind.Polygons? then behind + 2 + 8 * WordAt(b, behind)
    else PointsEnd(b, behind + 2, WordAt(b, behind))
  }

  /** Where an area ends. */
  function AreaEnd(kind: Kind, b: seq<Byte>, at: nat): nat
    requires ReadArea(kind, b, at).Some?
  {
    ShapeEnd(kind, b, Behind(kind, b, at))
  }

  /** A number of areas, one behind the other. */
  function ReadAreas(kind: Kind, b: seq<Byte>, at: nat, count: nat): Option<seq<Area>>
    decreases count
  {
    if count == 0 then Some([])
    else if ReadArea(kind, b, at).None? then None
    else
      var rest := ReadAreas(kind, b, AreaEnd(kind, b, at), count - 1);
      if rest.None? then None else Some([ReadArea(kind, b, at).value] + rest.value)
  }

  // ---- The decoders' loops ----------------------------------------------------------

  /** What has been read, followed by what is still to be read. */
  function Followed<T>(done: seq<T>, rest: Option<seq<T>>): (all: Option<seq<T>>)
    ensures done == [] ==> all == rest
  {
    if rest.None? then None
    else
      assert done == [] ==> done + rest.value == rest.value;
      Some(done + rest.value)
  }

  lemma OneMore<T>(done: seq<T>, next: T, rest: Option<seq<T>>)
    ensures Followed(done, if rest.None? then None else Some([next] + rest.value)) == Followed(done + [next], rest)
  {
    if rest.Some? {
      assert done + ([next] + rest.value) == done + [next] + rest.value;
    }
  }

  method DecodeCorners(b: seq<Byte>, data: nat, count: nat) returns (corners: Option<seq<Coordinate>>, next: nat)
    ensures corners == ReadCorners(b, data, count)
    ensures corners.Some? ==> next == data + 8 * count
  {
    hide ReadCoordinate;
    var list: seq<Coordinate> := [];
    next := data;
    for i := 0 to count
      invariant next == data + 8 * i
      invariant Followed(list, ReadCorners(b, next, count - i)) == ReadCorners(b, data, count)
    {
      if next + 8 > |b| {
        return None, next;
      }
      OneMore(list, ReadCoordinate(b, next), ReadCorners(b, next + 8, count - i - 1));
      list := list + [ReadCoordinate(b, next)];
      next := next + 8;
    }
    assert list + [] == list;
    corners := Some(list);
  }

  method DecodePoints(b: seq<Byte>, data: nat, count: nat) returns (points: Option<seq<Point>>, next: nat)
    ensures points == ReadPoints(b, data, count)
    ensures points.Some? ==> next == PointsEnd(b, data, count)
  {
    hide ReadCoordinate, PointEnd;
    var list: seq<Point> := [];
    next := data;
    for i := 0 to count
      invariant PointsEnd(b, next, count - i) == PointsEnd(b, data, count)
      invariant Followed(list, ReadPoints(b, next, count - i)) == ReadPoints(b, data, count)
    {
      var point, end := DecodePoint(b, next);
      if point.None? {
        return None, next;
      }
      OneMore(list, point.value, ReadPoints(b, end, count - i - 1));
      list := list + [point.value];
      next := end;
    }
    assert list + [] == list;
    points := Some(list);
  }

  method DecodePoint(b: seq<Byte>, data: nat) returns (point: Option<Point>, next: nat)
    ensures point == ReadPoint(b, data)
    ensures point.Some? ==> next == PointEnd(b, data) && data + 18 <= |b|
  {
    hide ReadCoordinate, DWordAt, WordAt;
    next := data;
    if next + 18 > |b| || PointEnd(b, next) > |b| {
      return None, next;
    }
    var id: DWord, section: DWord := DWordAt(b, next), DWordAt(b, next + 4);
    next := next + 8;
    var position := ReadCoordinate(b, next);
    next := next + 8;
    var wide: Byte, attribute: Byte := b[next], b[next + 1];
    next := next + 2;
    var driving: Option<Driving>, speed: Option<Speed> := None, None;
    if Timed(attribute) {
      driving := Some(Driving(WordAt(b, next), WordAt(b, next + 2)));
      next := next + 4;
    }
    if Limited(attribute) {
      speed := Some(Speed(WordAt(b, next), b[next + 2]));
      next := next + 3;
    }
    point := Some(Point(id, section, position, wide, attribute, driving, speed));
  }

  method DecodeShape(kind: Kind, b: seq<Byte>, from: nat, data: nat) returns (shape: Option<Shape>, next: nat)
    requires from + FixedSize(kind) <= data <= |b|
    ensures shape == ReadShape(kind, b, from, data)
    ensures shape.Some? ==> next == ShapeEnd(kind, b, data)
  {
    hide ReadCoordinate, DWordAt, WordAt, ReadCorners, ReadPoints, PointsEnd;
    next := data;
    match kind {
      case Circles =>
        shape := Some(Circle(ReadCoordinate(b, from), DWordAt(b, from + 8)));
      case Rectangles =>
        shape := Some(Rectangle(ReadCoordinate(b, from), ReadCoordinate(b, from + 8)));
      case Polygons =>
        if data + 2 > |b| {
          return None, data;
        }
        var corners;
        corners, next := DecodeCorners(b, data + 2, WordAt(b, data));
        shape := if corners.None? then None else Some(Polygon(corners.value));
      case Routes =>
        if data + 2 > |b| {
          return None, data;
        }
        var points;
        points, next := DecodePoints(b, data + 2, WordAt(b, data));
        shape := if points.None? then None else Some(Route(points.value));
    }
  }

  /** The body of the loop of a DealSet request, up to the store. */
  method DecodeArea(kind: Kind, b: seq<Byte>, data: nat) returns (area: Option<Area>, next: nat)
    ensures area == ReadArea(kind, b, data)
    ensures area.Some? ==> next == AreaEnd(kind, b, data)
  {
    hide DWordAt, WordAt, ReadShape, ShapeEnd, FixedSize, Timed, HasSpeed;
    next := data;
    if next + 6 + FixedSize(kind) > |b| || Behind(kind, b, next) > |b| {
      return None, next;
    }
    var id: DWord, attribute: Word := DWordAt(b, next), WordAt(b, next + 4);
    next := next + 6 + FixedSize(kind);
    var period: Option<Period>, speed: Option<Speed> := None, None;
    if Timed(attribute) {
      period := Some(Period(b[next..next + 6], b[next + 6..next + 12]));
      next := next + 12;
    }
    if HasSpeed(kind, attribute) {
      speed := Some(Speed(WordAt(b, next), b[next + 2]));
      next := next + 3;
    }
    var shape;
    shape, next := DecodeShape(kind, b, data + 6, next);
    if shape.None? {
      return None, next;
    }
    area := Some(Area(id, attribute, shape.value, period, speed));
  }

  // ---- Round trip -------------------------------------------------------------------

  lemma CoordinateReadBack(c: Coordinate, b: seq<Byte>, at: nat)
    requires Lies(b, at, CoordinateBytes(c))
    ensures ReadCoordinate(b, at) == c
  {
  }

  lemma PeriodReadBack(period: Option<Period>, b: seq<Byte>, at: nat)
    requires Lies(b, at, PeriodBytes(period))
    requires period.Some? ==> |period.value.start| == 6 == |period.value.end|
    ensures |PeriodBytes(period)| == PeriodSize(period.Some?) && ReadPeriod(b, at, period.Some?) == period
  {
    if period.Some? {
      LiesApart(b, at, period.value.start, period.value.end);
    }
  }

  lemma SpeedReadBack(speed: Option<Speed>, b: seq<Byte>, at: nat)
    requires Lies(b, at, SpeedBytes(speed))
    ensures at + SpeedSize(speed.Some?) <= |b| && ReadSpeed(b, at, speed.Some?) == speed
  {
  }

  lemma DrivingReadBack(driving: Option<Driving>, b: seq<Byte>, at: nat)
    requires Lies(b, at, DrivingBytes(driving))
    ensures at + DrivingSize(driving.Some?) <= |b| && ReadDriving(b, at, driving.Some?) == driving
  {
  }

  lemma PointHeadReadBack(p: Point, b: seq<Byte>, at: nat)
    requires Lies(b, at, PointHead(p))
    ensures at + 18 <= |b| && DWordAt(b, at) == p.id && DWordAt(b, at + 4) == p.section
    ensures ReadCoordinate(b, at + 8) == p.position && b[at + 16] == p.wide && b[at + 17] == p.attribute
  {
    hide Be32, DWordAt, Lies, CoordinateBytes, ReadCoordinate;
    var i, s, c, t := Be32(p.id), Be32(p.section), CoordinateBytes(p.position), [p.wide, p.attribute];
    LiesApart(b, at, i + s + c, t);
    LiesApart(b, at, i + s, c);
    LiesApart(b, at, i, s);
    LiesDWord(b, at, p.id);
    LiesDWord(b, at + 4, p.section);
    CoordinateReadBack(p.position, b, at + 8);
    assert t == [p.wide] + [p.attribute];
    LiesApart(b, at + 16, [p.wide], [p.attribute]);
    LiesByte(b, at + 16, p.wide);
    LiesByte(b, at + 17, p.attribute);
    LiesInside(b, at, PointHead(p));
  }

  lemma LiesInside(b: seq<Byte>, at: nat, s: seq<Byte>)
    requires Lies(b, at, s)
    ensures at + |s| <= |b|
  {
  }

  lemma PointReadBack(p: Point, b: seq<Byte>, at: nat)
    requires ProperPoint(p) && Lies(b, at, PointBytes(p))
    ensures ReadPoint(b, at) == Some(p) && PointEnd(b, at) == at + |PointBytes(p)|
  {
    hide Be32, DWordAt, Lies, PointHead, DrivingBytes, SpeedBytes, ReadCoordinate, ReadDriving, ReadSpeed, Timed, Limited;
    LiesInside(b, at, PointBytes(p));
    LiesApart(b, at, PointHead(p) + DrivingBytes(p.driving), SpeedBytes(p.speed));
    LiesApart(b, at, PointHead(p), DrivingBytes(p.driving));
    PointHeadReadBack(p, b, at);
    DrivingReadBack(p.driving, b, at + 18);
    SpeedReadBack(p.speed, b, at + 18 + DrivingSize(p.driving.Some?));
  }

  lemma {:induction false} PointsReadBack(points: seq<Point>, b: seq<Byte>, at: nat)
    requires forall i :: 0 <= i < |points| ==> ProperPoint(points[i])
    requires Lies(b, at, PointsBytes(points))
    ensures ReadPoints(b, at, |points|) == Some(points)
    ensures PointsEnd(b, at, |points|) == at + |PointsBytes(points)|
    decreases |points|
  {
    hide Lies, PointBytes, ReadPoint, PointEnd, ProperPoint;
    if points != [] {
      LiesInside(b, at, PointsBytes(points));
      LiesApart(b, at, PointBytes(points[0]), PointsBytes(points[1..]));
      PointReadBack(points[0], b, at);
      PointsReadBack(points[1..], b, at + |PointBytes(points[0])|);
      assert points == [points[0]] + points[1..];
    }
  }

  lemma {:induction false} CornersReadBack(corners: seq<Coordinate>, b: seq<Byte>, at: nat)
    requires Lies(b, at, CornersBytes(corners))
    ensures ReadCorners(b, at, |corners|) == Some(corners)
    decreases |corners|
  {
    hide Lies, CoordinateBytes, ReadCoordinate;
    if corners != [] {
      LiesInside(b, at, CornersBytes(corners));
      LiesApart(b, at, CoordinateBytes(corners[0]), CornersBytes(corners[1..]));
      CoordinateReadBack(corners[0], b, at);
      CornersReadBack(corners[1..], b, at + 8);
      assert corners == [corners[0]] + corners[1..];
    }
  }

  lemma ShapeReadBack(shape: Shape, b: seq<Byte>, from: nat, behind: nat)
    requires ProperShape(shape) && from + FixedSize(KindOf(shape)) <= behind
    requires Lies(b, from, FixedBytes(shape)) && Lies(b, behind, ListBytes(shape))
    ensures behind <= |b| && ReadShape(KindOf(shape), b, from, behind) == Some(shape)
    ensures ShapeEnd(KindOf(shape), b, behind) == behind + |ListBytes(shape)|
  {
    hide Lies, CoordinateBytes, ReadCoordinate, DWordAt, WordAt, Be32, Be16, CornersBytes, PointsBytes, ReadCorners,
         ReadPoints, ProperPoint, PointsEnd;
    LiesInside(b, behind, ListBytes(shape));
    match shape
    case Circle(center, radius) =>
      LiesApart(b, from, CoordinateBytes(center), Be32(radius));
      CoordinateReadBack(center, b, from);
      LiesDWord(b, from + 8, radius);
    case Rectangle(upperLeft, bottomRight) =>
      LiesApart(b, from, CoordinateBytes(upperLeft), CoordinateBytes(bottomRight));
      CoordinateReadBack(upperLeft, b, from);
      CoordinateReadBack(bottomRight, b, from + 8);
    case Polygon(corners) =>
      LiesApart(b, behind, Be16(|corners|), CornersBytes(corners));
      LiesWord(b, behind, |corners|);
      CornersReadBack(corners, b, behind + 2);
    case Route(points) =>
      LiesApart(b, behind, Be16(|points|), PointsBytes(points));
      LiesWord(b, behind, |points|);
      PointsReadBack(points, b, behind + 2);
  }

  /** An area is read back from the bytes it is sent as, every optional field and every
      element of its list included. */
  lemma AreaReadBack(a: Area, b: seq<Byte>, at: nat)
    requires ProperArea(a) && Lies(b, at, AreaBytes(a))
    ensures ReadArea(KindOf(a.shape), b, at) == Some(a)
    ensures AreaEnd(KindOf(a.shape), b, at) == at + |AreaBytes(a)|
  {
    hide ShapeEnd, Lies, ProperShape, KindOf, FixedBytes, ListBytes, PeriodBytes, SpeedBytes, Timed, ReadShape,
         ReadPeriod, ReadSpeed, DWordAt, WordAt, HasSpeed, FixedSize, Be32, Be16;
    var f, p, s, l := FixedBytes(a.shape), PeriodBytes(a.period), SpeedBytes(a.speed), ListBytes(a.shape);
    LiesInside(b, at, AreaBytes(a));
    LiesApart(b, at, AreaHead(a), f + (p + (s + l)));
    AreaHeadReadBack(a, b, at);
    LiesApart(b, at + 6, f, p + (s + l));
    LiesApart(b, at + 6 + |f|, p, s + l);
    PeriodReadBack(a.period, b, at + 6 + |f|);
    LiesApart(b, at + 6 + |f| + |p|, s, l);
    SpeedReadBack(a.speed, b, at + 6 + |f| + |p|);
    ShapeReadBack(a.shape, b, at + 6, at + 6 + |f| + |p| + |s|);
  }

  lemma AreaHeadReadBack(a: Area, b: seq<Byte>, at: nat)
    requires Lies(b, at, AreaHead(a))
    ensures at + 6 <= |b| && DWordAt(b, at) == a.id && WordAt(b, at + 4) == a.attribute
  {
  }

  predicate AllProper(kind: Kind, areas: seq<Area>) {
    forall i :: 0 <= i < |areas| ==> ProperArea(areas[i]) && KindOf(areas[i].shape) == kind
  }

  /** A list of areas is read back in order, and the reading ends where the bytes end. */
  lemma {:induction false} AreasReadBack(kind: Kind, areas: seq<Area>, b: seq<Byte>, at: nat)
    requires AllProper(kind, areas) && Lies(b, at, AreasBytes(areas))
    ensures ReadAreas(kind, b, at, |areas|) == Some(areas)
    decreases |areas|
  {
    hide Lies, AreaBytes, ReadArea, AreaEnd, ProperArea, KindOf;
    if areas != [] {
      LiesApart(b, at, AreaBytes(areas[0]), AreasBytes(areas[1..]));
      AreaReadBack(areas[0], b, at);
      AreasReadBack(kind, areas[1..], b, at + |AreaBytes(areas[0])|);
      assert areas == [areas[0]] + areas[1..];
    }
  }
}
