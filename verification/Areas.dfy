/** Areas and routes, and the bytes they are sent as. */
module Areas {
  import opened Bytes
  import opened Wrappers

  /** AreaRouteType, which is also the number a line of the file starts with. */
  datatype Kind = Circles | Rectangles | Polygons | Routes

  datatype Coordinate = Coordinate(latitude: DWord, longitude: DWord)

  datatype Period = Period(start: seq<Byte>, end: seq<Byte>)

  datatype Speed = Speed(max: Word, duration: Byte)

  datatype Driving = Driving(max: Word, min: Word)

  /** A field the attribute's bit announces is there, any other is not. */
  datatype Point = Point(id: DWord, section: DWord, position: Coordinate, wide: Byte, attribute: Byte,
                         driving: Option<Driving>, speed: Option<Speed>)

  datatype Shape =
    | Circle(center: Coordinate, radius: DWord)
    | Rectangle(upperLeft: Coordinate, bottomRight: Coordinate)
    | Polygon(corners: seq<Coordinate>)
    | Route(points: seq<Point>)

  datatype Area = Area(id: DWord, attribute: Word, shape: Shape, period: Option<Period>, speed: Option<Speed>)

  function KindOf(shape: Shape): Kind {
    match shape
    case Circle(_, _) => Circles
    case Rectangle(_, _) => Rectangles
    case Polygon(_) => Polygons
    case Route(_) => Routes
  }

  /** Bit 0: bytime for areas and routes, traveltime for a section of road. */
  predicate Timed(attribute: Word) { attribute % 2 == 1 }

  /** Bit 1: speedlimit; a route's attribute has no such bit. */
  predicate Limited(attribute: Word) { attribute / 2 % 2 == 1 }

  predicate HasSpeed(kind: Kind, attribute: Word) { kind != Routes && Limited(attribute) }

  predicate ProperPoint(p: Point) {
    (p.driving.Some? <==> Timed(p.attribute)) && (p.speed.Some? <==> Limited(p.attribute))
  }

  predicate ProperShape(shape: Shape) {
    match shape
    case Polygon(corners) => |corners| < 0x1_0000
    case Route(points) => |points| < 0x1_0000 && forall i :: 0 <= i < |points| ==> ProperPoint(points[i])
    case _ => true
  }

  predicate ProperArea(a: Area) {
    && (a.period.Some? <==> Timed(a.attribute))
    && (a.speed.Some? <==> HasSpeed(KindOf(a.shape), a.attribute))
    && (a.period.Some? ==> |a.period.value.start| == 6 == |a.period.value.end|)
    && ProperShape(a.shape)
  }

  // ---- Bytes ------------------------------------------------------------------------

  function CoordinateBytes(c: Coordinate): (s: seq<Byte>)
    ensures |s| == 8
  {
    Be32(c.latitude) + Be32(c.longitude)
  }

  function PeriodBytes(period: Option<Period>): seq<Byte> {
    if period.Some? then period.value.start + period.value.end else []
  }

  function SpeedBytes(speed: Option<Speed>): (s: seq<Byte>)
    ensures |s| == if speed.Some? then 3 else 0
  {
    if speed.Some? then Be16(speed.value.max) + [speed.value.duration] else []
  }

  function DrivingBytes(driving: Option<Driving>): (s: seq<Byte>)
    ensures |s| == if driving.Some? then 4 else 0
  {
    if driving.Some? then Be16(driving.value.max) + Be16(driving.value.min) else []
  }

  function PointHead(p: Point): (s: seq<Byte>)
    ensures |s| == 18
  {
    Be32(p.id) + Be32(p.section) + CoordinateBytes(p.position) + [p.wide, p.attribute]
  }

  function PointBytes(p: Point): (s: seq<Byte>)
    ensures |s| >= 18
  {
    PointHead(p) + DrivingBytes(p.driving) + SpeedBytes(p.speed)
  }

  function CornersBytes(corners: seq<Coordinate>): (s: seq<Byte>)
    ensures |s| == 8 * |corners|
  {
    if corners == [] then [] else CoordinateBytes(corners[0]) + CornersBytes(corners[1..])
  }

  function PointsBytes(points: seq<Point>): seq<Byte> {
    if points == [] then [] else PointBytes(points[0]) + PointsBytes(points[1..])
  }

  /** The part of the shape that comes before the optional fields. */
  function FixedBytes(shape: Shape): (s: seq<Byte>)
    ensures |s| == FixedSize(KindOf(shape))
  {
    match shape
    case Circle(center, radius) => CoordinateBytes(center) + Be32(radius)
    case Rectangle(upperLeft, bottomRight) => CoordinateBytes(upperLeft) + CoordinateBytes(bottomRight)
    case Polygon(_) => []
    case Route(_) => []
  }

  function FixedSize(kind: Kind): nat {
    match kind
    case Circles => 12
    case Rectangles => 16
    case Polygons => 0
    case Routes => 0
  }

  /** The part that comes behind them. */
  function ListBytes(shape: Shape): seq<Byte> {
    match shape
    case Circle(_, _) => []
    case Rectangle(_, _) => []
    case Polygon(corners) => Be16(|corners| % 0x1_0000) + CornersBytes(corners)
    case Route(points) => Be16(|points| % 0x1_0000) + PointsBytes(points)
  }

  function AreaHead(a: Area): (s: seq<Byte>)
    ensures |s| == 6
  {
    Be32(a.id) + Be16(a.attribute)
  }

  function AreaBytes(a: Area): (s: seq<Byte>)
    ensures |s| >= 6
  {
    AreaHead(a) + (FixedBytes(a.shape) + (PeriodBytes(a.period) + (SpeedBytes(a.speed) + ListBytes(a.shape))))
  }

  function AreasBytes(areas: seq<Area>): seq<Byte> {
    if areas == [] then [] else AreaBytes(areas[0]) + AreasBytes(areas[1..])
  }

  function Headed(operation: Byte, count: Byte, rest: seq<Byte>): seq<Byte> {
    [operation] + ([count] + rest)
  }

  function SetBody(operation: Byte, areas: seq<Area>): seq<Byte> {
    Headed(operation, |areas| % 0x100, AreasBytes(areas))
  }

  // ---- Bytes inside a buffer --------------------------------------------------------

  /** s lies in b from at on. */
  predicate Lies(b: seq<Byte>, at: nat, s: seq<Byte>) {
    at + |s| <= |b| && b[at..at + |s|] == s
  }

  lemma LiesApart(b: seq<Byte>, at: nat, s: seq<Byte>, t: seq<Byte>)
    requires Lies(b, at, s + t)
    ensures Lies(b, at, s) && Lies(b, at + |s|, t)
  {
    var all := b[at..at + |s + t|];
    assert b[at..at + |s|] == all[..|s|] && b[at + |s|..at + |s| + |t|] == all[|s|..];
  }

  lemma LiesByte(b: seq<Byte>, at: nat, c: Byte)
    requires Lies(b, at, [c])
    ensures b[at] == c
  {
  }

  lemma LiesWord(b: seq<Byte>, at: nat, v: Word)
    requires Lies(b, at, Be16(v))
    ensures WordAt(b, at) == v
  {
  }

  lemma LiesDWord(b: seq<Byte>, at: nat, v: DWord)
    requires Lies(b, at, Be32(v))
    ensures DWordAt(b, at) == v
  {
  }
}
