/** The file of areas and routes: one line for each, fields ended by semicolons. */
module AreaFile {
  import opened Areas
  import opened Bcd
  import opened Bytes
  import opened Text
  import opened Wrappers

  type Token = seq<Byte>

  // ---- Printing ---------------------------------------------------------------------

  function KindNumber(kind: Kind): nat {
    match kind
    case Circles => 1
    case Rectangles => 2
    case Polygons => 3
    case Routes => 4
  }

  function CoordinateTokens(c: Coordinate): (t: seq<Token>)
    ensures |t| == 2
  {
    [Dec(c.latitude), Dec(c.longitude)]
  }

  /** Period and speed of an area; times are digits, two for each byte. */
  function PeriodTokens(period: Option<Period>): seq<Token> {
    if period.Some? then [Filled(period.value.start), Filled(period.value.end)] else []
  }

  function SpeedTokens(speed: Option<Speed>): seq<Token> {
    if speed.Some? then [Dec(speed.value.max), Dec(speed.value.duration)] else []
  }

  function DrivingTokens(driving: Option<Driving>): seq<Token> {
    if driving.Some? then [Dec(driving.value.max), Dec(driving.value.min)] else []
  }

  function PointHeadTokens(p: Point): (t: seq<Token>)
    ensures |t| == 6
  {
    [Hex(p.id), Hex(p.section), Dec(p.position.latitude), Dec(p.position.longitude), Dec(p.wide), Hex(p.attribute)]
  }

  function PointTokens(p: Point): seq<Token> {
    PointHeadTokens(p) + (DrivingTokens(p.driving) + SpeedTokens(p.speed))
  }

  function CornersTokens(corners: seq<Coordinate>): seq<Token> {
    if corners == [] then [] else CoordinateTokens(corners[0]) + CornersTokens(corners[1..])
  }

  function PointsTokens(points: seq<Point>): seq<Token> {
    if points == [] then [] else PointTokens(points[0]) + PointsTokens(points[1..])
  }

  function FixedTokens(shape: Shape): (t: seq<Token>)
    ensures |t| == FixedCount(KindOf(shape))
  {
    match shape
    case Circle(center, radius) => CoordinateTokens(center) + [Dec(radius)]
    case Rectangle(upperLeft, bottomRight) => CoordinateTokens(upperLeft) + CoordinateTokens(bottomRight)
    case Polygon(_) => []
    case Route(_) => []
  }

  function FixedCount(kind: Kind): nat {
    match kind
    case Circles => 3
    case Rectangles => 4
    case Polygons => 0
    case Routes => 0
  }

  function ListTokens(shape: Shape): seq<Token> {
    match shape
    case Circle(_, _) => []
    case Rectangle(_, _) => []
    case Polygon(corners) => [Dec(|corners|)] + CornersTokens(corners)
    case Route(points) => [Dec(|points|)] + PointsTokens(points)
  }

  /** All fields of a line but the first. */
  function AreaTokens(a: Area): seq<Token> {
    [Hex(a.id), Hex(a.attribute)]
    + (FixedTokens(a.shape) + (PeriodTokens(a.period) + (SpeedTokens(a.speed) + ListTokens(a.shape))))
  }

  /** Every field is ended by a semicolon. */
  function Ended(tokens: seq<Token>): seq<Byte> {
    if tokens == [] then [] else tokens[0] + [SEMICOLON] + Ended(tokens[1..])
  }

  function LineTokens(a: Area): seq<Token> {
    [Dec(KindNumber(KindOf(a.shape)))] + AreaTokens(a)
  }

  function Line(a: Area): seq<Byte> {
    Ended(LineTokens(a)) + [NEWLINE]
  }

  // ---- The lines, field by field ----------------------------------------------------

  /** A circle with times and speed: number 1 and nine more fields. */
  lemma CircleLine(a: Area, c: Coordinate, time: Period, v: Speed)
    requires a.shape.Circle? && a.shape.center == c && a.period == Some(time) && a.speed == Some(v)
    ensures Line(a) == Ended([[0x31], Hex(a.id), Hex(a.attribute), Dec(c.latitude), Dec(c.longitude), Dec(a.shape.radius),
                              Filled(time.start), Filled(time.end), Dec(v.max), Dec(v.duration)]) + [0x0A]
  {
    hide Dec, Hex, Filled;
    KindDigits();
    LineParts(a);
    assert LineTokens(a)
        == [[0x31], Hex(a.id), Hex(a.attribute), Dec(c.latitude), Dec(c.longitude), Dec(a.shape.radius),
            Filled(time.start), Filled(time.end), Dec(v.max), Dec(v.duration)];
  }

  /** A rectangle without either: number 2 and six more. */
  lemma RectangleLine(a: Area, c: Coordinate, d: Coordinate)
    requires a.shape.Rectangle? && a.shape.upperLeft == c && a.shape.bottomRight == d
    requires a.period.None? && a.speed.None?
    ensures Line(a) == Ended([[0x32], Hex(a.id), Hex(a.attribute), Dec(c.latitude), Dec(c.longitude),
                              Dec(d.latitude), Dec(d.longitude)]) + [0x0A]
  {
    hide Dec, Hex, Filled;
    KindDigits();
    LineParts(a);
    assert LineTokens(a) == [[0x32], Hex(a.id), Hex(a.attribute), Dec(c.latitude), Dec(c.longitude),
                             Dec(d.latitude), Dec(d.longitude)];
  }

  /** A polygon with a speed: number 3, and its corners counted in front of them. */
  lemma PolygonLine(a: Area, v: Speed)
    requires a.shape.Polygon? && a.period.None? && a.speed == Some(v)
    ensures Line(a) == Ended([[0x33], Hex(a.id), Hex(a.attribute), Dec(v.max), Dec(v.duration), Dec(|a.shape.corners|)]
                             + CornersTokens(a.shape.corners)) + [0x0A]
  {
    hide Dec, Hex, Filled, CornersTokens;
    KindDigits();
    LineParts(a);
    assert LineTokens(a)
        == [[0x33], Hex(a.id), Hex(a.attribute), Dec(v.max), Dec(v.duration), Dec(|a.shape.corners|)]
           + CornersTokens(a.shape.corners);
  }

  lemma CornerFields(c: Coordinate, corners: seq<Coordinate>)
    ensures CornersTokens([c] + corners) == [Dec(c.latitude), Dec(c.longitude)] + CornersTokens(corners)
  {
    hide Dec;
    assert ([c] + corners)[1..] == corners;
  }

  /** A route with times: number 4, and its sections counted in front of them. */
  lemma RouteLine(a: Area, time: Period)
    requires a.shape.Route? && a.period == Some(time) && a.speed.None?
    ensures Line(a) == Ended([[0x34], Hex(a.id), Hex(a.attribute), Filled(time.start), Filled(time.end),
                              Dec(|a.shape.points|)] + PointsTokens(a.shape.points)) + [0x0A]
  {
    hide Dec, Hex, Filled, PointsTokens;
    KindDigits();
    LineParts(a);
    assert LineTokens(a)
        == [[0x34], Hex(a.id), Hex(a.attribute), Filled(time.start), Filled(time.end), Dec(|a.shape.points|)]
           + PointsTokens(a.shape.points);
  }

  /** A section: six fields, and two more each for the driving times and the speed. */
  lemma PointFields(p: Point, points: seq<Point>)
    ensures PointsTokens([p] + points)
         == [Hex(p.id), Hex(p.section), Dec(p.position.latitude), Dec(p.position.longitude), Dec(p.wide),
             Hex(p.attribute)]
            + (if p.driving.Some? then [Dec(p.driving.value.max), Dec(p.driving.value.min)] else [])
            + (if p.speed.Some? then [Dec(p.speed.value.max), Dec(p.speed.value.duration)] else [])
            + PointsTokens(points)
  {
    hide Dec, Hex;
    assert ([p] + points)[1..] == points;
  }

  lemma KindDigits()
    ensures Dec(1) == [0x31] && Dec(2) == [0x32] && Dec(3) == [0x33] && Dec(4) == [0x34]
  {
  }

  // ---- The printers' loops ----------------------------------------------------------

  lemma {:induction false} EndedConcat(a: seq<Token>, b: seq<Token>)
    ensures Ended(a + b) == Ended(a) + Ended(b)
  {
    if a == [] {
      assert a + b == b;
    } else {
      assert (a + b)[0] == a[0] && (a + b)[1..] == a[1..] + b;
      EndedConcat(a[1..], b);
    }
  }

  lemma EndedOne(t: Token)
    ensures Ended([t]) == t + [SEMICOLON]
  {
  }

  /** The buffer with more fields appended, each with its semicolon. */
  method Append(buffer: seq<Byte>, tokens: seq<Token>) returns (longer: seq<Byte>)
    ensures longer == buffer + Ended(tokens)
  {
    longer := buffer;
    assert tokens[0..] == tokens;
    for i := 0 to |tokens|
      invariant longer + Ended(tokens[i..]) == buffer + Ended(tokens)
    {
      EndedNext(tokens, i, longer);
      longer := longer + tokens[i] + [SEMICOLON];
    }
    assert tokens[|tokens|..] == [];
    assert longer + [] == longer;
  }

  lemma EndedNext(tokens: seq<Token>, i: nat, buffer: seq<Byte>)
    requires i < |tokens|
    ensures buffer + Ended(tokens[i..]) == buffer + tokens[i] + [SEMICOLON] + Ended(tokens[i + 1..])
  {
  }

  lemma Appended(buffer: seq<Byte>, a: seq<Token>, b: seq<Token>)
    ensures buffer + Ended(a) + Ended(b) == buffer + Ended(a + b)
  {
    EndedConcat(a, b);
    assert buffer + Ended(a) + Ended(b) == buffer + (Ended(a) + Ended(b));
  }

  method AppendPeriod(buffer: seq<Byte>, period: Option<Period>) returns (longer: seq<Byte>)
    ensures longer == buffer + Ended(PeriodTokens(period))
  {
    hide Filled;
    longer := buffer;
    if period.Some? {
      var start := StringFromBcdCompressFillingZero(period.value.start);
      longer := longer + start + [SEMICOLON];
      var end := StringFromBcdCompressFillingZero(period.value.end);
      longer := longer + end + [SEMICOLON];
      EndedOne(start);
      EndedOne(end);
      Appended(buffer, [start], [end]);
      assert buffer + start + [SEMICOLON] == buffer + Ended([start]);
      assert buffer + Ended([start]) + end + [SEMICOLON] == buffer + Ended([start]) + Ended([end]);
      assert [start] + [end] == [start, end];
    } else {
      assert buffer + [] == buffer;
    }
  }

  method AppendCorners(buffer: seq<Byte>, corners: seq<Coordinate>) returns (longer: seq<Byte>)
    ensures longer == buffer + Ended(CornersTokens(corners))
  {
    hide Ended, CoordinateTokens;
    longer := buffer;
    assert corners[0..] == corners;
    for i := 0 to |corners|
      invariant longer + Ended(CornersTokens(corners[i..])) == buffer + Ended(CornersTokens(corners))
    {
      assert corners[i..][1..] == corners[i + 1..];
      Appended(longer, CoordinateTokens(corners[i]), CornersTokens(corners[i + 1..]));
      longer := Append(longer, CoordinateTokens(corners[i]));
    }
    NothingEnded(longer);
  }

  lemma NothingEnded(buffer: seq<Byte>)
    ensures buffer + Ended([]) == buffer
  {
  }

  method AppendPoint(buffer: seq<Byte>, p: Point) returns (longer: seq<Byte>)
    ensures longer == buffer + Ended(PointTokens(p))
  {
    hide Ended, PointHeadTokens;
    longer := Append(buffer, PointHeadTokens(p));
    Appended(buffer, PointHeadTokens(p), DrivingTokens(p.driving) + SpeedTokens(p.speed));
    Appended(longer, DrivingTokens(p.driving), SpeedTokens(p.speed));
    NothingEnded(longer);
    if p.driving.Some? {
      longer := Append(longer, [Dec(p.driving.value.max), Dec(p.driving.value.min)]);
    }
    NothingEnded(longer);
    if p.speed.Some? {
      longer := Append(longer, [Dec(p.speed.value.max), Dec(p.speed.value.duration)]);
    }
  }

  method AppendPoints(buffer: seq<Byte>, points: seq<Point>) returns (longer: seq<Byte>)
    ensures longer == buffer + Ended(PointsTokens(points))
  {
    hide Ended, PointTokens;
    longer := buffer;
    assert points[0..] == points;
    for i := 0 to |points|
      invariant longer + Ended(PointsTokens(points[i..])) == buffer + Ended(PointsTokens(points))
    {
      assert points[i..][1..] == points[i + 1..];
      Appended(longer, PointTokens(points[i]), PointsTokens(points[i + 1..]));
      longer := AppendPoint(longer, points[i]);
    }
    NothingEnded(longer);
  }

  method AppendList(buffer: seq<Byte>, shape: Shape) returns (longer: seq<Byte>)
    ensures longer == buffer + Ended(ListTokens(shape))
  {
    hide Ended, CornersTokens, PointsTokens, Dec;
    longer := buffer;
    match shape {
      case Polygon(corners) =>
        longer := Append(longer, [Dec(|corners|)]);
        Appended(buffer, [Dec(|corners|)], CornersTokens(corners));
        longer := AppendCorners(longer, corners);
      case Route(points) =>
        longer := Append(longer, [Dec(|points|)]);
        Appended(buffer, [Dec(|points|)], PointsTokens(points));
        longer := AppendPoints(longer, points);
      case Circle(_, _) =>
        NothingEnded(buffer);
      case Rectangle(_, _) =>
        NothingEnded(buffer);
    }
  }

  /** The GenerateBufferLine functions. */
  method GenerateLine(a: Area) returns (buffer: seq<Byte>)
    ensures buffer == Line(a)
  {
    hide Ended, PeriodTokens, ListTokens, FixedTokens, Dec, Hex;
    ghost var head := [Dec(KindNumber(KindOf(a.shape))), Hex(a.id), Hex(a.attribute)] + FixedTokens(a.shape);
    buffer := Append([], [Dec(KindNumber(KindOf(a.shape))), Hex(a.id), Hex(a.attribute)] + FixedTokens(a.shape));
    buffer := AppendPeriod(buffer, a.period);
    Appended([], head, PeriodTokens(a.period));
    ghost var front := head + PeriodTokens(a.period);
    NothingEnded(buffer);
    if a.speed.Some? {
      buffer := Append(buffer, [Dec(a.speed.value.max), Dec(a.speed.value.duration)]);
    }
    Appended([], front, SpeedTokens(a.speed));
    buffer := AppendList(buffer, a.shape);
    Appended([], front + SpeedTokens(a.speed), ListTokens(a.shape));
    LineParts(a);
    assert [] + Ended(LineTokens(a)) == Ended(LineTokens(a));
    buffer := buffer + [NEWLINE];
  }

  lemma LineParts(a: Area)
    ensures [Dec(KindNumber(KindOf(a.shape))), Hex(a.id), Hex(a.attribute)] + FixedTokens(a.shape)
            + PeriodTokens(a.period) + SpeedTokens(a.speed) + ListTokens(a.shape)
         == LineTokens(a)
  {
    hide PeriodTokens, ListTokens, FixedTokens, SpeedTokens, Dec, Hex;
  }
}
