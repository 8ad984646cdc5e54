/** Writing the areas and routes to the file and reading them back. */
module AreaFileLaws {
  import opened AreaFile
  import opened AreaParser
  import opened Areas
  import opened Bcd
  import opened Bytes
  import opened Text
  import opened Wrappers

  /** Times in packed decimals. */
  predicate ValidPeriod(period: Option<Period>) {
    period.Some? ==>
      && |period.value.start| == 6 == |period.value.end|
      && ValidBcd(period.value.start) && ValidBcd(period.value.end)
  }

  // ---- Numbers ----------------------------------------------------------------------

  lemma DecNumber(v: nat, last: DWord)
    requires v < 0x1_0000_0000
    ensures Numeric(Dec(v), 10) && Number(Dec(v), 10, last) == v
  {
    hide Dec, Scan;
    DecReadsBack(v);
    DecIsNumeric(v);
  }

  lemma DecIsNumeric(v: nat)
    ensures Numeric(Dec(v), 10) && Numeric(Dec(v), 16)
  {
    hide Print;
    PrintedDigits(v, 10, false);
  }

  lemma HexNumber(v: nat, last: DWord)
    requires v < 0x1_0000_0000
    ensures Numeric(Hex(v), 16) && Number(Hex(v), 16, last) == v
  {
    hide Print, Scan;
    HexReadsBack(v);
    PrintedDigits(v, 16, false);
  }

  /** A decimal number read as hexadecimal into a byte or a word is right below ten only. */
  lemma MisreadNumber(n: nat, last: DWord)
    ensures n < 0x100 ==> (Number(Dec(n), 16, last) % 0x100 == n <==> n < 10)
    ensures n < 0x1_0000 ==> (Number(Dec(n), 16, last) % 0x1_0000 == n <==> n < 10)
  {
    hide Dec, Scan, DecAsHex;
    DecIsNumeric(n);
    DecReadAsHex(n);
    LowerPart(DecAsHex(n));
    if n < 0x100 {
      MisreadByte(n);
    }
    if n < 0x1_0000 {
      MisreadWord(n);
    }
  }

  lemma LowerPart(x: nat)
    ensures x % 0x1_0000_0000 % 0x100 == x % 0x100 && x % 0x1_0000_0000 % 0x1_0000 == x % 0x1_0000
  {
    var q, r := x / 0x1_0000_0000, x % 0x1_0000_0000;
    SameRest(0x100_0000 * q, r, 0x100);
    SameRest(0x1_0000 * q, r, 0x1_0000);
  }

  lemma SameRest(q: nat, r: nat, m: nat)
    requires m == 0x100 || m == 0x1_0000
    ensures (m * q + r) % m == r % m
  {
  }

  // ---- Points -----------------------------------------------------------------------

  /** A point the route parser reads back as it was written. */
  predicate Readable(format: Format, p: Point) {
    format == AsMeant ||
    (p.wide < 10 && (Timed(p.attribute) <==> Limited(p.attribute))
     && (p.driving.Some? ==> p.driving.value.max < 10 && p.driving.value.min < 10))
  }

  lemma CoordinateParses(c: Coordinate, t: seq<Token>, i: nat, last: DWord)
    requires i + 2 <= |t| && t[i..i + 2] == CoordinateTokens(c)
    ensures CoordinateAt(t, i, last) == c
  {
    hide Dec, Number;
    assert t[i] == t[i..i + 2][0] && t[i + 1] == t[i..i + 2][1];
    DecNumber(c.latitude, last);
    DecNumber(c.longitude, c.latitude);
  }

  lemma SpeedParses(speed: Option<Speed>, t: seq<Token>, i: nat, last: DWord)
    requires i + |SpeedTokens(speed)| <= |t| && t[i..i + |SpeedTokens(speed)|] == SpeedTokens(speed)
    ensures |SpeedTokens(speed)| == TwoIf(speed.Some?) && SpeedAt(t, i, speed.Some?, last) == speed
  {
    hide Dec, Number;
    if speed.Some? {
      assert t[i] == t[i..i + 2][0] && t[i + 1] == t[i..i + 2][1];
      DecNumber(speed.value.max, last);
      DecNumber(speed.value.duration, speed.value.max);
    }
  }

  /** Driving times are read back exactly when the format is decimal or both are below ten. */
  lemma DrivingParses(format: Format, driving: Option<Driving>, t: seq<Token>, i: nat, last: DWord)
    requires i + |DrivingTokens(driving)| <= |t| && t[i..i + |DrivingTokens(driving)|] == DrivingTokens(driving)
    ensures |DrivingTokens(driving)| == TwoIf(driving.Some?)
    ensures DrivingAt(t, i, driving.Some?, WidthBase(format), last) == driving
       <==> format == AsMeant || (driving.Some? ==> driving.value.max < 10 && driving.value.min < 10)
  {
    hide Dec, Number;
    if driving.Some? {
      assert t[i] == t[i..i + 2][0] && t[i + 1] == t[i..i + 2][1];
      if format == AsMeant {
        DecNumber(driving.value.max, last);
        DecNumber(driving.value.min, driving.value.max);
      } else {
        MisreadNumber(driving.value.max, last);
        MisreadNumber(driving.value.min, Number(t[i], 16, last));
      }
    }
  }

  /** The six fields every point has. */
  lemma PointHeadParses(format: Format, p: Point, t: seq<Token>, last: DWord)
    requires |t| >= 6 && t[..6] == PointHeadTokens(p)
    ensures Number(t[0], 16, last) == p.id && SectionAt(t, last) == p.section
    ensures CoordinateAt(t, 2, p.section) == p.position
    ensures AttributeAt(format, t, last) == p.attribute
    ensures WidthAt(format, t, last) % 0x100 == p.wide <==> format == AsMeant || p.wide < 10
  {
    hide Dec, Hex, Number, CoordinateAt;
    assert forall i :: 0 <= i < 6 ==> t[i] == t[..6][i];
    HexNumber(p.id, last);
    HexNumber(p.section, p.id);
    HexNumber(p.attribute, WidthAt(format, t, last));
    assert t[2..4] == CoordinateTokens(p.position);
    CoordinateParses(p.position, t, 2, p.section);
    if format == AsMeant {
      DecNumber(p.wide, p.position.longitude);
    } else {
      MisreadNumber(p.wide, p.position.longitude);
    }
  }

  /** A point is read back, with all its fields and no other, exactly when it is readable. */
  lemma PointParses(format: Format, p: Point, rest: seq<Token>, last: DWord)
    requires ProperPoint(p)
    ensures var r := ParsePoint(format, PointTokens(p) + rest, last);
            if Readable(format, p) then r.Parsed? && r.value == p && r.rest == rest else r.Parsed? ==> r.value != p
  {
    hide Dec, Hex, Number, CoordinateAt, SpeedAt, DrivingAt, AfterTwo, PointHeadTokens, DrivingTokens, SpeedTokens,
         SectionAt, WidthAt, AttributeAt, Timed, Limited;
    var t := PointTokens(p) + rest;
    var d, s := DrivingTokens(p.driving), SpeedTokens(p.speed);
    PointCut(p, rest);
    PointHeadParses(format, p, t, last);
    DrivingParses(format, p.driving, t, 6, p.attribute);
    SpeedParses(p.speed, t, 6 + |d|, AfterTwo(t, 6, p.driving.Some?, WidthBase(format), p.attribute));
  }

  lemma PointCut(p: Point, rest: seq<Token>)
    ensures var t, d, s := PointTokens(p) + rest, DrivingTokens(p.driving), SpeedTokens(p.speed);
            |t| == 6 + |d| + |s| + |rest| && t[..6] == PointHeadTokens(p) && t[6..6 + |d|] == d
            && t[6 + |d|..6 + |d| + |s|] == s && t[6 + |d| + |s|..] == rest
  {
  }

  predicate AllReadable(format: Format, points: seq<Point>) {
    forall i :: 0 <= i < |points| ==> Readable(format, points[i])
  }

  lemma {:induction false} PointsParse(format: Format, points: seq<Point>, rest: seq<Token>, last: DWord)
    requires forall i :: 0 <= i < |points| ==> ProperPoint(points[i])
    ensures var r := ParsePoints(format, PointsTokens(points) + rest, last, |points|);
            if AllReadable(format, points) then r.Parsed? && r.value == points && r.rest == rest
            else r.Parsed? ==> r.value != points
    decreases |points|
  {
    hide PointTokens, ParsePoint, Readable, ProperPoint;
    if points == [] {
      assert PointsTokens(points) + rest == rest;
    } else {
      var behind := PointsTokens(points[1..]) + rest;
      assert PointsTokens(points) + rest == PointTokens(points[0]) + behind;
      assert points == [points[0]] + points[1..];
      PointParses(format, points[0], behind, last);
      if Readable(format, points[0]) {
        PointsParse(format, points[1..], rest, ParsePoint(format, PointTokens(points[0]) + behind, last).last);
        ReadableFront(format, points);
      }
    }
  }

  lemma ReadableFront(format: Format, points: seq<Point>)
    requires points != [] && Readable(format, points[0])
    ensures AllReadable(format, points) <==> AllReadable(format, points[1..])
  {
  }

  lemma {:induction false} CornersParse(corners: seq<Coordinate>, rest: seq<Token>, last: DWord)
    ensures var r := ParseCorners(CornersTokens(corners) + rest, last, |corners|);
            r.Parsed? && r.value == corners && r.rest == rest
    decreases |corners|
  {
    hide CoordinateTokens, CoordinateAt;
    if corners == [] {
      assert CornersTokens(corners) + rest == rest;
    } else {
      var t, behind := CornersTokens(corners) + rest, CornersTokens(corners[1..]) + rest;
      assert t == CoordinateTokens(corners[0]) + behind;
      assert t[0..2] == CoordinateTokens(corners[0]) && t[2..] == behind;
      CoordinateParses(corners[0], t, 0, last);
      CornersParse(corners[1..], rest, corners[0].longitude);
      assert corners == [corners[0]] + corners[1..];
    }
  }

  // ---- Areas ------------------------------------------------------------------------

  predicate ReadableShape(format: Format, shape: Shape) {
    shape.Route? ==> AllReadable(format, shape.points)
  }

  lemma ShapeParses(format: Format, shape: Shape, t: seq<Token>, last: DWord, behind: seq<Token>, later: DWord)
    requires ProperShape(shape)
    requires 2 + FixedCount(KindOf(shape)) <= |t| && t[2..2 + FixedCount(KindOf(shape))] == FixedTokens(shape)
    requires behind == ListTokens(shape)
    ensures var r := ParseShape(KindOf(shape), format, t, 2, last, behind, later);
            if ReadableShape(format, shape) then r.Parsed? && r.value == shape && r.rest == []
            else r.Parsed? ==> r.value != shape
  {
    hide Dec, Number, CoordinateAt, CoordinateTokens, ParseCorners, ParsePoints, CornersTokens, PointsTokens, ProperPoint,
         AllReadable;
    match shape
    case Circle(center, radius) =>
      FixedCut(t, CoordinateTokens(center), [Dec(radius)]);
      CoordinateParses(center, t, 2, last);
      DecNumber(radius, center.longitude);
      assert t[4] == t[4..5][0];
    case Rectangle(upperLeft, bottomRight) =>
      FixedCut(t, CoordinateTokens(upperLeft), CoordinateTokens(bottomRight));
      CoordinateParses(upperLeft, t, 2, last);
      CoordinateParses(bottomRight, t, 4, upperLeft.longitude);
    case Polygon(corners) =>
      DecNumber(|corners|, later);
      CornersParse(corners, [], |corners|);
      assert behind[1..] == CornersTokens(corners) + [];
    case Route(points) =>
      DecNumber(|points|, later);
      PointsParse(format, points, [], |points|);
      assert behind[1..] == PointsTokens(points) + [];
  }

  lemma FixedCut(t: seq<Token>, a: seq<Token>, b: seq<Token>)
    requires |a| == 2 && |t| >= 4 + |b| && t[2..4 + |b|] == a + b
    ensures t[2..4] == a && t[4..4 + |b|] == b
  {
    assert t[2..4] == t[2..4 + |b|][..2] && t[4..4 + |b|] == t[2..4 + |b|][2..];
  }

  lemma PeriodParses(period: Option<Period>, t: seq<Token>, i: nat)
    requires ValidPeriod(period)
    requires i + |PeriodTokens(period)| <= |t| && t[i..i + |PeriodTokens(period)|] == PeriodTokens(period)
    ensures |PeriodTokens(period)| == TwoIf(period.Some?)
    ensures period.Some? ==> IsTime(t[i]) && IsTime(t[i + 1])
    ensures PeriodAt(t, i, period.Some?) == period
  {
    hide ValidBcd, Filled, Compress, Digits;
    if period.Some? {
      assert t[i] == t[i..i + 2][0] && t[i + 1] == t[i..i + 2][1];
      FillThenCompress(period.value.start);
      FillThenCompress(period.value.end);
    }
  }

  lemma AreaCut(a: Area)
    requires ValidPeriod(a.period)
    ensures var t := AreaTokens(a);
            var f, p, s := 2 + |FixedTokens(a.shape)|, |PeriodTokens(a.period)|, |SpeedTokens(a.speed)|;
            |t| >= f + p + s && t[..2] == [Hex(a.id), Hex(a.attribute)] && t[2..f] == FixedTokens(a.shape)
            && t[f..f + p] == PeriodTokens(a.period) && t[f + p..f + p + s] == SpeedTokens(a.speed)
            && t[f + p + s..] == ListTokens(a.shape)
  {
    hide Hex, FixedTokens, PeriodTokens, SpeedTokens, ListTokens, ValidPeriod;
  }

  /** The fields of a line are read back as the area, with none left over, exactly when the
      points of a route are readable; circles, rectangles and polygons always are. */
  lemma AreaParses(format: Format, a: Area)
    requires ProperArea(a) && ValidPeriod(a.period)
    ensures var r := ParseArea(KindOf(a.shape), format, AreaTokens(a));
            if ReadableShape(format, a.shape) then r.Parsed? && r.value == a && r.rest == []
            else r.Parsed? ==> r.value != a
  {
    hide AfterTwo, AfterFixed, Hex, FixedTokens, PeriodTokens, SpeedTokens, ListTokens, Number, ParseShape, SpeedAt,
         PeriodAt, IsTime, Timed, HasSpeed, ValidPeriod, ProperShape, ReadableShape, AreaTokens;
    var t := AreaTokens(a);
    var f, p := 2 + |FixedTokens(a.shape)|, |PeriodTokens(a.period)|;
    AreaCut(a);
    assert t[0] == t[..2][0] && t[1] == t[..2][1];
    HexNumber(a.id, 0);
    HexNumber(a.attribute, a.id);
    PeriodParses(a.period, t, f);
    var v := AfterFixed(KindOf(a.shape), t, 2, a.attribute);
    SpeedParses(a.speed, t, f + p, v);
    ShapeParses(format, a.shape, t, a.attribute, t[f + p + |SpeedTokens(a.speed)|..],
                AfterTwo(t, f + p, a.speed.Some?, 10, v));
  }

  // ---- Lines ------------------------------------------------------------------------

  /** A field that survives being cut at semicolons and newlines. */
  predicate Clean(t: Token) {
    t != [] && SEMICOLON !in t && NEWLINE !in t
  }

  predicate AllClean(tokens: seq<Token>) {
    forall i :: 0 <= i < |tokens| ==> Clean(tokens[i])
  }

  lemma PrintedIsClean(n: nat)
    ensures Clean(Dec(n)) && Clean(Hex(n))
  {
    hide Print;
    PrintedDigits(n, 10, false);
    PrintedDigits(n, 16, false);
  }

  lemma FilledIsClean(period: Option<Period>)
    requires ValidPeriod(period)
    ensures AllClean(PeriodTokens(period))
  {
    hide ValidBcd, Filled, Compress;
    if period.Some? {
      FillThenCompress(period.value.start);
      FillThenCompress(period.value.end);
    }
  }

  lemma CleanConcat(a: seq<Token>, b: seq<Token>)
    requires AllClean(a) && AllClean(b)
    ensures AllClean(a + b)
  {
  }

  lemma PointIsClean(p: Point)
    ensures AllClean(PointTokens(p))
  {
    hide Dec, Hex, Clean, AllClean;
    CleanPair(p.position.latitude, p.position.longitude);
    assert AllClean(PointHeadTokens(p)) by { HeadIsClean(p); }
    assert AllClean(DrivingTokens(p.driving)) by {
      NoneIsClean();
      if p.driving.Some? { CleanPair(p.driving.value.max, p.driving.value.min); }
    }
    SpeedIsClean(p.speed);
    CleanConcat(DrivingTokens(p.driving), SpeedTokens(p.speed));
    CleanConcat(PointHeadTokens(p), DrivingTokens(p.driving) + SpeedTokens(p.speed));
  }

  lemma NoneIsClean()
    ensures AllClean([])
  {
  }

  lemma CleanPair(a: nat, b: nat)
    ensures AllClean([Dec(a), Dec(b)])
  {
    hide Dec, Clean;
    PrintedIsClean(a);
    PrintedIsClean(b);
  }

  lemma SpeedIsClean(speed: Option<Speed>)
    ensures AllClean(SpeedTokens(speed))
  {
    hide Dec, Clean, AllClean;
    NoneIsClean();
    if speed.Some? {
      CleanPair(speed.value.max, speed.value.duration);
    }
  }

  lemma HeadIsClean(p: Point)
    ensures AllClean(PointHeadTokens(p))
  {
    hide Dec, Hex, Clean;
    PrintedIsClean(p.id);
    PrintedIsClean(p.section);
    PrintedIsClean(p.position.latitude);
    PrintedIsClean(p.position.longitude);
    PrintedIsClean(p.wide);
    PrintedIsClean(p.attribute);
  }

  lemma {:induction false} PointsAreClean(points: seq<Point>)
    ensures AllClean(PointsTokens(points))
    decreases |points|
  {
    hide PointTokens, Clean;
    if points != [] {
      PointIsClean(points[0]);
      PointsAreClean(points[1..]);
      CleanConcat(PointTokens(points[0]), PointsTokens(points[1..]));
    }
  }

  lemma {:induction false} CornersAreClean(corners: seq<Coordinate>)
    ensures AllClean(CornersTokens(corners))
    decreases |corners|
  {
    hide Dec, Clean, AllClean;
    NoneIsClean();
    if corners != [] {
      CleanPair(corners[0].latitude, corners[0].longitude);
      CornersAreClean(corners[1..]);
      CleanConcat(CoordinateTokens(corners[0]), CornersTokens(corners[1..]));
    }
  }

  lemma FixedIsClean(shape: Shape)
    ensures AllClean(FixedTokens(shape))
  {
    hide Dec, Clean, AllClean;
    NoneIsClean();
    match shape
    case Circle(center, radius) =>
      CleanPair(center.latitude, center.longitude);
      OneIsClean(radius);
      CleanConcat(CoordinateTokens(center), [Dec(radius)]);
    case Rectangle(upperLeft, bottomRight) =>
      CleanPair(upperLeft.latitude, upperLeft.longitude);
      CleanPair(bottomRight.latitude, bottomRight.longitude);
      CleanConcat(CoordinateTokens(upperLeft), CoordinateTokens(bottomRight));
    case _ =>
  }

  lemma OneIsClean(n: nat)
    ensures AllClean([Dec(n)])
  {
    hide Dec, Clean;
    PrintedIsClean(n);
  }

  lemma ListIsClean(shape: Shape)
    ensures AllClean(ListTokens(shape))
  {
    hide Dec, Clean, AllClean, CornersTokens, PointsTokens;
    NoneIsClean();
    match shape
    case Polygon(corners) =>
      OneIsClean(|corners|);
      CornersAreClean(corners);
      CleanConcat([Dec(|corners|)], CornersTokens(corners));
    case Route(points) =>
      OneIsClean(|points|);
      PointsAreClean(points);
      CleanConcat([Dec(|points|)], PointsTokens(points));
    case _ =>
  }

  lemma LineIsClean(a: Area)
    requires ValidPeriod(a.period)
    ensures AllClean(LineTokens(a))
  {
    hide Dec, Hex, Clean, AllClean, FixedTokens, PeriodTokens, SpeedTokens, ListTokens, ValidPeriod;
    var k, h := [Dec(KindNumber(KindOf(a.shape)))], [Hex(a.id), Hex(a.attribute)];
    var f, p, s, l := FixedTokens(a.shape), PeriodTokens(a.period), SpeedTokens(a.speed), ListTokens(a.shape);
    OneIsClean(KindNumber(KindOf(a.shape)));
    IdsAreClean(a);
    FixedIsClean(a.shape);
    FilledIsClean(a.period);
    SpeedIsClean(a.speed);
    ListIsClean(a.shape);
    CleanConcat(s, l);
    CleanConcat(p, s + l);
    CleanConcat(f, p + (s + l));
    CleanConcat(h, f + (p + (s + l)));
    CleanConcat(k, AreaTokens(a));
  }

  lemma IdsAreClean(a: Area)
    ensures AllClean([Hex(a.id), Hex(a.attribute)])
  {
    hide Hex, Clean;
    PrintedIsClean(a.id);
    PrintedIsClean(a.attribute);
  }

  /** Cutting at the semicolons finds the fields again. */
  lemma {:induction false} FieldsOfEnded(tokens: seq<Token>)
    requires AllClean(tokens)
    ensures Fields(Ended(tokens)) == tokens && NEWLINE !in Ended(tokens)
    decreases |tokens|
  {
    hide Before, Rest;
    if tokens != [] {
      assert Clean(tokens[0]);
      var others := Ended(tokens[1..]);
      var s := tokens[0] + [SEMICOLON] + others;
      BeforeEnds(tokens[0], SEMICOLON, others);
      FieldsOfEnded(tokens[1..]);
      BehindField(tokens[0], others);
      assert Fields(s) == [tokens[0]] + Fields(others);
      assert tokens == [tokens[0]] + tokens[1..];
    }
  }

  lemma BehindField(t: Token, others: seq<Byte>)
    ensures Rest(t + [SEMICOLON] + others, |t|) == others
  {
  }

  // ---- The file ---------------------------------------------------------------------

  predicate Storable(a: Area) {
    ProperArea(a) && ValidPeriod(a.period)
  }

  predicate AllStorable(areas: seq<Area>) {
    forall i :: 0 <= i < |areas| ==> Storable(areas[i])
  }

  function FileText(areas: seq<Area>): seq<Byte> {
    if areas == [] then [] else Line(areas[0]) + FileText(areas[1..])
  }

  function PushAll(l: Lists, areas: seq<Area>): Lists
    decreases |areas|
  {
    if areas == [] then l else PushAll(Push(l, areas[0]), areas[1..])
  }

  /** The line fits the array it is copied to. */
  predicate Fits(a: Area) {
    |Ended(LineTokens(a))| <= MAX_LINE
  }

  /** A printed line is read as its area exactly when it fits the array and is readable. */
  lemma LineReads(format: Format, g: Reading, a: Area)
    requires Storable(a)
    ensures var o := ReadLine(format, g, Ended(LineTokens(a)));
            if Fits(a) && ReadableShape(format, a.shape) then o.Some? && o.value.lists == Push(g.lists, a)
            else o.Some? ==> exists b :: b != a && KindOf(b.shape) == KindOf(a.shape) && o.value.lists == Push(g.lists, b)
  {
    hide Dec, Number, ParseArea, Push, Ended, Fields, AreaTokens, ReadableShape, ValidPeriod, ProperArea, Numeric;
    var n := KindNumber(KindOf(a.shape));
    LineIsClean(a);
    FieldsOfEnded(LineTokens(a));
    var t := LineTokens(a);
    assert t[1..] == AreaTokens(a);
    DecNumber(n, if g.last.Some? then g.last.value else 0);
    AreaParses(format, a);
    var r := ParseArea(KindOf(a.shape), format, AreaTokens(a));
    KindStays(KindOf(a.shape), format, AreaTokens(a));
    assert KindAt(n) == Some(KindOf(a.shape));
  }

  /** A line of another number than 1 to 4 adds no area, and the array it is copied to has room
      for 1023 bytes. */
  lemma LineOfNoKind(format: Format, g: Reading, n: nat, rest: seq<Byte>)
    requires n < 0x1_0000_0000 && (n == 0 || n > 4)
    ensures ReadLine(format, g, Dec(n) + [0x3B] + rest)
         == if |Dec(n)| + 1 + |rest| <= 1023 then Some(Reading(g.lists, Some(n))) else None
  {
    hide Dec, Number, Numeric, Before, ParseArea;
    var line := Dec(n) + [0x3B] + rest;
    PrintedIsClean(n);
    BeforeEnds(Dec(n), SEMICOLON, rest);
    DecNumber(n, if g.last.Some? then g.last.value else 0);
    assert Fields(line)[0] == Dec(n);
  }

  /** A line without fields is undefined, and the last line needs no newline. */
  lemma EmptyAndLastLine(format: Format, g: Reading, line: seq<Byte>)
    ensures ReadLine(format, g, []) == None && ReadLine(format, g, [0x3B]) == None
    ensures line != [] && 0x0A !in line ==>
              ReadLines(format, g, line)
              == if ReadLine(format, g, line).None? then None else Some(ReadLine(format, g, line).value.lists)
  {
    hide Number, Numeric, ParseArea, Before;
    OddFields([]);
    assert [0x3B] + [] == [0x3B];
    assert Fields([]) == [];
    if line != [] && 0x0A !in line {
      assert Before(line, NEWLINE) == line;
      assert Rest(line, |line|) == [];
    }
  }

  /** A line whose first field is no number is taken for the kind of the line before. */
  lemma LineWithoutNumber(format: Format, g: Reading)
    ensures var o := ReadLine(format, g, [0x78, 0x3B]);
            if g.last.None? || KindAt(g.last.value).Some? then o == None else o == Some(g)
  {
    hide Number, Numeric, ParseArea;
    OddFields([0x78]);
    assert Before([0x78, 0x3B], SEMICOLON) == [0x78];
    assert Rest([0x78, 0x3B], 1) == [];
    assert Fields([0x78, 0x3B]) == [[0x78]];
    NotNumeric();
    NothingToParse(format);
  }

  lemma NotNumeric()
    ensures !Numeric([0x78], 10) && forall last :: Number([0x78], 10, last) == last
  {
  }

  lemma NothingToParse(format: Format)
    ensures forall kind :: ParseArea(kind, format, []) == RanOut
  {
  }

  lemma KindStays(kind: Kind, format: Format, t: seq<Token>)
    ensures var r := ParseArea(kind, format, t); r.Parsed? ==> KindOf(r.value.shape) == kind
  {
    hide Number, CoordinateAt, ParseCorners, ParsePoints, SpeedAt, PeriodAt, IsTime, Timed, HasSpeed;
  }

  lemma FileFront(a: Area, file: seq<Byte>)
    requires Storable(a)
    ensures var f := Line(a) + file;
            f != [] && Before(f, NEWLINE) == Ended(LineTokens(a)) && Rest(f, |Ended(LineTokens(a))|) == file
  {
    hide LineTokens, ValidPeriod, ProperArea, Ended, Before;
    LineIsClean(a);
    FieldsOfEnded(LineTokens(a));
    BeforeEnds(Ended(LineTokens(a)), NEWLINE, file);
    var f := Line(a) + file;
    assert f == Ended(LineTokens(a)) + [NEWLINE] + file;
    assert f[|Ended(LineTokens(a))| + 1..] == file;
  }

  /** Nothing read later takes an area out of a list. */
  ghost predicate Extends(l: Lists, m: Lists) {
    l.circles <= m.circles && l.rectangles <= m.rectangles && l.polygons <= m.polygons && l.routes <= m.routes
  }

  lemma {:induction false} ReadingExtends(format: Format, g: Reading, file: seq<Byte>)
    ensures var o := ReadLines(format, g, file); o.Some? ==> Extends(g.lists, o.value)
    decreases |file|
  {
    hide ParseArea, Fields, Before, Rest, Number, Numeric;
    if file != [] {
      var line := Before(file, NEWLINE);
      var g1 := ReadLine(format, g, line);
      if g1.Some? {
        ReadingExtends(format, g1.value, Rest(file, |line|));
      }
    }
  }

  lemma {:induction false} PushingExtends(l: Lists, areas: seq<Area>)
    ensures Extends(l, PushAll(l, areas))
    decreases |areas|
  {
    if areas != [] {
      PushingExtends(Push(l, areas[0]), areas[1..]);
    }
  }

  lemma WrongAreaShows(l: Lists, a: Area, b: Area, m: Lists, n: Lists)
    requires a != b && KindOf(a.shape) == KindOf(b.shape)
    requires Extends(Push(l, a), m) && Extends(Push(l, b), n)
    ensures m != n
  {
    match KindOf(a.shape)
    case Circles => assert m.circles[|l.circles|] == a && n.circles[|l.circles|] == b;
    case Rectangles => assert m.rectangles[|l.rectangles|] == a && n.rectangles[|l.rectangles|] == b;
    case Polygons => assert m.polygons[|l.polygons|] == a && n.polygons[|l.polygons|] == b;
    case Routes => assert m.routes[|l.routes|] == a && n.routes[|l.routes|] == b;
  }

  predicate AllReadableLines(format: Format, areas: seq<Area>) {
    forall i :: 0 <= i < |areas| ==> Fits(areas[i]) && ReadableShape(format, areas[i].shape)
  }

  /** The lines of any areas are read back, in order, exactly when all of them fit and are
      readable. */
  lemma {:induction false} LinesRead(format: Format, g: Reading, areas: seq<Area>)
    requires AllStorable(areas)
    ensures ReadLines(format, g, FileText(areas)) == Some(PushAll(g.lists, areas)) <==> AllReadableLines(format, areas)
    decreases |areas|
  {
    hide Line, LineTokens, ReadLine, ReadableShape, ProperArea, ValidPeriod, Before, Rest, Push, Ended, Extends, Fits;
    if areas != [] {
      var a, file := areas[0], FileText(areas[1..]);
      FileFront(a, file);
      LineReads(format, g, a);
      var o := ReadLine(format, g, Ended(LineTokens(a)));
      LinesFront(format, areas);
      if Fits(a) && ReadableShape(format, a.shape) {
        LinesRead(format, o.value, areas[1..]);
      } else if o.Some? {
        var b :| b != a && KindOf(b.shape) == KindOf(a.shape) && o.value.lists == Push(g.lists, b);
        ReadingExtends(format, o.value, file);
        PushingExtends(Push(g.lists, a), areas[1..]);
        var r := ReadLines(format, o.value, file);
        if r.Some? {
          WrongAreaShows(g.lists, a, b, PushAll(g.lists, areas), r.value);
        }
      }
    }
  }

  lemma LinesFront(format: Format, areas: seq<Area>)
    requires areas != []
    ensures AllReadableLines(format, areas)
       <==> Fits(areas[0]) && ReadableShape(format, areas[0].shape) && AllReadableLines(format, areas[1..])
  {
    hide Fits, ReadableShape;
    assert forall i :: 0 <= i < |areas| - 1 ==> areas[1..][i] == areas[i + 1];
    assert forall i :: 0 < i < |areas| ==> areas[i] == areas[1..][i - 1];
  }

  // ---- All four lists ---------------------------------------------------------------

  function InOrder(l: Lists): seq<Area> {
    l.circles + l.rectangles + l.polygons + l.routes
  }

  predicate OfKind(kind: Kind, areas: seq<Area>) {
    forall i :: 0 <= i < |areas| ==> KindOf(areas[i].shape) == kind
  }

  predicate Sorted(l: Lists) {
    OfKind(Circles, l.circles) && OfKind(Rectangles, l.rectangles) && OfKind(Polygons, l.polygons)
    && OfKind(Routes, l.routes)
  }

  /** One of the four loops of the writer. */
  method WriteList(file: seq<Byte>, areas: seq<Area>) returns (longer: seq<Byte>)
    ensures longer == file + FileText(areas)
  {
    hide Line;
    longer := file;
    assert areas[0..] == areas;
    for i := 0 to |areas|
      invariant longer + FileText(areas[i..]) == file + FileText(areas)
    {
      var buffer := GenerateLine(areas[i]);
      assert areas[i..][1..] == areas[i + 1..];
      assert longer + (Line(areas[i]) + FileText(areas[i + 1..])) == longer + Line(areas[i]) + FileText(areas[i + 1..]);
      longer := longer + buffer;
    }
    assert areas[|areas|..] == [];
    assert longer + [] == longer;
  }

  lemma {:induction false} TextConcat(a: seq<Area>, b: seq<Area>)
    ensures FileText(a + b) == FileText(a) + FileText(b)
    decreases |a|
  {
    hide Line;
    if a == [] {
      assert a + b == b;
      assert [] + FileText(b) == FileText(b);
    } else {
      assert (a + b)[0] == a[0] && (a + b)[1..] == a[1..] + b;
      TextConcat(a[1..], b);
      assert Line(a[0]) + (FileText(a[1..]) + FileText(b)) == Line(a[0]) + FileText(a[1..]) + FileText(b);
    }
  }

  /** WriteAreaRouteToFile; a list that is null is one without areas. */
  method WriteFile(l: Lists) returns (file: seq<Byte>)
    ensures file == FileText(InOrder(l))
  {
    hide FileText;
    file := WriteList([], l.circles);
    assert [] + FileText(l.circles) == FileText(l.circles);
    file := WriteList(file, l.rectangles);
    TextConcat(l.circles, l.rectangles);
    file := WriteList(file, l.polygons);
    TextConcat(l.circles + l.rectangles, l.polygons);
    file := WriteList(file, l.routes);
    TextConcat(l.circles + l.rectangles + l.polygons, l.routes);
  }

  lemma {:induction false} PushConcat(l: Lists, a: seq<Area>, b: seq<Area>)
    ensures PushAll(l, a + b) == PushAll(PushAll(l, a), b)
    decreases |a|
  {
    hide Push;
    if a == [] {
      assert a + b == b;
    } else {
      assert (a + b)[0] == a[0] && (a + b)[1..] == a[1..] + b;
      PushConcat(Push(l, a[0]), a[1..], b);
    }
  }

  lemma {:induction false} PushKind(l: Lists, kind: Kind, areas: seq<Area>)
    requires OfKind(kind, areas)
    ensures PushAll(l, areas) == match kind
                                 case Circles => l.(circles := l.circles + areas)
                                 case Rectangles => l.(rectangles := l.rectangles + areas)
                                 case Polygons => l.(polygons := l.polygons + areas)
                                 case Routes => l.(routes := l.routes + areas)
    decreases |areas|
  {
    if areas == [] {
      assert l.circles + [] == l.circles && l.rectangles + [] == l.rectangles;
      assert l.polygons + [] == l.polygons && l.routes + [] == l.routes;
    } else {
      PushKind(Push(l, areas[0]), kind, areas[1..]);
      assert forall s: seq<Area> :: s + [areas[0]] + areas[1..] == s + areas;
    }
  }

  lemma PushInOrder(l: Lists)
    requires Sorted(l)
    ensures PushAll(NOTHING.lists, InOrder(l)) == l
  {
    hide PushAll, OfKind;
    PushConcat(NOTHING.lists, l.circles + l.rectangles + l.polygons, l.routes);
    PushConcat(NOTHING.lists, l.circles + l.rectangles, l.polygons);
    PushConcat(NOTHING.lists, l.circles, l.rectangles);
    PushKind(NOTHING.lists, Circles, l.circles);
    PushKind(Lists(l.circles, [], [], []), Rectangles, l.rectangles);
    PushKind(Lists(l.circles, l.rectangles, [], []), Polygons, l.polygons);
    PushKind(Lists(l.circles, l.rectangles, l.polygons, []), Routes, l.routes);
    assert forall s: seq<Area> :: [] + s == s;
  }

  /** Reading the written file gives back all four lists in order exactly when every line fits
      the array it is read into and the points of all routes are readable: always with the
      formats as they were meant, and as written for widths and driving times below ten and
      sections whose two bits agree. */
  lemma FileRoundTripExactlyWhen(format: Format, l: Lists)
    requires Sorted(l) && AllStorable(InOrder(l))
    ensures ReadLines(format, NOTHING, FileText(InOrder(l))) == Some(l)
       <==> && (forall i :: 0 <= i < |InOrder(l)| ==> |Line(InOrder(l)[i])| <= MAX_LINE + 1)
            && forall i, k :: 0 <= i < |l.routes| && 0 <= k < |RoutePoints(l.routes[i])| ==>
                                Readable(format, RoutePoints(l.routes[i])[k])
  {
    hide ReadLines, FileText, AllStorable, PushAll, Readable, Ended, LineTokens;
    LinesRead(format, NOTHING, InOrder(l));
    PushInOrder(l);
    OnlyRoutesMatter(format, l);
  }

  // ---- A line that is too long ------------------------------------------------------

  lemma {:induction false} LongNumber(n: nat, digits: nat, power: nat)
    requires n >= power && power == Power(digits)
    ensures |Dec(n)| > digits
    decreases digits
  {
    if digits > 0 {
      assert Power(digits) == 10 * Power(digits - 1);
      Shorter(n, Power(digits - 1));
      LongNumber(n / 10, digits - 1, Power(digits - 1));
    }
  }

  function Power(digits: nat): (p: nat)
    ensures p > 0
  {
    if digits == 0 then 1 else 10 * Power(digits - 1)
  }

  lemma Shorter(n: nat, p: nat)
    requires n >= 10 * p && p > 0
    ensures n / 10 >= p && n >= 10
  {
  }

  lemma TenDigits(n: nat)
    requires n >= 1_000_000_000
    ensures |Dec(n)| >= 10
  {
    assert Power(3) == 1000;
    assert Power(6) == 1000 * Power(3);
    assert Power(9) == 1000 * Power(6);
    LongNumber(n, 9, Power(9));
  }

  lemma {:induction false} LongCorners(corners: seq<Coordinate>)
    requires forall i :: 0 <= i < |corners| ==>
                           corners[i].latitude >= 1_000_000_000 && corners[i].longitude >= 1_000_000_000
    ensures |Ended(CornersTokens(corners))| >= 22 * |corners|
    decreases |corners|
  {
    hide Dec;
    if corners != [] {
      var c := corners[0];
      TenDigits(c.latitude);
      TenDigits(c.longitude);
      LongCorners(corners[1..]);
      EndedConcat([Dec(c.latitude)], [Dec(c.longitude)]);
      EndedOne(Dec(c.latitude));
      EndedOne(Dec(c.longitude));
      assert [Dec(c.latitude)] + [Dec(c.longitude)] == CoordinateTokens(c);
      EndedConcat(CoordinateTokens(c), CornersTokens(corners[1..]));
    }
  }

  /** Sixty corners of ten-digit coordinates, which fit a message, make a line that does not fit
      the array: whatever else is stored, the written file is not read back. */
  lemma SixtyCornersAreTooLong(format: Format, l: Lists, i: nat)
    requires Sorted(l) && AllStorable(InOrder(l)) && i < |l.polygons|
    requires |l.polygons[i].shape.corners| >= 60
    requires forall k :: 0 <= k < |l.polygons[i].shape.corners| ==>
                           var c := l.polygons[i].shape.corners[k];
                           c.latitude >= 1_000_000_000 && c.longitude >= 1_000_000_000
    ensures ReadLines(format, NOTHING, FileText(InOrder(l))) != Some(l)
  {
    hide ReadLines, FileText, AllStorable, Ended, LineTokens, CornersTokens, Readable;
    FileRoundTripExactlyWhen(format, l);
    var a, at := l.polygons[i], |l.circles| + |l.rectangles| + i;
    assert InOrder(l)[at] == a;
    LongCorners(a.shape.corners);
    CornersInLine(a);
    assert |Line(InOrder(l)[at])| > MAX_LINE + 1;
  }

  lemma CornersInLine(a: Area)
    requires a.shape.Polygon?
    ensures |Line(a)| > |Ended(CornersTokens(a.shape.corners))|
  {
    hide Ended, CornersTokens, PeriodTokens, SpeedTokens, Dec, Hex;
    var front := [Dec(KindNumber(KindOf(a.shape))), Hex(a.id), Hex(a.attribute)] + FixedTokens(a.shape)
                 + PeriodTokens(a.period) + SpeedTokens(a.speed) + [Dec(|a.shape.corners|)];
    LineParts(a);
    assert LineTokens(a) == front + CornersTokens(a.shape.corners);
    EndedConcat(front, CornersTokens(a.shape.corners));
  }

  function RoutePoints(a: Area): seq<Point> {
    if a.shape.Route? then a.shape.points else []
  }

  lemma OnlyRoutesMatter(format: Format, l: Lists)
    requires Sorted(l)
    ensures (forall i :: 0 <= i < |InOrder(l)| ==> ReadableShape(format, InOrder(l)[i].shape))
       <==> forall i, k :: 0 <= i < |l.routes| && 0 <= k < |RoutePoints(l.routes[i])| ==>
                             Readable(format, RoutePoints(l.routes[i])[k])
  {
    hide Readable;
    var all, n := InOrder(l), |l.circles| + |l.rectangles| + |l.polygons|;
    assert forall i :: 0 <= i < |l.routes| ==> all[n + i] == l.routes[i];
    forall i | 0 <= i < |all|
      ensures i < n ==> ReadableShape(format, all[i].shape)
      ensures i >= n ==> all[i] == l.routes[i - n]
    {
      FrontIsNoRoute(l, i);
    }
    forall i | 0 <= i < |l.routes|
      ensures ReadableShape(format, l.routes[i].shape)
         <==> forall k :: 0 <= k < |RoutePoints(l.routes[i])| ==> Readable(format, RoutePoints(l.routes[i])[k])
    {
      OneRoute(format, l.routes[i]);
    }
    assert (forall i :: 0 <= i < |all| ==> ReadableShape(format, all[i].shape))
      <==> forall i :: 0 <= i < |l.routes| ==> ReadableShape(format, l.routes[i].shape);
  }

  lemma OneRoute(format: Format, a: Area)
    requires KindOf(a.shape) == Routes
    ensures ReadableShape(format, a.shape)
       <==> forall k :: 0 <= k < |RoutePoints(a)| ==> Readable(format, RoutePoints(a)[k])
  {
    hide Readable;
    var points := RoutePoints(a);
    assert points == a.shape.points;
    if forall k :: 0 <= k < |points| ==> Readable(format, points[k]) {
      assert AllReadable(format, points);
    }
    if AllReadable(format, points) {
      forall k | 0 <= k < |points|
        ensures Readable(format, points[k])
      {
      }
    }
  }

  lemma FrontIsNoRoute(l: Lists, i: nat)
    requires Sorted(l) && i < |InOrder(l)|
    ensures var n := |l.circles| + |l.rectangles| + |l.polygons|;
            if i < n then !InOrder(l)[i].shape.Route? else InOrder(l)[i] == l.routes[i - n]
  {
  }
}
