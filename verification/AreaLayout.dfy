/** Which bytes of an area or a route mean what: the decoders' reading stated over the buffer
    alone, for an attribute t + 2 * l + 4 * r, whose bit 0 is t and whose bit 1 is l. */
module AreaLayout {
  import opened AreaDecoder
  import opened Areas
  import opened Bytes
  import opened Wrappers

  lemma LowBits(attribute: Word, t: nat, l: nat, r: nat)
    requires t <= 1 && l <= 1 && attribute == t + 2 * l + 4 * r
    ensures Timed(attribute) <==> t == 1
    ensures Limited(attribute) <==> l == 1
  {
    assert attribute / 2 == l + 2 * r;
  }

  /** Period and speed, one behind the other, if they are there. */
  function PeriodIf(t: nat, b: seq<Byte>, at: nat): Option<Period>
    requires at + 12 * t <= |b|
  {
    if t == 1 then Some(Period(b[at..at + 6], b[at + 6..at + 12])) else None
  }

  function SpeedIf(l: nat, b: seq<Byte>, at: nat): Option<Speed>
    requires at + 3 * l <= |b|
  {
    if l == 1 then Some(Speed(WordAt(b, at), b[at + 2])) else None
  }

  /** A circle: id, attribute, centre and radius are 18 bytes, a period takes 12 more and a speed 3. */
  lemma CircleStands(b: seq<Byte>, at: nat, t: nat, l: nat, r: nat)
    requires t <= 1 && l <= 1 && at + 6 <= |b| && WordAt(b, at + 4) == t + 2 * l + 4 * r
    ensures ReadArea(Circles, b, at).Some? <==> at + 18 + 12 * t + 3 * l <= |b|
    ensures at + 18 + 12 * t + 3 * l <= |b| ==>
              && ReadArea(Circles, b, at).value
                 == Area(DWordAt(b, at), WordAt(b, at + 4),
                         Circle(Coordinate(DWordAt(b, at + 6), DWordAt(b, at + 10)), DWordAt(b, at + 14)),
                         PeriodIf(t, b, at + 18), SpeedIf(l, b, at + 18 + 12 * t))
              && AreaEnd(Circles, b, at) == at + 18 + 12 * t + 3 * l
  {
    hide DWordAt, WordAt, Timed, Limited;
    LowBits(WordAt(b, at + 4), t, l, r);
  }

  /** A rectangle: 22 bytes with two corners. */
  lemma RectangleStands(b: seq<Byte>, at: nat, t: nat, l: nat, r: nat)
    requires t <= 1 && l <= 1 && at + 6 <= |b| && WordAt(b, at + 4) == t + 2 * l + 4 * r
    ensures ReadArea(Rectangles, b, at).Some? <==> at + 22 + 12 * t + 3 * l <= |b|
    ensures at + 22 + 12 * t + 3 * l <= |b| ==>
              && ReadArea(Rectangles, b, at).value
                 == Area(DWordAt(b, at), WordAt(b, at + 4),
                         Rectangle(Coordinate(DWordAt(b, at + 6), DWordAt(b, at + 10)),
                                   Coordinate(DWordAt(b, at + 14), DWordAt(b, at + 18))),
                         PeriodIf(t, b, at + 22), SpeedIf(l, b, at + 22 + 12 * t))
              && AreaEnd(Rectangles, b, at) == at + 22 + 12 * t + 3 * l
  {
    hide DWordAt, WordAt, Timed, Limited;
    LowBits(WordAt(b, at + 4), t, l, r);
  }

  lemma {:induction false} CornersStand(b: seq<Byte>, at: nat, count: nat)
    requires at <= |b|
    ensures ReadCorners(b, at, count).Some? <==> at + 8 * count <= |b|
    ensures at + 8 * count <= |b| ==>
              |ReadCorners(b, at, count).value| == count
              && forall i :: 0 <= i < count ==>
                               ReadCorners(b, at, count).value[i]
                               == Coordinate(DWordAt(b, at + 8 * i), DWordAt(b, at + 8 * i + 4))
    decreases count
  {
    hide DWordAt;
    if count > 0 && at + 8 <= |b| {
      CornersStand(b, at + 8, count - 1);
    }
  }

  /** A polygon: behind period and speed a count and that many corners of eight bytes. */
  lemma PolygonStands(b: seq<Byte>, at: nat, t: nat, l: nat, r: nat)
    requires t <= 1 && l <= 1 && at + 6 <= |b| && WordAt(b, at + 4) == t + 2 * l + 4 * r
    ensures var e := at + 6 + 12 * t + 3 * l;
            && (ReadArea(Polygons, b, at).Some? <==> e + 2 <= |b| && e + 2 + 8 * WordAt(b, e) <= |b|)
            && (e + 2 <= |b| && e + 2 + 8 * WordAt(b, e) <= |b| ==>
                  var a := ReadArea(Polygons, b, at).value;
                  && a.id == DWordAt(b, at) && a.attribute == WordAt(b, at + 4) && a.shape.Polygon?
                  && a.period == PeriodIf(t, b, at + 6) && a.speed == SpeedIf(l, b, at + 6 + 12 * t)
                  && |a.shape.corners| == WordAt(b, e)
                  && (forall i :: 0 <= i < |a.shape.corners| ==>
                                    a.shape.corners[i]
                                    == Coordinate(DWordAt(b, e + 2 + 8 * i), DWordAt(b, e + 2 + 8 * i + 4)))
                  && AreaEnd(Polygons, b, at) == e + 2 + 8 * WordAt(b, e))
  {
    hide DWordAt, WordAt, Timed, Limited, ReadCorners;
    LowBits(WordAt(b, at + 4), t, l, r);
    var e := at + 6 + 12 * t + 3 * l;
    if e + 2 <= |b| {
      CornersStand(b, e + 2, WordAt(b, e));
    }
  }

  /** A section of road: 18 bytes, driving times take 4 more and a speed 3. */
  lemma PointStands(b: seq<Byte>, at: nat, t: nat, l: nat, r: nat)
    requires t <= 1 && l <= 1 && at + 18 <= |b| && b[at + 17] == t + 2 * l + 4 * r
    ensures ReadPoint(b, at).Some? <==> at + 18 + 4 * t + 3 * l <= |b|
    ensures PointEnd(b, at) == at + 18 + 4 * t + 3 * l
    ensures at + 18 + 4 * t + 3 * l <= |b| ==>
              ReadPoint(b, at).value
              == Point(DWordAt(b, at), DWordAt(b, at + 4), Coordinate(DWordAt(b, at + 8), DWordAt(b, at + 12)),
                       b[at + 16], b[at + 17],
                       if t == 1 then Some(Driving(WordAt(b, at + 18), WordAt(b, at + 20))) else None,
                       SpeedIf(l, b, at + 18 + 4 * t))
  {
    hide DWordAt, WordAt, Timed, Limited;
    LowBits(b[at + 17], t, l, r);
  }

  /** A route has no speed of its own, whatever its attribute: behind the period come a count and
      that many sections, the first at once and each where the one before it ends. */
  lemma RouteStands(b: seq<Byte>, at: nat, t: nat, l: nat, r: nat)
    requires t <= 1 && l <= 1 && at + 6 <= |b| && WordAt(b, at + 4) == t + 2 * l + 4 * r
    requires ReadArea(Routes, b, at).Some?
    ensures var a, e := ReadArea(Routes, b, at).value, at + 6 + 12 * t;
            && e + 2 <= |b| && a.id == DWordAt(b, at) && a.attribute == WordAt(b, at + 4) && a.shape.Route?
            && a.period == PeriodIf(t, b, at + 6) && a.speed == None
            && InARow(b, e + 2, a.shape.points, AreaEnd(Routes, b, at)) && |a.shape.points| == WordAt(b, e)
  {
    hide DWordAt, WordAt, Timed, Limited, ReadPoints;
    LowBits(WordAt(b, at + 4), t, l, r);
    var e := at + 6 + 12 * t;
    PointsInARow(b, e + 2, WordAt(b, e));
  }

  /** Sections that were read one behind the other. */
  predicate InARow(b: seq<Byte>, at: nat, points: seq<Point>, end: nat)
    decreases |points|
  {
    if points == [] then at == end
    else
      at + 18 <= |b| && ReadPoint(b, at) == Some(points[0])
      && InARow(b, at + 18 + 4 * (b[at + 17] % 2) + 3 * (b[at + 17] / 2 % 2), points[1..], end)
  }

  lemma {:induction false} PointsInARow(b: seq<Byte>, at: nat, count: nat)
    ensures ReadPoints(b, at, count).Some? ==>
              var points := ReadPoints(b, at, count).value;
              |points| == count && InARow(b, at, points, PointsEnd(b, at, count))
    decreases count
  {
    hide DWordAt, WordAt, Timed, Limited, ReadPoint;
    if count > 0 && ReadPoint(b, at).Some? {
      PointInside(b, at);
      var c: Byte := b[at + 17];
      PointStands(b, at, c % 2, c / 2 % 2, c / 4);
      PointsInARow(b, PointEnd(b, at), count - 1);
    }
  }

  lemma PointInside(b: seq<Byte>, at: nat)
    requires ReadPoint(b, at).Some?
    ensures at + 18 <= |b|
  {
  }

  /** A circle with both bits set, as in the first line of examples/arearoute.txt: 33 bytes. */
  lemma CircleOfThirtyThreeBytes(b: seq<Byte>)
    requires |b| >= 33 && b[4] == 0 && b[5] == 3
    ensures ReadArea(Circles, b, 0).Some? && AreaEnd(Circles, b, 0) == 33
    ensures var a := ReadArea(Circles, b, 0).value;
            a.period == Some(Period(b[18..24], b[24..30])) && a.speed == Some(Speed(WordAt(b, 30), b[32]))
  {
    CircleStands(b, 0, 1, 1, 0);
  }

  /** The areas and sections that can be sent: those whose optional fields are what the attribute's
      bits announce. */
  lemma ProperExactlyWhen(a: Area, t: nat, l: nat, r: nat)
    requires t <= 1 && l <= 1 && a.attribute == t + 2 * l + 4 * r
    requires a.shape.Route? ==> forall i :: 0 <= i < |a.shape.points| ==> ProperPoint(a.shape.points[i])
    ensures ProperArea(a) <==>
              && (a.period.Some? <==> t == 1) && (a.speed.Some? <==> l == 1 && !a.shape.Route?)
              && (a.period.Some? ==> |a.period.value.start| == 6 && |a.period.value.end| == 6)
              && (a.shape.Polygon? ==> |a.shape.corners| < 0x1_0000) && (a.shape.Route? ==> |a.shape.points| < 0x1_0000)
  {
    LowBits(a.attribute, t, l, r);
  }

  lemma ProperPointExactlyWhen(p: Point, t: nat, l: nat, r: nat)
    requires t <= 1 && l <= 1 && p.attribute == t + 2 * l + 4 * r
    ensures ProperPoint(p) <==> (p.driving.Some? <==> t == 1) && (p.speed.Some? <==> l == 1)
  {
    LowBits(p.attribute, t, l, r);
  }
}
