/** Reading the file of areas and routes: lines, fields, and the parser of each kind.  Every
    field goes through one variable, which sscanf leaves as it was when a field does not start
    with a digit; `last` is its value. */
module AreaParser {
  import opened AreaFile
  import opened Areas
  import opened Bcd
  import opened Bytes
  import opened Text
  import opened Wrappers

  /** The formats of the route parser: as they stand, or with the width and the driving times
      read in decimal and the speed read when its own bit says so. */
  datatype Format = AsWritten | AsMeant

  /** A value, the fields left behind it and the variable's last value; or what the source
      leaves undefined: an iterator that runs past the last field, a variable that was never
      set, or a time that is not twelve digits. */
  datatype Parsed<+T> = Parsed(value: T, rest: seq<Token>, last: DWord) | RanOut

  predicate Numeric(t: Token, base: nat)
    requires 2 <= base <= 16
  {
    t != [] && DigitValue(t[0]) < base
  }

  function Number(t: Token, base: nat, last: DWord): DWord
    requires 2 <= base <= 16
  {
    if Numeric(t, base) then Scan(0, t, base).0 % 0x1_0000_0000 else last
  }

  function CoordinateAt(t: seq<Token>, i: nat, last: DWord): Coordinate
    requires i + 2 <= |t|
  {
    var latitude := Number(t[i], 10, last);
    Coordinate(latitude, Number(t[i + 1], 10, latitude))
  }

  function SpeedAt(t: seq<Token>, i: nat, there: bool, last: DWord): (speed: Option<Speed>)
    requires i + TwoIf(there) <= |t|
    ensures speed.Some? == there
  {
    if there then
      var max := Number(t[i], 10, last);
      Some(Speed(max % 0x1_0000, Number(t[i + 1], 10, max) % 0x100))
    else None
  }

  /** The variable after two fields, if they are there. */
  function AfterTwo(t: seq<Token>, i: nat, there: bool, base: nat, last: DWord): DWord
    requires i + TwoIf(there) <= |t| && 2 <= base <= 16
  {
    if there then Number(t[i + 1], base, Number(t[i], base, last)) else last
  }

  function TwoIf(there: bool): nat { if there then 2 else 0 }

  function DrivingAt(t: seq<Token>, i: nat, there: bool, base: nat, last: DWord): Option<Driving>
    requires i + TwoIf(there) <= |t| && 2 <= base <= 16
  {
    if there then
      var max := Number(t[i], base, last);
      Some(Driving(max % 0x1_0000, Number(t[i + 1], base, max) % 0x1_0000))
    else None
  }

  function WidthBase(format: Format): nat { if format == AsMeant then 10 else 16 }

  /** The bit that decides whether a point's speed is read. */
  predicate SpeedBit(format: Format, attribute: Byte) {
    if format == AsMeant then Limited(attribute) else Timed(attribute)
  }

  function PointLength(format: Format, attribute: Byte): nat {
    6 + TwoIf(Timed(attribute)) + TwoIf(SpeedBit(format, attribute))
  }

  /** The variable after the six fields every point has. */
  function AttributeAt(format: Format, t: seq<Token>, last: DWord): DWord
    requires |t| >= 6
  {
    Number(t[5], 16, WidthAt(format, t, last))
  }

  function WidthAt(format: Format, t: seq<Token>, last: DWord): DWord
    requires |t| >= 6
  {
    Number(t[4], WidthBase(format), CoordinateAt(t, 2, SectionAt(t, last)).longitude)
  }

  function SectionAt(t: seq<Token>, last: DWord): DWord
    requires |t| >= 6
  {
    Number(t[1], 16, Number(t[0], 16, last))
  }

  function ParsePoint(format: Format, t: seq<Token>, last: DWord): Parsed<Point> {
    if |t| < 6 then RanOut
    else
      var u := AttributeAt(format, t, last);
      var attribute := u % 0x100;
      if |t| < PointLength(format, attribute) then RanOut
      else
        var section := SectionAt(t, last);
        var d := AfterTwo(t, 6, Timed(attribute), WidthBase(format), u);
        var at := 6 + TwoIf(Timed(attribute));
        Parsed.Parsed(
          Point(Number(t[0], 16, last), section, CoordinateAt(t, 2, section), WidthAt(format, t, last) % 0x100, attribute,
                DrivingAt(t, 6, Timed(attribute), WidthBase(format), u), SpeedAt(t, at, SpeedBit(format, attribute), d)),
          t[PointLength(format, attribute)..],
          AfterTwo(t, at, SpeedBit(format, attribute), 10, d))
  }

  function ParsePoints(format: Format, t: seq<Token>, last: DWord, count: nat): Parsed<seq<Point>>
    decreases count
  {
    if count == 0 then Parsed.Parsed([], t, last)
    else
      var first := ParsePoint(format, t, last);
      if first.RanOut? then RanOut
      else
        var others := ParsePoints(format, first.rest, first.last, count - 1);
        if others.RanOut? then RanOut else Parsed.Parsed([first.value] + others.value, others.rest, others.last)
  }

  function ParseCorners(t: seq<Token>, last: DWord, count: nat): Parsed<seq<Coordinate>>
    decreases count
  {
    if count == 0 then Parsed.Parsed([], t, last)
    else if |t| < 2 then RanOut
    else
      var c := CoordinateAt(t, 0, last);
      var others := ParseCorners(t[2..], c.longitude, count - 1);
      if others.RanOut? then RanOut else Parsed.Parsed([c] + others.value, others.rest, others.last)
  }

  /** The variable after the fixed part of a shape. */
  function AfterFixed(kind: Kind, t: seq<Token>, from: nat, last: DWord): DWord
    requires from + FixedCount(kind) <= |t|
  {
    match kind
    case Circles => Number(t[from + 2], 10, CoordinateAt(t, from, last).longitude)
    case Rectangles => CoordinateAt(t, from + 2, CoordinateAt(t, from, last).longitude).longitude
    case Polygons => last
    case Routes => last
  }

  /** The shape: its fixed part at from, its list in the fields behind. */
  function ParseShape(kind: Kind, format: Format, t: seq<Token>, from: nat, last: DWord, behind: seq<Token>, later: DWord)
    : Parsed<Shape>
    requires from + FixedCount(kind) <= |t|
  {
    match kind
    case Circles =>
      var center := CoordinateAt(t, from, last);
      Parsed.Parsed(Circle(center, Number(t[from + 2], 10, center.longitude)), behind, later)
    case Rectangles =>
      var upperLeft := CoordinateAt(t, from, last);
      Parsed.Parsed(Rectangle(upperLeft, CoordinateAt(t, from + 2, upperLeft.longitude)), behind, later)
    case Polygons =>
      if behind == [] then RanOut
      else
        var count := Number(behind[0], 10, later);
        var corners := ParseCorners(behind[1..], count, count % 0x1_0000);
        if corners.RanOut? then RanOut else Parsed.Parsed(Polygon(corners.value), corners.rest, corners.last)
    case Routes =>
      if behind == [] then RanOut
      else
        var count := Number(behind[0], 10, later);
        var points := ParsePoints(format, behind[1..], count, count % 0x1_0000);
        if points.RanOut? then RanOut else Parsed.Parsed(Route(points.value), points.rest, points.last)
  }

  predicate IsTime(t: Token) { |t| == 12 && Digits(t) }

  /** What a printed time writes: its six bytes and a zero, one more than the parser's array
      holds.  The zero is let pass here; nothing reads it. */
  lemma TimeTakesSeven(t: Token)
    requires IsTime(t)
    ensures |Compress(t) + [0]| == 7
  {
    CompressedIsValid(t);
  }

  /** The fields before the list of the shape are there. */
  predicate FrontThere(kind: Kind, t: seq<Token>, attribute: Word) {
    var p := 2 + FixedCount(kind);
    && |t| >= p + TwoIf(Timed(attribute)) + TwoIf(HasSpeed(kind, attribute))
    && (Timed(attribute) ==> IsTime(t[p]) && IsTime(t[p + 1]))
  }

  function PeriodAt(t: seq<Token>, i: nat, there: bool): Option<Period>
    requires there ==> i + 2 <= |t| && IsTime(t[i]) && IsTime(t[i + 1])
  {
    if there then Some(Period(Compress(t[i]), Compress(t[i + 1]))) else None
  }

  /** The Prepara functions; the fields they leave over make the result -1. */
  function ParseArea(kind: Kind, format: Format, t: seq<Token>): Parsed<Area> {
    if |t| < 2 || !Numeric(t[0], 16) then RanOut
    else
      var id := Number(t[0], 16, 0);
      var u := Number(t[1], 16, id);
      var attribute := u % 0x1_0000;
      if !FrontThere(kind, t, attribute) then RanOut
      else
        var p := 2 + FixedCount(kind);
        var s := p + TwoIf(Timed(attribute));
        var v := AfterFixed(kind, t, 2, u);
        var w := AfterTwo(t, s, HasSpeed(kind, attribute), 10, v);
        var shape := ParseShape(kind, format, t, 2, u, t[s + TwoIf(HasSpeed(kind, attribute))..], w);
        if shape.RanOut? then RanOut
        else
          Parsed.Parsed(
            Area(id, attribute, shape.value, PeriodAt(t, p, Timed(attribute)),
                 SpeedAt(t, s, HasSpeed(kind, attribute), v)),
            shape.rest, shape.last)
  }

  // ---- Lines and fields -------------------------------------------------------------

  /** The fields strtok_r finds: those that are not empty. */
  function Fields(s: seq<Byte>): seq<Token>
    decreases |s|
  {
    if s == [] then []
    else
      var f := Before(s, SEMICOLON);
      (if f == [] then [] else [f]) + Fields(Rest(s, |f|))
  }

  /** The four lists of a terminal. */
  datatype Lists = Lists(circles: seq<Area>, rectangles: seq<Area>, polygons: seq<Area>, routes: seq<Area>)

  function Push(l: Lists, a: Area): Lists {
    match KindOf(a.shape)
    case Circles => l.(circles := l.circles + [a])
    case Rectangles => l.(rectangles := l.rectangles + [a])
    case Polygons => l.(polygons := l.polygons + [a])
    case Routes => l.(routes := l.routes + [a])
  }

  function KindAt(n: DWord): Option<Kind> {
    if n == 1 then Some(Circles)
    else if n == 2 then Some(Rectangles)
    else if n == 3 then Some(Polygons)
    else if n == 4 then Some(Routes)
    else None
  }

  /** What char line[1024] holds of a line and its terminating zero. */
  const MAX_LINE := 1023

  /** The lists and the variable that the kind of a line is read into. */
  datatype Reading = Reading(lists: Lists, last: Option<DWord>)

  /** One line; whether fields are left over is not looked at.  None where the behaviour is
      undefined: a line longer than the array, one without fields, a kind that was never set. */
  function ReadLine(format: Format, g: Reading, line: seq<Byte>): Option<Reading> {
    if |line| > MAX_LINE then None
    else
      var t := Fields(line);
      if t == [] || (!Numeric(t[0], 10) && g.last.None?) then None
      else
        var n := Number(t[0], 10, if g.last.Some? then g.last.value else 0);
        var kind := KindAt(n);
        if kind.None? then Some(Reading(g.lists, Some(n)))
        else
          var a := ParseArea(kind.value, format, t[1..]);
          if a.RanOut? then None else Some(Reading(Push(g.lists, a.value), Some(n)))
  }

  /** The file from here on. */
  function ReadLines(format: Format, g: Reading, file: seq<Byte>): Option<Lists>
    decreases |file|
  {
    if file == [] then Some(g.lists)
    else
      var line := Before(file, NEWLINE);
      var g1 := ReadLine(format, g, line);
      if g1.None? then None else ReadLines(format, g1.value, Rest(file, |line|))
  }

  // ---- Fields that do not hold what is looked for ------------------------------------

  /** The variable after these fields, scanned one after the other. */
  function Through(t: seq<Token>, bases: seq<nat>, last: DWord): DWord
    requires |t| == |bases| && forall i :: 0 <= i < |bases| ==> 2 <= bases[i] <= 16
  {
    if t == [] then last else Through(t[1..], bases[1..], Number(t[0], bases[0], last))
  }

  /** A field without a number in front leaves the variable as it was; one that goes on behind its
      number, or is larger than 32 bits, is cut. */
  lemma OtherFields(c: Byte, n: nat, last: DWord)
    ensures Number([], 10, last) == last && (DigitValue(c) >= 10 ==> Number([c, 0x31], 10, last) == last)
    ensures Number([0x31, 0x32, 0x61], 10, last) == 12 && Number([0x31, 0x32, 0x61], 16, last) == 0x12A
    ensures Number(Hex(n), 16, last) == n % 0x1_0000_0000
  {
    hide Scan, Print;
    assert [c, 0x31][0] == c;
    ScanTwelve();
    HexReadsBack(n);
    PrintedDigits(n, 16, false);
  }

  lemma ScanTwelve()
    ensures Scan(0, [0x31, 0x32, 0x61], 10).0 == 12 && Scan(0, [0x31, 0x32, 0x61], 16).0 == 0x12A
  {
    assert Scan(0, [0x31, 0x32, 0x61], 10) == Scan(1, [0x32, 0x61], 10) == Scan(12, [0x61], 10);
    assert Scan(0, [0x31, 0x32, 0x61], 16) == Scan(1, [0x32, 0x61], 16) == Scan(0x12, [0x61], 16) == Scan(0x12A, [], 16);
  }

  /** The fields of a point go through the variable in order: ids in hexadecimal, coordinates in
      decimal, the width in the format's base and the attribute in hexadecimal. */
  lemma PointThrough(format: Format, t: seq<Token>, last: DWord)
    requires |t| >= 6
    ensures var w := if format == AsMeant then 10 else 16;
            && SectionAt(t, last) == Through([t[0], t[1]], [16, 16], last)
            && CoordinateAt(t, 2, SectionAt(t, last)).latitude == Through([t[0], t[1], t[2]], [16, 16, 10], last)
            && CoordinateAt(t, 2, SectionAt(t, last)).longitude
               == Through([t[0], t[1], t[2], t[3]], [16, 16, 10, 10], last)
            && WidthAt(format, t, last) == Through([t[0], t[1], t[2], t[3], t[4]], [16, 16, 10, 10, w], last)
            && AttributeAt(format, t, last)
               == Through([t[0], t[1], t[2], t[3], t[4], t[5]], [16, 16, 10, 10, w, 16], last)
  {
    hide Number, Through;
    FourThrough(t[0], 16, t[1], 16, t[2], 10, t[3], 10, last);
    var w: nat, c := WidthBase(format), CoordinateAt(t, 2, SectionAt(t, last)).longitude;
    TwoMore([t[0], t[1], t[2], t[3]], [16, 16, 10, 10], t[4], w, t[5], 16, last);
  }

  lemma TwoMore(t: seq<Token>, bases: seq<nat>, a: Token, x: nat, b: Token, y: nat, last: DWord)
    requires |t| == |bases| == 4 && 2 <= x <= 16 && 2 <= y <= 16 && forall i :: 0 <= i < 4 ==> 2 <= bases[i] <= 16
    ensures var n := Number(a, x, Through(t, bases, last));
            Through([t[0], t[1], t[2], t[3], a], [bases[0], bases[1], bases[2], bases[3], x], last) == n
            && Through([t[0], t[1], t[2], t[3], a, b], [bases[0], bases[1], bases[2], bases[3], x, y], last)
               == Number(b, y, n)
  {
    hide Number, Through;
    Next(t, bases, a, x, last);
    Next(t + [a], bases + [x], b, y, last);
    assert t + [a] == [t[0], t[1], t[2], t[3], a];
    assert bases + [x] == [bases[0], bases[1], bases[2], bases[3], x];
    assert t + [a] + [b] == [t[0], t[1], t[2], t[3], a, b];
    assert bases + [x] + [y] == [bases[0], bases[1], bases[2], bases[3], x, y];
  }

  lemma FourThrough(a: Token, w: nat, b: Token, x: nat, c: Token, y: nat, d: Token, z: nat, last: DWord)
    requires 2 <= w <= 16 && 2 <= x <= 16 && 2 <= y <= 16 && 2 <= z <= 16
    ensures var n := Number(b, x, Number(a, w, last));
            Through([a, b], [w, x], last) == n && Through([a, b, c], [w, x, y], last) == Number(c, y, n)
            && Through([a, b, c, d], [w, x, y, z], last) == Number(d, z, Number(c, y, n))
  {
    hide Number, Through;
    NothingThrough(last);
    Next([], [], a, w, last);
    assert [] + [a] == [a] && [] + [w] == [w];
    Next([a], [w], b, x, last);
    assert [a] + [b] == [a, b] && [w] + [x] == [w, x];
    Next([a, b], [w, x], c, y, last);
    assert [a, b] + [c] == [a, b, c] && [w, x] + [y] == [w, x, y];
    Next([a, b, c], [w, x, y], d, z, last);
    assert [a, b, c] + [d] == [a, b, c, d] && [w, x, y] + [z] == [w, x, y, z];
  }

  lemma NothingThrough(last: DWord)
    ensures Through([], [], last) == last
  {
  }

  lemma {:induction false} Next(t: seq<Token>, bases: seq<nat>, field: Token, base: nat, last: DWord)
    requires |t| == |bases| && 2 <= base <= 16 && forall i :: 0 <= i < |bases| ==> 2 <= bases[i] <= 16
    ensures Through(t + [field], bases + [base], last) == Number(field, base, Through(t, bases, last))
    decreases |t|
  {
    hide Number;
    if t == [] {
      assert (t + [field])[1..] == [] && t + [field] == [field];
    } else {
      Next(t[1..], bases[1..], field, base, Number(t[0], bases[0], last));
      assert (t + [field])[1..] == t[1..] + [field] && (bases + [base])[1..] == bases[1..] + [base];
    }
  }

  /** So do the fixed fields of a circle and a rectangle, and any two fields. */
  lemma FixedThrough(a: Token, b: Token, c: Token, d: Token, last: DWord)
    ensures AfterFixed(Circles, [a, b, c], 0, last) == Through([a, b, c], [10, 10, 10], last)
    ensures AfterFixed(Rectangles, [a, b, c, d], 0, last) == Through([a, b, c, d], [10, 10, 10, 10], last)
    ensures AfterTwo([a, b], 0, true, 10, last) == Through([a, b], [10, 10], last)
    ensures AfterFixed(Polygons, [a], 0, last) == last == AfterFixed(Routes, [a], 0, last)
  {
    hide Number, Through;
    FourThrough(a, 10, b, 10, c, 10, d, 10, last);
  }

  /** Empty fields are passed over, and the last field needs no semicolon. */
  lemma OddFields(s: seq<Byte>)
    ensures Fields([0x3B] + s) == Fields(s)
    ensures s != [] && 0x3B !in s ==> Fields(s) == [s]
  {
    hide Before;
    var t := [0x3B] + s;
    assert t[0] == 0x3B && t[1..] == s;
    assert Before(t, SEMICOLON) == [] by { StartsWith(s); }
    assert [] + Fields(s) == Fields(s);
    if s != [] && 0x3B !in s {
      assert Before(s, SEMICOLON) == s;
      assert Fields([]) == [];
    }
  }

  lemma StartsWith(s: seq<Byte>)
    ensures Before([0x3B] + s, SEMICOLON) == []
  {
  }

  // ---- The loops --------------------------------------------------------------------

  method ReadCorners(t: seq<Token>, last: DWord, count: nat) returns (r: Parsed<seq<Coordinate>>)
    ensures r == ParseCorners(t, last, count)
  {
    hide CoordinateAt;
    var list: seq<Coordinate>, rest, u := [], t, last;
    for i := 0 to count
      invariant AndThen(list, ParseCorners(rest, u, count - i)) == ParseCorners(t, last, count)
    {
      if |rest| < 2 {
        return RanOut;
      }
      var c := CoordinateAt(rest, 0, u);
      Later(list, c, ParseCorners(rest[2..], c.longitude, count - i - 1));
      list, rest, u := list + [c], rest[2..], c.longitude;
    }
    assert list + [] == list;
    r := Parsed.Parsed(list, rest, u);
  }

  method ReadPoints(format: Format, t: seq<Token>, last: DWord, count: nat) returns (r: Parsed<seq<Point>>)
    ensures r == ParsePoints(format, t, last, count)
  {
    hide ParsePoint;
    var list: seq<Point>, rest, u := [], t, last;
    for i := 0 to count
      invariant AndThen(list, ParsePoints(format, rest, u, count - i)) == ParsePoints(format, t, last, count)
    {
      var point := ParsePoint(format, rest, u);
      if point.RanOut? {
        return RanOut;
      }
      Later(list, point.value, ParsePoints(format, point.rest, point.last, count - i - 1));
      list, rest, u := list + [point.value], point.rest, point.last;
    }
    assert list + [] == list;
    r := Parsed.Parsed(list, rest, u);
  }

  /** What has been parsed, followed by what is still to be parsed. */
  function AndThen<T>(done: seq<T>, others: Parsed<seq<T>>): (all: Parsed<seq<T>>)
    ensures done == [] ==> all == others
  {
    if others.RanOut? then RanOut
    else
      assert done == [] ==> done + others.value == others.value;
      Parsed.Parsed(done + others.value, others.rest, others.last)
  }

  lemma Later<T>(done: seq<T>, next: T, others: Parsed<seq<T>>)
    ensures AndThen(done, if others.RanOut? then RanOut
                          else Parsed.Parsed([next] + others.value, others.rest, others.last))
         == AndThen(done + [next], others)
  {
    if others.Parsed? {
      assert done + ([next] + others.value) == done + [next] + others.value;
    }
  }

  /** The strtok_r loop. */
  method SplitFields(line: seq<Byte>) returns (fields: seq<Token>)
    ensures fields == Fields(line)
  {
    hide Fields;
    fields := [];
    var rest := line;
    assert [] + Fields(line) == Fields(line);
    while rest != []
      invariant fields + Fields(rest) == Fields(line)
      decreases |rest|
    {
      var f := Before(rest, SEMICOLON);
      FieldsNext(fields, rest);
      if f != [] {
        fields := fields + [f];
      }
      rest := Rest(rest, |f|);
    }
    NoFields(fields);
  }

  lemma FieldsNext(done: seq<Token>, rest: seq<Byte>)
    requires rest != []
    ensures var f := Before(rest, SEMICOLON);
            done + Fields(rest) == (if f == [] then done else done + [f]) + Fields(Rest(rest, |f|))
  {
    hide Before, Rest;
    var f := Before(rest, SEMICOLON);
    var others := Fields(Rest(rest, |f|));
    assert Fields(rest) == (if f == [] then [] else [f]) + others;
    if f == [] {
      assert [] + others == others;
    } else {
      assert done + ([f] + others) == done + [f] + others;
    }
  }

  lemma NoFields(done: seq<Token>)
    ensures done + Fields([]) == done
  {
  }

  method ParseRemaining(kind: Kind, format: Format, t: seq<Token>) returns (r: Parsed<Area>)
    ensures r == ParseArea(kind, format, t)
  {
    hide Number, Numeric, CoordinateAt, SpeedAt, AfterTwo, AfterFixed, Digits, Compress, Timed, HasSpeed, ParseShape;
    if |t| < 2 || !Numeric(t[0], 16) {
      return RanOut;
    }
    var id := Number(t[0], 16, 0);
    var u := Number(t[1], 16, id);
    var attribute := u % 0x1_0000;
    if !FrontThere(kind, t, attribute) {
      return RanOut;
    }
    var at := 2 + FixedCount(kind);
    var period: Option<Period> := None;
    if Timed(attribute) {
      var start := ReadTime(t[at]);
      var end := ReadTime(t[at + 1]);
      period := Some(Period(start, end));
      at := at + 2;
    }
    var v := AfterFixed(kind, t, 2, u);
    var speed := SpeedAt(t, at, HasSpeed(kind, attribute), v);
    var w := AfterTwo(t, at, HasSpeed(kind, attribute), 10, v);
    at := at + TwoIf(HasSpeed(kind, attribute));
    var shape := ReadShape(kind, format, t, u, t[at..], w);
    if shape.RanOut? {
      return RanOut;
    }
    r := Parsed.Parsed(Area(id, attribute, shape.value, period, speed), shape.rest, shape.last);
  }

  /** The six bytes that are copied out of the array a time is compressed into. */
  method ReadTime(t: Token) returns (time: seq<Byte>)
    requires IsTime(t)
    ensures time == Compress(t)
  {
    hide Compress;
    CompressedIsValid(t);
    time := BcdFromStringCompress(t);
    time := time[..6];
  }

  method ReadShape(kind: Kind, format: Format, t: seq<Token>, last: DWord, behind: seq<Token>, later: DWord)
    returns (r: Parsed<Shape>)
    requires 2 + FixedCount(kind) <= |t|
    ensures r == ParseShape(kind, format, t, 2, last, behind, later)
  {
    hide Number, CoordinateAt, ParseCorners, ParsePoints;
    match kind {
      case Circles =>
        var center := CoordinateAt(t, 2, last);
        r := Parsed.Parsed(Circle(center, Number(t[4], 10, center.longitude)), behind, later);
      case Rectangles =>
        var upperLeft := CoordinateAt(t, 2, last);
        r := Parsed.Parsed(Rectangle(upperLeft, CoordinateAt(t, 4, upperLeft.longitude)), behind, later);
      case Polygons =>
        if behind == [] {
          return RanOut;
        }
        var count := Number(behind[0], 10, later);
        var corners := ReadCorners(behind[1..], count, count % 0x1_0000);
        r := if corners.RanOut? then RanOut else Parsed.Parsed(Polygon(corners.value), corners.rest, corners.last);
      case Routes =>
        if behind == [] {
          return RanOut;
        }
        var count := Number(behind[0], 10, later);
        var points := ReadPoints(format, behind[1..], count, count % 0x1_0000);
        r := if points.RanOut? then RanOut else Parsed.Parsed(Route(points.value), points.rest, points.last);
    }
  }

  const NOTHING := Reading(Lists([], [], [], []), None)

  /** ReadAreaRouteFormFile */
  method ReadFile(file: seq<Byte>) returns (r: Option<Lists>)
    ensures r == ReadLines(AsWritten, NOTHING, file)
  {
    hide ParseArea, Push, Number, Numeric, Fields;
    var g := NOTHING;
    var rest := file;
    while rest != []
      invariant ReadLines(AsWritten, g, rest) == ReadLines(AsWritten, NOTHING, file)
      decreases |rest|
    {
      var line := Before(rest, NEWLINE);
      if |line| > MAX_LINE {
        return None;
      }
      var t := SplitFields(line);
      if t == [] || (!Numeric(t[0], 10) && g.last.None?) {
        return None;
      }
      var n := Number(t[0], 10, if g.last.Some? then g.last.value else 0);
      var kind := KindAt(n);
      if kind.Some? {
        var a := ParseRemaining(kind.value, AsWritten, t[1..]);
        if a.RanOut? {
          return None;
        }
        g := Reading(Push(g.lists, a.value), Some(n));
      } else {
        g := Reading(g.lists, Some(n));
      }
      rest := Rest(rest, |line|);
    }
    r := Some(g.lists);
  }
}
