/** The parameter file: one line for each parameter, "%04X:%s;\n", read back with
    "%x:%[^;]".  A std::map is given by its items in the order of its walk. */
module ParameterFile {
  import opened Bytes
  import opened ParameterDialogue
  import opened Parameters
  import opened Text

  // ---- Writing ----------------------------------------------------------------------

  function Zeroes(n: nat): (s: seq<Byte>)
    ensures |s| == n && forall i :: 0 <= i < n ==> s[i] == 0x30
  {
    seq(n, _ => 0x30)
  }

  /** %04X */
  function HexPadded(n: nat): (s: seq<Byte>)
    ensures |s| > 0
  {
    var p := Print(n, 16, true);
    Zeroes(if |p| < 4 then 4 - |p| else 0) + p
  }

  function Line(item: Item): seq<Byte> {
    HexPadded(item.id) + [COLON] + CString(item.text) + [SEMICOLON, NEWLINE]
  }

  function FileText(items: seq<Item>): seq<Byte> {
    if items == [] then [] else FileText(items[..|items| - 1]) + Line(items[|items| - 1])
  }

  /** Two lines: "0001:60;" and, of an id of five digits and no text, "1F0A3:;". */
  lemma SampleLines()
    ensures Line(Item(0x0001, [0x36, 0x30])) == [0x30, 0x30, 0x30, 0x31, 0x3A, 0x36, 0x30, 0x3B, 0x0A]
    ensures Line(Item(0x1F0A3, [])) == [0x31, 0x46, 0x30, 0x41, 0x33, 0x3A, 0x3B, 0x0A]
  {
    assert Zeroes(3) == [0x30, 0x30, 0x30];
    assert Print(0x1F, 16, true) == [0x31, 0x46];
    assert Print(0x1F0, 16, true) == [0x31, 0x46, 0x30];
    assert Print(0x1F0A, 16, true) == [0x31, 0x46, 0x30, 0x41];
    assert Print(0x1F0A3, 16, true) == [0x31, 0x46, 0x30, 0x41, 0x33];
    var text: Value := [0x36, 0x30];
    CStringWhole(text, []);
    assert text + [] == text;
  }

  /** WriteTerminalParameterToFile; nothing is written for an empty map. */
  method WriteFile(items: seq<Item>) returns (retval: int, file: seq<Byte>)
    ensures retval == if items == [] then -1 else 0
    ensures file == FileText(items)
  {
    hide Line;
    file := [];
    if items == [] {
      return -1, [];
    }
    for i := 0 to |items|
      invariant file == FileText(items[..i])
    {
      file := file + Line(items[i]);
      assert items[..i + 1][..i] == items[..i];
    }
    assert items[..|items|] == items;
    retval := 0;
  }

  // ---- Reading ----------------------------------------------------------------------

  /** The id and the text sscanf finds in a line; the id of the line before stays when there
      is no number, and the text is empty when no colon follows. */
  function Scanned(line: seq<Byte>, last: DWord): (DWord, Value) {
    var s := CString(line);
    if s == [] || DigitValue(s[0]) >= 16 then (last, [])
    else
      var (n, rest) := Scan(0, s, 16);
      (n % 0x1_0000_0000, if rest != [] && rest[0] == COLON then Before(rest[1..], SEMICOLON) else [])
  }

  /** Lines the writer does not write: without a number the id of the line before is used again,
      without a colon or behind another character the text is empty, and a text goes up to its
      first semicolon. */
  lemma OtherLines(last: DWord, c: Byte)
    ensures DigitValue(c) >= 16 ==> Scanned([c, 0x3A, 0x36], last) == (last, [])
    ensures Scanned([], last) == (last, []) && Scanned([0x41, 0x42], last) == (0xAB, [])
    ensures Scanned([0x61, 0x20, 0x3A, 0x36], last) == (0xA, [])
    ensures Scanned([0x61, 0x3A, 0x36, 0x3B, 0x37], last) == (0xA, [0x36])
    ensures Scanned([0x61, 0x3A, 0x36, 0x00, 0x37], last) == (0xA, [0x36])
  {
    OtherTexts();
    assert [c, 0x3A, 0x36][0] == c;
    assert Scan(0, [0x41, 0x42], 16) == Scan(0xA, [0x42], 16) == Scan(0xAB, [], 16);
    assert Scan(0, [0x61, 0x20, 0x3A, 0x36], 16) == Scan(0xA, [0x20, 0x3A, 0x36], 16);
    assert Scan(0, [0x61, 0x3A, 0x36, 0x3B, 0x37], 16) == Scan(0xA, [0x3A, 0x36, 0x3B, 0x37], 16);
    assert Scan(0, [0x61, 0x3A, 0x36], 16) == Scan(0xA, [0x3A, 0x36], 16);
  }

  lemma OtherTexts()
    ensures CString([0x41, 0x42]) == [0x41, 0x42] && CString([0x61, 0x20, 0x3A, 0x36]) == [0x61, 0x20, 0x3A, 0x36]
    ensures CString([0x61, 0x3A, 0x36, 0x3B, 0x37]) == [0x61, 0x3A, 0x36, 0x3B, 0x37]
    ensures CString([0x61, 0x3A, 0x36, 0x00, 0x37]) == [0x61, 0x3A, 0x36]
    ensures Before([0x36, 0x3B, 0x37], SEMICOLON) == [0x36] == Before([0x36], SEMICOLON)
  {
    hide CString;
    NoZero([0x41, 0x42]);
    NoZero([0x61, 0x20, 0x3A, 0x36]);
    NoZero([0x61, 0x3A, 0x36, 0x3B, 0x37]);
    var front: Value := [0x61, 0x3A, 0x36];
    CStringWhole(front, [0x00, 0x37]);
    assert front + [0x00, 0x37] == [0x61, 0x3A, 0x36, 0x00, 0x37];
  }

  lemma NoZero(s: Value)
    requires 0 !in s
    ensures CString(s) == s
  {
    CStringWhole(s, []);
    assert s + [] == s;
  }

  /** The reading loop; a map insert keeps the first text of an id. */
  function ReadLines(acc: map<DWord, Value>, last: DWord, file: seq<Byte>): map<DWord, Value>
    decreases |file|
  {
    var line := Before(file, NEWLINE);
    if line == [] then acc
    else
      var id, text := Scanned(line, last).0, Scanned(line, last).1;
      ReadLines(if id in acc then acc else acc[id := text], id, Rest(file, |line|))
  }

  /** An empty line ends the reading, whatever follows it; the last line needs no newline. */
  lemma WhereReadingEnds(acc: map<DWord, Value>, last: DWord, line: seq<Byte>, file: seq<Byte>)
    ensures ReadLines(acc, last, [0x0A] + file) == acc
    ensures line != [] && 0x0A !in line ==>
              var (id, text) := Scanned(line, last);
              ReadLines(acc, last, line) == if id in acc then acc else acc[id := text]
  {
    hide Scanned;
    assert Before([0x0A] + file, NEWLINE) == [];
    if line != [] && 0x0A !in line {
      assert Before(line, NEWLINE) == line;
      assert Before([], NEWLINE) == [];
    }
  }

  method ReadFile(file: seq<Byte>, known: map<DWord, Value>, uninitialised: DWord)
    returns (retval: int, m: map<DWord, Value>)
    ensures m == ReadLines(known, uninitialised, file)
    ensures retval == if m == map[] then -1 else 0
  {
    hide Scanned;
    m := known;
    var rest, id: DWord := file, uninitialised;
    while rest != []
      invariant ReadLines(m, id, rest) == ReadLines(known, uninitialised, file)
      decreases |rest|
    {
      var line := Before(rest, NEWLINE);
      if line == [] {
        break;
      }
      var text: Value;
      id, text := Scanned(line, id).0, Scanned(line, id).1;
      m := if id in m then m else m[id := text];
      rest := Rest(rest, |line|);
    }
    retval := if m == map[] then -1 else 0;
  }

  // ---- Round trip -------------------------------------------------------------------

  /** A text the line format can carry. */
  predicate Plain(text: Value) {
    0 !in text && NEWLINE !in text && SEMICOLON !in text
  }

  lemma {:induction false} ScanZeroes(n: nat, t: seq<Byte>)
    ensures Scan(0, Zeroes(n) + t, 16) == Scan(0, t, 16)
  {
    if n == 0 {
      assert Zeroes(0) + t == t;
    } else {
      assert (Zeroes(n) + t)[1..] == Zeroes(n - 1) + t;
      ScanZeroes(n - 1, t);
    }
  }

  lemma HexPaddedIs(n: nat, t: seq<Byte>)
    requires t == [] || DigitValue(t[0]) >= 16
    ensures Scan(0, HexPadded(n) + t, 16) == (n, t)
    ensures forall i :: 0 <= i < |HexPadded(n)| ==> DigitValue(HexPadded(n)[i]) < 16
  {
    hide Print, Scan;
    var p := Print(n, 16, true);
    var z := Zeroes(if |p| < 4 then 4 - |p| else 0);
    PrintedDigits(n, 16, true);
    ReadsBack(n, 16, true, t);
    ScanZeroes(|z|, p + t);
    assert z + p + t == z + (p + t);
  }

  /** A line is read back as the item it was written for, whatever follows it. */
  lemma LineReadsBack(item: Item, last: DWord, file: seq<Byte>)
    requires Plain(item.text)
    ensures var line := Before(Line(item) + file, NEWLINE);
            line != [] && Scanned(line, last) == (item.id, item.text) && Rest(Line(item) + file, |line|) == file
  {
    hide HexPadded, Scan, Before, CString;
    var h := HexPadded(item.id);
    var t := [COLON] + item.text + [SEMICOLON];
    CStringWhole(item.text, []);
    assert item.text + [] == item.text;
    HexPaddedIs(item.id, t);
    var line := h + t;
    assert forall i :: 0 <= i < |line| ==> line[i] != NEWLINE && line[i] != 0;
    assert Line(item) + file == line + [NEWLINE] + file;
    BeforeEnds(line, NEWLINE, file);
    CStringWhole(line, []);
    assert line + [] == line;
    assert t[1..] == item.text + [SEMICOLON] + [];
    BeforeEnds(item.text, SEMICOLON, []);
    assert (line + [NEWLINE] + file)[|line| + 1..] == file;
  }

  lemma {:induction false} FileFront(items: seq<Item>)
    requires items != []
    ensures FileText(items) == Line(items[0]) + FileText(items[1..])
    decreases |items|
  {
    hide Line;
    var n := |items| - 1;
    var front, middle := items[..n], items[1..];
    if n == 0 {
      assert front == [] && middle == [];
      assert FileText([]) + Line(items[0]) == Line(items[0]) + FileText([]);
    } else {
      FileFront(front);
      assert front[1..] == middle[..n - 1] && middle[n - 1] == items[n];
      assert Line(items[0]) + FileText(middle[..n - 1]) + Line(items[n])
          == Line(items[0]) + (FileText(middle[..n - 1]) + Line(items[n]));
    }
  }

  /** Reading a written file collects its items in order. */
  lemma {:induction false} FileReadsBack(items: seq<Item>, acc: map<DWord, Value>, last: DWord)
    requires forall i :: 0 <= i < |items| ==> Plain(items[i].text)
    ensures ReadLines(acc, last, FileText(items)) == Collected(acc, items)
    decreases |items|
  {
    hide Line, Scanned, Before, Plain;
    if items != [] {
      FileFront(items);
      LineReadsBack(items[0], last, FileText(items[1..]));
      FileReadsBack(items[1..], if items[0].id in acc then acc else acc[items[0].id := items[0].text], items[0].id);
    } else {
      NoLines(acc, last);
    }
  }

  lemma NoLines(acc: map<DWord, Value>, last: DWord)
    ensures ReadLines(acc, last, FileText([])) == acc
  {
  }

  /** Whatever a file says, no text read from it holds a zero, a newline or a semicolon. */
  lemma {:induction false} OnlyPlainIsRead(acc: map<DWord, Value>, last: DWord, file: seq<Byte>)
    requires forall id :: id in acc ==> Plain(acc[id])
    ensures var m := ReadLines(acc, last, file); forall id :: id in m ==> Plain(m[id])
    decreases |file|
  {
    hide Scanned, Plain;
    var line := Before(file, NEWLINE);
    if line != [] {
      var id, text := Scanned(line, last).0, Scanned(line, last).1;
      ScannedIsPlain(line, last);
      var acc1 := if id in acc then acc else acc[id := text];
      OnlyPlainIsRead(acc1, id, Rest(file, |line|));
      assert ReadLines(acc, last, file) == ReadLines(acc1, id, Rest(file, |line|));
    } else {
      assert ReadLines(acc, last, file) == acc;
    }
  }

  lemma ScannedIsPlain(line: seq<Byte>, last: DWord)
    requires NEWLINE !in line
    ensures Plain(Scanned(line, last).1)
  {
    hide Scan, CString, Before;
    var s := CString(line);
    CStringParts(line);
    if s != [] && DigitValue(s[0]) < 16 {
      var (n, rest) := Scan(0, s, 16);
      ScanRest(0, s, 16);
      if rest != [] && rest[0] == COLON {
        BeforeIsPlain(rest[1..]);
      }
    }
  }

  lemma BeforeIsPlain(rest: seq<Byte>)
    requires 0 !in rest && NEWLINE !in rest
    ensures Plain(Before(rest, SEMICOLON))
  {
    hide Before;
    var p := Before(rest, SEMICOLON);
    assert forall i :: 0 <= i < |p| ==> p[i] == rest[i];
  }

  lemma {:induction false} CStringParts(s: seq<Byte>)
    ensures 0 !in CString(s) && forall c :: c in CString(s) ==> c in s
  {
    if s != [] && s[0] != 0 {
      CStringParts(s[1..]);
    }
  }

  lemma {:induction false} ScanRest(acc: nat, s: seq<Byte>, base: nat)
    requires 2 <= base <= 16
    ensures var r := Scan(acc, s, base).1; |r| <= |s| && r == s[|s| - |r|..]
    decreases |s|
  {
    if s != [] && DigitValue(s[0]) < base {
      ScanRest(acc * base + DigitValue(s[0]), s[1..], base);
    }
  }

  /** Writing the parameters and reading them again gives the same map exactly when every
      text is free of the three bytes the format cannot carry. */
  lemma FileRoundTripExactlyWhen(items: seq<Item>, uninitialised: DWord)
    requires Distinct(items) && forall i :: 0 <= i < |items| ==> |items[i].text| <= 255
    ensures ReadLines(map[], uninitialised, FileText(items)) == Collected(map[], items)
       <==> forall i :: 0 <= i < |items| ==> Plain(items[i].text)
  {
    hide ReadLines, FileText, Collected, Plain;
    if forall i :: 0 <= i < |items| ==> Plain(items[i].text) {
      FileReadsBack(items, map[], uninitialised);
    } else {
      OnlyPlainIsRead(map[], uninitialised, FileText(items));
      CollectedIs(map[], items);
    }
  }
}
