/** Terminal parameters: typed values kept as text, set over the wire and read back. */
module Parameters {
  import opened Bytes
  import opened Framing
  import opened Messages
  import opened Text
  import opened UpgradeWire
  import opened Wrappers

  const DOWN_SETTERMPARA: Word := 0x8103
  const UP_GETPARARESPONSE: Word := 0x0104
  const SUCCESS: Byte := 0
  const FAILURE: Byte := 1

  type Value = seq<Byte>

  // ---- Types of parameters ----------------------------------------------------------

  datatype Kind = ByteKind | WordKind | DWordKind | StringKind | UnknownKind

  predicate IsByteId(id: DWord) {
    id in {0x0090, 0x0091, 0x0092, 0x0094, 0xF000, 0xF001, 0xF002, 0xF003, 0xF004, 0xF010, 0xF011, 0xF012,
           0xF022, 0xF023, 0xF035, 0xF045, 0xF053}
  }

  predicate IsWordId(id: DWord) {
    id in {0x0101, 0x0103, 0xF021, 0xF031, 0xF041, 0xF051}
  }

  predicate IsDWordId(id: DWord) {
    id in {0x0001, 0x0002, 0x0003, 0x0004, 0x0005, 0x0006, 0x0007, 0x0020, 0x0021, 0x0022, 0x0027, 0x0028, 0x0029,
           0x002C, 0x002D, 0x002E, 0x002F, 0x0030, 0x0050, 0x0051, 0x0052, 0x0053, 0x0054, 0x0055, 0x0093, 0x0095,
           0x0100, 0x0102, 0xF020}
  }

  predicate IsStringId(id: DWord) {
    id in {0x0110, 0xF030, 0xF032, 0xF033, 0xF034, 0xF040, 0xF042, 0xF043, 0xF044, 0xF050, 0xF052}
  }

  function ParameterKind(id: DWord): Kind {
    if IsByteId(id) then ByteKind
    else if IsWordId(id) then WordKind
    else if IsDWordId(id) then DWordKind
    else if IsStringId(id) then StringKind
    else UnknownKind
  }

  /** GetParameterLengthByParameterType: zero for a string, whose length is its own. */
  function KindLength(kind: Kind): nat {
    match kind
    case ByteKind => 1
    case WordKind => 2
    case DWordKind => 4
    case StringKind => 0
    case UnknownKind => 0
  }

  /** The ids of each type as ranges; every other id is of unknown type. */
  lemma KindRanges(id: DWord)
    ensures ParameterKind(id) == ByteKind <==>
              || 0x90 <= id <= 0x92 || id == 0x94 || 0xF000 <= id <= 0xF004 || 0xF010 <= id <= 0xF012
              || 0xF022 <= id <= 0xF023 || id == 0xF035 || id == 0xF045 || id == 0xF053
    ensures ParameterKind(id) == WordKind <==>
              id == 0x101 || id == 0x103 || (id % 0x10 == 1 && id / 0x10 in {0xF02, 0xF03, 0xF04, 0xF05})
    ensures ParameterKind(id) == DWordKind <==>
              || 0x01 <= id <= 0x07 || 0x20 <= id <= 0x22 || 0x27 <= id <= 0x29 || 0x2C <= id <= 0x30
              || 0x50 <= id <= 0x55 || id == 0x93 || id == 0x95 || id == 0x100 || id == 0x102 || id == 0xF020
    ensures ParameterKind(id) == StringKind <==>
              || id == 0x110 || id == 0xF030 || 0xF032 <= id <= 0xF034
              || id == 0xF040 || 0xF042 <= id <= 0xF044 || id == 0xF050 || id == 0xF052
  {
  }

  // ---- One parameter on the wire ----------------------------------------------------

  /** A value, from the text that stands for it. */
  function Payload(kind: Kind, text: Value): seq<Byte> {
    match kind
    case ByteKind => [ScanDec(text) % 0x100]
    case WordKind => Be16(ScanDec(text) % 0x1_0000)
    case DWordKind => Be32(ScanDec(text) % 0x1_0000_0000)
    case StringKind => text
    case UnknownKind => []
  }

  /** A printed number on the wire, most significant byte first. */
  lemma PayloadOfNumber(a: Byte, b: Byte, c: Byte, d: Byte)
    ensures Payload(ByteKind, Dec(a)) == [a]
    ensures Payload(WordKind, Dec(0x100 * (a as int) + b as int)) == [a, b]
    ensures Payload(DWordKind, Dec(0x100_0000 * (a as int) + 0x1_0000 * (b as int) + 0x100 * (c as int) + d as int))
         == [a, b, c, d]
  {
    hide Dec, ScanDec, Be16, Be32;
    MostSignificantFirst(a, b, c, d);
    DecReadsBack(a);
    DecReadsBack(0x100 * (a as int) + b as int);
    DecReadsBack(0x100_0000 * (a as int) + 0x1_0000 * (b as int) + 0x100 * (c as int) + d as int);
  }

  /** Length byte and value; a parameter of unknown type is written without either. */
  function ValueBytes(kind: Kind, text: Value): seq<Byte> {
    if kind.UnknownKind? then [] else [|Payload(kind, text)| % 0x100] + Payload(kind, text)
  }

  function ItemBytes(id: DWord, text: Value): seq<Byte> {
    Be32(id) + ValueBytes(ParameterKind(id), text)
  }

  datatype Item = Item(id: DWord, text: Value)

  function ItemsBytes(items: seq<Item>): seq<Byte> {
    if items == [] then []
    else ItemsBytes(items[..|items| - 1]) + ItemBytes(items[|items| - 1].id, items[|items| - 1].text)
  }

  /** Text a parameter of this kind can hold and carry over the wire: a number as it is
      printed and within what atoi and the field can take, or a string of at most 254 bytes
      without a zero. */
  predicate Canonical(kind: Kind, text: Value) {
    match kind
    case ByteKind => text == Dec(ScanDec(text)) && ScanDec(text) < 0x100
    case WordKind => text == Dec(ScanDec(text)) && ScanDec(text) < 0x1_0000
    case DWordKind => text == Dec(ScanDec(text)) && ScanDec(text) < 0x8000_0000
    case StringKind => |text| <= 254 && 0 !in text
    case UnknownKind => false
  }

  /** Which texts these are. */
  lemma CanonicalExactlyWhen(n: nat, text: Value)
    ensures Canonical(ByteKind, Dec(n)) <==> n < 0x100
    ensures Canonical(WordKind, Dec(n)) <==> n < 0x1_0000
    ensures Canonical(DWordKind, Dec(n)) <==> n < 0x8000_0000
    ensures Canonical(StringKind, text) <==> |text| <= 254 && forall i :: 0 <= i < |text| ==> text[i] != 0
  {
    hide Dec, ScanDec;
    DecReadsBack(n);
  }

  /** What an item is counted for: the value's length goes through a byte. */
  function Counted(id: DWord, text: Value): nat {
    4 + |ValueBytes(ParameterKind(id), text)| % 0x100
  }

  method PutItem(msg: Message, id: DWord, text: Value)
    requires msg.Packing() && msg.cursor + |ItemBytes(id, text)| < BUFFER_LEN
    modifies msg, msg.buffer
    ensures msg.Packing() && msg.text == old(msg.text) + ItemBytes(id, text)
    ensures msg.size == old(msg.size) + Counted(id, text)
    ensures msg.msglen == (old(msg.msglen) + Counted(id, text)) % 1024 && msg.packaged == old(msg.packaged)
  {
    hide ParameterKind, ValueBytes, Be32;
    ghost var t := msg.text;
    msg.Put32(id);
    var u8val := PutValue(msg, ParameterKind(id), text);
    assert t + Be32(id) + ValueBytes(ParameterKind(id), text) == t + ItemBytes(id, text);
    msg.Account(4 + u8val as int);
  }

  /** The count is right exactly unless the value is a string of 255 bytes or more. */
  lemma CountedExactlyWhen(id: DWord, text: Value)
    ensures Counted(id, text) == |ItemBytes(id, text)| <==> (ParameterKind(id).StringKind? ==> |text| < 255)
    ensures ParameterKind(id).StringKind? ==> Counted(id, text) == 4 + (1 + |text|) % 0x100
  {
    hide ParameterKind, Payload;
    PayloadSize(ParameterKind(id), text);
  }

  method PutValue(msg: Message, kind: Kind, text: Value) returns (u8val: Byte)
    requires msg.Packing() && msg.cursor + |ValueBytes(kind, text)| < BUFFER_LEN
    modifies msg, msg.buffer
    ensures msg.Packing() && msg.text == old(msg.text) + ValueBytes(kind, text)
    ensures u8val == |ValueBytes(kind, text)| % 0x100
    ensures msg.size == old(msg.size) && msg.msglen == old(msg.msglen) && msg.packaged == old(msg.packaged)
  {
    hide Payload;
    ghost var t := msg.text;
    if kind.UnknownKind? {
      assert t + [] == t;
      return 0;
    }
    PayloadSize(kind, text);
    msg.PutByte(|Payload(kind, text)| % 0x100);
    msg.PutBytes(Payload(kind, text));
    PutTwo(t, |Payload(kind, text)| % 0x100, Payload(kind, text));
    u8val := if kind.StringKind? then (1 + |text|) % 0x100 else 1 + KindLength(kind);
  }

  lemma PayloadSize(kind: Kind, text: Value)
    ensures |Payload(kind, text)| == if kind.StringKind? then |text| else KindLength(kind)
  {
  }

  lemma PutTwo(t: seq<Byte>, length: Byte, payload: seq<Byte>)
    ensures t + [length] + payload == t + ([length] + payload)
  {
  }

  // ---- Storing a value --------------------------------------------------------------

  /** A C string ends before its first zero. */
  function CString(s: seq<Byte>): seq<Byte> {
    if s == [] || s[0] == 0 then [] else [s[0]] + CString(s[1..])
  }

  lemma {:induction false} CStringWhole(s: seq<Byte>, t: seq<Byte>)
    requires 0 !in s && (t == [] || t[0] == 0)
    ensures CString(s + t) == s
  {
    if s == [] {
      assert s + t == t;
    } else {
      assert (s + t)[1..] == s[1..] + t;
      CStringWhole(s[1..], t);
    }
  }

  /** The text stored for a value; value is the 256-byte scratch array it was copied to. */
  function StoredText(kind: Kind, value: seq<Byte>, before: Value): Value
    requires |value| == 256
  {
    match kind
    case ByteKind => Dec(value[0])
    case WordKind => Dec(WordAt(value, 0))
    case DWordKind => Dec(DWordAt(value, 0))
    case StringKind => CString(value)
    case UnknownKind => before
  }

  /** What is stored for any bytes: numbers most significant byte first, a string up to its first
      zero, and nothing new for an id of unknown type. */
  lemma StoredIs(value: seq<Byte>, n: nat, before: Value)
    requires |value| == 256 && n < 256 && value[n] == 0 && 0 !in value[..n]
    ensures StoredText(ByteKind, value, before) == Dec(value[0])
    ensures StoredText(WordKind, value, before) == Dec(0x100 * (value[0] as int) + value[1] as int)
    ensures StoredText(DWordKind, value, before)
         == Dec(0x100_0000 * (value[0] as int) + 0x1_0000 * (value[1] as int) + 0x100 * (value[2] as int)
                + value[3] as int)
    ensures StoredText(StringKind, value, before) == value[..n] && StoredText(UnknownKind, value, before) == before
  {
    hide CString, Dec;
    assert value == value[..n] + value[n..];
    CStringWhole(value[..n], value[n..]);
    MostSignificantFirst(value[0], value[1], value[2], value[3]);
    assert [value[0], value[1], value[2], value[3]][0..4] == value[0..4];
  }

  /** SetTerminalParameterValue: only an id that is there is given a value. */
  function SetValue(m: map<DWord, Value>, id: DWord, value: seq<Byte>): map<DWord, Value>
    requires |value| == 256
  {
    if id in m then m[id := StoredText(ParameterKind(id), value, m[id])] else m
  }

  function Padded(s: seq<Byte>): (v: seq<Byte>)
    requires |s| < 0x100
    ensures |v| == 256
  {
    s + Zeros(256 - |s|)
  }

  /** What setting and printing make of a value on the wire: the text it came from. */
  lemma ValueRoundTrip(kind: Kind, text: Value, before: Value)
    requires Canonical(kind, text)
    ensures |Payload(kind, text)| < 0x100 && StoredText(kind, Padded(Payload(kind, text)), before) == text
  {
    hide Dec, ScanDec, Be16, Be32, WordAt, DWordAt, CString;
    var v := Padded(Payload(kind, text));
    match kind
    case ByteKind =>
    case WordKind =>
      assert v[0..2] == Be16(ScanDec(text));
      ReadBack16(ScanDec(text), v, 0);
    case DWordKind =>
      assert v[0..4] == Be32(ScanDec(text));
      ReadBack32(ScanDec(text), v, 0);
    case StringKind =>
      CStringWhole(text, Zeros(256 - |text|));
  }

  // ---- Applying a set message -------------------------------------------------------

  /** An item starts here and its announced value lies inside the buffer. */
  predicate ItemInside(b: seq<Byte>, at: nat) {
    at + 5 <= |b| && at + 5 + b[at + 4] <= |b|
  }

  /** The parameters after count items; None when an item leaves the buffer. */
  function Apply(m: map<DWord, Value>, b: seq<Byte>, at: nat, count: nat): Option<map<DWord, Value>>
    decreases count
  {
    if count == 0 then Some(m)
    else if !ItemInside(b, at) then None
    else
      Apply(SetValue(m, DWordAt(b, at), Padded(b[at + 5..at + 5 + b[at + 4]])), b, at + 5 + b[at + 4], count - 1)
  }

  /** An item is dealt with exactly if it ends within the buffer. */
  lemma ItemInsideExactlyWhen(m: map<DWord, Value>, b: seq<Byte>, at: nat)
    ensures Apply(m, b, at, 1).Some? <==> at + 5 <= |b| && at + 5 + b[at + 4] <= |b|
    ensures Apply(m, b, at, 0) == Some(m)
  {
  }

  class ParameterStore {
    var parameters: map<DWord, Value>

    constructor (m: map<DWord, Value>)
      ensures parameters == m
    {
      parameters := m;
    }

    /** The DOWN_SETTERMPARA branch; fault when an item leaves the buffer. */
    method DealSetParameters(b: seq<Byte>, body: nat) returns (result: Byte, fault: bool)
      requires body < |b|
      modifies this
      ensures old(parameters) == map[] ==>
                !fault && parameters == map[] && result == if b[body] == 0 then 0 else 1
      ensures old(parameters) != map[] ==>
                var o := Apply(old(parameters), b, body + 1, b[body]);
                (fault <==> o.None?) && (!fault ==> result == 0 && parameters == o.value)
    {
      hide StoredText, ParameterKind, DWordAt, SetValue, Padded;
      fault := false;
      result := SUCCESS;
      var count: int := b[body];
      var at: nat := body + 1;
      ghost var m0 := parameters;
      while count > 0
        invariant 0 <= count
        invariant m0 == map[] ==> count == b[body] && parameters == map[]
        invariant m0 != map[] ==> parameters != map[]
                                  && Apply(parameters, b, at, count) == Apply(m0, b, body + 1, b[body])
      {
        if parameters == map[] {
          result := FAILURE;
          return;
        }
        if !ItemInside(b, at) {
          fault := true;
          return;
        }
        var id: DWord, u8val: Byte := DWordAt(b, at), b[at + 4];
        var value := Padded(b[at + 5..at + 5 + u8val]);
        KeysStay(parameters, id, value);
        parameters := SetValue(parameters, id, value);
        at := at + 5 + u8val;
        count := count - 1;
      }
    }
  }

  lemma KeysStay(m: map<DWord, Value>, id: DWord, value: seq<Byte>)
    requires |value| == 256
    ensures SetValue(m, id, value).Keys == m.Keys
    ensures m != map[] ==> SetValue(m, id, value) != map[]
  {
  }

  /** Setting never adds or removes an id, whatever the message says. */
  lemma {:induction false} ApplyKeepsKeys(m: map<DWord, Value>, b: seq<Byte>, at: nat, count: nat)
    ensures var o := Apply(m, b, at, count); o.Some? ==> o.value.Keys == m.Keys
    decreases count
  {
    hide SetValue, Padded;
    if count > 0 && ItemInside(b, at) {
      var value := Padded(b[at + 5..at + 5 + b[at + 4]]);
      KeysStay(m, DWordAt(b, at), value);
      ApplyKeepsKeys(SetValue(m, DWordAt(b, at), value), b, at + 5 + b[at + 4], count - 1);
    }
  }

  // ---- Packing ----------------------------------------------------------------------

  function SetBody(items: seq<Item>): seq<Byte> {
    [|items| % 0x100] + ItemsBytes(items)
  }

  function ReplyBody(respondFlow: Word, items: seq<Item>): seq<Byte> {
    Be16(respondFlow) + [|items| % 0x100] + ItemsBytes(items)
  }

  predicate ShortTexts(items: seq<Item>) {
    forall i :: 0 <= i < |items| ==> |items[i].text| <= 254
  }

  /** What a list is counted for. */
  function ItemsCounted(items: seq<Item>): nat {
    if items == [] then 0
    else ItemsCounted(items[..|items| - 1]) + Counted(items[|items| - 1].id, items[|items| - 1].text)
  }

  lemma CountsNext(items: seq<Item>, i: nat)
    requires i < |items|
    ensures ItemsCounted(items[..i + 1]) == ItemsCounted(items[..i]) + Counted(items[i].id, items[i].text)
  {
    hide Counted;
    assert items[..i + 1][..i] == items[..i];
  }

  /** Short texts are counted for what they take. */
  lemma {:induction false} ShortAreCounted(items: seq<Item>)
    requires ShortTexts(items)
    ensures ItemsCounted(items) == |ItemsBytes(items)|
    decreases |items|
  {
    hide Counted, ItemBytes;
    if items != [] {
      var n := |items| - 1;
      CountedExactlyWhen(items[n].id, items[n].text);
      ShortAreCounted(items[..n]);
    }
  }

  /** No list is counted for more than it takes. */
  lemma {:induction false} CountedAtMost(items: seq<Item>)
    ensures ItemsCounted(items) <= |ItemsBytes(items)|
    decreases |items|
  {
    hide ItemBytes;
    if items != [] {
      CountedAtMost(items[..|items| - 1]);
      OneAtMost(items[|items| - 1].id, items[|items| - 1].text);
    }
  }

  lemma OneAtMost(id: DWord, text: Value)
    ensures Counted(id, text) <= |ItemBytes(id, text)|
  {
    hide ParameterKind, Payload;
  }

  /** The writer after i items. */
  ghost predicate PutSoFar(msg: Message, items: seq<Item>, i: nat, t: seq<Byte>, n: int, l: int, p: bool)
    requires i <= |items|
    reads msg, msg.buffer
  {
    var counted := ItemsCounted(items[..i]);
    msg.Packing() && 1 + |t| + |ItemsBytes(items)| < BUFFER_LEN && msg.text == t + ItemsBytes(items[..i])
    && msg.size == n + counted && msg.msglen == (l + counted) % 1024 && msg.packaged == p
  }

  lemma PutBegins(msg: Message, items: seq<Item>)
    requires msg.Packing() && msg.cursor + |ItemsBytes(items)| < BUFFER_LEN
    ensures PutSoFar(msg, items, 0, msg.text, msg.size, msg.msglen, msg.packaged)
  {
    hide ItemBytes, ItemsBytes, ItemsCounted;
    NoItems();
    assert items[..0] == [] && msg.text + [] == msg.text;
  }

  lemma PutEnds(msg: Message, items: seq<Item>, t: seq<Byte>, n: int, l: int, p: bool)
    requires PutSoFar(msg, items, |items|, t, n, l, p)
    ensures msg.Packing() && msg.text == t + ItemsBytes(items) && msg.size == n + ItemsCounted(items)
    ensures msg.msglen == (l + ItemsCounted(items)) % 1024 && msg.packaged == p
  {
    hide ItemBytes, ItemsBytes, ItemsCounted;
    assert items[..|items|] == items;
  }

  method PutNext(msg: Message, items: seq<Item>, i: nat, ghost t: seq<Byte>, ghost n: int, ghost l: int, ghost p: bool)
    requires i < |items| && PutSoFar(msg, items, i, t, n, l, p)
    modifies msg, msg.buffer
    ensures PutSoFar(msg, items, i + 1, t, n, l, p)
  {
    hide ItemBytes, ItemsBytes, Counted, ItemsCounted;
    ItemsGrow(items, i + 1);
    ItemsNext(items, i, t);
    CountsNext(items, i);
    LengthAdds(l, ItemsCounted(items[..i]), Counted(items[i].id, items[i].text));
    PutItem(msg, items[i].id, items[i].text);
  }

  /** The ten bits add up. */
  lemma LengthAdds(l: int, a: nat, b: nat)
    ensures ((l + a) % 1024 + b) % 1024 == (l + (a + b)) % 1024
  {
  }

  /** The loop of the terminal's packer, whose pointer moves on by what was written. */
  method PutItems(msg: Message, items: seq<Item>)
    requires msg.Packing() && msg.cursor + |ItemsBytes(items)| < BUFFER_LEN
    modifies msg, msg.buffer
    ensures msg.Packing() && msg.text == old(msg.text) + ItemsBytes(items)
    ensures msg.size == old(msg.size) + ItemsCounted(items)
    ensures msg.msglen == (old(msg.msglen) + ItemsCounted(items)) % 1024 && msg.packaged == old(msg.packaged)
  {
    hide *;
    ghost var t, n, l, p := msg.text, msg.size, msg.msglen, msg.packaged;
    PutBegins(msg, items);
    for i := 0 to |items|
      invariant PutSoFar(msg, items, i, t, n, l, p)
    {
      PutNext(msg, items, i, t, n, l, p);
    }
    PutEnds(msg, items, t, n, l, p);
  }

  lemma NoItems()
    ensures ItemsBytes([]) == [] && ItemsCounted([]) == 0
  {
  }

  lemma ItemsNext(items: seq<Item>, i: nat, t: seq<Byte>)
    requires i < |items|
    ensures ItemsBytes(items[..i + 1]) == ItemsBytes(items[..i]) + ItemBytes(items[i].id, items[i].text)
    ensures |ItemsBytes(items[..i + 1])| == |ItemsBytes(items[..i])| + |ItemBytes(items[i].id, items[i].text)|
    ensures t + ItemsBytes(items[..i]) + ItemBytes(items[i].id, items[i].text) == t + ItemsBytes(items[..i + 1])
  {
    hide ItemBytes;
    assert items[..i + 1][..i] == items[..i];
  }

  lemma {:induction false} ItemsGrow(items: seq<Item>, i: nat)
    requires i <= |items|
    ensures |ItemsBytes(items[..i])| <= |ItemsBytes(items)|
    decreases |items| - i
  {
    hide ItemBytes;
    if i == |items| {
      assert items[..i] == items;
    } else {
      ItemsGrow(items, i + 1);
      ItemsNext(items, i, []);
    }
  }

  /** A frame of which the packer has counted so many bytes of the body. */
  function AsCounted(id: Word, phone: seq<Byte>, flow: Word, part: Part, body: seq<Byte>, counted: nat): seq<Byte>
    requires |phone| == 6 && counted <= |body| <= MAX_BODY
  {
    hide Tail;
    var c := ContentWith(id, counted, phone, flow, part, body);
    ContentLength(id, counted, phone, flow, part, body);
    Tail([0] + c + Zeros(BUFFER_LEN - 1 - |c|), 1 + |c| - |body| + counted, 1 + |c|)
  }

  /** Counted in full it is the frame of the body. */
  lemma CountedInFull(id: Word, phone: seq<Byte>, flow: Word, part: Part, body: seq<Byte>)
    requires |phone| == 6 && |body| <= MAX_BODY
    ensures AsCounted(id, phone, flow, part, body, |body|) == Wire(Content(id, phone, flow, part, body))
  {
    hide Tail, Wire, ContentWith;
    var c := ContentWith(id, |body|, phone, flow, part, body);
    ContentLength(id, |body|, phone, flow, part, body);
    var b := [0] + c + Zeros(BUFFER_LEN - 1 - |c|);
    assert b[1..1 + |c|] == c;
    TailIsWire(b, 1 + |c|);
  }

  // ---- The service's loop -----------------------------------------------------------

  /** b with s written over it. */
  function Over(b: seq<Byte>, at: nat, s: seq<Byte>): (r: seq<Byte>)
    requires at + |s| <= |b|
    ensures |r| == |b|
  {
    b[..at] + s + b[at + |s|..]
  }

  /** The buffer behind the service's loop.  Its pointer moves on by what an item is counted for,
      so that the item behind a text of 255 bytes or more is written over that text. */
  function SetOver(b: seq<Byte>, at: nat, items: seq<Item>): (r: seq<Byte>)
    requires at + |ItemsBytes(items)| <= |b|
    ensures |r| == |b|
  {
    hide ItemBytes, Counted;
    if items == [] then b
    else
      var n := |items| - 1;
      CountedAtMost(items[..n]);
      Over(SetOver(b, at, items[..n]), at + ItemsCounted(items[..n]), ItemBytes(items[n].id, items[n].text))
  }

  method WriteOver(msg: Message, at: nat, s: seq<Byte>)
    requires at + |s| <= msg.buffer.Length
    modifies msg.buffer
    ensures msg.buffer[..] == Over(old(msg.buffer[..]), at, s)
  {
    ghost var b := msg.buffer[..];
    forall k | 0 <= k < |s| {
      msg.buffer[at + k] := s[k];
    }
    assert msg.buffer[..at] == b[..at] && msg.buffer[at..at + |s|] == s && msg.buffer[at + |s|..] == b[at + |s|..];
  }

  lemma OverTwice(b: seq<Byte>, at: nat, s: seq<Byte>, t: seq<Byte>)
    requires at + |s| + |t| <= |b|
    ensures Over(Over(b, at, s), at + |s|, t) == Over(b, at, s + t)
  {
  }

  /** One round of the loop. */
  method PutItemOver(msg: Message, id: DWord, text: Value)
    requires msg.buffer.Length == BUFFER_LEN && msg.cursor + |ItemBytes(id, text)| < BUFFER_LEN
    modifies msg, msg.buffer
    ensures msg.buffer[..] == Over(old(msg.buffer[..]), old(msg.cursor), ItemBytes(id, text))
    ensures msg.cursor == old(msg.cursor) + Counted(id, text) && msg.size == old(msg.size) + Counted(id, text)
    ensures msg.msglen == (old(msg.msglen) + Counted(id, text)) % 1024 && msg.packaged == old(msg.packaged)
  {
    hide ParameterKind, Be32, Payload, Over;
    ghost var b, at := msg.buffer[..], msg.cursor;
    var kind := ParameterKind(id);
    PayloadSize(kind, text);
    WriteOver(msg, msg.cursor, Be32(id));
    msg.cursor := msg.cursor + 4;
    var u8val: Byte := 0;
    if !kind.UnknownKind? {
      WriteOver(msg, msg.cursor, [|Payload(kind, text)| % 0x100] + Payload(kind, text));
      u8val := if kind.StringKind? then (1 + |text|) % 0x100 else 1 + KindLength(kind);
      OverTwice(b, at, Be32(id), ValueBytes(kind, text));
    } else {
      assert Be32(id) + [] == Be32(id);
    }
    msg.cursor := msg.cursor + u8val;
    msg.size := msg.size + 4 + u8val;
    msg.msglen := (msg.msglen + 4 + u8val) % 1024;
  }

  /** The writer after i items. */
  ghost predicate OverSoFar(msg: Message, items: seq<Item>, i: nat, b: seq<Byte>, at: nat, n: int, l: int, p: bool)
    requires i <= |items|
    reads msg, msg.buffer
  {
    var counted := ItemsCounted(items[..i]);
    |b| == msg.buffer.Length == BUFFER_LEN && at + |ItemsBytes(items)| < BUFFER_LEN
    && (ItemsGrow(items, i); msg.buffer[..] == SetOver(b, at, items[..i]))
    && msg.cursor == at + counted && msg.size == n + counted && msg.msglen == (l + counted) % 1024 && msg.packaged == p
  }

  lemma OverNext(b: seq<Byte>, at: nat, items: seq<Item>, i: nat)
    requires i < |items| && at + |ItemsBytes(items)| <= |b|
    ensures |ItemsBytes(items[..i])| <= |ItemsBytes(items)| && |ItemsBytes(items[..i + 1])| <= |ItemsBytes(items)|
    ensures at + ItemsCounted(items[..i]) + |ItemBytes(items[i].id, items[i].text)| <= at + |ItemsBytes(items)|
    ensures SetOver(b, at, items[..i + 1])
         == Over(SetOver(b, at, items[..i]), at + ItemsCounted(items[..i]), ItemBytes(items[i].id, items[i].text))
  {
    hide ItemBytes, Counted, Over;
    ItemsGrow(items, i);
    ItemsGrow(items, i + 1);
    ItemsNext(items, i, []);
    CountedAtMost(items[..i]);
    assert items[..i + 1][..i] == items[..i];
  }

  method PutNextOver(msg: Message, items: seq<Item>, i: nat, ghost b: seq<Byte>, ghost at: nat, ghost n: int,
                     ghost l: int, ghost p: bool)
    requires i < |items| && OverSoFar(msg, items, i, b, at, n, l, p)
    modifies msg, msg.buffer
    ensures OverSoFar(msg, items, i + 1, b, at, n, l, p)
  {
    hide ItemBytes, ItemsBytes, Counted, ItemsCounted, Over, SetOver;
    OverNext(b, at, items, i);
    CountsNext(items, i);
    LengthAdds(l, ItemsCounted(items[..i]), Counted(items[i].id, items[i].text));
    PutItemOver(msg, items[i].id, items[i].text);
  }

  /** The loop of the service's packer. */
  method PutItemsOver(msg: Message, items: seq<Item>)
    requires msg.buffer.Length == BUFFER_LEN && msg.cursor + |ItemsBytes(items)| < BUFFER_LEN && msg.msglen < 1024
    modifies msg, msg.buffer
    ensures msg.buffer[..] == SetOver(old(msg.buffer[..]), old(msg.cursor), items)
    ensures msg.cursor == old(msg.cursor) + ItemsCounted(items) && msg.size == old(msg.size) + ItemsCounted(items)
    ensures msg.msglen == (old(msg.msglen) + ItemsCounted(items)) % 1024 && msg.packaged == old(msg.packaged)
  {
    hide ItemBytes, ItemsBytes, Counted, ItemsCounted, Over, SetOver;
    ghost var b, at, n, l, p := msg.buffer[..], msg.cursor, msg.size, msg.msglen, msg.packaged;
    NoItems();
    NothingOver(b, at);
    assert items[..0] == [] && items[..|items|] == items;
    for i := 0 to |items|
      invariant OverSoFar(msg, items, i, b, at, n, l, p)
    {
      PutNextOver(msg, items, i, b, at, n, l, p);
    }
  }

  lemma NothingOver(b: seq<Byte>, at: nat)
    requires at <= |b|
    ensures ItemsBytes([]) == [] && SetOver(b, at, []) == b
  {
  }

  /** The attribute word put into its place. */
  function WithAttribute(b: seq<Byte>, v: Word): (r: seq<Byte>)
    requires |b| >= 5
    ensures |r| == |b|
  {
    b[..3] + Be16(v) + b[5..]
  }

  /** Everything in front of the first item, with an attribute word that is still zero. */
  function SetHead(phone: seq<Byte>, flow: Word, part: Part, items: seq<Item>): (h: seq<Byte>)
    requires |phone| == 6
    ensures |h| == 13 + if part.Part? then 4 else 0
  {
    Header(DOWN_SETTERMPARA, 0, phone, flow) + PartBytes(part) + [|items| % 0x100]
  }

  /** The buffer when all is written but the check byte. */
  function SetBuffer(phone: seq<Byte>, flow: Word, part: Part, items: seq<Item>): (b: seq<Byte>)
    requires |phone| == 6 && |SetBody(items)| <= MAX_BODY
    ensures |b| == BUFFER_LEN
  {
    hide ItemsBytes, ItemsCounted, SetOver;
    var h := SetHead(phone, flow, part, items);
    CountedAtMost(items);
    WithAttribute(SetOver([0] + h + Zeros(BUFFER_LEN - 1 - |h|), 1 + |h|, items),
                  Attribute(1 + ItemsCounted(items), part.Part?))
  }

  /** Where the pointer stands then, in step with the size. */
  function SetEnd(part: Part, items: seq<Item>): nat {
    14 + (if part.Part? then 4 else 0) + ItemsCounted(items)
  }

  method BeginSet(msg: Message, phone: seq<Byte>, flow: Word, part: Part, items: seq<Item>)
    requires msg.buffer.Length == BUFFER_LEN && msg.ZeroFrom(0) && |phone| == 6
    modifies msg, msg.buffer
    ensures var h := SetHead(phone, flow, part, items);
            msg.buffer[..] == [0] + h + Zeros(BUFFER_LEN - 1 - |h|) && msg.size == msg.cursor == 1 + |h|
    ensures msg.msglen == 1 && msg.packaged == part.Part?
  {
    hide Header, Zeros;
    msg.Begin(DOWN_SETTERMPARA, phone, flow);
    if part.Part? {
      msg.SetPackage(part.total, part.sequence);
    }
    assert msg.text == Header(DOWN_SETTERMPARA, 0, phone, flow) + PartBytes(part);
    msg.PutByte(|items| % 0x100);
    msg.Account(1);
    ghost var h := SetHead(phone, flow, part, items);
    ghost var b := msg.buffer[..];
    assert msg.text == h && b[1..1 + |h|] == h;
    InParts(b, h);
  }

  /** The DOWN_SETTERMPARA branch of the service's packer; items are its map, in order. */
  method PackSet(msg: Message, phone: seq<Byte>, flow: Word, part: Part, items: seq<Item>)
    requires msg.buffer.Length == BUFFER_LEN && msg.ZeroFrom(0) && |phone| == 6
    requires |SetBody(items)| <= MAX_BODY
    modifies msg, msg.buffer
    ensures msg.size <= BUFFER_LEN == msg.buffer.Length && SetEnd(part, items) <= 1040
    ensures msg.buffer[..msg.size] == Tail(SetBuffer(phone, flow, part, items), SetEnd(part, items), SetEnd(part, items))
    ensures ShortTexts(items) ==>
              msg.buffer[..msg.size] == Wire(Content(DOWN_SETTERMPARA, phone, flow, part, SetBody(items)))
  {
    hide Wire, Tail, Header, ItemsBytes, ItemsCounted, SetOver, ContentWith, ShortTexts, Attribute, Zeros, SetHead;
    CountedAtMost(items);
    BeginSet(msg, phone, flow, part, items);
    PutItemsOver(msg, items);
    msg.StoreAttribute();
    assert msg.buffer[..] == SetBuffer(phone, flow, part, items);
    msg.CloseFrame();
    if ShortTexts(items) {
      ShortSet(phone, flow, part, items);
    }
  }

  /** Short texts follow one another without a gap. */
  lemma {:induction false} ShortOver(front: seq<Byte>, m: nat, items: seq<Item>)
    requires ShortTexts(items) && |ItemsBytes(items)| <= m
    ensures SetOver(front + Zeros(m), |front|, items) == front + ItemsBytes(items) + Zeros(m - |ItemsBytes(items)|)
    decreases |items|
  {
    hide ItemBytes, Counted;
    if items != [] {
      var n := |items| - 1;
      ShortOver(front, m, items[..n]);
      ShortAreCounted(items[..n]);
      OverZeros(front + ItemsBytes(items[..n]), m - |ItemsBytes(items[..n])|, ItemBytes(items[n].id, items[n].text));
    }
  }

  lemma OverZeros(front: seq<Byte>, m: nat, s: seq<Byte>)
    requires |s| <= m
    ensures Over(front + Zeros(m), |front|, s) == front + s + Zeros(m - |s|)
  {
  }

  lemma ShortSet(phone: seq<Byte>, flow: Word, part: Part, items: seq<Item>)
    requires |phone| == 6 && |SetBody(items)| <= MAX_BODY && ShortTexts(items)
    ensures SetEnd(part, items) <= 1040
    ensures Tail(SetBuffer(phone, flow, part, items), SetEnd(part, items), SetEnd(part, items))
         == Wire(Content(DOWN_SETTERMPARA, phone, flow, part, SetBody(items)))
  {
    hide Wire, Tail, Header, ItemsBytes, ItemsCounted, SetOver, ShortTexts, Attribute;
    ShortAreCounted(items);
    var h, s := SetHead(phone, flow, part, items), ItemsBytes(items);
    var m := BUFFER_LEN - 1 - |h|;
    ShortOver([0] + h, m, items);
    var b := [0] + h + s + Zeros(m - |s|);
    var end := 1 + |h| + |s|;
    var rest := PartBytes(part) + SetBody(items);
    assert b[1..end] == Header(DOWN_SETTERMPARA, 0, phone, flow) + rest;
    var v := Attribute(1 + |s|, part.Part?);
    SetAttribute(b, end, DOWN_SETTERMPARA, v, phone, flow, rest);
    var b1 := WithAttribute(b, v);
    assert b1 == SetBuffer(phone, flow, part, items);
    assert forall k :: end <= k < BUFFER_LEN ==> b1[k] == 0;
    TailIsWire(b1, end);
    assert b1[1..end] == Content(DOWN_SETTERMPARA, phone, flow, part, SetBody(items));
  }

  /** A frame in step with whatever the buffer holds behind it: the byte behind the check byte is
      the one the closing flag replaces, but for an escape byte. */
  lemma TailInStep(b: seq<Byte>, size: nat)
    requires |b| == BUFFER_LEN && 1 <= size && size + 2 <= BUFFER_LEN
    ensures var content := b[1..size];
            Tail(b, size, size)
            == [0x7E] + (Escape(content + [Bcc(content)])
                         + if b[size + 1] == 0x7E || b[size + 1] == 0x7D then [0x7D] else []) + [0x7E]
  {
    hide Escape, Bcc;
    var content, last := b[1..size], b[size + 1];
    var text := content + [Bcc(content)];
    assert b[size := Bcc(content)][1..size + 2] == text + [last];
    EscapeConcat(text, [last]);
    EscapeLast(last);
    var front, e := Escape(text), Escape([last]);
    assert (front + e)[..|front + e| - 1] == front + e[..|e| - 1];
  }

  /** A string of 255 bytes, alone in a set request: its id is sent, and neither its length nor
      its text, of which the first byte may leave an escape byte behind. */
  lemma LongTextIsNotSent(phone: seq<Byte>, flow: Word, id: DWord, text: Value)
    requires |phone| == 6 && ParameterKind(id).StringKind? && |text| == 255
    ensures var items := [Item(id, text)];
            var c := Header(0x8103, 5, phone, flow) + [1] + Be32(id);
            |SetBody(items)| <= MAX_BODY && SetEnd(Whole, items) == 18
            && Tail(SetBuffer(phone, flow, Whole, items), 18, 18)
               == [0x7E] + (Escape(c + [Bcc(c)]) + if text[0] == 0x7E || text[0] == 0x7D then [0x7D] else []) + [0x7E]
  {
    hide Tail, Escape, Bcc, Header, ParameterKind, SetBuffer, WithAttribute;
    var head, id4: seq<Byte> := Header(0x8103, 5, phone, flow), Be32(id);
    LongBuffer(phone, flow, id, text);
    var b := SetBuffer(phone, flow, Whole, [Item(id, text)]);
    TailInStep(b, 18);
    assert head + ([1] + id4) == head + [1] + id4;
  }

  lemma LongBuffer(phone: seq<Byte>, flow: Word, id: DWord, text: Value)
    requires |phone| == 6 && ParameterKind(id).StringKind? && |text| == 255
    ensures var items := [Item(id, text)];
            |SetBody(items)| <= MAX_BODY && SetEnd(Whole, items) == 18
            && var b := SetBuffer(phone, flow, Whole, items);
               b[1..18] == Header(0x8103, 5, phone, flow) + ([1] + Be32(id)) && b[19] == text[0]
  {
    hide Header, ParameterKind, Be32, ItemsBytes, ItemBytes, ItemsCounted, SetOver, Over, Zeros;
    var items := [Item(id, text)];
    OneItem(id, text);
    var h, s := Header(DOWN_SETTERMPARA, 0, phone, flow), Be32(id) + ([255] + text);
    var m := BUFFER_LEN - 14;
    assert SetHead(phone, flow, Whole, items) == h + [1];
    assert [0] + (h + [1]) + Zeros(m) == ([0] + (h + [1])) + Zeros(m);
    OverZeros([0] + (h + [1]), m, s);
    var b0 := [0] + (h + [1]) + s + Zeros(m - |s|);
    assert SetBuffer(phone, flow, Whole, items) == WithAttribute(b0, 5);
    FirstBytes(h, Be32(id), text, Zeros(m - |s|));
    SetAttribute(b0, 18, DOWN_SETTERMPARA, 5, phone, flow, [1] + Be32(id));
  }

  lemma FirstBytes(h: seq<Byte>, id: seq<Byte>, text: seq<Byte>, zeros: seq<Byte>)
    requires |h| == 12 && |id| == 4 && text != []
    ensures var b := [0] + (h + [1]) + (id + ([255] + text)) + zeros;
            b[1..18] == h + ([1] + id) && b[19] == text[0]
  {
  }

  lemma OneItem(id: DWord, text: Value)
    requires ParameterKind(id).StringKind? && |text| == 255
    ensures var items := [Item(id, text)];
            ItemBytes(id, text) == Be32(id) + ([255] + text) && ItemsCounted(items) == 4
            && ItemsBytes(items) == ItemBytes(id, text)
            && forall b: seq<Byte>, at: nat :: at + 260 <= |b| ==>
                                                 SetOver(b, at, items) == Over(b, at, ItemBytes(id, text))
  {
    hide ParameterKind, Over;
    assert [Item(id, text)][..0] == [];
  }

  lemma ReplyLength(respondFlow: Word, items: seq<Item>)
    ensures |ReplyBody(respondFlow, items)| == 3 + |ItemsBytes(items)|
  {
  }

  method PutReplyBody(msg: Message, respondFlow: Word, items: seq<Item>)
    requires msg.Packing() && msg.size == msg.cursor <= PACKAGE_POS && msg.msglen == 0
    requires |ReplyBody(respondFlow, items)| <= MAX_BODY
    modifies msg, msg.buffer
    ensures msg.Packing() && msg.text == old(msg.text) + ReplyBody(respondFlow, items)
    ensures msg.size == old(msg.size) + 3 + ItemsCounted(items) && msg.packaged == old(msg.packaged)
    ensures msg.msglen == 3 + ItemsCounted(items) <= MAX_BODY
  {
    hide ItemsBytes, ItemsCounted, Be16;
    ghost var t := msg.text;
    CountedAtMost(items);
    msg.Put16(respondFlow);
    msg.PutByte(|items| % 0x100);
    msg.Account(3);
    PutItems(msg, items);
    ConcatAssoc(t, Be16(respondFlow), [|items| % 0x100], ItemsBytes(items));
  }

  /** The UP_GETPARARESPONSE branch of the terminal's packer. */
  method PackReply(msg: Message, phone: seq<Byte>, flow: Word, part: Part, respondFlow: Word, items: seq<Item>)
    requires msg.buffer.Length == BUFFER_LEN && msg.ZeroFrom(0) && |phone| == 6
    requires |ReplyBody(respondFlow, items)| <= MAX_BODY
    modifies msg, msg.buffer
    ensures msg.size <= BUFFER_LEN == msg.buffer.Length
    ensures 3 + ItemsCounted(items) <= |ReplyBody(respondFlow, items)|
    ensures msg.buffer[..msg.size]
         == AsCounted(UP_GETPARARESPONSE, phone, flow, part, ReplyBody(respondFlow, items), 3 + ItemsCounted(items))
    ensures ShortTexts(items) ==>
              msg.buffer[..msg.size]
              == Wire(Content(UP_GETPARARESPONSE, phone, flow, part, ReplyBody(respondFlow, items)))
  {
    hide Wire, Tail, Header, ItemsBytes, ItemsCounted, Be16, ReplyBody, ContentWith, ShortTexts;
    ReplyLength(respondFlow, items);
    CountedAtMost(items);
    msg.Begin(UP_GETPARARESPONSE, phone, flow);
    if part.Part? {
      msg.SetPackage(part.total, part.sequence);
    }
    assert msg.text == Header(UP_GETPARARESPONSE, 0, phone, flow) + PartBytes(part);
    PutReplyBody(msg, respondFlow, items);
    ContentLength(UP_GETPARARESPONSE, msg.msglen, phone, flow, part, ReplyBody(respondFlow, items));
    msg.FinishApart(UP_GETPARARESPONSE, phone, flow, part, ReplyBody(respondFlow, items));
    if ShortTexts(items) {
      ShortAreCounted(items);
      CountedInFull(UP_GETPARARESPONSE, phone, flow, part, ReplyBody(respondFlow, items));
    }
  }

  // ---- Reading a reply --------------------------------------------------------------

  /** The text the service makes of a value. */
  function ReadText(kind: Kind, value: seq<Byte>): Option<Value> {
    match kind
    case ByteKind => if |value| >= 1 then Some(Dec(value[0])) else None
    case WordKind => if |value| == 2 then Some(Dec(WordAt(value, 0))) else None
    case DWordKind => if |value| == 4 then Some(Dec(DWordAt(value, 0))) else None
    case StringKind => Some(CString(value))
    case UnknownKind => Some([])
  }

  /** The same of any bytes of the right number. */
  lemma ReadIs(a: Byte, b: Byte, c: Byte, d: Byte)
    ensures ReadText(ByteKind, [a]) == Some(Dec(a)) && ReadText(WordKind, [a, b]) == Some(Dec(0x100 * a + b))
    ensures ReadText(DWordKind, [a, b, c, d]) == Some(Dec(0x100_0000 * a + 0x1_0000 * b + 0x100 * c + d))
    ensures a != 0 ==> ReadText(StringKind, [a, 0, b]) == Some([a])
    ensures ReadText(UnknownKind, [a]) == Some([])
  {
    hide Dec;
    MostSignificantFirst(a, b, c, d);
    CStringWhole(if a == 0 then [] else [a], [0, b]);
    assert a != 0 ==> [a] + [0, b] == [a, 0, b];
  }

  /** The service's reading loop: a map insert keeps the first value of an id. */
  function ReadReply(acc: map<DWord, Value>, b: seq<Byte>, at: nat, count: nat): Option<map<DWord, Value>>
    decreases count
  {
    if count == 0 then Some(acc)
    else if !ItemInside(b, at) then None
    else
      var id, text := DWordAt(b, at), ReadText(ParameterKind(DWordAt(b, at)), b[at + 5..at + 5 + b[at + 4]]);
      if text.None? then None
      else ReadReply(if id in acc then acc else acc[id := text.value], b, at + 5 + b[at + 4], count - 1)
  }

  method DealReply(b: seq<Byte>, body: nat, known: map<DWord, Value>) returns (r: Option<map<DWord, Value>>)
    requires body + 3 <= |b|
    ensures r == ReadReply(known, b, body + 3, b[body + 2])
  {
    hide ReadText, ParameterKind, DWordAt;
    var acc: map<DWord, Value> := known;
    var count: int := b[body + 2];
    var at: nat := body + 3;
    while count > 0
      invariant 0 <= count
      invariant ReadReply(acc, b, at, count) == ReadReply(known, b, body + 3, b[body + 2])
    {
      if !ItemInside(b, at) {
        return None;
      }
      var id: DWord, u8val: Byte := DWordAt(b, at), b[at + 4];
      var text := ReadText(ParameterKind(id), b[at + 5..at + 5 + u8val]);
      if text.None? {
        return None;
      }
      acc := if id in acc then acc else acc[id := text.value];
      at := at + 5 + u8val;
      count := count - 1;
    }
    return Some(acc);
  }

  lemma ReadTextRoundTrip(kind: Kind, text: Value)
    requires Canonical(kind, text)
    ensures ReadText(kind, Payload(kind, text)) == Some(text)
  {
    hide Dec, ScanDec, Be16, Be32, WordAt, DWordAt, CString;
    var v := Payload(kind, text);
    match kind
    case ByteKind =>
    case WordKind =>
      assert v[0..2] == Be16(ScanDec(text));
      ReadBack16(ScanDec(text), v, 0);
    case DWordKind =>
      assert v[0..4] == Be32(ScanDec(text));
      ReadBack32(ScanDec(text), v, 0);
    case StringKind =>
      CStringWhole(text, []);
      assert text + [] == text;
  }

  // ---- Items where they lie in a buffer ---------------------------------------------

  predicate CanonicalItems(items: seq<Item>) {
    forall i :: 0 <= i < |items| ==> Canonical(ParameterKind(items[i].id), items[i].text)
  }

  /** Where an item lies in b, it is read as its id and its value. */
  lemma ItemAt(b: seq<Byte>, at: nat, id: DWord, text: Value)
    requires Canonical(ParameterKind(id), text)
    requires at + |ItemBytes(id, text)| <= |b| && b[at..at + |ItemBytes(id, text)|] == ItemBytes(id, text)
    ensures ItemInside(b, at) && DWordAt(b, at) == id && at + 5 + b[at + 4] == at + |ItemBytes(id, text)|
    ensures b[at + 5..at + 5 + b[at + 4]] == Payload(ParameterKind(id), text)
  {
    hide ParameterKind, Payload, Canonical, DWordAt, Be32, ItemBytes;
    var v := Payload(ParameterKind(id), text);
    ItemShape(id, text);
    ItemParts(b, at, Be32(id), |v|, v);
    ReadBack32(id, b, at);
  }

  lemma ItemShape(id: DWord, text: Value)
    requires Canonical(ParameterKind(id), text)
    ensures var v := Payload(ParameterKind(id), text);
            |v| <= 254 && ItemBytes(id, text) == Be32(id) + ([|v|] + v) && |ItemBytes(id, text)| == 5 + |v|
  {
  }

  lemma ItemParts(b: seq<Byte>, at: nat, id: seq<Byte>, length: Byte, v: seq<Byte>)
    requires |id| == 4 && at + 5 + |v| <= |b| && b[at..at + 5 + |v|] == id + ([length] + v)
    ensures b[at..at + 4] == id && b[at + 4] == length && b[at + 5..at + 5 + |v|] == v
  {
    var all := id + ([length] + v);
    BodySlice(b, at, all, 0, 4);
    assert b[at + 0..at + 4] == b[at..at + 4];
    BodySlice(b, at, all, 4, 5);
    assert b[at + 4] == b[at + 4..at + 5][0];
    BodySlice(b, at, all, 5, |all|);
    assert all[5..] == v;
  }

  /** The bytes of a list, from its first item. */
  lemma {:induction false} ItemsFront(items: seq<Item>)
    requires items != []
    ensures ItemsBytes(items) == ItemBytes(items[0].id, items[0].text) + ItemsBytes(items[1..])
    decreases |items|
  {
    hide ItemBytes;
    var n := |items| - 1;
    var front, last := items[..n], ItemBytes(items[n].id, items[n].text);
    if n == 0 {
      assert front == [] && items[1..] == [];
    } else {
      ItemsFront(front);
      var first := ItemBytes(items[0].id, items[0].text);
      var middle := items[1..];
      assert front[1..] == middle[..n - 1] && middle[|middle| - 1] == items[n] && |middle| == n;
      assert ItemsBytes(middle) == ItemsBytes(middle[..n - 1]) + last;
      ConcatAssoc([], first, ItemsBytes(middle[..n - 1]), last);
      assert first + ItemsBytes(middle[..n - 1]) + last == first + (ItemsBytes(middle[..n - 1]) + last);
    }
  }

  lemma SplitItems(b: seq<Byte>, at: nat, items: seq<Item>)
    requires items != [] && at + |ItemsBytes(items)| <= |b| && b[at..at + |ItemsBytes(items)|] == ItemsBytes(items)
    ensures var n := |ItemBytes(items[0].id, items[0].text)|;
            |ItemsBytes(items)| == n + |ItemsBytes(items[1..])|
            && b[at..at + n] == ItemBytes(items[0].id, items[0].text)
            && b[at + n..at + n + |ItemsBytes(items[1..])|] == ItemsBytes(items[1..])
  {
    hide ItemBytes, ItemsBytes;
    ItemsFront(items);
    var n := |ItemBytes(items[0].id, items[0].text)|;
    BodySlice(b, at, ItemsBytes(items), 0, n);
    assert b[at + 0..at + n] == b[at..at + n];
    BodySlice(b, at, ItemsBytes(items), n, |ItemsBytes(items)|);
  }

  /** The parameters with the items of a list stored, later ones over earlier ones. */
  function Updated(m: map<DWord, Value>, items: seq<Item>): map<DWord, Value>
    decreases |items|
  {
    if items == [] then m else Updated(m[items[0].id := items[0].text], items[1..])
  }

  /** The items whose ids are there. */
  function Known(m: map<DWord, Value>, items: seq<Item>): seq<Item>
    decreases |items|
  {
    if items == [] then [] else (if items[0].id in m then [items[0]] else []) + Known(m, items[1..])
  }

  lemma {:induction false} KnownByKeys(m: map<DWord, Value>, m1: map<DWord, Value>, items: seq<Item>)
    requires m.Keys == m1.Keys
    ensures Known(m, items) == Known(m1, items)
    decreases |items|
  {
    if items != [] {
      KnownByKeys(m, m1, items[1..]);
      assert items[0].id in m.Keys <==> items[0].id in m1.Keys;
    }
  }

  lemma {:induction false} AllKnown(m: map<DWord, Value>, items: seq<Item>)
    requires forall i :: 0 <= i < |items| ==> items[i].id in m
    ensures Known(m, items) == items
    decreases |items|
  {
    if items != [] {
      AllKnown(m, items[1..]);
    }
  }

  /** A set message stores the text of every item whose id is there, and passes over the others. */
  lemma {:induction false} SetStores(m: map<DWord, Value>, b: seq<Byte>, at: nat, items: seq<Item>)
    requires CanonicalItems(items)
    requires at + |ItemsBytes(items)| <= |b| && b[at..at + |ItemsBytes(items)|] == ItemsBytes(items)
    ensures Apply(m, b, at, |items|) == Some(Updated(m, Known(m, items)))
    decreases |items|
  {
    hide ItemBytes, ItemsBytes, ParameterKind, Canonical, StoredText, ValueBytes, Payload, Padded, Known;
    KnownUnfolds(m, items);
    if items != [] {
      var id, text := items[0].id, items[0].text;
      var m1 := if id in m then m[id := text] else m;
      SplitItems(b, at, items);
      ItemAt(b, at, id, text);
      ValueRoundTrip(ParameterKind(id), text, if id in m then m[id] else []);
      SetStores(m1, b, at + |ItemBytes(id, text)|, items[1..]);
      assert m1.Keys == m.Keys;
      KnownByKeys(m, m1, items[1..]);
      if id in m {
        UpdatedFront(m, items[0], Known(m, items[1..]));
      }
    }
  }

  lemma KnownUnfolds(m: map<DWord, Value>, items: seq<Item>)
    ensures Known(m, items) == if items == [] then []
                               else if items[0].id in m then [items[0]] + Known(m, items[1..]) else Known(m, items[1..])
  {
  }

  lemma UpdatedFront(m: map<DWord, Value>, first: Item, items: seq<Item>)
    ensures Updated(m, [first] + items) == Updated(m[first.id := first.text], items)
  {
    assert ([first] + items)[1..] == items;
  }

  /** What the reading loop collects from a list of items. */
  function Collected(acc: map<DWord, Value>, items: seq<Item>): map<DWord, Value>
    decreases |items|
  {
    if items == [] then acc
    else Collected(if items[0].id in acc then acc else acc[items[0].id := items[0].text], items[1..])
  }

  lemma {:induction false} ReplyReads(acc: map<DWord, Value>, b: seq<Byte>, at: nat, items: seq<Item>)
    requires CanonicalItems(items)
    requires at + |ItemsBytes(items)| <= |b| && b[at..at + |ItemsBytes(items)|] == ItemsBytes(items)
    ensures ReadReply(acc, b, at, |items|) == Some(Collected(acc, items))
    decreases |items|
  {
    hide ItemBytes, ItemsBytes, ParameterKind, Canonical, ReadText, ValueBytes, Payload;
    if items != [] {
      var id, text := items[0].id, items[0].text;
      SplitItems(b, at, items);
      ItemAt(b, at, id, text);
      ReadTextRoundTrip(ParameterKind(id), text);
      ReplyReads(if id in acc then acc else acc[id := text], b, at + |ItemBytes(id, text)|, items[1..]);
    }
  }
}
