/** How the service finds the device a frame is from: by six bytes of its phone number, in an
    array that is not cleared between two devices. */
module Devices {
  import opened Bcd
  import opened Bytes
  import opened Wrappers

  const REGISTER_SUCCESS: Byte := 0
  const NO_SUCH_VEHICLE: Byte := 2
  const TERMINAL_REGISTERED: Byte := 3
  const NO_SUCH_TERMINAL: Byte := 4

  /** DeviceNode, as far as a registration looks at it. */
  datatype Device = Device(phone: seq<Byte>, authen: seq<Byte>, connected: bool)

  /** The digits DeviceNode.phone_num holds with a terminating zero. */
  predicate Number(s: seq<Byte>) {
    Digits(s) && |s| <= 11
  }

  predicate Numbers(phones: seq<seq<Byte>>) {
    forall i :: 0 <= i < |phones| ==> Number(phones[i])
  }

  /** The bytes a number is compressed to, and the zero behind them. */
  function Written(s: seq<Byte>): (w: seq<Byte>)
    requires Number(s)
    ensures |w| == (|s| + 1) / 2 + 1 <= 7
  {
    CompressedIsValid(s);
    Compress(s) + [0]
  }

  /** The array when w has been written to its front. */
  function Over(a: seq<Byte>, w: seq<Byte>): (b: seq<Byte>)
    requires |w| <= |a|
    ensures |b| == |a| && forall i :: 0 <= i < |b| ==> b[i] == if i < |w| then w[i] else a[i]
  {
    w + a[|w|..]
  }

  const CLEAR: seq<Byte> := [0, 0, 0, 0, 0, 0, 0, 0, 0, 0, 0, 0]

  /** The first device whose number, in the array as the devices before it have left it, has
      the six bytes of the header. */
  function First(a: seq<Byte>, phones: seq<seq<Byte>>, header: seq<Byte>): (r: Option<nat>)
    requires |a| == 12 && Numbers(phones)
    ensures r.Some? ==> r.value < |phones|
    decreases |phones|
  {
    hide Written, Over, Digits;
    if phones == [] then None
    else
      var b := Over(a, Written(phones[0]));
      if b[..6] == header then Some(0)
      else
        var r := First(b, phones[1..], header);
        if r.None? then None else Some(r.value + 1)
  }

  function Phones(devices: seq<Device>): (phones: seq<seq<Byte>>)
    ensures |phones| == |devices| && forall i :: 0 <= i < |phones| ==> phones[i] == devices[i].phone
  {
    seq(|devices|, i requires 0 <= i < |devices| => devices[i].phone)
  }

  /** What a registration finds: the result, and the code to authenticate with. */
  function Registered(devices: seq<Device>, header: seq<Byte>): (Byte, seq<Byte>)
    requires Numbers(Phones(devices))
  {
    var r := First(CLEAR, Phones(devices), header);
    if devices == [] then (NO_SUCH_VEHICLE, [])
    else if r.None? then (NO_SUCH_TERMINAL, [])
    else if devices[r.value].connected then (TERMINAL_REGISTERED, [])
    else (REGISTER_SUCCESS, devices[r.value].authen)
  }

  /** The UP_REGISTER branch. */
  method Register(devices: seq<Device>, header: seq<Byte>) returns (result: Byte, authen: seq<Byte>)
    requires Numbers(Phones(devices)) && |header| == 6
    ensures (result, authen) == Registered(devices, header)
  {
    hide Compress, Written, First, Digits;
    var phoneNum := new Byte[12](_ => 0);
    result, authen := NO_SUCH_VEHICLE, [];
    ghost var phones := Phones(devices);
    assert phoneNum[..] == CLEAR && phones[0..] == phones;
    if devices != [] {
      result := NO_SUCH_TERMINAL;
    }
    for i := 0 to |devices|
      invariant fresh(phoneNum) && phoneNum.Length == 12
      invariant result == (if devices == [] then NO_SUCH_VEHICLE else NO_SUCH_TERMINAL) && authen == []
      invariant Later(phoneNum[..], phones, i, header) == First(CLEAR, phones, header)
    {
      LaterNext(phoneNum[..], phones, i, header);
      StorePhone(phoneNum, devices[i].phone);
      if phoneNum[..6] == header {
        result := TERMINAL_REGISTERED;
        if !devices[i].connected {
          authen := devices[i].authen;
          result := REGISTER_SUCCESS;
        }
        return;
      }
    }
  }

  /** What a registration answers: a code only for a device that is found and is not connected,
      and then its own; 3 for one that is connected, 4 for none, and 2 without any device. */
  lemma RegisteredIs(devices: seq<Device>, header: seq<Byte>)
    requires Numbers(Phones(devices))
    ensures var (result, authen), found := Registered(devices, header), First(CLEAR, Phones(devices), header);
            && (result == 0 <==> found.Some? && !devices[found.value].connected)
            && (result == 0 ==> authen == devices[found.value].authen) && (result != 0 ==> authen == [])
            && (result == 3 <==> found.Some? && devices[found.value].connected)
            && (result == 4 <==> found.None? && devices != [])
            && (result == 2 <==> devices == [])
  {
    hide Written, Over, Digits;
  }

  /** With numbers of nine to eleven digits, the first excepted, a terminal gets the code of the
      first device with its twelve digits, if that one is not connected. */
  lemma RegistrationIs(devices: seq<Device>, t: seq<Byte>)
    requires Number(t) && Numbers(Phones(devices))
    requires forall k :: 1 <= k < |devices| ==> |Phones(devices)[k]| >= 9
    ensures var found := FirstWith(Phones(devices), t);
            found.Some? ==> Registered(devices, SixBytes(t))
                            == if devices[found.value].connected then (3, []) else (0, devices[found.value].authen)
    ensures FirstWith(Phones(devices), t).None? && devices != [] ==> Registered(devices, SixBytes(t)) == (4, [])
  {
    hide First, TwelveDigits, SixBytes, FirstWith, Digits, Registered, Phones, Numbers;
    LongNumbersAreFound(CLEAR, Phones(devices), t);
    RegisteredIs(devices, SixBytes(t));
  }

  /** The device found from the i-th on. */
  function Later(a: seq<Byte>, phones: seq<seq<Byte>>, i: nat, header: seq<Byte>): Option<nat>
    requires |a| == 12 && Numbers(phones) && i <= |phones|
  {
    var r := First(a, phones[i..], header);
    if r.None? then None else Some(r.value + i)
  }

  lemma LaterNext(a: seq<Byte>, phones: seq<seq<Byte>>, i: nat, header: seq<Byte>)
    requires |a| == 12 && Numbers(phones) && i < |phones|
    ensures var b := Over(a, Written(phones[i]));
            Later(a, phones, i, header) == if b[..6] == header then Some(i) else Later(b, phones, i + 1, header)
  {
    hide Compress, Written;
    assert phones[i..][0] == phones[i] && phones[i..][1..] == phones[i + 1..];
  }

  /** BcdFromStringCompress into the front of the array. */
  method StorePhone(a: array<Byte>, phone: seq<Byte>)
    requires Number(phone) && a.Length == 12
    modifies a
    ensures a[..] == Over(old(a[..]), Written(phone))
  {
    hide Compress;
    ghost var before := a[..];
    var w := BcdFromStringCompress(phone);
    assert w == Written(phone);
    forall i | 0 <= i < |w| {
      a[i] := w[i];
    }
    assert a[..] == Over(before, w);
  }

  // ---- Which device is found --------------------------------------------------------

  /** How many of the six bytes a number writes, its zero included. */
  function Reach(s: seq<Byte>): (n: nat)
    requires Number(s)
    ensures 1 <= n <= 6 && (|s| >= 9 ==> n == 6)
  {
    if (|s| + 1) / 2 + 1 < 6 then (|s| + 1) / 2 + 1 else 6
  }

  /** The number's bytes are its six bytes in a clear array, as far as they reach. */
  lemma WrittenReaches(s: seq<Byte>)
    requires Number(s)
    ensures Reach(s) <= |Written(s)| && Written(s)[..Reach(s)] == SixBytes(s)[..Reach(s)]
    ensures forall i :: Reach(s) <= i < 6 ==> SixBytes(s)[i] == 0
  {
    hide Pairs, Pack;
    CompressedIsValid(s);
    var c := Compress(s);
    var six := c + seq(6, _ => 0);
    assert SixBytes(s) == six[..6];
  }

  /** A device is taken for terminal t, in an array other devices have been written to, exactly
      if its number agrees with t's as far as it reaches and the bytes left over are t's. */
  lemma TakenExactlyWhen(a: seq<Byte>, s: seq<Byte>, t: seq<Byte>)
    requires |a| == 12 && Number(s) && Number(t)
    ensures Over(a, Written(s))[..6] == SixBytes(t)
       <==> SixBytes(s)[..Reach(s)] == SixBytes(t)[..Reach(s)] && a[Reach(s)..6] == SixBytes(t)[Reach(s)..]
  {
    hide Compress, Written, SixBytes, Over, Digits;
    WrittenReaches(s);
    SplitAt(Over(a, Written(s))[..6], SixBytes(t), Reach(s));
    assert Over(a, Written(s))[..6][..Reach(s)] == Written(s)[..Reach(s)];
    assert Over(a, Written(s))[..6][Reach(s)..] == a[Reach(s)..6] by { BehindReach(a, s); }
  }

  lemma SplitAt(a: seq<Byte>, b: seq<Byte>, n: nat)
    requires |a| == |b| && n <= |a|
    ensures a == b <==> a[..n] == b[..n] && a[n..] == b[n..]
  {
    assert a == a[..n] + a[n..] && b == b[..n] + b[n..];
  }

  lemma BehindReach(a: seq<Byte>, s: seq<Byte>)
    requires |a| == 12 && Number(s)
    ensures Over(a, Written(s))[..6][Reach(s)..] == a[Reach(s)..6]
  {
    hide Compress, Digits;
  }

  /** A terminal's own device, or one with the same twelve digits, is taken for it exactly if
      the bytes its number does not reach are still zero. */
  lemma OwnDeviceExactlyWhen(a: seq<Byte>, s: seq<Byte>, t: seq<Byte>)
    requires |a| == 12 && Number(s) && Number(t) && TwelveDigits(s) == TwelveDigits(t)
    ensures Over(a, Written(s))[..6] == SixBytes(t) <==> forall i :: Reach(s) <= i < 6 ==> a[i] == 0
  {
    hide Compress, Written, SixBytes, Over, TwelveDigits, Digits;
    SameBytesExactlyWhen(s, t);
    WrittenReaches(s);
    TakenExactlyWhen(a, s, t);
    var n := Reach(s);
    var left, right := a[n..6], SixBytes(t)[n..];
    forall i | n <= i < 6
      ensures left[i - n] == a[i] && right[i - n] == 0
    {
      assert SixBytes(t)[i] == SixBytes(s)[i];
    }
    assert left == right <==> forall i :: 0 <= i < 6 - n ==> left[i] == right[i];
  }

  /** Over a clear array, and for numbers of nine digits and more over any, exactly the numbers
      with the same twelve digits are taken. */
  lemma ClearOrLong(a: seq<Byte>, s: seq<Byte>, t: seq<Byte>)
    requires |a| == 12 && Number(s) && Number(t) && (a == CLEAR || |s| >= 9)
    ensures Over(a, Written(s))[..6] == SixBytes(t) <==> TwelveDigits(s) == TwelveDigits(t)
  {
    hide Compress, Written, SixBytes, Over, TwelveDigits, Digits;
    SameBytesExactlyWhen(s, t);
    WrittenReaches(s);
    TakenExactlyWhen(a, s, t);
    SplitAt(SixBytes(s), SixBytes(t), Reach(s));
    assert SixBytes(s)[Reach(s)..] == CLEAR[Reach(s)..6];
  }

  /** The index of the first number with the twelve digits of t. */
  function FirstWith(phones: seq<seq<Byte>>, t: seq<Byte>): (r: Option<nat>)
    requires Numbers(phones) && Number(t)
    ensures r.Some? ==> r.value < |phones| && TwelveDigits(phones[r.value]) == TwelveDigits(t)
    ensures forall i :: 0 <= i < (if r.Some? then r.value else |phones|) ==>
                          TwelveDigits(phones[i]) != TwelveDigits(t)
  {
    hide TwelveDigits, Digits;
    if phones == [] then None
    else if TwelveDigits(phones[0]) == TwelveDigits(t) then Some(0)
    else
      var r := FirstWith(phones[1..], t);
      assert forall i :: 0 < i < |phones| ==> phones[i] == phones[1..][i - 1];
      if r.None? then None else Some(r.value + 1)
  }

  /** With numbers of nine to eleven digits the service finds the device it should. */
  lemma {:induction false} LongNumbersAreFound(a: seq<Byte>, phones: seq<seq<Byte>>, t: seq<Byte>)
    requires |a| == 12 && Numbers(phones) && Number(t)
    requires forall i :: (if a == CLEAR then 1 else 0) <= i < |phones| ==> |phones[i]| >= 9
    ensures First(a, phones, SixBytes(t)) == FirstWith(phones, t)
    decreases |phones|
  {
    hide Compress, Written, SixBytes, Over, TwelveDigits, Digits;
    if phones != [] {
      ClearOrLong(a, phones[0], t);
      assert forall i :: 0 <= i < |phones| - 1 ==> phones[1..][i] == phones[i + 1];
      LongNumbersAreFound(Over(a, Written(phones[0])), phones[1..], t);
    }
  }

  // ---- The bytes left over ----------------------------------------------------------

  /** The array after these numbers. */
  function After(phones: seq<seq<Byte>>): (a: seq<Byte>)
    requires Numbers(phones)
    ensures |a| == 12
  {
    hide Written, Over, Digits;
    if phones == [] then CLEAR else Over(After(phones[..|phones| - 1]), Written(phones[|phones| - 1]))
  }

  /** Where the first numbers of a list are not taken, the search goes on in the array they
      leave. */
  lemma {:induction false} FirstBehind(done: seq<seq<Byte>>, phones: seq<seq<Byte>>, i: nat, header: seq<Byte>)
    requires Numbers(done) && Numbers(phones) && i <= |phones|
    requires First(After(done), phones[..i], header).None?
    ensures First(After(done), phones, header) == Later(After(done + phones[..i]), phones, i, header)
    decreases i
  {
    hide Written, Over, Digits, After;
    if i == 0 {
      assert done + phones[..0] == done && phones[0..] == phones;
    } else {
      AfterOne(done, phones[0]);
      assert phones[..i][0] == phones[0] && phones[..i][1..] == phones[1..][..i - 1];
      FirstBehind(done + [phones[0]], phones[1..], i - 1, header);
      assert done + [phones[0]] + phones[1..][..i - 1] == done + phones[..i];
      assert phones[1..][i - 1..] == phones[i..];
    }
  }

  lemma AfterOne(done: seq<seq<Byte>>, phone: seq<Byte>)
    requires Numbers(done) && Number(phone)
    ensures After(done + [phone]) == Over(After(done), Written(phone))
  {
    hide Written, Over, Digits;
    assert (done + [phone])[..|done|] == done;
  }

  lemma AfterNone()
    ensures After([]) == CLEAR
  {
  }

  lemma StartsClear(phones: seq<seq<Byte>>, i: nat)
    requires Numbers(phones) && i <= |phones|
    ensures i == 0 ==> After(phones[..i]) == CLEAR
  {
    AfterNone();
    assert i == 0 ==> phones[..i] == [];
  }

  /** A list of numbers of any length, exactly: where no device before it is taken for the
      terminal, its own device is found if and only if it is the first, or has at least nine
      digits, or else finds zeros in the bytes that the devices before it have left over. */
  lemma FoundExactlyWhen(phones: seq<seq<Byte>>, i: nat, t: seq<Byte>)
    requires Numbers(phones) && Number(t) && i < |phones| && TwelveDigits(phones[i]) == TwelveDigits(t)
    requires First(CLEAR, phones[..i], SixBytes(t)).None?
    ensures First(CLEAR, phones, SixBytes(t)) == Some(i)
       <==> i == 0 || |phones[i]| >= 9 || forall m :: Reach(phones[i]) <= m < 6 ==> After(phones[..i])[m] == 0
  {
    hide Compress, Written, SixBytes, Over, TwelveDigits, Digits, Reach, After, First;
    AfterNone();
    assert [] + phones[..i] == phones[..i];
    FirstBehind([], phones, i, SixBytes(t));
    StartsClear(phones, i);
    LaterNext(After(phones[..i]), phones, i, SixBytes(t));
    OwnDeviceExactlyWhen(After(phones[..i]), phones[i], t);
    if |phones[i]| >= 9 || i == 0 {
      ClearOrLong(After(phones[..i]), phones[i], t);
    }
  }

  const LONG: seq<Byte> := [0x31, 0x33, 0x38, 0x32, 0x36, 0x35, 0x33, 0x39, 0x38, 0x35, 0x31]
  const SHORT: seq<Byte> := [0x31, 0x33]

  lemma BothAreNumbers()
    ensures Number(LONG) && Number(SHORT) && Reach(SHORT) == 2
  {
  }

  /** The third byte of 13826539851 is 0x26. */
  lemma ThirdByte()
    ensures Number(LONG) && |Written(LONG)| > 2 && Written(LONG)[2] == 0x26
  {
    hide Compress, Digits;
    BothAreNumbers();
    var t := LONG[1..];
    assert LONG == [LONG[0]] + t;
    assert Digits(t) by { WithoutFirst(LONG); }
    CompressedOdd(LONG[0], t);
    CompressedEven(t, 1);
    assert t[2] == 0x32 && t[3] == 0x36;
  }

  lemma WithoutFirst(s: seq<Byte>)
    requires s != [] && Digits(s)
    ensures Digits(s[1..]) && IsDigit(s[0])
  {
  }

  /** The smallest failure: after 13826539851 the service does not find the device 13. */
  lemma ShortNumberIsMissed()
    ensures Numbers([LONG, SHORT]) && First(CLEAR, [LONG, SHORT], SixBytes(SHORT)) == None
  {
    hide Compress, Written, SixBytes, Over, Digits, Reach, First, After;
    var phones := [LONG, SHORT];
    BothAreNumbers();
    ThirdByte();
    assert TwelveDigits(LONG)[0] == 0x30 && TwelveDigits(SHORT)[0] == 0x31;
    ClearOrLong(CLEAR, LONG, SHORT);
    OnlyOne(LONG, SixBytes(SHORT));
    assert phones[..1] == [LONG];
    FoundExactlyWhen(phones, 1, SHORT);
    AfterNone();
    AfterOne([], LONG);
    assert [] + [LONG] == [LONG];
    assert After([LONG])[2] == 0x26;
    FirstBehind([], phones, 1, SixBytes(SHORT));
    assert [] + phones[..1] == phones[..1];
  }

  lemma OnlyOne(s: seq<Byte>, header: seq<Byte>)
    requires Number(s) && Over(CLEAR, Written(s))[..6] != header
    ensures First(CLEAR, [s], header).None?
  {
    hide Written, Over, Digits;
    assert [s][1..] == [];
  }
}
