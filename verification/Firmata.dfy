// The Firmata byte stream: a parser that takes one byte at a time, and the functions that print
// what it understands.
module Firmata {
  import opened Digits

  const MAX_DATA_BYTES := 64
  const DIGITAL_MESSAGE: uint8 := 0x90
  const REPORT_ANALOG: uint8 := 0xC0
  const REPORT_DIGITAL: uint8 := 0xD0
  const ANALOG_MESSAGE: uint8 := 0xE0
  const START_SYSEX: uint8 := 0xF0
  const SET_PIN_MODE: uint8 := 0xF4
  const SET_DIGITAL_PIN_VALUE: uint8 := 0xF5
  const END_SYSEX: uint8 := 0xF7
  const REPORT_VERSION: uint8 := 0xF9
  const SYSTEM_RESET: uint8 := 0xFF
  const STRING_DATA: uint8 := 0x71
  const REPORT_FIRMWARE: uint8 := 0x79

  // The commands whose callbacks get a channel or pin and a number, and all that can have a callback.
  const DATA_COMMANDS: set<uint8> :=
    {ANALOG_MESSAGE, DIGITAL_MESSAGE, REPORT_ANALOG, REPORT_DIGITAL, SET_PIN_MODE, SET_DIGITAL_PIN_VALUE}
  const COMMANDS: set<uint8> := DATA_COMMANDS + {SYSTEM_RESET, STRING_DATA, START_SYSEX}

  // What the parser makes happen: callbacks, and answers to the two queries it handles itself.
  datatype Call =
    | AnalogCall(channel: uint8, value: nat)
    | DigitalCall(channel: uint8, value: nat)
    | PinModeCall(pin: uint8, mode: uint8)
    | PinValueCall(pin: uint8, level: uint8)
    | ReportAnalogCall(channel: uint8, flag: uint8)
    | ReportDigitalCall(channel: uint8, flag: uint8)
    | SysexCall(command: uint8, argc: uint8, argv: seq<uint8>)
    | StringCall(text: seq<uint8>)
    | ResetCall
    | VersionPrinted
    | FirmwarePrinted

  datatype Parser = Parser(waitForData: uint8, execute: uint8, channel: uint8, stored: seq<uint8>,
                           parsingSysex: bool, sysexBytesRead: nat)
  {
    predicate Valid() {
      && |stored| == MAX_DATA_BYTES && waitForData <= 2 && channel < 16 && sysexBytesRead <= MAX_DATA_BYTES
      && (waitForData > 0 <==> execute != 0)
      && (execute == REPORT_ANALOG || execute == REPORT_DIGITAL ==> waitForData == 1)
    }

    predicate Idle() { Valid() && waitForData == 0 && !parsingSysex }
  }

  function Zeros(n: nat): (s: seq<uint8>)
    ensures |s| == n && forall i :: 0 <= i < n ==> s[i] == 0
  {
    seq(n, _ => 0)
  }

  function Reset(): (p: Parser)
    ensures p.Idle()
  {
    Parser(0, 0, 0, Zeros(MAX_DATA_BYTES), false, 0)
  }

  // The messages with data bytes that have a callback attached fire it.
  function Attached(call: Call, key: uint8, attached: set<uint8>): seq<Call> { if key in attached then [call] else [] }

  // Two 7-bit bytes, low one first, make a number.
  function Fourteen(lsb: uint8, msb: uint8): nat { msb * 128 + lsb }

  // The call of a complete message; the last data byte received is stored first.
  function Execute(p: Parser, attached: set<uint8>): seq<Call>
    requires |p.stored| == MAX_DATA_BYTES
  {
    var first, last, number := p.stored[1], p.stored[0], Fourteen(p.stored[1], p.stored[0]);
    if p.execute == ANALOG_MESSAGE then Attached(AnalogCall(p.channel, number), ANALOG_MESSAGE, attached)
    else if p.execute == DIGITAL_MESSAGE then Attached(DigitalCall(p.channel, number), DIGITAL_MESSAGE, attached)
    else if p.execute == SET_PIN_MODE then Attached(PinModeCall(first, last), SET_PIN_MODE, attached)
    else if p.execute == SET_DIGITAL_PIN_VALUE then Attached(PinValueCall(first, last), SET_DIGITAL_PIN_VALUE, attached)
    else if p.execute == REPORT_ANALOG then Attached(ReportAnalogCall(p.channel, last), REPORT_ANALOG, attached)
    else if p.execute == REPORT_DIGITAL then Attached(ReportDigitalCall(p.channel, last), REPORT_DIGITAL, attached)
    else []
  }

  // --- Sysex messages ---

  // A byte from two 7-bit ones: what is above 8 bits falls off.
  function Combine(lsb: uint8, msb: uint8): uint8 { (lsb + msb * 128) % 0x100 }

  // The n characters behind the command, decoded over the start of the buffer.
  function DecodeInPlace(stored: seq<uint8>, n: nat): (r: seq<uint8>)
    requires 2 * n < |stored|
    ensures |r| == |stored|
  {
    seq(|stored|, j requires 0 <= j < |stored| =>
      if j < n then Combine(stored[2 * j + 1], stored[2 * j + 2]) else stored[j])
  }

  lemma DecodeStarts(stored: seq<uint8>)
    requires |stored| > 0
    ensures DecodeInPlace(stored, 0) == stored
  {
  }

  // One more character; the bytes that it is made of are still there.
  lemma DecodeNext(stored: seq<uint8>, j: nat)
    requires 2 * (j + 1) < |stored|
    ensures var s := DecodeInPlace(stored, j);
            s[2 * j + 1] == stored[2 * j + 1] && s[2 * j + 2] == stored[2 * j + 2]
            && DecodeInPlace(stored, j + 1) == s[j := Combine(s[2 * j + 1], s[2 * j + 2])]
  {
  }

  function Terminate(stored: seq<uint8>, n: nat): (r: seq<uint8>)
    requires 0 < n < |stored|
    ensures |r| == |stored|
  {
    if stored[n - 1] != 0 then stored[n := 0] else stored
  }

  // The text that a C string function sees.
  function CString(s: seq<uint8>): seq<uint8> {
    if s == [] || s[0] == 0 then [] else [s[0]] + CString(s[1..])
  }

  function Characters(p: Parser): nat { if p.sysexBytesRead == 0 then 0 else (p.sysexBytesRead - 1) / 2 }

  // Bytes at which the source leaves its buffer: more sysex data than it holds, and the end of a string
  // message without a character, which makes it look in front of the first one.
  predicate Acceptable(p: Parser, input: uint8, attached: set<uint8>)
    requires p.Valid()
  {
    p.parsingSysex ==>
      if input != END_SYSEX then p.sysexBytesRead < MAX_DATA_BYTES
      else p.stored[0] == STRING_DATA && STRING_DATA in attached ==> Characters(p) > 0
  }

  function SysexDone(p: Parser, attached: set<uint8>): (Parser, seq<Call>)
    requires p.Valid() && p.parsingSysex && Acceptable(p, END_SYSEX, attached)
  {
    var q := p.(parsingSysex := false);
    if p.stored[0] == REPORT_FIRMWARE then (q, [FirmwarePrinted])
    else if p.stored[0] == STRING_DATA then
      if STRING_DATA in attached then
        var s := Terminate(DecodeInPlace(p.stored, Characters(p)), Characters(p));
        (q.(stored := s), [StringCall(CString(s))])
      else (q, [])
    else (q, Attached(GenericCall(p.stored, p.sysexBytesRead), START_SYSEX, attached))
  }

  // The callback gets the number of bytes behind the command, in a byte, and those of them that are in
  // the buffer. An empty message passes on the byte that happens to be stored first as its command.
  function GenericCall(stored: seq<uint8>, read: nat): Call
    requires |stored| == MAX_DATA_BYTES && read <= MAX_DATA_BYTES
  {
    if read == 0 then SysexCall(stored[0], 255, stored[1..]) else SysexCall(stored[0], read - 1, stored[1..read])
  }

  // --- One byte ---

  // A command byte, whatever was pending.
  function Command(p: Parser, input: uint8, attached: set<uint8>): (Parser, seq<Call>)
    requires p.Valid()
  {
    var command: uint8 := if input < 0xF0 then input / 0x10 * 0x10 else input;
    var q := if input < 0xF0 then p.(channel := input % 0x10) else p;
    if command == ANALOG_MESSAGE || command == DIGITAL_MESSAGE || command == SET_PIN_MODE
        || command == SET_DIGITAL_PIN_VALUE
    then (q.(waitForData := 2, execute := command), [])
    else if command == REPORT_ANALOG || command == REPORT_DIGITAL then (q.(waitForData := 1, execute := command), [])
    else if command == START_SYSEX then (q.(parsingSysex := true, sysexBytesRead := 0), [])
    else if command == SYSTEM_RESET then (Reset(), Attached(ResetCall, SYSTEM_RESET, attached))
    else if command == REPORT_VERSION then (q, [VersionPrinted])
    else (q, [])
  }

  function Step(p: Parser, input: uint8, attached: set<uint8>): (r: (Parser, seq<Call>))
    requires p.Valid() && Acceptable(p, input, attached)
    ensures r.0.Valid()
  {
    if p.parsingSysex then
      if input == END_SYSEX then SysexDone(p, attached)
      else (p.(stored := p.stored[p.sysexBytesRead := input], sysexBytesRead := p.sysexBytesRead + 1), [])
    else if p.waitForData > 0 && input < 128 then
      var q := p.(waitForData := p.waitForData - 1, stored := p.stored[p.waitForData - 1 := input]);
      if q.waitForData == 0 then (q.(execute := 0), Execute(q, attached)) else (q, [])
    else Command(p, input, attached)
  }

  // --- A stream of bytes ---

  predicate Safe(p: Parser, input: seq<uint8>, attached: set<uint8>)
    requires p.Valid()
    decreases |input|
  {
    input == [] || (Acceptable(p, input[0], attached) && Safe(Step(p, input[0], attached).0, input[1..], attached))
  }

  function Feed(p: Parser, input: seq<uint8>, attached: set<uint8>): (r: (Parser, seq<Call>))
    requires p.Valid() && Safe(p, input, attached)
    ensures r.0.Valid()
    decreases |input|
  {
    if input == [] then (p, [])
    else
      var now := Step(p, input[0], attached);
      var later := Feed(now.0, input[1..], attached);
      (later.0, now.1 + later.1)
  }

  // input takes p to q and makes exactly these calls.
  ghost predicate Does(p: Parser, input: seq<uint8>, attached: set<uint8>, q: Parser, calls: seq<Call>) {
    p.Valid() && Safe(p, input, attached) && Feed(p, input, attached) == (q, calls)
  }

  // The first byte, then the others.
  lemma DoesFirst(p: Parser, first: uint8, later: seq<uint8>, attached: set<uint8>, q: Parser, calls: seq<Call>)
    requires p.Valid() && Acceptable(p, first, attached) && Does(Step(p, first, attached).0, later, attached, q, calls)
    ensures Does(p, [first] + later, attached, q, Step(p, first, attached).1 + calls)
  {
    assert ([first] + later)[1..] == later;
  }

  lemma {:induction false} DoesBoth(p: Parser, xs: seq<uint8>, q: Parser, c: seq<Call>,
                                    ys: seq<uint8>, r: Parser, d: seq<Call>, attached: set<uint8>)
    requires Does(p, xs, attached, q, c) && Does(q, ys, attached, r, d)
    ensures Does(p, xs + ys, attached, r, c + d)
    decreases |xs|
  {
    if xs == [] {
      assert xs + ys == ys && c + d == d;
    } else {
      var now := Step(p, xs[0], attached);
      var later := Feed(now.0, xs[1..], attached).1;
      DoesBoth(now.0, xs[1..], q, later, ys, r, d, attached);
      DoesFirst(p, xs[0], xs[1..] + ys, attached, r, later + d);
      assert xs + ys == [xs[0]] + (xs[1..] + ys);
      assert now.1 + (later + d) == (now.1 + later) + d;
    }
  }

  lemma DoesOne(p: Parser, input: uint8, attached: set<uint8>)
    requires p.Valid() && Acceptable(p, input, attached)
    ensures Does(p, [input], attached, Step(p, input, attached).0, Step(p, input, attached).1)
  {
    assert [input][1..] == [];
    var now := Step(p, input, attached);
    assert now.1 + [] == now.1;
    assert Feed(now.0, [], attached) == (now.0, []);
  }

  // --- What the senders print ---

  function Low7(v: int): uint8 { v % 128 }

  // v >> 7
  function Above7(v: int): int { v / 128 }

  function SevenBitPair(v: int): seq<uint8> { [Low7(v), Low7(Above7(v))] }

  function AnalogBytes(pin: uint8, value: int): seq<uint8> { [ANALOG_MESSAGE + pin % 16] + SevenBitPair(value) }

  // The last byte is not cut to seven bits.
  function DigitalBytes(port: uint8, value: int): seq<uint8> {
    [DIGITAL_MESSAGE + port % 16, Low7(value), Above7(value) % 0x100]
  }

  function PairBytes(data: seq<uint8>): (s: seq<uint8>)
    ensures |s| == 2 * |data|
  {
    if data == [] then [] else SevenBitPair(data[0]) + PairBytes(data[1..])
  }

  function SysexBytes(command: uint8, data: seq<uint8>): seq<uint8> {
    [START_SYSEX, command] + PairBytes(data) + [END_SYSEX]
  }

  // The first four have senders here; the others are what a host sends.
  datatype Message =
    | Analog(pin: uint8, value: int)
    | Digital(port: uint8, value: int)
    | Sysex(command: uint8, data: seq<uint8>)
    | Text(text: seq<uint8>)
    | PinMode(pin: uint8, mode: uint8)
    | PinLevel(pin: uint8, level: uint8)
    | ReportAnalog(channel: uint8, flag: uint8)
    | ReportDigital(channel: uint8, flag: uint8)
    | QueryVersion
    | QueryFirmware
    | ResetAll

  function Print(m: Message): seq<uint8>
    requires (m.ReportAnalog? || m.ReportDigital?) ==> m.channel < 16
  {
    match m
    case Analog(pin, value) => AnalogBytes(pin, value)
    case Digital(port, value) => DigitalBytes(port, value)
    case Sysex(command, data) => SysexBytes(command, data)
    case Text(text) => SysexBytes(STRING_DATA, text)
    case PinMode(pin, mode) => [SET_PIN_MODE, pin, mode]
    case PinLevel(pin, level) => [SET_DIGITAL_PIN_VALUE, pin, level]
    case ReportAnalog(channel, flag) => [REPORT_ANALOG + channel, flag]
    case ReportDigital(channel, flag) => [REPORT_DIGITAL + channel, flag]
    case QueryVersion => [REPORT_VERSION]
    case QueryFirmware => SysexBytes(REPORT_FIRMWARE, [])
    case ResetAll => [SYSTEM_RESET]
  }

  // Messages of data bytes that fit the parser's buffer; text is a C string.
  predicate Sendable(m: Message) {
    match m
    case Analog(_, value) => true
    case Digital(_, value) => Above7(value) % 0x100 < 128
    case Sysex(command, data) => command < 128 && command != STRING_DATA && command != REPORT_FIRMWARE && |data| <= 31
    case Text(text) => 1 <= |text| <= 31 && forall i :: 0 <= i < |text| ==> text[i] != 0
    case PinMode(pin, mode) => pin < 128 && mode < 128
    case PinLevel(pin, level) => pin < 128 && level < 128
    case ReportAnalog(channel, flag) => channel < 16 && flag < 128
    case ReportDigital(channel, flag) => channel < 16 && flag < 128
    case _ => true
  }

  predicate AllSendable(ms: seq<Message>) { forall i :: 0 <= i < |ms| ==> Sendable(ms[i]) }

  function PrintAll(ms: seq<Message>): seq<uint8>
    requires AllSendable(ms)
  {
    if ms == [] then [] else Print(ms[0]) + PrintAll(ms[1..])
  }

  // The one call that a message makes.
  function CallOf(m: Message): Call {
    match m
    case Analog(pin, value) => AnalogCall(pin % 16, value % 0x4000)
    case Digital(port, value) => DigitalCall(port % 16, value % 0x4000)
    case Sysex(command, data) => SysexCall(command, 2 * |data| % 0x100, PairBytes(data))
    case Text(text) => StringCall(text)
    case PinMode(pin, mode) => PinModeCall(pin, mode)
    case PinLevel(pin, level) => PinValueCall(pin, level)
    case ReportAnalog(channel, flag) => ReportAnalogCall(channel, flag)
    case ReportDigital(channel, flag) => ReportDigitalCall(channel, flag)
    case QueryVersion => VersionPrinted
    case QueryFirmware => FirmwarePrinted
    case ResetAll => ResetCall
  }

  // Is there a callback for the message? The two queries need none.
  predicate Heeded(m: Message, attached: set<uint8>) {
    match m
    case Analog(_, _) => ANALOG_MESSAGE in attached
    case Digital(_, _) => DIGITAL_MESSAGE in attached
    case Sysex(_, _) => START_SYSEX in attached
    case Text(_) => STRING_DATA in attached
    case PinMode(_, _) => SET_PIN_MODE in attached
    case PinLevel(_, _) => SET_DIGITAL_PIN_VALUE in attached
    case ReportAnalog(_, _) => REPORT_ANALOG in attached
    case ReportDigital(_, _) => REPORT_DIGITAL in attached
    case ResetAll => SYSTEM_RESET in attached
    case _ => true
  }

  function CallsOf(ms: seq<Message>, attached: set<uint8>): seq<Call> {
    if ms == [] then []
    else (if Heeded(ms[0], attached) then [CallOf(ms[0])] else []) + CallsOf(ms[1..], attached)
  }

  // --- Complete messages ---

  // From any state outside a sysex message, however the previous message was cut off, one complete
  // analog message makes exactly its own call, if there is a callback, and leaves nothing pending.
  lemma AnalogMessage(p: Parser, pin: uint8, value: int, attached: set<uint8>) returns (q: Parser)
    requires p.Valid() && !p.parsingSysex
    ensures Does(p, AnalogBytes(pin, value), attached, q,
                 if ANALOG_MESSAGE in attached then [AnalogCall(pin % 16, value % 0x4000)] else [])
    ensures q.Idle()
    ensures q.stored[0] == Low7(Above7(value))
  {
    q := TwoByteMessage(p, ANALOG_MESSAGE + pin % 16, Low7(value), Low7(Above7(value)), attached);
    Halves(value);
  }

  lemma DigitalMessage(p: Parser, port: uint8, value: int, attached: set<uint8>) returns (q: Parser)
    requires p.Valid() && !p.parsingSysex && Above7(value) % 0x100 < 128
    ensures Does(p, DigitalBytes(port, value), attached, q,
                 if DIGITAL_MESSAGE in attached then [DigitalCall(port % 16, value % 0x4000)] else [])
    ensures q.Idle()
  {
    q := TwoByteMessage(p, DIGITAL_MESSAGE + port % 16, Low7(value), Above7(value) % 0x100, attached);
    Halves(value);
  }

  // The two 7-bit halves of the low 14 bits.
  lemma Halves(v: int)
    ensures Fourteen(Low7(v), Low7(Above7(v))) == v % 0x4000
    ensures Above7(v) % 0x100 < 128 ==> Above7(v) % 0x100 == Low7(Above7(v))
  {
    var high := v / 128;
    ModUnique(v, 0x4000, high / 128, high % 128 * 128 + v % 128);
    if high % 0x100 < 128 { ModUnique(high, 128, 2 * (high / 0x100), high % 0x100); }
  }

  // A command byte that waits for two data bytes, and the call it makes of them.
  predicate IsTwoByte(head: uint8) {
    DIGITAL_MESSAGE <= head < DIGITAL_MESSAGE + 16 || ANALOG_MESSAGE <= head < ANALOG_MESSAGE + 16
    || head == SET_PIN_MODE || head == SET_DIGITAL_PIN_VALUE
  }

  function TwoByteCall(head: uint8, a: uint8, b: uint8): Call
    requires IsTwoByte(head)
  {
    if head == SET_PIN_MODE then PinModeCall(a, b)
    else if head == SET_DIGITAL_PIN_VALUE then PinValueCall(a, b)
    else if head >= ANALOG_MESSAGE then AnalogCall(head % 16, Fourteen(a, b))
    else DigitalCall(head % 16, Fourteen(a, b))
  }

  function KeyOf(head: uint8): uint8 { if head < 0xF0 then head / 16 * 16 else head }

  lemma TwoByteMessage(p: Parser, head: uint8, a: uint8, b: uint8, attached: set<uint8>) returns (q: Parser)
    requires p.Valid() && !p.parsingSysex && IsTwoByte(head) && a < 128 && b < 128
    ensures Does(p, [head, a, b], attached, q, if KeyOf(head) in attached then [TwoByteCall(head, a, b)] else [])
    ensures q.Idle() && q.stored[0] == b
  {
    var first := Step(p, head, attached).0;
    assert first.waitForData == 2 && first.execute == KeyOf(head) && (head < 0xF0 ==> first.channel == head % 16);
    var second := Step(first, a, attached).0;
    var done := Step(second, b, attached);
    q := done.0;
    DoesOne(p, head, attached);
    DoesOne(first, a, attached);
    DoesOne(second, b, attached);
    DoesBoth(p, [head], first, [], [a], second, [], attached);
    DoesBoth(p, [head] + [a], second, [] + [], [b], q, done.1, attached);
    assert [head] + [a] + [b] == [head, a, b];
    assert [] + [] + done.1 == done.1;
  }

  function ReportCall(command: uint8, channel: uint8, flag: uint8): Call {
    if command == REPORT_ANALOG then ReportAnalogCall(channel, flag) else ReportDigitalCall(channel, flag)
  }

  lemma ReportMessage(p: Parser, command: uint8, channel: uint8, flag: uint8, attached: set<uint8>) returns (q: Parser)
    requires p.Valid() && !p.parsingSysex && (command == REPORT_ANALOG || command == REPORT_DIGITAL)
    requires channel < 16 && flag < 128
    ensures Does(p, [command + channel, flag], attached, q,
                 if command in attached then [ReportCall(command, channel, flag)] else [])
    ensures q.Idle()
  {
    var first := Step(p, command + channel, attached).0;
    assert first.waitForData == 1 && first.execute == command && first.channel == channel;
    var done := Step(first, flag, attached);
    q := done.0;
    DoesOne(p, command + channel, attached);
    DoesOne(first, flag, attached);
    DoesBoth(p, [command + channel], first, [], [flag], q, done.1, attached);
    assert [command + channel] + [flag] == [command + channel, flag];
    assert [] + done.1 == done.1;
  }

  // A port value whose third byte is not a data byte is lost: that byte is taken for a command.
  lemma DigitalExactly(p: Parser, port: uint8, value: int, attached: set<uint8>)
    requires p.Valid() && !p.parsingSysex && DIGITAL_MESSAGE in attached
    ensures Safe(p, DigitalBytes(port, value), attached)
    ensures Feed(p, DigitalBytes(port, value), attached).1 == [DigitalCall(port % 16, value % 0x4000)]
            <==> Sendable(Digital(port, value))
  {
    if Sendable(Digital(port, value)) {
      var q := DigitalMessage(p, port, value, attached);
    } else {
      DigitalLost(p, DIGITAL_MESSAGE + port % 16, Low7(value), Above7(value) % 0x100, attached);
      var call := DigitalCall(port % 16, value % 0x4000);
      assert call in [call];
    }
  }

  lemma DigitalLost(p: Parser, command: uint8, lsb: uint8, third: uint8, attached: set<uint8>)
    requires p.Valid() && !p.parsingSysex && DIGITAL_MESSAGE <= command < DIGITAL_MESSAGE + 16 && lsb < 128 <= third
    ensures Safe(p, [command, lsb, third], attached)
    ensures forall c :: c in Feed(p, [command, lsb, third], attached).1 ==> c == VersionPrinted || c == ResetCall
  {
    var first := Step(p, command, attached).0;
    assert first.waitForData == 2 && first.execute == DIGITAL_MESSAGE;
    var second := Step(first, lsb, attached).0;
    var last := Step(second, third, attached);
    DoesOne(p, command, attached);
    DoesOne(first, lsb, attached);
    DoesOne(second, third, attached);
    DoesBoth(p, [command], first, [], [lsb], second, [], attached);
    DoesBoth(p, [command] + [lsb], second, [] + [], [third], last.0, last.1, attached);
    assert [command] + [lsb] + [third] == [command, lsb, third];
    assert [] + [] + last.1 == last.1;
  }

  // --- Sysex and string messages ---

  lemma SysexByte(p: Parser, input: uint8, attached: set<uint8>)
    requires p.Valid() && p.parsingSysex && p.sysexBytesRead < MAX_DATA_BYTES && input != END_SYSEX
    ensures var q := p.(stored := p.stored[p.sysexBytesRead := input], sysexBytesRead := p.sysexBytesRead + 1);
            Does(p, [input], attached, q, []) && q.stored[..q.sysexBytesRead] == p.stored[..p.sysexBytesRead] + [input]
  {
    DoesOne(p, input, attached);
  }

  lemma {:induction false} SysexData(p: Parser, input: seq<uint8>, attached: set<uint8>) returns (q: Parser)
    requires p.Valid() && p.parsingSysex && p.sysexBytesRead + |input| <= MAX_DATA_BYTES && END_SYSEX !in input
    ensures Does(p, input, attached, q, [])
    ensures q == p.(stored := q.stored, sysexBytesRead := p.sysexBytesRead + |input|)
    ensures q.stored[..q.sysexBytesRead] == p.stored[..p.sysexBytesRead] + input
    decreases |input|
  {
    if input == [] {
      q := p;
      assert p.stored[..p.sysexBytesRead] + input == p.stored[..p.sysexBytesRead];
    } else {
      SysexByte(p, input[0], attached);
      var r := Step(p, input[0], attached).0;
      q := SysexData(r, input[1..], attached);
      DoesBoth(p, [input[0]], r, [], input[1..], q, [], attached);
      assert [input[0]] + input[1..] == input;
      assert p.stored[..p.sysexBytesRead] + [input[0]] + input[1..] == p.stored[..p.sysexBytesRead] + input;
    }
  }

  lemma {:induction false} PairsAreData(data: seq<uint8>)
    ensures END_SYSEX !in PairBytes(data)
  {
    if data != [] { PairsAreData(data[1..]); }
  }

  // Everything up to the end marker.
  lemma SysexBody(p: Parser, command: uint8, data: seq<uint8>, attached: set<uint8>) returns (q: Parser)
    requires p.Valid() && !p.parsingSysex && command < 128 && |data| <= 31
    ensures Does(p, [START_SYSEX, command] + PairBytes(data), attached, q, [])
    ensures q.parsingSysex && q.waitForData == p.waitForData && q.sysexBytesRead == 1 + 2 * |data|
    ensures q.stored[..q.sysexBytesRead] == [command] + PairBytes(data)
  {
    var body := [command] + PairBytes(data);
    var r := Step(p, START_SYSEX, attached).0;
    DoesOne(p, START_SYSEX, attached);
    PairsAreData(data);
    q := SysexData(r, body, attached);
    DoesBoth(p, [START_SYSEX], r, [], body, q, [], attached);
    assert [START_SYSEX] + body == [START_SYSEX, command] + PairBytes(data);
    assert r.stored[..0] + body == body;
  }

  lemma SysexEnds(p: Parser, command: uint8, data: seq<uint8>, q: Parser, attached: set<uint8>) returns (r: Parser)
    requires Does(p, [START_SYSEX, command] + PairBytes(data), attached, q, []) && q.parsingSysex
             && Acceptable(q, END_SYSEX, attached)
    ensures Does(p, SysexBytes(command, data), attached, r, SysexDone(q, attached).1)
    ensures r == SysexDone(q, attached).0
  {
    r := SysexDone(q, attached).0;
    DoesOne(q, END_SYSEX, attached);
    DoesBoth(p, [START_SYSEX, command] + PairBytes(data), q, [], [END_SYSEX], r, SysexDone(q, attached).1, attached);
    assert [] + SysexDone(q, attached).1 == SysexDone(q, attached).1;
  }

  lemma SysexMessage(p: Parser, command: uint8, data: seq<uint8>, attached: set<uint8>) returns (r: Parser)
    requires p.Idle() && Sendable(Sysex(command, data))
    ensures Does(p, SysexBytes(command, data), attached, r,
                 if START_SYSEX in attached then [SysexCall(command, 2 * |data|, PairBytes(data))] else [])
    ensures r.Idle()
  {
    var q := SysexBody(p, command, data, attached);
    assert q.stored[0] == q.stored[..q.sysexBytesRead][0] == command;
    assert q.stored[1..q.sysexBytesRead] == q.stored[..q.sysexBytesRead][1..] == PairBytes(data);
    r := SysexEnds(p, command, data, q, attached);
  }

  // --- Sysex messages of any body ---

  // The byte that a message is taken by: without a body, one that was stored before.
  function Leading(p: Parser, body: seq<uint8>): uint8
    requires p.Valid()
  {
    if body == [] then p.stored[0] else body[0]
  }

  predicate Generic(command: uint8) { command != REPORT_FIRMWARE && command != STRING_DATA }

  // What the end marker makes of a body, from any state outside sysex.
  lemma SysexOf(p: Parser, body: seq<uint8>, attached: set<uint8>) returns (q: Parser)
    requires p.Valid() && !p.parsingSysex && |body| <= MAX_DATA_BYTES && END_SYSEX !in body
    requires Leading(p, body) == STRING_DATA && STRING_DATA in attached ==> |body| >= 3
    ensures q.Valid() && q.parsingSysex && q.sysexBytesRead == |body| && q.stored[..|body|] == body
    ensures q.stored[0] == Leading(p, body) && (body == [] ==> q.stored == p.stored)
    ensures Acceptable(q, END_SYSEX, attached)
    ensures Does(p, [START_SYSEX] + body + [END_SYSEX], attached, SysexDone(q, attached).0, SysexDone(q, attached).1)
  {
    var r := Step(p, START_SYSEX, attached).0;
    DoesOne(p, START_SYSEX, attached);
    q := SysexData(r, body, attached);
    assert r.stored[..0] + body == body;
    if body == [] { assert Feed(r, body, attached).0 == r; } else { assert q.stored[0] == q.stored[..|body|][0]; }
    DoesBoth(p, [START_SYSEX], r, [], body, q, [], attached);
    DoesOne(q, END_SYSEX, attached);
    var done := SysexDone(q, attached);
    DoesBoth(p, [START_SYSEX] + body, q, [] + [], [END_SYSEX], done.0, done.1, attached);
    assert [] + [] + done.1 == done.1;
  }

  // The callback gets what was sent, command and data with their number, if and only if something was.
  lemma GenericMessage(p: Parser, body: seq<uint8>, attached: set<uint8>) returns (q: Parser, call: Call)
    requires p.Valid() && !p.parsingSysex && START_SYSEX in attached && Generic(Leading(p, body))
    requires |body| <= MAX_DATA_BYTES && END_SYSEX !in body
    ensures Does(p, [START_SYSEX] + body + [END_SYSEX], attached, q, [call]) && call.SysexCall? && !q.parsingSysex
    ensures call.argc == |call.argv| && [call.command] + call.argv == body <==> body != []
  {
    var before := SysexOf(p, body, attached);
    q, call := SysexDone(before, attached).0, GenericCall(before.stored, |body|);
    if body != [] {
      assert before.stored[1..|body|] == before.stored[..|body|][1..];
      assert [body[0]] + body[1..] == body;
    }
  }

  // An empty message is taken for whatever byte was stored first: it calls back with that byte as its
  // command, answers the firmware query, or does nothing.
  lemma EmptySysex(p: Parser, attached: set<uint8>) returns (q: Parser, calls: seq<Call>)
    requires p.Valid() && !p.parsingSysex && START_SYSEX in attached
    requires p.stored[0] == STRING_DATA ==> STRING_DATA !in attached
    ensures Does(p, [START_SYSEX, END_SYSEX], attached, q, calls) && !q.parsingSysex
    ensures calls == [SysexCall(p.stored[0], 255, p.stored[1..])] <==> Generic(p.stored[0])
    ensures calls == [FirmwarePrinted] <==> p.stored[0] == REPORT_FIRMWARE
    ensures calls == [] <==> p.stored[0] == STRING_DATA
  {
    var before := SysexOf(p, [], attached);
    q, calls := SysexDone(before, attached).0, SysexDone(before, attached).1;
    assert [START_SYSEX] + [] + [END_SYSEX] == [START_SYSEX, END_SYSEX];
  }

  // Behind an analog message that byte is the upper half of its value.
  lemma EmptyBehindAnalog(p: Parser, pin: uint8, value: int, attached: set<uint8>) returns (q: Parser, call: Call)
    requires p.Valid() && !p.parsingSysex && ANALOG_MESSAGE in attached && START_SYSEX in attached
    requires Low7(Above7(value)) != STRING_DATA
    ensures Does(p, AnalogBytes(pin, value) + [START_SYSEX, END_SYSEX], attached, q,
                 [AnalogCall(pin % 16, value % 0x4000), call])
    ensures if Low7(Above7(value)) == REPORT_FIRMWARE then call == FirmwarePrinted
            else call.SysexCall? && call.command == Low7(Above7(value)) && call.argc == 255
  {
    var r := AnalogMessage(p, pin, value, attached);
    var calls;
    q, calls := EmptySysex(r, attached);
    call := calls[0];
    DoesBoth(p, AnalogBytes(pin, value), r, [AnalogCall(pin % 16, value % 0x4000)],
             [START_SYSEX, END_SYSEX], q, calls, attached);
    assert [AnalogCall(pin % 16, value % 0x4000)] + calls == [AnalogCall(pin % 16, value % 0x4000), call];
  }

  // From the start, an analog message and an empty one: the data byte 5 comes as a command.
  lemma StaleCommand(attached: set<uint8>) returns (q: Parser, call: Call)
    requires ANALOG_MESSAGE in attached && START_SYSEX in attached
    ensures Does(Reset(), [0xE0, 1, 5, 0xF0, 0xF7], attached, q, [AnalogCall(0, 641), call])
    ensures call.SysexCall? && call.command == 5 && call.argc == 255
  {
    q, call := EmptyBehindAnalog(Reset(), 0, 641, attached);
    assert AnalogBytes(0, 641) + [START_SYSEX, END_SYSEX] == [0xE0, 1, 5, 0xF0, 0xF7];
  }

  lemma {:induction false} PairAt(data: seq<uint8>, j: nat)
    requires j < |data|
    ensures PairBytes(data)[2 * j] == Low7(data[j]) && PairBytes(data)[2 * j + 1] == Low7(Above7(data[j]))
  {
    if j > 0 { PairAt(data[1..], j - 1); }
  }

  lemma CombineHalves(v: uint8)
    ensures Combine(Low7(v), Low7(Above7(v))) == v
  {
  }

  // The pairs of text stand behind the command.
  predicate Stores(stored: seq<uint8>, text: seq<uint8>) {
    |stored| == MAX_DATA_BYTES && |text| <= 31 && stored[..1 + 2 * |text|] == [STRING_DATA] + PairBytes(text)
  }

  lemma StoredPair(stored: seq<uint8>, text: seq<uint8>, j: nat)
    requires Stores(stored, text) && j < |text|
    ensures stored[2 * j + 1] == Low7(text[j]) && stored[2 * j + 2] == Low7(Above7(text[j]))
  {
    var front, pairs := stored[..1 + 2 * |text|], PairBytes(text);
    PairAt(text, j);
    assert front[2 * j + 1] == ([STRING_DATA] + pairs)[2 * j + 1] == pairs[2 * j];
    assert front[2 * j + 2] == ([STRING_DATA] + pairs)[2 * j + 2] == pairs[2 * j + 1];
  }

  lemma CharacterAt(stored: seq<uint8>, text: seq<uint8>, j: nat)
    requires Stores(stored, text) && j < |text|
    ensures DecodeInPlace(stored, |text|)[j] == text[j]
  {
    StoredPair(stored, text, j);
    CombineHalves(text[j]);
  }

  // Decoding over the start of the buffer never overwrites a pair that is still to be read, and
  // restores every byte; a NUL ends the text.
  lemma InPlaceRestores(stored: seq<uint8>, text: seq<uint8>)
    requires Stores(stored, text) && text != []
    ensures var s := Terminate(DecodeInPlace(stored, |text|), |text|);
            s[..|text|] == text && (s[|text| - 1] == 0 || s[|text|] == 0)
  {
    var decoded := DecodeInPlace(stored, |text|);
    forall j | 0 <= j < |text| ensures decoded[j] == text[j] { CharacterAt(stored, text, j); }
    assert decoded[..|text|] == text;
    TerminateKeeps(decoded, |text|);
  }

  lemma TerminateKeeps(s: seq<uint8>, n: nat)
    requires 0 < n < |s|
    ensures Terminate(s, n)[..n] == s[..n] && (Terminate(s, n)[n - 1] == 0 || Terminate(s, n)[n] == 0)
  {
  }

  lemma {:induction false} CStringOf(s: seq<uint8>, text: seq<uint8>)
    requires text <= s && |text| < |s| && s[|text|] == 0 && 0 !in text
    ensures CString(s) == text
    decreases |text|
  {
    if text != [] {
      assert s[0] == text[0] && text[0] in text;
      CStringOf(s[1..], text[1..]);
    }
  }

  lemma TextDelivered(stored: seq<uint8>, text: seq<uint8>)
    requires Stores(stored, text) && Sendable(Text(text))
    ensures CString(Terminate(DecodeInPlace(stored, |text|), |text|)) == text
  {
    InPlaceRestores(stored, text);
    var s := Terminate(DecodeInPlace(stored, |text|), |text|);
    assert s[|text| - 1] == s[..|text|][|text| - 1] == text[|text| - 1];
    CStringOf(s, text);
  }

  lemma TextMessage(p: Parser, text: seq<uint8>, attached: set<uint8>) returns (r: Parser)
    requires p.Idle() && Sendable(Text(text))
    ensures Does(p, SysexBytes(STRING_DATA, text), attached, r,
                 if STRING_DATA in attached then [StringCall(text)] else [])
    ensures r.Idle()
  {
    var q := SysexBody(p, STRING_DATA, text, attached);
    assert q.stored[0] == q.stored[..q.sysexBytesRead][0] == STRING_DATA;
    assert Characters(q) == |text|;
    TextDelivered(q.stored, text);
    r := SysexEnds(p, STRING_DATA, text, q, attached);
  }

  // --- Reset, and bytes in the middle of a message ---

  // Nothing is left of what came before.
  predicate Blank(p: Parser) {
    && p.waitForData == 0 && p.execute == 0 && p.channel == 0 && !p.parsingSysex && p.sysexBytesRead == 0
    && |p.stored| == 64 && forall i :: 0 <= i < 64 ==> p.stored[i] == 0
  }

  lemma ResetNow(p: Parser, attached: set<uint8>)
    requires p.Valid() && !p.parsingSysex
    ensures Blank(Reset())
    ensures Does(p, [SYSTEM_RESET], attached, Reset(), if SYSTEM_RESET in attached then [ResetCall] else [])
  {
    DoesOne(p, SYSTEM_RESET, attached);
  }

  // Whatever was pending, what follows a reset is taken as on a new parser.
  lemma ResetBehind(p: Parser, tail: seq<uint8>, q: Parser, calls: seq<Call>, attached: set<uint8>)
    requires p.Valid() && !p.parsingSysex && Does(Reset(), tail, attached, q, calls)
    ensures Does(p, [SYSTEM_RESET] + tail, attached, q, (if SYSTEM_RESET in attached then [ResetCall] else []) + calls)
  {
    ResetNow(p, attached);
    DoesBoth(p, [SYSTEM_RESET], Reset(), if SYSTEM_RESET in attached then [ResetCall] else [],
             tail, q, calls, attached);
  }

  // A byte that begins no message, where no data is awaited or it is not data: at most the channel
  // changes, and with it the channel of a message that was begun.
  lemma StrayByte(p: Parser, input: uint8, attached: set<uint8>)
    requires p.Valid() && !p.parsingSysex && (p.waitForData == 0 || input >= 128)
    requires KeyOf(input) !in [0x90, 0xC0, 0xD0, 0xE0, 0xF0, 0xF4, 0xF5, 0xF9, 0xFF]
    ensures Does(p, [input], attached, if input < 0xF0 then p.(channel := input % 16) else p, [])
  {
    DoesOne(p, input, attached);
  }

  // A message that a reset cuts off never makes its call.
  lemma ResetCutsOff(attached: set<uint8>) returns (q: Parser)
    requires ANALOG_MESSAGE in attached && SYSTEM_RESET in attached
    ensures Does(Reset(), [0xE0, 0xFF, 1, 2], attached, q, [ResetCall])
  {
    var begun := Step(Reset(), 0xE0, attached).0;
    var one := Reset().(channel := 1);
    DoesOne(Reset(), 0xE0, attached);
    StrayByte(Reset(), 1, attached);
    StrayByte(one, 2, attached);
    q := one.(channel := 2);
    DoesBoth(Reset(), [1], one, [], [2], q, [], attached);
    ResetBehind(begun, [1] + [2], q, [], attached);
    DoesBoth(Reset(), [0xE0], begun, [], [0xFF] + ([1] + [2]), q, [ResetCall] + [], attached);
    assert [0xE0] + ([0xFF] + ([1] + [2])) == [0xE0, 0xFF, 1, 2] && [] + ([ResetCall] + []) == [ResetCall];
  }

  // A query in the middle of a message is answered first, and the message still arrives.
  lemma QueryWithin(p: Parser, head: uint8, a: uint8, b: uint8, attached: set<uint8>) returns (q: Parser)
    requires p.Valid() && !p.parsingSysex && IsTwoByte(head) && KeyOf(head) in attached && a < 128 && b < 128
    ensures Does(p, [head, a, REPORT_VERSION, b], attached, q, [VersionPrinted, TwoByteCall(head, a, b)]) && q.Idle()
  {
    var first := Step(p, head, attached).0;
    assert first.waitForData == 2 && first.execute == KeyOf(head) && (head < 0xF0 ==> first.channel == head % 16);
    var second := Step(first, a, attached).0;
    var done := Step(second, b, attached);
    q := done.0;
    DoesOne(p, head, attached);
    DoesOne(first, a, attached);
    VersionQuery(second, attached);
    DoesOne(second, b, attached);
    DoesBoth(p, [head], first, [], [a], second, [], attached);
    DoesBoth(second, [REPORT_VERSION], second, [VersionPrinted], [b], q, done.1, attached);
    DoesBoth(p, [head] + [a], second, [] + [], [REPORT_VERSION] + [b], q, [VersionPrinted] + done.1, attached);
    assert ([head] + [a]) + ([REPORT_VERSION] + [b]) == [head, a, REPORT_VERSION, b];
    assert ([] + []) + ([VersionPrinted] + done.1) == [VersionPrinted, TwoByteCall(head, a, b)];
  }

  // --- Whole streams ---

  lemma OneMessage(p: Parser, m: Message, attached: set<uint8>) returns (q: Parser)
    requires p.Idle() && Sendable(m)
    ensures Does(p, Print(m), attached, q, if Heeded(m, attached) then [CallOf(m)] else []) && q.Idle()
  {
    match m {
      case Analog(pin, value) => q := AnalogMessage(p, pin, value, attached);
      case Digital(port, value) => q := DigitalMessage(p, port, value, attached);
      case Sysex(command, data) => q := SysexMessage(p, command, data, attached);
      case Text(text) => q := TextMessage(p, text, attached);
      case PinMode(pin, mode) => q := TwoByteMessage(p, SET_PIN_MODE, pin, mode, attached);
      case PinLevel(pin, level) => q := TwoByteMessage(p, SET_DIGITAL_PIN_VALUE, pin, level, attached);
      case ReportAnalog(channel, flag) => q := ReportMessage(p, REPORT_ANALOG, channel, flag, attached);
      case ReportDigital(channel, flag) => q := ReportMessage(p, REPORT_DIGITAL, channel, flag, attached);
      case QueryFirmware => q := FirmwareQuery(p, attached);
      case QueryVersion =>
        q := p;
        VersionQuery(p, attached);
      case ResetAll =>
        q := Reset();
        ResetNow(p, attached);
    }
  }

  // A version query is answered at once, in the middle of a message too, and changes nothing.
  lemma VersionQuery(p: Parser, attached: set<uint8>)
    requires p.Valid() && !p.parsingSysex
    ensures Does(p, [REPORT_VERSION], attached, p, [VersionPrinted])
  {
    DoesOne(p, REPORT_VERSION, attached);
  }

  lemma FirmwareQuery(p: Parser, attached: set<uint8>) returns (r: Parser)
    requires p.Idle()
    ensures Does(p, SysexBytes(REPORT_FIRMWARE, []), attached, r, [FirmwarePrinted]) && r.Idle()
  {
    var q := SysexBody(p, REPORT_FIRMWARE, [], attached);
    assert q.stored[0] == q.stored[..q.sysexBytesRead][0] == REPORT_FIRMWARE;
    r := SysexEnds(p, REPORT_FIRMWARE, [], q, attached);
  }

  // Parsing what was printed makes exactly the calls of the messages that there are callbacks for, in
  // order, and ends idle.
  lemma {:induction false} StreamRoundTrip(p: Parser, ms: seq<Message>, attached: set<uint8>) returns (q: Parser)
    requires p.Idle() && AllSendable(ms)
    ensures Does(p, PrintAll(ms), attached, q, CallsOf(ms, attached)) && q.Idle()
    decreases |ms|
  {
    if ms == [] {
      q := p;
    } else {
      var r := OneMessage(p, ms[0], attached);
      q := StreamRoundTrip(r, ms[1..], attached);
      DoesBoth(p, Print(ms[0]), r, if Heeded(ms[0], attached) then [CallOf(ms[0])] else [],
               PrintAll(ms[1..]), q, CallsOf(ms[1..], attached), attached);
    }
  }

  // After the end marker no parser is inside a sysex message, wherever it was before, so the next
  // analog message gets through.
  lemma Resynchronised(p: Parser, pin: uint8, value: int, attached: set<uint8>) returns (q: Parser)
    requires p.Valid() && Acceptable(p, END_SYSEX, attached) && ANALOG_MESSAGE in attached
    ensures Does(p, [END_SYSEX] + AnalogBytes(pin, value), attached, q,
                 Step(p, END_SYSEX, attached).1 + [AnalogCall(pin % 16, value % 0x4000)])
    ensures q.Idle()
  {
    var ended := Step(p, END_SYSEX, attached);
    assert !ended.0.parsingSysex;
    DoesOne(p, END_SYSEX, attached);
    q := AnalogMessage(ended.0, pin, value, attached);
    DoesBoth(p, [END_SYSEX], ended.0, ended.1,
             AnalogBytes(pin, value), q, [AnalogCall(pin % 16, value % 0x4000)], attached);
  }

  // --- The bytes themselves ---

  // One message of every kind as it stands on the wire, and the call that it makes.
  lemma SampleMessages()
    ensures Print(Analog(3, 261)) == [0xE3, 5, 2] && CallOf(Analog(3, 261)) == AnalogCall(3, 261)
    ensures Print(Digital(1, 129)) == [0x91, 1, 1] && CallOf(Digital(1, 129)) == DigitalCall(1, 129)
    ensures Print(PinMode(13, 1)) == [0xF4, 13, 1] && CallOf(PinMode(13, 1)) == PinModeCall(13, 1)
    ensures Print(PinLevel(13, 0)) == [0xF5, 13, 0] && CallOf(PinLevel(13, 0)) == PinValueCall(13, 0)
    ensures Print(ReportAnalog(2, 1)) == [0xC2, 1] && CallOf(ReportAnalog(2, 1)) == ReportAnalogCall(2, 1)
    ensures Print(ReportDigital(1, 0)) == [0xD1, 0] && CallOf(ReportDigital(1, 0)) == ReportDigitalCall(1, 0)
    ensures Print(QueryVersion) == [0xF9] && Print(ResetAll) == [0xFF]
  {
  }

  lemma SampleSysex()
    ensures Print(QueryFirmware) == [0xF0, 0x79, 0xF7]
    ensures Print(Sysex(0x10, [0xC1])) == [0xF0, 0x10, 0x41, 1, 0xF7]
            && CallOf(Sysex(0x10, [0xC1])) == SysexCall(0x10, 2, [0x41, 1])
    ensures Print(Text([0x48, 0xE9])) == [0xF0, 0x71, 0x48, 0, 0x69, 1, 0xF7]
            && CallOf(Text([0x48, 0xE9])) == StringCall([0x48, 0xE9])
  {
    assert PairBytes([]) == [];
    assert [0xC1][1..] == [] && PairBytes([0xC1]) == [0x41, 1] + [] == [0x41, 1];
    assert [0xE9][1..] == [] && PairBytes([0xE9]) == [0x69, 1] + [] == [0x69, 1];
    assert [0x48, 0xE9][1..] == [0xE9] && PairBytes([0x48, 0xE9]) == [0x48, 0] + [0x69, 1] == [0x48, 0, 0x69, 1];
  }
}
