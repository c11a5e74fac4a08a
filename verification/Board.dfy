// The Firmata object: parser state in fields and one shared input buffer, output on a stream.
module Board {
  import opened Digits
  import opened Firmata

  class FirmataClass {
    var waitForData: uint8
    var executeMultiByteCommand: uint8
    var multiByteChannel: uint8
    const storedInputData: array<uint8>
    var parsingSysex: bool
    var sysexBytesRead: nat
    var attached: set<uint8>     // the commands that have a callback
    var calls: seq<Call>         // what the parser has made happen
    var output: seq<uint8>       // what has been written to the stream

    ghost function State(): Parser
      reads this, storedInputData
    {
      Parser(waitForData, executeMultiByteCommand, multiByteChannel, storedInputData[..], parsingSysex, sysexBytesRead)
    }

    ghost predicate Valid()
      reads this, storedInputData
    {
      storedInputData.Length == MAX_DATA_BYTES && State().Valid()
    }

    constructor ()
      ensures Valid() && State() == Reset() && fresh(storedInputData)
      ensures attached == {} && calls == [] && output == []
    {
      storedInputData := new uint8[MAX_DATA_BYTES](_ => 0);
      waitForData, executeMultiByteCommand, multiByteChannel := 0, 0, 0;
      parsingSysex, sysexBytesRead := false, 0;
      attached, calls, output := {}, [], [];
      new;
      assert storedInputData[..] == Zeros(MAX_DATA_BYTES);
    }

    // attach has an overload for every type of callback. Each ignores the commands that it does not
    // know, but the one for sysex takes any command for START_SYSEX.
    method Attach(command: uint8)
      modifies `attached
      ensures attached == old(attached) + ({command} * DATA_COMMANDS)
    {
      if command == ANALOG_MESSAGE || command == DIGITAL_MESSAGE || command == REPORT_ANALOG
          || command == REPORT_DIGITAL || command == SET_PIN_MODE || command == SET_DIGITAL_PIN_VALUE {
        attached := attached + {command};
      }
    }

    method AttachSystemReset(command: uint8)
      modifies `attached
      ensures attached == old(attached) + ({command} * {SYSTEM_RESET})
    {
      if command == SYSTEM_RESET { attached := attached + {SYSTEM_RESET}; }
    }

    method AttachString(command: uint8)
      modifies `attached
      ensures attached == old(attached) + ({command} * {STRING_DATA})
    {
      if command == STRING_DATA { attached := attached + {STRING_DATA}; }
    }

    method AttachSysex(command: uint8)
      modifies `attached
      ensures attached == old(attached) + {START_SYSEX}
    {
      attached := attached + {START_SYSEX};
    }

    // What detach passes on to the first overload of attach, with no callback.
    method DetachData(command: uint8)
      modifies `attached
      ensures attached == old(attached) - ({command} * DATA_COMMANDS)
    {
      if command == ANALOG_MESSAGE || command == DIGITAL_MESSAGE || command == REPORT_ANALOG
          || command == REPORT_DIGITAL || command == SET_PIN_MODE || command == SET_DIGITAL_PIN_VALUE {
        attached := attached - {command};
      }
    }

    // Of the commands that can have a callback every one can lose it.
    method Detach(command: uint8)
      requires attached <= COMMANDS
      modifies `attached
      ensures attached == old(attached) - {command}
    {
      if command == SYSTEM_RESET || command == STRING_DATA || command == START_SYSEX {
        attached := attached - {command};
      } else {
        DetachData(command);
      }
    }

    method SystemReset()
      requires storedInputData.Length == MAX_DATA_BYTES
      modifies `waitForData, `executeMultiByteCommand, `multiByteChannel, `parsingSysex, `sysexBytesRead, `calls,
          storedInputData
      ensures State() == Reset()
      ensures calls == old(calls) + Attached(ResetCall, SYSTEM_RESET, attached)
    {
      waitForData := 0;
      executeMultiByteCommand := 0;
      multiByteChannel := 0;
      var i := 0;
      while i < MAX_DATA_BYTES
        invariant 0 <= i <= MAX_DATA_BYTES && forall j :: 0 <= j < i ==> storedInputData[j] == 0
        modifies storedInputData
      {
        storedInputData[i] := 0;
        i := i + 1;
      }
      assert storedInputData[..] == Zeros(MAX_DATA_BYTES);
      parsingSysex := false;
      sysexBytesRead := 0;
      Fire(ResetCall, SYSTEM_RESET);
    }

    method Fire(call: Call, key: uint8)
      modifies `calls
      ensures calls == old(calls) + Attached(call, key, attached)
    {
      if key in attached { calls := calls + [call]; }
    }

    // The two bytes at i make the character at j.
    method DecodeCharacter(i: uint8, j: uint8) returns (next: uint8)
      requires storedInputData.Length == MAX_DATA_BYTES && j < i < MAX_DATA_BYTES - 1
      modifies storedInputData
      ensures var was := old(storedInputData[..]); storedInputData[..] == was[j := Combine(was[i], was[i + 1])]
      ensures next == i + 2
    {
      storedInputData[j] := storedInputData[i];
      next := i + 1;
      storedInputData[j] := Combine(storedInputData[j], storedInputData[next]);
      next := next + 1;
    }

    // The characters are decoded over the start of the buffer they are read from.
    method DecodeString(bufferLength: uint8)
      requires storedInputData.Length == MAX_DATA_BYTES && 0 < bufferLength <= 31
      modifies storedInputData
      ensures storedInputData[..] == Terminate(DecodeInPlace(old(storedInputData[..]), bufferLength), bufferLength)
    {
      ghost var was := storedInputData[..];
      var i, j := 1, 0;
      DecodeStarts(was);
      while j < bufferLength
        invariant 0 <= j <= bufferLength && i == 2 * j + 1
        invariant storedInputData[..] == DecodeInPlace(was, j)
      {
        DecodeNext(was, j);
        i := DecodeCharacter(i, j);
        j := j + 1;
      }
      if storedInputData[j - 1] != 0 { storedInputData[j] := 0; }
    }

    method ProcessSysexMessage()
      requires Valid() && !parsingSysex && Acceptable(State().(parsingSysex := true), END_SYSEX, attached)
      modifies storedInputData, `calls
      ensures Valid() && State() == SysexDone(old(State()).(parsingSysex := true), attached).0
      ensures calls == old(calls) + SysexDone(old(State()).(parsingSysex := true), attached).1
    {
      match storedInputData[0] {
        case 0x79 => calls := calls + [FirmwarePrinted];
        case 0x71 =>
          if STRING_DATA in attached {
            DecodeString((sysexBytesRead - 1) / 2);
            calls := calls + [StringCall(CString(storedInputData[..]))];
          }
        case _ => Fire(GenericCall(storedInputData[..], sysexBytesRead), START_SYSEX);
      }
    }

    method Parse(inputData: uint8)
      requires Valid() && Acceptable(State(), inputData, attached)
      modifies `waitForData, `executeMultiByteCommand, `multiByteChannel, `parsingSysex, `sysexBytesRead, `calls,
          storedInputData
      ensures Valid() && State() == Step(old(State()), inputData, attached).0
      ensures calls == old(calls) + Step(old(State()), inputData, attached).1
    {
      if parsingSysex {
        if inputData == END_SYSEX {
          parsingSysex := false;
          ProcessSysexMessage();
        } else {
          storedInputData[sysexBytesRead] := inputData;
          sysexBytesRead := sysexBytesRead + 1;
        }
      } else if waitForData > 0 && inputData < 128 {
        ParseData(inputData);
      } else {
        ParseCommand(inputData);
      }
    }

    method ParseData(inputData: uint8)
      requires Valid() && !parsingSysex && waitForData > 0 && inputData < 128
      modifies `waitForData, `executeMultiByteCommand, `calls, storedInputData
      ensures Valid() && State() == Step(old(State()), inputData, attached).0
      ensures calls == old(calls) + Step(old(State()), inputData, attached).1
    {
      waitForData := waitForData - 1;
      storedInputData[waitForData] := inputData;
      if waitForData == 0 && executeMultiByteCommand != 0 {
        match executeMultiByteCommand {
          case 0xE0 => Fire(AnalogCall(multiByteChannel, Fourteen(storedInputData[1], storedInputData[0])),
              ANALOG_MESSAGE);
          case 0x90 => Fire(DigitalCall(multiByteChannel, Fourteen(storedInputData[1], storedInputData[0])),
              DIGITAL_MESSAGE);
          case 0xF4 => Fire(PinModeCall(storedInputData[1], storedInputData[0]), SET_PIN_MODE);
          case 0xF5 => Fire(PinValueCall(storedInputData[1], storedInputData[0]), SET_DIGITAL_PIN_VALUE);
          case 0xC0 => Fire(ReportAnalogCall(multiByteChannel, storedInputData[0]), REPORT_ANALOG);
          case 0xD0 => Fire(ReportDigitalCall(multiByteChannel, storedInputData[0]), REPORT_DIGITAL);
          case _ =>
        }
        executeMultiByteCommand := 0;
      }
    }

    method ParseCommand(inputData: uint8)
      requires Valid() && !parsingSysex
      modifies `waitForData, `executeMultiByteCommand, `multiByteChannel, `parsingSysex, `sysexBytesRead, `calls,
          storedInputData
      ensures Valid() && State() == Command(old(State()), inputData, attached).0
      ensures calls == old(calls) + Command(old(State()), inputData, attached).1
    {
      var command: uint8 := inputData;
      if inputData < 0xF0 {
        command := inputData / 0x10 * 0x10;
        multiByteChannel := inputData % 0x10;
      }
      match command {
        case 0xE0 => waitForData, executeMultiByteCommand := 2, command;
        case 0x90 => waitForData, executeMultiByteCommand := 2, command;
        case 0xF4 => waitForData, executeMultiByteCommand := 2, command;
        case 0xF5 => waitForData, executeMultiByteCommand := 2, command;
        case 0xC0 => waitForData, executeMultiByteCommand := 1, command;
        case 0xD0 => waitForData, executeMultiByteCommand := 1, command;
        case 0xF0 => parsingSysex, sysexBytesRead := true, 0;
        case 0xFF => SystemReset();
        case 0xF9 => calls := calls + [VersionPrinted];
        case _ =>
      }
    }

    // --- Senders ---

    method Write(c: uint8)
      modifies `output
      ensures output == old(output) + [c]
    {
      output := output + [c];
    }

    method SendValueAsTwo7bitBytes(value: int)
      modifies `output
      ensures output == old(output) + SevenBitPair(value)
    {
      Write(value % 128);
      Write(value / 128 % 128);
    }

    method SendAnalog(pin: uint8, value: int)
      modifies `output
      ensures output == old(output) + Print(Analog(pin, value))
    {
      Write(ANALOG_MESSAGE + pin % 16);
      SendValueAsTwo7bitBytes(value);
    }

    method SendDigitalPort(portNumber: uint8, portData: int)
      modifies `output
      ensures output == old(output) + Print(Digital(portNumber, portData))
    {
      ModUnique(portData, 128, 2 * (portData / 0x100) + portData % 0x100 / 128, portData % 0x100 % 128);
      Write(DIGITAL_MESSAGE + portNumber % 16);
      Write(portData % 0x100 % 128);
      Write(portData / 128 % 0x100);
      assert output == old(output) + DigitalBytes(portNumber, portData);
    }

    method SendSysex(command: uint8, bytes: seq<uint8>)
      requires |bytes| < 0x100
      modifies `output
      ensures output == old(output) + Print(Sysex(command, bytes))
    {
      Write(START_SYSEX);
      Write(command);
      var i := 0;
      while i < |bytes|
        invariant 0 <= i <= |bytes|
        invariant output + PairBytes(bytes[i..]) == old(output) + [START_SYSEX, command] + PairBytes(bytes)
      {
        assert bytes[i..][1..] == bytes[i + 1..];
        SendValueAsTwo7bitBytes(bytes[i]);
        i := i + 1;
      }
      assert bytes[i..] == [] && output == old(output) + [START_SYSEX, command] + PairBytes(bytes);
      Write(END_SYSEX);
      assert output == old(output) + SysexBytes(command, bytes);
    }

    // The length is passed on in a byte.
    method SendString(text: seq<uint8>)
      modifies `output
      ensures output == old(output) + Print(Text(text[..|text| % 0x100]))
    {
      SendSysex(STRING_DATA, text[..|text| % 0x100]);
    }
  }
}
