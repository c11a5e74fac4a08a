// The decoders, as loops over the receiver's buffer that update the decoder's fields.
module Decoder {
  import opened Digits
  import opened Pulse
  import opened Wire
  import opened PhaseCode
  import opened Protocols
  import opened Scan

  class IRdecode {
    const decodeBuffer: array<uint16>
    var decodeLength: uint8
    var protocolNum: uint8
    var value: uint32
    var address: uint16
    var bits: uint8
    var offset: uint8
    var nBits: uint8
    var used: uint8
    var data: uint32
    var cmdType: uint16
    var cmdData: uint8

    ghost predicate Valid() reads `decodeLength { decodeLength <= decodeBuffer.Length == 100 }

    // The recorded frame: the gap before it, then marks at odd and spaces at even indices.
    ghost function Recording(): seq<uint16>
      requires Valid()
      reads `decodeLength, decodeBuffer
    {
      decodeBuffer[..decodeLength]
    }

    function Fields(): Decoded
      reads `protocolNum, `value, `address, `bits
    {
      Decoded(protocolNum, value, address, bits)
    }

    constructor (buffer: array<uint16>)
      requires buffer.Length == 100
      ensures Valid() && decodeBuffer == buffer && Fields() == Decoded(0, 0, 0, 0)
    {
      decodeBuffer, decodeLength := buffer, 0;
      protocolNum, value, address, bits := 0, 0, 0, 0;
      offset, nBits, used, data, cmdType, cmdData := 0, 0, 0, 0, 0, 0;
    }

    method ResetDecoder()
      modifies `protocolNum, `value, `address, `bits
      ensures Fields() == Decoded(0, 0, 0, 0)
    {
      protocolNum, value, address, bits := 0, 0, 0, 0;
    }

    // --- Registers that the bits are shifted into, behind those of done ---

    method ShiftValue(bit: nat, ghost done: seq<nat>)
      requires value == Low32(Val(done, 2))
      modifies `value
      ensures value == Low32(Val(done + [bit], 2))
    {
      ShiftIn32(done, bit, 2);
      value := Shift32(value, 2, bit);
    }

    method ShiftData(bit: nat, ghost done: seq<nat>)
      requires data == Low32(Val(done, 2))
      modifies `data
      ensures data == Low32(Val(done + [bit], 2))
    {
      ShiftIn32(done, bit, 2);
      data := Shift32(data, 2, bit);
    }

    static method Shift(x: uint64, bit: nat, ghost done: seq<nat>) returns (y: uint64)
      requires x == Low64(Val(done, 2))
      ensures y == Low64(Val(done + [bit], 2))
    {
      ShiftIn64(done, bit);
      y := Shift64(x, bit);
    }

    // --- Pulse-coded frames ---

    // One data bit: two entries, the second of which tells a one from a zero. done was read before.
    method ReadBit(mark: uint16, one: uint16, zero: uint16, ghost b: seq<uint16>, ghost done: seq<nat>)
        returns (ok: bool, bit: nat)
      requires Valid() && offset + 1 < decodeLength
      requires offset + 2 <= |b| && b[offset] == decodeBuffer[offset] && b[offset + 1] == decodeBuffer[offset + 1]
      modifies `offset
      ensures var a := PulseDistance(mark, one, zero);
              if ok
              then offset == old(offset) + 2 && Pending(b, offset, a, done + [bit]) == Pending(b, old(offset), a, done)
              else Pending(b, old(offset), a, done).None?
    {
      PulseStep(b, offset, mark, one, zero, done);
      if !Match(decodeBuffer[offset], mark) { return false, 0; }
      offset := offset + 1;
      if Match(decodeBuffer[offset], one) {
        bit := 1;
      } else if Match(decodeBuffer[offset], zero) {
        bit := 0;
      } else {
        return false, 0;
      }
      offset := offset + 1;
      ok := true;
    }

    // The data loop of decodeGeneric.
    method ReadPairs(last: uint8, mark: uint16, one: uint16, zero: uint16, ghost whole: Option<seq<nat>>)
        returns (ok: bool, x: uint64)
      requires Valid() && last + 1 == decodeLength
      requires whole == Parse(decodeBuffer[..PairsEnd(decodeLength)][3..], PulseDistance(mark, one, zero))
      modifies `offset
      ensures ok <==> whole.Some?
      ensures ok ==> x == Low64(Val(whole.value, 2)) && offset == 3 + 2 * |whole.value|
    {
      ghost var b, a, done := decodeBuffer[..PairsEnd(decodeLength)], PulseDistance(mark, one, zero), [];
      x, offset := 0, 3;
      PendingStarts(b, 3, a);
      while offset < last
        invariant 3 <= offset <= |b| && offset == 3 + 2 * |done|
        invariant Pending(b, offset, a, done) == whole && x == Low64(Val(done, 2))
      {
        var more, bit := ReadBit(mark, one, zero, b, done);
        if !more { return false, x; }
        x := Shift(x, bit, done);
        done := done + [bit];
      }
      PendingEnds(b, a, done);
      return true, x;
    }

    // expectedLength 0 skips the test of the length, headMark 0 and headSpace 0 those of the header.
    method DecodeGeneric(expectedLength: uint8, headMark: uint16, headSpace: uint16,
                         mark: uint16, one: uint16, zero: uint16)
        returns (ok: bool)
      requires Valid() && (expectedLength != 0 || decodeLength != 0)
      modifies `protocolNum, `value, `address, `bits, `offset
      ensures expectedLength != 0 && decodeLength != expectedLength ==> !ok
      ensures expectedLength == 0 || decodeLength == expectedLength ==>
              var symbols := GenericSymbols(decodeBuffer[..], decodeLength, headMark, headSpace, mark, one, zero);
              ok == symbols.Some? && (ok ==> FromBits(0, symbols) == Some(Fields()))
      ensures protocolNum == 0 && (!ok ==> address == 0)
    {
      ResetDecoder();
      if expectedLength != 0 && decodeLength != expectedLength { return false; }
      if headMark != 0 && !Match(decodeBuffer[1], headMark) { return false; }
      if headSpace != 0 && !Match(decodeBuffer[2], headSpace) { return false; }
      assert decodeBuffer[..][..PairsEnd(decodeLength)] == decodeBuffer[..PairsEnd(decodeLength)];
      ok := ReadGeneric(mark, one, zero, Parse(decodeBuffer[..PairsEnd(decodeLength)][3..],
                                               PulseDistance(mark, one, zero)));
    }

    // The payload, and the fields that it gives.
    method ReadGeneric(mark: uint16, one: uint16, zero: uint16, ghost symbols: Option<seq<nat>>) returns (ok: bool)
      requires Valid() && decodeLength != 0 && Fields() == Decoded(0, 0, 0, 0)
      requires symbols == Parse(decodeBuffer[..PairsEnd(decodeLength)][3..], PulseDistance(mark, one, zero))
      modifies `value, `address, `bits, `offset
      ensures ok == symbols.Some? && (ok ==> FromBits(0, symbols) == Some(Fields())) && (!ok ==> address == 0)
    {
      var x;
      ok, x := ReadPairs(decodeLength - 1, mark, one, zero, symbols);
      if ok {
        GenericFields(0, symbols.value, x);
        bits := (offset - 1) / 2 - 1;
        value := x % 0x1_0000_0000;
        address := (x / 0x1_0000_0000) % 0x1_0000;
      }
    }

    // A protocol that adds nothing to decodeGeneric.
    method DecodePlain(p: uint8, length: uint8, headMark: uint16, headSpace: uint16,
                       mark: uint16, one: uint16, zero: uint16)
        returns (ok: bool)
      requires Valid() && 4 <= length && length % 2 == 0 && headMark != 0 && headSpace != 0
      modifies `protocolNum, `value, `address, `bits, `offset
      ensures var f := Generic(headMark, headSpace, mark, one, zero);
              var result := FromBits(p, DecodePulse(f, Recording(), length));
              ok == result.Some? && (ok ==> result == Some(Fields()))
      ensures !ok ==> address == 0
    {
      GenericFormatSymbols(Recording(), length, headMark, headSpace, mark, one, zero);
      if decodeLength == length {
        assert decodeBuffer[..][..length] == Recording();
        GenericWithin(decodeBuffer[..], length, headMark, headSpace, mark, one, zero);
      }
      ok := DecodeGeneric(length, headMark, headSpace, mark, one, zero);
      if ok { protocolNum := p; }
    }

    method DecodeNEC() returns (ok: bool)
      requires Valid()
      modifies `protocolNum, `value, `address, `bits, `offset
      ensures Delivers(ok, Protocols.DecodeNEC(Recording()))
    {
      ResetDecoder();
      if decodeLength == 4 && Match(decodeBuffer[1], 564 * 16) && Match(decodeBuffer[2], 564 * 4)
          && Match(decodeBuffer[3], 564) {
        bits, value, protocolNum := 0, REPEAT_CODE, NEC;
        return true;
      }
      ok := DecodePlain(NEC, 68, 564 * 16, 564 * 8, 564, 564 * 3, 564);
    }

    method DecodePanasonicOld() returns (ok: bool)
      requires Valid()
      modifies `protocolNum, `value, `address, `bits, `offset
      ensures Delivers(ok, Protocols.DecodePanasonicOld(Recording()))
    {
      ok := DecodePlain(PANASONIC_OLD, 48, 833 * 4, 833 * 4, 833, 833 * 3, 833);
    }

    // The first decoder that does not reset the address when it is done.
    method DecodeNECx() returns (ok: bool)
      requires Valid()
      modifies `protocolNum, `value, `address, `bits, `offset
      ensures Delivers(ok, Protocols.DecodeNECx(Recording()))
      ensures !ok ==> address == 0
    {
      ResetDecoder();
      if decodeLength == 6 && Match(decodeBuffer[1], 564 * 8) && Match(decodeBuffer[2], 564 * 8)
         && Match(decodeBuffer[3], 564) && Match(decodeBuffer[5], 564) {
        bits, value, protocolNum := 0, REPEAT_CODE, NECX;
        return true;
      }
      ok := DecodePlain(NECX, 68, 564 * 8, 564 * 8, 564, 564 * 3, 564);
    }

    // The ditto leaves the address of the decoder before it.
    method DecodeGICable() returns (ok: bool)
      requires Valid()
      modifies `protocolNum, `value, `address, `bits, `offset
      ensures old(address) == 0 || decodeLength != 4 ==> Delivers(ok, Protocols.DecodeGICable(Recording()))
      ensures ok == Protocols.DecodeGICable(Recording()).Some?
    {
      if decodeLength == 4 && Match(decodeBuffer[1], 490 * 18) && Match(decodeBuffer[2], 2205)
          && Match(decodeBuffer[3], 490) {
        bits, value, protocolNum := 0, REPEAT_CODE, GICABLE;
        return true;
      }
      ok := DecodePlain(GICABLE, 36, 18 * 490, 9 * 490, 490, 9 * 490, 2205);
    }

    method DecodeJVC() returns (ok: bool)
      requires Valid()
      modifies `protocolNum, `value, `address, `bits, `offset
      ensures Delivers(ok, Protocols.DecodeJVC(Recording()))
    {
      ok := DecodePlain(JVC, 36, 525 * 16, 525 * 8, 525, 525 * 3, 525);
      if !ok {
        if decodeLength != 34 { return false; }
        ok := DecodeJVCRepeat();
        if !ok { return false; }
      }
      address := if decodeLength == 36 then 1 else 0;
      protocolNum := JVC;
    }

    // The generic loop skips the most significant bit of a frame without a header.
    method DecodeJVCRepeat() returns (ok: bool)
      requires Valid() && decodeLength == 34
      modifies `protocolNum, `value, `address, `bits, `offset
      ensures var result := FromBits(JVC, DecodePulse(JVCRepeatFormat(), Recording(), 34));
              ok == result.Some? && (ok ==> result.value == Decoded(JVC, value, 0, bits))
    {
      JVCRepeatResult(Recording());
      assert decodeBuffer[..][..34] == Recording();
      GenericWithin(decodeBuffer[..], 34, 525, 0, 525, 525 * 3, 525);
      ok := DecodeGeneric(0, 525, 0, 525, 525 * 3, 525);
      if ok {
        if Match(decodeBuffer[2], 525 * 3) {
          value := value + 0x8000;
        } else if !Match(decodeBuffer[2], 525) {
          return false;
        }
        bits := bits + 1;
      }
    }

    method DecodeCYKM() returns (ok: bool)
      requires Valid()
      modifies `protocolNum, `value, `address, `bits, `offset, `cmdType, `cmdData
      ensures Delivers(ok, Protocols.DecodeCYKM(Recording()))
      ensures ok ==> cmdType % 0x1000 == 0 && value == cmdType + value / 0x100 % 0x10 * 0x100 + cmdData
    {
      ok := DecodePlain(CYKM, 34, 3100, 3100, 650, 650 * 3, 650);
      if ok {
        CYKMBound(Recording());
        CYKMParts(value);
        cmdType := (value / 0x1000) % 8 * 0x1000;
        cmdData := value % 0x100;
      }
    }

    // ok and the public fields are what the decoder's specification says.
    ghost predicate Delivers(ok: bool, result: Option<Decoded>)
      reads `protocolNum, `value, `address, `bits
    {
      ok == result.Some? && (ok ==> Fields() == result.value)
    }

    method DecodeSony() returns (ok: bool)
      requires Valid()
      modifies `protocolNum, `value, `address, `bits, `offset
      ensures Delivers(ok, Protocols.DecodeSony(Recording()))
    {
      ResetDecoder();
      if decodeLength != 2 * 8 + 2 && decodeLength != 2 * 12 + 2 && decodeLength != 2 * 15 + 2
          && decodeLength != 2 * 20 + 2 {
        return false;
      }
      SonyResult(Recording());
      ok := ReadSonyFrame(Parse(Recording()[2..], PulseDistance(600, 1200, 600)), Protocols.DecodeSony(Recording()));
    }

    method ReadSonyFrame(ghost whole: Option<seq<nat>>, ghost result: Option<Decoded>) returns (ok: bool)
      requires Valid() && 2 <= decodeLength && decodeLength % 2 == 0 && Fields() == Decoded(0, 0, 0, 0)
      requires whole == Parse(Recording()[2..], PulseDistance(600, 1200, 600))
      requires result == if !Match(decodeBuffer[1], 2400) || whole == None then None
                         else Some(Decoded(SONY, Low32(Val(whole.value, 2)), 0, |whole.value| % 0x100))
      modifies `protocolNum, `value, `bits, `offset
      ensures Delivers(ok, result)
    {
      if !Match(decodeBuffer[1], 600 * 4) { return false; }
      ok := ReadSony(whole);
      if ok {
        bits := (offset - 1) / 2;
        protocolNum := SONY;
      }
    }

    method ReadSony(ghost whole: Option<seq<nat>>) returns (ok: bool)
      requires Valid() && 2 <= decodeLength && decodeLength % 2 == 0 && value == 0
      requires whole == Parse(Recording()[2..], PulseDistance(600, 1200, 600))
      modifies `value, `offset
      ensures ok == whole.Some?
      ensures ok ==> value == Low32(Val(whole.value, 2)) && offset == decodeLength == 2 + 2 * |whole.value|
    {
      ghost var b, a, done := Recording(), PulseDistance(600, 1200, 600), [];
      offset := 2;
      PendingStarts(b, 2, a);
      while offset < decodeLength
        invariant 2 <= offset <= decodeLength && offset == 2 + 2 * |done|
        invariant Pending(b, offset, a, done) == whole && value == Low32(Val(done, 2))
      {
        var more, bit := ReadBit(600, 600 * 2, 600, b, done);
        if !more { return false; }
        ShiftValue(bit, done);
        done := done + [bit];
      }
      PendingEnds(b, a, done);
      return true;
    }

    method DecodeDirecTV() returns (ok: bool)
      requires Valid()
      modifies `protocolNum, `value, `address, `bits, `offset
      ensures Delivers(ok, Protocols.DecodeDirecTV(Recording()))
    {
      ResetDecoder();
      if decodeLength != 20 { return false; }
      DirecTVResult(Recording());
      if Match(decodeBuffer[1], 3000) {
        address := 0;
      } else if !Match(decodeBuffer[1], 6000) {
        return false;
      } else {
        address := 1;
      }
      if !Match(decodeBuffer[2], 1200) { return false; }
      ghost var whole := Parse(Recording()[..19][3..], DirecTVFormat(true).alphabet);
      var x;
      ok, x := ReadDirecTV(whole);
      if ok {
        bits, value, protocolNum := 16, x, DIRECTV;
      }
    }

    // A one is 1200us long and a zero 600us, marks and spaces alike. The bit is shifted into x.
    method ShiftLength(x: uint32, ghost b: seq<uint16>, ghost done: seq<nat>)
        returns (ok: bool, y: uint32, ghost more: seq<nat>)
      requires Valid() && offset < decodeLength && offset < |b| && b[offset] == decodeBuffer[offset]
               && x == Low32(Val(done, 2))
      modifies `offset
      ensures var a := DirecTVFormat(true).alphabet;
              if ok then offset == old(offset) + 1 && Pending(b, offset, a, more) == Pending(b, old(offset), a, done)
              else Pending(b, old(offset), a, done).None?
      ensures y == Low32(Val(more, 2))
    {
      var bit := 0;
      SingleStep(b, offset, true, done);
      if Match(decodeBuffer[offset], 1200) {
        bit := 1;
      } else if !Match(decodeBuffer[offset], 600) {
        return false, x, done;
      }
      ShiftIn32(done, bit, 2);
      offset := offset + 1;
      return true, Shift32(x, 2, bit), done + [bit];
    }

    method ReadDirecTV(ghost whole: Option<seq<nat>>) returns (ok: bool, x: uint32)
      requires Valid() && decodeLength == 20 && whole == Parse(Recording()[..19][3..], DirecTVFormat(true).alphabet)
      modifies `offset
      ensures ok <==> whole.Some?
      ensures ok ==> x == Low32(Val(whole.value, 2))
    {
      ghost var b, a, done, i := Recording()[..19], DirecTVFormat(true).alphabet, [], 0;
      x, offset, ok := 0, 3, true;
      PendingStarts(b, 3, a);
      while offset < 18
        invariant offset == 3 + 2 * i <= 19
        invariant Pending(b, offset, a, done) == whole && x == Low32(Val(done, 2)) && ok
      {
        ok, x, done := ShiftLength(x, b, done);
        if !ok { return; }
        ok, x, done := ShiftLength(x, b, done);
        if !ok { return; }
        i := i + 1;
      }
      PendingEnds(b, a, done);
      assert whole == Some(done);
    }

    method DecodeRCMM() returns (ok: bool)
      requires Valid()
      modifies `protocolNum, `value, `address, `bits, `offset
      ensures Delivers(ok, Protocols.DecodeRCMM(Recording()))
    {
      ResetDecoder();
      if decodeLength != 12 + 4 && decodeLength != 24 + 4 && decodeLength != 32 + 4 { return false; }
      RCMMResult(Recording());
      ok := ReadRCMMFrame(Parse(Recording()[..decodeLength - 1][3..], RCMMFormat().alphabet),
                          Protocols.DecodeRCMM(Recording()));
    }

    method ReadRCMMFrame(ghost whole: Option<seq<nat>>, ghost result: Option<Decoded>) returns (ok: bool)
      requires Valid() && 4 <= decodeLength && decodeLength % 2 == 0 && Fields() == Decoded(0, 0, 0, 0)
      requires whole == Parse(Recording()[..decodeLength - 1][3..], RCMMFormat().alphabet)
      requires result == if !Match(decodeBuffer[1], 417) || !Match(decodeBuffer[2], 278)
                            || !Match(decodeBuffer[decodeLength - 1], 167) || whole == None then None
                         else Some(Decoded(RCMM, Low32(Val(whole.value, 4)), 0, decodeLength - 4))
      modifies `protocolNum, `value, `bits, `offset
      ensures Delivers(ok, result)
    {
      if !Match(decodeBuffer[1], 417) { return false; }
      if !Match(decodeBuffer[2], 278) { return false; }
      var x;
      ok, x := ReadRCMM(decodeLength / 2 - 2, whole);
      if ok {
        if !Match(decodeBuffer[offset], 167) { return false; }
        bits, value, protocolNum := decodeLength - 4, x, RCMM;
      }
    }

    // Two data bits: the space has one of four lengths. They are shifted into x.
    method ShiftQuad(x: uint32, ghost b: seq<uint16>, ghost done: seq<nat>)
        returns (ok: bool, y: uint32, ghost more: seq<nat>)
      requires Valid() && offset + 1 < decodeLength && x == Low32(Val(done, 4))
      requires offset + 2 <= |b| && b[offset] == decodeBuffer[offset] && b[offset + 1] == decodeBuffer[offset + 1]
      modifies `offset
      ensures var a := RCMMFormat().alphabet;
              if ok then offset == old(offset) + 2 && Pending(b, offset, a, more) == Pending(b, old(offset), a, done)
              else Pending(b, old(offset), a, done).None?
      ensures y == Low32(Val(more, 4))
    {
      var digit := 0;
      QuadStep(b, offset, done);
      if !AbsMatch(decodeBuffer[offset], 167, 80) { return false, x, done; }
      offset := offset + 1;
      if AbsMatch(decodeBuffer[offset], 278, 80) {
        digit := 0;
      } else if AbsMatch(decodeBuffer[offset], 444, 80) {
        digit := 1;
      } else if AbsMatch(decodeBuffer[offset], 611, 80) {
        digit := 2;
      } else if AbsMatch(decodeBuffer[offset], 778, 80) {
        digit := 3;
      } else {
        return false, x, done;
      }
      ShiftIn32(done, digit, 4);
      offset := offset + 1;
      return true, Shift32(x, 4, digit), done + [digit];
    }

    method ReadRCMM(ghost n: nat, ghost whole: Option<seq<nat>>) returns (ok: bool, x: uint32)
      requires Valid() && decodeLength == 4 + 2 * n
      requires whole == Parse(Recording()[..decodeLength - 1][3..], RCMMFormat().alphabet)
      modifies `offset
      ensures ok <==> whole.Some?
      ensures ok ==> x == Low32(Val(whole.value, 4)) && offset == decodeLength - 1
    {
      ghost var b, a, done, i := Recording()[..decodeLength - 1], RCMMFormat().alphabet, [], 0;
      x, offset, ok := 0, 3, true;
      PendingStarts(b, 3, a);
      while offset < decodeLength - 1
        invariant offset == 3 + 2 * i && i <= n && ok
        invariant Pending(b, offset, a, done) == whole && x == Low32(Val(done, 4))
      {
        ok, x, done := ShiftQuad(x, b, done);
        if !ok { return; }
        i := i + 1;
      }
      PendingEnds(b, a, done);
      assert whole == Some(done);
    }

    // Samsung36 has no reset; it takes the 68us off the entry at 62 for good.
    method DecodeSamsung36() returns (ok: bool)
      requires Valid()
      modifies `protocolNum, `value, `address, `bits, `offset, `data, decodeBuffer
      ensures Delivers(ok, Protocols.DecodeSamsung36(old(Recording())))
      ensures decodeLength != 78 ==> Fields() == old(Fields())
      ensures Recording() == old(Recording()) || (decodeLength == 78 && Recording() == WithoutBreak(old(Recording())))
    {
      if decodeLength != 78 { return false; }
      Samsung36Result(Recording());
      ok := ReadSamsung36(Protocols.DecodeSamsung36(Recording()));
    }

    method ReadSamsung36(ghost result: Option<Decoded>) returns (ok: bool)
      requires Valid() && decodeLength == 78 && result == Samsung36Both(Recording())
      modifies `protocolNum, `value, `address, `bits, `offset, `data, decodeBuffer
      ensures Delivers(ok, result)
      ensures Recording() == old(Recording()) || Recording() == WithoutBreak(old(Recording()))
    {
      ghost var b := Recording();
      ok := ReadAddress();
      if !ok { return false; }
      address, data := data % 0x1_0000, 0;
      LowOfLow(Val(Parse(b[3..35], Samsung36Alphabet()).value, 2));
      ok := ReadWithoutBreak();
      if !ok { return false; }
      bits, value, protocolNum := 36, data, SAMSUNG36;
    }

    // The header, the 16 address bits, and the second header.
    method ReadAddress() returns (ok: bool)
      requires Valid() && decodeLength == 78
      modifies `offset, `data
      ensures ok <==> Samsung36AddressOf(Recording()).Some?
      ensures ok ==> offset == 37 && data == Low32(Val(Samsung36AddressOf(Recording()).value, 2))
    {
      ghost var b := Recording();
      if !Match(decodeBuffer[1], 500 * 9) { return false; }
      if !Match(decodeBuffer[2], 500 * 9) { return false; }
      offset, data := 3, 0;
      assert b[..35][3..] == b[3..35];
      ok := GetBits(16 * 2 + 2, 35, 16, Parse(b[3..35], Samsung36Alphabet()));
      if !ok { return false; }
      if !Match(decodeBuffer[offset], 500) { return false; }
      offset := offset + 1;
      if !Match(decodeBuffer[offset], 500 * 9) { return false; }
      offset := offset + 1;
    }

    // The 20 data bits, once the 68us are taken off.
    method ReadWithoutBreak() returns (ok: bool)
      requires Valid() && decodeLength == 78 && offset == 37 && data == 0
      modifies `offset, `data, decodeBuffer
      ensures Recording() == WithoutBreak(old(Recording()))
      ensures var whole := Parse(WithoutBreak(old(Recording()))[37..77], Samsung36Alphabet());
              ok == whole.Some? && (ok ==> data == Low32(Val(whole.value, 2)))
    {
      ghost var r := WithoutBreak(Recording());
      var entry: int := decodeBuffer[62];
      decodeBuffer[62] := (entry - 68) % 0x1_0000;
      assert Recording() == r && r[..77][37..] == r[37..77];
      ok := GetBits(77, 77, 20, Parse(r[37..77], Samsung36Alphabet()));
    }

    // A segment of the payload, which ends at end.
    method GetBits(lastOffset: uint8, ghost end: nat, ghost n: nat, ghost whole: Option<seq<nat>>) returns (ok: bool)
      requires Valid() && offset + 2 * n == end <= decodeLength && end - 1 <= lastOffset <= end && data == 0
      requires whole == Parse(Recording()[..end][offset..], Samsung36Alphabet())
      modifies `offset, `data
      ensures ok <==> whole.Some?
      ensures ok ==> data == Low32(Val(whole.value, 2)) && offset == end
    {
      ghost var b, a, done, i := Recording()[..end], Samsung36Alphabet(), [], 0;
      PendingStarts(b, offset, a);
      while offset < lastOffset
        invariant offset == old(offset) + 2 * i && i <= n
        invariant Pending(b, offset, a, done) == whole && data == Low32(Val(done, 2))
      {
        ok, done := NextData(b, done, whole);
        if !ok { return; }
        i := i + 1;
      }
      PendingEnds(b, a, done);
      return true;
    }

    method NextData(ghost b: seq<uint16>, ghost done: seq<nat>, ghost whole: Option<seq<nat>>)
        returns (ok: bool, ghost now: seq<nat>)
      requires Valid() && offset + 1 < |b| <= decodeLength && b == Recording()[..|b|]
      requires Pending(b, offset, Samsung36Alphabet(), done) == whole && data == Low32(Val(done, 2))
      modifies `offset, `data
      ensures if ok then offset == old(offset) + 2 && Pending(b, offset, Samsung36Alphabet(), now) == whole
                         && data == Low32(Val(now, 2))
              else whole.None?
    {
      var bit;
      ok, bit := ReadBit(500, 500 * 3, 500, b, done);
      now := done + [bit];
      if ok { ShiftData(bit, done); }
    }

    // --- Phase-coded frames ---

    ghost predicate Running(t1: uint16)
      reads `decodeLength, `offset, `used, decodeBuffer
    {
      Valid() && InStep(Recording(), offset, used, t1)
    }

    // The half-bits that have not been read yet.
    ghost function Rest(t1: uint16): seq<RCLevel>
      requires Running(t1)
      reads `decodeLength, `offset, `used, decodeBuffer
    {
      InStepRemains(Recording(), offset, used, t1);
      Remaining(Recording(), offset, used, t1)
    }

    // The bits done have been read, and with what is left they make up whole.
    ghost predicate Reading(k: Kind, done: seq<nat>, whole: Option<seq<nat>>)
      reads `decodeLength, `offset, `used, `data, `nBits, decodeBuffer
    {
      && Running(T1(k)) && nBits == |done| && Countable(nBits, |Rest(T1(k))|)
      && (Rest(T1(k)) != [] <==> offset < decodeLength)
      && PhasePending(k, Rest(T1(k)), done) == whole && data == Low32(Val(done, 2))
    }

    method GetRClevel(t1: uint16) returns (level: RCLevel)
      requires Running(t1)
      modifies `offset, `used
      ensures Running(t1)
      ensures level == Next(old(Rest(t1))) && Rest(t1) == After(old(Rest(t1)))
    {
      InStepRemains(Recording(), offset, used, t1);
      if offset >= decodeLength { return SPACE; }
      var width := decodeBuffer[offset];
      assert Recording()[offset] == width;
      level := if offset % 2 == 1 then MARK else SPACE;
      var avail := Units(width, t1);
      if avail == 0 {
        NoLevel(Recording(), offset, used, t1);
        return ERROR;
      }
      TakeLevel(Recording(), offset, used, t1);
      UseLevel(avail, t1);
    }

    // One of the levels of the interval at offset is used up.
    method UseLevel(avail: nat, ghost t1: uint16)
      requires Running(t1) && offset < decodeLength && avail == Units(decodeBuffer[offset], t1) > 0
      modifies `offset, `used
      ensures Running(t1) && old(Rest(t1)) != [] && Rest(t1) == old(Rest(t1))[1..]
    {
      TakeLevel(Recording(), offset, used, t1);
      used := used + 1;
      if used >= avail {
        used := 0;
        offset := offset + 1;
      }
    }

    method StartLevels(first: uint8, ghost t1: uint16)
      requires Valid() && first < decodeLength
      modifies `offset, `used, `data
      ensures Running(t1) && Rest(t1) == Levels(Recording(), first, t1) && |Rest(t1)| <= 300 && data == 0
    {
      LevelsBound(Recording(), first, t1);
      offset, data, used := first, 0, 0;
    }

    method DecodeRC5() returns (ok: bool)
      requires Valid()
      modifies `protocolNum, `value, `address, `bits, `offset, `used, `data, `nBits
      ensures Delivers(ok, Protocols.DecodeRC5(Recording()))
    {
      ResetDecoder();
      if decodeLength < 13 { return false; }
      ghost var symbols := DecodePhase(RC5Code, [MARK], Levels(Recording(), 1, T1(RC5Code)));
      ok := ReadRC5Fields(symbols, FromPhase(RC5, symbols, 32));
    }

    method ReadRC5Fields(ghost symbols: Option<seq<nat>>, ghost result: Option<Decoded>) returns (ok: bool)
      requires Valid() && decodeLength >= 13 && Fields() == Decoded(0, 0, 0, 0)
      requires symbols == DecodePhase(RC5Code, [MARK], Levels(Recording(), 1, 889))
      requires result == FromPhase(RC5, symbols, 32)
      modifies `protocolNum, `value, `bits, `offset, `used, `data, `nBits
      ensures Delivers(ok, result)
    {
      ok := ReadRC5Symbols(symbols);
      if ok {
        PhaseFieldsOf(RC5, symbols.value, 32, data, nBits);
        bits, value, protocolNum := nBits, data, RC5;
      }
    }

    method ReadRC5Symbols(ghost symbols: Option<seq<nat>>) returns (ok: bool)
      requires Valid() && decodeLength >= 13
      requires symbols == DecodePhase(RC5Code, [MARK], Levels(Recording(), 1, 889))
      modifies `offset, `used, `data, `nBits
      ensures ok <==> symbols.Some?
      ensures ok ==> data == Low32(Val(symbols.value, 2)) && nBits == |symbols.value|
    {
      StartLevels(1, 889);
      ok := ReadRC5Frame(symbols);
    }

    // The start mark and the bits.
    method ReadRC5Frame(ghost whole: Option<seq<nat>>) returns (ok: bool)
      requires Running(889) && |Rest(889)| <= 300 && data == 0 && whole == DecodePhase(RC5Code, [MARK], Rest(889))
      modifies `offset, `used, `data, `nBits
      ensures ok <==> whole.Some?
      ensures ok ==> data == Low32(Val(whole.value, 2)) && nBits == |whole.value|
    {
      OpenedByMark(Rest(889));
      var level := GetRClevel(889);
      if level != MARK { return false; }
      ok := ReadRC5(whole);
    }

    // The next bit.
    method ReadRC5Bit(ghost done: seq<nat>) returns (ok: bool, bit: nat)
      requires Running(889) && Rest(889) != []
      modifies `offset, `used
      ensures Running(889)
      ensures if ok then PhasePending(RC5Code, Rest(889), done + [bit]) == PhasePending(RC5Code, old(Rest(889)), done)
                         && (Rest(889) == [] || |Rest(889)| <= |old(Rest(889))| - 2)
              else PhasePending(RC5Code, old(Rest(889)), done).None?
    {
      PhaseStep(RC5Code, Rest(889), done);
      var levelA := GetRClevel(889);
      var levelB := GetRClevel(889);
      if levelA == SPACE && levelB == MARK {
        return true, 1;
      } else if levelA == MARK && levelB == SPACE {
        return true, 0;
      } else {
        return false, 0;
      }
    }

    method NextRC5(ghost done: seq<nat>, ghost whole: Option<seq<nat>>) returns (ok: bool, ghost now: seq<nat>)
      requires Reading(RC5Code, done, whole) && offset < decodeLength
      modifies `offset, `used, `data, `nBits
      ensures if ok then Reading(RC5Code, now, whole) && |Rest(889)| < |old(Rest(889))| else whole.None?
    {
      var bit;
      ok, bit := ReadRC5Bit(done);
      now := done + [bit];
      if ok {
        ShiftData(bit, done);
        nBits := nBits + 1;
        InStepRemains(Recording(), offset, used, 889);
      }
    }

    method ReadRC5(ghost whole: Option<seq<nat>>) returns (ok: bool)
      requires Running(889) && |Rest(889)| <= 300 && data == 0 && whole == ParsePhase(RC5Code, Rest(889), 0)
      modifies `offset, `used, `data, `nBits
      ensures ok <==> whole.Some?
      ensures ok ==> data == Low32(Val(whole.value, 2)) && nBits == |whole.value|
    {
      ghost var done := [];
      nBits, ok := 0, true;
      PhasePendingStarts(RC5Code, Rest(889));
      InStepRemains(Recording(), offset, used, 889);
      while offset < decodeLength
        invariant Reading(RC5Code, done, whole) && ok
        decreases |Rest(889)|
      {
        ok, done := NextRC5(done, whole);
        if !ok { return; }
      }
      PhasePendingEnds(RC5Code, done);
    }

    method DecodeRC6() returns (ok: bool)
      requires Valid()
      modifies `protocolNum, `value, `address, `bits, `offset, `used, `data, `nBits
      ensures Delivers(ok, Protocols.DecodeRC6(Recording()))
    {
      ResetDecoder();
      if decodeLength < 23 || decodeLength > 77 { return false; }
      if !Match(decodeBuffer[1], 2666) { return false; }
      if !Match(decodeBuffer[2], 889) { return false; }
      ghost var symbols := DecodePhase(RC6Code, [MARK, SPACE], Levels(Recording(), 3, T1(RC6Code)));
      ok := ReadRC6Fields(symbols, FromPhase(RC6, symbols, 36));
    }

    method ReadRC6Fields(ghost symbols: Option<seq<nat>>, ghost result: Option<Decoded>) returns (ok: bool)
      requires Valid() && decodeLength >= 23 && Fields() == Decoded(0, 0, 0, 0)
      requires symbols == DecodePhase(RC6Code, [MARK, SPACE], Levels(Recording(), 3, 444))
      requires result == FromPhase(RC6, symbols, 36)
      modifies `protocolNum, `value, `bits, `offset, `used, `data, `nBits
      ensures Delivers(ok, result)
    {
      ok := ReadRC6Symbols(symbols);
      if ok {
        PhaseFieldsOf(RC6, symbols.value, 36, data, nBits);
        if nBits == 36 { nBits := 32; }
        bits, value, protocolNum := nBits, data, RC6;
      }
    }

    method ReadRC6Symbols(ghost symbols: Option<seq<nat>>) returns (ok: bool)
      requires Valid() && decodeLength >= 23
      requires symbols == DecodePhase(RC6Code, [MARK, SPACE], Levels(Recording(), 3, 444))
      modifies `offset, `used, `data, `nBits
      ensures ok <==> symbols.Some?
      ensures ok ==> data == Low32(Val(symbols.value, 2)) && nBits == |symbols.value|
    {
      StartLevels(3, 444);
      ok := ReadRC6Frame(symbols);
    }

    // The start bit and the bits.
    method ReadRC6Frame(ghost whole: Option<seq<nat>>) returns (ok: bool)
      requires Running(444) && |Rest(444)| <= 300 && data == 0
               && whole == DecodePhase(RC6Code, [MARK, SPACE], Rest(444))
      modifies `offset, `used, `data, `nBits
      ensures ok <==> whole.Some?
      ensures ok ==> data == Low32(Val(whole.value, 2)) && nBits == |whole.value|
    {
      OpenedByMarkSpace(Rest(444));
      ok := ReadStartBit();
      if ok { ok := ReadRC6(whole); }
    }

    method ReadStartBit() returns (ok: bool)
      requires Running(444)
      modifies `offset, `used
      ensures Running(444) && |Rest(444)| <= |old(Rest(444))|
      ensures ok <==> Next(old(Rest(444))) == MARK && Next(After(old(Rest(444)))) == SPACE
      ensures ok ==> Rest(444) == After(After(old(Rest(444))))
    {
      var level := GetRClevel(444);
      if level != MARK { return false; }
      level := GetRClevel(444);
      ok := level == SPACE;
    }

    // The next bit: number nBits of the frame.
    method ReadRC6Bit(ghost done: seq<nat>) returns (ok: bool, bit: nat)
      requires Running(444) && nBits == |done| && Rest(444) != []
      modifies `offset, `used
      ensures Running(444)
      ensures if ok then PhasePending(RC6Code, Rest(444), done + [bit]) == PhasePending(RC6Code, old(Rest(444)), done)
                         && (Rest(444) == [] || |Rest(444)| <= |old(Rest(444))| - 2)
              else PhasePending(RC6Code, old(Rest(444)), done).None?
    {
      if nBits == 3 { TrailerStep(Rest(444), done); } else { PhaseStep(RC6Code, Rest(444), done); }
      var levelA := GetRClevel(444);
      if nBits == 3 {
        var again := GetRClevel(444);
        if levelA != again { return false, 0; }
      }
      var levelB := GetRClevel(444);
      if nBits == 3 {
        var again := GetRClevel(444);
        if levelB != again { return false, 0; }
      }
      if levelA == MARK && levelB == SPACE {
        return true, 1;
      } else if levelA == SPACE && levelB == MARK {
        return true, 0;
      } else {
        return false, 0;
      }
    }

    method NextRC6(ghost done: seq<nat>, ghost whole: Option<seq<nat>>) returns (ok: bool, ghost now: seq<nat>)
      requires Reading(RC6Code, done, whole) && offset < decodeLength
      modifies `offset, `used, `data, `nBits
      ensures if ok then Reading(RC6Code, now, whole) && |Rest(444)| < |old(Rest(444))| else whole.None?
    {
      var bit;
      ok, bit := ReadRC6Bit(done);
      now := done + [bit];
      if ok {
        ShiftData(bit, done);
        nBits := nBits + 1;
        InStepRemains(Recording(), offset, used, 444);
      }
    }

    method ReadRC6(ghost whole: Option<seq<nat>>) returns (ok: bool)
      requires Running(444) && |Rest(444)| <= 300 && data == 0 && whole == ParsePhase(RC6Code, Rest(444), 0)
      modifies `offset, `used, `data, `nBits
      ensures ok <==> whole.Some?
      ensures ok ==> data == Low32(Val(whole.value, 2)) && nBits == |whole.value|
    {
      ghost var done := [];
      nBits, ok := 0, true;
      PhasePendingStarts(RC6Code, Rest(444));
      InStepRemains(Recording(), offset, used, 444);
      while offset < decodeLength
        invariant Reading(RC6Code, done, whole) && ok
        decreases |Rest(444)|
      {
        ok, done := NextRC6(done, whole);
        if !ok { return; }
      }
      PhasePendingEnds(RC6Code, done);
    }

    // --- All protocols, in the order of IRLibCombo.h ---

    method Decode() returns (ok: bool)
      requires Valid()
      modifies `protocolNum, `value, `address, `bits, `offset, `used, `data, `nBits, `cmdType, `cmdData, decodeBuffer
      ensures Delivers(ok, DecodeChain(old(Recording())))
    {
      ghost var b := Recording();
      ghost var result := DecodeChain(b);
      ChainUnfold(b);
      ok := DecodeNEC();
      if ok { return; }
      ok := DecodeSony();
      if ok { return; }
      ok := DecodeRC5();
      if ok { return; }
      ok := DecodeRC6();
      if ok { return; }
      ok := DecodePanasonicOld();
      if ok { return; }
      ok := DecodeJVC();
      if ok { return; }
      ok := DecodeNECx();
      if ok { return; }
      ok := DecodeLast(b);
    }

    // Samsung36 and the decoders behind it, which find no use for a buffer that it has changed.
    method DecodeLast(ghost b: seq<uint16>) returns (ok: bool)
      requires Valid() && b == Recording() && address == 0
      modifies `protocolNum, `value, `address, `bits, `offset, `data, `cmdType, `cmdData, decodeBuffer
      ensures Delivers(ok, ChainFrom(8, b))
    {
      LastFive(b);
      ok := DecodeSamsung36();
      if ok { return; }
      if decodeLength == 78 { NothingAt78(Recording()); NothingAt78(b); }
      ok := DecodeGICable();
      if ok { return; }
      ok := DecodeDirecTV();
      if ok { return; }
      ok := DecodeRCMM();
      if ok { return; }
      ok := DecodeCYKM();
    }
  }
}
