// The receiver object over its shared buffers, which may be one and the same array.
module Reception {
  import opened Digits
  import Receiver

  class IRrecvPCI {
    const recvBuffer: array<uint16>
    var recvLength: uint8
    var decodeBuffer: array<uint16>
    var decodeLength: uint8
    var enableAutoResume: bool
    var decoderWantsData: bool
    var newDataAvailable: bool
    var didAutoResume: bool
    var currentState: Receiver.Phase
    var timer: uint32
    var frameTimeout: uint16
    var markExcess: uint16
    var didIROut: bool

    ghost predicate Buffers()
      reads this
    {
      && recvBuffer.Length == decodeBuffer.Length == Receiver.RECV_BUF_LENGTH
      && (enableAutoResume <==> decodeBuffer != recvBuffer)
    }

    ghost function State(): Receiver.Shared
      requires Buffers()
      reads this, recvBuffer, decodeBuffer
    {
      Receiver.Shared(recvBuffer[..], recvLength,
                      if enableAutoResume then Some(decodeBuffer[..]) else None, decodeLength,
                      decoderWantsData, newDataAvailable, didAutoResume, currentState, timer, frameTimeout, didIROut)
    }

    ghost predicate Valid()
      reads this, recvBuffer, decodeBuffer
    {
      Buffers() && Receiver.Inv(State())
    }

    constructor ()
      ensures Valid() && Receiver.Initial(State()) && fresh(recvBuffer)
      ensures frameTimeout == 7800 && markExcess == 50
    {
      var buffer := new uint16[Receiver.RECV_BUF_LENGTH];
      recvBuffer, decodeBuffer := buffer, buffer;
      recvLength, decodeLength := 0, 0;
      enableAutoResume, decoderWantsData, newDataAvailable, didAutoResume := false, false, false, false;
      currentState, timer, frameTimeout, markExcess, didIROut := Receiver.FINISHED, 0, 7800, 50, false;
    }

    // IRLib_IRrecvComplete
    method Complete()
      requires Buffers() && State().Fits()
      modifies this, decodeBuffer
      ensures Buffers() && State() == Receiver.Complete(old(State()))
      ensures decodeBuffer == old(decodeBuffer) && markExcess == old(markExcess)
    {
      newDataAvailable := true;
      currentState := Receiver.FINISHED;
      if enableAutoResume && decoderWantsData {
        CopyFrame();
        decodeLength := recvLength;
        decoderWantsData := false;
        didAutoResume := true;
        recvLength := 0;
        currentState := Receiver.READY;
      }
    }

    // memcpy of the recorded entries
    method CopyFrame()
      requires Buffers() && enableAutoResume && recvLength <= Receiver.RECV_BUF_LENGTH
      modifies decodeBuffer
      ensures decodeBuffer[..] == Receiver.Overwrite(old(decodeBuffer[..]), recvBuffer[..recvLength])
    {
      forall i | 0 <= i < recvLength { decodeBuffer[i] := recvBuffer[i]; }
    }

    // The interrupt handler.
    method Handler(now: uint32, high: bool)
      requires Valid()
      modifies this, recvBuffer, decodeBuffer
      ensures Valid() && State() == Receiver.Edge(old(State()), now, high)
      ensures decodeBuffer == old(decodeBuffer) && markExcess == old(markExcess)
    {
      Receiver.EdgeKeeps(State(), now, high);
      var since: int := now - timer;
      var delta: uint32 := since % 0x1_0000_0000;
      match currentState {
        case FINISHED => return;
        case RUNNING =>
          if recvLength % 2 == 0 && delta > frameTimeout {
            Complete();
            return;
          }
        case READY =>
          if high { return; }
          currentState := Receiver.RUNNING;
      }
      Record(now, delta);
    }

    method Record(now: uint32, delta: uint32)
      requires Buffers() && State().Fits() && recvLength < Receiver.RECV_BUF_LENGTH && currentState == Receiver.RUNNING
      requires delta == Receiver.Elapsed(State(), now)
      modifies this, recvBuffer, decodeBuffer
      ensures Buffers() && State() == Receiver.Record(old(State()), now)
      ensures decodeBuffer == old(decodeBuffer) && markExcess == old(markExcess)
    {
      recvBuffer[recvLength] := delta % 0x1_0000;
      timer := now;
      recvLength := recvLength + 1;
      if recvLength >= Receiver.RECV_BUF_LENGTH { Complete(); }
    }

    // IRrecvBase::getResults: source and destination may be the same buffer.
    method Fetch(timePerTick: uint16)
      requires Buffers() && State().Fits()
      modifies this, decodeBuffer
      ensures Buffers() && State() == Receiver.Fetch(old(State()), timePerTick, markExcess)
      ensures decodeBuffer == old(decodeBuffer) && markExcess == old(markExcess)
    {
      newDataAvailable := false;
      var source := recvBuffer;
      if didAutoResume {
        source := decodeBuffer;
        didAutoResume := false;
      } else {
        decodeLength := recvLength;
      }
      AdjustBuffer(source, timePerTick);
      decoderWantsData := false;
    }

    method AdjustBuffer(source: array<uint16>, timePerTick: uint16)
      requires Buffers() && decodeLength <= Receiver.RECV_BUF_LENGTH && (source == recvBuffer || source == decodeBuffer)
      modifies decodeBuffer
      ensures var adjusted := Receiver.AdjustAll(old(source[..decodeLength]), timePerTick, markExcess);
              decodeBuffer[..] == Receiver.Overwrite(old(decodeBuffer[..]), adjusted)
      ensures Receiver.Corrected(old(source[..decodeLength]), decodeBuffer[..decodeLength], timePerTick, markExcess)
    {
      Receiver.AllCorrected(source[..decodeLength], timePerTick, markExcess);
      var i := 0;
      while i < decodeLength
        invariant 0 <= i <= decodeLength
        invariant forall j :: 0 <= j < i ==>
                    decodeBuffer[j] == Receiver.Adjust(old(source[j]), j, timePerTick, markExcess)
        invariant forall j :: i <= j < decodeBuffer.Length ==> decodeBuffer[j] == old(decodeBuffer[j])
        invariant forall j :: i <= j < decodeBuffer.Length ==> source[j] == old(source[j])
      {
        var length: int, x: int := source[i] * timePerTick, markExcess;
        decodeBuffer[i] := (length + if i % 2 == 1 then -x else x) % 0x1_0000;
        i := i + 1;
      }
    }

    // IRrecvPCI::getResults
    method GetResults(now: uint32, high: bool) returns (found: bool)
      requires Valid()
      modifies this, decodeBuffer
      ensures Valid() && (State(), found) == Receiver.GetResults(old(State()), now, high, markExcess)
      ensures found ==> Receiver.Corrected(Receiver.Due(old(State())), State().Decoding(), 1, markExcess)
      ensures decodeBuffer == old(decodeBuffer) && markExcess == old(markExcess)
    {
      Receiver.TakeKeeps(State(), Receiver.Results(now, high, markExcess));
      if Receiver.GetResults(State(), now, high, markExcess).1 { Receiver.FoundIsDue(State(), now, high, markExcess); }
      if newDataAvailable {
        Fetch(1);
        return true;
      }
      if currentState == Receiver.RUNNING && high {
        var since: int := now - timer;
        if since % 0x1_0000_0000 > frameTimeout {
          Complete();
          Fetch(1);
          return true;
        }
      }
      return false;
    }

    method EnableIRIn(now: uint32)
      requires Valid()
      modifies this
      ensures Valid() && State() == Receiver.EnableIRIn(old(State()), now)
      ensures decodeBuffer == old(decodeBuffer) && markExcess == old(markExcess)
    {
      if newDataAvailable { return; }
      decoderWantsData := true;
      if currentState == Receiver.FINISHED || didIROut {
        recvLength := 0;
        currentState := Receiver.READY;
        didIROut := false;
        timer := now;
      }
    }

    method DisableIRIn()
      requires Valid()
      modifies this
      ensures Valid() && State() == Receiver.DisableIRIn(old(State()))
      ensures decodeBuffer == old(decodeBuffer) && markExcess == old(markExcess)
    {
      decoderWantsData := false;
      didAutoResume := false;
      currentState := Receiver.FINISHED;
    }

    method EnableAutoResume(buffer: array<uint16>)
      requires Valid() && buffer.Length == Receiver.RECV_BUF_LENGTH && buffer != recvBuffer
      modifies this
      ensures Valid() && State() == Receiver.EnableAutoResume(old(State()), buffer[..])
      ensures decodeBuffer == buffer && markExcess == old(markExcess)
    {
      decodeBuffer := buffer;
      enableAutoResume := true;
    }
  }
}
