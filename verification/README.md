# Circuit Playground communication model

A Dafny model of four parts of the Circuit Playground library, with proofs of what they promise.

**Infrared remote control.** Twelve senders shift a payload out of a register as marks and spaces
(`Waves.dfy`, `Sender.dfy`). On the wire these are runs: neighbouring events of one level merge, and a space of
more than 7800us ends a frame (`Wire.dfy`, `Transmission.dfy`, `FrameLength.dfy`, `Succession.dfy`). The pin-change
interrupt handler records them and hands frames over to the decoder (`Receiver.dfy`, `Reception.dfy`). Twelve decoders
turn a buffer back into a number and are tried in a fixed order (`Protocols.dfy` specifies them, `Scan.dfy` and
`Decoder.dfy` are their loops). `Pulse.dfy` holds the timing windows and the symbol protocols; `PhaseCode.dfy`
and `PhaseRuns.dfy` hold RC5 and RC6, whose merged runs have to be split into half-bits again. `RoundTrip.dfy`,
`Chain.dfy`, `Delivery.dfy` and `RivalBuffers.dfy` prove that what is sent is decoded, by its own decoder and by the
whole chain, and which messages the chain can mistake; `Arrival.dfy` joins wire, interrupt handler, hand-over and chain.
`Notation.dfy` has the twelve signals written down in microseconds, `Acceptance.dfy` what the decoders read, entry by
entry.

**Firmata.** A parser that takes one byte at a time, the functions that print what it understands, and the
string decoder that works within its own input buffer (`Firmata.dfy`, `Board.dfy`).

**NeoPixel.** A pixel buffer premultiplied by the brightness and rescaled in place (`Pixels.dfy`,
`NeoPixelStrip.dfy`), and integer hue arithmetic (`ColorWheel.dfy`).

**Talkie.** A bit buffer over speech ROM and the frames that are read from it (`Talkie.dfy`, `Speech.dfy`).

Code that changes fields or buffers is a class whose methods are proved against functions; lemmas state what
those functions promise. `Digits.dfy` has machine integers and digit strings.

The pin-change receiver is declared in `IRLibRecvPCI.h`; its code is `IRLibRecvPCI.cpp`, whose lines are given in
parentheses below.

## Main results

- What any of the twelve senders is given arrives: wire, merging of runs, interrupt handler, hand-over of the buffer,
  and the ordered chain of decoders give it back, for every payload of every supported width and ten percent of
  jitter (`Arrival.ArrivesWhenAsked`, `Arrival.ArrivesAfterNextMark`). A list of messages arrives frame by frame,
  Sony's second and third frame and JVC's repeat included, when the program calls getResults after the timeout and
  enableIRIn before the next mark (`Arrival.SentArriveInTurn`); a frame that begins before the handler waits for it
  is not recorded whole (`Receiver.RecordedWhole`). Which messages keep their frames apart on the wire, and which the
  next message must not follow at once, is an if and only if (`Succession.SendsOnTheWire`).
- What is sent is the signal as it is written down, and what each pulse decoder takes and reads is told entry by entry
  (`Notation.WaveIsNotated`, `Acceptance.NECReads` and its nine neighbours).
- Which buffers can be taken for two protocols at all, and which messages the chain can mistake within the full windows,
  both exactly (`Chain.AtMostOneDecoder`, `RivalBuffers.RivalsMeet`, `RivalBuffers.AlwaysDelivered`).
- Every decoder, loop by loop on its fields and the shared buffer, accepts exactly the buffers its timing windows
  describe (`Decoder.IRdecode.Decode`, `Pulse.DecodePulseIff`, `PhaseCode.ParsePhaseIff`, `RivalBuffers.RC5Bijection`).
- A buffer being decoded is safe under every interleaving, and a frame is adjusted once on every path
  (`Receiver.DecodingIsSafe`, `Receiver.FetchedOnce`); when a frame is lost, exactly (`Receiver.SurvivesDisable`,
  `Receiver.SecondFrameFetched`, `Receiver.RecordedWhole`).
- The Firmata parser inverts its printer on streams and resynchronises, and a reset makes it a new parser
  (`Firmata.StreamRoundTrip`, `Firmata.Resynchronised`, `Firmata.ResetBehind`).
- No stored pixel byte ever exceeds the brightness, on every run, and a new brightness leaves every byte its share
  (`Pixels.NeverBrighter`, `Pixels.BrightnessRescales`, `Pixels.SetThenGet`).
- Every component of a hue follows from its distance on the colour wheel (`ColorWheel.PureIsWheel`, `ColorWheel.PackedWheel`).
- The speech reader hands out the ROM's bits exactly, and its frames (`Speech.Reader.ReadFields`, `Speech.ReadPacked`).

## Where the code differs from what it says

- `space` takes 16 bits, so RC5 and RC6 frames are not 114ms and 107ms long: `FrameLength.RC5Length` and
  `FrameLength.RC6Length` say how long they are.
- NEC dittos and NECx frames are documented to last 108ms; they do not (`FrameLength.NECDittoLength`,
  `FrameLength.NECxLength`). The NECx repeat frame is documented to hold a one; the code sends a zero.
- A 20-bit Sony message with 18 ones or more leaves less than the frame timeout between its three frames: they run into
  one signal (`Succession.FramesOnTheWire`, `Transmission.JoinedExample`), which has more intervals than a receiver has
  room for: the handler cuts it off, and no decoder accepts what is left (`Arrival.JoinedIsRejected`).
- Panasonic_Old and NECx data messages, and RC5 of 23 to 26 bits and RC6 of 32 to 40 bits (the 32-bit variety included)
  because of the 16-bit space, leave less than the frame timeout behind them: a message sent at once runs into them
  (`Succession.RunsOn`, `Succession.SendsOnTheWire`).
- Some buffers are accepted by two decoders, so the order of the chain matters beyond the documented ditto.
  `RivalBuffers.AlwaysDelivered` says which messages are at risk: apart from the ditto, an all-zero G.I. Cable payload
  (JVC takes it), RC5 payloads of 9, 13, 16 or 21 zeros, and RC6 payloads of some shapes (Sony takes them).
- The comment on G.I. Cable names 1960us for the space of the ditto; the code sends and expects 2205us, and the
  model follows the code. The comment on RC6 calls the bits in front of the 32-bit variety 0110; the code sends 1100.
- `fill` adds `first` and `count` in 16 bits and fills nothing when the sum wraps: `Pixels.FillExactly`.
- `sendDigitalPort` does not cut its last byte to seven bits: `Firmata.DigitalExactly`.
- The receiver's comment says that it misses the second of two quick frames only without auto-resume. With it, the
  second frame still loses its first two intervals when only its own first mark ends the frame before it
  (`Receiver.SecondFrameBeheaded`): it is recorded whole if and only if the handler already waits for it
  (`Receiver.RecordedWhole`, `Receiver.SecondFrameWhole`). A frame that completes before the resumed one was fetched is
  never delivered (`Receiver.SecondFrameFetched`, an if and only if), and `disableIRIn` loses a resumed frame
  (`Receiver.SurvivesDisable`, likewise). `Receiver.FirstFrameReached` and `Receiver.SecondFrameReached` reach these
  states from the start.
- An empty sysex message is taken for whatever byte was stored first in the input buffer, such as the upper half of the
  last analog value: it calls back with that byte as its command and 255 as its length, or answers a firmware query, or
  does nothing (`Firmata.EmptySysex`, `Firmata.StaleCommand`). The callback gets what was sent if and only if something
  was (`Firmata.GenericMessage`).

## Model

| member | source | states |
|---|---|---|
| `Arrival.ArrivesWhenAsked` | Arduino/libraries/Adafruit_Circuit_Playground/utility/IRLibRecvPCI.h:24-31 | (IRLibRecvPCI.cpp:70-129) From an idle receiver, the interrupts of any supported frame (every recorded mark less the excess, and every recorded space plus the excess, within ten percent of what was sent), then silence and getResults: the whole decoder chain returns what was sent |
| `Arrival.ArrivesExactly` | Arduino/libraries/Adafruit_Circuit_Playground/utility/IRLibRecvPCI.h:24-31 | (IRLibRecvPCI.cpp:70-129) When every mark is recorded as sent plus the excess and every space as sent less the excess, getResults hands the decoder exactly the intervals that were sent, and the chain decodes them |
| `Arrival.ArrivesAfterNextMark` | Arduino/libraries/Adafruit_Circuit_Playground/utility/IRLibRecvPCI.h:24-31 | (IRLibRecvPCI.cpp:70-129) The same when the next mark ends the frame and the handler keeps running, with either buffer, before the main program asks |
| `Arrival.FrameRecorded` | Arduino/libraries/Adafruit_Circuit_Playground/utility/IRLibGlobals.h:57-80 | (IRLibRecvPCI.cpp:102-129) Fed the edges of a frame, the handler has recorded the gap and exactly the intervals, and waits in the space behind them |
| `Arrival.FrameFits` | Arduino/libraries/Adafruit_Circuit_Playground/utility/IRLibGlobals.h:27-32 | Every frame of every supported message has an odd number of intervals and fits the buffer of 100 entries with its gap |
| `Arrival.SentArriveInTurn` | Arduino/libraries/Adafruit_Circuit_Playground/utility/IRLibCombo.h:225-247 | Any calls of send one behind the other that are kept apart on the wire, recorded by the interrupt handler, with getResults after the timeout and enableIRIn before the next mark: the program decodes exactly what was sent, frame by frame, Sony's three and JVC's repeat included |
| `Arrival.ArriveInTurn` | Arduino/libraries/Adafruit_Circuit_Playground/utility/IRLibRecvPCI.h:24-31 | (IRLibRecvPCI.cpp:40-129) An idle receiver whose program asks for every frame in the gap behind it decodes any number of supported frames, each to its message |
| `Succession.SendsOnTheWire` | Arduino/libraries/Adafruit_Circuit_Playground/utility/IRLibCombo.h:225-247 | Cut at spaces of more than 7800us, the signal of any calls of send one behind the other has exactly the frames meant if and only if no 20-bit Sony message with 18 ones or more is among them and none but the last is Panasonic_Old, NECx data, RC5 of 23 to 26 bits or RC6 of 32 to 40 bits |
| `Succession.GapExactly` | Arduino/libraries/Adafruit_Circuit_Playground/utility/IRLibCombo.h:225-247 | The space behind a message is too short to end a frame for those messages, and for no others |
| `Succession.FramesApart` | Arduino/libraries/Adafruit_Circuit_Playground/utility/IRLibSendBase.cpp:97-107 | Frames with spaces behind them are cut apart if and only if every space but the last exceeds the timeout |
| `Succession.FramesOnTheWire` | Arduino/libraries/Adafruit_Circuit_Playground/utility/IRLibCombo.h:225-247 | The signal of one call of send has exactly the frames meant (three for Sony, headed and headless for JVC, one otherwise) if and only if the message is not a 20-bit Sony one with 18 ones or more |
| `Succession.SentIsReceived` | Arduino/libraries/Adafruit_Circuit_Playground/utility/IRLibCombo.h:169-189 | Every frame on the wire of such a message, with each interval within ten percent, decodes through the whole chain to the message it was meant for; whether a receiver records it is Arrival.SentArriveInTurn |
| `Notation.WaveIsNotated` | Arduino/libraries/Adafruit_Circuit_Playground/utility/IRLibCombo.h:225-247 | For every message, payload and width, the send method emits exactly the marks and spaces of a table in microseconds: header, cells of every digit (first digit on top), lead-out or total length, and for RC6 the double trailer and the 1100 in front of the 32-bit variety |
| `Notation.MCEFrame` | Arduino/libraries/Adafruit_Circuit_Playground/utility/IRLib_P04_RC6.h:52-79 | Whatever its payload, the frame of the 32-bit variety of RC6 begins 2666, 889, 444, 444, 444, 444, 444, 888, 444, 888: start bit, mode 110, trailer 0 |
| `Waves.NumberAsAsked` | Arduino/libraries/Adafruit_Circuit_Playground/utility/IRLibCombo.h:225-247 | send(p, ...) sends a message, for 1 to 12 and no other number, whose decoder is number p, but for the G.I. Cable ditto |
| `Waves.FieldsAsAsked` | Arduino/libraries/Adafruit_Circuit_Playground/utility/IRLibCombo.h:225-247 | What a decoder is to find, in numbers: for the protocols of one width the width, the low bits of the data, and the address or flag of data2 |
| `Waves.WidthsAsAsked` | Arduino/libraries/Adafruit_Circuit_Playground/utility/IRLibCombo.h:225-247 | The same for RC5, RC6 and RC-MM, where data2 is the width and 0 stands for 13, 16 and 12 bits |
| `Waves.DittosAsAsked` | Arduino/libraries/Adafruit_Circuit_Playground/utility/IRLibCombo.h:225-247 | The repeat code comes back as 0xffffffff without bits, that of G.I. Cable as NEC's |
| `Transmission.SonyFrames` | Arduino/libraries/Adafruit_Circuit_Playground/utility/IRLib_P02_Sony.h:31-35 | On the wire the three Sony frames are three signals when the space between them exceeds 7800us, and otherwise run into a single one |
| `Transmission.JoinedTooLong` | Arduino/libraries/Adafruit_Circuit_Playground/utility/IRLib_P02_Sony.h:31-35 | That single signal has 125 intervals, more than the 100 entries of the receive buffer |
| `Transmission.JoinedExample` | Arduino/libraries/Adafruit_Circuit_Playground/utility/IRLib_P02_Sony.h:31-35 | Twenty ones are such a message: supported, and not separated |
| `Arrival.JoinedIsRejected` | Arduino/libraries/Adafruit_Circuit_Playground/utility/IRLibGlobals.h:27-32 | (IRLibRecvPCI.cpp:125-128) At the handler the buffer is full after 99 of these intervals; whatever else happens before the program asks, it gets a frame that none of the twelve decoders accepts |
| `Transmission.SonyGapValue` | Arduino/libraries/Adafruit_Circuit_Playground/utility/IRLib_P02_Sony.h:31-35 | The space between Sony frames is 42600 - 1200n - 600k us for n bits with k ones |
| `Transmission.JVCFrames` | Arduino/libraries/Adafruit_Circuit_Playground/utility/IRLib_P06_JVC.h:29-36 | A first JVC message is a headed frame and a headless frame of the same data |
| `Transmission.Samsung36Burst` | Arduino/libraries/Adafruit_Circuit_Playground/utility/IRLib_P08_Samsung36.h:37-49 | The events of the Samsung36 sender merge into its 77 intervals, the 68us break lengthening the space in front of it |
| `Transmission.RC5Burst` | Arduino/libraries/Adafruit_Circuit_Playground/utility/IRLib_P03_RC5.h:37-59 | The half-bit events of an RC5 message merge into one frame and the silence behind it |
| `Transmission.RC6Burst` | Arduino/libraries/Adafruit_Circuit_Playground/utility/IRLib_P04_RC6.h:52-79 | The header and half-bit events of an RC6 message merge into one frame and the silence behind it |
| `FrameLength.NECLength` | Arduino/libraries/Adafruit_Circuit_Playground/utility/IRLib_P01_NEC.h:44-51 | Every NEC data frame lasts 108000us, whatever its payload |
| `FrameLength.NECDittoLength` | Arduino/libraries/Adafruit_Circuit_Playground/utility/IRLib_P01_NEC.h:44-51 | The NEC ditto, documented to have 108ms as well, lasts 109416us |
| `FrameLength.NECxLength` | Arduino/libraries/Adafruit_Circuit_Playground/utility/IRLib_P07_NECx.h:36-45 | An NECx data frame lasts 47376us and 1128us for every one in it: never the documented 108ms |
| `FrameLength.SonyLength` | Arduino/libraries/Adafruit_Circuit_Playground/utility/IRLib_P02_Sony.h:31-35 | Every Sony frame of a supported width lasts 45000us |
| `FrameLength.RC5Length` | Arduino/libraries/Adafruit_Circuit_Playground/utility/IRLib_P03_RC5.h:37-59 | An RC5 frame lasts 114000us if and only if it has 27 bits or more; otherwise the 16-bit space cuts it to 48464us |
| `FrameLength.RC6Length` | Arduino/libraries/Adafruit_Circuit_Playground/utility/IRLib_P04_RC6.h:52-79 | For up to 64 bits, an RC6 frame lasts 107000us if and only if it has 41 bits or more; otherwise the 16-bit space cuts it to 41464us |
| `FrameLength.RCMMLength` | Arduino/libraries/Adafruit_Circuit_Playground/utility/IRLib_P11_RCMM.h:43-62 | Every RC-MM frame lasts 27778us |
| `Delivery.ChainDelivers` | Arduino/libraries/Adafruit_Circuit_Playground/utility/IRLibCombo.h:169-189 | Any buffer within ten percent of the frame of any supported message is decoded by the ordered chain to that value, width, address and protocol; only the G.I. Cable ditto is taken for NEC's |
| `Delivery.OwnDecoderDelivers` | Arduino/libraries/Adafruit_Circuit_Playground/utility/IRLibDecodeBase.cpp:86-124 | Any buffer within the full timing windows (25 percent, 80us for RC-MM, the half-bit windows for RC5 and RC6) around a frame is decoded by its own decoder to what was sent |
| `RivalBuffers.AlwaysDelivered` | Arduino/libraries/Adafruit_Circuit_Playground/utility/IRLibCombo.h:169-189 | The chain gives a supported message back for every buffer within the full windows of its frame if and only if the message is none of these: a G.I. Cable ditto or all-zero payload, an RC5 payload of 9, 13, 16 or 21 zeros, an RC6 payload whose frame fills 26, 32 or 42 entries and whose third to fifth bits never fall from one to zero |
| `RivalBuffers.SafeIsDelivered` | Arduino/libraries/Adafruit_Circuit_Playground/utility/IRLibCombo.h:169-189 | A message that is none of these is decoded to itself from every buffer within its windows |
| `RivalBuffers.Mistaken` | Arduino/libraries/Adafruit_Circuit_Playground/utility/IRLibCombo.h:169-189 | For each of these messages a buffer within its windows that the chain gives to Sony, JVC or NEC |
| `RivalBuffers.RC5RiskOf` | Arduino/libraries/Adafruit_Circuit_Playground/utility/IRLib_P03_RC5.h:37-59 | An RC5 frame has the length, the long first mark and the single spaces of a Sony frame if and only if its payload is 9, 13, 16 or 21 zeros |
| `RivalBuffers.JoinsAtTrailer` | Arduino/libraries/Adafruit_Circuit_Playground/utility/IRLib_P04_RC6.h:65-77 | No space of an RC6 frame lasts three half-bits if and only if the third to fifth bits never fall from one to zero |
| `RivalBuffers.SonyAccepts` | Arduino/libraries/Adafruit_Circuit_Playground/utility/IRLib_P02_Sony.h:42-66 | What Sony decode accepts, interval by interval: four lengths, a 2400us mark, 600us spaces, and marks of 600us or 1200us |
| `PhaseRuns.SpacesOfRuns` | Arduino/libraries/Adafruit_Circuit_Playground/utility/IRLibDecodeBase.cpp:143-154 | The spaces among the merged runs of a frame stay within a limit exactly when wherever two silent half-bits meet they do |
| `PhaseRuns.RunCount` | Arduino/libraries/Adafruit_Circuit_Playground/utility/IRLibDecodeBase.cpp:143-154 | A phase-coded payload has two runs a bit, less one for every bit that differs from the one before |
| `Delivery.FrameEntries` | Arduino/libraries/Adafruit_Circuit_Playground/utility/IRLib_P04_RC6.h:92-96 | How many buffer entries an RC5 or RC6 frame fills, from its bits |
| `Delivery.RivalsReject` | Arduino/libraries/Adafruit_Circuit_Playground/utility/IRLibCombo.h:169-189 | A frame within ten percent is rejected by every decoder that could accept buffers of its own protocol |
| `Delivery.NearInWindows` | Arduino/libraries/Adafruit_Circuit_Playground/utility/IRLibDecodeBase.cpp:131-141 | Ten percent of jitter stays inside every timing window, the Samsung36 break included |
| `Delivery.JVCDelivered` | Arduino/libraries/Adafruit_Circuit_Playground/utility/IRLib_P06_JVC.h:43-67 | A headed JVC frame gives the data with 16 bits and address 1 |
| `Delivery.JVCRepeatDelivered` | Arduino/libraries/Adafruit_Circuit_Playground/utility/IRLib_P06_JVC.h:43-67 | A headless JVC frame gives the same data with 16 bits and address 0 |
| `Delivery.Samsung36Delivered` | Arduino/libraries/Adafruit_Circuit_Playground/utility/IRLib_P08_Samsung36.h:72-95 | A Samsung36 buffer, once the decoder has taken its 68us off, gives back the 20 data bits and the 16-bit address |
| `Delivery.DirecTVDelivered` | Arduino/libraries/Adafruit_Circuit_Playground/utility/IRLib_P10_DirecTV.h:73-117 | A DirecTV buffer gives back 16 bits and the first flag in address |
| `Delivery.RCMMDelivered` | Arduino/libraries/Adafruit_Circuit_Playground/utility/IRLib_P11_RCMM.h:79-109 | An RC-MM buffer of 12, 24 or 32 bits gives back its bits, two per symbol |
| `Delivery.SonyDelivered` | Arduino/libraries/Adafruit_Circuit_Playground/utility/IRLib_P02_Sony.h:42-66 | A Sony buffer of 8, 12, 15 or 20 bits gives back its bits |
| `Acceptance.NECReads` | Arduino/libraries/Adafruit_Circuit_Playground/utility/IRLib_P01_NEC.h:58-73 | The result for every buffer, entry by entry: the ditto, or 68 entries whose header and pairs lie in their windows, and then the number whose bits the spaces are |
| `Acceptance.SonyReads` | Arduino/libraries/Adafruit_Circuit_Playground/utility/IRLib_P02_Sony.h:42-66 | Likewise for the four lengths of Sony, the bit in the mark |
| `Acceptance.PanasonicOldReads` | Arduino/libraries/Adafruit_Circuit_Playground/utility/IRLib_P05_Panasonic_Old.h:36-52 | Likewise for 48 entries |
| `Acceptance.JVCReads` | Arduino/libraries/Adafruit_Circuit_Playground/utility/IRLib_P06_JVC.h:43-67 | Likewise for 36 entries with a header, address 1, and 34 without, address 0 |
| `Acceptance.NECxReads` | Arduino/libraries/Adafruit_Circuit_Playground/utility/IRLib_P07_NECx.h:52-67 | Likewise for the repeat frame, its second space unseen, and 68 entries |
| `Acceptance.Samsung36Reads` | Arduino/libraries/Adafruit_Circuit_Playground/utility/IRLib_P08_Samsung36.h:72-95 | Likewise for 78 entries: 16 pairs of address, a second header, and 20 pairs of data once entry 62 is 68us shorter |
| `Acceptance.GICableReads` | Arduino/libraries/Adafruit_Circuit_Playground/utility/IRLib_P09_GICable.h:46-59 | Likewise for the ditto and 36 entries |
| `Acceptance.DirecTVReads` | Arduino/libraries/Adafruit_Circuit_Playground/utility/IRLib_P10_DirecTV.h:73-117 | Likewise for 20 entries, a bit in every one, and the header mark that tells a repeat |
| `Acceptance.RCMMReads` | Arduino/libraries/Adafruit_Circuit_Playground/utility/IRLib_P11_RCMM.h:79-109 | Likewise for 16, 28 and 36 entries, two bits in every space with 80us either way, last mark included |
| `Acceptance.CYKMReads` | Arduino/libraries/Adafruit_Circuit_Playground/utility/IRLib_P12_CYKM.h:105-111 | Likewise for 34 entries |
| `Pulse.MatchWindow` | Arduino/libraries/Adafruit_Circuit_Playground/utility/IRLibDecodeBase.cpp:131-141 | MATCH takes a quarter either way of the nominal length, rounded down, and nothing from 32768 on |
| `Chain.AtMostOneDecoder` | Arduino/libraries/Adafruit_Circuit_Playground/utility/IRLibCombo.h:169-189 | No buffer whatever is accepted by two decoders, except by Sony and RC5, Sony and RC6, JVC and G.I. Cable, or NEC and G.I. Cable |
| `Chain.AcceptedShape` | Arduino/libraries/Adafruit_Circuit_Playground/utility/IRLibCombo.h:169-189 | What length and first intervals every buffer has that a decoder accepts, for all twelve decoders |
| `Chain.ChainExact` | Arduino/libraries/Adafruit_Circuit_Playground/utility/IRLibCombo.h:169-189 | The chain returns the result of a decoder exactly when its rivals in front of it reject |
| `RivalBuffers.RivalsMeet` | Arduino/libraries/Adafruit_Circuit_Playground/utility/IRLibCombo.h:169-189 | For each of those four pairs a supported message of the later protocol and a buffer within its windows that both decoders accept |
| `RivalBuffers.NECMeetsGICable` | Arduino/libraries/Adafruit_Circuit_Playground/utility/IRLib_P09_GICable.h:9-13 | A ditto that both the NEC and the G.I. Cable decoder accept |
| `RivalBuffers.RC5Bijection` | Arduino/libraries/Adafruit_Circuit_Playground/utility/IRLib_P03_RC5.h:73-102 | RC5 decode accepts a buffer with these bits if and only if its runs, expanded to half-bits, are the start mark and the phase coding of the bits, up to silence at the very end |
| `RivalBuffers.PhaseIntervals` | Arduino/libraries/Adafruit_Circuit_Playground/utility/IRLibDecodeBase.cpp:155-185 | Every interval of a buffer that a phase decoder accepts is one, two or three half-bits long |
| `RoundTrip.RC5RoundTrip` | Arduino/libraries/Adafruit_Circuit_Playground/utility/IRLib_P03_RC5.h:73-102 | Any run lengths within the RC5 windows decode to the data modulo 2^n and n, for n up to 32, if and only if the frame fills the 13 entries the decoder asks for; how many it fills follows from the bits |
| `RoundTrip.RC6RoundTrip` | Arduino/libraries/Adafruit_Circuit_Playground/utility/IRLib_P04_RC6.h:92-138 | Any run lengths within the RC6 windows, trailer of double width included, decode to the data modulo 2^n and n (36 counting as 32) for n up to 64, 36-bit form included, if and only if the frame fills 23 to 77 entries |
| `RoundTrip.PulseRoundTrip` | Arduino/libraries/Adafruit_Circuit_Playground/utility/IRLibDecodeBase.cpp:86-124 | Any buffer within the windows of a frame of symbols decodes to those symbols |
| `RoundTrip.SentAgain` | Arduino/libraries/Adafruit_Circuit_Playground/utility/IRLibDecodeBase.cpp:86-124 | Whatever a decoder with two symbols accepts, sending the decoded number again decodes to it again |
| `RoundTrip.PhaseRoundTrip` | Arduino/libraries/Adafruit_Circuit_Playground/utility/IRLibDecodeBase.cpp:155-185 | The phase coding of any bits, without some of its trailing silence, parses to the bits |
| `RoundTrip.AllReadable` | Arduino/libraries/Adafruit_Circuit_Playground/utility/IRLibDecodeBase.cpp:155-185 | A recording whose levels hold no error has only intervals of one to three half-bits |
| `Pulse.DecodePulseIff` | Arduino/libraries/Adafruit_Circuit_Playground/utility/IRLibDecodeBase.cpp:86-124 | A pulse decoder returns symbols for a buffer if and only if it has the length and lies in the windows of the frame of those symbols |
| `Pulse.ParseSound` | Arduino/libraries/Adafruit_Circuit_Playground/utility/IRLibDecodeBase.cpp:107-118 | Parsed symbols are within the alphabet and the buffer lies in their windows |
| `Pulse.ParseComplete` | Arduino/libraries/Adafruit_Circuit_Playground/utility/IRLibDecodeBase.cpp:107-118 | A buffer in the windows of symbols parses to them |
| `PhaseCode.ParsePhaseIff` | Arduino/libraries/Adafruit_Circuit_Playground/utility/IRLib_P04_RC6.h:108-127 | The phase loop accepts half-bit levels with these bits if and only if they spell them, up to silence at the end shorter than the last bit; for RC5 and RC6 |
| `PhaseRuns.SpreadMerge` | Arduino/libraries/Adafruit_Circuit_Playground/utility/IRLibDecodeBase.cpp:143-154 | Merging neighbouring events of one level neither moves nor loses a half-bit |
| `PhaseRuns.LevelsOfRuns` | Arduino/libraries/Adafruit_Circuit_Playground/utility/IRLibDecodeBase.cpp:155-185 | The classification of recorded runs gives back their half-bit levels |
| `PhaseRuns.RunBounds` | Arduino/libraries/Adafruit_Circuit_Playground/utility/IRLib_P04_RC6.h:65-77 | No merged run of a phase-coded frame exceeds three half-bits (two in RC5), and there are more runs than bits |
| `Wire.MergeExtend` | Arduino/libraries/Adafruit_Circuit_Playground/utility/IRLibSendBase.cpp:97-107 | Merging events as they arrive gives the same runs as merging them all |
| `Digits.TopDigitsOfLoaded` | Arduino/libraries/Adafruit_Circuit_Playground/utility/IRLibSendBase.cpp:36-49 | A register loaded with the payload at its left end and shifted left gives its n low digits, first one first |
| `Digits.ValOfToDigits` | Arduino/libraries/Adafruit_Circuit_Playground/utility/IRLibSendBase.cpp:36-49 | Writing n digits of a number and reading them back gives it modulo b^n |
| `Waves.GenericFrame` | Arduino/libraries/Adafruit_Circuit_Playground/utility/IRLibSendBase.cpp:32-60 | The events of sendGeneric, marks alike and with a stop mark, are the frame decodeGeneric expects |
| `Waves.SonyGeneric` | Arduino/libraries/Adafruit_Circuit_Playground/utility/IRLib_P02_Sony.h:31-35 | The events of sendGeneric with Sony's variable marks are the Sony frame and one space |
| `Waves.Samsung36Registers` | Arduino/libraries/Adafruit_Circuit_Playground/utility/IRLib_P08_Samsung36.h:37-49 | The shifted registers give the first 12 and the last 8 of the 20 data bits |
| `Waves.LoadedDigits` | Arduino/libraries/Adafruit_Circuit_Playground/utility/IRLib_P11_RCMM.h:43-62 | The register of RC-MM read two bits at a time gives the base-4 digits of the payload, for odd widths of all but its last bit |
| `Sender.IRsend.Mark` | Arduino/libraries/Adafruit_Circuit_Playground/utility/IRLibSendBase.cpp:97-101 | Appends one mark, and extent keeps counting the time since it was cleared, in 32 bits |
| `Sender.IRsend.Space` | Arduino/libraries/Adafruit_Circuit_Playground/utility/IRLibSendBase.cpp:103-107 | Appends one space of 16 bits, likewise |
| `Sender.IRsend.SendBits` | Arduino/libraries/Adafruit_Circuit_Playground/utility/IRLibSendBase.cpp:41-49 | The loop emits the cells of the register's top bits |
| `Sender.IRsend.SendGeneric` | Arduino/libraries/Adafruit_Circuit_Playground/utility/IRLibSendBase.cpp:32-60 | Emits header, the low numBits bits first to last, stop mark, and the space that is left of maxExtent, truncated to 16 bits |
| `Sender.IRsend.SendNEC` | Arduino/libraries/Adafruit_Circuit_Playground/utility/IRLib_P01_NEC.h:44-51 | Appends the NEC wave: data frame up to 108000us, or the ditto |
| `Sender.IRsend.SendSony` | Arduino/libraries/Adafruit_Circuit_Playground/utility/IRLib_P02_Sony.h:31-35 | Appends the Sony frame three times |
| `Sender.IRsend.SendRC5` | Arduino/libraries/Adafruit_Circuit_Playground/utility/IRLib_P03_RC5.h:37-59 | Appends start mark, phase-coded bits and truncated lead-out; 0 bits means 13 |
| `Sender.IRsend.SendRC6` | Arduino/libraries/Adafruit_Circuit_Playground/utility/IRLib_P04_RC6.h:52-79 | Appends header, start bit, phase-coded bits with the double-width trailer and truncated lead-out; 0 bits means 16, 32 bits are sent as 36 |
| `Sender.IRsend.SendPanasonicOld` | Arduino/libraries/Adafruit_Circuit_Playground/utility/IRLib_P05_Panasonic_Old.h:27-29 | Appends the 22-bit frame |
| `Sender.IRsend.SendJVC` | Arduino/libraries/Adafruit_Circuit_Playground/utility/IRLib_P06_JVC.h:29-36 | Appends a headed and a headless frame, or a headless one alone |
| `Sender.IRsend.SendNECx` | Arduino/libraries/Adafruit_Circuit_Playground/utility/IRLib_P07_NECx.h:36-45 | Appends the NECx frame or its repeat frame |
| `Sender.IRsend.SendSamsung36` | Arduino/libraries/Adafruit_Circuit_Playground/utility/IRLib_P08_Samsung36.h:37-49 | Appends address, 12 bits, the 68us break, 8 bits, stop mark and lead-out |
| `Sender.IRsend.SendGICable` | Arduino/libraries/Adafruit_Circuit_Playground/utility/IRLib_P09_GICable.h:30-39 | Appends the G.I. Cable frame or its ditto |
| `Sender.IRsend.SendDirecTV` | Arduino/libraries/Adafruit_Circuit_Playground/utility/IRLib_P10_DirecTV.h:53-65 | Appends one bit per mark and per space behind the header for first or repeat |
| `Sender.IRsend.SendRCMM` | Arduino/libraries/Adafruit_Circuit_Playground/utility/IRLib_P11_RCMM.h:43-62 | Appends two bits per space and the lead-out up to 27778us; 0 bits means 12, and an odd last bit is not sent |
| `Sender.IRsend.SendCYKM` | Arduino/libraries/Adafruit_Circuit_Playground/utility/IRLib_P12_CYKM.h:95-98 | Appends the 15-bit frame and 10ms |
| `Sender.IRsend.Send` | Arduino/libraries/Adafruit_Circuit_Playground/utility/IRLibCombo.h:225-247 | Dispatch: appends the wave of the message that protocol number, data and data2 stand for, nothing for other numbers |
| `Decoder.IRdecode.constructor` | Arduino/libraries/Adafruit_Circuit_Playground/utility/IRLibDecodeBase.cpp:16-21 | A decoder starts reset, on the receiver's buffer |
| `Decoder.IRdecode.ResetDecoder` | Arduino/libraries/Adafruit_Circuit_Playground/utility/IRLibDecodeBase.cpp:26-31 | Clears the four public fields |
| `Decoder.IRdecode.DecodeGeneric` | Arduino/libraries/Adafruit_Circuit_Playground/utility/IRLibDecodeBase.cpp:86-124 | For recordings of any length: accepts exactly when the length, header windows and every pair of the payload match, and then holds the low 32 bits, the next 16 and the bit count |
| `Decoder.IRdecode.ReadPairs` | Arduino/libraries/Adafruit_Circuit_Playground/utility/IRLibDecodeBase.cpp:107-118 | The data loop succeeds exactly when the payload parses, with its number in the 64-bit register |
| `Decoder.IRdecode.GetRClevel` | Arduino/libraries/Adafruit_Circuit_Playground/utility/IRLibDecodeBase.cpp:155-185 | Returns the next half-bit of the run-length expansion and drops it, SPACE for ever at the end, and stays put on an interval of no whole number of half-bits |
| `Decoder.IRdecode.DecodeNEC` | Arduino/libraries/Adafruit_Circuit_Playground/utility/IRLib_P01_NEC.h:58-73 | Accepts the ditto or a data frame and sets the fields accordingly |
| `Decoder.IRdecode.DecodeSony` | Arduino/libraries/Adafruit_Circuit_Playground/utility/IRLib_P02_Sony.h:42-66 | Accepts exactly the Sony buffers of the four widths, with their bits |
| `Decoder.IRdecode.DecodeRC5` | Arduino/libraries/Adafruit_Circuit_Playground/utility/IRLib_P03_RC5.h:73-102 | Accepts exactly when the half-bits are a start mark and phase-coded bits; value holds the last 32 of them |
| `Decoder.IRdecode.DecodeRC6` | Arduino/libraries/Adafruit_Circuit_Playground/utility/IRLib_P04_RC6.h:92-138 | Accepts exactly when header, start bit and phase-coded bits with the double-width trailer are found; 36 bits count as 32 |
| `Decoder.IRdecode.DecodePanasonicOld` | Arduino/libraries/Adafruit_Circuit_Playground/utility/IRLib_P05_Panasonic_Old.h:36-52 | Accepts exactly the 48-entry frames in its windows |
| `Decoder.IRdecode.DecodeJVC` | Arduino/libraries/Adafruit_Circuit_Playground/utility/IRLib_P06_JVC.h:43-67 | Accepts headed and headless frames, with 16 bits in both and the header told by address |
| `Decoder.IRdecode.DecodeJVCRepeat` | Arduino/libraries/Adafruit_Circuit_Playground/utility/IRLib_P06_JVC.h:49-61 | The bit that the generic loop skips is put back on top |
| `Decoder.IRdecode.DecodeNECx` | Arduino/libraries/Adafruit_Circuit_Playground/utility/IRLib_P07_NECx.h:52-67 | Accepts the repeat frame (its second space unseen) or a data frame |
| `Decoder.IRdecode.DecodeSamsung36` | Arduino/libraries/Adafruit_Circuit_Playground/utility/IRLib_P08_Samsung36.h:72-95 | Accepts exactly the two-part frames, takes 68us off entry 62 of the buffer for good, and leaves fields alone at other lengths |
| `Decoder.IRdecode.GetBits` | Arduino/libraries/Adafruit_Circuit_Playground/utility/IRLib_P08_Samsung36.h:102-114 | A segment is read exactly when it parses, with its number in data |
| `Decoder.IRdecode.DecodeGICable` | Arduino/libraries/Adafruit_Circuit_Playground/utility/IRLib_P09_GICable.h:46-59 | Accepts the ditto or a data frame; the ditto leaves address as it was |
| `Decoder.IRdecode.DecodeDirecTV` | Arduino/libraries/Adafruit_Circuit_Playground/utility/IRLib_P10_DirecTV.h:73-117 | Accepts exactly the 20-entry frames, with the first flag in address |
| `Decoder.IRdecode.DecodeRCMM` | Arduino/libraries/Adafruit_Circuit_Playground/utility/IRLib_P11_RCMM.h:79-109 | Accepts exactly the frames of 12, 24 and 32 bits, last mark included |
| `Decoder.IRdecode.DecodeCYKM` | Arduino/libraries/Adafruit_Circuit_Playground/utility/IRLib_P12_CYKM.h:105-111 | Accepts exactly the 34-entry frames, and splits the value into command type, modifiers and data that add up to it |
| `Decoder.IRdecode.Decode` | Arduino/libraries/Adafruit_Circuit_Playground/utility/IRLibCombo.h:169-189 | Runs the twelve decoders in order with early return; result and fields are those of the chain on the buffer as it was, although Samsung36 may have changed it |
| `Receiver.TakeKeeps` | Arduino/libraries/Adafruit_Circuit_Playground/utility/IRLibRecvBase.cpp:161-187 | Every step of interrupt handler and main program keeps the state consistent: a frame waiting in the receive buffer pauses the handler, a resumed one has its own buffer |
| `Receiver.DecodingIsSafe` | Arduino/libraries/Adafruit_Circuit_Playground/utility/IRLibRecvBase.cpp:126-136 | After getResults no interleaving of interrupts, completions, output and disableIRIn changes the decode buffer or its length |
| `Receiver.FetchedOnce` | Arduino/libraries/Adafruit_Circuit_Playground/utility/IRLibRecvBase.cpp:70-97 | A completed frame that is fetched after any interrupts equals the frame at completion with every entry corrected once, marks less the excess and spaces plus the excess in 16 bits: in place, copied, or auto-resumed |
| `Receiver.HeldRun` | Arduino/libraries/Adafruit_Circuit_Playground/utility/IRLibRecvBase.cpp:161-187 | A completed frame survives any interrupts, in the buffer where it waits |
| `Receiver.SurvivesDisable` | Arduino/libraries/Adafruit_Circuit_Playground/utility/IRLibRecvBase.cpp:120-124 | Whatever happens before and behind disableIRIn, a waiting frame survives it if and only if it had not been resumed or an equal one had been recorded since; getResults delivers what the receive buffer holds |
| `Receiver.SecondFrameFetched` | Arduino/libraries/Adafruit_Circuit_Playground/utility/IRLibRecvBase.cpp:134-136 | A frame that completes now is among those that getResults hands out up to the next enableIRIn, over every run of interrupts, output and calls of getResults, if and only if the program asks and no resumed frame was waiting (or an equal one was) |
| `Receiver.SecondFrameIsLost` | Arduino/libraries/Adafruit_Circuit_Playground/utility/IRLibRecvBase.cpp:134-136 | If one was, only that one is ever handed out, and enableIRIn starts an empty recording |
| `Receiver.FoundIsDue` | Arduino/libraries/Adafruit_Circuit_Playground/utility/IRLibRecvBase.cpp:70-97 | Whatever getResults finds is what was recorded, every mark less the excess and every space plus the excess |
| `Receiver.SecondFrameReached` | Arduino/libraries/Adafruit_Circuit_Playground/utility/IRLibRecvBase.cpp:161-187 | From the start, ten steps lead to a second frame that completes while the first one waits resumed |
| `Receiver.FirstFrameReached` | Arduino/libraries/Adafruit_Circuit_Playground/utility/IRLibRecvBase.cpp:161-187 | From the start, four steps lead to a frame that only the next mark will end |
| `Receiver.SecondFrameBeheaded` | Arduino/libraries/Adafruit_Circuit_Playground/utility/IRLibRecvPCI.h:7-12 | (IRLibRecvPCI.cpp:105-122) When only the next mark tells the handler that a frame is over and it resumes by itself, the frame is kept but the next one is recorded without its first two intervals |
| `Receiver.RecordedWhole` | Arduino/libraries/Adafruit_Circuit_Playground/utility/IRLibRecvPCI.h:7-12 | (IRLibRecvPCI.cpp:105-122) From any state, a signal is recorded whole from its first mark on if and only if the handler is waiting for one |
| `Receiver.SecondFrameWhole` | Arduino/libraries/Adafruit_Circuit_Playground/utility/IRLibRecvPCI.h:7-12 | (IRLibRecvPCI.cpp:70-91) With one getResults between two frames, the second is recorded whole if and only if the call came after the timeout and the receiver could resume |
| `Receiver.LongSignalCut` | Arduino/libraries/Adafruit_Circuit_Playground/utility/IRLibGlobals.h:27-32 | (IRLibRecvPCI.cpp:125-128) A signal that is too long for the buffer is cut off after 99 intervals, which become a frame |
| `Receiver.EnableRearms` | Arduino/libraries/Adafruit_Circuit_Playground/utility/IRLibRecvBase.cpp:126-136 | enableIRIn leaves waiting data alone; otherwise it asks for data, starts a stopped receiver afresh, keeps a running recording, leaves the decode buffer alone, and allows exactly one more auto-resume |
| `Receiver.PollsDuring` | Arduino/libraries/Adafruit_Circuit_Playground/utility/IRLibRecvPCI.h:30 | (IRLibRecvPCI.cpp:70-91) A program that asks while a frame is received, in a mark of any length or a space up to the timeout, gets nothing and changes nothing |
| `Receiver.DisableStops` | Arduino/libraries/Adafruit_Circuit_Playground/utility/IRLibRecvBase.cpp:115-124 | disableIRIn makes the receiver ignore any interrupts, in every state, until enableIRIn starts it afresh |
| `Receiver.OutputRestarts` | Arduino/libraries/Adafruit_Circuit_Playground/utility/IRLibRecvBase.cpp:126-136 | After sending, enableIRIn gives up what was being recorded and waits for a mark |
| `Receiver.DisabledIgnores` | Arduino/libraries/Adafruit_Circuit_Playground/utility/IRLibRecvBase.cpp:115-124 | A stopped receiver ignores any number of interrupts |
| `Receiver.RecordRuns` | Arduino/libraries/Adafruit_Circuit_Playground/utility/IRLibGlobals.h:61-80 | (IRLibRecvPCI.cpp:102-129) Any runs with spaces within the timeout are recorded one by one |
| `Receiver.RecordSignal` | Arduino/libraries/Adafruit_Circuit_Playground/utility/IRLibGlobals.h:61-80 | (IRLibRecvPCI.cpp:102-129) A receiver that waits for a mark records the gap in front of a signal and the signal |
| `Reception.IRrecvPCI.constructor` | Arduino/libraries/Adafruit_Circuit_Playground/utility/IRLibRecvBase.cpp:36-48 | The initial state: finished, no data, decoder on the receiver's buffer, 7800us timeout and 50us excess |
| `Reception.IRrecvPCI.Complete` | Arduino/libraries/Adafruit_Circuit_Playground/utility/IRLibRecvBase.cpp:161-187 | New state after a completed frame: copied and resumed, or paused |
| `Reception.IRrecvPCI.Handler` | Arduino/libraries/Adafruit_Circuit_Playground/utility/IRLibGlobals.h:57-80 | (IRLibRecvPCI.cpp:102-129) New state after an edge: ignored, first gap, another entry, timeout or full buffer |
| `Reception.IRrecvPCI.Fetch` | Arduino/libraries/Adafruit_Circuit_Playground/utility/IRLibRecvBase.cpp:70-97 | New state after the adjustment, also when source and destination are one array |
| `Reception.IRrecvPCI.AdjustBuffer` | Arduino/libraries/Adafruit_Circuit_Playground/utility/IRLibRecvBase.cpp:90-92 | The loop puts the entries of the source, marks less the excess and spaces plus the excess, at the start of the decode buffer, in place or not |
| `Reception.IRrecvPCI.GetResults` | Arduino/libraries/Adafruit_Circuit_Playground/utility/IRLibRecvPCI.h:30 | (IRLibRecvPCI.cpp:70-91) Fetches a waiting frame or ends one by timeout, with marks less the excess and spaces plus it, and says whether it did |
| `Reception.IRrecvPCI.EnableIRIn` | Arduino/libraries/Adafruit_Circuit_Playground/utility/IRLibRecvPCI.h:29 | (IRLibRecvPCI.cpp:40-49) Restarts a finished receiver unless data is waiting |
| `Reception.IRrecvPCI.DisableIRIn` | Arduino/libraries/Adafruit_Circuit_Playground/utility/IRLibRecvPCI.h:31 | (IRLibRecvPCI.cpp:55-58) Stops the receiver |
| `Reception.IRrecvPCI.EnableAutoResume` | Arduino/libraries/Adafruit_Circuit_Playground/utility/IRLibRecvBase.cpp:137-140 | Gives the decoder a buffer of its own |
| `Firmata.StreamRoundTrip` | Arduino/libraries/Adafruit_Circuit_Playground/utility/CP_Firmata.cpp:285-372 | Parsing any list of complete messages of every kind (analog, digital, sysex, string, pin mode, pin value, the two reports, version and firmware queries, reset) makes exactly the calls of those with a callback, in order, and ends idle |
| `Firmata.AnalogMessage` | Arduino/libraries/Adafruit_Circuit_Playground/utility/CP_Firmata.cpp:300-337 | From every state outside sysex, however the last message was cut off, one analog message makes exactly its own call, or none without a callback, and leaves nothing pending |
| `Firmata.DigitalMessage` | Arduino/libraries/Adafruit_Circuit_Playground/utility/CP_Firmata.cpp:300-337 | Likewise for a digital message |
| `Firmata.TwoByteMessage` | Arduino/libraries/Adafruit_Circuit_Playground/utility/CP_Firmata.cpp:300-337 | Each of the four commands with two data bytes makes exactly its call, first byte first, from every state outside sysex |
| `Firmata.ReportMessage` | Arduino/libraries/Adafruit_Circuit_Playground/utility/CP_Firmata.cpp:300-337 | The two report commands likewise, with one data byte |
| `Firmata.DigitalExactly` | Arduino/libraries/Adafruit_Circuit_Playground/utility/CP_Firmata.cpp:435-440 | A digital message makes exactly its call if and only if bit 14 of the value, the top bit of its third byte, is clear |
| `Firmata.Resynchronised` | Arduino/libraries/Adafruit_Circuit_Playground/utility/CP_Firmata.cpp:289-299 | From every state in which END_SYSEX keeps the parser in its buffer, END_SYSEX and an analog message make the call of that message and end idle |
| `Firmata.SysexMessage` | Arduino/libraries/Adafruit_Circuit_Playground/utility/CP_Firmata.cpp:449-458 | A sysex message of up to 31 bytes arrives as the pairs that were sent, with their number |
| `Firmata.TextMessage` | Arduino/libraries/Adafruit_Circuit_Playground/utility/CP_Firmata.cpp:465-479 | A string of 1 to 31 non-zero characters arrives as it was sent |
| `Firmata.ResetNow` | Arduino/libraries/Adafruit_Circuit_Playground/utility/CP_Firmata.cpp:629-646 | From every state outside sysex, 0xFF leaves nothing pending, channel and all 64 stored bytes 0, and makes the reset call if there is a callback |
| `Firmata.ResetBehind` | Arduino/libraries/Adafruit_Circuit_Playground/utility/CP_Firmata.cpp:285-372 | What follows a reset makes exactly the calls that it makes on a new parser, whatever was pending |
| `Firmata.ResetCutsOff` | Arduino/libraries/Adafruit_Circuit_Playground/utility/CP_Firmata.cpp:285-372 | The bytes E0 FF 01 02 make the reset call alone |
| `Firmata.StrayByte` | Arduino/libraries/Adafruit_Circuit_Playground/utility/CP_Firmata.cpp:285-372 | A byte that begins no message, where no data is awaited or it is not data, changes at most the channel and makes no call |
| `Firmata.QueryWithin` | Arduino/libraries/Adafruit_Circuit_Playground/utility/CP_Firmata.cpp:285-372 | A version query in the middle of a message is answered first, and the message still makes its call |
| `Firmata.SampleMessages` | Arduino/libraries/Adafruit_Circuit_Playground/utility/CP_Firmata.cpp:394-440 | Messages of eight kinds as bytes on the wire, and their calls |
| `Firmata.SampleSysex` | Arduino/libraries/Adafruit_Circuit_Playground/utility/CP_Firmata.cpp:449-479 | Firmware query, sysex message and string as bytes on the wire, and their calls |
| `Firmata.GenericMessage` | Arduino/libraries/Adafruit_Circuit_Playground/utility/CP_Firmata.cpp:235-299 | Outside sysex, a message of up to 64 bytes that is neither firmware query nor string makes one sysex call; it has the command, the data and their number as sent if and only if something was sent |
| `Firmata.EmptySysex` | Arduino/libraries/Adafruit_Circuit_Playground/utility/CP_Firmata.cpp:235-299 | From every state outside sysex, an empty sysex message calls back with the byte stored first as its command and 255 as its length if and only if that byte is neither firmware query nor string, answers the firmware query if and only if it is that one, and does nothing if and only if it is the other |
| `Firmata.EmptyBehindAnalog` | Arduino/libraries/Adafruit_Circuit_Playground/utility/CP_Firmata.cpp:285-372 | Behind an analog message that byte is the upper half of its value |
| `Firmata.StaleCommand` | Arduino/libraries/Adafruit_Circuit_Playground/utility/CP_Firmata.cpp:285-372 | From the start, the bytes E0 01 05 F0 F7 make an analog call and a sysex call with the data byte 5 as its command |
| `Firmata.InPlaceRestores` | Arduino/libraries/Adafruit_Circuit_Playground/utility/CP_Firmata.cpp:241-262 | Decoding the pairs over the start of their own buffer restores every byte and ends in a NUL |
| `Firmata.Step` | Arduino/libraries/Adafruit_Circuit_Playground/utility/CP_Firmata.cpp:285-372 | Every byte that does not make the source leave its buffer keeps the parser valid (what a reset leaves is Firmata.ResetNow): data is awaited if and only if a command is pending, never more than two bytes |
| `Board.FirmataClass.constructor` | Arduino/libraries/Adafruit_Circuit_Playground/utility/CP_Firmata.cpp:64-69 | A new parser is reset |
| `Board.FirmataClass.Parse` | Arduino/libraries/Adafruit_Circuit_Playground/utility/CP_Firmata.cpp:285-372 | New parser state and calls after one byte |
| `Board.FirmataClass.ProcessSysexMessage` | Arduino/libraries/Adafruit_Circuit_Playground/utility/CP_Firmata.cpp:235-268 | New buffer and the call of a complete sysex message |
| `Board.FirmataClass.DecodeString` | Arduino/libraries/Adafruit_Circuit_Playground/utility/CP_Firmata.cpp:243-260 | The loop over one buffer gives the decoded, terminated text |
| `Board.FirmataClass.SystemReset` | Arduino/libraries/Adafruit_Circuit_Playground/utility/CP_Firmata.cpp:629-646 | Clears the parser, every buffer byte included, and calls back |
| `Board.FirmataClass.SendValueAsTwo7bitBytes` | Arduino/libraries/Adafruit_Circuit_Playground/utility/CP_Firmata.cpp:34-38 | Writes the two 7-bit halves |
| `Board.FirmataClass.SendAnalog` | Arduino/libraries/Adafruit_Circuit_Playground/utility/CP_Firmata.cpp:394-399 | Writes what Print gives for an analog message |
| `Board.FirmataClass.SendDigitalPort` | Arduino/libraries/Adafruit_Circuit_Playground/utility/CP_Firmata.cpp:435-440 | Writes what Print gives for a digital message, third byte uncut |
| `Board.FirmataClass.SendSysex` | Arduino/libraries/Adafruit_Circuit_Playground/utility/CP_Firmata.cpp:449-458 | Writes markers, command and pairs |
| `Board.FirmataClass.SendString` | Arduino/libraries/Adafruit_Circuit_Playground/utility/CP_Firmata.cpp:465-479 | Writes a string message of the length taken modulo 256 |
| `Board.FirmataClass.Attach` | Arduino/libraries/Adafruit_Circuit_Playground/utility/CP_Firmata.cpp:497-507 | The six commands with numbers get a callback, every other command is ignored |
| `Board.FirmataClass.AttachSystemReset` | Arduino/libraries/Adafruit_Circuit_Playground/utility/CP_Firmata.cpp:514-519 | Only SYSTEM_RESET gets a callback |
| `Board.FirmataClass.AttachString` | Arduino/libraries/Adafruit_Circuit_Playground/utility/CP_Firmata.cpp:526-531 | Only STRING_DATA gets a callback |
| `Board.FirmataClass.AttachSysex` | Arduino/libraries/Adafruit_Circuit_Playground/utility/CP_Firmata.cpp:538-541 | Whatever the command, sysex messages get a callback |
| `Board.FirmataClass.Detach` | Arduino/libraries/Adafruit_Circuit_Playground/utility/CP_Firmata.cpp:548-557 | Any command that can have a callback loses it, whichever overload gave it |
| `Pixels.NeverBrighter` | Arduino/libraries/Adafruit_Circuit_Playground/utility/Adafruit_CPlay_NeoPixel.cpp:2509-2541 | After every run of public setters no stored byte exceeds getBrightness, and for every next brightness the product fits 16 bits and its upper byte the brightness |
| `Pixels.RescaleBound` | Arduino/libraries/Adafruit_Circuit_Playground/utility/Adafruit_CPlay_NeoPixel.cpp:2530-2538 | The rescaling product of a byte within the old brightness fits 16 bits, its upper byte the new brightness |
| `Pixels.RescaleKeepsLight` | Arduino/libraries/Adafruit_Circuit_Playground/utility/Adafruit_CPlay_NeoPixel.cpp:2530-2538 | Byte c of a strip of brightness was becomes c * b / was at brightness b, less than one step off either way: none is blacked out, none brighter than its share |
| `Pixels.RescaleFull` | Arduino/libraries/Adafruit_Circuit_Playground/utility/Adafruit_CPlay_NeoPixel.cpp:2530-2538 | A byte as bright as the strip is as bright as the strip afterwards |
| `Pixels.BrightnessRescales` | Arduino/libraries/Adafruit_Circuit_Playground/utility/Adafruit_CPlay_NeoPixel.cpp:2509-2541 | Both hold of every byte of the strip after setBrightness |
| `Pixels.SetBrightness` | Arduino/libraries/Adafruit_Circuit_Playground/utility/Adafruit_CPlay_NeoPixel.cpp:2509-2541 | Rescaling all bytes keeps the strip valid at exactly the brightness asked for; by how much every byte changes is Pixels.BrightnessRescales |
| `Pixels.SetThenGet` | Arduino/libraries/Adafruit_Circuit_Playground/utility/Adafruit_CPlay_NeoPixel.cpp:2455-2491 | For every named order and state, setting a pixel changes what is read of it to the echo of its colour, and of no other pixel |
| `Pixels.EchoIsClose` | Arduino/libraries/Adafruit_Circuit_Playground/utility/Adafruit_CPlay_NeoPixel.cpp:2463-2470 | The echo is exact at full brightness, otherwise less than 1 + 256/B below, and white is 0 on RGB strips |
| `Pixels.ScaleRoundTrip` | Arduino/libraries/Adafruit_Circuit_Playground/utility/Adafruit_CPlay_NeoPixel.cpp:2230-2234 | One component written and read back stays within that bound |
| `Pixels.FillExactly` | Arduino/libraries/Adafruit_Circuit_Playground/utility/Adafruit_CPlay_NeoPixel.cpp:2323-2343 | fill reaches exactly the pixels asked for if and only if first + count fits 16 bits; otherwise it fills none |
| `Pixels.FillThenGet` | Arduino/libraries/Adafruit_Circuit_Playground/utility/Adafruit_CPlay_NeoPixel.cpp:2323-2343 | After fill the pixels in range read as the echo of the colour, all others as before |
| `Pixels.UpdateLength` | Arduino/libraries/Adafruit_Circuit_Playground/utility/Adafruit_CPlay_NeoPixel.cpp:115-126 | A new length leaves a valid, dark strip |
| `Pixels.UpdateType` | Arduino/libraries/Adafruit_Circuit_Playground/utility/Adafruit_CPlay_NeoPixel.cpp:145-162 | A new colour order leaves a valid strip |
| `Pixels.Clear` | Arduino/libraries/Adafruit_Circuit_Playground/utility/Adafruit_CPlay_NeoPixel.cpp:2554-2556 | Clearing leaves a valid strip |
| `Pixels.ClearIsDark` | Arduino/libraries/Adafruit_Circuit_Playground/utility/Adafruit_CPlay_NeoPixel.cpp:2554-2556 | After clear every byte is 0, every pixel reads as black, and length, order and brightness are kept |
| `Pixels.NewLengthIsDark` | Arduino/libraries/Adafruit_Circuit_Playground/utility/Adafruit_CPlay_NeoPixel.cpp:115-126 | After updateLength the strip is dark, of the length asked for, with order and brightness kept |
| `Pixels.NewStripIsDark` | Arduino/libraries/Adafruit_Circuit_Playground/utility/Adafruit_CPlay_NeoPixel.cpp:62-67 | A new strip is dark, of the length and order asked for |
| `Pixels.TypeKeepsBytes` | Arduino/libraries/Adafruit_Circuit_Playground/utility/Adafruit_CPlay_NeoPixel.cpp:145-162 | An order of the same size keeps every byte, so that going back restores the strip; one of another size leaves a dark strip of the same length |
| `Pixels.OutOfRange` | Arduino/libraries/Adafruit_Circuit_Playground/utility/Adafruit_CPlay_NeoPixel.cpp:2226-2246 | Pixels that are not there are not written and read as black |
| `Pixels.PackedBytes` | Arduino/libraries/Adafruit_Circuit_Playground/utility/Adafruit_CPlay_NeoPixel.cpp:2468-2486 | White is the top byte of a packed colour, then red, green and blue |
| `NeoPixelStrip.NameIsOrder` | Arduino/libraries/Adafruit_Circuit_Playground/utility/Adafruit_CPlay_NeoPixel.cpp:145-162 | Every NEO_ constant, made from the places of the letters in its name, is an order with the components in those places |
| `NeoPixelStrip.TransmitsAs` | Arduino/libraries/Adafruit_Circuit_Playground/utility/Adafruit_CPlay_NeoPixel.cpp:2226-2279 | A strip of such a name holds the components of a pixel in the order of its letters, each scaled |
| `Pixels.UnpackOfPack` | Arduino/libraries/Adafruit_Circuit_Playground/utility/Adafruit_CPlay_NeoPixel.cpp:2468-2486 | No component of a packed colour bleeds into its neighbour |
| `NeoPixelStrip.NeoPixel.constructor` | Arduino/libraries/Adafruit_Circuit_Playground/utility/Adafruit_CPlay_NeoPixel.cpp:62-67 | A new strip is dark and at full brightness |
| `NeoPixelStrip.NeoPixel.UpdateLength` | Arduino/libraries/Adafruit_Circuit_Playground/utility/Adafruit_CPlay_NeoPixel.cpp:115-126 | Reallocates and clears; without memory no pixels are left |
| `NeoPixelStrip.NeoPixel.UpdateType` | Arduino/libraries/Adafruit_Circuit_Playground/utility/Adafruit_CPlay_NeoPixel.cpp:145-162 | Changes the offsets, and reallocates when the bytes per pixel change |
| `NeoPixelStrip.NeoPixel.SetPixelRGB` | Arduino/libraries/Adafruit_Circuit_Playground/utility/Adafruit_CPlay_NeoPixel.cpp:2226-2246 | Stores three scaled components, white off |
| `NeoPixelStrip.NeoPixel.SetPixelRGBW` | Arduino/libraries/Adafruit_Circuit_Playground/utility/Adafruit_CPlay_NeoPixel.cpp:2258-2279 | Stores four scaled components, white only where there is one |
| `NeoPixelStrip.NeoPixel.SetPixelColor` | Arduino/libraries/Adafruit_Circuit_Playground/utility/Adafruit_CPlay_NeoPixel.cpp:2288-2310 | The same from a packed colour |
| `NeoPixelStrip.NeoPixel.GetPixelColor` | Arduino/libraries/Adafruit_Circuit_Playground/utility/Adafruit_CPlay_NeoPixel.cpp:2455-2491 | Returns the packed colour read back, every quotient proved to fit its byte |
| `NeoPixelStrip.NeoPixel.SetBrightness` | Arduino/libraries/Adafruit_Circuit_Playground/utility/Adafruit_CPlay_NeoPixel.cpp:2509-2541 | Rescales the buffer in place with 8- and 16-bit arithmetic, within the bounds of Pixels.BrightnessRescales |
| `NeoPixelStrip.NeoPixel.RescaleInPlace` | Arduino/libraries/Adafruit_Circuit_Playground/utility/Adafruit_CPlay_NeoPixel.cpp:2535-2538 | The loop rescales every byte once |
| `NeoPixelStrip.NeoPixel.Fill` | Arduino/libraries/Adafruit_Circuit_Playground/utility/Adafruit_CPlay_NeoPixel.cpp:2323-2343 | Sets the pixels from first to the 16-bit end |
| `NeoPixelStrip.NeoPixel.Clear` | Arduino/libraries/Adafruit_Circuit_Playground/utility/Adafruit_CPlay_NeoPixel.cpp:2554-2556 | Zeroes the buffer |
| `NeoPixelStrip.NeoPixel.GetBrightness` | Arduino/libraries/Adafruit_Circuit_Playground/utility/Adafruit_CPlay_NeoPixel.cpp:2547-2549 | The stored brightness less one, in 8 bits |
| `ColorWheel.Continuous` | Arduino/libraries/Adafruit_Circuit_Playground/utility/Adafruit_CPlay_NeoPixel.cpp:2368-2442 | Neighbouring hues, the rollover included, differ by at most one in at most one component, for every saturation and value |
| `ColorWheel.LargestIsValue` | Arduino/libraries/Adafruit_Circuit_Playground/utility/Adafruit_CPlay_NeoPixel.cpp:2435-2441 | The largest component equals the value, for every hue and saturation |
| `ColorWheel.PureIsWheel` | Arduino/libraries/Adafruit_Circuit_Playground/utility/Adafruit_CPlay_NeoPixel.cpp:2402-2433 | Each component is 510 less the distance from its own hue on the circle of 1530, cut to 0 to 255: red at 0, green at 510, blue at 1020 |
| `ColorWheel.PositionNearest` | Arduino/libraries/Adafruit_Circuit_Playground/utility/Adafruit_CPlay_NeoPixel.cpp:2372-2384 | The position is that of the 16-bit hue rounded to the nearest |
| `ColorWheel.LiftClose` | Arduino/libraries/Adafruit_Circuit_Playground/utility/Adafruit_CPlay_NeoPixel.cpp:2435-2441 | Saturation moves a component from white to 255 - (255 - c) * sat / 255, less than one step off |
| `ColorWheel.DimClose` | Arduino/libraries/Adafruit_Circuit_Playground/utility/Adafruit_CPlay_NeoPixel.cpp:2435-2441 | Value scales it to c * val / 255, less than one step off |
| `ColorWheel.PackedWheel` | Arduino/libraries/Adafruit_Circuit_Playground/utility/Adafruit_CPlay_NeoPixel.cpp:2402-2441 | The three bytes of the word are the shades of those components, red on top |
| `ColorWheel.PureColours` | Arduino/libraries/Adafruit_Circuit_Playground/utility/Adafruit_CPlay_NeoPixel.cpp:2402-2433 | At full saturation and value the components are those of the wheel, the largest 255 and the smallest 0 |
| `ColorWheel.Grey` | Arduino/libraries/Adafruit_Circuit_Playground/utility/Adafruit_CPlay_NeoPixel.cpp:2435-2441 | Without saturation all components equal the value |
| `ColorWheel.PackedColor` | Arduino/libraries/Adafruit_Circuit_Playground/utility/Adafruit_CPlay_NeoPixel.cpp:2435-2441 | The masked and shifted 16-bit products, put together by bitwise or, are the packed colour of the three components: none carries into its neighbour |
| `ColorWheel.DistinctHues` | Arduino/libraries/Adafruit_Circuit_Playground/utility/Adafruit_CPlay_NeoPixel.cpp:2387-2400 | The 1530 positions of the wheel have different colours |
| `ColorWheel.EveryPosition` | Arduino/libraries/Adafruit_Circuit_Playground/utility/Adafruit_CPlay_NeoPixel.cpp:2372-2384 | Every position is reached by some 16-bit hue |
| `Talkie.LeastSignificantFirst` | Arduino/libraries/Adafruit_Circuit_Playground/utility/talkie.cpp:57-62 | The bits of a byte as the stream lists them, least significant first, weigh what they should |
| `Talkie.RevReads` | Arduino/libraries/Adafruit_Circuit_Playground/utility/talkie.cpp:57-62 | rev turns the least significant bit first order of a byte into a number with the first bit on top |
| `Talkie.RefilledHolds` | Arduino/libraries/Adafruit_Circuit_Playground/utility/talkie.cpp:66-70 | A fetched byte is placed behind the pending bits, and "or" adds nothing to them |
| `Talkie.Drain` | Arduino/libraries/Adafruit_Circuit_Playground/utility/talkie.cpp:71-74 | The top bits are the next ones of the stream, and the shifted register holds the rest with zeros behind them |
| `Digits.OrDisjoint` | Arduino/libraries/Adafruit_Circuit_Playground/utility/talkie.cpp:67 | Where no bit is set in both, bitwise or is addition |
| `Talkie.FrameSizes` | Arduino/libraries/Adafruit_Circuit_Playground/utility/talkie.cpp:112-144 | Rest, repeat, unvoiced and voiced frames take 4, 11, 29 and 50 bits |
| `Talkie.ShortLayouts` | Arduino/libraries/Adafruit_Circuit_Playground/utility/talkie.cpp:112-120 | A rest is four zeros, the stop four ones, and a repeated frame its energy, a one and six bits of period |
| `Talkie.UnvoicedLayout` | Arduino/libraries/Adafruit_Circuit_Playground/utility/talkie.cpp:112-131 | An unvoiced frame is energy, a zero, a period of zero and coefficients of 5, 5, 4 and 4 bits |
| `Talkie.VoicedLayout` | Arduino/libraries/Adafruit_Circuit_Playground/utility/talkie.cpp:112-140 | A voiced frame has six more coefficients, of 4, 4, 4, 3, 3 and 3 bits |
| `Talkie.StreamOfPack` | Arduino/libraries/Adafruit_Circuit_Playground/utility/talkie.cpp:64-75 | The stream of bits packed least significant first begins with them |
| `Speech.Reader.constructor` | Arduino/libraries/Adafruit_Circuit_Playground/utility/talkie.cpp:100-101 | An empty buffer at the start of the ROM |
| `Speech.Reader.Fetch` | Arduino/libraries/Adafruit_Circuit_Playground/utility/talkie.cpp:66-70 | One byte of ROM moves into the buffer |
| `Speech.Reader.GetBits` | Arduino/libraries/Adafruit_Circuit_Playground/utility/talkie.cpp:64-75 | Returns the next bits of the stream; fewer than eight stay pending and exactly ceil(bits/8) bytes have been fetched |
| `Speech.Reader.ReadFields` | Arduino/libraries/Adafruit_Circuit_Playground/utility/talkie.cpp:64-78 | For every list of widths from 1 to 8 the values read spell the stream bit by bit, and ceil(bits/8) bytes have been fetched |
| `Speech.FieldsUnique` | Arduino/libraries/Adafruit_Circuit_Playground/utility/talkie.cpp:64-78 | Bits can be read as fields of given widths in one way only |
| `Speech.Reader.ReadCoefficients` | Arduino/libraries/Adafruit_Circuit_Playground/utility/talkie.cpp:128-141 | Fields of given widths are read in order |
| `Speech.Reader.ReadFrame` | Arduino/libraries/Adafruit_Circuit_Playground/utility/talkie.cpp:112-144 | Recovers the next frame, or recognises the stop frame |
| `Speech.Reader.ReadFrames` | Arduino/libraries/Adafruit_Circuit_Playground/utility/talkie.cpp:103-145 | Recovers exactly the frames in front of the stop frame and stops there |
| `Speech.ReadPacked` | Arduino/libraries/Adafruit_Circuit_Playground/utility/talkie.cpp:86-145 | Any list of valid frames, packed into bytes, is read back as it was |

## Left out

- The PHP scripts, the ESP8266 networking files and ArduinoJson: no algorithm, or not visible here.
- Carrier frequency, PWM set-up and busy waiting: the senders are modelled as the events they emit and the field `extent`; `khz` is not a parameter.
- `ignoreHeader = true`, `dumpResults` and trace output; the keyboard and mouse actions of CYKM.
- The raw and hash protocols, and the receivers that poll: `IRLibCPE.h` includes neither.
- Real time between two statements: every interrupt, and every call of the main program, is one step. `getResults` reads the timer and completes a frame in one step.
- Percent tolerances are floors of exact quotients: the float arithmetic of MATCH is exact for the constants in use.
- Sender.IRsend.SendGeneric: 1 to 32 bits, because the source shifts a 32-bit register by 32 minus their number. The same holds for the widths of Sony, RC5 and RC-MM messages, and up to 64 bits for those of RC6.
- Decoder.IRdecode.DecodeGeneric: an empty recording when no length is asked for, where the source computes a last index of 255 and reads behind its buffer.
- Delivery.ChainDelivers: within ten percent rather than the full 25, because beyond it the messages of RivalBuffers.AtRisk have buffers that the chain mistakes; RivalBuffers.AlwaysDelivered says for the full windows exactly which messages the chain decodes right.
- Delivery.ChainDelivers: of RC5 and RC6 every payload whose frame fills the entries that the decoders ask for (Protocols.PhaseEntries): a payload whose frame does not is rejected (RoundTrip.RC5RoundTrip, RoundTrip.RC6RoundTrip), and so are some of the default 16 bits of RC6.
- Firmata.Step: sysex messages longer than the buffer, and the end of a string message without a character, are outside the precondition: the source writes behind its buffer or reads in front of it there.
- Board.FirmataClass.Parse: callbacks are recorded, not run, and do not call back into the parser. The bytes of the version and firmware answers, the pin tables and version blinking are left out.
- NeoPixelStrip.NeoPixel.UpdateType: named colour orders and strips whose buffer 16 bits can count, as the source expects of its callers.
- `show`, `getPixels`, `gamma8`, pins and latch timing of the strip. A packed colour is a sum of its bytes; that the source's | of disjoint bytes is a sum rests on every byte fitting, which is proved.
- Speech.Reader.ReadFrames: frames carry table indices; the coefficient tables, the filter and the sound output are left out. The masks of `rev` are written as arithmetic.
- The microphone, thermistor and other floating-point or sampled-signal code.
