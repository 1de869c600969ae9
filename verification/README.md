# MH-Z19 CO2 reader: the serial protocol engine

This project models the part of carbonio's `main.go` that talks to an MH-Z19
CO2 sensor over a serial line, and proves properties of that model. There are
four pieces:

- the fixed nine-byte "read gas concentration" request;
- the 8-bit wrap-around checksum of a response packet;
- the decoder, which computes high byte times 255 plus low byte;
- the read, resynchronise and retry loop of `ReadCO2Concentration`.

The loop sends the request and reads one byte. A timeout logs a line, sleeps
one second and starts over. A read error ends the call. Any byte other than
0xFF starts over. The loop then reads the command byte, and anything other than
0x86 starts over. Next it reads seven more bytes and puts 0x86 in front of them
to form the packet. A packet that fails the checksum starts over. A packet that
decodes to a warm-up reading (409, 499 or 515) logs, sleeps and starts over.
Any other packet's value is returned.

The port is a finite script of read outcomes: `Byte(b)`, `Timeout` (a read that
returned no byte and no error) or `Err`. Each pass of the loop reads at least
one outcome, so the unbounded `for` loop becomes recursion on the script that
is left. A third result, `ScriptExhausted`, covers a script that runs dry where
the real port would keep the loop waiting. Each call also returns a trace of
its effects: command writes, log lines (as a tag) and one-second sleeps.

Files:

- `bytes.dfy`: bytes, Go's wrapping byte addition and the unbounded sum the
  checksum is stated against.
- `frame.dfy`: the request constant, the checksum, the decoder and the
  warm-up sentinels.
- `port.dfy`: the read-outcome script and `io.ReadFull` over it.
- `sensor.dfy`: one pass of the loop, the loop itself, and the shape of its
  trace.
- `sensor_properties.dfy`: what any call guarantees: where a reading comes
  from, when an error is returned, and what running dry means.
- `loop_paths.dfy`: the result of each kind of outcome at the head of the
  stream, and resynchronisation over bytes other than 0xFF.
- `scenarios.dfy`: complete exchanges on concrete byte streams.

Points where the code behaves in ways a reader might not expect, which the
model keeps:

- The 0xFF start byte is not part of the checksummed and decoded packet. The
  packet is 0x86 followed by the seven bytes read after it (main.go:60-65), so
  a whole response is nine bytes on the wire.
- The stream that gives 299 ppm is therefore `FF 86 01 2C 00 00 00 00 4D`
  (`ExampleExchange`).
- The result of the command write is ignored (main.go:36), so a failing write
  never ends the call.
- Every `continue` sends the request again, including the ones that drop a
  byte while resynchronising (main.go:35-36).
- Resynchronisation does not skip arbitrary garbage. A stray 0xFF in front of
  a good frame makes the command-byte read take the frame's own 0xFF, and the
  frame is lost (`StrayStartByteLosesFrame`).

## Model

| member | source | states |
|---|---|---|
| Frame.Accumulate | main.go:19-22 | after n rounds of the summing loop the checksum byte is the sum of the first n packet bytes modulo 256 |
| Frame.CheckResponseChecksum | main.go:18-26 | the check passes iff byte 7 is (256 - (sum of bytes 0..6) mod 256) mod 256, and iff all eight bytes sum to 0 modulo 256 |
| Frame.ChecksumByBytes | main.go:18-26 | the same two facts written out byte by byte, so that they can be applied to concrete packets |
| Frame.ExactlyOneTrailerPasses | main.go:18-26 | for any seven leading bytes, exactly one trailing byte passes: the two's complement of their sum |
| Frame.ChecksumReadsFirstEightOnly | main.go:18-26 | two packets that agree on bytes 0..7 get the same verdict, whatever follows |
| Frame.SingleByteChangeFails | main.go:18-26 | changing any one of the eight bytes of a passing packet makes it fail |
| Frame.RequestTrailerIsItsChecksum | main.go:13-26 | the request has nine bytes, and its trailer 0x79 is the checksum of request bytes 1..7 under the response rule |
| Frame.DecodeCO2Concentration | main.go:28-31 | the value is at most 65280; its quotient by 255 is the high byte, except when the low byte is 255 and it carries into the next multiple |
| Frame.DataBytesFor | main.go:28-31 | the inverse of the decoder: two bytes whose high times 255 plus low is the given value |
| Frame.DecodeRoundTrip | main.go:28-31 | every value up to 65280 is the decoding of some packet |
| Frame.DecodeReadsOnlyDataBytes | main.go:28-31 | the value depends on bytes 1 and 2 only |
| Frame.DecodeExamples | main.go:28-31 | data bytes (1, 44) give 299 and (0, 0) give 0, and both worked packets pass the checksum |
| Frame.DecodeOverlaps | main.go:28-31 | because the multiplier is 255, (1, 0) and (0, 255) both decode to 255 |
| Frame.SentinelDataBytes | main.go:70-72 | a packet decodes to a warm-up value iff its data bytes are (1, 154), (1, 244) or (2, 5) |
| Frame.SentinelNeighboursAccepted | main.go:71-77 | 409, 499 and 515 are warm-up values; 408, 410, 498, 500, 514 and 516 are not |
| Port.ReadFull | main.go:52-54 | a completed read hands back exactly n bytes; completed and failed reads leave a suffix of the script, shorter whenever anything was read |
| Port.ReadFullDelivers | main.go:52-54 | a completed read returns exactly the bytes its reads delivered, and none of those reads failed |
| Port.ReadFullFailsLast | main.go:52-54 | a failed read stops at the first read error, before n bytes have arrived |
| Port.ReadFullExhausts | main.go:52-54 | a read that runs out of script has met no error and fewer than n bytes |
| Port.ReadFullOfArrivals | main.go:61-62 | reading n bytes when n bytes arrive returns them and leaves the rest of the stream |
| Port.ReadFullStopsAtErr | main.go:61-64 | an error before the n-th byte fails the read and leaves what follows the error unread |
| Sensor.SendReadConcentrationCommand | main.go:13-16 | the write is a nine-byte frame that opens with 0xFF and carries the command 0x86 |
| Sensor.ReadPacket | main.go:60-77 | the packet half of a pass leaves a suffix of the script; its effects are the command and at most one log line with a one-second sleep |
| Sensor.ReadCommandEcho | main.go:52-58 | the command-byte half of a pass leaves a suffix of the script and has the effects of one pass |
| Sensor.LoopPass | main.go:35-77 | a pass leaves a suffix of the script, a retrying pass reads at least one outcome, and every pass opens with the command write |
| Sensor.ReadCO2Concentration | main.go:33-79 | a call leaves a suffix of the script unread |
| Sensor.TraceIsWellFormed | main.go:35-47 | every trace opens with the request and writes nothing else; each log line follows a request and is followed by a one-second sleep and a fresh request; each sleep follows a log line |
| SensorProperties.ReadPacketConsumption | main.go:60-77 | a retry read no error; a failure stopped at its first error; a reading read no error and came from seven delivered bytes that pass the checksum behind 0x86 and are no sentinel |
| SensorProperties.ReadCommandEchoConsumption | main.go:52-77 | as for ReadPacketConsumption, with the echoed 0x86 as the first of eight delivered bytes |
| SensorProperties.LoopPassConsumption | main.go:39-77 | per pass: a retry read no error, a failure ends with its first error, running dry means no error in the script, and a reading read no error and was decoded from nine delivered bytes FF 86 and seven more that pass the checksum |
| SensorProperties.ReadingComesFromFrame | main.go:48-77 | a returned value was decoded from the last nine bytes the call read: 0xFF, then 0x86, then seven bytes that pass the checksum behind 0x86, and it is no warm-up value |
| SensorProperties.ReadErrorEndsTheCall | main.go:39-64 | an error result means the last read of the call failed and no earlier read did, so no retry follows an error |
| SensorProperties.StartBytePassConsumption | main.go:48-77 | the per-pass facts of LoopPassConsumption for a pass whose first read is 0xFF |
| SensorProperties.ReadingReadsNoErr | main.go:39-77 | a call that returns a reading read no error, so every error read is returned at once |
| SensorProperties.FailsIffErrorRead | main.go:39-64 | a call returns a read error if and only if what it read holds an error |
| SensorProperties.ExhaustionMeansNoError | main.go:33-79 | a call runs dry only when it read the whole script and none of it was an error |
| SensorProperties.ErrorFreeScriptNeverFails | main.go:39-47 | timeouts, discards and backoffs never produce an error: a script without read errors never fails |
| LoopPaths.TimeoutBacksOff | main.go:39-47 | a timeout on the first read writes the command, logs, sleeps one second and starts over on the rest of the stream |
| LoopPaths.TwoTimeoutsBackOffTwice | main.go:39-47 | two timeouts give two backoffs, each after its own command |
| LoopPaths.TwoTimeoutsThenFrame | main.go:35-77 | two timeouts then a good frame give the frame's value, with trace request, log, sleep, request, log, sleep, request |
| LoopPaths.TimeoutsBeforeReading | main.go:39-47 | two timeouts put in front of a stream that reads in one pass add exactly two backoffs to its trace |
| LoopPaths.NonStartByteDiscarded | main.go:48-50 | a first byte other than 0xFF is dropped with no log or sleep, and the next pass writes the command again |
| LoopPaths.WrongCommandByteDiscarded | main.go:52-58 | a byte other than 0x86 after 0xFF is dropped with no log or sleep, and the command is written again |
| LoopPaths.FrameReads | main.go:52-65 | on a whole frame, the pass reads 0x86 and then exactly the seven packet bytes, leaving the rest of the stream |
| LoopPaths.ChecksumFailureDiscarded | main.go:67-69 | a frame that fails the checksum is dropped with no log or sleep, and the command is written again |
| LoopPaths.WarmupSentinelBacksOff | main.go:70-76 | a frame that decodes to a warm-up value logs, sleeps one second and starts over |
| LoopPaths.FrameIsReturned | main.go:65-77 | a frame that passes the checksum and is no warm-up value gives its value after one command, and the rest of the stream is left unread |
| LoopPaths.FirstReadErrorIsFatal | main.go:39-42 | an error on the first read is returned at once |
| LoopPaths.CommandByteReadErrorIsFatal | main.go:52-55 | an error while reading the command byte is returned at once |
| LoopPaths.PacketReadErrorIsFatal | main.go:60-64 | an error while reading the seven packet bytes is returned at once, however many had arrived |
| LoopPaths.TimeoutAfterStartByteIsAbsorbed | main.go:52-55 | a timeout between 0xFF and the command byte changes nothing, because the read waits for the byte |
| LoopPaths.GarbageSkipped | main.go:35-50 | bytes that are not 0xFF in front of a stream are dropped one pass each, with one command write apiece, and the call then goes on as if they were not there |
| Scenarios.ExampleExchange | main.go:33-79 | the stream FF 86 01 2C 00 00 00 00 4D gives 299 ppm after one command and leaves the rest unread |
| Scenarios.NeighbourOfSentinelIsReturned | main.go:70-77 | a frame for 408, next to the warm-up value 409, is returned as a reading |
| Scenarios.StrayStartByteLosesFrame | main.go:48-58 | a stray 0xFF in front of a good frame loses the frame: the first pass drops the stray 0xFF and the frame's own 0xFF, eight more passes drop one byte each, and the call goes on with what follows |
| Scenarios.FrameTailIsGarbage | main.go:48-50 | a frame without its 0xFF is eight bytes that are not 0xFF, each dropped with one command write |

## Left out

- `main` (main.go:81-126): opening and configuring the port, the ticker
  goroutine, the shared `CO2Concentration` variable and the HTTP `/metrics`
  handler. These are I/O plumbing, and the shared variable is a concurrency
  concern.
- Timing: the 50 ms read timeout (main.go:34) and the real length of
  `time.Sleep`. A sleep is a `Slept(1)` trace event, and a timeout is a
  `Timeout` outcome.
- The text of the log lines. A log line is recorded as a tag only.
- The internals of the serial library and of `io.ReadFull`. A read of a
  one-byte buffer is one outcome: a byte, a timeout or an error. `ReadFull`
  waits through timeouts and fails on the first error. The distinction between
  `io.EOF` and `io.ErrUnexpectedEOF` is not kept, and neither is the error's
  cause or its wrapping text.
- A `Read` that delivers several bytes at once: each outcome carries one byte.
- Sensor.SendReadConcentrationCommand: write failures are not modelled. The
  loop drops the write's result, so no write outcome can change a call.
- Sensor.ReadCO2Concentration: a finite script stands for the port. Where the
  real loop would wait forever, the model ends with `ScriptExhausted`.
- Sensor.ReadCO2Concentration: the value is a `nat`, not a `float64`. The
  decoded value is an integer of at most 65280, which `float64` holds exactly.
