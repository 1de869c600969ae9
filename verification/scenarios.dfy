/** Complete exchanges on concrete byte streams, each followed by an
    arbitrary remainder `t` of the stream. */
module Scenarios {
  import opened Bytes
  import opened Frame
  import opened Port
  import opened Sensor
  import opened LoopPaths

  /** Packet bytes after 0x86 for a 299 ppm reading: data bytes 0x01, 0x2C,
      four unused zeros, checksum 0x4D (0x86 + 0x01 + 0x2C = 0xB3). */
  const Body299: seq<byte> := [0x01, 0x2C, 0x00, 0x00, 0x00, 0x00, 0x4D]

  /** Packet bytes for 408 (data bytes 1, 153), next to a sentinel. */
  const Body408: seq<byte> := [0x01, 0x99, 0x00, 0x00, 0x00, 0x00, 0xE0]

  /** The sensor answers FF 86 01 2C 00 00 00 00 4D: one command, 299 ppm,
      and nothing after the frame is read. */
  lemma ExampleExchange(t: seq<ReadOutcome>)
    ensures ReadCO2Concentration(FrameArrival(Body299) + t) ==
      Run(Reading(299), [SendReadConcentrationCommand()], t)
  {
    assert [CommandByte] + Body299 == [0x86, 0x01, 0x2C, 0, 0, 0, 0, 0x4D];
    DecodeExamples();
    FrameIsReturned(Body299, t);
  }

  /** 408, next to the sentinel 409, is an ordinary reading. */
  lemma NeighbourOfSentinelIsReturned(t: seq<ReadOutcome>)
    ensures ReadCO2Concentration(FrameArrival(Body408) + t) ==
      Run(Reading(408), [SendReadConcentrationCommand()], t)
  {
    var p := [CommandByte] + Body408;
    assert p == [0x86, 0x01, 0x99, 0, 0, 0, 0, 0xE0];
    ChecksumByBytes(p);
    FrameIsReturned(Body408, t);
  }

  /** Resynchronisation is not over arbitrary garbage: a stray 0xFF right in
      front of a good frame makes the command-byte read take the frame's own
      0xFF, the rest of the frame is dropped byte by byte, and the call goes
      on as if the frame had never been sent. */
  lemma StrayStartByteLosesFrame(t: seq<ReadOutcome>)
    ensures ReadCO2Concentration([Byte(StartByte)] + FrameArrival(Body299) + t) ==
      Retried(Commands(9), ReadCO2Concentration(t))
  {
    var f0 := [Byte(CommandByte)] + Arriving(Body299) + t;
    assert [Byte(StartByte)] + FrameArrival(Body299) + t == [Byte(StartByte), Byte(StartByte)] + f0;
    WrongCommandByteDiscarded(StartByte, f0);
    FrameTailIsGarbage(t);
    RetriedTwice([SendReadConcentrationCommand()], Commands(8), ReadCO2Concentration(t));
  }

  /** Without its 0xFF, the 299 ppm frame is eight non-start bytes, each
      dropped with one re-sent command. */
  lemma FrameTailIsGarbage(t: seq<ReadOutcome>)
    ensures ReadCO2Concentration([Byte(CommandByte)] + Arriving(Body299) + t) ==
      Retried(Commands(8), ReadCO2Concentration(t))
  {
    var g := [Byte(CommandByte)] + Arriving(Body299);
    assert forall i :: 0 <= i < |g| ==> g[i].Byte? && g[i].b != StartByte;
    GarbageSkipped(g, t);
  }
}
