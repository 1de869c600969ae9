/** ReadCO2Concentration path by path: what each kind of read outcome at the
    head of the stream does to the result and to the trace, resynchronisation
    over garbage, and a few complete exchanges. */
module LoopPaths {
  import opened Bytes
  import opened Frame
  import opened Port
  import opened Sensor

  /** `r`, as seen after a pass that retried with the given effects. */
  function Retried(effects: seq<Event>, r: Run): Run
  {
    Run(r.outcome, effects + r.trace, r.rest)
  }

  /** The stream in which a frame arrives: 0xFF, 0x86, then the seven packet bytes. */
  function FrameArrival(body: seq<byte>): seq<ReadOutcome>
  {
    [Byte(StartByte), Byte(CommandByte)] + Arriving(body)
  }

  /** `n` command writes and nothing else. */
  function Commands(n: nat): seq<Event>
  {
    if n == 0 then [] else [SendReadConcentrationCommand()] + Commands(n - 1)
  }

  /** A timeout on the first read is never an error: it logs, sleeps one
      second and starts over with a fresh command. */
  lemma TimeoutBacksOff(t: seq<ReadOutcome>)
    ensures ReadCO2Concentration([Timeout] + t) ==
      Retried([SendReadConcentrationCommand()] + Backoff(TimeoutBackoff), ReadCO2Concentration(t))
  {
    assert ([Timeout] + t)[1..] == t;
  }

  /** Two timeouts in a row: two backoffs, each after its own command. */
  lemma TwoTimeoutsBackOffTwice(f: seq<ReadOutcome>)
    ensures ReadCO2Concentration([Timeout, Timeout] + f) ==
      Retried([SendReadConcentrationCommand()] + Backoff(TimeoutBackoff) +
              ([SendReadConcentrationCommand()] + Backoff(TimeoutBackoff)),
              ReadCO2Concentration(f))
  {
    var f1 := [Timeout] + f;
    var f2 := [Timeout] + f1;
    assert f2 == [Timeout, Timeout] + f;
    var back := [SendReadConcentrationCommand()] + Backoff(TimeoutBackoff);
    var r0 := ReadCO2Concentration(f);
    TimeoutBacksOff(f);
    var r1 := ReadCO2Concentration(f1);
    assert r1 == Retried(back, r0);
    TimeoutBacksOff(f1);
    RetriedTwice(back, back, r0);
  }

  /** Two timeouts and then a good frame: the frame's reading, after two
      logged one-second backoffs, each followed by a fresh command. */
  lemma TwoTimeoutsThenFrame(body: seq<byte>, t: seq<ReadOutcome>)
    requires |body| == 7 && CheckResponseChecksum([CommandByte] + body)
    requires !IsWarmupSentinel(DecodeCO2Concentration([CommandByte] + body))
    ensures ReadCO2Concentration([Timeout, Timeout] + (FrameArrival(body) + t)) ==
      Run(Reading(DecodeCO2Concentration([CommandByte] + body)),
          [SendReadConcentrationCommand(), Logged(TimeoutBackoff), Slept(1),
           SendReadConcentrationCommand(), Logged(TimeoutBackoff), Slept(1),
           SendReadConcentrationCommand()],
          t)
  {
    FrameIsReturned(body, t);
    TimeoutsBeforeReading(FrameArrival(body) + t, DecodeCO2Concentration([CommandByte] + body), t);
  }

  /** Two timeouts in front of a stream that gives a reading in one pass. */
  lemma TimeoutsBeforeReading(f: seq<ReadOutcome>, ppm: nat, t: seq<ReadOutcome>)
    requires ReadCO2Concentration(f) == Run(Reading(ppm), [SendReadConcentrationCommand()], t)
    ensures ReadCO2Concentration([Timeout, Timeout] + f) ==
      Run(Reading(ppm),
          [SendReadConcentrationCommand(), Logged(TimeoutBackoff), Slept(1),
           SendReadConcentrationCommand(), Logged(TimeoutBackoff), Slept(1),
           SendReadConcentrationCommand()],
          t)
  {
    TwoTimeoutsBackOffTwice(f);
    SpellOutTwoBackoffs(ReadCO2Concentration([Timeout, Timeout] + f), ppm, t);
  }

  lemma SpellOutTwoBackoffs(r: Run, ppm: nat, t: seq<ReadOutcome>)
    requires r == Retried([SendReadConcentrationCommand()] + Backoff(TimeoutBackoff) +
                          ([SendReadConcentrationCommand()] + Backoff(TimeoutBackoff)),
                          Run(Reading(ppm), [SendReadConcentrationCommand()], t))
    ensures r == Run(Reading(ppm),
          [SendReadConcentrationCommand(), Logged(TimeoutBackoff), Slept(1),
           SendReadConcentrationCommand(), Logged(TimeoutBackoff), Slept(1),
           SendReadConcentrationCommand()],
          t)
  {
  }

  /** A first byte other than 0xFF is dropped silently: no log, no sleep, and
      the next pass sends the command again. */
  lemma NonStartByteDiscarded(b: byte, t: seq<ReadOutcome>)
    requires b != StartByte
    ensures ReadCO2Concentration([Byte(b)] + t) ==
      Retried([SendReadConcentrationCommand()], ReadCO2Concentration(t))
  {
    assert ([Byte(b)] + t)[1..] == t;
  }

  /** A byte other than 0x86 after 0xFF is dropped silently as well, and so
      is the 0xFF before it. */
  lemma WrongCommandByteDiscarded(b: byte, t: seq<ReadOutcome>)
    requires b != CommandByte
    ensures ReadCO2Concentration([Byte(StartByte), Byte(b)] + t) ==
      Retried([SendReadConcentrationCommand()], ReadCO2Concentration(t))
  {
    var s := [Byte(StartByte), Byte(b)] + t;
    assert s[1..] == Arriving([b]) + t;
    ReadFullOfArrivals([b], t);
  }

  /** The pass reading a frame: ReadFull hands over the command byte and then
      the seven packet bytes, leaving the rest of the stream. */
  lemma FrameReads(body: seq<byte>, t: seq<ReadOutcome>)
    requires |body| == 7
    ensures LoopPass(FrameArrival(body) + t) == ReadPacket(Arriving(body) + t)
    ensures ReadFull(Arriving(body) + t, 7) == Filled(body, t)
  {
    var s := FrameArrival(body) + t;
    assert s[1..] == Arriving([CommandByte]) + (Arriving(body) + t);
    ReadFullOfArrivals([CommandByte], Arriving(body) + t);
    ReadFullOfArrivals(body, t);
  }

  /** A frame that fails the checksum is dropped silently: no log, no sleep. */
  lemma ChecksumFailureDiscarded(body: seq<byte>, t: seq<ReadOutcome>)
    requires |body| == 7 && !CheckResponseChecksum([CommandByte] + body)
    ensures ReadCO2Concentration(FrameArrival(body) + t) ==
      Retried([SendReadConcentrationCommand()], ReadCO2Concentration(t))
  {
    FrameReads(body, t);
  }

  /** A frame that decodes to a warm-up sentinel logs, sleeps one second and
      starts over. */
  lemma WarmupSentinelBacksOff(body: seq<byte>, t: seq<ReadOutcome>)
    requires |body| == 7 && CheckResponseChecksum([CommandByte] + body)
    requires IsWarmupSentinel(DecodeCO2Concentration([CommandByte] + body))
    ensures ReadCO2Concentration(FrameArrival(body) + t) ==
      Retried([SendReadConcentrationCommand()] + Backoff(DeviceStarting), ReadCO2Concentration(t))
  {
    FrameReads(body, t);
  }

  /** A frame that passes the checksum and is no sentinel is returned by the
      pass that read it, leaving the rest of the stream unread. */
  lemma FrameIsReturned(body: seq<byte>, t: seq<ReadOutcome>)
    requires |body| == 7 && CheckResponseChecksum([CommandByte] + body)
    requires !IsWarmupSentinel(DecodeCO2Concentration([CommandByte] + body))
    ensures ReadCO2Concentration(FrameArrival(body) + t) ==
      Run(Reading(DecodeCO2Concentration([CommandByte] + body)), [SendReadConcentrationCommand()], t)
  {
    FrameReads(body, t);
  }

  /** An error on the first read is returned at once. */
  lemma FirstReadErrorIsFatal(t: seq<ReadOutcome>)
    ensures ReadCO2Concentration([Err] + t) == Run(ReadFailed, [SendReadConcentrationCommand()], t)
  {
    assert ([Err] + t)[1..] == t;
  }

  /** An error while reading the command byte is returned at once. */
  lemma CommandByteReadErrorIsFatal(t: seq<ReadOutcome>)
    ensures ReadCO2Concentration([Byte(StartByte), Err] + t) ==
      Run(ReadFailed, [SendReadConcentrationCommand()], t)
  {
    var s := [Byte(StartByte), Err] + t;
    assert s[1..] == Arriving([]) + [Err] + t;
    ReadFullStopsAtErr([], 1, t);
  }

  /** An error while reading the seven packet bytes is returned at once, however
      many of them had arrived. */
  lemma PacketReadErrorIsFatal(got: seq<byte>, t: seq<ReadOutcome>)
    requires |got| < 7
    ensures ReadCO2Concentration([Byte(StartByte), Byte(CommandByte)] + Arriving(got) + [Err] + t) ==
      Run(ReadFailed, [SendReadConcentrationCommand()], t)
  {
    var s := [Byte(StartByte), Byte(CommandByte)] + Arriving(got) + [Err] + t;
    var u := Arriving(got) + [Err] + t;
    assert s[1..] == Arriving([CommandByte]) + u;
    ReadFullOfArrivals([CommandByte], u);
    ReadFullStopsAtErr(got, 7, t);
  }

  /** A timeout between 0xFF and 0x86 does not lose the frame: ReadFull waits
      for the byte. */
  lemma TimeoutAfterStartByteIsAbsorbed(t: seq<ReadOutcome>)
    ensures ReadCO2Concentration([Byte(StartByte), Timeout] + t) ==
      ReadCO2Concentration([Byte(StartByte)] + t)
  {
    var s := [Byte(StartByte), Timeout] + t;
    var s' := [Byte(StartByte)] + t;
    assert s[1..][1..] == t && s[1..][0] == Timeout;
    assert s'[1..] == t;
    assert ReadFull(s[1..], 1) == ReadFull(t, 1);
  }

  /** Resynchronisation: bytes none of which is 0xFF in front of a stream are
      each dropped by a pass of their own, with one command write apiece and
      no log or sleep; the rest of the call is as if they were never there. */
  lemma {:induction false} GarbageSkipped(g: seq<ReadOutcome>, s: seq<ReadOutcome>)
    requires forall i :: 0 <= i < |g| ==> g[i].Byte? && g[i].b != StartByte
    ensures ReadCO2Concentration(g + s) == Retried(Commands(|g|), ReadCO2Concentration(s))
    decreases |g|
  {
    if |g| == 0 {
      assert g + s == s;
      assert Commands(0) + ReadCO2Concentration(s).trace == ReadCO2Concentration(s).trace;
    } else {
      var g' := g[1..];
      assert g + s == [g[0]] + (g' + s);
      GarbageSkipped(g', s);
      GarbageStep(g[0].b, g', s);
    }
  }

  lemma GarbageStep(b: byte, g: seq<ReadOutcome>, s: seq<ReadOutcome>)
    requires b != StartByte
    requires ReadCO2Concentration(g + s) == Retried(Commands(|g|), ReadCO2Concentration(s))
    ensures ReadCO2Concentration([Byte(b)] + (g + s)) ==
      Retried(Commands(|g| + 1), ReadCO2Concentration(s))
  {
    NonStartByteDiscarded(b, g + s);
    RetriedTwice([SendReadConcentrationCommand()], Commands(|g|), ReadCO2Concentration(s));
    assert Commands(|g| + 1) == [SendReadConcentrationCommand()] + Commands(|g|);
  }

  lemma RetriedTwice(e1: seq<Event>, e2: seq<Event>, r: Run)
    ensures Retried(e1, Retried(e2, r)) == Retried(e1 + e2, r)
  {
    assert e1 + (e2 + r.trace) == (e1 + e2) + r.trace;
  }
}
