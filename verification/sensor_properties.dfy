/** What ReadCO2Concentration guarantees: where a reading comes from, when an
    error is returned, what each kind of discard does to the trace, and the
    behaviour on a few concrete byte streams. */
module SensorProperties {
  import opened Bytes
  import opened Frame
  import opened Port
  import opened Sensor

  /** What the packet half of a pass reads: a retry or an exhaustion saw no
      read error, a failure stopped at its first one, and a reading came
      from seven bytes that pass the checksum behind the command byte. */
  lemma ReadPacketConsumption(script: seq<ReadOutcome>)
    ensures var p := ReadPacket(script);
      p.end.Retry? ==> NoErr(Consumed(script, p.rest))
    ensures var p := ReadPacket(script);
      p.end == Done(ReadFailed) ==> FailsLast(Consumed(script, p.rest))
    ensures var p := ReadPacket(script);
      p.end == Done(ScriptExhausted) ==> p.rest == [] && NoErr(script)
    ensures var p := ReadPacket(script);
      p.end.Done? && p.end.outcome.Reading? ==>
        var d := Delivered(Consumed(script, p.rest));
        && |d| == 7
        && CheckResponseChecksum([CommandByte] + d)
        && p.end.outcome.ppm == DecodeCO2Concentration([CommandByte] + d)
        && !IsWarmupSentinel(p.end.outcome.ppm)
        && NoErr(Consumed(script, p.rest))
  {
    match ReadFull(script, 7)
    case FillExhausted => ReadFullExhausts(script, 7);
    case FillFailed(rest) => ReadFullFailsLast(script, 7);
    case Filled(body, rest) => ReadFullDelivers(script, 7);
  }

  /** What the pass reads after its 0xFF: as for ReadPacket, with the
      command byte 0x86 in front of the seven packet bytes. */
  lemma ReadCommandEchoConsumption(script: seq<ReadOutcome>)
    ensures var p := ReadCommandEcho(script);
      p.end.Retry? ==> NoErr(Consumed(script, p.rest))
    ensures var p := ReadCommandEcho(script);
      p.end == Done(ReadFailed) ==> FailsLast(Consumed(script, p.rest))
    ensures var p := ReadCommandEcho(script);
      p.end == Done(ScriptExhausted) ==> p.rest == [] && NoErr(script)
    ensures var p := ReadCommandEcho(script);
      p.end.Done? && p.end.outcome.Reading? ==>
        var d := Delivered(Consumed(script, p.rest));
        && |d| == 8
        && d[0] == CommandByte
        && CheckResponseChecksum(d)
        && p.end.outcome.ppm == DecodeCO2Concentration(d)
        && !IsWarmupSentinel(p.end.outcome.ppm)
        && NoErr(Consumed(script, p.rest))
  {
    match ReadFull(script, 1)
    case FillExhausted => ReadFullExhausts(script, 1);
    case FillFailed(rest) => ReadFullFailsLast(script, 1);
    case Filled(echo, rest) =>
      ReadFullDelivers(script, 1);
      if echo[0] == CommandByte {
        assert echo == [CommandByte];
        EchoThenPacket(script, rest);
      }
  }

  /** ReadCommandEchoConsumption once the command byte has been read. */
  lemma EchoThenPacket(script: seq<ReadOutcome>, rest: seq<ReadOutcome>)
    requires ReadFull(script, 1) == Filled([CommandByte], rest)
    ensures var q := ReadPacket(rest);
      q.end.Retry? ==> NoErr(Consumed(script, q.rest))
    ensures var q := ReadPacket(rest);
      q.end == Done(ReadFailed) ==> FailsLast(Consumed(script, q.rest))
    ensures var q := ReadPacket(rest);
      q.end == Done(ScriptExhausted) ==> q.rest == [] && NoErr(script)
    ensures var q := ReadPacket(rest);
      q.end.Done? && q.end.outcome.Reading? ==>
        var d := Delivered(Consumed(script, q.rest));
        && |d| == 8
        && d[0] == CommandByte
        && CheckResponseChecksum(d)
        && q.end.outcome.ppm == DecodeCO2Concentration(d)
        && !IsWarmupSentinel(q.end.outcome.ppm)
        && NoErr(Consumed(script, q.rest))
  {
    ReadFullDelivers(script, 1);
    var c1 := Consumed(script, rest);
    var q := ReadPacket(rest);
    ReadPacketConsumption(rest);
    ConsumedSplit(script, rest, q.rest);
    var c2 := Consumed(rest, q.rest);
    if q.end.Retry? {
      NoErrConcat(c1, c2);
    } else if q.end == Done(ReadFailed) {
      FailsLastConcat(c1, c2);
    } else if q.end == Done(ScriptExhausted) {
      assert c2 == rest;
      assert script == c1 + rest;
      NoErrConcat(c1, rest);
    } else {
      DeliveredConcat(c1, c2);
      NoErrConcat(c1, c2);
    }
  }

  /** What one pass of the loop reads. A retry saw no read error; a failure
      stopped at its first one; running dry means no error was in the script;
      a reading was decoded from the nine bytes 0xFF, 0x86 and seven more
      that pass the checksum. */
  lemma LoopPassConsumption(script: seq<ReadOutcome>)
    ensures var p := LoopPass(script);
      p.end.Retry? ==> NoErr(Consumed(script, p.rest))
    ensures var p := LoopPass(script);
      p.end == Done(ReadFailed) ==> FailsLast(Consumed(script, p.rest))
    ensures var p := LoopPass(script);
      p.end == Done(ScriptExhausted) ==> p.rest == [] && NoErr(script)
    ensures var p := LoopPass(script);
      p.end.Done? && p.end.outcome.Reading? ==>
        FrameFor(Delivered(Consumed(script, p.rest)), p.end.outcome.ppm) &&
        NoErr(Consumed(script, p.rest))
  {
    if |script| > 0 {
      if script[0] == Byte(StartByte) {
        StartBytePassConsumption(script);
      } else {
        assert Consumed(script, script[1..]) == [script[0]];
      }
    }
  }

  /** LoopPassConsumption for a pass whose first read is 0xFF. */
  lemma StartBytePassConsumption(script: seq<ReadOutcome>)
    requires |script| > 0 && script[0] == Byte(StartByte)
    ensures var p := LoopPass(script);
      p.end.Retry? ==> NoErr(Consumed(script, p.rest))
    ensures var p := LoopPass(script);
      p.end == Done(ReadFailed) ==> FailsLast(Consumed(script, p.rest))
    ensures var p := LoopPass(script);
      p.end == Done(ScriptExhausted) ==> p.rest == [] && NoErr(script)
    ensures var p := LoopPass(script);
      p.end.Done? && p.end.outcome.Reading? ==>
        FrameFor(Delivered(Consumed(script, p.rest)), p.end.outcome.ppm) &&
        NoErr(Consumed(script, p.rest))
  {
    var t := script[1..];
    var c0 := [script[0]];
    assert IsSuffix(t, script);
    assert Consumed(script, t) == c0;
    assert Delivered(c0) == [StartByte];
    var q := ReadCommandEcho(t);
    assert LoopPass(script) == q;
    ReadCommandEchoConsumption(t);
    ConsumedSplit(script, t, q.rest);
    var c1 := Consumed(t, q.rest);
    if q.end.Retry? {
      NoErrConcat(c0, c1);
    } else if q.end == Done(ReadFailed) {
      FailsLastConcat(c0, c1);
    } else if q.end == Done(ScriptExhausted) {
      assert script == c0 + t;
      NoErrConcat(c0, t);
    } else {
      DeliveredConcat(c0, c1);
      assert Delivered(c0 + c1)[1..] == Delivered(c1);
      NoErrConcat(c0, c1);
    }
  }

  /** The call's bytes end with a frame for `ppm`. */
  predicate EndsWithFrame(d: seq<byte>, ppm: nat)
  {
    |d| >= 9 && FrameFor(d[|d| - 9..], ppm)
  }

  /** A reading is only ever returned for a frame: the last nine bytes the
      call read are 0xFF, 0x86 and seven bytes that pass the checksum behind
      0x86 and decode to the returned, non-sentinel value. */
  lemma {:induction false} ReadingComesFromFrame(script: seq<ReadOutcome>)
    ensures var r := ReadCO2Concentration(script);
      r.outcome.Reading? ==> EndsWithFrame(Delivered(Consumed(script, r.rest)), r.outcome.ppm)
    decreases |script|
  {
    var p := LoopPass(script);
    if p.end.Done? {
      ReadingInLastPass(script);
    } else {
      ReadingComesFromFrame(p.rest);
      ReadingAfterRetry(script);
    }
  }

  lemma ReadingInLastPass(script: seq<ReadOutcome>)
    requires LoopPass(script).end.Done?
    ensures var r := ReadCO2Concentration(script);
      r.outcome.Reading? ==> EndsWithFrame(Delivered(Consumed(script, r.rest)), r.outcome.ppm)
  {
    var p := LoopPass(script);
    LoopPassConsumption(script);
    var r := ReadCO2Concentration(script);
    assert r == Run(p.end.outcome, p.effects, p.rest);
    if r.outcome.Reading? {
      var d := Delivered(Consumed(script, r.rest));
      assert d[|d| - 9..] == d;
    }
  }

  lemma ReadingAfterRetry(script: seq<ReadOutcome>)
    requires LoopPass(script).end.Retry?
    requires var r := ReadCO2Concentration(LoopPass(script).rest);
      r.outcome.Reading? ==> EndsWithFrame(Delivered(Consumed(LoopPass(script).rest, r.rest)), r.outcome.ppm)
    ensures var r := ReadCO2Concentration(script);
      r.outcome.Reading? ==> EndsWithFrame(Delivered(Consumed(script, r.rest)), r.outcome.ppm)
  {
    var p := LoopPass(script);
    var r1 := ReadCO2Concentration(p.rest);
    var r := ReadCO2Concentration(script);
    assert r == Run(r1.outcome, p.effects + r1.trace, r1.rest);
    ConsumedSplit(script, p.rest, r.rest);
    var c0 := Consumed(script, p.rest);
    var c1 := Consumed(p.rest, r.rest);
    DeliveredConcat(c0, c1);
    if r.outcome.Reading? {
      FrameStaysLast(Delivered(c0), Delivered(c1), r.outcome.ppm);
    }
  }

  /** Bytes read before the last nine do not change what the last nine are. */
  lemma FrameStaysLast(d0: seq<byte>, d1: seq<byte>, ppm: nat)
    requires EndsWithFrame(d1, ppm)
    ensures EndsWithFrame(d0 + d1, ppm)
  {
    assert (d0 + d1)[|d0 + d1| - 9..] == d1[|d1| - 9..];
  }

  /** A read error ends the call at once: the error is the last read the call
      made, no read before it failed, and what follows it is left unread. */
  lemma {:induction false} ReadErrorEndsTheCall(script: seq<ReadOutcome>)
    ensures var r := ReadCO2Concentration(script);
      r.outcome.ReadFailed? ==> FailsLast(Consumed(script, r.rest))
    decreases |script|
  {
    var p := LoopPass(script);
    if p.end.Done? {
      DoneUnfolds(script);
      if p.end.outcome.ReadFailed? {
        FailedPassFailsLast(script);
      }
    } else {
      ReadErrorEndsTheCall(p.rest);
      FailureAfterRetry(script);
    }
  }

  lemma FailureAfterRetry(script: seq<ReadOutcome>)
    requires LoopPass(script).end.Retry?
    requires var r := ReadCO2Concentration(LoopPass(script).rest);
      r.outcome.ReadFailed? ==> FailsLast(Consumed(LoopPass(script).rest, r.rest))
    ensures var r := ReadCO2Concentration(script);
      r.outcome.ReadFailed? ==> FailsLast(Consumed(script, r.rest))
  {
    var p := LoopPass(script);
    RetryUnfolds(script);
    RetryPassReadsNoErr(script);
    var r1 := ReadCO2Concentration(p.rest);
    if r1.outcome.ReadFailed? {
      ConsumedSplit(script, p.rest, r1.rest);
      FailsLastConcat(Consumed(script, p.rest), Consumed(p.rest, r1.rest));
    }
  }

  /** A call that returns a reading met no read error on the way: every
      error is returned as soon as it is read. */
  lemma {:induction false} ReadingReadsNoErr(script: seq<ReadOutcome>)
    ensures var r := ReadCO2Concentration(script);
      r.outcome.Reading? ==> NoErr(Consumed(script, r.rest))
    decreases |script|
  {
    var p := LoopPass(script);
    if p.end.Done? {
      DoneUnfolds(script);
      if p.end.outcome.Reading? {
        ReadingPassReadsNoErr(script);
      }
    } else {
      ReadingReadsNoErr(p.rest);
      ReadingAfterRetryReadsNoErr(script);
    }
  }

  lemma ReadingAfterRetryReadsNoErr(script: seq<ReadOutcome>)
    requires LoopPass(script).end.Retry?
    requires var r := ReadCO2Concentration(LoopPass(script).rest);
      r.outcome.Reading? ==> NoErr(Consumed(LoopPass(script).rest, r.rest))
    ensures var r := ReadCO2Concentration(script);
      r.outcome.Reading? ==> NoErr(Consumed(script, r.rest))
  {
    var p := LoopPass(script);
    RetryUnfolds(script);
    RetryPassReadsNoErr(script);
    var r1 := ReadCO2Concentration(p.rest);
    if r1.outcome.Reading? {
      ConsumedSplit(script, p.rest, r1.rest);
      NoErrConcat(Consumed(script, p.rest), Consumed(p.rest, r1.rest));
    }
  }

  /** A call fails exactly when it read an error: what it read holds an
      error iff its result is ReadFailed. */
  lemma FailsIffErrorRead(script: seq<ReadOutcome>)
    ensures var r := ReadCO2Concentration(script);
      r.outcome.ReadFailed? <==> !NoErr(Consumed(script, r.rest))
  {
    var r := ReadCO2Concentration(script);
    var c := Consumed(script, r.rest);
    ReadErrorEndsTheCall(script);
    ReadingReadsNoErr(script);
    ExhaustionMeansNoError(script);
    if r.outcome.ReadFailed? {
      assert c[|c| - 1].Err?;
    } else if r.outcome.ScriptExhausted? {
      assert c == script;
    }
  }

  /** The script runs dry only when every outcome in it was read and none of
      them was an error. */
  lemma {:induction false} ExhaustionMeansNoError(script: seq<ReadOutcome>)
    ensures var r := ReadCO2Concentration(script);
      r.outcome.ScriptExhausted? ==> r.rest == [] && NoErr(script)
    decreases |script|
  {
    var p := LoopPass(script);
    if p.end.Done? {
      DoneUnfolds(script);
      if p.end.outcome.ScriptExhausted? {
        ExhaustedPassReadsNoErr(script);
      }
    } else {
      ExhaustionMeansNoError(p.rest);
      ExhaustionAfterRetry(script);
    }
  }

  lemma ExhaustionAfterRetry(script: seq<ReadOutcome>)
    requires LoopPass(script).end.Retry?
    requires var r := ReadCO2Concentration(LoopPass(script).rest);
      r.outcome.ScriptExhausted? ==> r.rest == [] && NoErr(LoopPass(script).rest)
    ensures var r := ReadCO2Concentration(script);
      r.outcome.ScriptExhausted? ==> r.rest == [] && NoErr(script)
  {
    var p := LoopPass(script);
    RetryUnfolds(script);
    RetryPassReadsNoErr(script);
    var r1 := ReadCO2Concentration(p.rest);
    if r1.outcome.ScriptExhausted? {
      ConsumedThenRest(script, p.rest);
      NoErrConcat(Consumed(script, p.rest), p.rest);
    }
  }

  /** LoopPassConsumption, one outcome at a time. */
  lemma RetryPassReadsNoErr(script: seq<ReadOutcome>)
    requires LoopPass(script).end.Retry?
    ensures NoErr(Consumed(script, LoopPass(script).rest))
  {
    LoopPassConsumption(script);
  }

  lemma FailedPassFailsLast(script: seq<ReadOutcome>)
    requires LoopPass(script).end == Done(ReadFailed)
    ensures FailsLast(Consumed(script, LoopPass(script).rest))
  {
    LoopPassConsumption(script);
  }

  lemma ReadingPassReadsNoErr(script: seq<ReadOutcome>)
    requires LoopPass(script).end.Done? && LoopPass(script).end.outcome.Reading?
    ensures NoErr(Consumed(script, LoopPass(script).rest))
  {
    LoopPassConsumption(script);
  }

  lemma ExhaustedPassReadsNoErr(script: seq<ReadOutcome>)
    requires LoopPass(script).end == Done(ScriptExhausted)
    ensures LoopPass(script).rest == [] && NoErr(script)
  {
    LoopPassConsumption(script);
  }

  /** Timeouts, resynchronisation, checksum failures and warm-up readings
      never produce an error: a script without read errors never fails. */
  lemma ErrorFreeScriptNeverFails(script: seq<ReadOutcome>)
    requires NoErr(script)
    ensures !ReadCO2Concentration(script).outcome.ReadFailed?
  {
    var r := ReadCO2Concentration(script);
    ReadErrorEndsTheCall(script);
  }
}
