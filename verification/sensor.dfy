/** ReadCO2Concentration: send the command, resynchronise on the start and
    command bytes, read the rest of the frame, check and decode it, and retry
    on everything but a read error or a real reading. The port is a finite
    script of read outcomes; the effects on the outside world are a trace. */
module Sensor {
  import opened Bytes
  import opened Frame
  import opened Port

  /** Which of the two log lines the loop writes. */
  datatype LogTag = TimeoutBackoff | DeviceStarting

  /** An effect of the loop: a write to the port, a log line, a sleep. */
  datatype Event = Wrote(data: seq<byte>) | Logged(tag: LogTag) | Slept(seconds: nat)

  /** How a call ends: with a reading, with a read error, or with the script
      run dry (where the real port would keep the loop waiting). */
  datatype Outcome = Reading(ppm: nat) | ReadFailed | ScriptExhausted

  /** How one pass of the loop body ends: `continue`, or `return`. */
  datatype PassEnd = Retry | Done(outcome: Outcome)

  /** One pass of the loop body: how it ends, what it did, what is left to read. */
  datatype Pass = Pass(end: PassEnd, effects: seq<Event>, rest: seq<ReadOutcome>)

  /** A whole call: its outcome, every effect in order, what is left to read. */
  datatype Run = Run(outcome: Outcome, trace: seq<Event>, rest: seq<ReadOutcome>)

  /** SendReadConcentrationCommand: the write of the nine-byte request frame
      (whose trailer is its own checksum, RequestTrailerIsItsChecksum). Its
      error result is dropped by the loop, so only the write is recorded. */
  function SendReadConcentrationCommand(): (w: Event)
    ensures w.Wrote? && |w.data| == 9
    ensures w.data[0] == StartByte && w.data[2] == CommandByte
  {
    Wrote(ReadConcentrationCommand)
  }

  /** The log line and one-second sleep before a retry. */
  function Backoff(tag: LogTag): seq<Event>
  {
    [Logged(tag), Slept(1)]
  }

  /** The effects one pass can have: the command, then maybe a backoff. */
  predicate PassEffects(e: seq<Event>)
  {
    || e == [SendReadConcentrationCommand()]
    || (|e| == 3 && e[0] == SendReadConcentrationCommand() && e[1].Logged? && e[2] == Slept(1))
  }

  /** The trace of a call: it opens with the command, only the command is
      ever written, every log line follows a command and is followed by a
      one-second sleep and a fresh command, and every sleep follows a log line. */
  predicate WellFormedTrace(t: seq<Event>)
  {
    && |t| > 0
    && t[0] == SendReadConcentrationCommand()
    && (forall i :: 0 <= i < |t| && t[i].Wrote? ==> t[i] == SendReadConcentrationCommand())
    && (forall i :: 0 <= i < |t| && t[i].Logged? ==>
          0 < i && t[i - 1] == SendReadConcentrationCommand() &&
          i + 2 < |t| && t[i + 1] == Slept(1) && t[i + 2] == SendReadConcentrationCommand())
    && (forall i :: 0 <= i < |t| && t[i].Slept? ==> 0 < i && t[i - 1].Logged?)
  }

  /** The bytes of a frame that gives the reading `ppm`: start byte, command
      byte, then seven bytes that pass the checksum together with the command
      byte and decode to a non-sentinel `ppm`. */
  predicate FrameFor(d: seq<byte>, ppm: nat)
  {
    && |d| == 9
    && d[0] == StartByte
    && d[1] == CommandByte
    && CheckResponseChecksum(d[1..])
    && ppm == DecodeCO2Concentration(d[1..])
    && !IsWarmupSentinel(ppm)
  }

  /** The second half of a pass, once 0xFF and 0x86 have been read: read the
      seven remaining bytes, check, decode, and sort out the sentinels. */
  function ReadPacket(script: seq<ReadOutcome>): (p: Pass)
    ensures IsSuffix(p.rest, script)
    ensures PassEffects(p.effects)
  {
    var sent := [SendReadConcentrationCommand()];
    match ReadFull(script, 7)
    case FillExhausted => Pass(Done(ScriptExhausted), sent, [])
    case FillFailed(rest) => Pass(Done(ReadFailed), sent, rest)
    case Filled(body, rest) =>
      var packet := [CommandByte] + body;
      if !CheckResponseChecksum(packet) then Pass(Retry, sent, rest)
      else
        var ppm := DecodeCO2Concentration(packet);
        if IsWarmupSentinel(ppm) then Pass(Retry, sent + Backoff(DeviceStarting), rest)
        else Pass(Done(Reading(ppm)), sent, rest)
  }

  /** The middle of a pass, once 0xFF has been read: read the command byte
      (anything but 0x86 retries), then finish with ReadPacket. */
  function ReadCommandEcho(script: seq<ReadOutcome>): (p: Pass)
    ensures IsSuffix(p.rest, script)
    ensures PassEffects(p.effects)
  {
    var sent := [SendReadConcentrationCommand()];
    match ReadFull(script, 1)
    case FillExhausted => Pass(Done(ScriptExhausted), sent, [])
    case FillFailed(rest) => Pass(Done(ReadFailed), sent, rest)
    case Filled(echo, rest) =>
      if echo[0] != CommandByte then Pass(Retry, sent, rest)
      else
        var p := ReadPacket(rest);
        ConsumedSplit(script, rest, p.rest);
        p
  }

  /** One pass of the `for` loop body: send the command, read the start byte
      (a timeout backs off, anything but 0xFF retries), then finish with
      ReadCommandEcho. */
  function LoopPass(script: seq<ReadOutcome>): (p: Pass)
    ensures IsSuffix(p.rest, script)
    ensures p.end.Retry? ==> |p.rest| < |script|
    ensures PassEffects(p.effects)
  {
    var sent := [SendReadConcentrationCommand()];
    if |script| == 0 then Pass(Done(ScriptExhausted), sent, [])
    else
      var t := script[1..];
      assert IsSuffix(t, script);
      match script[0]
      case Err => Pass(Done(ReadFailed), sent, t)
      case Timeout => Pass(Retry, sent + Backoff(TimeoutBackoff), t)
      case Byte(b) =>
        if b != StartByte then Pass(Retry, sent, t)
        else
          var p := ReadCommandEcho(t);
          ConsumedSplit(script, t, p.rest);
          p
  }

  /** ReadCO2Concentration: passes of the loop body until one returns. */
  function ReadCO2Concentration(script: seq<ReadOutcome>): (r: Run)
    ensures IsSuffix(r.rest, script)
    decreases |script|
  {
    var p := LoopPass(script);
    match p.end
    case Done(outcome) => Run(outcome, p.effects, p.rest)
    case Retry =>
      var r := ReadCO2Concentration(p.rest);
      ConsumedSplit(script, p.rest, r.rest);
      Run(r.outcome, p.effects + r.trace, r.rest)
  }

  /** A call whose first pass retries is that pass followed by the call on
      what the pass left unread. */
  lemma RetryUnfolds(script: seq<ReadOutcome>)
    requires LoopPass(script).end.Retry?
    ensures var p := LoopPass(script);
      var r := ReadCO2Concentration(p.rest);
      ReadCO2Concentration(script) == Run(r.outcome, p.effects + r.trace, r.rest)
  {
  }

  /** A call whose first pass returns is that pass alone. */
  lemma DoneUnfolds(script: seq<ReadOutcome>)
    requires LoopPass(script).end.Done?
    ensures var p := LoopPass(script);
      ReadCO2Concentration(script) == Run(p.end.outcome, p.effects, p.rest)
  {
  }

  /** Every call's trace is well formed: the command opens each pass and is
      the only thing written, and each backoff is a log line, a one-second
      sleep and then a fresh command. */
  lemma {:induction false} TraceIsWellFormed(script: seq<ReadOutcome>)
    ensures WellFormedTrace(ReadCO2Concentration(script).trace)
    decreases |script|
  {
    var p := LoopPass(script);
    if p.end.Retry? {
      TraceIsWellFormed(p.rest);
      AppendPass(p.effects, ReadCO2Concentration(p.rest).trace);
    }
  }

  /** A pass followed by a well-formed trace is a well-formed trace. */
  lemma AppendPass(e: seq<Event>, t: seq<Event>)
    requires PassEffects(e) && WellFormedTrace(t)
    ensures WellFormedTrace(e + t)
  {
    var u := e + t;
    var k := |e|;
    assert u[k] == t[0];
    forall i | 0 <= i < |u| && u[i].Wrote?
      ensures u[i] == SendReadConcentrationCommand()
    {
      if i >= k {
        assert u[i] == t[i - k];
      }
    }
    forall i | 0 <= i < |u| && u[i].Slept?
      ensures 0 < i && u[i - 1].Logged?
    {
      if i > k {
        assert u[i] == t[i - k] && u[i - 1] == t[i - 1 - k];
      } else if i == k {
        assert false;
      }
    }
    forall i | 0 <= i < |u| && u[i].Logged?
      ensures 0 < i && u[i - 1] == SendReadConcentrationCommand()
      ensures i + 2 < |u| && u[i + 1] == Slept(1) && u[i + 2] == SendReadConcentrationCommand()
    {
      if i >= k {
        assert u[i] == t[i - k];
        assert i > k;
        assert u[i - 1] == t[i - 1 - k] && u[i + 1] == t[i + 1 - k] && u[i + 2] == t[i + 2 - k];
      }
    }
  }
}
