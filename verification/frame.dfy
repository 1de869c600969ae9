/** The frame codec of the MH-Z19 protocol: the fixed "read gas
    concentration" request, the response checksum and the concentration
    decoder, with the warm-up sentinel readings. */
module Frame {
  import opened Bytes

  /** Marker that opens every frame the sensor sends. */
  const StartByte: byte := 0xFF

  /** The "read gas concentration" command, echoed as the second response byte. */
  const CommandByte: byte := 0x86

  /** The request written to the port: start byte, sensor address 0x01, the
      command, five reserved zeros and the precomputed checksum 0x79. */
  const ReadConcentrationCommand: seq<byte> :=
    [0xFF, 0x01, 0x86, 0x00, 0x00, 0x00, 0x00, 0x00, 0x79]

  /** The packet the checksum and the decoder see: the echoed command byte
      followed by the seven bytes read after it. */
  const PacketLength := 8

  /** Largest value the decoder can produce: 255 * 255 + 255. */
  const MaxConcentration := 65280

  /** Readings the sensor reports while it is still warming up. */
  const WarmupSentinels: set<nat> := {409, 499, 515}

  /** The byte `checksum` holds after the first `n` rounds of the summing
      loop: each round adds one packet byte with 8-bit wrap-around. */
  function Accumulate(packet: seq<byte>, n: nat): (acc: byte)
    requires n <= |packet|
    ensures acc == Sum(packet[..n]) % 256
  {
    if n == 0 then 0
    else
      assert packet[..n][..n - 1] == packet[..n - 1];
      AddByte(Accumulate(packet, n - 1), packet[n - 1])
  }

  /** The trailing byte the checksum rule asks for after these seven bytes:
      0xFF minus the wrapped sum (never wraps), then plus one (may wrap). */
  function ExpectedChecksum(packet: seq<byte>): byte
    requires |packet| >= 7
  {
    AddByte(0xFF - Accumulate(packet, 7), 1)
  }

  /** CheckResponseChecksum: byte 7 is the two's complement of the sum of
      bytes 0..6; equivalently all eight bytes sum to 0 modulo 256. */
  function CheckResponseChecksum(packet: seq<byte>): (ok: bool)
    requires |packet| >= PacketLength
    ensures ok <==> packet[7] == (256 - Sum(packet[..7]) % 256) % 256
    ensures ok <==> Sum(packet[..8]) % 256 == 0
  {
    assert packet[..8][..7] == packet[..7];
    ExpectedChecksum(packet) == packet[7]
  }

  /** DecodeCO2Concentration: high byte times 255 (the device's multiplier,
      not 256) plus low byte. */
  function DecodeCO2Concentration(packet: seq<byte>): (ppm: nat)
    requires |packet| >= 3
    ensures ppm <= MaxConcentration
    ensures ppm / 255 == packet[1] as int || (ppm == 255 * (packet[1] as int + 1) && packet[2] == 255)
  {
    packet[1] as int * 255 + packet[2] as int
  }

  /** The `switch` on the decoded value: true for the warm-up readings. */
  function IsWarmupSentinel(ppm: nat): bool
  {
    ppm in WarmupSentinels
  }

  /** Two data bytes that decode to `ppm`: the partner of the decoder. */
  function DataBytesFor(ppm: nat): (hl: (byte, byte))
    requires ppm <= MaxConcentration
    ensures hl.0 * 255 + hl.1 == ppm
  {
    if ppm / 255 <= 255 then (ppm / 255, ppm % 255) else (255, ppm - 255 * 255)
  }

  /** The request's own trailer obeys the response rule: bytes 1..8 of the
      command (0x01 + 0x86 + 0x79 = 0x100) sum to 0 modulo 256. */
  lemma RequestTrailerIsItsChecksum()
    ensures |ReadConcentrationCommand| == 9
    ensures CheckResponseChecksum(ReadConcentrationCommand[1..])
    ensures ReadConcentrationCommand[8] == ExpectedChecksum(ReadConcentrationCommand[1..])
  {
    var p := ReadConcentrationCommand[1..];
    assert p == [0x01, 0x86, 0x00, 0x00, 0x00, 0x00, 0x00, 0x79];
    ChecksumByBytes(p);
  }

  /** The checksum in closed form: the eight bytes add up to a multiple of 256. */
  lemma ChecksumByBytes(p: seq<byte>)
    requires |p| >= PacketLength
    ensures CheckResponseChecksum(p) <==>
      (p[0] as int + p[1] + p[2] + p[3] + p[4] + p[5] + p[6] + p[7]) % 256 == 0
    ensures ExpectedChecksum(p) == (256 - (p[0] as int + p[1] + p[2] + p[3] + p[4] + p[5] + p[6]) % 256) % 256
  {
    assert p[..0] == [];
    SumStep(p, 0);
    SumStep(p, 1);
    SumStep(p, 2);
    SumStep(p, 3);
    SumStep(p, 4);
    SumStep(p, 5);
    SumStep(p, 6);
    SumStep(p, 7);
  }

  /** For any seven leading bytes exactly one trailing byte passes: the
      two's complement of their sum. */
  lemma ExactlyOneTrailerPasses(head: seq<byte>, b: byte)
    requires |head| == 7
    ensures CheckResponseChecksum(head + [b]) <==> b == (256 - Sum(head) % 256) % 256
    ensures CheckResponseChecksum(head + [ExpectedChecksum(head)])
  {
    var t := ExpectedChecksum(head);
    assert head[..7] == head;
    assert t == (256 - Sum(head) % 256) % 256;
    var p := head + [b];
    assert p[..7] == head && p[7] == b;
    var q := head + [t];
    assert q[..7] == head && q[7] == t;
  }

  /** The checksum reads bytes 0..7 only: what follows them never matters. */
  lemma ChecksumReadsFirstEightOnly(p: seq<byte>, q: seq<byte>)
    requires |p| >= PacketLength && |q| >= PacketLength
    requires p[..8] == q[..8]
    ensures CheckResponseChecksum(p) == CheckResponseChecksum(q)
  {
  }

  /** Changing any one of the eight bytes of a passing packet makes it fail. */
  lemma SingleByteChangeFails(p: seq<byte>, i: int, b: byte)
    requires |p| >= PacketLength && CheckResponseChecksum(p)
    requires 0 <= i < 8 && b != p[i]
    ensures !CheckResponseChecksum(p[i := b])
  {
    assert p[i := b][..8] == p[..8][i := b];
    SumUpdate(p[..8], i, b);
    var s := Sum(p[..8]);
    var d := b - p[i];
    assert -256 < d < 256 && d != 0;
    assert s % 256 == 0;
    assert (s + d) % 256 != 0;
  }

  /** The decoder reads the two data bytes and nothing else. */
  lemma DecodeReadsOnlyDataBytes(p: seq<byte>, q: seq<byte>)
    requires |p| >= 3 && |q| >= 3
    requires p[1] == q[1] && p[2] == q[2]
    ensures DecodeCO2Concentration(p) == DecodeCO2Concentration(q)
  {
  }

  /** Worked values: data bytes (1, 44) give 299 and (0, 0) give 0. */
  lemma DecodeExamples()
    ensures DecodeCO2Concentration([0x86, 0x01, 0x2C, 0, 0, 0, 0, 0x4D]) == 299
    ensures DecodeCO2Concentration([0x86, 0x00, 0x00, 0, 0, 0, 0, 0x7A]) == 0
    ensures CheckResponseChecksum([0x86, 0x01, 0x2C, 0, 0, 0, 0, 0x4D])
    ensures CheckResponseChecksum([0x86, 0x00, 0x00, 0, 0, 0, 0, 0x7A])
  {
    ChecksumByBytes([0x86, 0x01, 0x2C, 0, 0, 0, 0, 0x4D]);
    ChecksumByBytes([0x86, 0x00, 0x00, 0, 0, 0, 0, 0x7A]);
  }

  /** Every value up to MaxConcentration is the decoding of some packet. */
  lemma DecodeRoundTrip(ppm: nat)
    requires ppm <= MaxConcentration
    ensures DecodeCO2Concentration([CommandByte, DataBytesFor(ppm).0, DataBytesFor(ppm).1]) == ppm
  {
  }

  /** With multiplier 255 the decoding is not one-to-one: (1, 0) and (0, 255)
      both read 255 ppm. */
  lemma DecodeOverlaps()
    ensures DecodeCO2Concentration([CommandByte, 1, 0]) == DecodeCO2Concentration([CommandByte, 0, 255]) == 255
  {
  }

  /** The data bytes that decode to a warm-up sentinel are exactly
      (1, 154) for 409, (1, 244) for 499 and (2, 5) for 515. */
  lemma SentinelDataBytes(p: seq<byte>)
    requires |p| >= 3
    ensures IsWarmupSentinel(DecodeCO2Concentration(p)) <==>
      (p[1] == 1 && p[2] == 154) || (p[1] == 1 && p[2] == 244) || (p[1] == 2 && p[2] == 5)
  {
    var c := DecodeCO2Concentration(p);
    if IsWarmupSentinel(c) {
      assert c == 409 || c == 499 || c == 515;
      assert 1 <= p[1] <= 2;
    }
  }

  /** The sentinel test rejects exactly 409, 499 and 515; their neighbours
      are real readings. */
  lemma SentinelNeighboursAccepted()
    ensures IsWarmupSentinel(409) && IsWarmupSentinel(499) && IsWarmupSentinel(515)
    ensures !IsWarmupSentinel(408) && !IsWarmupSentinel(410)
    ensures !IsWarmupSentinel(498) && !IsWarmupSentinel(500)
    ensures !IsWarmupSentinel(514) && !IsWarmupSentinel(516)
  {
  }
}
