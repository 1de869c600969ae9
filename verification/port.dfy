/** The serial port as a finite script of read outcomes, and `io.ReadFull`
    over it. */
module Port {
  import opened Bytes

  /** What one read of a one-byte buffer can return: a byte, nothing within
      the read timeout (n == 0 with a nil error), or an I/O error. */
  datatype ReadOutcome = Byte(b: byte) | Timeout | Err

  /** The bytes a stretch of the script delivers, in order. */
  function Delivered(s: seq<ReadOutcome>): seq<byte>
  {
    if |s| == 0 then []
    else (if s[0].Byte? then [s[0].b] else []) + Delivered(s[1..])
  }

  /** No read in the stretch failed. */
  predicate NoErr(s: seq<ReadOutcome>)
  {
    forall i :: 0 <= i < |s| ==> !s[i].Err?
  }

  /** `rest` is what is left of `script` after some reads. */
  predicate IsSuffix(rest: seq<ReadOutcome>, script: seq<ReadOutcome>)
  {
    |rest| <= |script| && script[|script| - |rest|..] == rest
  }

  /** The outcomes taken from `script` to leave `rest`. */
  function Consumed(script: seq<ReadOutcome>, rest: seq<ReadOutcome>): seq<ReadOutcome>
    requires |rest| <= |script|
  {
    script[..|script| - |rest|]
  }

  /** The stretch ends with a failed read and no read before it failed. */
  predicate FailsLast(s: seq<ReadOutcome>)
  {
    |s| > 0 && s[|s| - 1].Err? && NoErr(s[..|s| - 1])
  }

  /** Result of reading exactly `n` bytes. */
  datatype FullRead =
    | Filled(data: seq<byte>, rest: seq<ReadOutcome>)
    | FillFailed(rest: seq<ReadOutcome>)
    | FillExhausted

  /** `io.ReadFull(port, buf)` with `|buf| == n`: it keeps reading until `n`
      bytes have arrived; a read that times out delivers nothing and is simply
      repeated, and the first read error ends it. */
  function ReadFull(script: seq<ReadOutcome>, n: nat): (r: FullRead)
    ensures r.Filled? ==> |r.data| == n && IsSuffix(r.rest, script) && (n > 0 ==> |r.rest| < |script|)
    ensures r.FillFailed? ==> IsSuffix(r.rest, script) && |r.rest| < |script|
    decreases |script|
  {
    if n == 0 then Filled([], script)
    else if |script| == 0 then FillExhausted
    else
      assert script[1..] == script[|script| - |script[1..]|..];
      match script[0]
      case Err => FillFailed(script[1..])
      case Timeout => ReadFull(script[1..], n)
      case Byte(b) =>
        match ReadFull(script[1..], n - 1)
        case Filled(data, rest) => Filled([b] + data, rest)
        case other => other
  }

  /** What a completed ReadFull hands back is exactly what the reads it made
      delivered, and none of those reads failed. */
  lemma {:induction false} ReadFullDelivers(script: seq<ReadOutcome>, n: nat)
    requires ReadFull(script, n).Filled?
    ensures Delivered(Consumed(script, ReadFull(script, n).rest)) == ReadFull(script, n).data
    ensures NoErr(Consumed(script, ReadFull(script, n).rest))
    decreases |script|
  {
    var r := ReadFull(script, n);
    if n == 0 {
      assert Consumed(script, script) == [];
    } else {
      var t := script[1..];
      if script[0].Timeout? {
        ReadFullDelivers(t, n);
      } else {
        ReadFullDelivers(t, n - 1);
      }
      ConsumedStep(script, r.rest);
      PrependKeepsNoErr(script[0], Consumed(t, r.rest));
    }
  }

  /** A failed ReadFull stops at the first read error, before `n` bytes came. */
  lemma {:induction false} ReadFullFailsLast(script: seq<ReadOutcome>, n: nat)
    requires ReadFull(script, n).FillFailed?
    ensures FailsLast(Consumed(script, ReadFull(script, n).rest))
    ensures |Delivered(Consumed(script, ReadFull(script, n).rest))| < n
    decreases |script|
  {
    var r := ReadFull(script, n);
    var t := script[1..];
    ConsumedStep(script, r.rest);
    if script[0].Err? {
      assert Consumed(script, t) == [Err];
      assert Delivered([Err]) == [];
    } else {
      if script[0].Timeout? {
        ReadFullFailsLast(t, n);
      } else {
        ReadFullFailsLast(t, n - 1);
      }
      PrependKeepsFailsLast(script[0], Consumed(t, r.rest));
    }
  }

  /** ReadFull runs out of script only when the whole script holds no error
      and fewer than `n` bytes. */
  lemma {:induction false} ReadFullExhausts(script: seq<ReadOutcome>, n: nat)
    requires ReadFull(script, n).FillExhausted?
    ensures NoErr(script) && |Delivered(script)| < n
    decreases |script|
  {
    if |script| > 0 {
      var t := script[1..];
      if script[0].Timeout? {
        ReadFullExhausts(t, n);
      } else {
        ReadFullExhausts(t, n - 1);
      }
      assert script == [script[0]] + t;
      PrependKeepsNoErr(script[0], t);
    }
  }

  lemma PrependKeepsNoErr(x: ReadOutcome, s: seq<ReadOutcome>)
    requires !x.Err? && NoErr(s)
    ensures NoErr([x] + s)
  {
    forall i | 0 <= i < |[x] + s|
      ensures !([x] + s)[i].Err?
    {
      if i > 0 {
        assert ([x] + s)[i] == s[i - 1];
      }
    }
  }

  lemma PrependKeepsFailsLast(x: ReadOutcome, s: seq<ReadOutcome>)
    requires !x.Err? && FailsLast(s)
    ensures FailsLast([x] + s)
  {
    assert ([x] + s)[..|s|] == [x] + s[..|s| - 1];
    PrependKeepsNoErr(x, s[..|s| - 1]);
  }

  /** Taking outcomes from a script starts with its first outcome. */
  lemma ConsumedStep(script: seq<ReadOutcome>, rest: seq<ReadOutcome>)
    requires 0 < |script| && |rest| < |script|
    ensures Consumed(script, rest) == [script[0]] + Consumed(script[1..], rest)
    ensures Delivered(Consumed(script, rest)) ==
      (if script[0].Byte? then [script[0].b] else []) + Delivered(Consumed(script[1..], rest))
  {
    var c := Consumed(script, rest);
    assert c == [script[0]] + Consumed(script[1..], rest);
    assert c[1..] == Consumed(script[1..], rest);
  }

  /** Reads taken in two rounds are the reads of the first round followed by
      those of the second. */
  lemma ConsumedSplit(a: seq<ReadOutcome>, b: seq<ReadOutcome>, c: seq<ReadOutcome>)
    requires IsSuffix(b, a) && IsSuffix(c, b)
    ensures IsSuffix(c, a)
    ensures Consumed(a, c) == Consumed(a, b) + Consumed(b, c)
  {
    assert a[|a| - |c|..] == a[|a| - |b|..][|b| - |c|..];
  }

  /** A script is what was read from it followed by what is left. */
  lemma ConsumedThenRest(script: seq<ReadOutcome>, rest: seq<ReadOutcome>)
    requires IsSuffix(rest, script)
    ensures script == Consumed(script, rest) + rest
  {
  }

  lemma {:induction false} DeliveredConcat(s: seq<ReadOutcome>, t: seq<ReadOutcome>)
    ensures Delivered(s + t) == Delivered(s) + Delivered(t)
    decreases |s|
  {
    if |s| == 0 {
      assert s + t == t;
    } else {
      assert (s + t)[0] == s[0];
      assert (s + t)[1..] == s[1..] + t;
      DeliveredConcat(s[1..], t);
    }
  }

  lemma NoErrConcat(s: seq<ReadOutcome>, t: seq<ReadOutcome>)
    requires NoErr(s) && NoErr(t)
    ensures NoErr(s + t)
  {
    forall i | 0 <= i < |s + t|
      ensures !(s + t)[i].Err?
    {
      if i >= |s| {
        assert (s + t)[i] == t[i - |s|];
      }
    }
  }

  lemma FailsLastConcat(s: seq<ReadOutcome>, t: seq<ReadOutcome>)
    requires NoErr(s) && FailsLast(t)
    ensures FailsLast(s + t)
  {
    assert (s + t)[..|s + t| - 1] == s + t[..|t| - 1];
    NoErrConcat(s, t[..|t| - 1]);
  }

  /** The script in which the given bytes arrive one read at a time. */
  function Arriving(bs: seq<byte>): (s: seq<ReadOutcome>)
    ensures |s| == |bs|
    ensures forall i :: 0 <= i < |bs| ==> s[i] == Byte(bs[i])
  {
    if |bs| == 0 then [] else [Byte(bs[0])] + Arriving(bs[1..])
  }

  /** ReadFull of `n` bytes over `n` arriving bytes returns them and leaves
      the rest of the script untouched. */
  lemma {:induction false} ReadFullOfArrivals(bs: seq<byte>, t: seq<ReadOutcome>)
    ensures ReadFull(Arriving(bs) + t, |bs|) == Filled(bs, t)
    decreases |bs|
  {
    if |bs| > 0 {
      var s := Arriving(bs) + t;
      assert s[0] == Byte(bs[0]);
      assert s[1..] == Arriving(bs[1..]) + t;
      ReadFullOfArrivals(bs[1..], t);
      assert [bs[0]] + bs[1..] == bs;
    }
  }

  /** A read error before `n` bytes have arrived fails ReadFull and leaves the
      reads after the error untouched. */
  lemma {:induction false} ReadFullStopsAtErr(bs: seq<byte>, n: nat, t: seq<ReadOutcome>)
    requires |bs| < n
    ensures ReadFull(Arriving(bs) + [Err] + t, n) == FillFailed(t)
    decreases |bs|
  {
    var s := Arriving(bs) + [Err] + t;
    if |bs| == 0 {
      assert s == [Err] + t;
      assert s[1..] == t;
    } else {
      assert s[0] == Byte(bs[0]);
      assert s[1..] == Arriving(bs[1..]) + [Err] + t;
      ReadFullStopsAtErr(bs[1..], n - 1, t);
    }
  }
}
