/**
 The replay loop of `Aof::read` in `src/app/aof.rs`.

 `Aof::read` seeks to the start of the log file, reads all of it into a
 buffer, and decodes values from offset 0, handing each one to a callback.
 Here the buffer is a parameter and the callback is modelled by returning,
 in order, every value it would have been given.
 */
module Aof {
  import opened Io
  import Resp
  import opened RespEncoding

  /** What a replay hands to the callback, and what `Aof::read` returns. */
  datatype Replayed = Replayed(delivered: seq<Resp.Value>, result: Result<()>)

  /**
   `Aof::read` over the log content `log`: decode a value and deliver it
   until a decode fails; UnexpectedEof ends the replay with `Ok(())`, any
   other error is returned.
   */
  function Read(log: seq<byte>): (r: Replayed)
    decreases |log|
    ensures |r.delivered| <= |log|
    ensures |log| == 0 ==> r == Replayed([], Ok(()))
    ensures r.result.Err? ==> r.result.error.kind == InvalidData
  {
    Resp.ReadOutcome(log);
    var st := Resp.Read(log);
    match st.result
    case Ok(v) =>
      var tail := Read(st.rest);
      Replayed([v] + tail.delivered, tail.result)
    case Err(e) =>
      if e.kind == UnexpectedEof then Replayed([], Ok(())) else Replayed([], Err(e))
  }

  /** `s` is exactly a run of complete values, with no bytes left over. */
  function DecodeAll(s: seq<byte>): (r: Option<seq<Resp.Value>>)
    decreases |s|
    ensures r.Some? ==> |r.value| <= |s|
  {
    if |s| == 0 then Some([])
    else
      var st := Resp.Read(s);
      if st.result.Err? then None
      else
        match DecodeAll(st.rest)
        case None => None
        case Some(vs) => Some([st.result.value] + vs)
  }

  /**
   Replay after complete records: everything in them is delivered once, in
   order, before whatever the remaining bytes produce. This is also what
   `Aof::write` (an append at the end of the file) preserves: the values
   already in a well-formed log stay the first ones replayed.
   */
  lemma {:induction false} ReadAfterRecords(a: seq<byte>, b: seq<byte>)
    requires DecodeAll(a).Some?
    decreases |a|
    ensures Read(a + b) == Replayed(DecodeAll(a).value + Read(b).delivered, Read(b).result)
  {
    if |a| > 0 {
      var st := Resp.Read(a);
      var vs := DecodeAll(st.rest).value;
      DecodeAllCons(a);
      ReadExtends(a, b);
      ReadCons(a + b);
      ReadAfterRecords(st.rest, b);
      AppendAssoc([st.result.value], vs, Read(b).delivered);
    } else {
      assert a + b == b;
    }
  }

  /** One step of the replay loop: the first value is delivered, then the rest is replayed. */
  lemma ReadCons(s: seq<byte>)
    requires Resp.Read(s).result.Ok?
    ensures Read(s) == Replayed([Resp.Read(s).result.value] + Read(Resp.Read(s).rest).delivered, Read(Resp.Read(s).rest).result)
  {
  }

  /** One step of `DecodeAll`. */
  lemma DecodeAllCons(s: seq<byte>)
    requires |s| > 0 && DecodeAll(s).Some?
    ensures Resp.Read(s).result.Ok? && DecodeAll(Resp.Read(s).rest).Some?
    ensures DecodeAll(s).value == [Resp.Read(s).result.value] + DecodeAll(Resp.Read(s).rest).value
  {
  }

  /** The bytes of `log` after the values a replay delivers: where the replay stops. */
  function Remainder(log: seq<byte>): (r: seq<byte>)
    decreases |log|
    ensures |r| <= |log|
  {
    var st := Resp.Read(log);
    if st.result.Ok? then Remainder(st.rest) else log
  }

  /**
   A replay stops at a tail of the log on which `read` fails, and returns
   `Ok(())` exactly when that failure is UnexpectedEof, and that failure
   otherwise.
   */
  lemma {:induction false} RemainderOutcome(log: seq<byte>)
    decreases |log|
    ensures Suffix(Remainder(log), log)
    ensures Resp.Read(Remainder(log)).result.Err?
    ensures Read(log).result == (if Resp.Read(Remainder(log)).result.IsEof() then Ok(()) else Err(Resp.Read(Remainder(log)).result.error))
  {
    var st := Resp.Read(log);
    if st.result.Ok? {
      RemainderOutcome(st.rest);
      Resp.ReadRestSuffix(log);
      SuffixTrans(Remainder(log), st.rest, log);
      ReadCons(log);
    } else {
      assert log[|log| - |log|..] == log;
    }
  }

  /** What a replay delivers is exactly the decoding of the log up to its remainder. */
  lemma {:induction false} DecodeUpToRemainder(log: seq<byte>)
    decreases |log|
    ensures DecodeAll(log[..|log| - |Remainder(log)|]) == Some(Read(log).delivered)
  {
    var st := Resp.Read(log);
    if st.result.Ok? {
      var rest := st.rest;
      var m := |log| - |rest|;
      var k := |rest| - |Remainder(rest)|;
      DecodeUpToRemainder(rest);
      DecodeRecordsStep(log, m, k);
      ReadCons(log);
      assert Remainder(log) == Remainder(rest);
      assert log[..|log| - |Remainder(log)|] == log[..m + k];
    } else {
      DecodeUpToStop(log);
    }
  }

  /** `DecodeUpToRemainder` when the first `read` fails: nothing is delivered and nothing is decoded. */
  lemma DecodeUpToStop(log: seq<byte>)
    requires Resp.Read(log).result.Err?
    ensures DecodeAll(log[..|log| - |Remainder(log)|]) == Some(Read(log).delivered)
  {
    assert log[..0] == [];
  }

  /**
   What a replay of any log does: the log splits into complete records,
   whose values are delivered in order, and a remainder on which `read`
   fails. The replay returns `Ok(())` exactly when that failure is
   UnexpectedEof, and that failure otherwise.
   */
  lemma ReadSplits(log: seq<byte>)
    ensures var r := Remainder(log);
      && log == log[..|log| - |r|] + r
      && DecodeAll(log[..|log| - |r|]) == Some(Read(log).delivered)
      && Resp.Read(r).result.Err?
      && (Read(log).result.Ok? <==> Resp.Read(r).result.IsEof())
      && (Read(log).result.Err? ==> Read(log).result.error == Resp.Read(r).result.error)
  {
    RemainderOutcome(log);
    SuffixSplit(Remainder(log), log);
    DecodeUpToRemainder(log);
  }

  /** The decoding half of a replay step: one complete record of `m` bytes, then `k` bytes of records. */
  lemma DecodeRecordsStep(log: seq<byte>, m: nat, k: nat)
    requires Resp.Read(log).result.Ok? && m == |log| - |Resp.Read(log).rest|
    requires k <= |Resp.Read(log).rest|
    requires var rest := Resp.Read(log).rest; DecodeAll(rest[..k]).Some?
    ensures var rest := Resp.Read(log).rest;
      DecodeAll(log[..m + k]) == Some([Resp.Read(log).result.value] + DecodeAll(rest[..k]).value)
  {
    var rest := Resp.Read(log).rest;
    Resp.ReadRestSuffix(log);
    SuffixSlices(rest, log, k);
    ReadOwnBytesExtends(log, rest[..k]);
    var r := log[..m + k];
    assert r == log[..m] + rest[..k];
    assert Resp.Read(r) == Step(Resp.Read(log).result, rest[..k]);
    DecodeAllStep(r);
  }

  /** One step of `DecodeAll` over a first complete value. */
  lemma DecodeAllStep(s: seq<byte>)
    requires Resp.Read(s).result.Ok? && DecodeAll(Resp.Read(s).rest).Some?
    ensures DecodeAll(s) == Some([Resp.Read(s).result.value] + DecodeAll(Resp.Read(s).rest).value)
  {
  }

  /** A log of complete records replays to exactly those values and `Ok(())`. */
  lemma ReadRecords(a: seq<byte>)
    requires DecodeAll(a).Some?
    ensures Read(a) == Replayed(DecodeAll(a).value, Ok(()))
  {
    ReadAfterRecords(a, []);
    assert a + [] == a;
  }

  /** An encoded run of values decodes back to exactly that run. */
  lemma {:induction false} DecodeAllEncodeAll(vs: seq<Resp.Value>, pad: byte)
    requires AllDecodable(vs) && pad != Resp.Star
    ensures DecodeAll(EncodeAll(vs, pad)) == Some(vs)
  {
    if |vs| > 0 {
      var tail := EncodeAll(vs[1..], pad);
      ReadEncode(vs[0], pad, tail);
      DecodeAllEncodeAll(vs[1..], pad);
      ConsSplit(vs);
    }
  }

  /**
   A record cut short at the end of the log is dropped silently: the
   complete records before it are delivered and the replay returns `Ok(())`.
   */
  lemma TruncatedTailDiscarded(vs: seq<Resp.Value>, v: Resp.Value, pad: byte, p: seq<byte>, t: seq<byte>)
    requires AllDecodable(vs) && Decodable(v) && pad != Resp.Star
    requires Encode(v, pad) == p + t && |t| > 0
    ensures Read(EncodeAll(vs, pad) + p) == Replayed(vs, Ok(()))
  {
    DecodeAllEncodeAll(vs, pad);
    ReadAfterRecords(EncodeAll(vs, pad), p);
    TruncatedEncodingIsEof(v, pad, p, t);
    assert vs + [] == vs;
  }

  /**
   A record that fails with anything but UnexpectedEof stops the replay with
   that error, whatever follows it; the values before it stay delivered.
   */
  lemma CorruptRecordStops(a: seq<byte>, c: seq<byte>, b: seq<byte>)
    requires DecodeAll(a).Some?
    requires Resp.Read(c).result.Err? && !Resp.Read(c).result.IsEof()
    ensures Read(a + c + b) == Replayed(DecodeAll(a).value, Err(Resp.Read(c).result.error))
  {
    ReadExtends(c, b);
    AppendAssoc(a, c, b);
    ReadAfterRecords(a, c + b);
    assert DecodeAll(a).value + [] == DecodeAll(a).value;
  }

  /** The record `*-1` CRLF: an array header with a negative count. */
  const NegativeCountRecord: seq<byte> := [Resp.Star, Decimal.Minus, Decimal.Zero + 1, CR, LF]

  /** The record `*-1` CRLF is refused with InvalidData "Invalid size". */
  lemma NegativeCountRefused()
    ensures Resp.Read(NegativeCountRecord).result == Err(Resp.InvalidSize)
  {
    var c := NegativeCountRecord;
    assert c[1..] == Decimal.DecimalText(-1) + [CR, LF] + [];
    ReadIntegerDecimal(-1, LF, []);
  }

  /** A negative count stops the replay with that error, whatever follows it. */
  lemma NegativeCountIsFatal(a: seq<byte>, rest: seq<byte>)
    requires DecodeAll(a).Some?
    ensures Read(a + NegativeCountRecord + rest) == Replayed(DecodeAll(a).value, Err(Resp.InvalidSize))
  {
    NegativeCountRefused();
    CorruptRecordStops(a, NegativeCountRecord, rest);
  }
}
