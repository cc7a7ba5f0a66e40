/**
 Properties of the decoder in `src/app/resp.rs` that relate it to a
 reference encoder: the framing it accepts, the values it reconstructs,
 and its independence from bytes that follow a complete value.

 The source has no encoder. `Encode` writes the only two shapes `read`
 can produce: an array value as `'*' count CRLF elements`, and the empty
 value as a single byte other than `'*'` (`pad`).
 */
module RespEncoding {
  import opened Io
  import opened Decimal
  import opened Utf8
  import opened Resp

  /** The values `read` can return. */
  predicate Decodable(v: Value)
    decreases v
  {
    || v == EmptyValue
    || (&& v == ArrayValue(v.arr)
        && |v.arr| <= 0x7fff_ffff
        && forall i :: 0 <= i < |v.arr| ==> Decodable(v.arr[i]))
  }

  predicate AllDecodable(vs: seq<Value>) {
    forall i :: 0 <= i < |vs| ==> Decodable(vs[i])
  }

  function Encode(v: Value, pad: byte): (e: seq<byte>)
    requires Decodable(v) && pad != Star
    decreases v, 1
    ensures |e| > 0
  {
    if v == EmptyValue then [pad]
    else [Star] + DecimalText(|v.arr|) + [CR, LF] + EncodeAll(v.arr, pad)
  }

  function EncodeAll(vs: seq<Value>, pad: byte): seq<byte>
    requires AllDecodable(vs) && pad != Star
    decreases vs, 0
  {
    if |vs| == 0 then [] else Encode(vs[0], pad) + EncodeAll(vs[1..], pad)
  }

  // ---------------------------------------------------------------------
  // read_line and read_integer on well-formed lines

  /** A line without `'\r'`, followed by `'\r'` and any byte, is read back whole. */
  lemma ReadLineFramed(line: seq<byte>, b: byte, rest: seq<byte>)
    requires CR !in line
    ensures ReadLine(line + [CR, b] + rest) == Step(Ok((line, |line| + 2)), rest)
  {
    var s := line + [CR, b] + rest;
    assert s[|line|] == CR;
    assert forall k :: 0 <= k < |line| ==> s[k] == line[k];
    assert FindCR(s) == |line|;
    assert s[..|line|] == line;
    assert s[|line| + 2..] == rest;
  }

  /** The decimal text of any `i64` is read back as that value cast to `i32`. */
  lemma ReadIntegerDecimal(n: int, b: byte, rest: seq<byte>)
    requires I64Min <= n <= I64Max
    ensures ReadInteger(DecimalText(n) + [CR, b] + rest) == Step(Ok(Wrap32(n)), rest)
    ensures -0x8000_0000 <= n <= 0x7fff_ffff ==> ReadInteger(DecimalText(n) + [CR, b] + rest) == Step(Ok(n), rest)
  {
    DecimalTextShape(n);
    AsciiIsUtf8(DecimalText(n));
    ReadLineFramed(DecimalText(n), b, rest);
    TrimDecimalText(n);
    ParseDecimalText(n);
  }

  /**
   Whitespace around the count is ignored: any run of Unicode whitespace
   without `'\r'` (which would end the line) may stand on either side of
   the decimal text.
   */
  lemma ReadIntegerPadded(a: seq<byte>, n: int, b: seq<byte>, x: byte, rest: seq<byte>)
    requires SpaceRun(a) && SpaceRun(b) && CR !in a && CR !in b
    requires I64Min <= n <= I64Max
    ensures ReadInteger(a + DecimalText(n) + b + [CR, x] + rest) == Step(Ok(Wrap32(n)), rest)
  {
    var m := DecimalText(n);
    var line := a + m + b;
    DecimalTextShape(n);
    assert CR !in line;
    ReadLineFramed(line, x, rest);
    AsciiIsUtf8(m);
    SpaceRunIsUtf8(a);
    SpaceRunIsUtf8(b);
    ValidUtf8Append(a, m);
    ValidUtf8Append(a + m, b);
    TrimDecimalText(n);
    TrimPadded(a, m, b);
    ParseDecimalText(n);
  }

  /** A no-break space (U+00A0, two bytes) before the digit is trimmed like any other whitespace. */
  lemma ReadIntegerNoBreakSpace()
    ensures ReadInteger([0xC2, 0xA0, 0x31, CR, LF]) == Step(Ok(1), [])
  {
    var a: seq<byte> := [0xC2, 0xA0];
    assert SpaceLen(a) == 2 && a[2..] == [];
    assert DecimalText(1) == [0x31];
    assert a + DecimalText(1) + [] + [CR, LF] + [] == [0xC2, 0xA0, 0x31, CR, LF];
    ReadIntegerPadded(a, 1, [], LF, []);
  }

  /** A line that is not well-formed UTF-8 is refused before any parsing. */
  lemma ReadIntegerInvalidUtf8()
    ensures ReadInteger([0xFF, CR, LF]) == Step(Err(InvalidUtf8), [])
  {
    var line: seq<byte> := [0xFF];
    ReadLineFramed(line, LF, []);
    assert line + [CR, LF] + [] == [0xFF, CR, LF];
    assert CharLen(line) == 0;
  }

  // ---------------------------------------------------------------------
  // round trip

  /** `read` inverts `Encode`, and leaves whatever follows untouched. */
  lemma {:induction false} ReadEncode(v: Value, pad: byte, rest: seq<byte>)
    requires Decodable(v) && pad != Star
    decreases v, 1
    ensures Read(Encode(v, pad) + rest) == Step(Ok(v), rest)
  {
    var s := Encode(v, pad) + rest;
    if v == EmptyValue {
      assert s[1..] == rest;
    } else {
      var elems := EncodeAll(v.arr, pad);
      assert s[1..] == DecimalText(|v.arr|) + [CR, LF] + (elems + rest);
      ReadIntegerDecimal(|v.arr|, LF, elems + rest);
      ReadEncodeAll(v.arr, pad, rest);
    }
  }

  /** The loop of `read_array` inverts `EncodeAll`. */
  lemma {:induction false} ReadEncodeAll(vs: seq<Value>, pad: byte, rest: seq<byte>)
    requires AllDecodable(vs) && pad != Star
    decreases vs, 0
    ensures ReadValues(EncodeAll(vs, pad) + rest, |vs|) == Step(Ok(vs), rest)
  {
    if |vs| > 0 {
      var tail := EncodeAll(vs[1..], pad) + rest;
      AppendAssoc(Encode(vs[0], pad), EncodeAll(vs[1..], pad), rest);
      ReadEncode(vs[0], pad, tail);
      ReadEncodeAll(vs[1..], pad, rest);
      ConsSplit(vs);
    }
  }

  /**
   A reader made by `Resp::new` over two encoded values and more bytes
   returns the two values from two calls of `read`, in order, and is left
   positioned on the bytes after them.
   */
  lemma ReaderReadsInOrder(v: Value, w: Value, pad: byte, rest: seq<byte>)
    requires Decodable(v) && Decodable(w) && pad != Star
    ensures var first := NewReader(Encode(v, pad) + Encode(w, pad) + rest).Apply(Read);
      var second := first.1.Apply(Read);
      first.0 == Ok(v) && second.0 == Ok(w) && second.1 == NewReader(rest)
  {
    var tail := Encode(w, pad) + rest;
    AppendAssoc(Encode(v, pad), Encode(w, pad), rest);
    ReadEncode(v, pad, tail);
    ReadEncode(w, pad, rest);
    NewReaderApply(Encode(v, pad) + tail, Read);
    NewReaderApply(tail, Read);
  }

  /** An array whose count line reads as 0 is empty, and nothing after the line is consumed. */
  lemma ReadEmptyArray(s: seq<byte>)
    requires |s| > 0 && s[0] == Star && ReadInteger(s[1..]).result == Ok(0)
    ensures Read(s) == Step(Ok(ArrayValue([])), ReadInteger(s[1..]).rest)
  {
    ReadOutcome(s);
  }

  /** `*0`, `'\r'` and any byte, `'\n'` or not, is a complete empty array. */
  lemma AnyByteAfterCR(b: byte, rest: seq<byte>)
    ensures Read([Star, Zero, CR, b] + rest) == Step(Ok(ArrayValue([])), rest)
  {
    var s := [Star, Zero, CR, b] + rest;
    assert s[1..] == DecimalText(0) + [CR, b] + rest;
    ReadIntegerDecimal(0, b, rest);
    ReadEmptyArray(s);
  }

  /** A count that is a multiple of 2^32 is cast to the `i32` 0: the array is empty. */
  lemma CountWrapsToZero(n: int, rest: seq<byte>)
    requires I64Min <= n <= I64Max && n % 0x1_0000_0000 == 0
    ensures Read([Star] + DecimalText(n) + [CR, LF] + rest) == Step(Ok(ArrayValue([])), rest)
  {
    var s := [Star] + DecimalText(n) + [CR, LF] + rest;
    DropHead(Star, DecimalText(n), [CR, LF], rest);
    ReadIntegerDecimal(n, LF, rest);
    Wrap32Multiple(n);
    ReadEmptyArray(s);
  }

  /**
   An element's error ends the array that holds it: the one-element array
   whose element is the record `*-1` fails with that record's "Invalid
   size", whatever follows.
   */
  lemma ReadNestedNegativeCount(rest: seq<byte>)
    ensures Read([Star] + DecimalText(1) + [CR, LF] + ([Star] + DecimalText(-1) + [CR, LF] + rest)).result == Err(InvalidSize)
  {
    var inner := [Star] + DecimalText(-1) + [CR, LF] + rest;
    var s := [Star] + DecimalText(1) + [CR, LF] + inner;
    DropHead(Star, DecimalText(1), [CR, LF], inner);
    ReadIntegerDecimal(1, LF, inner);
    ReadArrayOutcome(s[1..]);
    DropHead(Star, DecimalText(-1), [CR, LF], rest);
    ReadIntegerDecimal(-1, LF, rest);
    ReadArrayOutcome(inner[1..]);
    ReadOutcome(inner);
    ReadValuesOutcome(inner, 1);
    ReadOutcome(s);
  }

  // ---------------------------------------------------------------------
  // bytes after a complete value do not change it

  lemma ReadLineExtends(s: seq<byte>, t: seq<byte>)
    requires ReadLine(s).result.Ok?
    ensures ReadLine(s + t) == Step(ReadLine(s).result, ReadLine(s).rest + t)
  {
    var line := ReadLine(s).result.value.0;
    assert s == line + [CR, s[|line| + 1]] + ReadLine(s).rest;
    ReadLineFramed(line, s[|line| + 1], ReadLine(s).rest);
    assert s + t == line + [CR, s[|line| + 1]] + (ReadLine(s).rest + t);
    ReadLineFramed(line, s[|line| + 1], ReadLine(s).rest + t);
  }

  lemma ReadIntegerExtends(s: seq<byte>, t: seq<byte>)
    requires !ReadInteger(s).result.IsEof()
    ensures ReadInteger(s + t) == Step(ReadInteger(s).result, ReadInteger(s).rest + t)
  {
    ReadLineExtends(s, t);
  }

  /**
   A decode that does not run out of input gives the same outcome, value
   or error, whatever bytes are appended after it.
   */
  lemma {:induction false} ReadExtends(s: seq<byte>, t: seq<byte>)
    requires !Read(s).result.IsEof()
    decreases |s|, 0, 1
    ensures Read(s + t) == Step(Read(s).result, Read(s).rest + t)
  {
    assert |s| > 0;
    if s[0] == Star {
      DropFirstAppend(s, t);
      ReadStarExtends(s, t);
    } else {
      DropFirstAppend(s, t);
    }
  }

  /** The `'*'` case of `ReadExtends`. */
  lemma {:induction false} ReadStarExtends(s: seq<byte>, t: seq<byte>)
    requires |s| > 0 && s[0] == Star && !Read(s).result.IsEof()
    requires (s + t)[0] == Star && (s + t)[1..] == s[1..] + t
    decreases |s|, 0, 0
    ensures Read(s + t) == Step(Read(s).result, Read(s).rest + t)
  {
    var a := ReadArray(s[1..]);
    assert Read(s) == (if a.result.Ok? then Step(Ok(ArrayValue(a.result.value)), a.rest) else Step(Err(a.result.error), a.rest));
    ReadArrayExtends(s[1..], t);
    var b := ReadArray((s + t)[1..]);
    assert b == Step(a.result, a.rest + t);
    assert Read(s + t) == (if b.result.Ok? then Step(Ok(ArrayValue(b.result.value)), b.rest) else Step(Err(b.result.error), b.rest));
  }

  lemma {:induction false} ReadArrayExtends(s: seq<byte>, t: seq<byte>)
    requires !ReadArray(s).result.IsEof()
    decreases |s|, 2, 0
    ensures ReadArray(s + t) == Step(ReadArray(s).result, ReadArray(s).rest + t)
  {
    var n := ReadInteger(s);
    ReadIntegerExtends(s, t);
    if n.result.Ok? && n.result.value >= 0 {
      ReadValuesExtends(n.rest, n.result.value, t);
    }
  }

  lemma {:induction false} ReadValuesExtends(s: seq<byte>, k: nat, t: seq<byte>)
    requires !ReadValues(s, k).result.IsEof()
    decreases |s|, 1, k
    ensures ReadValues(s + t, k) == Step(ReadValues(s, k).result, ReadValues(s, k).rest + t)
  {
    if k > 0 {
      ReadExtends(s, t);
      if Read(s).result.Ok? {
        ReadValuesTailNotEof(s, k);
        ReadValuesExtends(Read(s).rest, k - 1, t);
        ReadValuesConsExtends(s, k, t);
      } else {
        ReadValuesErrExtends(s, k, t);
      }
    }
  }

  /** The step of `ReadValuesExtends` when the first value fails. */
  lemma ReadValuesErrExtends(s: seq<byte>, k: nat, t: seq<byte>)
    requires k > 0 && Read(s).result.Err?
    requires Read(s + t) == Step(Read(s).result, Read(s).rest + t)
    ensures ReadValues(s + t, k) == Step(ReadValues(s, k).result, ReadValues(s, k).rest + t)
  {
  }

  /** After a successful first value, the rest of an array that does not run out does not run out either. */
  lemma ReadValuesTailNotEof(s: seq<byte>, k: nat)
    requires k > 0 && Read(s).result.Ok? && !ReadValues(s, k).result.IsEof()
    ensures !ReadValues(Read(s).rest, k - 1).result.IsEof()
  {
    ReadValuesCons(s, k);
  }

  /** The step of `ReadValuesExtends` after a first value has been read. */
  lemma ReadValuesConsExtends(s: seq<byte>, k: nat, t: seq<byte>)
    requires k > 0 && Read(s).result.Ok?
    ensures var r := ReadValues(Read(s).rest, k - 1);
      (Read(s + t) == Step(Read(s).result, Read(s).rest + t) &&
       ReadValues(Read(s).rest + t, k - 1) == Step(r.result, r.rest + t)) ==>
      ReadValues(s + t, k) == Step(ReadValues(s, k).result, ReadValues(s, k).rest + t)
  {
    ReadValuesCons(s, k);
    if Read(s + t) == Step(Read(s).result, Read(s).rest + t) {
      ReadValuesCons(s + t, k);
    }
  }


  // ---------------------------------------------------------------------
  // UnexpectedEof means the input ran out

  /**
   A line that ran out of input in `p` ends, if at all, only after the end
   of `p` once more bytes follow.
   */
  lemma ReadLineEofNeedsMore(p: seq<byte>, q: seq<byte>)
    requires ReadLine(p).result.Err? && ReadLine(p + q).result.Ok?
    ensures |ReadLine(p + q).rest| < |q|
  {
    var j := FindCR(p + q);
    if FindCR(p) < |p| {
      assert (p + q)[FindCR(p)] == CR;
    }
    assert j >= |p| - 1;
  }

  /**
   A `read` that runs out of input in `p` and does not run out once `q` is
   appended has read past the end of `p`: it leaves fewer than `|q|` bytes.
   */
  lemma {:induction false} ReadEofNeedsMore(p: seq<byte>, q: seq<byte>)
    requires Read(p).result.IsEof()
    decreases |p|, 0, 1
    ensures !Read(p + q).result.IsEof() ==> |Read(p + q).rest| < |q|
  {
    if |p| > 0 {
      ReadStarEofNeedsMore(p, q);
    } else if !Read(p + q).result.IsEof() {
      assert p + q == q;
      ReadOutcome(q);
    }
  }

  /** The non-empty case of `ReadEofNeedsMore`: only `'*'` can run out. */
  lemma {:induction false} ReadStarEofNeedsMore(p: seq<byte>, q: seq<byte>)
    requires |p| > 0 && Read(p).result.IsEof()
    decreases |p|, 0, 0
    ensures !Read(p + q).result.IsEof() ==> |Read(p + q).rest| < |q|
  {
    if !Read(p + q).result.IsEof() {
      ReadOutcome(p);
      DropFirstAppend(p, q);
      ReadOutcome(p + q);
      ReadArrayEofNeedsMore(p[1..], q);
    }
  }

  lemma {:induction false} ReadArrayEofNeedsMore(p: seq<byte>, q: seq<byte>)
    requires ReadArray(p).result.IsEof()
    decreases |p|, 2, 0
    ensures !ReadArray(p + q).result.IsEof() ==> |ReadArray(p + q).rest| < |q|
  {
    if !ReadArray(p + q).result.IsEof() {
      ReadArrayOutcome(p);
      ReadArrayOutcome(p + q);
      var n := ReadInteger(p);
      if n.result.IsEof() {
        ReadLineEofNeedsMore(p, q);
        var m := ReadInteger(p + q);
        if m.result.Ok? && m.result.value >= 0 {
          ReadValuesOutcome(m.rest, m.result.value);
        }
      } else {
        ReadIntegerExtends(p, q);
        ReadValuesEofNeedsMore(n.rest, n.result.value, q);
      }
    }
  }

  /**
   Appending `q` to the input of a `k`-element loop lets it finish, value
   or other error, only by reading into `q`.
   */
  predicate ValuesReadInto(p: seq<byte>, k: nat, q: seq<byte>) {
    !ReadValues(p + q, k).result.IsEof() ==> |ReadValues(p + q, k).rest| < |q|
  }

  lemma {:induction false} ReadValuesEofNeedsMore(p: seq<byte>, k: nat, q: seq<byte>)
    requires ReadValues(p, k).result.IsEof()
    decreases |p|, 1, k
    ensures ValuesReadInto(p, k, q)
  {
    var rest, j := ReadValuesEofSplit(p, k);
    if Read(p).result.IsEof() {
      ReadEofNeedsMore(p, q);
      ReadValuesRestBound(p + q, k, |q|);
    } else {
      ReadExtends(p, q);
      ReadValuesEofNeedsMore(rest, j, q);
      ValuesReadIntoShift(rest, k, q, j);
      ReadValuesEofTailStep(p, k, q, rest);
    }
  }

  /** A loop that runs out either runs out on its first `read`, or reads a value and then runs out. */
  lemma ReadValuesEofSplit(s: seq<byte>, k: nat) returns (rest: seq<byte>, j: nat)
    requires ReadValues(s, k).result.IsEof()
    ensures k > 0 && j == k - 1
    ensures Read(s).result.IsEof() || (Read(s).result.Ok? && Read(s).rest == rest && ReadValues(rest, j).result.IsEof())
  {
    rest, j := Read(s).rest, k - 1;
    ReadValuesOutcome(s, k);
    if Read(s).result.Ok? {
      ReadValuesCons(s, k);
    }
  }

  /** An array that does not run out leaves no more than its first `read` leaves. */
  lemma ReadValuesRestBound(s: seq<byte>, k: nat, n: int)
    requires k > 0
    ensures ((!Read(s).result.IsEof() ==> |Read(s).rest| < n) && !ReadValues(s, k).result.IsEof()) ==> |ReadValues(s, k).rest| < n
  {
    ReadValuesOutcome(s, k);
    if Read(s).result.Ok? {
      ReadValuesCons(s, k);
    }
  }

  /** `ValuesReadInto` for a count given as a variable and as `k - 1`. */
  lemma ValuesReadIntoShift(p: seq<byte>, k: nat, q: seq<byte>, j: nat)
    requires j == k - 1 && ValuesReadInto(p, j, q)
    ensures ValuesReadInto(p, k - 1, q)
  {
  }

  /** The step of `ReadValuesEofNeedsMore` after a first value has been read. */
  lemma ReadValuesEofTailStep(p: seq<byte>, k: nat, q: seq<byte>, rest: seq<byte>)
    requires k > 0 && Read(p).result.Ok? && Read(p).rest == rest
    requires Read(p + q) == Step(Read(p).result, Read(p).rest + q)
    requires ValuesReadInto(rest, k - 1, q)
    ensures ValuesReadInto(p, k, q)
  {
    ReadValuesCons(p + q, k);
  }

  /**
   A `read` that does not run out of input depends only on the bytes it
   consumes: on exactly those bytes it gives the same outcome and leaves
   nothing.
   */
  lemma ReadOwnBytes(s: seq<byte>)
    requires !Read(s).result.IsEof()
    ensures Read(s[..|s| - |Read(s).rest|]) == Step(Read(s).result, [])
  {
    var rest := Read(s).rest;
    var p := s[..|s| - |rest|];
    ReadRestSuffix(s);
    SuffixSplit(rest, s);
    if Read(p).result.IsEof() {
      ReadEofNeedsMore(p, rest);
      assert false;
    }
    ReadExtends(p, rest);
  }

  /** The bytes a `read` consumes, followed by any others, decode the same way. */
  lemma ReadOwnBytesExtends(s: seq<byte>, t: seq<byte>)
    requires !Read(s).result.IsEof()
    ensures Read(s[..|s| - |Read(s).rest|] + t) == Step(Read(s).result, t)
  {
    ReadOwnBytes(s);
    ReadExtends(s[..|s| - |Read(s).rest|], t);
    assert [] + t == t;
  }

  /** Every proper prefix of an encoded value, the empty one included, ends in UnexpectedEof. */
  lemma TruncatedEncodingIsEof(v: Value, pad: byte, p: seq<byte>, t: seq<byte>)
    requires Decodable(v) && pad != Star
    requires Encode(v, pad) == p + t && |t| > 0
    ensures Read(p).result.IsEof()
  {
    ReadEncode(v, pad, []);
    assert Encode(v, pad) + [] == p + t;
    if !Read(p).result.IsEof() {
      ReadExtends(p, t);
      assert false;
    }
  }
}
