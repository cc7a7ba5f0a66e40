/**
 The RESP decoder of `src/app/resp.rs`.

 The reader is a cursor over an in-memory buffer; every operation here is a
 function of the bytes the cursor has not consumed yet, and returns what the
 Rust method returns together with the unconsumed bytes afterwards.
 */
module Resp {
  import opened Io
  import opened Decimal
  import opened Utf8

  const Star: byte := 42
  const Dollar: byte := 36

  /**
   The decoded value record: a type tag and one field per RESP variant,
   all present at once, as the source declares it (`arr` is the source's
   `array` field; `array` is a Dafny keyword).
   */
  datatype Value = Value(typ: string, str: string, num: i32, bulk: string, arr: seq<Value>)

  /** What `read` returns for any type byte other than `'*'`. */
  const EmptyValue: Value := Value("", "", 0, "", [])

  /** What `read` returns for `'*'`. */
  function ArrayValue(elems: seq<Value>): Value {
    Value("*", "", 0, "", elems)
  }

  const InvalidUtf8: IoError := IoError(InvalidData, "Invalid UTF-8")
  const CannotParseInt: IoError := IoError(InvalidData, "Cannot parse int")
  const InvalidSize: IoError := IoError(InvalidData, "Invalid size")
  const PreviousErrorMsg: string := "previous error state"

  // ---------------------------------------------------------------------
  // check_input

  /** The result of the standalone `'$' digit CRLF body` validator. */
  function CheckInput(input: seq<byte>): (r: string)
    ensures r == "Success" || r == "Error"
    ensures r == "Success" <==>
      |input| >= 4 && input[0] == Dollar && IsDigit(input[1]) && input[2] == CR && input[3] == LF
      && |input| - 4 >= input[1] - Zero
  {
    // each step reads a fixed number of bytes and fails if they are not there
    if |input| < 1 || input[0] != Dollar then "Error"
    else if |input| < 2 || !IsDigit(input[1]) then "Error"
    else if |input| < 4 || input[2..4] != [CR, LF] then "Error"
    else if |input[4..]| < input[1] - Zero then "Error"
    else "Success"
  }

  // ---------------------------------------------------------------------
  // read_line

  /** Index of the first carriage return in `s`, or `|s|` when there is none. */
  function FindCR(s: seq<byte>): (j: nat)
    ensures j <= |s|
    ensures j < |s| ==> s[j] == CR
    ensures forall k :: 0 <= k < j ==> s[k] != CR
  {
    if |s| == 0 || s[0] == CR then 0 else 1 + FindCR(s[1..])
  }

  /**
   `read_line`: a line ends at the first `'\r'` together with the byte after
   it, whatever that byte is. Returns the line without those two bytes and
   the number of bytes consumed.
   */
  function ReadLine(s: seq<byte>): (st: Step<(seq<byte>, nat)>)
    ensures Suffix(st.rest, s)
    ensures st.result.Ok? <==> FindCR(s) + 1 < |s|
    ensures st.result.Ok? ==>
      var (line, count) := st.result.value;
      && count == |line| + 2 <= |s|
      && CR !in line
      && s[..count] == line + [CR, s[count - 1]]
      && st.rest == s[count..]
    ensures st.result.Err? ==> st.result.error == EofError && st.rest == []
  {
    var j := FindCR(s);
    if j + 1 < |s| then
      assert s[..j + 2] == s[..j] + [CR, s[j + 1]];
      Step(Ok((s[..j], j + 2)), s[j + 2..])
    else
      Step(Err(EofError), [])
  }

  /** `read_line` succeeds exactly when some `'\r'` has a byte after it. */
  lemma ReadLineOkIff(s: seq<byte>)
    ensures ReadLine(s).result.Ok? <==> exists j :: 0 <= j < |s| - 1 && s[j] == CR
  {
    if ReadLine(s).result.Err? {
      forall j | 0 <= j < |s| - 1
        ensures s[j] != CR
      {
        assert j < FindCR(s);
      }
    }
  }

  /**
   `read_line` as the source writes it: one byte at a time, stopping as soon
   as the byte before the last one read is `'\r'`.
   */
  method ReadLineByteAtATime(s: seq<byte>) returns (st: Step<(seq<byte>, nat)>)
    ensures st == ReadLine(s)
  {
    var line: seq<byte> := [];
    var count: nat := 0;
    while true
      invariant count == |line| <= |s|
      invariant line == s[..count]
      invariant forall k :: 0 <= k < count - 1 ==> s[k] != CR
      decreases |s| - count
    {
      if count == |s| {
        // read_exact fails: the cursor is at the end of the buffer
        assert FindCR(s) + 1 >= |s|;
        assert ReadLine(s) == Step(Err(EofError), []);
        return Step(Err(EofError), []);
      }
      line := line + [s[count]];
      count := count + 1;
      if |line| >= 2 && line[|line| - 2] == CR {
        break;
      }
    }
    // the source's `line.len() < 2` guard is never taken
    assert |line| >= 2;
    assert FindCR(s) == count - 2;
    assert line[..|line| - 2] == s[..count - 2];
    st := Step(Ok((line[..|line| - 2], count)), s[count..]);
  }

  // ---------------------------------------------------------------------
  // read_integer

  /**
   `read_integer`: a line, checked to be well-formed UTF-8, trimmed of
   Unicode whitespace, parsed as an `i64` and cast to `i32`.
   */
  function ReadInteger(s: seq<byte>): (st: Step<i32>)
    ensures st.rest == ReadLine(s).rest
    ensures st.result.IsEof() <==> ReadLine(s).result.Err?
    ensures st.result.Ok? ==> |st.rest| + 2 <= |s|
    ensures ReadLine(s).result.Ok? ==>
      var line := ReadLine(s).result.value.0;
      && (st.result.Ok? <==> ValidUtf8(line) && ParseI64(Trim(line)).Some?)
      && (!ValidUtf8(line) ==> st.result == Err(InvalidUtf8))
      && (ValidUtf8(line) && ParseI64(Trim(line)).None? ==> st.result == Err(CannotParseInt))
      && (st.result.Ok? ==> st.result.value == Wrap32(ParseI64(Trim(line)).value))
      && (st.result.Err? ==> st.result.error.kind == InvalidData)
  {
    var l := ReadLine(s);
    match l.result
    case Err(e) => Step(Err(e), l.rest)
    case Ok((line, _)) =>
      if !ValidUtf8(line) then Step(Err(InvalidUtf8), l.rest)
      else
        match ParseI64(Trim(line))
        case None => Step(Err(CannotParseInt), l.rest)
        case Some(v) => Step(Ok(Wrap32(v)), l.rest)
  }

  // ---------------------------------------------------------------------
  // read_array and read

  /**
   `read_array`: a count line, then that many values. A negative count is
   refused; an error in any element ends the array with that error.
   */
  function ReadArray(s: seq<byte>): (st: Step<seq<Value>>)
    decreases |s|, 2, 0
    ensures |st.rest| <= |s|
    ensures st.result.Ok? ==> |st.rest| + 2 + |st.result.value| <= |s|
  {
    var n := ReadInteger(s);
    match n.result
    case Err(e) => Step(Err(e), n.rest)
    case Ok(count) =>
      if count < 0 then Step(Err(InvalidSize), n.rest)
      else ReadValues(n.rest, count)
  }

  /** The loop of `read_array`: `k` values in a row, stopping at the first error. */
  function ReadValues(s: seq<byte>, k: nat): (st: Step<seq<Value>>)
    decreases |s|, 1, k
    ensures |st.rest| <= |s|
    ensures st.result.Ok? ==> |st.result.value| == k && |st.rest| + k <= |s|
  {
    if k == 0 then Step(Ok([]), s)
    else
      var h := Read(s);
      match h.result
      case Err(e) => Step(Err(e), h.rest)
      case Ok(v) =>
        var t := ReadValues(h.rest, k - 1);
        match t.result
        case Err(e) => Step(Err(e), t.rest)
        case Ok(vs) => Step(Ok([v] + vs), t.rest)
  }

  /**
   `read`: one type byte, then the value it introduces. Only `'*'` is
   decoded; every other byte yields an empty value.
   */
  function Read(s: seq<byte>): (st: Step<Value>)
    decreases |s|, 0, 0
    ensures |st.rest| <= |s|
    ensures st.result.Ok? ==> |st.rest| < |s|
  {
    if |s| == 0 then Step(Err(EofError), s)
    else if s[0] == Star then
      var a := ReadArray(s[1..]);
      match a.result
      case Err(e) => Step(Err(e), a.rest)
      case Ok(elems) => Step(Ok(ArrayValue(elems)), a.rest)
    else
      Step(Ok(EmptyValue), s[1..])
  }

  /** The error kinds a decode can end in. */
  predicate DecodeErrorKind<T>(r: Result<T>) {
    r.Err? ==> r.error.kind == UnexpectedEof || r.error.kind == InvalidData
  }

  /**
   What `read` gives for each leading byte: UnexpectedEof on no input, an
   empty value for any byte but `'*'`, the array value or the array's
   error otherwise; and it fails only with UnexpectedEof or InvalidData.
   */
  lemma {:induction false} ReadOutcome(s: seq<byte>)
    decreases |s|, 0, 0
    ensures |s| == 0 ==> Read(s) == Step(Err(EofError), s)
    ensures |s| > 0 && s[0] != Star ==> Read(s) == Step(Ok(EmptyValue), s[1..])
    ensures |s| > 0 && s[0] == Star ==>
      && Read(s).rest == ReadArray(s[1..]).rest
      && (Read(s).result.Ok? <==> ReadArray(s[1..]).result.Ok?)
      && (Read(s).result.Ok? ==> Read(s).result.value == ArrayValue(ReadArray(s[1..]).result.value))
      && (Read(s).result.Err? ==> Read(s).result.error == ReadArray(s[1..]).result.error)
    ensures DecodeErrorKind(Read(s).result)
  {
    if |s| > 0 && s[0] == Star {
      ReadArrayOutcome(s[1..]);
    }
  }

  /**
   `read_array`: a failed or negative count ends it with that error; any
   other count hands the rest of the input to the element loop, so a
   success holds exactly `count` values; it fails only with UnexpectedEof
   or InvalidData.
   */
  lemma {:induction false} ReadArrayOutcome(s: seq<byte>)
    decreases |s|, 2, 0
    ensures ReadInteger(s).result.Err? ==> ReadArray(s) == Step(Err(ReadInteger(s).result.error), ReadInteger(s).rest)
    ensures ReadInteger(s).result.Ok? && ReadInteger(s).result.value < 0 ==>
      ReadArray(s) == Step(Err(InvalidSize), ReadInteger(s).rest)
    ensures ReadInteger(s).result.Ok? && ReadInteger(s).result.value >= 0 ==>
      ReadArray(s) == ReadValues(ReadInteger(s).rest, ReadInteger(s).result.value)
    ensures ReadArray(s).result.Ok? ==>
      ReadInteger(s).result.Ok? && |ReadArray(s).result.value| == ReadInteger(s).result.value
    ensures DecodeErrorKind(ReadArray(s).result)
  {
    var n := ReadInteger(s);
    if n.result.Ok? && n.result.value >= 0 {
      ReadValuesOutcome(n.rest, n.result.value);
    }
  }

  /**
   The loop of `read_array`: the first failing `read` ends it with that
   error; it fails only with UnexpectedEof or InvalidData.
   */
  lemma {:induction false} ReadValuesOutcome(s: seq<byte>, k: nat)
    decreases |s|, 1, k
    ensures k > 0 && Read(s).result.Err? ==> ReadValues(s, k) == Step(Err(Read(s).result.error), Read(s).rest)
    ensures DecodeErrorKind(ReadValues(s, k).result)
  {
    if k > 0 {
      ReadOutcome(s);
      if Read(s).result.Ok? {
        ReadValuesOutcome(Read(s).rest, k - 1);
        ReadValuesCons(s, k);
      }
    }
  }

  /** What `read` leaves unread is the tail of its input. */
  lemma {:induction false} ReadRestSuffix(s: seq<byte>)
    decreases |s|, 0, 0
    ensures Suffix(Read(s).rest, s)
  {
    if |s| == 0 {
      SuffixRefl(s);
    } else if s[0] == Star {
      ReadArrayRestSuffix(s[1..]);
      SuffixTrans(Read(s).rest, s[1..], s);
    }
  }

  /** What `read_array` leaves unread is the tail of its input. */
  lemma {:induction false} ReadArrayRestSuffix(s: seq<byte>)
    decreases |s|, 2, 0
    ensures Suffix(ReadArray(s).rest, s)
  {
    var n := ReadInteger(s);
    if n.result.Ok? && n.result.value >= 0 {
      ReadValuesRestSuffix(n.rest, n.result.value);
      SuffixTrans(ReadArray(s).rest, n.rest, s);
    }
  }

  /** What the loop of `read_array` leaves unread is the tail of its input. */
  lemma {:induction false} ReadValuesRestSuffix(s: seq<byte>, k: nat)
    decreases |s|, 1, k
    ensures Suffix(ReadValues(s, k).rest, s)
  {
    if k == 0 {
      SuffixRefl(s);
    } else {
      ReadRestSuffix(s);
      if Read(s).result.Ok? {
        ReadValuesRestSuffix(Read(s).rest, k - 1);
        ReadValuesCons(s, k);
        SuffixTrans(ReadValues(s, k).rest, Read(s).rest, s);
      }
    }
  }

  /**
   The loop of `read_array` ends with the error of the first element that
   fails, wherever it is: when the first `i` reads succeed and read `i`
   fails, the `k`-element loop, for any `k > i`, fails with that read's
   error and leaves what that read left.
   */
  lemma {:induction false} ReadValuesFirstError(s: seq<byte>, i: nat, k: nat, e: IoError, rest: seq<byte>)
    requires i < k && ReadValues(s, i).result.Ok?
    requires Read(ReadValues(s, i).rest) == Step(Err(e), rest)
    decreases i
    ensures ReadValues(s, k) == Step(Err(e), rest)
  {
    if i == 0 {
      ReadValuesOutcome(s, k);
    } else {
      ReadValuesOkHead(s, i);
      ReadValuesFirstError(Read(s).rest, i - 1, k - 1, e, rest);
      ReadValuesCons(s, k);
    }
  }

  /** A loop that succeeds starts with a read that succeeds, and goes on from what it leaves. */
  lemma ReadValuesOkHead(s: seq<byte>, i: nat)
    requires 0 < i && ReadValues(s, i).result.Ok?
    ensures Read(s).result.Ok?
    ensures ReadValues(Read(s).rest, i - 1).result.Ok?
    ensures ReadValues(s, i).rest == ReadValues(Read(s).rest, i - 1).rest
  {
  }

  /** One step of the `read_array` loop, after a successful first `read`. */
  lemma ReadValuesCons(s: seq<byte>, k: nat)
    requires k > 0 && Read(s).result.Ok?
    ensures var h := Read(s); var r := ReadValues(h.rest, k - 1);
      ReadValues(s, k) == (if r.result.Ok? then Step(Ok([h.result.value] + r.result.value), r.rest) else Step(Err(r.result.error), r.rest))
  {
  }

  // ---------------------------------------------------------------------
  // the reader itself

  /**
   A `Resp`: its `reader` holds either a cursor, shown here as the bytes it
   has not consumed yet, or a stored error.
   */
  datatype Reader = Reader(reader: Result<seq<byte>>) {

    /**
     Runs one of the operations above on the reader. A reader holding an
     error does not touch any input: it answers with an error of the same
     kind, as `read` and `read_line` do (and `read_integer` and
     `read_array`, which start with `read_line`).
     */
    function Apply<T>(op: seq<byte> -> Step<T>): (out: (Result<T>, Reader))
      ensures reader.Err? ==> out.0 == Err(IoError(reader.error.kind, PreviousErrorMsg)) && out.1 == this
      ensures reader.Ok? ==> out.0 == op(reader.value).result && out.1.reader == Ok(op(reader.value).rest)
    {
      match reader
      case Err(e) => (Err(IoError(e.kind, PreviousErrorMsg)), this)
      case Ok(s) =>
        var st := op(s);
        (st.result, Reader(Ok(st.rest)))
    }
  }

  /** `Resp::new`: a reader positioned at the start of `data`. */
  function NewReader(data: seq<byte>): Reader {
    Reader(Ok(data))
  }

  /**
   A reader made by `Resp::new` runs each operation on the bytes it has
   not consumed and moves past what the operation consumed; it never
   enters the error state, whatever the operation returns.
   */
  lemma NewReaderApply<T>(data: seq<byte>, op: seq<byte> -> Step<T>)
    ensures NewReader(data).Apply(op) == (op(data).result, NewReader(op(data).rest))
    ensures NewReader(data).Apply(op).1.reader.Ok?
  {
  }
}
