# crache RESP decoder, in Dafny

This project models the request decoder of crache, a small Redis-like
server written in Rust, together with the two pieces built on it:

- `src/app/resp.rs` holds the decoder. `Resp` is a cursor over a byte
  buffer, or a stored I/O error. It offers four operations:
  - `read_line` frames a line: it ends at the first `'\r'` plus whatever
    byte follows.
  - `read_integer` checks that the line is well-formed UTF-8, trims
    Unicode whitespace from both ends, parses the rest as a signed decimal
    `i64` and casts it to `i32`.
  - `read_array` reads a count and then that many values.
  - `read` dispatches on the type byte. Only `'*'` is decoded; any other
    byte gives an empty `Value`.

  The same file also has `check_input`, a standalone validator for
  `'$' digit CRLF body`.
- `src/app/handler.rs` holds `get_handler`, the command lookup. Its only
  command is `PING`, served by `ping_handler`.
- `src/app/aof.rs` holds the replay loop of `Aof::read`. It decodes the
  append-only log from offset 0 and hands every value to a callback, in
  order. It stops cleanly at UnexpectedEof and returns any other error.

`Resp.Reader` is the reader itself: `Resp.NewReader` models `Resp::new`,
and `Resp.Reader.Apply` runs an operation on it, or answers from its
stored error. Each cursor operation is a pure function of the bytes the
cursor has not consumed yet. It returns a `Step`: what the Rust method
returns, plus the bytes still unread afterwards. The replay is a pure function of the log's
bytes. It returns the values the callback would receive and the result of
`Aof::read`.

The source has no encoder. `RespEncoding.Encode` is a reference encoder for
the two shapes the decoder can return. It is the inverse the round-trip and
truncation lemmas are stated against.

Two behaviours of the source are stated as lemmas because they are easy
to miss. First, `read_line` never checks that the byte after `'\r'` is
`'\n'` (`RespEncoding.AnyByteAfterCR`). Second, the array count is parsed
as an `i64` and then cast to `i32`, so a count of 4294967296 passes the
size check as 0 (`RespEncoding.CountWrapsToZero`).

Modules:
- `Io` (io.dfy): bytes, `i32`, error kinds, `Result`, `Step`.
- `Utf8` (utf8.dfy): the well-formedness check of `std::str::from_utf8`
  (section 4 of RFC 3629) and the Unicode-whitespace trimming of
  `str::trim`, both on the bytes of the line.
- `Decimal` (decimal.dfy): `i64` parsing, the `as i32` cast, and decimal
  text.
- `Resp` (resp.dfy): the decoder.
- `RespEncoding` (resp_encoding.dfy): the reference encoder, the round trip,
  and independence from trailing bytes.
- `Handler` (handler.dfy): the command lookup.
- `Aof` (aof.dfy): the replay.

## Model

| member | source | states |
|---|---|---|
| `Resp.CheckInput` | src/app/resp.rs:15-46 | The result is "Success" exactly when the input is `'$'`, one ASCII digit d, `"\r\n"`, and at least d more bytes. Otherwise it is "Error". Bytes after the body are not inspected. |
| `Resp.FindCR` | src/app/resp.rs:73-83 | Finds the first `'\r'`: no byte before the returned index is `'\r'`, and the byte at that index is `'\r'` unless the index is the input length. |
| `Resp.ReadLine` | src/app/resp.rs:66-94 | Succeeds exactly when the first `'\r'` has a byte after it. On success: `count == \|line\| + 2`; `line` has no `'\r'`; the consumed bytes are `line ++ ['\r', b]` for the following byte b, whether or not b is `'\n'`; the rest is everything after. On failure: UnexpectedEof, with all input consumed. |
| `Resp.ReadLineOkIff` | src/app/resp.rs:73-90 | `read_line` succeeds if and only if some `'\r'` in the input is followed by at least one more byte. So the `len < 2` branch is never reached. |
| `Resp.ReadLineByteAtATime` | src/app/resp.rs:71-93 | The source's byte-at-a-time loop computes exactly the `ReadLine` result: the same line, count and remaining bytes, or the same UnexpectedEof. |
| `Resp.ReadInteger` | src/app/resp.rs:134-145 | Leaves the same bytes unread as `read_line`. It fails with UnexpectedEof exactly when `read_line` does. Otherwise it succeeds iff the line is well-formed UTF-8 and its trimmed text parses as an `i64`; the value is that `i64` cast to `i32` with two's-complement wrap-around. A malformed line gives "Invalid UTF-8", a well-formed line that does not parse gives "Cannot parse int", both InvalidData. |
| `Resp.ReadArray` | src/app/resp.rs:146-159 | Never consumes more than its input. On success it consumed at least two bytes for the count line plus at least one per element. |
| `Resp.ReadValues` | src/app/resp.rs:151-155 | Decoding k values in a row returns exactly k values on success, having consumed at least one byte per value. |
| `Resp.Read` | src/app/resp.rs:96-132 | A successful `read` consumes at least one byte and never more than its input. This is the termination measure of the decoder and of the replay. |
| `Resp.ReadOutcome` | src/app/resp.rs:102-131 | Empty input gives UnexpectedEof. Any first byte other than `'*'` gives the all-empty value and consumes exactly that byte. `'*'` gives the `"*"`-tagged value holding the decoded array, or the array's error, and leaves what the array leaves. Errors are only UnexpectedEof or InvalidData. |
| `Resp.ReadArrayOutcome` | src/app/resp.rs:146-159 | A failing count line ends the array with its error. A negative count gives InvalidData "Invalid size". Any other count hands the rest of the input to the element loop, which decides the array's outcome, so a success holds exactly `count` values. Errors are only UnexpectedEof or InvalidData. |
| `Resp.ReadValuesOutcome` | src/app/resp.rs:152-155 | When the first element fails, the loop ends with that element's error and leaves what it left. Errors are only UnexpectedEof or InvalidData. |
| `Resp.ReadValuesFirstError` | src/app/resp.rs:152-155 | The array's error is the error of the first element that fails, whatever its index: if the first i reads succeed and read i fails, every loop of more than i elements fails with that error and leaves what that read left. |
| `Resp.ReadRestSuffix` | src/app/resp.rs:96-132 | What `read` leaves unread is a tail of its input: the cursor only moves forward. |
| `Resp.ReadArrayRestSuffix` | src/app/resp.rs:146-159 | What `read_array` leaves unread is a tail of its input. |
| `Resp.ReadValuesRestSuffix` | src/app/resp.rs:152-155 | What the element loop leaves unread is a tail of its input. |
| `Resp.Reader.Apply` | src/app/resp.rs:66-70 | A reader in an error state answers every call with an error of the stored kind and the message "previous error state", and consumes nothing. A reader holding a cursor runs the operation on the unread bytes and keeps the rest. |
| `Resp.NewReaderApply` | src/app/resp.rs:58-70 | A reader made by `Resp::new` runs an operation on its whole data, is then positioned after what the operation consumed, and never enters the error state. |
| `Decimal.ParseI64` | src/app/resp.rs:141-143 | A successful parse lies in the `i64` range and comes from an optional `+`/`-` sign followed by decimal digits only, ending in a digit: a sign on its own does not parse. |
| `Decimal.ParseNoDigits` | src/app/resp.rs:141-143 | The empty text, `+` alone and `-` alone do not parse. |
| `Decimal.ParseSignedDigits` | src/app/resp.rs:141-143 | The converse: a non-empty run of digits, bare or after `+` or `-`, parses to its value with that sign exactly when that value fits in `i64`, and fails otherwise. A `+` changes nothing. |
| `Decimal.ParseSigned` | src/app/resp.rs:141-143 | The same for one given sign in front of the digits. |
| `Decimal.LeadingZerosValue` | src/app/resp.rs:141-143 | Leading zeros do not change the value of a run of digits. |
| `Decimal.ParseLeadingZeros` | src/app/resp.rs:141-143 | Leading zeros, bare or after `+` or `-`, do not change what the parse returns. |
| `Decimal.Wrap32` | src/app/resp.rs:144 | `as i32` returns the `i32` congruent to the value modulo 2^32, and leaves values already in the `i32` range unchanged. |
| `Decimal.Wrap32Multiple` | src/app/resp.rs:144 | `as i32` sends every multiple of 2^32 to 0. |
| `Decimal.ParseDecimalText` | src/app/resp.rs:141-143 | Parsing the decimal text of any `i64` gives that value back. |
| `Decimal.DigitsValueOfDigits` | src/app/resp.rs:141-143 | The value of the decimal digits of n is n. |
| `Decimal.TrimDecimalText` | src/app/resp.rs:141 | Decimal text neither starts nor ends with whitespace, so trimming leaves it unchanged. |
| `Decimal.DecimalTextShape` | src/app/resp.rs:138-139 | Decimal text is ASCII and has no `'\r'`, so it passes the UTF-8 check and frames as a single line. |
| `Utf8.EncodeCharLen` | src/app/resp.rs:138-139 | The UTF-8 encoding of every scalar value is one well-formed character, whatever follows it, and decodes to that value. |
| `Utf8.DecodeCharLen` | src/app/resp.rs:138-139 | Conversely, every well-formed character is the encoding of the scalar value it holds: no overlong form, no surrogate, nothing above U+10FFFF is accepted. |
| `Utf8.CharLenPrefix` | src/app/resp.rs:138-139 | Whether the input starts with a well-formed character depends only on that character's bytes. |
| `Utf8.ValidUtf8Cons` | src/app/resp.rs:138-139 | A text with an encoded character in front is well-formed exactly when the text is. |
| `Utf8.AsciiIsUtf8` | src/app/resp.rs:138-139 | ASCII text is well-formed UTF-8. |
| `Utf8.ValidUtf8Append` | src/app/resp.rs:138-139 | Two well-formed texts in a row are well-formed. |
| `Utf8.SpaceLenIsWhiteSpace` | src/app/resp.rs:141 | Every whitespace match is one well-formed character whose code point has the White_Space property. |
| `Utf8.SpaceLenEncode` | src/app/resp.rs:141 | A character starts a text with whitespace exactly when its code point has the White_Space property, and then the match is that whole character. |
| `Utf8.SpaceLenEndEncode` | src/app/resp.rs:141 | A character ends a text with whitespace exactly when its code point has the White_Space property, whatever precedes it. |
| `Utf8.SpaceRunIsUtf8` | src/app/resp.rs:138-141 | A run of whitespace is well-formed UTF-8. |
| `Utf8.TrimStart` | src/app/resp.rs:141 | The result is a tail of the text that does not start with whitespace. |
| `Utf8.TrimStartDrops` | src/app/resp.rs:141 | What `TrimStart` drops is whitespace characters only. |
| `Utf8.TrimEnd` | src/app/resp.rs:141 | The result is a head of the text that does not end with whitespace. |
| `Utf8.TrimEndDrops` | src/app/resp.rs:141 | What `TrimEnd` drops is whitespace characters only. |
| `Utf8.Trim` | src/app/resp.rs:141 | The trimmed text neither starts nor ends with whitespace, and a text that does neither is left unchanged. |
| `Utf8.TrimPadding` | src/app/resp.rs:141 | `trim` removes whitespace at either end and nothing else: the result sits inside the text with only whitespace characters before and after it. |
| `Utf8.TrimPadded` | src/app/resp.rs:141 | Whitespace put around a well-formed text that neither starts nor ends with whitespace is exactly what `trim` removes. |
| `RespEncoding.ReadLineFramed` | src/app/resp.rs:66-94 | A line without `'\r'`, followed by `'\r'` and any byte, is read back whole. |
| `RespEncoding.ReadIntegerDecimal` | src/app/resp.rs:134-145 | The decimal text of an `i64`, as a line, reads back as that value cast to `i32`, and as the value itself when it fits in `i32`. |
| `RespEncoding.ReadIntegerPadded` | src/app/resp.rs:134-145 | The decimal text of an `i64` with any Unicode whitespace on either side (other than `'\r'`, which would end the line) reads back as that value cast to `i32`. |
| `RespEncoding.ReadIntegerNoBreakSpace` | src/app/resp.rs:138-144 | The line `C2 A0 31` (a no-break space, then `1`) reads as 1. |
| `RespEncoding.ReadIntegerInvalidUtf8` | src/app/resp.rs:138-139 | The line `FF` is refused with "Invalid UTF-8" before any parsing. |
| `RespEncoding.ReadEmptyArray` | src/app/resp.rs:146-159 | A `'*'` whose count line reads as 0 is an empty array, and nothing after the count line is consumed. |
| `RespEncoding.AnyByteAfterCR` | src/app/resp.rs:79-82 | `*0`, `'\r'`, then any byte, `'\n'` or not, is a complete empty array, and every following byte is left unread. |
| `RespEncoding.CountWrapsToZero` | src/app/resp.rs:144-149 | A count that is a multiple of 2^32, such as 4294967296, passes the size check as 0 and decodes as an empty array. |
| `RespEncoding.ReadEncode` | src/app/resp.rs:96-159 | Round trip: `read` of an encoded value, followed by any bytes, returns that value and leaves exactly those bytes. |
| `RespEncoding.ReadEncodeAll` | src/app/resp.rs:151-155 | Round trip for the element loop: decoding n values from n encoded values returns them in input order. |
| `RespEncoding.ReaderReadsInOrder` | src/app/resp.rs:58-132 | Two calls of `read` on a reader made by `Resp::new` over two encoded values return those values in order and leave the reader on the bytes after them. |
| `RespEncoding.ReadNestedNegativeCount` | src/app/resp.rs:110-153 | An element's error ends the array that holds it: `*1` CRLF followed by the record `*-1` CRLF fails with "Invalid size", whatever follows. |
| `RespEncoding.ReadLineExtends` | src/app/resp.rs:66-94 | A line that was framed is framed the same whatever bytes are appended. |
| `RespEncoding.ReadIntegerExtends` | src/app/resp.rs:134-145 | An integer read that did not run out of input has the same outcome whatever bytes are appended. |
| `RespEncoding.ReadExtends` | src/app/resp.rs:96-132 | A `read` that did not run out of input has the same outcome, value or error, whatever bytes are appended, and leaves those bytes unread. |
| `RespEncoding.ReadStarExtends` | src/app/resp.rs:109-118 | The same, for values introduced by `'*'`. |
| `RespEncoding.ReadArrayExtends` | src/app/resp.rs:146-159 | The same, for `read_array`. |
| `RespEncoding.ReadValuesExtends` | src/app/resp.rs:152-155 | The same, for the element loop. |
| `RespEncoding.ReadLineEofNeedsMore` | src/app/resp.rs:73-83 | A line that ran out of input ends, once more bytes are appended, only after the old end of the input. |
| `RespEncoding.ReadEofNeedsMore` | src/app/resp.rs:102-104 | UnexpectedEof means the input ran out. If appending bytes to an input that gave UnexpectedEof lets `read` finish, value or other error, it has read past the old end. |
| `RespEncoding.ReadStarEofNeedsMore` | src/app/resp.rs:109-118 | The same, for values introduced by `'*'`. |
| `RespEncoding.ReadArrayEofNeedsMore` | src/app/resp.rs:146-159 | The same, for `read_array`. |
| `RespEncoding.ReadValuesEofNeedsMore` | src/app/resp.rs:152-155 | The same, for the element loop. |
| `RespEncoding.ReadOwnBytes` | src/app/resp.rs:96-132 | A `read` that does not run out of input depends only on the bytes it consumes. On exactly those bytes it gives the same outcome and leaves nothing. |
| `RespEncoding.ReadOwnBytesExtends` | src/app/resp.rs:96-132 | The bytes a `read` consumes, followed by any others, give the same outcome and leave exactly those others. |
| `RespEncoding.TruncatedEncodingIsEof` | src/app/resp.rs:76 | Every proper prefix of an encoded value, the empty one included, fails with UnexpectedEof. |
| `Handler.Ping` | src/app/handler.rs:5-13 | The reply is tagged "string" and holds "PONG", with `num == 0`, empty `bulk` and an empty array. |
| `Handler.PingIgnoresArguments` | src/app/handler.rs:5 | The reply is the same for every argument list. |
| `Handler.GetHandler` | src/app/handler.rs:15-20 | A handler is found exactly for the name "PING", and the handler found answers the PONG value for any arguments. Every other name gives None. |
| `Handler.GetHandlerIsCaseSensitive` | src/app/handler.rs:16-18 | "ping" and "Ping" are unknown commands. |
| `Aof.Read` | src/app/aof.rs:57-74 | Replay delivers at most one value per byte of the log. An empty log delivers nothing and gives `Ok(())`. A replay that fails, fails with InvalidData. |
| `Aof.DecodeAll` | src/app/aof.rs:57-62 | A log made only of complete values decodes to at most one value per byte. |
| `Aof.Remainder` | src/app/aof.rs:57-72 | The bytes left after the values a replay delivers are no longer than the log; that they are a tail of it is `Aof.RemainderOutcome`. |
| `Aof.RemainderOutcome` | src/app/aof.rs:57-74 | Replay stops at a tail of the log on which `read` fails. It returns `Ok(())` exactly when that failure is UnexpectedEof, and that failure otherwise. |
| `Aof.DecodeUpToRemainder` | src/app/aof.rs:57-62 | The values a replay delivers are exactly the decoding of the log up to where it stops. |
| `Aof.ReadSplits` | src/app/aof.rs:57-74 | Any log is complete records, whose values are all delivered once and in order, followed by a remainder. `read` fails on the remainder. The replay returns `Ok(())` exactly when that failure is UnexpectedEof, and returns that failure otherwise. |
| `Aof.ReadAfterRecords` | src/app/aof.rs:57-74 | Replaying complete records followed by any bytes first delivers every record's value, once and in order. Then comes exactly what replaying the remaining bytes alone would deliver and return. |
| `Aof.ReadRecords` | src/app/aof.rs:57-74 | A log of complete records replays to exactly their values and `Ok(())`. |
| `Aof.DecodeAllEncodeAll` | src/app/aof.rs:57-62 | A log written by encoding values one after another decodes back to exactly those values. |
| `Aof.TruncatedTailDiscarded` | src/app/aof.rs:63-66 | A log of encoded values ending in a cut-short record replays every complete value and returns `Ok(())`. The partial record is dropped. |
| `Aof.CorruptRecordStops` | src/app/aof.rs:67-70 | A record that fails with anything but UnexpectedEof stops the replay with that error, whatever follows it. The values before it stay delivered. |
| `Aof.NegativeCountRefused` | src/app/resp.rs:149 | The record `*-1\r\n` is refused with InvalidData "Invalid size". |
| `Aof.NegativeCountIsFatal` | src/app/aof.rs:67-70 | After any complete records, a `*-1\r\n` record stops the replay with "Invalid size", whatever follows. |

## Left out

- The server in `src/main.rs` is not modelled. It is a TCP accept loop with a thread per connection and no protocol logic.
- `Aof::new`, `Aof::write` and `Aof::sync` are not modelled. They are file opening, locking, a background `sync_all` thread and seek-to-end writes. `Aof.ReadAfterRecords` covers what an append means for replay: values already in a well-formed log stay the first ones replayed.
- The opening of `Aof::read` is not modelled: taking the lock, seeking to 0 and `read_to_end`. The log's bytes are a parameter, and the I/O errors of those calls are not modelled.
- The callback of `Aof::read` is not modelled as code. The replay returns the sequence of values it would receive.
- Replay being read-only is not stated as a contract. It holds by construction: `Aof.Read` is a pure function of the log's bytes and returns no log.
- The `println!` calls are not modelled: the sizes and bodies in `check_input`, and the unknown-type message in `read`.
- `Resp::new_resp`, whose only call in `read_array` builds an unused reader, is not modelled.
- The allocation in `read_array` (`Vec::with_capacity(count)`) is not modelled. A huge count could abort the process on allocation failure; here it reads elements until one fails.
- The recursion depth of the decoder is not modelled. `read` calls `read_array` for `'*'` (src/app/resp.rs:110), which calls `read` for each element (src/app/resp.rs:153), with no depth limit. So a record of many nested `*1\r\n` headers overflows the Rust stack and aborts the process, while the model decodes it like any other record.
- Behaviour asserted by `tests/resp_tests.rs` and `tests/handler_tests.rs` but absent from the source is not modelled. This covers decoding `'+'`, `':'` and `'$'`, null bulk strings and arrays, an `"array"` type tag, errors for unknown type bytes, and the SET/GET/HSET/HGET/HGETALL handlers.
- `RespEncoding.Encode` is not part of the source. It is a reference encoder, used only to state round-trip and truncation properties.
- Cursor positions are not modelled. A `Step` carries the unread bytes instead.
