/**
 Bytes, the subset of `std::io` error kinds the decoder produces, and the
 result shapes shared by the decoder and the log replay.
 */
module Io {

  /** One octet of the input. */
  type byte = x: int | 0 <= x < 256

  /** A Rust `i32`. */
  type i32 = x: int | -0x8000_0000 <= x <= 0x7fff_ffff

  /** The `std::io::ErrorKind`s that matter here; every other kind is `OtherKind`. */
  datatype ErrorKind = UnexpectedEof | InvalidData | OtherKind

  /** A `std::io::Error`: a kind and its message. */
  datatype IoError = IoError(kind: ErrorKind, msg: string)

  datatype Option<+T> = None | Some(value: T)

  /** `std::io::Result<T>`. */
  datatype Result<+T> = Ok(value: T) | Err(error: IoError) {
    predicate IsEof() {
      Err? && error.kind == UnexpectedEof
    }
  }

  /**
   The outcome of one reader call: what it returned, and the bytes the
   cursor has not yet consumed afterwards (the cursor also moves when the
   call fails, so `rest` is kept on both paths).
   */
  datatype Step<+T> = Step(result: Result<T>, rest: seq<byte>)

  /** `rest` is what remains of `s` after consuming some prefix of it. */
  predicate Suffix(rest: seq<byte>, s: seq<byte>) {
    |rest| <= |s| && s[|s| - |rest|..] == rest
  }

  lemma SuffixRefl(s: seq<byte>)
    ensures Suffix(s, s)
  {
    assert s[|s| - |s|..] == s;
  }

  lemma SuffixTrans(a: seq<byte>, b: seq<byte>, c: seq<byte>)
    requires Suffix(a, b) && Suffix(b, c)
    ensures Suffix(a, c)
  {
    assert c[|c| - |a|..] == c[|c| - |b|..][|b| - |a|..];
  }

  /** A suffix splits its sequence into the consumed prefix and itself. */
  lemma SuffixSplit(rest: seq<byte>, s: seq<byte>)
    requires Suffix(rest, s)
    ensures s == s[..|s| - |rest|] + rest
  {
  }

  /**
   When `rest` is what remains of `s`, cutting `s` after `k` more bytes
   cuts `rest` after `k`.
   */
  lemma SuffixSlices(rest: seq<byte>, s: seq<byte>, k: nat)
    requires Suffix(rest, s) && k <= |rest|
    ensures s[..|s| - |rest| + k] == s[..|s| - |rest|] + rest[..k]
    ensures s[|s| - |rest| + k..] == rest[k..]
  {
    SuffixSplit(rest, s);
  }

  /** Consuming the first byte of `p + q` consumes the first byte of `p`. */
  lemma DropFirstAppend(p: seq<byte>, q: seq<byte>)
    requires |p| > 0
    ensures (p + q)[0] == p[0] && (p + q)[1..] == p[1..] + q
  {
  }

  lemma ConsSplit<T>(s: seq<T>)
    requires |s| > 0
    ensures [s[0]] + s[1..] == s
  {
  }

  lemma AppendAssoc<T>(a: seq<T>, b: seq<T>, c: seq<T>)
    ensures a + (b + c) == (a + b) + c
  {
  }

  /** Dropping a prefix keeps a suffix. */
  lemma SuffixDrop(s: seq<byte>, n: nat)
    requires n <= |s|
    ensures Suffix(s[n..], s)
  {
  }

  /** A head of a tail is a middle slice. */
  lemma DropThenTake<T>(s: seq<T>, n: nat, k: nat)
    requires n + k <= |s|
    ensures s[n..][..|s[n..]| - k] == s[n..|s| - k]
  {
  }

  /** Concatenation with an empty sequence on either side. */
  lemma AppendEmpty<T>(a: seq<T>, b: seq<T>)
    requires a == [] || b == []
    ensures a == [] ==> a + b == b
    ensures b == [] ==> a + b == a
  {
  }

  /** Dropping a prefix of the left operand of a concatenation. */
  lemma DropAppend<T>(a: seq<T>, b: seq<T>, n: nat)
    requires n <= |a|
    ensures (a + b)[n..] == a[n..] + b
  {
  }

  /** Dropping a suffix of the right operand of a concatenation. */
  lemma TakeAppend<T>(a: seq<T>, b: seq<T>, k: nat)
    requires k <= |b|
    ensures (a + b)[..|a + b| - k] == a + b[..|b| - k]
  {
  }

  /** Dropping the first element of a sequence that starts with it. */
  lemma DropHead<T>(x: T, a: seq<T>, b: seq<T>, c: seq<T>)
    ensures ([x] + a + b + c)[1..] == a + b + c
  {
  }

  /** Carriage return and line feed, the line terminator of the protocol. */
  const CR: byte := 13
  const LF: byte := 10

  /** The message `read_exact` gives when the cursor runs out of bytes. */
  const EofMsg: string := "failed to fill whole buffer"

  /** The error `read_exact` returns at the end of the input. */
  const EofError: IoError := IoError(UnexpectedEof, EofMsg)
}
