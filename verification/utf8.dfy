/**
 The text handling inside `read_integer`: the well-formedness check of
 `std::str::from_utf8`, and the whitespace trimming of `str::trim`, both
 stated on the bytes of the line.

 Well-formed UTF-8 is the table of section 4 of RFC 3629: no overlong
 forms, no surrogates, nothing above U+10FFFF. Whitespace is what
 `char::is_whitespace` accepts: the characters with the Unicode
 White_Space property. `str::trim` removes whole characters; the
 functions below remove the bytes of those characters.
 */
module Utf8 {
  import opened Io

  // ---------------------------------------------------------------------
  // characters

  /** Unicode scalar values: the code points other than the surrogates. */
  predicate IsScalar(cp: int) {
    0 <= cp <= 0x10_FFFF && !(0xD800 <= cp <= 0xDFFF)
  }

  /** A byte that continues a multi-byte character: `10xxxxxx`. */
  predicate IsCont(b: byte) {
    0x80 <= b <= 0xBF
  }

  /** The UTF-8 encoding of a scalar value: six bits per continuation byte, lowest last. */
  function EncodeChar(cp: int): (c: seq<byte>)
    requires IsScalar(cp)
    ensures 1 <= |c| <= 4
  {
    if cp < 0x80 then [cp]
    else if cp < 0x800 then [0xC0 + cp / 0x40, 0x80 + cp % 0x40]
    else if cp < 0x1_0000 then [0xE0 + cp / 0x40 / 0x40, 0x80 + cp / 0x40 % 0x40, 0x80 + cp % 0x40]
    else [0xF0 + cp / 0x40 / 0x40 / 0x40, 0x80 + cp / 0x40 / 0x40 % 0x40, 0x80 + cp / 0x40 % 0x40, 0x80 + cp % 0x40]
  }

  /** The code point held by the bytes of one character. */
  function DecodeChar(c: seq<byte>): int
    requires 1 <= |c| <= 4
  {
    if |c| == 1 then c[0]
    else if |c| == 2 then (c[0] as int - 0xC0) * 0x40 + (c[1] as int - 0x80)
    else if |c| == 3 then (c[0] as int - 0xE0) * 0x1000 + (c[1] as int - 0x80) * 0x40 + (c[2] as int - 0x80)
    else (c[0] as int - 0xF0) * 0x4_0000 + (c[1] as int - 0x80) * 0x1000 + (c[2] as int - 0x80) * 0x40 + (c[3] as int - 0x80)
  }

  /**
   The length of the well-formed character that starts `s`, or 0 when `s`
   does not start with one.
   */
  function CharLen(s: seq<byte>): (n: nat)
    ensures n <= 4 && n <= |s|
  {
    if |s| == 0 then 0
    else if s[0] < 0x80 then 1
    else if 0xC2 <= s[0] <= 0xDF then
      if |s| >= 2 && IsCont(s[1]) then 2 else 0
    else if 0xE0 <= s[0] <= 0xEF then
      var lo := if s[0] == 0xE0 then 0xA0 else 0x80;
      var hi := if s[0] == 0xED then 0x9F else 0xBF;
      if |s| >= 3 && lo <= s[1] <= hi && IsCont(s[2]) then 3 else 0
    else if 0xF0 <= s[0] <= 0xF4 then
      var lo := if s[0] == 0xF0 then 0x90 else 0x80;
      var hi := if s[0] == 0xF4 then 0x8F else 0xBF;
      if |s| >= 4 && lo <= s[1] <= hi && IsCont(s[2]) && IsCont(s[3]) then 4 else 0
    else 0
  }

  /** Only the first `CharLen(a)` bytes decide the first character. */
  lemma CharLenAppend(a: seq<byte>, b: seq<byte>)
    requires CharLen(a) > 0
    ensures CharLen(a + b) == CharLen(a) && (a + b)[..CharLen(a)] == a[..CharLen(a)]
  {
    assert forall i :: 0 <= i < |a| ==> (a + b)[i] == a[i];
  }

  /** Every scalar value's encoding is one well-formed character, whatever follows it, and holds that value. */
  lemma EncodeCharLen(cp: int, t: seq<byte>)
    requires IsScalar(cp)
    ensures CharLen(EncodeChar(cp) + t) == |EncodeChar(cp)|
    ensures DecodeChar(EncodeChar(cp)) == cp
  {
    var c := EncodeChar(cp);
    if cp < 0x80 {
    } else if cp < 0x800 {
      EncodeChar2(cp);
    } else if cp < 0x1_0000 {
      EncodeChar3(cp);
    } else {
      EncodeChar4(cp);
    }
    CharLenAppend(c, t);
  }

  lemma EncodeChar2(cp: int)
    requires 0x80 <= cp < 0x800
    ensures CharLen(EncodeChar(cp)) == 2 && DecodeChar(EncodeChar(cp)) == cp
  {
    var q1, r0 := cp / 0x40, cp % 0x40;
    assert cp == q1 * 0x40 + r0;
  }

  lemma EncodeChar3(cp: int)
    requires IsScalar(cp) && 0x800 <= cp < 0x1_0000
    ensures CharLen(EncodeChar(cp)) == 3 && DecodeChar(EncodeChar(cp)) == cp
  {
    var q1, r0 := cp / 0x40, cp % 0x40;
    var q2, r1 := q1 / 0x40, q1 % 0x40;
    assert cp == q1 * 0x40 + r0 && q1 == q2 * 0x40 + r1;
    assert EncodeChar(cp) == [0xE0 + q2, 0x80 + r1, 0x80 + r0];
  }

  lemma EncodeChar4(cp: int)
    requires IsScalar(cp) && 0x1_0000 <= cp
    ensures CharLen(EncodeChar(cp)) == 4 && DecodeChar(EncodeChar(cp)) == cp
  {
    var q1, r0 := cp / 0x40, cp % 0x40;
    var q2, r1 := q1 / 0x40, q1 % 0x40;
    var q3, r2 := q2 / 0x40, q2 % 0x40;
    assert cp == q1 * 0x40 + r0 && q1 == q2 * 0x40 + r1 && q2 == q3 * 0x40 + r2;
    assert EncodeChar(cp) == [0xF0 + q3, 0x80 + r2, 0x80 + r1, 0x80 + r0];
  }

  /** Every well-formed character is the encoding of the scalar value it holds. */
  lemma DecodeCharLen(s: seq<byte>)
    requires CharLen(s) > 0
    ensures var c := s[..CharLen(s)]; IsScalar(DecodeChar(c)) && EncodeChar(DecodeChar(c)) == c
  {
    var c := s[..CharLen(s)];
    assert CharLen(c) == |c| by {
      assert s == c + s[|c|..];
      CharLenAppend(c, s[|c|..]);
    }
    if |c| == 2 {
      DecodeChar2(c);
    } else if |c| == 3 {
      DecodeChar3(c);
    } else if |c| == 4 {
      DecodeChar4(c);
    }
  }

  lemma DecodeChar2(c: seq<byte>)
    requires |c| == 2 && CharLen(c) == 2
    ensures IsScalar(DecodeChar(c)) && EncodeChar(DecodeChar(c)) == c
  {
    var cp := DecodeChar(c);
    assert cp / 0x40 == c[0] as int - 0xC0 && cp % 0x40 == c[1] as int - 0x80;
  }

  lemma DecodeChar3(c: seq<byte>)
    requires |c| == 3 && CharLen(c) == 3
    ensures IsScalar(DecodeChar(c)) && EncodeChar(DecodeChar(c)) == c
  {
    var cp := DecodeChar(c);
    var q1 := cp / 0x40;
    assert q1 == (c[0] as int - 0xE0) * 0x40 + (c[1] as int - 0x80) && cp % 0x40 == c[2] as int - 0x80;
    assert q1 / 0x40 == c[0] as int - 0xE0 && q1 % 0x40 == c[1] as int - 0x80;
  }

  lemma DecodeChar4(c: seq<byte>)
    requires |c| == 4 && CharLen(c) == 4
    ensures IsScalar(DecodeChar(c)) && EncodeChar(DecodeChar(c)) == c
  {
    var cp := DecodeChar(c);
    var q1 := cp / 0x40;
    var q2 := q1 / 0x40;
    assert q1 == ((c[0] as int - 0xF0) * 0x40 + (c[1] as int - 0x80)) * 0x40 + (c[2] as int - 0x80) && cp % 0x40 == c[3] as int - 0x80;
    assert q2 == (c[0] as int - 0xF0) * 0x40 + (c[1] as int - 0x80) && q1 % 0x40 == c[2] as int - 0x80;
    assert q2 / 0x40 == c[0] as int - 0xF0 && q2 % 0x40 == c[1] as int - 0x80;
  }

  /** Only the bytes of the first character decide it, whatever follows them. */
  lemma CharLenPrefix(s: seq<byte>, m: nat)
    requires 0 < CharLen(s) <= m <= |s|
    ensures CharLen(s[..m]) == CharLen(s) && s[..m][..CharLen(s)] == s[..CharLen(s)]
  {
    assert forall i :: 0 <= i < m ==> s[..m][i] == s[i];
  }

  // ---------------------------------------------------------------------
  // std::str::from_utf8

  /** `std::str::from_utf8` accepts `s`: it is a run of well-formed characters. */
  predicate ValidUtf8(s: seq<byte>)
    decreases |s|
  {
    |s| == 0 || (CharLen(s) > 0 && ValidUtf8(s[CharLen(s)..]))
  }

  predicate IsAscii(s: seq<byte>) {
    forall i :: 0 <= i < |s| ==> s[i] < 0x80
  }

  /** A character in front of a text is well-formed exactly when the text is. */
  lemma ValidUtf8Cons(cp: int, t: seq<byte>)
    requires IsScalar(cp)
    ensures ValidUtf8(EncodeChar(cp) + t) <==> ValidUtf8(t)
  {
    EncodeCharLen(cp, t);
    assert (EncodeChar(cp) + t)[|EncodeChar(cp)|..] == t;
  }

  /** ASCII text is well-formed UTF-8. */
  lemma {:induction false} AsciiIsUtf8(s: seq<byte>)
    requires IsAscii(s)
    decreases |s|
    ensures ValidUtf8(s)
  {
    if |s| > 0 {
      AsciiIsUtf8(s[1..]);
    }
  }

  /** Well-formed text followed by well-formed text is well-formed. */
  lemma {:induction false} ValidUtf8Append(a: seq<byte>, b: seq<byte>)
    requires ValidUtf8(a) && ValidUtf8(b)
    decreases |a|
    ensures ValidUtf8(a + b)
  {
    if |a| > 0 {
      var n := CharLen(a);
      CharLenAppend(a, b);
      ValidUtf8Append(a[n..], b);
      DropAppend(a, b, n);
    } else {
      AppendEmpty(a, b);
    }
  }

  // ---------------------------------------------------------------------
  // whitespace

  /**
   `char::is_whitespace`, the Unicode White_Space property: tab, LF, VT,
   FF, CR, space, U+0085, U+00A0, U+1680, U+2000 to U+200A, U+2028,
   U+2029, U+202F, U+205F and U+3000.
   */
  predicate IsWhiteSpace(cp: int) {
    9 <= cp <= 13 || cp == 0x20 || cp == 0x85 || cp == 0xA0 || cp == 0x1680
    || 0x2000 <= cp <= 0x200A || cp == 0x2028 || cp == 0x2029 || cp == 0x202F
    || cp == 0x205F || cp == 0x3000
  }

  /** The one-byte White_Space characters: tab, LF, VT, FF, CR, space. */
  predicate IsSpace1(b0: byte) {
    9 <= b0 <= 13 || b0 == 0x20
  }

  /** The two-byte White_Space characters: U+0085, U+00A0. */
  predicate IsSpace2(b0: byte, b1: byte) {
    b0 == 0xC2 && (b1 == 0x85 || b1 == 0xA0)
  }

  /** The three-byte White_Space characters: U+1680, U+2000 to U+200A, U+2028, U+2029, U+202F, U+205F, U+3000. */
  predicate IsSpace3(b0: byte, b1: byte, b2: byte) {
    (b0 == 0xE1 && b1 == 0x9A && b2 == 0x80)
    || (b0 == 0xE2 && b1 == 0x80 && (0x80 <= b2 <= 0x8A || b2 == 0xA8 || b2 == 0xA9 || b2 == 0xAF))
    || (b0 == 0xE2 && b1 == 0x81 && b2 == 0x9F)
    || (b0 == 0xE3 && b1 == 0x80 && b2 == 0x80)
  }

  /**
   The length of the whitespace character that starts `s`, or 0 when `s`
   starts with anything else. No White_Space character needs four bytes.
   */
  function SpaceLen(s: seq<byte>): nat {
    if |s| >= 1 && IsSpace1(s[0]) then 1
    else if |s| >= 2 && IsSpace2(s[0], s[1]) then 2
    else if |s| >= 3 && IsSpace3(s[0], s[1], s[2]) then 3
    else 0
  }

  /**
   The length of the whitespace character that ends `s`, or 0 when `s`
   ends with anything else. Every whitespace encoding starts with a byte
   that cannot continue a character, so in well-formed text a match on the
   last bytes is the last character.
   */
  function SpaceLenEnd(s: seq<byte>): nat {
    if |s| >= 1 && IsSpace1(s[|s| - 1]) then 1
    else if |s| >= 2 && IsSpace2(s[|s| - 2], s[|s| - 1]) then 2
    else if |s| >= 3 && IsSpace3(s[|s| - 3], s[|s| - 2], s[|s| - 1]) then 3
    else 0
  }

  /** `s` is nothing but whitespace characters. */
  predicate SpaceRun(s: seq<byte>)
    decreases |s|
  {
    |s| == 0 || (SpaceLen(s) > 0 && SpaceRun(s[SpaceLen(s)..]))
  }

  /** Every whitespace match is one well-formed character whose code point is White_Space. */
  lemma SpaceLenIsWhiteSpace(s: seq<byte>)
    requires SpaceLen(s) > 0
    ensures CharLen(s) == SpaceLen(s) && IsWhiteSpace(DecodeChar(s[..SpaceLen(s)]))
  {
  }

  /** A character starts a text with whitespace exactly when its code point is White_Space. */
  lemma SpaceLenEncode(cp: int, t: seq<byte>)
    requires IsScalar(cp)
    ensures SpaceLen(EncodeChar(cp) + t) == (if IsWhiteSpace(cp) then |EncodeChar(cp)| else 0)
  {
    var c := EncodeChar(cp);
    EncodeCharLen(cp, t);
    assert (c + t)[..|c|] == c;
    if SpaceLen(c + t) > 0 {
      SpaceLenIsWhiteSpace(c + t);
    }
  }

  /** A character ends a text with whitespace exactly when its code point is White_Space, whatever precedes it. */
  lemma SpaceLenEndEncode(d: seq<byte>, cp: int)
    requires IsScalar(cp)
    ensures SpaceLenEnd(d + EncodeChar(cp)) == (if IsWhiteSpace(cp) then |EncodeChar(cp)| else 0)
  {
    var c := EncodeChar(cp);
    var s := d + c;
    EncodeCharLen(cp, []);
    assert c + [] == c;
    assert s[|s| - 1] == c[|c| - 1];
    if |c| >= 2 {
      assert s[|s| - 2] == c[|c| - 2];
    }
    if |c| >= 3 {
      assert s[|s| - 3] == c[|c| - 3];
    }
    SpaceLenEncode(cp, []);
  }

  /** The whitespace character at the start of a text is the same once more bytes follow. */
  lemma SpaceLenAppend(a: seq<byte>, b: seq<byte>)
    requires SpaceLen(a) > 0 || CharLen(a) > 0
    ensures SpaceLen(a + b) == SpaceLen(a)
  {
    if CharLen(a) > 0 {
      CharLenAppend(a, b);
    }
    assert forall i :: 0 <= i < |a| ==> (a + b)[i] == a[i];
  }

  /** Cutting a text short does not create or change the whitespace character at its start. */
  lemma SpaceLenPrefix(s: seq<byte>, m: nat)
    requires SpaceLen(s) <= m <= |s|
    ensures SpaceLen(s[..m]) == SpaceLen(s)
  {
    assert forall i :: 0 <= i < m ==> s[..m][i] == s[i];
  }

  /** A whitespace character at the end of `d + c`, for a whitespace character `c`, is `c`. */
  lemma SpaceLenEndOf(d: seq<byte>, c: seq<byte>)
    requires 0 < SpaceLen(c) == |c|
    ensures SpaceLenEnd(d + c) == |c| && (d + c)[|d + c| - |c|..] == c
  {
    var s := d + c;
    assert s[|s| - 1] == c[|c| - 1];
    if |c| >= 2 {
      assert s[|s| - 2] == c[|c| - 2];
    }
    if |c| >= 3 {
      assert s[|s| - 3] == c[|c| - 3];
    }
    assert s[|s| - |c|..] == c;
  }

  /** A whitespace character followed by whitespace is whitespace. */
  lemma SpaceRunCons(t: seq<byte>, m: nat)
    requires 0 < SpaceLen(t) <= m <= |t| && SpaceRun(t[SpaceLen(t)..m])
    ensures SpaceRun(t[..m])
  {
    var n := SpaceLen(t);
    SpaceLenPrefix(t, m);
    assert t[..m][n..] == t[n..m];
  }

  lemma {:induction false} SpaceRunAppend(a: seq<byte>, b: seq<byte>)
    requires SpaceRun(a) && SpaceRun(b)
    decreases |a|
    ensures SpaceRun(a + b)
  {
    if |a| > 0 {
      var n := SpaceLen(a);
      SpaceLenAppend(a, b);
      DropAppend(a, b, n);
      SpaceRunAppend(a[n..], b);
    } else {
      AppendEmpty(a, b);
    }
  }

  /** Whitespace is well-formed text. */
  lemma {:induction false} SpaceRunIsUtf8(s: seq<byte>)
    requires SpaceRun(s)
    decreases |s|
    ensures ValidUtf8(s)
  {
    if |s| > 0 {
      SpaceLenIsWhiteSpace(s);
      SpaceRunIsUtf8(s[SpaceLen(s)..]);
    }
  }

  /** The whitespace character that ends `t`, after more whitespace, extends that whitespace. */
  lemma SpaceRunSnoc(t: seq<byte>, m: nat)
    requires 0 < SpaceLenEnd(t) && m <= |t| - SpaceLenEnd(t)
    requires SpaceRun(t[m..|t| - SpaceLenEnd(t)])
    ensures SpaceRun(t[m..])
  {
    var n := SpaceLenEnd(t);
    var c := t[|t| - n..];
    assert SpaceLen(c) == n;
    assert SpaceRun(c) by {
      assert c[n..] == [];
    }
    SpaceRunAppend(t[m..|t| - n], c);
    assert t[m..] == t[m..|t| - n] + c;
  }

  /**
   Text that is all whitespace, after any bytes `d`, ends in a whitespace
   character of its own; what precedes that character is whitespace too.
   */
  lemma {:induction false} SpaceRunEnd(d: seq<byte>, b: seq<byte>)
    requires SpaceRun(b) && |b| > 0
    decreases |b|
    ensures 0 < SpaceLenEnd(d + b) <= |b| && SpaceRun(b[..|b| - SpaceLenEnd(d + b)])
  {
    var n := SpaceLen(b);
    if n == |b| {
      SpaceRunEndLast(d, b);
    } else {
      var c, rest := b[..n], b[n..];
      SpaceRunEnd(d + c, rest);
      SpaceRunEndStep(d, b, c, rest, SpaceLenEnd((d + c) + rest));
    }
  }

  /** `SpaceRunEnd` when `b` is a single whitespace character. */
  lemma SpaceRunEndLast(d: seq<byte>, b: seq<byte>)
    requires 0 < SpaceLen(b) == |b|
    ensures SpaceLenEnd(d + b) == |b| && SpaceRun(b[..|b| - SpaceLenEnd(d + b)])
  {
    SpaceLenEndOf(d, b);
    assert b[..0] == [];
  }

  /** `SpaceRunEnd` for `b` = `c + rest`, from its result for `rest` after `d + c`. */
  lemma SpaceRunEndStep(d: seq<byte>, b: seq<byte>, c: seq<byte>, rest: seq<byte>, k: nat)
    requires 0 < SpaceLen(b) && c == b[..SpaceLen(b)] && rest == b[SpaceLen(b)..]
    requires k == SpaceLenEnd((d + c) + rest) && 0 < k <= |rest| && SpaceRun(rest[..|rest| - k])
    ensures 0 < SpaceLenEnd(d + b) <= |b| && SpaceRun(b[..|b| - SpaceLenEnd(d + b)])
  {
    assert b == c + rest;
    AppendAssoc(d, c, rest);
    SpaceRunChar(b);
    SpaceRunAppend(c, rest[..|rest| - k]);
    TakeAppend(c, rest, k);
  }

  /** The whitespace character that starts a text is whitespace on its own. */
  lemma SpaceRunChar(b: seq<byte>)
    requires 0 < SpaceLen(b)
    ensures SpaceRun(b[..SpaceLen(b)])
  {
    var n := SpaceLen(b);
    SpaceLenPrefix(b, n);
    assert b[..n][n..] == [];
  }

  // ---------------------------------------------------------------------
  // str::trim

  /** `str::trim_start`: drops the whitespace characters at the start. */
  function TrimStart(t: seq<byte>): (r: seq<byte>)
    decreases |t|
    ensures Suffix(r, t) && SpaceLen(r) == 0
  {
    var n := SpaceLen(t);
    if n > 0 then
      var r := TrimStart(t[n..]);
      SuffixDrop(t, n);
      SuffixTrans(r, t[n..], t);
      r
    else
      SuffixRefl(t);
      t
  }

  /** What `TrimStart` drops is whitespace. */
  lemma {:induction false} TrimStartDrops(t: seq<byte>)
    decreases |t|
    ensures SpaceRun(t[..|t| - |TrimStart(t)|])
  {
    var n := SpaceLen(t);
    if n > 0 {
      var r := TrimStart(t[n..]);
      TrimStartDrops(t[n..]);
      TrimStartStep(t, t[n..]);
      DropThenTake(t, n, |r|);
      SpaceRunCons(t, |t| - |r|);
    } else {
      assert |t[..|t| - |TrimStart(t)|]| == 0;
    }
  }

  /** `str::trim_end`: drops the whitespace characters at the end. */
  function TrimEnd(t: seq<byte>): (r: seq<byte>)
    decreases |t|
    ensures |r| <= |t| && r == t[..|r|] && SpaceLenEnd(r) == 0
  {
    var n := SpaceLenEnd(t);
    if n > 0 then TrimEnd(t[..|t| - n]) else t
  }

  /** What `TrimEnd` drops is whitespace. */
  lemma {:induction false} TrimEndDrops(t: seq<byte>)
    decreases |t|
    ensures SpaceRun(t[|TrimEnd(t)|..])
  {
    var n := SpaceLenEnd(t);
    if n > 0 {
      var r := TrimEnd(t[..|t| - n]);
      TrimEndDrops(t[..|t| - n]);
      TrimEndStep(t, t[..|t| - n]);
      assert t[..|t| - n][|r|..] == t[|r|..|t| - n];
      SpaceRunSnoc(t, |r|);
    } else {
      assert |t[|TrimEnd(t)|..]| == 0;
    }
  }

  /**
   `str::trim`: the text between the whitespace at the start and the
   whitespace at the end. It neither starts nor ends with whitespace, and
   text that does neither is left alone; `TrimPadding` says what is
   removed.
   */
  function Trim(t: seq<byte>): (r: seq<byte>)
    ensures SpaceLen(r) == 0 && SpaceLenEnd(r) == 0
    ensures SpaceLen(t) == 0 && SpaceLenEnd(t) == 0 ==> r == t
  {
    var u := TrimStart(t);
    var r := TrimEnd(u);
    SpaceLenPrefix(u, |r|);
    r
  }

  /** `r` sits in `t` at offset `i`, with nothing but whitespace before and after it. */
  predicate Padded(t: seq<byte>, i: int, r: seq<byte>) {
    0 <= i <= |t| - |r| && r == t[i..i + |r|] && SpaceRun(t[..i]) && SpaceRun(t[i + |r|..])
  }

  /** `trim` removes whitespace at either end and nothing else. */
  lemma TrimPadding(t: seq<byte>)
    ensures exists i :: Padded(t, i, Trim(t))
  {
    var u := TrimStart(t);
    var r := TrimEnd(u);
    TrimStartDrops(t);
    TrimEndDrops(u);
    SplitAround(t, u, r);
    assert Trim(t) == r;
  }

  /** Whitespace, then `r`, then whitespace, when `u` is a tail of `t` and `r` a head of `u`. */
  lemma SplitAround(t: seq<byte>, u: seq<byte>, r: seq<byte>)
    requires Suffix(u, t) && SpaceRun(t[..|t| - |u|]) && SpaceLen(u) == 0
    requires |r| <= |u| && r == u[..|r|] && SpaceRun(u[|r|..])
    ensures Padded(t, |t| - |u|, r) && SpaceLen(r) == 0
  {
    var i := |t| - |u|;
    assert t[i + |r|..] == u[|r|..];
    SpaceLenPrefix(u, |r|);
  }

  /** One step of `TrimStart`: a leading whitespace character goes. */
  lemma TrimStartStep(t: seq<byte>, x: seq<byte>)
    requires 0 < SpaceLen(t) && t[SpaceLen(t)..] == x
    ensures TrimStart(t) == TrimStart(x)
  {
  }

  /** One step of `TrimEnd`: a trailing whitespace character goes. */
  lemma TrimEndStep(t: seq<byte>, x: seq<byte>)
    requires 0 < SpaceLenEnd(t) && t[..|t| - SpaceLenEnd(t)] == x
    ensures TrimEnd(t) == TrimEnd(x)
  {
  }

  /** All-whitespace text trims to nothing from the start. */
  lemma {:induction false} TrimStartRun(a: seq<byte>)
    requires SpaceRun(a)
    decreases |a|
    ensures TrimStart(a) == []
  {
    if |a| > 0 {
      TrimStartRun(a[SpaceLen(a)..]);
    }
  }

  /** Whitespace in front of a text that starts with anything else is exactly what `trim_start` drops. */
  lemma {:induction false} TrimStartPadded(a: seq<byte>, u: seq<byte>)
    requires SpaceRun(a) && CharLen(u) > 0 && SpaceLen(u) == 0
    decreases |a|
    ensures TrimStart(a + u) == u
  {
    if |a| > 0 {
      var n := SpaceLen(a);
      SpaceLenAppend(a, u);
      DropAppend(a, u, n);
      TrimStartPadded(a[n..], u);
    } else {
      AppendEmpty(a, u);
    }
  }

  /** Whitespace after a text that ends with anything else is exactly what `trim_end` drops. */
  lemma {:induction false} TrimEndPadded(u: seq<byte>, b: seq<byte>)
    requires SpaceRun(b) && SpaceLenEnd(u) == 0
    decreases |b|
    ensures TrimEnd(u + b) == u
  {
    if |b| > 0 {
      SpaceRunEnd(u, b);
      var k := SpaceLenEnd(u + b);
      TakeAppend(u, b, k);
      TrimEndStep(u + b, u + b[..|b| - k]);
      TrimEndPadded(u, b[..|b| - k]);
    } else {
      AppendEmpty(u, b);
    }
  }

  /**
   `trim` inverts padding: whitespace around a well-formed text that
   neither starts nor ends with whitespace is removed, and only that.
   */
  lemma TrimPadded(a: seq<byte>, m: seq<byte>, b: seq<byte>)
    requires SpaceRun(a) && SpaceRun(b)
    requires ValidUtf8(m) && SpaceLen(m) == 0 && SpaceLenEnd(m) == 0
    ensures Trim(a + m + b) == m
  {
    if |m| > 0 {
      TrimPaddedSome(a, m, b);
    } else {
      TrimPaddedNone(a, m, b);
    }
  }

  lemma TrimPaddedSome(a: seq<byte>, m: seq<byte>, b: seq<byte>)
    requires SpaceRun(a) && SpaceRun(b)
    requires |m| > 0 && ValidUtf8(m) && SpaceLen(m) == 0 && SpaceLenEnd(m) == 0
    ensures Trim(a + m + b) == m
  {
    SpaceLenAppend(m, b);
    AppendAssoc(a, m, b);
    TrimStartPadded(a, m + b);
    TrimEndPadded(m, b);
  }

  lemma TrimPaddedNone(a: seq<byte>, m: seq<byte>, b: seq<byte>)
    requires SpaceRun(a) && SpaceRun(b) && m == []
    ensures Trim(a + m + b) == m
  {
    assert a + m == a;
    SpaceRunAppend(a, b);
    TrimStartRun(a + b);
  }
}
