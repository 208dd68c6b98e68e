/**
 * UTF-8 (section 3 of RFC 3629) as `bytes.decode('utf-8')` applies it: strict
 * decoding that refuses overlong forms, surrogates and values past U+10FFFF, and
 * the encoder it inverts. A Dafny `char` is a Unicode scalar value, which is
 * exactly what a successful decode can produce.
 */
module Utf8 {
  import opened Wrappers

  predicate IsCont(x: Byte) {
    0x80 <= x < 0xC0
  }

  /** The bytes of one scalar value. */
  function EncodeChar(c: char): (b: seq<Byte>)
    ensures 1 <= |b| <= 4
  {
    var n := c as int;
    if n < 0x80 then [n]
    else if n < 0x800 then [0xC0 + n / 64, 0x80 + n % 64]
    else if n < 0x10000 then [0xE0 + n / 4096, 0x80 + n / 64 % 64, 0x80 + n % 64]
    else [0xF0 + n / 262144, 0x80 + n / 4096 % 64, 0x80 + n / 64 % 64, 0x80 + n % 64]
  }

  function Encode(s: string): (b: seq<Byte>)
    ensures |b| >= |s|
  {
    if s == [] then [] else EncodeChar(s[0]) + Encode(s[1..])
  }

  /**
   * The well-formed sequence at the start of `b` (the table in section 4 of RFC 3629),
   * with its scalar value and its length, or None if `b` does not start with one.
   */
  function DecodeFirst(b: seq<Byte>): (r: Option<(char, nat)>)
    requires |b| > 0
    ensures r.Some? ==> 1 <= r.value.1 <= |b| && r.value.1 <= 4
  {
    var b0 := b[0] as int;
    if b0 < 0x80 then Some((b0 as char, 1))
    else if 0xC2 <= b0 <= 0xDF then
      if |b| >= 2 && IsCont(b[1])
      then Some((((b0 - 0xC0) * 64 + (b[1] as int - 0x80)) as char, 2))
      else None
    else if 0xE0 <= b0 <= 0xEF then
      var lo := if b0 == 0xE0 then 0xA0 else 0x80;
      var hi := if b0 == 0xED then 0xA0 else 0xC0;
      if |b| >= 3 && lo <= b[1] < hi && IsCont(b[2])
      then Some((((b0 - 0xE0) * 4096 + (b[1] as int - 0x80) * 64 + (b[2] as int - 0x80)) as char, 3))
      else None
    else if 0xF0 <= b0 <= 0xF4 then
      var lo := if b0 == 0xF0 then 0x90 else 0x80;
      var hi := if b0 == 0xF4 then 0x90 else 0xC0;
      if |b| >= 4 && lo <= b[1] < hi && IsCont(b[2]) && IsCont(b[3])
      then Some((((b0 - 0xF0) * 262144 + (b[1] as int - 0x80) * 4096 + (b[2] as int - 0x80) * 64 + (b[3] as int - 0x80)) as char, 4))
      else None
    else None
  }

  /** Strict decoding: None as soon as some position does not start a well-formed sequence. */
  function Decode(b: seq<Byte>): (r: Option<string>)
    ensures r.Some? ==> |r.value| <= |b|
    ensures r.Some? ==> Encode(r.value) == b
    decreases |b|
  {
    if b == [] then Some([])
    else match DecodeFirst(b)
      case None => None
      case Some((c, k)) =>
        match Decode(b[k..])
        case None => None
        case Some(rest) =>
          DecodeStep(b, rest);
          Some([c] + rest)
  }

  /** A character decoded at the start, followed by characters that re-encode to the remaining bytes, re-encodes to all of them. */
  lemma DecodeStep(b: seq<Byte>, rest: string)
    requires |b| > 0 && DecodeFirst(b).Some?
    requires Encode(rest) == b[DecodeFirst(b).value.1..]
    ensures Encode([DecodeFirst(b).value.0] + rest) == b
  {
    var c, k := DecodeFirst(b).value.0, DecodeFirst(b).value.1;
    EncodeCharDecodeFirst(b);
    assert ([c] + rest)[0] == c && ([c] + rest)[1..] == rest;
    assert b[..k] + b[k..] == b;
  }

  lemma Split64(q: int, r: int)
    requires 0 <= r < 64
    ensures (q * 64 + r) / 64 == q && (q * 64 + r) % 64 == r
  {
  }

  lemma TwoByteForm(n: int)
    requires 0x80 <= n < 0x800
    ensures 0xC2 <= 0xC0 + n / 64 <= 0xDF && 0x80 <= 0x80 + n % 64 < 0xC0
    ensures (n / 64) * 64 + n % 64 == n
  {
  }

  lemma ThreeByteForm(n: int)
    requires 0x800 <= n < 0x10000
    ensures 0xE0 <= 0xE0 + n / 4096 <= 0xEF
    ensures n / 4096 == 0 ==> 0xA0 <= 0x80 + n / 64 % 64
    ensures n / 4096 == 0xD && n < 0xD800 ==> 0x80 + n / 64 % 64 < 0xA0
    ensures (n / 4096) * 4096 + (n / 64 % 64) * 64 + n % 64 == n
  {
    Split64(n / 64, n % 64);
    Split64(n / 4096, n / 64 % 64);
    assert n / 64 / 64 == n / 4096;
  }

  lemma FourByteForm(n: int)
    requires 0x10000 <= n < 0x110000
    ensures 0xF0 <= 0xF0 + n / 262144 <= 0xF4
    ensures n / 262144 == 0 ==> 0x90 <= 0x80 + n / 4096 % 64
    ensures n / 262144 == 4 ==> 0x80 + n / 4096 % 64 < 0x90
    ensures (n / 262144) * 262144 + (n / 4096 % 64) * 4096 + (n / 64 % 64) * 64 + n % 64 == n
  {
    Split64(n / 64, n % 64);
    Split64(n / 4096, n / 64 % 64);
    Split64(n / 262144, n / 4096 % 64);
    assert n / 64 / 64 == n / 4096;
    assert n / 4096 / 64 == n / 262144;
  }

  /** The encoding of a scalar value is read back as that value, whatever follows it. */
  lemma DecodeFirstEncodeChar(c: char, rest: seq<Byte>)
    ensures DecodeFirst(EncodeChar(c) + rest) == Some((c, |EncodeChar(c)|))
  {
    var n := c as int;
    var e := EncodeChar(c);
    var b := e + rest;
    assert b[..|e|] == e;
    if n < 0x80 {
    } else if n < 0x800 {
      TwoByteForm(n);
    } else if n < 0x10000 {
      ThreeByteForm(n);
    } else {
      FourByteForm(n);
    }
  }

  /** Round trip: decoding the encoding of any string gives the string back. */
  lemma {:induction false} DecodeEncode(s: string)
    ensures Decode(Encode(s)) == Some(s)
  {
    if s != [] {
      var e := EncodeChar(s[0]);
      DecodeFirstEncodeChar(s[0], Encode(s[1..]));
      assert (e + Encode(s[1..]))[|e|..] == Encode(s[1..]);
      DecodeEncode(s[1..]);
      assert [s[0]] + s[1..] == s;
    }
  }

  /** A well-formed sequence is the encoding of the value read from it. */
  lemma EncodeCharDecodeFirst(b: seq<Byte>)
    requires |b| > 0 && DecodeFirst(b).Some?
    ensures EncodeChar(DecodeFirst(b).value.0) == b[..DecodeFirst(b).value.1]
  {
    var c := DecodeFirst(b).value.0;
    var n := c as int;
    if b[0] < 0x80 {
    } else if b[0] < 0xE0 {
      Split64(b[0] as int - 0xC0, b[1] as int - 0x80);
    } else if b[0] < 0xF0 {
      Split64((b[0] as int - 0xE0) * 64 + (b[1] as int - 0x80), b[2] as int - 0x80);
      Split64(b[0] as int - 0xE0, b[1] as int - 0x80);
      assert n / 64 == (b[0] as int - 0xE0) * 64 + (b[1] as int - 0x80);
      assert n / 4096 == b[0] as int - 0xE0;
    } else {
      var hi := (b[0] as int - 0xF0) * 64 + (b[1] as int - 0x80);
      Split64(hi * 64 + (b[2] as int - 0x80), b[3] as int - 0x80);
      Split64(hi, b[2] as int - 0x80);
      Split64(b[0] as int - 0xF0, b[1] as int - 0x80);
      assert n / 64 == hi * 64 + (b[2] as int - 0x80);
      assert n / 4096 == hi;
      assert n / 262144 == b[0] as int - 0xF0;
    }
  }

  /** A lone continuation byte is not UTF-8. */
  lemma StrayContinuationRejected()
    ensures Decode([0x80]) == None
  {
  }

  /** The encoded surrogate U+D800 is refused. */
  lemma SurrogateRejected()
    ensures Decode([0xED, 0xA0, 0x80]) == None
  {
  }
}
