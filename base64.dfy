/**
 * Base64 (section 4 of RFC 4648) as the authenticator uses it: the standard
 * padded encoder, and the decoder that a call to `base64.b64decode(s)` without
 * `validate=True` runs. That decoder first requires `s` to be ASCII, then reads it
 * one character at a time: characters outside the alphabet are skipped, a pad
 * character only counts once two data characters of a quantum have been seen, a
 * complete padding ends the input, and input that stops in the middle of a
 * quantum is an error.
 */
module Base64 {
  import opened Wrappers

  /** The character that stands for the sextet `v`. */
  function SextetChar(v: int): (c: char)
    requires 0 <= v < 64
  {
    if v < 26 then ('A' as int + v) as char
    else if v < 52 then ('a' as int + v - 26) as char
    else if v < 62 then ('0' as int + v - 52) as char
    else if v == 62 then '+'
    else '/'
  }

  /** The sextet a character stands for, or 64 for a character outside the alphabet. */
  function SextetValue(c: char): (v: int)
    ensures 0 <= v <= 64
    ensures v < 64 ==> SextetChar(v) == c
    ensures c == '=' ==> v == 64
  {
    if 'A' <= c <= 'Z' then c as int - 'A' as int
    else if 'a' <= c <= 'z' then c as int - 'a' as int + 26
    else if '0' <= c <= '9' then c as int - '0' as int + 52
    else if c == '+' then 62
    else if c == '/' then 63
    else 64
  }

  /** Reading back the character of a sextet gives the sextet. */
  lemma SextetRoundTrip(v: int)
    requires 0 <= v < 64
    ensures SextetValue(SextetChar(v)) == v
    ensures SextetChar(v) as int < 128 && SextetChar(v) != '='
  {
  }

  /** Standard padded encoding: every three octets become four characters. */
  function Encode(b: seq<Byte>): string
  {
    if |b| == 0 then ""
    else if |b| == 1 then
      [SextetChar(b[0] / 4), SextetChar(b[0] % 4 * 16), '=', '=']
    else if |b| == 2 then
      [SextetChar(b[0] / 4), SextetChar(b[0] % 4 * 16 + b[1] / 16), SextetChar(b[1] % 16 * 4), '=']
    else if |b| == 3 then
      [SextetChar(b[0] / 4), SextetChar(b[0] % 4 * 16 + b[1] / 16),
       SextetChar(b[1] % 16 * 4 + b[2] / 64), SextetChar(b[2] % 64)]
    else
      Encode(b[..3]) + Encode(b[3..])
  }

  /** Four characters for every started group of three octets. */
  lemma {:induction false} EncodeLength(b: seq<Byte>)
    ensures |Encode(b)| == (|b| + 2) / 3 * 4
  {
    if |b| > 3 {
      EncodeLength(b[..3]);
      EncodeLength(b[3..]);
    }
  }

  predicate IsAscii(s: string) {
    forall i :: 0 <= i < |s| ==> s[i] as int < 128
  }

  /**
   * The bits still owed by a partly read quantum: after one data character six
   * bits are pending, after two four bits, after three two bits.
   */
  predicate PendingFits(quad: int, left: int) {
    0 <= quad < 4 && 0 <= left &&
    (quad == 0 ==> left == 0) &&
    (quad == 1 ==> left < 64) &&
    (quad == 2 ==> left < 16) &&
    (quad == 3 ==> left < 4)
  }

  /**
   * The decoder loop. `quad` is the position in the current quantum, `left` the
   * pending bits, `pads` the pad characters counted since the last data
   * character, `acc` the octets produced so far.
   */
  function Run(s: string, quad: int, left: int, pads: nat, acc: seq<Byte>): (r: Option<seq<Byte>>)
    requires PendingFits(quad, left)
    ensures r.Some? ==> acc <= r.value
    decreases |s|
  {
    if s == [] then
      // input ending inside a quantum: one character too many, or incorrect padding
      if quad == 0 then Some(acc) else None
    else if s[0] == '=' then
      if quad >= 2 && quad + pads + 1 >= 4 then Some(acc)
      else if quad >= 2 then Run(s[1..], quad, left, pads + 1, acc)
      else Run(s[1..], quad, left, pads, acc)
    else
      var v := SextetValue(s[0]);
      if v == 64 then Run(s[1..], quad, left, pads, acc)
      else if quad == 0 then Run(s[1..], 1, v, 0, acc)
      else if quad == 1 then Run(s[1..], 2, v % 16, 0, acc + [left * 4 + v / 16])
      else if quad == 2 then Run(s[1..], 3, v % 4, 0, acc + [left * 16 + v / 4])
      else Run(s[1..], 0, 0, 0, acc + [left * 64 + v])
  }

  /** `b64decode` on a string: None where Python raises (non-ASCII text, bad length or padding). */
  function Decode(s: string): (r: Option<seq<Byte>>)
    ensures !IsAscii(s) ==> r.None?
  {
    if IsAscii(s) then Run(s, 0, 0, 0, []) else None
  }

  /** The encoding uses only alphabet characters and `=`, all of them ASCII. */
  lemma {:induction false} EncodeIsAscii(b: seq<Byte>)
    ensures IsAscii(Encode(b))
  {
    if |b| > 3 {
      EncodeIsAscii(b[..3]);
      EncodeIsAscii(b[3..]);
    } else if |b| == 3 {
      SextetRoundTrip(b[0] / 4);
      SextetRoundTrip(b[0] % 4 * 16 + b[1] / 16);
      SextetRoundTrip(b[1] % 16 * 4 + b[2] / 64);
      SextetRoundTrip(b[2] % 64);
    } else if |b| == 2 {
      SextetRoundTrip(b[0] / 4);
      SextetRoundTrip(b[0] % 4 * 16 + b[1] / 16);
      SextetRoundTrip(b[1] % 16 * 4);
    } else if |b| == 1 {
      SextetRoundTrip(b[0] / 4);
      SextetRoundTrip(b[0] % 4 * 16);
    }
  }

  /** Splitting three octets into sextets and joining them back gives the octets again. */
  lemma SextetSplitJoin(x: Byte, y: Byte, z: Byte)
    ensures (x / 4) * 4 + (x % 4 * 16 + y / 16) / 16 == x
    ensures (x % 4 * 16 + y / 16) % 16 == y / 16
    ensures (y / 16) * 16 + (y % 16 * 4 + z / 64) / 4 == y
    ensures (y % 16 * 4 + z / 64) % 4 == z / 64
    ensures (z / 64) * 64 + z % 64 == z
  {
  }

  /** Reading one full quantum from the start of a quantum emits its three octets. */
  lemma FullQuantum(b: seq<Byte>, rest: string, acc: seq<Byte>)
    requires |b| >= 3
    ensures Run(Encode(b[..3]) + rest, 0, 0, 0, acc) == Run(rest, 0, 0, 0, acc + b[..3])
  {
    var x, y, z := b[0], b[1], b[2];
    var v0, v1, v2, v3 := x / 4, x % 4 * 16 + y / 16, y % 16 * 4 + z / 64, z % 64;
    SextetRoundTrip(v0); SextetRoundTrip(v1); SextetRoundTrip(v2); SextetRoundTrip(v3);
    SextetSplitJoin(x, y, z);
    assert b[..3][3..] == [];
    var s := Encode(b[..3]) + rest;
    assert s == [SextetChar(v0), SextetChar(v1), SextetChar(v2), SextetChar(v3)] + rest;
    assert s[1..][1..][1..][1..] == rest;
    calc {
      Run(s, 0, 0, 0, acc);
      Run(s[1..], 1, v0, 0, acc);
      Run(s[1..][1..], 2, v1 % 16, 0, acc + [x]);
      Run(s[1..][1..][1..], 3, v2 % 4, 0, acc + [x] + [y]);
      Run(rest, 0, 0, 0, acc + [x] + [y] + [z]);
    }
    assert acc + [x] + [y] + [z] == acc + b[..3];
  }

  /**
   * Decoding the encoding of the last one or two octets emits them and stops at
   * the padding, whatever follows it.
   */
  lemma {:induction false} LastQuantum(b: seq<Byte>, rest: string, acc: seq<Byte>)
    requires 1 <= |b| <= 2
    ensures Run(Encode(b) + rest, 0, 0, 0, acc) == Some(acc + b)
  {
    var s := Encode(b) + rest;
    if |b| == 1 {
      var x := b[0];
      SextetRoundTrip(x / 4); SextetRoundTrip(x % 4 * 16);
      SextetSplitJoin(x, 0, 0);
      calc {
        Run(s, 0, 0, 0, acc);
        Run(s[1..], 1, x / 4, 0, acc);
        Run(s[1..][1..], 2, 0, 0, acc + [x]);
        Run(s[1..][1..][1..], 2, 0, 1, acc + [x]);
        Some(acc + [x]);
      }
      assert acc + [x] == acc + b;
    } else {
      var x, y := b[0], b[1];
      SextetRoundTrip(x / 4); SextetRoundTrip(x % 4 * 16 + y / 16); SextetRoundTrip(y % 16 * 4);
      SextetSplitJoin(x, y, 0);
      calc {
        Run(s, 0, 0, 0, acc);
        Run(s[1..], 1, x / 4, 0, acc);
        Run(s[1..][1..], 2, y / 16, 0, acc + [x]);
        Run(s[1..][1..][1..], 3, 0, 0, acc + [x] + [y]);
        Some(acc + [x] + [y]);
      }
      assert acc + [x] + [y] == acc + b;
    }
  }

  /** The encoding of three or more octets is that of the first three followed by that of the rest. */
  lemma EncodeSplits(b: seq<Byte>)
    requires |b| >= 3
    ensures Encode(b) == Encode(b[..3]) + Encode(b[3..])
  {
    if |b| == 3 {
      assert b[..3] == b && b[3..] == [];
    }
  }

  /** Decoding from the start of a quantum continues with the octets of the encoding appended. */
  lemma {:induction false} RunEncode(b: seq<Byte>, acc: seq<Byte>)
    ensures Run(Encode(b), 0, 0, 0, acc) == Some(acc + b)
    decreases |b|
  {
    if |b| == 0 {
      assert acc + b == acc;
    } else if |b| <= 2 {
      LastQuantum(b, "", acc);
      assert Encode(b) + "" == Encode(b);
    } else {
      EncodeSplits(b);
      FullQuantum(b, Encode(b[3..]), acc);
      RunEncode(b[3..], acc + b[..3]);
      assert acc + b[..3] + b[3..] == acc + b;
    }
  }

  /** Round trip: `b64decode` recovers every octet string from its standard encoding. */
  lemma DecodeEncode(b: seq<Byte>)
    ensures Decode(Encode(b)) == Some(b)
  {
    EncodeIsAscii(b);
    RunEncode(b, []);
    assert [] + b == b;
  }

  /** Reading the first quantum of an encoding of three or more octets emits them and continues with the rest's encoding. */
  lemma StepQuantum(b: seq<Byte>, rest: string, acc: seq<Byte>)
    requires |b| >= 3
    ensures Run(Encode(b) + rest, 0, 0, 0, acc) == Run(Encode(b[3..]) + rest, 0, 0, 0, acc + b[..3])
  {
    var e1, e2 := Encode(b[..3]), Encode(b[3..]);
    EncodeSplits(b);
    assert Encode(b) + rest == e1 + (e2 + rest);
    FullQuantum(b, e2 + rest, acc);
  }

  /** Decoding the encoding of `k` whole quanta from a quantum boundary emits their octets and continues at a boundary. */
  lemma {:induction false} FullQuanta(b: seq<Byte>, k: nat, rest: string, acc: seq<Byte>)
    requires |b| == 3 * k
    ensures Run(Encode(b) + rest, 0, 0, 0, acc) == Run(rest, 0, 0, 0, acc + b)
    decreases k
  {
    if k == 0 {
      assert b == [];
      assert Encode(b) + rest == rest;
      assert acc + b == acc;
    } else {
      var head, tail := b[..3], b[3..];
      assert |tail| == 3 * (k - 1);
      StepQuantum(b, rest, acc);
      FullQuanta(tail, k - 1, rest, acc + head);
      assert acc + head + tail == acc + b;
    }
  }

  /**
   * Decoding from a quantum boundary emits the octets of an encoding that ends
   * in padding (`k` whole quanta and one or two octets more), and ignores what follows.
   */
  lemma {:induction false} RunStopsAtPadding(b: seq<Byte>, k: nat, rest: string, acc: seq<Byte>)
    requires 3 * k < |b| < 3 * k + 3
    ensures Run(Encode(b) + rest, 0, 0, 0, acc) == Some(acc + b)
    decreases k
  {
    if k == 0 {
      LastQuantum(b, rest, acc);
    } else {
      var head, tail := b[..3], b[3..];
      StepQuantum(b, rest, acc);
      RunStopsAtPadding(tail, k - 1, rest, acc + head);
      assert acc + head + tail == acc + b;
    }
  }

  /** The octets up to a complete padding are the result, whatever ASCII text follows. */
  lemma PaddingEndsInput(b: seq<Byte>, rest: string)
    requires |b| % 3 != 0 && IsAscii(rest)
    ensures Decode(Encode(b) + rest) == Some(b)
  {
    EncodeIsAscii(b);
    assert IsAscii(Encode(b) + rest);
    RunStopsAtPadding(b, |b| / 3, rest, []);
    assert [] + b == b;
  }

  /** After whole quanta, a single data character is an error: no octets are encoded that way. */
  lemma {:induction false} DanglingDataRejected(b: seq<Byte>, c: char)
    requires |b| % 3 == 0 && SextetValue(c) < 64
    ensures Decode(Encode(b) + [c]) == None
  {
    EncodeIsAscii(b);
    SextetRoundTrip(SextetValue(c));
    assert IsAscii(Encode(b) + [c]);
    FullQuanta(b, |b| / 3, [c], []);
    assert [c][1..] == [];
  }

  /** The characters the decoder reads: those of the alphabet and the pad character. */
  function Data(s: string): (d: string)
    ensures |d| <= |s|
    ensures forall i :: 0 <= i < |d| ==> d[i] == '=' || SextetValue(d[i]) < 64
  {
    if s == [] then []
    else if s[0] != '=' && SextetValue(s[0]) == 64 then Data(s[1..])
    else [s[0]] + Data(s[1..])
  }

  /** From any state, the decoder gives the same answer on the text and on its alphabet and pad characters alone. */
  lemma {:induction false} RunSkipsNoise(s: string, quad: int, left: int, pads: nat, acc: seq<Byte>)
    requires PendingFits(quad, left)
    ensures Run(s, quad, left, pads, acc) == Run(Data(s), quad, left, pads, acc)
    decreases |s|, 1
  {
    if s == [] {
    } else if s[0] == '=' {
      var d := Data(s);
      assert d == [s[0]] + Data(s[1..]) && d[0] == '=' && d[1..] == Data(s[1..]);
      if quad >= 2 && quad + pads + 1 < 4 {
        RunSkipsNoise(s[1..], quad, left, pads + 1, acc);
      } else if quad < 2 {
        RunSkipsNoise(s[1..], quad, left, pads, acc);
      }
    } else if SextetValue(s[0]) == 64 {
      RunSkipsNoise(s[1..], quad, left, pads, acc);
    } else {
      DataCharacterKept(s, quad, left, pads, acc);
    }
  }

  /** The case of `RunSkipsNoise` where the text starts with a data character. */
  lemma {:induction false} DataCharacterKept(s: string, quad: int, left: int, pads: nat, acc: seq<Byte>)
    requires PendingFits(quad, left)
    requires s != [] && s[0] != '=' && SextetValue(s[0]) < 64
    ensures Run(s, quad, left, pads, acc) == Run(Data(s), quad, left, pads, acc)
    decreases |s|, 0
  {
    var d := Data(s);
    var v := SextetValue(s[0]);
    assert d == [s[0]] + Data(s[1..]) && d[0] == s[0] && d[1..] == Data(s[1..]);
    if quad == 0 {
      RunSkipsNoise(s[1..], 1, v, 0, acc);
    } else if quad == 1 {
      RunSkipsNoise(s[1..], 2, v % 16, 0, acc + [left * 4 + v / 16]);
    } else if quad == 2 {
      RunSkipsNoise(s[1..], 3, v % 4, 0, acc + [left * 16 + v / 4]);
    } else {
      RunSkipsNoise(s[1..], 0, 0, 0, acc + [left * 64 + v]);
    }
  }

  /** ASCII characters outside the alphabet are skipped: removing them does not change the result. */
  lemma NoiseSkipped(s: string)
    requires IsAscii(s)
    ensures Decode(s) == Decode(Data(s))
  {
    var d := Data(s);
    forall i | 0 <= i < |d|
      ensures d[i] as int < 128
    {
      if d[i] != '=' {
        SextetRoundTrip(SextetValue(d[i]));
      }
    }
    RunSkipsNoise(s, 0, 0, 0, []);
  }

  /** A lone data character is rejected: no octets can be encoded that way. */
  lemma DanglingCharacterRejected()
    ensures Decode("QUJDQ") == None
  {
    var s := "QUJDQ";
    assert IsAscii(s);
    assert s[1..][1..][1..][1..][1..] == [];
  }

  /** Characters outside the alphabet are skipped, and input after a complete padding is ignored. */
  lemma NonAlphabetSkipped()
    ensures Decode("Q!Q==") == Some([65])
    ensures Decode("QQ==QUJD") == Some([65])
  {
    var s := "Q!Q==";
    assert IsAscii(s);
    calc {
      Run(s, 0, 0, 0, []);
      Run(s[1..], 1, 16, 0, []);
      Run(s[2..], 1, 16, 0, []);
      { assert s[2..][0] == 'Q' && s[2..][1..] == s[3..] && SextetValue('Q') == 16;
        assert [] + [16 * 4 + 16 / 16] == [65]; }
      Run(s[3..], 2, 0, 0, [65]);
      Run(s[4..], 2, 0, 1, [65]);
      Some([65]);
    }
    var t := "QQ==QUJD";
    assert IsAscii(t);
    calc {
      Run(t, 0, 0, 0, []);
      Run(t[1..], 1, 16, 0, []);
      Run(t[2..], 2, 0, 0, [65]);
      Run(t[3..], 2, 0, 1, [65]);
      Some([65]);
    }
  }
}
