/**
 * Python's `int(text)` in base 10, as used to read the session duration from the
 * environment: surrounding whitespace, an optional sign, and decimal digits
 * with single underscores allowed between them. Anything else raises ValueError,
 * modelled as None.
 */
module IntParse {
  import opened Wrappers

  /** ASCII whitespace: space, tab, line feed, vertical tab, form feed, carriage return. */
  predicate IsSpace(c: char) {
    c == ' ' || 9 <= c as int <= 13
  }

  predicate IsDigit(c: char) {
    '0' <= c <= '9'
  }

  function TrimStart(s: string): (r: string)
    ensures |r| <= |s|
    ensures r != [] ==> !IsSpace(r[0])
  {
    if s != [] && IsSpace(s[0]) then TrimStart(s[1..]) else s
  }

  function TrimEnd(s: string): (r: string)
    ensures |r| <= |s|
    ensures r != [] ==> !IsSpace(r[|r| - 1])
  {
    if s != [] && IsSpace(s[|s| - 1]) then TrimEnd(s[..|s| - 1]) else s
  }

  /** One or more digits, with single underscores only between two digits. */
  predicate WellFormedDigits(s: string)
    decreases |s|
  {
    |s| > 0 && IsDigit(s[0]) &&
    (|s| == 1 || if s[1] == '_' then WellFormedDigits(s[2..]) else WellFormedDigits(s[1..]))
  }

  /** The number `acc` followed by the digits of `s`, underscores skipped. */
  function Accumulate(acc: int, s: string): int
    decreases |s|
  {
    if s == [] then acc
    else if s[0] == '_' then Accumulate(acc, s[1..])
    else Accumulate(acc * 10 + (s[0] as int - '0' as int), s[1..])
  }

  /** The value of text without surrounding whitespace: an optional sign, then well-formed digits. */
  function ParseSigned(t: string): (r: Option<int>)
    ensures r.Some? <==> t != [] && WellFormedDigits(if t[0] == '-' || t[0] == '+' then t[1..] else t)
  {
    if t == [] then None
    else
      var body := if t[0] == '-' || t[0] == '+' then t[1..] else t;
      if !WellFormedDigits(body) then None
      else
        var magnitude := Accumulate(0, body);
        Some(if t[0] == '-' then -magnitude else magnitude)
  }

  /** `int(text)`: None where Python raises ValueError. */
  function ParseInt(text: string): (r: Option<int>)
    ensures r.Some? <==> var t := TrimEnd(TrimStart(text));
                         t != [] && WellFormedDigits(if t[0] == '-' || t[0] == '+' then t[1..] else t)
  {
    ParseSigned(TrimEnd(TrimStart(text)))
  }

  /** The decimal digits of a natural number, most significant first. */
  function Digits(n: nat): (s: string)
    ensures |s| > 0
    ensures forall i :: 0 <= i < |s| ==> IsDigit(s[i])
  {
    if n < 10 then [('0' as int + n) as char]
    else Digits(n / 10) + [('0' as int + n % 10) as char]
  }

  /** How Python prints an integer. */
  function Show(n: int): string {
    if n < 0 then "-" + Digits(-n) else Digits(n)
  }

  lemma {:induction false} AccumulateSnoc(acc: int, s: string, c: char)
    requires IsDigit(c)
    ensures Accumulate(acc, s + [c]) == Accumulate(acc, s) * 10 + (c as int - '0' as int)
    decreases |s|
  {
    if s == [] {
      assert [] + [c] == [c];
      assert [c][1..] == [];
    } else {
      assert (s + [c])[1..] == s[1..] + [c];
      if s[0] == '_' {
        AccumulateSnoc(acc, s[1..], c);
      } else {
        AccumulateSnoc(acc * 10 + (s[0] as int - '0' as int), s[1..], c);
      }
    }
  }

  lemma {:induction false} DigitsWellFormed(s: string)
    requires |s| > 0 && forall i :: 0 <= i < |s| ==> IsDigit(s[i])
    ensures WellFormedDigits(s)
    decreases |s|
  {
    if |s| > 1 {
      DigitsWellFormed(s[1..]);
    }
  }

  lemma {:induction false} AccumulateDigits(n: nat)
    ensures Accumulate(0, Digits(n)) == n
  {
    if n >= 10 {
      AccumulateDigits(n / 10);
      AccumulateSnoc(0, Digits(n / 10), ('0' as int + n % 10) as char);
    }
  }

  /** Round trip: `int(str(n)) == n` for every integer. */
  lemma ParseShow(n: int)
    ensures ParseInt(Show(n)) == Some(n)
  {
    var m: nat := if n < 0 then -n else n;
    var sign := if n < 0 then "-" else "";
    ParsePadded("", sign, "", m, "");
    assert "" + sign + "" + Digits(m) + "" == Show(n);
  }

  /** Leading whitespace never changes the result. */
  lemma LeadingSpaceIgnored(c: char, text: string)
    requires IsSpace(c)
    ensures ParseInt([c] + text) == ParseInt(text)
  {
    assert ([c] + text)[1..] == text;
    assert TrimStart([c] + text) == TrimStart(text);
  }

  lemma UnderscoreBetweenDigits()
    ensures ParseInt("1_000") == Some(1000)
  {
    var t := "1_000";
    assert TrimStart(t) == t;
    assert TrimEnd(t) == t;
    assert t[2..] == "000" && "000"[1..] == "00" && "00"[1..] == "0";
    assert WellFormedDigits(t);
    assert t[1..] == "_000";
    assert Accumulate(1, "_000") == Accumulate(1, "000") == 1000;
  }

  lemma MalformedTextRejected()
    ensures ParseInt("1__0") == None
    ensures ParseInt("_1") == None
    ensures ParseInt("") == None
  {
    var u := "1__0";
    assert TrimStart(u) == u;
    assert TrimEnd(u) == u;
    assert u[2..] == "_0";
    var v := "_1";
    assert TrimStart(v) == v;
    assert TrimEnd(v) == v;
  }

  /** Leading whitespace of any length is stripped. */
  lemma {:induction false} TrimStartSpaces(ws: string, t: string)
    requires forall i :: 0 <= i < |ws| ==> IsSpace(ws[i])
    ensures TrimStart(ws + t) == TrimStart(t)
    decreases |ws|
  {
    if ws == [] {
      assert ws + t == t;
    } else {
      assert (ws + t)[0] == ws[0];
      assert (ws + t)[1..] == ws[1..] + t;
      TrimStartSpaces(ws[1..], t);
    }
  }

  /** Trailing whitespace of any length is stripped. */
  lemma {:induction false} TrimEndSpaces(t: string, ws: string)
    requires forall i :: 0 <= i < |ws| ==> IsSpace(ws[i])
    ensures TrimEnd(t + ws) == TrimEnd(t)
    decreases |ws|
  {
    if ws == [] {
      assert t + ws == t;
    } else {
      var u := t + ws;
      assert u[|u| - 1] == ws[|ws| - 1];
      assert u[..|u| - 1] == t + ws[..|ws| - 1];
      TrimEndSpaces(t, ws[..|ws| - 1]);
    }
  }

  /** Leading zeros do not change the value. */
  lemma {:induction false} AccumulateZeros(zeros: string, s: string)
    requires forall i :: 0 <= i < |zeros| ==> zeros[i] == '0'
    ensures Accumulate(0, zeros + s) == Accumulate(0, s)
    decreases |zeros|
  {
    if zeros == [] {
      assert zeros + s == s;
    } else {
      assert (zeros + s)[0] == '0';
      assert (zeros + s)[1..] == zeros[1..] + s;
      AccumulateZeros(zeros[1..], s);
    }
  }

  /**
   * The value read from the text a configuration may hold: whitespace around
   * it, an optional sign and leading zeros before the digits of `n`.
   */
  lemma ParsePadded(lead: string, sign: string, zeros: string, n: nat, trail: string)
    requires forall i :: 0 <= i < |lead| ==> IsSpace(lead[i])
    requires forall i :: 0 <= i < |trail| ==> IsSpace(trail[i])
    requires sign == "" || sign == "+" || sign == "-"
    requires forall i :: 0 <= i < |zeros| ==> zeros[i] == '0'
    ensures ParseInt(lead + sign + zeros + Digits(n) + trail) == Some(if sign == "-" then -(n as int) else n as int)
  {
    var core := sign + (zeros + Digits(n));
    PaddedCore(sign, zeros, n);
    assert lead + sign + zeros + Digits(n) + trail == lead + core + trail;
    TrimsTo(lead, core, trail);
  }

  /** A sign and leading zeros before the digits of `n`: no whitespace at either end, and worth ±n. */
  lemma PaddedCore(sign: string, zeros: string, n: nat)
    requires sign == "" || sign == "+" || sign == "-"
    requires forall i :: 0 <= i < |zeros| ==> zeros[i] == '0'
    ensures var core := sign + (zeros + Digits(n));
      core != [] && !IsSpace(core[0]) && !IsSpace(core[|core| - 1]) &&
      ParseSigned(core) == Some(if sign == "-" then -(n as int) else n as int)
  {
    var body := zeros + Digits(n);
    var core := sign + body;
    PaddedDigits(zeros, n);
    assert core[0] == (if sign != "" then sign[0] else body[0]);
    assert core[|core| - 1] == body[|body| - 1];
    ParseSignedDigits(sign, body);
  }

  /** Leading zeros before the digits of `n` are digits worth `n`, starting and ending with a digit. */
  lemma PaddedDigits(zeros: string, n: nat)
    requires forall i :: 0 <= i < |zeros| ==> zeros[i] == '0'
    ensures var body := zeros + Digits(n);
      |body| > 0 && IsDigit(body[0]) && IsDigit(body[|body| - 1]) &&
      (forall i :: 0 <= i < |body| ==> IsDigit(body[i])) && Accumulate(0, body) == n
  {
    var d := Digits(n);
    var body := zeros + d;
    forall i | 0 <= i < |body|
      ensures IsDigit(body[i])
    {
      if i < |zeros| {
        assert body[i] == zeros[i];
      } else {
        assert body[i] == d[i - |zeros|];
      }
    }
    AccumulateZeros(zeros, d);
    AccumulateDigits(n);
  }

  /** Text with whitespace around a core that neither starts nor ends with whitespace trims to the core. */
  lemma TrimsTo(lead: string, core: string, trail: string)
    requires forall i :: 0 <= i < |lead| ==> IsSpace(lead[i])
    requires forall i :: 0 <= i < |trail| ==> IsSpace(trail[i])
    requires core != [] && !IsSpace(core[0]) && !IsSpace(core[|core| - 1])
    ensures TrimEnd(TrimStart(lead + core + trail)) == core
  {
    assert lead + core + trail == lead + (core + trail);
    TrimStartSpaces(lead, core + trail);
    assert (core + trail)[0] == core[0];
    assert TrimStart(core + trail) == core + trail;
    TrimEndSpaces(core, trail);
  }

  /** An optional sign and a run of digits are worth the digits' value, negated after a minus. */
  lemma ParseSignedDigits(sign: string, body: string)
    requires sign == "" || sign == "+" || sign == "-"
    requires |body| > 0 && forall i :: 0 <= i < |body| ==> IsDigit(body[i])
    ensures ParseSigned(sign + body) == Some(if sign == "-" then -Accumulate(0, body) else Accumulate(0, body))
  {
    var t := sign + body;
    DigitsWellFormed(body);
    if sign == "" {
      assert t == body && IsDigit(t[0]);
    } else {
      assert t[0] == sign[0] && t[1..] == body;
    }
  }

  /** The texts a duration is usually written as: with a newline, a plus sign or a leading zero. */
  lemma PaddedDurations()
    ensures ParseInt(" 60\n") == Some(60)
    ensures ParseInt("+60") == Some(60)
    ensures ParseInt("060") == Some(60)
  {
    assert Digits(60) == "60";
    ParsePadded(" ", "", "", 60, "\n");
    assert " " + "" + "" + "60" + "\n" == " 60\n";
    ParsePadded("", "+", "", 60, "");
    assert "" + "+" + "" + "60" + "" == "+60";
    ParsePadded("", "", "0", 60, "");
    assert "" + "" + "0" + "60" + "" == "060";
  }
}
