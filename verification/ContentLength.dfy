/** The Content-Length of an RTSP message (parse_header_line of src/rtsp_decoder.c): which lines
    declare a length, and which length they declare. */
module ContentLength {
  import opened Bits
  import opened Bytes
  import opened HeaderLine

  /** The name, in any mixture of upper and lower case. */
  predicate Spelled(name: bytes) {
    |name| == 15 && forall i :: 0 <= i < 15 ==> SpelledAt(name, i)
  }

  predicate SpelledAt(name: bytes, i: nat)
    requires i < 15 == |name|
  {
    var c := "content-length:"[i] as int;
    name[i] == c || ('a' as int <= c <= 'z' as int && name[i] == c - 32)
  }

  lemma SpelledByte(name: bytes, i: nat)
    requires i < 15 == |name|
    ensures SpelledAt(name, i) <==> Lower(name[i]) == CONTENT_LENGTH[i]
  {
    assert CONTENT_LENGTH[i] == "content-length:"[i] as int;
  }

  lemma SpelledIff(line: bytes)
    ensures IsContentLength(line) <==> |line| >= 15 && Spelled(line[..15])
  {
    if |line| >= 15 {
      forall i | 0 <= i < 15
        ensures SpelledAt(line[..15], i) <==> Lower(line[i]) == CONTENT_LENGTH[i]
      {
        SpelledByte(line[..15], i);
      }
    }
  }

  /** Every other line leaves the declared length alone. */
  lemma OtherLines(remaining: nat, line: bytes)
    requires |line| < 15 || !Spelled(line[..15])
    ensures ParseLine(remaining, line) == Length(remaining)
  {
    SpelledIff(line);
  }

  // ----- numerals -----

  predicate Spaces(s: bytes) {
    forall i :: 0 <= i < |s| ==> s[i] == 32 || 9 <= s[i] <= 13
  }

  predicate Digits(s: bytes) {
    s != [] && forall i :: 0 <= i < |s| ==> 48 <= s[i] <= 57
  }

  /** White-space, a sign if any, and digits. */
  predicate IsNumeral(ws: bytes, sign: bytes, digits: bytes) {
    Spaces(ws) && (sign == [] || sign == [43] || sign == [45]) && Digits(digits)
  }

  /** The number in 64 bits: too large ones become the largest, and a minus sign negates. */
  function Declared(sign: bytes, digits: bytes): nat {
    var v := Value(digits);
    if v >= SIZE_MOD then SIZE_MOD - 1
    else if sign == [45] then (SIZE_MOD - v) % SIZE_MOD
    else v
  }

  lemma {:induction false} SkipsSpaces(ws: bytes, rest: bytes)
    requires Spaces(ws) && (rest == [] || !IsSpace(rest[0]))
    ensures SkipSpace(ws + rest) == rest
    decreases |ws|
  {
    if ws == [] {
      assert ws + rest == rest;
    } else {
      SkipsSpaces(ws[1..], rest);
      assert (ws + rest)[1..] == ws[1..] + rest;
    }
  }

  lemma {:induction false} SplitsSpaces(s: bytes) returns (ws: bytes)
    ensures s == ws + SkipSpace(s) && Spaces(ws)
  {
    if s != [] && IsSpace(s[0]) {
      ws := SplitsSpaces(s[1..]);
      ws := [s[0]] + ws;
    } else {
      ws := [];
    }
  }

  lemma {:induction false} DigitRunAll(s: bytes)
    requires Digits(s)
    ensures DigitRun(s) == |s|
  {
    if |s| > 1 {
      DigitRunAll(s[1..]);
    } else {
      assert s[1..] == [];
    }
  }

  lemma {:induction false} DigitRunDigits(s: bytes)
    ensures forall i :: 0 <= i < DigitRun(s) ==> 48 <= s[i] <= 57
  {
    if s != [] && IsDigit(s[0]) {
      DigitRunDigits(s[1..]);
      assert forall i :: 0 < i < DigitRun(s) ==> s[i] == s[1..][i - 1];
    }
  }

  lemma SignedRead(s: bytes, sign: bytes, digits: bytes)
    requires sign == [] || sign == [43] || sign == [45]
    requires digits != [] && IsDigit(digits[0]) && DigitRun(digits) == |digits| && SkipSpace(s) == sign + digits
    ensures StrToUl(s) == (Declared(sign, digits), true)
  {
    hide SkipSpace, DigitRun, Value;
    var t := sign + digits;
    assert sign != [] ==> t[0] == sign[0] && t[1..] == digits;
    assert sign == [] ==> t == digits;
    assert digits[..|digits|] == digits;
  }

  /** strtoul reads the whole of a numeral, and its value. */
  lemma NumeralRead(ws: bytes, sign: bytes, digits: bytes)
    requires IsNumeral(ws, sign, digits)
    ensures StrToUl(ws + sign + digits) == (Declared(sign, digits), true)
  {
    var t := sign + digits;
    assert ws + sign + digits == ws + t;
    assert t[0] == if sign == [] then digits[0] else sign[0];
    SkipsSpaces(ws, t);
    DigitRunAll(digits);
    hide *;
    assert IsDigit(digits[0]) by {
      FirstDigit(digits);
    }
    SignedRead(ws + sign + digits, sign, digits);
  }

  lemma FirstDigit(digits: bytes)
    requires Digits(digits)
    ensures digits != [] && IsDigit(digits[0])
  {
  }

  /** It reads the whole of nothing else. */
  lemma NumeralsOnly(s: bytes) returns (ws: bytes, sign: bytes, digits: bytes)
    requires s != [] && StrToUl(s).1
    ensures s == ws + sign + digits && IsNumeral(ws, sign, digits)
  {
    var t := SkipSpace(s);
    ws := SplitsSpaces(s);
    sign := if t != [] && (t[0] == 45 || t[0] == 43) then [t[0]] else [];
    digits := t[|sign|..];
    DigitRunDigits(digits);
    assert t == sign + digits;
    assert ws + t == ws + sign + digits;
  }

  /** A numeral behind the name declares its number, unless another length was declared
      before; 0 declares nothing. */
  lemma NumeralDeclares(remaining: nat, name: bytes, ws: bytes, sign: bytes, digits: bytes)
    requires Spelled(name) && IsNumeral(ws, sign, digits)
    ensures var n := Declared(sign, digits);
            ParseLine(remaining, name + (ws + sign + digits)) ==
            if remaining != 0 && remaining != n then Invalid else Length(n)
  {
    var line := name + (ws + sign + digits);
    assert line[..15] == name && line[15..] == ws + sign + digits;
    SpelledIff(line);
    NumeralRead(ws, sign, digits);
    hide StrToUl, IsContentLength, Declared;
  }

  /** The parser refuses the name with anything else behind it, or with nothing. */
  lemma OthersRefused(remaining: nat, name: bytes, rest: bytes)
    requires Spelled(name)
    requires forall ws, sign, digits :: IsNumeral(ws, sign, digits) ==> rest != ws + sign + digits
    ensures ParseLine(remaining, name + rest) == Invalid
  {
    var line := name + rest;
    assert line[..15] == name && line[15..] == rest;
    SpelledIff(line);
    hide StrToUl, IsContentLength;
    if rest != [] && StrToUl(rest).1 {
      var ws, sign, digits := NumeralsOnly(rest);
    }
  }

  // ----- writing a Content-Length -----

  function Decimal(n: nat): (s: bytes)
    ensures s != [] && forall i :: 0 <= i < |s| ==> IsDigit(s[i])
  {
    (if n < 10 then [] else Decimal(n / 10)) + [DIGIT_0 + n % 10]
  }

  lemma {:induction false} ValueOfDecimal(n: nat)
    ensures Value(Decimal(n)) == n
  {
    var front := if n < 10 then [] else Decimal(n / 10);
    assert Decimal(n)[..|Decimal(n)| - 1] == front;
    if n >= 10 {
      ValueOfDecimal(n / 10);
    }
  }

  /** Leading zeros do not count. */
  lemma {:induction false} LeadingZeros(zeros: nat, digits: bytes)
    requires Digits(digits)
    ensures Value(seq(zeros, _ => 48) + digits) == Value(digits)
    decreases |digits|
  {
    var z := seq(zeros, _ => 48);
    var s, n := z + digits, |digits| - 1;
    assert s[..|s| - 1] == z + digits[..n];
    if n == 0 {
      assert digits[..n] == [];
      assert z + [] == z;
      ZerosValue(zeros);
    } else {
      LeadingZeros(zeros, digits[..n]);
    }
  }

  lemma {:induction false} ZerosValue(zeros: nat)
    ensures Value(seq(zeros, _ => 48)) == 0
  {
    if zeros > 0 {
      var z: bytes := seq(zeros, _ => 48);
      assert z[..zeros - 1] == seq(zeros - 1, _ => 48);
      ZerosValue(zeros - 1);
    }
  }

  function ContentLengthLine(name: bytes, n: nat): bytes {
    name + ([SPACE] + Decimal(n))
  }

  /** Parsing undoes writing: a written Content-Length declares its number. */
  lemma ContentLengthParses(name: bytes, n: nat)
    requires Spelled(name) && n < SIZE_MOD
    ensures ParseLine(0, ContentLengthLine(name, n)) == Length(n)
  {
    var d := Decimal(n);
    ValueOfDecimal(n);
    assert [SPACE] + [] + d == [SPACE] + d;
    NumeralDeclares(0, name, [SPACE], [], d);
  }

  /** A written Content-Length survives sanitizing and keeps the quotes balanced. */
  lemma ContentLengthCanonical(name: bytes, n: nat)
    requires Spelled(name)
    ensures var line := ContentLengthLine(name, n); Sanitize(line) == line && QScan(line) == Out
  {
    var line := ContentLengthLine(name, n);
    ContentLengthPlain(name, n);
    hide SanScan, QScan, PlainText, ContentLengthLine;
    PlainScan(line);
    SanQuoting(line);
    TrimStep(line);
  }

  lemma SpelledPlain(name: bytes, i: nat)
    requires Spelled(name) && i < 15
    ensures name[i] > 34
  {
    assert SpelledAt(name, i);
  }

  lemma ContentLengthPlain(name: bytes, n: nat)
    requires Spelled(name)
    ensures var line := ContentLengthLine(name, n); PlainText(line) && line != [] && line[|line| - 1] != SPACE
  {
    var line, d := ContentLengthLine(name, n), Decimal(n);
    hide Decimal;
    forall i | 0 <= i < |line|
      ensures PlainAt(line, i)
    {
      SpelledPlain(name, 14);
      if i > 15 {
        assert line[i] == d[i - 16];
      } else if i < 15 {
        SpelledPlain(name, i);
      }
    }
    assert line[|line| - 1] == d[|d| - 1];
  }
}
