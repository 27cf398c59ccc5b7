/** Header lines of the RTSP decoder: the sanitizer that rewrites a raw line in
    place, and the parser that looks for a Content-Length
    (sanitize_header_line and parse_header_line of src/rtsp_decoder.c). */
module HeaderLine {
  import opened Bits
  import opened Bytes

  /** Where a scanner stands: outside quotes, inside, or inside right behind
      an unescaped backslash. */
  datatype Quoting = Out | In | Esc

  function QStep(q: Quoting, c: byte): Quoting {
    match q
    case Out => if c == QUOTE then In else Out
    case In => if c == QUOTE then Out else if c == BACKSLASH then Esc else In
    case Esc => In
  }

  function QScan(s: bytes): Quoting {
    if s == [] then Out else QStep(QScan(s[..|s| - 1]), s[|s| - 1])
  }

  predicate IsNewline(c: byte) {
    c == CR || c == LF
  }

  /** Linear white-space: what STATE_NEW skips and the sanitizer folds. */
  predicate IsLws(c: byte) {
    c == CR || c == LF || c == TAB || c == SPACE
  }

  /** What the sanitizer has written, its quoting state, and the last byte it
      remembers (white-space outside quotes is remembered as a space). */
  datatype San = San(out: bytes, q: Quoting, last: byte)

  /** The byte to write for c, if any. */
  function Emit(st: San, c: byte): (e: bytes)
    ensures |e| <= 1
  {
    if st.q == Esc then [if c == NUL then DIGIT_0 else c]
    else if c == NUL then []
    else if st.q == In then [c]
    else if !IsLws(c) then [c]
    else if st.last == SPACE then []
    else [SPACE]
  }

  function SanStep(st: San, c: byte): San {
    San(st.out + Emit(st, c), QStep(st.q, c), if st.q == Out && IsLws(c) then SPACE else c)
  }

  function SanScan(s: bytes): San {
    if s == [] then San([], Out, NUL) else SanStep(SanScan(s[..|s| - 1]), s[|s| - 1])
  }

  function TrimRight(s: bytes): (t: bytes)
    ensures t <= s
    ensures t != [] ==> t[|t| - 1] != SPACE
    ensures forall i :: |t| <= i < |s| ==> s[i] == SPACE
  {
    if s != [] && s[|s| - 1] == SPACE then TrimRight(s[..|s| - 1]) else s
  }

  lemma TrimSpace(s: bytes)
    ensures TrimRight(s + [SPACE]) == TrimRight(s)
  {
    assert (s + [SPACE])[..|s|] == s;
  }

  /** The text a raw header line is delivered as. */
  function Sanitize(s: bytes): bytes {
    TrimRight(SanScan(s).out)
  }

  lemma SanScanPush(s: bytes, c: byte)
    ensures SanScan(s + [c]) == SanStep(SanScan(s), c)
    ensures QScan(s + [c]) == QStep(QScan(s), c)
  {
    assert (s + [c])[..|s|] == s;
  }

  lemma SanScanTake(s: bytes, i: nat)
    requires i < |s|
    ensures SanScan(s[..i + 1]) == SanStep(SanScan(s[..i]), s[i])
  {
    assert s[..i + 1][..i] == s[..i];
  }

  lemma {:induction false} SanLength(s: bytes)
    ensures |SanScan(s).out| <= |s|
  {
    if s != [] {
      SanLength(s[..|s| - 1]);
    }
  }

  lemma SanScanEmpty()
    ensures SanScan([]) == San([], Out, NUL) && QScan([]) == Out
  {
  }

  lemma EmitCases(st: San, c: byte)
    ensures Emit(st, c) ==
            if st.q == Esc then [if c == NUL then DIGIT_0 else c]
            else if c == NUL || (st.q == Out && IsLws(c) && st.last == SPACE) then []
            else if st.q == Out && IsLws(c) then [SPACE]
            else [c]
  {
  }

  lemma Split(s: bytes) returns (r: bytes, c: byte)
    requires s != []
    ensures s == r + [c] && |r| == |s| - 1
  {
    r, c := s[..|s| - 1], s[|s| - 1];
  }

  lemma SanQuotingPush(r: bytes, c: byte)
    requires QScan(r) == SanScan(r).q == QScan(SanScan(r).out)
    ensures QScan(r + [c]) == SanScan(r + [c]).q == QScan(SanScan(r + [c]).out)
  {
    hide SanScan, QScan;
    var st := SanScan(r);
    var e := Emit(st, c);
    SanScanPush(r, c);
    if e == [] {
      assert st.out + e == st.out;
    } else {
      assert e == [e[0]];
      SanScanPush(st.out, e[0]);
    }
  }

  /** The rewriting loop: `dst` trails `i`, so unread bytes are never overwritten. */
  method RewriteLine(line: array<byte>, len: nat, ghost raw: bytes) returns (dst: nat)
    requires len < line.Length && line[..len] == raw
    modifies line
    ensures dst <= len && line[..dst] == SanScan(raw).out
  {
    SanScanEmpty();
    hide SanScan, Emit;
    ghost var st := San([], Out, NUL);
    dst := 0;
    var last_c := NUL;
    var quoted, escaped := false, false;
    var i := 0;
    while i < len
      invariant 0 <= dst <= i <= len
      invariant st == SanScan(raw[..i])
      invariant |st.out| == dst && forall k :: 0 <= k < dst ==> line[k] == st.out[k]
      invariant forall k :: i <= k < len ==> line[k] == raw[k]
      invariant st.last == last_c && quoted == (st.q != Out)
      invariant quoted ==> (last_c == BACKSLASH && !escaped) == (st.q == Esc)
    {
      var c := line[i];
      ghost var e := Emit(st, c);
      EmitCases(st, c);
      SanScanTake(raw, i);
      st := SanStep(st, c);
      var prev := last_c;
      last_c := c;
      i := i + 1;
      if quoted {
        if prev == BACKSLASH && !escaped {
          escaped := true;
          if c == NUL {
            c := DIGIT_0;
          }
        } else {
          escaped := false;
          if c == QUOTE {
            quoted := false;
          } else if c == NUL {
            continue;
          }
        }
      } else {
        if c == NUL {
          continue;
        }
        if c == CR || c == LF || c == TAB {
          c := SPACE;
          last_c := c;
        }
        if c == SPACE && prev == SPACE {
          continue;
        }
        if c == QUOTE {
          quoted := true;
          escaped := false;
        }
      }
      assert e == [c];
      line[dst] := c;
      dst := dst + 1;
    }
    assert raw[..len] == raw;
  }

  lemma TrimStep(s: bytes)
    ensures TrimRight(s) == if s != [] && s[|s| - 1] == SPACE then TrimRight(s[..|s| - 1]) else s
  {
  }

  /** Cut trailing spaces off the first `len` bytes and terminate the rest. */
  method TrimLine(line: array<byte>, len: nat, ghost out: bytes) returns (n: nat)
    requires len < line.Length && line[..len] == out
    modifies line
    ensures n <= len && line[..n] == TrimRight(out) && line[n] == NUL
  {
    hide TrimRight;
    n := len;
    assert out[..len] == out;
    line[n] := NUL;
    while n > 0 && line[n - 1] == SPACE
      invariant 0 <= n <= len
      invariant forall k :: 0 <= k < n ==> line[k] == out[k]
      invariant TrimRight(out[..n]) == TrimRight(out) && line[n] == NUL
    {
      assert out[..n][..n - 1] == out[..n - 1];
      TrimStep(out[..n]);
      n := n - 1;
      line[n] := NUL;
    }
    TrimStep(out[..n]);
    assert line[..n] == out[..n];
  }

  /** Rewrite a raw header line in place and return its new length. */
  method SanitizeHeaderLine(line: array<byte>, len: nat, ghost raw: bytes) returns (n: nat)
    requires len < line.Length && line[..len] == raw
    modifies line
    ensures n <= len && line[..n] == Sanitize(raw) && line[n] == NUL
  {
    n := RewriteLine(line, len, raw);
    n := TrimLine(line, n, SanScan(raw).out);
  }

  /** Sanitizing neither opens nor closes quotes: the sanitized text reads like
      the raw line, and both like the sanitizer's own state. */
  lemma {:induction false} SanQuoting(s: bytes)
    ensures QScan(s) == SanScan(s).q == QScan(SanScan(s).out)
    decreases |s|
  {
    SanScanEmpty();
    hide SanScan, QScan;
    if s != [] {
      var r, c := Split(s);
      SanQuoting(r);
      SanQuotingPush(r, c);
    }
  }

  lemma {:induction false} SanNulFree(s: bytes)
    ensures NulFree(SanScan(s).out)
  {
    if s != [] {
      SanNulFree(s[..|s| - 1]);
    }
  }

  lemma BreaksQuotedPush(r: bytes, c: byte, k: nat)
    requires k < |SanScan(r + [c]).out| && QScan(SanScan(r + [c]).out[..k]) == Out
    requires k < |SanScan(r).out| && QScan(SanScan(r).out[..k]) == Out ==> SanScan(r).out[k] !in {CR, LF, TAB}
    ensures SanScan(r + [c]).out[k] !in {CR, LF, TAB}
  {
    hide SanScan, QScan;
    SanScanPush(r, c);
    SanQuoting(r);
    var out, more := SanScan(r).out, SanScan(r + [c]).out;
    if k < |out| {
      assert more[..k] == out[..k];
    } else {
      assert more[..k] == out;
    }
  }

  /** Line breaks and tabs survive only inside quotes. */
  lemma {:induction false} SanBreaksQuoted(s: bytes, k: nat)
    requires k < |SanScan(s).out|
    requires QScan(SanScan(s).out[..k]) == Out
    ensures SanScan(s).out[k] !in {CR, LF, TAB}
    decreases |s|
  {
    SanScanEmpty();
    hide SanScan, QScan;
    var r, c := Split(s);
    if k < |SanScan(r).out| && QScan(SanScan(r).out[..k]) == Out {
      SanBreaksQuoted(r, k);
    }
    BreaksQuotedPush(r, c, k);
  }

  /** NUL-free, without a trailing space, and with all line breaks quoted. */
  predicate Shaped(line: bytes) {
    && NulFree(line) && (line != [] ==> line[|line| - 1] != SPACE)
    && forall k :: 0 <= k < |line| && IsNewline(line[k]) ==> QScan(line[..k]) != Out
  }

  /** What a header line looks like once it is sanitized, whatever was received. */
  lemma SanitizedShape(s: bytes)
    ensures Shaped(Sanitize(s))
  {
    var out, t := SanScan(s).out, Sanitize(s);
    SanNulFree(s);
    forall k | 0 <= k < |t| && IsNewline(t[k])
      ensures QScan(t[..k]) != Out
    {
      assert t[..k] == out[..k];
      if QScan(out[..k]) == Out {
        SanBreaksQuoted(s, k);
      }
    }
  }

  lemma EmitTwice(st: San, c: byte)
    requires c != NUL
    ensures Emit(st, c) == [] ==> SanStep(st, c) == st
    ensures Emit(st, c) != [] ==> SanStep(st, Emit(st, c)[0]) == SanStep(st, c)
  {
    assert st.out + [] == st.out;
  }

  /** A NUL-free line is a fixed point of the scan once it has been scanned. */
  lemma {:induction false} SanTwice(s: bytes)
    requires NulFree(s)
    ensures SanScan(SanScan(s).out) == SanScan(s)
  {
    if s != [] {
      var r, c := s[..|s| - 1], s[|s| - 1];
      SanTwice(r);
      var st := SanScan(r);
      EmitTwice(st, c);
      if Emit(st, c) != [] {
        SanScanPush(st.out, Emit(st, c)[0]);
      }
    }
  }

  lemma {:induction false} SanPrefix(s: bytes, k: nat)
    requires k <= |s| && SanScan(s).out == s
    ensures SanScan(s[..k]).out == s[..k]
  {
    if k == |s| {
      assert s[..k] == s;
    } else {
      var r := s[..|s| - 1];
      SanLength(r);
      assert SanScan(r).out == r;
      SanPrefix(r, k);
      assert r[..k] == s[..k];
    }
  }

  lemma TrimFixed(s: bytes)
    ensures TrimRight(TrimRight(s)) == TrimRight(s)
  {
  }

  /** Sanitizing is idempotent on NUL-free lines. */
  lemma SanitizeIdempotent(s: bytes)
    requires NulFree(s)
    ensures Sanitize(Sanitize(s)) == Sanitize(s)
  {
    var out := SanScan(s).out;
    var t := TrimRight(out);
    SanTwice(s);
    SanPrefix(out, |t|);
    assert t == out[..|t|];
    TrimFixed(out);
  }

  /** The bytes of a line that carry content: no white-space. */
  function Solid(s: bytes): bytes {
    if s == [] then []
    else Solid(s[..|s| - 1]) + if IsLws(s[|s| - 1]) then [] else [s[|s| - 1]]
  }

  lemma SolidPush(s: bytes, c: byte)
    ensures Solid(s + [c]) == Solid(s) + if IsLws(c) then [] else [c]
  {
    assert (s + [c])[..|s|] == s;
  }

  lemma SanSolidPush(r: bytes, c: byte)
    requires Solid(SanScan(r).out) == Solid(r) && c != NUL
    ensures Solid(SanScan(r + [c]).out) == Solid(r + [c])
  {
    hide SanScan, Solid;
    SanScanPush(r, c);
    SolidPush(r, c);
    var st := SanScan(r);
    var e := Emit(st, c);
    assert Solid(r) + [] == Solid(r);
    if e == [] {
      assert st.out + e == st.out;
    } else {
      SolidPush(st.out, e[0]);
    }
  }

  lemma {:induction false} SanSolid(s: bytes)
    requires NulFree(s)
    ensures Solid(SanScan(s).out) == Solid(s)
    decreases |s|
  {
    SanScanEmpty();
    hide SanScan, Solid;
    if s != [] {
      var r, c := Split(s);
      assert c == s[|s| - 1] && forall i :: 0 <= i < |r| ==> r[i] == s[i];
      SanSolid(r);
      SanSolidPush(r, c);
    }
  }

  lemma {:induction false} TrimSolid(s: bytes)
    ensures Solid(TrimRight(s)) == Solid(s)
    decreases |s|
  {
    TrimStep(s);
    hide TrimRight, Solid;
    if s != [] && s[|s| - 1] == SPACE {
      var r, c := Split(s);
      assert r == s[..|s| - 1] && c == SPACE;
      TrimSolid(r);
      SolidPush(r, c);
    }
  }

  /** Sanitizing a NUL-free line drops and invents nothing but white-space. */
  lemma SanitizeKeepsContent(s: bytes)
    requires NulFree(s)
    ensures Solid(Sanitize(s)) == Solid(s)
  {
    SanSolid(s);
    TrimSolid(SanScan(s).out);
  }

  // ----- Content-Length -----

  function Lower(c: byte): byte {
    if 'A' as int <= c <= 'Z' as int then c + 32 else c
  }

  /** "content-length:" */
  const CONTENT_LENGTH: bytes :=
    [99, 111, 110, 116, 101, 110, 116, 45, 108, 101, 110, 103, 116, 104, 58]

  /** strncasecmp over the 15 bytes of the name, on a NUL-terminated line. */
  predicate IsContentLength(line: bytes) {
    |line| >= 15 && forall i :: 0 <= i < 15 ==> Lower(line[i]) == CONTENT_LENGTH[i]
  }

  predicate IsSpace(c: byte) {
    9 <= c <= 13 || c == SPACE
  }

  predicate IsDigit(c: byte) {
    48 <= c <= 57
  }

  function SkipSpace(s: bytes): bytes {
    if s != [] && IsSpace(s[0]) then SkipSpace(s[1..]) else s
  }

  function DigitRun(s: bytes): (n: nat)
    ensures n <= |s|
  {
    if s != [] && IsDigit(s[0]) then 1 + DigitRun(s[1..]) else 0
  }

  /** The decimal value of a digit string. */
  function Value(digits: bytes): nat {
    if digits == [] then 0
    else
      var c := digits[|digits| - 1];
      10 * Value(digits[..|digits| - 1]) + (if IsDigit(c) then c - DIGIT_0 else 0)
  }

  /** The C library's strtoul in base 10 on 64-bit words: the value, and whether
      it consumed the whole string (`*e == 0`). Without digits nothing is consumed. */
  function StrToUl(s: bytes): (r: (nat, bool)) {
    var t := SkipSpace(s);
    var signed := t != [] && (t[0] == '-' as int || t[0] == '+' as int);
    var d := if signed then t[1..] else t;
    var n := DigitRun(d);
    var v := Value(d[..n]);
    if n == 0 then (0, s == [])
    else if v >= SIZE_MOD then (SIZE_MOD - 1, n == |d|)
    else if t[0] == '-' as int then ((SIZE_MOD - v) % SIZE_MOD, n == |d|)
    else (v, n == |d|)
  }

  /** The declared body length after this line, or None for -EINVAL. */
  datatype Parsed = Length(remaining: nat) | Invalid

  function ParseLine(remaining: nat, line: bytes): Parsed {
    if !IsContentLength(line) then Length(remaining)
    else
      var (l, whole) := StrToUl(line[15..]);
      if |line| == 15 || !whole then Invalid
      else if remaining != 0 && remaining != l then Invalid
      else Length(l)
  }

  /** The declared length of a whole header block. */
  function ParseBlock(lines: seq<bytes>): Parsed {
    if lines == [] then Length(0)
    else
      var p := ParseBlock(lines[..|lines| - 1]);
      if p.Invalid? then Invalid else ParseLine(p.remaining, lines[|lines| - 1])
  }

  // ----- plain text -----

  /** Text the scan passes through: no quotes or NULs, and single inner spaces
      as the only white-space. */
  predicate PlainText(s: bytes) {
    forall i :: 0 <= i < |s| ==> PlainAt(s, i)
  }

  predicate PlainAt(s: bytes, i: nat)
    requires i < |s|
  {
    if s[i] == SPACE then i > 0 && s[i - 1] != SPACE else !IsLws(s[i]) && s[i] != QUOTE && s[i] != NUL
  }

  lemma PlainPrefix(r: bytes, c: byte)
    requires PlainText(r + [c])
    ensures PlainText(r)
    ensures if c == SPACE then r != [] && r[|r| - 1] != SPACE else !IsLws(c) && c != QUOTE && c != NUL
  {
    var s := r + [c];
    assert PlainAt(s, |r|);
    forall i | 0 <= i < |r|
      ensures PlainAt(r, i)
    {
      assert PlainAt(s, i);
    }
  }

  lemma {:induction false} PlainScan(s: bytes)
    requires PlainText(s)
    ensures SanScan(s) == San(s, Out, if s == [] then NUL else s[|s| - 1])
    decreases |s|
  {
    SanScanEmpty();
    hide SanScan, QScan, PlainText;
    if s != [] {
      var r, c := Split(s);
      PlainPrefix(r, c);
      PlainScan(r);
      SanScanPush(r, c);
    }
  }
}
