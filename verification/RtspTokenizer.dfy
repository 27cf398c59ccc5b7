/** The RTSP tokenizer (src/rtsp_tokenizer.c): what it writes, what it was meant to
    write, and exactly when the two agree. A line is the bytes of a C string, up to its
    terminating NUL. */
module RtspTokenizer {
  import opened Bytes
  import opened Tokens

  /** ( ) [ ] { } < > @ , ; : \ / ? = */
  predicate IsSeparator(c: byte) {
    c == 40 || c == 41 || c == 91 || c == 93 || c == 123 || c == 125 || c == 60 || c == 62
    || c == 64 || c == 44 || c == 59 || c == 58 || c == 92 || c == 47 || c == 63 || c == 61
  }

  /** A plain char may be signed; then bytes from 128 on compare as negative. */
  predicate IsCtl(c: byte, signed: bool) {
    c <= 31 || c == 127 || (signed && c >= 128)
  }

  /** What a backslash followed by c stands for inside quotes. */
  function Unescape(c: byte): byte {
    if c == 110 then 10          // \n
    else if c == 114 then 13     // \r
    else if c == 116 then 9      // \t
    else if c == 97 then 7       // \a
    else if c == 102 then 12     // \f
    else if c == 118 then 11     // \v
    else if c == 98 then 8       // \b
    else if c == 101 then 27     // \e
    else c
  }

  // ----- what was meant -----

  function LexStep(x: Lexer, c: byte, signed: bool): Lexer {
    match x.mode
    case Escaped =>
      if c == DIGIT_0 then x.(open := true, mode := Quoted) else Extend(x, Unescape(c)).(mode := Quoted)
    case Quoted =>
      if c == QUOTE then Finish(x).(mode := Plain)
      else if c == BACKSLASH then x.(open := true, mode := Escaped)
      else Extend(x, c)
    case Plain =>
      if c == QUOTE then FinishOpen(x).(mode := Quoted)
      else if c == SPACE || IsCtl(c, signed) then FinishOpen(x)
      else if IsSeparator(c) then Finish(Extend(FinishOpen(x), c))
      else Extend(x, c)
  }

  function Lex(x: Lexer, line: bytes, signed: bool): Lexer
    decreases |line|
  {
    if line == [] then x else Lex(LexStep(x, line[0], signed), line[1..], signed)
  }

  /** The tokens of a line; an escaped \0 inside quotes is dropped. */
  function LineTokens(line: bytes, signed: bool): seq<bytes> {
    FinishOpen(Lex(START, line, signed)).done
  }

  /** How many times a quoted \0 escape occurs. */
  function ZeroEscapes(x: Lexer, line: bytes, signed: bool): nat
    decreases |line|
  {
    if line == [] then 0
    else (if x.mode == Escaped && line[0] == DIGIT_0 then 1 else 0)
         + ZeroEscapes(LexStep(x, line[0], signed), line[1..], signed)
  }

  // ----- what is done -----

  /** The bytes written before dst; how far dst stands before the buffer; whether a
      write fell there; and the local variables of the loop. */
  datatype Machine = Machine(out: bytes, below: nat, fault: bool, num: nat,
                             quoted: bool, escaped: bool, last: byte)

  const INITIAL := Machine([], 0, false, 0, false, false, NUL)

  /** *dst++ = c */
  function Put(m: Machine, c: byte): Machine {
    if m.below > 0 then m.(fault := true) else m.(out := m.out + [c])
  }

  /** --dst */
  function Back(m: Machine): Machine {
    if m.out == [] then m.(below := m.below + 1) else m.(out := m.out[..|m.out| - 1])
  }

  function Terminate(m: Machine): Machine {
    Put(m, NUL).(num := m.num + 1)
  }

  function TerminateIf(m: Machine, prev: byte): Machine {
    if prev != NUL then Terminate(m) else m
  }

  function QuotedStep(m: Machine, c: byte): Machine {
    if m.escaped then
      (if c == DIGIT_0 || c == NUL then Back(m) else Put(m, Unescape(c))).(escaped := false)
    else if c == QUOTE then Terminate(m).(quoted := false, last := NUL)
    else if c == BACKSLASH then m.(escaped := true)
    else if c == NUL then m
    else Put(m, c)
  }

  function PlainStep(m: Machine, c: byte, prev: byte, signed: bool): Machine {
    if c == QUOTE then TerminateIf(m, prev).(quoted := true, escaped := false, last := NUL)
    else if c == NUL then m
    else if c == SPACE then TerminateIf(m, prev).(last := NUL)
    else if IsSeparator(c) then Terminate(Put(TerminateIf(m, prev), c)).(last := NUL)
    else if IsCtl(c, signed) then TerminateIf(m, prev).(last := NUL)
    else Put(m, c)
  }

  /** One turn of the loop; nothing is said about a run after a write before the buffer. */
  function Step(m: Machine, c: byte, signed: bool): Machine {
    if m.fault then m
    else if m.quoted then QuotedStep(m.(last := c), c)
    else PlainStep(m.(last := c), c, m.last, signed)
  }

  function Run(m: Machine, line: bytes, signed: bool): Machine
    decreases |line|
  {
    if line == [] then m else Run(Step(m, line[0], signed), line[1..], signed)
  }

  function Result(line: bytes, signed: bool): Machine {
    var m := Run(INITIAL, line, signed);
    if m.fault then m else TerminateIf(m, m.last)
  }

  // ----- simulation -----

  /** Machine and lexer agree but for the k bytes that escapes have taken back. */
  predicate Related(m: Machine, x: Lexer, k: nat) {
    && (x.mode == Escaped ==> x.open) && (!x.open ==> x.cur == [])
    && if m.fault then k > 0
       else
         && (x.mode == Plain ==> m.below == 0)
         && (m.below > 0 ==> m.out == [] && x.open)
         && m.quoted == (x.mode != Plain) && m.escaped == (x.mode == Escaped)
         && (m.last != NUL) == x.open && m.num == |x.done|
         && |m.out| - m.below == Length(x) - k
         && (k == 0 ==> m.below == 0 && m.out == Join(x.done) + x.cur)
  }

  function Dropped(x: Lexer, c: byte): nat {
    if x.mode == Escaped && c == DIGIT_0 then 1 else 0
  }

  lemma TerminateRelated(m: Machine, x: Lexer, k: nat)
    requires Related(m, x, k) && !m.fault && x.mode != Escaped
    ensures var d := Terminate(m).(last := NUL); Related(d, Finish(x), k) || (x.mode == Quoted && d.fault && k > 0)
  {
    JoinPush(x.done, x.cur);
  }

  lemma PutRelated(m: Machine, x: Lexer, k: nat, c: byte, last: byte)
    requires Related(m, x, k) && !m.fault && last != NUL
    ensures Related(Put(m, c).(last := last), Extend(x, c), k)
  {
    assert Join(x.done) + (x.cur + [c]) == Join(x.done) + x.cur + [c];
  }

  lemma QuotedRelated(m: Machine, x: Lexer, k: nat, c: byte, signed: bool)
    requires Related(m, x, k) && !m.fault && x.mode != Plain && c != NUL
    ensures Related(Step(m, c, signed), LexStep(x, c, signed), k + Dropped(x, c))
  {
    if x.mode == Escaped {
      if c != DIGIT_0 {
        PutRelated(m, x, k, Unescape(c), c);
      }
    } else if c == QUOTE {
      TerminateRelated(m, x, k);
    } else if c != BACKSLASH {
      PutRelated(m, x, k, c, c);
    }
  }

  lemma PlainRelated(m: Machine, x: Lexer, k: nat, c: byte, signed: bool)
    requires Related(m, x, k) && !m.fault && x.mode == Plain && c != NUL
    ensures Related(Step(m, c, signed), LexStep(x, c, signed), k)
  {
    if c == QUOTE || c == SPACE || IsSeparator(c) || IsCtl(c, signed) {
      hide IsSeparator, IsCtl;
      var d := TerminateIf(m, m.last).(last := NUL);
      if x.open {
        TerminateRelated(m, x, k);
      }
      assert Related(d, FinishOpen(x), k);
      if c != QUOTE && c != SPACE && IsSeparator(c) {
        PutRelated(d, FinishOpen(x), k, c, c);
        TerminateRelated(Put(d, c).(last := c), Extend(FinishOpen(x), c), k);
      }
    } else {
      PutRelated(m, x, k, c, c);
    }
  }

  lemma StepRelated(m: Machine, x: Lexer, k: nat, c: byte, signed: bool)
    requires Related(m, x, k) && c != NUL
    ensures Related(Step(m, c, signed), LexStep(x, c, signed), k + Dropped(x, c))
  {
    if !m.fault {
      if x.mode == Plain {
        PlainRelated(m, x, k, c, signed);
      } else {
        QuotedRelated(m, x, k, c, signed);
      }
    }
  }

  lemma {:induction false} RunRelated(m: Machine, x: Lexer, k: nat, line: bytes, signed: bool)
    requires Related(m, x, k) && NulFree(line)
    ensures Related(Run(m, line, signed), Lex(x, line, signed), k + ZeroEscapes(x, line, signed))
    decreases |line|
  {
    if line != [] {
      var c := line[0];
      StepRelated(m, x, k, c, signed);
      hide Step, LexStep, Related;
      RunRelated(Step(m, c, signed), LexStep(x, c, signed), k + Dropped(x, c), line[1..], signed);
    }
  }

  predicate Correct(line: bytes, signed: bool) {
    var m := Result(line, signed);
    !m.fault && m.out == Join(LineTokens(line, signed)) && m.num == |LineTokens(line, signed)|
  }

  lemma EndRelated(m: Machine, x: Lexer, k: nat)
    requires Related(m, x, k)
    ensures var r, ts := if m.fault then m else TerminateIf(m, m.last), FinishOpen(x).done;
            !r.fault && r.out == Join(ts) && r.num == |ts| <==> k == 0
  {
    hide Join;
    JoinPush(x.done, x.cur);
    if k > 0 && !m.fault {
      var r := TerminateIf(m, m.last);
      assert r.fault || |r.out| < |Join(FinishOpen(x).done)|;
    }
  }

  /** The tokenizer hands over the tokens of the line if and only if the line has no
      quoted \0 escape: the escape takes back a byte that was never written. */
  lemma CorrectIff(line: bytes, signed: bool)
    requires NulFree(line)
    ensures Correct(line, signed) <==> ZeroEscapes(START, line, signed) == 0
  {
    RunRelated(INITIAL, START, 0, line, signed);
    hide Run, Lex, ZeroEscapes, Related, TerminateIf, FinishOpen, Join;
    EndRelated(Run(INITIAL, line, signed), Lex(START, line, signed), ZeroEscapes(START, line, signed));
  }

  // ----- memory -----

  lemma StepBound(m: Machine, c: byte, signed: bool)
    ensures |Step(m, c, signed).out| + Bit(Step(m, c, signed).last != NUL) <= |m.out| + Bit(m.last != NUL) + 2
  {
  }

  lemma {:induction false} RunBound(m: Machine, line: bytes, signed: bool)
    ensures |Run(m, line, signed).out| + Bit(Run(m, line, signed).last != NUL)
            <= |m.out| + Bit(m.last != NUL) + 2 * |line|
    decreases |line|
  {
    hide Step;
    if line != [] {
      StepBound(m, line[0], signed);
      RunBound(Step(m, line[0], signed), line[1..], signed);
    }
  }

  /** No line makes the tokenizer write past twice its length; the last byte of the
      buffer is only needed for an empty line. */
  lemma WritesBound(line: bytes, signed: bool)
    ensures |Result(line, signed).out| <= 2 * |line|
  {
    RunBound(INITIAL, line, signed);
  }

  /** At some point of the line more escapes have been dropped than bytes were due. */
  predicate Dips(x: Lexer, k: nat, line: bytes, signed: bool)
    decreases |line|
  {
    k > Length(x)
    || (line != [] && Dips(LexStep(x, line[0], signed), k + Dropped(x, line[0]), line[1..], signed))
  }

  predicate EndsInFault(m: Machine) {
    m.fault || TerminateIf(m, m.last).fault
  }

  lemma StepFault(m: Machine, c: byte, signed: bool)
    ensures m.fault ==> Step(m, c, signed).fault
    ensures m.below > 0 && m.quoted ==>
              Step(m, c, signed).fault || (Step(m, c, signed).below > 0 && Step(m, c, signed).quoted)
    ensures m.below == 0 ==> !Step(m, c, signed).fault || m.fault
  {
  }

  lemma {:induction false} BelowFaults(m: Machine, x: Lexer, k: nat, line: bytes, signed: bool)
    requires Related(m, x, k) && NulFree(line) && (m.fault || m.below > 0)
    ensures EndsInFault(Run(m, line, signed))
    decreases |line|
  {
    if line != [] {
      StepRelated(m, x, k, line[0], signed);
      StepFault(m, line[0], signed);
      hide Step, LexStep;
      BelowFaults(Step(m, line[0], signed), LexStep(x, line[0], signed), k + Dropped(x, line[0]), line[1..], signed);
    }
  }

  lemma RunUnfolds(m: Machine, line: bytes, signed: bool)
    requires line != []
    ensures Run(m, line, signed) == Run(Step(m, line[0], signed), line[1..], signed)
  {
  }

  lemma RunEmpty(m: Machine, signed: bool)
    ensures Run(m, [], signed) == m
  {
  }

  lemma BelowIff(m: Machine, x: Lexer, k: nat)
    requires Related(m, x, k) && !m.fault
    ensures m.below > 0 <==> k > Length(x)
    ensures m.below == 0 ==> !EndsInFault(m)
  {
  }

  lemma {:induction false} FaultDips(m: Machine, x: Lexer, k: nat, line: bytes, signed: bool)
    requires Related(m, x, k) && NulFree(line) && !m.fault
    ensures EndsInFault(Run(m, line, signed)) <==> Dips(x, k, line, signed)
    decreases |line|
  {
    hide Run, Step, LexStep, Related, Length, EndsInFault;
    BelowIff(m, x, k);
    if k > Length(x) {
      BelowFaults(m, x, k, line, signed);
    } else if line == [] {
      RunEmpty(m, signed);
    } else {
      var c := line[0];
      RunUnfolds(m, line, signed);
      StepRelated(m, x, k, c, signed);
      StepFault(m, c, signed);
      FaultDips(Step(m, c, signed), LexStep(x, c, signed), k + Dropped(x, c), line[1..], signed);
    }
  }

  /** The tokenizer writes before its buffer if and only if at some point of the line
      more escapes were dropped than bytes had been due. */
  lemma UnderflowIff(line: bytes, signed: bool)
    requires NulFree(line)
    ensures Result(line, signed).fault <==> Dips(START, 0, line, signed)
  {
    FaultDips(INITIAL, START, 0, line, signed);
  }

  /** Every line that starts with a quoted \0 is an example. */
  lemma UnderflowExample(rest: bytes, signed: bool)
    requires NulFree(rest)
    ensures Result([QUOTE, BACKSLASH, DIGIT_0] + rest, signed).fault
  {
    var line := [QUOTE, BACKSLASH, DIGIT_0] + rest;
    var x1 := LexStep(START, QUOTE, signed);
    var x2 := LexStep(x1, BACKSLASH, signed);
    var x3 := LexStep(x2, DIGIT_0, signed);
    assert x2.mode == Escaped && Length(x3) == 0;
    assert line[1..] == [BACKSLASH, DIGIT_0] + rest && line[1..][1..] == [DIGIT_0] + rest;
    assert Dips(x3, 1, line[1..][1..][1..], signed);
    assert Dips(x2, 0, line[1..][1..], signed);
    assert Dips(x1, 0, line[1..], signed);
    UnderflowIff(line, signed);
  }

  // ----- the tokens -----

  lemma {:induction false} LexNulFree(x: Lexer, line: bytes, signed: bool)
    requires NulFree(line) && AllNulFree(x.done) && NulFree(x.cur)
    ensures AllNulFree(Lex(x, line, signed).done) && NulFree(Lex(x, line, signed).cur)
    decreases |line|
  {
    if line != [] {
      LexNulFree(LexStep(x, line[0], signed), line[1..], signed);
    }
  }

  /** Without quoted \0 escapes: the buffer is empty or ends with a NUL, holds as many
      NULs as the count says, and callers that walk over it read the tokens of the line. */
  lemma TokensReadBack(line: bytes, signed: bool)
    requires NulFree(line) && ZeroEscapes(START, line, signed) == 0
    ensures var m := Result(line, signed);
            && !m.fault && (m.out != [] ==> m.out[|m.out| - 1] == NUL)
            && forall rest: bytes :: ReadTokens(m.out + rest, m.num) == LineTokens(line, signed)
  {
    CorrectIff(line, signed);
    LexNulFree(START, line, signed);
    var ts := LineTokens(line, signed);
    if ts != [] {
      JoinEnds(ts);
    }
    forall rest: bytes
      ensures ReadTokens(Join(ts) + rest, |ts|) == ts
    {
      ReadJoined(ts, rest);
    }
  }

  // ----- signed chars -----

  function NextMode(mode: Mode, c: byte): Mode {
    match mode
    case Plain => if c == QUOTE then Quoted else Plain
    case Quoted => if c == QUOTE then Plain else if c == BACKSLASH then Escaped else Quoted
    case Escaped => Quoted
  }

  function ModeAfter(mode: Mode, s: bytes): Mode
    decreases |s|
  {
    if s == [] then mode else ModeAfter(NextMode(mode, s[0]), s[1..])
  }

  /** How many bytes of 128 and above stand outside quotes. */
  function HighBytes(mode: Mode, line: bytes): nat
    decreases |line|
  {
    if line == [] then 0
    else (if mode == Plain && line[0] >= 128 then 1 else 0) + HighBytes(NextMode(mode, line[0]), line[1..])
  }

  /** Bytes in tokens, finished or not. */
  function Content(x: Lexer): int {
    Length(x) - |x.done|
  }

  lemma StepContent(x: Lexer, y: Lexer, c: byte)
    requires x.mode == y.mode && (!x.open ==> x.cur == []) && (!y.open ==> y.cur == [])
    ensures var x', y' := LexStep(x, c, true), LexStep(y, c, false);
            && x'.mode == y'.mode == NextMode(x.mode, c)
            && (!x'.open ==> x'.cur == []) && (!y'.open ==> y'.cur == [])
            && Content(y') - Content(x') ==
               Content(y) - Content(x) + if x.mode == Plain && c >= 128 then 1 else 0
  {
    hide Join;
    FinishContent(x);
    FinishContent(y);
    FinishContent(Extend(FinishOpen(x), c));
    FinishContent(Extend(FinishOpen(y), c));
  }

  lemma FinishContent(x: Lexer)
    ensures Content(Finish(x)) == Content(x)
  {
    JoinPush(x.done, x.cur);
  }

  lemma {:induction false} RunContent(x: Lexer, y: Lexer, line: bytes)
    requires x.mode == y.mode && (!x.open ==> x.cur == []) && (!y.open ==> y.cur == [])
    ensures Content(Lex(y, line, false)) - Content(Lex(x, line, true)) ==
            Content(y) - Content(x) + HighBytes(x.mode, line)
    decreases |line|
  {
    if line != [] {
      StepContent(x, y, line[0]);
      hide LexStep, Content, NextMode;
      RunContent(LexStep(x, line[0], true), LexStep(y, line[0], false), line[1..]);
    }
  }

  lemma {:induction false} SameWithoutHigh(x: Lexer, line: bytes)
    requires HighBytes(x.mode, line) == 0
    ensures Lex(x, line, true) == Lex(x, line, false)
    decreases |line|
  {
    if line != [] {
      SameWithoutHigh(LexStep(x, line[0], true), line[1..]);
    }
  }

  lemma {:induction false} HighBytesAt(mode: Mode, line: bytes)
    ensures HighBytes(mode, line) > 0 <==>
            exists k :: 0 <= k < |line| && line[k] >= 128 && ModeAfter(mode, line[..k]) == Plain
    decreases |line|
  {
    if line != [] {
      var next, rest := NextMode(mode, line[0]), line[1..];
      HighBytesAt(next, rest);
      assert line[..0] == [] && ModeAfter(mode, []) == mode;
      forall k | 0 < k < |line|
        ensures line[k] == rest[k - 1] && ModeAfter(mode, line[..k]) == ModeAfter(next, rest[..k - 1])
      {
        assert line[..k][1..] == rest[..k - 1];
      }
      if HighBytes(next, rest) > 0 {
        var k :| 0 <= k < |rest| && rest[k] >= 128 && ModeAfter(next, rest[..k]) == Plain;
        assert line[k + 1] >= 128 && ModeAfter(mode, line[..k + 1]) == Plain;
      }
    }
  }

  /** Whether plain chars are signed makes no difference to a line if and only if no byte
      of 128 or above stands outside quotes. */
  lemma SignednessIff(line: bytes)
    ensures LineTokens(line, true) == LineTokens(line, false) <==>
            !exists k :: 0 <= k < |line| && line[k] >= 128 && ModeAfter(Plain, line[..k]) == Plain
  {
    HighBytesAt(Plain, line);
    if HighBytes(Plain, line) == 0 {
      SameWithoutHigh(START, line);
    } else {
      RunContent(START, START, line);
      FinishContent(Lex(START, line, true));
      FinishContent(Lex(START, line, false));
      TokenContent(line, true);
      TokenContent(line, false);
    }
  }

  lemma TokenContent(line: bytes, signed: bool)
    ensures Content(Lex(START, line, signed)) ==
            |Join(LineTokens(line, signed))| - |LineTokens(line, signed)|
  {
    var x := Lex(START, line, signed);
    LexOpen(START, line, signed);
    JoinPush(x.done, x.cur);
  }

  lemma {:induction false} LexOpen(x: Lexer, line: bytes, signed: bool)
    requires !x.open ==> x.cur == []
    ensures !Lex(x, line, signed).open ==> Lex(x, line, signed).cur == []
    decreases |line|
  {
    if line != [] {
      LexOpen(LexStep(x, line[0], signed), line[1..], signed);
    }
  }

  /** A word with such a byte in the middle is one token, or two. */
  lemma SignednessExample()
    ensures LineTokens([97, 228, 98], false) == [[97, 228, 98]]
    ensures LineTokens([97, 228, 98], true) == [[97], [98]]
  {
    hide Lex;
    LexThree(START, 97, 228, 98, false);
    LexThree(START, 97, 228, 98, true);
    var x := LexStep(START, 97, true);
    assert x == LexStep(START, 97, false) == Lexer([], [97], true, Plain);
    var y, z := LexStep(x, 228, false), LexStep(x, 228, true);
    assert y == Lexer([], [97, 228], true, Plain) && z == Lexer([[97]], [], false, Plain);
    assert LexStep(y, 98, false) == Lexer([], [97, 228, 98], true, Plain);
    assert LexStep(z, 98, true) == Lexer([[97]], [98], true, Plain);
  }

  lemma LexThree(x: Lexer, a: byte, b: byte, c: byte, signed: bool)
    ensures Lex(x, [a, b, c], signed) == LexStep(LexStep(LexStep(x, a, signed), b, signed), c, signed)
  {
    hide LexStep;
    assert [a, b, c][1..] == [b, c] && [b, c][1..] == [c] && [c][1..] == [];
    assert Lex(LexStep(LexStep(x, a, signed), b, signed), [c], signed)
        == LexStep(LexStep(LexStep(x, a, signed), b, signed), c, signed);
  }

  // ----- the loop -----

  lemma {:induction false} FaultStays(m: Machine, line: bytes, signed: bool)
    requires m.fault
    ensures Run(m, line, signed) == m
    decreases |line|
  {
    if line != [] {
      FaultStays(m, line[1..], signed);
    }
  }

  /** The buffer holds what the machine has written, and dst stands where it says. */
  predicate Holds(t: array<byte>, dst: int, m: Machine)
    reads t
  {
    && !m.fault && dst == |m.out| - m.below && |m.out| <= t.Length && t[..|m.out|] == m.out
    && (m.below > 0 ==> m.out == [] && m.quoted)
    && 0 < t.Length && (m.out == [] && m.last == NUL ==> t[0] == NUL)
  }

  method Store(t: array<byte>, dst: int, c: byte, ghost m: Machine) returns (next: int)
    requires Holds(t, dst, m) && 0 <= dst < t.Length
    modifies t
    ensures Holds(t, next, Put(m, c))
  {
    t[dst] := c;
    next := dst + 1;
    assert t[..dst] == m.out;
  }

  /** The loop body inside quotes; ok is false where the source writes before its buffer. */
  method QuotedTurn(t: array<byte>, dst: int, num: nat, escaped: bool, c: byte, ghost m: Machine)
      returns (next: int, n: nat, quoted: bool, esc: bool, last: byte, ok: bool)
    requires Holds(t, dst, m) && m.quoted && m.escaped == escaped && m.num == num && m.last == c
    requires |m.out| < t.Length && c != NUL
    modifies t
    ensures ok <==> !QuotedStep(m, c).fault
    ensures ok ==> Holds(t, next, QuotedStep(m, c))
    ensures ok ==> var d := QuotedStep(m, c); d == Machine(d.out, d.below, false, n, quoted, esc, last)
  {
    next, n, quoted, esc, last, ok := dst, num, true, escaped, c, true;
    if escaped {
      if c == DIGIT_0 || c == NUL {
        next := dst - 1;
      } else if dst < 0 {
        ok := false;
      } else {
        next := Store(t, dst, Unescape(c), m);
      }
      esc := false;
    } else if c == QUOTE {
      if dst < 0 {
        ok := false;
      } else {
        next := Store(t, dst, NUL, m);
        n, quoted, last := num + 1, false, NUL;
      }
    } else if c == BACKSLASH {
      esc := true;
    } else if c != NUL {
      if dst < 0 {
        ok := false;
      } else {
        next := Store(t, dst, c, m);
      }
    }
  }

  /** The loop body outside quotes; nothing is taken back there. */
  method PlainTurn(t: array<byte>, dst: int, num: nat, escaped: bool, c: byte, prev: byte, signed: bool,
                   ghost m: Machine)
      returns (next: int, n: nat, quoted: bool, esc: bool, last: byte)
    requires Holds(t, dst, m) && !m.quoted && m.escaped == escaped && m.num == num && m.last == c && m.below == 0
    requires |m.out| + Bit(prev != NUL) + 2 <= t.Length && (m.out == [] && prev == NUL ==> t[0] == NUL)
    modifies t
    ensures Holds(t, next, PlainStep(m, c, prev, signed))
    ensures var d := PlainStep(m, c, prev, signed); d == Machine(d.out, d.below, false, n, quoted, esc, last)
  {
    next, n, quoted, esc, last := dst, num, false, escaped, c;
    if c == QUOTE || c == SPACE || IsSeparator(c) || IsCtl(c, signed) {
      if c == NUL {
        return;
      }
      ghost var m1 := TerminateIf(m, prev);
      if prev != NUL {
        next := Store(t, next, NUL, m);
        n := n + 1;
      }
      if c == QUOTE {
        quoted, esc := true, false;
      } else if c != SPACE && IsSeparator(c) {
        next := Store(t, next, c, m1);
        next := Store(t, next, NUL, Put(m1, c));
        n := n + 1;
      }
      last := NUL;
    } else {
      next := Store(t, dst, c, m);
    }
  }

  /** owfd_rtsp_tokenize; ok is false where the source writes before its buffer. */
  method Tokenize(line: bytes, signed: bool) returns (t: array<byte>, num: nat, ok: bool)
    requires NulFree(line)
    ensures fresh(t) && t.Length == 2 * |line| + 1
    ensures ok <==> !Result(line, signed).fault
    ensures ok ==> num == Result(line, signed).num && Result(line, signed).out <= t[..]
    ensures ok && Result(line, signed).out == [] ==> t[0] == NUL
  {
    hide Run, QuotedStep, PlainStep;
    t := new byte[2 * |line| + 1];
    t[0] := NUL;
    num, ok := 0, true;
    var dst: int, quoted, escaped, last := 0, false, false, NUL;
    ghost var m := INITIAL;
    var i := 0;
    assert line[0..] == line;
    while i < |line|
      invariant 0 <= i <= |line|
      invariant Run(m, line[i..], signed) == Run(INITIAL, line, signed)
      invariant Holds(t, dst, m) && Machine(m.out, m.below, false, num, quoted, escaped, last) == m
      invariant |m.out| + Bit(last != NUL) <= 2 * i
    {
      var c, prev := line[i], last;
      ghost var next := Step(m, c, signed);
      RunUnfolds(m, line[i..], signed);
      assert line[i..][1..] == line[i + 1..];
      StepBound(m, c, signed);
      FaultRest(next, line[i + 1..], signed);
      if quoted {
        dst, num, quoted, escaped, last, ok := QuotedTurn(t, dst, num, escaped, c, m.(last := c));
        if !ok {
          return;
        }
      } else {
        dst, num, quoted, escaped, last := PlainTurn(t, dst, num, escaped, c, prev, signed, m.(last := c));
      }
      m := next;
      i := i + 1;
    }
    assert line[i..] == [];
    RunEmpty(m, signed);
    if last != NUL {
      if dst < 0 {
        ok := false;
        return;
      }
      dst := Store(t, dst, NUL, m);
      num := num + 1;
    }
  }

  lemma FaultRest(m: Machine, line: bytes, signed: bool)
    ensures m.fault ==> Run(m, line, signed).fault
  {
    if m.fault {
      FaultStays(m, line, signed);
    }
  }
}
