/** The tokenizer for events of the wpa supplicant (tokenize in src/wpa_parser.c): blanks
    separate tokens, single quotes protect blanks, and a backslash inside quotes protects
    the next byte. A line is the bytes of a C string, up to its terminating NUL. */
module WpaTokenizer {
  import opened Bytes
  import opened Tokens

  predicate IsBlank(c: byte) {
    c == SPACE || c == LF || c == TAB || c == CR
  }

  function LexStep(x: Lexer, c: byte): Lexer {
    match x.mode
    case Escaped => Extend(x, c).(mode := Quoted)
    case Quoted =>
      if c == APOSTROPHE then x.(mode := Plain)
      else if c == BACKSLASH then x.(mode := Escaped)
      else Extend(x, c)
    case Plain =>
      if IsBlank(c) then FinishOpen(x)
      else if c == APOSTROPHE then x.(open := true, mode := Quoted)
      else Extend(x, c)
  }

  function Lex(x: Lexer, line: bytes): Lexer
    decreases |line|
  {
    if line == [] then x else Lex(LexStep(x, line[0]), line[1..])
  }

  function LineTokens(line: bytes): seq<bytes> {
    FinishOpen(Lex(START, line)).done
  }

  // ----- memory -----

  /** An opened quote opens a token. */
  predicate Proper(x: Lexer) {
    (x.mode != Plain ==> x.open) && (x.open || x.cur == [])
  }

  lemma StepBound(x: Lexer, c: byte)
    requires Proper(x)
    ensures Proper(LexStep(x, c))
    ensures Length(LexStep(x, c)) <= Length(x) + 1
  {
    JoinPush(x.done, x.cur);
  }

  lemma {:induction false} LexBound(x: Lexer, line: bytes)
    requires Proper(x)
    ensures Proper(Lex(x, line))
    ensures Length(Lex(x, line)) <= Length(x) + |line|
    decreases |line|
  {
    hide LexStep, Length;
    if line != [] {
      StepBound(x, line[0]);
      LexBound(LexStep(x, line[0]), line[1..]);
    }
  }

  /** The tokens with their NULs take no more room than the line with its NUL. */
  lemma TokensFit(line: bytes)
    ensures |Join(LineTokens(line))| <= |line| + 1
  {
    LexBound(START, line);
    var x := Lex(START, line);
    JoinPush(x.done, x.cur);
  }

  lemma {:induction false} LexNulFree(x: Lexer, line: bytes)
    requires NulFree(line) && AllNulFree(x.done) && NulFree(x.cur)
    ensures AllNulFree(Lex(x, line).done) && NulFree(Lex(x, line).cur)
    decreases |line|
  {
    if line != [] {
      LexNulFree(LexStep(x, line[0]), line[1..]);
    }
  }

  /** Callers that walk over the buffer read the tokens of the line. */
  lemma TokensReadBack(line: bytes, rest: bytes)
    requires NulFree(line)
    ensures ReadTokens(Join(LineTokens(line)) + rest, |LineTokens(line)|) == LineTokens(line)
  {
    LexNulFree(START, line);
    ReadJoined(LineTokens(line), rest);
  }

  // ----- the loop -----

  /** The buffer holds what the lexer has read, and the locals say where it stands. */
  predicate Holds(buf: array<byte>, dst: nat, n: nat, quoted: bool, escaped: bool, last: byte, x: Lexer)
    reads buf
  {
    && dst == Length(x) && dst < buf.Length && buf[..dst] == Join(x.done) + x.cur
    && n == |x.done| && quoted == (x.mode != Plain) && escaped == (x.mode == Escaped)
    && (last != NUL) == x.open && Proper(x)
    && (dst == 0 && !x.open ==> buf[0] == NUL)
  }

  /** *dst++ = c for a byte of the line. */
  method Store(buf: array<byte>, dst: nat, c: byte, ghost x: Lexer) returns (next: nat)
    requires dst == Length(x) && dst + 1 < buf.Length && buf[..dst] == Join(x.done) + x.cur
    modifies buf
    ensures next == dst + 1 && buf[..next] == Join(x.done) + (x.cur + [c])
  {
    buf[dst] := c;
    next := dst + 1;
    assert buf[..next] == buf[..dst] + [c];
  }

  method Turn(buf: array<byte>, dst: nat, n: nat, quoted: bool, escaped: bool, last: byte, c: byte, ghost x: Lexer)
      returns (d: nat, m: nat, q: bool, e: bool, l: byte)
    requires Holds(buf, dst, n, quoted, escaped, last, x) && c != NUL && dst + 1 < buf.Length
    modifies buf
    ensures Holds(buf, d, m, q, e, l, LexStep(x, c))
  {
    hide IsBlank;
    d, m, q, e, l := dst, n, quoted, escaped, last;
    if quoted {
      if escaped {
        e := false;
        l := c;
        d := Store(buf, dst, c, x);
      } else if c == APOSTROPHE {
        q := false;
      } else if c == BACKSLASH {
        e := true;
      } else {
        l := c;
        d := Store(buf, dst, c, x);
      }
    } else if IsBlank(c) {
      if last != NUL {
        JoinPush(x.done, x.cur);
        d := Store(buf, dst, NUL, x);
        m := n + 1;
      }
      l := NUL;
    } else if c == APOSTROPHE {
      q, e, l := true, false, c;
    } else {
      l := c;
      d := Store(buf, dst, c, x);
    }
  }

  /** The last token gets its NUL, though dst does not move on. */
  method Finalise(buf: array<byte>, dst: nat, n: nat, quoted: bool, escaped: bool, last: byte, ghost x: Lexer)
      returns (num: nat)
    requires Holds(buf, dst, n, quoted, escaped, last, x)
    modifies buf
    ensures num == |FinishOpen(x).done| && Join(FinishOpen(x).done) <= buf[..]
    ensures num == 0 ==> buf[0] == NUL
  {
    num := n;
    JoinPush(x.done, x.cur);
    assert Join([]) == [];
    hide Join;
    if last != NUL {
      buf[dst] := NUL;
      num := n + 1;
      assert buf[..dst + 1] == buf[..dst] + [NUL];
    } else {
      assert x.cur == [];
      if num == 0 {
        assert Join(x.done) == [];
      }
    }
  }

  lemma LexUnfolds(x: Lexer, line: bytes)
    requires line != []
    ensures Lex(x, line) == Lex(LexStep(x, line[0]), line[1..])
  {
  }

  lemma LexEmpty(x: Lexer)
    ensures Lex(x, []) == x
  {
  }

  /** tokenize: no write falls outside a buffer of the line's length plus one. */
  method Tokenize(src: bytes) returns (buf: array<byte>, num: nat)
    requires NulFree(src)
    ensures fresh(buf) && buf.Length == |src| + 1
    ensures num == |LineTokens(src)| && Join(LineTokens(src)) <= buf[..]
    ensures num == 0 ==> buf[0] == NUL
  {
    hide Lex, LexStep, FinishOpen;
    buf := new byte[|src| + 1];
    buf[0] := NUL;
    var dst: nat, n: nat, quoted, escaped, last := 0, 0, false, false, NUL;
    ghost var x := START;
    var i := 0;
    assert src[0..] == src;
    while i < |src|
      invariant 0 <= i <= |src|
      invariant Lex(x, src[i..]) == Lex(START, src)
      invariant Holds(buf, dst, n, quoted, escaped, last, x)
      invariant dst <= i
    {
      LexUnfolds(x, src[i..]);
      assert src[i..][1..] == src[i + 1..];
      StepBound(x, src[i]);
      dst, n, quoted, escaped, last := Turn(buf, dst, n, quoted, escaped, last, src[i], x);
      x := LexStep(x, src[i]);
      i := i + 1;
    }
    assert src[i..] == [];
    LexEmpty(x);
    num := Finalise(buf, dst, n, quoted, escaped, last, x);
  }
}
