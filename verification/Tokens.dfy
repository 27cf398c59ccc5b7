/** Token lists as the tokenizers hand them over: each token followed by a NUL, one
    after the other in one buffer, together with their number. */
module Tokens {
  import opened Bytes

  predicate AllNulFree(ts: seq<bytes>) {
    forall i :: 0 <= i < |ts| ==> NulFree(ts[i])
  }

  function Join(ts: seq<bytes>): bytes {
    if ts == [] then [] else Join(ts[..|ts| - 1]) + ts[|ts| - 1] + [NUL]
  }

  lemma JoinPush(ts: seq<bytes>, t: bytes)
    ensures Join(ts + [t]) == Join(ts) + t + [NUL]
  {
    assert (ts + [t])[..|ts|] == ts;
  }

  lemma {:induction false} JoinFront(t: bytes, ts: seq<bytes>)
    ensures Join([t] + ts) == t + [NUL] + Join(ts)
    decreases |ts|
  {
    if ts == [] {
      JoinPush([], t);
      assert [t] + ts == [] + [t] && Join([]) + t + [NUL] == t + [NUL] + Join(ts);
    } else {
      var r, z := ts[..|ts| - 1], ts[|ts| - 1];
      JoinFront(t, r);
      hide Join;
      assert ts == r + [z] && [t] + ts == ([t] + r) + [z];
      JoinPush(r, z);
      JoinPush([t] + r, z);
      assert t + [NUL] + Join(r) + z + [NUL] == t + [NUL] + (Join(r) + z + [NUL]);
    }
  }

  /** Every nonempty token buffer ends with a NUL. */
  lemma JoinEnds(ts: seq<bytes>)
    requires ts != []
    ensures Join(ts) != [] && Join(ts)[|Join(ts)| - 1] == NUL
  {
  }

  function StrLen(s: bytes): (n: nat)
    ensures n <= |s| && NulFree(s[..n]) && (n < |s| ==> s[n] == NUL)
  {
    if s == [] || s[0] == NUL then 0 else 1 + StrLen(s[1..])
  }

  /** How callers walk over num tokens: by string length plus one. */
  function ReadTokens(buf: bytes, num: nat): seq<bytes>
    decreases num
  {
    if num == 0 then []
    else
      var n := StrLen(buf);
      [buf[..n]] + ReadTokens(if n < |buf| then buf[n + 1..] else [], num - 1)
  }

  lemma {:induction false} StrLenOf(t: bytes, rest: bytes)
    requires NulFree(t)
    ensures StrLen(t + [NUL] + rest) == |t|
  {
    if t != [] {
      StrLenOf(t[1..], rest);
      assert (t + [NUL] + rest)[1..] == t[1..] + [NUL] + rest;
    }
  }

  lemma ReadFirst(t: bytes, more: bytes, num: nat)
    requires NulFree(t)
    ensures ReadTokens(t + [NUL] + more, num + 1) == [t] + ReadTokens(more, num)
  {
    var buf := t + [NUL] + more;
    StrLenOf(t, more);
    assert buf[|t| + 1..] == more && buf[..|t|] == t;
  }

  /** Walking over a token buffer gives back the tokens, whatever follows them. */
  lemma {:induction false} ReadJoined(ts: seq<bytes>, rest: bytes)
    requires AllNulFree(ts)
    ensures ReadTokens(Join(ts) + rest, |ts|) == ts
    decreases |ts|
  {
    if ts != [] {
      hide ReadTokens, Join;
      var t, us := ts[0], ts[1..];
      assert ts == [t] + us;
      JoinFront(t, us);
      assert t + [NUL] + Join(us) + rest == t + [NUL] + (Join(us) + rest);
      ReadFirst(t, Join(us) + rest, |us|);
      ReadJoined(us, rest);
    }
  }

  // ----- a line being cut into tokens -----

  datatype Mode = Plain | Quoted | Escaped

  /** The finished tokens, the current one, and whether there is a current one. */
  datatype Lexer = Lexer(done: seq<bytes>, cur: bytes, open: bool, mode: Mode)

  const START := Lexer([], [], false, Plain)

  function Finish(x: Lexer): Lexer {
    x.(done := x.done + [x.cur], cur := [], open := false)
  }

  function FinishOpen(x: Lexer): Lexer {
    if x.open then Finish(x) else x
  }

  function Extend(x: Lexer, c: byte): Lexer {
    x.(cur := x.cur + [c], open := true)
  }

  /** The bytes due so far. */
  function Length(x: Lexer): nat {
    |Join(x.done)| + |x.cur|
  }

  function Bit(b: bool): nat {
    if b then 1 else 0
  }

  /** The lexer stands between two tokens. */
  predicate Between(x: Lexer) {
    x.mode == Plain && !x.open && x.cur == []
  }

  /** The lexer after more tokens. */
  function After(x: Lexer, ts: seq<bytes>): Lexer {
    x.(done := x.done + ts)
  }

  lemma AfterMore(x: Lexer, t: bytes, ts: seq<bytes>)
    requires Between(x)
    ensures Between(After(x, [t])) && After(x, []) == x
    ensures After(After(x, [t]), ts) == After(x, [t] + ts)
  {
    assert x.done + [] == x.done;
    assert x.done + [t] + ts == x.done + ([t] + ts);
  }
}
