/** What the sanitizer of header lines writes, byte by byte: told by where a byte stands and
    by its neighbour, without the state the loop carries along. */
module SanitizedText {
  import opened Bytes
  import opened HeaderLine

  predicate Blank(c: byte) {
    c == 9 || c == 10 || c == 13 || c == 32
  }

  /** What the byte at i contributes. Behind a backslash in quotes: itself, a NUL as the digit
      0. Else nothing for a NUL; itself in quotes or if it is no white-space; and for
      white-space outside quotes one space, unless the byte before it was white-space too. */
  function Contribution(s: bytes, i: nat): bytes
    requires i < |s|
  {
    var q := QScan(s[..i]);
    if q == Esc then [if s[i] == 0 then 48 else s[i]]
    else if s[i] == 0 then []
    else if q == In || !Blank(s[i]) then [s[i]]
    else if i > 0 && Blank(s[i - 1]) then []
    else [32]
  }

  function Contributions(s: bytes, n: nat): bytes
    requires n <= |s|
  {
    if n == 0 then [] else Contributions(s, n - 1) + Contribution(s, n - 1)
  }

  /** The byte remembered is a space exactly when it was white-space, wherever that matters. */
  lemma LastIsBlank(s: bytes)
    ensures QScan(s) == Out ==> (SanScan(s).last == SPACE <==> s != [] && Blank(s[|s| - 1]))
  {
    if s != [] {
      var r, c := Split(s);
      SanScanPush(r, c);
      SanQuoting(r);
    }
  }

  lemma {:induction false} ScanContributions(s: bytes, n: nat)
    requires n <= |s|
    ensures SanScan(s[..n]).out == Contributions(s, n)
  {
    if n == 0 {
      assert s[..0] == [];
    } else {
      ScanContributions(s, n - 1);
      SanScanTake(s, n - 1);
      EmitsContribution(s, n - 1);
      hide SanScan, Emit, Contribution;
    }
  }

  lemma EmitsContribution(s: bytes, i: nat)
    requires i < |s|
    ensures Emit(SanScan(s[..i]), s[i]) == Contribution(s, i)
  {
    LastIsBlank(s[..i]);
    SanQuoting(s[..i]);
    assert i > 0 ==> s[..i][i - 1] == s[i - 1];
    hide SanScan, QScan, Emit, Blank;
    EmitsFor(SanScan(s[..i]), s[i], i > 0 && Blank(s[i - 1]));
  }

  lemma EmitsFor(st: San, c: byte, behindBlank: bool)
    requires st.q == Out ==> (st.last == SPACE <==> behindBlank)
    ensures Emit(st, c) ==
            if st.q == Esc then [if c == 0 then 48 else c]
            else if c == 0 then []
            else if st.q == In || !Blank(c) then [c]
            else if behindBlank then []
            else [32]
  {
  }

  /** A sanitized line is these contributions in order, without the spaces at the end. */
  lemma SanitizedBytes(s: bytes)
    ensures var out, t := Contributions(s, |s|), Sanitize(s);
            && t <= out && (forall i :: |t| <= i < |out| ==> out[i] == 32)
            && (t != [] ==> t[|t| - 1] != 32)
  {
    ScanContributions(s, |s|);
    assert s[..|s|] == s;
  }

  /** How often quotes were opened or closed: at every quote but those that a backslash
      inside quotes protects. The number tells whether a position is inside. */
  function Toggles(s: bytes): nat {
    if s == [] then 0
    else
      var r := s[..|s| - 1];
      Toggles(r) + if s[|s| - 1] == QUOTE && !(Toggles(r) % 2 == 1 && Escapes(r)) then 1 else 0
  }

  /** The bytes end with a backslash that protects what follows: one that stands inside quotes
      and is not protected itself. */
  predicate Escapes(s: bytes) {
    s != [] && s[|s| - 1] == BACKSLASH && Toggles(s[..|s| - 1]) % 2 == 1 && !Escapes(s[..|s| - 1])
  }

  lemma {:induction false} QuotesByCounting(s: bytes)
    ensures QScan(s) == if Toggles(s) % 2 == 0 then Out else if Escapes(s) then Esc else In
  {
    if s != [] {
      QuotesByCounting(s[..|s| - 1]);
    }
  }
}
