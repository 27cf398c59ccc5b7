/** When sanitizing a header line a second time changes it again. A NUL is dropped, but
    makes the sanitizer forget the space before it: white-space on both sides is kept the
    first time and folded the second. */
module SanitizeTwice {
  import opened Bytes
  import opened HeaderLine

  /** White-space outside quotes at i, then one NUL or more, then white-space at j. */
  predicate Gap(s: bytes, i: nat, j: nat) {
    && i + 1 < j < |s| && QScan(s[..i]) == Out && IsLws(s[i]) && IsLws(s[j])
    && forall m :: i < m < j ==> s[m] == NUL
  }

  /** A byte that is delivered as it is, and not as a space. */
  predicate IsSolid(c: byte) {
    !IsLws(c) && c != NUL
  }

  // ----- gaps, byte by byte -----

  /** s ends with white-space outside quotes, and NULs. */
  predicate Hanging(s: bytes) {
    s != [] &&
    var r, c := s[..|s| - 1], s[|s| - 1];
    QScan(r) == Out && (IsLws(c) || (c == NUL && Hanging(r)))
  }

  predicate HasGap(s: bytes) {
    s != [] &&
    var r, c := s[..|s| - 1], s[|s| - 1];
    HasGap(r) || (QScan(r) == Out && IsLws(c) && Hanging(r) && r[|r| - 1] == NUL)
  }

  predicate Tail(s: bytes, i: nat) {
    i < |s| && QScan(s[..i]) == Out && IsLws(s[i]) && forall m :: i < m < |s| ==> s[m] == NUL
  }

  lemma {:induction false} TailHangs(s: bytes, i: nat)
    requires Tail(s, i)
    ensures Hanging(s) && QScan(s) == Out
  {
    var n := |s| - 1;
    if i < n {
      assert s[..n][..i] == s[..i];
      TailHangs(s[..n], i);
      assert s[n] == NUL;
    }
  }

  lemma {:induction false} HangingTail(s: bytes) returns (i: nat)
    requires Hanging(s)
    ensures Tail(s, i)
  {
    var n := |s| - 1;
    if IsLws(s[n]) {
      i := n;
    } else {
      i := HangingTail(s[..n]);
      assert s[..n][..i] == s[..i];
    }
  }

  lemma {:induction false} GapFound(s: bytes, i: nat, j: nat)
    requires Gap(s, i, j)
    ensures HasGap(s)
  {
    var n := |s| - 1;
    var r := s[..n];
    assert r[..i] == s[..i];
    if j < n {
      GapFound(r, i, j);
    } else {
      assert Tail(r, i);
      TailHangs(r, i);
      assert r[n - 1] == NUL;
    }
  }

  lemma {:induction false} FoundGap(s: bytes) returns (i: nat, j: nat)
    requires HasGap(s)
    ensures Gap(s, i, j)
  {
    var n := |s| - 1;
    var r := s[..n];
    if HasGap(r) {
      i, j := FoundGap(r);
    } else {
      i := HangingTail(r);
      j := n;
    }
    assert r[..i] == s[..i];
  }

  // ----- scanning the output -----

  lemma Empty()
    ensures SanScan([]) == San([], Out, NUL) && QScan([]) == Out && !Hanging([]) && !HasGap([])
  {
  }

  lemma GapPush(r: bytes, c: byte)
    ensures Hanging(r + [c]) <==> QScan(r) == Out && (IsLws(c) || (c == NUL && Hanging(r)))
    ensures HasGap(r + [c]) <==>
            HasGap(r) || (QScan(r) == Out && IsLws(c) && Hanging(r) && r != [] && r[|r| - 1] == NUL)
  {
    assert (r + [c])[..|r|] == r;
  }

  /** One byte more: what the scan does, and what a scan of its output does. */
  lemma PushOut(r: bytes, c: byte)
    ensures var st := SanScan(r); var u, e := SanScan(st.out), Emit(st, c);
            && st.q == QScan(r) == u.q && QScan(r + [c]) == QStep(st.q, c)
            && SanScan(r + [c]) == SanStep(st, c)
            && SanScan(SanStep(st, c).out) == if e == [] then u else SanStep(u, e[0])
  {
    hide SanScan, QScan;
    var st := SanScan(r);
    SanScanPush(r, c);
    SanQuoting(r);
    SanQuoting(st.out);
    var e := Emit(st, c);
    if e == [] {
      assert st.out + e == st.out;
    } else {
      assert e == [e[0]];
      SanScanPush(st.out, e[0]);
    }
  }

  lemma RememberedPush(r: bytes, c: byte)
    requires QScan(r + [c]) == Out
    ensures SanScan(r + [c]).last == SPACE ==> Hanging(r + [c])
    ensures Hanging(r + [c]) ==> SanScan(r + [c]).last == SPACE || c == NUL
    ensures c == NUL ==> SanScan(r + [c]).last == NUL
  {
    hide SanScan, QScan, Hanging;
    PushOut(r, c);
    GapPush(r, c);
  }

  lemma HangingOutPush(r: bytes, c: byte)
    requires QScan(r + [c]) == Out
    requires QScan(r) == Out ==> (Hanging(r) <==> SanScan(SanScan(r).out).last == SPACE)
    requires QScan(r) == Out && SanScan(r).last == SPACE ==> Hanging(r)
    ensures Hanging(r + [c]) <==> SanScan(SanScan(r + [c]).out).last == SPACE
  {
    hide SanScan, QScan, Hanging;
    PushOut(r, c);
    GapPush(r, c);
  }

  /** The output ends with a space outside quotes just when the input hangs; the byte
      remembered tells white-space at the end from NULs behind it. */
  lemma {:induction false} HangingOut(s: bytes)
    requires QScan(s) == Out
    ensures Hanging(s) <==> SanScan(SanScan(s).out).last == SPACE
    ensures SanScan(s).last == SPACE ==> Hanging(s)
    ensures s != [] && Hanging(s) ==> (s[|s| - 1] == NUL <==> SanScan(s).last != SPACE)
    decreases |s|
  {
    Empty();
    hide SanScan, QScan, Hanging;
    if s != [] {
      var r, c := Split(s);
      if QScan(r) == Out {
        HangingOut(r);
      }
      HangingOutPush(r, c);
      RememberedPush(r, c);
    }
  }

  predicate Clean(o: bytes) {
    SanScan(o).out == o
  }

  predicate Shrinks(o: bytes) {
    |SanScan(o).out| < |o|
  }

  /** A space that the first scan emits and the second one drops. */
  predicate Folds(st: San, u: San, c: byte) {
    st.q == Out && IsLws(c) && st.last != SPACE && u.last == SPACE
  }

  lemma StepShrinks(st: San, u: San, c: byte)
    requires st.q == u.q && (Emit(st, c) != [] ==> Emit(st, c)[0] != NUL)
    ensures var e := Emit(st, c); var t, v := SanStep(st, c), if e == [] then u else SanStep(u, e[0]);
            && (|u.out| < |st.out| ==> |v.out| < |t.out|)
            && (u.out == st.out ==> if Folds(st, u, c) then |v.out| < |t.out| else v.out == t.out)
  {
    assert st.out + [] == st.out && u.out + [] == u.out;
  }

  lemma GapShrinksPush(r: bytes, c: byte)
    requires if HasGap(r) then Shrinks(SanScan(r).out) else Clean(SanScan(r).out)
    ensures if HasGap(r + [c]) then Shrinks(SanScan(r + [c]).out) else Clean(SanScan(r + [c]).out)
  {
    Empty();
    SanNulFree(r + [c]);
    hide SanScan, QScan, Hanging, HasGap;
    var st := SanScan(r);
    var u := SanScan(st.out);
    PushOut(r, c);
    GapPush(r, c);
    if st.q == Out {
      HangingOut(r);
    }
    assert Emit(st, c) != [] ==> SanStep(st, c).out[|st.out|] == Emit(st, c)[0];
    assert HasGap(r + [c]) <==> HasGap(r) || Folds(st, u, c);
    StepShrinks(st, u, c);
  }

  /** A scan of the output drops bytes if the input has a gap, and else keeps all. */
  lemma {:induction false} GapShrinks(s: bytes)
    ensures if HasGap(s) then Shrinks(SanScan(s).out) else Clean(SanScan(s).out)
    decreases |s|
  {
    Empty();
    hide SanScan, QScan, Hanging, HasGap, Shrinks;
    if s != [] {
      var r, c := Split(s);
      GapShrinks(r);
      GapShrinksPush(r, c);
    }
  }

  lemma {:induction false} ShrinksMore(o: bytes, p: bytes)
    requires Shrinks(o) && o <= p
    ensures Shrinks(p)
    decreases |p|
  {
    if |o| < |p| {
      var r := p[..|p| - 1];
      ShrinksMore(o, r);
    } else {
      assert o == p;
    }
  }

  // ----- the end of the line -----

  /** The length up to and including the last solid byte. */
  function CoreLength(s: bytes): (n: nat)
    ensures n <= |s| && (n > 0 ==> IsSolid(s[n - 1]))
    ensures forall k :: n <= k < |s| ==> !IsSolid(s[k])
  {
    if s == [] then 0
    else if IsSolid(s[|s| - 1]) then |s|
    else CoreLength(s[..|s| - 1])
  }

  lemma CoreEnds(a: bytes)
    requires a != [] && IsSolid(a[|a| - 1])
    ensures var o := SanScan(a).out; o != [] && o[|o| - 1] == a[|a| - 1] != SPACE
  {
  }

  lemma ByteAfterCore(r: bytes, c: byte)
    requires !IsSolid(c)
    ensures SanScan(r).out <= SanScan(r + [c]).out
    ensures QScan(r) == Out ==> QScan(r + [c]) == Out && TrimRight(SanScan(r + [c]).out) == TrimRight(SanScan(r).out)
    ensures QScan(r) != Out ==> QScan(r + [c]) != Out && HasGap(r + [c]) == HasGap(r)
  {
    hide SanScan, QScan, HasGap, Hanging, TrimRight;
    PushOut(r, c);
    GapPush(r, c);
    var st := SanScan(r);
    assert st.out + [] == st.out;
    TrimSpace(st.out);
  }

  lemma Prefixes(a: bytes, b: bytes, c: bytes)
    requires a <= b <= c
    ensures a <= c
  {
  }

  /** What follows the core is trimmed away outside quotes, and is no gap inside. */
  lemma {:induction false} AfterCore(a: bytes, s: bytes)
    requires a <= s && forall k :: |a| <= k < |s| ==> !IsSolid(s[k])
    ensures SanScan(a).out <= SanScan(s).out
    ensures QScan(a) == Out ==> QScan(s) == Out && TrimRight(SanScan(s).out) == TrimRight(SanScan(a).out)
    ensures QScan(a) != Out ==> QScan(s) != Out && HasGap(s) == HasGap(a)
    decreases |s|
  {
    hide SanScan, QScan, HasGap, TrimRight;
    if |a| == |s| {
      assert a == s;
    } else {
      var r, c := s[..|s| - 1], s[|s| - 1];
      assert s == r + [c] && a <= r;
      AfterCore(a, r);
      hide IsSolid;
      ByteAfterCore(r, c);
      Prefixes(SanScan(a).out, SanScan(r).out, SanScan(s).out);
    }
  }

  /** The delivered line is the output, cut somewhere behind the output of the core. */
  lemma CoreKept(s: bytes)
    ensures var a := s[..CoreLength(s)];
            && SanScan(a).out <= Sanitize(s) <= SanScan(s).out
            && (QScan(a) == Out ==> Sanitize(s) == SanScan(a).out)
            && (QScan(a) != Out ==> HasGap(s) == HasGap(a))
  {
    var a := s[..CoreLength(s)];
    AfterCore(a, s);
    if a != [] {
      CoreEnds(a);
    } else {
      Empty();
    }
    hide SanScan, QScan, HasGap, CoreLength;
    var o := SanScan(a).out;
    TrimStep(o);
  }

  lemma TrimmedFixed(o: bytes, out: bytes)
    requires o == TrimRight(out)
    ensures Clean(o) ==> Sanitize(o) == o
    ensures Shrinks(o) ==> Sanitize(o) != o
  {
    hide SanScan, TrimRight;
    TrimFixed(out);
  }

  lemma SanitizeAgain(s: bytes)
    ensures Sanitize(Sanitize(s)) != Sanitize(s) <==> HasGap(s[..CoreLength(s)])
  {
    var a, out, o := s[..CoreLength(s)], SanScan(s).out, Sanitize(s);
    CoreKept(s);
    GapShrinks(a);
    TrimmedFixed(o, out);
    hide Sanitize, SanScan, QScan, HasGap, CoreLength, TrimRight, Shrinks;
    if HasGap(a) {
      ShrinksMore(SanScan(a).out, o);
    } else if QScan(a) != Out {
      GapShrinks(s);
      CleanPrefix(out, o);
    }
  }

  lemma CleanPrefix(out: bytes, o: bytes)
    requires Clean(out) && o <= out
    ensures Clean(o)
  {
    SanPrefix(out, |o|);
    assert out[..|o|] == o;
  }

  /** Sanitizing twice differs from sanitizing once if and only if the line has
      white-space outside quotes, then NULs, then white-space, and later some byte that
      is neither white-space nor NUL. */
  lemma SanitizeTwiceIff(s: bytes)
    ensures Sanitize(Sanitize(s)) != Sanitize(s) <==>
            exists i: nat, j: nat, k: nat :: Gap(s, i, j) && j < k < |s| && IsSolid(s[k])
  {
    SanitizeAgain(s);
    hide Sanitize, HasGap, QScan;
    var n := CoreLength(s);
    var a := s[..n];
    if HasGap(a) {
      var i, j := FoundGap(a);
      assert a[..i] == s[..i];
      assert Gap(s, i, j) && IsSolid(s[n - 1]);
    }
    if exists i: nat, j: nat, k: nat :: Gap(s, i, j) && j < k < |s| && IsSolid(s[k]) {
      var i: nat, j: nat, k: nat :| Gap(s, i, j) && j < k < |s| && IsSolid(s[k]);
      assert a[..i] == s[..i];
      GapFound(a, i, j);
    }
  }

  /** A line on which it does. */
  lemma SanitizeNotIdempotent()
    ensures var s := [65, SPACE, NUL, SPACE, 65]; Sanitize(Sanitize(s)) != Sanitize(s)
  {
    var s := [65, SPACE, NUL, SPACE, 65];
    SanScanPush([], 65);
    assert s[..1] == [] + [65] && QScan([]) == Out;
    assert Gap(s, 1, 3) && IsSolid(s[4]);
    hide *;
    SanitizeTwiceIff(s);
  }
}
