/** What an interrupted message leaves behind in the RTSP decoder: runs in which a flush,
    or a feed that fails, keeps header lines for the next message, and a stream whose
    later messages depend on where a failing feed call ends. */
module Failures {
  import opened Bytes
  import opened DecoderSpec
  import opened Grammar
  import opened HeaderLine
  import opened Ring
  import opened RoundTrip

  lemma StepPastLine(a: Asm, d: Dec, ch: byte)
    requires Rests(a, d) && a.stage == InBlock && !IsLws(ch)
    ensures Step(d, ch).Ok? && Step(d, ch).sent == [] && Step(d, ch).next.headers == a.headers
  {
    hide FinishLine;
  }

  /** A block of canonical lines, in which the next byte has begun a further line. */
  lemma StaleLines(h: seq<bytes>, ends: seq<Eol>, ch: byte)
    requires CanonicalLines(h) && |ends| == |h| && ParseBlock(h).Length? && !IsLws(ch)
    ensures var f := Run(FRESH, Spell(WriteLines(h, ends)) + [ch]);
            f.err == Success && f.sent == [] && f.dec.headers == h
  {
    hide CanonicalLines, ParseBlock, WriteLines, Step, Accept, FinishLine, Run;
    var p := WriteLines(h, ends);
    AcceptLines(START, h, ends);
    RunComplete(START, FRESH, p);
    var a, d := AcceptAll(START, p).asm, Run(FRESH, Spell(p)).dec;
    assert [] + h == h;
    StepPastLine(a, d, ch);
    RunOne(d, ch);
    RunAppend(FRESH, Spell(p), [ch]);
  }

  /** When such a block is interrupted by a flush, the next message has it in front. */
  lemma StaleMessage(h: seq<bytes>, ends: seq<Eol>, ch: byte, w: Wire, chunks: seq<bytes>)
    requires CanonicalLines(h) && |ends| == |h| && ParseBlock(h).Length? && !IsLws(ch) && Canonical(w)
    requires var d := Run(FRESH, Spell(WriteLines(h, ends)) + [ch]).dec;
             Flatten(chunks) == Spell(Write(w)) && FeedsFit(Flush(d), chunks)
    ensures var d := Run(FRESH, Spell(WriteLines(h, ends)) + [ch]).dec;
            && FeedChunks(Flush(d), chunks).sent == [Msg(h + w.msg.headers, w.msg.body)]
            && h + w.msg.headers != w.msg.headers
  {
    StaleLines(h, ends, ch);
    hide ParseBlock, WriteLines, Run, Canonical, Write;
    DecodeAfterFlush(Run(FRESH, Spell(WriteLines(h, ends)) + [ch]).dec, w, chunks);
    assert |h + w.msg.headers| > |w.msg.headers|;
  }

  /** The shortest one: the bytes A, CR, LF, B leave the line A. */
  lemma StaleExample()
    ensures Run(FRESH, [65, CR, LF, 66]).dec.headers == [[65]]
  {
    LetterCanonical();
    LetterWritten();
    assert !IsLws(66);
    hide *;
    StaleLines([[65]], [CrLf], 66);
  }

  lemma LetterWritten()
    ensures Spell(WriteLines([[65]], [CrLf])) + [66] == [65, CR, LF, 66]
  {
    var line := Line([65] + CrLf.Text());
    assert [[65]][..0] == [] && [CrLf][..0] == [];
    assert WriteLines([[65]], [CrLf]) == [] + [line] == [line];
    SpellTwo(line, line);
    assert line.raw == [65, CR, LF];
  }

  lemma LetterCanonical()
    ensures CanonicalLines([[65]]) && ParseBlock([[65]]).Length?
  {
    assert PlainAt([65], 0);
    PlainScan([65]);
    SanQuoting([65]);
    assert [[65]][..0] == [];
  }

  // ----- feeds that fail -----

  /** A finished line that the parser refuses fails the feed; lines before it stay. */
  lemma BrokenLine(a: Asm, d: Dec, raw: bytes, ch: byte)
    requires Rests(a, d) && a.stage != AwaitBody && IsLine(a.stage == Between, raw) && !IsLws(ch)
    requires ParseLine(if a.stage == Between then 0 else a.length, Sanitize(raw)) == Invalid
    ensures Run(d, raw + [ch]).err == EINVAL && Run(d, raw + [ch]).sent == []
    ensures Run(d, raw + [ch]).dec.headers == a.headers
    ensures Flush(Run(d, raw + [ch]).dec) == Run(d, raw + [ch]).dec
  {
    hide Run, Step, Sanitize, ParseLine, ScanLine, Unbroken, Rests;
    LineStart(a, d, raw[0]);
    var m := Step(d, raw[0]).next;
    LineRest(a, m, raw);
    RunFirst(d, raw);
    assert raw[..1] == [raw[0]];
    RunAppend(d, raw, [ch]);
    LineRefused(a, Run(m, raw[1..]).dec, ch);
  }

  lemma LineRefused(a: Asm, d: Dec, ch: byte)
    requires Rel(a, d) && d.phase == Header && IsNewline(d.pending[|d.pending| - 1]) && !IsLws(ch)
    requires ParseLine(d.remaining, Sanitize(d.pending)) == Invalid
    ensures Step(d, ch).Failed? && Run(d, [ch]) == Fed(Flush(d), [], EINVAL) && Flush(d).headers == a.headers
  {
    hide Sanitize, ParseLine, ScanLine, Unbroken;
  }

  /** A failing feed keeps the lines that came before the broken one. */
  lemma FailedFeedKeeps(h: seq<bytes>, ends: seq<Eol>, raw: bytes, ch: byte)
    requires CanonicalLines(h) && |ends| == |h| && ParseBlock(h).Length? && !IsLws(ch)
    requires IsLine(false, raw) && ParseLine(ParseBlock(h).remaining, Sanitize(raw)) == Invalid
    ensures var f := Run(FRESH, Spell(WriteLines(h, ends)) + (raw + [ch]));
            f.err == EINVAL && f.sent == [] && f.dec.headers == h
  {
    FreshRests();
    hide CanonicalLines, ParseBlock, WriteLines, Accept, AcceptAll, Run, IsLine, Sanitize, ParseLine, Spell, Rests;
    var p := WriteLines(h, ends);
    AcceptLines(START, h, ends);
    RunComplete(START, FRESH, p);
    assert [] + h == h;
    var a, d := AcceptAll(START, p).asm, Run(FRESH, Spell(p)).dec;
    BrokenLine(a, d, raw, ch);
    RunAppend(FRESH, Spell(p), raw + [ch]);
  }

  /** A Content-Length that is no number. */
  const BAD_LENGTH: bytes := CONTENT_LENGTH + [120]

  lemma BadLength()
    ensures CanonicalLine(true, BAD_LENGTH) && ParseLine(0, BAD_LENGTH) == Invalid
  {
    BadLengthInvalid();
    BadLengthPlain();
    hide PlainText, ParseLine;
    PlainScan(BAD_LENGTH);
    SanQuoting(BAD_LENGTH);
  }

  lemma BadLengthInvalid()
    ensures ParseLine(0, BAD_LENGTH) == Invalid
  {
    assert BAD_LENGTH[15..] == [120];
  }

  lemma BadLengthPlain()
    ensures PlainText(BAD_LENGTH)
  {
    forall i | 0 <= i < |BAD_LENGTH|
      ensures PlainAt(BAD_LENGTH, i)
    {
    }
  }

  // ----- what the rest of a failing chunk would have delivered -----

  /** Some beginning of the bytes is at least one message to the grammar. */
  ghost predicate Delivers(s: bytes) {
    exists p :: Spell(p) <= s && AcceptAll(START, p).Read? && AcceptAll(START, p).sent != []
  }

  /** Header lines that were already there make no difference to what is accepted. */
  lemma {:induction false} LinesBefore(a: Asm, h: seq<bytes>, p: seq<Piece>)
    ensures var r, t := AcceptAll(a, p), AcceptAll(a.(headers := h), p);
            (r.Read? <==> t.Read?) && (r.Read? ==> |r.sent| == |t.sent|)
    decreases |p|
  {
    if p != [] {
      var r, t := Accept(a, p[0]), Accept(a.(headers := h), p[0]);
      assert (r.Read? <==> t.Read?) && (r.Read? ==> |r.sent| == |t.sent| && t.asm == r.asm.(headers := t.asm.headers));
      hide Accept;
      if r.Read? {
        LinesBefore(r.asm, t.asm.headers, p[1..]);
      }
    }
  }

  /** The bytes before the one that fails. */
  lemma {:induction false} GoodPart(d: Dec, s: bytes) returns (n: nat)
    ensures n <= |s| && Run(d, s[..n]).err == Success && Run(d, s[..n]).sent == Run(d, s).sent
    decreases |s|
  {
    RunEmpty(d);
    hide Step;
    if s == [] || Step(d, s[0]).Failed? {
      n := 0;
      assert s[..0] == [];
    } else {
      n := GoodPart(Step(d, s[0]).next, s[1..]);
      RunFirst(d, s);
      n := n + 1;
      assert s[..n][1..] == s[1..][..n - 1];
      RunFirst(d, s[..n]);
    }
  }

  lemma FlushRests(d: Dec)
    ensures Rests(START.(headers := d.headers), Flush(d)) && Rel(START.(headers := d.headers), Flush(d))
    ensures Early(START.(headers := d.headers), Flush(d)) == []
  {
  }

  lemma EarlyBlank(a: Asm, d: Dec, p: seq<Piece>)
    requires AcceptAll(a, p).Read? && Rel(AcceptAll(a, p).asm, d) && Early(AcceptAll(a, p).asm, d) != []
    ensures d.pending == [CR]
    ensures var q := p + [Blank([CR])];
            AcceptAll(a, q).Read? && AcceptAll(a, q).sent != [] && Spell(q) == Spell(p) + [CR]
  {
    AcceptOne(AcceptAll(a, p).asm, Blank([CR]));
    AcceptAppend(a, p, [Blank([CR])]);
    SpellAppend(p, [Blank([CR])]);
    SpellShort([Blank([CR])]);
  }

  /** A flushed decoder delivers something from the bytes if and only if the grammar reads a
      message at the beginning of them, wherever the decoder fails behind it. */
  lemma DeliversIff(d: Dec, s: bytes)
    ensures Run(Flush(d), s).sent != [] <==> Delivers(s)
  {
    var a, b := START.(headers := d.headers), Flush(d);
    FlushRests(d);
    hide Run, Rests, Rel, Early, Accept, AcceptAll, Spell;
    if p :| Spell(p) <= s && AcceptAll(START, p).Read? && AcceptAll(START, p).sent != [] {
      LinesBefore(START, d.headers, p);
      RunComplete(a, b, p);
      RunAppend(b, Spell(p), s[|Spell(p)|..]);
      assert s == Spell(p) + s[|Spell(p)|..];
    }
    if Run(b, s).sent != [] {
      var n := GoodPart(b, s);
      var p := DeliveredPieces(a, b, s[..n]);
      LinesBefore(START, d.headers, p);
      assert Spell(p) <= s;
    }
  }

  lemma DeliveredPieces(a: Asm, d: Dec, s: bytes) returns (p: seq<Piece>)
    requires Rel(a, d) && Early(a, d) == [] && d.pending == [] && Run(d, s).err == Success && Run(d, s).sent != []
    ensures Spell(p) <= s && AcceptAll(a, p).Read? && AcceptAll(a, p).sent != []
  {
    hide Run, Rel, Early, Accept, AcceptAll, Spell, RunPieces;
    p := RunPieces(d, s);
    RunSound(a, d, s);
    var r, f := AcceptAll(a, p), Run(d, s);
    assert [] + s == s && [] + f.sent == f.sent;
    if r.sent == [] {
      assert r.sent + Early(r.asm, f.dec) == Early(r.asm, f.dec);
      EarlyBlank(a, f.dec, p);
      p := p + [Blank([CR])];
    }
  }

  /** Ending a call right behind a failing byte or not makes a difference to the messages if
      and only if the grammar reads a message at the beginning of the bytes behind it. */
  lemma CutIff(d: Dec, bad: bytes, more: bytes)
    requires Run(d, bad).err != Success && |d.pending| + |bad| + |more| <= MAX_OBJECT
    requires |Run(d, bad).dec.pending| + |more| <= MAX_OBJECT
    ensures FeedOn(d, [bad, more]).1 != FeedOn(d, [bad + more]).1 <==> Delivers(more)
  {
    TwoFeeds(d, bad, more);
    FailedFlush(d, bad);
    var f := Run(d, bad);
    hide Run, FeedOn, Delivers;
    DeliversIff(f.dec, more);
    var later := Run(f.dec, more).sent;
    assert later != [] ==> |f.sent + later| > |f.sent|;
    assert f.sent + [] == f.sent;
  }

  lemma {:induction false} FailedFlush(d: Dec, s: bytes)
    requires Run(d, s).err != Success
    ensures Run(d, s).dec == Flush(Run(d, s).dec) && Run(d, s).dec.pending == []
    decreases |s|
  {
    hide Step;
    if Step(d, s[0]).Ok? {
      FailedFlush(Step(d, s[0]).next, s[1..]);
    }
  }

  /** The cut matters: behind a broken line, a message that comes in a call of its own is
      delivered, and one that comes in the failing call is lost. */
  lemma CutMatters(w: Wire)
    requires Canonical(w) && |BAD_LENGTH| + 2 + |Spell(Write(w))| <= MAX_OBJECT
    ensures var bad, more := BAD_LENGTH + [LF, 65], Spell(Write(w));
            FeedOn(FRESH, [bad, more]).1 == [w.msg] && FeedOn(FRESH, [bad + more]).1 == []
  {
    var bad, more := BAD_LENGTH + [LF, 65], Spell(Write(w));
    BadLength();
    BadFeed(BAD_LENGTH);
    hide Canonical, CanonicalLine, ParseLine, Write, Run, Spell, FeedOn;
    var f := Run(FRESH, bad);
    FlatOne(more);
    StreamFits(Flush(f.dec), [more]);
    DecodeAfterFlush(f.dec, w, [more]);
    ChunkIndependence(Flush(f.dec), [more]);
    TwoFeeds(FRESH, bad, more);
    assert [] + [w.msg] == [w.msg];
  }

  lemma FreshRests()
    ensures Rests(START, FRESH) && START.stage != AwaitBody
  {
  }

  lemma BadFeed(h: bytes)
    requires CanonicalLine(true, h) && ParseLine(0, h) == Invalid
    ensures var f := Run(FRESH, h + [LF, 65]);
            f.err == EINVAL && f.sent == [] && f.dec.headers == [] && f.dec == Flush(f.dec)
  {
    hide QScan, SanScan, Sanitize, IsLine, ParseLine, Run, Step;
    var raw := h + [LF];
    assert h + Lf.Text() == raw && raw + [65] == h + [LF, 65];
    SanitizeEol(h, Lf);
    WrittenIsLine(true, h, Lf);
    FreshRests();
    hide CanonicalLine, Rests;
    BrokenLine(START, FRESH, raw, 65);
  }

  lemma FlatOne(c: bytes)
    ensures Flatten([c]) == c
  {
    assert [c][1..] == [];
  }

  // ----- what every delivered line looks like -----

  /** A call on the decoder: feed it some bytes, or flush it. */
  datatype Call = FeedCall(chunk: bytes) | FlushCall

  function Calls(d: Dec, calls: seq<Call>): (r: (Dec, seq<Msg>))
    decreases |calls|
  {
    if calls == [] then (d, [])
    else
      match calls[0]
      case FlushCall => Calls(Flush(d), calls[1..])
      case FeedCall(chunk) =>
        var f := Feed(d, chunk);
        var rest := Calls(f.dec, calls[1..]);
        (rest.0, f.sent + rest.1)
  }

  predicate AllShaped(lines: seq<bytes>) {
    forall i :: 0 <= i < |lines| ==> Shaped(lines[i])
  }

  predicate MessagesShaped(sent: seq<Msg>) {
    forall i :: 0 <= i < |sent| ==> AllShaped(sent[i].headers)
  }

  lemma StepShaped(d: Dec, ch: byte)
    requires AllShaped(d.headers) && Step(d, ch).Ok?
    ensures AllShaped(Step(d, ch).next.headers) && MessagesShaped(Step(d, ch).sent)
  {
    hide FeedHeader, FeedBody, AllShaped, MessagesShaped;
    NothingShaped();
    match d.phase {
      case Header => HeaderShaped(d, ch);
      case HeaderNl =>
        if ch != LF {
          BodyShaped(d.(pending := [], phase := Body), ch);
        }
      case Body => BodyShaped(d, ch);
      case _ =>
    }
  }

  lemma HeaderShaped(d: Dec, ch: byte)
    requires AllShaped(d.headers) && FeedHeader(d, ch).Ok?
    ensures AllShaped(FeedHeader(d, ch).next.headers) && MessagesShaped(FeedHeader(d, ch).sent)
  {
    FinishShaped(d);
    NothingShaped();
    hide FinishLine, AllShaped, MessagesShaped;
    var r := FinishLine(d);
    if r.Ok? {
      MessageShaped(r.next.headers, NoBody);
    }
  }

  lemma BodyShaped(d: Dec, ch: byte)
    requires AllShaped(d.headers) && FeedBody(d, ch).Ok?
    ensures AllShaped(FeedBody(d, ch).next.headers) && MessagesShaped(FeedBody(d, ch).sent)
  {
    NothingShaped();
    MessageShaped(d.headers, Bytes(d.pending + [ch]));
    hide AllShaped, MessagesShaped;
  }

  lemma MessageShaped(h: seq<bytes>, body: Payload)
    requires AllShaped(h)
    ensures MessagesShaped([Msg(h, body)])
  {
    hide AllShaped;
  }

  lemma NothingShaped()
    ensures AllShaped([]) && MessagesShaped([])
  {
  }

  lemma FinishShaped(d: Dec)
    requires AllShaped(d.headers)
    ensures FinishLine(d).Ok? ==> AllShaped(FinishLine(d).next.headers) && FinishLine(d).sent == []
  {
    SanitizedShape(d.pending);
    hide Sanitize, ParseLine, Shaped;
  }

  lemma {:induction false} RunShaped(d: Dec, s: bytes)
    requires AllShaped(d.headers)
    ensures AllShaped(Run(d, s).dec.headers) && MessagesShaped(Run(d, s).sent)
    decreases |s|
  {
    hide Step, AllShaped;
    if s != [] && Step(d, s[0]).Ok? {
      StepShaped(d, s[0]);
      RunShaped(Step(d, s[0]).next, s[1..]);
    }
  }

  /** Whatever is fed to a decoder, however often it fails and is flushed: the lines of every
      message delivered are NUL-free, without a trailing space, and with all line breaks
      quoted. */
  lemma {:induction false} DeliveredShape(d: Dec, calls: seq<Call>)
    requires AllShaped(d.headers)
    ensures AllShaped(Calls(d, calls).0.headers) && MessagesShaped(Calls(d, calls).1)
    decreases |calls|
  {
    hide Run, AllShaped;
    if calls != [] {
      match calls[0] {
        case FlushCall => DeliveredShape(Flush(d), calls[1..]);
        case FeedCall(chunk) =>
          RunShaped(d, chunk);
          DeliveredShape(Feed(d, chunk).dec, calls[1..]);
      }
    }
  }

  // ----- a feed that is too long -----

  /** A call that brings more than an object can hold is refused as a whole, and leaves no
      trace: later calls deliver what they would have delivered without it. */
  lemma RefusedFeed(d: Dec, chunk: bytes, later: seq<bytes>)
    requires |d.pending| + |chunk| >= 0x8000_0000_0000_0000
    ensures Feed(d, chunk) == Fed(d, [], ENOMEM)
    ensures FeedOn(d, [chunk] + later) == FeedOn(d, later)
  {
    assert ([chunk] + later)[1..] == later;
    assert [] + FeedOn(d, later).1 == FeedOn(d, later).1;
    hide Run;
  }
}
