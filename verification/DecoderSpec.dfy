/** The RTSP decoder of src/rtsp_decoder.c as a function of one byte at a time.
    The ring buffer appears only as the `pending` bytes of the current line,
    separator or body; Decoder.dfy shows that the real decoder refines this. */
module DecoderSpec {
  import opened Bytes
  import opened HeaderLine
  import opened Ring

  datatype Phase = New | Header | HeaderQuote | HeaderNl | Body

  datatype Payload = NoBody | Bytes(data: bytes)

  /** What the callback gets to see. */
  datatype Msg = Msg(headers: seq<bytes>, body: Payload)

  datatype Dec = Dec(phase: Phase, last: byte, remaining: nat, quoted: bool,
                     headers: seq<bytes>, pending: bytes)

  const FRESH := Dec(New, NUL, 0, false, [], [])

  /** The effect of one byte: at most one message; -EINVAL leaves only what a flush keeps. */
  datatype Stepped = Ok(next: Dec, sent: seq<Msg>) | Failed

  /** Discard everything but the header lines already collected. */
  function Flush(d: Dec): Dec {
    d.(phase := New, last := NUL, remaining := 0, pending := [])
  }

  function Deliver(d: Dec, body: Payload): Stepped {
    Ok(d.(headers := []), [Msg(d.headers, body)])
  }

  /** A byte makes the pending part at most one byte longer. */
  predicate Grows(d: Dec, r: Stepped) {
    r.Ok? ==> |r.next.pending| <= |d.pending| + 1
  }

  function Push(d: Dec, ch: byte): Dec {
    d.(pending := d.pending + [ch])
  }

  /** Turn the pending bytes into a header line. */
  function FinishLine(d: Dec): (r: Stepped)
    ensures Grows(d, r)
  {
    var line := Sanitize(d.pending);
    match ParseLine(d.remaining, line)
    case Invalid => Failed
    case Length(l) => Ok(d.(remaining := l, headers := d.headers + [line], pending := []), [])
  }

  function FeedNew(d: Dec, ch: byte): (r: Stepped)
    ensures Grows(d, r)
  {
    if IsLws(ch) then Ok(Push(d, ch), [])
    else Ok(d.(phase := Header, remaining := 0, pending := [ch]), [])
  }

  /** A line break followed by something that does not continue the line
      completes it. */
  function FinishIfBroken(d: Dec): (r: Stepped)
    ensures Grows(d, r)
  {
    if IsNewline(d.last) then FinishLine(d) else Ok(d, [])
  }

  function FeedHeader(d: Dec, ch: byte): (r: Stepped)
    ensures Grows(d, r)
  {
    if ch == CR && IsNewline(d.last) then
      var r := FinishLine(d);
      if r.Failed? then Failed
      else
        var d' := r.next.(phase := HeaderNl, pending := [CR]);
        if d'.remaining == 0 then Deliver(d', NoBody) else Ok(d', [])
    else if ch == LF && d.last == LF then
      var r := FinishLine(d);
      if r.Failed? then Failed
      else if r.next.remaining == 0 then Deliver(r.next.(phase := New), NoBody)
      else Ok(r.next.(phase := Body), [])
    else if IsLws(ch) then Ok(Push(d, ch), [])
    else
      var r := FinishIfBroken(d);
      if r.Failed? then Failed
      else if ch == QUOTE then Ok(Push(r.next, ch).(phase := HeaderQuote, quoted := false), [])
      else Ok(Push(r.next, ch), [])
  }

  function FeedHeaderQuote(d: Dec, ch: byte): (r: Stepped)
    ensures Grows(d, r)
  {
    if d.last == BACKSLASH && !d.quoted then Ok(Push(d, ch).(quoted := true), [])
    else if ch == QUOTE then Ok(Push(d, ch).(quoted := false, phase := Header), [])
    else Ok(Push(d, ch).(quoted := false), [])
  }

  function FeedBody(d: Dec, ch: byte): (r: Stepped)
    ensures Grows(d, r)
  {
    if d.remaining == 0 then FeedNew(d.(phase := New), ch)
    else
      var d' := Push(d, ch).(remaining := d.remaining - 1);
      if d'.remaining == 0 then Deliver(d'.(phase := New, pending := []), Bytes(d'.pending))
      else Ok(d', [])
  }

  function FeedHeaderNl(d: Dec, ch: byte): (r: Stepped)
    ensures Grows(d, r)
  {
    var d' := d.(pending := []);
    if ch == LF then Ok(d'.(phase := if d.remaining == 0 then New else Body), [])
    else FeedBody(d'.(phase := Body), ch)
  }

  function FeedPhase(d: Dec, ch: byte): (r: Stepped)
    ensures Grows(d, r)
  {
    match d.phase
    case New => FeedNew(d, ch)
    case Header => FeedHeader(d, ch)
    case HeaderQuote => FeedHeaderQuote(d, ch)
    case HeaderNl => FeedHeaderNl(d, ch)
    case Body => FeedBody(d, ch)
  }

  function Step(d: Dec, ch: byte): (r: Stepped)
    ensures Grows(d, r)
  {
    match FeedPhase(d, ch)
    case Failed => Failed
    case Ok(next, sent) => Ok(next.(last := ch), sent)
  }

  /** A stretch of input: where it led, what it delivered, and whether it failed. */
  datatype Fed = Fed(dec: Dec, sent: seq<Msg>, err: Errno)

  function Run(d: Dec, s: bytes): Fed
    decreases |s|
  {
    if s == [] then Fed(d, [], Success)
    else
      match Step(d, s[0])
      case Failed => Fed(Flush(d), [], EINVAL)
      case Ok(next, sent) =>
        var rest := Run(next, s[1..]);
        rest.(sent := sent + rest.sent)
  }

  /** One call of owfd_rtsp_decoder_feed. The ring refuses more than 2^63 - 1 bytes. */
  function Feed(d: Dec, chunk: bytes): Fed {
    if |d.pending| + |chunk| > MAX_OBJECT then Fed(d, [], ENOMEM) else Run(d, chunk)
  }

  /** Successive calls, up to and including the first one that fails. */
  function FeedChunks(d: Dec, chunks: seq<bytes>): Fed
    decreases |chunks|
  {
    if chunks == [] then Fed(d, [], Success)
    else
      var f := Feed(d, chunks[0]);
      if f.err != Success then f
      else
        var rest := FeedChunks(f.dec, chunks[1..]);
        rest.(sent := f.sent + rest.sent)
  }

  // ----- chunk independence -----

  lemma RunCons(d: Dec, c: byte, s: bytes)
    ensures Run(d, [c] + s) ==
            var r := Step(d, c);
            if r.Failed? then Fed(Flush(d), [], EINVAL)
            else var rest := Run(r.next, s); rest.(sent := r.sent + rest.sent)
  {
    assert ([c] + s)[1..] == s;
  }

  function Then(f: Fed, g: Fed): Fed {
    if f.err != Success then f else g.(sent := f.sent + g.sent)
  }

  lemma RunAppendStep(d: Dec, c: byte, r: bytes, t: bytes)
    requires Step(d, c).Ok? ==> var f := Run(Step(d, c).next, r); Run(Step(d, c).next, r + t) == Then(f, Run(f.dec, t))
    ensures Run(d, [c] + (r + t)) == Then(Run(d, [c] + r), Run(Run(d, [c] + r).dec, t))
  {
    hide Run, Step;
    RunCons(d, c, r);
    RunCons(d, c, r + t);
    if Step(d, c).Ok? {
      var sent, f := Step(d, c).sent, Run(Step(d, c).next, r);
      assert sent + (f.sent + Run(f.dec, t).sent) == sent + f.sent + Run(f.dec, t).sent;
    }
  }

  lemma {:induction false} RunAppend(d: Dec, s: bytes, t: bytes)
    ensures Run(d, s + t) ==
            var f := Run(d, s);
            if f.err != Success then f else var g := Run(f.dec, t); g.(sent := f.sent + g.sent)
    decreases |s|
  {
    RunEmpty(d);
    hide Run, Step;
    if s == [] {
      assert s + t == t;
      assert [] + Run(d, t).sent == Run(d, t).sent;
    } else {
      var c, r := s[0], s[1..];
      assert s == [c] + r && s + t == [c] + (r + t);
      if Step(d, c).Ok? {
        RunAppend(Step(d, c).next, r, t);
      }
      RunAppendStep(d, c, r, t);
    }
  }

  lemma {:induction false} RunPending(d: Dec, s: bytes)
    ensures |Run(d, s).dec.pending| <= |d.pending| + |s|
    decreases |s|
  {
    if s != [] && Step(d, s[0]).Ok? {
      RunPending(Step(d, s[0]).next, s[1..]);
    }
  }

  /** Every feed call finds room in the ring, up to the first one that fails. */
  predicate FeedsFit(d: Dec, chunks: seq<bytes>)
    decreases |chunks|
  {
    chunks == []
    || (|d.pending| + |chunks[0]| <= MAX_OBJECT
        && var f := Run(d, chunks[0]); f.err == Success ==> FeedsFit(f.dec, chunks[1..]))
  }

  /** A stream that fits as a whole fits however it is cut. */
  lemma {:induction false} StreamFits(d: Dec, chunks: seq<bytes>)
    requires |d.pending| + |Flatten(chunks)| <= MAX_OBJECT
    ensures FeedsFit(d, chunks)
    decreases |chunks|
  {
    if chunks != [] {
      RunPending(d, chunks[0]);
      var f := Run(d, chunks[0]);
      if f.err == Success {
        StreamFits(f.dec, chunks[1..]);
      }
    }
  }

  /** Cutting a stream into feed calls in any way makes no difference: the same
      messages, the same outcome, the same decoder afterwards. A failure ends the
      comparison at the same byte. */
  lemma {:induction false} ChunkIndependence(d: Dec, chunks: seq<bytes>)
    requires FeedsFit(d, chunks)
    ensures FeedChunks(d, chunks) == Run(d, Flatten(chunks))
    decreases |chunks|
  {
    if chunks != [] {
      var c, rest := chunks[0], Flatten(chunks[1..]);
      RunAppend(d, c, rest);
      var f := Run(d, c);
      if f.err == Success {
        ChunkIndependence(f.dec, chunks[1..]);
      }
    }
  }

  /** Any two ways of cutting the same stream agree. */
  lemma AnyTwoChunkings(d: Dec, a: seq<bytes>, b: seq<bytes>)
    requires Flatten(a) == Flatten(b) && FeedsFit(d, a) && FeedsFit(d, b)
    ensures FeedChunks(d, a) == FeedChunks(d, b)
  {
    ChunkIndependence(d, a);
    ChunkIndependence(d, b);
  }

  // ----- beyond a failure -----

  /** Successive calls that go on after one that fails. */
  function FeedOn(d: Dec, chunks: seq<bytes>): (r: (Dec, seq<Msg>))
    decreases |chunks|
  {
    if chunks == [] then (d, [])
    else
      var f := Feed(d, chunks[0]);
      var rest := FeedOn(f.dec, chunks[1..]);
      (rest.0, f.sent + rest.1)
  }

  lemma RunEmpty(d: Dec)
    ensures Run(d, []) == Fed(d, [], Success)
  {
  }

  /** Call n is the first that fails, and the rest of its chunk is lost: all that happens
      afterwards is what the later calls do to the decoder that a flush leaves. */
  predicate FailsAt(d: Dec, chunks: seq<bytes>, n: nat) {
    && n < |chunks| && Run(d, Flatten(chunks[..n])).err == Success
    && Run(d, Flatten(chunks[..n + 1])) == Run(d, Flatten(chunks))
    && var f := Run(d, Flatten(chunks)); var later := FeedOn(f.dec, chunks[n + 1..]);
       FeedOn(d, chunks) == (later.0, f.sent + later.1)
  }

  lemma FailsLater(d: Dec, c: bytes, rest: seq<bytes>, n: nat)
    requires Run(d, c).err == Success && |d.pending| + |c| <= MAX_OBJECT && FailsAt(Run(d, c).dec, rest, n)
    ensures FailsAt(d, [c] + rest, n + 1)
  {
    hide Run, Flatten;
    var f, chunks := Run(d, c), [c] + rest;
    assert chunks[..n + 1] == [c] + rest[..n] && chunks[..n + 2] == [c] + rest[..n + 1];
    assert chunks[n + 2..] == rest[n + 1..] && chunks[1..] == rest;
    FlattenCons(c, rest);
    FlattenCons(c, rest[..n]);
    FlattenCons(c, rest[..n + 1]);
    RunAppend(d, c, Flatten(rest));
    RunAppend(d, c, Flatten(rest[..n]));
    RunAppend(d, c, Flatten(rest[..n + 1]));
    var g := Run(f.dec, Flatten(rest));
    var later := FeedOn(g.dec, rest[n + 1..]);
    assert f.sent + (g.sent + later.1) == f.sent + g.sent + later.1;
  }

  lemma FailsFirst(d: Dec, c: bytes, rest: seq<bytes>)
    requires Run(d, c).err != Success && |d.pending| + |c| <= MAX_OBJECT
    ensures FailsAt(d, [c] + rest, 0)
  {
    FlattenCons(c, rest);
    FlattenCons(c, []);
    RunAppend(d, c, Flatten(rest));
    RunEmpty(d);
    assert Flatten<byte>([]) == [];
    hide Run, Flatten;
    var chunks := [c] + rest;
    assert chunks[..0] == [] && chunks[..1] == [c] + [] && chunks[1..] == rest && c + [] == c;
  }

  lemma {:induction false} AfterFailure(d: Dec, chunks: seq<bytes>) returns (n: nat)
    requires FeedsFit(d, chunks) && Run(d, Flatten(chunks)).err != Success
    ensures FailsAt(d, chunks, n)
    decreases |chunks|
  {
    RunEmpty(d);
    var c, rest := chunks[0], chunks[1..];
    RunAppend(d, c, Flatten(rest));
    hide Run, FailsAt;
    assert chunks == [c] + rest;
    if Run(d, c).err == Success {
      n := AfterFailure(Run(d, c).dec, rest);
      FailsLater(d, c, rest, n);
      n := n + 1;
    } else {
      n := 0;
      FailsFirst(d, c, rest);
    }
  }

  lemma TwoFeeds(d: Dec, bad: bytes, more: bytes)
    requires Run(d, bad).err != Success && |d.pending| + |bad| + |more| <= MAX_OBJECT
    requires |Run(d, bad).dec.pending| + |more| <= MAX_OBJECT
    ensures FeedOn(d, [bad, more]).1 == Run(d, bad).sent + Run(Run(d, bad).dec, more).sent
    ensures FeedOn(d, [bad + more]).1 == Run(d, bad).sent
  {
    RunAppend(d, bad, more);
    hide Run;
    var f := Run(d, bad);
    var g := Run(f.dec, more);
    assert [bad, more][1..] == [more] && [bad + more][1..] == [] && [more][1..] == [];
    assert FeedOn(f.dec, [more]) == (g.dec, g.sent + []);
    assert FeedOn(f.dec, []) == (f.dec, []);
  }
}
