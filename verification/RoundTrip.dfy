/** Writing messages and decoding them again: any list of canonical messages,
    with any mixture of CR, LF and CRLF line ends and cut into feed calls in any
    way, is delivered unchanged. */
module RoundTrip {
  import opened Bytes
  import opened ContentLength
  import opened HeaderLine
  import opened DecoderSpec
  import opened Grammar
  import opened Ring

  datatype Eol = Cr | Lf | CrLf {
    function Text(): bytes {
      match this
      case Cr => [CR]
      case Lf => [LF]
      case CrLf => [CR, LF]
    }
  }

  /** A message together with the line ends it is written with. */
  datatype Wire = Wire(msg: Msg, ends: seq<Eol>, blank: Eol)

  /** A header line that sanitizing leaves alone and whose quotes balance. */
  predicate CanonicalLine(first: bool, h: bytes) {
    && h != [] && !IsLws(h[0]) && (first ==> h[0] != QUOTE)
    && Sanitize(h) == h && QScan(h) == Out
  }

  predicate CanonicalLines(h: seq<bytes>) {
    h != [] && forall i :: 0 <= i < |h| ==> CanonicalLine(i == 0, h[i])
  }

  function BodyBytes(body: Payload): bytes {
    match body
    case NoBody => []
    case Bytes(data) => data
  }

  /** The declared length is the body's, and the line ends do not run together:
      a bare CR is not followed by a LF that belongs to something else. */
  predicate Canonical(w: Wire) {
    var body := BodyBytes(w.msg.body);
    && CanonicalLines(w.msg.headers) && |w.ends| == |w.msg.headers|
    && ParseBlock(w.msg.headers) == Length(|body|)
    && (w.msg.body.Bytes? ==> body != [])
    && (w.blank == Lf ==> w.ends[|w.ends| - 1] != Cr)
    && (w.blank == Cr && body != [] ==> body[0] != LF)
  }

  function WriteLines(h: seq<bytes>, ends: seq<Eol>): seq<Piece>
    requires |h| == |ends|
  {
    if h == [] then []
    else WriteLines(h[..|h| - 1], ends[..|h| - 1]) + [Line(h[|h| - 1] + ends[|h| - 1].Text())]
  }

  function Write(w: Wire): seq<Piece>
    requires |w.ends| == |w.msg.headers|
  {
    WriteLines(w.msg.headers, w.ends) + [Blank(w.blank.Text())]
    + if w.msg.body.Bytes? then [Content(w.msg.body.data)] else []
  }

  predicate AllCanonical(ws: seq<Wire>) {
    forall i :: 0 <= i < |ws| ==> Canonical(ws[i])
  }

  function WriteAll(ws: seq<Wire>): seq<Piece>
    requires AllCanonical(ws)
  {
    if ws == [] then [] else Write(ws[0]) + WriteAll(ws[1..])
  }

  function Messages(ws: seq<Wire>): seq<Msg> {
    if ws == [] then [] else [ws[0].msg] + Messages(ws[1..])
  }

  lemma CanonicalScan(h: bytes)
    requires Sanitize(h) == h
    ensures SanScan(h).out == h
  {
    SanLength(h);
  }

  /** A line break outside quotes is written as at most one space. */
  lemma BreakStep(st: San, c: byte)
    requires st.q == Out && IsNewline(c)
    ensures var t := SanStep(st, c);
            t.q == Out && t.last == SPACE && (t.out == st.out + [SPACE] || (t.out == st.out && st.last == SPACE))
    ensures st.last == SPACE ==> SanStep(st, c).out == st.out
  {
    assert st.out + [] == st.out;
  }

  /** The line end sanitizes to nothing. */
  lemma SanitizeEol(h: bytes, e: Eol)
    requires Sanitize(h) == h && QScan(h) == Out
    ensures Sanitize(h + e.Text()) == h && QScan(h + e.Text()) == Out
  {
    hide SanScan, QScan, TrimRight, SanStep;
    CanonicalScan(h);
    SanQuoting(h);
    TrimSpace(h);
    var st, c := SanScan(h), e.Text()[0];
    SanScanPush(h, c);
    BreakStep(st, c);
    SanQuoting(h + [c]);
    if e == CrLf {
      var t := SanStep(st, CR);
      SanScanPush(h + [CR], LF);
      BreakStep(t, LF);
      assert h + [CR] + [LF] == h + [CR, LF];
      SanQuoting(h + [CR, LF]);
    }
  }

  /** A sanitized line has no unquoted line breaks. */
  lemma CanonicalUnbroken(h: bytes, k: nat)
    requires Sanitize(h) == h && k < |h| && QScan(h[..k]) == Out
    ensures !IsNewline(h[k])
  {
    CanonicalScan(h);
    SanBreaksQuoted(h, k);
  }

  lemma WrittenIsLine(first: bool, h: bytes, e: Eol)
    requires CanonicalLine(first, h)
    ensures IsLine(first, h + e.Text())
  {
    hide Sanitize, QScan;
    var raw := h + e.Text();
    SanitizeEol(h, e);
    if first {
      LeadingByte(raw);
    }
    forall k | 0 <= k < |raw| - 1 && IsNewline(raw[k]) && ScanLine(first, raw[..k]) == Out
      ensures Continues(raw[k], raw[k + 1])
    {
      if k < |h| {
        assert raw[..k] == h[..k];
        if k > 0 && first {
          LeadingByte(h[..k]);
        }
        CanonicalUnbroken(h, k);
      }
    }
  }

  lemma {:induction false} AcceptLines(a: Asm, h: seq<bytes>, ends: seq<Eol>)
    requires CanonicalLines(h) && |ends| == |h| && ParseBlock(h).Length?
    requires a.stage == Between
    ensures AcceptAll(a, WriteLines(h, ends)) ==
            Read(Asm(InBlock, a.headers + h, ParseBlock(h).remaining,
                     if ends[|h| - 1] == Cr then CR else LF, false), [])
  {
    hide Sanitize, IsLine, ParseLine, QScan, Accept, AcceptAll;
    var n := |h| - 1;
    var front := WriteLines(h[..n], ends[..n]);
    var line := Line(h[n] + ends[n].Text());
    assert CanonicalLine(n == 0, h[n]) && h == h[..n] + [h[n]];
    if n == 0 {
      assert front + [line] == [line] && h == [h[n]];
      AcceptOne(a, line);
      AcceptCanonical(a, h[n], ends[n]);
    } else {
      AcceptLines(a, h[..n], ends[..n]);
      assert a.headers + h[..n] + [h[n]] == a.headers + h;
      var b := AcceptAll(a, front).asm;
      AcceptAppend(a, front, [line]);
      AcceptOne(b, line);
      AcceptCanonical(b, h[n], ends[n]);
    }
  }

  lemma AcceptCanonical(a: Asm, h: bytes, e: Eol)
    requires a.stage != AwaitBody && CanonicalLine(a.stage == Between, h)
    requires var r := ParseLine(if a.stage == Between then 0 else a.length, h); r.Length?
    ensures Accept(a, Line(h + e.Text())) ==
            Read(Asm(InBlock, a.headers + [h], ParseLine(if a.stage == Between then 0 else a.length, h).remaining,
                     if e == Cr then CR else LF, false), [])
  {
    SanitizeEol(h, e);
    WrittenIsLine(a.stage == Between, h, e);
    hide Sanitize, IsLine, ParseLine, QScan;
  }

  lemma AcceptWire(a: Asm, w: Wire)
    requires Canonical(w) && a.stage == Between
    ensures var r := AcceptAll(a, Write(w));
            && r.Read? && r.sent == [Msg(a.headers + w.msg.headers, w.msg.body)]
            && r.asm.stage == Between && r.asm.headers == []
  {
    hide CanonicalLines, WriteLines, ParseBlock, IsLine;
    var h := w.msg.headers;
    var lines := WriteLines(h, w.ends);
    AcceptLines(a, h, w.ends);
    var b := AcceptAll(a, lines).asm;
    var blank := Blank(w.blank.Text());
    AcceptBlank(b, blank.raw);
    if w.msg.body.Bytes? {
      AcceptTwo(b, blank, Content(w.msg.body.data));
      AcceptAppend(a, lines, [blank, Content(w.msg.body.data)]);
      assert Write(w) == lines + [blank, Content(w.msg.body.data)];
    } else {
      AcceptOne(b, blank);
      AcceptAppend(a, lines, [blank]);
      assert Write(w) == lines + [blank];
    }
  }

  lemma {:induction false} AcceptWires(a: Asm, ws: seq<Wire>)
    requires AllCanonical(ws) && a.stage == Between && a.headers == []
    ensures var r := AcceptAll(a, WriteAll(ws));
            r.Read? && r.sent == Messages(ws) && r.asm.stage == Between && r.asm.headers == []
    decreases |ws|
  {
    hide CanonicalLines, ParseBlock, Write;
    if ws != [] {
      AcceptWire(a, ws[0]);
      assert [] + ws[0].msg.headers == ws[0].msg.headers;
      var b := AcceptAll(a, Write(ws[0])).asm;
      AcceptWires(b, ws[1..]);
      AcceptAppend(a, Write(ws[0]), WriteAll(ws[1..]));
    }
  }

  /** Round trip: however the written stream is cut into feed calls, a fresh
      decoder delivers exactly the written messages, in order. */
  lemma DecodeWritten(ws: seq<Wire>, chunks: seq<bytes>)
    requires AllCanonical(ws) && Flatten(chunks) == Spell(WriteAll(ws)) && FeedsFit(FRESH, chunks)
    ensures var f := FeedChunks(FRESH, chunks); f.err == Success && f.sent == Messages(ws)
  {
    ChunkIndependence(FRESH, chunks);
    AcceptWires(START, ws);
    RunComplete(START, FRESH, WriteAll(ws));
  }

  /** A flush, explicit or after a failed feed, does not drop the header lines that
      were already collected: the next message is delivered with them in front.
      It arrives as written exactly when there were none. */
  lemma DecodeAfterFlush(d: Dec, w: Wire, chunks: seq<bytes>)
    requires Canonical(w) && Flatten(chunks) == Spell(Write(w)) && FeedsFit(Flush(d), chunks)
    ensures var f := FeedChunks(Flush(d), chunks);
            && f.err == Success && f.sent == [Msg(d.headers + w.msg.headers, w.msg.body)]
            && (f.sent == [w.msg] <==> d.headers == [])
  {
    hide CanonicalLines, ParseBlock, WriteLines, Step, Accept;
    var a, p := START.(headers := d.headers), Write(w);
    ChunkIndependence(Flush(d), chunks);
    AcceptWire(a, w);
    RunComplete(a, Flush(d), p);
    if d.headers == [] {
      assert [] + w.msg.headers == w.msg.headers;
    } else {
      assert |d.headers + w.msg.headers| > |w.msg.headers|;
    }
  }

  lemma PlainCanonical(first: bool, h: bytes)
    requires h != [] && PlainText(h) && h[|h| - 1] != SPACE
    ensures CanonicalLine(first, h)
  {
    assert PlainAt(h, 0);
    PlainScan(h);
    SanQuoting(h);
    hide SanScan, QScan, PlainText;
    TrimStep(h);
  }

  lemma TwoLines(request: bytes, h: bytes, n: nat)
    requires ParseLine(0, request) == Length(0) && ParseLine(0, h) == Length(n)
    ensures ParseBlock([request, h]) == Length(n)
  {
    hide ParseLine;
    assert [request, h][..1] == [request] && [request][..0] == [];
    assert ParseBlock([request]) == Length(0);
  }

  /** Canonical messages exist for every body: a request line of plain text, and a written
      Content-Length in any spelling of its name. */
  lemma CanonicalExample(request: bytes, name: bytes, body: bytes, e: Eol)
    requires request != [] && PlainText(request) && request[|request| - 1] != SPACE
    requires |request| < 15 || !Spelled(request[..15])
    requires Spelled(name) && body != [] && |body| <= MAX_OBJECT
    ensures Canonical(Wire(Msg([request, ContentLengthLine(name, |body|)], Bytes(body)), [e, CrLf], CrLf))
  {
    var cl := ContentLengthLine(name, |body|);
    PlainCanonical(true, request);
    ContentLengthPlain(name, |body|);
    PlainCanonical(false, cl);
    OtherLines(0, request);
    ContentLengthParses(name, |body|);
    hide ParseLine, ParseBlock, ContentLengthLine, Spelled, CanonicalLine, PlainText;
    TwoLines(request, cl, |body|);
  }
}
