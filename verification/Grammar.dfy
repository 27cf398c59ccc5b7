/** What the RTSP decoder accepts, described without the decoder: a stream is
    cut into white-space, logical header lines, blank lines and bodies. The
    decoder delivers exactly the messages this grammar reads off the stream. */
module Grammar {
  import opened Bytes
  import opened HeaderLine
  import opened DecoderSpec

  datatype Piece =
    | Lws(raw: bytes)      // white-space between messages
    | Line(raw: bytes)     // a logical header line with its folds and its line break
    | Blank(raw: bytes)    // the empty line behind a header block
    | Content(raw: bytes)  // a body

  function Spell(pieces: seq<Piece>): bytes {
    if pieces == [] then [] else pieces[0].raw + Spell(pieces[1..])
  }

  datatype Stage = Between | InBlock | AwaitBody

  /** A partly read stream: the lines of the current block, its declared length,
      the last byte of its last line, and whether a blank line was a bare CR. */
  datatype Asm = Asm(stage: Stage, headers: seq<bytes>, length: nat, last: byte, bareCr: bool)

  datatype Reading = Read(asm: Asm, sent: seq<Msg>) | Reject

  predicate AllLws(s: bytes) {
    forall i :: 0 <= i < |s| ==> IsLws(s[i])
  }

  /** The decoder's view of the quotes in a line: on the first line of a message
      the very first byte never opens a quote. */
  function ScanLine(first: bool, s: bytes): Quoting {
    QScan(if first && s != [] then s[1..] else s)
  }

  /** A line break that does not end the logical line: the two halves of CRLF,
      or a fold into a continuation line. */
  predicate Continues(a: byte, b: byte) {
    b == SPACE || b == TAB || (a == CR && b == LF)
  }

  /** Every unquoted line break inside the line continues it. */
  predicate Unbroken(first: bool, s: bytes) {
    forall k :: 0 <= k < |s| - 1 && IsNewline(s[k]) && ScanLine(first, s[..k]) == Out ==> Continues(s[k], s[k + 1])
  }

  predicate IsLine(first: bool, raw: bytes) {
    && raw != [] && !IsLws(raw[0]) && IsNewline(raw[|raw| - 1])
    && ScanLine(first, raw) == Out && Unbroken(first, raw)
  }

  function Accept(a: Asm, p: Piece): Reading {
    match p
    case Lws(raw) =>
      if a.stage == Between && AllLws(raw) && !(a.bareCr && raw != [] && raw[0] == LF) then
        Read(a.(bareCr := a.bareCr && raw == []), [])
      else Reject
    case Line(raw) =>
      var first := a.stage == Between;
      if a.stage == AwaitBody || !IsLine(first, raw) then Reject
      else
        var l := ParseLine(if first then 0 else a.length, Sanitize(raw));
        if l.Invalid? then Reject
        else Read(Asm(InBlock, a.headers + [Sanitize(raw)], l.remaining, raw[|raw| - 1], false), [])
    case Blank(raw) =>
      if a.stage == InBlock && (raw == [CR] || raw == [CR, LF] || (raw == [LF] && a.last == LF)) then
        var bare := raw == [CR];
        if a.length == 0 then Read(Asm(Between, [], 0, NUL, bare), [Msg(a.headers, NoBody)])
        else Read(a.(stage := AwaitBody, bareCr := bare), [])
      else Reject
    case Content(raw) =>
      if a.stage == AwaitBody && raw != [] && |raw| == a.length && !(a.bareCr && raw[0] == LF) then
        Read(Asm(Between, [], 0, NUL, false), [Msg(a.headers, Bytes(raw))])
      else Reject
  }

  function AcceptAll(a: Asm, pieces: seq<Piece>): Reading
    decreases |pieces|
  {
    if pieces == [] then Read(a, [])
    else
      match Accept(a, pieces[0])
      case Reject => Reject
      case Read(b, sent) =>
        match AcceptAll(b, pieces[1..])
        case Reject => Reject
        case Read(c, more) => Read(c, sent + more)
  }

  const START := Asm(Between, [], 0, NUL, false)

  lemma {:induction false} AcceptAppend(a: Asm, p: seq<Piece>, q: seq<Piece>)
    requires AcceptAll(a, p).Read?
    ensures AcceptAll(a, p + q) ==
            var r := AcceptAll(a, p);
            match AcceptAll(r.asm, q)
            case Reject => Reject
            case Read(b, sent) => Read(b, r.sent + sent)
    decreases |p|
  {
    hide Accept;
    if p == [] {
      assert p + q == q;
      if AcceptAll(a, q).Read? {
        assert [] + AcceptAll(a, q).sent == AcceptAll(a, q).sent;
      }
    } else {
      assert (p + q)[1..] == p[1..] + q;
      var r := Accept(a, p[0]);
      AcceptAppend(r.asm, p[1..], q);
      var t := AcceptAll(r.asm, p[1..]);
      var u := AcceptAll(t.asm, q);
      if u.Read? {
        assert r.sent + (t.sent + u.sent) == r.sent + t.sent + u.sent;
      }
    }
  }

  lemma {:induction false} SpellAppend(p: seq<Piece>, q: seq<Piece>)
    ensures Spell(p + q) == Spell(p) + Spell(q)
  {
    if p == [] {
      assert p + q == q;
    } else {
      SpellAppend(p[1..], q);
      assert (p + q)[1..] == p[1..] + q;
      Assoc(p[0].raw, Spell(p[1..]), Spell(q));
    }
  }

  lemma SpellTwo(p: Piece, q: Piece)
    ensures Spell([p]) == p.raw && Spell([p, q]) == p.raw + q.raw
  {
    assert [p, q][1..] == [q] && [q][1..] == [];
    assert p.raw + [] == p.raw && q.raw + [] == q.raw;
  }

  lemma ScanLinePush(first: bool, s: bytes, c: byte)
    requires s != []
    ensures ScanLine(first, s + [c]) == QStep(ScanLine(first, s), c)
  {
    if first {
      assert (s + [c])[1..] == s[1..] + [c];
      SanScanPush(s[1..], c);
    } else {
      SanScanPush(s, c);
    }
  }

  lemma UnbrokenPush(first: bool, s: bytes, c: byte)
    requires s != [] && Unbroken(first, s)
    requires IsNewline(s[|s| - 1]) && ScanLine(first, s[..|s| - 1]) == Out ==> Continues(s[|s| - 1], c)
    ensures Unbroken(first, s + [c])
  {
    var t := s + [c];
    forall k | 0 <= k < |t| - 1 && IsNewline(t[k]) && ScanLine(first, t[..k]) == Out
      ensures Continues(t[k], t[k + 1])
    {
      assert t[..k] == s[..k];
    }
  }

  // ----- soundness: what the decoder delivers, the grammar reads -----

  function Gap(raw: bytes): seq<Piece> {
    if raw == [] then [] else [Lws(raw)]
  }

  function BodyPieces(d: Dec, ch: byte): seq<Piece> {
    if d.remaining == 0 then if IsLws(ch) then [] else Gap(d.pending)
    else if d.remaining == 1 then [Content(d.pending + [ch])]
    else []
  }

  /** The pieces that byte ch completes. */
  function Pieces(d: Dec, ch: byte): seq<Piece> {
    match d.phase
    case New => if IsLws(ch) then [] else Gap(d.pending)
    case Header =>
      if !IsNewline(d.last) then []
      else if ch == LF && d.last == LF then [Line(d.pending), Blank([LF])]
      else if ch == CR || !IsLws(ch) then [Line(d.pending)]
      else []
    case HeaderQuote => []
    case HeaderNl =>
      if ch == LF then [Blank(d.pending + [LF])]
      else [Blank(d.pending)] + BodyPieces(d.(pending := []), ch)
    case Body => BodyPieces(d, ch)
  }

  lemma SpellShort(p: seq<Piece>)
    ensures p == [] ==> Spell(p) == []
    ensures |p| == 1 ==> Spell(p) == p[0].raw
    ensures |p| == 2 ==> Spell(p) == p[0].raw + p[1].raw
  {
    if |p| == 1 {
      SpellTwo(p[0], p[0]);
      assert p == [p[0]];
    } else if |p| == 2 {
      SpellTwo(p[0], p[1]);
      assert p == [p[0], p[1]];
    }
  }

  lemma BodyConserves(d: Dec, ch: byte)
    requires FeedBody(d, ch).Ok?
    ensures d.pending + [ch] == Spell(BodyPieces(d, ch)) + FeedBody(d, ch).next.pending
    ensures |BodyPieces(d, ch)| <= 1
  {
    hide Spell;
    SpellShort(BodyPieces(d, ch));
  }

  lemma HeaderConserves(d: Dec, ch: byte)
    requires d.phase == Header && FeedHeader(d, ch).Ok?
    ensures d.pending + [ch] == Spell(Pieces(d, ch)) + FeedHeader(d, ch).next.pending
  {
    hide Sanitize, ParseLine, Spell;
    SpellShort(Pieces(d, ch));
  }

  lemma HeaderNlConserves(d: Dec, ch: byte)
    requires d.phase == HeaderNl && FeedHeaderNl(d, ch).Ok?
    ensures d.pending + [ch] == Spell(Pieces(d, ch)) + FeedHeaderNl(d, ch).next.pending
  {
    hide Spell, FeedBody;
    SpellShort(Pieces(d, ch));
    if ch != LF {
      var e := d.(phase := Body, pending := []);
      var p := BodyPieces(e, ch);
      BodyConserves(e, ch);
      SpellShort(p);
      assert Pieces(d, ch) == [Blank(d.pending)] + p;
      SpellShort([Blank(d.pending)]);
      SpellAppend([Blank(d.pending)], p);
      Assoc(d.pending, Spell(p), FeedBody(e, ch).next.pending);
    }
  }

  /** No byte is lost or invented: every byte goes into a completed piece or is pending. */
  lemma StepConserves(d: Dec, ch: byte)
    requires Step(d, ch).Ok?
    ensures d.pending + [ch] == Spell(Pieces(d, ch)) + Step(d, ch).next.pending
  {
    match d.phase {
      case Header =>
        hide FeedHeader, Pieces;
        HeaderConserves(d, ch);
      case HeaderNl =>
        hide FeedHeaderNl, Pieces;
        HeaderNlConserves(d, ch);
      case Body =>
        hide FeedBody, BodyPieces;
        BodyConserves(d, ch);
      case New =>
        hide Spell;
        SpellShort(Pieces(d, ch));
      case HeaderQuote =>
        assert Pieces(d, ch) == [] && Spell([]) == [];
    }
  }

  /** The decoder at d has completed the pieces that led the reader to a. */
  ghost predicate Rel(a: Asm, d: Dec) {
    match d.phase
    case New =>
      a.stage == Between && a.headers == d.headers && AllLws(d.pending) && NoStrayLf(a, d)
    case Header => InLine(a, d) && ScanLine(a.stage == Between, d.pending) == Out
    case HeaderQuote =>
      && InLine(a, d)
      && var q := ScanLine(a.stage == Between, d.pending);
         q != Out && (q == Esc <==> d.last == BACKSLASH && !d.quoted)
    case HeaderNl =>
      && a.stage == InBlock && d.pending == [CR] && d.remaining == a.length
      && d.headers == if a.length == 0 then [] else a.headers
    case Body =>
      && a.stage == AwaitBody && a.headers == d.headers && NoStrayLf(a, d)
      && d.remaining > 0 && a.length == d.remaining + |d.pending|
  }

  predicate NoStrayLf(a: Asm, d: Dec) {
    a.bareCr ==> d.pending != [] && d.pending[0] != LF
  }

  /** The pending bytes are the beginning of a logical line. */
  ghost predicate InLine(a: Asm, d: Dec) {
    var first := a.stage == Between;
    && a.stage != AwaitBody && a.headers == d.headers
    && d.remaining == (if first then 0 else a.length)
    && d.pending != [] && !IsLws(d.pending[0]) && d.last == d.pending[|d.pending| - 1]
    && Unbroken(first, d.pending)
    && (first && a.bareCr ==> d.pending[0] != LF)
  }

  /** A message without a body is delivered at the carriage return of its blank
      line, before that line is complete. */
  function Early(a: Asm, d: Dec): seq<Msg> {
    if d.phase == HeaderNl && a.length == 0 then [Msg(a.headers, NoBody)] else []
  }

  /** One step of the decoder against one reading of its pieces. */
  ghost predicate Sound(a: Asm, d: Dec, s: Stepped, p: seq<Piece>) {
    s.Ok? ==>
      var r := AcceptAll(a, p);
      r.Read? && Rel(r.asm, s.next) && Early(a, d) + s.sent == r.sent + Early(r.asm, s.next)
  }

  lemma AcceptOne(a: Asm, p: Piece)
    ensures AcceptAll(a, [p]) == Accept(a, p)
  {
    hide Accept;
    if Accept(a, p).Read? {
      assert Accept(a, p).sent + [] == Accept(a, p).sent;
    }
  }

  lemma AcceptTwo(a: Asm, p: Piece, q: Piece)
    requires Accept(a, p).Read? && Accept(Accept(a, p).asm, q).Read?
    ensures var r := Accept(a, p); var t := Accept(r.asm, q);
            AcceptAll(a, [p, q]) == Read(t.asm, r.sent + t.sent)
  {
    hide Accept;
    assert [p, q][1..] == [q];
    AcceptOne(Accept(a, p).asm, q);
  }

  lemma SoundNew(a: Asm, d: Dec, ch: byte)
    requires Rel(a, d) && d.phase == New
    ensures Sound(a, d, Step(d, ch), Pieces(d, ch))
  {
    if !IsLws(ch) && d.pending != [] {
      AcceptOne(a, Lws(d.pending));
    }
  }

  /** A line break byte neither opens nor closes quotes. */
  lemma BreakKeepsQuotes(first: bool, p: bytes)
    requires |p| > 1 && IsNewline(p[|p| - 1])
    ensures ScanLine(first, p) == Out <==> ScanLine(first, p[..|p| - 1]) == Out
  {
    var r := p[..|p| - 1];
    assert p == r + [p[|p| - 1]];
    ScanLinePush(first, r, p[|p| - 1]);
  }

  /** The line goes on with ch. */
  lemma GrowLine(first: bool, p: bytes, ch: byte)
    requires p != [] && !IsLws(p[0]) && Unbroken(first, p)
    requires IsNewline(p[|p| - 1]) && ScanLine(first, p) == Out ==> Continues(p[|p| - 1], ch)
    ensures Unbroken(first, p + [ch])
    ensures ScanLine(first, p + [ch]) == QStep(ScanLine(first, p), ch)
  {
    hide ScanLine;
    ScanLinePush(first, p, ch);
    if IsNewline(p[|p| - 1]) {
      BreakKeepsQuotes(first, p);
    }
    UnbrokenPush(first, p, ch);
  }

  lemma SoundHeaderQuote(a: Asm, d: Dec, ch: byte)
    requires Rel(a, d) && d.phase == HeaderQuote
    ensures Sound(a, d, Step(d, ch), Pieces(d, ch))
  {
    hide ScanLine, Unbroken;
    GrowLine(a.stage == Between, d.pending, ch);
  }

  /** A byte that does not end the line. */
  lemma SoundHeaderGrows(a: Asm, d: Dec, ch: byte)
    requires Rel(a, d) && d.phase == Header && (IsNewline(d.last) ==> Continues(d.last, ch))
    ensures Sound(a, d, Step(d, ch), Pieces(d, ch))
  {
    hide ScanLine, Unbroken;
    GrowLine(a.stage == Between, d.pending, ch);
  }

  /** A new line begins with ch. */
  lemma FreshLine(ch: byte)
    ensures Unbroken(false, [ch]) && ScanLine(false, [ch]) == QStep(Out, ch)
    ensures Unbroken(true, [ch]) && ScanLine(true, [ch]) == Out
  {
    SanScanPush([], ch);
    assert [] + [ch] == [ch];
  }

  /** The reader takes the line that the decoder finishes. */
  lemma SoundFinish(a: Asm, d: Dec)
    requires Rel(a, d) && d.phase == Header && IsNewline(d.last)
    ensures match FinishLine(d)
            case Failed => Accept(a, Line(d.pending)) == Reject
            case Ok(next, sent) =>
              && Accept(a, Line(d.pending)) == Read(Asm(InBlock, next.headers, next.remaining, d.last, false), [])
              && next == d.(headers := next.headers, remaining := next.remaining, pending := []) && sent == []
  {
    hide ScanLine, Unbroken, Sanitize, ParseLine;
  }

  /** The reader at the end of a header block. */
  lemma AcceptBlank(a: Asm, raw: bytes)
    requires a.stage == InBlock && (raw == [CR] || raw == [CR, LF] || (raw == [LF] && a.last == LF))
    ensures Accept(a, Blank(raw)) ==
            if a.length == 0 then Read(Asm(Between, [], 0, NUL, raw == [CR]), [Msg(a.headers, NoBody)])
            else Read(a.(stage := AwaitBody, bareCr := raw == [CR]), [])
  {
  }

  lemma SoundBlankLf(a: Asm, d: Dec)
    requires Rel(a, d) && d.phase == Header && d.last == LF
    ensures Sound(a, d, Step(d, LF), Pieces(d, LF))
  {
    hide ScanLine, Unbroken, FinishLine, Accept, AcceptAll;
    SoundFinish(a, d);
    if FinishLine(d).Ok? {
      AcceptBlank(Accept(a, Line(d.pending)).asm, [LF]);
      AcceptTwo(a, Line(d.pending), Blank([LF]));
    }
  }

  lemma SoundBlankCr(a: Asm, d: Dec)
    requires Rel(a, d) && d.phase == Header && IsNewline(d.last)
    ensures Sound(a, d, Step(d, CR), Pieces(d, CR))
  {
    hide ScanLine, Unbroken, FinishLine, Accept, AcceptAll;
    SoundFinish(a, d);
    AcceptOne(a, Line(d.pending));
  }

  lemma SoundNextLine(a: Asm, d: Dec, ch: byte)
    requires Rel(a, d) && d.phase == Header && IsNewline(d.last) && !IsLws(ch)
    ensures Sound(a, d, Step(d, ch), Pieces(d, ch))
  {
    hide ScanLine, Unbroken, FinishLine, Accept, AcceptAll;
    SoundFinish(a, d);
    AcceptOne(a, Line(d.pending));
    FreshLine(ch);
    assert [] + [ch] == [ch];
  }

  lemma SoundBody(a: Asm, d: Dec, ch: byte)
    requires Rel(a, d) && d.phase == Body
    ensures Sound(a, d, Step(d, ch), Pieces(d, ch))
  {
    AcceptOne(a, Content(d.pending + [ch]));
  }

  /** Behind a CR blank line: the LF that belongs to it. */
  lemma SoundNlLf(a: Asm, d: Dec)
    requires Rel(a, d) && d.phase == HeaderNl
    ensures Sound(a, d, Step(d, LF), Pieces(d, LF))
  {
    hide ScanLine, Unbroken, Accept;
    assert [CR] + [LF] == [CR, LF];
    AcceptBlank(a, [CR, LF]);
    AcceptOne(a, Blank([CR, LF]));
  }

  /** The first byte of a body. */
  lemma SoundNlBody(a: Asm, d: Dec, ch: byte)
    requires Rel(a, d) && d.phase == HeaderNl && ch != LF && d.remaining > 0
    ensures Sound(a, d, Step(d, ch), Pieces(d, ch))
  {
    hide ScanLine, Unbroken;
    var b := a.(stage := AwaitBody, bareCr := true);
    AcceptBlank(a, [CR]);
    assert [] + [ch] == [ch];
    if d.remaining == 1 {
      assert Accept(b, Content([ch])).Read?;
      hide Accept;
      AcceptTwo(a, Blank([CR]), Content([ch]));
      assert [Blank([CR])] + [Content([ch])] == [Blank([CR]), Content([ch])];
    } else {
      hide Accept;
      AcceptOne(a, Blank([CR]));
      assert [Blank([CR])] + [] == [Blank([CR])];
    }
  }

  /** The first byte between messages. */
  lemma SoundNlNew(a: Asm, d: Dec, ch: byte)
    requires Rel(a, d) && d.phase == HeaderNl && ch != LF && d.remaining == 0
    ensures Sound(a, d, Step(d, ch), Pieces(d, ch))
  {
    FreshLine(ch);
    hide ScanLine, Unbroken, Accept;
    AcceptBlank(a, [CR]);
    AcceptOne(a, Blank([CR]));
    assert [] + [ch] == [ch] && [Blank([CR])] + [] == [Blank([CR])];
  }

  lemma StepSound(a: Asm, d: Dec, ch: byte)
    requires Rel(a, d)
    ensures Sound(a, d, Step(d, ch), Pieces(d, ch))
  {
    hide Step, Pieces, Sound;
    match d.phase {
      case New => SoundNew(a, d, ch);
      case Header =>
        if !IsNewline(d.last) || Continues(d.last, ch) {
          SoundHeaderGrows(a, d, ch);
        } else if ch == LF {
          SoundBlankLf(a, d);
        } else if ch == CR {
          SoundBlankCr(a, d);
        } else {
          SoundNextLine(a, d, ch);
        }
      case HeaderQuote => SoundHeaderQuote(a, d, ch);
      case HeaderNl =>
        if ch == LF {
          SoundNlLf(a, d);
        } else if d.remaining > 0 {
          SoundNlBody(a, d, ch);
        } else {
          SoundNlNew(a, d, ch);
        }
      case Body => SoundBody(a, d, ch);
    }
  }

  /** The pieces completed by a whole run. */
  function RunPieces(d: Dec, s: bytes): seq<Piece>
    decreases |s|
  {
    if s == [] then []
    else
      match Step(d, s[0])
      case Failed => []
      case Ok(next, _) => Pieces(d, s[0]) + RunPieces(next, s[1..])
  }

  /** Every failure-free run: the bytes are exactly the completed pieces followed by
      the pending part, the grammar accepts the pieces, and the messages delivered
      are the ones it reads off them. */
  lemma {:induction false} RunSound(a: Asm, d: Dec, s: bytes)
    requires Rel(a, d) && Run(d, s).err == Success
    ensures var f := Run(d, s); var p := RunPieces(d, s); var r := AcceptAll(a, p);
            && d.pending + s == Spell(p) + f.dec.pending
            && r.Read? && Rel(r.asm, f.dec)
            && Early(a, d) + f.sent == r.sent + Early(r.asm, f.dec)
    decreases |s|
  {
    hide Step, Pieces, Rel, Early;
    if s == [] {
      assert Early(a, d) + [] == [] + Early(a, d);
    } else {
      var next, sent := Step(d, s[0]).next, Step(d, s[0]).sent;
      var p, q := Pieces(d, s[0]), RunPieces(next, s[1..]);
      StepSound(a, d, s[0]);
      StepConserves(d, s[0]);
      var r := AcceptAll(a, p);
      RunSound(r.asm, next, s[1..]);
      AcceptAppend(a, p, q);
      SpellAppend(p, q);
      var f := Run(next, s[1..]);
      var t := AcceptAll(r.asm, q);
      var x, y, z := Early(a, d), Early(r.asm, next), Early(t.asm, f.dec);
      Regroup(x, sent, f.sent, r.sent, y, t.sent, z);
      assert s == [s[0]] + s[1..];
      Regroup(d.pending, [s[0]], s[1..], Spell(p), next.pending, Spell(q), f.dec.pending);
    }
  }

  /** Chaining x + s == r + y with y + f == t + z. */
  lemma Regroup<T>(x: seq<T>, s: seq<T>, f: seq<T>, r: seq<T>, y: seq<T>, t: seq<T>, z: seq<T>)
    requires x + s == r + y && y + f == t + z
    ensures x + (s + f) == r + t + z
  {
    assert x + (s + f) == x + s + f == r + (y + f);
    assert r + (t + z) == r + t + z;
  }

  // ----- completeness: what the grammar reads, the decoder delivers -----

  /** The decoder at d has consumed exactly the pieces that led the reader to a.
      The last header line is still pending: only the next byte can end it. */
  ghost predicate Rests(a: Asm, d: Dec) {
    match a.stage
    case Between =>
      && d.headers == a.headers
      && if a.bareCr then d.phase == HeaderNl && d.pending == [CR] && d.remaining == 0
         else d.phase == New && AllLws(d.pending)
    case InBlock =>
      && d.phase == Header && d.last == a.last && IsNewline(a.last)
      && FinishLine(d) == Ok(d.(headers := a.headers, remaining := a.length, pending := []), [])
    case AwaitBody =>
      && d.headers == a.headers && d.remaining == a.length > 0
      && if a.bareCr then d.phase == HeaderNl && d.pending == [CR] else d.phase == Body && d.pending == []
  }

  ghost predicate Complete(a: Asm, d: Dec, p: Piece) {
    var r, f := Accept(a, p), Run(d, p.raw);
    r.Read? ==> f.err == Success && Rests(r.asm, f.dec) && f.sent == r.sent
  }

  lemma RunOne(d: Dec, ch: byte)
    requires Step(d, ch).Ok?
    ensures Run(d, [ch]) == Fed(Step(d, ch).next, Step(d, ch).sent, Success)
  {
    hide Step;
    assert Step(d, ch).sent + [] == Step(d, ch).sent;
  }

  lemma RunFirst(d: Dec, s: bytes)
    requires s != [] && Step(d, s[0]).Ok?
    ensures var f := Run(Step(d, s[0]).next, s[1..]);
            Run(d, s) == f.(sent := Step(d, s[0]).sent + f.sent)
  {
    hide Step;
  }

  lemma {:induction false} RunLws(d: Dec, s: bytes)
    requires d.phase == New && AllLws(s) && AllLws(d.pending)
    ensures var f := Run(d, s);
            && f.err == Success && f.sent == []
            && f.dec.phase == New && f.dec.headers == d.headers && AllLws(f.dec.pending)
    decreases |s|
  {
    if s != [] {
      RunFirst(d, s);
      RunLws(Step(d, s[0]).next, s[1..]);
    }
  }

  lemma CompleteLws(a: Asm, d: Dec, raw: bytes)
    requires Rests(a, d)
    ensures Complete(a, d, Lws(raw))
  {
    if Accept(a, Lws(raw)).Read? {
      if a.bareCr && raw != [] {
        RunFirst(d, raw);
        RunLws(Step(d, raw[0]).next, raw[1..]);
      } else if !a.bareCr {
        RunLws(d, raw);
      }
    }
  }

  lemma {:induction false} RunBody(d: Dec, s: bytes)
    requires d.phase == Body && s != [] && |s| == d.remaining
    ensures var f := Run(d, s);
            && f.err == Success && f.sent == [Msg(d.headers, Bytes(d.pending + s))]
            && f.dec.phase == New && f.dec.pending == [] && f.dec.headers == []
    decreases |s|
  {
    RunFirst(d, s);
    var next := Step(d, s[0]).next;
    assert s == [s[0]] + s[1..];
    if |s| > 1 {
      RunBody(next, s[1..]);
      Assoc(d.pending, [s[0]], s[1..]);
    } else {
      assert s == [s[0]];
      RunOne(d, s[0]);
    }
  }

  lemma CompleteContent(a: Asm, d: Dec, raw: bytes)
    requires Rests(a, d)
    ensures Complete(a, d, Content(raw))
  {
    if Accept(a, Content(raw)).Read? {
      if a.bareCr {
        RunFirst(d, raw);
        var b := d.(pending := [], phase := Body);
        assert Step(d, raw[0]) == Step(b, raw[0]);
        RunFirst(b, raw);
        RunBody(b, raw);
      } else {
        RunBody(d, raw);
      }
      assert [] + raw == raw;
    }
  }

  lemma CompleteBlank(a: Asm, d: Dec, raw: bytes)
    requires Rests(a, d)
    ensures Complete(a, d, Blank(raw))
  {
    hide FinishLine;
    if Accept(a, Blank(raw)).Read? {
      RunOne(d, raw[0]);
      if raw == [CR, LF] {
        RunFirst(d, raw);
        RunOne(Step(d, CR).next, LF);
        assert raw[1..] == [LF];
      }
    }
  }

  /** Within a logical line every byte becomes pending. */
  lemma LineByte(a: Asm, d: Dec, ch: byte)
    requires Rel(a, d) && (d.phase == Header || d.phase == HeaderQuote)
    requires d.phase == Header && IsNewline(d.last) ==> Continues(d.last, ch)
    ensures var s := Step(d, ch);
            && s.Ok? && s.sent == [] && s.next.pending == d.pending + [ch]
            && Rel(a, s.next) && (s.next.phase == Header || s.next.phase == HeaderQuote)
  {
    hide ScanLine, Unbroken;
    GrowLine(a.stage == Between, d.pending, ch);
  }

  /** ... up to the end of the line. */
  lemma {:induction false} LineRest(a: Asm, d: Dec, raw: bytes)
    requires IsLine(a.stage == Between, raw) && d.pending <= raw
    requires Rel(a, d) && (d.phase == Header || d.phase == HeaderQuote)
    ensures var f := Run(d, raw[|d.pending|..]);
            f.err == Success && f.sent == [] && f.dec.pending == raw && f.dec.phase == Header && Rel(a, f.dec)
    decreases |raw| - |d.pending|
  {
    hide ScanLine, Step;
    var k := |d.pending|;
    if k < |raw| {
      var first := a.stage == Between;
      assert d.pending == raw[..k] && raw[..k][..k - 1] == raw[..k - 1];
      if d.phase == Header && IsNewline(d.last) {
        BreakKeepsQuotes(first, d.pending);
        assert Continues(raw[k - 1], raw[k]);
      }
      LineByte(a, d, raw[k]);
      assert raw[k..][1..] == raw[k + 1..];
      RunFirst(d, raw[k..]);
      LineRest(a, Step(d, raw[k]).next, raw);
    } else {
      assert raw[k..] == [] && d.pending == raw;
    }
  }

  /** The first byte of a line; it ends the pending line if there is one. */
  lemma LineStart(a: Asm, d: Dec, ch: byte)
    requires Rests(a, d) && a.stage != AwaitBody && !IsLws(ch)
    ensures var s := Step(d, ch);
            && s.Ok? && s.sent == [] && s.next.pending == [ch] && Rel(a, s.next)
            && (s.next.phase == Header || s.next.phase == HeaderQuote)
  {
    if a.stage == Between {
      LineStartBetween(a, d, ch);
    } else {
      LineStartInBlock(a, d, ch);
    }
  }

  lemma LineStartBetween(a: Asm, d: Dec, ch: byte)
    requires Rests(a, d) && a.stage == Between && !IsLws(ch)
    ensures var s := Step(d, ch);
            && s.Ok? && s.sent == [] && s.next.pending == [ch] && Rel(a, s.next) && s.next.phase == Header
  {
    hide FinishLine, ScanLine, Unbroken;
    FreshLine(ch);
  }

  lemma LineStartInBlock(a: Asm, d: Dec, ch: byte)
    requires Rests(a, d) && a.stage == InBlock && !IsLws(ch)
    ensures var s := Step(d, ch);
            && s.Ok? && s.sent == [] && s.next.pending == [ch] && Rel(a, s.next)
            && (s.next.phase == Header || s.next.phase == HeaderQuote)
  {
    hide FinishLine, ScanLine, Unbroken;
    FreshLine(ch);
    assert [] + [ch] == [ch];
  }

  lemma CompleteLine(a: Asm, d: Dec, raw: bytes)
    requires Rests(a, d)
    ensures Complete(a, d, Line(raw))
  {
    hide Step, ScanLine, Unbroken, Sanitize, ParseLine;
    if Accept(a, Line(raw)).Read? {
      LineStart(a, d, raw[0]);
      RunFirst(d, raw);
      LineRest(a, Step(d, raw[0]).next, raw);
    }
  }

  lemma PieceComplete(a: Asm, d: Dec, p: Piece)
    requires Rests(a, d)
    ensures Complete(a, d, p)
  {
    hide Complete, Rests;
    match p {
      case Lws(raw) => CompleteLws(a, d, raw);
      case Line(raw) => CompleteLine(a, d, raw);
      case Blank(raw) => CompleteBlank(a, d, raw);
      case Content(raw) => CompleteContent(a, d, raw);
    }
  }

  /** Every accepted sequence of pieces, fed as one stream, is decoded without
      failure and delivers exactly the messages the grammar reads. */
  lemma {:induction false} RunComplete(a: Asm, d: Dec, pieces: seq<Piece>)
    requires Rests(a, d) && AcceptAll(a, pieces).Read?
    ensures var r, f := AcceptAll(a, pieces), Run(d, Spell(pieces));
            f.err == Success && Rests(r.asm, f.dec) && f.sent == r.sent
    decreases |pieces|
  {
    hide Accept, Rests, Step;
    if pieces != [] {
      var p, rest := pieces[0], pieces[1..];
      PieceComplete(a, d, p);
      var f := Run(d, p.raw);
      RunAppend(d, p.raw, Spell(rest));
      RunComplete(Accept(a, p).asm, f.dec, rest);
    }
  }

  /** The grammar is unambiguous: however a stream is cut into acceptable pieces,
      the messages are the same. */
  lemma Unambiguous(p: seq<Piece>, q: seq<Piece>)
    requires Spell(p) == Spell(q) && AcceptAll(START, p).Read? && AcceptAll(START, q).Read?
    ensures AcceptAll(START, p).sent == AcceptAll(START, q).sent
  {
    RunComplete(START, FRESH, p);
    RunComplete(START, FRESH, q);
  }

  // ----- the decoder's quotes against the sanitizer's -----

  lemma {:induction false} LeadingByte(s: bytes)
    requires s != [] && s[0] != QUOTE
    ensures QScan(s[1..]) == QScan(s)
  {
    if |s| == 1 {
      SanScanPush([], s[0]);
      assert [] + [s[0]] == s;
    } else {
      var r := s[..|s| - 1];
      LeadingByte(r);
      assert s[1..] == r[1..] + [s[|s| - 1]];
      SanScanPush(r[1..], s[|s| - 1]);
    }
  }

  /** The bytes end with an odd number of backslashes. */
  predicate OddRun(s: bytes) {
    s != [] && s[|s| - 1] == BACKSLASH && !OddRun(s[..|s| - 1])
  }

  /** Some quote stands behind an odd number of backslashes. */
  predicate EscapedQuote(s: bytes) {
    exists k :: 0 <= k < |s| && s[k] == QUOTE && OddRun(s[..k])
  }

  lemma EscapedQuotePush(r: bytes, c: byte)
    ensures EscapedQuote(r + [c]) <==> EscapedQuote(r) || (c == QUOTE && OddRun(r))
    ensures OddRun(r + [c]) <==> c == BACKSLASH && !OddRun(r)
  {
    var s := r + [c];
    assert s[..|r|] == r;
    forall k | 0 <= k < |r|
      ensures s[..k] == r[..k] && s[k] == r[k]
    {
    }
    hide OddRun;
    if EscapedQuote(r) {
      var k :| 0 <= k < |r| && r[k] == QUOTE && OddRun(r[..k]);
      assert s[k] == QUOTE && OddRun(s[..k]);
    }
    if c == QUOTE && OddRun(r) {
      assert s[|r|] == QUOTE && OddRun(s[..|r|]);
    }
  }

  /** Two scans of which one skips a leading quote are opposite, one inside and one
      outside of quotes, until an escaped quote makes them meet. */
  lemma {:induction false} LeadingQuote(s: bytes)
    requires s != [] && s[0] == QUOTE
    ensures EscapedQuote(s) ==> QScan(s) == QScan(s[1..])
    ensures !EscapedQuote(s) ==>
              var inside := if OddRun(s) then Esc else In;
              (QScan(s) == inside && QScan(s[1..]) == Out) || (QScan(s) == Out && QScan(s[1..]) == inside)
  {
    var r, c := s[..|s| - 1], s[|s| - 1];
    assert s == r + [c];
    EscapedQuotePush(r, c);
    if r == [] {
      SanScanPush([], c);
    } else {
      LeadingQuote(r);
      assert s[1..] == r[1..] + [c];
      SanScanPush(r, c);
      SanScanPush(r[1..], c);
    }
  }

  /** A line the decoder finishes leaves the sanitizer outside quotes if and only if it is
      not a first line that starts with a quote, or some quote in it is escaped. */
  lemma QuoteAgreement(first: bool, raw: bytes)
    requires IsLine(first, raw)
    ensures SanScan(raw).q == Out <==> !(first && raw[0] == QUOTE) || EscapedQuote(raw)
  {
    SanQuoting(raw);
    if raw[0] == QUOTE {
      LeadingQuote(raw);
    } else {
      LeadingByte(raw);
    }
  }

  lemma ScanMore(s: bytes, c: byte) returns (t: bytes)
    ensures t == s + [c] && QScan(t) == QStep(QScan(s), c)
    ensures OddRun(t) <==> c == BACKSLASH && !OddRun(s)
    ensures EscapedQuote(t) <==> EscapedQuote(s) || (c == QUOTE && OddRun(s))
  {
    t := s + [c];
    SanScanPush(s, c);
    EscapedQuotePush(s, c);
  }

  /** A one-line first line, seen from the byte behind its leading quote. */
  lemma QuotedFirstLine(rest: bytes, raw: bytes)
    requires rest != [] && raw == [QUOTE] + rest && QScan(rest) == Out
    requires IsNewline(rest[|rest| - 1]) && forall i :: 0 <= i < |rest| - 1 ==> !IsNewline(rest[i])
    ensures IsLine(true, raw)
  {
    assert raw[1..] == rest && raw[|raw| - 1] == rest[|rest| - 1];
    forall k | 0 <= k < |raw| - 1
      ensures !IsNewline(raw[k])
    {
      assert k == 0 || raw[k] == rest[k - 1];
    }
  }

  /** A first line that leaves the sanitizer inside quotes. */
  lemma QuoteDisagreement()
    ensures var raw := [QUOTE, 97, LF]; IsLine(true, raw) && SanScan(raw).q != Out
  {
    assert QScan([]) == Out && !OddRun([]) && !EscapedQuote([]);
    hide QScan, OddRun, EscapedQuote, IsLine, SanScan;
    var t := ScanMore([], 97);
    t := ScanMore(t, LF);
    QuotedFirstLine(t, [QUOTE, 97, LF]);
    t := ScanMore([], QUOTE);
    t := ScanMore(t, 97);
    t := ScanMore(t, LF);
    QuoteAgreement(true, [QUOTE, 97, LF]);
  }

  /** A first line that starts with a quote and leaves it outside. */
  lemma QuoteCoincidence() returns (raw: bytes)
    ensures raw == [QUOTE, BACKSLASH, QUOTE, QUOTE, LF]
    ensures IsLine(true, raw) && SanScan(raw).q == Out
  {
    hide QScan, OddRun, EscapedQuote, IsLine, SanScan;
    raw := EscapedExample();
    var rest := BalancedExample();
    assert raw == [QUOTE] + rest;
    QuotedFirstLine(rest, raw);
    QuoteAgreement(true, raw);
  }

  lemma BalancedExample() returns (t: bytes)
    ensures t == [BACKSLASH, QUOTE, QUOTE, LF] && QScan(t) == Out
  {
    assert QScan([]) == Out;
    hide QScan, OddRun, EscapedQuote;
    t := ScanMore([], BACKSLASH);
    assert t == [BACKSLASH];
    t := ScanMore(t, QUOTE);
    assert t == [BACKSLASH, QUOTE];
    t := ScanMore(t, QUOTE);
    assert t == [BACKSLASH, QUOTE, QUOTE];
    t := ScanMore(t, LF);
  }

  lemma EscapedExample() returns (t: bytes)
    ensures t == [QUOTE, BACKSLASH, QUOTE, QUOTE, LF] && EscapedQuote(t)
  {
    t := [QUOTE, BACKSLASH, QUOTE, QUOTE, LF];
    var p := t[..2];
    assert p[1] == BACKSLASH && p[..1] == [QUOTE];
    assert OddRun(p) && t[2] == QUOTE;
  }
}
