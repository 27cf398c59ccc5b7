/** The RTSP decoder as the C code runs it: a ring buffer filled ahead of the
    state machine, an index `rlen` into it, and growing NULL-terminated header
    arrays. Every handler refines its counterpart in DecoderSpec. */
module Decoder {
  import opened Bytes
  import opened HeaderLine
  import opened Ring
  import Spec = DecoderSpec

  /** A `char *` slot of the header array. */
  datatype CStr = Null | Str(text: bytes)

  /** The message under construction: two parallel arrays with room to spare,
      terminated by a NULL pointer and a zero length. */
  class RtspMsg {
    var header_size: nat
    var header_num: nat
    var header: array<CStr>
    var header_len: array<nat>
    var body: Spec.Payload

    /** The header lines collected so far. */
    ghost var Lines: seq<bytes>

    ghost predicate Valid()
      reads this, header, header_len
    {
      && header.Length == header_len.Length == header_size
      && header_num + 2 <= header_size && |Lines| == header_num
      && header[header_num] == Null && header_len[header_num] == 0
      && forall i :: 0 <= i < header_num ==> header[i] == Str(Lines[i]) && header_len[i] == |Lines[i]|
    }

    constructor ()
      ensures Valid() && Lines == [] && body == Spec.NoBody && fresh(header) && fresh(header_len)
    {
      header_size, header_num := 8, 0;
      header := new CStr[8](_ => Null);
      header_len := new nat[8](_ => 0);
      body := Spec.NoBody;
      Lines := [];
    }

    /** Forget all lines and the body. */
    method Reset()
      requires Valid()
      modifies this`header_num, this`body, this`Lines, header, header_len
      ensures Valid() && Lines == [] && body == Spec.NoBody
    {
      var i := 0;
      while i < header_num
        invariant 0 <= i <= header_num == old(header_num)
        invariant forall k :: 0 <= k < i ==> header[k] == Null && header_len[k] == 0
        invariant header[header_num] == Null && header_len[header_num] == 0
      {
        header[i] := Null;
        header_len[i] := 0;
        i := i + 1;
      }
      header_num := 0;
      body := Spec.NoBody;
      Lines := [];
    }

    /** Double both arrays. */
    method Grow()
      requires Valid()
      modifies this`header_size, this`header, this`header_len
      ensures Valid() && header_size == 2 * old(header_size)
      ensures fresh(header) && fresh(header_len)
    {
      var n := header_size * 2;
      var h := new CStr[n](_ => Null);
      forall i | 0 <= i < header_size {
        h[i] := header[i];
      }
      var l := new nat[n](_ => 0);
      forall i | 0 <= i < header_size {
        l[i] := header_len[i];
      }
      header := h;
      header_len := l;
      header_size := n;
    }

    /** Append a line, growing the arrays when they are full. */
    method Push(line: bytes)
      requires Valid()
      modifies this`header_size, this`header_num, this`header, this`header_len, this`Lines, header, header_len
      ensures Valid() && Lines == old(Lines) + [line]
      ensures header == old(header) || fresh(header)
      ensures header_len == old(header_len) || fresh(header_len)
    {
      if header_size == header_num + 2 {
        Grow();
      }
      header[header_num] := Str(line);
      header_len[header_num] := |line|;
      header_num := header_num + 1;
      header[header_num] := Null;
      header_len[header_num] := 0;
      Lines := Lines + [line];
    }
  }

  class RtspDecoder {
    const ring: ShlRing
    const msg: RtspMsg
    var state: Spec.Phase
    var last_chr: byte
    var remaining_body: nat
    var quoted: bool

    /** The messages handed to the callback so far. */
    ghost var Log: seq<Spec.Msg>

    ghost function Repr(): set<object>
      reads this, ring, msg
    {
      {this, ring, ring.buf, msg, msg.header, msg.header_len}
    }

    ghost predicate Valid()
      reads this, ring, ring.buf, msg, msg.header, msg.header_len
    {
      ring.Valid() && msg.Valid() && msg.body == Spec.NoBody
    }

    /** The decoder's own state, without the bytes it has pending in the ring. */
    ghost function Core(): Spec.Dec
      reads this, msg
    {
      Spec.Dec(state, last_chr, remaining_body, quoted, msg.Lines, [])
    }

    /** The decoder stands at d: the ring holds exactly its rlen pending bytes,
        followed by the input that has not been looked at. */
    ghost predicate At(d: Spec.Dec, rlen: nat, rest: bytes)
      reads this, ring, ring.buf, msg, msg.header, msg.header_len
    {
      && Valid() && Core() == d.(pending := [])
      && rlen == |d.pending| && ring.Contents == d.pending + rest
    }

    /** Between two feed calls everything in the ring is pending. */
    ghost function Model(): (d: Spec.Dec)
      reads this, ring, msg
    {
      Core().(pending := ring.Contents)
    }

    /** The outcome of handling one byte is that of the specification's step s. */
    ghost predicate Follows(s: Spec.Stepped, err: Errno, rlen: nat, rest: bytes,
                            sent: seq<Spec.Msg>, d: Spec.Dec)
      reads this, ring, ring.buf, msg, msg.header, msg.header_len
    {
      if err == Success then s.Ok? && Log == sent + s.sent && At(s.next, rlen, rest)
      else Valid() && err == EINVAL && s.Failed? && Log == sent && msg.Lines == d.headers && quoted == d.quoted
    }

    /** The header arrays are still those two, or have been reallocated. */
    twostate predicate SameOrFresh(h: array<CStr>, l: array<nat>)
      reads msg
    {
      (msg.header == h || fresh(msg.header)) && (msg.header_len == l || fresh(msg.header_len))
    }

    constructor ()
      ensures Valid() && Model() == Spec.FRESH && Log == [] && fresh(Repr())
    {
      ring := new ShlRing();
      msg := new RtspMsg();
      state, last_chr, remaining_body, quoted := Spec.New, NUL, 0, false;
      Log := [];
    }

    method Flush()
      requires Valid()
      modifies this`state, this`last_chr, this`remaining_body, ring`start, ring`end, ring`Contents
      ensures Valid() && Model() == Spec.Flush(old(Model()))
    {
      ring.Flush();
      state := Spec.New;
      last_chr := NUL;
      remaining_body := 0;
    }

    /** Hand the message to the callback and start an empty one. */
    method MsgDone()
      requires msg.Valid()
      modifies this`Log, msg`header_num, msg`body, msg`Lines, msg.header, msg.header_len
      ensures msg.Valid() && msg.Lines == [] && msg.body == Spec.NoBody
      ensures Log == old(Log) + [Spec.Msg(old(msg.Lines), old(msg.body))]
    {
      Log := Log + [Spec.Msg(msg.Lines, msg.body)];
      msg.Reset();
    }

    method ParseHeaderLine(line: bytes) returns (r: Errno)
      modifies this`remaining_body
      ensures ParseLine(old(remaining_body), line) ==
              if r == Success then Length(remaining_body) else Invalid
      ensures r == Success || (r == EINVAL && remaining_body == old(remaining_body))
    {
      if IsContentLength(line) {
        var (l, whole) := StrToUl(line[15..]);
        if |line| == 15 || !whole {
          return EINVAL;
        }
        if remaining_body != 0 && remaining_body != l {
          return EINVAL;
        }
        remaining_body := l;
      }
      return Success;
    }

    /** Take rlen pending bytes out of the ring and sanitize them. */
    method TakeLine(rlen: nat, ghost raw: bytes) returns (line: array<byte>, l: nat)
      requires ring.Valid() && rlen <= |ring.Contents| && raw == ring.Contents[..rlen]
      modifies ring`start, ring`Contents
      ensures ring.Valid() && ring.Contents == old(ring.Contents)[rlen..]
      ensures fresh(line) && l < line.Length && line[l] == NUL
      ensures line[..l] == Sanitize(raw)
    {
      hide Sanitize;
      line, l := ring.Copy(rlen);
      assert line[..l] == raw;
      ring.Pull(rlen);
      l := SanitizeHeaderLine(line, l, raw);
    }

    /** Turn the rlen pending bytes into a header line. */
    method FinishHeaderLine(rlen: nat, ghost d: Spec.Dec, ghost rest: bytes) returns (r: Errno)
      requires At(d, rlen, rest)
      modifies this`remaining_body, ring`start, ring`Contents
      modifies msg`header_size, msg`header_num, msg`header, msg`header_len, msg`Lines, msg.header, msg.header_len
      ensures SameOrFresh(old(msg.header), old(msg.header_len))
      ensures Follows(Spec.FinishLine(d), r, 0, rest, old(Log), d)
    {
      hide Sanitize, ParseLine;
      assert ring.Contents[..rlen] == d.pending && ring.Contents[rlen..] == rest;
      var line, l := TakeLine(rlen, d.pending);
      r := ParseHeaderLine(line[..l]);
      if r != Success {
        return;
      }
      msg.Push(line[..l]);
    }

    method FinishIfBroken(rlen: nat, ghost d: Spec.Dec, ghost rest: bytes) returns (r: Errno, n: nat)
      requires At(d, rlen, rest)
      modifies this`remaining_body, ring`start, ring`Contents
      modifies msg`header_size, msg`header_num, msg`header, msg`header_len, msg`Lines, msg.header, msg.header_len
      ensures SameOrFresh(old(msg.header), old(msg.header_len))
      ensures Follows(Spec.FinishIfBroken(d), r, n, rest, old(Log), d)
    {
      r, n := Success, rlen;
      if last_chr == CR || last_chr == LF {
        r := FinishHeaderLine(rlen, d, rest);
        n := 0;
      }
    }

    /** Count the byte at hand as pending. */
    lemma PushAt(d: Spec.Dec, rlen: nat, ch: byte, rest: bytes)
      requires At(d, rlen, [ch] + rest)
      ensures At(Spec.Push(d, ch), rlen + 1, rest)
    {
      assert d.pending + ([ch] + rest) == d.pending + [ch] + rest;
    }

    method FeedCharNew(ch: byte, rlen: nat, ghost d: Spec.Dec, ghost rest: bytes) returns (r: Errno, n: nat)
      requires At(d, rlen, [ch] + rest)
      modifies this, ring`start, ring`Contents, msg, msg.header, msg.header_len
      ensures SameOrFresh(old(msg.header), old(msg.header_len))
      ensures Follows(Spec.FeedNew(d, ch), r, n, rest, old(Log), d)
    {
      PushAt(d, rlen, ch, rest);
      if ch == CR || ch == LF || ch == TAB || ch == SPACE {
        return Success, rlen + 1;
      }
      state := Spec.Header;
      remaining_body := 0;
      ring.Pull(rlen);
      return Success, 1;
    }

    /** An empty line that starts with a carriage return. */
    method BlankCr(rlen: nat, ghost d: Spec.Dec, ghost rest: bytes) returns (r: Errno, n: nat)
      requires At(d, rlen, [CR] + rest) && d.phase == Spec.Header && IsNewline(d.last)
      modifies this, ring`start, ring`Contents, msg, msg.header, msg.header_len
      ensures SameOrFresh(old(msg.header), old(msg.header_len))
      ensures Follows(Spec.FeedHeader(d, CR), r, n, rest, old(Log), d)
    {
      hide Sanitize, ParseLine;
      state := Spec.HeaderNl;
      r := FinishHeaderLine(rlen, d.(phase := Spec.HeaderNl), [CR] + rest);
      n := 0;
      if r != Success {
        return;
      }
      if remaining_body == 0 {
        MsgDone();
      }
      n := n + 1;
    }

    /** The header block is complete: wait for its body, or deliver it without one. */
    method EndBlock(ghost d: Spec.Dec, ghost rest: bytes)
      requires At(d, 0, [LF] + rest)
      modifies this, ring`start, ring`Contents, msg`header_num, msg`body, msg`Lines, msg.header, msg.header_len
      ensures msg.header == old(msg.header) && msg.header_len == old(msg.header_len)
      ensures Follows(if d.remaining == 0 then Spec.Deliver(d.(phase := Spec.New), Spec.NoBody)
                      else Spec.Ok(d.(phase := Spec.Body), []), Success, 0, rest, old(Log), d)
    {
      state := Spec.Body;
      if remaining_body == 0 {
        state := Spec.New;
        MsgDone();
      }
      ring.Pull(1);
    }

    /** An empty line that is a bare line feed. */
    method BlankLf(rlen: nat, ghost d: Spec.Dec, ghost rest: bytes) returns (r: Errno, n: nat)
      requires At(d, rlen, [LF] + rest) && d.phase == Spec.Header && d.last == LF
      modifies this, ring`start, ring`Contents, msg, msg.header, msg.header_len
      ensures SameOrFresh(old(msg.header), old(msg.header_len))
      ensures Follows(Spec.FeedHeader(d, LF), r, n, rest, old(Log), d)
    {
      hide Spec.FinishLine;
      r := FinishHeaderLine(rlen, d, [LF] + rest);
      n := 0;
      if r == Success {
        EndBlock(Spec.FinishLine(d).next, rest);
      }
    }

    method FeedCharHeader(ch: byte, rlen: nat, ghost d: Spec.Dec, ghost rest: bytes) returns (r: Errno, n: nat)
      requires At(d, rlen, [ch] + rest) && d.phase == Spec.Header
      modifies this, ring`start, ring`Contents, msg, msg.header, msg.header_len
      ensures SameOrFresh(old(msg.header), old(msg.header_len))
      ensures Follows(Spec.FeedHeader(d, ch), r, n, rest, old(Log), d)
    {
      hide Spec.FinishIfBroken, Spec.FinishLine;
      PushAt(d, rlen, ch, rest);
      r, n := Success, rlen;
      if ch == CR {
        if last_chr == CR || last_chr == LF {
          r, n := BlankCr(rlen, d, rest);
        } else {
          n := n + 1;
        }
      } else if ch == LF {
        if last_chr == LF {
          r, n := BlankLf(rlen, d, rest);
        } else {
          n := n + 1;
        }
      } else if ch == QUOTE {
        r, n := FinishIfBroken(rlen, d, [ch] + rest);
        if r != Success {
          return;
        }
        PushAt(Spec.FinishIfBroken(d).next, n, ch, rest);
        state := Spec.HeaderQuote;
        quoted := false;
        n := n + 1;
      } else if ch == TAB || ch == SPACE {
        n := n + 1;
      } else {
        r, n := FinishIfBroken(rlen, d, [ch] + rest);
        if r != Success {
          return;
        }
        PushAt(Spec.FinishIfBroken(d).next, n, ch, rest);
        n := n + 1;
      }
    }

    method FeedCharHeaderQuote(ch: byte, rlen: nat, ghost d: Spec.Dec, ghost rest: bytes) returns (r: Errno, n: nat)
      requires At(d, rlen, [ch] + rest)
      modifies this, ring`start, ring`Contents, msg, msg.header, msg.header_len
      ensures SameOrFresh(old(msg.header), old(msg.header_len))
      ensures Follows(Spec.FeedHeaderQuote(d, ch), r, n, rest, old(Log), d)
    {
      PushAt(d, rlen, ch, rest);
      r, n := Success, rlen;
      if last_chr == BACKSLASH && !quoted {
        n := n + 1;
        quoted := true;
      } else {
        quoted := false;
        if ch == QUOTE {
          state := Spec.Header;
          n := n + 1;
        } else {
          n := n + 1;
        }
      }
    }

    /** The last byte of a body has come: deliver it. */
    method BodyDone(n: nat, ghost d: Spec.Dec, ghost rest: bytes)
      requires At(d, n, rest) && d.remaining == 0
      modifies this, ring`start, ring`Contents, msg`header_num, msg`body, msg`Lines, msg.header, msg.header_len
      ensures msg.header == old(msg.header) && msg.header_len == old(msg.header_len)
      ensures Follows(Spec.Deliver(d.(phase := Spec.New, pending := []), Spec.Bytes(d.pending)),
                      Success, 0, rest, old(Log), d)
    {
      var line, l := ring.Copy(n);
      assert line[..l] == d.pending;
      msg.body := Spec.Bytes(line[..l]);
      MsgDone();
      state := Spec.New;
      ring.Pull(n);
    }

    method FeedCharBody(ch: byte, rlen: nat, ghost d: Spec.Dec, ghost rest: bytes) returns (r: Errno, n: nat)
      requires At(d, rlen, [ch] + rest)
      modifies this, ring`start, ring`Contents, msg, msg.header, msg.header_len
      ensures SameOrFresh(old(msg.header), old(msg.header_len))
      ensures Follows(Spec.FeedBody(d, ch), r, n, rest, old(Log), d)
    {
      hide Spec.FeedNew;
      if remaining_body == 0 {
        state := Spec.New;
        r, n := FeedCharNew(ch, rlen, d.(phase := Spec.New), rest);
        return;
      }
      PushAt(d, rlen, ch, rest);
      r, n := Success, rlen + 1;
      remaining_body := remaining_body - 1;
      if remaining_body == 0 {
        BodyDone(n, Spec.Push(d, ch).(remaining := 0), rest);
        n := 0;
      }
    }

    method FeedCharHeaderNl(ch: byte, rlen: nat, ghost d: Spec.Dec, ghost rest: bytes) returns (r: Errno, n: nat)
      requires At(d, rlen, [ch] + rest)
      modifies this, ring`start, ring`Contents, msg, msg.header, msg.header_len
      ensures SameOrFresh(old(msg.header), old(msg.header_len))
      ensures Follows(Spec.FeedHeaderNl(d, ch), r, n, rest, old(Log), d)
    {
      PushAt(d, rlen, ch, rest);
      if ch == LF {
        ring.Pull(rlen + 1);
        state := Spec.Body;
        if remaining_body == 0 {
          state := Spec.New;
        }
        return Success, 0;
      } else {
        ring.Pull(rlen);
        state := Spec.Body;
        r, n := FeedCharBody(ch, 0, d.(pending := [], phase := Spec.Body), rest);
      }
    }

    method FeedChar(ch: byte, rlen: nat, ghost d: Spec.Dec, ghost rest: bytes) returns (r: Errno, n: nat)
      requires At(d, rlen, [ch] + rest)
      modifies this, ring`start, ring`Contents, msg, msg.header, msg.header_len
      ensures SameOrFresh(old(msg.header), old(msg.header_len))
      ensures Follows(Spec.FeedPhase(d, ch), r, n, rest, old(Log), d)
    {
      match state {
        case New => r, n := FeedCharNew(ch, rlen, d, rest);
        case Header => r, n := FeedCharHeader(ch, rlen, d, rest);
        case HeaderQuote => r, n := FeedCharHeaderQuote(ch, rlen, d, rest);
        case HeaderNl => r, n := FeedCharHeaderNl(ch, rlen, d, rest);
        case Body => r, n := FeedCharBody(ch, rlen, d, rest);
      }
    }

    /** Handle one byte and remember it. */
    method FeedByte(ch: byte, rlen: nat, ghost d: Spec.Dec, ghost rest: bytes) returns (r: Errno, n: nat)
      requires At(d, rlen, [ch] + rest)
      modifies this, ring`start, ring`Contents, msg, msg.header, msg.header_len
      ensures SameOrFresh(old(msg.header), old(msg.header_len))
      ensures Follows(Spec.Step(d, ch), r, n, rest, old(Log), d)
    {
      r, n := FeedChar(ch, rlen, d, rest);
      if r == Success {
        last_chr := ch;
      }
    }

    lemma RunByte(d: Spec.Dec, s: bytes, i: nat)
      requires i < |s|
      ensures var g := Spec.Run(d, s[i..]);
              match Spec.Step(d, s[i])
              case Failed => g == Spec.Fed(Spec.Flush(d), [], EINVAL)
              case Ok(next, sent) => var h := Spec.Run(next, s[i + 1..]); g == h.(sent := sent + h.sent)
      ensures s[i..] == [s[i]] + s[i + 1..]
    {
      assert s[i..][1..] == s[i + 1..];
    }

    /** Handle the bytes of buf, which the ring holds behind the pending ones. */
    method FeedAll(buf: bytes, len: nat, ghost d: Spec.Dec) returns (r: Errno)
      requires At(d, len, buf)
      modifies this, ring`start, ring`Contents, msg, msg.header, msg.header_len
      ensures SameOrFresh(old(msg.header), old(msg.header_len))
      ensures Valid()
      ensures var f := Spec.Run(d, buf);
              && r == f.err && Log == old(Log) + f.sent
              && if r == Success then Model() == f.dec else f.dec == Spec.Flush(Core())
    {
      hide Spec.Step;
      var rlen := len;
      ghost var cur := d;
      r := Success;
      var i := 0;
      while i < |buf|
        invariant 0 <= i <= |buf| && r == Success
        invariant At(cur, rlen, buf[i..])
        invariant SameOrFresh(old(msg.header), old(msg.header_len))
        invariant Rejoins(Spec.Run(d, buf), Spec.Run(cur, buf[i..]), old(Log))
      {
        ghost var rest := buf[i + 1..];
        RunByte(cur, buf, i);
        r, rlen := FeedByte(buf[i], rlen, cur, rest);
        if r != Success {
          return;
        }
        cur := Spec.Step(cur, buf[i]).next;
        i := i + 1;
      }
      assert buf[i..] == [];
    }

    /** Run f ends like its continuation g, whose messages are still to come. */
    ghost predicate Rejoins(f: Spec.Fed, g: Spec.Fed, log: seq<Spec.Msg>)
      reads this
    {
      f.dec == g.dec && f.err == g.err && log + f.sent == Log + g.sent
    }

    /** Append the bytes to the ring, then handle them one at a time; a failure
        flushes the decoder and drops the rest of the bytes. */
    method Feed(buf: bytes) returns (r: Errno)
      requires Valid() && |buf| <= MAX_OBJECT
      modifies Repr()
      ensures Valid() && fresh(Repr() - old(Repr()))
      ensures var f := Spec.Feed(old(Model()), buf);
              r == f.err && Model() == f.dec && Log == old(Log) + f.sent
    {
      ghost var d := Model();
      var rlen := ring.Length();
      r := ring.Push(buf);
      if r != Success {
        return ENOMEM;
      }
      r := FeedAll(buf, rlen, d);
      if r != Success {
        Flush();
      }
    }
  }
}
