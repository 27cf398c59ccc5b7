/** Writing lines for the RTSP tokenizer: words, separators and quoted strings, with
    blanks in between where they are needed or wanted. Tokenizing such a line gives back
    exactly what was written. */
module RtspQuoting {
  import opened Bytes
  import opened RtspTokenizer
  import opened Tokens

  /** A byte inside quotes: as it is, or behind a backslash. */
  datatype Char = Raw(c: byte) | Esc(c: byte)

  /** A token as written, and the blanks behind it. */
  datatype Item =
    | Word(text: bytes, gap: bytes)
    | Separator(c: byte, gap: bytes)
    | Quotation(chars: seq<Char>, gap: bytes)

  predicate IsBlank(c: byte, signed: bool) {
    c != NUL && (c == SPACE || IsCtl(c, signed))
  }

  predicate IsPlain(c: byte, signed: bool) {
    c != NUL && c != QUOTE && c != SPACE && !IsSeparator(c) && !IsCtl(c, signed)
  }

  predicate Blanks(s: bytes, signed: bool) {
    forall i :: 0 <= i < |s| ==> IsBlank(s[i], signed)
  }

  predicate GoodChar(x: Char) {
    match x
    case Raw(c) => c != NUL && c != QUOTE && c != BACKSLASH
    case Esc(c) => c != NUL && c != DIGIT_0
  }

  predicate GoodChars(s: seq<Char>) {
    s == [] || (GoodChar(s[0]) && GoodChars(s[1..]))
  }

  predicate WellFormed(it: Item, signed: bool) {
    Blanks(it.gap, signed) &&
    match it
    case Word(text, gap) => text != [] && forall i :: 0 <= i < |text| ==> IsPlain(text[i], signed)
    case Separator(c, _) => IsSeparator(c)
    case Quotation(chars, _) => GoodChars(chars)
  }

  /** The ASCII classes of the source, by their characters. */
  lemma Classes(c: byte, signed: bool)
    ensures IsSeparator(c) <==> c as char in "()[]{}<>@,;:\\/?="
    ensures IsBlank(c, signed) <==> 1 <= c <= 32 || c == 127 || (signed && c >= 128)
  {
  }

  /** The named escapes; any other byte stands for itself. */
  lemma Escapes(c: byte)
    ensures Unescape('n' as int) == LF && Unescape('r' as int) == CR && Unescape('t' as int) == TAB
    ensures Unescape('a' as int) == 7 && Unescape('b' as int) == 8 && Unescape('v' as int) == 11
    ensures Unescape('f' as int) == 12 && Unescape('e' as int) == 27
    ensures c as char !in "nrtabvfe" ==> Unescape(c) == c
  {
  }

  function RenderChar(x: Char): bytes {
    match x
    case Raw(c) => [c]
    case Esc(c) => [BACKSLASH, c]
  }

  function RenderChars(s: seq<Char>): bytes {
    if s == [] then [] else RenderChar(s[0]) + RenderChars(s[1..])
  }

  function Render(it: Item): bytes {
    match it
    case Word(text, gap) => text + gap
    case Separator(c, gap) => [c] + gap
    case Quotation(chars, gap) => [QUOTE] + RenderChars(chars) + [QUOTE] + gap
  }

  function CharText(x: Char): byte {
    match x
    case Raw(c) => c
    case Esc(c) => Unescape(c)
  }

  function CharsText(s: seq<Char>): bytes {
    if s == [] then [] else [CharText(s[0])] + CharsText(s[1..])
  }

  function Meaning(it: Item): bytes {
    match it
    case Word(text, _) => text
    case Separator(c, _) => [c]
    case Quotation(chars, _) => CharsText(chars)
  }

  function RenderAll(items: seq<Item>): bytes {
    if items == [] then [] else Render(items[0]) + RenderAll(items[1..])
  }

  /** Only two words next to each other need a blank between them. */
  predicate AllWellFormed(items: seq<Item>, signed: bool) {
    items == []
    || (WellFormed(items[0], signed) && AllWellFormed(items[1..], signed)
        && (items[0].Word? && |items| > 1 && items[1].Word? ==> items[0].gap != []))
  }

  function Meanings(items: seq<Item>): seq<bytes> {
    if items == [] then [] else [Meaning(items[0])] + Meanings(items[1..])
  }

  // ----- reading -----

  /** Reading line takes the lexer from x to y, and no \0 escape occurs. */
  predicate Reads(x: Lexer, line: bytes, y: Lexer, signed: bool) {
    Lex(x, line, signed) == y && ZeroEscapes(x, line, signed) == 0 && NulFree(line)
  }

  lemma ReadsNothing(x: Lexer, signed: bool)
    ensures Reads(x, [], x, signed)
  {
  }

  lemma ReadsOne(x: Lexer, c: byte, signed: bool)
    requires c != NUL && x.mode != Escaped
    ensures Reads(x, [c], LexStep(x, c, signed), signed)
  {
    var line := [c];
    assert line[1..] == [];
  }

  lemma {:induction false} ReadsAppend(x: Lexer, a: bytes, y: Lexer, b: bytes, z: Lexer, signed: bool)
    requires Reads(x, a, y, signed) && Reads(y, b, z, signed)
    ensures Reads(x, a + b, z, signed)
    decreases |a|
  {
    hide LexStep;
    if a == [] {
      assert a + b == b;
    } else {
      ReadsAppend(LexStep(x, a[0], signed), a[1..], y, b, z, signed);
      assert (a + b)[1..] == a[1..] + b;
    }
  }

  lemma {:induction false} ReadsBlanks(x: Lexer, gap: bytes, signed: bool)
    requires x.mode == Plain && Blanks(gap, signed)
    ensures Reads(x, gap, if gap == [] then x else FinishOpen(x), signed)
    decreases |gap|
  {
    if gap != [] {
      ReadsBlanks(FinishOpen(x), gap[1..], signed);
      assert IsBlank(gap[0], signed);
      ReadsOne(x, gap[0], signed);
      BlankStep(x, gap[0], signed);
      ReadsAppend(x, [gap[0]], FinishOpen(x), gap[1..], FinishOpen(x), signed);
      assert gap == [gap[0]] + gap[1..];
    }
  }

  lemma BlankStep(x: Lexer, c: byte, signed: bool)
    requires x.mode == Plain && IsBlank(c, signed)
    ensures LexStep(x, c, signed) == FinishOpen(x)
  {
  }

  lemma {:induction false} ReadsWord(x: Lexer, text: bytes, signed: bool)
    requires x.mode == Plain && text != [] && forall i :: 0 <= i < |text| ==> IsPlain(text[i], signed)
    ensures Reads(x, text, x.(cur := x.cur + text, open := true), signed)
    decreases |text|
  {
    var y := Extend(x, text[0]);
    assert IsPlain(text[0], signed);
    ReadsOne(x, text[0], signed);
    if |text| == 1 {
      assert text == [text[0]];
    } else {
      ReadsWord(y, text[1..], signed);
      assert y.cur + text[1..] == x.cur + text;
      ReadsAppend(x, [text[0]], y, text[1..], x.(cur := x.cur + text, open := true), signed);
      assert text == [text[0]] + text[1..];
    }
  }

  lemma ReadsChar(x: Lexer, ch: Char, signed: bool)
    requires x.mode == Quoted && GoodChar(ch)
    ensures Reads(x, RenderChar(ch), Extend(x, CharText(ch)), signed)
  {
    match ch {
      case Raw(c) => ReadsOne(x, c, signed);
      case Esc(c) =>
        var y := LexStep(x, BACKSLASH, signed);
        assert [BACKSLASH, c][1..] == [c] && [c][1..] == [];
        assert LexStep(y, c, signed) == Extend(x, Unescape(c));
        assert Lex(y, [c], signed) == Extend(x, Unescape(c));
        assert ZeroEscapes(y, [c], signed) == 0;
    }
  }

  lemma {:induction false} ReadsChars(x: Lexer, s: seq<Char>, signed: bool)
    requires x.mode == Quoted && GoodChars(s)
    ensures Reads(x, RenderChars(s), x.(cur := x.cur + CharsText(s), open := x.open || s != []), signed)
    decreases |s|
  {
    var z := x.(cur := x.cur + CharsText(s), open := x.open || s != []);
    if s == [] {
      assert x.cur + [] == x.cur;
    } else {
      var y := Extend(x, CharText(s[0]));
      ReadsChars(y, s[1..], signed);
      assert y.cur + CharsText(s[1..]) == x.cur + CharsText(s);
      ReadsChar(x, s[0], signed);
      ReadsAppend(x, RenderChar(s[0]), y, RenderChars(s[1..]), z, signed);
    }
  }

  /** Outside quotes; the current token is finished or not. */
  predicate Outside(x: Lexer) {
    x.mode == Plain && (x.open || x.cur == [])
  }

  /** An opened quote finishes the current token, and begins one once a byte follows. */
  lemma ReadsOpened(x: Lexer, chars: seq<Char>, signed: bool) returns (y: Lexer)
    requires Outside(x) && GoodChars(chars)
    ensures Reads(x, [QUOTE] + RenderChars(chars), y, signed)
    ensures y == FinishOpen(x).(mode := Quoted, cur := CharsText(chars), open := chars != [])
  {
    var b := FinishOpen(x).(mode := Quoted);
    y := b.(cur := CharsText(chars), open := chars != []);
    ReadsOne(x, QUOTE, signed);
    assert LexStep(x, QUOTE, signed) == b;
    ReadsChars(b, chars, signed);
    assert b.cur + CharsText(chars) == CharsText(chars);
    hide Reads;
    ReadsAppend(x, [QUOTE], b, RenderChars(chars), y, signed);
  }

  lemma ReadsQuotation(x: Lexer, chars: seq<Char>, signed: bool)
    requires Outside(x) && GoodChars(chars)
    ensures Reads(x, [QUOTE] + RenderChars(chars) + [QUOTE], After(FinishOpen(x), [CharsText(chars)]), signed)
  {
    var y := ReadsOpened(x, chars, signed);
    ReadsOne(y, QUOTE, signed);
    hide Reads;
    ReadsAppend(x, [QUOTE] + RenderChars(chars), y, [QUOTE], After(FinishOpen(x), [CharsText(chars)]), signed);
  }

  /** One item; a word with nothing behind it is not finished yet. */
  lemma ReadsItem(x: Lexer, it: Item, signed: bool) returns (y: Lexer)
    requires Outside(x) && WellFormed(it, signed) && (x.open ==> !it.Word?)
    ensures Reads(x, Render(it), y, signed) && Outside(y) && (y.open ==> it.Word? && it.gap == [])
    ensures FinishOpen(y) == After(FinishOpen(x), [Meaning(it)])
  {
    hide Reads, RenderChars, CharsText, IsSeparator, IsCtl;
    var z := After(FinishOpen(x), [Meaning(it)]);
    match it {
      case Word(text, gap) =>
        var w := x.(cur := x.cur + text, open := true);
        ReadsWord(x, text, signed);
        ReadsBlanks(w, gap, signed);
        assert x.cur + text == text;
        y := if gap == [] then w else z;
        ReadsAppend(x, text, w, gap, y, signed);
      case Separator(c, gap) =>
        SeparatorStep(x, c, signed);
        ReadsOne(x, c, signed);
        ReadsBlanks(z, gap, signed);
        y := z;
        ReadsAppend(x, [c], z, gap, z, signed);
      case Quotation(chars, gap) =>
        ReadsQuotation(x, chars, signed);
        ReadsBlanks(z, gap, signed);
        y := z;
        ReadsAppend(x, [QUOTE] + RenderChars(chars) + [QUOTE], z, gap, z, signed);
    }
  }

  lemma SeparatorStep(x: Lexer, c: byte, signed: bool)
    requires Outside(x) && IsSeparator(c)
    ensures LexStep(x, c, signed) == After(FinishOpen(x), [[c]]) && c != NUL
  {
    assert FinishOpen(x).cur + [c] == [c];
  }

  lemma {:induction false} ReadsAll(x: Lexer, items: seq<Item>, signed: bool) returns (y: Lexer)
    requires Outside(x) && AllWellFormed(items, signed) && (x.open && items != [] ==> !items[0].Word?)
    ensures Reads(x, RenderAll(items), y, signed) && Outside(y)
    ensures FinishOpen(y) == After(FinishOpen(x), Meanings(items))
    decreases |items|
  {
    OutsideBetween(x);
    hide Reads, WellFormed, Render, Meaning, Outside, FinishOpen, After, Between;
    if items == [] {
      y := x;
      AfterMore(FinishOpen(x), [], []);
      ReadsNothing(x, signed);
    } else {
      var m, rest := Meaning(items[0]), items[1..];
      var b := ReadsItem(x, items[0], signed);
      y := ReadsAll(b, rest, signed);
      AfterMore(FinishOpen(x), m, Meanings(rest));
      ReadsAppend(x, Render(items[0]), b, RenderAll(rest), y, signed);
    }
  }

  lemma OutsideBetween(x: Lexer)
    requires Outside(x)
    ensures Between(FinishOpen(x))
  {
  }

  // ----- round trips -----

  /** How a line ends: with its last item, or in a quotation that is not closed, perhaps even
      right behind a backslash. */
  datatype Tail = Closed | Open(chars: seq<Char>, dangling: bool)

  function RenderTail(tail: Tail): bytes {
    match tail
    case Closed => []
    case Open(chars, dangling) => [QUOTE] + RenderChars(chars) + if dangling then [BACKSLASH] else []
  }

  function Written(lead: bytes, items: seq<Item>, tail: Tail): bytes {
    lead + RenderAll(items) + RenderTail(tail)
  }

  /** The tokens of such a line; an unclosed quotation is one if anything stands in it. */
  function Expected(items: seq<Item>, tail: Tail): seq<bytes> {
    Meanings(items)
    + if tail.Closed? || (tail.chars == [] && !tail.dangling) then [] else [CharsText(tail.chars)]
  }

  lemma ReadsTail(y: Lexer, items: seq<Item>, tail: Tail, signed: bool) returns (z: Lexer)
    requires Outside(y) && FinishOpen(y) == After(START, Meanings(items)) && (tail.Open? ==> GoodChars(tail.chars))
    ensures Reads(y, RenderTail(tail), z, signed) && FinishOpen(z).done == Expected(items, tail)
  {
    assert START.done + Meanings(items) == Meanings(items) == Meanings(items) + [];
    if tail.Closed? {
      z := y;
      ReadsNothing(y, signed);
    } else {
      var b := ReadsOpened(y, tail.chars, signed);
      var front := [QUOTE] + RenderChars(tail.chars);
      if tail.dangling {
        z := LexStep(b, BACKSLASH, signed);
        ReadsOne(b, BACKSLASH, signed);
        ReadsAppend(y, front, b, [BACKSLASH], z, signed);
      } else {
        z := b;
        assert front + [] == front;
      }
    }
  }

  /** Round trip: any list of words, separators and quotations, written with any blanks in
      front and in between, is tokenized into exactly that list. */
  lemma RoundTrip(lead: bytes, items: seq<Item>, tail: Tail, signed: bool)
    requires Blanks(lead, signed) && AllWellFormed(items, signed) && (tail.Open? ==> GoodChars(tail.chars))
    ensures NulFree(Written(lead, items, tail))
    ensures LineTokens(Written(lead, items, tail), signed) == Expected(items, tail)
    ensures var m := Result(Written(lead, items, tail), signed);
            !m.fault && m.num == |Expected(items, tail)| && m.out == Join(Expected(items, tail))
  {
    ReadsBlanks(START, lead, signed);
    var y := ReadsAll(START, items, signed);
    assert FinishOpen(START) == START;
    var z := ReadsTail(y, items, tail, signed);
    ReadsBoth(lead, RenderAll(items), RenderTail(tail), y, z, signed);
    CorrectIff(Written(lead, items, tail), signed);
    hide Expected, RenderAll, RenderTail, Join, Result;
  }

  lemma ReadsBoth(lead: bytes, middle: bytes, last: bytes, y: Lexer, z: Lexer, signed: bool)
    requires Reads(START, lead, START, signed) && Reads(START, middle, y, signed) && Reads(y, last, z, signed)
    ensures Reads(START, lead + middle + last, z, signed)
  {
    hide Reads;
    ReadsAppend(START, lead, START, middle, y, signed);
    ReadsAppend(START, lead + middle, y, last, z, signed);
  }

  /** How a byte can be written inside quotes: controls that have a name by their escape, the
      quote and the backslash behind a backslash. */
  function EscapeByte(c: byte): Char {
    if c == QUOTE || c == BACKSLASH then Esc(c)
    else if c == 7 then Esc('a' as int)
    else if c == 8 then Esc('b' as int)
    else if c == TAB then Esc('t' as int)
    else if c == LF then Esc('n' as int)
    else if c == 11 then Esc('v' as int)
    else if c == 12 then Esc('f' as int)
    else if c == CR then Esc('r' as int)
    else if c == 27 then Esc('e' as int)
    else Raw(c)
  }

  function EscapeText(s: bytes): seq<Char> {
    if s == [] then [] else [EscapeByte(s[0])] + EscapeText(s[1..])
  }

  lemma {:induction false} EscapedText(s: bytes)
    requires NulFree(s)
    ensures GoodChars(EscapeText(s)) && CharsText(EscapeText(s)) == s
    decreases |s|
  {
    if s != [] {
      EscapedText(s[1..]);
      assert s == [s[0]] + s[1..];
    }
  }

  function Quotations(texts: seq<bytes>): seq<Item> {
    if texts == [] then [] else [Quotation(EscapeText(texts[0]), [])] + Quotations(texts[1..])
  }

  lemma {:induction false} QuotationsMean(texts: seq<bytes>, signed: bool)
    requires AllNulFree(texts)
    ensures Meanings(Quotations(texts)) == texts && AllWellFormed(Quotations(texts), signed)
    decreases |texts|
  {
    if texts != [] {
      QuotationsMean(texts[1..], signed);
      EscapedText(texts[0]);
      assert texts == [texts[0]] + texts[1..];
      assert Quotations(texts)[1..] == Quotations(texts[1..]);
    }
  }

  lemma OnlyItems(items: seq<Item>)
    ensures Written([], items, Closed) == RenderAll(items) && Expected(items, Closed) == Meanings(items)
  {
    hide RenderAll, Meanings;
  }

  /** Quoting any list of NUL-free strings and tokenizing the line returns the list to a
      caller who walks over the buffer. */
  lemma QuotedListRoundTrip(texts: seq<bytes>, signed: bool)
    requires AllNulFree(texts)
    ensures var m := Result(RenderAll(Quotations(texts)), signed);
            !m.fault && m.num == |texts| && ReadTokens(m.out, m.num) == texts
  {
    var items := Quotations(texts);
    QuotationsMean(texts, signed);
    RoundTrip([], items, Closed, signed);
    OnlyItems(items);
    ReadJoined(texts, []);
    hide *;
    assert Join(texts) + [] == Join(texts);
  }
}
