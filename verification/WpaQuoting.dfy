/** Writing lines for the tokenizer of wpa events: tokens made of bare and quoted parts, with
    blanks in front and in between. Tokenizing such a line gives back exactly what was written. */
module WpaQuoting {
  import opened Bytes
  import opened Tokens
  import opened WpaTokenizer

  /** A byte inside quotes: as it is, or behind a backslash. */
  datatype Char = Raw(c: byte) | Esc(c: byte)

  /** A quotation that is not closed can only end a line, perhaps right behind a backslash. */
  datatype Part = Bare(text: bytes) | Quotation(chars: seq<Char>) | Unclosed(chars: seq<Char>, dangling: bool)

  /** A token as written, part behind part, and the blanks behind it. */
  datatype Item = Item(parts: seq<Part>, gap: bytes)

  predicate IsBare(c: byte) {
    c != 0 && c != APOSTROPHE && c != 9 && c != 10 && c != 13 && c != 32
  }

  predicate GoodChar(x: Char) {
    x.c != NUL && (x.Raw? ==> x.c != APOSTROPHE && x.c != BACKSLASH)
  }

  predicate GoodChars(s: seq<Char>) {
    s == [] || (GoodChar(s[0]) && GoodChars(s[1..]))
  }

  predicate GoodPart(p: Part) {
    match p
    case Bare(text) => text != [] && forall i :: 0 <= i < |text| ==> IsBare(text[i])
    case Quotation(chars) => GoodChars(chars)
    case Unclosed(chars, _) => GoodChars(chars)
  }

  /** The last of them may be an unclosed quotation, where the line ends behind it. */
  predicate GoodParts(ps: seq<Part>, ending: bool) {
    ps == []
    || (GoodPart(ps[0]) && (ps[0].Unclosed? ==> ending && |ps| == 1) && GoodParts(ps[1..], ending))
  }

  predicate Blanks(s: bytes) {
    forall i :: 0 <= i < |s| ==> s[i] == 9 || s[i] == 10 || s[i] == 13 || s[i] == 32
  }

  /** Only the last token may lack a blank behind it. */
  predicate GoodItems(items: seq<Item>) {
    items == []
    || (items[0].parts != [] && GoodParts(items[0].parts, items[0].gap == []) && Blanks(items[0].gap)
        && (items[0].gap != [] || |items| == 1) && GoodItems(items[1..]))
  }

  function RenderChar(x: Char): bytes {
    if x.Raw? then [x.c] else [BACKSLASH, x.c]
  }

  function RenderChars(s: seq<Char>): bytes {
    if s == [] then [] else RenderChar(s[0]) + RenderChars(s[1..])
  }

  function RenderPart(p: Part): bytes {
    match p
    case Bare(text) => text
    case Quotation(chars) => [APOSTROPHE] + RenderChars(chars) + [APOSTROPHE]
    case Unclosed(chars, dangling) => [APOSTROPHE] + RenderChars(chars) + if dangling then [BACKSLASH] else []
  }

  function CharsText(s: seq<Char>): bytes {
    if s == [] then [] else [s[0].c] + CharsText(s[1..])
  }

  function PartText(p: Part): bytes {
    if p.Bare? then p.text else CharsText(p.chars)
  }

  function RenderParts(ps: seq<Part>): bytes {
    if ps == [] then [] else RenderPart(ps[0]) + RenderParts(ps[1..])
  }

  function Meaning(ps: seq<Part>): bytes {
    if ps == [] then [] else PartText(ps[0]) + Meaning(ps[1..])
  }

  function RenderAll(items: seq<Item>): bytes {
    if items == [] then [] else RenderParts(items[0].parts) + items[0].gap + RenderAll(items[1..])
  }

  function Meanings(items: seq<Item>): seq<bytes> {
    if items == [] then [] else [Meaning(items[0].parts)] + Meanings(items[1..])
  }

  /** Reading line takes the lexer from x to y. */
  predicate Reads(x: Lexer, line: bytes, y: Lexer) {
    Lex(x, line) == y && NulFree(line)
  }

  lemma ReadsOne(x: Lexer, c: byte)
    requires c != NUL
    ensures Reads(x, [c], LexStep(x, c))
  {
    var line := [c];
    assert line[1..] == [];
  }

  lemma {:induction false} ReadsAppend(x: Lexer, a: bytes, y: Lexer, b: bytes, z: Lexer)
    requires Reads(x, a, y) && Reads(y, b, z)
    ensures Reads(x, a + b, z)
    decreases |a|
  {
    hide LexStep;
    if a == [] {
      assert a + b == b;
    } else {
      ReadsAppend(LexStep(x, a[0]), a[1..], y, b, z);
      assert (a + b)[1..] == a[1..] + b;
    }
  }

  lemma {:induction false} ReadsBlanks(x: Lexer, gap: bytes)
    requires x.mode == Plain && Blanks(gap)
    ensures Reads(x, gap, if gap == [] then x else FinishOpen(x))
    decreases |gap|
  {
    if gap != [] {
      ReadsBlanks(FinishOpen(x), gap[1..]);
      ReadsOne(x, gap[0]);
      ReadsAppend(x, [gap[0]], FinishOpen(x), gap[1..], FinishOpen(x));
      assert gap == [gap[0]] + gap[1..];
    }
  }

  lemma {:induction false} ReadsBare(x: Lexer, text: bytes)
    requires x.mode == Plain && text != [] && forall i :: 0 <= i < |text| ==> IsBare(text[i])
    ensures Reads(x, text, x.(cur := x.cur + text, open := true))
    decreases |text|
  {
    var y := Extend(x, text[0]);
    assert IsBare(text[0]);
    ReadsOne(x, text[0]);
    if |text| == 1 {
      assert text == [text[0]];
    } else {
      ReadsBare(y, text[1..]);
      assert y.cur + text[1..] == x.cur + text;
      ReadsAppend(x, [text[0]], y, text[1..], x.(cur := x.cur + text, open := true));
      assert text == [text[0]] + text[1..];
    }
  }

  lemma ReadsChar(x: Lexer, ch: Char)
    requires x.mode == Quoted && GoodChar(ch)
    ensures Reads(x, RenderChar(ch), Extend(x, ch.c))
  {
    hide Reads;
    if ch.Raw? {
      ReadsOne(x, ch.c);
    } else {
      var y := LexStep(x, BACKSLASH);
      ReadsOne(x, BACKSLASH);
      ReadsOne(y, ch.c);
      ReadsAppend(x, [BACKSLASH], y, [ch.c], Extend(x, ch.c));
      assert [BACKSLASH] + [ch.c] == RenderChar(ch);
    }
  }

  lemma ExtendText(x: Lexer, c: byte, rest: bytes)
    requires x.open
    ensures var y := Extend(x, c); y.(cur := y.cur + rest) == x.(cur := x.cur + ([c] + rest))
  {
    assert x.cur + [c] + rest == x.cur + ([c] + rest);
  }

  lemma {:induction false} ReadsChars(x: Lexer, s: seq<Char>)
    requires x.mode == Quoted && x.open && GoodChars(s)
    ensures Reads(x, RenderChars(s), x.(cur := x.cur + CharsText(s)))
    decreases |s|
  {
    hide Reads, RenderChar, GoodChar;
    if s == [] {
      assert x.cur + [] == x.cur;
      ReadsNothing(x);
    } else {
      var y := Extend(x, s[0].c);
      ReadsChars(y, s[1..]);
      ExtendText(x, s[0].c, CharsText(s[1..]));
      ReadsChar(x, s[0]);
      ReadsAppend(x, RenderChar(s[0]), y, RenderChars(s[1..]), x.(cur := x.cur + CharsText(s)));
    }
  }

  lemma ReadsOpened(x: Lexer, chars: seq<Char>)
    requires x.mode == Plain && GoodChars(chars)
    ensures Reads(x, [APOSTROPHE] + RenderChars(chars), Grown(x, CharsText(chars)).(mode := Quoted))
  {
    hide Reads, RenderChars, GoodChars;
    var y := x.(mode := Quoted, open := true);
    ReadsOne(x, APOSTROPHE);
    ReadsChars(y, chars);
    ReadsAppend(x, [APOSTROPHE], y, RenderChars(chars), Grown(x, CharsText(chars)).(mode := Quoted));
  }

  lemma ReadsPart(x: Lexer, p: Part)
    requires x.mode == Plain && GoodPart(p) && !p.Unclosed?
    ensures Reads(x, RenderPart(p), Grown(x, PartText(p)))
  {
    hide Reads, RenderChars, CharsText, IsBare;
    match p {
      case Bare(text) => ReadsBare(x, text);
      case Quotation(chars) =>
        var z := Grown(x, CharsText(chars)).(mode := Quoted);
        ReadsOpened(x, chars);
        ReadsOne(z, APOSTROPHE);
        ReadsAppend(x, [APOSTROPHE] + RenderChars(chars), z, [APOSTROPHE], z.(mode := Plain));
    }
  }

  /** An unclosed quotation leaves the lexer inside quotes. */
  lemma ReadsUnclosed(x: Lexer, p: Part) returns (y: Lexer)
    requires x.mode == Plain && GoodPart(p) && p.Unclosed?
    ensures Reads(x, RenderPart(p), y) && y.open && y.done == x.done && y.cur == x.cur + PartText(p)
  {
    hide Reads, RenderChars, CharsText;
    var z := Grown(x, CharsText(p.chars)).(mode := Quoted);
    ReadsOpened(x, p.chars);
    var front := [APOSTROPHE] + RenderChars(p.chars);
    if p.dangling {
      y := z.(mode := Escaped);
      ReadsOne(z, BACKSLASH);
      ReadsAppend(x, front, z, [BACKSLASH], y);
    } else {
      y := z;
      assert front + [] == front;
    }
  }

  /** The current token, opened and with more text. */
  function Grown(x: Lexer, text: bytes): Lexer {
    x.(cur := x.cur + text, open := true)
  }

  lemma ReadsNothing(x: Lexer)
    ensures Reads(x, [], x)
  {
  }

  lemma {:induction false} ReadsParts(x: Lexer, ps: seq<Part>, ending: bool) returns (z: Lexer)
    requires x.mode == Plain && GoodParts(ps, ending) && (ps != [] || x.open)
    ensures Reads(x, RenderParts(ps), z) && z.open && z.done == x.done && z.cur == x.cur + Meaning(ps)
    ensures !ending ==> z.mode == Plain
    decreases |ps|
  {
    hide Reads, RenderPart, GoodPart, PartText;
    if ps == [] {
      z := x;
      assert x.cur + [] == x.cur;
      ReadsNothing(x);
    } else if ps[0].Unclosed? {
      z := ReadsUnclosed(x, ps[0]);
      assert ps[1..] == [];
      assert RenderPart(ps[0]) + [] == RenderPart(ps[0]) && PartText(ps[0]) + [] == PartText(ps[0]);
    } else {
      var y := Grown(x, PartText(ps[0]));
      ReadsPart(x, ps[0]);
      z := ReadsParts(y, ps[1..], ending);
      assert x.cur + PartText(ps[0]) + Meaning(ps[1..]) == x.cur + (PartText(ps[0]) + Meaning(ps[1..]));
      ReadsAppend(x, RenderPart(ps[0]), y, RenderParts(ps[1..]), z);
    }
  }

  lemma ReadsItem(x: Lexer, it: Item)
    requires Between(x) && it.parts != [] && GoodParts(it.parts, false) && Blanks(it.gap) && it.gap != []
    ensures Reads(x, RenderParts(it.parts) + it.gap, After(x, [Meaning(it.parts)]))
  {
    hide Reads, GoodParts, RenderParts, Meaning;
    var y := ReadsParts(x, it.parts, false);
    assert x.cur + Meaning(it.parts) == Meaning(it.parts);
    ReadsBlanks(y, it.gap);
    ReadsAppend(x, RenderParts(it.parts), y, it.gap, After(x, [Meaning(it.parts)]));
  }

  lemma ReadsLast(x: Lexer, ps: seq<Part>) returns (y: Lexer)
    requires Between(x) && ps != [] && GoodParts(ps, true)
    ensures Reads(x, RenderParts(ps), y) && FinishOpen(y).done == x.done + [Meaning(ps)]
  {
    y := ReadsParts(x, ps, true);
    assert x.cur + Meaning(ps) == Meaning(ps);
  }

  lemma {:induction false} ReadsAll(x: Lexer, items: seq<Item>) returns (y: Lexer)
    requires Between(x) && GoodItems(items)
    ensures Reads(x, RenderAll(items), y) && FinishOpen(y).done == x.done + Meanings(items)
    decreases |items|
  {
    if items == [] {
      y := x;
      AfterMore(x, [], []);
      ReadsNothing(x);
    } else {
      hide Reads, RenderParts, Meaning, GoodParts, Blanks, Between, After, FinishOpen;
      var it, m := items[0], Meaning(items[0].parts);
      if it.gap == [] {
        y := ReadsLast(x, it.parts);
        assert items[1..] == [];
        assert RenderAll(items) == RenderParts(it.parts);
        assert Meanings(items) == [m];
      } else {
        ReadsItem(x, it);
        AfterMore(x, m, Meanings(items[1..]));
        y := ReadsAll(After(x, [m]), items[1..]);
        ReadsAppend(x, RenderParts(it.parts) + it.gap, After(x, [m]), RenderAll(items[1..]), y);
      }
    }
  }

  /** Round trip: any list of tokens, each made of bare text and quotations in any order,
      written with blanks in front and in between, is tokenized into exactly that list. */
  lemma RoundTrip(lead: bytes, items: seq<Item>)
    requires Blanks(lead) && GoodItems(items)
    ensures NulFree(lead + RenderAll(items)) && LineTokens(lead + RenderAll(items)) == Meanings(items)
  {
    ReadsBlanks(START, lead);
    var y := ReadsAll(START, items);
    ReadsAppend(START, lead, START, RenderAll(items), y);
    assert START.done + Meanings(items) == Meanings(items);
  }

  /** Any NUL-free string has a quotation. */
  function QuotedChars(s: bytes): seq<Char> {
    if s == [] then []
    else [if s[0] == APOSTROPHE || s[0] == BACKSLASH then Esc(s[0]) else Raw(s[0])] + QuotedChars(s[1..])
  }

  lemma {:induction false} QuotedText(s: bytes)
    requires NulFree(s)
    ensures GoodPart(Quotation(QuotedChars(s))) && PartText(Quotation(QuotedChars(s))) == s
    decreases |s|
  {
    if s != [] {
      QuotedText(s[1..]);
      assert s == [s[0]] + s[1..];
    }
  }
}
