/** Writing DHCP packets for the option lookup: fields of options and padding, ended or cut
    short, with an overload option that names further fields. The lookup finds what was
    written. */
module OptionsWriting {
  import opened Bytes
  import opened Options
  import opened Wrappers

  datatype Piece = Pad | Item(code: byte, data: bytes)

  /** Codes 0 and 255 are no options, and an overload option carries its byte. */
  predicate Good(ps: seq<Piece>) {
    ps == []
    || (Good(ps[1..])
        && (ps[0].Item? ==> ps[0].code != 0 && ps[0].code != 255 && |ps[0].data| < 256
                            && (ps[0].code == 52 ==> ps[0].data != [])))
  }

  function SpellPiece(p: Piece): bytes
    requires p.Item? ==> |p.data| < 256
  {
    if p.Pad? then [0] else [p.code, |p.data|] + p.data
  }

  function Spell(ps: seq<Piece>): bytes
    requires Good(ps)
  {
    if ps == [] then [] else SpellPiece(ps[0]) + Spell(ps[1..])
  }

  /** A field ends with END and anything behind it, or it is cut short within an option. */
  datatype Ending = EndMark(rest: bytes) | Cut(rest: bytes)

  predicate GoodEnding(e: Ending) {
    e.Cut? ==>
      e.rest == []
      || (e.rest[0] != 0 && e.rest[0] != 255 && (|e.rest| == 1 || |e.rest| < 2 + e.rest[1] as int))
  }

  function SpellEnding(e: Ending): bytes {
    if e.EndMark? then [255] + e.rest else e.rest
  }

  /** The data of the first option with that code. */
  function Match(ps: seq<Piece>, code: byte): Option<bytes> {
    if ps == [] then None
    else if ps[0].Item? && ps[0].code == code then Some(ps[0].data)
    else Match(ps[1..], code)
  }

  /** Some overload option has the bit of that value: 1 for the file field, 2 for the server
      name. */
  predicate Asks(ps: seq<Piece>, bit: nat)
    requires bit > 0 && Good(ps)
  {
    ps != []
    && ((ps[0].Item? && ps[0].code == 52 && ps[0].data[0] / bit % 2 == 1) || Asks(ps[1..], bit))
  }

  predicate Plain(ps: seq<Piece>) {
    forall i :: 0 <= i < |ps| ==> ps[i].Item? ==> ps[i].code != 52
  }

  /** Where the walk of a written field leads: to the data of the first match, or to the end,
      with the overload bits of all options, or to nothing. */
  predicate Walked(f: bytes, w: Walk, ps: seq<Piece>, e: Ending, code: byte, o: Overload)
    requires Good(ps)
  {
    match Match(ps, code)
    case Some(d) => w.Found? && 1 <= w.at <= |f| && w.at + f[w.at - 1] <= |f| && f[w.at..w.at + f[w.at - 1]] == d
    case None =>
      if e.Cut? then w == Bad else w == Ended(Overload(o.file || Asks(ps, 1), o.sname || Asks(ps, 2)))
  }

  lemma EndingWalk(f: bytes, p: nat, e: Ending, code: byte, o: Overload)
    requires p <= |f| && f[p..] == Spell([]) + SpellEnding(e) && GoodEnding(e)
    ensures Walked(f, WalkFrom(f, p, code, o), [], e, code, o)
  {
    assert f[p..] == SpellEnding(e);
    assert p < |f| ==> f[p] == f[p..][0];
    assert p + 1 < |f| ==> f[p + 1] == f[p..][1];
  }

  lemma OptionBytes(f: bytes, p: nat, code: byte, data: bytes, more: bytes)
    requires |data| < 256 && p <= |f| && f[p..] == [code, |data|] + data + more
    ensures p + 1 < |f| && f[p] == code && f[p + 1] == |data| && p + 2 + |data| <= |f|
    ensures f[p + 2..p + 2 + |data|] == data && f[p + 2 + |data|..] == more
    ensures data != [] ==> f[p + 2] == data[0]
  {
    var t := f[p..];
    assert t[0] == f[p] && t[1] == f[p + 1];
    assert t[2..2 + |data|] == data && t[2 + |data|..] == more;
    assert f[p + 2..p + 2 + |data|] == t[2..2 + |data|] && f[p + 2 + |data|..] == t[2 + |data|..];
    assert data != [] ==> f[p + 2] == t[2..2 + |data|][0];
  }

  lemma WalkedPad(f: bytes, w: Walk, ps: seq<Piece>, e: Ending, code: byte, o: Overload)
    requires ps != [] && ps[0].Pad? && Good(ps) && Walked(f, w, ps[1..], e, code, o)
    ensures Walked(f, w, ps, e, code, o)
  {
  }

  lemma WalkedOption(f: bytes, w: Walk, ps: seq<Piece>, e: Ending, code: byte, o: Overload, x: Overload)
    requires ps != [] && ps[0].Item? && Good(ps) && ps[0].code != code && Walked(f, w, ps[1..], e, code, x)
    requires x == if ps[0].code == 52 then o.With(Bits(ps[0].data[0])) else o
    ensures Walked(f, w, ps, e, code, o)
  {
    assert forall d: byte :: Bits(d) == Overload(d / 1 % 2 == 1, d / 2 % 2 == 1);
  }

  lemma WalkedHit(f: bytes, p: nat, ps: seq<Piece>, e: Ending, code: byte, o: Overload)
    requires ps != [] && ps[0].Item? && Good(ps) && ps[0].code == code
    requires p + 1 < |f| && f[p + 1] == |ps[0].data| && p + 2 + |ps[0].data| <= |f|
    requires f[p + 2..p + 2 + |ps[0].data|] == ps[0].data
    ensures Walked(f, Walk.Found(p + 2), ps, e, code, o)
  {
  }

  lemma SpellFirst(f: bytes, p: nat, ps: seq<Piece>, e: Ending)
    requires Good(ps) && ps != [] && p <= |f| && f[p..] == Spell(ps) + SpellEnding(e)
    ensures Good(ps[1..]) && f[p..] == SpellPiece(ps[0]) + (Spell(ps[1..]) + SpellEnding(e))
  {
    hide SpellPiece, SpellEnding;
  }

  lemma PadBytes(f: bytes, p: nat, more: bytes)
    requires p <= |f| && f[p..] == [0] + more
    ensures p < |f| && f[p] == 0 && f[p + 1..] == more
  {
    assert f[p] == f[p..][0];
    assert f[p + 1..] == f[p..][1..];
  }

  /** One piece of a field, and where the walk stands behind it. */
  lemma PieceWalk(f: bytes, p: nat, x: Piece, more: bytes, code: byte, o: Overload)
      returns (next: nat, y: Overload)
    requires x.Item? ==> x.code != 0 && x.code != 255 && |x.data| < 256 && (x.code == 52 ==> x.data != [])
    requires p <= |f| && f[p..] == SpellPiece(x) + more && code != 0 && code != 255
    ensures next <= |f| && f[next..] == more
    ensures y == if x.Item? && x.code == 52 then o.With(Bits(x.data[0])) else o
    ensures if x.Item? && x.code == code then
              p + 1 < |f| && f[p + 1] == |x.data| && p + 2 + |x.data| <= |f| && f[p + 2..p + 2 + |x.data|] == x.data
              && WalkFrom(f, p, code, o) == Walk.Found(p + 2)
            else WalkFrom(f, p, code, o) == WalkFrom(f, next, code, y)
  {
    hide WalkFrom, Bits;
    y := o;
    match x {
      case Pad =>
        PadBytes(f, p, more);
        next := p + 1;
      case Item(c, data) =>
        OptionBytes(f, p, c, data, more);
        next := p + 2 + |data|;
        y := OverloadAfter(f, p, o);
    }
    WalkAt(f, p, code, o);
  }

  lemma {:induction false} FieldWalk(f: bytes, p: nat, ps: seq<Piece>, e: Ending, code: byte, o: Overload)
    requires Good(ps) && GoodEnding(e) && p <= |f| && f[p..] == Spell(ps) + SpellEnding(e)
    requires code != 0 && code != 255
    ensures Walked(f, WalkFrom(f, p, code, o), ps, e, code, o)
    decreases |ps|
  {
    hide WalkFrom, SpellEnding, SpellPiece, GoodEnding, Spell, Walked, Bits, Match, Asks;
    if ps == [] {
      EndingWalk(f, p, e, code, o);
    } else {
      SpellFirst(f, p, ps, e);
      var more := Spell(ps[1..]) + SpellEnding(e);
      var next, x := PieceWalk(f, p, ps[0], more, code, o);
      if ps[0].Item? && ps[0].code == code {
        WalkedHit(f, p, ps, e, code, o);
      } else {
        FieldWalk(f, next, ps[1..], e, code, x);
        if ps[0].Pad? {
          WalkedPad(f, WalkFrom(f, next, code, x), ps, e, code, o);
        } else {
          WalkedOption(f, WalkFrom(f, next, code, x), ps, e, code, o, x);
        }
      }
    }
  }

  lemma {:induction false} PlainAsks(ps: seq<Piece>, bit: nat)
    requires bit > 0 && Good(ps) && Plain(ps)
    ensures !Asks(ps, bit)
  {
    if ps != [] {
      PlainAsks(ps[1..], bit);
    }
  }

  /** A field as written. */
  datatype Text = Text(pieces: seq<Piece>, ending: Ending)

  predicate Writes(t: Text, f: bytes) {
    Good(t.pieces) && GoodEnding(t.ending) && f == Spell(t.pieces) + SpellEnding(t.ending)
  }

  /** The value of an option in a packet: from the options field, else from the file field if
      an overload option asks for it, else from the server name if one asks for that; a field
      that is cut short ends the search. */
  function Value(a: Text, b: Text, c: Text, code: byte): Option<bytes>
    requires Good(a.pieces)
  {
    if Match(a.pieces, code).Some? then Match(a.pieces, code)
    else if a.ending.Cut? then None
    else if Asks(a.pieces, 1) && (Match(b.pieces, code).Some? || b.ending.Cut?) then Match(b.pieces, code)
    else if Asks(a.pieces, 2) then Match(c.pieces, code)
    else None
  }

  lemma TextWalk(f: bytes, t: Text, code: byte, o: Overload)
    requires Writes(t, f) && code != 0 && code != 255
    ensures Walked(f, WalkFrom(f, 0, code, o), t.pieces, t.ending, code, o)
  {
    assert f[0..] == f;
    FieldWalk(f, 0, t.pieces, t.ending, code, o);
  }

  /** A further field, which asks for none itself. */
  lemma FurtherWalk(f: bytes, t: Text, code: byte, o: Overload)
    requires Writes(t, f) && Plain(t.pieces) && code != 0 && code != 255
    ensures match Match(t.pieces, code)
            case Some(d) => FoundAs(f, WalkFrom(f, 0, code, o), d)
            case None => WalkFrom(f, 0, code, o) == if t.ending.Cut? then Bad else Ended(o)
  {
    TextWalk(f, t, code, o);
    PlainAsks(t.pieces, 1);
    PlainAsks(t.pieces, 2);
  }

  predicate FoundAs(f: bytes, w: Walk, d: bytes) {
    w.Found? && 1 <= w.at <= |f| && w.at + f[w.at - 1] <= |f| && f[w.at..w.at + f[w.at - 1]] == d
  }

  /** Overload options in the options field only: the lookup ends, and finds the value. */
  lemma LookupWritten(pk: Packet, a: Text, b: Text, c: Text, code: byte)
    requires Writes(a, pk.options) && Writes(b, pk.file) && Writes(c, pk.sname)
    requires Plain(b.pieces) && Plain(c.pieces) && code != 0 && code != 255
    ensures !Loops(pk, code) && Shows(pk, Lookup(pk, code), Value(a, b, c, code))
  {
    TextWalk(pk.options, a, code, NO_OVERLOAD);
    var o := Overload(Asks(a.pieces, 1), Asks(a.pieces, 2));
    forall x: Overload
      ensures FurtherAs(pk.file, WalkFrom(pk.file, 0, code, x), b, code, x)
      ensures FurtherAs(pk.sname, WalkFrom(pk.sname, 0, code, x), c, code, x)
    {
      FurtherWalk(pk.file, b, code, x);
      FurtherWalk(pk.sname, c, code, x);
    }
    hide WalkFrom, Match, Asks, Writes, Good, Plain;
    FollowWritten(pk, a, b, c, code, o);
  }

  predicate FurtherAs(f: bytes, w: Walk, t: Text, code: byte, o: Overload) {
    match Match(t.pieces, code)
    case Some(d) => FoundAs(f, w, d)
    case None => w == if t.ending.Cut? then Bad else Ended(o)
  }

  /** What the lookup does next with a further field. */
  lemma FurtherNext(pk: Packet, field: Field, t: Text, code: byte, o: Overload)
    requires FurtherAs(pk.Get(field), WalkFrom(pk.Get(field), 0, code, o), t, code, o)
    ensures var next := Next(pk, code, At(field, o));
            if Match(t.pieces, code).Some? then next.Done? && Shows(pk, next.result, Match(t.pieces, code))
            else next == if t.ending.Cut? then Done(None) else NextField(o)
  {
    hide WalkFrom, Match;
  }

  lemma FirstNext(pk: Packet, a: Text, code: byte)
    requires Good(a.pieces)
    requires Walked(pk.options, WalkFrom(pk.options, 0, code, NO_OVERLOAD), a.pieces, a.ending, code, NO_OVERLOAD)
    ensures var next := Next(pk, code, FIRST);
            if Match(a.pieces, code).Some? then next.Done? && Shows(pk, next.result, Match(a.pieces, code))
            else next == if a.ending.Cut? then Done(None)
                         else NextField(Overload(Asks(a.pieces, 1), Asks(a.pieces, 2)))
  {
    hide WalkFrom, Match, Asks;
  }

  lemma NoLoops(pk: Packet, a: Text, b: Text, c: Text, code: byte, o: Overload)
    requires Good(a.pieces) && o == Overload(Asks(a.pieces, 1), Asks(a.pieces, 2))
    requires Walked(pk.options, WalkFrom(pk.options, 0, code, NO_OVERLOAD), a.pieces, a.ending, code, NO_OVERLOAD)
    requires FurtherAs(pk.file, WalkFrom(pk.file, 0, code, NO_OVERLOAD), b, code, NO_OVERLOAD)
    requires FurtherAs(pk.sname, WalkFrom(pk.sname, 0, code, NO_OVERLOAD), c, code, NO_OVERLOAD)
    ensures !Loops(pk, code)
  {
    hide WalkFrom, Match, Asks, Good;
  }

  lemma FollowWritten(pk: Packet, a: Text, b: Text, c: Text, code: byte, o: Overload)
    requires Good(a.pieces) && o == Overload(Asks(a.pieces, 1), Asks(a.pieces, 2))
    requires Walked(pk.options, WalkFrom(pk.options, 0, code, NO_OVERLOAD), a.pieces, a.ending, code, NO_OVERLOAD)
    requires forall x: Overload :: FurtherAs(pk.file, WalkFrom(pk.file, 0, code, x), b, code, x)
    requires forall x: Overload :: FurtherAs(pk.sname, WalkFrom(pk.sname, 0, code, x), c, code, x)
    ensures !Loops(pk, code) && Shows(pk, Lookup(pk, code), Value(a, b, c, code))
  {
    var rest := o.(file := false);
    NoLoops(pk, a, b, c, code, o);
    FirstNext(pk, a, code);
    FurtherNext(pk, File, b, code, rest);
    FurtherNext(pk, Sname, c, code, NO_OVERLOAD);
    LookedNext(pk, code, 0);
    LookedNext(pk, code, 1);
    LookedNext(pk, code, 2);
    assert Looked(pk, code, 0) == FIRST;
    hide Looked, Next, WalkFrom, Match, Asks, Good, Loops, Shows, Walked, FurtherAs;
    if Looked(pk, code, 1).Done? {
      DoneStays(pk, code, 1, 4);
    } else if Looked(pk, code, 2).Done? {
      DoneStays(pk, code, 2, 4);
    } else {
      DoneStays(pk, code, 3, 4);
    }
    ShowsNone(pk);
  }

  // ----- room -----

  /** An option is added if and only if END stays at 306 or below; else the field is left as
      it is. */
  lemma AddedIff(f: bytes, opt: bytes)
    requires |f| == 388 && EndOf(f, 0).Some? && IsBinary(opt) && opt[0] != 0 && opt[0] != 255
    ensures var g, e := Add(f, opt), EndOf(f, 0).value;
            if e + |opt| <= 306 then
              EndOf(g, 0) == Some(e + |opt|)
              && Items(g, 0) == Some(Items(f, 0).value + [Opt(opt[0], opt[2..])])
            else g == f
  {
    if Fits(f, opt) {
      AddItemsFrom(f, 0, opt);
    }
  }
}
