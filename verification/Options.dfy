/** DHCP options as code-length-value triples: dhcp_get_option, dhcp_end_option
    and dhcp_add_binary_option of src/gdhcp/common.c. */
module Options {
  import opened Bytes
  import opened Wrappers

  const PADDING: byte := 0
  const OVERLOAD: byte := 52
  const END: byte := 255
  const OPTIONS_SIZE: nat := 388     // sizeof(packet->options)
  const OPTIONS_BUFSIZE: nat := 308  // what additions may use

  datatype Field = Options | File | Sname

  /** The three option-carrying fields of a packet. */
  datatype Packet = Packet(options: bytes, file: bytes, sname: bytes) {
    function Get(f: Field): bytes {
      match f
      case Options => options
      case File => file
      case Sname => sname
    }
  }

  /** The overload bits that matter. */
  datatype Overload = Overload(file: bool, sname: bool) {
    function With(o: Overload): Overload {
      Overload(file || o.file, sname || o.sname)
    }
  }

  const NO_OVERLOAD := Overload(false, false)

  function Bits(b: byte): Overload {
    Overload(b % 2 == 1, b / 2 % 2 == 1)
  }

  /** How the walk through one field ends. */
  datatype Walk = Found(at: nat) | Bad | Ended(overload: Overload)

  function WalkFrom(f: bytes, p: nat, code: byte, o: Overload): (w: Walk)
    ensures w.Found? ==> 2 <= w.at <= |f| && w.at + f[w.at - 1] <= |f| && f[w.at - 2] == code
    decreases |f| - p
  {
    if p >= |f| then Bad
    else if f[p] == PADDING then WalkFrom(f, p + 1, code, o)
    else if f[p] == END then Ended(o)
    else if p + 1 >= |f| || p + 2 + f[p + 1] > |f| then Bad
    else if f[p] == code then Found(p + 2)
    else
      WalkFrom(f, p + 2 + f[p + 1], code,
               if f[p] == OVERLOAD && p + 2 < |f| then o.With(Bits(f[p + 2])) else o)
  }

  function Widen(o: Overload, w: Walk): Walk {
    if w.Ended? then Ended(o.With(w.overload)) else w
  }

  /** The overload bits of a walk only add up. */
  lemma {:induction false} WalkOverload(f: bytes, p: nat, code: byte, o: Overload, x: Overload)
    ensures WalkFrom(f, p, code, o.With(x)) ==
            Widen(o, WalkFrom(f, p, code, x))
    decreases |f| - p
  {
    if p < |f| && f[p] != END {
      if f[p] == PADDING {
        WalkOverload(f, p + 1, code, o, x);
      } else if p + 1 < |f| && p + 2 + f[p + 1] <= |f| && f[p] != code {
        var x' := if f[p] == OVERLOAD && p + 2 < |f| then x.With(Bits(f[p + 2])) else x;
        WalkOverload(f, p + 2 + f[p + 1], code, o, x');
      }
    }
  }

  // ----- the fields of a packet -----

  /** A lookup about to walk a field, or finished. */
  datatype Look = At(field: Field, overload: Overload) | Done(result: Option<(Field, nat)>)

  const FIRST := At(Options, NO_OVERLOAD)

  /** Walk one field and pick the next: file before sname. */
  function Next(pk: Packet, code: byte, l: Look): Look {
    match l
    case Done(_) => l
    case At(field, o) =>
      match WalkFrom(pk.Get(field), 0, code, o)
      case Found(at) => Done(Some((field, at)))
      case Bad => Done(None)
      case Ended(x) =>
        if x.file then At(File, x.(file := false))
        else if x.sname then At(Sname, x.(sname := false))
        else Done(None)
  }

  /** The lookup after n fields. */
  function Looked(pk: Packet, code: byte, n: nat): Look {
    if n == 0 then FIRST else Next(pk, code, Looked(pk, code, n - 1))
  }

  ghost predicate Terminates(pk: Packet, code: byte) {
    exists n: nat :: Looked(pk, code, n).Done?
  }

  function WalkField(pk: Packet, field: Field, code: byte): Walk {
    WalkFrom(pk.Get(field), 0, code, NO_OVERLOAD)
  }

  /** The sname field leads on for ever: back to itself, directly or through the
      file field, or into a file field that leads back to itself. */
  predicate SnameLoops(pk: Packet, code: byte) {
    match WalkField(pk, Sname, code)
    case Ended(s) =>
      if s.file then
        match WalkField(pk, File, code)
        case Ended(f) => f.file || s.sname || f.sname
        case _ => false
      else s.sname
    case _ => false
  }

  /** The same for the file field, when the sname bit is still set. */
  predicate FileLoops(pk: Packet, code: byte, sname: bool) {
    match WalkField(pk, File, code)
    case Ended(f) => f.file || ((sname || f.sname) && SnameLoops(pk, code))
    case _ => false
  }

  /** An overload option inside an overloaded field can send the lookup round in
      circles. */
  predicate Loops(pk: Packet, code: byte) {
    match WalkField(pk, Options, code)
    case Ended(o) => if o.file then FileLoops(pk, code, o.sname) else o.sname && SnameLoops(pk, code)
    case _ => false
  }

  lemma WalkFieldOverload(pk: Packet, field: Field, code: byte, o: Overload)
    ensures WalkFrom(pk.Get(field), 0, code, o) ==
            Widen(o, WalkField(pk, field, code))
  {
    WalkOverload(pk.Get(field), 0, code, o, NO_OVERLOAD);
    assert o.With(NO_OVERLOAD) == o;
  }

  predicate Forever(pk: Packet, code: byte, l: Look) {
    match l
    case Done(_) => false
    case At(field, o) =>
      !o.file && match field
                 case Options => !o.sname && Loops(pk, code)
                 case File => FileLoops(pk, code, o.sname)
                 case Sname => !o.sname && SnameLoops(pk, code)
  }

  lemma {:induction false} NeverDone(pk: Packet, code: byte, n: nat)
    requires Loops(pk, code)
    ensures Forever(pk, code, Looked(pk, code, n))
  {
    if n > 0 {
      NeverDone(pk, code, n - 1);
      var l := Looked(pk, code, n - 1);
      WalkFieldOverload(pk, l.field, code, l.overload);
    }
  }

  lemma DoneInFour(pk: Packet, code: byte)
    requires !Loops(pk, code)
    ensures Looked(pk, code, 4).Done?
  {
    hide WalkFrom;
    forall n: nat | n < 4
      ensures Looked(pk, code, n + 1) == Next(pk, code, Looked(pk, code, n))
    {
    }
    forall field: Field, o: Overload
      ensures WalkFrom(pk.Get(field), 0, code, o) ==
              Widen(o, WalkField(pk, field, code))
    {
      WalkFieldOverload(pk, field, code, o);
    }
    assert Looked(pk, code, 0) == FIRST;
    assert Looked(pk, code, 1) == Next(pk, code, FIRST);
    assert Looked(pk, code, 2) == Next(pk, code, Next(pk, code, FIRST));
  }

  /** The lookup comes to an end exactly when the overload options do not lead in
      a circle. */
  lemma TerminatesIff(pk: Packet, code: byte)
    ensures Terminates(pk, code) <==> !Loops(pk, code)
  {
    if Loops(pk, code) {
      forall n: nat
        ensures !Looked(pk, code, n).Done?
      {
        NeverDone(pk, code, n);
      }
    } else {
      DoneInFour(pk, code);
    }
  }

  lemma OverloadedWalk(f: bytes, code: byte)
    requires |f| >= 4 && f[..4] == [OVERLOAD, 1, 1, END] && code != OVERLOAD
    ensures WalkFrom(f, 0, code, NO_OVERLOAD) == Ended(Overload(true, false))
  {
    assert f[0] == f[..4][0] && f[1] == f[..4][1] && f[2] == f[..4][2] && f[3] == f[..4][3];
    assert WalkFrom(f, 3, code, Overload(true, false)) == Ended(Overload(true, false));
  }

  /** Options and file fields that both begin by asking for the file field send every
      lookup of another code round in circles. */
  lemma LoopExample(pk: Packet, code: byte)
    requires |pk.options| >= 4 && pk.options[..4] == [OVERLOAD, 1, 1, END]
    requires |pk.file| >= 4 && pk.file[..4] == [OVERLOAD, 1, 1, END] && code != OVERLOAD
    ensures Loops(pk, code) && !Terminates(pk, code)
  {
    OverloadedWalk(pk.options, code);
    OverloadedWalk(pk.file, code);
    TerminatesIff(pk, code);
  }

  /** What a terminating lookup finds. */
  function Lookup(pk: Packet, code: byte): Option<(Field, nat)>
    requires !Loops(pk, code)
  {
    DoneInFour(pk, code);
    Looked(pk, code, 4).result
  }

  lemma {:induction false} DoneStays(pk: Packet, code: byte, n: nat, m: nat)
    requires n <= m && Looked(pk, code, n).Done?
    ensures Looked(pk, code, m) == Looked(pk, code, n)
  {
    if n < m {
      DoneStays(pk, code, n, m - 1);
    }
  }

  /** dhcp_get_option: one loop with a pointer (field and position), the bytes that
      remain, and the overload bits. */
  method GetOption(pk: Packet, code: byte) returns (r: Option<(Field, nat)>)
    requires !Loops(pk, code)
    ensures r == Lookup(pk, code)
  {
    hide Next, Loops;
    var field, pos := Options, 0;
    var rem := |pk.options|;
    var overload := NO_OVERLOAD;
    ghost var n := 0;
    ghost var o := NO_OVERLOAD;
    DoneInFour(pk, code);
    while true
      invariant n <= 4 && Looked(pk, code, n) == At(field, o)
      invariant 0 <= pos <= |pk.Get(field)| && rem == |pk.Get(field)| - pos
      invariant WalkFrom(pk.Get(field), pos, code, overload) == WalkFrom(pk.Get(field), 0, code, o)
      decreases 4 - n, rem
    {
      var f := pk.Get(field);
      WalkDone(pk, code, n, field, o);
      if rem <= 0 {
        return None;
      }
      if f[pos] == PADDING {
        rem := rem - 1;
        pos := pos + 1;
        continue;
      }
      if f[pos] == END {
        n := n + 1;
        if overload.file {
          overload := overload.(file := false);
          field, pos, rem := File, 0, |pk.file|;
          o := overload;
          continue;
        } else if overload.sname {
          overload := overload.(sname := false);
          field, pos, rem := Sname, 0, |pk.sname|;
          o := overload;
          continue;
        }
        break;
      }
      if rem == 1 || rem < 2 + f[pos + 1] as int {
        return None;
      }
      var len := 2 + f[pos + 1] as int;
      rem := rem - len;
      if f[pos] == code {
        return Some((field, pos + 2));
      }
      if f[pos] == OVERLOAD && pos + 2 < |f| {
        overload := overload.With(Bits(f[pos + 2]));
      }
      pos := pos + len;
    }
    r := None;
  }

  /** The next field, or the result, by how the walk ends. */
  lemma WalkDone(pk: Packet, code: byte, n: nat, field: Field, o: Overload)
    requires !Loops(pk, code) && n <= 4 && Looked(pk, code, n) == At(field, o)
    ensures n < 4
    ensures match WalkFrom(pk.Get(field), 0, code, o)
            case Found(at) => Lookup(pk, code) == Some((field, at))
            case Bad => Lookup(pk, code) == None
            case Ended(x) =>
              if x.file then Looked(pk, code, n + 1) == At(File, x.(file := false))
              else if x.sname then Looked(pk, code, n + 1) == At(Sname, x.(sname := false))
              else Lookup(pk, code) == None
  {
    hide Loops, WalkFrom;
    DoneInFour(pk, code);
    if Looked(pk, code, n + 1).Done? {
      DoneStays(pk, code, n + 1, 4);
    }
  }

  // ----- options as a list -----

  datatype Opt = Opt(code: byte, data: bytes)

  /** The options in front of END, if the field is well-formed up to there. */
  function Items(f: bytes, p: nat): Option<seq<Opt>>
    decreases |f| - p
  {
    if p >= |f| then None
    else if f[p] == PADDING then Items(f, p + 1)
    else if f[p] == END then Some([])
    else if p + 1 >= |f| || p + 2 + f[p + 1] > |f| then None
    else
      var next := p + 2 + f[p + 1];
      match Items(f, next)
      case None => None
      case Some(rest) => Some([Opt(f[p], f[p + 2..next])] + rest)
  }

  function FirstMatch(items: seq<Opt>, code: byte): Option<bytes> {
    if items == [] then None
    else if items[0].code == code then Some(items[0].data)
    else FirstMatch(items[1..], code)
  }

  /** The bits of all overload options. */
  function OverloadOf(items: seq<Opt>): Overload {
    if items == [] then NO_OVERLOAD
    else if items[0].code == OVERLOAD && items[0].data != [] then Bits(items[0].data[0]).With(OverloadOf(items[1..]))
    else OverloadOf(items[1..])
  }

  /** Option 52 always carries its one byte of data. */
  predicate OverloadsFilled(items: seq<Opt>) {
    forall i :: 0 <= i < |items| && items[i].code == OVERLOAD ==> items[i].data != []
  }

  predicate NoOverloads(items: seq<Opt>) {
    forall i :: 0 <= i < |items| ==> items[i].code != OVERLOAD
  }

  /** The data that a result of the lookup points at. */
  function Data(f: bytes, at: nat): bytes
    requires 1 <= at <= |f| && at + f[at - 1] <= |f|
  {
    f[at..at + f[at - 1]]
  }

  predicate FindsFirst(f: bytes, w: Walk, items: seq<Opt>, code: byte, o: Overload) {
    match FirstMatch(items, code)
    case Some(d) => w.Found? && 1 <= w.at <= |f| && w.at + f[w.at - 1] <= |f| && Data(f, w.at) == d
    case None => w == Ended(o.With(OverloadOf(items)))
  }

  lemma ConsItems(x: Opt, rest: seq<Opt>, code: byte)
    ensures OverloadsFilled([x] + rest) ==> OverloadsFilled(rest) && (x.code == OVERLOAD ==> x.data != [])
    ensures FirstMatch([x] + rest, code) == if x.code == code then Some(x.data) else FirstMatch(rest, code)
    ensures OverloadOf([x] + rest) ==
            if x.code == OVERLOAD && x.data != [] then Bits(x.data[0]).With(OverloadOf(rest)) else OverloadOf(rest)
  {
    var items := [x] + rest;
    assert forall i :: 0 <= i < |rest| ==> rest[i] == items[i + 1];
    assert items[0] == x && items[1..] == rest;
  }

  function OverloadAfter(f: bytes, p: nat, o: Overload): Overload
    requires p < |f|
  {
    if f[p] == OVERLOAD && p + 2 < |f| then o.With(Bits(f[p + 2])) else o
  }

  /** One step of the walk over an option that is all there. */
  lemma WalkOption(f: bytes, p: nat, rest: seq<Opt>, code: byte, o: Overload)
    requires p + 1 < |f| && f[p] != PADDING && f[p] != END && p + 2 + f[p + 1] as int <= |f|
    requires f[p] == OVERLOAD ==> f[p + 1] > 0
    requires var next, u := p + 2 + f[p + 1] as int, OverloadAfter(f, p, o);
             f[p] != code ==> FindsFirst(f, WalkFrom(f, next, code, u), rest, code, u)
    ensures FindsFirst(f, WalkFrom(f, p, code, o), [Opt(f[p], f[p + 2..p + 2 + f[p + 1] as int])] + rest, code, o)
  {
    var next := p + 2 + f[p + 1] as int;
    var x := Opt(f[p], f[p + 2..next]);
    WalkAt(f, p, code, o);
    hide WalkFrom, FirstMatch, OverloadOf, Bits;
    ConsItems(x, rest, code);
    assert f[p] == OVERLOAD ==> x.data[0] == f[p + 2];
  }

  lemma WalkAt(f: bytes, p: nat, code: byte, o: Overload)
    requires p < |f|
    ensures f[p] == PADDING ==> WalkFrom(f, p, code, o) == WalkFrom(f, p + 1, code, o)
    ensures f[p] == END ==> WalkFrom(f, p, code, o) == Ended(o)
    ensures f[p] != PADDING && f[p] != END && p + 1 < |f| && p + 2 + f[p + 1] as int <= |f| ==>
              WalkFrom(f, p, code, o) ==
              if f[p] == code then Found(p + 2) else WalkFrom(f, p + 2 + f[p + 1] as int, code, OverloadAfter(f, p, o))
  {
  }

  lemma ItemsAt(f: bytes, p: nat)
    requires p < |f|
    ensures f[p] == PADDING ==> EndOf(f, p) == EndOf(f, p + 1) && Items(f, p) == Items(f, p + 1)
    ensures f[p] == END ==> EndOf(f, p) == Some(p) && Items(f, p) == Some([])
    ensures f[p] != PADDING && f[p] != END && p + 1 < |f| && p + 2 + f[p + 1] as int <= |f| ==>
              var next := p + 2 + f[p + 1] as int;
              && EndOf(f, p) == EndOf(f, next)
              && Items(f, p) == if Items(f, next).None? then None
                                else Some([Opt(f[p], f[p + 2..next])] + Items(f, next).value)
    ensures EndOf(f, p).Some? && f[p] != PADDING && f[p] != END ==> p + 1 < |f| && p + 2 + f[p + 1] as int <= |f|
  {
  }

  /** The walk through a well-formed field finds the first option of the code. */
  lemma {:induction false} WalkItems(f: bytes, p: nat, code: byte, o: Overload)
    requires Items(f, p).Some? && OverloadsFilled(Items(f, p).value)
    ensures FindsFirst(f, WalkFrom(f, p, code, o), Items(f, p).value, code, o)
    decreases |f| - p
  {
    ItemsInside(f, p);
    ItemsAt(f, p);
    WalkAt(f, p, code, o);
    if f[p] == PADDING {
      hide Items, WalkFrom, FindsFirst;
      WalkItems(f, p + 1, code, o);
    } else if f[p] == END {
      assert OverloadOf([]) == NO_OVERLOAD && o.With(NO_OVERLOAD) == o;
      hide Items, WalkFrom;
    } else {
      hide Items, WalkFrom, FindsFirst, FirstMatch, OverloadOf;
      var next := p + 2 + f[p + 1] as int;
      var rest := Items(f, next).value;
      ConsItems(Opt(f[p], f[p + 2..next]), rest, code);
      if f[p] != code {
        WalkItems(f, next, code, OverloadAfter(f, p, o));
      }
      WalkOption(f, p, rest, code, o);
    }
  }

  lemma ItemsInside(f: bytes, p: nat)
    requires Items(f, p).Some?
    ensures p < |f| && EndOf(f, p).Some?
  {
  }

  lemma {:induction false} NoOverloadsBits(items: seq<Opt>)
    requires NoOverloads(items)
    ensures OverloadOf(items) == NO_OVERLOAD
  {
    if items != [] {
      NoOverloadsBits(items[1..]);
    }
  }

  lemma {:induction false} FirstMatchAppend(a: seq<Opt>, b: seq<Opt>, code: byte)
    ensures FirstMatch(a + b, code) == if FirstMatch(a, code).Some? then FirstMatch(a, code) else FirstMatch(b, code)
  {
    if a == [] {
      assert a + b == b;
    } else {
      assert (a + b)[1..] == a[1..] + b;
      FirstMatchAppend(a[1..], b, code);
    }
  }

  /** The options of a packet in lookup order: the options field, then the file and
      sname fields as far as the overload bits name them. */
  function AllItems(pk: Packet): Option<seq<Opt>> {
    var o := Items(pk.options, 0);
    if o.None? then None
    else
      var bits := OverloadOf(o.value);
      var f := if bits.file then Items(pk.file, 0) else Some([]);
      var s := if bits.sname then Items(pk.sname, 0) else Some([]);
      if f.None? || s.None? then None else Some(o.value + f.value + s.value)
  }

  /** Option 52 occurs, properly filled, in the options field only. */
  predicate PlainOverload(pk: Packet) {
    && AllItems(pk).Some? && OverloadsFilled(Items(pk.options, 0).value)
    && var bits := OverloadOf(Items(pk.options, 0).value);
       && (bits.file ==> NoOverloads(Items(pk.file, 0).value))
       && (bits.sname ==> NoOverloads(Items(pk.sname, 0).value))
  }

  predicate Shows(pk: Packet, r: Option<(Field, nat)>, d: Option<bytes>) {
    match r
    case None => d.None?
    case Some((field, at)) =>
      var f := pk.Get(field);
      1 <= at <= |f| && at + f[at - 1] <= |f| && d == Some(Data(f, at))
  }

  lemma FirstMatchNone(code: byte)
    ensures FirstMatch([], code) == None
  {
  }

  /** With overloading in the options field only, the lookup ends. */
  lemma PlainTerminates(pk: Packet, code: byte)
    requires PlainOverload(pk)
    ensures !Loops(pk, code)
  {
    hide WalkFrom, Items, OverloadsFilled, NoOverloads, FirstMatch, OverloadOf;
    var bits := OverloadOf(Items(pk.options, 0).value);
    WalkItems(pk.options, 0, code, NO_OVERLOAD);
    assert NO_OVERLOAD.With(bits) == bits;
    if bits.file {
      PlainField(pk.file, code, NO_OVERLOAD);
    }
    if bits.sname {
      PlainField(pk.sname, code, NO_OVERLOAD);
    }
  }

  /** Where the lookup goes when no option of a field matches. */
  function NextField(x: Overload): Look {
    if x.file then At(File, x.(file := false))
    else if x.sname then At(Sname, x.(sname := false))
    else Done(None)
  }

  lemma LookField(pk: Packet, field: Field, o: Overload, items: seq<Opt>, code: byte)
    requires FindsFirst(pk.Get(field), WalkFrom(pk.Get(field), 0, code, o), items, code, o)
    ensures var next := Next(pk, code, At(field, o));
            if FirstMatch(items, code).None? then next == NextField(o.With(OverloadOf(items)))
            else next.Done? && Shows(pk, next.result, FirstMatch(items, code))
  {
    hide WalkFrom, FirstMatch, OverloadOf;
  }

  lemma LookedNext(pk: Packet, code: byte, n: nat)
    ensures Looked(pk, code, n + 1) == Next(pk, code, Looked(pk, code, n))
  {
  }

  /** It finds the first option of the code in options, then file, then sname. */
  lemma LookupFirstMatch(pk: Packet, code: byte)
    requires PlainOverload(pk)
    ensures !Loops(pk, code) && Shows(pk, Lookup(pk, code), FirstMatch(AllItems(pk).value, code))
  {
    PlainTerminates(pk, code);
    FirstMatchNone(code);
    hide WalkFrom, Items, OverloadsFilled, NoOverloads, FirstMatch, OverloadOf, Loops, FindsFirst, Next, Shows;
    var o := Items(pk.options, 0).value;
    var bits := OverloadOf(o);
    var f := if bits.file then Items(pk.file, 0).value else [];
    var s := if bits.sname then Items(pk.sname, 0).value else [];
    FirstMatchAppend(o + f, s, code);
    FirstMatchAppend(o, f, code);
    WalkItems(pk.options, 0, code, NO_OVERLOAD);
    LookField(pk, Options, NO_OVERLOAD, o, code);
    assert NO_OVERLOAD.With(bits) == bits;
    if bits.file {
      PlainField(pk.file, code, Overload(false, bits.sname));
      LookField(pk, File, Overload(false, bits.sname), f, code);
    }
    if bits.sname {
      PlainField(pk.sname, code, NO_OVERLOAD);
      LookField(pk, Sname, NO_OVERLOAD, s, code);
    }
    LookedNext(pk, code, 0);
    LookedNext(pk, code, 1);
    LookedNext(pk, code, 2);
    assert Looked(pk, code, 0) == FIRST;
    hide Looked;
    if Looked(pk, code, 1).Done? {
      DoneStays(pk, code, 1, 4);
    } else if Looked(pk, code, 2).Done? {
      DoneStays(pk, code, 2, 4);
    } else {
      DoneStays(pk, code, 3, 4);
    }
    ShowsNone(pk);
  }

  lemma ShowsNone(pk: Packet)
    ensures Shows(pk, None, None)
  {
  }

  /** A field without overload options hands the bits on as they are. */
  lemma PlainField(f: bytes, code: byte, o: Overload)
    requires Items(f, 0).Some? && NoOverloads(Items(f, 0).value)
    ensures FindsFirst(f, WalkFrom(f, 0, code, o), Items(f, 0).value, code, o)
    ensures OverloadOf(Items(f, 0).value) == NO_OVERLOAD && o.With(NO_OVERLOAD) == o
  {
    WalkItems(f, 0, code, o);
    NoOverloadsBits(Items(f, 0).value);
  }

  // ----- adding options -----

  /** The position of END. */
  function EndOf(f: bytes, p: nat): (e: Option<nat>)
    ensures e.Some? ==> p <= e.value < |f| && f[e.value] == END
    ensures e.Some? <==> Items(f, p).Some?
    decreases |f| - p
  {
    if p >= |f| then None
    else if f[p] == PADDING then EndOf(f, p + 1)
    else if f[p] == END then Some(p)
    else if p + 1 >= |f| || p + 2 + f[p + 1] > |f| then None
    else EndOf(f, p + 2 + f[p + 1])
  }

  /** dhcp_end_option does not look at the size of the field: END must be there. */
  method EndOption(f: array<byte>) returns (i: nat)
    requires EndOf(f[..], 0).Some?
    ensures i == EndOf(f[..], 0).value
  {
    i := 0;
    while f[i] != END
      invariant i < f.Length && EndOf(f[..], i) == EndOf(f[..], 0)
      decreases f.Length - i
    {
      if f[i] != PADDING {
        i := i + (f[i + 1] as int + 2 - 1);
      }
      i := i + 1;
    }
  }

  /** An option in binary form: code, length, data. */
  predicate IsBinary(opt: bytes) {
    |opt| >= 2 && |opt| == 2 + opt[1] as int
  }

  predicate Fits(f: bytes, opt: bytes)
    requires EndOf(f, 0).Some?
  {
    EndOf(f, 0).value + |opt| + 1 < OPTIONS_BUFSIZE
  }

  /** The field after an addition; options that do not fit are dropped. */
  function Add(f: bytes, opt: bytes): (g: bytes)
    requires |f| == OPTIONS_SIZE && EndOf(f, 0).Some? && IsBinary(opt)
    ensures |g| == |f|
  {
    if !Fits(f, opt) then f else Overwrite(f, EndOf(f, 0).value, opt + [END])
  }

  function Overwrite(f: bytes, at: nat, src: bytes): (g: bytes)
    requires at + |src| <= |f|
    ensures |g| == |f| && forall i :: 0 <= i < |f| ==> g[i] == if at <= i < at + |src| then src[i - at] else f[i]
  {
    seq(|f|, i requires 0 <= i < |f| => if at <= i < at + |src| then src[i - at] else f[i])
  }

  /** dhcp_add_binary_option; addopt may be longer than its option. */
  method AddBinaryOption(options: array<byte>, addopt: bytes)
    requires options.Length == OPTIONS_SIZE && EndOf(options[..], 0).Some?
    requires |addopt| >= 2 && |addopt| >= 2 + addopt[1] as int
    modifies options
    ensures options[..] == Add(old(options[..]), addopt[..2 + addopt[1] as int])
  {
    hide EndOf;
    var end := EndOption(options);
    var len := 2 + addopt[1] as int;
    if end + len + 1 >= OPTIONS_BUFSIZE {
      return;
    }
    CopyInto(options, end, addopt[..len]);
    options[end + len] := END;
  }

  lemma OverwriteSlice(f: bytes, at: nat, src: bytes, x: byte)
    requires at + |src| < |f|
    ensures var g := Overwrite(f, at, src + [x]);
            g[..at] == f[..at] && g[at..at + |src|] == src && g[at + |src|] == x
  {
    var g := Overwrite(f, at, src + [x]);
    assert forall i :: 0 <= i < |src| ==> g[at + i] == (src + [x])[i];
  }

  /** The bytes of the field after an addition that fits. */
  lemma AddBytes(f: bytes, opt: bytes)
    requires |f| == OPTIONS_SIZE && EndOf(f, 0).Some? && IsBinary(opt) && Fits(f, opt)
    ensures var g, e := Add(f, opt), EndOf(f, 0).value;
            g[..e] == f[..e] && g[e..e + |opt|] == opt && g[e + |opt|] == END
  {
    hide EndOf, Overwrite;
    OverwriteSlice(f, EndOf(f, 0).value, opt, END);
  }

  /** The added option, read at the old position of END. */
  lemma AddedAt(g: bytes, e: nat, opt: bytes)
    requires IsBinary(opt) && e + |opt| < |g| && g[e..e + |opt|] == opt && g[e + |opt|] == END
    requires opt[0] != PADDING && opt[0] != END
    ensures EndOf(g, e) == Some(e + |opt|) && Items(g, e) == Some([Opt(opt[0], opt[2..])])
  {
    var n := e + |opt|;
    assert g[e] == g[e..n][0] && g[e + 1] == g[e..n][1];
    assert g[e + 2..n] == g[e..n][2..];
    assert Items(g, n) == Some([]) && EndOf(g, n) == Some(n);
    assert [Opt(opt[0], opt[2..])] + [] == [Opt(opt[0], opt[2..])];
  }

  /** One option that both fields spell alike. */
  lemma SameOption(f: bytes, g: bytes, p: nat, more: seq<Opt>, end: nat)
    requires |g| == |f| && EndOf(f, p).Some? && p + 1 < |f| && f[p] != PADDING && f[p] != END
    requires p + 2 + f[p + 1] as int <= EndOf(f, p).value
    requires forall k :: 0 <= k < EndOf(f, p).value ==> g[k] == f[k]
    requires var next := p + 2 + f[p + 1] as int;
             EndOf(g, next) == Some(end) && Items(g, next) == Some(Items(f, next).value + more)
    ensures EndOf(g, p) == Some(end) && Items(g, p) == Some(Items(f, p).value + more)
  {
    ItemsAt(f, p);
    ItemsAt(g, p);
    hide EndOf, Items;
    var next := p + 2 + f[p + 1] as int;
    SameSlice(f, g, p + 2, next, EndOf(f, p).value);
    var x := [Opt(f[p], f[p + 2..next])];
    Assoc(x, Items(f, next).value, more);
  }

  lemma SameSlice(f: bytes, g: bytes, from: nat, upto: nat, e: nat)
    requires from <= upto <= e <= |f| == |g| && forall k :: 0 <= k < e ==> g[k] == f[k]
    ensures g[from..upto] == f[from..upto]
  {
  }

  /** The list up to END depends on the bytes up to END only; past it the added
      option follows. */
  lemma {:induction false} AddItemsFrom(f: bytes, p: nat, opt: bytes)
    requires |f| == OPTIONS_SIZE && EndOf(f, 0).Some? && IsBinary(opt) && Fits(f, opt)
    requires EndOf(f, p) == EndOf(f, 0) && opt[0] != PADDING && opt[0] != END
    ensures var g, e := Add(f, opt), EndOf(f, 0).value;
            && EndOf(g, p) == Some(e + |opt|)
            && Items(g, p) == Some(Items(f, p).value + [Opt(opt[0], opt[2..])])
    decreases |f| - p
  {
    hide Add, EndOf, Items;
    var g, e := Add(f, opt), EndOf(f, 0).value;
    var more := [Opt(opt[0], opt[2..])];
    AddBytes(f, opt);
    AddedAt(g, e, opt);
    forall k | 0 <= k < e
      ensures g[k] == f[k]
    {
      assert g[k] == g[..e][k] && f[k] == f[..e][k];
    }
    ItemsAt(f, p);
    if f[p] == END {
      assert [] + more == more;
    } else if f[p] == PADDING {
      AddItemsFrom(f, p + 1, opt);
      ItemsAt(g, p);
    } else {
      AddItemsFrom(f, p + 2 + f[p + 1] as int, opt);
      SameOption(f, g, p, more, e + |opt|);
    }
  }

  lemma {:induction false} ItemsCodes(f: bytes, p: nat)
    requires Items(f, p).Some?
    ensures forall i :: 0 <= i < |Items(f, p).value| ==>
              Items(f, p).value[i].code != PADDING && Items(f, p).value[i].code != END
    decreases |f| - p
  {
    if f[p] == PADDING {
      ItemsCodes(f, p + 1);
    } else if f[p] != END {
      ItemsCodes(f, p + 2 + f[p + 1]);
    }
  }

  /** An addition that fits appends the option, exactly when its code is neither
      padding nor END. */
  lemma AddAppends(f: bytes, opt: bytes)
    requires |f| == OPTIONS_SIZE && EndOf(f, 0).Some? && IsBinary(opt) && Fits(f, opt)
    ensures Items(Add(f, opt), 0) == Some(Items(f, 0).value + [Opt(opt[0], opt[2..])])
            <==> opt[0] != PADDING && opt[0] != END
  {
    var g, more := Add(f, opt), Items(f, 0).value + [Opt(opt[0], opt[2..])];
    if opt[0] != PADDING && opt[0] != END {
      AddItemsFrom(f, 0, opt);
    } else {
      assert more[|more| - 1].code == opt[0];
      if Items(g, 0).Some? {
        ItemsCodes(g, 0);
      }
    }
  }

  predicate Addable(opts: seq<bytes>) {
    forall i :: 0 <= i < |opts| ==>
      IsBinary(opts[i]) && opts[i][0] != PADDING && opts[i][0] != OVERLOAD && opts[i][0] != END
  }

  /** An options field as dhcp_init_header leaves it in front of its first addition. */
  predicate Ready(f: bytes) {
    |f| == OPTIONS_SIZE && EndOf(f, 0).Some? && EndOf(f, 0).value < OPTIONS_BUFSIZE
  }

  function AddAll(f: bytes, opts: seq<bytes>): (r: (bytes, seq<Opt>))
    requires Ready(f) && Addable(opts)
    ensures Ready(r.0)
    decreases |opts|
  {
    if opts == [] then (f, [])
    else
      var opt := opts[0];
      if Fits(f, opt) then
        AddItemsFrom(f, 0, opt);
        var r := AddAll(Add(f, opt), opts[1..]);
        (r.0, [Opt(opt[0], opt[2..])] + r.1)
      else AddAll(f, opts[1..])
  }

  /** After any additions the field lists the accepted options in order behind what
      it had, and END stays below offset 308. */
  lemma {:induction false} AddAllItems(f: bytes, opts: seq<bytes>)
    requires Ready(f) && Addable(opts)
    ensures var (g, accepted) := AddAll(f, opts);
            && EndOf(g, 0).value < OPTIONS_BUFSIZE
            && Items(g, 0) == Some(Items(f, 0).value + accepted) && NoOverloads(accepted)
    decreases |opts|
  {
    hide Add, Items, EndOf;
    if opts == [] {
      assert Items(f, 0).value + [] == Items(f, 0).value;
    } else {
      var opt := opts[0];
      assert IsBinary(opt);
      if Fits(f, opt) {
        AddItemsFrom(f, 0, opt);
        AddAllItems(Add(f, opt), opts[1..]);
        var x, r := [Opt(opt[0], opt[2..])], AddAll(Add(f, opt), opts[1..]).1;
        assert Items(f, 0).value + x + r == Items(f, 0).value + (x + r);
      } else {
        AddAllItems(f, opts[1..]);
      }
    }
  }

  /** Added options can be looked up: the lookup yields the first accepted value of
      each code, whatever the file and sname fields hold. */
  lemma LookupAdded(f: bytes, opts: seq<bytes>, file: bytes, sname: bytes, code: byte)
    requires |f| == OPTIONS_SIZE && f[0] == END && Addable(opts)
    ensures Ready(f)
    ensures var (g, accepted) := AddAll(f, opts);
            var pk := Packet(g, file, sname);
            !Loops(pk, code) && Shows(pk, Lookup(pk, code), FirstMatch(accepted, code))
  {
    ItemsAt(f, 0);
    hide Loops, Lookup, Items, EndOf, AddAll, Addable, Shows, FirstMatch, AllItems, PlainOverload, NoOverloads;
    var (g, accepted) := AddAll(f, opts);
    AddAllItems(f, opts);
    assert [] + accepted == accepted;
    PlainPacket(Packet(g, file, sname), accepted);
    LookupFirstMatch(Packet(g, file, sname), code);
  }

  lemma PlainPacket(pk: Packet, items: seq<Opt>)
    requires Items(pk.options, 0) == Some(items) && NoOverloads(items)
    ensures PlainOverload(pk) && AllItems(pk) == Some(items)
  {
    NoOverloadsBits(items);
    hide Items, OverloadOf;
    assert items + [] + [] == items;
  }
}
