/** Bytes, byte strings and the character codes the parsers compare with. */
module Bytes {
  type byte = b: int | 0 <= b < 256
  type bytes = seq<byte>

  const NUL: byte := 0
  const TAB: byte := 9
  const LF: byte := 10
  const CR: byte := 13
  const SPACE: byte := 32
  const QUOTE: byte := 34
  const APOSTROPHE: byte := 39
  const DIGIT_0: byte := 48
  const BACKSLASH: byte := 92

  /** Negative return codes of the C functions. */
  datatype Errno = Success | ENOMEM | EINVAL

  predicate NulFree(s: bytes) {
    forall i :: 0 <= i < |s| ==> s[i] != NUL
  }

  function Flatten<T>(parts: seq<seq<T>>): seq<T> {
    if parts == [] then [] else parts[0] + Flatten(parts[1..])
  }

  lemma Assoc<T>(x: seq<T>, y: seq<T>, z: seq<T>)
    ensures x + (y + z) == x + y + z
  {
  }

  lemma FlattenCons<T>(part: seq<T>, parts: seq<seq<T>>)
    ensures Flatten([part] + parts) == part + Flatten(parts)
  {
    assert ([part] + parts)[1..] == parts;
  }

  lemma {:induction false} FlattenAppend<T>(a: seq<seq<T>>, b: seq<seq<T>>)
    ensures Flatten(a + b) == Flatten(a) + Flatten(b)
    decreases |a|
  {
    if a == [] {
      assert a + b == b;
    } else {
      var x, rest := a[0], a[1..];
      FlattenAppend(rest, b);
      hide Flatten;
      FlattenCons(x, rest);
      FlattenCons(x, rest + b);
      assert [x] + rest == a && [x] + (rest + b) == a + b;
      assert x + (Flatten(rest) + Flatten(b)) == x + Flatten(rest) + Flatten(b);
    }
  }

  /** memcpy: overwrite dst from offset `at` on with src. */
  method CopyInto(dst: array<byte>, at: nat, src: bytes)
    requires at + |src| <= dst.Length
    modifies dst
    ensures forall i :: 0 <= i < dst.Length ==>
              dst[i] == if at <= i < at + |src| then src[i - at] else old(dst[i])
  {
    forall i | 0 <= i < |src| {
      dst[at + i] := src[i];
    }
  }

  /** memcpy between two different buffers. */
  method CopyBetween(dst: array<byte>, at: nat, src: array<byte>, from: nat, n: nat)
    requires dst != src && at + n <= dst.Length && from + n <= src.Length
    modifies dst
    ensures forall i :: 0 <= i < dst.Length ==>
              dst[i] == if at <= i < at + n then src[from + i - at] else old(dst[i])
  {
    forall i | 0 <= i < n {
      dst[at + i] := src[from + i];
    }
  }
}
