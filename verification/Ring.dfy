/** The growing ring buffer of src/shl_ring.c: a power-of-two sized array in
    which `start == end` means empty, refining a FIFO byte sequence. */
module Ring {
  import opened Bits
  import opened Bytes

  /** Largest object C can address; the ring's `len` arguments count real bytes. */
  const MAX_OBJECT: nat := SIZE_MOD / 2 - 1

  /** One scatter/gather element: a stretch of the ring's buffer. */
  datatype Iovec = Iovec(base: nat, len: nat)

  ghost predicate IsPow2(n: nat) {
    exists k: nat :: n == Pow2(k)
  }

  /** r is a power of two that holds v, and half of it does not. */
  ghost predicate IsLeastPow2(r: nat, v: nat) {
    IsPow2(r) && v <= r && (r == 1 || r < 2 * v)
  }

  /** ... which makes r the smallest power of two that holds v. */
  lemma LeastPow2IsLeast(r: nat, v: nat, k: nat)
    requires IsLeastPow2(r, v) && v <= Pow2(k)
    ensures r <= Pow2(k)
  {
    var n: nat :| r == Pow2(n);
    if n > k {
      Pow2Monotonic(k + 1, n);
    } else {
      Pow2Monotonic(n, k);
    }
  }

  /** The state of the smearing loop: the top min(i, n) of n bits are ones. */
  ghost predicate Smeared(v: nat, n: nat, i: nat) {
    v < Pow2(n) && v >= Pow2(n) - (if i < n then Pow2(n - i) else 1)
  }

  lemma SmearLoop(v: nat, n: nat, i: nat)
    requires i >= 1 && Smeared(v, n, i)
    ensures Smeared(Or(v, Shr(v, i)), n, 2 * i)
  {
    if i <= n {
      SmearStep(v, n, i);
    } else {
      SmearDone(v, n, i);
    }
  }

  lemma SmearResult(value: nat, v: nat)
    requires value < SIZE_MOD && Smeared(v, BitLength(value), 64)
    ensures IsLeastPow2(v + 1, value + 1)
    ensures value < SIZE_MOD / 2 ==> v < SIZE_MOD / 2
    ensures value >= SIZE_MOD / 2 ==> v == SIZE_MOD - 1
  {
    var n := BitLength(value);
    Pow2At63();
    if n > 64 {
      Pow2Monotonic(64, n - 1);
    }
    if n < 64 {
      Pow2Monotonic(n, 63);
    }
    assert v + 1 == Pow2(n);
  }

  method SmearBits(value: nat) returns (v: nat)
    requires value < SIZE_MOD
    ensures IsLeastPow2(v + 1, value + 1)
    ensures value < SIZE_MOD / 2 ==> v < SIZE_MOD / 2
    ensures value >= SIZE_MOD / 2 ==> v == SIZE_MOD - 1
  {
    v := value;
    ghost var n := BitLength(value);
    var i := 1;
    while i < 64
      invariant i == 1 || i == 2 || i == 4 || i == 8 || i == 16 || i == 32 || i == 64
      invariant Smeared(v, n, i)
      decreases 64 - i
    {
      SmearLoop(v, n, i);
      v := Or(v, Shr(v, i));
      i := i * 2;
    }
    SmearResult(value, v);
  }

  /** Next power of two by smearing the leading one downwards; 64-bit
      arithmetic, so values above 2^63 wrap around to 0. */
  method RingPow2(value: nat) returns (r: nat)
    requires value < SIZE_MOD
    ensures value == 0 ==> r == 4096
    ensures 0 < value <= SIZE_MOD / 2 ==> IsLeastPow2(r, value) && r <= SIZE_MOD / 2
    ensures SIZE_MOD / 2 < value ==> r == 0
  {
    if value == 0 {
      return 4096;
    }
    var v := SmearBits(value - 1);
    r := (v + 1) % SIZE_MOD;
  }

  /** The size a ring of the given size is asked to take for `need` bytes, of
      which only the low 64 bits arrive. */
  method GrownSize(low: nat, size: nat, ghost need: nat) returns (r: nat)
    requires low == need % SIZE_MOD && size < need <= size + SIZE_MOD
    requires size == 0 || (IsPow2(size) && size <= SIZE_MOD / 2)
    ensures need <= SIZE_MOD / 2 ==> IsLeastPow2(r, need) && r <= SIZE_MOD / 2
    ensures need == SIZE_MOD ==> r == 4096 && IsPow2(r)
    ensures need > SIZE_MOD / 2 && need != SIZE_MOD ==> r <= size
  {
    r := RingPow2(low);
    if need == SIZE_MOD {
      assert Pow2(12) == 4096;
    } else if need > SIZE_MOD {
      ghost var k: nat :| size == Pow2(k);
      if low > 0 {
        LeastPow2IsLeast(r, low, k);
      }
    }
  }

  class ShlRing {
    var buf: array<byte>
    var size: nat
    var start: nat
    var end: nat

    /** The queued bytes, oldest first. */
    ghost var Contents: bytes

    ghost predicate ValidIndices()
      reads this
    {
      && size == buf.Length
      && (size == 0 ==> start == end == 0)
      && (size > 0 ==> start < size && end < size && size <= SIZE_MOD / 2 && IsPow2(size))
    }

    /** Buffer index of the i-th queued byte. */
    ghost function Slot(i: nat): int
      reads this
    {
      if start + i < size then start + i else start + i - size
    }

    ghost predicate Valid()
      reads this, buf
    {
      && ValidIndices()
      && |Contents| == Length()
      && forall i :: 0 <= i < |Contents| ==> Contents[i] == buf[Slot(i)]
    }

    function Length(): (n: nat)
      requires ValidIndices()
      reads this
      ensures size > 0 ==> n < size
      ensures n == 0 <==> start == end
    {
      if end > start then end - start
      else if end < start then size - start + end
      else 0
    }

    constructor ()
      ensures Valid() && Contents == [] && fresh(buf)
    {
      buf := new byte[0];
      size, start, end := 0, 0, 0;
      Contents := [];
    }

    /** Index reduction as the C macro writes it; with size 0 the mask is all ones. */
    function Mask(v: nat): (m: nat)
      requires v < SIZE_MOD
      reads this
    {
      And(v, if size == 0 then SIZE_MOD - 1 else size - 1)
    }

    lemma MaskWraps(v: nat)
      requires ValidIndices() && v <= size
      ensures Mask(v) == if v == size then 0 else v
    {
      Pow2At63();
      var k: nat :| if size == 0 then k == 64 else size == Pow2(k);
      AndWraps(v, k);
    }

    method Resize(nsize: nat)
      requires Valid() && nsize > Length()
      requires IsPow2(nsize) && nsize <= SIZE_MOD / 2
      modifies this
      ensures Valid() && size == nsize && fresh(buf)
      ensures Contents == old(Contents)
    {
      ghost var n := Length();
      var b := new byte[nsize];
      if end == start {
        end := 0;
        start := 0;
      } else if end > start {
        CopyBetween(b, 0, buf, start, end - start);
        end := end - start;
        start := 0;
      } else {
        CopyBetween(b, 0, buf, start, size - start);
        CopyBetween(b, size - start, buf, 0, end);
        end := end + (size - start);
        start := 0;
      }
      assert start == 0 && end == n && forall i :: 0 <= i < n ==> b[i] == Contents[i];
      buf := b;
      size := nsize;
    }

    /** Make room for `add` more bytes. Exactly one request is mishandled: the one
        whose length computation wraps to 0 on a ring smaller than 4096 bytes. */
    method Grow(add: nat) returns (r: Errno)
      requires Valid() && add < SIZE_MOD
      modifies this
      ensures Valid() && Contents == old(Contents)
      ensures buf == old(buf) || fresh(buf)
      ensures r == Success || r == ENOMEM
      ensures var n := old(|Contents|); var need := n + add + 1;
              && (r == Success <==> need <= old(size) || need <= SIZE_MOD / 2
                                    || (need == SIZE_MOD && old(size) < 4096))
              && (r == Success ==> (size - n > add <==> need != SIZE_MOD))
              && (r == Success && need > old(size) && need != SIZE_MOD ==> IsLeastPow2(size, need))
      ensures r == ENOMEM || old(|Contents|) + add < old(size) ==> unchanged(this)
    {
      var len;
      if end < start {
        len := start - end;
      } else {
        len := start + size - end;
      }
      assert len == size - Length();
      if len > add {
        return Success;
      }
      len := (size + add - len + 1) % SIZE_MOD;
      len := GrownSize(len, size, Length() + add + 1);
      if len <= size {
        return ENOMEM;
      }
      Resize(len);
      return Success;
    }

    /** Copy bytes behind the end, up to the wrap-around point but not onto `start`. */
    method Store(part: bytes)
      requires Valid() && end + |part| <= size && size - Length() > |part|
      modifies this`end, this`Contents, buf
      ensures Valid() && Contents == old(Contents) + part
    {
      MaskWraps(end + |part|);
      CopyInto(buf, end, part);
      end := Mask(end + |part|);
      Contents := Contents + part;
    }

    /** Append: the bytes join the queue's end, or nothing changes. */
    method Push(u8: bytes) returns (r: Errno)
      requires Valid() && |u8| <= MAX_OBJECT
      modifies this, buf
      ensures Valid() && (buf == old(buf) || fresh(buf))
      ensures r == if old(|Contents|) + |u8| <= MAX_OBJECT then Success else ENOMEM
      ensures Contents == if r == Success then old(Contents) + u8 else old(Contents)
    {
      r := Grow(|u8|);
      if r != Success {
        return;
      }
      assert size - Length() > |u8|;
      ghost var before := Contents;
      var rest := u8;
      if start <= end {
        var l := size - end;
        if l > |rest| {
          l := |rest|;
        }
        Store(rest[..l]);
        rest := rest[l..];
      }
      assert Contents + rest == before + u8;
      if rest == [] {
        return;
      }
      Store(rest);
    }

    /** The contents as at most two stretches of the buffer. */
    method Peek() returns (vec: seq<Iovec>)
      requires Valid()
      ensures InBounds(vec, size)
      ensures Gather(buf, vec) == Contents
      ensures (|vec| > 0 ==> vec[0].len > 0) && (|vec| > 1 ==> vec[1].len > 0)
    {
      if end > start {
        vec := [Iovec(start, end - start)];
      } else if end < start {
        vec := [Iovec(start, size - start)];
        if end > 0 {
          vec := vec + [Iovec(0, end)];
        }
      } else {
        vec := [];
      }
    }

    /** Move the start forward within the stretch that begins there. */
    method Advance(l: nat)
      requires Valid() && l <= Length() && start + l <= size
      modifies this`start, this`Contents
      ensures Valid() && Contents == old(Contents)[l..]
    {
      MaskWraps(start + l);
      start := Mask(start + l);
      Contents := Contents[l..];
    }

    /** Drop the oldest min(len, Length()) bytes. */
    method Pull(len: nat)
      requires Valid() && len < SIZE_MOD
      modifies this`start, this`Contents
      ensures Valid()
      ensures Contents == old(Contents)[if len < old(|Contents|) then len else old(|Contents|)..]
    {
      var rest := len;
      ghost var before := Contents;
      if start > end {
        var l := size - start;
        if l > rest {
          l := rest;
        }
        Advance(l);
        rest := rest - l;
      }
      if rest == 0 {
        return;
      }
      ghost var done := len - rest;
      assert start <= end && Contents == before[done..];
      var l := end - start;
      if l > rest {
        l := rest;
      }
      Advance(l);
      assert before[done..][l..] == before[done + l..];
    }

    method Flush()
      requires Valid()
      modifies this`start, this`end, this`Contents
      ensures Valid() && Contents == []
    {
      start := 0;
      end := 0;
      Contents := [];
    }

    /** A fresh NUL-terminated copy of the oldest min(len, Length()) bytes. */
    method Copy(len: nat) returns (b: array<byte>, sum: nat)
      requires Valid()
      ensures fresh(b) && sum == (if len < |Contents| then len else |Contents|)
      ensures b.Length == sum + 1 && b[sum] == NUL && forall i :: 0 <= i < sum ==> b[i] == Contents[i]
    {
      var vec := Peek();
      sum := 0;
      if |vec| > 0 {
        sum := sum + vec[0].len;
      }
      if |vec| > 1 {
        sum := sum + vec[1].len;
      }
      if len < sum {
        sum := len;
      }
      b := CopyVec(buf, vec, sum);
    }
  }

  predicate InBounds(vec: seq<Iovec>, size: nat) {
    && |vec| <= 2
    && (|vec| > 0 ==> vec[0].base + vec[0].len <= size)
    && (|vec| > 1 ==> vec[1].base + vec[1].len <= size)
  }

  /** The bytes that at most two stretches of a buffer stand for. */
  ghost function Gather(src: array<byte>, vec: seq<Iovec>): (s: bytes)
    requires InBounds(vec, src.Length)
    reads src
  {
    if vec == [] then []
    else if |vec| == 1 then src[vec[0].base..vec[0].base + vec[0].len]
    else src[vec[0].base..vec[0].base + vec[0].len] + src[vec[1].base..vec[1].base + vec[1].len]
  }

  /** Copy the first `sum` bytes of the stretches and terminate them. */
  method CopyVec(src: array<byte>, vec: seq<Iovec>, sum: nat) returns (b: array<byte>)
    requires InBounds(vec, src.Length)
    requires sum <= |Gather(src, vec)|
    ensures fresh(b) && b.Length == sum + 1 && b[sum] == NUL
    ensures forall i :: 0 <= i < sum ==> b[i] == Gather(src, vec)[i]
  {
    ghost var all := Gather(src, vec);
    b := new byte[sum + 1];
    b[sum] := NUL;
    if |vec| > 0 {
      var n := if vec[0].len > sum then sum else vec[0].len;
      CopyBetween(b, 0, src, vec[0].base, n);
      assert forall i :: 0 <= i < n ==> b[i] == all[i];
      if |vec| > 1 && sum - n > 0 {
        var m := if vec[1].len > sum - n then sum - n else vec[1].len;
        CopyBetween(b, n, src, vec[1].base, m);
      }
    }
  }
}
