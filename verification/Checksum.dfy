/** The Internet checksum of src/gdhcp/common.c, on big- and little-endian hosts
    (RFC 1071). */
module Checksum {
  import opened Bytes

  const WORD: nat := 0x1_0000

  /** Two bytes read as a 16-bit word of the host. */
  function Load(hi: byte, lo: byte, big: bool): (w: nat)
    ensures w < WORD
  {
    if big then 256 * hi + lo else hi + 256 * lo
  }

  /** A 16-bit word of the host as it lies in memory. */
  function Store(w: nat, big: bool): (b: (byte, byte))
    requires w < WORD
    ensures Load(b.0, b.1, big) == w
  {
    if big then (w / 256, w % 256) else (w % 256, w / 256)
  }

  /** The words of a buffer added up; a left-over byte lies at its word's first address. */
  function Sum(b: bytes, big: bool): nat {
    if b == [] then 0
    else if |b| == 1 then Load(b[0], 0, big)
    else Load(b[0], b[1], big) + Sum(b[2..], big)
  }

  /** End-around carry until the sum fits 16 bits. */
  function Fold(s: nat): (f: nat)
    ensures f < WORD
  {
    if s < WORD then s else Fold(s % WORD + s / WORD)
  }

  function Check(b: bytes, big: bool): (c: nat)
    ensures c < WORD
  {
    WORD - 1 - Fold(Sum(b, big))
  }

  lemma {:induction false} SumBound(b: bytes, big: bool)
    ensures 2 * Sum(b, big) <= (WORD - 1) * (|b| + 1)
  {
    if |b| >= 2 {
      SumBound(b[2..], big);
    }
  }

  /** dhcp_checksum. The C sum is a 32-bit int; 64 KiB of data cannot overflow it. */
  method DhcpChecksum(addr: bytes, big: bool) returns (r: nat)
    requires |addr| <= 0x1_0000
    ensures r == Check(addr, big)
  {
    var sum, source, count := 0, 0, |addr|;
    while count > 1
      invariant 0 <= count <= |addr| && source == |addr| - count
      invariant sum + Sum(addr[source..], big) == Sum(addr, big)
    {
      assert addr[source..][2..] == addr[source + 2..];
      sum := sum + Load(addr[source], addr[source + 1], big);
      source := source + 2;
      count := count - 2;
    }
    if count > 0 {
      sum := sum + Load(addr[source], 0, big);
    }
    SumBound(addr, big);
    assert sum == Sum(addr, big) && sum < 0x8000_0000;
    ghost var total := sum;
    while sum / WORD != 0
      invariant 0 <= sum <= total && Fold(sum) == Fold(total)
      decreases sum
    {
      sum := sum % WORD + sum / WORD;
    }
    r := WORD - 1 - sum;
  }

  // ----- folding -----

  /** Folding casts out 65535s ... */
  lemma {:induction false} FoldQuotient(s: nat) returns (q: nat)
    ensures s == 65535 * q + Fold(s)
  {
    if s < WORD {
      q := 0;
    } else {
      var p := FoldQuotient(s % WORD + s / WORD);
      q := p + s / WORD;
    }
  }

  /** ... but never turns a positive sum into 0. */
  lemma {:induction false} FoldPositive(s: nat)
    ensures Fold(s) == 0 <==> s == 0
  {
    if s >= WORD {
      FoldPositive(s % WORD + s / WORD);
    }
  }

  lemma SameResidue(a: int, b: int, q: int)
    requires 0 < a < WORD && 0 < b < WORD && a - b == 65535 * q
    ensures a == b
  {
  }

  /** The folded sum in closed form: the representative of the residue class
      modulo 65535 in 1..65535, or 0 for the sum 0. */
  lemma FoldResidue(s: nat, r: nat, q: int)
    requires s > 0 && 0 < r < WORD && s == 65535 * q + r
    ensures Fold(s) == r
  {
    var p := FoldQuotient(s);
    FoldPositive(s);
    SameResidue(Fold(s), r, q - p);
  }

  // ----- byte order independence -----

  /** Sum of the bytes at even (first = true) or odd offsets. */
  function Bytewise(b: bytes, first: bool): nat {
    if b == [] then 0 else (if first then b[0] else 0) + Bytewise(b[1..], !first)
  }

  lemma {:induction false} SumBytewise(b: bytes)
    ensures Sum(b, true) == 256 * Bytewise(b, true) + Bytewise(b, false)
    ensures Sum(b, false) == Bytewise(b, true) + 256 * Bytewise(b, false)
  {
    if |b| == 1 {
      assert b[1..] == [];
    } else if |b| >= 2 {
      SumBytewise(b[2..]);
      assert b[1..][1..] == b[2..];
    }
  }

  function Swap(w: nat): nat
    requires w < WORD
  {
    256 * (w % 256) + w / 256
  }

  lemma SwapFold(b: bytes)
    ensures Fold(Sum(b, false)) == Swap(Fold(Sum(b, true)))
  {
    var big, little := Sum(b, true), Sum(b, false);
    SumBytewise(b);
    FoldPositive(big);
    if big > 0 {
      var q := FoldQuotient(big);
      var f := Fold(big);
      // 256 * f = 65535 * (f / 256) + Swap(f)
      assert 256 * big == little + 65535 * Bytewise(b, true);
      assert little == 65535 * (256 * q + f / 256 - Bytewise(b, true)) + Swap(f);
      FoldResidue(little, Swap(f), 256 * q + f / 256 - Bytewise(b, true));
    }
  }

  lemma StoreSwapped(h: byte, l: byte)
    ensures Store(65535 - (256 * h + l), true) == (255 - h, 255 - l)
    ensures Store(65535 - (256 * l + h), false) == (255 - h, 255 - l)
  {
  }

  /** Whatever the host's byte order, the checksum is the same two bytes in memory. */
  lemma ByteOrderIndependence(b: bytes)
    ensures Store(Check(b, true), true) == Store(Check(b, false), false)
  {
    hide Store, Fold, Sum;
    SwapFold(b);
    var w := Fold(Sum(b, true));
    StoreSwapped(w / 256, w % 256);
    assert w == 256 * (w / 256) + w % 256;
  }

  lemma SameBytes(b: bytes, sender: bool, receiver: bool)
    ensures Store(Check(b, sender), sender) == Store(Check(b, receiver), receiver)
  {
    ByteOrderIndependence(b);
  }

  // ----- verification -----

  lemma {:induction false} SumUpdate(b: bytes, k: nat, hi: byte, lo: byte, big: bool)
    requires k % 2 == 0 && k + 1 < |b| && b[k] == 0 && b[k + 1] == 0
    ensures Sum(b[k := hi][k + 1 := lo], big) == Sum(b, big) + Load(hi, lo, big)
  {
    var c := b[k := hi][k + 1 := lo];
    if k == 0 {
      assert c[2..] == b[2..];
    } else {
      SumUpdate(b[2..], k - 2, hi, lo, big);
      assert c[2..] == b[2..][k - 2 := hi][k - 1 := lo];
    }
  }

  /** A buffer that carries its own checksum in an aligned word checks to 0. */
  lemma Verifies(b: bytes, k: nat, big: bool)
    requires k % 2 == 0 && k + 1 < |b| && b[k] == 0 && b[k + 1] == 0
    ensures var c := Store(Check(b, big), big);
            Check(b[k := c.0][k + 1 := c.1], big) == 0
  {
    var s := Sum(b, big);
    var c := Store(Check(b, big), big);
    SumUpdate(b, k, c.0, c.1, big);
    var q := FoldQuotient(s);
    FoldPositive(s);
    FoldResidue(s + Check(b, big), 65535, q);
  }

  // ----- against RFC 1071 -----

  /** The buffer as a sum of 16-bit words in network order; an odd byte at the end is the high
      byte of its word. */
  function Weighted(b: bytes): nat {
    if b == [] then 0
    else
      var k := |b| - 1;
      Weighted(b[..k]) + (if k % 2 == 0 then 256 else 1) * b[k] as int
  }

  lemma {:induction false} WeightedFront(b: bytes)
    requires |b| >= 2
    ensures Weighted(b) == 256 * b[0] + b[1] + Weighted(b[2..])
    decreases |b|
  {
    var k := |b| - 1;
    if |b| == 2 {
      assert b[..1][..0] == [] && b[2..] == [];
    } else {
      WeightedFront(b[..k]);
      assert b[..k][2..] == b[2..][..k - 2];
    }
  }

  lemma {:induction false} SumWeighted(b: bytes)
    ensures Sum(b, true) == Weighted(b)
    decreases |b|
  {
    if |b| == 1 {
      assert b[..0] == [];
    } else if |b| >= 2 {
      WeightedFront(b);
      SumWeighted(b[2..]);
    }
  }

  /** The two bytes stored, read in network order, are the ones' complement of the ones'
      complement sum of the buffer: together the two make a multiple of 65535, and only a
      buffer of zeros has the checksum 0xffff. */
  lemma NetworkChecksum(b: bytes, big: bool)
    ensures var c := Store(Check(b, big), big);
            var w: nat := 256 * c.0 + c.1;
            (Weighted(b) + w) % 65535 == 0 && (w == 65535 <==> Weighted(b) == 0)
  {
    SameBytes(b, big, true);
    SumWeighted(b);
    var s := Sum(b, true);
    FoldPositive(s);
    var q := FoldQuotient(s);
    hide Fold, Sum, Weighted;
    Complement(s, Fold(s), q);
  }

  lemma Complement(s: nat, f: nat, q: nat)
    requires s == 65535 * q + f && f <= 65535
    ensures (s + (65535 - f)) % 65535 == 0
  {
    assert s + (65535 - f) == 65535 * (q + 1);
  }

  lemma {:induction false} WeightedUpdate(b: bytes, k: nat, x: byte)
    requires k < |b|
    ensures Weighted(b[k := x]) == Weighted(b) + (x - b[k]) * if k % 2 == 0 then 256 else 1
    decreases |b|
  {
    var n := |b| - 1;
    if k < n {
      WeightedUpdate(b[..n], k, x);
      assert b[k := x][..n] == b[..n][k := x];
    } else {
      assert b[k := x][..n] == b[..n];
    }
  }

  /** Damage to any one byte changes the checksum. */
  lemma OneByteShows(b: bytes, k: nat, x: byte, big: bool)
    requires k < |b| && x != b[k]
    ensures Check(b[k := x], big) != Check(b, big)
  {
    WeightedUpdate(b, k, x);
    NetworkChecksum(b, big);
    NetworkChecksum(b[k := x], big);
    hide Check, Weighted, Store;
    var w := if k % 2 == 0 then 256 else 1;
    if Check(b[k := x], big) == Check(b, big) {
      var c := Store(Check(b, big), big);
      SameSum(Weighted(b), Weighted(b[k := x]), 256 * c.0 + c.1);
    }
  }

  lemma SameSum(a: nat, b: nat, v: nat)
    requires -65535 < b - a < 65535 && (a + v) % 65535 == 0 && (b + v) % 65535 == 0
    ensures a == b
  {
    var p, q := (a + v) / 65535, (b + v) / 65535;
    assert b - a == 65535 * (q - p);
  }
}
