/** One 128-bit lane of an AVX-512 register, together with the lane-local
    effect of every vector intrinsic the ECHO engine uses.  The 512-bit
    registers of the source hold four such lanes, each an independent hash
    instance, and every operation below acts within one lane.

    A lane that holds chaining state or message data is seen as sixteen
    bytes in x86 memory order (byte 0 is the least significant).  The
    counter register `k` is only ever touched by 32- and 64-bit additions,
    so it is seen as four 32-bit words instead. */
module Lanes {
  import opened Machine

  type Lane = s: seq<bv8> | |s| == 16 witness [0, 0, 0, 0, 0, 0, 0, 0, 0, 0, 0, 0, 0, 0, 0, 0]

  /** `m512_zero` */
  const Zero: Lane := [0, 0, 0, 0, 0, 0, 0, 0, 0, 0, 0, 0, 0, 0, 0, 0]

  /** `_mm512_xor_si512` */
  function Xor(a: Lane, b: Lane): Lane
  {
    seq(16, p requires 0 <= p < 16 => a[p] ^ b[p])
  }

  /** `_mm512_and_si512` */
  function And(a: Lane, b: Lane): Lane
  {
    seq(16, p requires 0 <= p < 16 => a[p] & b[p])
  }

  /** `_mm512_add_epi8`: sixteen independent byte additions modulo 256. */
  function AddEpi8(a: Lane, b: Lane): Lane
  {
    seq(16, p requires 0 <= p < 16 => a[p] + b[p])
  }

  /** The 16-bit word `m` of a lane (bytes 2m and 2m+1, little-endian). */
  function Word16(a: Lane, m: nat): bv16
    requires m < 8
  {
    (a[2 * m + 1] as bv16 << 8) | a[2 * m] as bv16
  }

  /** `_mm512_srli_epi16`: every 16-bit word shifted right by `count`, zero
      filled; bits cross from the high byte of a word into its low byte. */
  function SrliEpi16(a: Lane, count: nat): Lane
  {
    seq(16, p requires 0 <= p < 16 => ByteOf16(ShiftRight16(Word16(a, p / 2), count), p % 2))
  }

  /** Byte `b` (0 = low, 1 = high) of a 16-bit word. */
  function ByteOf16(w: bv16, b: nat): bv8
  {
    if b == 0 then (w & 0xff) as bv8 else (w >> 8) as bv8
  }

  /** A logical right shift of one 16-bit word; counts above 15 give zero. */
  function ShiftRight16(w: bv16, count: nat): bv16
  {
    if count > 15 then 0 else w >> count
  }

  /** `_mm512_shuffle_epi8(table, index)`: byte p of the result is the table
      byte selected by the low four bits of index byte p, or zero when that
      index byte has its top bit set. */
  function ShuffleEpi8(table: Lane, index: Lane): Lane
  {
    seq(16, p requires 0 <= p < 16 =>
      if index[p] & 0x80 != 0 then 0 else table[(index[p] & 0x0f) as int])
  }

  /** Byte `b` of a 32-bit word, least significant first. */
  function ByteOf32(v: bv32, b: nat): bv8
    requires b < 4
  {
    if b == 0 then (v & 0xff) as bv8
    else if b == 1 then ((v >> 8) & 0xff) as bv8
    else if b == 2 then ((v >> 16) & 0xff) as bv8
    else (v >> 24) as bv8
  }

  /** `_mm512_set4_epi32(e3, e2, e1, e0)` seen in one lane: word 0 is `e0`. */
  function Set4Epi32(e3: bv32, e2: bv32, e1: bv32, e0: bv32): Lane
  {
    [ByteOf32(e0, 0), ByteOf32(e0, 1), ByteOf32(e0, 2), ByteOf32(e0, 3),
     ByteOf32(e1, 0), ByteOf32(e1, 1), ByteOf32(e1, 2), ByteOf32(e1, 3),
     ByteOf32(e2, 0), ByteOf32(e2, 1), ByteOf32(e2, 2), ByteOf32(e2, 3),
     ByteOf32(e3, 0), ByteOf32(e3, 1), ByteOf32(e3, 2), ByteOf32(e3, 3)]
  }

  /** `m512_const1_32(c)`: the same 32-bit word four times. */
  function Const1Epi32(c: bv32): Lane
  {
    Set4Epi32(c, c, c, c)
  }

  /** Element `e` of a lane seen as four 32-bit words, element 0 the least
      significant, each little-endian. */
  function Epi32(x: Lane, e: nat): bv32
    requires e < 4
  {
    (x[4 * e + 3] as bv32 << 24) | (x[4 * e + 2] as bv32 << 16) | (x[4 * e + 1] as bv32 << 8) | x[4 * e] as bv32
  }

  /** `_mm512_set4_epi32` takes its elements highest first: the last
      argument is element 0. */
  lemma Set4Epi32Elements(e3: bv32, e2: bv32, e1: bv32, e0: bv32)
    ensures Epi32(Set4Epi32(e3, e2, e1, e0), 0) == e0 && Epi32(Set4Epi32(e3, e2, e1, e0), 1) == e1
    ensures Epi32(Set4Epi32(e3, e2, e1, e0), 2) == e2 && Epi32(Set4Epi32(e3, e2, e1, e0), 3) == e3
  {
    BytesOf32(e0);
    BytesOf32(e1);
    BytesOf32(e2);
    BytesOf32(e3);
  }

  /** A 32-bit word is its four bytes put back together. */
  lemma BytesOf32(v: bv32)
    ensures (ByteOf32(v, 3) as bv32 << 24) | (ByteOf32(v, 2) as bv32 << 16) | (ByteOf32(v, 1) as bv32 << 8) | ByteOf32(v, 0) as bv32 == v
  {
  }

  /** `m512_const1_32(c)` holds c in all four elements. */
  lemma Const1Epi32Elements(c: bv32)
    ensures Epi32(Const1Epi32(c), 0) == c && Epi32(Const1Epi32(c), 1) == c
    ensures Epi32(Const1Epi32(c), 2) == c && Epi32(Const1Epi32(c), 3) == c
  {
    Set4Epi32Elements(c, c, c, c);
  }

  /** `_mm512_add_epi8` keeps of every byte sum its low eight bits: the
      carry out of a byte is dropped, never passed to its neighbour. */
  lemma AddEpi8Bytes(a: Lane, b: Lane)
    ensures forall p :: 0 <= p < 16 ==> AddEpi8(a, b)[p] == ((a[p] as bv16 + b[p] as bv16) & 0xff) as bv8
  {
    forall p | 0 <= p < 16
      ensures AddEpi8(a, b)[p] == ((a[p] as bv16 + b[p] as bv16) & 0xff) as bv8
    {
      ByteSum(a[p], b[p]);
    }
  }

  /** A wrapping byte addition is the low byte of the exact sum. */
  lemma ByteSum(x: bv8, y: bv8)
    ensures x + y == ((x as bv16 + y as bv16) & 0xff) as bv8
  {
  }

  /** `_mm512_srli_epi16` shifts every 16-bit word of the lane as a whole. */
  lemma SrliEpi16Words(a: Lane, count: nat)
    ensures forall m :: 0 <= m < 8 ==> Word16(SrliEpi16(a, count), m) == ShiftRight16(Word16(a, m), count)
  {
    forall m | 0 <= m < 8
      ensures Word16(SrliEpi16(a, count), m) == ShiftRight16(Word16(a, m), count)
    {
      SrliEpi16Word(a, count, m);
    }
  }

  /** One 16-bit word of `_mm512_srli_epi16`. */
  lemma SrliEpi16Word(a: Lane, count: nat, m: nat)
    requires m < 8
    ensures Word16(SrliEpi16(a, count), m) == ShiftRight16(Word16(a, m), count)
  {
    var r := SrliEpi16(a, count);
    var w := ShiftRight16(Word16(a, m), count);
    assert (2 * m) / 2 == m && (2 * m) % 2 == 0 && (2 * m + 1) / 2 == m && (2 * m + 1) % 2 == 1;
    assert r[2 * m] == ByteOf16(w, 0);
    assert r[2 * m + 1] == ByteOf16(w, 1);
    WordOfBytes(r, m, w);
  }

  /** A lane whose bytes 2m and 2m+1 are the bytes of `w` holds `w` as its
      16-bit word `m`. */
  lemma WordOfBytes(r: Lane, m: nat, w: bv16)
    requires m < 8 && r[2 * m] == ByteOf16(w, 0) && r[2 * m + 1] == ByteOf16(w, 1)
    ensures Word16(r, m) == w
  {
    BytesOf16(w);
  }

  /** A 16-bit word is its two bytes put back together. */
  lemma BytesOf16(w: bv16)
    ensures (ByteOf16(w, 1) as bv16 << 8) | ByteOf16(w, 0) as bv16 == w
  {
  }

  /** `_mm512_shuffle_epi8` selects table byte i for an index byte i below
      16, and gives zero for an index byte with its top bit set. */
  lemma ShuffleEpi8Select(table: Lane, index: Lane)
    ensures forall p :: 0 <= p < 16 && index[p] < 16 ==> ShuffleEpi8(table, index)[p] == table[index[p] as int]
    ensures forall p :: 0 <= p < 16 && index[p] >= 0x80 ==> ShuffleEpi8(table, index)[p] == 0
  {
    forall p | 0 <= p < 16 && index[p] < 16
      ensures ShuffleEpi8(table, index)[p] == table[index[p] as int]
    {
      SmallIndex(index[p]);
    }
    forall p | 0 <= p < 16 && index[p] >= 0x80
      ensures ShuffleEpi8(table, index)[p] == 0
    {
      LargeIndex(index[p]);
    }
  }

  /** An index byte below 16 has a clear top bit and is its own low nibble. */
  lemma SmallIndex(i: bv8)
    requires i < 16
    ensures i & 0x80 == 0 && i & 0x0f == i
  {
  }

  /** An index byte from 0x80 up has its top bit set. */
  lemma LargeIndex(i: bv8)
    requires i >= 0x80
    ensures i & 0x80 != 0
  {
  }

  // ---------------------------------------------------------------------
  // The counter register

  /** A lane seen as four 32-bit words, word 0 the least significant;
      `_mm512_set4_epi32(e3, e2, e1, e0)` is `Counter(e0, e1, e2, e3)`. */
  datatype Counter = Counter(w0: u32, w1: u32, w2: u32, w3: u32)

  /** `m512_zero` as a counter. */
  const CounterZero: Counter := Counter(0, 0, 0, 0)

  /** The low 64-bit half of a counter. */
  function Lo64(c: Counter): u64
  {
    c.w0 + Two32 * c.w1
  }

  /** The high 64-bit half of a counter. */
  function Hi64(c: Counter): u64
  {
    c.w2 + Two32 * c.w3
  }

  /** The counter with the given 64-bit halves (`m512_const2_64(hi, lo)`). */
  function FromHalves(lo: u64, hi: u64): (r: Counter)
    ensures Lo64(r) == lo && Hi64(r) == hi
  {
    Counter(lo % Two32, lo / Two32, hi % Two32, hi / Two32)
  }

  /** `_mm512_add_epi32`: four independent 32-bit additions, each wrapping. */
  function AddEpi32(a: Counter, b: Counter): Counter
  {
    Counter(Wrap32(a.w0 + b.w0), Wrap32(a.w1 + b.w1), Wrap32(a.w2 + b.w2), Wrap32(a.w3 + b.w3))
  }

  /** `_mm512_add_epi64` on the four 32-bit words: in each 64-bit half the
      low words add with a carry into the high words, each word wraps, and
      no carry passes from word 1 into word 2.  Each half is thereby a
      64-bit addition modulo 2^64. */
  function AddEpi64(a: Counter, b: Counter): (r: Counter)
    ensures Lo64(r) == Wrap64(Lo64(a) + Lo64(b)) && Hi64(r) == Wrap64(Hi64(a) + Hi64(b))
  {
    AddHalf(a.w0, a.w1, b.w0, b.w1);
    AddHalf(a.w2, a.w3, b.w2, b.w3);
    Counter(Wrap32(a.w0 + b.w0), Wrap32(a.w1 + b.w1 + Carry(a.w0, b.w0)),
            Wrap32(a.w2 + b.w2), Wrap32(a.w3 + b.w3 + Carry(a.w2, b.w2)))
  }

  /** `_mm512_sub_epi64` on the four 32-bit words: in each 64-bit half the
      low words subtract with a borrow from the high words, each word wraps,
      and no borrow passes from word 2 into word 1.  Each half is thereby a
      64-bit subtraction modulo 2^64. */
  function SubEpi64(a: Counter, b: Counter): (r: Counter)
    ensures Lo64(r) == Wrap64(Lo64(a) - Lo64(b)) && Hi64(r) == Wrap64(Hi64(a) - Hi64(b))
  {
    SubHalf(a.w0, a.w1, b.w0, b.w1);
    SubHalf(a.w2, a.w3, b.w2, b.w3);
    Counter(Wrap32(a.w0 - b.w0), Wrap32(a.w1 - b.w1 - Borrow(a.w0, b.w0)),
            Wrap32(a.w2 - b.w2), Wrap32(a.w3 - b.w3 - Borrow(a.w2, b.w2)))
  }

  /** The carry out of a 32-bit addition. */
  function Carry(x: u32, y: u32): int
  {
    if x + y >= Two32 then 1 else 0
  }

  /** The borrow out of a 32-bit subtraction. */
  function Borrow(x: u32, y: u32): int
  {
    if x < y then 1 else 0
  }

  /** Two 32-bit words with the carry between them add as one 64-bit word. */
  lemma AddHalf(x0: u32, x1: u32, y0: u32, y1: u32)
    ensures Wrap32(x0 + y0) + Two32 * Wrap32(x1 + y1 + Carry(x0, y0)) == Wrap64(x0 + Two32 * x1 + (y0 + Two32 * y1))
  {
    var c := Carry(x0, y0);
    var lo := x0 + y0 - c * Two32;
    assert x0 + y0 == c * Two32 + lo;
    assert Wrap32(x0 + y0) == lo;
    var s := x1 + y1 + c;
    var d := if s >= Two32 then 1 else 0;
    var hi := s - d * Two32;
    assert s == d * Two32 + hi;
    assert Wrap32(s) == hi;
    assert x0 + Two32 * x1 + (y0 + Two32 * y1) == d * Two64 + (lo + Two32 * hi);
    assert 0 <= lo + Two32 * hi < Two64;
  }

  /** Two 32-bit words with the borrow between them subtract as one 64-bit
      word. */
  lemma SubHalf(x0: u32, x1: u32, y0: u32, y1: u32)
    ensures Wrap32(x0 - y0) + Two32 * Wrap32(x1 - y1 - Borrow(x0, y0)) == Wrap64(x0 + Two32 * x1 - (y0 + Two32 * y1))
  {
    var c := Borrow(x0, y0);
    var lo := x0 - y0 + c * Two32;
    assert x0 - y0 == -c * Two32 + lo;
    assert Wrap32(x0 - y0) == lo;
    var s := x1 - y1 - c;
    var d := if s < 0 then 1 else 0;
    var hi := s + d * Two32;
    assert s == -d * Two32 + hi;
    assert Wrap32(s) == hi;
    assert x0 + Two32 * x1 - (y0 + Two32 * y1) == -d * Two64 + (lo + Two32 * hi);
    assert 0 <= lo + Two32 * hi < Two64;
  }

  /** `_mm512_add_epi32` and `_mm512_add_epi64` agree exactly when neither
      low word carries: a carry out of word 0 or word 2 is lost by the
      32-bit addition. */
  lemma AddEpi32VersusAddEpi64(a: Counter, b: Counter)
    ensures AddEpi32(a, b) == AddEpi64(a, b) <==> a.w0 + b.w0 < Two32 && a.w2 + b.w2 < Two32
  {
    if a.w0 + b.w0 >= Two32 {
      WrapNext(a.w1 + b.w1);
    } else if a.w2 + b.w2 >= Two32 {
      WrapNext(a.w3 + b.w3);
    }
  }

  /** Consecutive integers differ modulo 2^32. */
  lemma WrapNext(x: int)
    ensures Wrap32(x) != Wrap32(x + 1)
  {
    var q := x / Two32;
    assert x == q * Two32 + Wrap32(x);
    if Wrap32(x) == Two32 - 1 {
      assert x + 1 == (q + 1) * Two32;
    } else {
      assert x + 1 == q * Two32 + (Wrap32(x) + 1);
    }
  }

  /** A counter is determined by its two 64-bit halves. */
  lemma HalvesDetermine(a: Counter, b: Counter)
    requires Lo64(a) == Lo64(b) && Hi64(a) == Hi64(b)
    ensures a == b
  {
  }

  /** A 64-bit subtraction undone by the matching addition. */
  lemma AddUndoesSub(x: Counter, c: Counter)
    ensures AddEpi64(SubEpi64(x, c), c) == x
  {
    WrapSubAdd(Lo64(x), Lo64(c));
    WrapSubAdd(Hi64(x), Hi64(c));
    HalvesDetermine(AddEpi64(SubEpi64(x, c), c), x);
  }

  /** Subtracting and adding back the same 64-bit value, both wrapping. */
  lemma WrapSubAdd(a: u64, c: u64)
    ensures Wrap64(Wrap64(a - c) + c) == a
  {
    if a >= c {
      assert Wrap64(a - c) == a - c;
    } else {
      assert Wrap64(a - c) == a - c + Two64;
      assert Wrap64(a + Two64) == a;
    }
  }
}
