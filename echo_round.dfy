/** The ECHO round function on one lane: the BIG.SubWords layer built from two
    AES rounds per cell, the BIG.ShiftRows + BIG.MixColumns layer built from
    the byte-wise doubling of FIPS 197, the round-pair ping-pong between two
    grids and the BIG.Final feed-forward.  A grid is the 4x4 state of 128-bit
    cells, flattened row by row: cell [i][j] is at index 4 * i + j. */
module EchoRound {
  import opened Machine
  import opened Lanes

  type Grid = g: seq<Lane> | |g| == 16 witness [Zero, Zero, Zero, Zero, Zero, Zero, Zero, Zero, Zero, Zero, Zero, Zero, Zero, Zero, Zero, Zero]

  /** The one foreign operation: one AES encryption round applied to a cell
      with a round key (`_mm512_aesenc_epi128` in one lane). */
  type AesRound = (Lane, Counter) -> Lane

  // ---------------------------------------------------------------------
  // Byte doubling

  /** Multiplication by 2 in GF(2^8) modulo x^8 + x^4 + x^3 + x + 1: the
      `xtime` of FIPS 197 section 4.2.1. */
  function Xtime(b: bv8): bv8
  {
    if b & 0x80 == 0 then b << 1 else (b << 1) ^ 0x1b
  }

  /** Multiplication by 3 in GF(2^8). */
  function Mul3(b: bv8): bv8
  {
    Xtime(b) ^ b
  }

  /** `mul2mask`: the 16-byte table whose entry 1 is the reduction constant. */
  const Mul2Mask: Lane := Set4Epi32(0, 0, 0, 0x00001b00)

  /** `lsbmask`: the byte 0x01 in every position. */
  const LsbMask: Lane := Const1Epi32(0x01010101)

  /** The byte layout of the two constants: `mul2mask` holds the
      reduction constant 0x1b in byte 1 and zero elsewhere, so that a shuffle
      index 1 selects it and index 0 selects zero; `lsbmask` holds 0x01 in
      every byte. */
  lemma MaskBytes()
    ensures Mul2Mask[1] == 0x1b && forall p :: 0 <= p < 16 && p != 1 ==> Mul2Mask[p] == 0
    ensures forall p :: 0 <= p < 16 ==> LsbMask[p] == 0x01
  {
  }

  /** The doubling step of ECHO_MIXBYTES with a given shuffle table: double
      every byte with a wrapping add, extract every byte's top bit with a
      16-bit shift and a mask, look the reduction constant up with a byte
      shuffle and fold it in. */
  function DoubleWith(table: Lane, x: Lane): Lane
  {
    Xor(AddEpi8(x, x), ShuffleEpi8(table, And(SrliEpi16(x, 7), LsbMask)))
  }

  /** The doubling step as the source runs it, with `mul2mask`: it is FIPS
      197 `xtime` of every byte. */
  function Double(x: Lane): (r: Lane)
    ensures forall p :: 0 <= p < 16 ==> r[p] == Xtime(x[p])
  {
    DoubleBytes(x);
    DoubleWith(Mul2Mask, x)
  }

  /** The table left in a comment beside `mul2mask`, with the constant in the
      top word of the lane, would not double: it loses the reduction of a
      byte 0x80 that sits in the low byte of a 16-bit word. */
  lemma CommentedMaskDoesNotDouble()
    ensures DoubleWith(Set4Epi32(0x00001b00, 0, 0, 0), Const1Epi32(0x80808080))[0] != Xtime(0x80)
  {
    var x := Const1Epi32(0x80808080);
    var table := Set4Epi32(0x00001b00, 0, 0, 0);
    assert x[0] == 0x80 && x[1] == 0x80;
    TopBitAfterShift(x[0], x[1]);
    assert And(SrliEpi16(x, 7), LsbMask)[0] == 1 by {
      assert LsbMask[0] == 1;
    }
    assert table[1] == 0;
  }

  /** Every byte of the doubling step with `mul2mask` is `xtime` of the
      input byte. */
  lemma DoubleBytes(x: Lane)
    ensures forall p :: 0 <= p < 16 ==> DoubleWith(Mul2Mask, x)[p] == Xtime(x[p])
  {
    forall p | 0 <= p < 16
      ensures DoubleWith(Mul2Mask, x)[p] == Xtime(x[p])
    {
      DoubleByte(x, p);
    }
  }

  /** Byte p of the doubling step: the wrapping add gives 2b mod 256, the
      shift and mask give b's top bit, and the table turns that bit into
      0x1b or 0. */
  lemma DoubleByte(x: Lane, p: nat)
    requires p < 16
    ensures DoubleWith(Mul2Mask, x)[p] == Xtime(x[p])
  {
    var t1 := And(SrliEpi16(x, 7), LsbMask);
    TopBitOf(x, p);
    TableLookup(x[p], t1[p], ShuffleEpi8(Mul2Mask, t1)[p]);
  }

  /** Byte p of the shifted and masked lane is the top bit of byte p. */
  lemma TopBitOf(x: Lane, p: nat)
    requires p < 16
    ensures And(SrliEpi16(x, 7), LsbMask)[p] == x[p] >> 7
  {
    var m := p / 2;
    assert LsbMask[p] == 1;
    TopBitAfterShift(x[2 * m], x[2 * m + 1]);
    assert SrliEpi16(x, 7)[p] & 1 == x[p] >> 7;
  }

  /** Shifting a 16-bit word right by 7 and keeping bit 0 of each byte
      leaves the top bit of each original byte. */
  lemma TopBitAfterShift(lo: bv8, hi: bv8)
    ensures ByteOf16(ShiftRight16((hi as bv16 << 8) | lo as bv16, 7), 0) & 1 == lo >> 7
    ensures ByteOf16(ShiftRight16((hi as bv16 << 8) | lo as bv16, 7), 1) & 1 == hi >> 7
  {
  }

  /** Looking the top bit up in `mul2mask` gives the reduction constant. */
  lemma TableLookup(b: bv8, t1: bv8, t2: bv8)
    requires t1 == b >> 7
    requires t2 == (if t1 & 0x80 != 0 then 0 else Mul2Mask[(t1 & 0x0f) as int])
    ensures (b + b) ^ t2 == Xtime(b)
  {
    assert Mul2Mask[0] == 0 && Mul2Mask[1] == 0x1b;
    if b & 0x80 == 0 {
      assert t1 == 0;
    } else {
      assert t1 == 1;
    }
  }

  // ---------------------------------------------------------------------
  // MixBytes

  /** One byte of AES MixColumns (FIPS 197 section 5.1.3): row `row` of the
      circulant matrix (2 3 1 1) applied to the byte column (a, b, c, d). */
  function MixColumnByte(row: nat, a: bv8, b: bv8, c: bv8, d: bv8): bv8
    requires row < 4
  {
    if row == 0 then Xtime(a) ^ Mul3(b) ^ c ^ d
    else if row == 1 then a ^ Xtime(b) ^ Mul3(c) ^ d
    else if row == 2 then a ^ b ^ Xtime(c) ^ Mul3(d)
    else Mul3(a) ^ b ^ c ^ Xtime(d)
  }

  /** Row `row` of AES MixColumns applied at every byte position of four
      cells. */
  function MixLane(row: nat, a: Lane, b: Lane, c: Lane, d: Lane): Lane
    requires row < 4
  {
    seq(16, p requires 0 <= p < 16 => MixColumnByte(row, a[p], b[p], c[p], d[p]))
  }

  /** Cell [i][j] after BIG.ShiftRows + BIG.MixColumns: column j mixes
      a = s[0][j], b = s[1][j+1], c = s[2][j+2], d = s[3][j+3] (mod 4). */
  function MixCell(g: Grid, i: nat, j: nat): Lane
    requires i < 4 && j < 4
  {
    MixLane(i, g[j], g[4 + (j + 1) % 4], g[8 + (j + 2) % 4], g[12 + (j + 3) % 4])
  }

  /** The whole diffusion layer, as the source fuses it. */
  function MixBytesSpec(g: Grid): Grid
  {
    seq(16, n requires 0 <= n < 16 => MixCell(g, n / 4, n % 4))
  }

  /** BIG.ShiftRows as the ECHO design states it: row i rotates left by i. */
  function ShiftRowsSpec(g: Grid): Grid
  {
    seq(16, n requires 0 <= n < 16 => g[4 * (n / 4) + (n % 4 + n / 4) % 4])
  }

  /** BIG.MixColumns as the ECHO design states it: AES MixColumns applied to
      every byte position of every column, with no rotation. */
  function MixColumnsSpec(g: Grid): Grid
  {
    seq(16, n requires 0 <= n < 16 => MixLane(n / 4, g[n % 4], g[4 + n % 4], g[8 + n % 4], g[12 + n % 4]))
  }

  /** The fused column step of the source is ShiftRows followed by MixColumns. */
  lemma MixBytesIsShiftRowsThenMixColumns(g: Grid)
    ensures MixBytesSpec(g) == MixColumnsSpec(ShiftRowsSpec(g))
  {
    forall n | 0 <= n < 16
      ensures MixBytesSpec(g)[n] == MixColumnsSpec(ShiftRowsSpec(g))[n]
    {
      MixBytesAt(g, n);
      MixColumnsAt(ShiftRowsSpec(g), n);
      ShiftedColumn(g, n / 4, n % 4);
    }
  }

  /** Cell n of the fused step is MixCell at its row and column. */
  lemma MixBytesAt(g: Grid, n: nat)
    requires n < 16
    ensures MixBytesSpec(g)[n] == MixCell(g, n / 4, n % 4)
  {
  }

  /** Cell n of BIG.MixColumns mixes column n % 4 with row n / 4 of the matrix. */
  lemma MixColumnsAt(h: Grid, n: nat)
    requires n < 16
    ensures MixColumnsSpec(h)[n] == MixLane(n / 4, h[n % 4], h[4 + n % 4], h[8 + n % 4], h[12 + n % 4])
  {
  }

  /** Column c of the shifted grid holds s[0][c], s[1][c+1], s[2][c+2] and
      s[3][c+3] (mod 4): the cells the fused step mixes into column c. */
  lemma ShiftedColumn(g: Grid, i: nat, c: nat)
    requires i < 4 && c < 4
    ensures MixCell(g, i, c) ==
      MixLane(i, ShiftRowsSpec(g)[c], ShiftRowsSpec(g)[4 + c], ShiftRowsSpec(g)[8 + c], ShiftRowsSpec(g)[12 + c])
  {
    var h := ShiftRowsSpec(g);
    assert h[c] == g[c] && h[4 + c] == g[4 + (c + 1) % 4];
    assert h[8 + c] == g[8 + (c + 2) % 4] && h[12 + c] == g[12 + (c + 3) % 4];
  }

  /** Row 0 of ECHO_MIXBYTES: 2a + 3b + c + d, as the macro accumulates it. */
  lemma MixRow0(a: Lane, b: Lane, c: Lane, d: Lane)
    ensures Xor(Xor(Xor(Double(a), Xor(Double(b), b)), c), d) == MixLane(0, a, b, c, d)
  {
    var r := Xor(Xor(Xor(Double(a), Xor(Double(b), b)), c), d);
    assert forall p :: 0 <= p < 16 ==> r[p] == MixLane(0, a, b, c, d)[p];
  }

  /** Row 1 of ECHO_MIXBYTES: a + 2b + 3c + d. */
  lemma MixRow1(a: Lane, b: Lane, c: Lane, d: Lane)
    ensures Xor(Xor(Xor(a, Double(b)), Xor(Double(c), c)), d) == MixLane(1, a, b, c, d)
  {
    var r := Xor(Xor(Xor(a, Double(b)), Xor(Double(c), c)), d);
    assert forall p :: 0 <= p < 16 ==> r[p] == MixLane(1, a, b, c, d)[p];
  }

  /** Row 2 of ECHO_MIXBYTES: a + b + 2c + 3d. */
  lemma MixRow2(a: Lane, b: Lane, c: Lane, d: Lane)
    ensures Xor(Xor(Xor(a, b), Double(c)), Xor(Double(d), d)) == MixLane(2, a, b, c, d)
  {
    var r := Xor(Xor(Xor(a, b), Double(c)), Xor(Double(d), d));
    assert forall p :: 0 <= p < 16 ==> r[p] == MixLane(2, a, b, c, d)[p];
  }

  /** Row 3 of ECHO_MIXBYTES: 3a + b + c + 2d. */
  lemma MixRow3(a: Lane, b: Lane, c: Lane, d: Lane)
    ensures Xor(Xor(Xor(Xor(Double(a), a), b), c), Double(d)) == MixLane(3, a, b, c, d)
  {
    var r := Xor(Xor(Xor(Xor(Double(a), a), b), c), Double(d));
    assert forall p :: 0 <= p < 16 ==> r[p] == MixLane(3, a, b, c, d)[p];
  }

  /** The arithmetic of ECHO_MIXBYTES on the column a, b, c, d it reads:
      each input is doubled once and xored into the four accumulators in the
      order of the macro.  The accumulators are the rows of AES MixColumns. */
  method MixColumnValues(a: Lane, b: Lane, c: Lane, d: Lane) returns (r0: Lane, r1: Lane, r2: Lane, r3: Lane)
    ensures r0 == MixLane(0, a, b, c, d) && r1 == MixLane(1, a, b, c, d)
    ensures r2 == MixLane(2, a, b, c, d) && r3 == MixLane(3, a, b, c, d)
  {
    var s2 := Double(a);
    r0, r1, r2, r3 := s2, a, a, Xor(s2, a);
    s2 := Double(b);
    r0 := Xor(r0, Xor(s2, b));
    r1 := Xor(r1, s2);
    r2 := Xor(r2, b);
    r3 := Xor(r3, b);
    s2 := Double(c);
    r0 := Xor(r0, c);
    r1 := Xor(r1, Xor(s2, c));
    r2 := Xor(r2, s2);
    r3 := Xor(r3, c);
    s2 := Double(d);
    r0 := Xor(r0, d);
    r1 := Xor(r1, d);
    r2 := Xor(r2, Xor(s2, d));
    r3 := Xor(r3, s2);
    MixRow0(a, b, c, d);
    MixRow1(a, b, c, d);
    MixRow2(a, b, c, d);
    MixRow3(a, b, c, d);
  }

  /** ECHO_MIXBYTES(src, dst, j): column j of `dst` receives the mixed
      column j of `src`; `src` is only read and no other cell of `dst` is
      written.  The macro accumulates in the four destination cells
      themselves; here the accumulators are computed first and stored once,
      which leaves the same values in the same cells. */
  method MixColumn(src: array<Lane>, dst: array<Lane>, j: nat)
    requires src.Length == 16 && dst.Length == 16 && src != dst && j < 4
    modifies dst
    ensures dst[j] == MixCell(src[..], 0, j) && dst[4 + j] == MixCell(src[..], 1, j)
    ensures dst[8 + j] == MixCell(src[..], 2, j) && dst[12 + j] == MixCell(src[..], 3, j)
    ensures forall n :: 0 <= n < 16 && n % 4 != j ==> dst[n] == old(dst[n])
  {
    var j1, j2, j3 := (j + 1) % 4, (j + 2) % 4, (j + 3) % 4;
    var a, b, c, d := src[j], src[4 + j1], src[8 + j2], src[12 + j3];
    var r0, r1, r2, r3 := MixColumnValues(a, b, c, d);
    assert MixCell(src[..], 0, j) == r0 && MixCell(src[..], 1, j) == r1;
    assert MixCell(src[..], 2, j) == r2 && MixCell(src[..], 3, j) == r3;
    StoreColumn(dst, j, r0, r1, r2, r3);
  }

  /** Column j of `dst` receives the four given cells, top to bottom. */
  method StoreColumn(dst: array<Lane>, j: nat, r0: Lane, r1: Lane, r2: Lane, r3: Lane)
    requires dst.Length == 16 && j < 4
    modifies dst
    ensures dst[j] == r0 && dst[4 + j] == r1 && dst[8 + j] == r2 && dst[12 + j] == r3
    ensures forall n :: 0 <= n < 16 && n % 4 != j ==> dst[n] == old(dst[n])
  {
    dst[j], dst[4 + j], dst[8 + j], dst[12 + j] := r0, r1, r2, r3;
  }

  /** The four ECHO_MIXBYTES steps of one round: `dst` becomes the mixed
      `src`, which is left as it was. */
  method MixBytes(src: array<Lane>, dst: array<Lane>)
    requires src.Length == 16 && dst.Length == 16 && src != dst
    modifies dst
    ensures dst[..] == MixBytesSpec(src[..])
  {
    for j := 0 to 4
      invariant forall n :: 0 <= n < 16 && n % 4 < j ==> dst[n] == MixBytesSpec(src[..])[n]
    {
      MixColumn(src, dst, j);
      ghost var spec := MixBytesSpec(src[..]);
      assert spec[j] == dst[j] && spec[4 + j] == dst[4 + j];
      assert spec[8 + j] == dst[8 + j] && spec[12 + j] == dst[12 + j];
    }
  }

  // ---------------------------------------------------------------------
  // BIG.SubWords and the round counter

  /** `m512_one_128`: 1 in the low 32-bit word of the lane. */
  const One128: Counter := Counter(1, 0, 0, 0)

  /** The round key after `n` cells: `k` advanced n times by
      `_mm512_add_epi32(k1, m512_one_128)`. */
  function KeyAt(k: Counter, n: nat): Counter
  {
    if n == 0 then k else AddEpi32(KeyAt(k, n - 1), One128)
  }

  /** One more advance. */
  lemma KeyAtNext(k: Counter, n: nat)
    ensures KeyAt(k, n + 1) == AddEpi32(KeyAt(k, n), One128)
  {
  }

  /** After n advances the low 32-bit word of the key has grown by n modulo
      2^32 and its three other words are those of `k`: no carry ever leaves
      the low word. */
  lemma {:induction false} KeyAtWords(k: Counter, n: nat)
    ensures KeyAt(k, n) == Counter(Wrap32(k.w0 + n), k.w1, k.w2, k.w3)
  {
    if n > 0 {
      var prev, x := KeyAt(k, n - 1), k.w0 + (n - 1);
      calc {
        KeyAt(k, n);
        AddEpi32(prev, One128);
        { KeyStep(prev); }
        Counter(Wrap32(prev.w0 + 1), prev.w1, prev.w2, prev.w3);
        { KeyAtWords(k, n - 1); }
        Counter(Wrap32(Wrap32(x) + 1), k.w1, k.w2, k.w3);
        { WrapAddOne(x); }
        Counter(Wrap32(x + 1), k.w1, k.w2, k.w3);
      }
    } else {
      assert Wrap32(k.w0) == k.w0;
    }
  }

  /** One advance adds 1 to the low word, wrapping, and no carry leaves it. */
  lemma KeyStep(c: Counter)
    ensures AddEpi32(c, One128) == Counter(Wrap32(c.w0 + 1), c.w1, c.w2, c.w3)
  {
    assert Wrap32(c.w1 + 0) == c.w1 && Wrap32(c.w2 + 0) == c.w2 && Wrap32(c.w3 + 0) == c.w3;
  }

  /** Adding one after wrapping is adding one before. */
  lemma WrapAddOne(x: int)
    ensures Wrap32(Wrap32(x) + 1) == Wrap32(x + 1)
  {
  }

  /** Advancing the key a cells and then b cells is advancing it a + b cells. */
  lemma {:induction false} KeyAtAdd(k: Counter, a: nat, b: nat)
    ensures KeyAt(KeyAt(k, a), b) == KeyAt(k, a + b)
  {
    if b > 0 {
      KeyAtAdd(k, a, b - 1);
    }
  }

  /** The position of cell n in the column-major order of ECHO_ROUND_UNROLL2. */
  function CellStep(n: nat): nat
    requires n < 16
  {
    4 * (n % 4) + n / 4
  }

  /** One cell of BIG.SubWords: two AES rounds, the first keyed with the
      counter advanced to this cell, the second with the zero key. */
  function SubCell(x: Lane, k: Counter, n: nat, aes: AesRound): Lane
    requires n < 16
  {
    aes(aes(x, KeyAt(k, CellStep(n))), CounterZero)
  }

  /** BIG.SubWords over the whole grid, starting from key `k`. */
  function SubWordsSpec(g: Grid, k: Counter, aes: AesRound): Grid
  {
    seq(16, n requires 0 <= n < 16 => SubCell(g[n], k, n, aes))
  }

  /** One full ECHO round. */
  function Round(g: Grid, k: Counter, aes: AesRound): Grid
  {
    MixBytesSpec(SubWordsSpec(g, k, aes))
  }

  /** `n` ECHO rounds from key `k`; every round uses up 16 key advances. */
  function Rounds(g: Grid, k: Counter, n: nat, aes: AesRound): Grid
    decreases n
  {
    if n == 0 then g else Rounds(Round(g, k, aes), KeyAt(k, 16), n - 1, aes)
  }

  /** Round r (counting from 0) is keyed with the counter advanced 16 r
      cells; within it, cell n is keyed with it advanced 16 r + CellStep(n). */
  lemma {:induction false} RoundKeys(g: Grid, k: Counter, r: nat, aes: AesRound)
    ensures Rounds(g, k, r + 1, aes) == Round(Rounds(g, k, r, aes), KeyAt(k, 16 * r), aes)
    decreases r
  {
    if r > 0 {
      var g1, k1 := Round(g, k, aes), KeyAt(k, 16);
      assert Rounds(g, k, r + 1, aes) == Rounds(g1, k1, r, aes);
      assert Rounds(g, k, r, aes) == Rounds(g1, k1, r - 1, aes);
      RoundKeys(g1, k1, r - 1, aes);
      var m := 16 * (r - 1);
      KeyAtAdd(k, 16, m);
      assert 16 + m == 16 * r;
      assert KeyAt(k1, m) == KeyAt(k, 16 * r);
    } else {
      assert Rounds(g, k, 1, aes) == Rounds(Round(g, k, aes), KeyAt(k, 16), 0, aes);
      assert KeyAt(k, 0) == k;
    }
  }

  /** Two rounds taken off the front of a run of rounds: the round pair. */
  lemma RoundsPair(g: Grid, k: Counter, n: nat, aes: AesRound)
    requires n >= 2
    ensures Rounds(g, k, n, aes) ==
      Rounds(Round(Round(g, k, aes), KeyAt(k, 16), aes), KeyAt(KeyAt(k, 16), 16), n - 2, aes)
  {
  }

  /** BIG.SubWords part-way: the cells whose turn in the column-major order
      comes before step m have been through SubCell, the others not yet. */
  ghost function SubWordsPartial(g: Grid, k: Counter, m: nat, aes: AesRound): Grid
  {
    seq(16, n requires 0 <= n < 16 => if CellStep(n) < m then SubCell(g[n], k, n, aes) else g[n])
  }

  /** Cell [i][j] is the one whose turn is step 4 j + i. */
  lemma CellStepOf(n: nat, i: nat, j: nat)
    requires n < 16 && i < 4 && j < 4
    ensures CellStep(n) == 4 * j + i <==> n == 4 * i + j
  {
  }

  /** Taking step m = 4 j + i of BIG.SubWords updates cell [i][j] only,
      with the key advanced m times. */
  lemma SubWordsPartialStep(g: Grid, k: Counter, i: nat, j: nat, m: nat, aes: AesRound)
    requires i < 4 && j < 4 && m == 4 * j + i
    ensures SubWordsPartial(g, k, m, aes)[4 * i + j] == g[4 * i + j]
    ensures SubWordsPartial(g, k, m + 1, aes) ==
      SubWordsPartial(g, k, m, aes)[4 * i + j := aes(aes(g[4 * i + j], KeyAt(k, m)), CounterZero)]
  {
    var updated := SubWordsPartial(g, k, m, aes)[4 * i + j := SubCell(g[4 * i + j], k, 4 * i + j, aes)];
    forall n | 0 <= n < 16
      ensures SubWordsPartial(g, k, m + 1, aes)[n] == updated[n]
    {
      CellStepOf(n, i, j);
    }
    CellStepOf(4 * i + j, i, j);
  }

  /** No step taken is the grid itself; all sixteen taken is BIG.SubWords. */
  lemma SubWordsPartialEnds(g: Grid, k: Counter, aes: AesRound)
    ensures SubWordsPartial(g, k, 0, aes) == g
    ensures SubWordsPartial(g, k, 16, aes) == SubWordsSpec(g, k, aes)
  {
  }

  /** ECHO_SUBBYTES over the grid in the order of ECHO_ROUND_UNROLL2:
      column by column, each column top to bottom, one key advance per
      cell.  Returns the key after the sixteen advances. */
  method SubWords(s: array<Lane>, k1: Counter, aes: AesRound) returns (next: Counter)
    requires s.Length == 16
    modifies s
    ensures s[..] == SubWordsSpec(old(s[..]), k1, aes)
    ensures next == KeyAt(k1, 16)
  {
    ghost var g := s[..];
    SubWordsPartialEnds(g, k1, aes);
    next := k1;
    for j := 0 to 4
      invariant next == KeyAt(k1, 4 * j)
      invariant s[..] == SubWordsPartial(g, k1, 4 * j, aes)
    {
      next := SubColumn(s, j, next, g, k1, aes);
    }
  }

  /** The inner loop of SubWords: column j top to bottom, steps 4 j to
      4 j + 3 of BIG.SubWords. */
  method SubColumn(s: array<Lane>, j: nat, key: Counter, ghost g: Grid, ghost k1: Counter, aes: AesRound)
    returns (next: Counter)
    requires s.Length == 16 && j < 4
    requires key == KeyAt(k1, 4 * j) && s[..] == SubWordsPartial(g, k1, 4 * j, aes)
    modifies s
    ensures next == KeyAt(k1, 4 * j + 4) && s[..] == SubWordsPartial(g, k1, 4 * j + 4, aes)
  {
    next := key;
    ghost var m := 4 * j;  // cells done so far
    for i := 0 to 4
      invariant m == 4 * j + i
      invariant next == KeyAt(k1, m)
      invariant s[..] == SubWordsPartial(g, k1, m, aes)
    {
      SubWordsPartialStep(g, k1, i, j, m, aes);
      KeyAtNext(k1, m);
      SubBytes(s, 4 * i + j, next, aes);
      next := AddEpi32(next, One128);
      m := m + 1;
    }
  }

  /** ECHO_SUBBYTES on one cell: two AES rounds in place, the first keyed
      with `key`, the second with the zero key. */
  method SubBytes(s: array<Lane>, n: nat, key: Counter, aes: AesRound)
    requires n < s.Length
    modifies s
    ensures s[..] == old(s[..])[n := aes(aes(old(s[n]), key), CounterZero)]
  {
    s[n] := aes(s[n], key);
    s[n] := aes(s[n], CounterZero);
  }

  /** ECHO_ROUND_UNROLL2: a round from `s` into `s2` and a round from `s2`
      back into `s`.  Returns the key after the 32 advances. */
  method RoundPair(s: array<Lane>, s2: array<Lane>, k1: Counter, aes: AesRound) returns (next: Counter)
    requires s.Length == 16 && s2.Length == 16 && s != s2
    modifies s, s2
    ensures s[..] == Round(Round(old(s[..]), k1, aes), KeyAt(k1, 16), aes)
    ensures next == KeyAt(KeyAt(k1, 16), 16)
  {
    var mid := SubWords(s, k1, aes);
    MixBytes(s, s2);
    next := SubWords(s2, mid, aes);
    MixBytes(s2, s);
  }

  /** SAVESTATE(dst, src): a cell-by-cell copy of a grid. */
  method SaveState(dst: array<Lane>, src: array<Lane>)
    requires dst.Length == 16 && src.Length == 16 && dst != src
    modifies dst
    ensures dst[..] == src[..]
  {
    for n := 0 to 16
      invariant forall m :: 0 <= m < n ==> dst[m] == src[m]
    {
      dst[n] := src[n];
    }
  }

  // ---------------------------------------------------------------------
  // Message load and BIG.Final

  /** The message block written into the free columns j >= c: cell [i][j]
      takes word 4 (j - c) + i of the block. */
  function LoadMessage(g: Grid, msg: seq<Lane>, c: nat): Grid
    requires c <= 4 && |msg| >= 4 * (4 - c)
  {
    seq(16, n requires 0 <= n < 16 => if n % 4 >= c then msg[4 * (n % 4 - c) + n / 4] else g[n])
  }

  /** The block loaded into columns c to e - 1 only: the state of the load
      loop of echo_4way_compress after its column e - 1. */
  ghost function LoadPartial(g: Grid, msg: seq<Lane>, c: nat, e: nat): Grid
    requires c <= e <= 4 && |msg| >= 4 * (4 - c)
  {
    seq(16, n requires 0 <= n < 16 => if c <= n % 4 < e then msg[4 * (n % 4 - c) + n / 4] else g[n])
  }

  /** The load loop of echo_4way_compress: for every free column j >= c,
      top to bottom, cell [i][j] takes message word 4 (j - c) + i. */
  method LoadBlock(st: array<Lane>, msg: array<Lane>, c: nat)
    requires st.Length == 16 && c <= 4 && msg.Length >= 4 * (4 - c) && st != msg
    modifies st
    ensures st[..] == LoadMessage(old(st[..]), msg[..], c)
  {
    ghost var g := st[..];
    for j := c to 4
      invariant st[..] == LoadPartial(g, msg[..], c, j)
    {
      ghost var before := st[..];
      LoadColumn(st, msg, c, j);
      forall n | 0 <= n < 16
        ensures st[n] == LoadPartial(g, msg[..], c, j + 1)[n]
      {
        if n % 4 == j {
          assert n == 4 * (n / 4) + j;
        } else {
          assert st[n] == before[n];
        }
      }
    }
  }

  /** One column of the load loop. */
  method LoadColumn(st: array<Lane>, msg: array<Lane>, c: nat, j: nat)
    requires st.Length == 16 && c <= j < 4 && msg.Length >= 4 * (4 - c) && st != msg
    modifies st
    ensures forall i :: 0 <= i < 4 ==> st[4 * i + j] == msg[4 * (j - c) + i]
    ensures forall n :: 0 <= n < 16 && n % 4 != j ==> st[n] == old(st[n])
  {
    for i := 0 to 4
      invariant forall i' :: 0 <= i' < i ==> st[4 * i' + j] == msg[4 * (j - c) + i']
      invariant forall n :: 0 <= n < 16 && n % 4 != j ==> st[n] == old(st[n])
    {
      st[4 * i + j] := msg[4 * (j - c) + i];
    }
  }

  /** BIG.Final: the post-round grid folded with the saved pre-round grid.
      256-bit: column 0 of each row becomes the xor of all four post-round
      and all four saved cells of that row.  512-bit: columns 0 and 1 of
      each row each absorb the cell two columns to the right, post-round and
      saved.  Every other cell keeps its post-round value. */
  function FeedForwardSpec(post: Grid, saved: Grid, hashSize: int): Grid
  {
    seq(16, n requires 0 <= n < 16 => FoldedCell(post, saved, hashSize, n))
  }

  /** Cell n of BIG.Final, byte by byte. */
  function FoldedCell(post: Grid, saved: Grid, hashSize: int, n: nat): Lane
    requires n < 16
  {
    if hashSize == 256 && n % 4 == 0 then
      seq(16, p requires 0 <= p < 16 =>
        post[n][p] ^ post[n + 1][p] ^ post[n + 2][p] ^ post[n + 3][p] ^
        saved[n][p] ^ saved[n + 1][p] ^ saved[n + 2][p] ^ saved[n + 3][p])
    else if hashSize != 256 && n % 4 < 2 then
      seq(16, p requires 0 <= p < 16 => post[n][p] ^ post[n + 2][p] ^ saved[n][p] ^ saved[n + 2][p])
    else post[n]
  }

  /** The feed-forward of echo_4way_compress: the source's loop over the
      rows, each row folded by FoldRow. */
  method FeedForward(s: array<Lane>, backup: array<Lane>, hashSize: int)
    requires s.Length == 16 && backup.Length == 16 && s != backup
    modifies s
    ensures s[..] == FeedForwardSpec(old(s[..]), backup[..], hashSize)
  {
    ghost var post := s[..];
    ghost var saved := backup[..];
    for i := 0 to 4
      invariant forall n :: 0 <= n < 4 * i ==> s[n] == FoldedCell(post, saved, hashSize, n)
      invariant forall n :: 4 * i <= n < 16 ==> s[n] == post[n]
    {
      FeedForwardRow(post, saved, hashSize, 4 * i);
      FoldRow(s, backup, hashSize, 4 * i);
    }
  }

  /** One iteration of the feed-forward loop: the xors the source applies
      to row r, in its order. */
  method FoldRow(s: array<Lane>, backup: array<Lane>, hashSize: int, r: nat)
    requires s.Length == 16 && backup.Length == 16 && s != backup && r % 4 == 0 && r < 16
    modifies s
    ensures hashSize == 256 ==>
      s[r] == Xor(Xor(Xor(Xor(Xor(Xor(Xor(old(s[r]), old(s[r + 1])), old(s[r + 2])), old(s[r + 3])),
        backup[r]), backup[r + 1]), backup[r + 2]), backup[r + 3]) &&
      s[r + 1] == old(s[r + 1])
    ensures hashSize != 256 ==>
      s[r] == Xor(Xor(Xor(old(s[r]), old(s[r + 2])), backup[r]), backup[r + 2]) &&
      s[r + 1] == Xor(Xor(Xor(old(s[r + 1]), old(s[r + 3])), backup[r + 1]), backup[r + 3])
    ensures forall n :: 0 <= n < 16 && n != r && n != r + 1 ==> s[n] == old(s[n])
  {
    if hashSize == 256 {
      s[r] := Xor(s[r], s[r + 1]);
      s[r] := Xor(s[r], s[r + 2]);
      s[r] := Xor(s[r], s[r + 3]);
      s[r] := Xor(s[r], backup[r]);
      s[r] := Xor(s[r], backup[r + 1]);
      s[r] := Xor(s[r], backup[r + 2]);
      s[r] := Xor(s[r], backup[r + 3]);
    } else {
      s[r] := Xor(s[r], s[r + 2]);
      s[r + 1] := Xor(s[r + 1], s[r + 3]);
      s[r] := Xor(s[r], backup[r]);
      s[r] := Xor(s[r], backup[r + 2]);
      s[r + 1] := Xor(s[r + 1], backup[r + 1]);
      s[r + 1] := Xor(s[r + 1], backup[r + 3]);
    }
  }

  /** Row r of BIG.Final is the chain of xors the source applies to it. */
  lemma FeedForwardRow(post: Grid, saved: Grid, hashSize: int, r: nat)
    requires r % 4 == 0 && r < 16
    ensures hashSize == 256 ==>
      FoldedCell(post, saved, hashSize, r) ==
        Xor(Xor(Xor(Xor(Xor(Xor(Xor(post[r], post[r + 1]), post[r + 2]), post[r + 3]),
          saved[r]), saved[r + 1]), saved[r + 2]), saved[r + 3]) &&
      FoldedCell(post, saved, hashSize, r + 1) == post[r + 1]
    ensures hashSize != 256 ==>
      FoldedCell(post, saved, hashSize, r) == Xor(Xor(Xor(post[r], post[r + 2]), saved[r]), saved[r + 2]) &&
      FoldedCell(post, saved, hashSize, r + 1) == Xor(Xor(Xor(post[r + 1], post[r + 3]), saved[r + 1]), saved[r + 3])
    ensures FoldedCell(post, saved, hashSize, r + 2) == post[r + 2]
    ensures FoldedCell(post, saved, hashSize, r + 3) == post[r + 3]
  {
    if hashSize == 256 {
      XorOfEight(post[r], post[r + 1], post[r + 2], post[r + 3], saved[r], saved[r + 1], saved[r + 2], saved[r + 3]);
    } else {
      XorOfFour(post[r], post[r + 2], saved[r], saved[r + 2]);
      XorOfFour(post[r + 1], post[r + 3], saved[r + 1], saved[r + 3]);
    }
  }

  /** A left-nested chain of four lane xors, byte by byte. */
  lemma XorOfFour(a: Lane, b: Lane, c: Lane, d: Lane)
    ensures Xor(Xor(Xor(a, b), c), d) == seq(16, p requires 0 <= p < 16 => a[p] ^ b[p] ^ c[p] ^ d[p])
  {
  }

  /** A left-nested chain of eight lane xors, byte by byte. */
  lemma XorOfEight(a: Lane, b: Lane, c: Lane, d: Lane, e: Lane, f: Lane, g: Lane, h: Lane)
    ensures Xor(Xor(Xor(Xor(Xor(Xor(Xor(a, b), c), d), e), f), g), h) ==
      seq(16, p requires 0 <= p < 16 => a[p] ^ b[p] ^ c[p] ^ d[p] ^ e[p] ^ f[p] ^ g[p] ^ h[p])
  {
  }

  /** One compression of a block as ECHO defines it: load the message, run
      `rounds` rounds from key `k`, fold with the loaded grid. */
  function CompressSpec(g: Grid, k: Counter, msg: seq<Lane>, hashSize: int, rounds: nat, aes: AesRound): Grid
    requires 0 <= hashSize < 1280 && |msg| >= 4 * (4 - hashSize / 256)
  {
    var loaded := LoadMessage(g, msg, hashSize / 256);
    FeedForwardSpec(Rounds(loaded, k, rounds, aes), loaded, hashSize)
  }

  /** The grid work of echo_4way_compress for one block, with the counter
      already advanced to `k`: copy the chaining state into a local grid,
      load the block, save the loaded grid, run the rounds in pairs between
      two local grids, fold with the saved grid and store the result back.
      The block may be read from the chaining state itself. */
  method CompressBlock(state: array<Lane>, msg: array<Lane>, k: Counter, hashSize: nat, rounds: nat, aes: AesRound)
    requires state.Length == 16 && hashSize < 1280 && msg.Length >= 4 * (4 - hashSize / 256) && rounds % 2 == 0
    modifies state
    ensures state[..] == CompressSpec(old(state[..]), k, old(msg[..]), hashSize, rounds, aes)
  {
    ghost var g, m := state[..], msg[..];
    var st := new Lane[16](_ => Zero);
    var st2 := new Lane[16](_ => Zero);
    var backup := new Lane[16](_ => Zero);
    SaveState(st, state);
    LoadBlock(st, msg, hashSize / 256);
    ghost var loaded := st[..];
    assert loaded == LoadMessage(g, m, hashSize / 256);
    SaveState(backup, st);
    RoundPairs(st, st2, k, rounds, aes);
    ghost var post := st[..];
    FeedForward(st, backup, hashSize);
    assert st[..] == FeedForwardSpec(post, loaded, hashSize);
    SaveState(state, st);
  }

  /** The round loop of echo_4way_compress: `rounds / 2` times
      ECHO_ROUND_UNROLL2, each pair ending back in `st`, the key carried
      from pair to pair. */
  method RoundPairs(st: array<Lane>, st2: array<Lane>, k: Counter, rounds: nat, aes: AesRound)
    requires st.Length == 16 && st2.Length == 16 && st != st2 && rounds % 2 == 0
    modifies st, st2
    ensures st[..] == Rounds(old(st[..]), k, rounds, aes)
  {
    ghost var g := st[..];
    var k1 := k;
    ghost var left: nat := rounds;  // rounds still to run
    for r := 0 to rounds / 2
      invariant left == rounds - 2 * r
      invariant Rounds(st[..], k1, left, aes) == Rounds(g, k, rounds, aes)
    {
      RoundsPair(st[..], k1, left, aes);
      k1 := RoundPair(st, st2, k1, aes);
      left := left - 2;
    }
  }
}
