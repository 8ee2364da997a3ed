/** The ECHO context of echo-hash-4way.c on one lane: configuration by
    `echo_4way_init`, the one-block compression `echo_4way_compress` and the
    padding-and-finish step `echo_4way_update_close`. */
module Echo {
  import opened Machine
  import opened Lanes
  import opened EchoRound

  /** Cells in the context's message buffer: the 192-byte block of
      ECHO-256, the larger of the two, in 16-byte cells. */
  const BufferCells: nat := 12

  /** The parameters `echo_4way_init` fixes for one digest size. */
  datatype EchoConfig = EchoConfig(blockLength: nat, rounds: nat, sizeWord: Lane, blockIncrement: Counter)

  datatype Option<T> = None | Some(value: T)

  /** The two configurations of `echo_4way_init`, and the rejection of every
      other size. */
  function ConfigFor(nHashSize: int): Option<EchoConfig>
  {
    if nHashSize == 256 then
      Some(EchoConfig(192, 8, Set4Epi32(0, 0, 0, 0x100), Counter(0x600, 0, 0, 0)))
    else if nHashSize == 512 then
      Some(EchoConfig(128, 10, Set4Epi32(0, 0, 0, 0x200), Counter(0x400, 0, 0, 0)))
    else
      None
  }

  /** Only 256 and 512 are accepted.  For those, the message block fills
      exactly the columns the chaining value leaves free, the per-block
      counter increment is the block length in bits, the round count is
      even, so that the round pairs run every round, and the size word holds
      the digest size in its low 32-bit word and nothing else. */
  lemma ConfigForSizes(nHashSize: int)
    ensures ConfigFor(nHashSize).Some? <==> nHashSize == 256 || nHashSize == 512
    ensures ConfigFor(nHashSize).Some? ==> ConfigFor(nHashSize).value.blockLength == 64 * (4 - nHashSize / 256)
    ensures ConfigFor(nHashSize).Some? ==>
      Lo64(ConfigFor(nHashSize).value.blockIncrement) == 8 * ConfigFor(nHashSize).value.blockLength &&
      Hi64(ConfigFor(nHashSize).value.blockIncrement) == 0
    ensures ConfigFor(nHashSize).Some? ==>
      ConfigFor(nHashSize).value.rounds % 2 == 0 &&
      ConfigFor(nHashSize).value.rounds == (if nHashSize == 256 then 8 else 10)
    ensures ConfigFor(nHashSize).Some? ==>
      var w := ConfigFor(nHashSize).value.sizeWord;
      Epi32(w, 0) as int == nHashSize && forall p :: 4 <= p < 16 ==> w[p] == 0
  {
    SizeWordBytes();
  }

  /** The two size words read back as numbers. */
  lemma SizeWordBytes()
    ensures Epi32(Set4Epi32(0, 0, 0, 0x100), 0) as int == 256
    ensures Epi32(Set4Epi32(0, 0, 0, 0x200), 0) as int == 512
    ensures forall p :: 4 <= p < 16 ==> Set4Epi32(0, 0, 0, 0x100)[p] == 0 && Set4Epi32(0, 0, 0, 0x200)[p] == 0
  {
    Set4Low(0x100);
    Set4Low(0x200);
  }

  /** A lane with only its low 32-bit word set reads back that word. */
  lemma Set4Low(w: bv32)
    ensures Epi32(Set4Epi32(0, 0, 0, w), 0) == w
    ensures forall p :: 4 <= p < 16 ==> Set4Epi32(0, 0, 0, w)[p] == 0
  {
    Set4Epi32Elements(0, 0, 0, w);
  }

  /** The chaining state `echo_4way_init` lays out: in every row the first
      c columns hold the size word and the others are zero. */
  function InitialState(sizeWord: Lane, c: nat): Grid
  {
    seq(16, n requires 0 <= n < 16 => if n % 4 < c then sizeWord else Zero)
  }

  // ---------------------------------------------------------------------
  // The padding block

  /** `_mm512_set4_epi32(0, 0, 0, 0x80)`: the end-of-message marker. */
  const Marker: Lane := Set4Epi32(0, 0, 0, 0x80)

  /** `_mm512_set4_epi32(uHashSize << 16, 0, 0, 0)`: the digest size in the
      top 16 bits of the cell. */
  function SizeField(hashSize: int): Lane
    requires 0 <= hashSize < 0x1_0000
  {
    Set4Epi32((hashSize as bv32) << 16, 0, 0, 0)
  }

  /** `_mm512_set4_epi64(0, processed_bits, 0, processed_bits)`: the message
      length in bits, zero-extended to the low 64 bits of the cell. */
  function LengthField(bits: u32): Lane
  {
    Set4Epi32(0, 0, 0, bits as bv32)
  }

  /** The final block `echo_4way_update_close` builds: the message cells,
      the marker, zero cells, the size field and the length field, filling
      `vblen` cells. */
  function PaddingBlock(prefix: seq<Lane>, vblen: nat, hashSize: int, bits: u32): seq<Lane>
    requires |prefix| + 3 <= vblen && 0 <= hashSize < 0x1_0000
  {
    seq(vblen, n requires 0 <= n < vblen => PaddingCell(prefix, vblen, hashSize, bits, n))
  }

  /** Cell n of the final block. */
  function PaddingCell(prefix: seq<Lane>, vblen: nat, hashSize: int, bits: u32, n: nat): Lane
    requires |prefix| + 3 <= vblen && 0 <= hashSize < 0x1_0000 && n < vblen
  {
    if n < |prefix| then prefix[n]
    else if n == |prefix| then Marker
    else if n < vblen - 2 then Zero
    else if n == vblen - 2 then SizeField(hashSize)
    else LengthField(bits)
  }

  /** The padding block, byte by byte: the message cells come first, the
      marker has 0x80 in byte 0 and zero elsewhere, the cells up to the
      size field are zero, the size field holds the digest size as a
      little-endian 16-bit number in bytes 14 and 15 and nothing else, and
      the length field holds the bit count as a little-endian number in its
      low bytes and nothing above. */
  lemma PaddingLayout(prefix: seq<Lane>, vblen: nat, hashSize: int, bits: u32)
    requires |prefix| + 3 <= vblen && (hashSize == 256 || hashSize == 512)
    ensures PaddingBlock(prefix, vblen, hashSize, bits)[..|prefix|] == prefix
    ensures PaddingBlock(prefix, vblen, hashSize, bits)[|prefix|][0] == 0x80
    ensures forall p :: 1 <= p < 16 ==> PaddingBlock(prefix, vblen, hashSize, bits)[|prefix|][p] == 0
    ensures forall n :: |prefix| < n < vblen - 2 ==> PaddingBlock(prefix, vblen, hashSize, bits)[n] == Zero
    ensures var f := PaddingBlock(prefix, vblen, hashSize, bits)[vblen - 2];
      (forall p :: 0 <= p < 14 ==> f[p] == 0) && f[14] as int + 256 * f[15] as int == hashSize
    ensures var f := PaddingBlock(prefix, vblen, hashSize, bits)[vblen - 1];
      Epi32(f, 0) == bits as bv32 && forall p :: 4 <= p < 16 ==> f[p] == 0
  {
    var b := PaddingBlock(prefix, vblen, hashSize, bits);
    assert b[|prefix|] == Marker;
    assert b[vblen - 2] == SizeField(hashSize);
    assert b[vblen - 1] == LengthField(bits);
    SizeFieldBytes(hashSize);
    LengthFieldBytes(bits);
  }

  /** The size field of the two digest sizes, byte by byte. */
  lemma SizeFieldBytes(hashSize: int)
    requires hashSize == 256 || hashSize == 512
    ensures forall p :: 0 <= p < 14 ==> SizeField(hashSize)[p] == 0
    ensures SizeField(hashSize)[14] == 0 && SizeField(hashSize)[15] as int == hashSize / 256
  {
  }

  /** The length field, byte by byte. */
  lemma LengthFieldBytes(bits: u32)
    ensures Epi32(LengthField(bits), 0) == bits as bv32
    ensures forall p :: 4 <= p < 16 ==> LengthField(bits)[p] == 0
  {
    Set4Low(bits as bv32);
  }

  // ---------------------------------------------------------------------
  // The closing counter

  /** `m512_const2_64(0, -1024)`: minus one full block of 1024 bits in the
      low 64 bits. */
  const MinusFullBlock: Counter := FromHalves(Wrap64(-1024), 0)

  /** The counter the closing compression starts from, given the counter
      before `echo_4way_update_close`: the remaining bits are added and the
      per-block increment is taken off, so that the compression's own
      increment brings it back. */
  function ClosingCounter(k: Counter, remaining: Counter, blockIncrement: Counter): Counter
  {
    SubEpi64(AddEpi64(k, remaining), blockIncrement)
  }

  /** The closing compression sees the counter before the close advanced by
      the remaining bits: the correction and the compression's increment
      cancel. */
  lemma ClosingCounterSeen(k: Counter, remaining: Counter, blockIncrement: Counter)
    ensures AddEpi64(ClosingCounter(k, remaining, blockIncrement), blockIncrement) == AddEpi64(k, remaining)
  {
    AddUndoesSub(AddEpi64(k, remaining), blockIncrement);
  }

  /** On the short path the counter seen by the closing compression is the
      counter before the close plus the message bits, modulo 2^64, in its low
      half; its high half is unchanged. */
  lemma ShortCloseCounter(k: Counter, databitlen: u32, blockIncrement: Counter)
    ensures Lo64(AddEpi64(ClosingCounter(k, Counter(databitlen, 0, 0, 0), blockIncrement), blockIncrement)) ==
      Wrap64(Lo64(k) + databitlen)
    ensures Hi64(AddEpi64(ClosingCounter(k, Counter(databitlen, 0, 0, 0), blockIncrement), blockIncrement)) == Hi64(k)
  {
    var rem := Counter(databitlen, 0, 0, 0);
    ClosingCounterSeen(k, rem, blockIncrement);
    var seen := AddEpi64(k, rem);
    assert Lo64(rem) == databitlen && Hi64(rem) == 0;
    assert Lo64(seen) == Wrap64(Lo64(k) + databitlen);
    assert Hi64(seen) == Wrap64(Hi64(k));
    Wrap64InRange(Hi64(k));
  }

  /** On the full-block path of a fresh ECHO-512 context the counter is 0
      again for the closing compression: the block's compression adds 1024,
      the correction takes it off. */
  lemma FullCloseCounterFromFresh()
    ensures AddEpi64(ClosingCounter(AddEpi64(CounterZero, Counter(0x400, 0, 0, 0)), MinusFullBlock, Counter(0x400, 0, 0, 0)),
      Counter(0x400, 0, 0, 0)) == CounterZero
  {
    var inc := Counter(0x400, 0, 0, 0);
    var k1 := AddEpi64(CounterZero, inc);
    Wrap64InRange(0x400);
    Wrap64InRange(0);
    assert Lo64(k1) == 0x400 && Hi64(k1) == 0;
    var minus := MinusFullBlock;
    assert Wrap64(-1024) == Two64 - 0x400;
    assert Lo64(minus) == Two64 - 0x400 && Hi64(minus) == 0;
    var seen := AddEpi64(k1, minus);
    assert Wrap64(Two64) == 0;
    assert Lo64(seen) == 0 && Hi64(seen) == 0;
    HalvesDetermine(seen, CounterZero);
    ClosingCounterSeen(k1, minus, inc);
  }

  /** The digest `echo_4way_update_close` stores: the first column of the
      state, two cells for ECHO-256 and four for ECHO-512. */
  function Digest(g: Grid, hashSize: int): (r: seq<Lane>)
    ensures 128 * |r| == (if hashSize == 512 then 512 else 256)
    ensures forall i :: 0 <= i < |r| ==> r[i] == g[4 * i]
  {
    if hashSize == 512 then [g[0], g[4], g[8], g[12]] else [g[0], g[4]]
  }

  // ---------------------------------------------------------------------
  // The context

  /** `echo_4way_context` on one lane. */
  class EchoContext {
    var state: array<Lane>
    var k: Counter
    var processedBits: u32
    var bufferBytes: int
    var hashSize: nat
    var blockLength: nat
    var rounds: nat
    var sizeWord: Lane
    var blockIncrement: Counter
    var buffer: array<Lane>

    /** The two arrays have their sizes and are distinct. */
    ghost predicate Valid()
      reads this
    {
      state.Length == 16 && buffer.Length == BufferCells && state != buffer
    }

    /** The configuration fields hold what `echo_4way_init` sets for
        `hashSize`. */
    predicate Configured()
      reads this
    {
      ConfigFor(hashSize) == Some(EchoConfig(blockLength, rounds, sizeWord, blockIncrement))
    }

    /** The final message `echo_4way_update_close` accepts: a whole number
        of 128-bit cells, either one full 1024-bit block of ECHO-512 or few
        enough cells to leave room for the marker, the size field and the
        bit count in one block. */
    predicate TailFits(data: array<Lane>, databitlen: int)
      reads this
    {
      0 <= databitlen && databitlen % 128 == 0 &&
      if databitlen == 1024 then hashSize == 512 && data.Length >= 8
      else databitlen / 128 <= blockLength / 16 - 3 && data.Length >= databitlen / 128
    }

    /** The configuration fields as one value. */
    function Config(): (EchoConfig, int)
      reads this
    {
      (EchoConfig(blockLength, rounds, sizeWord, blockIncrement), hashSize)
    }

    /** The storage of an `echo_4way_context`, before `echo_4way_init`. */
    constructor ()
      ensures Valid() && fresh(state) && fresh(buffer)
    {
      state := new Lane[16](_ => Zero);
      buffer := new Lane[BufferCells](_ => Zero);
    }

    /** `echo_4way_init`: the counter, bit count and buffer fill are reset
        in every case; a size other than 256 or 512 is rejected with 1 and
        leaves the rest as it was; otherwise the configuration for the size
        is set and the initial chaining state laid out. */
    method Init(nHashSize: int) returns (rc: int)
      requires Valid()
      modifies this, state
      ensures Valid() && state == old(state) && buffer == old(buffer)
      ensures rc == (if nHashSize == 256 || nHashSize == 512 then 0 else 1)
      ensures k == CounterZero && processedBits == 0 && bufferBytes == 0
      ensures rc == 0 ==> hashSize == nHashSize && Configured()
      ensures rc == 0 ==> state[..] == InitialState(sizeWord, nHashSize / 256)
      ensures rc != 0 ==> Config() == old(Config()) && state[..] == old(state[..])
    {
      k := CounterZero;
      processedBits := 0;
      bufferBytes := 0;
      if nHashSize == 256 {
        hashSize, blockLength, rounds := 256, 192, 8;
        sizeWord := Set4Epi32(0, 0, 0, 0x100);
        blockIncrement := Counter(0x600, 0, 0, 0);
      } else if nHashSize == 512 {
        hashSize, blockLength, rounds := 512, 128, 10;
        sizeWord := Set4Epi32(0, 0, 0, 0x200);
        blockIncrement := Counter(0x400, 0, 0, 0);
      } else {
        return 1;
      }
      LayOut(state, sizeWord, nHashSize / 256);
      rc := 0;
    }

    /** `echo_4way_compress` with one block: the counter advances by the
        per-block increment, the block is loaded into the free columns, the
        rounds run in pairs between two local grids and BIG.Final folds the
        result with the loaded grid.  Only the chaining state and the
        counter change. */
    method Compress(msg: array<Lane>, aes: AesRound)
      requires Valid() && Configured() && msg.Length >= 4 * (4 - hashSize / 256)
      modifies this, state
      ensures Valid() && state == old(state) && buffer == old(buffer)
      ensures Config() == old(Config()) && processedBits == old(processedBits) && bufferBytes == old(bufferBytes)
      ensures k == AddEpi64(old(k), blockIncrement)
      ensures state[..] == CompressSpec(old(state[..]), k, old(msg[..]), hashSize, rounds, aes)
    {
      k := AddEpi64(k, blockIncrement);
      CompressBlock(state, msg, k, hashSize, rounds, aes);
    }

    /** `echo_4way_update_close` for a final message of `databitlen` bits:
        either a full 1024-bit block of ECHO-512, compressed as it is before
        an empty padding block, or a short message copied into the buffer.
        The padding block gets the marker, zero cells, the size field and
        the total bit count; the counter is corrected so that the closing
        compression sees it advanced by exactly the remaining bits; the
        digest is the first column of the final state. */
    method UpdateClose(hashval: array<Lane>, data: array<Lane>, databitlen: int, aes: AesRound) returns (rc: int)
      requires Valid() && Configured() && TailFits(data, databitlen)
      requires data != buffer && hashval != state && hashval != buffer && hashval.Length >= hashSize / 128
      modifies this, state, buffer, hashval
      ensures Valid() && state == old(state) && buffer == old(buffer)
      ensures Config() == old(Config()) && bufferBytes == old(bufferBytes)
      ensures hashSize == old(hashSize) && blockLength == old(blockLength)
      ensures rc == 0
      ensures processedBits == (if databitlen == 1024 then 1024 else Wrap32(old(processedBits) + databitlen))
      ensures buffer[..blockLength / 16] ==
        PaddingBlock(if databitlen == 1024 then [] else old(data[..databitlen / 128]), blockLength / 16, hashSize, processedBits)
      ensures buffer[blockLength / 16..] == old(buffer[blockLength / 16..])
      ensures databitlen != 1024 ==> k == AddEpi64(old(k), Counter(databitlen, 0, 0, 0))
      ensures databitlen != 1024 ==>
        state[..] == CompressSpec(old(state[..]), k, buffer[..], hashSize, rounds, aes)
      ensures databitlen == 1024 ==> k == AddEpi64(AddEpi64(old(k), blockIncrement), MinusFullBlock)
      ensures databitlen == 1024 ==>
        state[..] == CompressSpec(CompressSpec(old(state[..]), AddEpi64(old(k), blockIncrement), old(data[..]), hashSize, rounds, aes),
          k, buffer[..], hashSize, rounds, aes)
      ensures hashval[..hashSize / 128] == Digest(state[..], hashSize)
      ensures hashval[hashSize / 128..] == old(hashval[hashSize / 128..])
    {
      ghost var sized := hashSize == 256 || hashSize == 512;
      assert sized;
      var vlen, remaining := TakeTail(data, databitlen, aes);
      FinishClose(vlen, remaining, aes);
      StoreDigest(hashval, state, hashSize);
      rc := 0;
    }

    /** The second part of `echo_4way_update_close`: the padding block is
        built after the `vlen` message cells already in the buffer, the
        counter corrected so that the closing compression sees it advanced
        by `remaining`, and that compression run on the buffer. */
    method FinishClose(vlen: nat, remaining: Counter, aes: AesRound)
      requires Valid() && Configured() && vlen + 3 <= blockLength / 16
      modifies this, state, buffer
      ensures Valid() && state == old(state) && buffer == old(buffer)
      ensures Config() == old(Config()) && processedBits == old(processedBits) && bufferBytes == old(bufferBytes)
      ensures buffer[..blockLength / 16] == PaddingBlock(old(buffer[..vlen]), blockLength / 16, hashSize, processedBits)
      ensures buffer[blockLength / 16..] == old(buffer[blockLength / 16..])
      ensures k == AddEpi64(old(k), remaining)
      ensures state[..] == CompressSpec(old(state[..]), k, buffer[..], hashSize, rounds, aes)
    {
      ConfigForSizes(hashSize);
      var vblen := blockLength / 16;
      ghost var kBefore := k;
      BuildPadding(buffer, vlen, vblen, hashSize, processedBits);
      k := AddEpi64(k, remaining);
      k := SubEpi64(k, blockIncrement);
      ClosingCounterSeen(kBefore, remaining, blockIncrement);
      Compress(buffer, aes);
    }

    /** The first part of `echo_4way_update_close`: a full 1024-bit block is
      compressed as it is and counts as the whole message; a short message
      is copied into the buffer and its bits added to the count.  Returns
      the number of message cells in the buffer and the remaining bits the
      counter still has to take. */
    method TakeTail(data: array<Lane>, databitlen: int, aes: AesRound) returns (vlen: nat, remaining: Counter)
      requires Valid() && Configured() && TailFits(data, databitlen)
      requires data != buffer
      modifies this, state, buffer
      ensures Valid() && state == old(state) && buffer == old(buffer)
      ensures Config() == old(Config()) && bufferBytes == old(bufferBytes)
      ensures vlen == (if databitlen == 1024 then 0 else databitlen / 128)
      ensures buffer[..vlen] == old(data[..vlen]) && buffer[vlen..] == old(buffer[vlen..])
      ensures vlen <= blockLength / 16 && buffer[blockLength / 16..] == old(buffer[blockLength / 16..])
      ensures processedBits == (if databitlen == 1024 then 1024 else Wrap32(old(processedBits) + databitlen))
      ensures remaining == (if databitlen == 1024 then MinusFullBlock else Counter(databitlen, 0, 0, 0))
      ensures databitlen != 1024 ==> k == old(k) && state[..] == old(state[..])
      ensures databitlen == 1024 ==> k == AddEpi64(old(k), blockIncrement)
      ensures databitlen == 1024 ==> state[..] == CompressSpec(old(state[..]), k, old(data[..]), hashSize, rounds, aes)
    {
      if databitlen == 1024 {
        Compress(data, aes);
        processedBits := 1024;
        remaining := MinusFullBlock;
        vlen := 0;
      } else {
        vlen := databitlen / 128;
        CopyCells(buffer, data, vlen);
        processedBits := Wrap32(processedBits + databitlen);
        remaining := Counter(databitlen, 0, 0, 0);
      }
    }
  }

  /** The padding steps of `echo_4way_update_close` on a buffer whose
      first `vlen` cells hold the message: the marker, `memset_zero_512` up
      to the size field, the size field and the length field. */
  method BuildPadding(buffer: array<Lane>, vlen: nat, vblen: nat, hashSize: nat, bits: u32)
    requires vlen + 3 <= vblen <= buffer.Length && hashSize < 0x1_0000
    modifies buffer
    ensures buffer[..vblen] == PaddingBlock(old(buffer[..vlen]), vblen, hashSize, bits)
    ensures buffer[vblen..] == old(buffer[vblen..])
  {
    ghost var prefix := buffer[..vlen];
    buffer[vlen] := Marker;
    ZeroCells(buffer, vlen + 1, vblen - vlen - 2);
    buffer[vblen - 2] := SizeField(hashSize);
    buffer[vblen - 1] := LengthField(bits);
    forall n | 0 <= n < vblen
      ensures buffer[n] == PaddingBlock(prefix, vblen, hashSize, bits)[n]
    {
      if n < vlen {
        assert buffer[n] == prefix[n];
      }
    }
  }

  /** The digest stores of `echo_4way_update_close`: cells [0][0] and
      [1][0] of the state, and [2][0] and [3][0] for ECHO-512. */
  method StoreDigest(hashval: array<Lane>, state: array<Lane>, hashSize: nat)
    requires state.Length == 16 && hashval != state && (hashSize == 256 || hashSize == 512) && hashval.Length >= hashSize / 128
    modifies hashval
    ensures hashval[..hashSize / 128] == Digest(state[..], hashSize)
    ensures hashval[hashSize / 128..] == old(hashval[hashSize / 128..])
  {
    hashval[0] := state[0];
    hashval[1] := state[4];
    if hashSize == 512 {
      hashval[2] := state[8];
      hashval[3] := state[12];
    }
  }

  /** The two double loops of `echo_4way_init`: columns j < c of every row
      get the size word, the other columns zero. */
  method LayOut(state: array<Lane>, sizeWord: Lane, c: nat)
    requires state.Length == 16 && c <= 4
    modifies state
    ensures state[..] == InitialState(sizeWord, c)
  {
    for i := 0 to 4
      invariant forall n :: 0 <= n < 4 * i && n % 4 < c ==> state[n] == sizeWord
    {
      for j := 0 to c
        invariant forall n :: 0 <= n < 4 * i && n % 4 < c ==> state[n] == sizeWord
        invariant forall n :: 4 * i <= n < 4 * i + j ==> state[n] == sizeWord
      {
        state[4 * i + j] := sizeWord;
      }
    }
    for i := 0 to 4
      invariant forall n :: 0 <= n < 16 && n % 4 < c ==> state[n] == sizeWord
      invariant forall n :: 0 <= n < 4 * i && n % 4 >= c ==> state[n] == Zero
    {
      for j := c to 4
        invariant forall n :: 0 <= n < 16 && n % 4 < c ==> state[n] == sizeWord
        invariant forall n :: 0 <= n < 4 * i && n % 4 >= c ==> state[n] == Zero
        invariant forall n :: 4 * i + c <= n < 4 * i + j ==> state[n] == Zero
      {
        state[4 * i + j] := Zero;
      }
    }
  }

  /** `memcpy_512(dst, src, n)`: the first n cells of `src` copied to `dst`. */
  method CopyCells(dst: array<Lane>, src: array<Lane>, n: nat)
    requires n <= dst.Length && n <= src.Length && dst != src
    modifies dst
    ensures dst[..n] == src[..n] && dst[n..] == old(dst[n..])
  {
    for i := 0 to n
      invariant dst[..i] == src[..i] && dst[i..] == old(dst[i..])
    {
      dst[i] := src[i];
    }
  }

  /** `memset_zero_512(dst + from, count)`: `count` cells from `from` on set
      to zero. */
  method ZeroCells(dst: array<Lane>, from: nat, count: nat)
    requires from + count <= dst.Length
    modifies dst
    ensures forall n :: from <= n < from + count ==> dst[n] == Zero
    ensures forall n :: 0 <= n < dst.Length && !(from <= n < from + count) ==> dst[n] == old(dst[n])
  {
    for i := from to from + count
      invariant forall n :: from <= n < i ==> dst[n] == Zero
      invariant forall n :: 0 <= n < dst.Length && !(from <= n < i) ==> dst[n] == old(dst[n])
    {
      dst[i] := Zero;
    }
  }
}
