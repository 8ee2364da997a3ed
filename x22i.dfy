/** The x22i proof-of-work hash of x22i.c: the byte-buffer dataflow of
    `x22i_hash` around its 22 hash primitives, and the nonce scan of
    `scanhash_x22i`.  The primitives themselves are foreign code; each is a
    function field of `Primitives` whose output has the width the source's
    buffers rely on. */
module X22i {
  import opened Machine

  type Bytes = seq<u8>
  type Bytes64 = s: seq<u8> | |s| == 64 witness seq(64, _ => 0)
  type Bytes65 = s: seq<u8> | |s| == 65 witness seq(65, _ => 0)
  type Bytes32 = s: seq<u8> | |s| == 32 witness seq(32, _ => 0)
  type Bytes24 = s: seq<u8> | |s| == 24 witness seq(24, _ => 0)

  /** The 22 hash primitives, each mapping the bytes it reads to the digest
      it writes: 64 bytes for the 512-bit hashes, 65 for SWIFFTX, 32 for
      HAVAL-256/5, LYRA2RE (asked for 32 bytes) and SHA-256, 24 for Tiger.
      LYRA2RE takes a password and a salt. */
  datatype Primitives = Primitives(
    blake: Bytes -> Bytes64, bmw: Bytes -> Bytes64, groestl: Bytes -> Bytes64,
    skein: Bytes -> Bytes64, jh: Bytes -> Bytes64, keccak: Bytes -> Bytes64,
    luffa: Bytes -> Bytes64, cubehash: Bytes -> Bytes64, shavite: Bytes -> Bytes64,
    simd: Bytes -> Bytes64, echo: Bytes -> Bytes64, hamsi: Bytes -> Bytes64,
    fugue: Bytes -> Bytes64, shabal: Bytes -> Bytes64, whirlpool: Bytes -> Bytes64,
    sha512: Bytes -> Bytes64, swifftx: Bytes -> Bytes65, haval: Bytes -> Bytes32,
    tiger: Bytes -> Bytes24, lyra2re: (Bytes, Bytes) -> Bytes32,
    gost: Bytes -> Bytes64, sha256: Bytes -> Bytes32)

  function Zeros(n: nat): (r: seq<u8>)
    ensures |r| == n && forall i :: 0 <= i < n ==> r[i] == 0
  {
    seq(n, _ => 0)
  }

  // ---------------------------------------------------------------------
  // The dataflow of x22i_hash, stage by stage on values

  /** The thirteen chained 512-bit stages, blake through fugue, each
      hashing the 64-byte digest of the one before. */
  function Chain512(p: Primitives, input: Bytes): Bytes64
  {
    p.fugue(p.hamsi(p.echo(p.simd(p.shavite(p.cubehash(p.luffa(
      p.keccak(p.jh(p.skein(p.groestl(p.bmw(p.blake(input)))))))))))))
  }

  /** The 256 bytes SWIFFTX hashes: the fugue digest, then shabal of it,
      whirlpool of that, SHA-512 of that, in four 64-byte segments. */
  function SwifftxInput(p: Primitives, input: Bytes): seq<u8>
  {
    var f := Chain512(p, input);
    var s := p.shabal(f);
    var w := p.whirlpool(s);
    f + s + w + p.sha512(w)
  }

  /** The x22i digest.  HAVAL hashes the first 64 bytes of the SWIFFTX
      output; Tiger hashes the HAVAL digest followed by 32 zero bytes;
      LYRA2RE takes the Tiger digest followed by 8 zero bytes as both
      password and salt; GOST hashes the LYRA2RE output followed by 32 zero
      bytes; SHA-256 of the GOST digest is the result. */
  function X22iDigest(p: Primitives, input: Bytes): Bytes32
  {
    var sw := p.swifftx(SwifftxInput(p, input));
    var hv := p.haval(sw[..64]);
    var tg := p.tiger(hv + Zeros(32));
    var ly := p.lyra2re(tg + Zeros(8), tg + Zeros(8));
    p.sha256(p.gost(ly + Zeros(32)))
  }

  // ---------------------------------------------------------------------
  // x22i_hash on its two byte buffers

  /** A primitive's `close` writing its digest into `buf` at offset `at`. */
  method Absorb(buf: array<u8>, at: nat, data: seq<u8>)
    requires at + |data| <= buf.Length
    modifies buf
    ensures buf[at..at + |data|] == data
    ensures buf[..at] == old(buf[..at]) && buf[at + |data|..] == old(buf[at + |data|..])
  {
    forall i | at <= i < at + |data| {
      buf[i] := data[i - at];
    }
  }

  /** `memset(buf, 0, count)`. */
  method Clear(buf: array<u8>, count: nat)
    requires count <= buf.Length
    modifies buf
    ensures buf[..count] == Zeros(count) && buf[count..] == old(buf[count..])
  {
    forall i | 0 <= i < count {
      buf[i] := 0;
    }
  }

  /** `memset(buf, 0, 64)` followed by a primitive writing its narrower
      digest at the start: the digest, then zeros up to byte 64. */
  method Refill(buf: array<u8>, data: seq<u8>)
    requires |data| <= 64 <= buf.Length
    modifies buf
    ensures buf[..64] == data + Zeros(64 - |data|) && buf[64..] == old(buf[64..])
  {
    Clear(buf, 64);
    ghost var cleared := buf[..];
    Absorb(buf, 0, data);
    assert buf[|data|..64] == cleared[|data|..64];
    assert buf[..64] == buf[..|data|] + buf[|data|..64];
  }

  /** The thirteen 512-bit stages, each reading and rewriting hash[0..64). */
  method ChainStages(p: Primitives, hash: array<u8>, input: Bytes)
    requires hash.Length == 256
    modifies hash
    ensures hash[..64] == Chain512(p, input) && hash[64..] == old(hash[64..])
  {
    Absorb(hash, 0, p.blake(input));
    Absorb(hash, 0, p.bmw(hash[..64]));
    Absorb(hash, 0, p.groestl(hash[..64]));
    Absorb(hash, 0, p.skein(hash[..64]));
    Absorb(hash, 0, p.jh(hash[..64]));
    Absorb(hash, 0, p.keccak(hash[..64]));
    Absorb(hash, 0, p.luffa(hash[..64]));
    Absorb(hash, 0, p.cubehash(hash[..64]));
    Absorb(hash, 0, p.shavite(hash[..64]));
    Absorb(hash, 0, p.simd(hash[..64]));
    Absorb(hash, 0, p.echo(hash[..64]));
    Absorb(hash, 0, p.hamsi(hash[..64]));
    Absorb(hash, 0, p.fugue(hash[..64]));
  }

  /** shabal, whirlpool and SHA-512 writing the upper three quarters of
      `hash` at offsets 64, 128 and 192, each reading the segment below. */
  method SwifftxStages(p: Primitives, hash: array<u8>, ghost input: Bytes)
    requires hash.Length == 256 && hash[..64] == Chain512(p, input)
    modifies hash
    ensures hash[..] == SwifftxInput(p, input)
  {
    Absorb(hash, 64, p.shabal(hash[..64]));
    assert hash[..64] == Chain512(p, input);
    Absorb(hash, 128, p.whirlpool(hash[64..128]));
    assert hash[..64] == Chain512(p, input);
    assert hash[64..128] == p.shabal(Chain512(p, input));
    Absorb(hash, 192, p.sha512(hash[128..192]));
    assert hash[..64] == Chain512(p, input);
    assert hash[64..128] == p.shabal(Chain512(p, input));
    assert hash[..] == hash[..64] + hash[64..128] + hash[128..192] + hash[192..256];
  }

  /** `x22i_hash`: both buffers start zeroed; the output is the first 32
      bytes of `hash` at the end.  The buffer offsets and the `memset`
      clears give exactly the dataflow of `X22iDigest`. */
  method X22iHash(p: Primitives, input: Bytes) returns (output: seq<u8>)
    ensures output == X22iDigest(p, input)
  {
    var hash := new u8[256](_ => 0);
    var hash2 := new u8[65](_ => 0);
    ChainStages(p, hash, input);
    SwifftxStages(p, hash, input);
    var sw := p.swifftx(hash[..]);
    Absorb(hash2, 0, sw);
    assert hash2[..64] == sw[..64];
    var hv := p.haval(hash2[..64]);
    Refill(hash, hv);
    var tg := p.tiger(hash[..64]);
    Refill(hash2, tg);
    assert hash2[..32] == tg + Zeros(8);
    var ly := p.lyra2re(hash2[..32], hash2[..32]);
    Refill(hash, ly);
    Absorb(hash, 0, p.gost(hash[..64]));
    Absorb(hash, 0, p.sha256(hash[..64]));
    output := hash[..32];
  }

  // ---------------------------------------------------------------------
  // Byte order of the header and of the result

  /** `be32enc`: a 32-bit word as four bytes, most significant first. */
  function Be32(v: u32): (r: seq<u8>)
    ensures |r| == 4
  {
    [(v / 0x100 / 0x100 / 0x100), (v / 0x100 / 0x100 % 0x100), (v / 0x100 % 0x100), (v % 0x100)]
  }

  /** Four bytes read back as a big-endian 32-bit word. */
  function FromBe32(b: seq<u8>): u32
    requires |b| == 4
  {
    ((b[0] as int * 0x100 + b[1]) * 0x100 + b[2]) * 0x100 + b[3]
  }

  /** `be32enc` loses nothing: its bytes give the word back. */
  lemma Be32RoundTrip(v: u32)
    ensures FromBe32(Be32(v)) == v
  {
    var q1 := v / 0x100;
    var q2 := q1 / 0x100;
    assert v == q1 * 0x100 + v % 0x100;
    assert q1 == q2 * 0x100 + q1 % 0x100;
    assert q2 == q2 / 0x100 * 0x100 + q2 % 0x100;
  }

  /** Every four bytes are the `be32enc` of some word: reading them as a
      big-endian word and encoding it again gives them back. */
  lemma FromBe32RoundTrip(b: seq<u8>)
    requires |b| == 4
    ensures Be32(FromBe32(b)) == b
  {
    var q2 := b[0] as int * 0x100 + b[1];
    var q1 := q2 * 0x100 + b[2];
    var v := FromBe32(b);
    assert v == q1 * 0x100 + b[3];
    assert v / 0x100 == q1 && v % 0x100 == b[3];
    assert q1 / 0x100 == q2 && q1 % 0x100 == b[2];
    assert q2 / 0x100 == b[0] && q2 % 0x100 == b[1];
  }

  /** A sequence of words, each stored big-endian, one after the other. */
  function BeBytes(words: seq<u32>): (r: seq<u8>)
    ensures |r| == 4 * |words|
  {
    if words == [] then [] else BeBytes(words[..|words| - 1]) + Be32(words[|words| - 1])
  }

  /** Word k of the sequence sits, big-endian, in bytes 4k to 4k + 3. */
  lemma {:induction false} BeBytesWord(words: seq<u32>, k: nat)
    requires k < |words|
    ensures BeBytes(words)[4 * k..4 * k + 4] == Be32(words[k])
  {
    var init := words[..|words| - 1];
    if k < |words| - 1 {
      BeBytesWord(init, k);
      assert BeBytes(words)[4 * k..4 * k + 4] == BeBytes(init)[4 * k..4 * k + 4];
    }
  }

  /** The 80-byte block `x22i_hash` reads: the first 19 header words and
      the nonce, each big-endian. */
  function HeaderBytes(header: seq<u32>, n: u32): seq<u8>
    requires |header| == 19
  {
    BeBytes(header + [n])
  }

  /** The 32 output bytes read as the `uint32_t hash[8]` they are copied
      into, on a little-endian machine. */
  function LeWords(b: seq<u8>): (r: seq<u32>)
    requires |b| == 32
    ensures |r| == 8
  {
    seq(8, i requires 0 <= i < 8 =>
      b[4 * i] as int + b[4 * i + 1] as int * 0x100 + b[4 * i + 2] as int * 0x1_0000 + b[4 * i + 3] as int * 0x100_0000)
  }

  /** Reading the output as little-endian words loses nothing: each word,
      written most significant byte first, is its four bytes in reverse. */
  lemma LeWordsBytes(b: seq<u8>)
    requires |b| == 32
    ensures forall i :: 0 <= i < 8 ==> Be32(LeWords(b)[i]) == [b[4 * i + 3], b[4 * i + 2], b[4 * i + 1], b[4 * i]]
  {
    forall i | 0 <= i < 8
      ensures Be32(LeWords(b)[i]) == [b[4 * i + 3], b[4 * i + 2], b[4 * i + 1], b[4 * i]]
    {
      var r := [b[4 * i + 3], b[4 * i + 2], b[4 * i + 1], b[4 * i]];
      assert LeWords(b)[i] == FromBe32(r);
      FromBe32RoundTrip(r);
    }
  }

  // ---------------------------------------------------------------------
  // The nonce scan

  /** What `submit_solution` receives: the nonce in the work data and the
      hash that met the target. */
  datatype Solution = Solution(nonce: u32, hash: seq<u32>)

  /** The hash words of the header with nonce `n`. */
  function NonceHash(p: Primitives, header: seq<u32>, n: u32): (r: seq<u32>)
    requires |header| == 19
    ensures |r| == 8
  {
    LeWords(X22iDigest(p, HeaderBytes(header, n)))
  }

  /** Every nonce tried, with its hash, in the order tried. */
  function Candidates(p: Primitives, header: seq<u32>, tried: seq<u32>): (r: seq<Solution>)
    requires |header| == 19
    ensures |r| == |tried|
  {
    seq(|tried|, i requires 0 <= i < |tried| => Solution(tried[i], NonceHash(p, header, tried[i])))
  }

  /** The two-step target test and the benchmark switch that guard
      `submit_solution`; the hash test uses the target word read before
      benchmark mode overwrote it, the full test the target as it is. */
  predicate Submits(h: seq<u32>, htarg: u32, target: seq<u32>, fulltest: (seq<u32>, seq<u32>) -> bool, benchmark: bool)
  {
    |h| == 8 && h[7] < htarg && fulltest(h, target) && !benchmark
  }

  /** The candidates that pass the guard, in order. */
  function Submissions(cands: seq<Solution>, htarg: u32, target: seq<u32>,
                       fulltest: (seq<u32>, seq<u32>) -> bool, benchmark: bool): seq<Solution>
  {
    if cands == [] then []
    else
      var rest := Submissions(cands[..|cands| - 1], htarg, target, fulltest, benchmark);
      var c := cands[|cands| - 1];
      if Submits(c.hash, htarg, target, fulltest, benchmark) then rest + [c] else rest
  }

  /** The nonces of the first |t| iterations of the do-while loop, each
      iteration but the last having gone on: iteration i hashes first_nonce
      incremented i times, and the loop went on after it only because that
      nonce was below max_nonce and the restart flag, read after it, was
      clear. */
  ghost predicate Steps(t: seq<u32>, first: u32, maxNonce: u32, restart: nat -> bool)
  {
    (forall i :: 0 <= i < |t| ==> t[i] == NonceAfter(first, i + 1)) &&
    (forall i :: 1 <= i < |t| ==> NonceAfter(first, i) < maxNonce && !restart(i))
  }

  /** The whole run: the loop stopped after its last iteration because
      that nonce reached max_nonce or the restart flag was set. */
  ghost predicate Tried(t: seq<u32>, first: u32, maxNonce: u32, restart: nat -> bool)
  {
    Steps(t, first, maxNonce, restart) && |t| >= 1 && (NonceAfter(first, |t|) >= maxNonce || restart(|t|))
  }

  /** `scanhash_x22i`.  The flag `work_restart[thr_id].restart` is the
      function `restart`, whose value at i is what the loop reads after its
      i-th iteration; `opt_benchmark` is `benchmark`; `fulltest` is the
      full target test; the submitted solutions are returned in order.
      `InitializeSWIFFTX` sets up tables and is not modelled. */
  method ScanHash(p: Primitives, pdata: array<u32>, ptarget: array<u32>, maxNonce: u32, benchmark: bool,
                  restart: nat -> bool, fulltest: (seq<u32>, seq<u32>) -> bool)
    returns (rc: int, hashesDone: u64, submitted: seq<Solution>, ghost tried: seq<u32>)
    requires pdata.Length >= 20 && ptarget.Length >= 8 && pdata != ptarget
    modifies pdata, ptarget
    ensures rc == 0
    ensures Tried(tried, old(pdata[19]), maxNonce, restart)
    ensures hashesDone == |tried| % Two32
    ensures pdata[..] == old(pdata[..])[19 := tried[|tried| - 1]]
    ensures ptarget[..] == if benchmark then old(ptarget[..])[7 := 0x08ff] else old(ptarget[..])
    ensures submitted == Submissions(Candidates(p, old(pdata[..19]), tried), old(ptarget[7]), ptarget[..8], fulltest, benchmark)
  {
    var first := pdata[19];
    var htarg := ptarget[7];
    if benchmark {
      ptarget[7] := 0x08ff;
    }
    var endiandata := new u8[80];
    EncodeHeader(endiandata, pdata);
    ghost var header := pdata[..19];
    assert pdata[..20] == header + [first];
    HeaderBytesSplit(header, first);
    submitted, tried := ScanLoop(p, pdata, endiandata, header, maxNonce, htarg, ptarget[..8], benchmark, restart, fulltest);
    HashesDoneCount(first, |tried|);
    hashesDone := Sub32(pdata[19], first);
    rc := 0;
  }

  /** The do-while loop of `scanhash_x22i`: the nonce in the work data and
      in `endiandata` advanced, the header hashed and tested, until the
      nonce reaches max_nonce or the restart flag is set. */
  method ScanLoop(p: Primitives, pdata: array<u32>, endiandata: array<u8>, ghost header: seq<u32>, maxNonce: u32,
                  htarg: u32, target: seq<u32>, benchmark: bool, restart: nat -> bool,
                  fulltest: (seq<u32>, seq<u32>) -> bool)
    returns (submitted: seq<Solution>, ghost tried: seq<u32>)
    requires pdata.Length >= 20 && endiandata.Length == 80 && |header| == 19 && endiandata[..76] == BeBytes(header)
    modifies pdata, endiandata
    ensures Tried(tried, old(pdata[19]), maxNonce, restart)
    ensures pdata[..] == old(pdata[..])[19 := tried[|tried| - 1]] && pdata[19] == NonceAfter(old(pdata[19]), |tried|)
    ensures endiandata[..] == HeaderBytes(header, pdata[19])
    ensures submitted == Submissions(Candidates(p, header, tried), htarg, target, fulltest, benchmark)
  {
    var first := pdata[19];
    var n: u32 := first;
    submitted := [];
    tried := [];
    var iterations: nat := 0;
    var done := false;
    while !done
      invariant iterations == |tried| && n == NonceAfter(first, |tried|)
      invariant pdata[..] == old(pdata[..])[19 := n]
      invariant endiandata[..76] == BeBytes(header)
      invariant tried != [] ==> endiandata[..] == HeaderBytes(header, n)
      invariant Steps(tried, first, maxNonce, restart)
      invariant if tried == [] then !done else n == tried[|tried| - 1]
      invariant done ==> Tried(tried, first, maxNonce, restart)
      invariant !done && tried != [] ==> n < maxNonce && !restart(|tried|)
      invariant submitted == Submissions(Candidates(p, header, tried), htarg, target, fulltest, benchmark)
      decreases if done then 0 else if tried == [] then Two32 + 1 else maxNonce - n
    {
      n := Inc32(n);
      pdata[19] := n;
      var found := TryNonce(p, endiandata, header, n, htarg, target, fulltest, benchmark);
      StepsNext(tried, first, maxNonce, restart);
      CandidatesNext(p, header, tried, n);
      SubmissionsNext(Candidates(p, header, tried), Solution(n, NonceHash(p, header, n)), htarg, target, fulltest, benchmark);
      submitted := submitted + found;
      tried := tried + [n];
      iterations := iterations + 1;
      done := !(n < maxNonce && !restart(iterations));
    }
  }

  /** One pass of the scan loop after the nonce update: the nonce stored
      big-endian in `endiandata`, the header hashed, and the solution
      handed on when both target tests pass outside benchmark mode. */
  method TryNonce(p: Primitives, endiandata: array<u8>, ghost header: seq<u32>, n: u32, htarg: u32, target: seq<u32>,
                  fulltest: (seq<u32>, seq<u32>) -> bool, benchmark: bool) returns (found: seq<Solution>)
    requires endiandata.Length == 80 && |header| == 19 && endiandata[..76] == BeBytes(header)
    modifies endiandata
    ensures endiandata[..] == HeaderBytes(header, n) && endiandata[..76] == BeBytes(header)
    ensures found == Submissions([Solution(n, NonceHash(p, header, n))], htarg, target, fulltest, benchmark)
  {
    EncodeNonce(endiandata, header, n);
    var out := X22iHash(p, endiandata[..]);
    var h := LeWords(out);
    found := [];
    if h[7] < htarg {
      if fulltest(h, target) && !benchmark {
        found := [Solution(n, h)];
      }
    }
  }

  /** The header loop of `scanhash_x22i`: every word of the work data,
      byte-swapped into `endiandata`. */
  method EncodeHeader(endiandata: array<u8>, pdata: array<u32>)
    requires endiandata.Length == 80 && pdata.Length >= 20
    modifies endiandata
    ensures endiandata[..] == BeBytes(pdata[..20])
  {
    var k := 0;
    while k < 20
      invariant 0 <= k <= 20 && endiandata[..4 * k] == BeBytes(pdata[..k])
    {
      StoreAt(endiandata, 4 * k, Be32(pdata[k]));
      assert pdata[..k + 1][..k] == pdata[..k];
      k := k + 1;
    }
    assert endiandata[..] == endiandata[..80];
  }

  /** `be32enc(&endiandata[19], n)`: only the nonce's four bytes change. */
  method EncodeNonce(endiandata: array<u8>, ghost header: seq<u32>, n: u32)
    requires endiandata.Length == 80 && |header| == 19 && endiandata[..76] == BeBytes(header)
    modifies endiandata
    ensures endiandata[..] == HeaderBytes(header, n)
  {
    StoreAt(endiandata, 76, Be32(n));
    HeaderBytesSplit(header, n);
  }

  /** The header block is the header words followed by the nonce. */
  lemma HeaderBytesSplit(header: seq<u32>, n: u32)
    requires |header| == 19
    ensures HeaderBytes(header, n) == BeBytes(header) + Be32(n)
  {
    assert (header + [n])[..19] == header;
  }

  /** One more iteration that hashes the next wrapped nonce keeps the
      iterations consistent, when the last one went on. */
  lemma StepsNext(t: seq<u32>, first: u32, maxNonce: u32, restart: nat -> bool)
    requires Steps(t, first, maxNonce, restart)
    requires t != [] ==> t[|t| - 1] < maxNonce && !restart(|t|)
    ensures Steps(t + [NonceAfter(first, |t| + 1)], first, maxNonce, restart)
  {
  }

  /** Conversely, iterations go on past a nonce only if it was below
      max_nonce and no restart was flagged after it, and each hashes the
      next wrapped nonce. */
  lemma StepsOnlyWhen(t: seq<u32>, n: u32, first: u32, maxNonce: u32, restart: nat -> bool)
    requires Steps(t + [n], first, maxNonce, restart) && t != []
    ensures t[|t| - 1] < maxNonce && !restart(|t|)
    ensures Steps(t, first, maxNonce, restart) && n == NonceAfter(first, |t| + 1)
  {
    var u := t + [n];
    assert u[|t| - 1] == t[|t| - 1] && u[|t|] == n;
    assert forall i :: 0 <= i < |t| ==> u[i] == t[i];
  }

  /** The submissions of one more candidate: those before, then that one
      if it passes. */
  lemma SubmissionsNext(cands: seq<Solution>, c: Solution, htarg: u32, target: seq<u32>,
                        fulltest: (seq<u32>, seq<u32>) -> bool, benchmark: bool)
    ensures Submissions(cands + [c], htarg, target, fulltest, benchmark) ==
      Submissions(cands, htarg, target, fulltest, benchmark) + Submissions([c], htarg, target, fulltest, benchmark)
  {
    assert (cands + [c])[..|cands|] == cands;
  }

  /** `data` stored at `at`: the buffer up to its end is what came before
      `at` followed by `data`, and the bytes after it are kept. */
  method StoreAt(buf: array<u8>, at: nat, data: seq<u8>)
    requires at + |data| <= buf.Length
    modifies buf
    ensures buf[..at + |data|] == old(buf[..at]) + data
    ensures buf[at + |data|..] == old(buf[at + |data|..])
  {
    Absorb(buf, at, data);
    assert buf[..at + |data|] == buf[..at] + buf[at..at + |data|];
  }

  /** `++n` on a `uint32_t`: the largest value wraps to zero. */
  function Inc32(n: u32): u32
  {
    if n == Two32 - 1 then 0 else n + 1
  }

  /** `a - b` on `uint32_t`s: a negative difference wraps. */
  function Sub32(a: u32, b: u32): u32
  {
    if a >= b then a - b else a as int - b + Two32
  }

  /** `++n` is the increment modulo 2^32. */
  lemma Inc32Wraps(n: u32)
    ensures Inc32(n) == Wrap32(n as int + 1)
  {
    if n == Two32 - 1 {
      assert n as int + 1 == Two32;
    }
  }

  /** The `uint32_t` difference is the difference modulo 2^32. */
  lemma Sub32Wraps(a: u32, b: u32)
    ensures Sub32(a, b) == Wrap32(a as int - b)
  {
    if a < b {
      assert a as int - b == -1 * Two32 + Sub32(a, b);
    }
  }

  /** The nonce after `i` increments of `first`. */
  function NonceAfter(first: u32, i: nat): u32
  {
    if i == 0 then first else Inc32(NonceAfter(first, i - 1))
  }

  /** The nonce after `i` increments is first + i reduced modulo 2^32. */
  lemma {:induction false} NonceAfterWraps(first: u32, i: nat)
    ensures NonceAfter(first, i) == Wrap32(first as int + i)
  {
    if i > 0 {
      NonceAfterWraps(first, i - 1);
      var m := first as int + (i - 1);
      var q := m / Two32;
      assert m == q * Two32 + NonceAfter(first, i - 1);
      if NonceAfter(first, i - 1) == Two32 - 1 {
        assert m + 1 == (q + 1) * Two32;
      } else {
        assert m + 1 == q * Two32 + (NonceAfter(first, i - 1) + 1);
      }
    }
  }

  /** `pdata[19] - first_nonce` after c increments is c modulo 2^32: the
      hashes_done report counts the iterations, modulo 2^32. */
  lemma HashesDoneCount(first: u32, c: nat)
    ensures Sub32(NonceAfter(first, c), first) == c % Two32
  {
    NonceAfterWraps(first, c);
    var q := (first as int + c) / Two32;
    assert first as int + c == q * Two32 + Wrap32(first as int + c);
    assert c == q * Two32 + (Wrap32(first as int + c) - first);
    if NonceAfter(first, c) >= first {
      assert c % Two32 == NonceAfter(first, c) - first;
    } else {
      assert c == (q - 1) * Two32 + (Wrap32(first as int + c) - first + Two32);
    }
  }

  // ---------------------------------------------------------------------
  // Properties of the scan

  /** Without a restart, a scan from below max_nonce hashes every nonce
      from first_nonce + 1 to max_nonce, max_nonce - first_nonce of them. */
  lemma {:induction false} TriedWithoutRestart(t: seq<u32>, first: u32, maxNonce: u32, restart: nat -> bool)
    requires Tried(t, first, maxNonce, restart)
    requires first < maxNonce && forall i :: !restart(i)
    ensures |t| == maxNonce - first
    ensures forall i :: 0 <= i < |t| ==> t[i] == first + 1 + i
  {
    var i := 1;
    while i < |t|
      invariant 1 <= i <= |t|
      invariant forall j :: 1 <= j <= i ==> NonceAfter(first, j) == first + j
    {
      assert NonceAfter(first, i) < maxNonce;
      i := i + 1;
    }
    if |t| >= 2 {
      assert NonceAfter(first, |t| - 1) < maxNonce;
    }
  }

  /** The run is determined by its inputs: two runs from the same
      first_nonce, max_nonce and restart flags try the same nonces. */
  lemma {:induction false} TriedUnique(a: seq<u32>, b: seq<u32>, first: u32, maxNonce: u32, restart: nat -> bool)
    requires Tried(a, first, maxNonce, restart) && Tried(b, first, maxNonce, restart)
    ensures a == b
  {
    NoStepPastStop(a, b, first, maxNonce, restart);
    NoStepPastStop(b, a, first, maxNonce, restart);
    assert forall i :: 0 <= i < |a| ==> a[i] == b[i];
  }

  /** One more nonce tried adds its candidate at the end. */
  lemma CandidatesNext(p: Primitives, header: seq<u32>, tried: seq<u32>, n: u32)
    requires |header| == 19
    ensures Candidates(p, header, tried + [n]) == Candidates(p, header, tried) + [Solution(n, NonceHash(p, header, n))]
  {
  }

  /** No consistent run goes on past the iteration where a run stopped. */
  lemma NoStepPastStop(a: seq<u32>, b: seq<u32>, first: u32, maxNonce: u32, restart: nat -> bool)
    requires Tried(a, first, maxNonce, restart) && Steps(b, first, maxNonce, restart)
    ensures |b| <= |a|
  {
  }

  /** A solution is submitted exactly when it is a candidate that passes
      both target tests with benchmark mode off. */
  lemma {:induction false} SubmissionsExactly(cands: seq<Solution>, htarg: u32, target: seq<u32>,
                                             fulltest: (seq<u32>, seq<u32>) -> bool, benchmark: bool, s: Solution)
    ensures s in Submissions(cands, htarg, target, fulltest, benchmark) <==>
      s in cands && Submits(s.hash, htarg, target, fulltest, benchmark)
  {
    if cands != [] {
      var init := cands[..|cands| - 1];
      SubmissionsExactly(init, htarg, target, fulltest, benchmark, s);
      assert cands == init + [cands[|cands| - 1]];
    }
  }

  /** The candidates are the nonces tried, each with its own hash. */
  lemma CandidatesExactly(p: Primitives, header: seq<u32>, tried: seq<u32>, s: Solution)
    requires |header| == 19
    ensures s in Candidates(p, header, tried) <==> s.nonce in tried && s.hash == NonceHash(p, header, s.nonce)
  {
    if s.nonce in tried && s.hash == NonceHash(p, header, s.nonce) {
      var i :| 0 <= i < |tried| && tried[i] == s.nonce;
      assert Candidates(p, header, tried)[i] == s;
    }
  }

  /** Submissions keep the order of their candidates and never exceed them. */
  lemma {:induction false} SubmissionsBounded(cands: seq<Solution>, htarg: u32, target: seq<u32>,
                                             fulltest: (seq<u32>, seq<u32>) -> bool, benchmark: bool)
    ensures |Submissions(cands, htarg, target, fulltest, benchmark)| <= |cands|
  {
    if cands != [] {
      SubmissionsBounded(cands[..|cands| - 1], htarg, target, fulltest, benchmark);
    }
  }

  /** In benchmark mode nothing is submitted. */
  lemma {:induction false} BenchmarkSubmitsNothing(cands: seq<Solution>, htarg: u32, target: seq<u32>,
                                                  fulltest: (seq<u32>, seq<u32>) -> bool)
    ensures Submissions(cands, htarg, target, fulltest, true) == []
  {
    if cands != [] {
      BenchmarkSubmitsNothing(cands[..|cands| - 1], htarg, target, fulltest);
    }
  }
}
