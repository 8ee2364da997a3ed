# ECHO 4-way and x22i, modelled in Dafny

This project models two parts of a CPU mining program.

The first is the ECHO hash engine of `algo/echo/echo-hash-4way.c`. ECHO is the SHA-3 candidate that works on a 4×4 grid of 128-bit cells. The model covers:
- context initialisation;
- the one-block compression: message load, counter advance, ping-pong round pairs of BIG.SubWords and BIG.MixBytes, and the BIG.Final feed-forward;
- the finalizer `echo_4way_update_close`: padding block, counter correction, last compression, digest.

The second is `algo/x22/x22i.c`: the byte-buffer dataflow of `x22i_hash` around its 22 hash primitives, and the nonce scan `scanhash_x22i`.

Both source files are imperative, and so is the model.
- The ECHO context is a class, `Echo.EchoContext`. Its fields `state` (an array of 16 cells, row-major), `buffer` (12 cells), `k`, `processedBits` and the configuration are updated in place by `Init`, `Compress` and `UpdateClose`.
- The local grids `_state`, `_state2` and `_statebackup` are arrays that the round and feed-forward methods overwrite cell by cell.
- `X22i.X22iHash` rewrites the byte arrays `hash` (256 bytes) and `hash2` (65 bytes) at the source's offsets.
- `X22i.ScanHash` runs the do-while loop, writing `pdata[19]` and the big-endian copy of the header.

Every method is proved against a specification function on values:
- `EchoRound.MixBytesSpec`, `SubWordsSpec`, `Rounds`, `FeedForwardSpec` and `CompressSpec`;
- `Echo.PaddingBlock` and `Digest`;
- `X22i.X22iDigest`, `Tried` and `Submissions`.

The lemmas then state what those functions mean. MixBytes is AES MixColumns with the circulant (2,3,1,1) after ShiftRows, and its doubling is the FIPS 197 `xtime`. The round keys advance by one per cell in column-major order. The padding block has the layout ECHO prescribes. The scan tries exactly the nonces first+1, first+2, … up to the stop condition, and submits exactly the candidates that pass the two-step target test.

Modules:
- `Machine` (`machine.dfy`): 8-, 32- and 64-bit unsigned integers and modular wrap.
- `Lanes` (`lanes.dfy`): one 128-bit lane as 16 little-endian bytes, with the SSE/AVX-512 lane operations the ECHO code uses, and the 128-bit counter as four 32-bit words.
- `EchoRound` (`echo_round.dfy`): `ECHO_SUBBYTES`, `ECHO_MIXBYTES`, `ECHO_ROUND_UNROLL2`, `SAVESTATE`, the message load and the feed-forward.
- `Echo` (`echo_context.dfy`): the context, `echo_4way_init`, `echo_4way_compress` and `echo_4way_update_close`.
- `X22i` (`x22i.dfy`): `x22i_hash` and `scanhash_x22i`.

The AES round `_mm512_aesenc_epi128` is a function parameter `aes` of type `EchoRound.AesRound`. The 22 hash primitives of x22i, `fulltest` and the restart flag are parameters too, so every statement holds for any choice of them.

## Model

| member | source | states |
|---|---|---|
| EchoRound.Double | algo/echo/echo-hash-4way.c:32-36 | The add_epi8 / srli_epi16 / mask / shuffle sequence doubles every byte of a lane in GF(2^8): byte p of the result is `xtime(x[p])`. |
| EchoRound.DoubleBytes | algo/echo/echo-hash-4way.c:16-20 | With the active `mul2mask` table and `lsbmask`, the doubling gives `xtime` of every one of the 16 bytes. |
| EchoRound.CommentedMaskDoesNotDouble | algo/echo/echo-hash-4way.c:16-18 | With the commented-out `mul2mask` (0x1b00 in the top word), a byte with its top bit set is not doubled correctly, so only the active table is right. |
| EchoRound.TopBitOf | algo/echo/echo-hash-4way.c:33-34 | `srli_epi16(x, 7)` followed by `and lsbmask` leaves in byte p exactly the top bit of `x[p]`, though the shift crosses byte boundaries inside each 16-bit word. |
| EchoRound.TableLookup | algo/echo/echo-hash-4way.c:32-36 | For one byte, `b + b` xor the shuffled table entry selected by its top bit equals `xtime(b)`. |
| EchoRound.MaskBytes | algo/echo/echo-hash-4way.c:16-20 | `mul2mask` holds 0x1b in byte 1 and zero in every other byte, so shuffle index 1 selects the reduction constant and index 0 selects zero; `lsbmask` holds 0x01 in every byte. |
| EchoRound.MixRow0 | algo/echo/echo-hash-4way.c:32-70 | Row 0 of the column step accumulates 2a⊕3b⊕c⊕d. |
| EchoRound.MixRow1 | algo/echo/echo-hash-4way.c:32-70 | Row 1 of the column step accumulates a⊕2b⊕3c⊕d. |
| EchoRound.MixRow2 | algo/echo/echo-hash-4way.c:32-70 | Row 2 of the column step accumulates a⊕b⊕2c⊕3d. |
| EchoRound.MixRow3 | algo/echo/echo-hash-4way.c:32-70 | Row 3 of the column step accumulates 3a⊕b⊕c⊕2d. |
| EchoRound.MixColumnValues | algo/echo/echo-hash-4way.c:32-70 | The xor-accumulation of one `ECHO_MIXBYTES` returns the four MixColumns outputs of (a, b, c, d). |
| EchoRound.MixColumn | algo/echo/echo-hash-4way.c:27-71 | `ECHO_MIXBYTES(state1, state2, j)` writes column j of the destination from a = s[0][j], b = s[1][j+1], c = s[2][j+2], d = s[3][j+3] (indices mod 4), reads only the source grid, and leaves the destination's other columns unchanged. |
| EchoRound.MixBytes | algo/echo/echo-hash-4way.c:90-93 | The four column steps produce `MixBytesSpec` of the source grid. |
| EchoRound.MixBytesIsShiftRowsThenMixColumns | algo/echo/echo-hash-4way.c:27-71 | The column step with its rotated row indices is BIG.ShiftRows (row i rotated left by i) followed by BIG.MixColumns, for every grid. |
| EchoRound.ShiftedColumn | algo/echo/echo-hash-4way.c:29-31 | The operands of the column step are the cells of column c after ShiftRows. |
| EchoRound.SubBytes | algo/echo/echo-hash-4way.c:22-24 | `ECHO_SUBBYTES` replaces exactly one cell x by `AesRound(AesRound(x, k1), 0)`. |
| EchoRound.KeyAtWords | algo/echo/echo-hash-4way.c:25 | `KeyAt(k, n)`, the key after n steps of `k1 = add_epi32(k1, m512_one_128)`, is k with its low 32-bit word increased by n modulo 2^32 and its other words unchanged: no carry leaves the low word. |
| EchoRound.KeyAtAdd | algo/echo/echo-hash-4way.c:25 | Advancing the key a cells and then b cells is advancing it a+b cells. |
| EchoRound.CellStepOf | algo/echo/echo-hash-4way.c:74-89 | Cells are visited in column-major order: cell [i][j] is the (4j+i)-th. |
| EchoRound.SubWordsPartialStep | algo/echo/echo-hash-4way.c:74-89 | Substituting one more cell in column-major order changes only that cell, keyed by its position in that order. |
| EchoRound.SubWordsPartialEnds | algo/echo/echo-hash-4way.c:74-89 | No substitution leaves the grid unchanged, and all sixteen give BIG.SubWords. |
| EchoRound.SubColumn | algo/echo/echo-hash-4way.c:74-77 | The four `ECHO_SUBBYTES` of one column extend the column-major substitution by four cells and advance the key by four. |
| EchoRound.SubWords | algo/echo/echo-hash-4way.c:74-89 | The sixteen `ECHO_SUBBYTES` of a round give `SubWordsSpec` (cell [i][j] keyed by k1 advanced 4j+i times), and the key leaves advanced by 16. |
| EchoRound.RoundPair | algo/echo/echo-hash-4way.c:73-113 | `ECHO_ROUND_UNROLL2` runs two full rounds, ping-ponging through `_state2`, so that the result is back in `_state`, with the second round keyed 16 cells after the first; the key leaves advanced by 32. |
| EchoRound.RoundKeys | algo/echo/echo-hash-4way.c:174-179 | Round r of the sequence is keyed by k advanced 16·r cells. |
| EchoRound.RoundsPair | algo/echo/echo-hash-4way.c:174-179 | n rounds are n−2 rounds followed by one round pair. |
| EchoRound.RoundPairs | algo/echo/echo-hash-4way.c:174-179 | `uRounds/2` round pairs run exactly `uRounds` rounds from the counter `ctx->k`. |
| EchoRound.SaveState | algo/echo/echo-hash-4way.c:115-131 | `SAVESTATE` copies all sixteen cells. |
| EchoRound.LoadColumn | algo/echo/echo-hash-4way.c:164-168 | Column j receives message words 4(j−c)+i in rows i; the other columns are unchanged. |
| EchoRound.LoadBlock | algo/echo/echo-hash-4way.c:162-169 | The message fills columns c..3 of the grid, where c = uHashSize/256, and leaves the chaining columns alone. |
| EchoRound.FoldRow | algo/echo/echo-hash-4way.c:183-217 | For one row: with 256 bits, cell 0 becomes the xor of the four post-round cells and the four saved cells; with 512 bits, cells 0 and 1 fold in cells 2 and 3 and their saved values; every other cell is unchanged. |
| EchoRound.FeedForwardRow | algo/echo/echo-hash-4way.c:181-218 | The specification of the feed-forward, row by row, matches the xor sequence of either branch. |
| EchoRound.FeedForward | algo/echo/echo-hash-4way.c:181-218 | The BIG.Final fold over all four rows gives `FeedForwardSpec` of the post-round grid and the backup. |
| EchoRound.XorOfEight | algo/echo/echo-hash-4way.c:185-198 | Seven chained lane xors are the byte-wise xor of all eight operands. |
| EchoRound.CompressBlock | algo/echo/echo-hash-4way.c:141-221 | Load, backup, `uRounds` rounds and feed-forward turn the state into `CompressSpec` of the old state, the counter and the message. |
| Lanes.FromHalves | algo/echo/echo-hash-4way.c:280 | A counter built from two 64-bit halves reads back those halves. |
| Lanes.AddEpi64 | algo/echo/echo-hash-4way.c:160 | `add_epi64`, computed on the four 32-bit words with a carry from word 0 into word 1 and from word 2 into word 3 but none from word 1 into word 2, is two independent 64-bit additions modulo 2^64. |
| Lanes.SubEpi64 | algo/echo/echo-hash-4way.c:301 | `sub_epi64`, computed on the four 32-bit words with a borrow within each 64-bit half only, is two independent 64-bit subtractions modulo 2^64. |
| Lanes.AddEpi32VersusAddEpi64 | algo/echo/echo-hash-4way.c:25 | `add_epi32`, as used on the round key, agrees with `add_epi64` exactly when neither low word carries; a carry out of word 0 or 2 is dropped. |
| Lanes.Set4Epi32Elements | algo/echo/echo-hash-4way.c:17 | `_mm512_set4_epi32(e3, e2, e1, e0)` puts its last argument in the least significant 32-bit element and its first in the most significant. |
| Lanes.Const1Epi32Elements | algo/echo/echo-hash-4way.c:20 | `m512_const1_32(c)` holds c in all four 32-bit elements. |
| Lanes.AddEpi8Bytes | algo/echo/echo-hash-4way.c:32 | `add_epi8` keeps the low eight bits of each byte sum; no carry passes to the neighbouring byte. |
| Lanes.SrliEpi16Words | algo/echo/echo-hash-4way.c:33 | `srli_epi16`, defined byte by byte, shifts every 16-bit word of the lane as a whole. |
| Lanes.ShuffleEpi8Select | algo/echo/echo-hash-4way.c:35 | `shuffle_epi8` selects table byte i for an index byte i below 16 and gives zero for an index byte with its top bit set. |
| Lanes.HalvesDetermine | algo/echo/echo-hash-4way.c:300-301 | Two counters with equal 64-bit halves are equal. |
| Lanes.AddUndoesSub | algo/echo/echo-hash-4way.c:300-303 | Adding back what `sub_epi64` took off restores the counter. |
| Echo.ConfigForSizes | algo/echo/echo-hash-4way.c:233-253 | Only 256 and 512 are accepted. For them: the block fills the columns the chaining value leaves free (192 or 128 bytes); the counter increment is the block length in bits (0x600 or 0x400); the round count is 8 or 10 and even; the size word holds the digest size in its low word only. |
| Echo.SizeWordBytes | algo/echo/echo-hash-4way.c:239-247 | The size words 0x100 and 0x200 read back as 256 and 512 and have zero upper bytes. |
| Echo.Set4Low | algo/echo/echo-hash-4way.c:239-248 | A lane set only in its low word reads back that word, and its other bytes are zero. |
| Echo.Init | algo/echo/echo-hash-4way.c:225-264 | Returns 1 for every size but 256 and 512 and then leaves the configuration and state alone. Otherwise returns 0, configures the context per `ConfigFor`, and lays out the initial state. Either way it zeroes k, processed_bits and the buffer count. |
| Echo.LayOut | algo/echo/echo-hash-4way.c:255-261 | In every row, columns below size/256 hold the size word and the others are zero. |
| Echo.Compress | algo/echo/echo-hash-4way.c:134-223 | Advances k by the per-block increment and replaces the state by `CompressSpec` under the new k. Processed_bits, the buffer and the configuration are untouched. |
| Echo.UpdateClose | algo/echo/echo-hash-4way.c:266-314 | Returns 0. On the short path, processed_bits grows by databitlen mod 2^32 and the last compression sees k advanced by databitlen. On the 1024-bit path, the data block is compressed first, processed_bits becomes 1024 and the counter is corrected by −1024. The first vblen buffer cells hold the padding block and the cells past it are unchanged. The state is the final compression of the padding block, and hashval holds the digest, its other cells unchanged. |
| Echo.TakeTail | algo/echo/echo-hash-4way.c:272-290 | On the 1024-bit path, compresses the data block, sets processed_bits to 1024, and gives vlen 0 and remaining −1024, leaving the buffer unchanged. Otherwise it copies the vlen = databitlen/128 data cells into the buffer, keeps the buffer cells after them, adds databitlen to processed_bits mod 2^32, and gives remaining = databitlen. |
| Echo.FinishClose | algo/echo/echo-hash-4way.c:292-303 | Completes the padding block after the vlen buffered cells, keeping the buffer cells past the block. It applies the counter correction so that the final compression sees k + remaining, and compresses the buffer. |
| Echo.BuildPadding | algo/echo/echo-hash-4way.c:292-298 | After the kept message cells, the buffer holds the marker, zero cells, the size field and the length field (`PaddingBlock`); cells past the block are unchanged. |
| Echo.PaddingLayout | algo/echo/echo-hash-4way.c:292-298 | Byte by byte, the padding block is: message cells; a marker with 0x80 in byte 0 and zeros elsewhere; zero cells up to vblen−3; uHashSize as a 16-bit little-endian number in bytes 14-15 of cell vblen−2; processed_bits in the low bytes of cell vblen−1 with zero above. |
| Echo.SizeFieldBytes | algo/echo/echo-hash-4way.c:294-295 | `uHashSize << 16` in the top word puts the size in bytes 14 and 15 and zeros in bytes 0-13. |
| Echo.LengthFieldBytes | algo/echo/echo-hash-4way.c:296-298 | The length cell holds processed_bits in its low 32 bits and zeros above. |
| Echo.ClosingCounterSeen | algo/echo/echo-hash-4way.c:300-303 | The correction `k + remaining − increment` followed by the compression's own increment gives k + remaining. |
| Echo.ShortCloseCounter | algo/echo/echo-hash-4way.c:285-303 | On the short path the closing compression sees k's low half plus databitlen mod 2^64, with the high half unchanged. |
| Echo.FullCloseCounterFromFresh | algo/echo/echo-hash-4way.c:276-303 | On the 1024-bit path of a fresh ECHO-512 context, the closing compression sees counter 0. |
| Echo.StoreDigest | algo/echo/echo-hash-4way.c:305-312 | Writes the digest to the start of hashval and nothing else: s[0][0] and s[1][0], plus s[2][0] and s[3][0] for 512 bits, 256 or 512 bits in all. |
| Echo.CopyCells | algo/echo/echo-hash-4way.c:286 | `memcpy_512` copies the first n cells and leaves the rest. |
| Echo.ZeroCells | algo/echo/echo-hash-4way.c:293 | `memset_zero_512` zeroes exactly the given range of cells. |
| X22i.Absorb | algo/x22/x22i.c:131-139 | A stage writing its digest at an offset changes exactly those bytes of the buffer. |
| X22i.Clear | algo/x22/x22i.c:143 | `memset(buf, 0, count)` zeroes the first count bytes and leaves the rest. |
| X22i.Refill | algo/x22/x22i.c:143-154 | A memset of 64 bytes followed by a narrower stage's output leaves that output followed by zeros in the first 64 bytes. |
| X22i.ChainStages | algo/x22/x22i.c:65-127 | Blake of the 80-byte input and the twelve chained 64-byte stages leave `Chain512` in hash[0..64); the rest of the buffer is untouched. |
| X22i.SwifftxStages | algo/x22/x22i.c:129-139 | Shabal, whirlpool and SHA-512 fill hash[64..128), [128..192) and [192..256), each reading the previous segment. The 256 bytes SWIFFTX reads are the fugue digest and those three, in order. |
| X22i.X22iHash | algo/x22/x22i.c:59-165 | Starting from zeroed `hash` and `hash2`, the 22 stages produce `X22iDigest`. HAVAL reads the first 64 SWIFFTX bytes. Tiger reads HAVAL's 32 bytes and 32 zeros. LYRA2RE reads Tiger's 24 bytes and 8 zeros. GOST reads LYRA2RE's 32 bytes and 32 zeros. The output is the first 32 bytes of SHA-256. |
| X22i.Be32RoundTrip | algo/x22/x22i.c:182-183 | `be32enc` of a 32-bit word, read back most significant byte first, gives the word: the encoding loses nothing. |
| X22i.FromBe32RoundTrip | algo/x22/x22i.c:182-183 | Every four bytes are the `be32enc` of the word they spell most significant byte first, so `be32enc` is a bijection between words and 4-byte groups. |
| X22i.BeBytesWord | algo/x22/x22i.c:182-183 | Bytes 4k..4k+4 of the encoded header are the big-endian encoding of word k. |
| X22i.HeaderBytesSplit | algo/x22/x22i.c:189-190 | The 80 hashed bytes are the 19 encoded header words followed by the encoded nonce. |
| X22i.LeWordsBytes | algo/x22/x22i.c:192-194 | The 32 output bytes, read as the eight little-endian `uint32_t` words of `hash`, lose nothing: each word, written most significant byte first, is its four bytes in reverse. |
| X22i.EncodeHeader | algo/x22/x22i.c:182-183 | `endiandata` becomes the big-endian encoding of pdata[0..20). |
| X22i.EncodeNonce | algo/x22/x22i.c:190 | `be32enc(&endiandata[19], n)` makes the buffer the encoded header followed by be32(n), keeping words 0..18. |
| X22i.TryNonce | algo/x22/x22i.c:190-196 | Afterwards endiandata is the encoded header followed by be32(n). Hashing it submits a solution exactly when hash[7] < Htarg, fulltest holds and benchmark mode is off. |
| X22i.ScanLoop | algo/x22/x22i.c:187-197 | The do-while loop tries the nonces `Tried` describes and leaves the last in pdata[19]. It leaves endiandata as the encoded header followed by be32 of that last nonce, and submits `Submissions` of the candidates in order. |
| X22i.ScanHash | algo/x22/x22i.c:167-201 | Returns 0. The nonces tried are first+1, first+2, … (mod 2^32), stopping exactly when the last is ≥ max_nonce or the restart flag is set. pdata changes only in word 19, to the last nonce. Benchmark mode sets ptarget[7] to 0x08ff after Htarg is read. hashes_done is the number of nonces tried mod 2^32. The submissions are exactly the gated candidates. |
| X22i.NonceAfterWraps | algo/x22/x22i.c:189 | Incrementing the nonce i times is adding i modulo 2^32. |
| X22i.Inc32Wraps | algo/x22/x22i.c:189 | `++n` on a `uint32_t` is the increment modulo 2^32. |
| X22i.Sub32Wraps | algo/x22/x22i.c:199 | The `uint32_t` difference `pdata[19] - first_nonce` is the difference modulo 2^32. |
| X22i.HashesDoneCount | algo/x22/x22i.c:199 | `pdata[19] − first_nonce` in 32-bit arithmetic is the iteration count modulo 2^32. |
| X22i.StepsNext | algo/x22/x22i.c:187-197 | When the last nonce was below max_nonce and no restart was flagged, one more iteration on the next wrapped nonce extends a run of the loop. |
| X22i.StepsOnlyWhen | algo/x22/x22i.c:187-197 | Conversely, a run of the loop goes on past a nonce only if that nonce was below max_nonce and no restart was flagged after it, and the next iteration hashes the next wrapped nonce. |
| X22i.TriedWithoutRestart | algo/x22/x22i.c:187-197 | Without restarts and with first_nonce < max_nonce, the loop runs max_nonce − first_nonce times, on nonces first+1 … max_nonce. |
| X22i.NoStepPastStop | algo/x22/x22i.c:197 | No run of iterations can go past the point where the loop condition first fails. |
| X22i.TriedUnique | algo/x22/x22i.c:187-197 | The sequence of nonces tried is determined by first_nonce, max_nonce and the restart flag. |
| X22i.CandidatesNext | algo/x22/x22i.c:189-192 | Trying one more nonce appends its solution to the candidates. |
| X22i.CandidatesExactly | algo/x22/x22i.c:189-192 | A solution is a candidate exactly when its nonce was tried and its hash is that nonce's hash. |
| X22i.SubmissionsNext | algo/x22/x22i.c:194-196 | One more candidate adds its submission, if it passes the gate, at the end. |
| X22i.SubmissionsExactly | algo/x22/x22i.c:194-196 | A solution is submitted exactly when it is a candidate with hash[7] < Htarg, fulltest true and benchmark off. |
| X22i.SubmissionsBounded | algo/x22/x22i.c:194-196 | At most one submission per nonce tried. |
| X22i.BenchmarkSubmitsNothing | algo/x22/x22i.c:195 | In benchmark mode nothing is submitted. |

## Left out

- The AES round `_mm512_aesenc_epi128` is a hardware intrinsic. It is a function parameter, so no property depends on its internals.
- The AVX-512 packing is not modelled. Every operation the ECHO code uses acts within one 128-bit lane, so the model is one lane, and the 4-way context is four independent copies. The `#if` guard is left out. The `simd-utils.h` helpers and intrinsics are taken with their evident lane-wise meaning: `m512_one_128`, `memcpy_512`, `memset_zero_512`, `m512_const2_64`, `m512_const1_32` (the same word in all four elements), and `_mm512_set4_epi32` / `_mm512_set4_epi64`, whose arguments run from the most significant element down to element 0.
- Echo.Compress: models uBlockCount = 1 only, which is the only value the code uses. The pointer advance `pmsg += ctx->uBlockLength` (in 64-byte units, not bytes) therefore never matters and is not modelled.
- Echo.UpdateClose: requires that databitlen is a multiple of 128 and leaves at least three free cells (vlen ≤ vblen − 3). The 1024-bit path is modelled only for ECHO-512, since for ECHO-256 the compression would read twelve cells of an eight-cell message. These are the caller's obligations in the source, not checked by it.
- Echo.EchoContext: processed_bits is modelled as an unsigned 32-bit field, wrapping as `+= (unsigned int) databitlen` does. The header declaring it is not part of this model.
- Echo.EchoContext: `uBufferBytes` is only zeroed by init and never read by the modelled functions. The field `hashsize` (the size word) and `const1536` are the configuration's `sizeWord` and `blockIncrement`.
- `InitializeSWIFFTX` (x22i.c:185) is not modelled: it only sets up SWIFFTX's tables.
- The 22 hash primitives of x22i are foreign code. They are fields of `X22i.Primitives` with fixed output widths: 64 bytes for the 512-bit hashes, 65 for SWIFFTX (`hash2[65]`), 32 for HAVAL-256/5 and SHA-256, 24 for Tiger, and 32 for LYRA2RE, which is asked for 32 bytes.
- The `__AES__` choice between the two groestl and echo implementations is not modelled: each is one abstract stage.
- `work_restart[thr_id].restart` is not a global here. It is the parameter `restart`, whose value at i is the flag as the loop reads it after iteration i, so concurrent updates by other threads are not modelled. `opt_benchmark` is the parameter `benchmark`, and `fulltest` is a parameter.
- `submit_solution` is not called. `X22i.ScanHash` returns the sequence of submitted solutions instead.
- The context union in x22i.c is storage aliasing only and has no counterpart.
- X22i.ScanHash: the sequence of nonces tried is a ghost out-parameter, and its `hashesDone` result is stated modulo 2^32 because the source subtracts in 32 bits.
