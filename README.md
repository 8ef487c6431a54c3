# RingOA core, modelled and verified in Dafny

This project models the self-contained core of RingOA and of the FssWM library it grew from. It covers:

- the fixed-width arithmetic helpers;
- the splitting of 128-bit FSS blocks into ring elements;
- DPF parameter resolution and DPF key serialisation;
- replicated three-party sharing, both additive (`ReplicatedSharing3P`) and XOR (`BinaryReplicatedSharing3P`), with their correlated-randomness buffers;
- two-party additive sharing with Beaver triples, and the triple container with its byte format;
- the replicated share containers;
- the database sharing with sign flips of the RingOA FSC key generator;
- the plain wavelet matrix and the two FM-indexes, the one in `RingOA/wm/plain_wm.cpp` and the one in `FssWM/wm/fmindex.cpp`;
- the Python build driver `build.py` and its third-party fetcher `thirdparty/getCryptoTools.py`.

How the model represents the source:

- C++ integers are naturals below 2^64 or 2^32, and every wrap-around is written out.
- Blocks and serialised buffers are sequences of bytes in little-endian memory order.
- Objects whose fields the source updates in place are classes: the sharing objects with their PRF buffer and triple index, the triple container, the share vectors and matrices, the wavelet matrix and the FM-indexes.
- Pure helpers are functions.
- Everything that crosses a process boundary is an explicit parameter: network peers, the PRG, AES streams, `os.cpu_count()`, `shutil.which`, the existing directories and `os.path.abspath`. Each `subprocess.run` is an entry appended to a host's command log.

Modules:

- `Bits`, `Bytes`, `Wrappers`: fixed-width arithmetic (`RingOA/utils/utils.h`), the little-endian byte layout, and Option/Result.
- `Fss`: `Convert`, `SplitBlockToFieldVector` and `GetSplitBlockValue` (`RingOA/fss/fss.cpp`).
- `DpfKey`: `DpfParameters` resolution and validation, and the `DpfKey` constructor, equality, size and byte round trip (`RingOA/fss/dpf_key.cpp`).
- `RepShare`: `RepShare` serialisation, and `RepShareVec`/`RepShareMat` with bounds-checked `At`, `Set` and `RowView` (`RingOA/sharing/rep_share.h`).
- `Prf`, `Additive3P`, `Binary3P`: the replicated sharings (`RingOA/sharing/additive_3p.cpp`, `RingOA/sharing/binary_3p.cpp`).
- `Triples`, `Additive2P`: `BeaverTriples` (`FssWM/sharing/beaver_triples.h`) and `AdditiveSharing2P` (`FssWM/sharing/additive_2p.cpp`).
- `RingOaFsc`: database sharing, sign correction and key assignment (`RingOA/protocol/ringoa_fsc.cpp`).
- `CharMapper`, `WaveletLevels`, `PlainWm`, `PlainFmIndex`: the plain wavelet matrix and FM-index (`RingOA/wm/plain_wm.cpp`).
  - `WaveletLevels` holds the specification: stable partitions, rank rows, the range filter and the LF mapping.
  - `PlainWm.WaveletMatrix` builds the rank tables in loops and answers the queries, each proved against that specification.
- `SuffixSort`, `TextCount`, `FssFmIndex`: the FssWM FM-index (`FssWM/wm/fmindex.cpp`), covering suffix order, character counts and the index class.
- `ScriptText`, `BuildOptions`, `Shell`, `BuildPy`, `CryptoToolsSetup`: the build driver.
  - `Shell.Host` records the commands that are run.
  - `BuildPy.Build`, `BuildPy.Setup` and `BuildPy.Dispatch` state the whole command sequence and how the script ends.

## Model

| member | source | states |
|---|---|---|
| Bits.Pow | RingOA/utils/utils.h:17-27 | exponentiation by squaring in `uint64_t`: the result is base^exponent modulo 2^64 (loop invariant: result * base^exponent is fixed modulo 2^64) |
| Bits.PowStep | RingOA/utils/utils.h:19-25 | one round of the squaring loop keeps result * base^exponent unchanged modulo 2^64 |
| Bits.Mod2N | RingOA/utils/utils.h:30-32 | masking with 2^bitsize - 1 gives value mod 2^bitsize, below 2^bitsize |
| Bits.AndLowMask | RingOA/utils/utils.h:31 | AND with the mask 2^n - 1 is exactly reduction modulo 2^n, for every n (proved bit by bit) |
| Bits.Mod32 | FssWM/utils/utils.h:181-183 | the 32-bit Mod of the two-party layer: value mod 2^bitsize, below 2^bitsize, for bitsize < 32 |
| Bits.Sign | RingOA/utils/utils.h:35-37 | -1 or +1, negative exactly when b |
| Bits.Log2Floor | RingOA/utils/utils.h:40-42 | -1 for 0; otherwise r in [0, 64) with 2^r <= x < 2^(r+1) |
| Bits.BitWidthBounds | RingOA/utils/utils.h:41 | `bit_width(x)` of a positive x satisfies 2^(w-1) <= x < 2^w |
| Bits.GetLSB | RingOA/utils/utils.h:45-47 | bit 0 of the value, i.e. value mod 2 |
| Bits.GetMSB | RingOA/utils/utils.h:50-56 | 0 for n == 0, bit 63 for n >= 64, bit n-1 otherwise |
| Bits.GetLowerNBits | RingOA/utils/utils.h:59-64 | value mod 2^n for every n (the whole value once n >= 64) |
| Bits.UnsignedToSignedNBits | RingOA/utils/utils.h:68-82 | 0 for n == 0; for 0 < n < 64 the result lies in [-2^(n-1), 2^(n-1)), is congruent to value modulo 2^n, and is negative iff the n-bit MSB is set; for n >= 64 the int64 reading of the value |
| Bits.SignExtend | RingOA/utils/utils.h:73-81 | the mask-then-sign-extend branch: in range, congruent modulo 2^n, negative iff bit n-1 is set |
| Bits.SignBitTest | RingOA/utils/utils.h:75-76 | on a masked value, the test `value & sign_bit` is true iff the value is at least 2^(n-1) iff bit n-1 is set |
| Bits.CreateSequence | RingOA/utils/utils.h:99-105 | empty when end <= start; otherwise end - start values with v[i] == start + i |
| Fss.Low64 | RingOA/fss/fss.cpp:33 | the block's first 64-bit word is the little-endian value of bytes 0..7 |
| Fss.ConvertAsWritten | RingOA/fss/fss.cpp:32-34 | `Convert` as written: the mask `(1U << bitsize) - 1` is a 32-bit shift, so the result is the low word modulo 2^(bitsize mod 32); below 32 bits it is the low word modulo 2^bitsize |
| Fss.Convert | RingOA/fss/fss.cpp:32-34 | corrected `Convert` (64-bit mask): the lower `bitsize` bits of the block's low word |
| Fss.ConvertAgreesBelow32 | RingOA/fss/fss.cpp:32-34 | the written and the corrected conversion agree for every bitsize below 32 |
| Fss.ConvertAsWrittenLosesBit32 | RingOA/fss/fss.cpp:32-34 | a block whose low word is 1 converts to 0 at bitsize 32 as written, but to 1 under the 64-bit mask |
| Fss.WordBit | RingOA/fss/fss.cpp:121-128 | in ShiftedAdditive mode element idx of a 128-lane block is bit idx mod 8 of byte idx / 8 (the low word for idx < 64, the high word after) |
| Fss.MaskBit | RingOA/fss/fss.cpp:129-133 | in SingleBitMask mode element idx is bit idx / 16 of byte idx mod 16 |
| Fss.GetSplitBlockValue | RingOA/fss/fss.cpp:98-141 | out-of-range error iff idx >= 2^chunkExp; otherwise success iff chunkExp is 2, 3 or 7 (invalid-argument error else); 32-bit and 16-bit lanes are below 2^32 and 2^16; the two single-bit layouts as above |
| Fss.SplitBlockToFieldVector | RingOA/fss/fss.cpp:36-96 | the output is resized to blocks * 2^chunkExp; success iff chunkExp is supported (else invalid-argument with `out` only resized); slot i * 2^chunkExp + j holds lane j of block i masked to field_bits (all ones for 64 bits or more) |
| Fss.StoreBlockLanes | RingOA/fss/fss.cpp:52-91 | one block's iteration: the lanes of block i fill slots i * 2^chunkExp onwards and the earlier slots keep their lanes |
| Fss.LaneMasked | RingOA/fss/fss.cpp:52-118 | the lane the splitting loop stores equals, masked, the value GetSplitBlockValue returns for the same index |
| Bytes.DecodeLE | RingOA/sharing/rep_share.h:69-86 | a little-endian byte string read as a number (what memcpy into an integer gives on the target), below 2^(8n) |
| Bytes.EncodeLE | RingOA/sharing/rep_share.h:69-86 | the width-byte little-endian image of v |
| Bytes.DecodeEncode | RingOA/sharing/rep_share.h:69-86 | decoding an encoding gives back any v that fits in the width |
| Bytes.EncodeDecode | RingOA/sharing/rep_share.h:69-86 | encoding a decoding gives back the bytes |
| Bytes.DecodeLEBit | RingOA/fss/fss.cpp:121-128 | bit idx of a little-endian number is bit idx mod 8 of byte idx / 8 |
| Bytes.Word64 | RingOA/sharing/binary_3p.cpp:320-323 | the uint64_t read with memcpy at byte offset off of a block buffer |
| Prf.Refilled | RingOA/sharing/additive_3p.cpp:408-413 | RefillBuffer: both buffers hold the next blocks of their counter-mode streams from prf_buff_idx_, which advances by the buffer size; the offset returns to 0 |
| Prf.RefillCounters | RingOA/sharing/additive_3p.cpp:408-413 | k refills read consecutive, non-overlapping counter ranges: the counter advances by k buffer sizes and the buffers hold the last range |
| DpfKey.Resolved | RingOA/fss/dpf_key.cpp:32-73 | Resolve_: n and e kept; small inputs (e == 1 and n < 10, or e > 1 and n <= 8) force Naive; Naive or IterDepthFirst turn early termination off and force ShiftedAdditive; without early termination nu == n, with it nu <= n (max(n - 7, 0) for e == 1, n - 3 below 17, n - 2 below 33); SingleBitMask survives only for e == 1 or n >= 33; the result is well formed iff 0 < n <= 32 and e > 0 |
| DpfKey.ValidationError | RingOA/fss/dpf_key.cpp:75-97 | ValidateOrThrow_'s checks in order: no error iff the parameters are well formed; ZeroBitsize iff n or e is 0; InputTooLarge iff both are non-zero and n > 32 |
| DpfKey.DpfParameters.Make | RingOA/fss/dpf_key.cpp:12-18 | the stored request resolved: the fields equal Resolved of the request |
| DpfKey.DpfParameters.Create | RingOA/fss/dpf_key.cpp:12-20 | the throwing constructor succeeds iff 0 < n <= 32 and e > 0; on failure the error is the first validation error; on success the fields are the resolved request and well formed |
| DpfKey.DpfParameters.ReconfigureParameters | RingOA/fss/dpf_key.cpp:22-30 | the fields become the resolved new request (early termination requested anew); it fails iff not 0 < n <= 32 or e == 0 |
| DpfKey.DpfParameters.Resolve | RingOA/fss/dpf_key.cpp:32-73 | the fields after the call are Resolved of the fields before |
| DpfKey.DpfParameters.ValidateOrThrow | RingOA/fss/dpf_key.cpp:75-97 | returns exactly ValidationError of the fields: none iff they are well formed |
| DpfKey.Encode | RingOA/fss/dpf_key.cpp:161-178 | party id, initial seed, cw_length, the cw seeds, one byte per left and per right control bit, then the output block; its length is SerializedSize(cw_length) |
| DpfKey.DecodeEncodeKey | RingOA/fss/dpf_key.cpp:161-213 | decoding the serialization of any well-sized key, whatever bytes follow, gives the key back |
| DpfKey.EncodedHeader | RingOA/fss/dpf_key.cpp:167-171 | the serialized key begins with the 8-byte party id, the 16-byte seed and the 8-byte cw_length |
| DpfKey.DecodeAtOffsets | RingOA/fss/dpf_key.cpp:190-212 | Deserialize's offsets: the fields are read at 0, 8, 24, 32, 32 + 16n, 32 + 17n and 32 + 18n |
| DpfKey.ReadKey | RingOA/fss/dpf_key.cpp:190-212 | the memcpy sequence of Deserialize fills fresh arrays whose contents are the decoded key |
| DpfKey.DpfKey.constructor | RingOA/fss/dpf_key.cpp:112-125 | a new key has party id `id`, a zero seed and output, cw arrays of length terminate_bitsize that are all zero and all false, and serialized_size_ == SerializedSize(terminate_bitsize) |
| DpfKey.DpfKey.Equals | RingOA/fss/dpf_key.cpp:127-146 | operator== is true iff party id, seed, cw_length, output and every cw entry agree, i.e. iff the two key values are equal |
| DpfKey.DpfKey.CalculateSerializedSize | RingOA/fss/dpf_key.cpp:148-159 | equals the length of the key's serialization |
| DpfKey.DpfKey.Serialize | RingOA/fss/dpf_key.cpp:161-184 | appends exactly the key's encoding to the buffer, CalculateSerializedSize bytes |
| DpfKey.DpfKey.Deserialize | RingOA/fss/dpf_key.cpp:186-213 | the key's value becomes the decoding of the buffer, in fresh arrays; serialized_size_ is untouched |
| RepShare.Serialize64 | RingOA/sharing/rep_share.h:69-72 | appends exactly the 16 little-endian bytes of the two 64-bit shares and keeps the buffer's prefix |
| RepShare.Deserialize64 | RingOA/sharing/rep_share.h:82-86 | fails with invalid-argument iff the buffer is shorter than 2 * sizeof(T) = 16; otherwise the pair read encodes back to the first 16 bytes |
| RepShare.Deserialize64Serialize | RingOA/sharing/rep_share.h:69-86 | Deserialize(Serialize(s) + rest) gives s back |
| RepShare.SerializeBlock | RingOA/sharing/rep_share.h:69-72 | the block instance: appends the two 16-byte blocks, keeping the buffer's prefix |
| RepShare.DeserializeBlock | RingOA/sharing/rep_share.h:82-86 | fails iff the buffer is shorter than 32 bytes; otherwise the pair is the first 32 bytes |
| RepShare.DeserializeBlockSerialize | RingOA/sharing/rep_share.h:69-86 | the block round trip: Deserialize(Serialize(s) + rest) == s |
| RepShare.RepShareVec.Sized | RingOA/sharing/rep_share.h:113-117 | `RepShareVec(n)`: n shares, both vectors n default values |
| RepShare.RepShareVec.Pair | RingOA/sharing/rep_share.h:119-126 | the two-vector constructor on equal sizes: num_shares is the size and the vectors are the arguments |
| RepShare.RepShareVec.FromShares | RingOA/sharing/rep_share.h:119-126 | the same constructor with its throw: fails with invalid-argument iff the sizes differ, otherwise holds exactly the two vectors |
| RepShare.RepShareVec.At | RingOA/sharing/rep_share.h:139-144 | out-of-range error iff idx >= num_shares; otherwise the pair (data0[idx], data1[idx]) |
| RepShare.RepShareVec.Set | RingOA/sharing/rep_share.h:146-152 | out-of-range iff idx >= num_shares, leaving everything unchanged; otherwise At(idx) returns the new pair afterwards and every other index is unchanged |
| RepShare.RepShareView.At | RingOA/sharing/rep_share.h:277-282 | the view's At: out-of-range iff idx >= num_shares, else the two span entries |
| RepShare.ViewOf | RingOA/sharing/rep_share.h:259-263 | a view of a vector has its size and answers At exactly as the vector does |
| RepShare.RepShareMat.Sized | RingOA/sharing/rep_share.h:304-306 | `RepShareMat(rows, cols)`: rows * cols default shares |
| RepShare.RepShareMat.Flat | RingOA/sharing/rep_share.h:308-318 | the flat-vector constructor on matching sizes holds the two vectors |
| RepShare.RepShareMat.FromShares | RingOA/sharing/rep_share.h:308-318 | fails with invalid-argument unless both vectors have rows * cols entries; otherwise holds them |
| RepShare.RepShareMat.At | RingOA/sharing/rep_share.h:343-348 | out-of-range iff i >= rows or j >= cols; otherwise the flat share at i * cols + j |
| RepShare.RepShareMat.RowView | RingOA/sharing/rep_share.h:333-341 | out-of-range iff i >= rows; otherwise a view of cols shares whose j-th pair is At(i, j) |
| Additive3P.ShareLocal | RingOA/sharing/additive_3p.cpp:32-43 | from the two random draws: the first shares add up to x modulo 2^bitsize, every share is below 2^bitsize, and the layout is P0 = (x0, x2), P1 = (x1, x0), P2 = (x2, x1), so party p's second share is party p-1's first |
| Additive3P.Open | RingOA/sharing/additive_3p.cpp:104-120 | one party's opening is a value below 2^bitsize; that it is the secret is OpenReconstructs |
| Additive3P.OpenReconstructs | RingOA/sharing/additive_3p.cpp:104-120 | every party p opening a sharing of x with party p+1's first share gets x mod 2^bitsize |
| Additive3P.EvaluateAdd | RingOA/sharing/additive_3p.cpp:184-187 | componentwise addition modulo 2^bitsize |
| Additive3P.EvaluateSub | RingOA/sharing/additive_3p.cpp:207-210 | componentwise subtraction modulo 2^bitsize |
| Additive3P.AddShares | RingOA/sharing/additive_3p.cpp:184-187 | the three parties adding sharings of x and y hold a replicated sharing of x + y |
| Additive3P.SubShares | RingOA/sharing/additive_3p.cpp:207-210 | the three parties subtracting hold a replicated sharing of x - y |
| Additive3P.LocalMult | RingOA/sharing/additive_3p.cpp:232 | party p's local product term x_p y_p + x_{p-1} y_p + x_p y_{p-1} modulo 2^bitsize |
| Additive3P.MultTerms | RingOA/sharing/additive_3p.cpp:230-238 | the three local terms add up to x * y modulo 2^bitsize, i.e. they form a (3,3)-sharing of the product |
| Additive3P.RandPair | RingOA/sharing/additive_3p.cpp:171-178 | the correlated randomness: party p's pair is (g[p-1], g[p]), its first stream keyed like party p-1's second, which MultShares uses to telescope r0 - r1 to zero |
| Additive3P.MultShare | RingOA/sharing/additive_3p.cpp:230-238 | EvaluateMult at one party: the first share is its term plus r0 - r1, the second the value received from the previous party |
| Additive3P.MultAll | RingOA/sharing/additive_3p.cpp:230-238 | the three parties multiplying, each receiving the previous party's first share, keep the replication layout |
| Additive3P.MultShares | RingOA/sharing/additive_3p.cpp:230-238 | the re-randomised products are a replicated sharing of x * y (the zero-sharing telescopes) |
| Additive3P.SelectShares | RingOA/sharing/additive_3p.cpp:264-282 | EvaluateSelect (Sub, Mult, Add) yields a replicated sharing of x + c * (y - x) |
| Additive3P.SelectPicks | RingOA/sharing/additive_3p.cpp:264-282 | with a shared selector bit, Select yields a sharing of x for 0 and of y for 1 |
| Additive3P.RandStep | RingOA/sharing/additive_3p.cpp:171-178 | Rand: refills iff the next eight bytes would run past the buffer, then reads one word per buffer masked to bitsize and advances the offset by 8 |
| Additive3P.ReplicatedSharing3P.constructor | RingOA/sharing/additive_3p.cpp:14-16 | stores the bitsize; the buffers start empty |
| Additive3P.ReplicatedSharing3P.RandOnline | RingOA/sharing/additive_3p.cpp:378-406 | the PRF state becomes the refill of fresh buffers of buffer_size blocks keyed by the previous and next keys, with counter 0 |
| Additive3P.ReplicatedSharing3P.RefillBuffer | RingOA/sharing/additive_3p.cpp:408-413 | the state after is Refilled of the state before: the next counter blocks of both streams, counter advanced by the buffer size, offset 0 |
| Additive3P.ReplicatedSharing3P.Rand | RingOA/sharing/additive_3p.cpp:171-178 | returns the pair and leaves the state that RandStep gives |
| Additive3P.ReplicatedSharing3P.EvaluateMult | RingOA/sharing/additive_3p.cpp:230-238 | one Rand draw, and the result is MultShare of the drawn pair |
| Additive3P.ReplicatedSharing3P.EvaluateSelect | RingOA/sharing/additive_3p.cpp:264-282 | one Rand draw, and the result is x + MultShare(c, y - x) |
| Additive3P.ReplicatedSharing3P.EvaluateAddVec | RingOA/sharing/additive_3p.cpp:189-205 | size mismatch leaves z unchanged; otherwise z is resized to n and holds the componentwise sums |
| Additive3P.ReplicatedSharing3P.EvaluateSubVec | RingOA/sharing/additive_3p.cpp:212-228 | size mismatch leaves z unchanged; otherwise z holds the componentwise differences |
| Additive3P.ShareFlat | RingOA/sharing/additive_3p.cpp:52-67 | the shared loop of vector and matrix ShareLocal: element i of the three parties is ShareLocal of xs[i], with p0's second vector equal to p2's first and so on |
| Additive3P.ShareLocalVec | RingOA/sharing/additive_3p.cpp:45-73 | three share vectors of |xs| elements, element i a replicated sharing of xs[i] |
| Additive3P.ShareLocalMat | RingOA/sharing/additive_3p.cpp:75-102 | three rows x cols matrices, flat element i a replicated sharing of x_flat[i] |
| Additive3P.OpenFlat | RingOA/sharing/additive_3p.cpp:134-136 | the opening loop: element i is Open of the own pair and the next party's element i |
| Additive3P.OpenVec | RingOA/sharing/additive_3p.cpp:122-143 | vector Open: num_shares elements, each the scalar Open |
| Additive3P.OpenMat | RingOA/sharing/additive_3p.cpp:145-169 | matrix Open: rows * cols elements, each the scalar Open |
| Binary3P.Xor | RingOA/sharing/binary_3p.cpp:347-350 | bit i of the result is bit i of a differing from bit i of b, for all 64 lanes |
| Binary3P.And | RingOA/sharing/binary_3p.cpp:370-378 | bit i of the result is the conjunction of the two bits i |
| Binary3P.WordOf | RingOA/sharing/binary_3p.cpp:32-43 | the 64-lane view of a uint64_t: lane i is bit i of v |
| Binary3P.ShareLocal | RingOA/sharing/binary_3p.cpp:32-43 | the three first shares XOR to x, with the layout P0 = (r0, x2), P1 = (r1, r0), P2 = (x2, r1), the two random draws being P0's and P1's first shares |
| Binary3P.OpenReconstructs | RingOA/sharing/binary_3p.cpp:176-192 | every party XORing its two shares with the next party's first share gets x |
| Binary3P.EvaluateXor | RingOA/sharing/binary_3p.cpp:347-350 | componentwise XOR of both shares, no communication |
| Binary3P.XorShares | RingOA/sharing/binary_3p.cpp:347-350 | XOR of replicated sharings of x and y is a replicated sharing of x XOR y |
| Binary3P.AndTerms | RingOA/sharing/binary_3p.cpp:370-378 | the three local AND terms XOR to x AND y |
| Binary3P.RandPair | RingOA/sharing/binary_3p.cpp:310-326 | party p's correlated pair is (g[p-1], g[p]), its first stream keyed like party p-1's second, which AndShares uses to cancel the masks |
| Binary3P.AndShare | RingOA/sharing/binary_3p.cpp:370-378 | EvaluateAnd at one party: the second share is the value received from the previous party |
| Binary3P.AndAll | RingOA/sharing/binary_3p.cpp:370-378 | the three parties doing EvaluateAnd keep the replication layout |
| Binary3P.AndShares | RingOA/sharing/binary_3p.cpp:370-378 | the masked AND terms form a replicated sharing of x AND y |
| Binary3P.Mux | RingOA/sharing/binary_3p.cpp:404-410 | lane i of the result is y's lane where c's lane is set and x's lane otherwise |
| Binary3P.SelectShares | RingOA/sharing/binary_3p.cpp:404-410 | EvaluateSelect (x XOR (c AND (x XOR y))) yields a sharing of Mux(c, x, y); of x when c is all zeros and of y when c is all ones |
| Binary3P.Rand64GuardExact | RingOA/sharing/binary_3p.cpp:310-326 | the word-count guard elem_idx >= max_elems refills exactly when the next eight bytes would pass the end of the buffer |
| Binary3P.Rand64Step | RingOA/sharing/binary_3p.cpp:310-326 | Rand on uint64_t: refill when the buffer is exhausted, then the offset advances by 8 and nothing else changes |
| Binary3P.Draws64 | RingOA/sharing/binary_3p.cpp:310-326 | k successive 64-bit draws keep the buffer state ready and 8-byte aligned |
| Binary3P.Draws64NoRefill | RingOA/sharing/binary_3p.cpp:310-326 | k draws that fit in the buffer leave it untouched and only advance the offset by 8k |
| Binary3P.RandBlockAsWrittenOverruns | RingOA/sharing/binary_3p.cpp:328-341 | after 2n-1 64-bit draws from a fresh buffer of n blocks, the block draw's guard as written does not refill although the 16 bytes it reads end 8 bytes past the buffer |
| Binary3P.RandBlockGuardsAgree | RingOA/sharing/binary_3p.cpp:328-341 | on 16-byte-aligned offsets the corrected guard and the guard as written agree, so the correction changes only the misaligned case |
| Binary3P.BlockAt | RingOA/sharing/binary_3p.cpp:328-341 | the 16 bytes at a byte offset of the buffer, read across block boundaries |
| Binary3P.RandBlockStep | RingOA/sharing/binary_3p.cpp:328-341 | the corrected block draw: refills whenever fewer than 16 bytes remain, so every read is in the buffer; offset advances by 16 |
| Binary3P.BinaryReplicatedSharing3P.constructor | RingOA/sharing/binary_3p.cpp:14-16 | stores the bitsize; the buffers start empty |
| Binary3P.BinaryReplicatedSharing3P.RandOnline | RingOA/sharing/binary_3p.cpp:481-510 | fresh zeroed buffers of buffer_size blocks keyed by the previous and next keys, filled once by RefillBuffer |
| Binary3P.BinaryReplicatedSharing3P.RefillBuffer | RingOA/sharing/binary_3p.cpp:512-517 | the next blocks of both streams replace the buffers, counter advanced by the buffer size, offset 0 |
| Binary3P.BinaryReplicatedSharing3P.Rand | RingOA/sharing/binary_3p.cpp:310-326 | returns the draw and leaves the state that Rand64Step gives |
| Binary3P.BinaryReplicatedSharing3P.RandBlock | RingOA/sharing/binary_3p.cpp:328-341 | the corrected block draw (see Findings): result and state are RandBlockStep of the state before |
| Binary3P.BinaryReplicatedSharing3P.EvaluateAnd | RingOA/sharing/binary_3p.cpp:370-378 | one 64-bit draw, and the result is AndShare of the drawn pair |
| Binary3P.BinaryReplicatedSharing3P.EvaluateSelect | RingOA/sharing/binary_3p.cpp:404-410 | one 64-bit draw, and the result is x XOR AndShare(c, x XOR y) |
| Binary3P.EvaluateXorVec | RingOA/sharing/binary_3p.cpp:352-368 | size mismatch leaves z unchanged; otherwise z holds the componentwise XORs of both share vectors |
| Additive2P.Share | FssWM/sharing/additive_2p.cpp:52-56 | the first share is the random draw reduced to bitsize bits; both shares are below 2^bitsize and add up to x modulo 2^bitsize |
| Additive2P.ReconstLocal | FssWM/sharing/additive_2p.cpp:96-98 | the result is below 2^bitsize and congruent to x0 + x1 |
| Additive2P.ReconstShare | FssWM/sharing/additive_2p.cpp:52-98 | reconstructing the two shares of Share(x) gives x mod 2^bitsize |
| Additive2P.ReconstSharesOf | FssWM/sharing/additive_2p.cpp:96-98 | reconstructing any sharing of x gives x mod 2^bitsize |
| Additive2P.EvaluateAdd | FssWM/sharing/additive_2p.cpp:219-221 | local addition modulo 2^bitsize |
| Additive2P.EvaluateSub | FssWM/sharing/additive_2p.cpp:241-243 | local subtraction modulo 2^bitsize |
| Additive2P.AddShares | FssWM/sharing/additive_2p.cpp:219-221 | adding sharings of x and y share by share gives a sharing of x + y |
| Additive2P.SubShares | FssWM/sharing/additive_2p.cpp:241-243 | subtracting share by share gives a sharing of x - y |
| Additive2P.Masked | FssWM/sharing/additive_2p.cpp:285-291 | the masked differences d = x - a and e = y - b each party sends, modulo 2^bitsize |
| Additive2P.ProductShare | FssWM/sharing/additive_2p.cpp:303-317 | party 0's product share is a e + b d + c + d e, party 1's a e + b d + c, modulo 2^bitsize |
| Additive2P.PartyProduct | FssWM/sharing/additive_2p.cpp:263-317 | one party's EvaluateMult output is ProductShare of the reconstructed d and e |
| Additive2P.BeaverIdentity | FssWM/sharing/additive_2p.cpp:303-317 | the Beaver identity: with d = x - a, e = y - b and c = a b, e a + d b + c + d e = x y modulo m |
| Additive2P.OpenedDifferences | FssWM/sharing/additive_2p.cpp:285-299 | the reconstructed d and e equal x - a and y - b for the joint triple |
| Additive2P.BeaverCorrect | FssWM/sharing/additive_2p.cpp:263-317 | the two parties' product shares reconstruct to x * y modulo 2^bitsize whenever the triple shares hold a valid triple |
| Additive2P.SelectIdentity | FssWM/sharing/additive_2p.cpp:391-409 | for a bit c, x + c (y - x) is y when c = 1 and x when c = 0 |
| Additive2P.SelectCorrect | FssWM/sharing/additive_2p.cpp:391-409 | EvaluateSelect (Sub, Beaver Mult, Add) outputs a sharing of y for c = 1 and of x for c = 0 |
| Additive2P.GenTriple | FssWM/sharing/additive_2p.cpp:455-460 | a and b are the two draws reduced to bitsize bits and c = a b mod 2^bitsize |
| Additive2P.Generated | FssWM/sharing/additive_2p.cpp:455-460 | num triples, triple i built from draws 2i and 2i+1 |
| Additive2P.GeneratedValid | FssWM/sharing/additive_2p.cpp:455-460 | every generated triple satisfies c = a b modulo 2^bitsize |
| Additive2P.ShareTriple | FssWM/sharing/additive_2p.cpp:76-94 | each of a, b, c is split into two shares of it, the first from the draws |
| Additive2P.SharedTripleValid | FssWM/sharing/additive_2p.cpp:76-94 | sharing a valid triple gives triple shares whose sum is a valid triple |
| Additive2P.FieldSum | FssWM/sharing/additive_2p.cpp:119-137 | the uint64_t triple fields added and reduced modulo 2^bitsize into a uint32_t |
| Additive2P.ReconstTriple | FssWM/sharing/additive_2p.cpp:119-137 | each field of the result is the sum of the two shares' fields modulo 2^bitsize |
| Additive2P.ReconstShareTriple | FssWM/sharing/additive_2p.cpp:76-137 | reconstructing the shares of a triple gives back its fields modulo 2^bitsize |
| Additive2P.SharedAll | FssWM/sharing/additive_2p.cpp:76-94 | triple i of both share lists is ShareTriple of triple i with draws 3i, 3i+1, 3i+2 |
| Additive2P.DealtTriplesValid | FssWM/sharing/additive_2p.cpp:18-43 | every triple the offline dealer shares out is a valid Beaver triple across the two parties |
| Additive2P.ShareVec | FssWM/sharing/additive_2p.cpp:67-74 | element i of the two vectors is Share(x[i]), a sharing of x[i] |
| Additive2P.ReconstLocalVec | FssWM/sharing/additive_2p.cpp:105-117 | size mismatch leaves the output as it was; otherwise element i is ReconstLocal of the two elements i |
| Additive2P.EvaluateAddVec | FssWM/sharing/additive_2p.cpp:228-239 | size mismatch leaves z as it was; otherwise element i is EvaluateAdd of the elements i |
| Additive2P.EvaluateSubVec | FssWM/sharing/additive_2p.cpp:250-261 | size mismatch leaves z as it was; otherwise element i is EvaluateSub of the elements i |
| Additive2P.ShareTriples | FssWM/sharing/additive_2p.cpp:76-94 | two fresh consistent triple lists of num_triples (as uint32_t) entries, equal to SharedAll of the source's triples |
| Additive2P.ReconstTriples | FssWM/sharing/additive_2p.cpp:119-137 | mismatched counts leave the output unchanged; otherwise it holds the ReconstTriple of each pair of input triples as they were on entry, also when the output is one of the inputs |
| Additive2P.GenerateBeaverTriplesAsWritten | FssWM/sharing/additive_2p.cpp:448-462 | the code as written: num_triples is never updated, so after a resize the count is stale |
| Additive2P.GenerateBeaverTriples | FssWM/sharing/additive_2p.cpp:448-462 | the corrected generation: num = 0 leaves the list alone, otherwise count and list are num and Generated(rand, num) |
| Additive2P.FillGenerated | FssWM/sharing/additive_2p.cpp:455-460 | the generation loop: the list becomes Generated(rand, num) and the count is untouched |
| Additive2P.StaleCountWitness | FssWM/sharing/additive_2p.cpp:448-462 | an API-misuse example: generating 2 triples into an empty BeaverTriples stores 2 triples but serializes a count of 0, so reading back yields none |
| Additive2P.GeneratedRoundTrip | FssWM/sharing/additive_2p.cpp:448-462 | with the corrected count, serializing and deserializing generated triples gives them back |
| Additive2P.AdditiveSharing2P.constructor | FssWM/sharing/additive_2p.cpp:13-16 | stores the bitsize; no triples and index 0 |
| Additive2P.AdditiveSharing2P.OfflineSetUp | FssWM/sharing/additive_2p.cpp:18-43 | the two buffers written are the serializations of the two share lists of the dealt triples |
| Additive2P.AdditiveSharing2P.LoadTriples | FssWM/sharing/additive_2p.cpp:478-490 | fails exactly when the buffer is shorter than its count says; otherwise the triples become the decoded ones and the index is kept |
| Additive2P.AdditiveSharing2P.RemainingTripleCount | FssWM/sharing/additive_2p.cpp:440-442 | num_triples - index in uint32_t arithmetic; the plain difference whenever the index has not passed the count |
| Additive2P.AdditiveSharing2P.EvaluateMult | FssWM/sharing/additive_2p.cpp:263-318 | with no triple left, z and the index are untouched and nothing is sent; otherwise the masked differences are sent, the next triple is consumed and z is PartyProduct |
| Additive2P.AdditiveSharing2P.EvaluateMultPair | FssWM/sharing/additive_2p.cpp:320-389 | the two-element version consumes two triples under the uint32_t guard index + 1 >= num_triples |
| Additive2P.AdditiveSharing2P.EvaluateSelect | FssWM/sharing/additive_2p.cpp:391-409 | Sub, then EvaluateMult of c and y - x, then Add; when no triple is left the uninitialised product is added |
| Triples.EncodeTriple | FssWM/sharing/beaver_triples.h:84-88 | a triple is 24 bytes: a, b, c as little-endian uint64_t |
| Triples.EncodeTriples | FssWM/sharing/beaver_triples.h:84-88 | the triple list is 24 bytes per triple |
| Triples.DecodeTriples | FssWM/sharing/beaver_triples.h:106-114 | reads exactly n triples |
| Triples.DecodeTriplesAt | FssWM/sharing/beaver_triples.h:106-114 | triple i is decoded from bytes 24i onward |
| Triples.TripleAtOffset | FssWM/sharing/beaver_triples.h:106-114 | triple i of the buffer sits at byte offset 8 + 24i, inside the buffer, as the loop's offset walk reads it |
| Triples.Encoded | FssWM/sharing/beaver_triples.h:79-89 | Serialize's bytes: 8 bytes of count, then 24 per triple |
| Triples.Decoded | FssWM/sharing/beaver_triples.h:91-115 | fails exactly when the buffer is shorter than 8 + 24 times its count; otherwise the count and that many triples |
| Triples.DecodeEncodeTriple | FssWM/sharing/beaver_triples.h:79-115 | decoding an encoded triple, whatever follows it, gives the triple back |
| Triples.DecodeEncodeTriples | FssWM/sharing/beaver_triples.h:79-115 | decoding k triples from an encoded list gives its first k |
| Triples.EncodeTriplesSnoc | FssWM/sharing/beaver_triples.h:84-88 | encoding is appending: one more triple adds its 24 bytes at the end |
| Triples.DecodedEncoded | FssWM/sharing/beaver_triples.h:79-115 | a count no larger than the list round-trips to the count and that prefix of the list |
| Triples.RoundTrip | FssWM/sharing/beaver_triples.h:79-115 | Deserialize(Serialize(t)) == t when the count is the list's length |
| Triples.Decimal | FssWM/sharing/beaver_triples.h:67 | the decimal text of a number: nonempty, all digits |
| Triples.TripleText | FssWM/sharing/beaver_triples.h:67 | "(a,b,c)": starts with '(' and ends with ')' |
| Triples.Listed | FssWM/sharing/beaver_triples.h:66-71 | the shown triples joined by the delimiter; ends with ')' once any is shown |
| Triples.ListedNext | FssWM/sharing/beaver_triples.h:66-71 | each loop step appends the triple's text and, unless it is the last, the delimiter |
| Triples.Shown | FssWM/sharing/beaver_triples.h:61-63 | the number shown is num_triples when limit is 0 or larger, otherwise limit |
| Triples.RenderedEllipsis | FssWM/sharing/beaver_triples.h:60-77 | the text is bracketed and carries "..." before the closing bracket exactly when it was truncated |
| Triples.BeaverTriples.constructor | FssWM/sharing/beaver_triples.h:42-44 | count n and n zero triples |
| Triples.BeaverTriples.Equals | FssWM/sharing/beaver_triples.h:52-54 | equal iff the counts and all triples agree fieldwise |
| Triples.BeaverTriples.Serialize | FssWM/sharing/beaver_triples.h:79-89 | appends Encoded(count, triples) to the buffer, 8 + 24 n bytes |
| Triples.BeaverTriples.Deserialize | FssWM/sharing/beaver_triples.h:91-115 | the count is read even on failure; the size error leaves the triples; success gives Decoded's triples |
| Triples.BeaverTriples.ToString | FssWM/sharing/beaver_triples.h:60-77 | the rendering of the first Shown(limit, count) triples, with "..." when fewer than all are shown |
| RingOaFsc.Flipped | RingOA/protocol/ringoa_fsc.cpp:145-162 | a flipped share is its negation modulo 2^s; an unflipped one is unchanged |
| RingOaFsc.SignedShares | RingOA/protocol/ringoa_fsc.cpp:145-162 | v_sign[j] negates the copies of first share x_{j+1} (party j+1's first, party j+2's second), so the flipped sharing stays replicated |
| RingOaFsc.SignedFlip | RingOA/protocol/ringoa_fsc.cpp:145-162 | weighting a flipped share by its sign (+1 or -1) gives back the share modulo 2^s |
| RingOaFsc.SignedSharesReconstruct | RingOA/protocol/ringoa_fsc.cpp:145-162 | the sign-weighted sum of the flipped first shares reconstructs the database entry modulo 2^s |
| RingOaFsc.NoFlipIsIdentity | RingOA/protocol/ringoa_fsc.cpp:145-162 | with all sign bits clear the sharing is the plain ShareLocal output |
| RingOaFsc.Negated | RingOA/protocol/ringoa_fsc.cpp:146-149 | element-wise Mod2N(-x, s) over a share vector |
| RingOaFsc.FlipShare | RingOA/protocol/ringoa_fsc.cpp:145-150 | one sign flip in place: the first vector of one holder and the second of the other are negated, the other two vectors are unchanged |
| RingOaFsc.PairsAt | RingOA/protocol/ringoa_fsc.cpp:122-163 | the three parties' pairs at index i |
| RingOaFsc.ApplySignFlips | RingOA/protocol/ringoa_fsc.cpp:145-162 | after the three conditional flips, every index holds SignedShares of the plain sharing there |
| RingOaFsc.GenerateDatabaseShare | RingOA/protocol/ringoa_fsc.cpp:122-163 | fails with an invalid argument exactly when the database size is not 2^d; otherwise three fresh distinct vectors whose index i is the ShareLocal of entry i under the sharing's own bit size, with the sign flips applied modulo 2^s |
| RingOaFsc.GenerateDatabaseShareMat | RingOA/protocol/ringoa_fsc.cpp:165-208 | fails exactly when the size is not rows * cols; otherwise three fresh rows x cols matrices, flat index i the sharing of entry i under the sharing's own bit size, sign-flipped modulo 2^s |
| RingOaFsc.ComputeSignCorrection | RingOA/protocol/ringoa_fsc.cpp:272-286 | w is -1 mod 2^s when bit alpha_hat of the seed the control bit selects, the control bit and v_sign XOR to 1, and 1 otherwise |
| RingOaFsc.SignCorrectionIsSign | RingOA/protocol/ringoa_fsc.cpp:272-286 | the correction word is +1 or -1 modulo 2^s and its own inverse |
| RingOaFsc.AssignKeys | RingOA/protocol/ringoa_fsc.cpp:252-262 | party i's key holds pair (i+2) mod 3's first key, first share and word, and pair (i+1) mod 3's second key, second share and word, and keeps its id |
| RingOaFsc.KeyPairsSplit | RingOA/protocol/ringoa_fsc.cpp:252-262 | each DPF pair is split between two different parties: its first key goes to the next party and its second to the one after |
| CharMapper.AlphabetFacts | RingOA/wm/plain_wm.cpp:33-76 | each alphabet ('$ACGT' with sigma 3, '$' and the twenty amino acids with sigma 5) is strictly ascending and fits in sigma bits |
| CharMapper.IndexOf | RingOA/wm/plain_wm.cpp:99-105 | the first position of c in the alphabet, or none exactly when c is absent |
| CharMapper.ToId | RingOA/wm/plain_wm.cpp:99-105 | an id exactly for the alphabet's characters, and it is the character's position |
| CharMapper.CharOf | RingOA/wm/plain_wm.cpp:107-114 | id2char_.at(id): a character exactly for the ids below the alphabet size |
| CharMapper.IdRoundTrip | RingOA/wm/plain_wm.cpp:33-114 | CharOf and ToId are inverse on the alphabet; ids fit in sigma bits and compare as the characters do |
| CharMapper.IndexInverse | RingOA/wm/plain_wm.cpp:70-75 | on an ascending alphabet the id2char_ table and char2id_ are inverse and order-preserving |
| CharMapper.ToIds | RingOA/wm/plain_wm.cpp:90-97 | one id per character, id i being ToId of character i |
| CharMapper.ToString | RingOA/wm/plain_wm.cpp:107-114 | fails with out_of_range exactly when some id is not in the alphabet; otherwise character i is CharOf id i |
| WaveletLevels.Low | RingOA/wm/plain_wm.cpp:199-227 | the value a sigma-level matrix stores for v: its low sigma bits, below 2^sigma |
| WaveletLevels.Partition | RingOA/wm/plain_wm.cpp:521-522 | one level's reordering: the bucket of clear bits, then the bucket of set bits, same length |
| WaveletLevels.PartitionPermutes | RingOA/wm/plain_wm.cpp:521-522 | the two copies back into `current` are a permutation of it |
| WaveletLevels.PartitionZerosFirst | RingOA/wm/plain_wm.cpp:521-522 | after the copy, exactly the first ZeroCount positions hold the values whose bit is clear |
| WaveletLevels.RankRow | RingOA/wm/plain_wm.cpp:501-512 | a rank-of-zeros row has length + 1 entries |
| WaveletLevels.RankRowShape | RingOA/wm/plain_wm.cpp:501-512 | the row starts at 0, steps by one exactly at clear bits and ends at the level's number of zeros |
| WaveletLevels.PartitionRange | RingOA/wm/plain_wm.cpp:229-278 | a window [i, j) of a level maps to two windows of the next one: its zeros at [rank0(i), rank0(j)) and its ones after all zeros, each holding the window's bucket in order |
| WaveletLevels.MsbStage | RingOA/wm/plain_wm.cpp:487-524 | the content of `current` when the MSB-first build reaches a level |
| WaveletLevels.LsbStage | RingOA/wm/plain_wm.cpp:526-562 | the content of `current` when the LSB-first build reaches bit b |
| WaveletLevels.MsbStagePermutes | RingOA/wm/plain_wm.cpp:487-524 | every MSB-first level holds the data in some order |
| WaveletLevels.LsbStagePermutes | RingOA/wm/plain_wm.cpp:526-562 | every LSB-first level holds the data in some order |
| WaveletLevels.Zeroes | RingOA/wm/plain_wm.cpp:461-485 | the zero-filled table of sigma * (length + 1) entries the build starts from |
| WaveletLevels.MsbTableAt | RingOA/wm/plain_wm.cpp:487-524 | entry bit * (n + 1) + i of the MSB-first table is the number of clear bits among the first i values of that bit's level |
| WaveletLevels.LsbRowsAt | RingOA/wm/plain_wm.cpp:526-562 | the same for the LSB-first table |
| WaveletLevels.Within | RingOA/wm/plain_wm.cpp:292-345 | the values of a window whose stored value lies in [lo, hi) |
| WaveletLevels.WithinBuckets | RingOA/wm/plain_wm.cpp:292-345 | splitting an aligned value range on bit b splits the window's values into the lower and upper half ranges |
| WaveletLevels.DescendZero | RingOA/wm/plain_wm.cpp:229-278 | following the zero child narrows the window to the values of the lower half range |
| WaveletLevels.DescendOne | RingOA/wm/plain_wm.cpp:229-278 | following the one child moves the window past all zeros to the values of the upper half range |
| WaveletLevels.HoldsAtBottom | RingOA/wm/plain_wm.cpp:229-278 | at level 0 the window's width is the number of occurrences of the value reached |
| WaveletLevels.KthUnique | RingOA/wm/plain_wm.cpp:229-278 | the k-th smallest value of a window is unique |
| WaveletLevels.KthOccurs | RingOA/wm/plain_wm.cpp:229-278 | the k-th smallest value occurs in the window |
| WaveletLevels.KthFirstIsMin | RingOA/wm/plain_wm.cpp:280-284 | the 0-th smallest value occurs and is at most every value of the window |
| WaveletLevels.KthLastIsMax | RingOA/wm/plain_wm.cpp:286-290 | the (r-l-1)-th smallest value occurs and is at least every value of the window |
| WaveletLevels.LfPos | RingOA/wm/plain_wm.cpp:420-459 | the position RankCF's walk reaches after b levels, within the data |
| WaveletLevels.LfPosHolds | RingOA/wm/plain_wm.cpp:420-459 | after b levels the position counts, in the LSB-first level b, the values below c in the low b bits plus those equal to c before position |
| WaveletLevels.LfPosCounts | RingOA/wm/plain_wm.cpp:420-459 | after all levels: the number of values below c plus the occurrences of c before position, the LF mapping |
| WaveletLevels.ListingEntries | RingOA/wm/plain_wm.cpp:347-401 | every listed pair is a value in [lo, hi) and its positive number of occurrences |
| WaveletLevels.ListingDescending | RingOA/wm/plain_wm.cpp:347-401 | the listed values are strictly descending |
| WaveletLevels.ListingComplete | RingOA/wm/plain_wm.cpp:347-401 | every value in [lo, hi) that occurs is listed with its count |
| WaveletLevels.ListingTotal | RingOA/wm/plain_wm.cpp:347-401 | the listed counts add up to RangeFreq's count |
| PlainWm.Level | RingOA/wm/plain_wm.cpp:461-562 | the content of `current` when the build (MSB-first or LSB-first) fills the row of bit b, a reordering of the data |
| PlainWm.TableAt | RingOA/wm/plain_wm.cpp:461-562 | entry bit * (n + 1) + i of the table is the number of clear bits b among the first i values of that level |
| PlainWm.WaveletMatrix.FromText | RingOA/wm/plain_wm.cpp:131-143 | builds over the ids of the text's characters, sigma from the mapper's alphabet, and the table the data and order determine |
| PlainWm.WaveletMatrix.FromIds | RingOA/wm/plain_wm.cpp:145-155 | builds over the given values with the given sigma and order |
| PlainWm.WaveletMatrix.Build | RingOA/wm/plain_wm.cpp:461-485 | sets the length and leaves exactly the rank-of-zeros table of the data in the chosen order (empty for no data) |
| PlainWm.WaveletMatrix.BuildMsbFirst | RingOA/wm/plain_wm.cpp:487-524 | from a zeroed table, leaves the MSB-first table: row b counts the clear bits b of the level reached after partitioning on the higher bits |
| PlainWm.WaveletMatrix.BuildLsbFirst | RingOA/wm/plain_wm.cpp:526-562 | from a zeroed table, leaves the LSB-first table: row b counts the clear bits b of the level reached after partitioning on bits below b |
| PlainWm.WaveletMatrix.FillRow | RingOA/wm/plain_wm.cpp:494-522 | one level: the row's slot becomes RankRow of the level, the rest of the table is unchanged, and the next level is its stable zeros-then-ones partition |
| PlainWm.WaveletMatrix.PlaceElement | RingOA/wm/plain_wm.cpp:501-512 | one inner step: the value goes to the next free slot of its bit's bucket; the next row entry is the previous plus one for a clear bit, plus zero for a set bit |
| PlainWm.WaveletMatrix.Access | RingOA/wm/plain_wm.cpp:199-227 | out_of_range exactly when i >= length; otherwise a value below 2^sigma given by the MSB-down walk, which on an MSB-first matrix is data[i] in sigma bits |
| PlainWm.AccessWalk | RingOA/wm/plain_wm.cpp:206-226 | the loop of Access computes AccessPath, and on an MSB-first table recovers the stored value |
| PlainWm.AccessLevel | RingOA/wm/plain_wm.cpp:207-225 | one level of Access keeps the walk's invariant: the position is where the value sits in the next level and the result holds its high bits |
| PlainWm.LsbAccessMisreads | RingOA/wm/plain_wm.cpp:199-227 | Access on an LSB-first matrix is not the stored value: over [2, 1] with sigma 2, Access(0) gives 3, not 2 |
| PlainWm.WaveletMatrix.Quantile | RingOA/wm/plain_wm.cpp:229-278 | invalid_argument exactly when l >= r and out_of_range when k >= r - l; otherwise, on an MSB-first matrix, the k-th smallest value of the window |
| PlainWm.QuantileWalk | RingOA/wm/plain_wm.cpp:236-277 | the narrowing loop of Quantile returns the k-th smallest value of data[l..r] on an MSB-first table |
| PlainWm.WaveletMatrix.RangeMin | RingOA/wm/plain_wm.cpp:280-284 | an empty window is an invalid argument; otherwise a value occurring in [l, r) and at most all of them |
| PlainWm.WaveletMatrix.RangeMax | RingOA/wm/plain_wm.cpp:286-290 | an empty window is an invalid argument; otherwise a value occurring in [l, r) and at least all of them |
| PlainWm.WindowMin | RingOA/wm/plain_wm.cpp:280-284 | the window's least value read back in the data's own positions |
| PlainWm.WindowMax | RingOA/wm/plain_wm.cpp:286-290 | the window's greatest value read back in the data's own positions |
| PlainWm.WaveletMatrix.RangeFreq | RingOA/wm/plain_wm.cpp:292-345 | 0 for an empty window or value range; otherwise the number of values of data[l..r] in [x, y) |
| PlainWm.RangeFreqWalk | RingOA/wm/plain_wm.cpp:297-344 | the stack walk of RangeFreq counts exactly the values in [x, y) |
| PlainWm.Children | RingOA/wm/plain_wm.cpp:318-341 | the two children of a node are its zero and one halves, each pushed exactly when its value range meets [x, y) |
| PlainWm.Expand | RingOA/wm/plain_wm.cpp:303-343 | popping a node and pushing its children keeps every stacked node well placed, shrinks the stack's weight, and keeps the pending count and listing |
| PlainWm.HalvesCount | RingOA/wm/plain_wm.cpp:318-341 | a node's share of [x, y) is the sum of the shares of the children that meet [x, y) |
| PlainWm.RootNode | RingOA/wm/plain_wm.cpp:297-302 | the root node [l, r) at the top level stands for the whole window: its pending count and listing are the answers |
| PlainWm.WaveletMatrix.RangeList | RingOA/wm/plain_wm.cpp:347-401 | [] for an empty window or range; otherwise the distinct values in [x, y) with their counts, in descending value order |
| PlainWm.RangeListWalk | RingOA/wm/plain_wm.cpp:352-400 | the stack walk of RangeList produces exactly Listing of the window |
| PlainWm.InsertByCount | RingOA/wm/plain_wm.cpp:409-416 | inserting keeps the elements and keeps a count-descending list count-descending |
| PlainWm.SortByCount | RingOA/wm/plain_wm.cpp:409-416 | the sort by descending count: a permutation, ordered by count |
| PlainWm.Leading | RingOA/wm/plain_wm.cpp:409-416 | the first min(k, n) entries |
| PlainWm.CutByCount | RingOA/wm/plain_wm.cpp:409-416 | in a count-descending list every kept entry's count is at least every dropped entry's |
| PlainWm.LeadingIsTop | RingOA/wm/plain_wm.cpp:409-416 | the k kept entries are a sub-multiset of the list, count-descending, and none has a smaller count than a dropped one |
| PlainWm.WaveletMatrix.TopK | RingOA/wm/plain_wm.cpp:403-418 | [] for an empty window; otherwise min(k, n) entries of the window's value list, sorted by count, none outcounted by a dropped one |
| PlainWm.WaveletMatrix.RankCF | RingOA/wm/plain_wm.cpp:420-459 | 0 unless LSB-first and nonempty; then the number of values below c plus the occurrences of c before position |
| PlainWm.RankCFWalk | RingOA/wm/plain_wm.cpp:432-458 | the bit loop of RankCF ends at LfPos, the LF mapping of c |
| PlainWm.RankStep | RingOA/wm/plain_wm.cpp:433-451 | one bit of RankCF moves LfPos from b to b + 1 levels |
| PlainWm.LsbRow | RingOA/wm/plain_wm.cpp:437-449 | the two table reads of one RankCF step are the zeros before the position and the total zeros of that LSB-first level |
| PlainFmIndex.LfChar | RingOA/wm/plain_wm.cpp:635-642 | the LF mapping of c at row p of the BWT: the characters below c plus the occurrences of c before p, at most the BWT's length |
| PlainFmIndex.LfMonotone | RingOA/wm/plain_wm.cpp:635-642 | the LF mapping keeps the order of rows, so a backward-search interval stays an interval |
| PlainFmIndex.Search | RingOA/wm/plain_wm.cpp:644-662 | the backward-search interval of a query, left <= right <= n |
| PlainFmIndex.Widths | RingOA/wm/plain_wm.cpp:651-662 | the `intervals` vector: one width per query character |
| PlainFmIndex.WidthsAt | RingOA/wm/plain_wm.cpp:651-662 | entry k of the widths is the width after the first k + 1 characters |
| PlainFmIndex.LeadingNonzero | RingOA/wm/plain_wm.cpp:667-673 | the number of leading nonzero widths: all before it are nonzero and the next, if any, is zero |
| PlainFmIndex.Lpm | RingOA/wm/plain_wm.cpp:644-674 | the longest prefix match: every prefix up to it is found and the next one is not |
| PlainFmIndex.EmptyStays | RingOA/wm/plain_wm.cpp:644-674 | an empty interval stays empty whatever character comes next |
| PlainFmIndex.NonemptyPrefixes | RingOA/wm/plain_wm.cpp:644-674 | a non-empty interval was reached through non-empty intervals only |
| PlainFmIndex.LpmSnoc | RingOA/wm/plain_wm.cpp:729-731 | one more query character adds 1 to the match length exactly when its interval is non-empty, which is why the BWT-only version's running count is right |
| PlainFmIndex.IdOrder | RingOA/wm/plain_wm.cpp:33-76 | an alphabet character's id fits in sigma bits, and ids compare and coincide as the characters do |
| PlainFmIndex.IdsBelow | RingOA/wm/plain_wm.cpp:420-459 | the ids below c's id are the characters below c |
| PlainFmIndex.IdsOcc | RingOA/wm/plain_wm.cpp:420-459 | the ids equal to c's id are the occurrences of c |
| PlainFmIndex.RankIsLf | RingOA/wm/plain_wm.cpp:635-642 | RankCF over the ids of the BWT is the LF mapping of the BWT string |
| PlainFmIndex.BitsOf | RingOA/wm/plain_wm.cpp:611-616 | the first k bits of v, least significant first |
| PlainFmIndex.BitRows | RingOA/wm/plain_wm.cpp:608-617 | sigma bits per id, n * sigma in all |
| PlainFmIndex.BitRowsAt | RingOA/wm/plain_wm.cpp:608-617 | entry i * sigma + b is bit b of id i |
| PlainFmIndex.Reversed | RingOA/wm/plain_wm.cpp:566-567 | std::reverse: same length, character i is character n-1-i |
| PlainFmIndex.FmIndex.constructor | RingOA/wm/plain_wm.cpp:564-585 | stores the reversed text and builds the LSB-first matrix over the given BWT |
| PlainFmIndex.FmIndex.ConvertToBitMatrix | RingOA/wm/plain_wm.cpp:595-619 | |query| * sigma bits, entry i * sigma + b being bit b of the id of query[i] |
| PlainFmIndex.BitMatrix | RingOA/wm/plain_wm.cpp:608-617 | the nested loop fills exactly BitRows of the ids |
| PlainFmIndex.AppendBits | RingOA/wm/plain_wm.cpp:612-616 | the inner loop appends the sigma low bits of one id |
| PlainFmIndex.FmIndex.BackwardSearch | RingOA/wm/plain_wm.cpp:635-642 | both ends of the interval move by the LF mapping of c |
| PlainFmIndex.FmIndex.ComputeLpmFromWm | RingOA/wm/plain_wm.cpp:644-674 | the number of leading non-empty intervals, which is the longest prefix match of the query |
| PlainFmIndex.FmIndex.SearchOne | RingOA/wm/plain_wm.cpp:655-661 | one iteration advances the interval to that of one more character and records its width |
| PlainFmIndex.CountLeading | RingOA/wm/plain_wm.cpp:667-673 | counts the widths up to the first zero |
| PlainFmIndex.SearchSnoc | RingOA/wm/plain_wm.cpp:644-662 | searching one more character maps both ends by LF and appends the new width |
| PlainFmIndex.FmIndex.ComputeLpmFromBwt | RingOA/wm/plain_wm.cpp:676-742 | the BWT-only computation gives the same longest prefix match |
| PlainFmIndex.CharCounts | RingOA/wm/plain_wm.cpp:680-684 | the map's keys are the BWT's characters and each value the number of occurrences |
| PlainFmIndex.Offsets | RingOA/wm/plain_wm.cpp:686-692 | one offset per BWT character: the number of BWT characters smaller than it |
| PlainFmIndex.NextOffset | RingOA/wm/plain_wm.cpp:688-692 | one step of the ordered walk gives the least remaining character the running total |
| PlainFmIndex.OffsetStep | RingOA/wm/plain_wm.cpp:704-731 | one query character (F[c] inserting 0 for an absent c) keeps f and g the search interval and adds to the count exactly when f < g |
| SuffixSort.Range | FssWM/wm/fmindex.cpp:40-44 | the index array [0, n) the suffix array starts from |
| SuffixSort.LexTotal | FssWM/wm/fmindex.cpp:46-49 | std::string::compare's order is total on strings |
| SuffixSort.LexAsymmetric | FssWM/wm/fmindex.cpp:46-49 | and strict |
| SuffixSort.LexTransitive | FssWM/wm/fmindex.cpp:46-49 | and transitive, so the comparator is a strict weak order |
| SuffixSort.InsertSuffix | FssWM/wm/fmindex.cpp:46-49 | inserting one position keeps the positions and adds x |
| SuffixSort.InsertOrdered | FssWM/wm/fmindex.cpp:46-49 | inserting into suffix order keeps it in suffix order |
| SuffixSort.SortSuffixes | FssWM/wm/fmindex.cpp:46-49 | the sorted positions, all within the text |
| SuffixSort.SortSuffixesSorts | FssWM/wm/fmindex.cpp:46-49 | the sort is a permutation of its input in non-decreasing suffix order |
| SuffixSort.DistinctSuffixes | FssWM/wm/fmindex.cpp:38-50 | suffixes at different positions differ |
| SuffixSort.PermutationDistinct | FssWM/wm/fmindex.cpp:38-50 | a permutation of [0, n) holds each position once |
| SuffixSort.SuffixArrayIncreasing | FssWM/wm/fmindex.cpp:38-50 | the suffix array lists the suffixes in strictly increasing order |
| TextCount.CountChar | FssWM/wm/fmindex.cpp:73-76 | the occurrences of c, at most the length |
| TextCount.CountBelow | FssWM/wm/fmindex.cpp:68-69 | the characters smaller than c, what a C-table entry should hold |
| TextCount.BelowAndChar | FssWM/wm/fmindex.cpp:127-130 | C[c] + occurrences of c fit in the text, so backward search stays within the rows |
| TextCount.CountPrefixMonotone | FssWM/wm/fmindex.cpp:122-125 | rank grows with the position, by at most the positions added |
| FssFmIndex.BwtOf | FssWM/wm/fmindex.cpp:52-66 | BWT[i] is the character before suffix sa[i], wrapping to the last character for sa[i] = 0 |
| FssFmIndex.Firsts | FssWM/wm/fmindex.cpp:21-27 | the distinct characters of a string in order of first appearance |
| FssFmIndex.SumCountsIn | FssWM/wm/fmindex.cpp:79-83 | the prefix sum of the frequencies of some distinct characters counts the text characters among them |
| FssFmIndex.SumCountsAll | FssWM/wm/fmindex.cpp:79-83 | the sum over the whole alphabet is the text length |
| FssFmIndex.Rank | FssWM/wm/fmindex.cpp:124-125 | the occurrences of id v among the first pos ids, at most pos |
| FssFmIndex.Step | FssWM/wm/fmindex.cpp:111-131 | one backward-search step: an unknown character gives [0, 0), an empty interval stays empty, the result stays within the rows |
| FssFmIndex.BackRange | FssWM/wm/fmindex.cpp:133-145 | the interval after searching the pattern from its end, within the rows |
| FssFmIndex.EmptyStays | FssWM/wm/fmindex.cpp:140-142 | once a suffix of the pattern has an empty interval the whole pattern does, which is why the early return is right |
| FssFmIndex.UnknownEmpties | FssWM/wm/fmindex.cpp:114-119 | a pattern containing a character absent from the BWT has no match |
| FssFmIndex.CharOrderOffsets | FssWM/wm/fmindex.cpp:68-69 | the C-table the comment promises: each BWT character maps to the number of smaller characters |
| FssFmIndex.IdOrderOffsets | FssWM/wm/fmindex.cpp:70-84 | the C-table the code builds: each character maps to the count of characters with a smaller first-appearance id |
| FssFmIndex.IdOrderIsCharOrder | FssWM/wm/fmindex.cpp:70-84 | the two C-tables agree when the BWT's characters first appear in ascending order |
| FssFmIndex.CountAsWritten | FssWM/wm/fmindex.cpp:133-145 | count as written, with the id-order C-table, at most n |
| FssFmIndex.CountAsWrittenAgrees | FssWM/wm/fmindex.cpp:133-145 | when first appearance is ascending, count as written is the width of the correct interval |
| FssFmIndex.CountAsWrittenMissesBa | FssWM/wm/fmindex.cpp:70-84 | on the text "ba" the BWT is "ab$" and count as written gives 0 for "ba", while the correct interval has width 1 |
| FssFmIndex.CharOrderFindsBa | FssWM/wm/fmindex.cpp:68-69 | with the character-order C-table "ba" is found at row 2, the suffix starting at 0 |
| FssFmIndex.InsertPosition | FssWM/wm/fmindex.cpp:166 | inserting one position keeps the others and adds x |
| FssFmIndex.SortPositions | FssWM/wm/fmindex.cpp:166 | std::sort of the positions: a permutation in ascending order |
| FssFmIndex.SmallerTotal | FssWM/wm/fmindex.cpp:79-83 | the frequencies of the characters below c add up to the count of characters below c |
| FssFmIndex.BuildSuffixArray | FssWM/wm/fmindex.cpp:38-50 | the suffix array is SortSuffixes of [0, n) |
| FssFmIndex.BuildBwt | FssWM/wm/fmindex.cpp:52-66 | the loop builds BwtOf the text and suffix array |
| FssFmIndex.CharToId | FssWM/wm/fmindex.cpp:86-96 | a known character keeps the maps and returns its id; a new one gets id |char2id| and is appended to id2char |
| FssFmIndex.MapChars | FssWM/wm/fmindex.cpp:21-27 | every BWT character is mapped and id2char lists them in order of first appearance |
| FssFmIndex.MapOne | FssWM/wm/fmindex.cpp:23-25 | one step of the mapping loop extends id2char to the first appearances of one more character |
| FssFmIndex.Frequencies | FssWM/wm/fmindex.cpp:72-76 | freq[k] is the occurrences of the character with id k |
| FssFmIndex.BuildCTable | FssWM/wm/fmindex.cpp:70-84 | the code as written: entry k sums the frequencies of ids below k |
| FssFmIndex.CTableTotal | FssWM/wm/fmindex.cpp:79-83 | the last entry plus its frequency is the BWT length |
| FssFmIndex.CTableIsIdOrder | FssWM/wm/fmindex.cpp:70-84 | the table as written is the id-order C-table |
| FssFmIndex.BuildCTableByChar | FssWM/wm/fmindex.cpp:68-84 | the corrected table: entry k counts the BWT characters smaller than character k |
| FssFmIndex.BwtToInts | FssWM/wm/fmindex.cpp:102-109 | element i is the id of BWT character i |
| FssFmIndex.FmIndex.constructor | FssWM/wm/fmindex.cpp:8-35 | text + '$', suffix array, BWT, mapping, character-order C-table and ids; the result meets the queries' invariant |
| FssFmIndex.FmIndex.BuiltIsValid | FssWM/wm/fmindex.cpp:8-35 | the constructor's tables meet what the queries rely on |
| FssFmIndex.FmIndex.SuffixArrayOrder | FssWM/wm/fmindex.cpp:38-50 | the suffix array is a permutation of the positions listing the suffixes in strictly increasing order |
| FssFmIndex.FmIndex.IdToChar | FssWM/wm/fmindex.cpp:98-100 | the character with a given id, which maps back to it |
| FssFmIndex.FmIndex.RankCounts | FssWM/wm/fmindex.cpp:124-125 | rank over the ids counts the character in the BWT prefix |
| FssFmIndex.FmIndex.BackwardSearch | FssWM/wm/fmindex.cpp:111-131 | one Step with the character-order C-table; an unknown character gives [0, 0) |
| FssFmIndex.FmIndex.SearchPattern | FssWM/wm/fmindex.cpp:134-143 | the loop finds a non-empty interval exactly when the pattern's interval is non-empty, and then that interval |
| FssFmIndex.FmIndex.SearchStep | FssWM/wm/fmindex.cpp:137-139 | one iteration extends the searched suffix of the pattern by one character |
| FssFmIndex.FmIndex.Count | FssWM/wm/fmindex.cpp:133-145 | the width of the pattern's interval, at most n, and 0 when a character of the pattern is not in the text |
| FssFmIndex.FmIndex.Locate | FssWM/wm/fmindex.cpp:147-168 | the suffix-array entries of the pattern's interval, sorted ascending |
| BuildOptions.HasFlag | build.py:23-24 | true exactly when the flag is one of the arguments |
| BuildOptions.SplitArgs | build.py:42-50 | with "--" present, the main part, "--" and the CMake part rebuild argv and the main part has no "--"; without it all arguments are main arguments and there are no CMake arguments |
| BuildOptions.Clamp | build.py:34-35 | a job count below 1 becomes 1; one at least 1 is kept |
| BuildOptions.ParallelOf | build.py:27-39 | a successful reading is at least one job; a failure is exit status 1 |
| BuildOptions.GetParallel | build.py:27-39 | the loop over the arguments computes the same outcome as ParallelOf |
| BuildOptions.InvalidExits | build.py:29-38 | one `--par=` argument whose value is not an integer makes the script exit with status 1 whatever the CPU count and whatever follows |
| BuildOptions.LastParWins | build.py:29-35 | appending `--par=n` to arguments that do not exit sets the job count to n, clamped to at least 1: later values override earlier ones |
| BuildOptions.AlreadySetsBuildType | build.py:53-57 | true exactly when some CMake argument contains CMAKE_BUILD_TYPE |
| BuildOptions.BuildTypeDefineMentions | build.py:55 | the startswith test is subsumed by the contains test: a `-DCMAKE_BUILD_TYPE=` definition contains CMAKE_BUILD_TYPE |
| BuildOptions.ComputeBuildType | build.py:60-65 | Debug exactly when --debug or --Debug is given; RelWithDebInfo exactly when neither is but --profile or --Profile is; otherwise Release |
| BuildOptions.FirstInstallValue | build.py:71-74 | absent exactly when no argument starts with `--install=`; otherwise the value of the first such argument |
| BuildOptions.GetInstallArgs | build.py:68-78 | use_sudo exactly when --sudo is given; a prefix exactly when some `--install=` argument is, then installing with the absolute path of the first one; without a prefix, installing exactly when --install is given |
| BuildOptions.UserSpecifiedGenerator | build.py:84-88 | true exactly when some CMake argument starts with -G |
| ScriptText.StartsWithContains | build.py:55 | a string starting with p + sub contains sub |
| ScriptText.NatToDecimal | thirdparty/getCryptoTools.py:35 | `str(n)` is a non-empty string of decimal digits |
| ScriptText.ParseInt | build.py:32-33 | a successful `int(s)` needs a non-empty string |
| ScriptText.DecimalValue | build.py:33 | the digits of `str(n)` denote n |
| ScriptText.ParseDecimal | build.py:33 | `int(str(n)) == n` for every non-negative n |
| Shell.Privileged | build.py:11-13 | the command is run as given or prefixed by sudo and nothing else |
| Shell.Host.constructor | build.py:11-15 | a host starts with no command issued |
| Shell.Host.Run | build.py:11-15 | one command is appended to the issued log: behind sudo exactly when asked for on a non-Windows host, with the given working directory |
| BuildPy.Build | build.py:157-209 | without cmake on PATH the prerequisite error escapes before any command; otherwise the build finishes after issuing exactly the build commands |
| BuildPy.RunSteps | build.py:195-203 | make_directory, configure and build are issued in that order, then the install command exactly when installing, behind sudo when asked for |
| BuildPy.Configure | build.py:163-177 | the configure argument vector is the one ConfigureArgv describes |
| BuildPy.BuildSequence | build.py:179-203 | a build issues 3 commands, 4 exactly when --install or --install=PATH is given: make_directory of out/build/linux, configure with `-S . -B` that directory, then `cmake --build` of it |
| BuildPy.InstallRequested | build.py:175-203 | the install command is issued exactly when requested, and is prefixed by sudo exactly when --sudo is given on a non-Windows host |
| BuildPy.CMakeArgsForwarded | build.py:170-198 | the arguments after "--" appear verbatim in the configure command right after the generator options |
| BuildPy.ParallelJobs | build.py:179-181 | `--parallel` is passed exactly when more than one job is wanted, and its value reads back as the job count |
| BuildPy.NinjaChosen | build.py:163-168 | `-G Ninja` is passed exactly when no CMake argument starts with -G and ninja is on PATH |
| BuildPy.EffectiveBuildType | build.py:170-173 | the CMake arguments come first; when none sets the build type the next one defines the computed type and is the first to mention CMAKE_BUILD_TYPE; otherwise the colour flag follows them directly |
| BuildPy.DataPaths | build.py:100-125 | one path per data directory, each under the script's directory |
| BuildPy.EnsureDirs | build.py:91-97 | the issued commands are the make_directory commands of the missing paths, in order |
| BuildPy.MakeDirsOnly | build.py:91-97 | no more commands than paths, and every command creates a listed path that did not exist |
| BuildPy.MakeDirsExact | build.py:91-97 | a directory is created exactly when it is listed and missing |
| BuildPy.Setup | build.py:129-153 | git is required before cmake, and a missing tool raises before any command; otherwise cryptoTools is fetched and built, then the data directories are created |
| BuildPy.SetupSubBuilds | build.py:140-147 | setup runs two sub-builds in the cryptoTools checkout, Boost's and cryptoTools'; read with this project's build.py option rules, each asks for par jobs, installing into thirdparty/unix without sudo, as a Release build |
| BuildPy.Dispatch | build.py:240-253 | --help issues nothing; an invalid --par exits with status 1 before any command; --setup runs setup, anything else the build; with --setup a missing git, then a missing cmake, and without it a missing cmake, end the run in that RuntimeError before any command, and no other error escapes |
| CryptoToolsSetup.SubBuilds | thirdparty/getCryptoTools.py:43-68 | one sub-build per enabled step, each running build.py with the base options and that step's options in the cryptoTools checkout |
| CryptoToolsSetup.SubBuildsSnoc | thirdparty/getCryptoTools.py:43-68 | running one more step appends exactly its sub-build |
| CryptoToolsSetup.GetCryptoTools | thirdparty/getCryptoTools.py:17-68 | the clone (only when the checkout is missing) and pin commands are issued first, then the Boost, Relic and cryptoTools sub-builds that are enabled, in that order |
| CryptoToolsSetup.BaseArgs | thirdparty/getCryptoTools.py:32-39 | the base vector is the interpreter, build.py, the job count, the install prefix, then --debug when debugging and --sudo when asked for off Windows |
| CryptoToolsSetup.Pin | thirdparty/getCryptoTools.py:26-30 | the clone is issued only when the checkout is missing, followed by fetch, checkout of the pinned commit and submodule update |
| CryptoToolsSetup.RunStep | thirdparty/getCryptoTools.py:43-68 | running a step extends the issued log by exactly that step's sub-build |
| CryptoToolsSetup.Flags | thirdparty/getCryptoTools.py:32-39 | --debug is present exactly when debugging, --sudo exactly when sudo is passed on, and no other build-type flag |
| CryptoToolsSetup.SubBuildOptionsRead | thirdparty/getCryptoTools.py:35-39 | read with this project's build.py option rules, a sub-build's options ask for exactly par jobs, an install into thirdparty/unix, a Debug build exactly when debugging (Release otherwise) and sudo exactly when it was passed on |

## Left out

Operations not modelled:

- Network I/O in Open, Reconst, EvaluateMult, EvaluateAnd and EvaluateSelect is not modelled. The value a peer would send is a parameter, so only the local arithmetic of each party is modelled.
- The AES keys, the PRG and `GenerateRandomValue` are left out: they are foreign cryptographic code. Random draws are parameters, and the AES counter-mode streams are functions from counter to block.
- File I/O is left out. This covers `OfflineSetUp`/`OnlineSetUp`/`RandOffline` of the 3-party sharings and the file reads and writes of `AdditiveSharing2P`; only the byte buffers they read or write are modelled.
- Logging, `PrintParameters`, `PrintKey`, `PrintTriples`, `GetParametersInfo`, `MapToString` and the `print` lines of the build scripts are dropped. They have no effect on results.
- The simple getters (`GetSigma`, `GetLength`, `GetBitSize` and the like) are fields of the model.
- The vector `EvaluateMult`, vector `EvaluateSelect` and `EvaluateInnerProduct` of `RingOA/sharing/additive_3p.cpp` (240-337) are not modelled. Nor are the vector `EvaluateAnd`/`EvaluateSelect` (380-440) and the vector, matrix and block `ShareLocal`/`Open` overloads (45-308) of `RingOA/sharing/binary_3p.cpp`. Each applies the scalar operation per element, and the scalar operations are modelled.
- The two-element array overloads of `Share`, `ReconstLocal`, `EvaluateAdd`, `EvaluateSub` and `EvaluateSelect` in `FssWM/sharing/additive_2p.cpp` are per-element copies of the scalar ones and are not modelled separately. The array `EvaluateMult` is modelled, as `EvaluateMultPair`.
- `RingOaFscKey` serialisation, the rest of `GenerateKeys` (DPF key generation) and `RingOaFscEvaluator` are not modelled. They are interactive or rest on DPF evaluation, which is not part of this model.
- `FMIndex::BuildBwt` of `RingOA/wm/plain_wm.cpp` (621-633) is not modelled because it calls SDSL. `PlainFmIndex.FmIndex.constructor` takes the BWT as a parameter instead of computing it.
- The wavelet matrix of `FssWM/wm/fmindex.cpp` is seen only through its rank query. `FssFmIndex.Rank` counts an id in a prefix of the id sequence.
- Directory creation is not modelled: `Shell.Host` keeps the directories that existed at start, and `BuildPy.EnsureDirs` is stated against them.
- The script's own location (`Path(__file__).resolve().parent`) is a parameter, `root`. `os.path.abspath`/`expanduser` is a function parameter, `absPath`.
- The `ImportError` branch of `Setup` (build.py:133-137) is not modelled; the fetcher module is always present.
- cryptoTools' own `build.py`, which each sub-build of `getCryptoTools` runs in the checkout, is not part of this model. `CryptoToolsSetup.SubBuildOptionsRead` and `BuildPy.SetupSubBuilds` read the sub-build options with this project's build.py option rules. They assume cryptoTools' script parses `--par=`, `--install=`, `--debug` and `--sudo` the same way.

Members whose contract is weaker than the source:

- Shell.Host.Run: every command succeeds. `subprocess.run(..., check=True)` would raise on a non-zero exit, and `Build` would then exit with status 1 (build.py:204-209). Command exit statuses are not modelled, so `BuildPy.Build` and `BuildPy.Setup` never end in `Exited(1)` after a failed command.
- ScriptText.ParseInt: accepts only an optional sign followed by ASCII digits. Python's `int()` also accepts surrounding whitespace, underscores between digits ("1_0") and non-ASCII decimal digits. So `BuildOptions.GetParallel` exits on some `--par=` values the script accepts.
- Additive2P.Share: like every `Additive2P` operation, it requires `bitsize < 32`. The source's `Mod(x, bitsize)` computes `x & ((1U << bitsize) - 1)` (FssWM/utils/utils.h:181-183), and that shift is undefined at 32.
- Additive3P.ShareLocal: like every `Additive3P` operation and the `ReplicatedSharing3P` constructor, it requires `bitsize < 64`. The source's `Mod2N` shift is undefined at 64.
- RingOaFsc.GenerateDatabaseShare: requires `d < 64`, `s < 64` and a sharing bit size below 64 for the same reason. The random values are parameters, each as long as the database.
- Triples.BeaverTriples.Deserialize: requires a buffer of at least 8 bytes. The source reads the 8-byte count unchecked (beaver_triples.h:93-96). The size check `8 + 24 * num_triples` is computed without the `size_t` wrap (line 98); a count near 2^64 / 24 would wrap in the source.
- Triples.BeaverTriples.ToString: requires the stored list to be at least as long as the count. The source indexes the list up to the count.
- Additive2P.AdditiveSharing2P.LoadTriples: inherits the 8-byte requirement of `Deserialize`.
- DpfKey.DpfKey.Deserialize: requires `Decodable(buffer)`, a buffer long enough for the header and the body it announces. The source copies without any bound check (dpf_key.cpp:186-213), so a short buffer is out-of-bounds reading there.
- CharMapper.ToId: returns `None` for a character outside the alphabet. The source dereferences `end()` of the map (plain_wm.cpp:99-105), which is undefined.
- CharMapper.ToIds: requires every character to be valid, for the same reason. The same requirement holds for `PlainWm.WaveletMatrix.FromText` and the query methods of `PlainFmIndex.FmIndex`.
- PlainWm.WaveletMatrix.Access: the value is stated only for an MSB-first matrix. The source walks MSB to LSB whatever the build order and does not check it. `PlainWm.LsbAccessMisreads` shows an LSB-first matrix over [2, 1] with sigma 2, where Access(0) returns 3.
- PlainWm.WaveletMatrix.Quantile: the k-th smallest is stated only for MSB-first matrices (same reason as Access). The method also requires `r <= length` on a non-empty range; the source does not check it and would read past the rank table.
- PlainWm.WaveletMatrix.RangeMin: MSB-first only, and `r <= length`, as for Quantile.
- PlainWm.WaveletMatrix.RangeMax: MSB-first only, and `r <= length`, as for Quantile.
- PlainWm.WaveletMatrix.RangeFreq: the count is stated only for MSB-first matrices, and the method requires `r <= length` on a non-empty range.
- PlainWm.WaveletMatrix.RangeList: the listing is stated only for MSB-first matrices, and the method requires `r <= length` on a non-empty range.
- PlainWm.WaveletMatrix.TopK: MSB-first only, and `r <= length`. Its first ensures fixes the order of equal counts through the stable insertion sort `SortByCount`. The source uses `std::sort`/`std::partial_sort` (plain_wm.cpp:409-416), which are unstable and may order ties differently. The other ensures (descending counts, membership, dominance over what is cut) do not depend on the tie order.
- PlainWm.WaveletMatrix.RankCF: requires `position <= length`; the source reads the rank table at `position` unchecked.
- PlainFmIndex.FmIndex.BackwardSearch: requires a valid character and an interval inside the BWT.
- Binary3P.BinaryReplicatedSharing3P.Rand: requires the PRF buffer to be filled (`Ready`) and the read offset 8-byte aligned (`Aligned`). Both are invariants of every reachable state.
- FssFmIndex.Frequencies: the counts are unbounded integers. The source keeps `freq` in `uint32_t` (FssWM/wm/fmindex.cpp:72-76), so a BWT of 2^32 or more characters would wrap there.
- FssFmIndex.BuildCTable: the prefix sums are unbounded. The source keeps `sum` and `c_table_` in `uint32_t` (FssWM/wm/fmindex.h:30, fmindex.cpp:78-83), which wrap for a text of 2^32 or more characters.
- FssFmIndex.BuildCTableByChar: unbounded, like `BuildCTable`.
- FssFmIndex.Rank: the occurrence count is unbounded. The source's `left_occ`/`right_occ` are `uint32_t` (FssWM/wm/fmindex.cpp:124-125).
- Additive2P.AdditiveSharing2P.EvaluateMultPair: requires the 32-bit `triple_index_ + 1` not to wrap past a count it has already exceeded. The triple counters are 32-bit, and their wrap-around is written out elsewhere.

## Findings

| source | as written | input that shows it | evidently intended | confidence | as-written member | corrected member |
|---|---|---|---|---|---|---|
| FssWM/wm/fmindex.cpp:70-84 | the C-table is an exclusive prefix sum in id order, and ids are assigned in order of first appearance in the BWT; backward search treats it as the count of smaller characters | text "ba": the BWT is "ab$", giving ids a=0, b=1, $=2 and C = [0, 1, 2]; count("ba") gives 0 | the C-table counts the characters smaller than c in character order, so count("ba") is 1, rows [2, 3) | not executed | FssFmIndex.CountAsWrittenMissesBa | FssFmIndex.BuildCTableByChar |
| RingOA/sharing/binary_3p.cpp:328-341 | the block draw refills only when `prf_idx_ / 16 >= size`, then copies 16 bytes at `prf_idx_` | a fresh buffer of n blocks after 2n-1 64-bit draws: `prf_idx_` is 16n-8, there is no refill, and the copy ends 8 bytes past the buffer | refill whenever the 16-byte read would not fit: `prf_idx_ + 16 > 16 * size` | not executed | Binary3P.RandBlockAsWrittenOverruns | Binary3P.BinaryReplicatedSharing3P.RandBlock |
| RingOA/fss/fss.cpp:32-33 | `Convert` masks with `(1U << bitsize) - 1U`, a 32-bit shift | bitsize 32, block with low word 1: the shift count wraps to 0, the mask is 0 and the result is 0 | the result is the low word modulo 2^bitsize for every bitsize below 64, here 1 | not executed | Fss.ConvertAsWrittenLosesBit32 | Fss.Convert |
| FssWM/sharing/additive_2p.cpp:448-462 | `GenerateBeaverTriples` resizes the list to the count but never sets `num_triples` (latent: the only caller, OfflineSetUp at lines 24-25, passes a list already sized for the count) | an empty `BeaverTriples(0)` and 2 triples: 2 are stored, the count stays 0, and Serialize writes 0 so nothing is read back | the count equals the number of triples generated | not executed | Additive2P.StaleCountWitness | Additive2P.GenerateBeaverTriples |
