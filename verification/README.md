# crypto-algs in Dafny

A Dafny model of the small, self-contained algorithms of the crypto-algs
repository, together with proofs of what each one computes:

- **Merkle–Damgård hashing** (`crypto_algs/merkle_damgard.py`). Covers:
  - the strengthening padding (the byte-level form of the padding in
    section 5.1.1 of FIPS 180-4);
  - block splitting;
  - the two-round byte-mixing compression function, whose second round
    updates its buffer in place;
  - the chained hash, with its hexadecimal digest.
- **Davies–Meyer hashing** (`crypto_algs/davies_meyer.py`). Covers:
  - the toy Feistel block cipher `SimpleBlockCipher`, with its in-place
    pair and key loops and its `i -> 5i mod n` reindexing;
  - the feed-forward `H_i = E_{M_i}(H_{i-1}) XOR H_{i-1}`;
  - the comparison Merkle–Damgård hasher of the same file.
- **DES** (`crypto_algs/cpp/DES_encryption.cpp`), over bit sequences. Covers:
  - the tables;
  - permutation, rotation, XOR and S-box substitution;
  - the key schedule;
  - the 16 Feistel rounds;
  - decryption with the round keys reversed.
- **The toy cipher** of `crypto_algs/notDES.py`. Covers:
  - bit shuffling;
  - the key extension;
  - the rounds of XOR and mirror swap;
  - the salted encrypt/decrypt pair.
- **The byte rotations and mirror swap** of `crypto_algs/rotate_string.py`.
- **Textbook RSA**, in two parts:
  - `crypto_algs/rsa.py`: gcd, extended Euclid, modular inverse,
    per-character encryption, trial-division primality and next prime;
  - `crypto_algs/cpp/rsa.cpp`: gcd, square-and-multiply `mod_exp`, the
    iterative modular inverse, and string encryption. This part models the
    fixed-width integers of C++.
- **The sieve of Eratosthenes** (`crypto_algs/utils.py`), on an array
  updated in place.
- **The word-array generator** of `crypto_algs/mersenne_twister.py`. It is a
  class with a state array and a cursor. It is not the standard MT19937:
  - its mask is `0xffffffff` where MT19937 has `0x7fffffff`;
  - it has no tempering.

  The model follows the code as written.
- **The Caesar shift** (`crypto_algs/caesar_cipher.py`).

## How the model is built

The model follows the form of the source:

- Code that changes state step by step becomes a Dafny `method`:
  - in-place loops over arrays;
  - loops that reassign variables;
  - the generator's object.

  Each such method is proved against a specification function (for
  example `ensures a[..] == Diffused(old(a[..]))`). Lemmas then state what
  the function promises.
- Code made of expressions becomes functions.

Error cases follow the source:

- A Python exception becomes `Err(...)` of the `Outcomes.Result` type. The
  error value is named after the exception (`ZeroDivisionError`,
  `OverflowError`, `IndexError`, `ValueError`).
- A C++ precondition whose violation is undefined behaviour becomes a
  `requires`.
- Two Python exceptions are not modelled, and the list of what is left out names the
  members they affect: the UnicodeEncodeError of `str.encode('utf-8')` on a
  lone surrogate, and the OverflowError of `num ** 0.5` on an integer too
  large for a float.

Representations:

- Python's floor division and modulo are modelled explicitly where operands
  can be negative (`Rsa.FloorMod`). So are C++'s truncating ones
  (`RsaCpp.TruncRem`).
- `int` and `long long` are bounded `newtype`s.
- Bytes are `bv8` and Mersenne words are `bv32`.
- DES data are sequences of `bool`.
- `_pad_message` exists three times in the source, identically: in
  `MerkleDamgardHash` (`crypto_algs/merkle_damgard.py:76-108`), in
  `DaviesMeyerHash` (`crypto_algs/davies_meyer.py:106-121`) and in the
  comparison hasher (`crypto_algs/davies_meyer.py:215-225`). All three are
  modelled by one definition, `MerkleDamgard.Padded` with its method
  `MerkleDamgard.PadMessage`; block splitting is likewise shared through
  `MerkleDamgard.Blocks`.

Randomness is taken as parameters:

- the salt of `notDES.encrypt`;
- the generator's initial state.

Files:

| file | models |
|---|---|
| `outcomes.dfy` | the `Result` type and the error values |
| `arith.dfy` | divisibility, gcd, primality, powers, shared by the RSA files |
| `byte_codec.dfy` | hexadecimal digests, big-endian length fields, UTF-8 encoding, bytewise XOR |
| `merkle_damgard.dfy` | `crypto_algs/merkle_damgard.py` |
| `davies_meyer.dfy` | `crypto_algs/davies_meyer.py` |
| `des.dfy` | `crypto_algs/cpp/DES_encryption.cpp` |
| `not_des.dfy` | `crypto_algs/notDES.py` |
| `rotate_string.dfy` | `crypto_algs/rotate_string.py` |
| `rsa.dfy` | `crypto_algs/rsa.py` |
| `rsa_correctness.dfy` | why RSA decryption inverts encryption (Euclid, Fermat, two-prime CRT) |
| `rsa_cpp.dfy` | `crypto_algs/cpp/rsa.cpp` |
| `sieve.dfy` | `crypto_algs/utils.py` |
| `mersenne_twister.dfy` | `crypto_algs/mersenne_twister.py` |
| `caesar_cipher.dfy` | `crypto_algs/caesar_cipher.py` |

## Model

| member | source | states |
|---|---|---|
| MerkleDamgard.GenerateIv | crypto_algs/merkle_damgard.py:32-36 | the initial value has `outputSize / 4 * 4` bytes |
| MerkleDamgard.GenerateIvAt | crypto_algs/merkle_damgard.py:36 | the initial value is never longer than the output and cycles through 0x67, 0x45, 0x23, 0x01 |
| MerkleDamgard.Padded | crypto_algs/merkle_damgard.py:91-108 | padding fails with ZeroDivisionError exactly for a zero block size; it fails with OverflowError exactly when the bit length does not fit in 64 bits; it succeeds otherwise |
| MerkleDamgard.ZeroCountFits | crypto_algs/merkle_damgard.py:98-100 | the zero count is below the block size and brings `len + 9 + zeros` to a multiple of the block size |
| MerkleDamgard.PaddedIsStrengthened | crypto_algs/merkle_damgard.py:91-108 | whenever the length fits, the padding is Merkle–Damgård strengthening: a whole number of blocks; 9 to `blockSize + 8` bytes added; the message, then 0x80, then zeros, then the bit length big-endian in the last 8 bytes |
| MerkleDamgard.PaddingLayout | crypto_algs/merkle_damgard.py:95-106 | where the message, the marker, the zeros and the length field sit in the padded bytes |
| MerkleDamgard.PaddingUnique | crypto_algs/merkle_damgard.py:91-108 | the strengthening padding of a message is unique for a given block size |
| MerkleDamgard.PadMessage | crypto_algs/merkle_damgard.py:76-108 | the appending code returns exactly `Padded(message, blockSize)`, errors included |
| MerkleDamgard.BlocksPartition | crypto_algs/merkle_damgard.py:120-123 | the blocks concatenate back to the data; there are `ceil(n / blockSize)` of them; none is empty or longer than a block; all but the last are full |
| MerkleDamgard.BlocksFull | crypto_algs/merkle_damgard.py:120-123 | when the length is a multiple of the block size, every block is full |
| MerkleDamgard.BlocksLast | crypto_algs/merkle_damgard.py:120-123 | with a whole number of blocks, the last one is full |
| MerkleDamgard.BlocksUnfold | crypto_algs/merkle_damgard.py:121-122 | the slice taken at `i` is followed by the blocks of the rest |
| MerkleDamgard.SplitIntoBlocks | crypto_algs/merkle_damgard.py:110-123 | the slicing loop returns `Blocks(padded, blockSize)`; a zero step raises ValueError |
| MerkleDamgard.FirstRound | crypto_algs/merkle_damgard.py:53-65 | the first mixing round produces `outputSize` bytes |
| MerkleDamgard.DiffusedPrefixFrame | crypto_algs/merkle_damgard.py:68-72 | the first `k` in-place iterations leave bytes `k..` untouched; byte `j < k` keeps the value iteration `j` gave it |
| MerkleDamgard.DiffusedAt | crypto_algs/merkle_damgard.py:68-72 | the second round works left to right in place: byte 0 reads the original last byte; byte `i` reads the already updated byte `i-1`; the last byte reads the updated byte 0 |
| MerkleDamgard.DiffusedSettled | crypto_algs/merkle_damgard.py:68-72 | byte `i` of the result is what iteration `i` computed from the buffer it saw |
| MerkleDamgard.DiffusedFirst | crypto_algs/merkle_damgard.py:69-72 | byte 0 is the XOR of the original last, first and second bytes |
| MerkleDamgard.DiffusedMiddle | crypto_algs/merkle_damgard.py:69-72 | a middle byte is the XOR of the updated previous byte and the original current and next bytes |
| MerkleDamgard.DiffusedLast | crypto_algs/merkle_damgard.py:69-72 | the last byte is the XOR of the updated previous byte, itself and the updated byte 0 |
| MerkleDamgard.DiffusedShort | crypto_algs/merkle_damgard.py:68-72 | a buffer of one or two bytes comes out of the second round unchanged |
| MerkleDamgard.Diffuse | crypto_algs/merkle_damgard.py:68-72 | the in-place loop leaves the array equal to `Diffused` of its old contents |
| MerkleDamgard.CompressSpec | crypto_algs/merkle_damgard.py:38-74 | compression yields exactly `outputSize` bytes; it raises ZeroDivisionError exactly when there is output to produce and the state or block is empty |
| MerkleDamgard.Compress | crypto_algs/merkle_damgard.py:38-74 | the two loops over a fresh buffer return `CompressSpec` |
| MerkleDamgard.ChainAppend | crypto_algs/merkle_damgard.py:146-148 | chaining over `b1 + b2` is chaining over `b1` and continuing over `b2`, a failure ending it |
| MerkleDamgard.ChainOk | crypto_algs/merkle_damgard.py:146-148 | over non-empty blocks from a non-empty state, every compression succeeds and the state has `outputSize` bytes |
| MerkleDamgard.PaddedBlocks | crypto_algs/merkle_damgard.py:140-143 | a padded message splits into at least one block, none empty |
| MerkleDamgard.HashBytesOutcome | crypto_algs/merkle_damgard.py:153-173 | `hash_bytes` fails with ZeroDivisionError for a zero block size or an output size of 1 to 3 (the initial value is then empty), and with OverflowError for an oversized message; otherwise it returns `outputSize` bytes |
| MerkleDamgard.HashBytes | crypto_algs/merkle_damgard.py:153-173 | `hash_bytes` returns `HashBytesSpec`, encoding a `str` as UTF-8 first |
| MerkleDamgard.ChainBlocks | crypto_algs/merkle_damgard.py:169-171 | the block loop returns the chained compression of the blocks from the initial value |
| MerkleDamgard.Hash | crypto_algs/merkle_damgard.py:125-151 | `hash` is the hexadecimal form of `hash_bytes`, `2 * outputSize` digits, failing where it fails |
| DaviesMeyer.RotateLeftMultiple | crypto_algs/davies_meyer.py:25-28 | rotating by a multiple of 8 changes nothing |
| DaviesMeyer.RotateLeftInverse | crypto_algs/davies_meyer.py:25-28 | rotating by `n` and then by `8 - n mod 8` restores the byte |
| DaviesMeyer.FeistelRound | crypto_algs/davies_meyer.py:30-40 | the first output is the input right half; the second XORed with `F(right, key)` gives back the left half |
| DaviesMeyer.FeistelRoundTrip | crypto_algs/davies_meyer.py:30-40 | the round is undone from its output and the key |
| DaviesMeyer.Cycle | crypto_algs/davies_meyer.py:54-55 | repeating a non-empty sequence `n // len + 1` times and cutting it gives exactly `n` bytes |
| DaviesMeyer.CycleAt | crypto_algs/davies_meyer.py:54-55 | byte `i` of the cycled sequence is `s[i mod len(s)]` |
| DaviesMeyer.FeistelLayer | crypto_algs/davies_meyer.py:68-71 | the pair loop keeps the length |
| DaviesMeyer.FeistelLayerPair | crypto_algs/davies_meyer.py:68-71 | the pair at an even position gets the two halves of one Feistel round under key `(roundKey + i) & 0xFF` |
| DaviesMeyer.FeistelPairs | crypto_algs/davies_meyer.py:68-71 | the in-place pair loop leaves the state equal to `FeistelLayer` of its old contents |
| DaviesMeyer.FeistelPair | crypto_algs/davies_meyer.py:69-71 | one swap writes the round's two halves at `i` and `i + 1` and nothing else |
| DaviesMeyer.AddKey | crypto_algs/davies_meyer.py:74-75 | the in-place key loop leaves the state equal to `KeyLayer` of its old contents |
| DaviesMeyer.EncryptSpec | crypto_algs/davies_meyer.py:42-80 | encryption returns `blockSize` bytes; it raises ZeroDivisionError exactly when the key or plaintext is empty |
| DaviesMeyer.Encrypt | crypto_algs/davies_meyer.py:42-80 | the eight rounds over a mutable state return `EncryptSpec` |
| DaviesMeyer.InverseOfFive | crypto_algs/davies_meyer.py:78 | for `n` not a multiple of 5, a number `x` with `5x ≡ 1 (mod n)` |
| DaviesMeyer.PermIndexForward | crypto_algs/davies_meyer.py:78 | multiplying the read position by the inverse of 5 recovers the index |
| DaviesMeyer.PermutationWhenNotMultipleOfFive | crypto_algs/davies_meyer.py:78 | the reindexing is one-to-one when `n` is not a multiple of 5 |
| DaviesMeyer.CollisionWhenMultipleOfFive | crypto_algs/davies_meyer.py:78 | when `n` is a multiple of 5, positions 0 and `n / 5` read the same byte |
| DaviesMeyer.PermutationIffNotMultipleOfFive | crypto_algs/davies_meyer.py:78 | the reindexing is a permutation if and only if `n` is not a multiple of 5 |
| DaviesMeyer.UnpermutePermute | crypto_algs/davies_meyer.py:78 | the reindexing is undone when the length is not a multiple of 5 |
| DaviesMeyer.UnFeistelFeistel | crypto_algs/davies_meyer.py:68-71 | the pair loop is undone pair by pair |
| DaviesMeyer.KeyLayerTwice | crypto_algs/davies_meyer.py:74-75 | the key loop applied twice restores the state |
| DaviesMeyer.UnRoundsRounds | crypto_algs/davies_meyer.py:62-78 | the first `k` rounds are undone in reverse order |
| DaviesMeyer.DecryptEncrypt | crypto_algs/davies_meyer.py:42-80 | with a block size that is not a multiple of 5, decryption recovers the plaintext cycled to the block size: encryption loses nothing |
| DaviesMeyer.GenerateIv | crypto_algs/davies_meyer.py:101-104 | the initial value has `blockSize / 8 * 8` bytes |
| DaviesMeyer.DaviesMeyerCompress | crypto_algs/davies_meyer.py:123-142 | byte `i` of the result is `E(block, state)[i] XOR state[i]`; its length is that of the shorter of the two; it raises ZeroDivisionError exactly when the state or block is empty |
| DaviesMeyer.DaviesMeyerCompressed | crypto_algs/davies_meyer.py:137-142 | the compression method returns `DaviesMeyerCompress` |
| DaviesMeyer.DaviesMeyerChainOk | crypto_algs/davies_meyer.py:165-169 | over non-empty blocks from a non-empty state no longer than a block, the chain succeeds and keeps the state's length |
| DaviesMeyer.HashBytesOutcome | crypto_algs/davies_meyer.py:159-171 | `hash_bytes` fails with ZeroDivisionError for a block size of 0 to 7, and with OverflowError for an oversized message; otherwise it returns `blockSize / 8 * 8` bytes, which is `block_size` only for a multiple of 8 |
| DaviesMeyer.HashBytes | crypto_algs/davies_meyer.py:159-171 | `hash_bytes` returns `HashBytesSpec` |
| DaviesMeyer.DaviesMeyerBlocks | crypto_algs/davies_meyer.py:165-169 | the block loop returns the Davies–Meyer chain from the initial value |
| DaviesMeyer.Hash | crypto_algs/davies_meyer.py:144-157 | `hash` is the hexadecimal form of `hash_bytes`, failing where it fails |
| DaviesMeyer.ComparisonCompressSpec | crypto_algs/davies_meyer.py:188-213 | the comparison compression succeeds exactly when the block size is 0, or the block is non-empty and the state is at least a block long; it then returns `block_size` bytes, the same as the compression of merkle_damgard.py |
| DaviesMeyer.ComparisonCompress | crypto_algs/davies_meyer.py:188-213 | the two loops return `ComparisonCompressSpec` |
| DaviesMeyer.ComparisonChainOk | crypto_algs/davies_meyer.py:234-237 | over non-empty blocks, a full-block state stays full-block |
| DaviesMeyer.ComparisonHashOutcome | crypto_algs/davies_meyer.py:215-239 | the comparison hash fails with ZeroDivisionError or OverflowError as the others do, and with IndexError when the block size is not a multiple of 8; otherwise it returns `2 * blockSize` hexadecimal digits |
| DaviesMeyer.ComparisonHash | crypto_algs/davies_meyer.py:227-239 | the comparison `hash` returns `ComparisonHashSpec` |
| DaviesMeyer.ComparisonBlocks | crypto_algs/davies_meyer.py:234-237 | the block loop returns the comparison chain from the initial value |
| Des.Permuted | crypto_algs/cpp/DES_encryption.cpp:149-155 | the output has one bit per table entry |
| Des.PermutedTwice | crypto_algs/cpp/DES_encryption.cpp:149-155 | permuting twice is permuting once by the composed table |
| Des.ApplyPermutation | crypto_algs/cpp/DES_encryption.cpp:149-155 | the loop fills output bit `i` with input bit `table[i] - 1`, giving `Permuted(input, table)`; every entry must name a bit of the input |
| Des.InverseUndoesInitialPermutation | crypto_algs/cpp/DES_encryption.cpp:121-126 | IP followed by IP_INV is the identity on 64-bit blocks |
| Des.InitialPermutationUndoesInverse | crypto_algs/cpp/DES_encryption.cpp:121-126 | IP_INV followed by IP is the identity on 64-bit blocks |
| Des.CircularLeftShift | crypto_algs/cpp/DES_encryption.cpp:158-162 | `std::rotate` around position `k` keeps the length; it needs `0 <= k <= n` |
| Des.CircularLeftShiftAt | crypto_algs/cpp/DES_encryption.cpp:158-162 | output bit `i` is input bit `(i + k) mod n` |
| Des.RotatedShift | crypto_algs/cpp/DES_encryption.cpp:158-162 | shifting a half already rotated by `t` rotates it by `t + k` |
| Des.Xored | crypto_algs/cpp/DES_encryption.cpp:165-171 | the result has `|a|` bits; `b` must be at least as long |
| Des.XoredTwice | crypto_algs/cpp/DES_encryption.cpp:165-171 | XORing twice with the same bits gives back the input |
| Des.XorBits | crypto_algs/cpp/DES_encryption.cpp:165-171 | the loop returns `Xored(a, b)` |
| Des.SBoxRowIndex | crypto_algs/cpp/DES_encryption.cpp:181 | the row, from the first and last of the six bits, is in 0..3 |
| Des.SBoxColumnIndex | crypto_algs/cpp/DES_encryption.cpp:182 | the column, from the four middle bits, is in 0..15 |
| Des.Substituted | crypto_algs/cpp/DES_encryption.cpp:174-193 | the substitution maps at least 48 bits to 32 |
| Des.SubstitutedBit | crypto_algs/cpp/DES_encryption.cpp:188-190 | output bit `4i + j` is bit `j`, most significant first, of the entry S-box `i` selects |
| Des.SubstitutedBits | crypto_algs/cpp/DES_encryption.cpp:188-190 | output bits `4i .. 4i+3` are the bits of that entry |
| Des.SubstitutedNibble | crypto_algs/cpp/DES_encryption.cpp:174-193 | output nibble `i`, read most significant bit first, is `S_BOXES[i][row][col]`, with the row from input bits `6i` and `6i+5` and the column from bits `6i+1 .. 6i+4` |
| Des.SBoxInputIndices | crypto_algs/cpp/DES_encryption.cpp:178-182 | the row and column read from the six-bit slice are those of S-box `i` |
| Des.WriteNibble | crypto_algs/cpp/DES_encryption.cpp:188-190 | the inner loop writes the four bits of the entry at `4i .. 4i+3`, most significant first, and nothing else |
| Des.SubstituteBox | crypto_algs/cpp/DES_encryption.cpp:177-190 | one outer pass writes the bits of S-box `i`'s entry at `4i .. 4i+3` and nothing else |
| Des.SBoxSubstitution | crypto_algs/cpp/DES_encryption.cpp:174-193 | the loops return `Substituted(input)` |
| Des.ShiftScheduleTotal | crypto_algs/cpp/DES_encryption.cpp:115-117 | the shift schedule adds up to 28, a full turn of each 28-bit half |
| Des.ScheduleHalves | crypto_algs/cpp/DES_encryption.cpp:205-214 | the halves C and D stay 28 bits long through the schedule |
| Des.RoundKeys | crypto_algs/cpp/DES_encryption.cpp:197-225 | the key schedule gives sixteen 48-bit round keys |
| Des.ScheduleHalvesReturn | crypto_algs/cpp/DES_encryption.cpp:211-223 | after round 16, C and D are back at their values after PC-1 |
| Des.ScheduleRound | crypto_algs/cpp/DES_encryption.cpp:211-223 | round `i` shifts both halves by `SHIFT_SCHEDULE[i]` and applies PC-2 to their concatenation to give round key `i` |
| Des.HalfStep | crypto_algs/cpp/DES_encryption.cpp:213-214 | one more round shifts a half by that round's amount |
| Des.GenerateRoundKeys | crypto_algs/cpp/DES_encryption.cpp:197-225 | the loop returns `RoundKeys(masterKey)` |
| Des.CipherF | crypto_algs/cpp/DES_encryption.cpp:248-257 | f (expansion, key XOR, S-boxes, P) maps 32 bits to 32 |
| Des.FeistelStep | crypto_algs/cpp/DES_encryption.cpp:245-263 | the old right half becomes the new left half; the new right half XORed with f of it gives back the old left half |
| Des.Network | crypto_algs/cpp/DES_encryption.cpp:244-264 | the rounds keep 32-bit halves |
| Des.NetworkPrepend | crypto_algs/cpp/DES_encryption.cpp:244-264 | running rounds under `[k] + keys` is one round under `k`, then the rest |
| Des.NetworkUndo | crypto_algs/cpp/DES_encryption.cpp:244-264 | on the swapped output, the rounds under the reversed keys give back the swapped input |
| Des.Enciphered | crypto_algs/cpp/DES_encryption.cpp:237-272 | the data path maps 64 bits to 64 bits |
| Des.EncipheredReversed | crypto_algs/cpp/DES_encryption.cpp:280-311 | enciphering under the reversed round keys undoes enciphering |
| Des.DesDecryptEncrypt | crypto_algs/cpp/DES_encryption.cpp:229-311 | under the same key, `des_decrypt` undoes `des_encrypt` |
| Des.RunRounds | crypto_algs/cpp/DES_encryption.cpp:237-272 | the round loop on the two halves returns `Enciphered(block, roundKeys)` |
| Des.ReverseInPlace | crypto_algs/cpp/DES_encryption.cpp:286 | the in-place reversal leaves the array reversed |
| Des.DesEncrypt | crypto_algs/cpp/DES_encryption.cpp:229-276 | `des_encrypt` on a 64-bit block is `Enciphered` under the round keys |
| Des.DesDecrypt | crypto_algs/cpp/DES_encryption.cpp:280-311 | `des_decrypt` is `Enciphered` under the reversed round keys |
| NotDes.ReversedByteBits | crypto_algs/notDES.py:12-17 | bit `j` of the reversed byte is bit `7 - j` of the original |
| NotDes.ReversedByteInvolution | crypto_algs/notDES.py:12-17 | reversing the bits twice gives back the byte |
| NotDes.ReversedByteXor | crypto_algs/notDES.py:12-17 | bit reversal commutes with XOR |
| NotDes.ShuffledDefault | crypto_algs/notDES.py:10-18 | with the default permutation, the loop reverses the bits of the byte |
| NotDes.ShuffledDefaultStep | crypto_algs/notDES.py:15-17 | under the default permutation, iteration `i - 1` moves input bit `i - 1` to bit `8 - i` |
| NotDes.ReversedByteByBits | crypto_algs/notDES.py:15-17 | the reversed byte is the OR of each input bit moved to its mirror place |
| NotDes.ShuffleBitsInByte | crypto_algs/notDES.py:10-18 | the loop ORs each input bit into its target position; `None` selects the default permutation, which gives the bit-reversed byte |
| NotDes.ReversedBytes | crypto_algs/notDES.py:24 | every byte bit-reversed, the length kept |
| NotDes.ReversedBytesInvolution | crypto_algs/notDES.py:24 | the per-byte reversal applied twice gives back the bytes |
| NotDes.ShuffleEachByte | crypto_algs/notDES.py:24 | the comprehension returns `ReversedBytes(message)` |
| NotDes.PadCountStops | crypto_algs/notDES.py:30-31 | the `$` loop stops at the first key length that does not divide the message length, and at no earlier one |
| NotDes.ExtendedKeyShape | crypto_algs/notDES.py:22-31 | the extended key is the key, then `$3c`, then only `$`; its length does not divide the message length; every shorter length from `|key| + 3` on does |
| NotDes.PadKey | crypto_algs/notDES.py:30-31 | the loop returns `ExtendedKey(key, msgLen)` |
| NotDes.CycledXor | crypto_algs/notDES.py:38-40 | the zipped XOR is as long as the longer of message and key |
| NotDes.KeyedRound | crypto_algs/notDES.py:34-42 | a round's output is as long as the longer of message and key |
| NotDes.Rounds | crypto_algs/notDES.py:34-42 | the rounds keep a message longer than the key at its length |
| NotDes.KeyedRounds | crypto_algs/notDES.py:34-42 | the round loop returns `Rounds(message, key, rounds)` |
| NotDes.DesLike | crypto_algs/notDES.py:20-46 | `des_like` on a non-empty message returns `DesLikeSpec` |
| NotDes.MirrorSwapXor | crypto_algs/notDES.py:40-42 | mirror swapping commutes with XOR |
| NotDes.KeyedRoundDifference | crypto_algs/notDES.py:34-42 | two messages longer than the key differ after one round by their mirror-swapped difference |
| NotDes.MirrorSwappedEvenTimes | crypto_algs/notDES.py:42 | an even number of mirror swaps cancels out |
| NotDes.RoundsDifference | crypto_algs/notDES.py:34-42 | after `n` rounds, two messages differ by their difference mirror-swapped `n` times |
| NotDes.XorCancel | crypto_algs/notDES.py:40 | if `p XOR q == q XOR u` byte for byte, then `p == u` |
| NotDes.RoundsInvolution | crypto_algs/notDES.py:34-42 | for an even length longer than the key, the rounds undo themselves |
| NotDes.DesLikeLength | crypto_algs/notDES.py:34-40 | `des_like` keeps the length of a message longer than its extended key; a shorter one comes out as long as the extended key |
| NotDes.KeyedRoundLengthFirst | crypto_algs/notDES.py:38 | a message shorter than the key is stretched to the key length by the first round |
| NotDes.DesLikeInvolution | crypto_algs/notDES.py:20-46 | `des_like` is its own inverse on even-length messages longer than the extended key |
| NotDes.Salted | crypto_algs/notDES.py:50-51 | the salted input is twice as long as the message |
| NotDes.Unsalted | crypto_algs/notDES.py:57-58 | the halving XOR returns half the length |
| NotDes.UnsaltedSalted | crypto_algs/notDES.py:51-58 | the halving XOR removes the salt |
| NotDes.Encrypt | crypto_algs/notDES.py:48-52 | `encrypt` is `des_like` of the salted message |
| NotDes.Decrypt | crypto_algs/notDES.py:54-60 | `decrypt` is the halving XOR of `des_like` of the ciphertext |
| NotDes.DecryptEncrypt | crypto_algs/notDES.py:48-60 | decrypting an encryption gives back the message whenever the salted message is longer than its extended key |
| RotateString.RotateLeft | crypto_algs/rotate_string.py:1-4 | rotation succeeds exactly on non-empty input (ZeroDivisionError otherwise) and keeps the length |
| RotateString.RotateRight | crypto_algs/rotate_string.py:6-9 | rotation succeeds exactly on non-empty input (ZeroDivisionError otherwise) |
| RotateString.RotateLeftAt | crypto_algs/rotate_string.py:1-4 | output element `i` is `s[(i + n) mod len(s)]` |
| RotateString.RotateRightAt | crypto_algs/rotate_string.py:6-9 | output element `i` is `s[(i - n) mod len(s)]`, including the `-0` case |
| RotateString.RotateRightUndoesLeft | crypto_algs/rotate_string.py:1-9 | rotating right by `n` undoes rotating left by `n` |
| RotateString.RotateLeftUndoesRight | crypto_algs/rotate_string.py:1-9 | rotating left by `n` undoes rotating right by `n` |
| RotateString.SplitAndSwap | crypto_algs/rotate_string.py:46-67 | the half swap keeps the length |
| RotateString.SplitAndSwapIsRotation | crypto_algs/rotate_string.py:46-67 | on non-empty data, the half swap is a left rotation by `len // 2` |
| RotateString.MirrorSwapped | crypto_algs/rotate_string.py:11-44 | the mirror swap keeps the length |
| RotateString.MirrorSwappedHalves | crypto_algs/rotate_string.py:24-44 | the output is the lower half reversed, then the middle byte of an odd length, then the first `len // 2` bytes of the upper half reversed; the middle byte goes with the upper half, as `midpoint = len // 2` makes it |
| RotateString.MirrorSwapInvolution | crypto_algs/rotate_string.py:11-44 | mirror swapping twice gives back the data, for every length |
| RotateString.MirrorSwapPermutes | crypto_algs/rotate_string.py:11-44 | mirror swapping keeps the multiset of bytes |
| RotateString.SwapAcrossMirror | crypto_algs/rotate_string.py:37-39 | the swap loop leaves the first buffer holding the first `h` bytes of the second, reversed, and those bytes of the second holding the first buffer reversed; the rest of the second buffer is unchanged |
| RotateString.MirrorSwap | crypto_algs/rotate_string.py:11-44 | the buffers-and-loop code returns `MirrorSwapped(data)` |
| Rsa.FloorMod | crypto_algs/rsa.py:13 | Python's `%`: for a positive divisor the remainder is in `[0, b)`, for a negative one in `(b, 0]`, and the divisor divides `a - r` |
| Rsa.FloorModPositive | crypto_algs/rsa.py:35 | for a positive divisor Python's `%` agrees with the Euclidean one |
| Rsa.CommonDivisorsStep | crypto_algs/rsa.py:12-13 | replacing `a` by `a - b*q` keeps the common divisors |
| Rsa.GcdOfCommonDivisors | crypto_algs/rsa.py:12-14 | once the second argument is 0, the first is the gcd up to sign |
| Rsa.Gcd | crypto_algs/rsa.py:11-14 | Euclid's loop returns the greatest common divisor up to sign, non-negative for non-negative arguments, and `gcd(a, 0) == a` |
| Rsa.ExtendedGcd | crypto_algs/rsa.py:37-46 | `a*x + b*y == g`, and `g` is the gcd of `a` and `b` up to sign (non-negative for non-negative arguments); the recursion on `(b % a, a)` terminates |
| Rsa.BezoutStep | crypto_algs/rsa.py:45-46 | one step of the recursion keeps the Bezout identity and the gcd |
| Rsa.GcdStep | crypto_algs/rsa.py:45 | the gcd of `(b - a*q, a)` is the gcd of `(a, b)` |
| Rsa.ModInverse | crypto_algs/rsa.py:27-35 | a returned `d` satisfies `phi \| d*e - 1`, lying in `[0, phi)` for positive `phi` (in `(phi, 0]` for negative `phi`) |
| Rsa.InverseCongruence | crypto_algs/rsa.py:32-35 | from the Bezout identity `e*x + phi*y == 1`, `x % phi` inverts `e` modulo `phi` |
| Rsa.ModInverseFailsIffNotCoprime | crypto_algs/rsa.py:33-34 | `mod_inverse` raises its own exception exactly when `e` and `phi` are not coprime |
| Rsa.ModInverseZeroDivision | crypto_algs/rsa.py:35 | `mod_inverse` raises ZeroDivisionError exactly for `phi == 0` and `e == 1` |
| Rsa.ModInverseUnique | crypto_algs/rsa.py:27-35 | every inverse of `e` in `[0, phi)` is the one `mod_inverse` returns, so it returns one whenever one exists |
| Rsa.CoprimeWhenInvertible | crypto_algs/rsa.py:33-34 | an invertible `e` is coprime to the modulus |
| Rsa.InversesAgree | crypto_algs/rsa.py:27-35 | two inverses of `e` in `[0, phi)` coincide |
| Rsa.NoInverseWhenModInverseFails | crypto_algs/rsa.py:33-34 | whenever `mod_inverse` fails for `phi > 1`, no `d` inverts `e` |
| Rsa.ReducedInverse | crypto_algs/rsa.py:35 | reducing an inverse modulo `phi` keeps it an inverse |
| Rsa.Encrypt | crypto_algs/rsa.py:48-51 | one number per character, each in `[0, n)`; a non-empty plaintext under `n == 0` raises ZeroDivisionError |
| Rsa.Decrypt | crypto_algs/rsa.py:53-56 | one character per number; ZeroDivisionError exactly for a non-empty ciphertext under `n == 0`; no error at all for `0 < n <= 0x110000` |
| RsaCorrectness.DecryptEncrypt | crypto_algs/rsa.py:48-56 | for `n = p*q` with distinct primes and `e*d ≡ 1 (mod (p-1)(q-1))`, decrypting the encryption of a message whose code points are below `n` gives it back |
| RsaCorrectness.RsaIdentity | crypto_algs/rsa.py:50-55 | `(x^e mod n)^d mod n == x` for `x < n` |
| RsaCorrectness.EuclidLemma | crypto_algs/rsa.py:37-46 | a prime dividing a product divides a factor (from the Bezout coefficients of `extended_gcd`) |
| RsaCorrectness.FermatLittle | crypto_algs/rsa.py:50-55 | `p \| a^p - a` for a prime `p` |
| RsaCorrectness.FermatPower | crypto_algs/rsa.py:50-55 | `p \| x^(1 + k(p-1)) - x` for a prime `p` |
| RsaCorrectness.TwoPrimes | crypto_algs/rsa.py:85 | a number divisible by two distinct primes is divisible by their product |
| Rsa.SieveGivesPrimesToLimit | crypto_algs/rsa.py:8-9 | the list the sieve returns for LIMIT holds exactly the primes up to 100 |
| Rsa.CheckPrime | crypto_algs/rsa.py:58-69 | `is_prime(num)` is true exactly when `num` is prime, given `PRIMES_TO_LIMIT` |
| Rsa.FirstPrimeFrom | crypto_algs/rsa.py:73-76 | the search loop returns the first prime from its start point on |
| Rsa.FindNextPrime | crypto_algs/rsa.py:71-76 | `find_next_prime(n)` returns a prime above `n` with no prime in between, except for `n == 1`, where it returns 3 |
| Rsa.NextPrime | crypto_algs/rsa.py:71-76 | the least prime above `n`, for every `n` |
| Rsa.SearchStart | crypto_algs/rsa.py:72 | the search of `find_next_prime(n)` starts above `n` and at most at `n + 2`; it skips `n + 1` exactly when `n + 1` is even |
| Rsa.FindNextPrimeSkipsTwo | crypto_algs/rsa.py:72 | the search of `find_next_prime(1)` starts at 3, past the prime 2 |
| RsaCpp.TruncRem | crypto_algs/cpp/rsa.cpp:10 | C++ `%`: the remainder has the dividend's sign and is smaller than the divisor in absolute value |
| RsaCpp.Gcd | crypto_algs/cpp/rsa.cpp:7-14 | the loop returns the greatest common divisor up to sign, non-negative for non-negative arguments |
| RsaCpp.ModExpSpec | crypto_algs/cpp/rsa.cpp:18-33 | `mod_exp` is `base^exp mod mod` for `mod > 1` |
| RsaCpp.ModExp | crypto_algs/cpp/rsa.cpp:18-33 | square and multiply returns `ModExpSpec`, keeping `result * base^exp ≡ base0^exp0 (mod mod)` while `exp` falls, with no product leaving `long long` for `mod < 2^31` |
| RsaCpp.ProductBound | crypto_algs/cpp/rsa.cpp:26-30 | a product of two values below `2^31` fits a `long long` |
| RsaCpp.SquareStep | crypto_algs/cpp/rsa.cpp:25-30 | one round of square and multiply keeps `result * base^exp mod m` |
| RsaCpp.ModInverse | crypto_algs/cpp/rsa.cpp:38-56 | returns -1 exactly when `e` and `phi` are not coprime; otherwise `phi \| e*d - 1`, with `d` in `[0, phi)` and `(e*d) % phi == 1` for `phi > 1` |
| RsaCpp.InverseLoop | crypto_algs/cpp/rsa.cpp:39-51 | on exit `r` is the gcd of `phi` and `e`, `e*t ≡ r (mod phi)`, and `\|t\| <= phi/2` for `phi > 1` |
| RsaCpp.InverseStep | crypto_algs/cpp/rsa.cpp:43-50 | one pass keeps the loop invariant, and none of its products leaves `[-phi, phi]`, so none overflows `int` |
| RsaCpp.InverseStepCongruence | crypto_algs/cpp/rsa.cpp:45-49 | one step keeps `e*t ≡ r (mod phi)` for both pairs |
| RsaCpp.InverseShift | crypto_algs/cpp/rsa.cpp:54 | adding `phi` to an inverse gives another one |
| RsaCpp.EncryptString | crypto_algs/cpp/rsa.cpp:59-66 | one number per character, each `mod_exp` of the character's code |
| RsaCpp.DecryptString | crypto_algs/cpp/rsa.cpp:69-76 | one character per number, each the low eight bits of `mod_exp` |
| RsaCpp.DecryptStringEncryptString | crypto_algs/cpp/rsa.cpp:59-76 | for distinct primes with `e*d ≡ 1 (mod (p-1)(q-1))` and `n >= 128`, decryption gives back every ASCII character |
| MersenneWords.WordValueOfBytes | crypto_algs/mersenne_twister.py:15-20 | writing a value with `to_bytes(4, 'big')` and reading it back with `from_bytes` gives the value |
| MersenneWords.WordBytesOfValue | crypto_algs/mersenne_twister.py:6-16 | reading a four-byte word and writing its value back gives the word |
| MersenneWords.Mix | crypto_algs/mersenne_twister.py:17-18 | `A_func` keeps the top bit of its input, recording which branch was taken |
| MersenneWords.UnmixMix | crypto_algs/mersenne_twister.py:17-18 | `A_func` loses nothing but the lowest bit of its input |
| MersenneWords.TwistUnfar | crypto_algs/mersenne_twister.py:14-19 | XORing the word at `c + 397` back out of the new word leaves `A_func` |
| MersenneWords.TwistRecovers | crypto_algs/mersenne_twister.py:14-19 | knowing the word at `c + 397`, the new word gives back the top bit of the current word and the following word, shifted right by one |
| MersenneWords.Joined | crypto_algs/mersenne_twister.py:24 | `b''.join` of `n` four-byte words has `4n` bytes |
| MersenneWords.JoinedAt | crypto_algs/mersenne_twister.py:24 | word `j` sits at bytes `4j .. 4j+3` of the joined bytes |
| MersenneWords.JoinedValues | crypto_algs/mersenne_twister.py:6-24 | handing out stored words gives back the bytes they were drawn as |
| MersenneTwister.StepWith | crypto_algs/mersenne_twister.py:13-22 | a step keeps 624 words and moves the index to `(c + 1) mod 624` |
| MersenneTwister.StepFields | crypto_algs/mersenne_twister.py:13-22 | a step rewrites only the word at the index, with the new word computed from the current, following and far words |
| MersenneTwister.RefreshedIndex | crypto_algs/mersenne_twister.py:12-22 | after `refresh(n)` the index has moved on by `n` modulo 624 (not at all for `n <= 0`) |
| MersenneTwister.RefreshedFrame | crypto_algs/mersenne_twister.py:12-20 | a refresh of `n <= 624` words rewrites only the `n` positions from the index on, cyclically; every other word keeps its value |
| MersenneTwister.OffsetOfIndex | crypto_algs/mersenne_twister.py:13 | the position `k` steps after `c` is `k` places after it, cyclically |
| MersenneTwister.MersenneTwister.constructor | crypto_algs/mersenne_twister.py:4-8 | the state holds the 624 drawn words and the index is 0 |
| MersenneTwister.MersenneTwister.Step | crypto_algs/mersenne_twister.py:13-22 | one pass of the loop body updates the object as `StepWith` says |
| MersenneTwister.MersenneTwister.Refresh | crypto_algs/mersenne_twister.py:10-22 | `refresh(n)` updates the object as `Refreshed` says, keeping 624 words and an index in range |
| MersenneTwister.MersenneTwister.Words | crypto_algs/mersenne_twister.py:24 | the generator expression returns the bytes of the `n` words from the index on, and raises IndexError exactly when `next_word + n > 624` |
| MersenneTwister.MersenneTwister.Next | crypto_algs/mersenne_twister.py:23-26 | `next(n)` returns the bytes of the words read before the refresh, then refreshes `n` words; on IndexError nothing changes |
| Sieve.PrimesBelowMembers | crypto_algs/utils.py:1-21 | the collected list holds every prime below the bound and nothing else |
| Sieve.PrimesBelowIncreasing | crypto_algs/utils.py:20 | the collected list is strictly increasing |
| Sieve.CompositeSievesNothing | crypto_algs/utils.py:15 | sieving with a `num` already struck out would change nothing, so skipping it is sound |
| Sieve.UnmarkedIsPrime | crypto_algs/utils.py:14 | once `num * num` exceeds `m`, the mark of `m` is exactly its primality |
| Sieve.UnmarkedNext | crypto_algs/utils.py:15-17 | adding `num` strikes out its multiples from `num*num` on |
| Sieve.StrikeMultiples | crypto_algs/utils.py:16-17 | the inner loop clears exactly the multiples of `num` from `num*num` on; entries only change from set to cleared |
| Sieve.SieveOfEratosthenes | crypto_algs/utils.py:1-21 | the result is exactly the primes up to `limit`, in increasing order; IndexError exactly for `limit < 1` |
| Sieve.CollectMarked | crypto_algs/utils.py:20 | once the marks are exactly primality, the comprehension returns the primes below the length of the list |
| CaesarCipher.Rotated | crypto_algs/caesar_cipher.py:6-9 | a rotated letter stays in its alphabet |
| CaesarCipher.ShiftChar | crypto_algs/caesar_cipher.py:5-13 | lower-case letters stay lower-case, upper-case letters stay upper-case, every other character is kept |
| CaesarCipher.Shifted | crypto_algs/caesar_cipher.py:1-14 | the output is as long as the input |
| CaesarCipher.ShiftCharacters | crypto_algs/caesar_cipher.py:1-14 | the loop returns `Shifted(text, shiftAmount)` |
| CaesarCipher.ShiftCharOffset | crypto_algs/caesar_cipher.py:6-9 | a letter's new offset is in `[0, 26)` and differs from `offset + shift` by a multiple of 26, for negative shifts too |
| CaesarCipher.ShiftCharTwice | crypto_algs/caesar_cipher.py:5-13 | shifting a character by `a` and then by `b` is shifting it by `a + b` |
| CaesarCipher.ShiftedTwice | crypto_algs/caesar_cipher.py:1-14 | shifting text by `a` and then by `b` is shifting it by `a + b` |
| CaesarCipher.ShiftedPeriod | crypto_algs/caesar_cipher.py:1-14 | a shift by any multiple of 26 is the identity |
| CaesarCipher.ShiftedInverse | crypto_algs/caesar_cipher.py:1-14 | shifting by `k` and then by `-k` gives back the text |
| ByteCodec.Hex | crypto_algs/merkle_damgard.py:151 | `bytes.hex()` writes two lowercase hexadecimal digits per byte |
| ByteCodec.UnhexHex | crypto_algs/merkle_damgard.py:151 | the hexadecimal digest loses nothing: it reads back as the bytes |
| ByteCodec.ToBigEndian | crypto_algs/merkle_damgard.py:106 | `to_bytes(n, 'big')` succeeds exactly when the value fits in `n` bytes, and then gives `n` bytes whose big-endian value is the input |
| ByteCodec.FromBigEndianInjective | crypto_algs/merkle_damgard.py:106 | equal-length big-endian strings with the same value are equal |
| ByteCodec.Repeat | crypto_algs/merkle_damgard.py:36 | `s * k` has `k` times the length |
| ByteCodec.RepeatAt | crypto_algs/merkle_damgard.py:36 | the repetition holds the pattern cyclically |
| ByteCodec.ZipXor | crypto_algs/notDES.py:62-66 | `xor_bytes` is as long as the shorter input |
| ByteCodec.ZipXorTwice | crypto_algs/notDES.py:62-66 | XORing twice with the same bytes gives back the input, cut to the shorter length |
| ByteCodec.Utf8Char | crypto_algs/merkle_damgard.py:136-137 | one to four bytes per code point |
| ByteCodec.Utf8CharLength | crypto_algs/merkle_damgard.py:136-137 | the encoding has the shortest length for its code point |
| ByteCodec.Utf8CharShape | crypto_algs/merkle_damgard.py:136-137 | the lead byte announces the length, and every later byte is a continuation byte |
| ByteCodec.Utf8CharDecodes | crypto_algs/merkle_damgard.py:136-137 | decoding the encoding gives back the code point |
| ByteCodec.Utf8 | crypto_algs/merkle_damgard.py:136-137 | `str.encode('utf-8')` gives one to four bytes per character |
| ByteCodec.Utf8Append | crypto_algs/merkle_damgard.py:136-137 | encoding distributes over concatenation |
| ByteCodec.Utf8Ascii | crypto_algs/merkle_damgard.py:136-137 | an ASCII string encodes to one byte per character, holding its code |

## Left out

- MerkleDamgard.Hash: the `Text` case holds a Dafny `string`, which cannot contain a lone surrogate, so it covers only surrogate-free `str` values. The UnicodeEncodeError that `message.encode('utf-8')` raises on a lone surrogate (`crypto_algs/merkle_damgard.py:137`) is not modelled.
- MerkleDamgard.HashBytes: the `Text` case holds a Dafny `string`, which cannot contain a lone surrogate, so it covers only surrogate-free `str` values. The UnicodeEncodeError that `message.encode('utf-8')` raises on a lone surrogate (`crypto_algs/merkle_damgard.py:164`) is not modelled.
- MerkleDamgard.HashBytesOutcome: the `Text` case holds a Dafny `string`, which cannot contain a lone surrogate, so it covers only surrogate-free `str` values. The UnicodeEncodeError that `message.encode('utf-8')` raises on a lone surrogate (`crypto_algs/merkle_damgard.py:164`) is not modelled.
- DaviesMeyer.Hash: the `Text` case holds a Dafny `string`, which cannot contain a lone surrogate, so it covers only surrogate-free `str` values. The UnicodeEncodeError that `message.encode('utf-8')` raises on a lone surrogate (`crypto_algs/davies_meyer.py:147`) is not modelled.
- DaviesMeyer.HashBytes: the `Text` case holds a Dafny `string`, which cannot contain a lone surrogate, so it covers only surrogate-free `str` values. The UnicodeEncodeError that `message.encode('utf-8')` raises on a lone surrogate (`crypto_algs/davies_meyer.py:162`) is not modelled.
- DaviesMeyer.HashBytesOutcome: the `Text` case holds a Dafny `string`, which cannot contain a lone surrogate, so it covers only surrogate-free `str` values. The UnicodeEncodeError that `message.encode('utf-8')` raises on a lone surrogate (`crypto_algs/davies_meyer.py:162`) is not modelled.
- DaviesMeyer.ComparisonHash: the `Text` case holds a Dafny `string`, which cannot contain a lone surrogate, so it covers only surrogate-free `str` values. The UnicodeEncodeError that `message.encode('utf-8')` raises on a lone surrogate (`crypto_algs/davies_meyer.py:230`) is not modelled.
- DaviesMeyer.ComparisonHashOutcome: the `Text` case holds a Dafny `string`, which cannot contain a lone surrogate, so it covers only surrogate-free `str` values. The UnicodeEncodeError that `message.encode('utf-8')` raises on a lone surrogate (`crypto_algs/davies_meyer.py:230`) is not modelled.
- MerkleDamgard.Hash, MerkleDamgard.HashBytes, MerkleDamgard.GenerateIv, MerkleDamgard.Padded, MerkleDamgard.Compress: the block and output sizes are `nat`. Negative sizes, which no caller in the source passes, are not modelled. In the source a negative block size pads, yields no blocks from `range` and returns the initial value; a negative output size makes `bytearray` raise ValueError.
- DaviesMeyer.Hash, DaviesMeyer.HashBytes, DaviesMeyer.ComparisonHash, DaviesMeyer.Encrypt: the block size is a `nat`, so negative block sizes, which no caller in the source passes, are not modelled.
- RsaCpp.EncryptString: requires every character to be 7-bit ASCII, because the value of `static_cast<int>` on a `char` above 127 depends on whether the platform's `char` is signed; it also requires `e >= 0` and `n >= 1`, because `mod_exp` divides by `n` and is not meant for negative exponents.
- RsaCpp.DecryptString: requires non-negative ciphertext numbers, `d >= 0` and `n >= 1`, for the same reasons.
- RsaCpp.Gcd: requires that neither argument is `INT_MIN`, where C++ `%` is undefined for a divisor of -1.
- RsaCpp.ModExp: requires `base >= 0`, `exp >= 0` and `1 <= mod < 2^31`; outside that range the C++ arithmetic is undefined or the loop does not mean exponentiation.
- RsaCpp.ModInverse: requires `e >= 0` and `phi >= 1`; `main` only calls it with a prime `e` and a positive `phi`.
- Rsa.Encrypt, Rsa.Decrypt: the key exponent is a `nat`. Python's `**` with a negative exponent yields a float, which this model does not cover. Text is a sequence of code points, so `ord` and `chr` are the identity on it.
- Rsa.Decrypt: the ensures only promise success when the modulus is at most 0x110000. For larger moduli the model returns ValueError whenever a decrypted number is not a code point, which is what `chr` does.
- Rsa.CheckPrime: `int(num ** 0.5)` is a float square root, modelled by the exact integer bound `i * i <= num`. Below 2^52 the float bound is either the integer root or one more than it (for 2^52 + 2^27 it is one more). One extra candidate `i` with `i * i > num` cannot change the answer: a divisor that large would pair with a cofactor below `i` that has already been tried. For larger numbers the float root can differ from the integer root in either direction, and the model does not follow it.
- Sieve.SieveOfEratosthenes: `int(limit ** 0.5)` is modelled by the exact bound `num * num <= limit`. An extra `num` with `num * num > limit` strikes out nothing, since its range of multiples is empty.
- Rsa.CheckPrime: for a `num` of about 2^1024 or more with no prime factor up to 100, `num ** 0.5` raises OverflowError in the source (`crypto_algs/rsa.py:66`). The model returns the primality of `num` instead.
- Rsa.FirstPrimeFrom: from a start of about 2^1024 or more, the source raises OverflowError inside `is_prime`; the model promises the first prime.
- Rsa.FindNextPrime: for `n` of about 2^1024 or more, `find_next_prime(n)` raises OverflowError in the source; the model promises a prime above `n`.
- Rsa.CheckPrime: the module-level `PRIMES_TO_LIMIT` is a parameter that satisfies `IsPrimesToLimit`; `Rsa.SieveGivesPrimesToLimit` shows that the sieve of `utils.py` provides exactly such a list.
- `generate_keys` (crypto_algs/rsa.py:78-92): it draws indices with `random.randint` and prints, so it is not modelled as an operation. The property it relies on, that decryption inverts encryption for two distinct primes and an inverse exponent, is `RsaCorrectness.DecryptEncrypt`.
- NotDes.Encrypt: the salt that `random.randbytes` draws is a parameter.
- MersenneTwister.MersenneTwister.constructor: the 624 seed words that `random.randbytes` draws are a parameter.
- The no-repeat test over 9000 draws (crypto_algs/mersenne_twister.py:34-38) and the avalanche demonstration (crypto_algs/merkle_damgard.py:207-226) are statistical claims with nothing to prove about every input.
- MersenneTwister: the generator is not MT19937 (it masks with 0xffffffff and has no tempering), so no agreement with the reference generator is stated; the model follows the code.
- NotDes.ShuffleBitsInByte: an explicit permutation must send positions 0 to 7 into 0 to 7. Every call in the source passes `None`, and a larger target would make Python's `int` grow past a byte.
- NotDes.DesLike, NotDes.Encrypt, NotDes.Decrypt: require a non-empty message, because for an empty one the key-padding loop never ends.
- DaviesMeyer.Decrypt: the source has no decryption for `SimpleBlockCipher`; it exists only to state that encryption loses nothing.
- Des: `string_to_bits` and `bits_to_string` (DES_encryption.cpp:131-146) are stubs that return empty values, so the model works on 64-bit blocks and leaves out the string handling of `main`.
- Des.ApplyPermutation: requires every table entry to name a position of the input; all eight tables of the source meet this.
- Des.CircularLeftShift: requires a shift between 0 and the width of the half-key; the schedule only shifts by 1 or 2.
- CaesarCipher: Dafny's `char` excludes lone surrogates, which a Python `str` may hold; such characters are not letters and would pass through unchanged.
- `compare_constructions` (crypto_algs/davies_meyer.py:242-349), every `__main__` block, `main.py` and the C++ `main` functions only print results. They are not modelled.
- Fernet and the key manager are not part of this model.

## Findings

| source | as written | input that shows it | evidently intended | confidence | as-written member | corrected member |
|---|---|---|---|---|---|---|
| crypto_algs/rsa.py:72 | the search starts at `n + 2` for odd `n` (`Rsa.SearchStart`), so `find_next_prime(1)` returns 3 | n = 1: 2 is a prime above 1 and below 3 | the least prime above `n`, which is 2 for n = 1 | not executed | Rsa.FindNextPrime | Rsa.NextPrime |
