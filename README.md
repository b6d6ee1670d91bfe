# Seed-phrase encoder of `bip39` (src/main.rs), modelled in Dafny

The program turns a phrase or a file into 24 words. It hashes the input twice
with SHA-256 and builds a 33-byte buffer `hashcheck`: the 32 digest bytes in
reverse order, then the digest's last byte again as a "checksum". A loop reads
that buffer as a little-endian bitstream and cuts it into twenty-four 11-bit
seed values. A second loop prints word `GBWORDS[v - 1]` for every value `v`.
The scheme looks like BIP-39 but is not it: BIP-39 takes its checksum from a
hash of the entropy and reads its 11-bit groups most significant bit first.

This project models the three parts of that encoder and proves what they
compute:

- `ChecksumBuffer` models the buffer fill of lines 64-75. Lines 114-125 are a
  verbatim copy and are modelled by the same method. Byte `i < 32` is digest
  byte `31 - i`, and byte 32 repeats digest byte 31, which is also buffer
  byte 0.
- `ChunkExtraction` models the extraction loop of lines 152-205, with the four
  guarded byte reads, the `<< 8` steps, `>> bitshift` and the 2047 mask. Pass
  `k` reads at byte `11k / 8` (at most 31) with shift `11k % 8` (at most 7).
  The value it stores is `(LE(hashcheck) >> 11k) & 0x7FF`, where `LE` is the
  little-endian integer of the 33 bytes. The 24 values re-encode all 264 bits
  (`Σ v[k]·2^(11k) == LE(hashcheck)`), so the buffer can be decoded back from
  them. An all-zero buffer gives 24 zeros and an all-0xFF buffer gives 2047
  everywhere.
- `WordLookup` models the lookup loop of lines 209-216. `v - 1` is a `usize`
  subtraction, so a value of 0 aborts the program. That abort, and an index
  past the list's end, are modelled as an `Err` that names the first failing
  position.
- `SeedPhrase` puts the three together from an abstract 32-byte digest to the
  phrase. It also proves that the digest can be recovered from the seed
  values.

The digest is an arbitrary 32-byte input. The word list is an arbitrary
sequence of 2048 strings. `Arith` and `LittleEndian` hold the arithmetic the
proofs rest on: powers of two, Euclidean division, and the little-endian
value of a byte string.

Rust's `u32` operations are written out on integers. `x << 8` is
`(x * 256) % 2^32`, and the model proves the modulus never changes the value.
`x >> n` is `x / 2^n`, and `x & 2047` is `x % 2048`. Both identities are exact
for non-negative values. Every intermediate `seedval` is typed as a 32-bit
value, so the `+` steps are proved not to overflow. The `f32` division and
`trunc` of lines 195-196 become integer division `bitcnt / 8`. This is exact,
because `bitcnt <= 264` is exactly representable in `f32`.

Two consequences of the code are worth stating up front:

- A usage error or `--help` does not stop before the lookup. The branches of
  the command `match` that print a usage error or the help text (lines 80-83,
  130-147) fall through to line 152 with `hashcheck` still all zero. Only a
  run without arguments (lines 221-224) skips the encoder.
  `SeedPhrase.Encode` models the fall-through as the `None` digest and proves
  that the lookup then fails at position 0.
- A seed value of 0 is not rare: any digest with an all-zero 11-bit group
  gives one (see Findings).

## Model

| member | source | states |
|---|---|---|
| `ChecksumBuffer.FillChecksumBuffer` | src/main.rs:64-75 | After the fill, `hashcheck[i] == entropy[31 - i]` for every `i < 32` and `hashcheck[32] == entropy[31]`; the whole array equals `Assemble(entropy)` |
| `ChecksumBuffer.AssembleAt` | src/main.rs:64-75 | The assembled buffer has 33 bytes; bytes 0..31 are the digest reversed (against an independent recursive `Reverse`), byte 32 is `d[31]` and equals byte 0 |
| `ChecksumBuffer.ReverseReverse` | src/main.rs:66-75 | Reversing the reversed digest gives the digest back: the reversal of the fill loses nothing |
| `ChunkExtraction.Shl` | src/main.rs:166-174 | `seedval << 8` on `u32`: the result is a 32-bit value, and equal to `x * 2^n` whenever that product fits |
| `ChunkExtraction.Shr` | src/main.rs:180 | `seedval >> bitshift`: the result is the quotient by `2^bitshift`, bracketed as `r * 2^n <= x < (r + 1) * 2^n`, and never above `x` |
| `ChunkExtraction.And2047` | src/main.rs:156-183 | `seedval & mask` with `mask == 2047`: the result is at most 2047, differs from `x` by a multiple of 2048, and leaves an 11-bit value unchanged |
| `ChunkExtraction.ShlNoWrap` | src/main.rs:166-174 | A `u32` below 2^24 loses no bits to `<< 8`, so each shift in the word assembly is a multiplication by 256 |
| `ChunkExtraction.AssembleWord` | src/main.rs:164-176 | The nested bounds guards yield the little-endian value of the bytes `bytecnt .. min(bytecnt+4, 33)`; a byte at index 33 or more contributes zero, the `else { seedval = 0 }` resets included; no `+` overflows a `u32`; the unguarded read needs only `bytecnt < 33` |
| `ChunkExtraction.WindowSuffices` | src/main.rs:164-183 | For a shift below 8, the 11 masked bits of the whole buffer suffix at `bytecnt` are those of its (up to) four-byte window: the bytes past the window do not reach the mask |
| `ChunkExtraction.ChunkFromWindow` | src/main.rs:176-202 | Pass `k` uses byte offset `11k / 8 <= 31` and shift `11k % 8 < 8`, and its shifted, masked word is `(LE(buffer) >> 11k) & 0x7FF` |
| `ChunkExtraction.ExtractSeedValues` | src/main.rs:152-205 | The loop writes exactly the 24 seed values, in order: `seedvalues[k] == (LE(hashcheck) >> 11k) & 0x7FF` for `k` in 0..23, each at most 2047; it reads `hashcheck` only in bounds |
| `ChunkExtraction.RecomposeGroups` | src/main.rs:161-202 | The first `n` 11-bit groups of a number, weighted by `2^(11k)`, sum to the number modulo `2^(11n)` |
| `ChunkExtraction.ChunksRecompose` | src/main.rs:161-202 | Round trip: `Σ seed[k]·2^(11k) == LE(hashcheck)`; the 24 values re-encode all 264 bits |
| `ChunkExtraction.DecodeChunks` | src/main.rs:161-202 | Decoding the 24 seed values (recompose, then 33 little-endian bytes) gives back the buffer they were cut from |
| `ChunkExtraction.ZeroBufferChunks` | src/main.rs:152-189 | An all-zero buffer (the initial state of line 33) yields 24 zeros |
| `ChunkExtraction.AllOnesBufferChunks` | src/main.rs:156-189 | An all-0xFF buffer saturates the mask: every seed value is 2047 |
| `WordLookup.WordFor` | src/main.rs:214 | `GBWORDS[v - 1]` gives a word exactly when `1 <= v <= |words|`, and then it is `words[v - 1]`; it fails by underflow exactly when `v == 0` |
| `WordLookup.SeedValueLookup` | src/main.rs:214 | For an 11-bit value `v`, `GBWORDS[v - 1]` fails exactly when `v == 0`, and then by underflow; otherwise the index `v - 1` is at most 2046, so the last word is never selected |
| `WordLookup.LookupPhrase` | src/main.rs:209-216 | The lookup succeeds iff every value is in `1..|words|`, and then word `k` is `words[v[k] - 1]` for each of the values in order; otherwise it stops at the first failing position, whose value is 0 (underflow) or past the list |
| `WordLookup.ZeroBasedLookupTotal` | src/main.rs:214 | Corrected lookup `words[v]`: defined for every 11-bit value, and injective on a list of distinct words |
| `SeedPhrase.Encode` | src/main.rs:33-216 | With a digest, the phrase is produced iff no seed value is 0, and word `k` is then `words[SeedValues(d)[k] - 1]`; a failure is always an underflow at the first zero seed value, every earlier value being non-zero; on a usage error or `--help` (no digest) the lookup fails at position 0 |
| `SeedPhrase.SeedValuesInRange` | src/main.rs:183-187 | Every seed value of a digest lies in [0, 2047] |
| `SeedPhrase.RecoverDigestRoundTrip` | src/main.rs:64-205 | The digest recovered from its seed values (decode, first 32 bytes, reverse) is the digest itself |
| `SeedPhrase.RecoveredChecksum` | src/main.rs:64-72 | In the buffer decoded from the seed values, the checksum byte 32 equals byte 0 and digest byte 31 |
| `SeedPhrase.ZeroDigestHasZeroSeed` | src/main.rs:214 | For the all-zero digest, seed value 0 is 0 and its one-based lookup underflows, whatever the word list |
| `SeedPhrase.CorrectedPhraseDeterminesDigest` | src/main.rs:214 | With the zero-based lookup every seed value has a word, and on a list of distinct words equal phrases come from equal digests |

## Findings

| source | as written | input that shows it | evidently intended | confidence | as-written member | corrected member |
|---|---|---|---|---|---|---|
| src/main.rs:214 | The lookup indexes `GBWORDS[v - 1]` with `v` in [0, 2047]. For `v == 0` the `usize` subtraction underflows and the program aborts. Word 2047 is never used. | The all-zero digest, or any digest with an all-zero 11-bit group (about 1% of digests if the digest bits are uniform). It also happens on every `--help` and usage-error run, because the buffer stays all zero. | `GBWORDS[v]`: every 11-bit value names one of the 2048 words | high; not executed | `SeedPhrase.ZeroDigestHasZeroSeed` | `SeedPhrase.CorrectedPhraseDeterminesDigest` |

`SeedPhrase.Encode` keeps the lookup as written, so it models the program as
it behaves. `SeedPhrase.CorrectedPhrase` and `WordLookup.WordForZeroBased`
give the intended lookup.

## Left out

- Argument parsing, the help text and the usage-error messages (lines 26,
  38-47, 80-95, 130-147) are console control flow. Only the usage-error and
  `--help` branches (lines 80-83, 130-147) appear, as the `None` digest of
  `SeedPhrase.Encode`.
- The run without arguments (lines 221-224) prints a message and never
  reaches the encoder; it is not modelled at all.
- Reading the file (lines 97-100) is I/O, and its failures are `expect`
  aborts.
- The double SHA-256 through the `sha2` crate (lines 29-30, 53-58, 103-108)
  is a foreign library. The digest is an unconstrained 32-byte input.
- The contents of `GBWORDS` come from the `language` module, which is not
  part of this model. The list is an arbitrary sequence of 2048 strings.
- Printing (lines 210-219) is left out. So are the words printed before a
  failing lookup: an abort is modelled as an `Err` result without that
  partial output.
- `WordLookup.LookupPhrase`: the abort on underflow (a panic in debug builds)
  and the out-of-bounds index that the wrapped `usize` gives in release builds
  both become one `Err`; the model does not tell them apart.
