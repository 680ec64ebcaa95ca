# CryptographyProject core in Dafny

CryptographyProject encrypts messages and images with keys derived from a chaotic
double pendulum. The pendulum's coordinate samples, Python floats in (-8, 8), are
quantized to 16-bit codes. The codes are packed into key material and used in two ways:

- `2.0/AES.py` cuts the material into AES round keys for a hand-written AES-like
  block cipher. Its round operations are in `2.0/AESRoundFunc.py`.
- `module/AES.py` uses it as a master key for a library AES-CBC, and stores
  the IV and ciphertext as a grey-scale image. The key is meant to be 32 bytes;
  as written it is 32 to 56 bytes.

Images are framed as bytes by the `Support.py` modules. The framing is a 4-byte
size codec, zero-padded mode and extension fields, then the pixel bytes.

This project models that core with pure functions over immutable values and proves
properties about it:

- `Wrappers`: the Python exceptions that can escape (ValueError, IndexError,
  ZeroDivisionError and the repository's InsufficientSamplesException) and a `Result` type.
- `Arith`, `Bits`, `ByteSeq`: Python floor division, the bit operators on naturals
  (`<<`, `>>`, `|`, `&`, `^`), byte strings, clipped slicing, `b"".join` and the
  "cut every n bytes" comprehension.
- `Padding`: `__addPadding` / `__removePadding`, shared by every file.
- `Quantizer`: `__toBinary`, with floats as reals.
- `KeyMaterial`: resampling, `generateRoundKeys` and `masterKey`, and corrected
  versions of both.
- `RoundFunc`: the 4x4 state and the round operations of `2.0/AESRoundFunc.py`.
  Mixing is modelled both as the source runs it, in place through a shallow copy,
  and with a true copy. The eight lookup tables are a parameter.
- `Schedule`: `encrypt`'s and `decrypt`'s per-block round structure, as a list of
  steps an interpreter applies. It also holds the decryption schedule as written and
  the corrected one.
- `Cipher`: `encrypt` / `decrypt` of `2.0/AES.py`, block loop and errors included.
  A `Version` selects the code as written or the corrected code.
- `RoundKeys`: how the derived round keys meet the cipher.
- `Framing`: `sizeToByte`, `byteToSize`, and the pure byte layout of
  `imageToBytes` / `bytesToImage` in both `Support.py` files.
- `ImageFrame`: the pure parts of `encryptToImage` / `decryptFromImage`. These are
  the IV framing, the near-square height loop (as a method with a loop invariant)
  and the IV split. AES-CBC is a pair of function parameters.

Where the code and its own documentation disagree, the model follows the code:

- `generateRoundKeys` accepts `rounds == 1`. It then yields keys that `encrypt`
  and `decrypt` run with no middle round.
- `rounds == 0` raises ZeroDivisionError, because `totalSamples // 0` is evaluated.
- The docstrings of `generateRoundKeys` and `masterKey` say that fewer than 4
  samples is the failure case. The code of `generateRoundKeys` checks
  `2 * rounds`.
- `masterKey` is documented as 32 bytes. The code returns `8 * (N // (N // 4))` bytes.
- A `decrypt` of an empty string returns an empty string, without reading any key.

## Model

| member | source | states |
|---|---|---|
| Padding.AddPadding | 2.0/AES.py:45-47 | the result keeps the data as a prefix, adds only zero bytes, from 1 to a full block, and its length is a multiple of the block size |
| Padding.PadShort | 2.0/Support.py:9-10 | data shorter than one block is padded to exactly one block |
| Padding.RemovePadding | 2.0/AES.py:50-52 | the result is a prefix of the data that does not end in zero, and only zero bytes were removed |
| Padding.RemovePaddingUnique | 2.0/AES.py:50-52 | those three properties determine the stripped result uniquely |
| Padding.RemovePaddingIdempotent | 2.0/AES.py:50-52 | stripping twice equals stripping once |
| Padding.PadThenStrip | 2.0/AES.py:45-52 | padding then stripping loses exactly the data's own trailing zeros |
| Padding.PadThenStripRecovers | 2.0/AES.py:45-52 | data not ending in a zero byte survives padding and stripping unchanged |
| Quantizer.ToBinary | 2.0/AES.py:20-42 | ValueError exactly outside the open interval (-8, 8); otherwise a 2-byte code |
| Quantizer.SourceBytes | 2.0/AES.py:37-42 | the shift/OR/AND byte assembly gives high byte `16 * integer + scaled / 256` and low byte `scaled % 256` |
| Quantizer.FieldsInRange | 2.0/AES.py:24-34 | for an in-range sample the integer part fits 4 bits and the scaled fraction fits 12 bits; together they form the 16-bit fixed-point value |
| Quantizer.PackFields | 2.0/AES.py:37-39 | `(n << 4) \| (s >> 8)` is `16n + s // 256` and below 256, and `s & 0xFF` is `s % 256` |
| Quantizer.ToBinaryMatchesSource | 2.0/AES.py:24-42 | the code of every in-range sample is exactly the bytes the source builds from its two bit fields |
| Quantizer.QuantizeApproximates | 2.0/AES.py:24-42 | the code read back as a number is below or equal to the sample and less than 2^-12 away |
| Quantizer.DequantizeThenQuantize | 2.0/AES.py:20-42 | every non-zero code is the code of the number it reads back as |
| Bits.ShrIsDiv | 2.0/AES.py:37 | `x >> k` is floor division by `2^k` |
| Bits.OrOfShifted | 2.0/AES.py:37 | OR of a value shifted by k with a value below `2^k` is their sum |
| Bits.AndLowMask | 2.0/AES.py:39 | AND with `2^k - 1` keeps the remainder modulo `2^k` |
| Bits.XorBound | 2.0/AESRoundFunc.py:45 | XOR of two k-bit values is a k-bit value, so XOR of bytes is a byte |
| Bits.XorCancel | 2.0/AESRoundFunc.py:45 | XOR-ing the same value twice restores the original |
| ByteSeq.Slice | 2.0/Support.py:88 | a Python slice clips its bounds to the length and reads consecutive elements |
| ByteSeq.Drop | 2.0/Support.py:88 | a slice with an open end is empty past the length, and otherwise is the tail |
| ByteSeq.SliceDrop | 2.0/Support.py:88 | `s[:lo] + s[lo:] == s` for every cut point, the head holding `min(lo, len(s))` elements |
| ByteSeq.Chunks | 2.0/AES.py:105 | the slices of width n are `ceil(len / n)` non-empty pieces; all but the last are full, and joined they give back the input |
| ByteSeq.ChunksOfFlatten | 2.0/AES.py:128-134 | cutting a join of n-long blocks every n bytes gives the blocks back |
| ByteSeq.ChunksShort | 2.0/AES.py:105 | every piece is full exactly when the length is a multiple of n |
| ByteSeq.ChunksFull | 2.0/AES.py:105 | a length of q times n is cut into exactly q pieces, each of n elements |
| ByteSeq.ChunkLast | 2.0/AES.py:105 | otherwise the last piece holds the remainder of the length |
| KeyMaterial.Stride | 2.0/AES.py:90-93 | a stepped slice has Python's element count for the clipped stop |
| KeyMaterial.StrideAt | 2.0/AES.py:90-93 | element k of a stepped slice is the input at `start + k * step`, inside the clipped stop |
| KeyMaterial.StrideCountValue | 2.0/AES.py:90-93 | the element count is `ceil((stop - start) / step)`, or 0 when start is at or past stop |
| KeyMaterial.StrideInRange | 2.0/AES.py:90-93 | a slice of in-range samples is in range |
| KeyMaterial.ResampleInRange | 2.0/AES.py:87-93 | resampling each of the four sequences keeps it in range |
| KeyMaterial.ResampleCount | 2.0/AES.py:87-93 | `xs[step-1 :: step]` keeps `len(xs) // step` samples |
| KeyMaterial.ResampleAt | 2.0/AES.py:87-93 | kept sample k is the one at index `(k + 1) * step - 1` |
| KeyMaterial.ResampleCountBelow | 2.0/AES.py:87-93 | a slice stopped at `step * m` inside the sequence keeps m samples |
| KeyMaterial.Codes | 2.0/AES.py:96-99 | the code list succeeds exactly when every sample is in range (ValueError otherwise) and has 2 bytes per sample |
| KeyMaterial.CodesAt | 2.0/AES.py:96-99 | bytes `2i`, `2i+1` are the code of sample i |
| KeyMaterial.Pack | 2.0/AES.py:96-104 | packing succeeds exactly when all four sequences are in range; its length is 2 bytes per sample |
| KeyMaterial.PackAt | 2.0/AES.py:95-104 | in a key packed from four in-range lists of `m` samples, sample k's code of x1 is at byte 2k, of y1 at 2m + 2k, of x2 at 4m + 2k, of y2 at 6m + 2k |
| KeyMaterial.ResampledKeyAt | 2.0/AES.py:89-104 | after resampling with a step, kept sample k is the one at index (k + 1) * step - 1, and its code of each list sits at byte 2k of that list's quarter of the key |
| KeyMaterial.RoundKeyContents | 2.0/AES.py:87-105 | the round keys succeed on equal-length in-range lists and, joined, are the packed key: with step `N // (2 * rounds)` and `c = N // step`, bytes 2k, 2c + 2k, 4c + 2k and 6c + 2k hold the codes of x1, y1, x2 and y2 at index (k + 1) * step - 1 |
| KeyMaterial.MasterKeyContents | module/AES.py:74-90 | the master key succeeds on equal-length in-range lists of at least 4 samples: with step `N // 4` and `c = N // step`, bytes 2k, 2c + 2k, 4c + 2k and 6c + 2k hold the codes of x1, y1, x2 and y2 at index (k + 1) * step - 1 |
| KeyMaterial.GenerateRoundKeys | 2.0/AES.py:55-106 | InsufficientSamples exactly when x1 has fewer than `2 * rounds` samples; ZeroDivisionError for 0 rounds; otherwise ValueError only for an out-of-range sample; keys are at most 16 bytes, all but the last exactly 16 |
| KeyMaterial.SelectedCount | 2.0/AES.py:87-93 | with `step = N // k` the slice keeps c samples, `k <= c < 2k` |
| KeyMaterial.PackResampled | 2.0/AES.py:87-104 | four equal-length in-range sequences pack to `8 * (N // step)` bytes |
| KeyMaterial.RoundKeysShape | 2.0/AES.py:87-105 | with `c = N // (N // 2r)` kept samples there are `ceil(8c / 16)` keys, at least `rounds`; exactly `rounds` iff `c == 2r`; all 16 bytes iff c is even; otherwise the last is 8 bytes |
| KeyMaterial.TwentySamplesTenKeys | 2.0/AES.py:156-160 | the demo's 20 samples with 10 rounds give ten 16-byte keys |
| KeyMaterial.CorrectedGenerateRoundKeys | 2.0/AES.py:80-106 | the derivation stopped after `2 * rounds` kept samples raises the same errors under the same conditions |
| KeyMaterial.CorrectedRoundKeysShape | 2.0/AES.py:101-105 | the corrected derivation gives exactly `rounds` keys of 16 bytes |
| KeyMaterial.MasterKey | module/AES.py:53-92 | InsufficientSamples exactly when there are at most 3 samples; otherwise ValueError only for an out-of-range sample |
| KeyMaterial.MasterKeyShape | module/AES.py:70-92 | the key is `8c` bytes, `c = N // (N // 4)` with `4 <= c < 8`, so between 32 and 56 bytes |
| KeyMaterial.DemoMasterKeyIs32Bytes | module/AES.py:165-167 | the demo's four-sample key is 32 bytes |
| KeyMaterial.CorrectedMasterKey | module/AES.py:53-92 | the master key stopped after four kept samples raises the same errors under the same conditions |
| KeyMaterial.CorrectedMasterKeyShape | module/AES.py:68 | the corrected master key is 32 bytes for every sample count from 4 |
| KeyMaterial.SevenSamplesFiftySixBytes | module/AES.py:74-92 | seven samples give a 56-byte master key as written, and 32 bytes corrected |
| RoundFunc.XorByte | 2.0/AESRoundFunc.py:45 | byte XOR is the bitwise XOR of the two values |
| RoundFunc.XorByteCancel | 2.0/AESRoundFunc.py:45 | XOR-ing a byte twice with the same key byte restores it |
| RoundFunc.BlockToState | 2.0/AESRoundFunc.py:5-14 | ValueError exactly for a block that is not 16 bytes; cell (i, j) is byte `4i + j` |
| RoundFunc.StateToBlock | 2.0/AESRoundFunc.py:17-25 | ValueError unless there are 4 rows joining to 16 bytes; for a grid, byte `4i + j` is cell (i, j) |
| RoundFunc.BlockStateBlock | 2.0/AESRoundFunc.py:5-25 | a 16-byte block converts to a state and back unchanged |
| RoundFunc.StateBlockState | 2.0/AESRoundFunc.py:5-25 | a 4x4 grid converts to a block and back unchanged |
| RoundFunc.AddRoundKey | 2.0/AESRoundFunc.py:32-47 | ValueError unless state and key are 4x4 grids; each cell is the XOR of the two cells |
| RoundFunc.AddRoundKeyTwice | 2.0/AESRoundFunc.py:32-47 | adding the same round key twice restores the state |
| RoundFunc.ShiftRows | 2.0/AESRoundFunc.py:54-63 | ValueError unless the state is a grid; row i is rotated left by i |
| RoundFunc.InvShiftRows | 2.0/AESRoundFunc.py:66-75 | ValueError unless the state is a grid; row i is rotated right by i |
| RoundFunc.ShiftRowsThenInverse | 2.0/AESRoundFunc.py:54-75 | the inverse shift undoes the shift |
| RoundFunc.InverseThenShiftRows | 2.0/AESRoundFunc.py:54-75 | the shift undoes the inverse shift |
| RoundFunc.SubBytes | 2.0/AESRoundFunc.py:114-123 | ValueError unless the state is a grid; every cell goes through the S-box |
| RoundFunc.InvSubBytes | 2.0/AESRoundFunc.py:127-136 | ValueError unless the state is a grid; every cell goes through the inverse S-box |
| RoundFunc.SubBytesThenInverse | 2.0/AESRoundFunc.py:114-136 | when the inverse S-box inverts the S-box, InvSubBytes undoes SubBytes on every grid |
| RoundFunc.MixRowSequential | 2.0/AESRoundFunc.py:85-92 | in-place mixing computes cell k from the already-overwritten cells before k and the old cells from k on |
| RoundFunc.InvMixRowSequential | 2.0/AESRoundFunc.py:100-107 | the same for the inverse mix |
| RoundFunc.MixPrefixStable | 2.0/AESRoundFunc.py:85-92 | cells already written are not touched again by later assignments |
| RoundFunc.InvMixPrefixStable | 2.0/AESRoundFunc.py:100-107 | the same for the inverse mix |
| RoundFunc.MixColumns | 2.0/AESRoundFunc.py:82-94 | ValueError unless the state is a grid; each row is mixed in place |
| RoundFunc.InvMixColumns | 2.0/AESRoundFunc.py:97-109 | ValueError unless the state is a grid; each row is unmixed in place |
| RoundFunc.MixColumnsCopied | 2.0/AESRoundFunc.py:89-92 | each row is mixed reading only the old row, as the formulas are written |
| RoundFunc.InvMixColumnsCopied | 2.0/AESRoundFunc.py:104-107 | each row is unmixed reading only the old row |
| RoundFunc.MixColumnsCopiedThenInverse | 2.0/AESRoundFunc.py:82-109 | when the inverse matrix inverts the forward one row by row, the copied inverse mix undoes the copied mix |
| RoundFunc.MixRowInPlaceDiffers | 2.0/AESRoundFunc.py:85-92 | with the AES entries 2·0 = 3·0 = 0 and 2·1 = 2, row (1, 0, 0, 0) gets cell 1 equal to 2 in place but 1 with a copy |
| Schedule.Apply | 2.0/AES.py:118-127 | on a grid a step fails exactly when it carries a key that is not 16 bytes (ValueError), and keeps the grid shape |
| Schedule.Run | 2.0/AES.py:115-128 | a step list on a grid fails exactly when one of its keys is not 16 bytes |
| Schedule.RunAppend | 2.0/AES.py:115-128 | running two step lists in sequence is running their concatenation, with the first error propagated |
| Schedule.KeysOkAppend | 2.0/AES.py:115-128 | a concatenation has good keys iff both parts do |
| Schedule.Inverse | 2.0/AES.py:137-151 | the inverse step list reverses the order and inverts each step |
| Schedule.InverseAppend | 2.0/AES.py:137-151 | the inverse of a concatenation is the concatenation of the inverses in reverse order |
| Schedule.InverseInverse | 2.0/AES.py:137-151 | inverting a step list twice gives it back |
| Schedule.ApplyThenInvert | 2.0/AESRoundFunc.py:32-136 | with a copied mix and inverting tables, every forward step is undone by its inverse step |
| Schedule.AddKeyThenInvert | 2.0/AESRoundFunc.py:32-47 | a key step is its own inverse |
| Schedule.SubThenInvert | 2.0/AESRoundFunc.py:114-136 | InvSub undoes Sub |
| Schedule.ShiftThenInvert | 2.0/AESRoundFunc.py:54-75 | InvShift undoes Shift |
| Schedule.MixThenInvert | 2.0/AESRoundFunc.py:82-109 | the copied InvMix undoes the copied Mix |
| Schedule.ApplyMixes | 2.0/AESRoundFunc.py:82-109 | the mix steps under copying are the copied mix functions |
| Schedule.RunThenInverse | 2.0/AES.py:115-151 | running a forward schedule and then its inverse restores the state |
| Schedule.RunWithoutMixes | 2.0/AESRoundFunc.py:85-100 | a schedule without mix steps runs the same in place and copied |
| Schedule.EncryptRounds | 2.0/AES.py:119-123 | `top` middle rounds are four steps each: sub, shift, mix, key |
| Schedule.DecryptRounds | 2.0/AES.py:142-146 | `top` decrypt rounds are four steps each: inverse shift, inverse sub, key, inverse mix |
| Schedule.EncryptSchedule | 2.0/AES.py:115-128 | the encryption schedule holds only forward steps |
| Schedule.ForwardRounds | 2.0/AES.py:119-123 | the middle rounds hold only forward steps |
| Schedule.EncryptRoundsKeys | 2.0/AES.py:119-123 | the middle rounds have good keys iff keys 1..top are 16 bytes |
| Schedule.DecryptRoundsKeys | 2.0/AES.py:142-146 | the same for the decrypt rounds |
| Schedule.SchedulesUseEveryKey | 2.0/AES.py:115-151 | encryption, decryption as written and corrected decryption all fail on a key exactly when some round key is not 16 bytes |
| Schedule.InverseOfRounds | 2.0/AES.py:119-146 | the inverse of the middle rounds equals the decrypt rounds, up to the shift and substitution steps moved across |
| Schedule.CorrectedDecryptInvertsEncrypt | 2.0/AES.py:119-150 | decryption with its loop starting at N-2 is exactly the inverse of the encryption schedule |
| Schedule.MixCount | 2.0/AES.py:122 | the number of mix steps is at most the schedule's length |
| Schedule.MixCountAppend | 2.0/AES.py:122 | mix steps add up over concatenation |
| Schedule.MixCountInverse | 2.0/AES.py:146 | inverting a schedule keeps its number of mix steps |
| Schedule.MixCountRounds | 2.0/AES.py:119-146 | `top` rounds mix `top` times, forward or inverse |
| Schedule.EncryptMixCount | 2.0/AES.py:119-122 | encryption mixes `N - 2` times (0 for one key) |
| Schedule.DecryptMixCount | 2.0/AES.py:142-146 | decryption as written unmixes `N - 1` times |
| Schedule.DecryptMixesOnceTooOften | 2.0/AES.py:142 | from two keys on, the decrypt schedule as written is not the inverse of encryption; with one key it is |
| Cipher.EncryptBlock | 2.0/AES.py:115-128 | one block succeeds iff it is 16 bytes and there is at least one key, all 16 bytes; IndexError exactly for a 16-byte block and no keys; otherwise ValueError |
| Cipher.DecryptBlock | 2.0/AES.py:137-151 | the same error behaviour for one decrypted block |
| Cipher.MapBlocks | 2.0/AES.py:115-130 | the block loop succeeds iff every block does, returns the per-block results in order, and otherwise raises the first block's error |
| Cipher.Encrypt | 2.0/AES.py:109-130 | encryption succeeds iff there is a key and all keys are 16 bytes; IndexError iff there are no keys; output as long as the padded message |
| Cipher.Decrypt | 2.0/AES.py:133-153 | decryption succeeds iff the input is whole blocks and, unless it is empty, the keys are well formed; empty in, empty out; IndexError iff there are no keys and the input has at least 16 bytes; output stripped of trailing zeros |
| Cipher.DecryptBlocks | 2.0/AES.py:134-151 | the block loop of decrypt succeeds iff the input is whole blocks and, unless it is empty, the keys are well formed; IndexError iff there are no keys and the first block has 16 bytes, ValueError otherwise; joined output as long as the input |
| Cipher.BlockLoop | 2.0/AES.py:134-151 | for any per-block decryption with DecryptBlock's error behaviour, the loop over the 16-byte slices succeeds iff the input is whole blocks and, unless empty, the keys are well formed, and its joined output is as long as the input |
| Cipher.BlockLoopError | 2.0/AES.py:134-151 | such a loop fails with IndexError iff there are no keys and the input has at least 16 bytes, and with ValueError otherwise |
| Cipher.Unpadded | 2.0/AES.py:50-52 | stripping trailing zeros from the joined blocks leaves at most as many bytes as the input, none of them a trailing zero, and nothing for an empty input |
| Cipher.DecryptLoopOk | 2.0/AES.py:134-151 | every decrypted block succeeds iff the input is whole blocks and, if non-empty, the keys are well formed |
| Cipher.EncryptBlockwise | 2.0/AES.py:110-130 | block k of the ciphertext is block k of the padded message encrypted alone |
| Cipher.DecryptBlockwise | 2.0/AES.py:133-153 | when decryption succeeds, its output is the join of every 16-byte input block decrypted alone, in order, with the trailing zeros stripped |
| Cipher.BlockRoundTrip | 2.0/AES.py:115-151 | when the inverse S-box inverts the S-box and either there is one key (the code as written) or the decrypt loop is corrected and the copied inverse mix inverts the copied mix, decrypting an encrypted block gives it back |
| Cipher.RoundTrip | 2.0/AES.py:109-153 | when the inverse S-box inverts the S-box and either there is one key (the code as written) or the decrypt loop is corrected and the copied inverse mix inverts the copied mix, decrypt(encrypt(m)) is m less its trailing zeros |
| Cipher.RoundTripExact | 2.0/AES.py:109-153 | a message not ending in zero comes back exactly |
| RoundKeys.KeptCountDecides | 2.0/AES.py:87-130 | for derived keys, encryption succeeds iff the kept count is even, and otherwise raises ValueError |
| RoundKeys.TwentyOneSamplesFail | 2.0/AES.py:87-127 | 21 samples with 10 rounds give eleven keys, the last one 8 bytes, and every encryption raises ValueError |
| RoundKeys.CorrectedKeysRoundTrip | 2.0/AES.py:55-153 | corrected keys, corrected cipher and inverting tables: encryption succeeds and decryption recovers the message less its trailing zeros |
| Framing.SizeToByte | 2.0/Support.py:39-51 | ValueError iff a dimension is outside 0..65535; otherwise four bytes whose high and low pairs spell height and width |
| Framing.ByteToSize | 2.0/Support.py:54-58 | ValueError iff the input is not 4 bytes; both dimensions are below 65536 |
| Framing.SizeRoundTrip | 2.0/Support.py:39-58 | every encodable size decodes to itself |
| Framing.ByteSizeRoundTrip | 2.0/Support.py:39-58 | every 4-byte string is the encoding of what it decodes to |
| Framing.ImageToBytes | 2.0/Support.py:61-75 | the output is the size bytes, then the mode padded to 8, then the extension padded to 6, then the pixels, each at its offset; it fails exactly when the size does |
| Framing.BytesToImage | 2.0/Support.py:78-95 | decoding fails (size unpack) iff there are fewer than 4 bytes; mode is at most 8 bytes, extension at most 6; pixels are the bytes from 18 on |
| Framing.ImageRoundTrip | 2.0/Support.py:61-95 | an image whose mode fits 7 bytes and extension fits 5, with no trailing zero, frames and unframes to itself |
| Framing.DecodeHeader | 2.0/Support.py:88-92 | any 4 + 8 + 6 byte header decodes to the size and the stripped fields |
| Framing.HeaderSlices | 2.0/Support.py:88 | the decoder's slices cut out exactly the four parts |
| Framing.EightByteModeShiftsLayout | 2.0/Support.py:71-75 | an 8-byte mode is padded to 16 bytes, so the decoded extension is empty and the pixels gain the spilled bytes |
| Framing.PlainImageToBytes | module/Support.py:62-78 | size, padded mode and pixels; 12 header bytes for a mode under 8 bytes |
| Framing.PlainBytesToImage | module/Support.py:81-100 | fails iff there are fewer than 4 bytes; mode at most 8 bytes; pixels from byte 12 |
| Framing.PlainImageRoundTrip | module/Support.py:62-100 | an image whose mode fits 7 bytes frames and unframes to itself |
| ImageFrame.FloorSqrt | module/AES.py:134 | the result is the integer square root: `r² <= n < (r+1)²` |
| ImageFrame.ChooseHeight | module/AES.py:134-138 | ZeroDivisionError iff there are no bytes; otherwise the largest divisor at most the square root |
| ImageFrame.NearSquareUnique | module/AES.py:134-138 | that height is unique |
| ImageFrame.DimensionsCover | module/AES.py:140 | height times `total // height` is the byte count, and the width is at least the height |
| ImageFrame.CipherFrame | module/AES.py:131-132 | the frame starts with the IV, followed by the CBC encryption of the padded message |
| ImageFrame.EncryptToImage | module/AES.py:130-141 | the image holds the frame, its dimensions multiply to its size, and its height follows the near-square rule; ZeroDivisionError iff the frame is empty |
| ImageFrame.SplitFrame | module/AES.py:148 | the two parts join to the input, and the first is 16 bytes or the whole input |
| ImageFrame.SplitFrameInverts | module/AES.py:148 | splitting `iv + c` gives `(iv, c)` iff the IV is 16 bytes, or shorter with nothing after it |
| ImageFrame.DecryptFromImage | module/AES.py:144-150 | the decrypted message never ends in a zero byte |
| ImageFrame.ImageRoundTrip | module/AES.py:130-150 | with a 16-byte IV and a CBC decryption that inverts encryption, the image decrypts to the message less its trailing zeros |

## Left out

- The lookup tables (`AESMatrices`) are not part of this model. `RoundFunc.Tables`
  is a parameter. The round trips assume `SubInverts` and `MixInverts`, which the
  AES tables satisfy.
- PIL (opening, saving and `frombytes` of images), file I/O and the UTF-8
  encoding/decoding of mode and extension: images are abstracted to size, mode
  bytes, extension bytes and pixel bytes.
- PyCryptodome's AES-CBC and its random IV: in `ImageFrame` they are function parameters.
- The double pendulum simulation (`2.0/DoublePendulum.py`): floating-point ODE
  integration. Its output enters as four given sequences of reals.
- `generateInitialConditions`, `writeKey`, `readKey` and `module/InitialConditions.py`:
  clock-seeded randomness and text-file I/O.
- `index.js`, `encryptionScript.py`, `script_e.py`, `decryptionScript.py` and
  `module/main.py`: web server, argument handling, directories and printing. The
  scripts' one-byte type tag is a plain prefix.
- `print` calls and the `__main` demos, except the key-shape facts they rely on.
- Python floats are modelled as reals. `int()` of a positive float is its floor;
  rounding error in `val + 8` and `2**12 * fraction` is not modelled.
- `floor(sqrt(n))` is modelled as the exact integer square root. Float error for
  very large `n` is not modelled.
- `rounds` is a `nat`. Negative round counts, which Python would accept and slice
  oddly, are excluded.
- Framing.PlainBytesToImage: module/Support.py turns the stripped mode into text
  with `__str__`, which yields the bytes' printed form (`"b'L'"`). The model keeps
  the stripped bytes.
- KeyMaterial.GenerateRoundKeys: only the length of x1 is checked, as in the
  source. Shorter x2, y1 or y2 slice to fewer samples, and the model does the same.
- Schedule.Apply, Cipher.Encrypt: the source's `blockToState(roundKeys[i])`
  failure on a badly sized key is modelled. Its row-length checks on states are
  not modelled separately, because every state in the schedule is a grid.

## Findings

| source | as written | input that shows it | evidently intended | confidence | as-written member | corrected member |
|---|---|---|---|---|---|---|
| 2.0/AES.py:142 | `decrypt`'s loop runs `i = N-1 .. 1`. It reapplies the last key and unmixes `N - 1` times, while `encrypt`'s loop runs `1 .. N-2` and mixes `N - 2` times | any key list with `N >= 2`, e.g. the demo's 10 keys | the loop runs `N-2 .. 1`, so that decryption is the inverse of encryption | high, not executed | Schedule.DecryptMixesOnceTooOften | Schedule.CorrectedDecryptInvertsEncrypt, Cipher.RoundTrip |
| 2.0/AESRoundFunc.py:85 | `state.copy()` is shallow, so `mixColumns` (and `invMixColumns` at line 100) overwrites each row's cells while later formulas still read them | row (1, 0, 0, 0) with the AES tables: cell 1 becomes 2 in place, 1 by the matrix | each row mixed from its old values, the AES MixColumns matrix | high, not executed | RoundFunc.MixRowInPlaceDiffers | RoundFunc.MixColumnsCopiedThenInverse, Cipher.RoundTrip |
| 2.0/AES.py:87-105 | the slice `[space-1 : N : space]` keeps `N // space` samples, between `2r` and `4r - 1`. So the key is longer than `16 * rounds` bytes whenever more than `2r` are kept, and an odd count leaves an 8-byte last key | 21 samples, 10 rounds: 11 keys, the last 8 bytes; `encrypt` raises ValueError | exactly `2 * rounds` samples kept, a `16 * n` byte key (comment at line 101) | high, not executed | RoundKeys.TwentyOneSamplesFail, RoundKeys.KeptCountDecides | KeyMaterial.CorrectedRoundKeysShape, RoundKeys.CorrectedKeysRoundTrip |
| module/AES.py:77-90 | the same slice keeps `N // (N // 4)` samples, between 4 and 7 | 7 samples: a 56-byte key, which is not a valid AES key length | a 32-byte key (docstring, line 68) | high, not executed | KeyMaterial.SevenSamplesFiftySixBytes, KeyMaterial.MasterKeyShape | KeyMaterial.CorrectedMasterKeyShape |
