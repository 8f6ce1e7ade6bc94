# LZW codec core of LZip, in Dafny

This project models the codec core of LZip, a header-only LZW compressor.

- **Dictionary.** The dictionary is an arena of `{prefix, ch}` entries indexed by code. A reverse map sends each key `(prefix, ch)` back to its code. It is seeded with the 256 single-byte roots.
- **BitPacker.** An LSB-first, variable-width bit packer: `writeCode`, `readCode` and `flushRemaining`.
- **Encoder.** `execEncoding` does a greedy longest match. It emits the prefix code, adds an entry, and grows the code width from 9 to 20 bits.
- **Decoder.**
  - `reconstructString` walks a prefix chain.
  - `execDecoding` and its `decodeOne` step rebuild the table one code behind the encoder, including the KwKwK case.
- **getStem.** The command-name helper of the CLI.

The imperative parts of the source keep their form:

- `initDictionary` is a loop over the 256 roots.
- `BitPacker` is a class whose `output`, `bitBuf` and `bitCount` fields its methods update.
- `execEncoding` and `execDecoding` are loops that drive a packer.
- The decoder's captured variables live in the class `LzwDecoder`, updated by `DecodeOne`.
- `reconstructString` pushes bytes in a loop, then reverses them.

Each method is proved against a functional specification:

- `EncStep`/`EncRun` and `EncodeCodes` for the encoder;
- `DecodeStep`/`DecodeCodes` and `DecodeStream` for the decoder;
- `CodeBits`/`ParseCodes` for the code stream at the width schedule both sides follow;
- `Expand` for the string a code stands for.

The headline theorem is `RoundTrip.RoundTrip`: whatever bytes carry the encoder's codes, followed by fewer than eight bits of padding, decode to the encoder's input. `RoundTrip.EncodeThenDecode` runs `ExecEncoding` and then `ExecDecoding`, and proves that the result is the input.

The packer's own round trip holds at any widths, not just the codec's: `BitIO.WRoundTrip` reads back values written at an arbitrary list of widths. `BitIO.PackCodes` connects it to the packer's class methods, `WriteCode` and `FlushRemaining`.

Modules, one per file:

- **`Arith`:** multiplication and Euclidean division facts.
- **`Bits`:** powers of two, LSB-first bit strings of naturals, bytes to bits.
- **`Dictionary`:** `dictionary.hpp`.
- **`CodeStream`:** the width schedule, and the writing and parsing of code streams.
- **`Coding`:** `Parses`, the relation between a table, a code sequence and a string that the encoder builds and the decoder reads.
- **`BitIO`:** `bitio.hpp`.
- **`Encoder`:** `encoder.hpp`.
- **`Decoder`:** `decoder.hpp`.
- **`RoundTrip`:** the round-trip theorem.
- **`Cli`:** `getStem` of `cli.hpp`.

Arithmetic conventions:

- Integers are unbounded. The shifts of the source are multiplication and division by powers of two.
- `|=` into the bit buffer is modelled as `+`. This is valid because the packer's invariant `Valid()` says that no bit of `bitBuf` at or above `bitCount` is set. Every method keeps that invariant.
- `code & ((1 << size) - 1)` is the Euclidean remainder modulo `2^size`, which is what two's complement gives for negative codes too.

The code-width rules of the two sides differ by one on purpose:

- The encoder grows when `nextCode == 2^codeSize`.
- The decoder grows when `nextCode + 1 == 2^codeSize`, one code behind.
- `CodeStream.CodeWidthStep`, `Decoder.DecodeWidth` and `Encoder.RunWidth` show that both rules give code number j the width `WidthAt(j) = CodeWidth(256 + j)`.

Where the source has undefined behaviour, the model returns an error:

- `decodeOne` reads `dict[code]` for a code beyond the table that is not the KwKwK code.
- Its first-code branch calls `reconstructString` without a bounds check.

In both cases the model returns `Err(InvalidCode)` and leaves the decoder's state unchanged. `execDecoding` then stops with that error.

## Model

| member | source | states |
|---|---|---|
| Dictionary.InitDictionary | include/lzip/dictionary.hpp:37-47 | the table has exactly 256 entries and the map exactly 256 keys; entry i is {-1, i}; lookup[{-1, i}] == i; every key is a root key; table and map agree in both directions and every prefix is -1 or an earlier code |
| Dictionary.SeedValid | include/lzip/dictionary.hpp:39-45 | the seeded table and map form a valid dictionary (agreement both ways, acyclic prefix chains) with exactly 256 keys |
| Dictionary.KeyEq | include/lzip/dictionary.hpp:29-35 | DictKeyEq holds exactly when prefix and ch are both equal, i.e. iff the keys are equal |
| Dictionary.ExpandPrefix | include/lzip/encoder.hpp:34-37 | entries are only appended, so a code stands for the same string in every later table |
| Dictionary.AppendAgree | include/lzip/encoder.hpp:35-36 | adding an entry at the end of the table and its key to the map keeps table and map in agreement when the key was new |
| BitIO.BitPacker.constructor | include/lzip/bitio.hpp:14-16 | a new packer has no output, an empty register and no pending bits, so its stream is empty and it keeps no stray bits |
| BitIO.BitPacker.WriteCode | include/lzip/bitio.hpp:18-29 | the code is masked to codeSize bits; from any state the packer leaves bitCount == (old bitCount + codeSize) % 8 < 8, appends exactly (old bitCount + codeSize) / 8 bytes (the low bytes of the merged buffer) and keeps no stray high bits; the stream of bits written grows by exactly the masked code's codeSize bits |
| BitIO.BitPacker.ReadCode | include/lzip/bitio.hpp:31-43 | with fewer than codeSize bits it returns -1 and changes nothing; otherwise it returns bitBuf mod 2^codeSize, which is the first codeSize pending bits, shifts them out and lowers bitCount by codeSize, keeping no stray bits |
| BitIO.BitPacker.FlushRemaining | include/lzip/bitio.hpp:45-53 | with no pending bits nothing changes; otherwise exactly one byte, the buffer's low byte, is appended and buffer and count go to 0; the bytes then hold the stream followed by the zero padding to a byte boundary |
| BitIO.BitPacker.PeelBytes | include/lzip/bitio.hpp:23-28 | the byte loop of writeCode leaves fewer than 8 pending bits, having appended exactly the low bytes of the merged register (k of them, with 8k + count the bits it started with) and shifted the register down by 8k |
| BitIO.PeelAll | include/lzip/bitio.hpp:22-28 | peeling k whole bytes off a value: its first 8k bits are those bytes, LSB first, and the rest are the value shifted right by 8k |
| BitIO.MergeBits | include/lzip/bitio.hpp:20-21 | or-ing a code above bitCount clean bits gives the old bits followed by the code's bits, and no stray bits |
| BitIO.BitPacker.WriteCodes | tests/performance_tests.cpp:115-121 | writeCode called for a list of values at a list of widths (each up to 30) extends the packer's stream by exactly the masked values' bits, each at its own width, and keeps fewer than 8 bits pending |
| BitIO.PackCodes | tests/performance_tests.cpp:112-125 | a fresh packer that writes values at any widths and flushes yields bytes holding the masked values' bits followed by fewer than 8 zero bits, and reading them back at the same widths gives the masked values |
| BitIO.WRoundTrip | include/lzip/bitio.hpp:18-43 | for any widths, values that fit their widths written by writeCode are read back in order by readCode at the same widths, whatever bits follow |
| BitIO.MaskedFit | include/lzip/bitio.hpp:20 | the mask leaves every value that fits its width unchanged |
| BitIO.WriteBytesExample | tests/lzip_t.cpp:74-87 | writing 65, 66, 67 at width 8 gives exactly the bytes [65, 66, 67] |
| BitIO.MaskExample | tests/lzip_t.cpp:104-114 | writing 0xFF at width 4 and flushing gives the single byte 0x0F |
| CodeStream.CodeWidthStep | include/lzip/encoder.hpp:38-39 | the growth rule "if the next code equals 2^codeSize and codeSize < 20, widen" keeps codeSize equal to the width for the table size |
| CodeStream.CodeWidthFits | include/lzip/encoder.hpp:15-16 | every code up to MAXCODE fits the width chosen for it, which is between 9 and 20 |
| CodeStream.ParseCodeBits | include/lzip/decoder.hpp:79-86 | codes written at the schedule's widths are read back, in order, by the decoder's reading loop, which then goes on reading what follows |
| CodeStream.PaddingIgnored | include/lzip/decoder.hpp:89-96 | fewer than 9 trailing padding bits are never read as a code |
| Coding.ParsesNewCode | include/lzip/encoder.hpp:31-41 | on a miss with room, the entry {last code, c} goes in at index nextCode, which is 256 plus the number of codes minus one, and c starts the next code; the parse invariant is kept |
| Coding.ParsesExtendLast | include/lzip/encoder.hpp:27-30 | on a hit the new match spells the old match plus c, and replacing the last code by it keeps the parse invariant |
| Encoder.EncHit | include/lzip/encoder.hpp:27-30 | a hit emits nothing and leaves table, map, nextCode and codeSize unchanged; the new match spells the old one plus the byte |
| Encoder.EncMiss | include/lzip/encoder.hpp:31-42 | a miss always emits the match, which is never -1 because every byte is seeded; while nextCode < MAXCODE the entry {p, c} goes in at index nextCode with lookup[{p, c}] == nextCode and nextCode grows by one; at the cap nothing is added; the match restarts at c |
| Encoder.EncStep | include/lzip/encoder.hpp:26-42 | one byte step keeps the state well formed: the match is a code or -1, and nextCode and every code in the reverse map are non-negative |
| Encoder.EncRun | include/lzip/encoder.hpp:22-44 | the state after any input is well formed in the same sense |
| Encoder.EncRunInv | include/lzip/encoder.hpp:22-44 | after every input the encoder's invariant holds: table size == nextCode, table and map agree, codeSize is the width for nextCode, and the emitted codes with the current match spell the input |
| Encoder.EncStepInv | include/lzip/encoder.hpp:25-43 | one step of the byte loop keeps the encoder's invariant (table size == nextCode, table and map agree, codeSize == width of nextCode, the codes spell the input read so far) |
| Encoder.EncodeParses | include/lzip/encoder.hpp:10-50 | the encoder's codes spell the input over the table it builds, each code fits its width, and only the empty input has no codes |
| Encoder.WidthMonotone | include/lzip/encoder.hpp:13-39 | codeSize never decreases and never exceeds 20; nextCode never decreases and never exceeds MAXCODE |
| Encoder.EmitFits | include/lzip/encoder.hpp:33-47 | every code handed to writeCode is below nextCode and below 2^codeSize, so the mask never truncates it |
| Encoder.EncodeByte | include/lzip/encoder.hpp:26-42 | one iteration of the byte loop on the real packer performs the specification step and the packer's stream grows by the emitted code's bits |
| Encoder.EmitCode | include/lzip/encoder.hpp:33 | writing a code at the width of its position appends it to the codes written and keeps the packer's stream equal to their bits at the schedule's widths, with fewer than 8 bits pending |
| Encoder.FinishEncoding | include/lzip/encoder.hpp:46-48 | after the final match is written (when there is one) and the register is flushed, the output bytes hold exactly the bits of all codes followed by fewer than 8 zero bits |
| Encoder.ExecEncoding | include/lzip/encoder.hpp:10-50 | the output bytes are the codes of EncodeCodes(input) at their widths followed by fewer than 8 zero bits of padding; the output is empty exactly when the input is |
| Encoder.AAAExample | include/lzip/encoder.hpp:25-47 | "AAA" is written as the codes 65 and 256 |
| Decoder.Reverse | include/lzip/decoder.hpp:23 | the result has the input's length and element i is the input's element from the end |
| Decoder.ReconstructString | include/lzip/decoder.hpp:12-25 | the result is the string the code's prefix chain spells from the root (a root code gives one byte), and it is never empty |
| Decoder.ReverseSnoc | include/lzip/decoder.hpp:23 | reversing a string with one more byte at its end puts that byte first |
| Decoder.DecodeStep | include/lzip/decoder.hpp:40-69 | decodeOne fails exactly when the code is beyond the table and is not the KwKwK code (or is the first code and beyond the table); on success the decoder's invariant is kept, the output is non-empty and the code becomes oldCode |
| Decoder.StepInv | include/lzip/decoder.hpp:49-68 | a later code whose output is the KwKwK string or the code's own string leaves a non-empty output and keeps the decoder's invariant: a valid table of nextCode <= MAXCODE entries, codeSize the width for nextCode + 1, oldString the string of oldCode |
| Decoder.GrowKwKwK | include/lzip/decoder.hpp:49-54 | in the KwKwK case the output oldString + [oldString[0]] is the string of the entry the step adds |
| Decoder.GrowWidth | include/lzip/decoder.hpp:59-65 | adding an entry and applying the decoder's growth rule keeps codeSize equal to the width for nextCode + 1 |
| Decoder.DecodeWidth | include/lzip/decoder.hpp:59-65 | after j codes nextCode is the table size for j codes and codeSize is WidthAt(j), the same width the encoder used for code j |
| Decoder.ErrorPrefix | include/lzip/decoder.hpp:79-96 | once a code fails, no later code changes the outcome |
| Decoder.LzwDecoder.constructor | include/lzip/decoder.hpp:29-37 | a new decoder has the seeded table, nextCode 256, width 9 and no old code, which is the initial specification state, and it satisfies the decoder's invariant |
| Decoder.LzwDecoder.DecodeOne | include/lzip/decoder.hpp:40-69 | the method's new state and output are those of the specification step; on an invalid code it returns the error and changes nothing |
| Decoder.LzwDecoder.Remember | include/lzip/decoder.hpp:59-67 | the end of decodeOne adds {oldCode, out[0]} and widens exactly as the specification step does while there is room, changes no table at the cap, and always records the code and its string |
| Decoder.FeedByte | include/lzip/decoder.hpp:77-78 | with at most 56 bits pending, so that the 64-bit register holds them, feeding a byte adds its 8 bits after the pending ones and keeps the packer clean |
| Decoder.ReadNext | include/lzip/decoder.hpp:81-83 | readCode at the width of the next code either returns -1 with fewer bits pending than that width and nothing changed, or returns a code that fits its width, with the consumed codes' bits followed by the pending bits still equal to the bits fed so far |
| Decoder.ReadAndDecode | include/lzip/decoder.hpp:81-85 | one pass of either read loop either reads nothing and changes nothing, or decodes one more code (using up pending bits) with packer, decoder and output still in step with DecodeCodes of the codes read, or stops with the error DecodeCodes gives for them |
| Decoder.DrainCodes | include/lzip/decoder.hpp:79-86 | the inner loop reads and decodes codes until fewer than codeSize bits are pending, keeping packer, decoder and the consumed codes in step, or stops with the failing code's error; it never ends with a failed read |
| Decoder.DecodeInput | include/lzip/decoder.hpp:71-88 | after the outer loop over the input bytes, either a code has failed and the stream's decoding is that error, or packer and decoder are in step with the codes read from all the input's bits and fewer than codeSize (at most 20) bits are pending, so the register never holds more than 27 bits |
| Decoder.DrainRest | include/lzip/decoder.hpp:89-96 | the final loop ends with fewer than codeSize pending bits and packer and decoder in step, or with a failed code whose error is the decoding of the codes read so far |
| Decoder.ExecDecoding | include/lzip/decoder.hpp:27-99 | the method's result is DecodeStream(input): the decoding of the codes parsed from the bits of the input |
| Decoder.ReconstructExample | tests/lzip_t.cpp:141-152 | with entry 256 = {65, 66}, reconstructString(256) is "AB" |
| Decoder.KwKwKExample | include/lzip/decoder.hpp:49-54 | the codes 65, 256 decode to "AAA" through the KwKwK case, leaving entry 256 = {65, 65} |
| RoundTrip.KwKwKStep | include/lzip/decoder.hpp:49-54 | a code of the encoder that is not yet in the decoder's table is exactly the next code, and the KwKwK string is its string |
| RoundTrip.DecodeParses | include/lzip/decoder.hpp:40-69 | the decoder reads back, code for code, the string of any parse the encoder produces |
| RoundTrip.RoundTrip | include/lzip/decoder.hpp:27-99 | bytes that carry the encoder's codes followed by fewer than 8 padding bits decode to the encoder's input |
| RoundTrip.EncodeThenDecode | include/lzip/encoder.hpp:10-50 | execEncoding followed by execDecoding gives back the input, for every input (including the empty one) |
| Cli.LastSeparator | include/lzip/cli.hpp:15 | the index of the last '/' or '\\', or -1 when there is none |
| Cli.LastDot | include/lzip/cli.hpp:17 | the index of the last '.' of the name, or -1 when it has none |
| Cli.BaseName | include/lzip/cli.hpp:15-16 | the last path component: a suffix with no separator, preceded by a separator unless it is the whole path |
| Cli.GetStem | include/lzip/cli.hpp:13-19 | the result is a prefix of the last component without separators; it is the whole component iff the component has no '.'; otherwise it stops at a '.' after which no '.' follows |
| Cli.GetStemComplete | include/lzip/cli.hpp:17-18 | any stem of the last component is the one getStem returns |
| Cli.StemAfterDirectory | tests/lzip_t.cpp:166-168 | a directory part before a separator does not change the stem |
| Cli.StemWithoutDot | tests/file_tests.cpp:247-249 | a name without a dot (including "") is its own stem |
| Cli.StemDropsLastExtension | tests/lzip_t.cpp:159-175 | name + "." + ext has stem name when ext holds no dot ("test.txt", "archive.tar.gz", ".hidden", "file.", ".config.json") |

## Left out

- `BitPacker::writeOutputToFile` and all file and console I/O: the encoder and decoder return their output bytes instead of writing them.
- Reading the input in 4096-byte chunks: this is I/O. The input is one byte sequence, since the byte loop does the same work whatever the chunking.
- `startEncoding`, `startDecoding` and their `try/catch(...)`: an invalid code is an `Err` result rather than an exception or undefined behaviour.
- `runCLI`: threads, `std::exit`, file opening and dispatch on argv are concurrency and I/O glue. Only `getStem` is modelled.
- `DictKeyHash`: its values depend on the implementation-defined `std::hash<int>`. The reverse map is a Dafny `map` with structural key equality.
- The trivial `hash` of `lzip.hpp` (`v + 1`): a test helper unrelated to the codec.
- The compression-ratio and timing tests: they use floating point and clocks.
- The compressed-size checks of the tests on particular data: output smaller than the input (tests/lzip_t.cpp:204, tests/file_tests.cpp:230, tests/file_tests.cpp:310), smaller than half of it (tests/lzip_t.cpp:266), and 1000 repeated bytes in fewer than 100 (tests/file_tests.cpp:204). How much LZW compresses depends on the data, so these are not properties of the codec for all inputs. What the model does prove for all inputs is the code widths and the exact round trip.
- BitIO.BitPacker.WriteCode: the 64-bit `bitBuf` is an unbounded `nat`, and the method requires `bitCount + codeSize <= 64` and `codeSize <= 30`. These are the conditions under which the source's `uint64_t` shift and `int` mask do not overflow, and the codec always meets them (codeSize <= 20, bitCount < 8).
- BitIO.BitPacker.ReadCode: requires `codeSize <= 31`. Beyond that the source's `int(bitBuf & 1) << i` overflows an `int`. The codec reads at most 20 bits.
- BitIO.BitPacker.WriteCodes: requires every width to be at most 30, which is WriteCode's bound. BitIO.PackCodes requires the same.
- Cli.StemDropsLastExtension: the literal test strings of `getStem` are covered by this lemma and by `StemWithoutDot` and `StemAfterDirectory`, which state them for all names of the same shape, rather than by one lemma per literal.
