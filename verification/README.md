# Credential encoding for zero-knowledge degree proofs

The repository proves one fact about a verifiable credential in a zero-knowledge circuit:
the holder's degree equals an expected degree. The credential is a small record
(`name`, `degree`, `university`, `year`). This project models the JavaScript that turns
that record into circuit inputs, in both of the repository's flows.

The **ZoKrates flow** works like this:
- `serializeObject` packs the record into a fixed-width text, failing on a field that is too long.
- `toU32ArrayPadded` applies SHA-256 one-block padding to that text and renders it as
  sixteen `"0x"`-prefixed 32-bit words.
- `hexHashToU32Array` turns the record's hex digest into eight words.
- `strToU32Array` turns the expected degree, space-padded to 32 bytes, into eight words.
- The circuit `main` hashes the block, compares the result with the digest, and checks
  `vc_data[i + 3] == expected_degree[i]` for `i` in `0..8`.

The **Circom flow** (`generateWitness`) works like this:
- It serialises the record leniently: each value is padded and then cut to its width.
- It slices out the degree title and converts the text to character codes.
- It hashes four chunks of fifteen codes with Poseidon, then hashes the four chunk hashes.

The modules follow that structure:
- `Results`: result, option and error types.
- `Seqs`: generic sequence facts.
- `Bytes`: bytes, big-endian words and ASCII encoding.
- `Hex`: the `0x%08x` word rendering, Node's hex decoder and `digest('hex')`.
- `Padder`: `toU32ArrayPadded`.
- `Serialize`: the strict and lenient serialisers.
- `WordView`: `hexHashToU32Array` and `strToU32Array`.
- `Zokrates`: the circuit and the wiring.
- `Snarkjs`: `generateWitness`.

The central result is `Zokrates.DegreeCheckMeans`. For any ASCII record whose wiring
succeeds with the circuit's layout, the circuit's degree loop passes exactly when the
record's degree and the expected degree are equal after both are space-padded to 32
characters. It rests on the alignment theorem `Zokrates.FieldWordsAligned`. A field whose
byte offset and width are multiples of four occupies exactly the words that
`strToU32Array` makes of its value.

Behaviour of the code that the model makes explicit:
- **`toU32ArrayPadded` on a long message.** A message over 55 bytes makes the zero-fill
  length negative, so `Buffer.alloc` throws a range error (`SizeOutOfRange`). The later
  "Padding error" check can never fire. `Padder.PadBlock` keeps that branch (`PaddingError`)
  and proves it unreachable. The same holds for the length-write range error (`ValueOutOfRange`).
- **`serializeObject`'s final length check** can never fire either: every value that passes
  the width check is padded to exactly its width.
- **The Circom serialiser never fails.** `substring` cuts an over-long value and `slice`
  clamps the chunk bounds, so neither raises an error.
- **Trailing spaces are invisible.** Two degrees that differ only in trailing spaces (up to
  32 characters) give the same circuit inputs, so the circuit cannot tell them apart
  (`Zokrates.StrWordsInjective`).

## Model

| member | source | states |
|---|---|---|
| Bytes.AsciiBytes | zokrates-js/index.js:5 | the UTF-8 encoding of ASCII text is one byte per character, holding the character's code |
| Bytes.AsciiInjective | zokrates-js/index.js:65 | distinct ASCII strings have distinct UTF-8 encodings |
| Bytes.WordBytes | zokrates-js/index.js:13-15 | writeUInt32BE stores four bytes whose big-endian value is the word |
| Bytes.WordBytesOfBigEndian | zokrates-js/index.js:15 | writing back a word read from four bytes restores those bytes |
| Bytes.ReadUInt32BE | zokrates-js/index.js:25 | readUInt32BE succeeds exactly when four bytes lie at the offset, returns their big-endian value, and otherwise throws a range error |
| Bytes.ReadWords | zokrates-js/index.js:57-60 | the word-reading loop succeeds exactly when all requested words lie inside the buffer; word k is the big-endian value at offset + 4k; a short buffer throws |
| Bytes.BytesOfAt | zokrates-js/index.js:24-25 | word k of a word array occupies bytes 4k..4k+3 of its byte form |
| Bytes.WordsOfBytesOf | zokrates-js/index.js:24-25 | reading words from the bytes of a word array gives the words back |
| Bytes.BytesOfWordsOf | zokrates-js/index.js:24-25 | the bytes of a buffer's word view are the buffer itself |
| Bytes.WordsOfInjective | zokrates-js/index.js:79-80 | two buffers have equal word views exactly when they are equal |
| Bytes.WordsOfSlice | zokrates-js/index.js:24-25 | words i..j of a buffer are the word view of its bytes 4i..4j |
| Bytes.WordsOf | zokrates-js/index.js:24-25 | the word view has one word per four bytes, and word k is the big-endian value of bytes 4k..4k+3 |
| Bytes.ReadWordsAll | zokrates-js/index.js:79-81 | reading every group of four bytes from offset 0 cannot fail and yields the word view |
| Hex.ToHexString | zokrates-js/index.js:25 | toString(16) yields lowercase digits with no leading zero that denote the number |
| Hex.ToHexStringLength | zokrates-js/index.js:25 | a value below 16^k needs at most k digits, so a 32-bit word needs at most eight |
| Hex.HexValueInjective | zokrates-js/index.js:25 | digit strings of equal length and equal value are identical |
| Hex.HexValueLeadingZeros | zokrates-js/index.js:25 | padStart's leading zeros do not change the value |
| Hex.PadStart | zokrates-js/index.js:25 | padStart leaves a long string alone and otherwise prepends the fill so that the original ends the result |
| Hex.HexWord | zokrates-js/index.js:25 | the rendering of a word is ten characters: "0x", then eight lowercase digits whose value is the word |
| Hex.HexWordCanonical | zokrates-js/index.js:25 | every ten-character "0x" lowercase word string is the rendering of its own value, so the rendering is canonical |
| Hex.ParseWord | zokrates-js/index.js:138 | reading a word string back as a u32 input of main yields a word whose rendering is that string |
| Hex.ParseWords | zokrates-js/index.js:138 | reading an array of word strings succeeds only with words that render to those strings |
| Hex.ParseRenderWords | zokrates-js/index.js:138 | reading rendered words gives back exactly the words |
| Hex.RenderWords | zokrates-js/index.js:23-26 | the rendering loop gives one string per word, in order, each the word's "0x" rendering |
| Hex.RenderWordsInjective | zokrates-js/index.js:23-26 | two word arrays render identically exactly when they are equal |
| Hex.RenderWordsSlice | zokrates-js/index.js:99 | rendering a run of words is the same run of the rendering |
| Hex.HexEncode | zokrates-js/index.js:130 | digest('hex') produces two characters per byte |
| Hex.HexDecode | zokrates-js/index.js:56 | Buffer.from(hex, 'hex') yields at most one byte per two characters; byte k is what characters 2k and 2k+1 denote (either case); decoding stops at the first pair that is not two hex digits; a lone last digit is dropped |
| Hex.HexDecodeEncode | zokrates-js/index.js:56 | decoding text that starts with an encoding reads the encoded bytes back first, then decodes the rest |
| Hex.HexRoundTrip | zokrates-js/index.js:130-131 | decoding digest('hex') of any bytes gives the same bytes |
| Padder.PaddedBlockUnique | zokrates-js/index.js:8-17 | the padding layout determines the block completely |
| Padder.PaddedBlockPrefix | zokrates-js/index.js:17 | a padded block begins with the message |
| Padder.PaddingLayout | zokrates-js/index.js:8-17 | the concatenation of message, marker, zero fill and length buffer has the padding layout |
| Padder.PadBlock | zokrates-js/index.js:5-21 | padding succeeds exactly for messages of at most 55 bytes and yields the padded block; longer messages fail with a range error, and the 64-byte check is unreachable |
| Padder.ToU32ArrayPadded | zokrates-js/index.js:4-29 | toU32ArrayPadded succeeds exactly when the message is at most 55 bytes, yields sixteen word strings, and otherwise throws the range error |
| Padder.PaddedWordsAreBlockWords | zokrates-js/index.js:23-26 | the sixteen strings are the rendered big-endian word view of the padded block |
| Padder.PaddedResultParses | zokrates-js/index.js:23-26 | reading the sixteen strings back as words, and those words as bytes, recovers a block with the padding layout of the message |
| Padder.PaddedWordsOf | zokrates-js/index.js:4-29 | the result is the rendered word view of any block with the message's padding layout |
| Padder.PaddedBlockOf | zokrates-js/index.js:9-11 | every message of at most 55 bytes has a padded block |
| Padder.AbcVector | zokrates-js/hashing.js:43-44 | "abc" pads to 0x61626380, fourteen zero words and 0x00000018 |
| Padder.AbcWords | zokrates-js/hashing.js:4-26 | the padded "abc" block reads as 0x61626380, fourteen zero words and 0x18 |
| Padder.RenderedAs | zokrates-js/index.js:25 | a word equal to the positional value of eight digits renders as "0x" and those digits |
| Serialize.PadEnd | zokrates-js/index.js:43 | padEnd keeps the value as a prefix, fills with spaces to the width, and leaves a long value unchanged |
| Serialize.ValueOf | zokrates-js/index.js:37 | (definition) the record's value for the key, or "" when the key is absent; its consequence is Serialize.MissingKeyIsBlank |
| Serialize.TotalWidth | zokrates-js/index.js:47 | (definition) the sum of the widths in key order; it is the length of both serialisations (Serialize.SerializeLenient, Serialize.SerializeObject) |
| Serialize.FieldWithin | zokrates-js/index.js:43-47 | every field ends within the total width, and each next field starts where the previous one ends |
| Serialize.FitTo | snarkjs-circom/index.js:52 | padEnd then substring gives exactly the width: the value cut when it is long, padded with spaces when it is short |
| Serialize.FitToPadEnd | snarkjs-circom/index.js:52 | a value that fits is written the same way by both serialisers |
| Serialize.FirstMisfit | zokrates-js/index.js:35-41 | the first field in key order whose value is too long; every earlier field fits |
| Serialize.FirstMisfitOfPrefix | zokrates-js/index.js:35-41 | a too-long field within the first m keys is the first too-long field overall |
| Serialize.SerializeLenient | snarkjs-circom/index.js:49-54 | the lenient serialisation is as long as the sum of the widths, and each field holds its value cut or padded to its width at its offset |
| Serialize.SerializeFields | zokrates-js/index.js:35-45 | the field loop succeeds exactly when every value fits, fails with the first too-long field's key and width, and otherwise agrees with the lenient serialisation |
| Serialize.SerializeObject | zokrates-js/index.js:31-53 | serializeObject succeeds exactly when every value fits and fails on the first too-long field; on success it is the total width long and each field is its value padded to its width at its offset |
| Serialize.StrictPlacement | zokrates-js/index.js:43-44 | when every value fits, the lenient text has each value space-padded at its offset |
| Serialize.StrictIsLenient | zokrates-js/index.js:31-53 | the strict serialiser returns the lenient serialisation exactly when every value fits |
| Serialize.MissingKeyIsBlank | zokrates-js/index.js:37 | a key the record lacks is written as a field of spaces by both serialisers |
| Serialize.SerializedField | zokrates-js/index.js:43-44 | field k of a successful serialisation is the value padded to its width, at the field's offset |
| WordView.ReadWordsPrefix | zokrates-js/index.js:57-60 | reading n words from a long enough buffer yields the word view of its first 4n bytes |
| WordView.HexHashToU32Array | zokrates-js/index.js:55-62 | hexHashToU32Array succeeds exactly when the text decodes to at least 32 bytes, yields the rendered words of the first 32, and otherwise throws a range error |
| WordView.HexHashParses | zokrates-js/index.js:55-62 | the eight strings read back as words and bytes give the first 32 decoded bytes |
| WordView.DigestRoundTrip | zokrates-js/index.js:130-131 | a 32-byte digest passed through digest('hex') and hexHashToU32Array becomes its own rendered word view |
| WordView.SpacePadded | zokrates-js/index.js:75-76 | the copied buffer holds the bytes, then spaces up to the length |
| WordView.StrToU32Array | zokrates-js/index.js:64-84 | strToU32Array fails first on a length not divisible by 4, then on a string longer than the length; otherwise it yields length / 4 word strings |
| WordView.StrWordsAreWordView | zokrates-js/index.js:75-83 | the strings are the rendered word view of the space-padded bytes |
| WordView.StrWordsParse | zokrates-js/index.js:75-83 | reading the strings back as words and bytes gives the space-padded input |
| Zokrates.DegreeConstraint | zokrates-js/index.js:98-100 | (definition) the second loop of main: word i + 3 of vc_data equals word i of expected_degree for i in 0..8; characterised by Zokrates.DegreeConstraintIsRun |
| Zokrates.Accepts | zokrates-js/index.js:91-103 | (definition) main returns true: the compression of the two block halves matches vc_hash word by word and the degree loop holds; characterised by Zokrates.AcceptsMeans |
| Zokrates.DegreeConstraintIsRun | zokrates-js/index.js:98-100 | the degree loop holds exactly when words 3..10 of vc_data are expected_degree |
| Zokrates.AcceptsMeans | zokrates-js/index.js:91-103 | main accepts exactly when the compression of the two block halves is vc_hash and words 3..10 are expected_degree |
| Zokrates.LenientAscii | zokrates-js/index.js:43-44 | the serialisation of an ASCII record is ASCII |
| Zokrates.SerializedAscii | zokrates-js/index.js:31-53 | a successful serializeObject of an ASCII record is ASCII |
| Zokrates.PadEndBytes | zokrates-js/index.js:75-76 | the bytes of a space-padded value are the value's bytes followed by spaces, as strToU32Array builds them |
| Zokrates.AlignedRunWords | zokrates-js/index.js:126-128 | a word-aligned run of the message holding a padded value becomes, after padding, exactly the words strToU32Array makes of that value |
| Zokrates.FieldBytesInBlock | zokrates-js/index.js:17 | in the padded block, a run of the message keeps the value's bytes and then spaces |
| Zokrates.LenientRun | zokrates-js/index.js:43-44 | a fitting, word-aligned field of an ASCII record that fits one block is a padded run of the serialisation |
| Zokrates.SerializedRun | zokrates-js/index.js:125 | the same holds for serializeObject's text |
| Zokrates.FieldWordsAligned | zokrates-js/index.js:125-128 | a field at byte offset 4i and 4n bytes wide occupies words i..i+n of toU32ArrayPadded, and those words are strToU32Array(value, 4n) |
| Zokrates.DegreeLayoutShape | zokrates-js/index.js:117-122 | the circuit's layout puts the degree at byte 12 (word 3), 32 bytes wide, in a 52-byte record |
| Zokrates.DegreeWords | zokrates-js/index.js:117-128 | for the circuit's layout, words 3..10 of the padded record are strToU32Array(degree, 32) |
| Zokrates.StrWordsInjective | zokrates-js/index.js:64-84 | strToU32Array gives equal words for two values exactly when their space-padded forms are equal |
| Zokrates.InputsOf | zokrates-js/index.js:126-131 | the input preparation succeeds exactly when the record text is at most 55 bytes and the degree at most 32; it fails with the padder's error first and the degree-length error second; the arrays hold 16, 8 and 8 words |
| Zokrates.PrepareInputs | zokrates-js/index.js:125-131 | the wiring succeeds exactly when every field fits, the layout is at most 55 bytes and the degree at most 32; a too-long field fails with its key and width |
| Zokrates.PreparedFrom | zokrates-js/index.js:125-126 | once serialised, the wiring continues from the serialised text |
| Zokrates.InputsWords | zokrates-js/index.js:126-131 | the three arrays are the rendered word views of the padded block, of the SHA-256 digest of the text, and of the space-padded degree |
| Zokrates.RenderedConstraint | zokrates-js/index.js:98-100 | on rendered words, the degree loop holds exactly when rendered words 3..10 equal the rendered expected degree |
| Zokrates.DegreeCheckOnWords | zokrates-js/index.js:98-100 | for rendered inputs, the degree loop passes exactly when strings 3..10 of vc_data are the expected-degree strings |
| Zokrates.DegreeCheckOnText | zokrates-js/index.js:126-128 | if words 3..10 of the text hold value v, the degree loop passes exactly when v and the expected degree agree once space-padded to 32 |
| Zokrates.DegreeCheckMeans | zokrates-js/index.js:98-128 | with the circuit's layout, a record whose values fit and a degree of at most 32 characters are wired successfully, and the degree loop passes exactly when the record's degree and the expected degree agree once space-padded to 32 characters |
| Zokrates.SourceCredentialFits | zokrates-js/index.js:110-123 | the credential in the code is ASCII and fits the circuit's layout, and its degree is the expected degree |
| Zokrates.SourceDegreeCheck | zokrates-js/index.js:110-131 | for the credential in the code, words 3..10 are strToU32Array("Financial Technologies", 32), the wiring succeeds, and the degree loop passes |
| Snarkjs.ClampIndex | snarkjs-circom/index.js:65 | a slice index is clamped into the sequence, counting a negative index from the end |
| Snarkjs.JsSlice | snarkjs-circom/index.js:56 | slice returns the exact range when it lies inside, is cut off at the end, and is empty when the end comes first |
| Snarkjs.CharCodes | snarkjs-circom/index.js:58 | one code per character, equal to that character's code |
| Snarkjs.CharCodesSlice | snarkjs-circom/index.js:56-57 | the codes of a slice are that slice of the codes |
| Snarkjs.CharCodesInjective | snarkjs-circom/index.js:57-58 | different text has different codes |
| Snarkjs.SerializeLoop | snarkjs-circom/index.js:49-54 | the loop builds the lenient serialisation: the sum of the widths long, each field its value cut or padded at its offset |
| Snarkjs.LenientSnoc | snarkjs-circom/index.js:53 | one more loop iteration appends the next fitted field |
| Snarkjs.WitnessLayoutShape | snarkjs-circom/index.js:42-47 | the layout is 60 characters, with degreeTitle at offset 12 and 32 wide |
| Snarkjs.WitnessText | snarkjs-circom/index.js:49-56 | the serialised record is 60 characters, and characters 12..43 are the degree title cut or padded to 32 |
| Snarkjs.Chunk | snarkjs-circom/index.js:65 | chunk i is codes 15i..15i+14 while the codes last, the tail from 15i when they run out inside it, and empty beyond the end |
| Snarkjs.ChunkIsRange | snarkjs-circom/index.js:65 | while the codes last, chunk i is codes 15i..15i+14 |
| Snarkjs.ChunksCover | snarkjs-circom/index.js:64-65 | the first n chunks, concatenated, are the first 15n codes: no code is skipped or repeated |
| Snarkjs.FourChunks | snarkjs-circom/index.js:64-65 | sixty codes make four chunks of fifteen that concatenate back to the codes |
| Snarkjs.GroupHashes | snarkjs-circom/index.js:62-68 | group hash i is the Poseidon hash of chunk i, in chunk order |
| Snarkjs.ChunkHashesInOrder | snarkjs-circom/index.js:64-68 | the four group hashes are the hashes of codes 0..14, 15..29, 30..44 and 45..59 |
| Snarkjs.GenerateWitness | snarkjs-circom/index.js:36-77 | the preimage is the 60 codes of the lenient serialisation; the expected degree is codes 12..43, the codes of the degree title cut or padded to 32; the expected hash is Poseidon of the Poseidon hashes of the four 15-code chunks |

## Left out

- SHA-256 (Node's `crypto`), the ZoKrates 512-bit compression and Poseidon are function
  parameters. The model does not claim that the circuit's compression agrees with Node's
  SHA-256. The only assumption about the hash is that a digest is 32 bytes.
- The circuit's reading of its `u32` input strings happens inside `computeWitness`, whose
  code is not part of this model. Hex.ParseWord models it only on canonical strings:
  exactly `"0x"` followed by eight lowercase digits, which is all the wiring produces.
  Other spellings are read as invalid. `Zokrates.DegreeCheckPasses` uses this reading.
- Compilation, setup, witness computation, proof generation and verification are external
  toolchain calls, and so is `calculateWTNSBin`. File I/O, timers and logging are also
  left out.
- Text on the Buffer paths (`Buffer.from(..., 'utf8')`) is restricted to ASCII, where
  UTF-8 uses one byte per character. Multi-byte UTF-8 is left out.
- Characters outside the Basic Multilingual Plane are left out in both flows. A Dafny
  string counts Unicode scalar values, while `String.length`, `padEnd`, `substring`,
  `slice` and `charCodeAt` count UTF-16 code units. The two agree on text inside the Basic
  Multilingual Plane and differ outside it.
- Serialize.SerializeObject: a value outside the Basic Multilingual Plane is measured in
  scalar values, not UTF-16 code units. So a value that JavaScript counts as too long
  can be accepted. Example: one emoji in a width-1 field, which `.length` counts as 2.
- Serialize.SerializeFields: measures lengths the same way as Serialize.SerializeObject.
- Serialize.SerializeLenient: pads and cuts by scalar values. Outside the Basic
  Multilingual Plane, JavaScript's `padEnd` and `substring` can split a surrogate pair.
- Serialize.PadEnd: counts scalar values, not UTF-16 code units.
- Serialize.FitTo: counts scalar values, not UTF-16 code units.
- Snarkjs.CharCodes: gives a character's scalar value. `charCodeAt(0)` gives its first
  UTF-16 code unit, and the two agree only inside the Basic Multilingual Plane.
- Record values are strings. The `TypeError` that `padEnd` or `toString` would raise on
  other value types is left out. For strings, `?? ''` and `|| ""` agree.
- Layout widths are natural numbers. Negative or fractional widths are left out.
- Snarkjs.GenerateWitness: keeps the codes and the final hash as numbers. The decimal
  strings made by `toString` and `F.toString` are left out.
- Snarkjs.GenerateWitness: states its facts for the layout of the code.
  `Snarkjs.SerializeLoop` handles any layout.
- Padder.ToU32ArrayPadded, WordView.StrToU32Array: their own contracts state only the
  success condition, the error and the length. The content of their results is stated in
  separate lemmas: `Padder.PaddedWordsAreBlockWords` and `WordView.StrWordsAreWordView`.
- Zokrates.PrepareInputs: states the success condition and the serialiser's error. The
  rest of its behaviour is stated by `Zokrates.PreparedFrom` together with
  `Zokrates.InputsOf`.
- The Rust (arkworks) and Go (gnark) implementations of the same circuit are not part of
  this model.
