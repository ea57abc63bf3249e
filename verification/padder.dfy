/** toU32ArrayPadded: SHA-256 message padding (FIPS 180-4 section 5.1.1) restricted to a
    single 512-bit block, followed by the parse into sixteen big-endian 32-bit words
    (FIPS 180-4 section 5.2.1), each rendered as "0x" and eight hex digits. */
module Padder {
  import opened Results
  import opened Bytes
  import opened Hex
  import opened Seqs

  const BlockBytes: nat := 64
  const BlockWords: nat := 16

  /** The longest message that fits one block: 64 bytes less the 0x80 marker and the
      8-byte length field. */
  const MaxMessageBytes: nat := 55

  /** The one-block padding of msg: the message, the byte 0x80, zero bytes through
      byte 59 (the fill, then the high half of the 64-bit length, which is zero), and
      the bit length as a big-endian word in bytes 60..63. */
  predicate IsPaddedBlock(msg: seq<byte>, block: seq<byte>) {
    && |msg| <= MaxMessageBytes
    && |block| == BlockBytes
    && (forall i :: 0 <= i < |msg| ==> block[i] == msg[i])
    && block[|msg|] == 0x80
    && (forall i :: |msg| < i < 60 ==> block[i] == 0)
    && WordAt(block, 60) == 8 * |msg|
  }

  /** A padded block starts with the message. */
  lemma PaddedBlockPrefix(msg: seq<byte>, block: seq<byte>)
    requires IsPaddedBlock(msg, block)
    ensures block[..|msg|] == msg
  {
  }

  /** The padding predicate pins the block down completely. */
  lemma PaddedBlockUnique(msg: seq<byte>, a: seq<byte>, b: seq<byte>)
    requires IsPaddedBlock(msg, a) && IsPaddedBlock(msg, b)
    ensures a == b
  {
    WordBytesOfBigEndian(a[60], a[61], a[62], a[63]);
    WordBytesOfBigEndian(b[60], b[61], b[62], b[63]);
    assert [a[60], a[61], a[62], a[63]] == [b[60], b[61], b[62], b[63]];
    forall i | 0 <= i < BlockBytes
      ensures a[i] == b[i]
    {
      if i < |msg| {
      } else if i == |msg| {
      } else if i < 60 {
      } else {
        assert [a[60], a[61], a[62], a[63]][i - 60] == a[i];
        assert [b[60], b[61], b[62], b[63]][i - 60] == b[i];
      }
    }
  }

  /** The byte-level part of toU32ArrayPadded. A message over 55 bytes makes the zero
      fill negative and Buffer.alloc throws before the block is built, so the later
      64-byte check never fires. */
  function PadBlock(msg: seq<byte>): (r: Result<seq<byte>>)
    ensures r.Success? <==> |msg| <= MaxMessageBytes
    ensures r.Failure? ==> r.error == SizeOutOfRange
    ensures r.Success? ==> IsPaddedBlock(msg, r.value)
  {
    var messageBitLength := |msg| * 8;
    var totalLength := |msg| + 1 + 8;
    var paddingZerosLength := 64 - totalLength;
    if paddingZerosLength < 0 then Failure(SizeOutOfRange)
    else if messageBitLength >= 0x1_0000_0000 then Failure(ValueOutOfRange)
    else
      // Buffer.alloc(8) is zero-filled; writing 0 at offset 0 leaves bytes 0..3 zero.
      var lengthBuf := Repeat(0, 4) + WordBytes(messageBitLength);
      var padded := msg + [0x80] + Repeat(0, paddingZerosLength) + lengthBuf;
      if |padded| != BlockBytes then Failure(PaddingError)
      else
        PaddingLayout(msg, Repeat(0, paddingZerosLength), messageBitLength);
        Success(padded)
  }

  /** The concatenation built by PadBlock has the one-block padding layout. */
  lemma PaddingLayout(msg: seq<byte>, zeros: seq<byte>, bitLength: u32)
    requires |msg| <= MaxMessageBytes && bitLength == 8 * |msg|
    requires |zeros| == 55 - |msg| && forall i :: 0 <= i < |zeros| ==> zeros[i] == 0
    ensures IsPaddedBlock(msg, msg + [0x80] + zeros + (Repeat(0, 4) + WordBytes(bitLength)))
  {
    var w := WordBytes(bitLength);
    var z := Repeat(0, 4);
    var padded := msg + [0x80] + zeros + (z + w);
    assert |padded| == 64;
    forall i | 0 <= i < |msg|
      ensures padded[i] == msg[i]
    {
    }
    forall i | |msg| < i < 60
      ensures padded[i] == 0
    {
      if i < 56 {
        assert padded[i] == zeros[i - |msg| - 1];
      } else {
        assert padded[i] == z[i - 56];
      }
    }
    assert padded[60] == w[0] && padded[61] == w[1] && padded[62] == w[2] && padded[63] == w[3];
  }

  /** toU32ArrayPadded(message) for an ASCII message. */
  function ToU32ArrayPadded(message: string): (r: Result<seq<string>>)
    requires IsAscii(message)
    ensures r.Success? <==> |message| <= MaxMessageBytes
    ensures r.Failure? ==> r.error == SizeOutOfRange
    ensures r.Success? ==> |r.value| == BlockWords
  {
    var padded :- PadBlock(AsciiBytes(message));
    ReadWordsAll(padded);
    var words := ReadWords(padded, 0, BlockWords).value;
    Success(RenderWords(words))
  }

  /** On success the result is the rendering of the word view of the padded block:
      word i is the big-endian value of bytes 4i..4i+3. */
  lemma PaddedWordsAreBlockWords(message: string) returns (block: seq<byte>)
    requires IsAscii(message) && |message| <= MaxMessageBytes
    ensures PadBlock(AsciiBytes(message)) == Success(block) && |block| == BlockBytes
    ensures ToU32ArrayPadded(message) == Success(RenderWords(WordsOf(block)))
  {
    block := PadBlock(AsciiBytes(message)).value;
    ReadWordsAll(block);
  }

  /** Reading the sixteen word strings back as words, and the words as bytes, recovers
      the padded block. */
  lemma PaddedResultParses(message: string)
    requires IsAscii(message) && |message| <= MaxMessageBytes
    ensures ToU32ArrayPadded(message).Success?
    ensures ParseWords(ToU32ArrayPadded(message).value).Some?
    ensures IsPaddedBlock(AsciiBytes(message), BytesOf(ParseWords(ToU32ArrayPadded(message).value).value))
  {
    var block := PaddedWordsAreBlockWords(message);
    ParseRenderWords(WordsOf(block));
    BytesOfWordsOf(block);
  }

  /** The result read off any block with the padding layout of the message. */
  lemma PaddedWordsOf(message: string, block: seq<byte>)
    requires IsAscii(message) && IsPaddedBlock(AsciiBytes(message), block)
    ensures ToU32ArrayPadded(message) == Success(RenderWords(WordsOf(block)))
  {
    var padded := PaddedWordsAreBlockWords(message);
    PaddedBlockUnique(AsciiBytes(message), padded, block);
  }

  /** Every message of at most 55 bytes has a padded block. */
  lemma PaddedBlockOf(msg: seq<byte>) returns (block: seq<byte>)
    requires |msg| <= MaxMessageBytes
    ensures IsPaddedBlock(msg, block)
  {
    block := PadBlock(msg).value;
  }

  /** The test vector of hashing.js: "abc" pads to 0x61626380, fourteen zero words, and
      the bit length 0x18. */
  lemma AbcVector()
    ensures IsAscii("abc")
    ensures ToU32ArrayPadded("abc") == Success(["0x61626380"] + Repeat("0x00000000", 14) + ["0x00000018"])
  {
    AbcResult("abc", ["0x61626380"] + Repeat("0x00000000", 14) + ["0x00000018"]);
  }

  /** The expected word strings of the "abc" vector, entry by entry. */
  predicate AbcStrings(expected: seq<string>) {
    && |expected| == BlockWords && expected[0] == "0x61626380" && expected[15] == "0x00000018"
    && forall k :: 1 <= k < 15 ==> expected[k] == "0x00000000"
  }

  // The helpers below take the message and the expected strings as parameters pinned
  // entry by entry, so that no proof unfolds a whole sequence literal at once.

  lemma AbcResult(message: string, expected: seq<string>)
    requires |message| == 3 && message[0] == 'a' && message[1] == 'b' && message[2] == 'c'
    requires AbcStrings(expected)
    ensures IsAscii(message) && ToU32ArrayPadded(message) == Success(expected)
  {
    var msg := AbcBytes(message);
    var words := AbcWords(msg, PadBlock(msg).value);
    AbcRendered(words, expected);
    AbcFromWords(message, words, expected);
  }

  lemma AbcBytes(message: string) returns (msg: seq<byte>)
    requires |message| == 3 && message[0] == 'a' && message[1] == 'b' && message[2] == 'c'
    ensures IsAscii(message) && msg == AsciiBytes(message)
    ensures |msg| == 3 && msg[0] == 0x61 && msg[1] == 0x62 && msg[2] == 0x63
  {
    msg := AsciiBytes(message);
  }

  lemma AbcFromWords(message: string, words: seq<u32>, rendered: seq<string>)
    requires IsAscii(message) && |message| <= MaxMessageBytes
    requires words == WordsOf(PadBlock(AsciiBytes(message)).value)
    requires RenderWords(words) == rendered
    ensures ToU32ArrayPadded(message) == Success(rendered)
  {
    var block := PaddedWordsAreBlockWords(message);
  }

  lemma AbcRendered(words: seq<u32>, expected: seq<string>)
    requires |words| == 16 && words[0] == 0x61626380 && words[15] == 0x18
    requires forall k :: 1 <= k < 15 ==> words[k] == 0
    requires AbcStrings(expected)
    ensures RenderWords(words) == expected
  {
    RenderedFirst(words[0], expected[0]);
    RenderedZero(words[1], expected[1]);
    RenderedLast(words[15], expected[15]);
    RenderUniform(words, expected);
  }

  lemma RenderedFirst(w: u32, s: string)
    requires w == 0x61626380 && s == "0x61626380"
    ensures HexWord(w) == s
  {
    RenderedAs(w, s);
  }

  lemma RenderedZero(w: u32, s: string)
    requires w == 0 && s == "0x00000000"
    ensures HexWord(w) == s
  {
    RenderedAs(w, s);
  }

  lemma RenderedLast(w: u32, s: string)
    requires w == 0x18 && s == "0x00000018"
    ensures HexWord(w) == s
  {
    RenderedAs(w, s);
  }

  lemma RenderUniform(words: seq<u32>, expected: seq<string>)
    requires |words| == 16 && |expected| == 16
    requires forall k :: 1 <= k < 15 ==> words[k] == words[1] && expected[k] == expected[1]
    requires HexWord(words[0]) == expected[0] && HexWord(words[1]) == expected[1]
    requires HexWord(words[15]) == expected[15]
    ensures RenderWords(words) == expected
  {
    var r := RenderWords(words);
    forall k | 0 <= k < 16
      ensures r[k] == expected[k]
    {
      if k == 0 || k == 15 {
        assert r[k] == HexWord(words[k]);
      } else {
        assert r[k] == HexWord(words[k]) && words[k] == words[1];
        assert r[k] == r[1];
      }
    }
  }

  /** The word view of the padded "abc" block. */
  lemma AbcWords(msg: seq<byte>, block: seq<byte>) returns (words: seq<u32>)
    requires |msg| == 3 && msg[0] == 0x61 && msg[1] == 0x62 && msg[2] == 0x63
    requires IsPaddedBlock(msg, block)
    ensures words == WordsOf(block) && |words| == 16
    ensures words[0] == 0x61626380 && words[15] == 0x18
    ensures forall k :: 1 <= k < 15 ==> words[k] == 0
  {
    words := WordsOf(block);
    assert block[0] == msg[0] && block[1] == msg[1] && block[2] == msg[2];
    forall k | 1 <= k < 15
      ensures words[k] == 0
    {
      assert block[4 * k] == 0 && block[4 * k + 1] == 0 && block[4 * k + 2] == 0 && block[4 * k + 3] == 0;
    }
  }

  /** An eight-digit word string renders the word its digits denote. */
  lemma RenderedAs(w: u32, s: string)
    requires |s| == 10 && s[0] == '0' && s[1] == 'x' && IsLowerHex(s[2..])
    requires var d := s[2..];
      w == DigitValue(d[0]) * 0x1000_0000 + DigitValue(d[1]) * 0x100_0000
        + DigitValue(d[2]) * 0x10_0000 + DigitValue(d[3]) * 0x1_0000 + DigitValue(d[4]) * 0x1000
        + DigitValue(d[5]) * 0x100 + DigitValue(d[6]) * 0x10 + DigitValue(d[7])
    ensures HexWord(w) == s
  {
    HexValue8(s[2..]);
    HexWordCanonical(s);
  }
}
