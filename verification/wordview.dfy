/** The two helpers that line byte data up with the circuit's 32-bit word inputs:
    hexHashToU32Array (a hex digest to eight words) and strToU32Array (a string,
    space-padded to a fixed byte length, to words). */
module WordView {
  import opened Results
  import opened Bytes
  import opened Hex
  import opened Seqs

  /** A SHA-256 digest is 32 bytes, read as eight words. */
  const DigestBytes: nat := 32
  const DigestWords: nat := 8

  /** Reading n words from the start of a buffer at least 4n long gives the word view
      of its first 4n bytes. */
  lemma ReadWordsPrefix(buf: seq<byte>, n: nat)
    requires 4 * n <= |buf|
    ensures ReadWords(buf, 0, n) == Success(WordsOf(buf[..4 * n]))
  {
    var front := buf[..4 * n];
    var r := ReadWords(buf, 0, n).value;
    forall k | 0 <= k < n
      ensures r[k] == WordsOf(front)[k]
    {
      assert front[4 * k] == buf[4 * k] && front[4 * k + 3] == buf[4 * k + 3];
      assert front[4 * k + 1] == buf[4 * k + 1] && front[4 * k + 2] == buf[4 * k + 2];
    }
    assert |WordsOf(front)| == n;
    assert r == WordsOf(front);
  }

  /** hexHashToU32Array(hexHash): decode the text as hex and read eight words from the
      start. Fewer than 32 decoded bytes make a read run past the end and throw; extra
      bytes are ignored. */
  function HexHashToU32Array(hexHash: string): (r: Result<seq<string>>)
    ensures r.Success? <==> |HexDecode(hexHash)| >= DigestBytes
    ensures r.Failure? ==> r.error == OffsetOutOfRange
    ensures r.Success? ==> r.value == RenderWords(WordsOf(HexDecode(hexHash)[..DigestBytes]))
  {
    var hashBuf := HexDecode(hexHash);
    var result :- ReadWords(hashBuf, 0, DigestWords);
    ReadWordsPrefix(hashBuf, DigestWords);
    Success(RenderWords(result))
  }

  /** The eight word strings read back as words and bytes give the first 32 decoded
      bytes. */
  lemma HexHashParses(hexHash: string)
    requires |HexDecode(hexHash)| >= DigestBytes
    ensures HexHashToU32Array(hexHash).Success?
    ensures |HexHashToU32Array(hexHash).value| == DigestWords
    ensures ParseWords(HexHashToU32Array(hexHash).value).Some?
    ensures BytesOf(ParseWords(HexHashToU32Array(hexHash).value).value) == HexDecode(hexHash)[..DigestBytes]
  {
    var words := WordsOf(HexDecode(hexHash)[..DigestBytes]);
    ParseRenderWords(words);
    BytesOfWordsOf(HexDecode(hexHash)[..DigestBytes]);
  }

  /** A 32-byte digest rendered by digest('hex') comes back as its own word view. */
  lemma DigestRoundTrip(digest: seq<byte>)
    requires |digest| == DigestBytes
    ensures HexHashToU32Array(HexEncode(digest)) == Success(RenderWords(WordsOf(digest)))
  {
    HexRoundTrip(digest);
    ReadWordsPrefix(digest, DigestWords);
    assert digest[..DigestBytes] == digest;
  }

  /** `Buffer.alloc(n, ' ')` followed by `buf.copy(paddedBuf)`: the bytes, then spaces up
      to n. */
  function SpacePadded(buf: seq<byte>, n: nat): (r: seq<byte>)
    requires |buf| <= n
    ensures |r| == n && r[..|buf|] == buf
    ensures forall i :: |buf| <= i < n ==> r[i] == Space
  {
    buf + Repeat(Space, n - |buf|)
  }

  /** strToU32Array(str, expectedLength) for an ASCII string. The divisibility check comes
      first; then a string longer than expectedLength bytes is rejected; otherwise the
      space-padded buffer is read as expectedLength / 4 words. */
  function StrToU32Array(str: string, expectedLength: int): (r: Result<seq<string>>)
    requires IsAscii(str)
    ensures r.Success? <==> expectedLength % 4 == 0 && |str| <= expectedLength
    ensures expectedLength % 4 != 0 ==> r == Failure(LengthNotDivisibleBy4)
    ensures expectedLength % 4 == 0 && |str| > expectedLength ==> r == Failure(InputTooLong(expectedLength))
    ensures r.Success? ==> 4 * |r.value| == expectedLength
  {
    var buf := AsciiBytes(str);
    if expectedLength % 4 != 0 then Failure(LengthNotDivisibleBy4)
    else if |buf| > expectedLength then Failure(InputTooLong(expectedLength))
    else
      var paddedBuf := SpacePadded(buf, expectedLength);
      ReadWordsAll(paddedBuf);
      var u32 := ReadWords(paddedBuf, 0, expectedLength / 4).value;
      Success(RenderWords(u32))
  }

  /** The word strings read back as words and bytes give the space-padded input. */
  lemma StrWordsParse(str: string, expectedLength: nat)
    requires IsAscii(str) && expectedLength % 4 == 0 && |str| <= expectedLength
    ensures StrToU32Array(str, expectedLength).Success?
    ensures ParseWords(StrToU32Array(str, expectedLength).value).Some?
    ensures BytesOf(ParseWords(StrToU32Array(str, expectedLength).value).value)
      == SpacePadded(AsciiBytes(str), expectedLength)
  {
    var padded := SpacePadded(AsciiBytes(str), expectedLength);
    StrWordsAreWordView(str, expectedLength);
    ParseRenderWords(WordsOf(padded));
    BytesOfWordsOf(padded);
  }

  /** On success the words are the word view of the space-padded bytes. */
  lemma StrWordsAreWordView(str: string, expectedLength: nat)
    requires IsAscii(str) && expectedLength % 4 == 0 && |str| <= expectedLength
    ensures StrToU32Array(str, expectedLength) == Success(RenderWords(WordsOf(SpacePadded(AsciiBytes(str), expectedLength))))
  {
    ReadWordsAll(SpacePadded(AsciiBytes(str), expectedLength));
  }
}
