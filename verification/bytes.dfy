/** Bytes, 32-bit words and the big-endian view between them (Node's Buffer
    readUInt32BE / writeUInt32BE), and the UTF-8 encoding of ASCII text. */
module Bytes {
  import opened Results
  import opened Seqs

  type byte = b: int | 0 <= b < 0x100
  type u32 = w: int | 0 <= w < 0x1_0000_0000

  /** The byte ' ' used for right-padding. */
  const Space: byte := 0x20

  /** Every character is a 7-bit code, so its UTF-8 encoding is that single byte and
      its UTF-16 length is one code unit. */
  predicate IsAscii(s: string) {
    forall i :: 0 <= i < |s| ==> s[i] as int < 0x80
  }

  /** Buffer.from(s, 'utf8') for an ASCII string: one byte per character. */
  function AsciiBytes(s: string): (r: seq<byte>)
    requires IsAscii(s)
    ensures |r| == |s|
    ensures forall i :: 0 <= i < |s| ==> r[i] == s[i] as int
  {
    seq(|s|, i requires 0 <= i < |s| => s[i] as int)
  }

  lemma AsciiConcat(a: string, b: string)
    requires IsAscii(a) && IsAscii(b)
    ensures IsAscii(a + b)
    ensures AsciiBytes(a + b) == AsciiBytes(a) + AsciiBytes(b)
  {
  }

  lemma AsciiSlice(s: string, i: nat, j: nat)
    requires IsAscii(s) && i <= j <= |s|
    ensures IsAscii(s[i..j])
    ensures AsciiBytes(s[i..j]) == AsciiBytes(s)[i..j]
  {
  }

  /** Distinct ASCII strings have distinct encodings. */
  lemma AsciiInjective(a: string, b: string)
    requires IsAscii(a) && IsAscii(b)
    ensures AsciiBytes(a) == AsciiBytes(b) <==> a == b
  {
    if AsciiBytes(a) == AsciiBytes(b) {
      assert |a| == |b|;
      forall i | 0 <= i < |a|
        ensures a[i] == b[i]
      {
        assert AsciiBytes(a)[i] == AsciiBytes(b)[i];
      }
    }
  }

  /** The unsigned big-endian value of four bytes. */
  function BigEndian(b0: byte, b1: byte, b2: byte, b3: byte): u32 {
    b0 * 0x100_0000 + b1 * 0x1_0000 + b2 * 0x100 + b3
  }

  /** The four bytes writeUInt32BE stores for a word, most significant first. */
  function WordBytes(w: u32): (r: seq<byte>)
    ensures |r| == 4
    ensures BigEndian(r[0], r[1], r[2], r[3]) == w
  {
    var low24 := w % 0x100_0000;
    var low16 := low24 % 0x1_0000;
    [w / 0x100_0000, low24 / 0x1_0000, low16 / 0x100, low16 % 0x100]
  }

  /** Writing back a word read from four bytes gives those bytes. */
  lemma WordBytesOfBigEndian(b0: byte, b1: byte, b2: byte, b3: byte)
    ensures WordBytes(BigEndian(b0, b1, b2, b3)) == [b0, b1, b2, b3]
  {
    var w := BigEndian(b0, b1, b2, b3);
    var low24 := b1 * 0x1_0000 + b2 * 0x100 + b3;
    var low16 := b2 * 0x100 + b3;
    assert w == b0 * 0x100_0000 + low24 && low24 < 0x100_0000;
    assert w / 0x100_0000 == b0 && w % 0x100_0000 == low24;
    assert low24 / 0x1_0000 == b1 && low24 % 0x1_0000 == low16;
    assert low16 / 0x100 == b2 && low16 % 0x100 == b3;
  }

  /** The word starting at byte offset i. */
  function WordAt(buf: seq<byte>, i: nat): u32
    requires i + 4 <= |buf|
  {
    BigEndian(buf[i], buf[i + 1], buf[i + 2], buf[i + 3])
  }

  /** buf.readUInt32BE(offset): a RangeError unless four bytes are available there. */
  function ReadUInt32BE(buf: seq<byte>, offset: int): (r: Result<u32>)
    ensures r.Success? <==> 0 <= offset && offset + 4 <= |buf|
    ensures r.Success? ==> r.value == WordAt(buf, offset)
    ensures r.Failure? ==> r.error == OffsetOutOfRange
  {
    if offset < 0 || offset + 4 > |buf| then Failure(OffsetOutOfRange)
    else Success(WordAt(buf, offset))
  }

  /** The loop `for (i = offset; i < offset + 4 * count; i += 4) push(readUInt32BE(i))`:
      the first read past the end throws and no word array is produced. */
  function ReadWords(buf: seq<byte>, offset: nat, count: nat): (r: Result<seq<u32>>)
    ensures r.Success? <==> count == 0 || offset + 4 * count <= |buf|
    ensures r.Failure? ==> r.error == OffsetOutOfRange
    ensures r.Success? ==> |r.value| == count
    ensures r.Success? ==> forall k :: 0 <= k < count ==> r.value[k] == WordAt(buf, offset + 4 * k)
    decreases count
  {
    if count == 0 then Success([])
    else
      var w :- ReadUInt32BE(buf, offset);
      var rest :- ReadWords(buf, offset + 4, count - 1);
      Success([w] + rest)
  }

  /** The big-endian word view of a buffer whose length is a multiple of 4. */
  function WordsOf(buf: seq<byte>): (r: seq<u32>)
    requires |buf| % 4 == 0
    ensures 4 * |r| == |buf|
    ensures forall k :: 0 <= k < |r| ==> r[k] == BigEndian(buf[4 * k], buf[4 * k + 1], buf[4 * k + 2], buf[4 * k + 3])
  {
    seq(|buf| / 4, k requires 0 <= k < |buf| / 4 => WordAt(buf, 4 * k))
  }

  /** The bytes of a word array, each word most significant byte first. */
  function BytesOf(words: seq<u32>): (r: seq<byte>)
    ensures |r| == 4 * |words|
  {
    if words == [] then [] else WordBytes(words[0]) + BytesOf(words[1..])
  }

  /** Word k of a word array occupies bytes 4k..4k+3 of its byte rendering. */
  lemma {:induction false} BytesOfAt(words: seq<u32>, k: nat)
    requires k < |words|
    ensures BytesOf(words)[4 * k..4 * k + 4] == WordBytes(words[k])
  {
    if k > 0 {
      BytesOfAt(words[1..], k - 1);
      assert BytesOf(words)[4 * k..4 * k + 4] == BytesOf(words[1..])[4 * (k - 1)..4 * (k - 1) + 4];
    }
  }

  /** Reading words from a rendered word array gives the words back. */
  lemma WordsOfBytesOf(words: seq<u32>)
    ensures WordsOf(BytesOf(words)) == words
  {
    var buf := BytesOf(words);
    forall k | 0 <= k < |words|
      ensures WordsOf(buf)[k] == words[k]
    {
      BytesOfAt(words, k);
      var g := buf[4 * k..4 * k + 4];
      assert WordAt(buf, 4 * k) == BigEndian(g[0], g[1], g[2], g[3]);
    }
  }

  /** Rendering the word view of a buffer gives the buffer back. */
  lemma {:induction false} BytesOfWordsOf(buf: seq<byte>)
    requires |buf| % 4 == 0
    ensures BytesOf(WordsOf(buf)) == buf
  {
    if buf != [] {
      var ws := WordsOf(buf);
      WordBytesOfBigEndian(buf[0], buf[1], buf[2], buf[3]);
      assert ws[0] == BigEndian(buf[0], buf[1], buf[2], buf[3]);
      assert WordBytes(ws[0]) == buf[..4];
      WordsOfSlice(buf, 1, |buf| / 4);
      assert ws[1..] == WordsOf(buf[4..]);
      BytesOfWordsOf(buf[4..]);
      assert buf == buf[..4] + buf[4..];
    }
  }

  /** Two buffers agree exactly when their word views agree. */
  lemma WordsOfInjective(a: seq<byte>, b: seq<byte>)
    requires |a| % 4 == 0 && |b| % 4 == 0
    ensures WordsOf(a) == WordsOf(b) <==> a == b
  {
    BytesOfWordsOf(a);
    BytesOfWordsOf(b);
  }

  /** Words i..j of a buffer are the word view of bytes 4i..4j. */
  lemma WordsOfSlice(buf: seq<byte>, i: nat, j: nat)
    requires |buf| % 4 == 0 && i <= j <= |buf| / 4
    ensures WordsOf(buf)[i..j] == WordsOf(buf[4 * i..4 * j])
  {
    var sub := buf[4 * i..4 * j];
    forall k | 0 <= k < j - i
      ensures WordsOf(buf)[i..j][k] == WordsOf(sub)[k]
    {
      assert sub[4 * k] == buf[4 * (i + k)];
      assert sub[4 * k + 3] == buf[4 * (i + k) + 3];
    }
  }

  /** Reading every group of four bytes from the start gives the word view. */
  lemma ReadWordsAll(buf: seq<byte>)
    requires |buf| % 4 == 0
    ensures ReadWords(buf, 0, |buf| / 4) == Success(WordsOf(buf))
  {
    var r := ReadWords(buf, 0, |buf| / 4);
    assert r.Success?;
    assert r.value == WordsOf(buf);
  }
}
