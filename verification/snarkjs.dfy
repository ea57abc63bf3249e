/** The Circom flow's witness preparation (generateWitness): the lenient serialisation of
    the credential, the degree sub-range, the character codes, and the Poseidon
    hash-of-hashes over four chunks of fifteen codes. Poseidon is a parameter.

    A Dafny string is a sequence of Unicode scalar values, while JavaScript counts UTF-16
    code units. The two agree on text in the Basic Multilingual Plane: there
    String.length, padEnd, substring, slice and Array.from all count one unit per
    character, and charCodeAt(0) is the character's code. Outside it they differ, and
    the model does not follow JavaScript there. */
module Snarkjs {
  import opened Seqs
  import opened Serialize

  const NameWidth: nat := 12
  const DegreeTitleWidth: nat := 32

  /** The layout of generateWitness: 60 characters, four chunks of fifteen. */
  const WitnessLayout: Layout :=
    [Field("name", NameWidth), Field("degreeTitle", DegreeTitleWidth), Field("university", 8), Field("year", 8)]

  const WitnessWidth: nat := 60
  const ChunkCount: nat := 4
  const ChunkSize: nat := 15

  /** The input object handed to the witness calculator. The decimal renderings of the
      codes and of the hash are left as the numbers they render. */
  datatype WitnessInput = WitnessInput(preimage: seq<int>, expectedHash: int, expectedDegree: seq<int>)

  /** Where `relative` points in a sequence of length len, as slice clamps it. */
  function ClampIndex(relative: int, len: nat): (r: nat)
    ensures r <= len
    ensures 0 <= relative <= len ==> r == relative
    ensures relative > len ==> r == len
    ensures relative < 0 ==> r == if len + relative < 0 then 0 else len + relative
  {
    if relative < 0 then (if len + relative < 0 then 0 else len + relative)
    else if relative > len then len
    else relative
  }

  /** String.prototype.slice and Array.prototype.slice: both ends are clamped (a negative
      one counts from the end) and a range that ends before it starts is empty. */
  function JsSlice<T>(s: seq<T>, start: int, end: int): (r: seq<T>)
    ensures |r| <= |s|
    ensures 0 <= start <= end <= |s| ==> r == s[start..end]
    ensures 0 <= start <= |s| <= end ==> r == s[start..]
    ensures 0 <= end <= start ==> r == []
  {
    var from := ClampIndex(start, |s|);
    var to := ClampIndex(end, |s|);
    if from < to then s[from..to] else []
  }

  /** `Array.from(s).map(c => c.charCodeAt(0))`. */
  function CharCodes(s: string): (r: seq<int>)
    ensures |r| == |s|
    ensures forall i :: 0 <= i < |s| ==> r[i] == s[i] as int
  {
    seq(|s|, i requires 0 <= i < |s| => s[i] as int)
  }

  /** The codes of a sub-range are that sub-range of the codes. */
  lemma CharCodesSlice(s: string, i: nat, j: nat)
    requires i <= j <= |s|
    ensures CharCodes(s)[i..j] == CharCodes(s[i..j])
  {
  }

  /** Different text has different codes. */
  lemma CharCodesInjective(a: string, b: string)
    ensures CharCodes(a) == CharCodes(b) <==> a == b
  {
    if CharCodes(a) == CharCodes(b) {
      assert |a| == |b|;
      forall i | 0 <= i < |a|
        ensures a[i] == b[i]
      {
        assert CharCodes(a)[i] == CharCodes(b)[i];
      }
    }
  }

  /** The serialisation loop of generateWitness (lines 49-54): each value, or "" when
      absent, padded with spaces and cut to its width, appended in key order. */
  method SerializeLoop(vc: Record, layout: Layout) returns (serialized: string)
    ensures serialized == SerializeLenient(vc, layout)
    ensures |serialized| == TotalWidth(layout)
    ensures forall k :: 0 <= k < |layout| ==> HasFieldAt(serialized, layout, k, Fitted(vc, layout[k]))
  {
    serialized := "";
    var i := 0;
    while i < |layout|
      invariant 0 <= i <= |layout|
      invariant serialized == SerializeLenient(vc, layout[..i])
    {
      var field := layout[i];
      var value := ValueOf(vc, field.key);
      value := PadEnd(value, field.width)[..field.width];
      LenientSnoc(vc, layout, i);
      serialized := serialized + value;
      i := i + 1;
    }
    assert layout[..|layout|] == layout;
  }

  /** One more field appends its fitted value. */
  lemma LenientSnoc(vc: Record, layout: Layout, i: nat)
    requires i < |layout|
    ensures SerializeLenient(vc, layout[..i + 1]) == SerializeLenient(vc, layout[..i]) + Fitted(vc, layout[i])
  {
    assert layout[..i + 1][..i] == layout[..i];
  }

  /** The layout's shape: 60 characters, with degreeTitle at offset 12, 32 wide. */
  lemma WitnessLayoutShape()
    ensures |WitnessLayout| == 4 && WitnessLayout[1] == Field("degreeTitle", DegreeTitleWidth)
    ensures Offset(WitnessLayout, 1) == NameWidth && TotalWidth(WitnessLayout) == WitnessWidth
  {
    var l1 := WitnessLayout[..1];
    var l2 := WitnessLayout[..2];
    var l3 := WitnessLayout[..3];
    assert l1[..0] == [] && l2[..1] == l1 && l3[..2] == l2 && WitnessLayout[..3] == l3;
    assert TotalWidth(l1) == 12;
    assert TotalWidth(l2) == 44;
    assert TotalWidth(l3) == 52;
  }

  /** The serialised credential is 60 characters, and characters 12..43 are the degree
      title cut or padded to 32. */
  lemma WitnessText(vc: Record)
    ensures |SerializeLenient(vc, WitnessLayout)| == WitnessWidth
    ensures SerializeLenient(vc, WitnessLayout)[NameWidth..NameWidth + DegreeTitleWidth]
      == FitTo(ValueOf(vc, "degreeTitle"), DegreeTitleWidth)
  {
    WitnessLayoutShape();
    assert HasFieldAt(SerializeLenient(vc, WitnessLayout), WitnessLayout, 1, Fitted(vc, WitnessLayout[1]));
  }

  /** Chunk i of the codes: `charCodes.slice(i * 15, (i + 1) * 15)`. */
  function Chunk(codes: seq<int>, i: nat): (r: seq<int>)
    ensures (i + 1) * ChunkSize <= |codes| ==> r == codes[i * ChunkSize..(i + 1) * ChunkSize]
    ensures i * ChunkSize <= |codes| <= (i + 1) * ChunkSize ==> r == codes[i * ChunkSize..]
    ensures |codes| <= i * ChunkSize ==> r == []
  {
    JsSlice(codes, i * ChunkSize, (i + 1) * ChunkSize)
  }

  /** The first n chunks, in order. */
  function Chunks(codes: seq<int>, n: nat): (r: seq<seq<int>>)
    ensures |r| == n
  {
    if n == 0 then [] else Chunks(codes, n - 1) + [Chunk(codes, n - 1)]
  }

  function Flatten(parts: seq<seq<int>>): seq<int> {
    if parts == [] then [] else Flatten(parts[..|parts| - 1]) + parts[|parts| - 1]
  }

  /** While the codes last, chunk i is exactly codes 15i..15i+14. */
  lemma ChunkIsRange(codes: seq<int>, i: nat)
    requires (i + 1) * ChunkSize <= |codes|
    ensures Chunk(codes, i) == codes[i * ChunkSize..(i + 1) * ChunkSize]
    ensures |Chunk(codes, i)| == ChunkSize
  {
  }

  /** The first n chunks, put back together, are the first 15n codes. */
  lemma {:induction false} ChunksCover(codes: seq<int>, n: nat)
    requires n * ChunkSize <= |codes|
    ensures Flatten(Chunks(codes, n)) == codes[..n * ChunkSize]
  {
    if n > 0 {
      var front := Chunks(codes, n - 1);
      assert Chunks(codes, n)[..n - 1] == front;
      ChunksCover(codes, n - 1);
      ChunkIsRange(codes, n - 1);
      assert codes[..(n - 1) * ChunkSize] + codes[(n - 1) * ChunkSize..n * ChunkSize] == codes[..n * ChunkSize];
    }
  }

  /** Sixty codes split into four chunks of fifteen that concatenate back to the codes. */
  lemma FourChunks(codes: seq<int>)
    requires |codes| == WitnessWidth
    ensures forall i :: 0 <= i < ChunkCount ==> |Chunk(codes, i)| == ChunkSize
    ensures Flatten(Chunks(codes, ChunkCount)) == codes
  {
    forall i | 0 <= i < ChunkCount
      ensures |Chunk(codes, i)| == ChunkSize
    {
      ChunkIsRange(codes, i);
    }
    ChunksCover(codes, ChunkCount);
  }

  /** The Poseidon hashes of the first n chunks, in chunk order. */
  function GroupHashes(codes: seq<int>, poseidon: seq<int> -> int, n: nat): (r: seq<int>)
    ensures |r| == n
    ensures forall i :: 0 <= i < n ==> r[i] == poseidon(Chunk(codes, i))
  {
    if n == 0 then [] else GroupHashes(codes, poseidon, n - 1) + [poseidon(Chunk(codes, n - 1))]
  }

  /** generateWitness, lines 36-77, for any credential: serialise leniently, take the
      degree sub-range, convert both to codes, and hash the four chunks and then the
      four chunk hashes. */
  method GenerateWitness(vc: Record, poseidon: seq<int> -> int) returns (input: WitnessInput)
    ensures |input.preimage| == WitnessWidth && input.preimage == CharCodes(SerializeLenient(vc, WitnessLayout))
    ensures input.expectedDegree == input.preimage[NameWidth..NameWidth + DegreeTitleWidth]
    ensures input.expectedDegree == CharCodes(FitTo(ValueOf(vc, "degreeTitle"), DegreeTitleWidth))
    ensures input.expectedHash == poseidon([poseidon(input.preimage[0..15]), poseidon(input.preimage[15..30]),
                                            poseidon(input.preimage[30..45]), poseidon(input.preimage[45..60])])
  {
    var serialized := SerializeLoop(vc, WitnessLayout);
    WitnessText(vc);
    var degreeString := JsSlice(serialized, WitnessLayout[0].width, WitnessLayout[0].width + WitnessLayout[1].width);
    var expectedDegreeCharCodes := CharCodes(degreeString);
    var charCodes := CharCodes(serialized);
    CharCodesSlice(serialized, NameWidth, NameWidth + DegreeTitleWidth);

    var groupHashes: seq<int> := [];
    var i := 0;
    while i < ChunkCount
      invariant 0 <= i <= ChunkCount
      invariant groupHashes == GroupHashes(charCodes, poseidon, i)
    {
      var chunk := JsSlice(charCodes, i * ChunkSize, (i + 1) * ChunkSize);
      var hash := poseidon(chunk);
      groupHashes := groupHashes + [hash];
      i := i + 1;
    }
    ChunkHashesInOrder(charCodes, poseidon, groupHashes);
    var finalHash := poseidon(groupHashes);
    input := WitnessInput(charCodes, finalHash, expectedDegreeCharCodes);
  }

  /** The four chunk hashes are the hashes of codes 0..14, 15..29, 30..44 and 45..59. */
  lemma ChunkHashesInOrder(codes: seq<int>, poseidon: seq<int> -> int, hashes: seq<int>)
    requires |codes| == WitnessWidth && hashes == GroupHashes(codes, poseidon, ChunkCount)
    ensures hashes == [poseidon(codes[0..15]), poseidon(codes[15..30]), poseidon(codes[30..45]), poseidon(codes[45..60])]
  {
    ChunkIsRange(codes, 0);
    ChunkIsRange(codes, 1);
    ChunkIsRange(codes, 2);
    ChunkIsRange(codes, 3);
  }
}
