/** The ZoKrates flow: the circuit's two constraint loops, and the wiring that turns a
    credential record into the circuit's three word inputs. The alignment theorem says
    when the circuit's check `vc_data[i + 3] == expected_degree[i]` compares exactly the
    degree field. */
module Zokrates {
  import opened Results
  import opened Bytes
  import opened Hex
  import opened Seqs
  import opened Serialize
  import opened Padder
  import opened WordView

  /** The layout used with the circuit: 52 bytes, so the record fits one SHA-256 block
      with every field on a word boundary. */
  const DegreeLayout: Layout :=
    [Field("name", 12), Field("degree", 32), Field("university", 4), Field("year", 4)]

  const DegreeWidth: nat := 32

  /** The inputs main receives, as the word strings the wiring produces. */
  datatype CircuitInputs = CircuitInputs(vcData: seq<string>, vcHash: seq<string>, expectedDegree: seq<string>)

  /** The second loop of main: words 3..10 of the block equal the expected words. */
  predicate DegreeConstraint(vcData: seq<u32>, expectedDegree: seq<u32>)
    requires |vcData| == BlockWords && |expectedDegree| == DigestWords
  {
    forall i :: 0 <= i < DigestWords ==> vcData[i + 3] == expectedDegree[i]
  }

  /** main(vc_data, vc_hash, expected_degree) of the circuit. The 512-bit SHA-256
      compression of the ZoKrates standard library is a parameter. */
  predicate Accepts(vcData: seq<u32>, vcHash: seq<u32>, expectedDegree: seq<u32>,
                    sha256: (seq<u32>, seq<u32>) -> seq<u32>)
    requires |vcData| == BlockWords && |vcHash| == DigestWords && |expectedDegree| == DigestWords
  {
    var hash := sha256(vcData[0..8], vcData[8..16]);
    && |hash| == DigestWords
    && (forall i :: 0 <= i < DigestWords ==> hash[i] == vcHash[i])
    && DegreeConstraint(vcData, expectedDegree)
  }

  /** The degree loop compares one run of eight words. */
  lemma DegreeConstraintIsRun(vcData: seq<u32>, expectedDegree: seq<u32>)
    requires |vcData| == BlockWords && |expectedDegree| == DigestWords
    ensures DegreeConstraint(vcData, expectedDegree) <==> vcData[3..11] == expectedDegree
  {
    if DegreeConstraint(vcData, expectedDegree) {
      forall i | 0 <= i < DigestWords
        ensures vcData[3..11][i] == expectedDegree[i]
      {
      }
    }
    if vcData[3..11] == expectedDegree {
      forall i | 0 <= i < DigestWords
        ensures vcData[i + 3] == expectedDegree[i]
      {
        assert vcData[3..11][i] == vcData[i + 3];
      }
    }
  }

  /** main accepts exactly when the compression of the block is the hash and words
      3..10 are the expected degree words. */
  lemma AcceptsMeans(vcData: seq<u32>, vcHash: seq<u32>, expectedDegree: seq<u32>,
                     sha256: (seq<u32>, seq<u32>) -> seq<u32>)
    requires |vcData| == BlockWords && |vcHash| == DigestWords && |expectedDegree| == DigestWords
    ensures Accepts(vcData, vcHash, expectedDegree, sha256) <==>
      sha256(vcData[0..8], vcData[8..16]) == vcHash && vcData[3..11] == expectedDegree
  {
    DegreeConstraintIsRun(vcData, expectedDegree);
    var hash := sha256(vcData[0..8], vcData[8..16]);
    if |hash| == DigestWords && forall i :: 0 <= i < DigestWords ==> hash[i] == vcHash[i] {
      assert hash == vcHash;
    }
  }

  /** Every value of the record is ASCII text. */
  predicate AsciiRecord(obj: Record) {
    forall key :: key in obj ==> IsAscii(obj[key])
  }

  lemma {:induction false} LenientAscii(obj: Record, layout: Layout)
    requires AsciiRecord(obj)
    ensures IsAscii(SerializeLenient(obj, layout))
  {
    if layout != [] {
      var n := |layout| - 1;
      LenientAscii(obj, layout[..n]);
      var prefix := SerializeLenient(obj, layout[..n]);
      var segment := Fitted(obj, layout[n]);
      var v := ValueOf(obj, layout[n].key);
      assert IsAscii(segment) by {
        forall i | 0 <= i < |segment|
          ensures segment[i] as int < 0x80
        {
          if i < |v| {
            assert segment[i] == v[i];
          }
        }
      }
      AsciiConcat(prefix, segment);
    }
  }

  /** serializeObject of an ASCII record is ASCII. */
  lemma SerializedAscii(obj: Record, layout: Layout)
    requires AsciiRecord(obj)
    ensures SerializeObject(obj, layout).Success? ==> IsAscii(SerializeObject(obj, layout).value)
  {
    LenientAscii(obj, layout);
    StrictIsLenient(obj, layout);
  }

  /** A padded field's bytes are the value's bytes followed by space bytes. */
  lemma PadEndBytes(v: string, w: nat)
    requires IsAscii(v) && |v| <= w
    ensures IsAscii(PadEnd(v, w))
    ensures AsciiBytes(PadEnd(v, w)) == SpacePadded(AsciiBytes(v), w)
  {
    var p := PadEnd(v, w);
    assert forall i :: 0 <= i < |v| ==> p[i] == v[i];
  }

  /** The record fits the layout, its text is ASCII, and it fits one SHA-256 block. */
  predicate BlockReady(obj: Record, layout: Layout) {
    AsciiRecord(obj) && AllFit(obj, layout) && TotalWidth(layout) <= MaxMessageBytes
  }

  /** Bytes 4i..4(i+n) of an ASCII message that fits one block hold the ASCII value v
      right-padded with spaces to 4n bytes. */
  predicate PaddedRun(s: string, i: nat, n: nat, v: string) {
    && IsAscii(s) && |s| <= MaxMessageBytes && 4 * (i + n) <= |s|
    && IsAscii(v) && |v| <= 4 * n
    && s[4 * i..4 * (i + n)] == PadEnd(v, 4 * n)
  }

  /** Words i..i+n of toU32ArrayPadded(s) are exactly strToU32Array(v, 4n). */
  predicate WordsMatch(s: string, i: nat, n: nat, v: string) {
    && IsAscii(s) && IsAscii(v)
    && ToU32ArrayPadded(s).Success? && StrToU32Array(v, 4 * n).Success?
    && i + n <= |ToU32ArrayPadded(s).value|
    && ToU32ArrayPadded(s).value[i..i + n] == StrToU32Array(v, 4 * n).value
  }

  /** A word-aligned run of the message holding a padded value becomes, after padding,
      the words strToU32Array makes of that value. */
  lemma AlignedRunWords(s: string, i: nat, n: nat, v: string)
    requires PaddedRun(s, i, n, v)
    ensures WordsMatch(s, i, n, v)
  {
    var block := PaddedBlockOf(AsciiBytes(s));
    var field := SpacePadded(AsciiBytes(v), 4 * n);
    FieldBytesInBlock(s, block, i, n, v);
    PaddedWordsOf(s, block);
    BlockWordsRun(block, i, n, field);
    StrWordsAreWordView(v, 4 * n);
    RenderedRun(WordsOf(block), WordsOf(field), i, n);
  }

  /** In the padded block, the run keeps the value's bytes followed by spaces. */
  lemma FieldBytesInBlock(s: string, block: seq<byte>, i: nat, n: nat, v: string)
    requires PaddedRun(s, i, n, v) && IsPaddedBlock(AsciiBytes(s), block)
    ensures block[4 * i..4 * (i + n)] == SpacePadded(AsciiBytes(v), 4 * n)
  {
    var msg := AsciiBytes(s);
    PaddedBlockPrefix(msg, block);
    SliceOfPrefix(block, |msg|, 4 * i, 4 * (i + n));
    AsciiSlice(s, 4 * i, 4 * (i + n));
    PadEndBytes(v, 4 * n);
  }

  /** Words i..i+n of a block are the word view of bytes 4i..4(i+n). */
  lemma BlockWordsRun(block: seq<byte>, i: nat, n: nat, bytes: seq<byte>)
    requires |block| == BlockBytes && 4 * (i + n) <= BlockBytes
    requires block[4 * i..4 * (i + n)] == bytes
    ensures |block| % 4 == 0 && |bytes| % 4 == 0 && WordsOf(block)[i..i + n] == WordsOf(bytes)
  {
    WordsOfSlice(block, i, i + n);
  }

  /** Rendering a run of words renders the run. */
  lemma RenderedRun(ws: seq<u32>, vs: seq<u32>, i: nat, n: nat)
    requires i + n <= |ws| && ws[i..i + n] == vs
    ensures RenderWords(ws)[i..i + n] == RenderWords(vs)
  {
    RenderWordsSlice(ws, i, i + n);
  }

  /** The values of an ASCII record are ASCII, and a missing key reads as "". */
  lemma ValueAscii(obj: Record, key: string)
    requires AsciiRecord(obj)
    ensures IsAscii(ValueOf(obj, key))
  {
  }

  /** In the lenient serialisation of an ASCII record that fits one block, a fitting
      field at word i, n words wide, is a padded run. */
  lemma LenientRun(obj: Record, layout: Layout, k: nat, i: nat, n: nat)
    requires AsciiRecord(obj) && TotalWidth(layout) <= MaxMessageBytes && k < |layout|
    requires Offset(layout, k) == 4 * i && layout[k].width == 4 * n && FieldFits(obj, layout[k])
    ensures PaddedRun(SerializeLenient(obj, layout), i, n, ValueOf(obj, layout[k].key))
  {
    var v := ValueOf(obj, layout[k].key);
    LenientAscii(obj, layout);
    ValueAscii(obj, layout[k].key);
    FitToPadEnd(v, layout[k].width);
    RunOfField(SerializeLenient(obj, layout), layout, k, i, n, v);
  }

  /** A field holding the padded value v, at byte offset 4i and 4n bytes wide, is a
      padded run. */
  lemma RunOfField(s: string, layout: Layout, k: nat, i: nat, n: nat, v: string)
    requires IsAscii(s) && |s| <= MaxMessageBytes && k < |layout|
    requires Offset(layout, k) == 4 * i && layout[k].width == 4 * n
    requires IsAscii(v) && |v| <= 4 * n && HasFieldAt(s, layout, k, PadEnd(v, 4 * n))
    ensures PaddedRun(s, i, n, v)
  {
  }

  /** Field k of a fitting record, at word i and n words wide, is a padded run of the
      serialised record. */
  lemma SerializedRun(obj: Record, layout: Layout, k: nat, i: nat, n: nat) returns (s: string)
    requires BlockReady(obj, layout) && k < |layout|
    requires Offset(layout, k) == 4 * i && layout[k].width == 4 * n
    ensures SerializeObject(obj, layout) == Success(s)
    ensures PaddedRun(s, i, n, ValueOf(obj, layout[k].key))
  {
    s := SerializeLenient(obj, layout);
    StrictIsLenient(obj, layout);
    LenientRun(obj, layout, k, i, n);
  }

  /** The alignment theorem: a field at byte offset 4i, 4n bytes wide, occupies words
      i..i+n of the padded record, and those words are exactly strToU32Array(value, 4n). */
  lemma FieldWordsAligned(obj: Record, layout: Layout, k: nat, i: nat, n: nat) returns (s: string)
    requires BlockReady(obj, layout) && k < |layout|
    requires Offset(layout, k) == 4 * i && layout[k].width == 4 * n
    ensures SerializeObject(obj, layout) == Success(s)
    ensures WordsMatch(s, i, n, ValueOf(obj, layout[k].key))
  {
    s := SerializedRun(obj, layout, k, i, n);
    AlignedRunWords(s, i, n, ValueOf(obj, layout[k].key));
  }
  /** The degree field of the circuit's layout starts at byte 12 (word 3) and is 32
      bytes (eight words) wide; the whole record is 52 bytes. */
  lemma DegreeLayoutShape()
    ensures |DegreeLayout| == 4 && DegreeLayout[1] == Field("degree", DegreeWidth)
    ensures Offset(DegreeLayout, 1) == 12 && TotalWidth(DegreeLayout) == 52
  {
    assert DegreeLayout[..1] == [Field("name", 12)];
    assert DegreeLayout[..1][..0] == [];
    assert DegreeLayout[..3] == [Field("name", 12), Field("degree", 32), Field("university", 4)];
    assert DegreeLayout[..3][..2] == [Field("name", 12), Field("degree", 32)];
    assert DegreeLayout[..3][..2][..1] == [Field("name", 12)];
    assert DegreeLayout[..|DegreeLayout| - 1] == DegreeLayout[..3];
  }

  /** For the circuit's layout, words 3..10 of the padded record are exactly
      strToU32Array(degree, 32): the run the circuit's second loop compares. */
  lemma DegreeWords(obj: Record) returns (s: string)
    requires AsciiRecord(obj) && AllFit(obj, DegreeLayout)
    ensures SerializeObject(obj, DegreeLayout) == Success(s)
    ensures WordsMatch(s, 3, 8, ValueOf(obj, "degree"))
  {
    DegreeLayoutShape();
    s := FieldWordsAligned(obj, DegreeLayout, 1, 3, 8);
  }

  /** strToU32Array distinguishes two values exactly when their space-padded forms
      differ: trailing spaces are invisible to it. */
  lemma StrWordsInjective(u: string, v: string, w: nat)
    requires IsAscii(u) && IsAscii(v) && w % 4 == 0 && |u| <= w && |v| <= w
    ensures StrToU32Array(u, w).Success? && StrToU32Array(v, w).Success?
    ensures StrToU32Array(u, w) == StrToU32Array(v, w) <==> PadEnd(u, w) == PadEnd(v, w)
  {
    var a := SpacePadded(AsciiBytes(u), w);
    var b := SpacePadded(AsciiBytes(v), w);
    StrWordsAreWordView(u, w);
    StrWordsAreWordView(v, w);
    PadEndBytes(u, w);
    PadEndBytes(v, w);
    RenderWordsInjective(WordsOf(a), WordsOf(b));
    WordsOfInjective(a, b);
    AsciiInjective(PadEnd(u, w), PadEnd(v, w));
  }

  /** Lines 126-131 of the wiring, from the serialised record on: pad it to one block,
      convert the expected degree, and take the word view of the record's SHA-256
      digest. The digest function is a parameter; like crypto's, it yields 32 bytes. */
  function InputsOf(serializedVC: string, expectedDegree: string,
                    sha256: seq<byte> -> seq<byte>): (r: Result<CircuitInputs>)
    requires IsAscii(serializedVC) && IsAscii(expectedDegree)
    requires forall m :: |sha256(m)| == DigestBytes
    ensures r.Success? <==> |serializedVC| <= MaxMessageBytes && |expectedDegree| <= DegreeWidth
    ensures |serializedVC| > MaxMessageBytes ==> r == Failure(SizeOutOfRange)
    ensures |serializedVC| <= MaxMessageBytes && |expectedDegree| > DegreeWidth ==>
      r == Failure(InputTooLong(DegreeWidth))
    ensures r.Success? ==> |r.value.vcData| == BlockWords && |r.value.vcHash| == DigestWords
    ensures r.Success? ==> |r.value.expectedDegree| == DigestWords
  {
    var vcDataU32 :- ToU32ArrayPadded(serializedVC);
    var expectedDegreeU32 :- StrToU32Array(expectedDegree, DegreeWidth);
    var digest := sha256(AsciiBytes(serializedVC));
    DigestRoundTrip(digest);
    var vcHashU32 := HexHashToU32Array(HexEncode(digest)).value;
    Success(CircuitInputs(vcDataU32, vcHashU32, expectedDegreeU32))
  }

  /** The wiring of the credential into the circuit's inputs (lines 125-131): serialise,
      then InputsOf. */
  function PrepareInputs(vc: Record, layout: Layout, expectedDegree: string,
                         sha256: seq<byte> -> seq<byte>): (r: Result<CircuitInputs>)
    requires AsciiRecord(vc) && IsAscii(expectedDegree)
    requires forall m :: |sha256(m)| == DigestBytes
    ensures r.Success? <==>
      AllFit(vc, layout) && TotalWidth(layout) <= MaxMessageBytes && |expectedDegree| <= DegreeWidth
    ensures !AllFit(vc, layout) ==>
      r == Failure(FieldTooLong(layout[FirstMisfit(vc, layout)].key, layout[FirstMisfit(vc, layout)].width))
  {
    var serializedVC :- SerializeObject(vc, layout);
    SerializedAscii(vc, layout);
    InputsOf(serializedVC, expectedDegree, sha256)
  }

  /** Once the record is serialised, the wiring is InputsOf the serialised text. */
  lemma PreparedFrom(vc: Record, layout: Layout, expectedDegree: string,
                     sha256: seq<byte> -> seq<byte>) returns (s: string)
    requires AsciiRecord(vc) && IsAscii(expectedDegree)
    requires forall m :: |sha256(m)| == DigestBytes
    requires AllFit(vc, layout)
    ensures SerializeObject(vc, layout) == Success(s) && IsAscii(s)
    ensures PrepareInputs(vc, layout, expectedDegree, sha256) == InputsOf(s, expectedDegree, sha256)
  {
    SerializedAscii(vc, layout);
    s := SerializeObject(vc, layout).value;
  }
  /** The three arrays InputsOf hands to the circuit, in the word view: the padded
      block's words, the digest's words, and the space-padded expected degree's words. */
  lemma InputsWords(s: string, e: string, sha256: seq<byte> -> seq<byte>)
    requires IsAscii(s) && IsAscii(e)
    requires forall m :: |sha256(m)| == DigestBytes
    requires |s| <= MaxMessageBytes && |e| <= DegreeWidth
    ensures InputsOf(s, e, sha256).Success? && PadBlock(AsciiBytes(s)).Success?
    ensures InputsOf(s, e, sha256).value.vcData == RenderWords(WordsOf(PadBlock(AsciiBytes(s)).value))
    ensures InputsOf(s, e, sha256).value.vcHash == RenderWords(WordsOf(sha256(AsciiBytes(s))))
    ensures InputsOf(s, e, sha256).value.expectedDegree
      == RenderWords(WordsOf(SpacePadded(AsciiBytes(e), DegreeWidth)))
  {
    var block := PaddedWordsAreBlockWords(s);
    StrWordsAreWordView(e, DegreeWidth);
    DigestRoundTrip(sha256(AsciiBytes(s)));
  }

  /** Read as words, the circuit's inputs pass the second loop of main. */
  predicate DegreeCheckPasses(inputs: CircuitInputs) {
    && ParseWords(inputs.vcData).Some? && |ParseWords(inputs.vcData).value| == BlockWords
    && ParseWords(inputs.expectedDegree).Some? && |ParseWords(inputs.expectedDegree).value| == DigestWords
    && DegreeConstraint(ParseWords(inputs.vcData).value, ParseWords(inputs.expectedDegree).value)
  }

  /** On rendered words, the degree loop compares the rendered run 3..10. */
  lemma RenderedConstraint(ws: seq<u32>, es: seq<u32>)
    requires |ws| == BlockWords && |es| == DigestWords
    ensures DegreeConstraint(ws, es) <==> RenderWords(ws)[3..11] == RenderWords(es)
  {
    DegreeConstraintIsRun(ws, es);
    RenderWordsSlice(ws, 3, 11);
    RenderWordsInjective(ws[3..11], es);
  }

  /** Reading the rendered words back, the degree loop passes exactly when the rendered
      run 3..10 is the rendered expected degree. */
  lemma DegreeCheckOnWords(inputs: CircuitInputs, ws: seq<u32>, es: seq<u32>)
    requires |ws| == BlockWords && |es| == DigestWords
    requires inputs.vcData == RenderWords(ws) && inputs.expectedDegree == RenderWords(es)
    ensures DegreeCheckPasses(inputs) <==> inputs.vcData[3..11] == inputs.expectedDegree
  {
    ParseRenderWords(ws);
    ParseRenderWords(es);
    RenderedConstraint(ws, es);
  }

  /** On a serialised record whose words 3..10 hold the value v, the degree loop passes
      exactly when v and the expected degree agree once padded to 32 characters. */
  lemma DegreeCheckOnText(s: string, e: string, sha256: seq<byte> -> seq<byte>, v: string)
    requires IsAscii(s) && IsAscii(e)
    requires forall m :: |sha256(m)| == DigestBytes
    requires |s| <= MaxMessageBytes && |e| <= DegreeWidth
    requires WordsMatch(s, 3, 8, v) && |v| <= DegreeWidth
    ensures InputsOf(s, e, sha256).Success?
    ensures DegreeCheckPasses(InputsOf(s, e, sha256).value) <==> PadEnd(v, DegreeWidth) == PadEnd(e, DegreeWidth)
  {
    var inputs := InputsOf(s, e, sha256).value;
    InputsWords(s, e, sha256);
    DegreeCheckOnWords(inputs, WordsOf(PadBlock(AsciiBytes(s)).value), WordsOf(SpacePadded(AsciiBytes(e), DegreeWidth)));
    StrWordsInjective(v, e, DegreeWidth);
  }

  /** What the circuit's degree check means for the wiring with the circuit's layout:
      it passes exactly when the record's degree and the expected degree are equal up
      to trailing spaces within 32 characters. */
  lemma DegreeCheckMeans(vc: Record, e: string, sha256: seq<byte> -> seq<byte>)
    requires AsciiRecord(vc) && IsAscii(e)
    requires forall m :: |sha256(m)| == DigestBytes
    requires AllFit(vc, DegreeLayout) && |e| <= DegreeWidth
    ensures PrepareInputs(vc, DegreeLayout, e, sha256).Success?
    ensures DegreeCheckPasses(PrepareInputs(vc, DegreeLayout, e, sha256).value)
      <==> PadEnd(ValueOf(vc, "degree"), DegreeWidth) == PadEnd(e, DegreeWidth)
  {
    var s := PreparedFrom(vc, DegreeLayout, e, sha256);
    var t := DegreeWords(vc);
    DegreeLayoutShape();
    DegreeCheckOnText(s, e, sha256, ValueOf(vc, "degree"));
  }
  /** The credential of the wiring (lines 110-115). */
  const SourceCredential: Record :=
    map["name" := "Lukas", "degree" := "Financial Technologies", "university" := "VU", "year" := "2025"]

  const SourceDegree: string := "Financial Technologies"

  /** The credential is ASCII and fits the circuit's layout. */
  lemma SourceCredentialFits()
    ensures AsciiRecord(SourceCredential) && AllFit(SourceCredential, DegreeLayout)
    ensures ValueOf(SourceCredential, "degree") == SourceDegree && IsAscii(SourceDegree)
  {
    CredentialAscii(SourceCredential);
    CredentialFits(SourceCredential);
  }

  // The helpers below take the record as a parameter equal to the constant, so that the
  // map literal is unfolded once, in the requires, rather than at every use.

  lemma CredentialAscii(vc: Record)
    requires vc == SourceCredential
    ensures AsciiRecord(vc)
  {
    CredentialTextAscii();
    forall key | key in vc
      ensures IsAscii(vc[key])
    {
      assert key == "name" || key == "degree" || key == "university" || key == "year";
    }
  }

  lemma CredentialFits(vc: Record)
    requires vc == SourceCredential
    ensures AllFit(vc, DegreeLayout)
  {
    forall k | 0 <= k < |DegreeLayout|
      ensures FieldFits(vc, DegreeLayout[k])
    {
    }
  }

  lemma CredentialTextAscii()
    ensures IsAscii("Lukas") && IsAscii("Financial Technologies") && IsAscii("VU") && IsAscii("2025")
  {
  }

  /** The wiring of the credential: words 3..10 of the padded record are
      strToU32Array("Financial Technologies", 32), and the degree check passes. */
  lemma SourceDegreeCheck(sha256: seq<byte> -> seq<byte>)
    requires forall m :: |sha256(m)| == DigestBytes
    ensures AsciiRecord(SourceCredential) && IsAscii(SourceDegree)
    ensures SerializeObject(SourceCredential, DegreeLayout).Success?
    ensures WordsMatch(SerializeObject(SourceCredential, DegreeLayout).value, 3, 8, SourceDegree)
    ensures PrepareInputs(SourceCredential, DegreeLayout, SourceDegree, sha256).Success?
    ensures DegreeCheckPasses(PrepareInputs(SourceCredential, DegreeLayout, SourceDegree, sha256).value)
  {
    var vc := SourceCredential;
    SourceCredentialFits();
    var s := DegreeWords(vc);
    DegreeLayoutShape();
    DegreeCheckMeans(vc, SourceDegree, sha256);
  }
}
