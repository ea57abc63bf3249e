/** Fixed-width record serialisation. A layout lists (key, width) pairs in key order;
    each field's value is right-padded with spaces to its width and the segments are
    concatenated. serializeObject is strict (a value longer than its width throws); the
    loop in generateWitness is lenient (it pads, then cuts to the width).

    Lengths and widths count the characters of a Dafny string, that is Unicode scalar
    values; String.length and padEnd count UTF-16 code units. They agree exactly on text
    in the Basic Multilingual Plane, which is the text this model covers. */
module Serialize {
  import opened Results
  import opened Seqs

  datatype Field = Field(key: string, width: nat)

  /** The layout object's entries, in Object.keys order. */
  type Layout = seq<Field>

  /** A credential record: string-valued fields by key. */
  type Record = map<string, string>

  /** `obj[key] ?? ''` (and `obj[key] || ""`, which agrees on string values). */
  function ValueOf(obj: Record, key: string): string {
    if key in obj then obj[key] else ""
  }

  /** String.prototype.padEnd(n, ' '): a string already n long or longer is unchanged. */
  function PadEnd(s: string, n: nat): (r: string)
    ensures |r| == if |s| < n then n else |s|
    ensures r[..|s|] == s
    ensures forall i :: |s| <= i < |r| ==> r[i] == ' '
  {
    if |s| >= n then s else s + Repeat(' ', n - |s|)
  }

  /** `value.padEnd(n).substring(0, n)`: exactly n characters, the value cut or padded. */
  function FitTo(s: string, n: nat): (r: string)
    ensures |r| == n
    ensures n <= |s| ==> r == s[..n]
    ensures |s| <= n ==> r[..|s|] == s && forall i :: |s| <= i < n ==> r[i] == ' '
  {
    PadEnd(s, n)[..n]
  }

  /** A value that fits is padded the same way by both serialisers. */
  lemma FitToPadEnd(s: string, n: nat)
    requires |s| <= n
    ensures FitTo(s, n) == PadEnd(s, n)
  {
  }

  /** The sum of the layout's widths, accumulated in key order. */
  function TotalWidth(layout: Layout): nat {
    if layout == [] then 0 else TotalWidth(layout[..|layout| - 1]) + layout[|layout| - 1].width
  }

  /** Where field k starts: the sum of the widths before it. */
  function Offset(layout: Layout, k: nat): nat
    requires k <= |layout|
  {
    TotalWidth(layout[..k])
  }

  /** Every field ends within the total width: fields start at their offsets and
      follow each other in key order. */
  lemma FieldWithin(layout: Layout, k: nat)
    requires k < |layout|
    ensures Offset(layout, k) + layout[k].width <= TotalWidth(layout)
    ensures k + 1 < |layout| ==> Offset(layout, k + 1) == Offset(layout, k) + layout[k].width
  {
    var s := SerializeLenient(map[], layout);
    assert HasFieldAt(s, layout, k, Fitted(map[], layout[k]));
    if k + 1 < |layout| {
      assert layout[..k + 1][..k] == layout[..k];
    }
  }

  predicate FieldFits(obj: Record, f: Field) {
    |ValueOf(obj, f.key)| <= f.width
  }

  predicate AllFit(obj: Record, layout: Layout) {
    forall k :: 0 <= k < |layout| ==> FieldFits(obj, layout[k])
  }

  /** The first field, in key order, whose value is longer than its width. */
  function FirstMisfit(obj: Record, layout: Layout): (k: nat)
    requires !AllFit(obj, layout)
    ensures k < |layout| && !FieldFits(obj, layout[k])
    ensures forall j :: 0 <= j < k ==> FieldFits(obj, layout[j])
  {
    if !FieldFits(obj, layout[0]) then 0
    else
      var k := 1 + FirstMisfit(obj, layout[1..]);
      assert forall j :: 1 <= j < k ==> layout[j] == layout[1..][j - 1];
      k
  }

  /** Field k of a serialisation: the characters from its offset, as many as its width. */
  predicate HasFieldAt(s: string, layout: Layout, k: nat, segment: string)
    requires k < |layout|
  {
    var off := Offset(layout, k);
    && off + layout[k].width <= |s|
    && s[off..off + layout[k].width] == segment
  }

  /** One field as the generateWitness loop writes it. */
  function Fitted(obj: Record, f: Field): string {
    FitTo(ValueOf(obj, f.key), f.width)
  }

  /** The serialisation loop of generateWitness: every field cut or padded to its width.
      It never fails. */
  function SerializeLenient(obj: Record, layout: Layout): (r: string)
    ensures |r| == TotalWidth(layout)
    ensures forall k :: 0 <= k < |layout| ==> HasFieldAt(r, layout, k, Fitted(obj, layout[k]))
  {
    if layout == [] then ""
    else
      var n := |layout| - 1;
      var prefix := SerializeLenient(obj, layout[..n]);
      LenientStep(obj, layout, prefix);
      prefix + Fitted(obj, layout[n])
  }

  /** Appending the last field keeps the earlier fields in place and puts the new one
      after them. */
  lemma LenientStep(obj: Record, layout: Layout, prefix: string)
    requires |layout| > 0 && |prefix| == TotalWidth(layout[..|layout| - 1])
    requires var front := layout[..|layout| - 1];
      forall k :: 0 <= k < |front| ==> HasFieldAt(prefix, front, k, Fitted(obj, front[k]))
    ensures forall k :: 0 <= k < |layout| ==>
      HasFieldAt(prefix + Fitted(obj, layout[|layout| - 1]), layout, k, Fitted(obj, layout[k]))
  {
    var n := |layout| - 1;
    var front := layout[..n];
    var segment := Fitted(obj, layout[n]);
    forall k | 0 <= k < |layout|
      ensures HasFieldAt(prefix + segment, layout, k, Fitted(obj, layout[k]))
    {
      if k < n {
        KeepField(obj, layout, prefix, segment, k);
      } else {
        PlaceLast(layout, prefix, segment);
      }
    }
  }

  /** The last field of a layout lands after the serialisation of the others. */
  lemma PlaceLast(layout: Layout, prefix: string, segment: string)
    requires |layout| > 0 && |prefix| == TotalWidth(layout[..|layout| - 1])
    requires |segment| == layout[|layout| - 1].width
    ensures HasFieldAt(prefix + segment, layout, |layout| - 1, segment)
  {
    SliceOfRight(prefix, segment);
  }

  lemma KeepField(obj: Record, layout: Layout, prefix: string, segment: string, k: nat)
    requires |layout| > 0 && k < |layout| - 1
    requires HasFieldAt(prefix, layout[..|layout| - 1], k, Fitted(obj, layout[..|layout| - 1][k]))
    ensures HasFieldAt(prefix + segment, layout, k, Fitted(obj, layout[k]))
  {
    assert layout[..|layout| - 1][k] == layout[k];
    PlaceEarlier(layout, prefix, segment, k, Fitted(obj, layout[k]));
  }

  /** An earlier field keeps its place when a segment is appended. */
  lemma PlaceEarlier(layout: Layout, prefix: string, segment: string, k: nat, field: string)
    requires |layout| > 0 && k < |layout| - 1
    requires HasFieldAt(prefix, layout[..|layout| - 1], k, field)
    ensures HasFieldAt(prefix + segment, layout, k, field)
  {
    var front := layout[..|layout| - 1];
    assert front[..k] == layout[..k];
    var off := Offset(layout, k);
    SliceOfLeft(prefix, segment, off, off + layout[k].width);
  }

  /** The first misfit is the one index that misfits with every earlier field fitting. */
  lemma FirstMisfitAt(obj: Record, layout: Layout, k: nat)
    requires k < |layout| && !FieldFits(obj, layout[k])
    requires forall j :: 0 <= j < k ==> FieldFits(obj, layout[j])
    ensures !AllFit(obj, layout) && FirstMisfit(obj, layout) == k
  {
  }

  /** A misfit in a prefix is the first misfit of the whole layout. */
  lemma FirstMisfitOfPrefix(obj: Record, layout: Layout, m: nat)
    requires m <= |layout| && !AllFit(obj, layout[..m])
    ensures !AllFit(obj, layout) && FirstMisfit(obj, layout) == FirstMisfit(obj, layout[..m])
  {
    var k := FirstMisfit(obj, layout[..m]);
    forall j | 0 <= j <= k
      ensures layout[..m][j] == layout[j]
    {
    }
    FirstMisfitAt(obj, layout, k);
  }

  /** A prefix of the layout fits exactly when each of its fields does. */
  lemma PrefixFits(obj: Record, layout: Layout, m: nat)
    requires m <= |layout|
    ensures AllFit(obj, layout[..m]) <==> forall j :: 0 <= j < m ==> FieldFits(obj, layout[j])
  {
    forall j | 0 <= j < m
      ensures layout[..m][j] == layout[j]
    {
    }
  }

  /** A layout fits exactly when all but its last field fit and the last one does. */
  lemma FitsSnoc(obj: Record, layout: Layout)
    requires |layout| > 0
    ensures AllFit(obj, layout) <==> AllFit(obj, layout[..|layout| - 1]) && FieldFits(obj, layout[|layout| - 1])
  {
    PrefixFits(obj, layout, |layout| - 1);
  }

  /** The loop of serializeObject over the layout's keys: the first value longer than its
      width throws FieldTooLong and nothing is returned; otherwise each value is padded
      to its width. */
  function SerializeFields(obj: Record, layout: Layout): (r: Result<string>)
    ensures r.Success? <==> AllFit(obj, layout)
    ensures r.Failure? ==> r.error == FieldTooLong(layout[FirstMisfit(obj, layout)].key, layout[FirstMisfit(obj, layout)].width)
    ensures r.Success? ==> r.value == SerializeLenient(obj, layout)
  {
    if layout == [] then Success("")
    else
      var n := |layout| - 1;
      var prefix := SerializeFields(obj, layout[..n]);
      PrefixFits(obj, layout, n);
      FitsSnoc(obj, layout);
      if prefix.Failure? then
        FirstMisfitOfPrefix(obj, layout, n);
        Failure(prefix.error)
      else
        var f := layout[n];
        var value := ValueOf(obj, f.key);
        if |value| > f.width then
          FirstMisfitAt(obj, layout, n);
          Failure(FieldTooLong(f.key, f.width))
        else
          FitToPadEnd(value, f.width);
          Success(prefix.value + PadEnd(value, f.width))
  }

  /** serializeObject(obj, layout). The final length check cannot fail: every padded
      value that got this far is exactly its width. */
  function SerializeObject(obj: Record, layout: Layout): (r: Result<string>)
    ensures r.Success? <==> AllFit(obj, layout)
    ensures r.Failure? ==> r.error == FieldTooLong(layout[FirstMisfit(obj, layout)].key, layout[FirstMisfit(obj, layout)].width)
    ensures r.Success? ==> |r.value| == TotalWidth(layout)
    ensures r.Success? ==> forall k :: 0 <= k < |layout| ==>
      HasFieldAt(r.value, layout, k, PadEnd(ValueOf(obj, layout[k].key), layout[k].width))
  {
    var result :- SerializeFields(obj, layout);
    var totalExpectedLength := TotalWidth(layout);
    if |result| != totalExpectedLength then Failure(FinalLengthMismatch(|result|, totalExpectedLength))
    else
      StrictPlacement(obj, layout, result);
      Success(result)
  }

  /** When every value fits, the strict and the lenient serialisations put the same
      padded value in each field. */
  lemma StrictPlacement(obj: Record, layout: Layout, s: string)
    requires AllFit(obj, layout) && s == SerializeLenient(obj, layout)
    ensures forall k :: 0 <= k < |layout| ==>
      HasFieldAt(s, layout, k, PadEnd(ValueOf(obj, layout[k].key), layout[k].width))
  {
    forall k | 0 <= k < |layout|
      ensures HasFieldAt(s, layout, k, PadEnd(ValueOf(obj, layout[k].key), layout[k].width))
    {
      FitToPadEnd(ValueOf(obj, layout[k].key), layout[k].width);
    }
  }

  /** The two serialisers agree exactly when no value is too long. */
  lemma StrictIsLenient(obj: Record, layout: Layout)
    ensures AllFit(obj, layout) <==> SerializeObject(obj, layout) == Success(SerializeLenient(obj, layout))
  {
  }

  /** A key the record lacks serialises as a field of spaces, in both serialisers. */
  lemma MissingKeyIsBlank(obj: Record, layout: Layout, k: nat)
    requires k < |layout| && layout[k].key !in obj
    ensures HasFieldAt(SerializeLenient(obj, layout), layout, k, Repeat(' ', layout[k].width))
    ensures SerializeObject(obj, layout).Success? ==>
      HasFieldAt(SerializeObject(obj, layout).value, layout, k, Repeat(' ', layout[k].width))
  {
    var blank := Fitted(obj, layout[k]);
    assert blank == Repeat(' ', layout[k].width);
  }

  /** Field k of a successful serializeObject: the value padded to the width, at the
      field's offset. */
  lemma SerializedField(obj: Record, layout: Layout, k: nat)
    requires AllFit(obj, layout) && k < |layout|
    ensures SerializeObject(obj, layout).Success?
    ensures Offset(layout, k) + layout[k].width <= |SerializeObject(obj, layout).value|
    ensures SerializeObject(obj, layout).value[Offset(layout, k)..Offset(layout, k) + layout[k].width]
      == PadEnd(ValueOf(obj, layout[k].key), layout[k].width)
  {
    assert HasFieldAt(SerializeObject(obj, layout).value, layout, k, PadEnd(ValueOf(obj, layout[k].key), layout[k].width));
  }
}
