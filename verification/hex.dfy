/** Hexadecimal text: the "0x" + 8-digit rendering of a word
    (`'0x' + w.toString(16).padStart(8, '0')`), and the hex digest text that
    `digest('hex')` produces and `Buffer.from(text, 'hex')` reads back. */
module Hex {
  import opened Results
  import opened Bytes
  import opened Seqs

  /** The lowercase digit of a nibble: '0'..'9', then 'a'..'f'. */
  function Digit(d: nat): char
    requires d < 16
  {
    if d < 10 then ('0' as int + d) as char else ('a' as int + d - 10) as char
  }

  predicate IsLowerHexDigit(c: char) {
    '0' <= c <= '9' || 'a' <= c <= 'f'
  }

  predicate IsLowerHex(s: string) {
    forall i :: 0 <= i < |s| ==> IsLowerHexDigit(s[i])
  }

  /** The value of a lowercase hex digit. */
  function DigitValue(c: char): (v: nat)
    requires IsLowerHexDigit(c)
    ensures v < 16 && Digit(v) == c
  {
    if c <= '9' then c as int - '0' as int else c as int - 'a' as int + 10
  }

  /** The value of a hex digit in either case, or None; Node's hex decoder accepts both. */
  function NibbleOf(c: char): (r: Option<nat>)
    ensures r.Some? ==> r.value < 16
  {
    if IsLowerHexDigit(c) then Some(DigitValue(c))
    else if 'A' <= c <= 'F' then Some(c as int - 'A' as int + 10)
    else None
  }

  function Pow16(n: nat): (r: nat)
    ensures r >= 1
  {
    if n == 0 then 1 else 16 * Pow16(n - 1)
  }

  /** The big-endian value of a string of lowercase hex digits. */
  function HexValue(s: string): nat
    requires IsLowerHex(s)
    decreases |s|
  {
    if s == [] then 0 else HexValue(s[..|s| - 1]) * 16 + DigitValue(s[|s| - 1])
  }

  /** A string of k digits denotes a value below 16^k. */
  lemma {:induction false} HexValueBound(s: string)
    requires IsLowerHex(s)
    ensures HexValue(s) < Pow16(|s|)
  {
    if s != [] {
      HexValueBound(s[..|s| - 1]);
    }
  }

  /** Two digit strings of the same length with the same value are the same string. */
  lemma {:induction false} HexValueInjective(a: string, b: string)
    requires IsLowerHex(a) && IsLowerHex(b) && |a| == |b|
    requires HexValue(a) == HexValue(b)
    ensures a == b
  {
    if a != [] {
      var n := |a| - 1;
      assert HexValue(a) % 16 == DigitValue(a[n]);
      assert HexValue(b) % 16 == DigitValue(b[n]);
      assert Digit(DigitValue(a[n])) == a[n] && Digit(DigitValue(b[n])) == b[n];
      HexValueInjective(a[..n], b[..n]);
      assert a == a[..n] + [a[n]] && b == b[..n] + [b[n]];
    }
  }

  /** Leading zero digits do not change the value. */
  lemma {:induction false} HexValueLeadingZeros(z: string, s: string)
    requires forall i :: 0 <= i < |z| ==> z[i] == '0'
    requires IsLowerHex(s)
    ensures IsLowerHex(z + s)
    ensures HexValue(z + s) == HexValue(s)
    decreases |s|
  {
    if s == [] {
      assert z + s == z;
      ZerosValue(z);
    } else {
      var n := |s| - 1;
      assert (z + s)[..|z + s| - 1] == z + s[..n];
      HexValueLeadingZeros(z, s[..n]);
    }
  }

  lemma {:induction false} ZerosValue(z: string)
    requires forall i :: 0 <= i < |z| ==> z[i] == '0'
    ensures IsLowerHex(z) && HexValue(z) == 0
  {
    if z != [] {
      ZerosValue(z[..|z| - 1]);
    }
  }

  /** The value of eight digits, written out positionally. */
  lemma HexValue8(s: string)
    requires |s| == 8 && IsLowerHex(s)
    ensures HexValue(s) == DigitValue(s[0]) * 0x1000_0000 + DigitValue(s[1]) * 0x100_0000
      + DigitValue(s[2]) * 0x10_0000 + DigitValue(s[3]) * 0x1_0000 + DigitValue(s[4]) * 0x1000
      + DigitValue(s[5]) * 0x100 + DigitValue(s[6]) * 0x10 + DigitValue(s[7])
  {
    var hi := HexValue4(s[..4]);
    var lo := HexValue4(s[4..]);
    HexValueConcat(s[..4], s[4..]);
    assert s[..4] + s[4..] == s;
  }

  /** The value of four digits, written out positionally. */
  lemma HexValue4(s: string) returns (v: nat)
    requires |s| == 4 && IsLowerHex(s)
    ensures v == HexValue(s)
    ensures v == DigitValue(s[0]) * 0x1000 + DigitValue(s[1]) * 0x100 + DigitValue(s[2]) * 0x10 + DigitValue(s[3])
  {
    var e: string := [];
    var t1, t2, t3 := [s[0]], [s[0], s[1]], [s[0], s[1], s[2]];
    HexValueSnoc(e, s[0]);
    HexValueSnoc(t1, s[1]);
    HexValueSnoc(t2, s[2]);
    HexValueSnoc(t3, s[3]);
    assert e + [s[0]] == t1 && t1 + [s[1]] == t2 && t2 + [s[2]] == t3 && t3 + [s[3]] == s;
    assert HexValue(t1) == DigitValue(s[0]);
    assert HexValue(t2) == DigitValue(s[0]) * 0x10 + DigitValue(s[1]);
    assert HexValue(t3) == DigitValue(s[0]) * 0x100 + DigitValue(s[1]) * 0x10 + DigitValue(s[2]);
    v := HexValue(s);
  }

  /** Appending four digits shifts the value by four places. */
  lemma HexValueConcat(a: string, b: string)
    requires IsLowerHex(a) && IsLowerHex(b) && |b| == 4
    ensures IsLowerHex(a + b) && HexValue(a + b) == HexValue(a) * 0x1_0000 + HexValue(b)
  {
    var a1 := a + [b[0]];
    var a2 := a1 + [b[1]];
    var a3 := a2 + [b[2]];
    HexValueSnoc(a, b[0]);
    HexValueSnoc(a1, b[1]);
    HexValueSnoc(a2, b[2]);
    HexValueSnoc(a3, b[3]);
    assert a3 + [b[3]] == a + b;
    var v := HexValue4(b);
  }

  /** One more digit shifts the value by one place. */
  lemma HexValueSnoc(t: string, c: char)
    requires IsLowerHex(t) && IsLowerHexDigit(c)
    ensures IsLowerHex(t + [c]) && HexValue(t + [c]) == HexValue(t) * 16 + DigitValue(c)
  {
    assert (t + [c])[..|t|] == t;
  }

  /** n.toString(16): lowercase digits, no leading zero, "0" for zero. */
  function ToHexString(n: nat): (r: string)
    ensures IsLowerHex(r) && |r| >= 1
    ensures HexValue(r) == n
    ensures |r| > 1 ==> r[0] != '0'
    decreases n
  {
    if n < 16 then [Digit(n)]
    else
      var r := ToHexString(n / 16) + [Digit(n % 16)];
      assert r[..|r| - 1] == ToHexString(n / 16);
      r
  }

  /** A value below 16^k needs at most k digits. */
  lemma {:induction false} ToHexStringLength(n: nat, k: nat)
    requires 1 <= k && n < Pow16(k)
    ensures |ToHexString(n)| <= k
  {
    if n >= 16 {
      assert k >= 2;
      ToHexStringLength(n / 16, k - 1);
    }
  }

  /** String.prototype.padStart(n, c). */
  function PadStart(s: string, n: nat, c: char): (r: string)
    ensures |r| == if |s| >= n then |s| else n
    ensures r[|r| - |s|..] == s
    ensures forall i :: 0 <= i < |r| - |s| ==> r[i] == c
  {
    if |s| >= n then s else seq(n - |s|, _ => c) + s
  }

  /** '0x' + w.toString(16).padStart(8, '0'): ten characters whose last eight are
      lowercase digits denoting w. */
  function HexWord(w: u32): (r: string)
    ensures |r| == 10 && r[0] == '0' && r[1] == 'x'
    ensures IsLowerHex(r[2..]) && HexValue(r[2..]) == w
  {
    var digits := ToHexString(w);
    assert Pow16(8) == 0x1_0000_0000;
    ToHexStringLength(w, 8);
    var padded := PadStart(digits, 8, '0');
    var zeros := padded[..8 - |digits|];
    assert padded == zeros + digits;
    HexValueLeadingZeros(zeros, digits);
    var r := "0x" + padded;
    assert r[2..] == padded;
    r
  }

  /** A ten-character "0x"-prefixed lowercase word string is the rendering of its value:
      the rendering is canonical, so word strings are equal exactly when their words are. */
  lemma HexWordCanonical(s: string)
    requires |s| == 10 && s[0] == '0' && s[1] == 'x' && IsLowerHex(s[2..])
    ensures HexValue(s[2..]) < 0x1_0000_0000
    ensures HexWord(HexValue(s[2..])) == s
  {
    var d := s[2..];
    HexValueBound(d);
    Pow16Eight();
    var r := HexWord(HexValue(d));
    HexValueInjective(r[2..], d);
    forall i | 0 <= i < 10
      ensures r[i] == s[i]
    {
      if i >= 2 {
        assert r[i] == r[2..][i - 2] && s[i] == d[i - 2];
      }
    }
  }

  lemma Pow16Eight()
    ensures Pow16(8) == 0x1_0000_0000
  {
  }

  /** The circuit's reading of a word string: the inverse of HexWord. */
  function ParseWord(s: string): (r: Option<u32>)
    ensures r.Some? ==> HexWord(r.value) == s
  {
    if |s| == 10 && s[0] == '0' && s[1] == 'x' && IsLowerHex(s[2..]) then
      HexWordCanonical(s);
      Some(HexValue(s[2..]))
    else None
  }

  /** Each word rendered as a word string, in order. */
  function RenderWords(words: seq<u32>): (r: seq<string>)
    ensures |r| == |words|
    ensures forall i :: 0 <= i < |words| ==> r[i] == HexWord(words[i])
  {
    seq(|words|, i requires 0 <= i < |words| => HexWord(words[i]))
  }

  /** Rendering commutes with taking the first word off. */
  lemma RenderWordsCons(words: seq<u32>)
    requires |words| > 0
    ensures RenderWords(words) == [HexWord(words[0])] + RenderWords(words[1..])
  {
  }

  /** Rendering commutes with taking a run of words. */
  lemma RenderWordsSlice(words: seq<u32>, i: nat, j: nat)
    requires i <= j <= |words|
    ensures RenderWords(words)[i..j] == RenderWords(words[i..j])
  {
  }

  /** Every string read as a word, or None if any is not a word string. */
  function ParseWords(ss: seq<string>): (r: Option<seq<u32>>)
    ensures r.Some? ==> RenderWords(r.value) == ss
  {
    if ss == [] then Some([])
    else
      var first := ParseWord(ss[0]);
      var rest := ParseWords(ss[1..]);
      if first.Some? && rest.Some? then
        var words := [first.value] + rest.value;
        assert words[0] == first.value && words[1..] == rest.value;
        RenderWordsCons(words);
        ConsSplit(ss);
        Some(words)
      else None
  }

  /** Reading rendered words gives the words back, so rendering is injective. */
  lemma {:induction false} ParseRenderWords(words: seq<u32>)
    ensures ParseWords(RenderWords(words)) == Some(words)
  {
    if words != [] {
      var ss := RenderWords(words);
      RenderWordsCons(words);
      assert ss[0] == HexWord(words[0]) && ss[1..] == RenderWords(words[1..]);
      ParseRenderWords(words[1..]);
      HexWordCanonical(ss[0]);
      ConsSplit(words);
    }
  }

  lemma RenderWordsInjective(a: seq<u32>, b: seq<u32>)
    ensures RenderWords(a) == RenderWords(b) <==> a == b
  {
    ParseRenderWords(a);
    ParseRenderWords(b);
  }

  /** digest('hex'): two lowercase digits per byte, high nibble first. */
  function HexEncode(bytes: seq<byte>): (r: string)
    ensures |r| == 2 * |bytes|
  {
    if bytes == [] then "" else EncodeByte(bytes[0]) + HexEncode(bytes[1..])
  }

  function EncodeByte(b: byte): string {
    [Digit(b / 16), Digit(b % 16)]
  }

  /** The byte two hex digits (either case) denote, or None. */
  function DecodeByte(hi: char, lo: char): (r: Option<byte>)
  {
    var h, l := NibbleOf(hi), NibbleOf(lo);
    if h.Some? && l.Some? then Some(h.value * 16 + l.value) else None
  }

  /** Buffer.from(s, 'hex'): decodes pairs of digits from the front and stops at the
      first pair that is not two hex digits; an odd last digit is dropped. */
  function HexDecode(s: string): (r: seq<byte>)
    ensures 2 * |r| <= |s|
    ensures forall k :: 0 <= k < |r| ==> DecodeByte(s[2 * k], s[2 * k + 1]) == Some(r[k])
    ensures 2 * |r| + 1 < |s| ==> DecodeByte(s[2 * |r|], s[2 * |r| + 1]).None?
    decreases |s|
  {
    if |s| < 2 then []
    else
      var b := DecodeByte(s[0], s[1]);
      if b.None? then []
      else
        var rest := HexDecode(s[2..]);
        DecodedPairs(s, b.value, rest);
        [b.value] + rest
  }

  /** A valid leading pair in front of the decoding of the remaining text: every byte is
      still its pair, and the first pair not decoded is still invalid. */
  lemma DecodedPairs(s: string, b: byte, rest: seq<byte>)
    requires |s| >= 2 && DecodeByte(s[0], s[1]) == Some(b)
    requires var t := s[2..];
      && 2 * |rest| <= |t|
      && (forall k :: 0 <= k < |rest| ==> DecodeByte(t[2 * k], t[2 * k + 1]) == Some(rest[k]))
      && (2 * |rest| + 1 < |t| ==> DecodeByte(t[2 * |rest|], t[2 * |rest| + 1]).None?)
    ensures var r := [b] + rest;
      && 2 * |r| <= |s|
      && (forall k :: 0 <= k < |r| ==> DecodeByte(s[2 * k], s[2 * k + 1]) == Some(r[k]))
      && (2 * |r| + 1 < |s| ==> DecodeByte(s[2 * |r|], s[2 * |r| + 1]).None?)
  {
    var t := s[2..];
    var r := [b] + rest;
    forall k | 1 <= k < |r|
      ensures DecodeByte(s[2 * k], s[2 * k + 1]) == Some(r[k])
    {
      assert r[k] == rest[k - 1];
      assert s[2 * k] == t[2 * (k - 1)] && s[2 * k + 1] == t[2 * (k - 1) + 1];
    }
    if 2 * |r| + 1 < |s| {
      assert s[2 * |r|] == t[2 * |rest|] && s[2 * |r| + 1] == t[2 * |rest| + 1];
    }
  }

  lemma DecodeEncodeByte(b: byte)
    ensures DecodeByte(EncodeByte(b)[0], EncodeByte(b)[1]) == Some(b)
  {
    NibbleOfDigit(b / 16);
    NibbleOfDigit(b % 16);
  }

  lemma NibbleOfDigit(d: nat)
    requires d < 16
    ensures NibbleOf(Digit(d)) == Some(d)
  {
    assert IsLowerHexDigit(Digit(d));
    assert DigitValue(Digit(d)) == d;
  }

  /** Decoding hex text that starts with an encoding reads that encoding back first. */
  lemma {:induction false} HexDecodeEncode(bytes: seq<byte>, rest: string)
    ensures HexDecode(HexEncode(bytes) + rest) == bytes + HexDecode(rest)
  {
    if bytes == [] {
      assert HexEncode(bytes) + rest == rest;
    } else {
      var b, d := bytes[0], HexDecode(rest);
      var tail := HexEncode(bytes[1..]) + rest;
      assert HexEncode(bytes) + rest == EncodeByte(b) + tail;
      DecodeEncodeByte(b);
      HexDecodeCons(EncodeByte(b), tail);
      HexDecodeEncode(bytes[1..], rest);
      ConsSplit(bytes);
      ConsAssoc(b, bytes[1..], d);
    }
  }

  /** A valid leading pair decodes to its byte, followed by the decoding of the rest. */
  lemma HexDecodeCons(pair: string, tail: string)
    requires |pair| == 2 && DecodeByte(pair[0], pair[1]).Some?
    ensures HexDecode(pair + tail) == [DecodeByte(pair[0], pair[1]).value] + HexDecode(tail)
  {
    var s := pair + tail;
    assert s[0] == pair[0] && s[1] == pair[1] && s[2..] == tail;
  }

  lemma HexRoundTrip(bytes: seq<byte>)
    ensures HexDecode(HexEncode(bytes)) == bytes
  {
    HexDecodeEncode(bytes, "");
    assert HexEncode(bytes) + "" == HexEncode(bytes);
  }
}
