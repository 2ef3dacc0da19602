/** The transport encoding of file contents: standard base64 with padding, section 4
    of RFC 4648, with the decoding rules of Go's `base64.StdEncoding.DecodeString`
    (carriage returns and line feeds are skipped, padding may only end the text,
    and the unused low bits of the last symbol are not checked). */
module Base64 {
  import opened Common

  /** The padding character '='. */
  const Pad: bv8 := 61
  const CR: bv8 := 13
  const LF: bv8 := 10

  /** Is `c` one of the 64 characters of the standard alphabet A-Z a-z 0-9 + / ? */
  predicate IsSymbol(c: bv8) {
    (65 <= c <= 90) || (97 <= c <= 122) || (48 <= c <= 57) || c == 43 || c == 47
  }

  /** The character that stands for the 6-bit value `v`. */
  function Symbol(v: bv8): (c: bv8)
    requires v < 64
    ensures IsSymbol(c)
  {
    if v < 26 then v + 65
    else if v < 52 then v - 26 + 97
    else if v < 62 then v - 52 + 48
    else if v == 62 then 43
    else 47
  }

  /** The 6-bit value a character of the alphabet stands for. */
  function ValueOf(c: bv8): (v: bv8)
    requires IsSymbol(c)
    ensures v < 64
  {
    if 65 <= c <= 90 then c - 65
    else if 97 <= c <= 122 then c - 97 + 26
    else if 48 <= c <= 57 then c - 48 + 52
    else if c == 43 then 62
    else 63
  }

  lemma ValueOfSymbol(v: bv8)
    requires v < 64
    ensures ValueOf(Symbol(v)) == v
  {
  }

  /** Three bytes as four characters. */
  function Quad(b0: bv8, b1: bv8, b2: bv8): (q: Bytes)
    ensures |q| == 4 && forall i :: 0 <= i < 4 ==> IsSymbol(q[i])
  {
    [Symbol(b0 >> 2), Symbol(((b0 & 3) << 4) | (b1 >> 4)), Symbol(((b1 & 15) << 2) | (b2 >> 6)), Symbol(b2 & 63)]
  }

  /** Go's `EncodeToString`: full quanta first, then a padded final quantum. */
  function Encode(data: Bytes): (text: Bytes)
    ensures |text| == 4 * ((|data| + 2) / 3)
    decreases |data|
  {
    if |data| == 0 then []
    else if |data| == 1 then
      [Symbol(data[0] >> 2), Symbol((data[0] & 3) << 4), Pad, Pad]
    else if |data| == 2 then
      [Symbol(data[0] >> 2), Symbol(((data[0] & 3) << 4) | (data[1] >> 4)), Symbol((data[1] & 15) << 2), Pad]
    else
      Quad(data[0], data[1], data[2]) + Encode(data[3..])
  }

  /** Encoded text holds only symbols of the alphabet and padding. */
  lemma {:induction false} EncodeAlphabet(data: Bytes)
    ensures forall i :: 0 <= i < |Encode(data)| ==> IsSymbol(Encode(data)[i]) || Encode(data)[i] == Pad
    decreases |data|
  {
    if |data| >= 3 {
      EncodeAlphabet(data[3..]);
      var q, rest := Quad(data[0], data[1], data[2]), Encode(data[3..]);
      assert Encode(data) == q + rest;
      forall i | 0 <= i < |q + rest| ensures IsSymbol((q + rest)[i]) || (q + rest)[i] == Pad {
        if i >= 4 { assert (q + rest)[i] == rest[i - 4]; }
      }
    }
  }

  /** The text with every carriage return and line feed removed. */
  function Unwrap(text: Bytes): (s: Bytes)
    ensures |s| <= |text|
    ensures forall i :: 0 <= i < |s| ==> s[i] != CR && s[i] != LF
    ensures |text| == 1 ==> s == if text[0] == CR || text[0] == LF then [] else text
    decreases |text|
  {
    if text == [] then []
    else if text[0] == CR || text[0] == LF then Unwrap(text[1..])
    else [text[0]] + Unwrap(text[1..])
  }

  /** Four symbols back to three bytes. */
  function Triple(c0: bv8, c1: bv8, c2: bv8, c3: bv8): Bytes
    requires IsSymbol(c0) && IsSymbol(c1) && IsSymbol(c2) && IsSymbol(c3)
  {
    var v0, v1, v2, v3 := ValueOf(c0), ValueOf(c1), ValueOf(c2), ValueOf(c3);
    [(v0 << 2) | (v1 >> 4), ((v1 & 15) << 4) | (v2 >> 2), ((v2 & 3) << 6) | v3]
  }

  /** The last quantum: four symbols, or two symbols and "==", or three symbols and "=". */
  function DecodeLast(c0: bv8, c1: bv8, c2: bv8, c3: bv8): Option<Bytes> {
    if !IsSymbol(c0) || !IsSymbol(c1) then None
    else if IsSymbol(c2) && IsSymbol(c3) then Some(Triple(c0, c1, c2, c3))
    else if c2 == Pad && c3 == Pad then
      Some([(ValueOf(c0) << 2) | (ValueOf(c1) >> 4)])
    else if IsSymbol(c2) && c3 == Pad then
      Some([(ValueOf(c0) << 2) | (ValueOf(c1) >> 4), ((ValueOf(c1) & 15) << 4) | (ValueOf(c2) >> 2)])
    else None
  }

  /** Decodes text already stripped of line breaks, one quantum of four at a time. */
  function DecodeQuanta(s: Bytes): Option<Bytes>
    decreases |s|
  {
    if |s| == 0 then Some([])
    else if |s| < 4 then None
    else if |s| == 4 then DecodeLast(s[0], s[1], s[2], s[3])
    else if IsSymbol(s[0]) && IsSymbol(s[1]) && IsSymbol(s[2]) && IsSymbol(s[3]) then
      match DecodeQuanta(s[4..])
      case Some(rest) => Some(Triple(s[0], s[1], s[2], s[3]) + rest)
      case None => None
    else None
  }

  /** Go's `DecodeString`; `None` is its `CorruptInputError`. */
  function Decode(text: Bytes): (r: Option<Bytes>)
    ensures |Unwrap(text)| % 4 != 0 ==> r.None?
    ensures (exists i :: 0 <= i < |Unwrap(text)| && !IsSymbol(Unwrap(text)[i]) && Unwrap(text)[i] != Pad) ==> r.None?
  {
    var s := Unwrap(text);
    if |s| % 4 != 0 then
      DecodeRejectsPartialQuantum(s);
      DecodeQuanta(s)
    else if exists i :: 0 <= i < |s| && !IsSymbol(s[i]) && s[i] != Pad then
      var i :| 0 <= i < |s| && !IsSymbol(s[i]) && s[i] != Pad;
      DecodeRejectsForeign(s, i);
      DecodeQuanta(s)
    else
      DecodeQuanta(s)
  }

  lemma TripleOfQuad(b0: bv8, b1: bv8, b2: bv8)
    ensures var q := Quad(b0, b1, b2); Triple(q[0], q[1], q[2], q[3]) == [b0, b1, b2]
  {
    ValueOfSymbol(b0 >> 2);
    ValueOfSymbol(((b0 & 3) << 4) | (b1 >> 4));
    ValueOfSymbol(((b1 & 15) << 2) | (b2 >> 6));
    ValueOfSymbol(b2 & 63);
  }

  /** Line breaks are dropped independently of where the text is split. */
  lemma {:induction false} UnwrapAppend(a: Bytes, b: Bytes)
    ensures Unwrap(a + b) == Unwrap(a) + Unwrap(b)
    decreases |a|
  {
    if a != [] {
      assert (a + b)[1..] == a[1..] + b;
      UnwrapAppend(a[1..], b);
    } else {
      assert a + b == b;
    }
  }

  lemma {:induction false} UnwrapClean(text: Bytes)
    requires forall i :: 0 <= i < |text| ==> text[i] != CR && text[i] != LF
    ensures Unwrap(text) == text
    decreases |text|
  {
    if text != [] {
      UnwrapClean(text[1..]);
    }
  }

  /** The final quantum of one byte, two symbols and "==", decodes to that byte. */
  lemma LastOfOne(b0: bv8)
    ensures DecodeLast(Symbol(b0 >> 2), Symbol((b0 & 3) << 4), Pad, Pad) == Some([b0])
  {
    ValueOfSymbol(b0 >> 2);
    ValueOfSymbol((b0 & 3) << 4);
  }

  /** The final quantum of two bytes, three symbols and "=", decodes to those bytes. */
  lemma LastOfTwo(b0: bv8, b1: bv8)
    ensures DecodeLast(Symbol(b0 >> 2), Symbol(((b0 & 3) << 4) | (b1 >> 4)), Symbol((b1 & 15) << 2), Pad) == Some([b0, b1])
  {
    ValueOfSymbol(b0 >> 2);
    ValueOfSymbol(((b0 & 3) << 4) | (b1 >> 4));
    ValueOfSymbol((b1 & 15) << 2);
  }

  /** A full quantum in front of decodable text decodes to its three bytes in front. */
  lemma QuantumThenRest(q: Bytes, rest: Bytes, head: Bytes, tail: Bytes)
    requires |q| == 4 && IsSymbol(q[0]) && IsSymbol(q[1]) && IsSymbol(q[2]) && IsSymbol(q[3])
    requires Triple(q[0], q[1], q[2], q[3]) == head
    requires |rest| > 0 && DecodeQuanta(rest) == Some(tail)
    ensures DecodeQuanta(q + rest) == Some(head + tail)
  {
    assert (q + rest)[4..] == rest;
  }

  /** Decoding text free of line breaks undoes encoding. */
  lemma {:induction false} DecodeQuantaEncode(data: Bytes)
    ensures DecodeQuanta(Encode(data)) == Some(data)
    decreases |data|
  {
    if |data| == 1 {
      LastOfOne(data[0]);
      assert data == [data[0]];
    } else if |data| == 2 {
      LastOfTwo(data[0], data[1]);
      assert data == [data[0], data[1]];
    } else if |data| >= 3 {
      var q := Quad(data[0], data[1], data[2]);
      TripleOfQuad(data[0], data[1], data[2]);
      if |data| == 3 {
        assert Encode(data) == q;
        assert data == [data[0], data[1], data[2]];
      } else {
        var rest := Encode(data[3..]);
        assert Encode(data) == q + rest;
        DecodeQuantaEncode(data[3..]);
        QuantumThenRest(q, rest, data[..3], data[3..]);
        assert data == data[..3] + data[3..];
      }
    }
  }

  /** The transport round trip: whatever a peer encodes, the receiving peer decodes
      back to the same bytes. */
  lemma DecodeEncode(data: Bytes)
    ensures Decode(Encode(data)) == Some(data)
  {
    var text := Encode(data);
    EncodeAlphabet(data);
    assert forall i :: 0 <= i < |text| ==> text[i] != CR && text[i] != LF by {
      forall i | 0 <= i < |text| ensures text[i] != CR && text[i] != LF {
        assert IsSymbol(text[i]) || text[i] == Pad;
      }
    }
    UnwrapClean(text);
    DecodeQuantaEncode(data);
  }

  /** Text whose length without line breaks is not a multiple of four is rejected. */
  lemma {:induction false} DecodeRejectsPartialQuantum(s: Bytes)
    requires |s| % 4 != 0
    ensures DecodeQuanta(s) == None
    decreases |s|
  {
    if |s| > 4 {
      DecodeRejectsPartialQuantum(s[4..]);
    }
  }

  /** Padding anywhere but in the final quantum is rejected. */
  lemma {:induction false} DecodeRejectsInnerPadding(s: Bytes, i: nat)
    requires i < |s| - 4 && s[i] == Pad
    ensures DecodeQuanta(s) == None
    decreases |s|
  {
    if i >= 4 {
      DecodeRejectsInnerPadding(s[4..], i - 4);
    }
  }

  /** A character outside the alphabet, other than padding and line breaks, is rejected. */
  lemma {:induction false} DecodeRejectsForeign(s: Bytes, i: nat)
    requires i < |s| && !IsSymbol(s[i]) && s[i] != Pad
    ensures DecodeQuanta(s) == None
    decreases |s|
  {
    if i >= 4 && |s| > 4 {
      DecodeRejectsForeign(s[4..], i - 4);
    }
  }
}
