/**
 * The codec of utf8util.cpp: `utf8_to_codepoints` (decode every well-formed
 * codepoint, drop malformed bytes one at a time) and `codepoints_to_utf8`
 * (emit each codepoint's UTF-8 form, nothing for values above U+10FFFF).
 */
module Utf8Codec {
  import opened Utf8Decoder
  import opened Utf8Scanner
  import opened Utf8Width

  // ---------------------------------------------------------------------
  // utf8_to_codepoints
  // ---------------------------------------------------------------------

  /** The codepoints the decoding scan appends from offset `p` on. */
  function DecodeFrom(s: Bytes, p: nat): seq<CodePoint>
    decreases |s| - p
  {
    if p >= |s| then []
    else if ValidAt(s, p) then [DecodeAt(s, p)] + DecodeFrom(s, p + CodepointByteCount(s, p))
    else DecodeFrom(s, p + 1)
  }

  function Decoded(s: Bytes): seq<CodePoint>
  {
    DecodeFrom(s, 0)
  }

  method Utf8ToCodepoints(s: Bytes) returns (result: seq<CodePoint>)
    ensures result == Decoded(s)
  {
    result := [];
    var p := 0;
    while p < |s|
      invariant p <= |s|
      invariant result + DecodeFrom(s, p) == DecodeFrom(s, 0)
      decreases |s| - p
    {
      var valid := IsValidCodepointAt(s, p);
      if valid {
        var c := GetCodepointAt(s, p);
        result := result + [c];
        p := p + CodepointByteCount(s, p);
      } else {
        p := p + 1;
      }
    }
  }

  // ---------------------------------------------------------------------
  // codepoints_to_utf8
  // ---------------------------------------------------------------------

  /** The bytes emitted for `cs`, codepoint by codepoint. */
  function Encoded(cs: seq<CodePoint>): Bytes
  {
    if cs == [] then [] else EncodeCodepoint(cs[0]) + Encoded(cs[1..])
  }

  lemma {:induction false} EncodedSnoc(cs: seq<CodePoint>, c: CodePoint)
    ensures Encoded(cs + [c]) == Encoded(cs) + EncodeCodepoint(c)
  {
    if cs == [] {
      assert [] + [c] == [c];
      assert [c][1..] == [];
    } else {
      assert (cs + [c])[1..] == cs[1..] + [c];
      EncodedSnoc(cs[1..], c);
    }
  }

  method CodepointsToUtf8(codepoints: seq<CodePoint>) returns (out: Bytes)
    ensures out == Encoded(codepoints)
  {
    out := [];
    for i := 0 to |codepoints|
      invariant out == Encoded(codepoints[..i])
    {
      var c := codepoints[i];
      var emitted: Bytes := [];
      if c <= 0x7F {
        emitted := [c as Byte];
        assert emitted == [LeadByte(c, 1)];
        assert emitted == EncodeCodepoint(c);
      } else if c <= 0x7FF {
        emitted := [(0xC0 | (c >> 6)) as Byte, (0x80 | (c & 0x3F)) as Byte];
        assert emitted == [LeadByte(c, 2), ContByte(c, 0)];
        assert emitted == EncodeCodepoint(c);
      } else if c <= 0xFFFF {
        emitted := [(0xE0 | (c >> 12)) as Byte, (0x80 | ((c >> 6) & 0x3F)) as Byte, (0x80 | (c & 0x3F)) as Byte];
        assert emitted == [LeadByte(c, 3), ContByte(c, 6), ContByte(c, 0)];
        assert emitted == EncodeCodepoint(c);
      } else if c <= 0x10FFFF {
        emitted := [(0xF0 | (c >> 18)) as Byte, (0x80 | ((c >> 12) & 0x3F)) as Byte,
                    (0x80 | ((c >> 6) & 0x3F)) as Byte, (0x80 | (c & 0x3F)) as Byte];
        assert emitted == [LeadByte(c, 4), ContByte(c, 12), ContByte(c, 6), ContByte(c, 0)];
        assert emitted == EncodeCodepoint(c);
      } else {
        assert emitted == EncodeCodepoint(c);
      }
      out := out + emitted;
      assert codepoints[..i + 1] == codepoints[..i] + [c];
      EncodedSnoc(codepoints[..i], c);
    }
    assert codepoints[..|codepoints|] == codepoints;
  }

  // ---------------------------------------------------------------------
  // Properties
  // ---------------------------------------------------------------------

  /** The codepoints the encoder does not drop: those up to U+10FFFF. */
  function InRange(cs: seq<CodePoint>): (r: seq<CodePoint>)
    ensures forall i | 0 <= i < |r| :: r[i] <= 0x10FFFF
    ensures AllInRange(cs) ==> r == cs
  {
    if cs == [] then []
    else if cs[0] <= 0x10FFFF then [cs[0]] + InRange(cs[1..])
    else InRange(cs[1..])
  }

  /** Values above U+10FFFF contribute no bytes at all. */
  lemma {:induction false} EncodedDropsOutOfRange(cs: seq<CodePoint>)
    ensures Encoded(cs) == Encoded(InRange(cs))
  {
    if cs != [] {
      EncodedDropsOutOfRange(cs[1..]);
      if cs[0] <= 0x10FFFF {
        assert ([cs[0]] + InRange(cs[1..]))[1..] == InRange(cs[1..]);
      }
    }
  }

  /** Prepending `a` does not change what the decoding scan produces from `b`. */
  lemma {:induction false} DecodeFromSuffix(a: Bytes, b: Bytes, p: nat)
    ensures DecodeFrom(a + b, |a| + p) == DecodeFrom(b, p)
    decreases |b| - p
  {
    DecodeAtSuffix(a, b, p);
    if p < |b| {
      if ValidAt(b, p) {
        DecodeFromSuffix(a, b, p + CodepointByteCount(b, p));
      } else {
        DecodeFromSuffix(a, b, p + 1);
      }
    }
  }

  /** At a well-formed codepoint the decoding scan emits its value and moves on to the offset `q` after it. */
  lemma DecodeStep(s: Bytes, p: nat, q: nat)
    requires ValidAt(s, p) && q == p + CodepointByteCount(s, p)
    ensures DecodeFrom(s, p) == [DecodeAt(s, p)] + DecodeFrom(s, q)
  {
  }

  /** Decoding a valid `a` followed by `b` decodes `a`, then `b`. */
  lemma {:induction false} DecodeConcat(a: Bytes, b: Bytes, p: nat)
    requires p <= |a| && ValidFrom(a, p)
    ensures DecodeFrom(a + b, p) == DecodeFrom(a, p) + DecodeFrom(b, 0)
    decreases |a| - p
  {
    if p == |a| {
      DecodeFromSuffix(a, b, 0);
    } else {
      var q := p + CodepointByteCount(a, p);
      DecodeAtPrefix(a, b, p);
      DecodeStep(a, p, q);
      DecodeStep(a + b, p, q);
      DecodeConcat(a, b, q);
    }
  }

  /**
   * Encoding then decoding gives back the in-range codepoints, and the
   * encoder's output is always valid UTF-8.
   */
  lemma {:induction false} DecodeEncoded(cs: seq<CodePoint>)
    ensures ValidUtf8(Encoded(cs))
    ensures Decoded(Encoded(cs)) == InRange(cs)
  {
    if cs != [] {
      DecodeEncoded(cs[1..]);
      var e := EncodeCodepoint(cs[0]);
      var rest := Encoded(cs[1..]);
      if cs[0] <= 0x10FFFF {
        DecodeEncodeCodepoint(cs[0]);
        assert ValidFrom(e, 0) by {
          assert ValidFrom(e, |e|);
        }
        assert DecodeFrom(e, 0) == [cs[0]] by {
          assert DecodeFrom(e, |e|) == [];
        }
        ScanConcat(e, rest, _ => 0, 0);
        DecodeConcat(e, rest, 0);
      } else {
        assert e == [];
        assert e + rest == rest;
      }
    }
  }

  /** The round trip of the source's re-encode test: in-range codepoints survive encoding and decoding. */
  lemma RoundTrip(cs: seq<CodePoint>)
    requires AllInRange(cs)
    ensures Decoded(Encoded(cs)) == cs
    ensures ValidUtf8(Encoded(cs))
    ensures CountFrom(Encoded(cs), 0) == |cs|
  {
    DecodeEncoded(cs);
    CountIsDecodedLength(Encoded(cs), 0);
  }

  /**
   * Both scans move through a valid sequence one whole codepoint at a time,
   * so on valid input the codepoint count is the number of decoded codepoints.
   */
  lemma {:induction false} CountIsDecodedLength(s: Bytes, p: nat)
    requires ValidFrom(s, p)
    ensures CountFrom(s, p) == |DecodeFrom(s, p)|
    decreases |s| - p
  {
    if p < |s| {
      CountIsDecodedLength(s, p + CodepointByteCount(s, p));
    }
  }

  /** Codepoint counts and decoded codepoints of valid sequences add up over concatenation. */
  lemma ConcatValid(a: Bytes, b: Bytes)
    requires ValidUtf8(a) && ValidUtf8(b)
    ensures ValidUtf8(a + b)
    ensures CountFrom(a + b, 0) == CountFrom(a, 0) + CountFrom(b, 0)
    ensures Decoded(a + b) == Decoded(a) + Decoded(b)
    ensures CountFrom(a + b, 0) == |Decoded(a + b)|
  {
    ScanConcat(a, b, _ => 0, 0);
    DecodeConcat(a, b, 0);
    CountIsDecodedLength(a + b, 0);
  }

  // ---------------------------------------------------------------------
  // Offsets in the encoder's output
  // ---------------------------------------------------------------------

  /** Encoding distributes over concatenation. */
  lemma {:induction false} EncodedAppend(xs: seq<CodePoint>, ys: seq<CodePoint>)
    ensures Encoded(xs + ys) == Encoded(xs) + Encoded(ys)
  {
    if xs == [] {
      assert xs + ys == ys;
    } else {
      assert (xs + ys)[1..] == xs[1..] + ys;
      EncodedAppend(xs[1..], ys);
    }
  }

  /** The offset at which the encoding of `cs[j]` begins in `Encoded(cs)`. */
  function EncodedOffset(cs: seq<CodePoint>, j: nat): nat
    requires j <= |cs|
  {
    |Encoded(cs[..j])|
  }

  predicate AllInRange(cs: seq<CodePoint>)
  {
    forall i | 0 <= i < |cs| :: cs[i] <= 0x10FFFF
  }

  lemma EncodedSplit(cs: seq<CodePoint>, j: nat)
    requires j < |cs|
    ensures Encoded(cs) == Encoded(cs[..j]) + (EncodeCodepoint(cs[j]) + Encoded(cs[j + 1..]))
    ensures EncodedOffset(cs, j + 1) == EncodedOffset(cs, j) + |EncodeCodepoint(cs[j])|
  {
    assert cs == cs[..j] + ([cs[j]] + cs[j + 1..]);
    EncodedAppend(cs[..j], [cs[j]] + cs[j + 1..]);
    assert ([cs[j]] + cs[j + 1..])[1..] == cs[j + 1..];
    assert cs[..j + 1] == cs[..j] + [cs[j]];
    EncodedSnoc(cs[..j], cs[j]);
  }

  lemma EncodedOffsetZero(cs: seq<CodePoint>, j: nat)
    requires AllInRange(cs) && j <= |cs|
    ensures EncodedOffset(cs, j) == 0 <==> j == 0
  {
    if j > 0 {
      assert cs[..j][0] == cs[0];
      assert |EncodeCodepoint(cs[0])| > 0;
    }
  }

  /**
   * In the encoding of in-range codepoints, a well-formed codepoint starts at
   * the offset of each `cs[j]`, spans exactly its encoding and decodes to it;
   * only the first of them is at offset 0.
   */
  lemma EncodedAt(cs: seq<CodePoint>, j: nat)
    requires AllInRange(cs) && j < |cs|
    ensures var s, p := Encoded(cs), EncodedOffset(cs, j);
      && ValidAt(s, p)
      && DecodeAt(s, p) == cs[j]
      && p + CodepointByteCount(s, p) == EncodedOffset(cs, j + 1)
      && (p == 0 <==> j == 0)
  {
    var a, e, rest := Encoded(cs[..j]), EncodeCodepoint(cs[j]), Encoded(cs[j + 1..]);
    EncodedSplit(cs, j);
    EncodedOffsetZero(cs, j);
    DecodeEncodeCodepoint(cs[j]);
    DecodeAtPrefix(e, rest, 0);
    DecodeAtSuffix(a, e + rest, 0);
  }

  /** The bytes between the offsets of `cs[i]` and `cs[j]` are the encoding of `cs[i..j]`. */
  lemma EncodedSlice(cs: seq<CodePoint>, i: nat, j: nat)
    requires i <= j <= |cs|
    ensures EncodedOffset(cs, i) <= EncodedOffset(cs, j) <= |Encoded(cs)|
    ensures Encoded(cs)[EncodedOffset(cs, i)..EncodedOffset(cs, j)] == Encoded(cs[i..j])
  {
    assert cs == cs[..i] + cs[i..j] + cs[j..];
    EncodedAppend(cs[..i] + cs[i..j], cs[j..]);
    EncodedAppend(cs[..i], cs[i..j]);
    assert cs[..j] == cs[..i] + cs[i..j];
  }

  /** Every in-range codepoint takes at least one byte and at most four. */
  lemma {:induction false} EncodedLength(cs: seq<CodePoint>)
    requires AllInRange(cs)
    ensures |cs| <= |Encoded(cs)| <= 4 * |cs|
  {
    if cs != [] {
      assert AllInRange(cs[1..]) by {
        forall i | 0 <= i < |cs[1..]| ensures cs[1..][i] <= 0x10FFFF {
          assert cs[1..][i] == cs[i + 1];
        }
      }
      EncodedLength(cs[1..]);
    }
  }

  /**
   * Counting and the width scan trust the lead byte alone while decoding
   * checks the whole codepoint: a lone lead byte counts as one codepoint and
   * adds the width of U+FFFD, but decodes to nothing.
   */
  lemma TruncatedLeadCounted(wcwidth: CodePoint -> int)
    ensures CountFrom([0xC3], 0) == 1
    ensures WidthFrom([0xC3], wcwidth, 0) == CharWidth(REPLACEMENT_CHAR, wcwidth)
    ensures Decoded([0xC3]) == []
    ensures !ValidUtf8([0xC3])
  {
    var s: Bytes := [0xC3];
    assert CodepointByteCount(s, 0) == 2 && !ValidAt(s, 0);
    assert CountFrom(s, 0) == 1 + CountFrom(s, 2);
    assert WidthFrom(s, wcwidth, 0) == CharWidth(REPLACEMENT_CHAR, wcwidth) + WidthFrom(s, wcwidth, 2);
    assert DecodeFrom(s, 0) == DecodeFrom(s, 1);
  }
}
