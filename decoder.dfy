/**
 * The codepoint decoder of utf8util.cpp: byte classifiers, the expected
 * length of the codepoint at a byte offset, the structural validity check and
 * the assembly of the scalar value, together with the encoding of a single
 * codepoint that the codec layer uses.
 *
 * Bytes are `bv8` (the source reads `uint8_t`), codepoints are `bv32` (the
 * source's `char32_t`), so every mask, shift and addition below is the
 * source's own operation on values of the source's own width.
 *
 * The decoder is structural only: overlong forms, surrogates and lead bytes
 * F5..F7 are accepted, exactly as in the source (see the lemmas at the end).
 */
module Utf8Decoder {

  type Byte = bv8
  type Bytes = seq<Byte>
  type CodePoint = bv32

  const REPLACEMENT_CHAR: CodePoint := 0xFFFD

  // ---------------------------------------------------------------------
  // Byte classifiers (high-bit tests)
  // ---------------------------------------------------------------------

  /** 0xxxxxxx: a codepoint of one byte. */
  function IsOneByte(b: Byte): (r: bool)
    ensures r <==> b < 0x80
  {
    b & 0x80 == 0x00
  }

  /** 110xxxxx: the lead byte of a two-byte codepoint. */
  function IsTwoByteStart(b: Byte): (r: bool)
    ensures r <==> 0xC0 <= b < 0xE0
  {
    b & 0xE0 == 0xC0
  }

  /** 1110xxxx: the lead byte of a three-byte codepoint. */
  function IsThreeByteStart(b: Byte): (r: bool)
    ensures r <==> 0xE0 <= b < 0xF0
  {
    b & 0xF0 == 0xE0
  }

  /** 11110xxx: the lead byte of a four-byte codepoint. */
  function IsFourByteStart(b: Byte): (r: bool)
    ensures r <==> 0xF0 <= b < 0xF8
  {
    b & 0xF8 == 0xF0
  }

  /** 10xxxxxx: a continuation byte. */
  function IsContinuation(b: Byte): (r: bool)
    ensures r <==> 0x80 <= b < 0xC0
  {
    b & 0xC0 == 0x80
  }

  // ---------------------------------------------------------------------
  // Length of the codepoint at a byte offset
  // ---------------------------------------------------------------------

  /**
   * The number of bytes the lead byte at `p` announces, or 0 when `p` is at
   * or past the end or the byte there cannot start a codepoint (a
   * continuation byte or one of F8..FF). The continuation bytes are not
   * looked at.
   */
  function CodepointByteCount(s: Bytes, p: nat): (k: nat)
    ensures k <= 4
    ensures p >= |s| ==> k == 0
    ensures p < |s| ==> (k == 0 <==> 0x80 <= s[p] < 0xC0 || 0xF8 <= s[p])
    ensures p < |s| ==> (k == 1 <==> s[p] < 0x80)
    ensures p < |s| ==> (k == 2 <==> 0xC0 <= s[p] < 0xE0)
    ensures p < |s| ==> (k == 3 <==> 0xE0 <= s[p] < 0xF0)
    ensures p < |s| ==> (k == 4 <==> 0xF0 <= s[p] < 0xF8)
  {
    if p >= |s| then 0
    else
      var b := s[p];
      if IsOneByte(b) then 1
      else if IsTwoByteStart(b) then 2
      else if IsThreeByteStart(b) then 3
      else if IsFourByteStart(b) then 4
      else 0
  }

  /**
   * A well-formed codepoint starts at `p`: its lead byte announces a length k
   * in 1..4, all k bytes lie inside `s`, and each of the k - 1 bytes after the
   * lead byte is a continuation byte.
   */
  predicate ValidAt(s: Bytes, p: nat)
  {
    var k := CodepointByteCount(s, p);
    1 <= k && p + k <= |s| && forall i | p < i < p + k :: IsContinuation(s[i])
  }

  /** The structural check, scanning the continuation bytes one by one. */
  method IsValidCodepointAt(s: Bytes, p: nat) returns (ok: bool)
    ensures ok <==> ValidAt(s, p)
    ensures ok ==> p < |s| && 1 <= CodepointByteCount(s, p) && p + CodepointByteCount(s, p) <= |s|
    ensures ok ==> forall i | p < i < p + CodepointByteCount(s, p) :: 0x80 <= s[i] < 0xC0
  {
    if p >= |s| {
      return false;
    }
    var k := CodepointByteCount(s, p);
    if k == 0 || p + k > |s| {
      return false;
    }
    for i := p + 1 to p + k
      invariant forall j | p < j < i :: IsContinuation(s[j])
    {
      if !IsContinuation(s[i]) {
        return false;
      }
    }
    return true;
  }

  // ---------------------------------------------------------------------
  // Assembling the scalar value
  // ---------------------------------------------------------------------

  /** The payload bits of a lead byte for a codepoint of `k` bytes. */
  function LeadPayload(b: Byte, k: nat): CodePoint
  {
    if k == 1 then b as CodePoint
    else if k == 2 then (b & 0x1F) as CodePoint
    else if k == 3 then (b & 0x0F) as CodePoint
    else (b & 0x07) as CodePoint
  }

  /** One step of the decoding loop: shift the accumulator by 6 and add the payload of `b`. */
  function ShiftIn(acc: CodePoint, b: Byte): CodePoint
  {
    (acc << 6) + (b & 0x3F) as CodePoint
  }

  /**
   * The accumulator of the decoding loop once the lead byte at `p` and the
   * following n - 1 bytes of a `k`-byte codepoint have been consumed.
   */
  function Assemble(s: Bytes, p: nat, k: nat, n: nat): CodePoint
    requires 1 <= n && p + n <= |s|
    decreases n
  {
    if n == 1 then LeadPayload(s[p], k)
    else ShiftIn(Assemble(s, p, k, n - 1), s[p + n - 1])
  }

  /** The codepoint at `p`, or U+FFFD when no well-formed codepoint starts there. */
  function DecodeAt(s: Bytes, p: nat): CodePoint
  {
    if ValidAt(s, p) then
      var k := CodepointByteCount(s, p);
      Assemble(s, p, k, k)
    else REPLACEMENT_CHAR
  }

  /**
   * Decoding with the defensive fallback: U+FFFD when the announced length is
   * 0 or overruns `s`, or when one of the continuation bytes is not one.
   */
  method GetCodepointAt(s: Bytes, p: nat) returns (cp: CodePoint)
    ensures cp == DecodeAt(s, p)
    ensures !ValidAt(s, p) ==> cp == REPLACEMENT_CHAR
  {
    var k := CodepointByteCount(s, p);
    if k == 0 || p + k > |s| {
      return REPLACEMENT_CHAR;
    }
    var b := s[p];
    if k == 1 {
      cp := b as CodePoint;
    } else if k == 2 {
      cp := (b & 0x1F) as CodePoint;
    } else if k == 3 {
      cp := (b & 0x0F) as CodePoint;
    } else {
      cp := (b & 0x07) as CodePoint;
    }
    for i := 1 to k
      invariant cp == Assemble(s, p, k, i)
      invariant forall j | p < j < p + i :: IsContinuation(s[j])
    {
      if !IsContinuation(s[p + i]) {
        return REPLACEMENT_CHAR;
      }
      cp := cp << 6;
      cp := cp + (s[p + i] & 0x3F) as CodePoint;
    }
  }

  /**
   * A well-formed k-byte codepoint decodes to a value below 2^7, 2^11, 2^16
   * or 2^21 for k = 1, 2, 3, 4; with the structural check alone nothing
   * tighter holds.
   */
  lemma DecodedRange(s: Bytes, p: nat)
    requires ValidAt(s, p)
    ensures CodepointByteCount(s, p) == 1 ==> DecodeAt(s, p) < 0x80
    ensures CodepointByteCount(s, p) == 2 ==> DecodeAt(s, p) < 0x800
    ensures CodepointByteCount(s, p) == 3 ==> DecodeAt(s, p) < 0x1_0000
    ensures CodepointByteCount(s, p) == 4 ==> DecodeAt(s, p) < 0x20_0000
  {
    var k := CodepointByteCount(s, p);
    var l := LeadPayload(s[p], k);
    if k == 1 {
      assert DecodeAt(s, p) == l;
    } else if k == 2 {
      assert DecodeAt(s, p) == ShiftIn(l, s[p + 1]);
    } else if k == 3 {
      assert DecodeAt(s, p) == ShiftIn(ShiftIn(l, s[p + 1]), s[p + 2]);
    } else {
      assert DecodeAt(s, p) == ShiftIn(ShiftIn(ShiftIn(l, s[p + 1]), s[p + 2]), s[p + 3]);
    }
  }

  // ---------------------------------------------------------------------
  // Locality: what the decoder sees at an offset depends only on the bytes
  // of the codepoint there.
  // ---------------------------------------------------------------------

  lemma {:induction false} AssembleWindow(s: Bytes, p: nat, t: Bytes, q: nat, k: nat, n: nat)
    requires 1 <= n && p + n <= |s| && q + n <= |t|
    requires s[p..p + n] == t[q..q + n]
    ensures Assemble(s, p, k, n) == Assemble(t, q, k, n)
    decreases n
  {
    if n == 1 {
      assert s[p] == s[p..p + n][0];
      assert t[q] == t[q..q + n][0];
    } else {
      assert s[p..p + (n - 1)] == s[p..p + n][..n - 1];
      assert t[q..q + (n - 1)] == t[q..q + n][..n - 1];
      AssembleWindow(s, p, t, q, k, n - 1);
      assert s[p + n - 1] == s[p..p + n][n - 1];
      assert t[q + n - 1] == t[q..q + n][n - 1];
    }
  }

  /**
   * A well-formed codepoint at `p` in `s` is seen identically at `q` in any
   * `t` holding the same bytes there.
   */
  lemma DecodeAtWindow(s: Bytes, p: nat, t: Bytes, q: nat)
    requires ValidAt(s, p)
    requires q + CodepointByteCount(s, p) <= |t|
    requires s[p..p + CodepointByteCount(s, p)] == t[q..q + CodepointByteCount(s, p)]
    ensures CodepointByteCount(t, q) == CodepointByteCount(s, p)
    ensures ValidAt(t, q)
    ensures DecodeAt(t, q) == DecodeAt(s, p)
  {
    var k := CodepointByteCount(s, p);
    assert s[p..p + k][0] == t[q..q + k][0];
    forall j | q < j < q + k
      ensures IsContinuation(t[j])
    {
      assert t[q..q + k][j - q] == s[p..p + k][j - q];
    }
    AssembleWindow(s, p, t, q, k, k);
  }

  /** Appending bytes after `a` does not change what the decoder sees at a well-formed codepoint of `a`. */
  lemma DecodeAtPrefix(a: Bytes, b: Bytes, p: nat)
    requires ValidAt(a, p)
    ensures CodepointByteCount(a + b, p) == CodepointByteCount(a, p)
    ensures ValidAt(a + b, p)
    ensures DecodeAt(a + b, p) == DecodeAt(a, p)
  {
    var k := CodepointByteCount(a, p);
    assert a[p..p + k] == (a + b)[p..p + k];
    DecodeAtWindow(a, p, a + b, p);
  }

  /** The bytes of `b` from `p` on sit |a| bytes further along in `a + b`. */
  lemma SuffixWindow(a: Bytes, b: Bytes, p: nat, k: nat)
    requires p + k <= |b|
    ensures b[p..p + k] == (a + b)[|a| + p..|a| + p + k]
  {
    assert (a + b)[|a|..] == b;
    assert (a + b)[|a| + p..|a| + p + k] == (a + b)[|a|..][p..p + k];
  }

  /** Prepending `a` shifts every offset of `b` by |a| and changes nothing else. */
  lemma DecodeAtSuffix(a: Bytes, b: Bytes, p: nat)
    ensures CodepointByteCount(a + b, |a| + p) == CodepointByteCount(b, p)
    ensures ValidAt(a + b, |a| + p) == ValidAt(b, p)
    ensures DecodeAt(a + b, |a| + p) == DecodeAt(b, p)
  {
    if p < |b| {
      assert (a + b)[|a| + p] == b[p];
    }
    if ValidAt(b, p) {
      SuffixWindow(a, b, p, CodepointByteCount(b, p));
      DecodeAtWindow(b, p, a + b, |a| + p);
    } else if ValidAt(a + b, |a| + p) {
      SuffixWindow(a, b, p, CodepointByteCount(a + b, |a| + p));
      DecodeAtWindow(a + b, |a| + p, b, p);
    }
  }

  // ---------------------------------------------------------------------
  // Encoding one codepoint (the body of `codepoints_to_utf8`'s loop)
  // ---------------------------------------------------------------------

  /** The lead byte of the `k`-byte form of `c`: the prefix pattern OR-ed with the top bits. */
  function LeadByte(c: CodePoint, k: nat): Byte
    requires (k == 1 && c <= 0x7F) || (k == 2 && c <= 0x7FF) || (k == 3 && c <= 0xFFFF) || (k == 4 && c <= 0x10FFFF)
  {
    if k == 1 then c as Byte
    else if k == 2 then (0xC0 | (c >> 6)) as Byte
    else if k == 3 then (0xE0 | (c >> 12)) as Byte
    else (0xF0 | (c >> 18)) as Byte
  }

  /** A continuation byte carrying bits shift..shift+5 of `c`. */
  function ContByte(c: CodePoint, shift: nat): Byte
    requires shift <= 12
  {
    (0x80 | ((c >> shift) & 0x3F)) as Byte
  }

  /**
   * The bytes the source emits for one codepoint: 1, 2, 3 or 4 bytes by the
   * thresholds 0x7F, 0x7FF, 0xFFFF and 0x10FFFF of section 3 of RFC 3629;
   * nothing at all above 0x10FFFF.
   */
  function EncodeCodepoint(c: CodePoint): (r: Bytes)
    ensures c <= 0x7F ==> |r| == 1
    ensures 0x7F < c <= 0x7FF ==> |r| == 2
    ensures 0x7FF < c <= 0xFFFF ==> |r| == 3
    ensures 0xFFFF < c <= 0x10FFFF ==> |r| == 4
    ensures r == [] <==> c > 0x10FFFF
  {
    if c <= 0x7F then [LeadByte(c, 1)]
    else if c <= 0x7FF then [LeadByte(c, 2), ContByte(c, 0)]
    else if c <= 0xFFFF then [LeadByte(c, 3), ContByte(c, 6), ContByte(c, 0)]
    else if c <= 0x10FFFF then [LeadByte(c, 4), ContByte(c, 12), ContByte(c, 6), ContByte(c, 0)]
    else []
  }

  lemma EncodeTwoBytes(c: CodePoint)
    requires 0x7F < c <= 0x7FF
    ensures IsTwoByteStart(LeadByte(c, 2)) && IsContinuation(ContByte(c, 0))
    ensures ShiftIn(LeadPayload(LeadByte(c, 2), 2), ContByte(c, 0)) == c
  {
  }

  lemma EncodeThreeBytes(c: CodePoint)
    requires 0x7FF < c <= 0xFFFF
    ensures IsThreeByteStart(LeadByte(c, 3)) && IsContinuation(ContByte(c, 6)) && IsContinuation(ContByte(c, 0))
    ensures ShiftIn(ShiftIn(LeadPayload(LeadByte(c, 3), 3), ContByte(c, 6)), ContByte(c, 0)) == c
  {
  }

  /** A continuation byte is one, and its payload is the six bits of `c` it was cut from. */
  lemma ContBytePayload(c: CodePoint, shift: nat)
    requires shift <= 12
    ensures IsContinuation(ContByte(c, shift))
    ensures (ContByte(c, shift) & 0x3F) as CodePoint == (c >> shift) & 0x3F
  {
  }

  /** The lead byte of a four-byte encoding is one, and its payload is the top three bits of `c`. */
  lemma FourByteLead(c: CodePoint)
    requires 0xFFFF < c <= 0x10FFFF
    ensures IsFourByteStart(LeadByte(c, 4))
    ensures LeadPayload(LeadByte(c, 4), 4) == c >> 18
  {
  }

  /** Putting the four pieces of a 21-bit codepoint back together gives the codepoint. */
  lemma FourByteJoin(c: CodePoint)
    requires c <= 0x10FFFF
    ensures ((((((c >> 18) << 6) + ((c >> 12) & 0x3F)) << 6) + ((c >> 6) & 0x3F)) << 6) + (c & 0x3F) == c
  {
  }

  lemma EncodeFourBytes(c: CodePoint)
    requires 0xFFFF < c <= 0x10FFFF
    ensures IsFourByteStart(LeadByte(c, 4))
    ensures IsContinuation(ContByte(c, 12)) && IsContinuation(ContByte(c, 6)) && IsContinuation(ContByte(c, 0))
    ensures ShiftIn(ShiftIn(ShiftIn(LeadPayload(LeadByte(c, 4), 4), ContByte(c, 12)), ContByte(c, 6)), ContByte(c, 0)) == c
  {
    FourByteLead(c);
    ContBytePayload(c, 12);
    ContBytePayload(c, 6);
    ContBytePayload(c, 0);
    FourByteJoin(c);
  }

  /**
   * The encoder's output for an in-range codepoint is one well-formed
   * codepoint occupying all of it, and it decodes back to the codepoint.
   */
  lemma DecodeEncodeCodepoint(c: CodePoint)
    requires c <= 0x10FFFF
    ensures ValidAt(EncodeCodepoint(c), 0)
    ensures CodepointByteCount(EncodeCodepoint(c), 0) == |EncodeCodepoint(c)|
    ensures DecodeAt(EncodeCodepoint(c), 0) == c
  {
    var e := EncodeCodepoint(c);
    if c <= 0x7F {
      assert e[0] == c as Byte;
    } else if c <= 0x7FF {
      EncodeTwoBytes(c);
      assert DecodeAt(e, 0) == ShiftIn(LeadPayload(e[0], 2), e[1]);
    } else if c <= 0xFFFF {
      EncodeThreeBytes(c);
      assert DecodeAt(e, 0) == ShiftIn(ShiftIn(LeadPayload(e[0], 3), e[1]), e[2]);
    } else {
      EncodeFourBytes(c);
      assert DecodeAt(e, 0) == ShiftIn(ShiftIn(ShiftIn(LeadPayload(e[0], 4), e[1]), e[2]), e[3]);
    }
  }

  // ---------------------------------------------------------------------
  // What the structural decoder lets through
  // ---------------------------------------------------------------------

  /** The overlong form C0 80 is accepted and decodes to U+0000. */
  lemma OverlongAccepted()
    ensures ValidAt([0xC0, 0x80], 0)
    ensures DecodeAt([0xC0, 0x80], 0) == 0
  {
    assert DecodeAt([0xC0, 0x80], 0) == ShiftIn(LeadPayload(0xC0, 2), 0x80);
  }

  /** ED A0 80 is accepted and decodes to the surrogate U+D800. */
  lemma SurrogateAccepted()
    ensures ValidAt([0xED, 0xA0, 0x80], 0)
    ensures DecodeAt([0xED, 0xA0, 0x80], 0) == 0xD800
  {
    var s: Bytes := [0xED, 0xA0, 0x80];
    assert DecodeAt(s, 0) == ShiftIn(ShiftIn(LeadPayload(s[0], 3), s[1]), s[2]);
  }

  /** The lead byte F7 is accepted and yields a value above U+10FFFF. */
  lemma BeyondUnicodeAccepted()
    ensures ValidAt([0xF7, 0xBF, 0xBF, 0xBF], 0)
    ensures DecodeAt([0xF7, 0xBF, 0xBF, 0xBF], 0) == 0x1F_FFFF
  {
    var s: Bytes := [0xF7, 0xBF, 0xBF, 0xBF];
    assert DecodeAt(s, 0) == ShiftIn(ShiftIn(ShiftIn(LeadPayload(s[0], 4), s[1]), s[2]), s[3]);
  }
}
