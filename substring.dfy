/**
 * The substring extractors of utf8util.cpp: `utf8_substring`, indexed by
 * character (a base codepoint with the combining marks after it), and
 * `utf8_cp_substring`, indexed by codepoint.
 *
 * Both resolve a start offset and an end offset (or "to the end" when the
 * count is `std::string::npos`) and slice with `std::string::substr`; a
 * start at or past the end gives the empty string.
 */
module Utf8Extract {
  import opened Utf8Decoder
  import opened Utf8Width
  import opened Utf8Scanner
  import opened Utf8Codec

  /** `std::string::npos`, the largest `size_t`: as a count it means "to the end". */
  const NPOS: nat := 0xFFFF_FFFF_FFFF_FFFF

  /** `std::string::substr(start, count)`: at most `count` bytes from `start`, clamped at the end. */
  function Substr(s: Bytes, start: nat, count: nat): (r: Bytes)
    requires start <= |s|
    ensures start + |r| <= |s| && r == s[start..start + |r|]
    ensures |r| == if count < |s| - start then count else |s| - start
  {
    if count < |s| - start then s[start..start + count] else s[start..]
  }

  // ---------------------------------------------------------------------
  // utf8_substring
  // ---------------------------------------------------------------------

  /**
   * Up to `count` characters of `s` starting at character `pos`. The end is
   * found by a second character scan that starts at the start offset, so
   * `count` is measured from there; the test for a combining mark at the
   * first byte still refers to offset 0 of `s`.
   */
  function Utf8Substring(s: Bytes, wcwidth: CodePoint -> int, pos: nat, count: nat): (r: Bytes)
    ensures var start := NthCharacterPos(s, wcwidth, pos, 0, 0);
      && (start >= |s| ==> r == [])
      && (start < |s| ==> start + |r| <= |s| && r == s[start..start + |r|])
      && (count == NPOS && start < |s| && |s| <= NPOS ==> r == s[start..])
  {
    var start := NthCharacterPos(s, wcwidth, pos, 0, 0);
    if start >= |s| then []
    else if count == NPOS then Substr(s, start, NPOS)
    else
      var end := NthCharacterPos(s, wcwidth, count, start, 0);
      Substr(s, start, end - start)
  }

  /**
   * A character substring never splits a character: it starts at a character
   * start and ends at one or at the end of `s`; and a count of 0 gives the
   * empty string.
   */
  lemma Utf8SubstringBoundaries(s: Bytes, wcwidth: CodePoint -> int, pos: nat, count: nat)
    requires |s| <= NPOS
    ensures var start, r := NthCharacterPos(s, wcwidth, pos, 0, 0), Utf8Substring(s, wcwidth, pos, count);
      && (r != [] ==> CharacterStartAt(s, wcwidth, start))
      && (start < |s| && start + |r| < |s| ==> CharacterStartAt(s, wcwidth, start + |r|))
      && (count == 0 ==> r == [])
  {
    var start := NthCharacterPos(s, wcwidth, pos, 0, 0);
    if start < |s| {
      NthCharacterPosIsStart(s, wcwidth, pos, 0, 0);
      if count != NPOS {
        var end := NthCharacterPos(s, wcwidth, count, start, 0);
        if end < |s| {
          NthCharacterPosIsStart(s, wcwidth, count, start, 0);
        }
        if count == 0 {
          NthCharacterPosAtStart(s, wcwidth, start);
        }
      }
    }
  }

  /**
   * How many characters a character substring skips and covers: exactly
   * `pos` character starts lie before its first byte when it is not empty
   * (at most `pos` in all of `s` when it is); with a finite `count` it
   * covers at most `count` character starts, and exactly `count` when it
   * ends before the end of `s`; with `count` equal to npos it runs to the end.
   */
  lemma Utf8SubstringCounts(s: Bytes, wcwidth: CodePoint -> int, pos: nat, count: nat)
    requires |s| <= NPOS
    ensures var start, r := NthCharacterPos(s, wcwidth, pos, 0, 0), Utf8Substring(s, wcwidth, pos, count);
      && (start < |s| ==> CharStartsIn(s, wcwidth, 0, start) == pos)
      && (start == |s| ==> r == [] && CharStartsIn(s, wcwidth, 0, |s|) <= pos)
      && (start < |s| && count != NPOS ==> CharStartsIn(s, wcwidth, start, start + |r|) <= count)
      && (start < |s| && count != NPOS && start + |r| < |s| ==> CharStartsIn(s, wcwidth, start, start + |r|) == count)
      && (start < |s| && count == NPOS ==> start + |r| == |s|)
  {
    var start := NthCharacterPos(s, wcwidth, pos, 0, 0);
    NthCharacterPosCounts(s, wcwidth, pos, 0, 0);
    if start < |s| && count != NPOS {
      NthCharacterPosCounts(s, wcwidth, count, start, 0);
    }
  }

  /** A substring with a finite count is a prefix of the one running to the end. */
  lemma Utf8SubstringPrefix(s: Bytes, wcwidth: CodePoint -> int, pos: nat, count: nat)
    requires |s| <= NPOS
    ensures Utf8Substring(s, wcwidth, pos, count) <= Utf8Substring(s, wcwidth, pos, NPOS)
  {
  }

  /** Asking for more characters extends the substring. */
  lemma Utf8SubstringMonotone(s: Bytes, wcwidth: CodePoint -> int, pos: nat, count1: nat, count2: nat)
    requires count1 <= count2 < NPOS
    ensures Utf8Substring(s, wcwidth, pos, count1) <= Utf8Substring(s, wcwidth, pos, count2)
  {
    var start := NthCharacterPos(s, wcwidth, pos, 0, 0);
    if start < |s| {
      NthCharacterPosMonotone(s, wcwidth, count1, count2, start, 0);
    }
  }

  // ---------------------------------------------------------------------
  // utf8_cp_substring
  // ---------------------------------------------------------------------

  /**
   * Where the codepoint walk stops when it starts at `p` with `n` codepoints
   * to pass: it counts lead bytes only, skipping a byte that cannot start a
   * codepoint alone and jumping by the announced length otherwise, and may
   * stop past the end.
   */
  function SkipCodepoints(s: Bytes, p: nat, n: nat): (r: nat)
    ensures p <= r
    ensures p <= |s| ==> r <= |s| + 3
    decreases |s| - p
  {
    if n == 0 || p >= |s| then p
    else
      var k := CodepointByteCount(s, p);
      if k == 0 then SkipCodepoints(s, p + 1, n)
      else SkipCodepoints(s, p + k, n - 1)
  }

  /** One step of the codepoint walk over a well-formed codepoint moves on to the offset `q` after it. */
  lemma SkipStep(s: Bytes, p: nat, n: nat, q: nat)
    requires ValidAt(s, p) && n > 0 && q == p + CodepointByteCount(s, p)
    ensures SkipCodepoints(s, p, n) == SkipCodepoints(s, q, n - 1)
  {
  }

  /** One step of the codepoint walk from a position inside `s`, whatever byte is there. */
  lemma SkipAdvance(s: Bytes, p: nat, n: nat, q: nat, m: nat)
    requires p < |s| && n > 0
    requires var k := CodepointByteCount(s, p);
      (k == 0 ==> q == p + 1 && m == n) && (k != 0 ==> q == p + k && m == n - 1)
    ensures SkipCodepoints(s, p, n) == SkipCodepoints(s, q, m)
  {
  }

  /**
   * Up to `count` codepoints of `s` starting at codepoint `pos`, as the
   * walk of `utf8_cp_substring` delimits them: a contiguous slice of `s`
   * that the end of `s` truncates.
   */
  function CpSubstring(s: Bytes, pos: nat, count: nat): (r: Bytes)
    ensures var start := SkipCodepoints(s, 0, pos);
      && (start >= |s| ==> r == [])
      && (start < |s| ==> start + |r| <= |s| && r == s[start..start + |r|])
      && (count == 0 ==> r == [])
      && (count == NPOS && start < |s| && |s| <= NPOS ==> r == s[start..])
  {
    var start := SkipCodepoints(s, 0, pos);
    if start >= |s| then []
    else if count == NPOS then Substr(s, start, NPOS)
    else Substr(s, start, SkipCodepoints(s, start, count) - start)
  }

  method Utf8CpSubstring(s: Bytes, pos: nat, count: nat) returns (r: Bytes)
    ensures r == CpSubstring(s, pos, count)
  {
    var bytePos := 0;
    var cpPos := 0;
    while cpPos < pos && bytePos < |s|
      invariant cpPos <= pos
      invariant SkipCodepoints(s, bytePos, pos - cpPos) == SkipCodepoints(s, 0, pos)
      decreases |s| - bytePos
    {
      var k := CodepointByteCount(s, bytePos);
      ghost var before, passed := bytePos, cpPos;
      if k == 0 {
        bytePos := bytePos + 1;
      } else {
        bytePos := bytePos + k;
        cpPos := cpPos + 1;
      }
      SkipAdvance(s, before, pos - passed, bytePos, pos - cpPos);
    }
    var startByte := bytePos;
    assert startByte == SkipCodepoints(s, 0, pos);
    if startByte >= |s| {
      return [];
    }
    var byteCount := 0;
    if count == NPOS {
      byteCount := NPOS;
    } else {
      var cpCount := 0;
      while cpCount < count && bytePos < |s|
        invariant startByte <= bytePos
        invariant cpCount <= count
        invariant SkipCodepoints(s, bytePos, count - cpCount) == SkipCodepoints(s, startByte, count)
        decreases |s| - bytePos
      {
        var k := CodepointByteCount(s, bytePos);
        ghost var before, counted := bytePos, cpCount;
        if k == 0 {
          bytePos := bytePos + 1;
        } else {
          cpCount := cpCount + 1;
          bytePos := bytePos + k;
        }
        SkipAdvance(s, before, count - counted, bytePos, count - cpCount);
      }
      assert bytePos == SkipCodepoints(s, startByte, count);
      byteCount := bytePos - startByte;
    }
    r := Substr(s, startByte, byteCount);
  }

  /** A codepoint substring with a finite count is a prefix of the one running to the end. */
  lemma CpSubstringPrefix(s: Bytes, pos: nat, count: nat)
    requires |s| <= NPOS
    ensures CpSubstring(s, pos, count) <= CpSubstring(s, pos, NPOS)
  {
  }

  /** Walking past more codepoints than the counting scan counts runs off the end. */
  lemma {:induction false} SkipPastCount(s: Bytes, p: nat, n: nat)
    requires n > CountFrom(s, p)
    ensures SkipCodepoints(s, p, n) >= |s|
    decreases |s| - p
  {
    if p < |s| {
      var k := CodepointByteCount(s, p);
      if k == 0 {
        SkipPastCount(s, p + 1, n);
      } else {
        SkipPastCount(s, p + k, n - 1);
      }
    }
  }

  /** On valid input, walking past all the codepoints reaches the end exactly. */
  lemma {:induction false} SkipValidToEnd(s: Bytes, p: nat, n: nat)
    requires p <= |s| && ValidFrom(s, p) && n >= CountFrom(s, p)
    ensures SkipCodepoints(s, p, n) == |s|
    decreases |s| - p
  {
    if p < |s| {
      SkipValidToEnd(s, p + CodepointByteCount(s, p), n - 1);
    }
  }

  /** One step of the codepoint walk and of codepoint counting, from the same byte. */
  lemma SkipCountStep(s: Bytes, p: nat, n: nat, k: nat)
    requires p < |s| && n > 0 && k == CodepointByteCount(s, p)
    ensures k == 0 ==> SkipCodepoints(s, p, n) == SkipCodepoints(s, p + 1, n) && CountFrom(s, p) == CountFrom(s, p + 1)
    ensures k > 0 ==> SkipCodepoints(s, p, n) == SkipCodepoints(s, p + k, n - 1) && CountFrom(s, p) == 1 + CountFrom(s, p + k)
  {
  }

  /**
   * The walk passes over exactly the codepoints that codepoint counting
   * counts: when it stops inside `s` it has passed `n` of them, and when it
   * runs to the end or beyond there were at most `n` left.
   */
  lemma {:induction false} SkipCounts(s: Bytes, p: nat, n: nat)
    requires p <= |s|
    ensures var r := SkipCodepoints(s, p, n);
      && (r < |s| ==> CountFrom(s, p) == n + CountFrom(s, r))
      && (r >= |s| ==> CountFrom(s, p) <= n)
    decreases |s| - p
  {
    if n > 0 && p < |s| {
      var k := CodepointByteCount(s, p);
      SkipCountStep(s, p, n, k);
      if k == 0 {
        SkipCounts(s, p + 1, n);
      } else if p + k <= |s| {
        SkipCounts(s, p + k, n - 1);
      }
    }
  }

  /**
   * How many codepoints a codepoint substring skips and covers, as codepoint
   * counting counts them: a non-empty result starts after exactly `pos`
   * counted codepoints (and there are at most `pos` when it is empty); with
   * a finite `count` it covers exactly `count` of them when it ends before
   * the end of `s`, and at most `count` when it runs to the end.
   */
  lemma CpSubstringCounts(s: Bytes, pos: nat, count: nat)
    requires |s| <= NPOS
    ensures var start, r := SkipCodepoints(s, 0, pos), CpSubstring(s, pos, count);
      && (start < |s| ==> CountFrom(s, 0) == pos + CountFrom(s, start))
      && (start >= |s| ==> r == [] && CountFrom(s, 0) <= pos)
      && (start < |s| && count != NPOS && start + |r| < |s| ==> CountFrom(s, start) == count + CountFrom(s, start + |r|))
      && (start < |s| && count != NPOS && start + |r| == |s| ==> CountFrom(s, start) <= count)
      && (start < |s| && count == NPOS ==> start + |r| == |s|)
  {
    var start := SkipCodepoints(s, 0, pos);
    SkipCounts(s, 0, pos);
    if start < |s| && count != NPOS {
      SkipCounts(s, start, count);
    }
  }

  /**
   * The substring is empty once `pos` exceeds the codepoint count, and on
   * valid input already when `pos` equals it.
   */
  lemma CpSubstringPastEnd(s: Bytes, pos: nat, count: nat)
    requires pos > CountFrom(s, 0) || (ValidUtf8(s) && pos == CountFrom(s, 0))
    ensures CpSubstring(s, pos, count) == []
  {
    if pos > CountFrom(s, 0) {
      SkipPastCount(s, 0, pos);
    } else {
      SkipValidToEnd(s, 0, pos);
    }
  }

  /**
   * On invalid input a start at the codepoint count need not be the end: a
   * trailing byte that is not a lead byte is still returned.
   */
  lemma CpSubstringTrailingByte()
    ensures CountFrom([0x61, 0x80], 0) == 1
    ensures CpSubstring([0x61, 0x80], 1, NPOS) == [0x80]
  {
    var s: Bytes := [0x61, 0x80];
    assert CodepointByteCount(s, 0) == 1;
    assert CodepointByteCount(s, 1) == 0;
    assert CountFrom(s, 0) == 1 + CountFrom(s, 1);
    assert SkipCodepoints(s, 0, 1) == SkipCodepoints(s, 1, 0) == 1;
  }

  // ---------------------------------------------------------------------
  // On the encoder's output both extractors index by codepoint
  // ---------------------------------------------------------------------

  /** Codepoints `pos` .. `pos + count` of `cs`, clamped at the end as `substr` clamps. */
  function CodepointSlice(cs: seq<CodePoint>, pos: nat, count: nat): (r: seq<CodePoint>)
    ensures pos >= |cs| ==> r == []
    ensures pos < |cs| ==> |r| == (if count < |cs| - pos then count else |cs| - pos) && r == cs[pos..pos + |r|]
  {
    if pos >= |cs| then []
    else if count < |cs| - pos then cs[pos..pos + count]
    else cs[pos..]
  }

  lemma EncodedOffsetEnd(cs: seq<CodePoint>)
    ensures EncodedOffset(cs, |cs|) == |Encoded(cs)|
  {
    assert cs[..|cs|] == cs;
  }

  /** Offsets of codepoints before the last lie before the end of the encoding. */
  lemma EncodedOffsetBeforeEnd(cs: seq<CodePoint>, j: nat)
    requires AllInRange(cs) && j < |cs|
    ensures EncodedOffset(cs, j) < |Encoded(cs)|
  {
    EncodedAt(cs, j);
    EncodedSlice(cs, j + 1, |cs|);
    EncodedOffsetEnd(cs);
  }

  /** On the encoder's output, the codepoint walk passes exactly one encoded codepoint per step. */
  lemma {:induction false} SkipEncoded(cs: seq<CodePoint>, j: nat, n: nat)
    requires AllInRange(cs) && j <= |cs|
    ensures SkipCodepoints(Encoded(cs), EncodedOffset(cs, j), n)
         == EncodedOffset(cs, if j + n <= |cs| then j + n else |cs|)
    decreases |cs| - j
  {
    if n == 0 {
    } else if j == |cs| {
      EncodedOffsetEnd(cs);
    } else {
      EncodedAt(cs, j);
      SkipStep(Encoded(cs), EncodedOffset(cs, j), n, EncodedOffset(cs, j + 1));
      SkipEncoded(cs, j + 1, n - 1);
    }
  }

  /**
   * The character scan over a codepoint sequence: the index of the codepoint
   * at which the count of characters first exceeds `n`, starting at index
   * `j` with `seen` already counted, or |cs|. A codepoint is a character
   * unless it is a combining mark at an index other than 0.
   */
  function NthCharIndex(cs: seq<CodePoint>, wcwidth: CodePoint -> int, n: nat, j: nat, seen: nat): (r: nat)
    requires j <= |cs|
    ensures j <= r <= |cs|
    ensures r < |cs| ==> r == 0 || !IsCombining(cs[r], wcwidth)
    decreases |cs| - j
  {
    if j == |cs| then |cs|
    else if j == 0 || !IsCombining(cs[j], wcwidth) then
      if seen + 1 > n then j else NthCharIndex(cs, wcwidth, n, j + 1, seen + 1)
    else NthCharIndex(cs, wcwidth, n, j + 1, seen)
  }

  /**
   * On the encoder's output, the byte-level character scan lands on the
   * offset of the codepoint the codepoint-level scan finds.
   */
  lemma {:induction false} NthCharacterPosEncoded(cs: seq<CodePoint>, wcwidth: CodePoint -> int, n: nat, j: nat, seen: nat)
    requires AllInRange(cs) && j <= |cs|
    ensures NthCharacterPos(Encoded(cs), wcwidth, n, EncodedOffset(cs, j), seen)
         == EncodedOffset(cs, NthCharIndex(cs, wcwidth, n, j, seen))
    decreases |cs| - j
  {
    EncodedOffsetEnd(cs);
    if j < |cs| {
      EncodedAt(cs, j);
      NthCharacterPosStep(Encoded(cs), wcwidth, n, EncodedOffset(cs, j), seen, cs[j], j == 0, EncodedOffset(cs, j + 1));
      if j == 0 || !IsCombining(cs[j], wcwidth) {
        if seen + 1 <= n {
          NthCharacterPosEncoded(cs, wcwidth, n, j + 1, seen + 1);
        }
      } else {
        NthCharacterPosEncoded(cs, wcwidth, n, j + 1, seen);
      }
    }
  }

  /** Without combining marks after index 0, every codepoint is one character. */
  lemma {:induction false} NthCharIndexPlain(cs: seq<CodePoint>, wcwidth: CodePoint -> int, n: nat, j: nat, seen: nat)
    requires j <= |cs| && seen <= n
    requires forall i | 0 < i < |cs| :: !IsCombining(cs[i], wcwidth)
    ensures NthCharIndex(cs, wcwidth, n, j, seen) == if j + (n - seen) <= |cs| then j + (n - seen) else |cs|
    decreases |cs| - j
  {
    if j < |cs| && seen + 1 <= n {
      NthCharIndexPlain(cs, wcwidth, n, j + 1, seen + 1);
    }
  }

  /** Where the codepoint walk over the encoder's output starts the substring. */
  lemma CpSubstringEncodedStart(cs: seq<CodePoint>, pos: nat)
    requires AllInRange(cs)
    ensures SkipCodepoints(Encoded(cs), 0, pos) == EncodedOffset(cs, if pos <= |cs| then pos else |cs|)
  {
    assert EncodedOffset(cs, 0) == 0;
    SkipEncoded(cs, 0, pos);
  }

  /** `substr` between the offsets of two codepoints in the encoder's output is their encoding. */
  lemma SubstrEncoded(cs: seq<CodePoint>, i: nat, e: nat)
    requires i <= e <= |cs|
    ensures EncodedOffset(cs, i) <= EncodedOffset(cs, e) <= |Encoded(cs)|
    ensures Substr(Encoded(cs), EncodedOffset(cs, i), EncodedOffset(cs, e) - EncodedOffset(cs, i)) == Encoded(cs[i..e])
  {
    EncodedSlice(cs, i, e);
  }

  /** `substr` to the end from the offset of a codepoint in the encoder's output is the encoding of the rest. */
  lemma SubstrEncodedToEnd(cs: seq<CodePoint>, i: nat)
    requires i <= |cs| && |Encoded(cs)| <= NPOS
    ensures EncodedOffset(cs, i) <= |Encoded(cs)|
    ensures Substr(Encoded(cs), EncodedOffset(cs, i), NPOS) == Encoded(cs[i..])
  {
    EncodedSlice(cs, i, |cs|);
    EncodedOffsetEnd(cs);
    assert cs[i..|cs|] == cs[i..];
  }

  /** The npos case of `CpSubstringEncoded`. */
  lemma CpSubstringEncodedToEnd(cs: seq<CodePoint>, pos: nat)
    requires AllInRange(cs) && |Encoded(cs)| <= NPOS && pos < |cs|
    ensures CpSubstring(Encoded(cs), pos, NPOS) == Encoded(cs[pos..])
  {
    CpSubstringEncodedStart(cs, pos);
    EncodedOffsetBeforeEnd(cs, pos);
    SubstrEncodedToEnd(cs, pos);
  }

  /** The finite case of `CpSubstringEncoded`. */
  lemma CpSubstringEncodedBounded(cs: seq<CodePoint>, pos: nat, count: nat)
    requires AllInRange(cs) && pos < |cs| && count != NPOS
    ensures CpSubstring(Encoded(cs), pos, count) == Encoded(cs[pos..if pos + count <= |cs| then pos + count else |cs|])
  {
    CpSubstringEncodedStart(cs, pos);
    EncodedOffsetBeforeEnd(cs, pos);
    SkipEncoded(cs, pos, count);
    SubstrEncoded(cs, pos, if pos + count <= |cs| then pos + count else |cs|);
  }


  /**
   * On the encoder's output, the codepoint substring is the encoding of the
   * requested codepoints, clamped at the end.
   */
  lemma CpSubstringEncoded(cs: seq<CodePoint>, pos: nat, count: nat)
    requires AllInRange(cs) && |Encoded(cs)| <= NPOS
    ensures CpSubstring(Encoded(cs), pos, count) == Encoded(CodepointSlice(cs, pos, count))
  {
    if pos >= |cs| {
      CpSubstringEncodedStart(cs, pos);
      EncodedOffsetEnd(cs);
      assert Encoded([]) == [];
    } else if count == NPOS {
      EncodedLength(cs);
      assert CodepointSlice(cs, pos, count) == cs[pos..];
      CpSubstringEncodedToEnd(cs, pos);
    } else {
      assert CodepointSlice(cs, pos, count) == cs[pos..if pos + count <= |cs| then pos + count else |cs|];
      CpSubstringEncodedBounded(cs, pos, count);
    }
  }

  /**
   * The codepoints `utf8_substring` keeps, found by the codepoint-level
   * character scan: from the codepoint of character `pos` up to that of
   * character `count` counted from there, or to the end.
   */
  function CharSlice(cs: seq<CodePoint>, wcwidth: CodePoint -> int, pos: nat, count: nat): (r: seq<CodePoint>)
    ensures var i := NthCharIndex(cs, wcwidth, pos, 0, 0);
      && (i == |cs| ==> r == [])
      && (i < |cs| ==> i + |r| <= |cs| && r == cs[i..i + |r|])
      && (i < |cs| && count == NPOS ==> r == cs[i..])
  {
    var i := NthCharIndex(cs, wcwidth, pos, 0, 0);
    if i == |cs| then []
    else if count == NPOS then cs[i..]
    else cs[i..NthCharIndex(cs, wcwidth, count, i, 0)]
  }

  /** Where the character scan over the encoder's output starts the substring. */
  lemma Utf8SubstringEncodedStart(cs: seq<CodePoint>, wcwidth: CodePoint -> int, pos: nat)
    requires AllInRange(cs)
    ensures NthCharacterPos(Encoded(cs), wcwidth, pos, 0, 0) == EncodedOffset(cs, NthCharIndex(cs, wcwidth, pos, 0, 0))
  {
    assert EncodedOffset(cs, 0) == 0;
    NthCharacterPosEncoded(cs, wcwidth, pos, 0, 0);
  }

  /** The npos case of `Utf8SubstringEncoded`. */
  lemma Utf8SubstringEncodedToEnd(cs: seq<CodePoint>, wcwidth: CodePoint -> int, pos: nat)
    requires AllInRange(cs) && |Encoded(cs)| <= NPOS
    requires NthCharIndex(cs, wcwidth, pos, 0, 0) < |cs|
    ensures Utf8Substring(Encoded(cs), wcwidth, pos, NPOS) == Encoded(cs[NthCharIndex(cs, wcwidth, pos, 0, 0)..])
  {
    var i := NthCharIndex(cs, wcwidth, pos, 0, 0);
    Utf8SubstringEncodedStart(cs, wcwidth, pos);
    EncodedOffsetBeforeEnd(cs, i);
    SubstrEncodedToEnd(cs, i);
  }

  /** The finite case of `Utf8SubstringEncoded`. */
  lemma Utf8SubstringEncodedBounded(cs: seq<CodePoint>, wcwidth: CodePoint -> int, pos: nat, count: nat)
    requires AllInRange(cs) && count != NPOS
    requires NthCharIndex(cs, wcwidth, pos, 0, 0) < |cs|
    ensures var i := NthCharIndex(cs, wcwidth, pos, 0, 0);
      Utf8Substring(Encoded(cs), wcwidth, pos, count) == Encoded(cs[i..NthCharIndex(cs, wcwidth, count, i, 0)])
  {
    var i := NthCharIndex(cs, wcwidth, pos, 0, 0);
    Utf8SubstringEncodedStart(cs, wcwidth, pos);
    EncodedOffsetBeforeEnd(cs, i);
    NthCharacterPosEncoded(cs, wcwidth, count, i, 0);
    SubstrEncoded(cs, i, NthCharIndex(cs, wcwidth, count, i, 0));
  }


  /**
   * On the encoder's output, the character substring is the encoding of the
   * codepoints the codepoint-level character scan delimits: both ends fall
   * on encoded codepoint boundaries.
   */
  lemma Utf8SubstringEncoded(cs: seq<CodePoint>, wcwidth: CodePoint -> int, pos: nat, count: nat)
    requires AllInRange(cs) && |Encoded(cs)| <= NPOS
    ensures Utf8Substring(Encoded(cs), wcwidth, pos, count) == Encoded(CharSlice(cs, wcwidth, pos, count))
  {
    if NthCharIndex(cs, wcwidth, pos, 0, 0) == |cs| {
      assert EncodedOffset(cs, 0) == 0;
      NthCharacterPosEncoded(cs, wcwidth, pos, 0, 0);
      EncodedOffsetEnd(cs);
      assert Encoded([]) == [];
    } else if count == NPOS {
      Utf8SubstringEncodedToEnd(cs, wcwidth, pos);
    } else {
      Utf8SubstringEncodedBounded(cs, wcwidth, pos, count);
    }
  }

  /**
   * Without combining marks after the first codepoint, characters are
   * codepoints and the character substring is the codepoint substring.
   */
  lemma CharSlicePlain(cs: seq<CodePoint>, wcwidth: CodePoint -> int, pos: nat, count: nat)
    requires |cs| <= NPOS
    requires forall i | 0 < i < |cs| :: !IsCombining(cs[i], wcwidth)
    ensures CharSlice(cs, wcwidth, pos, count) == CodepointSlice(cs, pos, count)
  {
    NthCharIndexPlain(cs, wcwidth, pos, 0, 0);
    var i := NthCharIndex(cs, wcwidth, pos, 0, 0);
    NthCharIndexPlain(cs, wcwidth, count, i, 0);
  }
}
