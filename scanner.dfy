/**
 * The sequence scanners of utf8util.cpp: `is_valid_utf8`,
 * `count_codepoints`, `string_width` and `_get_nth_character_byte_pos`.
 *
 * Each scan is a `while` loop over a byte offset. For each one a recursive
 * function states what the rest of the scan computes from a given offset
 * (and counter); the method carrying the loop is proved equal to it, and the
 * properties of the scan are lemmas about the function.
 *
 * The scanners do not all use the same test. `is_valid_utf8` and the
 * character scan use the full check `ValidAt`; `count_codepoints` and
 * `string_width` look only at the lead byte (`CodepointByteCount`), so they
 * step over a truncated or malformed codepoint by the length its lead byte
 * announces, possibly past the end.
 */
module Utf8Scanner {
  import opened Utf8Decoder
  import opened Utf8Width

  // ---------------------------------------------------------------------
  // is_valid_utf8
  // ---------------------------------------------------------------------

  /** From `p` on, `s` is a sequence of well-formed codepoints ending exactly at |s|. */
  predicate ValidFrom(s: Bytes, p: nat)
    decreases |s| - p
  {
    p >= |s| || (ValidAt(s, p) && ValidFrom(s, p + CodepointByteCount(s, p)))
  }

  predicate ValidUtf8(s: Bytes)
  {
    ValidFrom(s, 0)
  }

  method IsValidUtf8(s: Bytes) returns (ok: bool)
    ensures ok == ValidUtf8(s)
    ensures s == [] ==> ok
  {
    var p := 0;
    while p < |s|
      invariant p <= |s|
      invariant ValidFrom(s, p) == ValidFrom(s, 0)
      decreases |s| - p
    {
      var here := IsValidCodepointAt(s, p);
      if !here {
        return false;
      }
      p := p + CodepointByteCount(s, p);
    }
    return true;
  }

  // ---------------------------------------------------------------------
  // count_codepoints
  // ---------------------------------------------------------------------

  /**
   * The number of lead bytes the counting scan meets from `p` on: a byte that
   * cannot start a codepoint is skipped alone, any other advances the scan by
   * the length it announces, whatever the following bytes are. Never more
   * than the number of bytes left.
   */
  function CountFrom(s: Bytes, p: nat): (n: nat)
    ensures p <= |s| ==> n <= |s| - p
    ensures p >= |s| ==> n == 0
    decreases |s| - p
  {
    if p >= |s| then 0
    else
      var k := CodepointByteCount(s, p);
      if k == 0 then CountFrom(s, p + 1) else 1 + CountFrom(s, p + k)
  }

  method CountCodepoints(s: Bytes) returns (count: nat)
    ensures count == CountFrom(s, 0)
    ensures count <= |s|
  {
    var p := 0;
    count := 0;
    while p < |s|
      invariant count + CountFrom(s, p) == CountFrom(s, 0)
      decreases |s| - p
    {
      var k := CodepointByteCount(s, p);
      if k == 0 {
        p := p + 1;
      } else {
        count := count + 1;
        p := p + k;
      }
    }
  }

  // ---------------------------------------------------------------------
  // string_width
  // ---------------------------------------------------------------------

  /** The source accumulates widths in a `size_t`: arithmetic modulo 2^64. */
  const SIZE_MOD: nat := 0x1_0000_0000_0000_0000

  /**
   * The exact (integer) sum of the widths the width scan adds from `p` on.
   * The scan steps like the counting scan; at a lead byte it adds the width
   * of `DecodeAt`, which is U+FFFD's width where the codepoint is malformed.
   */
  function WidthFrom(s: Bytes, wcwidth: CodePoint -> int, p: nat): int
    decreases |s| - p
  {
    if p >= |s| then 0
    else
      var k := CodepointByteCount(s, p);
      if k == 0 then WidthFrom(s, wcwidth, p + 1)
      else CharWidth(DecodeAt(s, p), wcwidth) + WidthFrom(s, wcwidth, p + k)
  }

  lemma ModAdd(a: int, b: int)
    ensures (a % SIZE_MOD + b) % SIZE_MOD == (a + b) % SIZE_MOD
  {
    var q := a / SIZE_MOD;
    assert a == q * SIZE_MOD + a % SIZE_MOD;
    ModShift(a % SIZE_MOD + b, q);
  }

  lemma ModShift(x: int, q: int)
    ensures (x + q * SIZE_MOD) % SIZE_MOD == x % SIZE_MOD
  {
    var r := x % SIZE_MOD;
    var d := x / SIZE_MOD;
    assert x + q * SIZE_MOD == (d + q) * SIZE_MOD + r;
  }

  /** One step of the width scan: a byte that starts nothing adds nothing, a lead byte adds its codepoint's width. */
  lemma WidthStep(s: Bytes, wcwidth: CodePoint -> int, p: nat, q: nat)
    requires p < |s|
    requires q == if CodepointByteCount(s, p) == 0 then p + 1 else p + CodepointByteCount(s, p)
    ensures WidthFrom(s, wcwidth, p)
         == (if CodepointByteCount(s, p) == 0 then 0 else CharWidth(DecodeAt(s, p), wcwidth)) + WidthFrom(s, wcwidth, q)
  {
  }

  /**
   * The width the source returns: the widths summed in a `size_t`, so a
   * BACKSPACE's -1 wraps around an accumulator that is still 0.
   */
  method StringWidth(s: Bytes, wcwidth: CodePoint -> int) returns (width: nat)
    ensures width == WidthFrom(s, wcwidth, 0) % SIZE_MOD
    ensures width < SIZE_MOD
  {
    var p := 0;
    width := 0;
    ghost var total := 0;
    while p < |s|
      invariant width == total % SIZE_MOD
      invariant total + WidthFrom(s, wcwidth, p) == WidthFrom(s, wcwidth, 0)
      decreases |s| - p
    {
      var k := CodepointByteCount(s, p);
      ghost var before := p;
      if k == 0 {
        p := p + 1;
      } else {
        var c := GetCodepointAt(s, p);
        ModAdd(total, CharWidth(c, wcwidth));
        width := (width + CharWidth(c, wcwidth)) % SIZE_MOD;
        total := total + CharWidth(c, wcwidth);
        p := p + k;
      }
      WidthStep(s, wcwidth, before, p);
    }
  }

  /** With a table that gives every codepoint width 1, the width scan counts what the counting scan counts. */
  lemma {:induction false} UnitWidthIsCount(s: Bytes, wcwidth: CodePoint -> int, p: nat)
    requires forall c: CodePoint :: wcwidth(c) == 1
    ensures WidthFrom(s, wcwidth, p) == CountFrom(s, p)
    decreases |s| - p
  {
    if p < |s| {
      var k := CodepointByteCount(s, p);
      if k == 0 {
        UnitWidthIsCount(s, wcwidth, p + 1);
      } else {
        UnitWidthIsCount(s, wcwidth, p + k);
      }
    }
  }

  // ---------------------------------------------------------------------
  // _get_nth_character_byte_pos
  // ---------------------------------------------------------------------

  /**
   * A character starts at `p`: a well-formed codepoint starts there and it
   * is not a combining mark, unless `p` is the very first byte of `s`.
   */
  predicate CharacterStartAt(s: Bytes, wcwidth: CodePoint -> int, p: nat)
  {
    ValidAt(s, p) && (p == 0 || !IsCombining(DecodeAt(s, p), wcwidth))
  }

  /**
   * What the character scan returns when it is at `p` and has already
   * counted `seen` characters: the offset of the character start at which
   * the count first exceeds `n`, or |s| when the bytes run out first.
   * Malformed bytes are skipped one at a time; combining marks are passed
   * over without being counted. The test for "first byte" is on the offset
   * in the whole of `s`, not on the offset the scan started from.
   */
  function NthCharacterPos(s: Bytes, wcwidth: CodePoint -> int, n: nat, p: nat, seen: nat): (r: nat)
    ensures r <= |s|
    ensures p <= |s| ==> p <= r
    decreases |s| - p
  {
    if p >= |s| then |s|
    else if ValidAt(s, p) then
      var k := CodepointByteCount(s, p);
      if CharacterStartAt(s, wcwidth, p) then
        if seen + 1 > n then p else NthCharacterPos(s, wcwidth, n, p + k, seen + 1)
      else NthCharacterPos(s, wcwidth, n, p + k, seen)
    else NthCharacterPos(s, wcwidth, n, p + 1, seen)
  }

  /** The byte offset of the character numbered `n` (from 0) counting from `start`, or |s|. */
  method GetNthCharacterBytePos(s: Bytes, wcwidth: CodePoint -> int, n: nat, start: nat) returns (r: nat)
    ensures r == NthCharacterPos(s, wcwidth, n, start, 0)
    ensures r <= |s|
    ensures start <= |s| ==> start <= r
  {
    var p := start;
    var count := 0;
    while p < |s|
      invariant start <= p
      invariant p == start || p <= |s|
      invariant NthCharacterPos(s, wcwidth, n, p, count) == NthCharacterPos(s, wcwidth, n, start, 0)
      decreases |s| - p
    {
      var valid := IsValidCodepointAt(s, p);
      if valid {
        var c := GetCodepointAt(s, p);
        if p == 0 || !IsCombining(c, wcwidth) {
          count := count + 1;
          if count > n {
            return p;
          }
        }
        p := p + CodepointByteCount(s, p);
      } else {
        p := p + 1;
      }
    }
    return |s|;
  }

  /**
   * One step of the character scan over a well-formed codepoint with value
   * `c`, where `first` tells whether it is at offset 0: the scan stops there
   * or moves on to the offset `q` after it, counting it unless it is a
   * combining mark.
   */
  lemma NthCharacterPosStep(s: Bytes, wcwidth: CodePoint -> int, n: nat, p: nat, seen: nat, c: CodePoint, first: bool, q: nat)
    requires ValidAt(s, p) && DecodeAt(s, p) == c && (p == 0 <==> first) && q == p + CodepointByteCount(s, p)
    ensures NthCharacterPos(s, wcwidth, n, p, seen)
      == if first || !IsCombining(c, wcwidth) then
           (if seen + 1 > n then p else NthCharacterPos(s, wcwidth, n, q, seen + 1))
         else NthCharacterPos(s, wcwidth, n, q, seen)
  {
  }

  /** Asking for a later character never gives an earlier offset. */
  lemma {:induction false} NthCharacterPosMonotone(s: Bytes, wcwidth: CodePoint -> int, n1: nat, n2: nat, p: nat, seen: nat)
    requires n1 <= n2
    ensures NthCharacterPos(s, wcwidth, n1, p, seen) <= NthCharacterPos(s, wcwidth, n2, p, seen)
    decreases |s| - p
  {
    if p < |s| {
      var k := CodepointByteCount(s, p);
      if ValidAt(s, p) {
        if CharacterStartAt(s, wcwidth, p) {
          if seen + 1 <= n1 {
            NthCharacterPosMonotone(s, wcwidth, n1, n2, p + k, seen + 1);
          }
        } else {
          NthCharacterPosMonotone(s, wcwidth, n1, n2, p + k, seen);
        }
      } else {
        NthCharacterPosMonotone(s, wcwidth, n1, n2, p + 1, seen);
      }
    }
  }

  /** An offset the character scan returns before the end is a character start. */
  lemma {:induction false} NthCharacterPosIsStart(s: Bytes, wcwidth: CodePoint -> int, n: nat, p: nat, seen: nat)
    requires NthCharacterPos(s, wcwidth, n, p, seen) < |s|
    ensures CharacterStartAt(s, wcwidth, NthCharacterPos(s, wcwidth, n, p, seen))
    decreases |s| - p
  {
    if p < |s| {
      var k := CodepointByteCount(s, p);
      if ValidAt(s, p) {
        if CharacterStartAt(s, wcwidth, p) {
          if seen + 1 <= n {
            NthCharacterPosIsStart(s, wcwidth, n, p + k, seen + 1);
          }
        } else {
          NthCharacterPosIsStart(s, wcwidth, n, p + k, seen);
        }
      } else {
        NthCharacterPosIsStart(s, wcwidth, n, p + 1, seen);
      }
    }
  }

  /** Asked for character 0 at a character start, the scan stays where it is. */
  lemma NthCharacterPosAtStart(s: Bytes, wcwidth: CodePoint -> int, p: nat)
    requires CharacterStartAt(s, wcwidth, p)
    ensures NthCharacterPos(s, wcwidth, 0, p, 0) == p
  {
  }

  /** The number of character starts at the offsets from `from` up to, not including, `to`. */
  function CharStartsIn(s: Bytes, wcwidth: CodePoint -> int, from: nat, to: nat): (r: nat)
    ensures from >= to ==> r == 0
    ensures from < to ==> r <= to - from
    decreases (to as int) - from
  {
    if from >= to then 0
    else (if CharacterStartAt(s, wcwidth, from) then 1 else 0) + CharStartsIn(s, wcwidth, from + 1, to)
  }

  /** Counting the character starts of a range is counting those of its two halves. */
  lemma {:induction false} CharStartsSplit(s: Bytes, wcwidth: CodePoint -> int, from: nat, mid: nat, to: nat)
    requires from <= mid <= to
    ensures CharStartsIn(s, wcwidth, from, to) == CharStartsIn(s, wcwidth, from, mid) + CharStartsIn(s, wcwidth, mid, to)
    decreases mid - from
  {
    if from < mid {
      CharStartsSplit(s, wcwidth, from + 1, mid, to);
    }
  }

  /** No character starts at a continuation byte, so none strictly inside a well-formed codepoint. */
  lemma {:induction false} NoCharStartInside(s: Bytes, wcwidth: CodePoint -> int, p: nat, from: nat)
    requires ValidAt(s, p) && p < from <= p + CodepointByteCount(s, p)
    ensures CharStartsIn(s, wcwidth, from, p + CodepointByteCount(s, p)) == 0
    decreases p + CodepointByteCount(s, p) - from
  {
    if from < p + CodepointByteCount(s, p) {
      assert IsContinuation(s[from]);
      assert CodepointByteCount(s, from) == 0;
      NoCharStartInside(s, wcwidth, p, from + 1);
    }
  }

  /** Counting character starts over one well-formed codepoint counts only its first byte. */
  lemma CharStartsOverCodepoint(s: Bytes, wcwidth: CodePoint -> int, p: nat, q: nat, to: nat)
    requires ValidAt(s, p) && q == p + CodepointByteCount(s, p) && q <= to
    ensures CharStartsIn(s, wcwidth, p, to) == (if CharacterStartAt(s, wcwidth, p) then 1 else 0) + CharStartsIn(s, wcwidth, q, to)
  {
    NoCharStartInside(s, wcwidth, p, p + 1);
    CharStartsSplit(s, wcwidth, p + 1, q, to);
  }

  /** A malformed byte is not a character start. */
  lemma CharStartsOverMalformed(s: Bytes, wcwidth: CodePoint -> int, p: nat, to: nat)
    requires !ValidAt(s, p) && p < to
    ensures CharStartsIn(s, wcwidth, p, to) == CharStartsIn(s, wcwidth, p + 1, to)
  {
  }

  /**
   * The character scan from `p`, with `seen` characters already counted,
   * stops at the character start that has exactly n - seen character starts
   * between `p` and it; when it runs to the end, the whole of the rest of `s`
   * holds at most n - seen character starts. Together with
   * NthCharacterPosIsStart: the result is character number `n`, or |s| when
   * there are not that many.
   */
  lemma {:induction false} NthCharacterPosCounts(s: Bytes, wcwidth: CodePoint -> int, n: nat, p: nat, seen: nat)
    requires p <= |s| && seen <= n
    ensures var r := NthCharacterPos(s, wcwidth, n, p, seen);
      && (r < |s| ==> seen + CharStartsIn(s, wcwidth, p, r) == n)
      && (r == |s| ==> seen + CharStartsIn(s, wcwidth, p, |s|) <= n)
    decreases |s| - p
  {
    var r := NthCharacterPos(s, wcwidth, n, p, seen);
    if p < |s| {
      if ValidAt(s, p) {
        var q := p + CodepointByteCount(s, p);
        NthCharacterPosStep(s, wcwidth, n, p, seen, DecodeAt(s, p), p == 0, q);
        if CharacterStartAt(s, wcwidth, p) {
          if seen + 1 <= n {
            NthCharacterPosCounts(s, wcwidth, n, q, seen + 1);
            CharStartsOverCodepoint(s, wcwidth, p, q, r);
          }
        } else {
          NthCharacterPosCounts(s, wcwidth, n, q, seen);
          CharStartsOverCodepoint(s, wcwidth, p, q, r);
        }
      } else {
        NthCharacterPosCounts(s, wcwidth, n, p + 1, seen);
        CharStartsOverMalformed(s, wcwidth, p, r);
      }
    }
  }

  // ---------------------------------------------------------------------
  // Concatenation
  // ---------------------------------------------------------------------

  /** Prepending `a` does not change whether the rest of `b` is valid. */
  lemma {:induction false} ValidFromSuffix(a: Bytes, b: Bytes, p: nat)
    ensures ValidFrom(a + b, |a| + p) == ValidFrom(b, p)
    decreases |b| - p
  {
    DecodeAtSuffix(a, b, p);
    if p < |b| && ValidAt(b, p) {
      ValidFromSuffix(a, b, p + CodepointByteCount(b, p));
    }
  }

  /** Prepending `a` does not change what the counting scan counts in `b`. */
  lemma {:induction false} CountFromSuffix(a: Bytes, b: Bytes, p: nat)
    ensures CountFrom(a + b, |a| + p) == CountFrom(b, p)
    decreases |b| - p
  {
    DecodeAtSuffix(a, b, p);
    if p < |b| {
      var k := CodepointByteCount(b, p);
      if k == 0 {
        CountFromSuffix(a, b, p + 1);
      } else {
        CountFromSuffix(a, b, p + k);
      }
    }
  }

  /** Prepending `a` does not change the widths the width scan adds in `b`. */
  lemma {:induction false} WidthFromSuffix(a: Bytes, b: Bytes, wcwidth: CodePoint -> int, p: nat)
    ensures WidthFrom(a + b, wcwidth, |a| + p) == WidthFrom(b, wcwidth, p)
    decreases |b| - p
  {
    DecodeAtSuffix(a, b, p);
    if p < |b| {
      var k := CodepointByteCount(b, p);
      var q := if k == 0 then p + 1 else p + k;
      WidthStep(b, wcwidth, p, q);
      WidthStep(a + b, wcwidth, |a| + p, |a| + q);
      WidthFromSuffix(a, b, wcwidth, q);
    }
  }

  /** At a well-formed codepoint each scan passes exactly its bytes, counting it once and adding its width. */
  lemma ScanStep(s: Bytes, wcwidth: CodePoint -> int, p: nat, q: nat)
    requires ValidAt(s, p) && q == p + CodepointByteCount(s, p)
    ensures ValidFrom(s, p) == ValidFrom(s, q)
    ensures CountFrom(s, p) == 1 + CountFrom(s, q)
    ensures WidthFrom(s, wcwidth, p) == CharWidth(DecodeAt(s, p), wcwidth) + WidthFrom(s, wcwidth, q)
  {
  }

  /**
   * When `a` is valid from `p`, the scans of `a + b` from `p` pass through
   * the codepoints of `a` and reach offset |a| exactly, so each measure of
   * `a + b` is that of `a` followed by that of `b`.
   */
  lemma {:induction false} ScanConcat(a: Bytes, b: Bytes, wcwidth: CodePoint -> int, p: nat)
    requires p <= |a| && ValidFrom(a, p)
    ensures ValidFrom(a + b, p) == ValidFrom(b, 0)
    ensures CountFrom(a + b, p) == CountFrom(a, p) + CountFrom(b, 0)
    ensures WidthFrom(a + b, wcwidth, p) == WidthFrom(a, wcwidth, p) + WidthFrom(b, wcwidth, 0)
    decreases |a| - p
  {
    if p == |a| {
      ValidFromSuffix(a, b, 0);
      CountFromSuffix(a, b, 0);
      WidthFromSuffix(a, b, wcwidth, 0);
    } else {
      var q := p + CodepointByteCount(a, p);
      DecodeAtPrefix(a, b, p);
      ScanStep(a, wcwidth, p, q);
      ScanStep(a + b, wcwidth, p, q);
      ScanConcat(a, b, wcwidth, q);
    }
  }

  /**
   * After a valid `a`, the concatenation is valid exactly when `b` is, and
   * codepoint counts and widths add up.
   */
  lemma ValidPrefixConcat(a: Bytes, b: Bytes, wcwidth: CodePoint -> int)
    requires ValidUtf8(a)
    ensures ValidUtf8(a + b) <==> ValidUtf8(b)
    ensures CountFrom(a + b, 0) == CountFrom(a, 0) + CountFrom(b, 0)
    ensures WidthFrom(a + b, wcwidth, 0) == WidthFrom(a, wcwidth, 0) + WidthFrom(b, wcwidth, 0)
  {
    ScanConcat(a, b, wcwidth, 0);
  }
}
