/**
 * Display width of a codepoint and the combining-mark test of utf8util.cpp.
 *
 * The display-width table `mk_wcwidth` is not part of this model: every
 * operation that needs it takes it as a parameter `wcwidth`, a function from
 * codepoints to the table's integer answer (0, 1, 2, or -1 for control
 * characters in the real table; any integer here).
 */
module Utf8Width {
  import opened Utf8Decoder

  const BACKSPACE: CodePoint := 0x08

  /** The first codepoint the combining test consults the table for. */
  const FIRST_COMBINING: CodePoint := 0x0300

  /**
   * The width `char_width` reports: the table's answer when it is not
   * negative; for a negative answer -1 for BACKSPACE (it erases a column)
   * and 0 for every other control character.
   */
  function CharWidth(c: CodePoint, wcwidth: CodePoint -> int): (w: int)
    ensures wcwidth(c) >= 0 ==> w == wcwidth(c)
    ensures wcwidth(c) < 0 ==> (w == -1 <==> c == BACKSPACE)
    ensures wcwidth(c) < 0 ==> -1 <= w <= 0
    ensures w < 0 <==> c == BACKSPACE && wcwidth(c) < 0
  {
    var width := wcwidth(c);
    if width < 0 then (if c == BACKSPACE then -1 else 0)
    else width
  }

  /**
   * A combining mark: never below U+0300 (the table is not consulted there),
   * and from U+0300 on exactly the codepoints the table gives width 0.
   */
  function IsCombining(c: CodePoint, wcwidth: CodePoint -> int): (r: bool)
    ensures c < FIRST_COMBINING ==> !r
    ensures c >= FIRST_COMBINING ==> (r <==> wcwidth(c) == 0)
    ensures r ==> CharWidth(c, wcwidth) == 0
  {
    c >= FIRST_COMBINING && wcwidth(c) == 0
  }
}
