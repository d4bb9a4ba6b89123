/**
 * The strings of the repository's test program, and what the model says
 * about each of the checks it makes on them.
 *
 * Every byte string is the encoder's output on a short codepoint sequence,
 * so its counts, validity, decoding and substrings follow from the general
 * lemmas about encoded text; only the encodings of the pieces are computed.
 */
module Utf8Scenarios {
  import opened Utf8Decoder
  import opened Utf8Width
  import opened Utf8Scanner
  import opened Utf8Codec
  import opened Utf8Extract

  const ENGLISH: Bytes := [0x45, 0x6E, 0x67, 0x6C, 0x69, 0x73, 0x68]
  const FRANCAIS: Bytes := [0x46, 0x72, 0x61, 0x6E, 0xC3, 0xA7, 0x61, 0x69, 0x73]
  const CHINESE: Bytes := [0xE6, 0x99, 0xAE, 0xE9, 0x80, 0x9A, 0xE8, 0xAF, 0x9D]
  const CARDS: Bytes := [0xF0, 0x9F, 0x82, 0xA1, 0xF0, 0x9F, 0x82, 0xA2]

  const ENGLISH_CPS: seq<CodePoint> := [0x45, 0x6E, 0x67, 0x6C, 0x69, 0x73, 0x68]
  const FRANCAIS_CPS: seq<CodePoint> := [0x46, 0x72, 0x61, 0x6E, 0xE7, 0x61, 0x69, 0x73]
  const CHINESE_CPS: seq<CodePoint> := [0x666E, 0x901A, 0x8BDD]
  const CARDS_CPS: seq<CodePoint> := [0x1F0A1, 0x1F0A2]

  // Short runs of codepoints and their encodings. Each longer string is
  // cut into such runs and put back together with EncodedAppend.

  /** The ASCII run "Eng" encodes as its own bytes. */
  lemma AsciiEngEncoding()
    ensures Encoded([0x45, 0x6E, 0x67]) == [0x45, 0x6E, 0x67]
  {
  }

  /** The ASCII run "lis" encodes as its own bytes. */
  lemma AsciiLisEncoding()
    ensures Encoded([0x6C, 0x69, 0x73]) == [0x6C, 0x69, 0x73]
  {
  }

  /** The ASCII run "h" encodes as its own bytes. */
  lemma AsciiHEncoding()
    ensures Encoded([0x68]) == [0x68]
  {
  }

  /** The ASCII run "Fra" encodes as its own bytes. */
  lemma AsciiFraEncoding()
    ensures Encoded([0x46, 0x72, 0x61]) == [0x46, 0x72, 0x61]
  {
  }

  /** "nç": the ç (U+00E7) takes the two bytes C3 A7. */
  lemma NCedillaEncoding()
    ensures Encoded([0x6E, 0xE7]) == [0x6E, 0xC3, 0xA7]
  {
  }

  /** The ASCII run "ais" encodes as its own bytes. */
  lemma AsciiAisEncoding()
    ensures Encoded([0x61, 0x69, 0x73]) == [0x61, 0x69, 0x73]
  {
  }

  lemma EnglishPieces()
    ensures ENGLISH_CPS == [0x45, 0x6E, 0x67] + [0x6C, 0x69, 0x73] + [0x68]
    ensures ENGLISH == [0x45, 0x6E, 0x67] + [0x6C, 0x69, 0x73] + [0x68]
  {
  }

  lemma FrancaisPieces()
    ensures FRANCAIS_CPS == [0x46, 0x72, 0x61] + [0x6E, 0xE7] + [0x61, 0x69, 0x73]
    ensures FRANCAIS == [0x46, 0x72, 0x61] + [0x6E, 0xC3, 0xA7] + [0x61, 0x69, 0x73]
  {
  }

  lemma EnglishEncoding()
    ensures Encoded(ENGLISH_CPS) == ENGLISH
  {
    AsciiEngEncoding();
    AsciiLisEncoding();
    AsciiHEncoding();
    EnglishPieces();
    EncodedAppend([0x45, 0x6E, 0x67], [0x6C, 0x69, 0x73]);
    EncodedAppend([0x45, 0x6E, 0x67] + [0x6C, 0x69, 0x73], [0x68]);
  }

  lemma FrancaisEncoding()
    ensures Encoded(FRANCAIS_CPS) == FRANCAIS
  {
    AsciiFraEncoding();
    NCedillaEncoding();
    AsciiAisEncoding();
    FrancaisPieces();
    EncodedAppend([0x46, 0x72, 0x61], [0x6E, 0xE7]);
    EncodedAppend([0x46, 0x72, 0x61] + [0x6E, 0xE7], [0x61, 0x69, 0x73]);
  }

  lemma ChineseEncoding()
    ensures Encoded(CHINESE_CPS) == CHINESE
  {
  }

  lemma CardsEncoding()
    ensures Encoded(CARDS_CPS) == CARDS
  {
  }

  lemma EnglishInRange()
    ensures AllInRange(ENGLISH_CPS)
  {
  }

  lemma FrancaisInRange()
    ensures AllInRange(FRANCAIS_CPS)
  {
  }

  lemma ChineseInRange()
    ensures AllInRange(CHINESE_CPS)
  {
  }

  lemma CardsInRange()
    ensures AllInRange(CARDS_CPS)
  {
  }

  // The size, validity and codepoint count of each test string follow from
  // its being the encoding of its codepoints.

  lemma EnglishCount()
    ensures |ENGLISH| == 7 && ValidUtf8(ENGLISH) && CountFrom(ENGLISH, 0) == 7
  {
    EnglishEncoding();
    EnglishInRange();
    RoundTrip(ENGLISH_CPS);
  }

  /** The ç takes two bytes, so nine bytes hold eight codepoints. */
  lemma FrancaisCount()
    ensures |FRANCAIS| == 9 && ValidUtf8(FRANCAIS) && CountFrom(FRANCAIS, 0) == 8
  {
    FrancaisEncoding();
    FrancaisInRange();
    RoundTrip(FRANCAIS_CPS);
  }

  lemma ChineseCount()
    ensures |CHINESE| == 9 && ValidUtf8(CHINESE) && CountFrom(CHINESE, 0) == 3
  {
    ChineseEncoding();
    ChineseInRange();
    RoundTrip(CHINESE_CPS);
  }

  lemma CardsCount()
    ensures |CARDS| == 8 && ValidUtf8(CARDS) && CountFrom(CARDS, 0) == 2
  {
    CardsEncoding();
    CardsInRange();
    RoundTrip(CARDS_CPS);
  }

  /** The concatenation of the French and the Chinese string: 18 bytes, 11 codepoints. */
  lemma ConcatenationCount()
    ensures |FRANCAIS + CHINESE| == 18
    ensures CountFrom(FRANCAIS + CHINESE, 0) == 11
  {
    FrancaisCount();
    ChineseCount();
    ConcatValid(FRANCAIS, CHINESE);
  }

  /** The string the decode, substring and validity tests work on, and its codepoints. */
  const MIXED: Bytes := FRANCAIS + CHINESE + CARDS
  const MIXED_CPS: seq<CodePoint> := FRANCAIS_CPS + CHINESE_CPS + CARDS_CPS

  lemma MixedEncoding()
    ensures Encoded(MIXED_CPS) == MIXED
  {
    FrancaisEncoding();
    ChineseEncoding();
    CardsEncoding();
    EncodedAppend(FRANCAIS_CPS + CHINESE_CPS, CARDS_CPS);
    EncodedAppend(FRANCAIS_CPS, CHINESE_CPS);
  }

  /**
   * The mixed string is valid UTF-8, decodes to its 13 codepoints, and
   * re-encoding the decoded codepoints gives back the same bytes.
   */
  lemma MixedReEncode()
    ensures ValidUtf8(MIXED)
    ensures Decoded(MIXED) == MIXED_CPS
    ensures Encoded(Decoded(MIXED)) == MIXED
  {
    MixedEncoding();
    MixedInRange();
    RoundTrip(MIXED_CPS);
  }

  lemma MixedInRange()
    ensures AllInRange(MIXED_CPS)
  {
  }

  /** Only the Chinese characters and the cards are at or above U+0300. */
  lemma MixedWithoutMarks(wcwidth: CodePoint -> int)
    requires wcwidth(0x666E) != 0 && wcwidth(0x901A) != 0 && wcwidth(0x8BDD) != 0
    requires wcwidth(0x1F0A1) != 0 && wcwidth(0x1F0A2) != 0
    ensures forall i | 0 < i < |MIXED_CPS| :: !IsCombining(MIXED_CPS[i], wcwidth)
  {
  }

  /**
   * With a width table that gives the Chinese characters and the playing
   * cards a width other than 0 (every other codepoint of the mixed string is
   * below U+0300, where the table is not consulted), every codepoint of the
   * mixed string is one character, so its character substrings are the
   * encodings of codepoint slices.
   */
  lemma MixedSubstringIsSlice(wcwidth: CodePoint -> int, pos: nat, count: nat)
    requires wcwidth(0x666E) != 0 && wcwidth(0x901A) != 0 && wcwidth(0x8BDD) != 0
    requires wcwidth(0x1F0A1) != 0 && wcwidth(0x1F0A2) != 0
    ensures Utf8Substring(MIXED, wcwidth, pos, count) == Encoded(CodepointSlice(MIXED_CPS, pos, count))
  {
    MixedEncoding();
    MixedInRange();
    MixedWithoutMarks(wcwidth);
    Utf8SubstringEncoded(MIXED_CPS, wcwidth, pos, count);
    CharSlicePlain(MIXED_CPS, wcwidth, pos, count);
  }

  /** The first five characters of the mixed string, "Franç". */
  const HEAD_CPS: seq<CodePoint> := [0x46, 0x72, 0x61, 0x6E, 0xE7]
  const HEAD: Bytes := [0x46, 0x72, 0x61, 0x6E, 0xC3, 0xA7]

  lemma HeadPieces()
    ensures HEAD_CPS == [0x46, 0x72, 0x61] + [0x6E, 0xE7]
    ensures HEAD == [0x46, 0x72, 0x61] + [0x6E, 0xC3, 0xA7]
  {
  }

  lemma HeadEncoding()
    ensures Encoded(HEAD_CPS) == HEAD
  {
    AsciiFraEncoding();
    NCedillaEncoding();
    HeadPieces();
    EncodedAppend([0x46, 0x72, 0x61], [0x6E, 0xE7]);
  }

  lemma MiddleEncoding()
    ensures Encoded([0x8BDD, 0x1F0A1]) == [0xE8, 0xAF, 0x9D, 0xF0, 0x9F, 0x82, 0xA1]
  {
  }

  lemma LastEncoding()
    ensures Encoded([0x1F0A2]) == [0xF0, 0x9F, 0x82, 0xA2]
  {
  }

  // The six substring checks the test program makes on the mixed string.

  lemma MixedSubstringHead(wcwidth: CodePoint -> int)
    requires wcwidth(0x666E) != 0 && wcwidth(0x901A) != 0 && wcwidth(0x8BDD) != 0
    requires wcwidth(0x1F0A1) != 0 && wcwidth(0x1F0A2) != 0
    ensures Utf8Substring(MIXED, wcwidth, 0, 5) == HEAD
  {
    MixedSubstringIsSlice(wcwidth, 0, 5);
    assert CodepointSlice(MIXED_CPS, 0, 5) == HEAD_CPS;
    HeadEncoding();
  }

  lemma MixedSubstringMiddle(wcwidth: CodePoint -> int)
    requires wcwidth(0x666E) != 0 && wcwidth(0x901A) != 0 && wcwidth(0x8BDD) != 0
    requires wcwidth(0x1F0A1) != 0 && wcwidth(0x1F0A2) != 0
    ensures Utf8Substring(MIXED, wcwidth, 10, 2) == [0xE8, 0xAF, 0x9D, 0xF0, 0x9F, 0x82, 0xA1]
  {
    MixedSubstringIsSlice(wcwidth, 10, 2);
    assert CodepointSlice(MIXED_CPS, 10, 2) == [0x8BDD, 0x1F0A1];
    MiddleEncoding();
  }

  lemma MixedSubstringEmpty(wcwidth: CodePoint -> int)
    requires wcwidth(0x666E) != 0 && wcwidth(0x901A) != 0 && wcwidth(0x8BDD) != 0
    requires wcwidth(0x1F0A1) != 0 && wcwidth(0x1F0A2) != 0
    ensures Utf8Substring(MIXED, wcwidth, 10, 0) == []
  {
    MixedSubstringIsSlice(wcwidth, 10, 0);
    assert CodepointSlice(MIXED_CPS, 10, 0) == [];
  }

  lemma MixedSubstringLast(wcwidth: CodePoint -> int)
    requires wcwidth(0x666E) != 0 && wcwidth(0x901A) != 0 && wcwidth(0x8BDD) != 0
    requires wcwidth(0x1F0A1) != 0 && wcwidth(0x1F0A2) != 0
    ensures Utf8Substring(MIXED, wcwidth, 12, 100) == [0xF0, 0x9F, 0x82, 0xA2]
    ensures Utf8Substring(MIXED, wcwidth, 12, NPOS) == [0xF0, 0x9F, 0x82, 0xA2]
  {
    MixedSubstringIsSlice(wcwidth, 12, 100);
    assert CodepointSlice(MIXED_CPS, 12, 100) == [0x1F0A2];
    LastEncoding();
    MixedSubstringIsSlice(wcwidth, 12, NPOS);
    assert CodepointSlice(MIXED_CPS, 12, NPOS) == [0x1F0A2];
  }

  /** The codepoints from index 8 on are those of the Chinese string and the cards. */
  lemma MixedTailSlice()
    ensures CodepointSlice(MIXED_CPS, 8, NPOS) == CHINESE_CPS + CARDS_CPS
  {
    assert |FRANCAIS_CPS| == 8;
    assert MIXED_CPS[8..] == CHINESE_CPS + CARDS_CPS;
  }

  lemma MixedSubstringTail(wcwidth: CodePoint -> int)
    requires wcwidth(0x666E) != 0 && wcwidth(0x901A) != 0 && wcwidth(0x8BDD) != 0
    requires wcwidth(0x1F0A1) != 0 && wcwidth(0x1F0A2) != 0
    ensures Utf8Substring(MIXED, wcwidth, 8, NPOS) == CHINESE + CARDS
  {
    MixedSubstringIsSlice(wcwidth, 8, NPOS);
    MixedTailSlice();
    ChineseEncoding();
    CardsEncoding();
    EncodedAppend(CHINESE_CPS, CARDS_CPS);
  }

  // ---------------------------------------------------------------------
  // Combining marks
  // ---------------------------------------------------------------------

  /** "Gru" + U+0308 + U+00DF + "e": the diaeresis combines with the "u". */
  const HELLO_CPS: seq<CodePoint> := [0x47, 0x72, 0x75, 0x0308, 0xDF, 0x65]
  const HELLO: Bytes := [0x47, 0x72, 0x75, 0xCC, 0x88, 0xC3, 0x9F, 0x65]

  /** Two combining marks after the "u". */
  const HELLO2_CPS: seq<CodePoint> := [0x47, 0x72, 0x75, 0x0308, 0x0301, 0xDF, 0x65]
  const HELLO2: Bytes := [0x47, 0x72, 0x75, 0xCC, 0x88, 0xCC, 0x81, 0xC3, 0x9F, 0x65]

  /** An isolated combining mark at the very start. */
  const HELLO3_CPS: seq<CodePoint> := [0x0301, 0x47, 0x72, 0x75, 0x0308, 0xDF, 0x65]
  const HELLO3: Bytes := [0xCC, 0x81, 0x47, 0x72, 0x75, 0xCC, 0x88, 0xC3, 0x9F, 0x65]

  /** What the test expects of the two head checks: "Gru" with one or with both accents. */
  const HELLO_HEAD_CPS: seq<CodePoint> := [0x47, 0x72, 0x75, 0x0308]
  const HELLO_HEAD: Bytes := [0x47, 0x72, 0x75, 0xCC, 0x88]
  const HELLO2_HEAD_CPS: seq<CodePoint> := [0x47, 0x72, 0x75, 0x0308, 0x0301]
  const HELLO2_HEAD: Bytes := [0x47, 0x72, 0x75, 0xCC, 0x88, 0xCC, 0x81]

  lemma GruEncoding()
    ensures Encoded([0x47, 0x72, 0x75]) == [0x47, 0x72, 0x75]
  {
  }

  /** The diaeresis U+0308 takes the two bytes CC 88. */
  lemma DiaeresisEncoding()
    ensures Encoded([0x0308]) == [0xCC, 0x88]
  {
  }

  /** The acute accent U+0301 takes the two bytes CC 81. */
  lemma AcuteEncoding()
    ensures Encoded([0x0301]) == [0xCC, 0x81]
  {
  }

  lemma AccentsEncoding()
    ensures Encoded([0x0308, 0x0301]) == [0xCC, 0x88, 0xCC, 0x81]
  {
  }

  /** The ß (U+00DF) takes the two bytes C3 9F. */
  lemma SzEncoding()
    ensures Encoded([0xDF, 0x65]) == [0xC3, 0x9F, 0x65]
  {
  }

  lemma HelloPieces()
    ensures HELLO_CPS == [0x47, 0x72, 0x75] + [0x0308] + [0xDF, 0x65]
    ensures HELLO == [0x47, 0x72, 0x75] + [0xCC, 0x88] + [0xC3, 0x9F, 0x65]
    ensures HELLO_HEAD_CPS == [0x47, 0x72, 0x75] + [0x0308]
    ensures HELLO_HEAD == [0x47, 0x72, 0x75] + [0xCC, 0x88]
  {
  }

  lemma Hello2Pieces()
    ensures HELLO2_CPS == [0x47, 0x72, 0x75] + [0x0308, 0x0301] + [0xDF, 0x65]
    ensures HELLO2 == [0x47, 0x72, 0x75] + [0xCC, 0x88, 0xCC, 0x81] + [0xC3, 0x9F, 0x65]
    ensures HELLO2_HEAD_CPS == [0x47, 0x72, 0x75] + [0x0308, 0x0301]
    ensures HELLO2_HEAD == [0x47, 0x72, 0x75] + [0xCC, 0x88, 0xCC, 0x81]
  {
  }

  lemma Hello3Pieces()
    ensures HELLO3_CPS == [0x0301] + [0x47, 0x72, 0x75] + [0x0308] + [0xDF, 0x65]
    ensures HELLO3 == [0xCC, 0x81] + [0x47, 0x72, 0x75] + [0xCC, 0x88] + [0xC3, 0x9F, 0x65]
  {
  }

  lemma HelloInRange()
    ensures AllInRange(HELLO_CPS) && AllInRange(HELLO2_CPS) && AllInRange(HELLO3_CPS)
  {
  }

  lemma HelloEncoding()
    ensures Encoded(HELLO_CPS) == HELLO
  {
    GruEncoding();
    DiaeresisEncoding();
    SzEncoding();
    HelloPieces();
    EncodedAppend([0x47, 0x72, 0x75], [0x0308]);
    EncodedAppend([0x47, 0x72, 0x75] + [0x0308], [0xDF, 0x65]);
  }

  lemma Hello2Encoding()
    ensures Encoded(HELLO2_CPS) == HELLO2
  {
    GruEncoding();
    AccentsEncoding();
    SzEncoding();
    Hello2Pieces();
    EncodedAppend([0x47, 0x72, 0x75], [0x0308, 0x0301]);
    EncodedAppend([0x47, 0x72, 0x75] + [0x0308, 0x0301], [0xDF, 0x65]);
  }

  lemma Hello3Encoding()
    ensures Encoded(HELLO3_CPS) == HELLO3
  {
    AcuteEncoding();
    GruEncoding();
    DiaeresisEncoding();
    SzEncoding();
    Hello3Pieces();
    EncodedAppend([0x0301], [0x47, 0x72, 0x75]);
    EncodedAppend([0x0301] + [0x47, 0x72, 0x75], [0x0308]);
    EncodedAppend([0x0301] + [0x47, 0x72, 0x75] + [0x0308], [0xDF, 0x65]);
  }

  // With a table that gives the two accents width 0, a combining mark stays
  // with the character before it, and one at the very start counts as a
  // character of its own. Each check splits into the codepoints the
  // character scan keeps and their encoding.

  lemma HelloHeadSlice(wcwidth: CodePoint -> int)
    requires wcwidth(0x0308) == 0
    ensures CharSlice(HELLO_CPS, wcwidth, 0, 3) == HELLO_HEAD_CPS
  {
  }

  lemma HelloHeadBytes()
    ensures Encoded(HELLO_HEAD_CPS) == HELLO_HEAD
  {
    GruEncoding();
    DiaeresisEncoding();
    HelloPieces();
    EncodedAppend([0x47, 0x72, 0x75], [0x0308]);
  }

  lemma CombiningHead(wcwidth: CodePoint -> int)
    requires wcwidth(0x0308) == 0
    ensures Utf8Substring(HELLO, wcwidth, 0, 3) == HELLO_HEAD
  {
    HelloEncoding();
    HelloInRange();
    HelloHeadSlice(wcwidth);
    HelloHeadBytes();
    Utf8SubstringEncoded(HELLO_CPS, wcwidth, 0, 3);
  }

  lemma HelloAfterMarkSlice(wcwidth: CodePoint -> int)
    requires wcwidth(0x0308) == 0
    ensures CharSlice(HELLO_CPS, wcwidth, 3, 1) == [0xDF]
  {
  }

  lemma CombiningAfterMark(wcwidth: CodePoint -> int)
    requires wcwidth(0x0308) == 0
    ensures Utf8Substring(HELLO, wcwidth, 3, 1) == [0xC3, 0x9F]
  {
    HelloEncoding();
    HelloInRange();
    HelloAfterMarkSlice(wcwidth);
    assert Encoded([0xDF]) == [0xC3, 0x9F];
    Utf8SubstringEncoded(HELLO_CPS, wcwidth, 3, 1);
  }

  lemma HelloTwoMarksSlice(wcwidth: CodePoint -> int)
    requires wcwidth(0x0308) == 0 && wcwidth(0x0301) == 0
    ensures CharSlice(HELLO2_CPS, wcwidth, 0, 3) == HELLO2_HEAD_CPS
  {
  }

  lemma HelloTwoMarksBytes()
    ensures Encoded(HELLO2_HEAD_CPS) == HELLO2_HEAD
  {
    GruEncoding();
    AccentsEncoding();
    Hello2Pieces();
    EncodedAppend([0x47, 0x72, 0x75], [0x0308, 0x0301]);
  }

  lemma CombiningTwoMarks(wcwidth: CodePoint -> int)
    requires wcwidth(0x0308) == 0 && wcwidth(0x0301) == 0
    ensures Utf8Substring(HELLO2, wcwidth, 0, 3) == HELLO2_HEAD
  {
    Hello2Encoding();
    HelloInRange();
    HelloTwoMarksSlice(wcwidth);
    HelloTwoMarksBytes();
    Utf8SubstringEncoded(HELLO2_CPS, wcwidth, 0, 3);
  }

  lemma HelloIsolatedMarkSlice(wcwidth: CodePoint -> int)
    requires wcwidth(0x0308) == 0 && wcwidth(0x0301) == 0
    ensures CharSlice(HELLO3_CPS, wcwidth, 0, 3) == [0x0301, 0x47, 0x72]
  {
  }

  lemma HelloIsolatedMarkBytes()
    ensures Encoded([0x0301, 0x47, 0x72]) == [0xCC, 0x81, 0x47, 0x72]
  {
  }

  lemma CombiningIsolatedMark(wcwidth: CodePoint -> int)
    requires wcwidth(0x0308) == 0 && wcwidth(0x0301) == 0
    ensures Utf8Substring(HELLO3, wcwidth, 0, 3) == [0xCC, 0x81, 0x47, 0x72]
  {
    Hello3Encoding();
    HelloInRange();
    HelloIsolatedMarkSlice(wcwidth);
    HelloIsolatedMarkBytes();
    Utf8SubstringEncoded(HELLO3_CPS, wcwidth, 0, 3);
  }
}
