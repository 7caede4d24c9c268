/**
 * How the scan behaves after noise: moving one glyph at a time does not always
 * bring it back to the group boundaries, because a window straddling two groups
 * can itself be a valid group.
 */
module Resynchronisation {
  import opened Wrappers
  import opened CodecTables
  import opened Checksum
  import opened GroupCodec
  import opened ExternalEncoding
  import opened CharacterAssembler
  import opened Encoder
  import opened Decoder

  /** The group of the word 0x0022 (the byte of '"') under the single-byte tag. */
  lemma QuoteGroup()
    ensures EncodeGroup(0x0022, TypeSingleByte) == "▓▓▖▖▓"
  {
    assert ContentGlyphs(0x0022) == "▓▓▖▖";
    XorFoldOfFour("▓▓▖▖");
    ChecksumGlyphNibble(0);
    assert CalculateChecksum("▓▓▖▖", TypeSingleByte) == '▓';
  }

  /** The group of the word 0x0220 under the single-byte tag: the quote group read one glyph late. */
  lemma ShiftedGroup()
    ensures EncodeGroup(0x0220, TypeSingleByte) == "▓▖▖▓▓"
  {
    assert ContentGlyphs(0x0220) == "▓▖▖▓";
    XorFoldOfFour("▓▖▖▓");
    ChecksumGlyphNibble(0);
    assert CalculateChecksum("▓▖▖▓", TypeSingleByte) == '▓';
  }

  /** The glyphs written for the single byte 0x22. */
  lemma QuoteGlyphs()
    ensures CharGlyphs([0x22]) == "▓▓▖▖▓"
  {
    QuoteGroup();
    PackedWordsSpelled([0x22]);
    GroupsGlyphsAt(PackedWords([0x22]), TypeSingleByte, 0);
  }

  /** A turn on the shifted window emits a space and moves 5. */
  lemma StepOnShifted(text: string, pos: nat, codec: Codec)
    requires codec.decode([0x20]) == Some(" ")
    requires pos + 5 <= |text| && text[pos..pos + 5] == "▓▖▖▓▓"
    ensures StepAt(text, pos, codec) == Step(Some(" "), 5)
  {
    ShiftedGroup();
    DecodeEncodedGroup(0x0220, TypeSingleByte, None);
    assert BytesFromGroups([Some(DecodedGroup(0x0220, TypeSingleByte))]) == Some([0x20]);
  }

  /**
   * Moving 1 past noise does not always bring the scan back in step: after four
   * noise glyphs, each window straddling two '"' groups is itself a valid
   * single-byte group (0x0220), so the scan emits two spaces, moves 5 each time
   * and never reads the quotes.
   */
  lemma NoiseShiftsScan(codec: Codec)
    requires codec.decode([0x20]) == Some(" ")
    ensures CharGlyphs([0x22]) == "▓▓▖▖▓"
    ensures DecodeFrom("▓▖▖▓" + CharGlyphs([0x22]) + CharGlyphs([0x22]), 0, codec) == [" ", " "]
  {
    QuoteGlyphs();
    assert "▓▖▖▓" + "▓▓▖▖▓" + "▓▓▖▖▓" == ShiftedText;
    ScanShiftedText(codec);
  }

  /** Four noise glyphs followed by two '"' groups. */
  const ShiftedText: string := "▓▖▖▓▓▓▖▖▓▓▓▖▖▓"

  /** The scan of ShiftedText reads the windows at 0 and 5, each a shifted group, and stops at 10. */
  lemma ScanShiftedText(codec: Codec)
    requires codec.decode([0x20]) == Some(" ")
    ensures DecodeFrom(ShiftedText, 0, codec) == [" ", " "]
  {
    var text := ShiftedText;
    assert text[0..5] == "▓▖▖▓▓" && text[5..10] == "▓▖▖▓▓";
    StepOnShifted(text, 0, codec);
    StepOnShifted(text, 5, codec);
    DecodeFromStep(text, 0, codec);
    DecodeFromStep(text, 5, codec);
    assert DecodeFrom(text, 10, codec) == [];
  }
}
