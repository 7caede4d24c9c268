# Cosmic language block-glyph codec

This project models the `CosmicLanguageCodec` of `cosmic_language.py` in Dafny. The codec writes every
character of a text as block glyphs (`▀ ▄ █ ▌ ▐ ▓ ▖ ▗ ▘ ▙ ▚ ▛ ▜ ▝ ▞ ▟`). Each glyph stands for one
4-bit nibble.

- **Encoding.** A character's GB18030 bytes (1 to 4 of them) are packed into one or two 16-bit words,
  tagged with the character's type (0 to 3 for 1 to 4 bytes). Each word becomes a group of five glyphs:
  four content glyphs spell the word, high nibble first, and a fifth checksum glyph covers the four and
  the tag. A character with no bytes becomes the error marker `▓▓▓▓▓`.
- **Decoding.** The decoder scans the glyph string with a position. A 5-glyph window that validates
  under a one-group tag gives a character and moves 5. One that validates under a two-group tag moves 10,
  but only when the next window validates under the same tag and the character decodes. Everything else
  moves 1, so the next window is tried. The scan is not guaranteed to get back in step with the group
  boundaries: a window straddling two groups can itself be a valid group (lemma
  `Resynchronisation.NoiseShiftsScan`).

The modules follow the parts of the source:

- `CodecTables` (`tables.dfy`): the glyph tables and type tags built in `__init__`.
- `Checksum` (`checksum.dfy`): `_calculate_checksum` and `_verify_checksum`.
- `GroupCodec` (`group_codec.dfy`): one group, and `_try_decode_group`.
- `CharacterAssembler` (`assembler.dfy`): byte packing, and `_decode_character_from_groups`.
- `Encoder` (`encoder.dfy`): `encode_char` and `encode_text`.
- `Decoder` (`decoder.dfy`): `decode_text`.
- `Resynchronisation` (`resync.dfy`): a worked case of how `decode_text` behaves after noise.
- `ExternalEncoding` (`external_encoding.dfy`): the GB18030 library, which is passed in as a pair of
  functions.

The loops of the source are methods proved against specification functions:

- `TryDecodeGroup` is proved against `DecodeGroup`.
- `EncodeChar` and `EncodeText` are proved against `CharGlyphs` and `TextGlyphs`.
- `DecodeText` is proved against `DecodeFrom`. The body of its `while` loop is the method `ScanStep`,
  which is proved against the one-turn function `StepAt`.

Bit strings such as `format(value, '016b')` and `int(bits, 2)` are modelled as arithmetic on the
integers they denote.

The error marker `▓▓▓▓▓` is not distinguishable from data. `▓` is the glyph of nibble 0, and the marker
is exactly the encoding of the single byte 0x00 (lemma `Encoder.ErrorMarkerIsNulGroup`). A decoder
therefore reads a marker as a NUL character rather than as an error.

## Model

| member | source | states |
|---|---|---|
| CodecTables.GlyphOf | cosmic_language.py:16 | the glyph of a nibble is an alphabet glyph whose nibble is that nibble, so the `'▓'` fallback of the lookup is never taken |
| CodecTables.NibbleToGlyphToNibble | cosmic_language.py:10-16 | every nibble is a key of `binary_to_block`, and nibble → glyph → nibble is the identity |
| CodecTables.GlyphToNibbleToGlyph | cosmic_language.py:10-16 | glyph → nibble → glyph is the identity on the alphabet |
| CodecTables.AlphabetGlyphs | cosmic_language.py:10-17 | the alphabet (`block_chars_set`) is exactly the sixteen block glyphs |
| CodecTables.AlphabetIsBijection | cosmic_language.py:10-16 | distinct glyphs carry distinct nibbles, and distinct nibbles get distinct glyphs |
| Checksum.CalculateChecksum | cosmic_language.py:35-46 | the checksum of any blocks under any tag is an alphabet glyph |
| Checksum.VerifyChecksum | cosmic_language.py:48-51 | a checksum glyph that verifies is an alphabet glyph (and by `AtMostOneTagValidates` it verifies under at most one tag) |
| Checksum.ChecksumWellFormed | cosmic_language.py:35-46 | with c = XOR of the nibbles ^ tag: the checksum glyph's low 3 bits are c's low 3 bits, its bit 3 is c's popcount parity, and the key it is looked up under is always present |
| Checksum.TagsGiveDistinctChecksums | cosmic_language.py:35-46 | for the same four blocks, two different tags give two different checksum glyphs |
| Checksum.AtMostOneTagValidates | cosmic_language.py:48-51 | a checksum glyph verifies under at most one tag, so the order in which tags are tried never decides |
| Checksum.SingleGlyphCorruptionDetected | cosmic_language.py:35-51 | replacing any one of a valid group's five glyphs by a different alphabet glyph makes it fail verification under its original tag |
| GroupCodec.BitsValue | cosmic_language.py:141-145 | the value spelled by n glyphs is below 16^n, so four glyphs give a 16-bit word |
| GroupCodec.EncodeGroup | cosmic_language.py:94-104 | a written group is five alphabet glyphs whose fifth verifies as the checksum of the first four under the group's tag |
| GroupCodec.Candidates | cosmic_language.py:134-137 | with an expected tag only that tag is tried; otherwise every tag is tried |
| GroupCodec.FirstValidTag | cosmic_language.py:139-152 | the tag found is a candidate under which the checksum verifies; no tag found means no candidate verifies |
| GroupCodec.DecodeGroup | cosmic_language.py:121-152 | a group decodes if and only if it has length 5, all five glyphs are in the alphabet and the fifth is the checksum of the first four under some candidate tag; the result is that tag and the word the four glyphs spell |
| GroupCodec.TryDecodeGroup | cosmic_language.py:121-152 | the loop over candidate tags, with its early return and its nibble-accumulating inner loop, returns exactly `DecodeGroup` |
| GroupCodec.ContentGlyphsSpellWord | cosmic_language.py:94-99 | the four content glyphs written for a word spell that word again |
| GroupCodec.WordSpelledByContent | cosmic_language.py:141-145 | any four alphabet glyphs are the content glyphs of the word they spell |
| GroupCodec.DecodeEncodedGroup | cosmic_language.py:121-152 | a group written for word w under tag t decodes to (w, t), whether every tag is tried or only t |
| GroupCodec.CorruptedGroupRejected | cosmic_language.py:134-140 | a written group with any one glyph replaced by a different alphabet glyph does not decode under its original tag |
| CharacterAssembler.PackedValue | cosmic_language.py:62-86 | the packed value of 1 or 2 bytes fits in 16 bits, and that of 3 or more bytes fits in 32 bits |
| CharacterAssembler.PackedWords | cosmic_language.py:88-91 | the packed value is split into one 16-bit word for 1 or 2 bytes and two words for 3 or more |
| CharacterAssembler.PackedWordsSpelled | cosmic_language.py:62-100 | the words are [b0], [b0<<8\|b1], [b0, b1<<8\|b2] and [b0<<8\|b1, b2<<8\|b3] for 1, 2, 3 and 4+ bytes |
| CharacterAssembler.CharTag | cosmic_language.py:62-86 | the tag of a character of 1 to 4 bytes is its byte count minus one (4 or more bytes get tag 3), and the tag gives one group for tags 0 and 1 and two groups for tags 2 and 3 |
| CharacterAssembler.BytesPastFourthDropped | cosmic_language.py:80-86 | bytes past the fourth change neither the words nor the tag |
| CharacterAssembler.BytesFromGroups | cosmic_language.py:154-206 | bytes are rebuilt if and only if there is one valid group tagged 0 or 1, or two valid groups whose first is tagged 2 or 3; there are then tag+1 bytes |
| CharacterAssembler.DecodeCharacterFromGroups | cosmic_language.py:154-206 | a character is produced only from rebuilt bytes, and it is what the external decoder makes of them |
| CharacterAssembler.UnpackInvertsPack | cosmic_language.py:154-206 | rebuilding the bytes from the groups written for a byte sequence gives back that sequence (its first four bytes when it is longer) |
| Encoder.GroupsGlyphs | cosmic_language.py:90-106 | a run of k groups is 5k glyphs, all in the alphabet |
| Encoder.GroupsGlyphsAt | cosmic_language.py:90-106 | group j of the run occupies glyphs 5j..5j+5 and is the group of word j |
| Encoder.CharGlyphs | cosmic_language.py:53-108 | a character with no bytes gives 5 glyphs, and otherwise 5 glyphs per packed word |
| Encoder.TextGlyphs | cosmic_language.py:114-119 | an encoded text has between 5 and 10 glyphs per character |
| Encoder.PackBytes | cosmic_language.py:62-86 | the packing branches, including the four-byte shift loop, compute the packed value and the tag of the byte length |
| Encoder.WriteGroup | cosmic_language.py:94-104 | the inner loop writes the word's four content glyphs and then their checksum glyph |
| Encoder.EncodeChar | cosmic_language.py:53-108 | `encode_char` returns the error marker for no bytes and otherwise the groups of the packed words under the character's tag |
| Encoder.EncodeText | cosmic_language.py:114-119 | `encode_text` is the characters' encodings joined in order |
| Encoder.TextGlyphsSnoc | cosmic_language.py:114-119 | encoding a text extended by one character appends that character's glyphs |
| Encoder.CharGlyphsShape | cosmic_language.py:58-106 | no bytes give exactly `▓▓▓▓▓`; 1 or 2 bytes give 5 glyphs; 3 or more give 10; every glyph is in the alphabet |
| Encoder.CharGlyphsGroup | cosmic_language.py:88-106 | in group k of a character's glyphs, the four content glyphs spell packed word k and the fifth is their checksum under the character's tag |
| Encoder.ErrorMarkerIsNulGroup | cosmic_language.py:58-59 | the error marker equals the encoding of byte 0x00 and decodes as a valid single-byte group of value 0 |
| Decoder.Kept | cosmic_language.py:223 | the `if char:` test keeps a decoded character only when it is present and non-empty |
| Decoder.StepAt | cosmic_language.py:214-262 | one turn reads only windows inside the text, moves 1, 5 or 10 without passing the end, and appends only a non-empty string, and only on a move of 5 or more |
| Decoder.StepAtAdvance | cosmic_language.py:216-262 | a turn moves 5 exactly when the window validates under tag 0 or 1, even when its bytes do not decode; it moves 10 exactly when the window validates under tag 2 or 3, the next window fits and validates under that same tag, and the two groups decode to a non-empty string; in every other case it moves 1 |
| Decoder.ScanStep | cosmic_language.py:216-262 | the body of the scan loop computes exactly the piece and move of `StepAt` |
| Decoder.DecodeFrom | cosmic_language.py:214-262 | the scan from any position ends and emits only non-empty strings, at most one per five remaining glyphs |
| Decoder.DecodeText | cosmic_language.py:208-266 | `decode_text` returns the join of the pieces of the scan from position 0 |
| Decoder.DecodeEncodedChar | cosmic_language.py:214-256 | at the first glyph of an encoded character that the external encoding round-trips, the scan emits that character and moves past its 5 or 10 glyphs, whatever text surrounds it |
| Decoder.DecodeEncodedText | cosmic_language.py:208-266 | scanning from the first glyph of an encoded text, after any prefix, yields the text's characters one by one |
| Decoder.DecodeInvertsEncode | cosmic_language.py:208-266 | `decode_text(encode_text(s)) == s` whenever the external encoding gives every character of s 1 to 4 bytes that decode back to it |
| Decoder.LetterARoundTrip | cosmic_language.py:62-67 | 'A' (byte 65) is one single-byte group whose content spells 0x0041, which decodes as (0x0041, tag 0) and back to "A" |
| Resynchronisation.NoiseShiftsScan | cosmic_language.py:214-262 | with the library decoding byte 0x20 as a space, four noise glyphs `▓▖▖▓` followed by two encoded `"` characters decode as two spaces: every window the scan reads straddles two groups yet validates as the single-byte group 0x0220, so it moves 5 each time and never reaches a group boundary |

## Left out

- GB18030 and UTF-8 conversion (cosmic_language.py:25-33, 170, 175, 194, 202) belongs to a foreign library. It is the parameter `Codec`. A failed decode is `None`. The round trip is assumed per character through `RoundTrips`, never claimed for the real library, and the UTF-8 fallback is not modelled separately.
- The catch-all `except` and `print` of `encode_char` (cosmic_language.py:110-112) are console I/O and exception handling. A character the library cannot encode is modelled as `encode` returning no bytes, which gives the same `▓▓▓▓▓` output.
- The `show_details` records of `decode_text` (cosmic_language.py:225-231, 247-253, 264-265) are observational and never affect the decoded text. They are not modelled.
- `analyze_text` (cosmic_language.py:268-322) is a reporting helper outside the framing protocol.
- The padding branch `group_bits.ljust(16, '0')` (cosmic_language.py:92-93) cannot run. The bit string is always 16 or 32 long.
- The `except Exception: continue` of `_try_decode_group` (cosmic_language.py:149-150) cannot run. Four alphabet glyphs always form a valid binary string.
- The final `else: pos += 1` of the tag dispatch in `decode_text` (cosmic_language.py:259-260) cannot run. A validated tag is always 0 to 3.
- A start offset, a skipped-glyph count and a "find valid start" probe are not in the code. `decode_text` always starts at 0 and returns only the text, and the model follows the code. Decoding from the first glyph of a character inside a stream is covered by `Decoder.DecodeEncodedText`, whose prefix is arbitrary.
- The error marker is made of `▓`, which is also the glyph of nibble 0, not a dedicated error glyph. The model follows the code, and `Encoder.ErrorMarkerIsNulGroup` states the consequence.
