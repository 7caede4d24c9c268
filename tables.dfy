/**
 * The constant tables the codec builds once, when it is constructed:
 * the sixteen block glyphs with their 4-bit values, the inverse table,
 * and the four character-type tags.
 *
 * The source keeps each nibble as a four-character bit string ('1100');
 * here a nibble is the integer that string denotes.
 */
module CodecTables {

  /** A 4-bit value, the payload of one block glyph. */
  type Nibble = n: int | 0 <= n < 16

  /** A character-type tag: how many bytes the character's encoding has, minus one. */
  type Tag = t: int | 0 <= t < 4

  const TypeSingleByte: Tag := 0
  const TypeDoubleByte: Tag := 1
  const TypeThreeByte: Tag := 2
  const TypeFourByte: Tag := 3

  /** Glyph to nibble: the table `block_chars`. */
  const BlockChars: map<char, Nibble> := map[
    '▀' := 0xC, '▄' := 0x3, '█' := 0xF, '▌' := 0xA, '▐' := 0x5,
    '▓' := 0x0, '▖' := 0x2, '▗' := 0x1, '▘' := 0x8, '▙' := 0xB,
    '▚' := 0x9, '▛' := 0xE, '▜' := 0xD, '▝' := 0x4, '▞' := 0x6, '▟' := 0x7]

  /** Nibble to glyph: the table `binary_to_block`, which the source builds by inverting `block_chars`. */
  const BinaryToBlock: map<Nibble, char> := map[
    0x0 := '▓', 0x1 := '▗', 0x2 := '▖', 0x3 := '▄', 0x4 := '▝', 0x5 := '▐', 0x6 := '▞', 0x7 := '▟',
    0x8 := '▘', 0x9 := '▚', 0xA := '▌', 0xB := '▙', 0xC := '▀', 0xD := '▜', 0xE := '▛', 0xF := '█']

  /** The glyph the source falls back to when a lookup misses; it is also the glyph of nibble 0. */
  const DefaultGlyph: char := '▓'

  /** Membership in `block_chars_set`. */
  predicate IsGlyph(c: char) {
    c in BlockChars
  }

  /** `binary_to_block.get(n, '▓')`: the glyph of a nibble. */
  function GlyphOf(n: Nibble): (g: char)
    ensures IsGlyph(g) && BlockChars[g] == n
  {
    NibbleToGlyphToNibble(n);
    if n in BinaryToBlock then BinaryToBlock[n] else DefaultGlyph
  }

  /** Every nibble has a glyph, and that glyph's nibble is the nibble again. */
  lemma NibbleToGlyphToNibble(n: Nibble)
    ensures n in BinaryToBlock
    ensures BinaryToBlock[n] in BlockChars && BlockChars[BinaryToBlock[n]] == n
  {
  }

  /** Every glyph's nibble is in the inverse table and maps back to the same glyph. */
  lemma GlyphToNibbleToGlyph(g: char)
    requires IsGlyph(g)
    ensures BlockChars[g] in BinaryToBlock && BinaryToBlock[BlockChars[g]] == g
  {
  }

  /** The glyph alphabet is exactly the sixteen block characters. */
  lemma AlphabetGlyphs()
    ensures BlockChars.Keys == {'▀', '▄', '█', '▌', '▐', '▓', '▖', '▗', '▘', '▙', '▚', '▛', '▜', '▝', '▞', '▟'}
  {
  }

  /**
   * The two tables form a bijection between the alphabet and the sixteen nibbles:
   * distinct glyphs carry distinct nibbles and distinct nibbles get distinct glyphs.
   */
  lemma {:induction false} AlphabetIsBijection(g: char, h: char, m: Nibble, n: Nibble)
    requires IsGlyph(g) && IsGlyph(h)
    ensures g != h ==> BlockChars[g] != BlockChars[h]
    ensures m != n ==> GlyphOf(m) != GlyphOf(n)
  {
    GlyphToNibbleToGlyph(g);
    GlyphToNibbleToGlyph(h);
  }
}
