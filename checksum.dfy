/**
 * The checksum glyph of a group: the XOR of the four content nibbles,
 * XORed with the type tag, reduced to its low three bits plus a parity bit.
 */
module Checksum {
  import opened CodecTables

  /** The nibble of a glyph as a bit-vector; glyphs outside the alphabet contribute nothing. */
  function BlockBits(g: char): bv4 {
    if g in BlockChars then BlockChars[g] as bv4 else 0
  }

  /** The XOR of the nibbles of `blocks`, folded from the left as the source's loop does. */
  function XorFold(blocks: seq<char>): bv4 {
    if blocks == [] then 0 else XorFold(blocks[..|blocks| - 1]) ^ BlockBits(blocks[|blocks| - 1])
  }

  /** The number of one bits of a 4-bit value. */
  function Popcount(c: bv4): (r: nat)
    ensures r <= 4
  {
    (if c & 1 != 0 then 1 else 0) + (if c & 2 != 0 then 1 else 0)
    + (if c & 4 != 0 then 1 else 0) + (if c & 8 != 0 then 1 else 0)
  }

  /** The low three bits of `c` with its popcount parity as bit 3. */
  function FinalChecksum(c: bv4): bv4 {
    (c & 7) | ((Popcount(c) % 2) as bv4 << 3)
  }

  /** The glyph of FinalChecksum(c): the table lookup with the source's '▓' fallback. */
  function ChecksumGlyph(c: bv4): (g: char)
    ensures IsGlyph(g)
  {
    GlyphOf(FinalChecksum(c) as int)
  }

  /** `_calculate_checksum`: the checksum glyph of `blocks` under tag `tag`. */
  function CalculateChecksum(blocks: seq<char>, tag: Tag): (g: char)
    ensures IsGlyph(g)
  {
    ChecksumGlyph(XorFold(blocks) ^ (tag as bv4))
  }

  /** `_verify_checksum`: whether `check` is the checksum glyph of `blocks` under `tag`. */
  predicate VerifyChecksum(blocks: seq<char>, check: char, tag: Tag): (ok: bool)
    ensures ok ==> IsGlyph(check)
  {
    check == CalculateChecksum(blocks, tag)
  }

  /**
   * The checksum glyph is well formed: it is an alphabet member (the fallback is
   * never taken), its low three bits are those of (XOR of the nibbles ^ tag), and
   * its bit 3 is the popcount parity of that value.
   */
  lemma {:induction false} ChecksumWellFormed(blocks: seq<char>, tag: Tag)
    ensures var c := XorFold(blocks) ^ (tag as bv4);
            var n := BlockChars[CalculateChecksum(blocks, tag)] as bv4;
            && FinalChecksum(c) as int in BinaryToBlock
            && n & 7 == c & 7
            && (n >> 3) as int == Popcount(c) % 2
  {
    var c := XorFold(blocks) ^ (tag as bv4);
    ChecksumGlyphNibble(c);
    FinalChecksumBits(c);
  }

  /** The checksum glyph's nibble is FinalChecksum(c). */
  lemma ChecksumGlyphNibble(c: bv4)
    ensures FinalChecksum(c) as int in BinaryToBlock
    ensures BlockChars[ChecksumGlyph(c)] as bv4 == FinalChecksum(c)
  {
    var key := FinalChecksum(c) as int;
    NibbleToGlyphToNibble(key);
    assert BlockChars[ChecksumGlyph(c)] == key;
  }

  lemma FinalChecksumBits(c: bv4)
    ensures FinalChecksum(c) & 7 == c & 7
    ensures (FinalChecksum(c) >> 3) as int == Popcount(c) % 2
  {
  }

  /** FinalChecksum is injective: bit 3 is fixed by the low three bits together with the parity. */
  lemma FinalChecksumInjective(a: bv4, b: bv4)
    requires a != b
    ensures FinalChecksum(a) != FinalChecksum(b)
  {
  }

  lemma XorCancel(a: bv4, b: bv4, k: bv4)
    requires a != b
    ensures a ^ k != b ^ k
  {
  }

  /** Distinct folded values give distinct checksum glyphs. */
  lemma {:induction false} ChecksumGlyphInjective(a: bv4, b: bv4)
    requires a != b
    ensures ChecksumGlyph(a) != ChecksumGlyph(b)
  {
    FinalChecksumInjective(a, b);
    AlphabetIsBijection('▓', '▓', FinalChecksum(a) as int, FinalChecksum(b) as int);
  }

  /**
   * For fixed content, the four tags give four distinct checksum glyphs, so a group
   * validates under at most one tag and the source's first-match order never decides.
   */
  lemma {:induction false} TagsGiveDistinctChecksums(blocks: seq<char>, t1: Tag, t2: Tag)
    requires t1 != t2
    ensures CalculateChecksum(blocks, t1) != CalculateChecksum(blocks, t2)
  {
    NibbleBitsInjective(t1, t2);
    XorCancel(t1 as bv4, t2 as bv4, XorFold(blocks));
    assert XorFold(blocks) ^ (t1 as bv4) != XorFold(blocks) ^ (t2 as bv4);
    ChecksumGlyphInjective(XorFold(blocks) ^ (t1 as bv4), XorFold(blocks) ^ (t2 as bv4));
  }

  /** A group validates under at most one tag. */
  lemma {:induction false} AtMostOneTagValidates(blocks: seq<char>, check: char, t1: Tag, t2: Tag)
    requires VerifyChecksum(blocks, check, t1) && VerifyChecksum(blocks, check, t2)
    ensures t1 == t2
  {
    if t1 != t2 {
      TagsGiveDistinctChecksums(blocks, t1, t2);
    }
  }

  /** The fold over four glyphs is the XOR of their four nibbles. */
  lemma {:induction false} XorFoldOfFour(s: seq<char>)
    requires |s| == 4
    ensures XorFold(s) == BlockBits(s[0]) ^ BlockBits(s[1]) ^ BlockBits(s[2]) ^ BlockBits(s[3])
  {
    assert s[..3][..2] == s[..2] && s[..2][..1] == s[..1] && s[..1][..0] == [];
    assert XorFold(s[..1]) == BlockBits(s[0]);
    assert XorFold(s[..2]) == XorFold(s[..1]) ^ BlockBits(s[1]);
    assert XorFold(s[..3]) == XorFold(s[..2]) ^ BlockBits(s[2]);
    assert XorFold(s) == XorFold(s[..3]) ^ BlockBits(s[3]);
  }

  lemma BlockBitsInjective(g: char, h: char)
    requires IsGlyph(g) && IsGlyph(h) && g != h
    ensures BlockBits(g) != BlockBits(h)
  {
    AlphabetIsBijection(g, h, 0, 0);
    NibbleBitsInjective(BlockChars[g], BlockChars[h]);
  }

  /** Distinct nibbles (tags included) are distinct as bit-vectors. */
  lemma NibbleBitsInjective(a: Nibble, b: Nibble)
    requires a != b
    ensures a as bv4 != b as bv4
  {
  }

  lemma XorOfFourDiffers(v0: bv4, v1: bv4, v2: bv4, v3: bv4, w0: bv4, w1: bv4, w2: bv4, w3: bv4)
    requires || (v0 != w0 && v1 == w1 && v2 == w2 && v3 == w3)
             || (v0 == w0 && v1 != w1 && v2 == w2 && v3 == w3)
             || (v0 == w0 && v1 == w1 && v2 != w2 && v3 == w3)
             || (v0 == w0 && v1 == w1 && v2 == w2 && v3 != w3)
    ensures v0 ^ v1 ^ v2 ^ v3 != w0 ^ w1 ^ w2 ^ w3
  {
  }

  /** Changing one of four glyphs to a different alphabet glyph changes their XOR. */
  lemma {:induction false} ContentChangeChangesXor(content: seq<char>, i: nat, g: char)
    requires |content| == 4 && i < 4 && IsGlyph(content[i]) && IsGlyph(g) && g != content[i]
    ensures XorFold(content[i := g]) != XorFold(content)
  {
    var c' := content[i := g];
    XorFoldOfFour(content);
    XorFoldOfFour(c');
    BlockBitsInjective(g, content[i]);
    var v0, v1, v2, v3 := BlockBits(content[0]), BlockBits(content[1]), BlockBits(content[2]), BlockBits(content[3]);
    var w0, w1, w2, w3 := BlockBits(c'[0]), BlockBits(c'[1]), BlockBits(c'[2]), BlockBits(c'[3]);
    assert c'[i] == g;
    if i == 0 {
      assert c'[1..] == content[1..];
    } else if i == 1 {
      assert c'[0] == content[0] && c'[2..] == content[2..];
    } else if i == 2 {
      assert c'[..2] == content[..2] && c'[3] == content[3];
    } else {
      assert c'[..3] == content[..3];
    }
    XorOfFourDiffers(w0, w1, w2, w3, v0, v1, v2, v3);
  }

  /** Blocks with different XORs get different checksum glyphs under the same tag. */
  lemma {:induction false} DifferentXorDifferentChecksum(a: seq<char>, b: seq<char>, tag: Tag)
    requires XorFold(a) != XorFold(b)
    ensures CalculateChecksum(a, tag) != CalculateChecksum(b, tag)
  {
    XorCancel(XorFold(a), XorFold(b), tag as bv4);
    ChecksumGlyphInjective(XorFold(a) ^ (tag as bv4), XorFold(b) ^ (tag as bv4));
  }

  /**
   * Replacing any one glyph of a valid group by a different alphabet glyph makes
   * the group fail under its original tag: a changed content glyph changes the
   * XOR, and a changed checksum glyph no longer matches.
   */
  lemma {:induction false} SingleGlyphCorruptionDetected(content: seq<char>, tag: Tag, i: nat, g: char)
    requires |content| == 4 && forall k :: 0 <= k < 4 ==> IsGlyph(content[k])
    requires i < 5 && IsGlyph(g)
    requires g != (content + [CalculateChecksum(content, tag)])[i]
    ensures var corrupted := (content + [CalculateChecksum(content, tag)])[i := g];
            !VerifyChecksum(corrupted[..4], corrupted[4], tag)
  {
    var group := content + [CalculateChecksum(content, tag)];
    var corrupted := group[i := g];
    if i < 4 {
      assert corrupted[..4] == content[i := g] && corrupted[4] == CalculateChecksum(content, tag);
      ContentChangeChangesXor(content, i, g);
      DifferentXorDifferentChecksum(content[i := g], content, tag);
    } else {
      assert corrupted[..4] == content && corrupted[4] == g;
    }
  }
}
