/**
 * One group: four content glyphs spelling a 16-bit word, high nibble first,
 * followed by the checksum glyph of those four under the character's type tag.
 */
module GroupCodec {
  import opened Wrappers
  import opened CodecTables
  import opened Checksum

  /** A 16-bit word, the value of one group's content. */
  type Word = w: int | 0 <= w < 0x10000

  /** What a successfully validated group yields: its word and the tag it validated under. */
  datatype DecodedGroup = DecodedGroup(value: Word, tag: Tag)

  function Pow16(n: nat): (r: nat)
    ensures r >= 1
  {
    if n == 0 then 1 else 16 * Pow16(n - 1)
  }

  /** The place value of nibble `i` of a word, counting from the high end. */
  function PlaceValue(i: nat): nat
    requires i < 4
  {
    if i == 0 then 0x1000 else if i == 1 then 0x100 else if i == 2 then 0x10 else 1
  }

  /** Nibble `i` of `w`, high first: the i-th four-character slice of format(w, '016b'). */
  function NibbleAt(w: Word, i: nat): Nibble
    requires i < 4
  {
    (w / PlaceValue(i)) % 16
  }

  /** The four content glyphs of a word. */
  function ContentGlyphs(w: Word): (r: seq<char>)
    ensures |r| == 4
  {
    [GlyphOf(NibbleAt(w, 0)), GlyphOf(NibbleAt(w, 1)), GlyphOf(NibbleAt(w, 2)), GlyphOf(NibbleAt(w, 3))]
  }

  /** Content glyph k of `w` is the glyph of nibble k. */
  lemma ContentGlyphsNibbles(w: Word)
    ensures forall k :: 0 <= k < 4 ==> IsGlyph(ContentGlyphs(w)[k]) && BlockChars[ContentGlyphs(w)[k]] == NibbleAt(w, k)
  {
  }

  predicate AllGlyphs(s: seq<char>) {
    forall k :: 0 <= k < |s| ==> IsGlyph(s[k])
  }

  /** int(bits, 2) where bits concatenates the 4-bit strings of the glyphs of `blocks`. */
  function BitsValue(blocks: seq<char>): (v: nat)
    requires AllGlyphs(blocks)
    ensures v < Pow16(|blocks|)
  {
    if blocks == [] then 0
    else BitsValue(blocks[..|blocks| - 1]) * 16 + BlockChars[blocks[|blocks| - 1]]
  }

  /** The group of `w` under `tag`: its content glyphs and their checksum glyph. */
  function EncodeGroup(w: Word, tag: Tag): (g: seq<char>)
    ensures |g| == 5 && AllGlyphs(g)
    ensures VerifyChecksum(g[..4], g[4], tag)
  {
    assert (ContentGlyphs(w) + [CalculateChecksum(ContentGlyphs(w), tag)])[..4] == ContentGlyphs(w);
    ContentGlyphs(w) + [CalculateChecksum(ContentGlyphs(w), tag)]
  }

  /** The tags `_try_decode_group` tries, in order. */
  function Candidates(expected: Option<Tag>): (r: seq<Tag>)
    ensures expected.Some? ==> r == [expected.value]
    ensures expected.None? ==> forall t: Tag :: t in r
  {
    if expected.Some? then [expected.value]
    else [TypeSingleByte, TypeDoubleByte, TypeThreeByte, TypeFourByte]
  }

  /** The first tag of `tags` under which `check` is the checksum of `content`. */
  function FirstValidTag(content: seq<char>, check: char, tags: seq<Tag>): (r: Option<Tag>)
    ensures r.Some? ==> r.value in tags && VerifyChecksum(content, check, r.value)
    ensures r.None? ==> forall k :: 0 <= k < |tags| ==> !VerifyChecksum(content, check, tags[k])
  {
    if tags == [] then None
    else if VerifyChecksum(content, check, tags[0]) then Some(tags[0])
    else FirstValidTag(content, check, tags[1..])
  }

  /**
   * `_try_decode_group`: a window of five alphabet glyphs whose last glyph is the
   * checksum of the first four under one of the candidate tags yields the word
   * the four spell and that tag; any other window yields None.
   */
  function DecodeGroup(group: seq<char>, expected: Option<Tag>): (r: Option<DecodedGroup>)
    ensures r.Some? <==>
              && |group| == 5 && AllGlyphs(group)
              && exists t :: t in Candidates(expected) && VerifyChecksum(group[..4], group[4], t)
    ensures r.Some? ==>
              && r.value.tag in Candidates(expected)
              && VerifyChecksum(group[..4], group[4], r.value.tag)
              && r.value.value == BitsValue(group[..4])
  {
    if |group| != 5 || !AllGlyphs(group) then None
    else
      match FirstValidTag(group[..4], group[4], Candidates(expected))
      case None => None
      case Some(t) =>
        assert BitsValue(group[..4]) < Pow16(4) == 0x10000;
        Some(DecodedGroup(BitsValue(group[..4]), t))
  }

  /** `_try_decode_group` as the source runs it: a loop over the candidate tags with an early return. */
  method TryDecodeGroup(group: seq<char>, expected: Option<Tag>) returns (r: Option<DecodedGroup>)
    ensures r == DecodeGroup(group, expected)
  {
    if |group| != 5 {
      return None;
    }
    if !(forall k | 0 <= k < |group| :: group[k] in BlockChars) {
      return None;
    }
    var content, check := group[..4], group[4];
    var tags := Candidates(expected);
    for i := 0 to |tags|
      invariant FirstValidTag(content, check, tags) == FirstValidTag(content, check, tags[i..])
    {
      if VerifyChecksum(content, check, tags[i]) {
        var bits: nat := 0;
        for j := 0 to 4
          invariant bits == BitsValue(content[..j])
        {
          assert content[..j + 1][..j] == content[..j];
          bits := bits * 16 + BlockChars[content[j]];
        }
        assert content[..4] == content;
        return Some(DecodedGroup(bits, tags[i]));
      }
      assert tags[i..][1..] == tags[i + 1..];
    }
    return None;
  }

  /** The value of four glyphs, nibble by nibble. */
  lemma {:induction false} BitsValueOfFour(s: seq<char>)
    requires |s| == 4 && AllGlyphs(s)
    ensures BitsValue(s) == (BlockChars[s[0]] as int) * 0x1000 + (BlockChars[s[1]] as int) * 0x100 + (BlockChars[s[2]] as int) * 0x10 + BlockChars[s[3]]
  {
    assert s[..3][..2] == s[..2] && s[..2][..1] == s[..1] && s[..1][..0] == [];
    var a: int, b: int, c: int, d: int := BlockChars[s[0]], BlockChars[s[1]], BlockChars[s[2]], BlockChars[s[3]];
    assert BitsValue(s[..1]) == a;
    assert BitsValue(s[..2]) == a * 16 + b;
    assert BitsValue(s[..3]) == (a * 16 + b) * 16 + c;
  }

  /** A word is the sum of its nibbles at their place values. */
  lemma NibblesSumToWord(w: Word)
    ensures w == NibbleAt(w, 0) * 0x1000 + NibbleAt(w, 1) * 0x100 + NibbleAt(w, 2) * 0x10 + NibbleAt(w, 3)
  {
  }

  /** The nibbles of a sum of nibbles at their place values are those nibbles. */
  lemma NibblesOfSum(a: Nibble, b: Nibble, c: Nibble, d: Nibble)
    ensures var w := (a as int) * 0x1000 + (b as int) * 0x100 + (c as int) * 0x10 + d;
            0 <= w < 0x10000 && NibbleAt(w, 0) == a && NibbleAt(w, 1) == b && NibbleAt(w, 2) == c && NibbleAt(w, 3) == d
  {
    var w := (a as int) * 0x1000 + (b as int) * 0x100 + (c as int) * 0x10 + d;
    var low3 := (b as int) * 0x100 + (c as int) * 0x10 + d;
    var low2 := (c as int) * 0x10 + d;
    assert 0 <= low3 < 0x1000 && 0 <= low2 < 0x100;
    assert w / 0x1000 == a;
    assert w / 0x100 == (a as int) * 0x10 + b;
    assert w / 0x10 == (a as int) * 0x100 + (b as int) * 0x10 + c;
  }

  /** The content glyphs of `w` spell `w` again. */
  lemma {:induction false} ContentGlyphsSpellWord(w: Word)
    ensures BitsValue(ContentGlyphs(w)) == w
  {
    ContentGlyphsNibbles(w);
    BitsValueOfFour(ContentGlyphs(w));
    NibblesSumToWord(w);
  }

  /** Four alphabet glyphs are the content glyphs of the word they spell. */
  lemma {:induction false} WordSpelledByContent(content: seq<char>)
    requires |content| == 4 && AllGlyphs(content)
    ensures BitsValue(content) < 0x10000
    ensures ContentGlyphs(BitsValue(content)) == content
  {
    var s := content;
    BitsValueOfFour(s);
    NibblesOfSum(BlockChars[s[0]], BlockChars[s[1]], BlockChars[s[2]], BlockChars[s[3]]);
    GlyphToNibbleToGlyph(s[0]);
    GlyphToNibbleToGlyph(s[1]);
    GlyphToNibbleToGlyph(s[2]);
    GlyphToNibbleToGlyph(s[3]);
  }

  /**
   * A group built by EncodeGroup decodes to its word and tag, whether the decoder
   * tries every tag or only the group's own.
   */
  lemma {:induction false} DecodeEncodedGroup(w: Word, tag: Tag, expected: Option<Tag>)
    requires expected == None || expected == Some(tag)
    ensures DecodeGroup(EncodeGroup(w, tag), expected) == Some(DecodedGroup(w, tag))
  {
    var g := EncodeGroup(w, tag);
    ContentGlyphsNibbles(w);
    assert g[..4] == ContentGlyphs(w) && g[4] == CalculateChecksum(ContentGlyphs(w), tag);
    assert AllGlyphs(g);
    assert tag in Candidates(expected);
    var r := DecodeGroup(g, expected);
    AtMostOneTagValidates(g[..4], g[4], r.value.tag, tag);
    ContentGlyphsSpellWord(w);
  }

  /**
   * Replacing any one glyph of an encoded group by a different alphabet glyph
   * makes the group fail under its original tag.
   */
  lemma {:induction false} CorruptedGroupRejected(w: Word, tag: Tag, i: nat, g: char)
    requires i < 5 && IsGlyph(g) && g != EncodeGroup(w, tag)[i]
    ensures DecodeGroup(EncodeGroup(w, tag)[i := g], Some(tag)) == None
  {
    ContentGlyphsNibbles(w);
    SingleGlyphCorruptionDetected(ContentGlyphs(w), tag, i, g);
  }
}
