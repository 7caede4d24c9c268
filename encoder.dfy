/**
 * The encoder: each character becomes the groups of its packed words, or the
 * five-glyph error marker when the external encoding gives it no bytes.
 */
module Encoder {
  import opened Wrappers
  import opened CodecTables
  import opened Checksum
  import opened GroupCodec
  import opened ExternalEncoding
  import opened CharacterAssembler

  /** What `encode_char` returns for a character with no bytes. */
  const ErrorMarker: string := "▓▓▓▓▓"

  /** The glyphs of a run of words, one group per word, all under `tag`. */
  function GroupsGlyphs(words: seq<Word>, tag: Tag): (r: string)
    ensures |r| == 5 * |words| && AllGlyphs(r)
  {
    if words == [] then []
    else GroupsGlyphs(words[..|words| - 1], tag) + EncodeGroup(words[|words| - 1], tag)
  }

  /** Group `k` of a run of words occupies glyphs 5k..5k+5. */
  lemma {:induction false} GroupsGlyphsAt(words: seq<Word>, tag: Tag, k: nat)
    requires k < |words|
    ensures GroupsGlyphs(words, tag)[5 * k..5 * k + 5] == EncodeGroup(words[k], tag)
  {
    var n := |words| - 1;
    var front := GroupsGlyphs(words[..n], tag);
    var last := EncodeGroup(words[n], tag);
    assert GroupsGlyphs(words, tag) == front + last;
    if k < n {
      GroupsGlyphsAt(words[..n], tag, k);
      assert words[..n][k] == words[k];
      SliceOfLeft(front, last, 5 * k, 5 * k + 5);
    } else {
      assert |front| == 5 * k;
      SliceOfRight(front, last);
    }
  }

  /** A slice inside the left operand of a concatenation; stated apart so GroupsGlyphsAt's context stays small. */
  lemma SliceOfLeft<T>(a: seq<T>, b: seq<T>, i: nat, j: nat)
    requires i <= j <= |a|
    ensures (a + b)[i..j] == a[i..j]
  {
  }

  /** The right operand of a concatenation as its slice; stated apart so GroupsGlyphsAt's context stays small. */
  lemma SliceOfRight<T>(a: seq<T>, b: seq<T>)
    ensures (a + b)[|a|..|a| + |b|] == b
  {
  }

  /** The glyphs `encode_char` writes for a character whose encoding is `bytes`. */
  function CharGlyphs(bytes: seq<Byte>): (r: string)
    ensures |r| == if bytes == [] then 5 else 5 * GroupCount(|bytes|)
  {
    if bytes == [] then ErrorMarker else GroupsGlyphs(PackedWords(bytes), CharTag(|bytes|))
  }

  /** The glyphs `encode_text` writes: the characters' glyphs, in order. */
  function TextGlyphs(text: string, codec: Codec): (r: string)
    ensures 5 * |text| <= |r| <= 10 * |text|
  {
    if text == [] then [] else CharGlyphs(codec.encode(text[0])) + TextGlyphs(text[1..], codec)
  }

  /** The `value |= byte << 8 * (3 - i)` loop after i steps; the shifted bytes do not overlap, so OR is addition. */
  function PrefixValue(bytes: seq<Byte>, i: nat): nat
    requires i <= 4 <= |bytes|
  {
    if i == 0 then 0 else PrefixValue(bytes, i - 1) + (bytes[i - 1] as int) * ByteShift(i - 1)
  }

  /** 1 << 8 * (3 - i). */
  function ByteShift(i: nat): nat
    requires i < 4
  {
    if i == 0 then 0x100_0000 else if i == 1 then 0x10000 else if i == 2 then 0x100 else 1
  }

  /** `encode_char`: pack the character's bytes, then write each 16-bit slice as four glyphs and a checksum glyph. */
  method EncodeChar(c: char, codec: Codec) returns (out: string)
    ensures out == CharGlyphs(codec.encode(c))
  {
    var encodedBytes := codec.encode(c);
    var byteLength := |encodedBytes|;
    if byteLength == 0 {
      return ErrorMarker;
    }
    var value, tag := PackBytes(encodedBytes);
    ghost var words := PackedWords(encodedBytes);
    var groups := GroupCount(byteLength);
    out := [];
    for g := 0 to groups
      invariant out == GroupsGlyphs(words[..g], tag)
    {
      var groupBits := Slice16(value, groups - 1 - g);
      assert groupBits == words[g];
      var blocks := WriteGroup(groupBits, tag);
      assert words[..g + 1][..g] == words[..g];
      out := out + blocks;
    }
    assert words[..groups] == words;
  }

  /** The first half of `encode_char`: the packed value and the type tag of a non-empty byte sequence. */
  method PackBytes(encodedBytes: seq<Byte>) returns (value: nat, tag: Tag)
    requires |encodedBytes| >= 1
    ensures value == PackedValue(encodedBytes) && tag == CharTag(|encodedBytes|)
  {
    var byteLength := |encodedBytes|;
    if byteLength == 1 {
      value, tag := encodedBytes[0], TypeSingleByte;
    } else if byteLength == 2 {
      value, tag := (encodedBytes[0] as int) * 0x100 + encodedBytes[1], TypeDoubleByte;
    } else if byteLength == 3 {
      value := (encodedBytes[0] as int) * 0x10000 + (encodedBytes[1] as int) * 0x100 + encodedBytes[2];
      tag := TypeThreeByte;
    } else {
      value := 0;
      for i := 0 to 4
        invariant value == PrefixValue(encodedBytes, i)
      {
        value := value + (encodedBytes[i] as int) * ByteShift(i);
      }
      assert PrefixValue(encodedBytes, 1) == (encodedBytes[0] as int) * 0x100_0000;
      assert PrefixValue(encodedBytes, 2) == PrefixValue(encodedBytes, 1) + (encodedBytes[1] as int) * 0x10000;
      assert PrefixValue(encodedBytes, 3) == PrefixValue(encodedBytes, 2) + (encodedBytes[2] as int) * 0x100;
      tag := TypeFourByte;
    }
  }

  /** The loop body of `encode_char`: one 16-bit slice as four content glyphs and their checksum glyph. */
  method WriteGroup(groupBits: Word, tag: Tag) returns (blocks: seq<char>)
    ensures blocks == EncodeGroup(groupBits, tag)
  {
    blocks := [];
    for i := 0 to 4
      invariant blocks == ContentGlyphs(groupBits)[..i]
    {
      blocks := blocks + [GlyphOf(NibbleAt(groupBits, i))];
    }
    assert blocks == ContentGlyphs(groupBits)[..4] == ContentGlyphs(groupBits);
    var checksum := CalculateChecksum(blocks, tag);
    blocks := blocks + [checksum];
  }

  /** `encode_text`: the characters' encodings, joined. */
  method EncodeText(text: string, codec: Codec) returns (out: string)
    ensures out == TextGlyphs(text, codec)
  {
    out := [];
    for i := 0 to |text|
      invariant out == TextGlyphs(text[..i], codec)
    {
      var piece := EncodeChar(text[i], codec);
      TextGlyphsSnoc(text[..i], text[i], codec);
      assert text[..i + 1] == text[..i] + [text[i]];
      out := out + piece;
    }
    assert text[..|text|] == text;
  }

  /** Encoding a text one character longer appends that character's glyphs. */
  lemma {:induction false} TextGlyphsSnoc(text: string, c: char, codec: Codec)
    ensures TextGlyphs(text + [c], codec) == TextGlyphs(text, codec) + CharGlyphs(codec.encode(c))
  {
    if text != [] {
      assert (text + [c])[1..] == text[1..] + [c];
      TextGlyphsSnoc(text[1..], c, codec);
    }
  }

  /**
   * The shape of a character's glyphs: the marker '▓▓▓▓▓' for no bytes, one group
   * for one or two bytes, two groups for three or more, every glyph in the alphabet.
   */
  lemma {:induction false} CharGlyphsShape(bytes: seq<Byte>)
    ensures bytes == [] ==> CharGlyphs(bytes) == ['▓', '▓', '▓', '▓', '▓']
    ensures 1 <= |bytes| <= 2 ==> |CharGlyphs(bytes)| == 5
    ensures |bytes| >= 3 ==> |CharGlyphs(bytes)| == 10
    ensures AllGlyphs(CharGlyphs(bytes))
  {
    assert IsGlyph('▓');
  }

  /**
   * Group k of a character's glyphs: its four content glyphs spell packed word k,
   * and its fifth glyph is their checksum under the character's tag.
   */
  lemma {:induction false} CharGlyphsGroup(bytes: seq<Byte>, k: nat)
    requires |bytes| >= 1 && k < GroupCount(|bytes|)
    ensures var r := CharGlyphs(bytes);
            && 5 * k + 5 <= |r|
            && r[5 * k..5 * k + 4] == ContentGlyphs(PackedWords(bytes)[k])
            && BitsValue(r[5 * k..5 * k + 4]) == PackedWords(bytes)[k]
            && r[5 * k + 4] == CalculateChecksum(r[5 * k..5 * k + 4], CharTag(|bytes|))
  {
    var r := CharGlyphs(bytes);
    var w := PackedWords(bytes)[k];
    GroupsGlyphsAt(PackedWords(bytes), CharTag(|bytes|), k);
    assert r[5 * k..5 * k + 4] == r[5 * k..5 * k + 5][..4];
    assert r[5 * k + 4] == r[5 * k..5 * k + 5][4];
    ContentGlyphsSpellWord(w);
  }

  /**
   * The error marker is also the encoding of the single byte 0x00, and it is a
   * valid single-byte group: a decoder reads it as that byte, not as an error.
   */
  lemma ErrorMarkerIsNulGroup()
    ensures CharGlyphs([0]) == ErrorMarker
    ensures DecodeGroup(ErrorMarker, None) == Some(DecodedGroup(0, TypeSingleByte))
  {
    PackedWordsSpelled([0]);
    assert PackedWords([0]) == [0];
    assert ContentGlyphs(0) == ['▓', '▓', '▓', '▓'];
    XorFoldOfFour(ContentGlyphs(0));
    assert BlockBits('▓') == 0;
    ChecksumGlyphNibble(0);
    assert CalculateChecksum(ContentGlyphs(0), TypeSingleByte) == '▓';
    assert EncodeGroup(0, TypeSingleByte) == ErrorMarker;
    DecodeEncodedGroup(0, TypeSingleByte, None);
  }
}
