/**
 * The character assembler: packing a character's bytes into one or two 16-bit
 * words with a type tag, and rebuilding the bytes from decoded groups.
 */
module CharacterAssembler {
  import opened Wrappers
  import opened CodecTables
  import opened GroupCodec
  import opened ExternalEncoding

  /** The tag `encode_char` gives a character of `byteLength` bytes; every length of 4 or more gets the four-byte tag. */
  function CharTag(byteLength: nat): (t: Tag)
    requires byteLength >= 1
    ensures byteLength <= 4 ==> t + 1 == byteLength
    ensures GroupCount(byteLength) == if t <= TypeDoubleByte then 1 else 2
  {
    if byteLength == 1 then TypeSingleByte
    else if byteLength == 2 then TypeDoubleByte
    else if byteLength == 3 then TypeThreeByte
    else TypeFourByte
  }

  /** How many groups a character of `byteLength` bytes occupies: len(bits) / 16. */
  function GroupCount(byteLength: nat): nat {
    if byteLength <= 2 then 1 else 2
  }

  /**
   * The integer `encode_char` packs the bytes into, big-endian: one byte as is,
   * two bytes as a 16-bit value, three bytes zero-extended to 32 bits, and the
   * first four bytes of anything longer.
   */
  function PackedValue(bytes: seq<Byte>): (v: nat)
    requires |bytes| >= 1
    ensures v < if |bytes| <= 2 then 0x10000 else 0x1_0000_0000
  {
    if |bytes| == 1 then bytes[0]
    else if |bytes| == 2 then (bytes[0] as int) * 0x100 + bytes[1]
    else if |bytes| == 3 then (bytes[0] as int) * 0x10000 + (bytes[1] as int) * 0x100 + bytes[2]
    else (bytes[0] as int) * 0x100_0000 + (bytes[1] as int) * 0x10000 + (bytes[2] as int) * 0x100 + bytes[3]
  }

  /** The 16-bit slice `k` (counting from the low end) of a packed value: the source's bits[16g:16g+16]. */
  function Slice16(value: nat, k: nat): Word
    requires k < 2
  {
    (if k == 0 then value else value / 0x10000) % 0x10000
  }

  /** The words `encode_char` writes, one group each, high word first. */
  function PackedWords(bytes: seq<Byte>): (ws: seq<Word>)
    requires |bytes| >= 1
    ensures |ws| == GroupCount(|bytes|)
  {
    var v := PackedValue(bytes);
    if |bytes| <= 2 then [Slice16(v, 0)] else [Slice16(v, 1), Slice16(v, 0)]
  }

  /** The content words: the one word is b0 or b0<<8|b1; the two words are (b0, b1<<8|b2) or (b0<<8|b1, b2<<8|b3). */
  lemma {:induction false} PackedWordsSpelled(bytes: seq<Byte>)
    requires |bytes| >= 1
    ensures |bytes| == 1 ==> PackedWords(bytes) == [bytes[0]]
    ensures |bytes| == 2 ==> PackedWords(bytes) == [(bytes[0] as int) * 0x100 + bytes[1]]
    ensures |bytes| == 3 ==> PackedWords(bytes) == [bytes[0] as Word, (bytes[1] as int) * 0x100 + bytes[2]]
    ensures |bytes| >= 4 ==> PackedWords(bytes) == [(bytes[0] as int) * 0x100 + bytes[1], (bytes[2] as int) * 0x100 + bytes[3]]
  {
    var v := PackedValue(bytes);
    if |bytes| == 3 {
      SplitAt16(bytes[0], (bytes[1] as int) * 0x100 + bytes[2]);
    } else if |bytes| >= 4 {
      assert v == ((bytes[0] as int) * 0x100 + bytes[1]) * 0x10000 + ((bytes[2] as int) * 0x100 + bytes[3]);
      SplitAt16((bytes[0] as int) * 0x100 + bytes[1], (bytes[2] as int) * 0x100 + bytes[3]);
    }
  }

  lemma SplitAt16(hi: Word, lo: Word)
    ensures Slice16(hi * 0x10000 + lo, 1) == hi && Slice16(hi * 0x10000 + lo, 0) == lo
  {
  }

  /** Bytes past the fourth take no part in the encoding. */
  lemma {:induction false} BytesPastFourthDropped(bytes: seq<Byte>)
    requires |bytes| >= 4
    ensures PackedWords(bytes) == PackedWords(bytes[..4]) && CharTag(|bytes|) == CharTag(4)
  {
    assert bytes[..4][0] == bytes[0] && bytes[..4][1] == bytes[1] && bytes[..4][2] == bytes[2] && bytes[..4][3] == bytes[3];
  }

  /**
   * The byte part of `_decode_character_from_groups`: one valid group tagged
   * single- or double-byte gives its low one or two bytes; two valid groups whose
   * first is tagged three- or four-byte give the low three or all four bytes of
   * first<<16|second. Anything else (no groups, an invalid group, a group count
   * that does not fit the first tag, more than two groups) gives None.
   */
  function BytesFromGroups(groups: seq<Option<DecodedGroup>>): (r: Option<seq<Byte>>)
    ensures r.Some? <==>
              || (|groups| == 1 && groups[0].Some? && groups[0].value.tag <= TypeDoubleByte)
              || (|groups| == 2 && groups[0].Some? && groups[1].Some? && groups[0].value.tag >= TypeThreeByte)
    ensures r.Some? ==> |r.value| == groups[0].value.tag + 1
  {
    if |groups| == 0 then None
    else if |groups| == 1 then
      match groups[0]
      case None => None
      case Some(g) =>
        if g.tag == TypeSingleByte then Some([g.value % 0x100])
        else if g.tag == TypeDoubleByte then Some([(g.value / 0x100) % 0x100, g.value % 0x100])
        else None
    else if |groups| == 2 then
      if groups[0].None? || groups[1].None? then None
      else
        var combined := (groups[0].value.value as int) * 0x10000 + groups[1].value.value;
        if groups[0].value.tag == TypeThreeByte then
          Some([(combined / 0x10000) % 0x100, (combined / 0x100) % 0x100, combined % 0x100])
        else if groups[0].value.tag == TypeFourByte then
          Some([(combined / 0x100_0000) % 0x100, (combined / 0x10000) % 0x100, (combined / 0x100) % 0x100, combined % 0x100])
        else None
    else None
  }

  /** `_decode_character_from_groups`: the rebuilt bytes decoded by the external encoding. */
  function DecodeCharacterFromGroups(groups: seq<Option<DecodedGroup>>, codec: Codec): (r: Option<string>)
    ensures r.Some? ==> BytesFromGroups(groups).Some? && r == codec.decode(BytesFromGroups(groups).value)
  {
    match BytesFromGroups(groups)
    case None => None
    case Some(bytes) => codec.decode(bytes)
  }

  /** The decoded groups the encoder's words become when they validate under the character's tag. */
  function ValidGroups(words: seq<Word>, tag: Tag): (gs: seq<Option<DecodedGroup>>)
    ensures |gs| == |words|
    ensures forall k :: 0 <= k < |gs| ==> gs[k] == Some(DecodedGroup(words[k], tag))
  {
    seq(|words|, k requires 0 <= k < |words| => Some(DecodedGroup(words[k], tag)))
  }

  /** Rebuilding the bytes from the packed words returns exactly the bytes that were packed (the first four of them). */
  lemma {:induction false} UnpackInvertsPack(bytes: seq<Byte>)
    requires |bytes| >= 1
    ensures BytesFromGroups(ValidGroups(PackedWords(bytes), CharTag(|bytes|)))
            == Some(if |bytes| <= 4 then bytes else bytes[..4])
  {
    PackedWordsSpelled(bytes);
    if |bytes| <= 2 {
      UnpackOneGroup(bytes);
    } else if |bytes| == 3 {
      UnpackThreeBytes(bytes);
    } else {
      UnpackFourBytes(bytes);
      assert |bytes| == 4 ==> bytes[..4] == bytes;
    }
  }

  lemma UnpackOneGroup(bytes: seq<Byte>)
    requires 1 <= |bytes| <= 2
    ensures BytesFromGroups(ValidGroups(PackedWords(bytes), CharTag(|bytes|))) == Some(bytes)
  {
    PackedWordsSpelled(bytes);
    var gs := ValidGroups(PackedWords(bytes), CharTag(|bytes|));
    if |bytes| == 1 {
      assert gs == [Some(DecodedGroup(bytes[0], TypeSingleByte))];
      assert bytes == [bytes[0]];
    } else {
      var w := (bytes[0] as int) * 0x100 + bytes[1];
      assert gs == [Some(DecodedGroup(w, TypeDoubleByte))];
      assert (w / 0x100) % 0x100 == bytes[0] && w % 0x100 == bytes[1];
      assert bytes == [bytes[0], bytes[1]];
    }
  }

  lemma UnpackThreeBytes(bytes: seq<Byte>)
    requires |bytes| == 3
    ensures BytesFromGroups(ValidGroups(PackedWords(bytes), CharTag(|bytes|))) == Some(bytes)
  {
    PackedWordsSpelled(bytes);
    var gs := ValidGroups(PackedWords(bytes), CharTag(|bytes|));
    var lo := (bytes[1] as int) * 0x100 + bytes[2];
    assert gs == [Some(DecodedGroup(bytes[0], TypeThreeByte)), Some(DecodedGroup(lo, TypeThreeByte))];
    assert bytes == [bytes[0], bytes[1], bytes[2]];
    var combined := (bytes[0] as int) * 0x10000 + lo;
    assert combined == (bytes[0] as int) * 0x10000 + (bytes[1] as int) * 0x100 + bytes[2];
    assert (combined / 0x10000) % 0x100 == bytes[0];
    assert (combined / 0x100) % 0x100 == bytes[1];
    assert combined % 0x100 == bytes[2];
  }

  lemma UnpackFourBytes(bytes: seq<Byte>)
    requires |bytes| >= 4
    ensures BytesFromGroups(ValidGroups(PackedWords(bytes), CharTag(|bytes|))) == Some(bytes[..4])
  {
    PackedWordsSpelled(bytes);
    var gs := ValidGroups(PackedWords(bytes), CharTag(|bytes|));
    var hi := (bytes[0] as int) * 0x100 + bytes[1];
    var lo := (bytes[2] as int) * 0x100 + bytes[3];
    assert gs == [Some(DecodedGroup(hi, TypeFourByte)), Some(DecodedGroup(lo, TypeFourByte))];
    FourBytesOfCombined(bytes[0], bytes[1], bytes[2], bytes[3]);
    assert bytes[..4] == [bytes[0], bytes[1], bytes[2], bytes[3]];
  }

  lemma FourBytesOfCombined(b0: Byte, b1: Byte, b2: Byte, b3: Byte)
    ensures var combined := ((b0 as int) * 0x100 + b1) * 0x10000 + ((b2 as int) * 0x100 + b3);
            && (combined / 0x100_0000) % 0x100 == b0 && (combined / 0x10000) % 0x100 == b1
            && (combined / 0x100) % 0x100 == b2 && combined % 0x100 == b3
  {
    var combined := ((b0 as int) * 0x100 + b1) * 0x10000 + ((b2 as int) * 0x100 + b3);
    assert combined == (b0 as int) * 0x100_0000 + (b1 as int) * 0x10000 + (b2 as int) * 0x100 + b3;
    assert combined / 0x100_0000 == b0;
    assert combined / 0x10000 == (b0 as int) * 0x100 + b1;
    assert combined / 0x100 == (b0 as int) * 0x10000 + (b1 as int) * 0x100 + b2;
  }
}
