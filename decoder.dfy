/**
 * The resynchronising decoder: one pass over the glyph string with a position
 * that moves by 5 after a single-group character, by 10 after a two-group
 * character, and by 1 wherever no character starts.
 */
module Decoder {
  import opened Wrappers
  import opened CodecTables
  import opened GroupCodec
  import opened ExternalEncoding
  import opened CharacterAssembler
  import opened Encoder

  /** One turn of the decode loop: the text it appends, if any, and how far the position moves. */
  datatype Step = Step(piece: Option<string>, advance: nat)

  /** The loop's `if char:` test: a failed decoding and an empty string are both dropped. */
  function Kept(ch: Option<string>): (r: Option<string>)
    ensures r.Some? <==> ch.Some? && ch.value != []
    ensures r.Some? ==> r == ch
  {
    if ch.Some? && ch.value != [] then ch else None
  }

  /**
   * The turn of `decode_text`'s loop at `pos`. A window valid under a one-group
   * tag moves 5, whether or not its bytes decode; a window valid under a
   * two-group tag moves 10 only when the next window is valid under the same tag
   * and the character decodes; everything else moves 1.
   */
  function StepAt(text: string, pos: nat, codec: Codec): (s: Step)
    requires pos + 5 <= |text|
    ensures s.advance == 1 || s.advance == 5 || s.advance == 10
    ensures pos + s.advance <= |text|
    ensures s.piece.Some? ==> s.piece.value != [] && s.advance >= 5
  {
    match DecodeGroup(text[pos..pos + 5], None)
    case None => Step(None, 1)
    case Some(first) =>
      if first.tag == TypeSingleByte || first.tag == TypeDoubleByte then
        Step(Kept(DecodeCharacterFromGroups([Some(first)], codec)), 5)
      else if pos + 10 <= |text| then
        match DecodeGroup(text[pos + 5..pos + 10], Some(first.tag))
        case None => Step(None, 1)
        case Some(next) =>
          var ch := Kept(DecodeCharacterFromGroups([Some(first), Some(next)], codec));
          if ch.Some? then Step(ch, 10) else Step(None, 1)
      else Step(None, 1)
  }

  /**
   * How far a turn moves: 5 exactly when the window is a valid one-group
   * character group; 10 exactly when it is a valid two-group character group,
   * the next window fits and is valid under the same tag, and the two groups
   * decode to a non-empty string; 1 in every other case.
   */
  lemma StepAtAdvance(text: string, pos: nat, codec: Codec)
    requires pos + 5 <= |text|
    ensures var s := StepAt(text, pos, codec);
            var first := DecodeGroup(text[pos..pos + 5], None);
            var oneGroup := first.Some? && first.value.tag <= TypeDoubleByte;
            var twoGroups :=
              && first.Some? && first.value.tag >= TypeThreeByte
              && pos + 10 <= |text|
              && DecodeGroup(text[pos + 5..pos + 10], Some(first.value.tag)).Some?
              && Kept(DecodeCharacterFromGroups(
                   [first, DecodeGroup(text[pos + 5..pos + 10], Some(first.value.tag))], codec)).Some?;
            && (s.advance == 5 <==> oneGroup)
            && (s.advance == 10 <==> twoGroups)
            && (s.advance == 1 <==> !oneGroup && !twoGroups)
  {
  }

  /**
   * The list `result` that `decode_text` builds from `pos` on. Every entry is a
   * non-empty string and uses up at least five glyphs, so there are at most
   * (|text| - pos) / 5 of them.
   */
  function DecodeFrom(text: string, pos: nat, codec: Codec): (pieces: seq<string>)
    requires pos <= |text|
    ensures 5 * |pieces| <= |text| - pos
    ensures forall i :: 0 <= i < |pieces| ==> pieces[i] != []
    decreases |text| - pos
  {
    if pos + 5 > |text| then []
    else
      var s := StepAt(text, pos, codec);
      (if s.piece.Some? then [s.piece.value] else []) + DecodeFrom(text, pos + s.advance, codec)
  }

  /** ''.join(pieces). */
  function Concat(pieces: seq<string>): string {
    if pieces == [] then [] else pieces[0] + Concat(pieces[1..])
  }

  /** `decode_text` without the detail records: the scan loop, then the join. */
  method DecodeText(text: string, codec: Codec) returns (decoded: string)
    ensures decoded == Concat(DecodeFrom(text, 0, codec))
  {
    var result: seq<string> := [];
    var pos := 0;
    while pos + 5 <= |text|
      invariant pos <= |text|
      invariant result + DecodeFrom(text, pos, codec) == DecodeFrom(text, 0, codec)
      decreases |text| - pos
    {
      var piece, advance := ScanStep(text, pos, codec);
      LoopTurn(text, pos, codec, result);
      if piece.Some? {
        result := result + [piece.value];
      } else {
        assert result + [] == result;
      }
      pos := pos + advance;
    }
    assert DecodeFrom(text, pos, codec) == [];
    assert result + [] == result;
    decoded := Concat(result);
  }

  /** The loop invariant survives one turn: what is appended is what `DecodeFrom` puts first. */
  lemma LoopTurn(text: string, pos: nat, codec: Codec, result: seq<string>)
    requires pos + 5 <= |text|
    requires result + DecodeFrom(text, pos, codec) == DecodeFrom(text, 0, codec)
    ensures var s := StepAt(text, pos, codec);
            (result + (if s.piece.Some? then [s.piece.value] else [])) + DecodeFrom(text, pos + s.advance, codec)
            == DecodeFrom(text, 0, codec)
  {
    var s := StepAt(text, pos, codec);
    DecodeFromStep(text, pos, codec);
    Reassociate(result, if s.piece.Some? then [s.piece.value] else [], DecodeFrom(text, pos + s.advance, codec),
                DecodeFrom(text, pos, codec), DecodeFrom(text, 0, codec));
  }

  /** Regrouping a three-part concatenation; a separate lemma keeps DecodeFrom's unfoldings out of this step. */
  lemma Reassociate(a: seq<string>, b: seq<string>, c: seq<string>, m: seq<string>, d: seq<string>)
    requires m == b + c && a + m == d
    ensures (a + b) + c == d
  {
  }

  /** One turn of `decode_text`'s loop at `pos`: the character it appends, if any, and the move. */
  method ScanStep(text: string, pos: nat, codec: Codec) returns (piece: Option<string>, advance: nat)
    requires pos + 5 <= |text|
    ensures Step(piece, advance) == StepAt(text, pos, codec)
  {
    var group := text[pos..pos + 5];
    var first := TryDecodeGroup(group, None);
    if first.Some? {
      if first.value.tag == TypeSingleByte || first.value.tag == TypeDoubleByte {
        var ch := DecodeCharacterFromGroups([first], codec);
        if ch.Some? && ch.value != [] {
          return ch, 5;
        }
        return None, 5;
      }
      // A three- or four-byte tag: the character continues in the next window.
      if pos + 10 <= |text| {
        var nextGroup := text[pos + 5..pos + 10];
        var next := TryDecodeGroup(nextGroup, Some(first.value.tag));
        if next.Some? {
          var ch := DecodeCharacterFromGroups([first, next], codec);
          if ch.Some? && ch.value != [] {
            return ch, 10;
          }
        }
      }
    }
    return None, 1;
  }

  /** `DecodeFrom` at a position where a window fits is the step there followed by the rest. */
  lemma DecodeFromStep(text: string, pos: nat, codec: Codec)
    requires pos + 5 <= |text|
    ensures var s := StepAt(text, pos, codec);
            DecodeFrom(text, pos, codec)
            == (if s.piece.Some? then [s.piece.value] else []) + DecodeFrom(text, pos + s.advance, codec)
  {
  }

  /** The one-character strings of `s`, in order: what decoding an encoded text produces. */
  function Singletons(s: string): (r: seq<string>)
    ensures |r| == |s|
  {
    if s == [] then [] else [[s[0]]] + Singletons(s[1..])
  }

  /** Joining the one-character strings of `s` gives `s`. */
  lemma {:induction false} ConcatSingletons(s: string)
    ensures Concat(Singletons(s)) == s
  {
    if s != [] {
      ConcatSingletons(s[1..]);
    }
  }

  /**
   * At the start of an encoded character whose bytes the external encoding
   * decodes back to it, the decoder emits exactly that character and moves past
   * its 5 or 10 glyphs, whatever comes before or after.
   */
  lemma {:induction false} DecodeEncodedChar(prefix: string, c: char, rest: string, codec: Codec)
    requires RoundTrips(codec, c)
    ensures var glyphs := CharGlyphs(codec.encode(c));
            var text := prefix + glyphs + rest;
            DecodeFrom(text, |prefix|, codec) == [[c]] + DecodeFrom(text, |prefix| + |glyphs|, codec)
  {
    var glyphs := CharGlyphs(codec.encode(c));
    var text := prefix + glyphs + rest;
    StepOverEncodedChar(prefix, c, rest, codec);
    CharGlyphsShape(codec.encode(c));
    assert StepAt(text, |prefix|, codec) == Step(Some([c]), |glyphs|);
  }

  /** The single loop turn at the start of an encoded character. */
  lemma {:induction false} StepOverEncodedChar(prefix: string, c: char, rest: string, codec: Codec)
    requires RoundTrips(codec, c)
    ensures var glyphs := CharGlyphs(codec.encode(c));
            var text := prefix + glyphs + rest;
            |prefix| + 5 <= |text| && StepAt(text, |prefix|, codec) == Step(Some([c]), |glyphs|)
  {
    var bytes := codec.encode(c);
    var glyphs := CharGlyphs(bytes);
    var text := prefix + glyphs + rest;
    var pos := |prefix|;
    CharGlyphsShape(bytes);
    assert text[pos..pos + |glyphs|] == glyphs;
    if |bytes| <= 2 {
      OneGroupWindow(bytes, text, pos);
      StepOverOneGroup(bytes, c, text, pos, codec);
    } else {
      TwoGroupWindows(bytes, text, pos);
      StepOverTwoGroups(bytes, c, text, pos, codec);
    }
  }

  lemma {:induction false} OneGroupWindow(bytes: seq<Byte>, text: string, pos: nat)
    requires 1 <= |bytes| <= 2 && pos + 5 <= |text|
    requires text[pos..pos + 5] == CharGlyphs(bytes)
    ensures text[pos..pos + 5] == EncodeGroup(PackedWords(bytes)[0], CharTag(|bytes|))
  {
    GroupsGlyphsAt(PackedWords(bytes), CharTag(|bytes|), 0);
  }

  lemma {:induction false} TwoGroupWindows(bytes: seq<Byte>, text: string, pos: nat)
    requires |bytes| >= 3 && pos + 10 <= |text|
    requires text[pos..pos + 10] == CharGlyphs(bytes)
    ensures text[pos..pos + 5] == EncodeGroup(PackedWords(bytes)[0], CharTag(|bytes|))
    ensures text[pos + 5..pos + 10] == EncodeGroup(PackedWords(bytes)[1], CharTag(|bytes|))
  {
    var glyphs := GroupsGlyphs(PackedWords(bytes), CharTag(|bytes|));
    assert CharGlyphs(bytes) == glyphs;
    GroupsGlyphsAt(PackedWords(bytes), CharTag(|bytes|), 0);
    GroupsGlyphsAt(PackedWords(bytes), CharTag(|bytes|), 1);
    WindowOfRun(text, pos, glyphs, 0);
    WindowOfRun(text, pos, glyphs, 5);
  }

  /** A 5-glyph window inside a run that occurs in `text` at `pos`; stated apart so the callers' contexts stay small. */
  lemma WindowOfRun(text: string, pos: nat, run: string, i: nat)
    requires pos + |run| <= |text| && text[pos..pos + |run|] == run && i + 5 <= |run|
    ensures text[pos + i..pos + i + 5] == run[i..i + 5]
  {
    var window, whole := text[pos + i..pos + i + 5], text[pos..pos + |run|];
    assert forall k :: 0 <= k < 5 ==> window[k] == whole[i + k];
  }

  lemma {:induction false} StepOverOneGroup(bytes: seq<Byte>, c: char, text: string, pos: nat, codec: Codec)
    requires bytes == codec.encode(c) && RoundTrips(codec, c) && |bytes| <= 2 && pos + 5 <= |text|
    requires text[pos..pos + 5] == EncodeGroup(PackedWords(bytes)[0], CharTag(|bytes|))
    ensures StepAt(text, pos, codec) == Step(Some([c]), 5)
  {
    var tag := CharTag(|bytes|);
    var words := PackedWords(bytes);
    DecodeEncodedGroup(words[0], tag, None);
    UnpackInvertsPack(bytes);
    assert [Some(DecodedGroup(words[0], tag))] == ValidGroups(words, tag);
  }

  lemma {:induction false} StepOverTwoGroups(bytes: seq<Byte>, c: char, text: string, pos: nat, codec: Codec)
    requires bytes == codec.encode(c) && RoundTrips(codec, c) && |bytes| >= 3 && pos + 10 <= |text|
    requires text[pos..pos + 5] == EncodeGroup(PackedWords(bytes)[0], CharTag(|bytes|))
    requires text[pos + 5..pos + 10] == EncodeGroup(PackedWords(bytes)[1], CharTag(|bytes|))
    ensures StepAt(text, pos, codec) == Step(Some([c]), 10)
  {
    var tag := CharTag(|bytes|);
    var words := PackedWords(bytes);
    DecodeEncodedGroup(words[0], tag, None);
    DecodeEncodedGroup(words[1], tag, Some(tag));
    UnpackInvertsPack(bytes);
    assert [Some(DecodedGroup(words[0], tag)), Some(DecodedGroup(words[1], tag))] == ValidGroups(words, tag);
  }

  /**
   * Decoding from the start of an encoded text, whatever precedes it, yields its
   * characters one by one, provided the external encoding round-trips each of them.
   */
  lemma {:induction false} DecodeEncodedText(prefix: string, s: string, codec: Codec)
    requires forall i :: 0 <= i < |s| ==> RoundTrips(codec, s[i])
    ensures DecodeFrom(prefix + TextGlyphs(s, codec), |prefix|, codec) == Singletons(s)
    decreases |s|
  {
    if s == [] {
      assert prefix + TextGlyphs(s, codec) == prefix;
    } else {
      assert RoundTrips(codec, s[0]);
      var glyphs := CharGlyphs(codec.encode(s[0]));
      DecodeEncodedText(prefix + glyphs, s[1..], codec);
      DecodeEncodedTextCons(prefix, s, codec);
    }
  }

  /** The inductive step: one character decoded, then the rest as the induction hypothesis says. */
  lemma {:induction false} DecodeEncodedTextCons(prefix: string, s: string, codec: Codec)
    requires s != [] && RoundTrips(codec, s[0])
    requires var glyphs := CharGlyphs(codec.encode(s[0]));
             DecodeFrom(prefix + glyphs + TextGlyphs(s[1..], codec), |prefix + glyphs|, codec) == Singletons(s[1..])
    ensures DecodeFrom(prefix + TextGlyphs(s, codec), |prefix|, codec) == Singletons(s)
  {
    var glyphs := CharGlyphs(codec.encode(s[0]));
    var rest := TextGlyphs(s[1..], codec);
    TextGlyphsUncons(prefix, s, codec);
    DecodeEncodedChar(prefix, s[0], rest, codec);
    RewriteTail([[s[0]]], DecodeFrom(prefix + glyphs + rest, |prefix + glyphs|, codec), Singletons(s[1..]),
                DecodeFrom(prefix + glyphs + rest, |prefix|, codec), Singletons(s));
  }

  /** The glyphs of a non-empty text are those of its first character followed by those of the rest. */
  lemma TextGlyphsUncons(prefix: string, s: string, codec: Codec)
    requires s != []
    ensures prefix + TextGlyphs(s, codec)
         == prefix + CharGlyphs(codec.encode(s[0])) + TextGlyphs(s[1..], codec)
  {
  }

  /** Two concatenations with the same head and equal tails are equal; a separate lemma keeps DecodeFrom's unfoldings out of this step. */
  lemma RewriteTail(head: seq<string>, x: seq<string>, y: seq<string>, whole: seq<string>, target: seq<string>)
    requires x == y && whole == head + x && target == head + y
    ensures whole == target
  {
  }

  /**
   * `decode_text(encode_text(s)) == s` whenever the external encoding gives every
   * character of `s` one to four bytes that decode back to it.
   */
  lemma {:induction false} DecodeInvertsEncode(s: string, codec: Codec)
    requires forall i :: 0 <= i < |s| ==> RoundTrips(codec, s[i])
    ensures Concat(DecodeFrom(TextGlyphs(s, codec), 0, codec)) == s
  {
    DecodeEncodedText([], s, codec);
    assert [] + TextGlyphs(s, codec) == TextGlyphs(s, codec);
    ConcatSingletons(s);
  }

  /**
   * The letter 'A' (the single byte 65 under GB18030) is one single-byte group
   * whose content spells 0x0041, and decoding that group alone gives back "A".
   */
  lemma {:induction false} LetterARoundTrip(codec: Codec)
    requires codec.encode('A') == [65] && codec.decode([65]) == Some("A")
    ensures var glyphs := CharGlyphs([65]);
            && |glyphs| == 5
            && BitsValue(glyphs[..4]) == 0x0041
            && DecodeGroup(glyphs, None) == Some(DecodedGroup(0x0041, TypeSingleByte))
            && Concat(DecodeFrom(glyphs, 0, codec)) == "A"
  {
    var glyphs := CharGlyphs([65]);
    CharGlyphsShape([65]);
    CharGlyphsGroup([65], 0);
    PackedWordsSpelled([65]);
    assert glyphs[0..4] == glyphs[..4];
    assert glyphs[0..5] == glyphs;
    GroupsGlyphsAt(PackedWords([65]), TypeSingleByte, 0);
    DecodeEncodedGroup(0x0041, TypeSingleByte, None);
    assert "A"[1..] == [];
    assert TextGlyphs("A", codec) == glyphs + TextGlyphs([], codec);
    assert TextGlyphs("A", codec) == glyphs;
    DecodeInvertsEncode("A", codec);
  }
}
