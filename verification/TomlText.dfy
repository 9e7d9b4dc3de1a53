/** From the bytes of a document to the value of a string in it, and back: the code points of the string modules
    are the values the decoder delivers, so what was written as UTF-8 is read, decoded and parsed as it was. The
    blocks the decoder delivers them in are the ones on which integers are read. */
module TomlText {
  import opened Wrappers
  import opened Sequences
  import opened TomlChars
  import opened TomlStrings
  import TomlParser
  import opened Utf8BufferedReader
  import TomlIntegers
  import Utf8
  import Utf8Reader

  // ---------- Code points as numbers and as bits ----------

  /** The 32 bits of a number, from the highest down. */
  function Bits(c: int): (b: bv32)
    requires 0 <= c < 0x8000_0000
    ensures b as int == c
    decreases c
  {
    if c == 0 then 0
    else
      var half := Bits(c / 2);
      Doubled(half);
      if c % 2 == 0 then half << 1 else (half << 1) | 1
  }

  lemma {:induction false} Doubled(b: bv32)
    requires b as int < 0x4000_0000
    ensures (b << 1) as int == 2 * (b as int)
    ensures ((b << 1) | 1) as int == 2 * (b as int) + 1
  {
  }

  lemma {:induction false} ThereAndBack(b: bv32)
    ensures (b as int) as bv32 == b
  {
  }

  lemma {:induction false} SameNumberSameBits(a: bv32, b: bv32)
    requires a as int == b as int
    ensures a == b
  {
    ThereAndBack(a);
    ThereAndBack(b);
  }

  lemma {:induction false} ScalarNumber(b: bv32)
    ensures Utf8.IsScalarValue(b) <==> IsScalar(b as int)
  {
  }

  /** A number is a scalar value exactly when its bits are. */
  lemma {:induction false} ScalarBits(c: int)
    requires 0 <= c < 0x8000_0000
    ensures Utf8.IsScalarValue(Bits(c)) <==> IsScalar(c)
  {
    ScalarNumber(Bits(c));
  }

  function AllBits(t: Text): (r: seq<bv32>)
    requires AllScalar(t)
    ensures |r| == |t|
  {
    if t == [] then [] else [Bits(t[0])] + AllBits(t[1..])
  }

  function Numbers(cs: seq<bv32>): (r: Text)
    ensures |r| == |cs|
  {
    if cs == [] then [] else [cs[0] as int] + Numbers(cs[1..])
  }

  /** The UTF-8 form of a text. */
  function Encoded(t: Text): seq<bv8>
    requires AllScalar(t)
  {
    Utf8Reader.EncodeAll(AllBits(t))
  }

  /** The code points of a UTF-8 text. */
  function Decoded(bs: seq<bv8>): Text {
    Numbers(Utf8Reader.Values(Utf8Reader.Chars(bs)))
  }

  lemma {:induction false} AllBitsScalar(t: Text)
    requires AllScalar(t)
    ensures forall k :: 0 <= k < |t| ==> Utf8.IsScalarValue(AllBits(t)[k])
    ensures Numbers(AllBits(t)) == t
  {
    hide Bits, Utf8.IsScalarValue;
    if t != [] {
      ScalarBits(t[0]);
      AllBitsScalar(t[1..]);
      assert AllBits(t)[1..] == AllBits(t[1..]);
    }
  }

  lemma {:induction false} DecodedEncoded(t: Text)
    requires AllScalar(t)
    ensures Utf8.WellFormed(Encoded(t)) && Decoded(Encoded(t)) == t
  {
    AllBitsScalar(t);
    Utf8Reader.DecodeEncodeAll(AllBits(t));
  }

  lemma {:induction false} EncodedDecoded(bs: seq<bv8>)
    requires Utf8.WellFormed(bs)
    ensures AllScalar(Decoded(bs)) && Encoded(Decoded(bs)) == bs
    decreases |bs|
  {
    hide Utf8.CharLength, Utf8.CharValue, Utf8.Encode, IsScalar, Bits, Utf8Reader.Chars, Utf8Reader.Values, Encoded;
    if bs == [] {
      NothingEncoded();
    } else {
      var n, v := Utf8.CharLength(bs), Utf8.CharValue(bs);
      Utf8.CharIsEncoding(bs);
      ScalarNumber(v);
      EncodedDecoded(bs[n..]);
      FirstValue(bs);
      assert bs == bs[..n] + bs[n..];
      OneInFront(v, Utf8Reader.Values(Utf8Reader.Chars(bs[n..])));
    }
  }

  lemma {:induction false} NothingEncoded()
    ensures Decoded([]) == [] && Encoded([]) == []
  {
  }

  lemma {:induction false} FirstValue(bs: seq<bv8>)
    requires Utf8.CharLength(bs) > 0
    ensures Utf8Reader.Values(Utf8Reader.Chars(bs))
            == [Utf8.CharValue(bs)] + Utf8Reader.Values(Utf8Reader.Chars(bs[Utf8.CharLength(bs)..]))
  {
    hide Utf8.CharLength, Utf8.CharValue;
    var cs := Utf8Reader.Chars(bs);
    assert cs[1..] == Utf8Reader.Chars(bs[Utf8.CharLength(bs)..]);
  }

  lemma {:induction false} OneInFront(v: bv32, vs: seq<bv32>)
    requires IsScalar(v as int) && AllScalar(Numbers(vs))
    ensures Numbers([v] + vs) == [v as int] + Numbers(vs) && AllScalar(Numbers([v] + vs))
    ensures Encoded(Numbers([v] + vs)) == Utf8.Encode(v) + Encoded(Numbers(vs))
  {
    hide Bits, Utf8.Encode;
    var t := [v as int] + Numbers(vs);
    assert ([v] + vs)[1..] == vs && t[1..] == Numbers(vs);
    SameNumberSameBits(Bits(v as int), v);
    assert AllBits(t) == [v] + AllBits(Numbers(vs));
    assert ([v] + AllBits(Numbers(vs)))[1..] == AllBits(Numbers(vs));
  }

  // ---------- What the writer writes ----------

  lemma {:induction false} HexDigitsScalar(ds: Text)
    requires TomlIntegers.AllDigits(TomlIntegers.Hexadecimal, ds)
    ensures AllScalar(ds)
  {
    forall k | 0 <= k < |ds| ensures IsScalar(ds[k]) { assert TomlIntegers.Base.Hexadecimal.IsDigit(ds[k]); }
  }

  lemma {:induction false} EscapedScalar(c: int, style: Style, multi: bool)
    requires IsScalar(c)
    ensures AllScalar(Escaped(c, style, multi))
  {
    hide TomlIntegers.PrintInteger, TomlIntegers.Pow;
    if c > 0x7F {
      FourAndEightDigits();
      var n := if c > 0xFFFF then 8 else 4;
      PaddedHex(c, n);
      HexDigitsScalar(TomlIntegers.PrintInteger(c, TomlIntegers.Hexadecimal, n));
    }
  }

  lemma {:induction false} EscapedAllScalar(str: Text, style: Style, multi: bool)
    requires AllScalar(str)
    ensures AllScalar(EscapedAll(str, style, multi))
  {
    if str != [] {
      EscapedScalar(str[0], style, multi);
      EscapedAllScalar(str[1..], style, multi);
      hide Escaped;
    }
  }

  /** What is written for a text is a text, and it starts with an ASCII character. */
  lemma {:induction false} PrintedText(str: Text, style: Style)
    requires AllScalar(str)
    ensures AllScalar(Print(str, style)) && Print(str, style) != [] && 0 <= Print(str, style)[0] <= 0x7F
  {
    hide EscapedAll, AllScalar, ChooseForm;
    match ChooseForm(str, style)
    case Empty =>
      assert Print(str, style) == [Print(str, style)[0], Print(str, style)[0]];
      QuotesAreText();
    case Bare => BareIsAscii(str, style);
    case Literal(multi) => DelimitedText(APOSTROPHE, multi, str);
    case Basic(multi) =>
      EscapedAllScalar(str, style, multi);
      DelimitedText(QUOTE, multi, EscapedAll(str, style, multi));
  }

  lemma {:induction false} QuotesAreText()
    ensures AllScalar([APOSTROPHE, APOSTROPHE]) && AllScalar([QUOTE, QUOTE])
  {
  }

  lemma {:induction false} BareIsAscii(str: Text, style: Style)
    requires AllScalar(str) && ChooseForm(str, style) == Bare
    ensures str != [] && 0 <= str[0] <= 0x7F
  {
    BareFormCharacters(str, style);
  }

  lemma {:induction false} DelimitedText(q: int, multi: bool, inner: Text)
    requires (q == QUOTE || q == APOSTROPHE) && AllScalar(inner)
    ensures AllScalar(Delimiter(q, multi) + inner + Delimiter(q, multi))
    ensures (Delimiter(q, multi) + inner + Delimiter(q, multi)) != []
    ensures (Delimiter(q, multi) + inner + Delimiter(q, multi))[0] == q
  {
  }

  /** No byte order mark is taken off what starts with an ASCII character. */
  lemma {:induction false} NoByteOrderMark(t: Text)
    requires AllScalar(t) && t != [] && t[0] <= 0x7F
    ensures Utf8Reader.BodyStart(Encoded(t)) == 0
  {
    var b := Bits(t[0]);
    assert b as int <= 0x7F;
    SmallBits(b);
    Utf8.EncodeOne(b, Utf8.Encode(b)[0]);
    assert Encoded(t)[0] == Utf8.Encode(b)[0];
  }

  lemma {:induction false} SmallBits(b: bv32)
    requires b as int <= 0x7F
    ensures b < 0x80
  {
  }

  // ---------- From end to end ----------

  /** What the bytes of a document say first: the key segment or string at its front, and the rest. */
  function SegmentOf(source: seq<bv8>): Option<Parsed> {
    var body := source[Utf8Reader.BodyStart(source)..];
    if Utf8.WellFormed(body) then ParseSegment(Decoded(body)) else None
  }

  /** A text that is written and encoded is decoded and read as the text it was, with everything behind it, exactly
      when the form it was written in keeps it. */
  lemma {:induction false} BytesKeepText(str: Text, style: Style, r: Text)
    requires AllScalar(str) && AllScalar(r)
    ensures AllScalar(Print(str, style) + r)
    ensures SegmentOf(Encoded(Print(str, style) + r)) == Some(Parsed(str, r)) <==> Faithful(str, style, r)
  {
    PrintedText(str, style);
    var written := Print(str, style) + r;
    NoByteOrderMark(written);
    DecodedEncoded(written);
    ReadUndoesPrint(str, style, r);
    var bs := Encoded(written);
    assert bs[0..] == bs;
  }

  /** Texts with the same bytes are the same text. */
  lemma {:induction false} EncodedApart(a: Text, b: Text)
    requires AllScalar(a) && AllScalar(b) && Encoded(a) == Encoded(b)
    ensures a == b
  {
    DecodedEncoded(a);
    DecodedEncoded(b);
  }

  /** The same for the bytes of a value: they come back byte by byte exactly when the written form keeps them. */
  lemma {:induction false} BytesKeepBytes(value: seq<bv8>, style: Style, r: Text)
    requires Utf8.WellFormed(value) && AllScalar(r)
    ensures AllScalar(Decoded(value)) && AllScalar(Print(Decoded(value), style) + r)
    ensures (var p := SegmentOf(Encoded(Print(Decoded(value), style) + r));
             p.Some? && AllScalar(p.value.value) && Encoded(p.value.value) == value && p.value.rest == r)
            <==> Faithful(Decoded(value), style, r)
  {
    EncodedDecoded(value);
    BytesKeepText(Decoded(value), style, r);
    var p := SegmentOf(Encoded(Print(Decoded(value), style) + r));
    hide Faithful, SegmentOf, Encoded, Decoded, Print;
    if p.Some? && AllScalar(p.value.value) && Encoded(p.value.value) == value {
      EncodedApart(p.value.value, Decoded(value));
    }
  }

  // ---------- The blocks of a document ----------

  /** The code points that end in the k-th block. */
  function BlockText(bs: seq<bv8>, k: nat): Text {
    Numbers(Utf8Reader.Values(Utf8Reader.BlockChars(bs, k)))
  }

  function BlockTexts(bs: seq<bv8>, n: nat): (r: seq<Text>)
    ensures |r| == n && forall k :: 0 <= k < n ==> r[k] == BlockText(bs, k)
  {
    if n == 0 then [] else BlockTexts(bs, n - 1) + [BlockText(bs, n - 1)]
  }

  /** The code points of a document, block by block. */
  function Blocks(bs: seq<bv8>): seq<Text> {
    BlockTexts(bs, Utf8Reader.SoundBlocks(bs, 0))
  }

  lemma {:induction false} NumbersConcat(a: seq<Utf8Reader.Character>, b: seq<Utf8Reader.Character>)
    ensures Numbers(Utf8Reader.Values(a + b)) == Numbers(Utf8Reader.Values(a)) + Numbers(Utf8Reader.Values(b))
  {
    if a == [] {
      assert a + b == b;
    } else {
      assert (a + b)[1..] == a[1..] + b;
      NumbersConcat(a[1..], b);
      FirstNumber(a);
      FirstNumber(a + b);
      Regroup([a[0].value as int], Numbers(Utf8Reader.Values(a[1..])), Numbers(Utf8Reader.Values(b)));
    }
  }

  lemma {:induction false} FirstNumber(cs: seq<Utf8Reader.Character>)
    requires cs != []
    ensures Numbers(Utf8Reader.Values(cs)) == [cs[0].value as int] + Numbers(Utf8Reader.Values(cs[1..]))
  {
    assert Utf8Reader.Values(cs)[1..] == Utf8Reader.Values(cs[1..]);
  }

  lemma {:induction false} JoinedSnoc(blocks: seq<Text>, b: Text)
    ensures Joined(blocks + [b]) == Joined(blocks) + b
  {
    if blocks == [] {
      assert blocks + [b] == [b] && [b][1..] == [] && b + [] == b;
    } else {
      assert (blocks + [b])[1..] == blocks[1..] + [b];
      JoinedSnoc(blocks[1..], b);
      Regroup(blocks[0], Joined(blocks[1..]), b);
    }
  }

  lemma {:induction false} OneBlockMore(bs: seq<bv8>, k: nat)
    ensures Decoded(Utf8Reader.Front(bs, k + 1)) == Decoded(Utf8Reader.Front(bs, k)) + BlockText(bs, k)
  {
    hide Utf8Reader.Chars, Utf8Reader.Front, Utf8Reader.Values, Numbers;
    Utf8Reader.FrontGrows(bs, k);
    var a, b := Utf8Reader.Chars(Utf8Reader.Front(bs, k)), Utf8Reader.BlockChars(bs, k);
    assert Utf8Reader.Chars(Utf8Reader.Front(bs, k + 1)) == a + b;
    NumbersConcat(a, b);
  }

  lemma {:induction false} BlocksJoined(bs: seq<bv8>, n: nat)
    ensures Joined(BlockTexts(bs, n)) == Decoded(Utf8Reader.Front(bs, n))
  {
    if n == 0 {
      assert Utf8Reader.Front(bs, 0) == [];
      NothingEncoded();
    } else {
      BlocksJoined(bs, n - 1);
      JoinedSnoc(BlockTexts(bs, n - 1), BlockText(bs, n - 1));
      OneBlockMore(bs, n - 1);
      hide Joined, BlockText, Decoded;
    }
  }

  /** In a well-formed document the blocks make up the whole text. */
  lemma {:induction false} BlocksAreText(bs: seq<bv8>)
    requires Utf8.WellFormed(bs)
    ensures Joined(Blocks(bs)) == Decoded(bs)
  {
    var n := Utf8Reader.SoundBlocks(bs, 0);
    BlocksJoined(bs, n);
    Utf8Reader.WellFormedIsSound(bs, n);
    assert Utf8Reader.Front(bs, n) == bs;
  }

  /** What the parser makes of an integer value at the `from`-th code point of a document. */
  function IntegerAt(
      source: seq<bv8>, base: TomlIntegers.Base, from: nat): Option<Result<(int, nat), TomlIntegers.IntError>> {
    var body := source[Utf8Reader.BodyStart(source)..];
    if Utf8.WellFormed(body) && from < |Joined(Blocks(body))|
      then Some(TomlIntegers.ValueAt(base, Blocks(body), from, from)) else None
  }

  // ---------- Plain ASCII documents ----------

  predicate IsAscii(t: Text) { forall k :: 0 <= k < |t| ==> 0 <= t[k] <= 0x7F }

  /** An ASCII text is written byte by byte. */
  lemma {:induction false} AsciiIsEncoded(t: Text)
    requires IsAscii(t)
    ensures AllScalar(t) && |Encoded(t)| == |t|
    ensures forall k :: 0 <= k < |t| ==> Encoded(t)[k] <= 0x7F
  {
    if t != [] {
      var b := Bits(t[0]);
      SmallBits(b);
      AsciiIsEncoded(t[1..]);
      assert Encoded(t) == Utf8.Encode(b) + Encoded(t[1..]) by { assert AllBits(t)[1..] == AllBits(t[1..]); }
      Utf8.EncodeOne(b, Utf8.Encode(b)[0]);
    }
  }

  lemma {:induction false} DecodedAscii(bs: seq<bv8>)
    requires Utf8Reader.AllAscii(bs)
    ensures |Decoded(bs)| == |bs| && Utf8Reader.Chars(bs) == Utf8Reader.AsciiChars(bs)
  {
    Utf8Reader.AsciiCharsAreChars(bs, []);
    assert bs + [] == bs && Utf8Reader.Chars([]) == [] && Utf8Reader.AsciiChars(bs) + [] == Utf8Reader.AsciiChars(bs);
    hide Utf8Reader.Chars;
    ValuesLength(Utf8Reader.AsciiChars(bs));
  }

  /** The pieces a text is cut into. */
  lemma {:induction false} CutAt(t: Text, k: nat)
    ensures |TomlIntegers.Cut(t)| == (|t| + 31) / 32
    ensures k < |TomlIntegers.Cut(t)| ==>
              32 * k < |t| && TomlIntegers.Cut(t)[k] == t[32 * k..if 32 * k + 32 < |t| then 32 * k + 32 else |t|]
    decreases |t|
  {
    if |t| > 32 {
      CutAt(t[32..], if k > 0 then k - 1 else 0);
      if 0 < k < |TomlIntegers.Cut(t)| {
        var end := if 32 * k + 32 < |t| then 32 * k + 32 else |t|;
        Utf8Reader.SliceOfTail(t, 32, 32 * k - 32, end - 32);
      }
    } else if t != [] {
      assert t[0..|t|] == t;
    }
  }

  lemma {:induction false} SoundToTheEnd(bs: seq<bv8>, k: nat)
    requires Utf8.WellFormed(bs) && k <= (|bs| + 31) / 32
    ensures Utf8Reader.SoundBlocks(bs, k) == (|bs| + 31) / 32
    decreases (|bs| + 31) / 32 - k
  {
    hide Utf8.WellFormed, Utf8Reader.Spoils;
    if 32 * k < |bs| {
      Utf8Reader.WellFormedIsSound(bs, k);
      SoundToTheEnd(bs, k + 1);
    }
  }

  /** The blocks of an ASCII document are its text, cut every 32 characters. */
  lemma {:induction false} AsciiBlocks(bs: seq<bv8>)
    requires Utf8Reader.AllAscii(bs)
    ensures Utf8.WellFormed(bs) && Blocks(bs) == TomlIntegers.Cut(Decoded(bs))
  {
    Utf8Reader.AsciiIsWellFormed(bs, []);
    assert bs + [] == bs && Utf8.WellFormed([]);
    SoundToTheEnd(bs, 0);
    DecodedAscii(bs);
    CutAt(Decoded(bs), 0);
    hide Utf8.WellFormed, Decoded, TomlIntegers.Cut, Utf8Reader.SoundBlocks, BlockText;
    var cut := TomlIntegers.Cut(Decoded(bs));
    forall k | 0 <= k < |cut| ensures BlockText(bs, k) == cut[k] {
      CutAt(Decoded(bs), k);
      AsciiBlock(bs, k);
    }
  }

  lemma {:induction false} AsciiBlock(bs: seq<bv8>, k: nat)
    requires Utf8Reader.AllAscii(bs) && 32 * k < |bs| && |Decoded(bs)| == |bs|
    ensures BlockText(bs, k) == Decoded(bs)[32 * k..if 32 * k + 32 < |bs| then 32 * k + 32 else |bs|]
  {
    var m, n := Utf8Reader.BlockEnd(bs, k), Utf8Reader.BlockEnd(bs, k + 1);
    DecodedFront(bs, m);
    DecodedFront(bs, n);
    OneBlockMore(bs, k);
    hide Decoded, BlockText;
    assert Decoded(bs)[..n][m..] == Decoded(bs)[m..n];
    assert (Decoded(bs)[..m] + BlockText(bs, k))[m..] == BlockText(bs, k);
  }

  lemma {:induction false} DecodedFront(bs: seq<bv8>, n: nat)
    requires Utf8Reader.AllAscii(bs) && n <= |bs| == |Decoded(bs)|
    ensures Decoded(bs[..n]) == Decoded(bs)[..n]
  {
    DecodedAscii(bs);
    DecodedAscii(bs[..n]);
    var a, b := Utf8Reader.AsciiChars(bs[..n]), Utf8Reader.AsciiChars(bs);
    assert a == b[..n];
    hide Utf8Reader.Chars, Utf8Reader.Values, Numbers;
    forall k | 0 <= k < n ensures Decoded(bs[..n])[k] == Decoded(bs)[k] {
      NumberAt(a, k);
      NumberAt(b, k);
    }
  }

  /** An integer in an ASCII document is read from the text, cut every 32 characters. */
  lemma {:induction false} AsciiInteger(t: Text, base: TomlIntegers.Base, from: nat)
    requires IsAscii(t) && from < |t|
    ensures AllScalar(t) && from < |Joined(TomlIntegers.Cut(t))|
    ensures IntegerAt(Encoded(t), base, from) == Some(TomlIntegers.ValueAt(base, TomlIntegers.Cut(t), from, from))
  {
    AsciiIsEncoded(t);
    NoByteOrderMark(t);
    DecodedEncoded(t);
    AsciiBlocks(Encoded(t));
    TomlIntegers.CutJoined(t);
    assert Encoded(t)[0..] == Encoded(t);
    hide Encoded, Decoded, Blocks, Utf8.WellFormed, TomlIntegers.Cut, TomlIntegers.ValueAt, Joined;
  }

  function Repeat(c: char, n: nat): (t: Text)
    ensures |t| == n && forall k :: 0 <= k < n ==> t[k] == c as int
  {
    seq(n, _ => c as int)
  }

  function Ascii(s: string): (t: Text)
    ensures |t| == |s| && forall k :: 0 <= k < |s| ==> t[k] == s[k] as int
  {
    seq(|s|, k requires 0 <= k < |s| => s[k] as int)
  }

  /** A line with a key of 27 characters and a value, and another line. */
  function TwoLines(value: Text, key: nat, end: string): Text {
    (Repeat('a', 27) + Ascii(" = ")) + value + ([0x0A] + Repeat('b', key) + Ascii(end))
  }

  lemma {:induction false} LinesAre(value: Text, key: nat, end: string)
    requires |value| == 130 && IsAscii(value) && 31 <= |end| + key && |end| > 0
    requires forall k :: 0 <= k < |end| ==> end[k] as int <= 0x7F
    ensures var head, rest := Repeat('a', 27) + Ascii(" = "), [0x0A] + Repeat('b', key) + Ascii(end);
            && TwoLines(value, key, end) == head + value + rest && |head| == 30 && |rest| >= 32 && rest[0] == 0x0A
            && (key >= 31 ==> rest[31] == 'b' as int) && (key == 30 ==> rest[31] == end[0] as int)
    ensures IsAscii(TwoLines(value, key, end)) && |TwoLines(value, key, end)| > 160
  {
  }

  /** A document of two lines whose number is valid, and which the parser refuses: the block that holds the number ends
      with its last digit, and the underscore before ` = 1` has taken that digit's place when it is looked at again. */
  lemma {:induction false} ValidNumberRefusedInDocument()
    ensures var text := TwoLines(TomlIntegers.LongHex(127, []), 30, "_x = 1");
            && AllScalar(text) && |text| > 30
            && TomlIntegers.Meaning(TomlIntegers.Hexadecimal, text[30..]) == Ok((1, 130))
            && IntegerAt(Encoded(text), TomlIntegers.Hexadecimal, 30) == Some(Err(TomlIntegers.Malformed))
  {
    HexIsAscii(127, []);
    LinesAre(TomlIntegers.LongHex(127, []), 30, "_x = 1");
    hide TomlIntegers.LongHex, Repeat, Ascii, TwoLines, IsAscii, TomlIntegers.Meaning, TomlIntegers.Cut, Joined,
      Encoded, IntegerAt;
    TomlIntegers.ValidNumberIsRefused(Repeat('a', 27) + Ascii(" = "), [0x0A] + Repeat('b', 30) + Ascii("_x = 1"));
    AsciiInteger(TwoLines(TomlIntegers.LongHex(127, []), 30, "_x = 1"), TomlIntegers.Hexadecimal, 30);
  }

  /** A document of two lines whose number ends with an underscore, and which the parser takes for 1. */
  lemma {:induction false} InvalidNumberAcceptedInDocument()
    ensures var text := TwoLines(TomlIntegers.LongHex(126, [TomlIntegers.UNDERSCORE]), 31, "x = 1");
            && AllScalar(text) && |text| > 30
            && TomlIntegers.Meaning(TomlIntegers.Hexadecimal, text[30..]) == Err(TomlIntegers.Malformed)
            && IntegerAt(Encoded(text), TomlIntegers.Hexadecimal, 30) == Some(Ok((1, 130)))
  {
    var token := TomlIntegers.LongHex(126, [TomlIntegers.UNDERSCORE]);
    HexIsAscii(126, [TomlIntegers.UNDERSCORE]);
    LinesAre(token, 31, "x = 1");
    hide TomlIntegers.LongHex, Repeat, Ascii, TwoLines, IsAscii, TomlIntegers.Meaning, TomlIntegers.Cut, Joined,
      Encoded, IntegerAt;
    TomlIntegers.InvalidNumberIsAccepted(Repeat('a', 27) + Ascii(" = "), [0x0A] + Repeat('b', 31) + Ascii("x = 1"));
    AsciiInteger(TwoLines(token, 31, "x = 1"), TomlIntegers.Hexadecimal, 30);
  }

  lemma {:induction false} HexIsAscii(zeros: nat, end: Text)
    requires end == [] || end == [TomlIntegers.UNDERSCORE]
    ensures IsAscii(TomlIntegers.LongHex(zeros, end)) && |TomlIntegers.LongHex(zeros, end)| == zeros + 3 + |end|
  {
  }

  // ---------- The readers and the parser, one after the other ----------

  lemma {:induction false} NumberAt(cs: seq<Utf8Reader.Character>, k: nat)
    requires k < |cs|
    ensures |Numbers(Utf8Reader.Values(cs))| == |cs| && Numbers(Utf8Reader.Values(cs))[k] == cs[k].value as int
    decreases k
  {
    ValuesLength(cs);
    if k > 0 {
      NumberAt(cs[1..], k - 1);
      assert Utf8Reader.Values(cs)[1..] == Utf8Reader.Values(cs[1..]);
    }
  }

  lemma {:induction false} ValuesLength(cs: seq<Utf8Reader.Character>)
    ensures |Utf8Reader.Values(cs)| == |cs|
  {
    if cs != [] { ValuesLength(cs[1..]); }
  }

  function NumberOf(c: Utf8Reader.CodePoint): int { c.character.value as int }

  /** The blocks read so far: all whole, but for the last one, of which `taken` code points have been handed out. */
  ghost predicate Taken(blocks: seq<Text>, body: seq<bv8>, n: nat, taken: nat) {
    && |blocks| == n
    && (forall k :: 0 <= k < n - 1 ==> blocks[k] == BlockText(body, k))
    && (n == 0 ==> taken == 0)
    && (n > 0 ==> taken <= |BlockText(body, n - 1)| && blocks[n - 1] == BlockText(body, n - 1)[..taken])
    && (forall k :: 0 <= k < n ==> 0 < |blocks[k]| <= Utf8Reader.BLOCK_CAPACITY)
  }

  /** The buffer of the block reader is the block. */
  lemma {:induction false} BufferIsText(reader: Utf8Reader.Reader)
    requires reader.Valid() && !reader.failed && reader.blocksRead > 0
    ensures |BlockText(reader.Body(), reader.blocksRead - 1)| == |reader.codepoints| <= Utf8Reader.BLOCK_CAPACITY
    ensures forall i :: 0 <= i < |reader.codepoints| ==>
              NumberOf(reader.codepoints[i]) == BlockText(reader.Body(), reader.blocksRead - 1)[i]
  {
    reader.BufferIsBlock();
    var cs := Utf8Reader.BlockChars(reader.Body(), reader.blocksRead - 1);
    ValuesLength(cs);
    hide Utf8Reader.BlockChars, Utf8Reader.Values, Numbers;
    forall i | 0 <= i < |reader.codepoints|
      ensures NumberOf(reader.codepoints[i]) == BlockText(reader.Body(), reader.blocksRead - 1)[i]
    {
      NumberAt(cs, i);
    }
  }

  /** One code point more: it begins a block, or goes on with the last one. */
  function Add(blocks: seq<Text>, refill: bool, x: int): seq<Text> {
    if refill || blocks == [] then blocks + [[x]] else blocks[|blocks| - 1 := blocks[|blocks| - 1] + [x]]
  }

  lemma {:induction false} TakenAdd(blocks: seq<Text>, body: seq<bv8>, n: nat, taken: nat, m: nat, now: nat, x: int)
    requires Taken(blocks, body, n, taken)
    requires var refill := n == 0 || taken == |BlockText(body, n - 1)|;
             && m == n + (if refill then 1 else 0) && now == (if refill then 1 else taken + 1)
             && now <= |BlockText(body, m - 1)| <= Utf8Reader.BLOCK_CAPACITY && x == BlockText(body, m - 1)[now - 1]
    ensures Taken(Add(blocks, n == 0 || taken == |BlockText(body, n - 1)|, x), body, m, now)
  {
    hide BlockText;
    var t := BlockText(body, m - 1);
    assert t[..now] == t[..now - 1] + [x];
    if n > 0 { assert BlockText(body, n - 1)[..|BlockText(body, n - 1)|] == BlockText(body, n - 1); }
  }

  /** All blocks, at the end of a well-formed document. */
  lemma {:induction false} TakenAll(blocks: seq<Text>, body: seq<bv8>, n: nat)
    requires n == Utf8Reader.SoundBlocks(body, 0) && Utf8.WellFormed(body)
    requires Taken(blocks, body, n, if n == 0 then 0 else |BlockText(body, n - 1)|)
    ensures blocks == Blocks(body) && GoodBlocks(blocks) && Joined(blocks) == Decoded(body)
  {
    BlocksAreText(body);
    hide BlockText, Joined, Decoded, Utf8Reader.SoundBlocks, Utf8.WellFormed;
    if n > 0 { assert BlockText(body, n - 1)[..|BlockText(body, n - 1)|] == BlockText(body, n - 1); }
    assert blocks == BlockTexts(body, n);
  }

  ghost predicate Reading(reader: Utf8Reader.Reader, body: seq<bv8>, blocks: seq<Text>)
    reads reader
  {
    && reader.Valid() && !reader.failed && reader.Body() == body
    && Taken(blocks, body, reader.blocksRead, reader.current) && (reader.blocksRead == 0 ==> reader.codepoints == [])
  }

  /** Everything has been read: the whole text, in its blocks, if it is well formed. */
  ghost predicate HasRead(failed: bool, body: seq<bv8>, blocks: seq<Text>) {
    && (failed <==> !Utf8.WellFormed(body))
    && (!failed ==> blocks == Blocks(body) && GoodBlocks(blocks) && Joined(blocks) == Decoded(body))
  }

  lemma {:induction false} NothingRead(reader: Utf8Reader.Reader)
    requires reader.Valid() && !reader.failed && reader.blocksRead == 0 && reader.codepoints == []
    requires reader.current == 0 && reader.Delivered() == 0
    ensures Reading(reader, reader.Body(), []) && 0 <= reader.Delivered() <= Utf8Reader.Deliverable(reader.Body())
  {
    hide *;
    NoneTaken(reader.Body());
    ReadingIs(reader, reader.Body(), []);
  }

  lemma {:induction false} NoneTaken(body: seq<bv8>)
    ensures Taken([], body, 0, 0)
  {
    hide BlockText;
  }

  lemma {:induction false} ReadingIs(reader: Utf8Reader.Reader, body: seq<bv8>, blocks: seq<Text>)
    requires reader.Valid() && !reader.failed && reader.Body() == body
    requires Taken(blocks, body, reader.blocksRead, reader.current)
    requires reader.blocksRead == 0 ==> reader.codepoints == []
    ensures Reading(reader, body, blocks)
  {
    hide Taken, Utf8Reader.Reader.Valid;
  }

  /** The next code point goes where the buffer has it: into a new block if the buffer has been filled again. */
  method TakeNext(reader: Utf8Reader.Reader, ghost body: seq<bv8>, blocks: seq<Text>)
    returns (more: bool, taken: seq<Text>)
    requires Reading(reader, body, blocks)
    modifies reader
    ensures more ==> Reading(reader, body, taken) && reader.Delivered() == old(reader.Delivered()) + 1
    ensures more ==> reader.Delivered() <= Utf8Reader.Deliverable(body)
    ensures !more ==> HasRead(reader.failed, body, taken)
  {
    hide Taken, BlockText, Blocks, Decoded, Joined, Utf8Reader.Chars, Utf8Reader.Place, Utf8.WellFormed,
      Utf8Reader.Deliverable, Utf8Reader.SoundBlocks, Utf8Reader.Reads, Utf8Reader.BodyStart, Add, NumberOf, GoodBlocks;
    BeforeTaking(reader, body);
    var refill := reader.current == |reader.codepoints|;
    ghost var n, at := reader.blocksRead, reader.current;
    var next := reader.ReadNext();
    more, taken := next.Some?, blocks;
    if more {
      BufferIsText(reader);
      var x := NumberOf(next.value);
      TakenAdd(blocks, body, n, at, reader.blocksRead, reader.current, x);
      taken := Add(blocks, refill, x);
    } else if !reader.failed {
      TakenAll(blocks, body, n);
    }
  }

  lemma {:induction false} BeforeTaking(reader: Utf8Reader.Reader, body: seq<bv8>)
    requires reader.Valid() && !reader.failed && reader.Body() == body
    requires reader.blocksRead == 0 ==> reader.codepoints == []
    ensures reader.current == |reader.codepoints|
            <==> reader.blocksRead == 0 || reader.current == |BlockText(body, reader.blocksRead - 1)|
    ensures reader.blocksRead > 0 ==> |reader.codepoints| == |BlockText(body, reader.blocksRead - 1)|
    ensures reader.current <= |reader.codepoints|
  {
    if reader.blocksRead > 0 { BufferIsText(reader); }
  }

  /** Everything the block reader delivers, in the blocks its buffer held. */
  method ReadAll(source: seq<bv8>) returns (r: Option<seq<Text>>)
    ensures var body := source[Utf8Reader.BodyStart(source)..];
            && (r == if Utf8.WellFormed(body) then Some(Blocks(body)) else None)
            && (r.Some? ==> GoodBlocks(r.value) && Joined(r.value) == Decoded(body))
  {
    hide Blocks, Joined, Decoded, Utf8.WellFormed, GoodBlocks, Utf8Reader.BodyStart, HasRead, Reading,
      Utf8Reader.Deliverable, Utf8Reader.Reader.Valid, Utf8Reader.Reader.Delivered;
    var reader := new Utf8Reader.Reader(source);
    ghost var body := reader.Body();
    var blocks: seq<Text> := [];
    var more := true;
    NothingRead(reader);
    while more
      invariant fresh(reader) && if more then Reading(reader, body, blocks) else HasRead(reader.failed, body, blocks)
      invariant more ==> 0 <= reader.Delivered() <= Utf8Reader.Deliverable(body)
      decreases more, Utf8Reader.Deliverable(body) - reader.Delivered()
    {
      more, blocks := TakeNext(reader, body, blocks);
    }
    r := if reader.failed then None else Some(blocks);
    WhatWasRead(reader.failed, body, blocks);
  }

  lemma {:induction false} WhatWasRead(failed: bool, body: seq<bv8>, blocks: seq<Text>)
    requires HasRead(failed, body, blocks)
    ensures failed <==> !Utf8.WellFormed(body)
    ensures !failed ==> blocks == Blocks(body) && GoodBlocks(blocks) && Joined(blocks) == Decoded(body)
  {
    hide Blocks, Joined, Decoded, Utf8.WellFormed, GoodBlocks;
  }

  /** The bytes through the block reader, the look-back ring and the string parser. */
  method ParseBytes(source: seq<bv8>) returns (value: Option<Text>, ghost rest: Text)
    ensures match SegmentOf(source)
            case None => value == None
            case Some(p) => value == Some(p.value) && rest == p.rest
  {
    rest := [];
    var blocks := ReadAll(source);
    if blocks == None { return None, []; }
    var parser := new TomlParser.Parser(blocks.value);
    hide Utf8.WellFormed, Decoded, Joined, StringBody;
    if parser.cp.None? { return None, []; }
    var first := parser.cp.value;
    if IsBareKeyCharacter(first) {
      var key := parser.ParseBareKeySegment();
      value, rest := Some(key), parser.Rest();
    } else if first == QUOTE || first == APOSTROPHE {
      var ok, str, _ := parser.ParseString();
      if !ok { return None, []; }
      value, rest := Some(str), parser.Rest();
    } else {
      value := None;
    }
  }
}
