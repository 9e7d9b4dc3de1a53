/** The block reader: it takes the document in blocks of 32 bytes, decodes each block by the
    automaton or, when it is plain ASCII, byte by byte, carries an unfinished character over
    to the next block, and numbers lines and columns block by block. */
module Utf8Reader {
  import opened Wrappers
  import opened Sequences
  import opened Utf8

  const BLOCK_CAPACITY := 32
  const LINE_FEED: bv32 := 10

  datatype Position = Position(line: nat, column: nat) {
    function Past(value: bv32): Position {
      if value == LINE_FEED then Position(line + 1, 1) else Position(line, column + 1)
    }
  }

  const START := Position(1, 1)

  datatype Character = Character(value: bv32, bytes: seq<bv8>)
  datatype CodePoint = CodePoint(character: Character, position: Position)

  // ---------- One decode of the whole input ----------

  /** The characters at the front of `bs`, up to the first byte that starts none. */
  function Chars(bs: seq<bv8>): seq<Character>
    decreases |bs|
  {
    var n := CharLength(bs);
    if n == 0 then [] else [Character(CharValue(bs), bs[..n])] + Chars(bs[n..])
  }

  function Place(cs: seq<Character>, from: Position): (r: seq<CodePoint>)
    ensures |r| == |cs|
  {
    if cs == [] then [] else [CodePoint(cs[0], from)] + Place(cs[1..], from.Past(cs[0].value))
  }

  function PlaceAfter(cs: seq<Character>, from: Position): Position {
    if cs == [] then from else PlaceAfter(cs[1..], from.Past(cs[0].value))
  }

  lemma {:induction false} PlaceConcat(a: seq<Character>, b: seq<Character>, from: Position)
    ensures Place(a + b, from) == Place(a, from) + Place(b, PlaceAfter(a, from))
    ensures PlaceAfter(a + b, from) == PlaceAfter(b, PlaceAfter(a, from))
  {
    if a == [] {
      assert a + b == b;
    } else {
      assert (a + b)[1..] == a[1..] + b;
      PlaceConcat(a[1..], b, from.Past(a[0].value));
    }
  }

  function Bytes(cs: seq<Character>): seq<bv8> {
    if cs == [] then [] else cs[0].bytes + Bytes(cs[1..])
  }

  /** The characters of a well-formed document hold every byte of it, in order. */
  lemma {:induction false} CharsCoverWellFormed(bs: seq<bv8>)
    ensures Bytes(Chars(bs)) == bs <==> WellFormed(bs)
    ensures |Bytes(Chars(bs))| <= |bs|
    decreases |bs|
  {
    hide CharLength, CharValue;
    var n := CharLength(bs);
    if n > 0 {
      CharsCoverWellFormed(bs[n..]);
      assert Chars(bs)[0].bytes == bs[..n] && Chars(bs)[1..] == Chars(bs[n..]);
      FrontAndRest(bs, n, Bytes(Chars(bs[n..])));
    }
  }

  lemma {:induction false} FrontAndRest(bs: seq<bv8>, n: nat, rest: seq<bv8>)
    requires n <= |bs|
    ensures bs[..n] + rest == bs <==> rest == bs[n..]
    ensures |bs[..n] + rest| == n + |rest|
  {
    assert (bs[..n] + rest)[n..] == rest && bs == bs[..n] + bs[n..];
  }

  function EncodeAll(cs: seq<bv32>): seq<bv8> {
    if cs == [] then [] else Encode(cs[0]) + EncodeAll(cs[1..])
  }

  function Values(cs: seq<Character>): seq<bv32> {
    if cs == [] then [] else [cs[0].value] + Values(cs[1..])
  }

  /** Any text survives being encoded and decoded. */
  lemma {:induction false} DecodeEncodeAll(cs: seq<bv32>)
    requires forall k :: 0 <= k < |cs| ==> IsScalarValue(cs[k])
    ensures WellFormed(EncodeAll(cs)) && Values(Chars(EncodeAll(cs))) == cs
  {
    if cs != [] {
      hide Encode;
      var e, rest := Encode(cs[0]), EncodeAll(cs[1..]);
      EncodeIsOneChar(cs[0]);
      PrefixDecides(e, rest);
      DecodeEncodeAll(cs[1..]);
      assert (e + rest)[|e|..] == rest;
    }
  }

  lemma {:induction false} PrefixDecides(e: seq<bv8>, rest: seq<bv8>)
    requires CharLength(e) == |e| > 0
    ensures CharLength(e + rest) == |e| && CharValue(e + rest) == CharValue(e)
  {
    var s := e + rest;
    assert s[0] == e[0] && (|e| > 1 ==> s[1] == e[1]) && (|e| > 2 ==> s[2] == e[2]) && (|e| > 3 ==> s[3] == e[3]);
  }

  // ---------- Feeding byte by byte ----------

  /** Bytes the decoder has taken since the last complete character. */
  predicate Unfinished(p: seq<bv8>) {
    forall k :: 0 < k <= |p| ==> Feed(INITIAL, p[..k]).NeedsMoreInput()
  }

  lemma {:induction false} UnfinishedIsShort(p: seq<bv8>)
    requires Unfinished(p)
    ensures |p| < 4 && CharLength(p) == 0
  {
    if CharLength(p) > 0 {
      CharIsDecoded(INITIAL, p);
      assert false;
    } else if |p| >= 4 {
      NoCharNoCodePoint(INITIAL, p);
    }
  }

  /** One more byte completes the character, makes it invalid, or leaves it unfinished; and
      which of the three depends on the input from that character on, not on the block. */
  lemma {:induction false} OneMoreByte(p: seq<bv8>, b: bv8, rest: seq<bv8>)
    requires Unfinished(p)
    ensures var d := Feed(INITIAL, p + [b]);
            && (d.HasCodePoint() ==> Chars(p + [b] + rest) == [Character(d.codepoint, p + [b])] + Chars(rest))
            && (d.HasCodePoint() ==> (WellFormed(p + [b] + rest) <==> WellFormed(rest)))
            && (d.HasError() ==> !WellFormed(p + [b] + rest))
            && (d.NeedsMoreInput() ==> Unfinished(p + [b]))
  {
    hide Feed, Row, ByteKind, Append6, LeadBits, CharLength, CharValue;
    var s, d := p + [b] + rest, Feed(INITIAL, p + [b]);
    var n := CharLength(s);
    assert s[..|p| + 1] == p + [b];
    assert forall k :: 0 < k <= |p| ==> (p + [b])[..k] == p[..k] && s[..k] == p[..k];
    assert (p + [b])[..|p| + 1] == p + [b];
    if n == 0 {
      NoCharNoCodePoint(INITIAL, s);
    } else {
      CharIsDecoded(INITIAL, s);
      if n <= |p| { assert false; }
      if d.HasCodePoint() {
        assert n == |p| + 1;
        assert s[n..] == rest;
      }
    }
  }

  // ---------- The ASCII test ----------

  const CHARS_PER_VECTOR := 16

  predicate AllAscii(bs: seq<bv8>) {
    forall k :: 0 <= k < |bs| ==> bs[k] <= 0x7F
  }

  lemma {:induction false} OrKeepsHighBit(a: bv8, b: bv8)
    ensures (a | b) <= 0x7F <==> a <= 0x7F && b <= 0x7F
  {
  }

  lemma {:induction false} AllAsciiConcat(a: seq<bv8>, b: seq<bv8>)
    ensures AllAscii(a + b) <==> AllAscii(a) && AllAscii(b)
  {
    if AllAscii(a + b) {
      assert forall k :: 0 <= k < |a| ==> a[k] == (a + b)[k];
      assert forall k :: 0 <= k < |b| ==> b[k] == (a + b)[|a| + k];
    }
  }

  /** Ors 16-byte vectors lane by lane and looks at the high bits once; the odd bytes at the
      end are tested one by one. */
  method IsAscii(str: seq<bv8>) returns (r: bool)
    ensures r == AllAscii(str)
  {
    var simdable := |str| - |str| % CHARS_PER_VECTOR;
    var at := 0;
    if simdable > 0 {
      var mask := new bv8[CHARS_PER_VECTOR](_ => 0);
      while at < simdable
        invariant 0 <= at <= simdable && at % CHARS_PER_VECTOR == 0
        invariant AllAscii(str[..at]) <==> AllAscii(mask[..])
      {
        var current := str[at..at + CHARS_PER_VECTOR];
        AllAsciiConcat(str[..at], current);
        assert str[..at + CHARS_PER_VECTOR] == str[..at] + current;
        OrVector(mask, current);
        at := at + CHARS_PER_VECTOR;
      }
      AllAsciiConcat(str[..at], str[at..]);
      assert str == str[..at] + str[at..];
      var hasError := exists lane :: 0 <= lane < CHARS_PER_VECTOR && mask[lane] > 0x7F;
      if hasError { return false; }
    }
    while at < |str|
      invariant 0 <= at <= |str| && AllAscii(str[..at])
    {
      if str[at] > 0x7F { return false; }
      at := at + 1;
    }
    r := true;
  }

  method OrVector(mask: array<bv8>, current: seq<bv8>)
    requires mask.Length == |current|
    modifies mask
    ensures AllAscii(mask[..]) <==> old(AllAscii(mask[..])) && AllAscii(current)
  {
    for lane := 0 to mask.Length
      invariant forall j :: lane <= j < mask.Length ==> mask[j] == old(mask[j])
      invariant forall j :: 0 <= j < lane ==> (mask[j] <= 0x7F <==> old(mask[j]) <= 0x7F && current[j] <= 0x7F)
    {
      OrKeepsHighBit(mask[lane], current[lane]);
      mask[lane] := mask[lane] | current[lane];
    }
    if AllAscii(mask[..]) {
      assert forall j :: 0 <= j < mask.Length ==> mask[..][j] == mask[j];
    }
  }

  function AsciiChar(b: bv8): Character { Character(b as bv32, [b]) }

  function AsciiChars(bs: seq<bv8>): (r: seq<Character>)
    ensures |r| == |bs| && forall k :: 0 <= k < |bs| ==> r[k] == AsciiChar(bs[k])
  {
    if bs == [] then [] else [AsciiChar(bs[0])] + AsciiChars(bs[1..])
  }

  lemma {:induction false} AsciiCharsAreChars(bs: seq<bv8>, rest: seq<bv8>)
    requires AllAscii(bs)
    ensures Chars(bs + rest) == AsciiChars(bs) + Chars(rest)
  {
    if bs == [] {
      assert bs + rest == rest;
    } else {
      assert (bs + rest)[1..] == bs[1..] + rest;
      assert (bs + rest)[..1] == [bs[0]];
      AsciiCharsAreChars(bs[1..], rest);
    }
  }

  // ---------- The reader ----------

  const BYTE_ORDER_MARK: seq<bv8> := [0xEF, 0xBB, 0xBF]

  function BodyStart(source: seq<bv8>): (n: nat)
    ensures n <= |source|
  {
    if BYTE_ORDER_MARK <= source then 3 else 0
  }

  // ---------- The input, block by block ----------

  /** Where the first `k` blocks end. */
  function BlockEnd(bs: seq<bv8>, k: nat): (n: nat)
    ensures n <= |bs| && n <= k * BLOCK_CAPACITY && (n < |bs| ==> n == k * BLOCK_CAPACITY)
  {
    if k * BLOCK_CAPACITY < |bs| then k * BLOCK_CAPACITY else |bs|
  }

  /** The first `k` blocks. */
  function Front(bs: seq<bv8>, k: nat): seq<bv8> {
    bs[..BlockEnd(bs, k)]
  }

  /** The k-th block, and what comes after the first `k`. */
  function Raw(bs: seq<bv8>, k: nat): seq<bv8> {
    bs[BlockEnd(bs, k)..BlockEnd(bs, k + 1)]
  }

  function Rest(bs: seq<bv8>, k: nat): seq<bv8> {
    bs[BlockEnd(bs, k)..]
  }

  lemma {:induction false} OneBlock(bs: seq<bv8>, k: nat)
    ensures Front(bs, k + 1) == Front(bs, k) + Raw(bs, k) && Rest(bs, k) == Raw(bs, k) + Rest(bs, k + 1)
    ensures bs == Front(bs, k) + Rest(bs, k)
  {
  }

  /** The k-th block spoils the text: a byte in it fits nowhere, or the text ends in it, inside a character. */
  predicate Spoils(bs: seq<bv8>, k: nat) {
    var d := Feed(INITIAL, Front(bs, k + 1));
    d.HasError() || (BlockEnd(bs, k + 1) == |bs| && d.NeedsMoreInput())
  }

  /** The number of blocks before the first one, from the k-th on, that spoils the text. */
  function SoundBlocks(bs: seq<bv8>, k: nat): (n: nat)
    ensures k <= n
    ensures BlockEnd(bs, n) < |bs| ==> Spoils(bs, n)
    decreases |bs| - BlockEnd(bs, k)
  {
    if BlockEnd(bs, k) == |bs| || Spoils(bs, k) then k else SoundBlocks(bs, k + 1)
  }

  /** How many characters a reader hands out: those that end in the blocks before the one that spoils the text. */
  function Deliverable(bs: seq<bv8>): nat {
    |Chars(Front(bs, SoundBlocks(bs, 0)))|
  }

  /** The characters of a front of the text are the first characters of the text. */
  lemma {:induction false} CharsOfFront(bs: seq<bv8>, n: nat)
    requires n <= |bs|
    ensures Chars(bs[..n]) <= Chars(bs)
    decreases n
  {
    hide CharLength, CharValue;
    var m := CharLength(bs[..n]);
    if m > 0 {
      FirstOfFront(bs, n);
      assert bs[..n][m..] == bs[m..][..n - m] && bs[..n][..m] == bs[..m];
      CharsOfFront(bs[m..], n - m);
      OneInFront(Character(CharValue(bs), bs[..m]), Chars(bs[m..][..n - m]), Chars(bs[m..]));
    }
  }

  lemma {:induction false} OneInFront<T>(x: T, a: seq<T>, b: seq<T>)
    requires a <= b
    ensures [x] + a <= [x] + b
  {
  }

  lemma {:induction false} FirstOfFront(bs: seq<bv8>, n: nat)
    requires n <= |bs| && CharLength(bs[..n]) > 0
    ensures CharLength(bs) == CharLength(bs[..n]) && CharValue(bs) == CharValue(bs[..n])
  {
    hide CharLength, CharValue;
    var m := CharLength(bs[..n]);
    FrontIsOneChar(bs[..n]);
    assert bs[..n][..m] == bs[..m] && bs[..m] + bs[m..] == bs;
    PrefixDecides(bs[..m], bs[m..]);
  }

  lemma {:induction false} FrontIsOneChar(bs: seq<bv8>)
    requires CharLength(bs) > 0
    ensures CharLength(bs[..CharLength(bs)]) == CharLength(bs) && CharValue(bs[..CharLength(bs)]) == CharValue(bs)
  {
    hide LeadBits, Append6;
  }

  /** Whole characters and the beginning of one: these characters, and no more. */
  lemma {:induction false} CharsBefore(cs: seq<Character>, p: seq<bv8>, rest: seq<bv8>)
    requires Chars(Bytes(cs) + p + rest) == cs + Chars(p + rest) && Unfinished(p)
    ensures Chars(Bytes(cs) + p) == cs
    decreases |cs|
  {
    hide *;
    if cs == [] {
      NothingBefore(p);
    } else {
      var front, more := cs[0].bytes, Bytes(cs[1..]);
      var all := Bytes(cs) + p + rest;
      BytesFirst(cs);
      Regroup(front, more, p);
      Regroup(front, more + p, rest);
      FirstOfChars(all, cs, Chars(p + rest));
      assert all[|front|..] == more + p + rest;
      CharsBefore(cs[1..], p, rest);
      OneBefore(cs[0], more + p);
      assert [cs[0]] + cs[1..] == cs;
    }
  }

  lemma {:induction false} NothingBefore(p: seq<bv8>)
    requires Unfinished(p)
    ensures Chars(Bytes([]) + p) == []
  {
    UnfinishedIsShort(p);
    assert Bytes([]) + p == p;
  }

  lemma {:induction false} BytesFirst(cs: seq<Character>)
    requires cs != []
    ensures Bytes(cs) == cs[0].bytes + Bytes(cs[1..])
  {
  }

  lemma {:induction false} FirstOfChars(all: seq<bv8>, cs: seq<Character>, more: seq<Character>)
    requires cs != [] && Chars(all) == cs + more
    ensures var n := CharLength(all);
            && n > 0 && cs[0].bytes == all[..n] && |cs[0].bytes| == n && Chars(all[n..]) == cs[1..] + more
            && CharLength(cs[0].bytes) == n && cs[0].value == CharValue(cs[0].bytes)
  {
    hide CharLength, CharValue;
    assert Chars(all)[0] == cs[0] && Chars(all)[1..] == cs[1..] + more;
    FrontIsOneChar(all);
  }

  lemma {:induction false} OneBefore(c: Character, rest: seq<bv8>)
    requires CharLength(c.bytes) == |c.bytes| > 0 && c.value == CharValue(c.bytes)
    ensures Chars(c.bytes + rest) == [c] + Chars(rest)
  {
    hide CharLength, CharValue;
    PrefixDecides(c.bytes, rest);
    var s, n := c.bytes + rest, |c.bytes|;
    assert s[n..] == rest && s[..n] == c.bytes;
  }

  /** A text that no block spoils is handed out whole. */
  lemma {:induction false} WellFormedIsDelivered(bs: seq<bv8>)
    requires WellFormed(bs)
    ensures Deliverable(bs) == |Chars(bs)|
  {
    var k := SoundBlocks(bs, 0);
    WellFormedIsSound(bs, k);
    assert Front(bs, k) == bs;
  }

  lemma {:induction false} WellFormedIsSound(bs: seq<bv8>, k: nat)
    requires WellFormed(bs)
    ensures !Spoils(bs, k)
  {
    var n := BlockEnd(bs, k + 1);
    AcceptsExactlyWellFormed(INITIAL, bs);
    assert bs == bs[..n] + bs[n..] && bs[..|bs|] == bs;
    FeedConcat(INITIAL, bs[..n], bs[n..]);
  }

  /** As long as no block spoils the text, what has been read is handed out. */
  lemma {:induction false} ReadIsDeliverable(bs: seq<bv8>, k: nat)
    requires SoundBlocks(bs, 0) == SoundBlocks(bs, k)
    ensures |Chars(Front(bs, k))| <= Deliverable(bs) <= |Chars(bs)|
    ensures BlockEnd(bs, k) == |bs| || Spoils(bs, k) ==> Deliverable(bs) == |Chars(Front(bs, k))|
  {
    var n := SoundBlocks(bs, 0);
    CharsOfFront(bs, BlockEnd(bs, n));
    assert Front(bs, n)[..BlockEnd(bs, k)] == Front(bs, k);
    CharsOfFront(Front(bs, n), BlockEnd(bs, k));
  }

  /** One block more: its characters come after those of the blocks before it. */
  lemma {:induction false} FrontGrows(bs: seq<bv8>, k: nat)
    ensures Chars(Front(bs, k)) <= Chars(Front(bs, k + 1))
  {
    assert Front(bs, k + 1)[..BlockEnd(bs, k)] == Front(bs, k);
    CharsOfFront(Front(bs, k + 1), BlockEnd(bs, k));
  }

  lemma {:induction false} LastBlock(body: seq<bv8>, k: nat, codepoints: seq<CodePoint>)
    requires k > 0 && |codepoints| == |BlockChars(body, k - 1)| <= |Chars(Front(body, k))|
    requires codepoints == Place(Chars(Front(body, k)), START)[|Chars(Front(body, k))| - |codepoints|..]
    ensures forall i :: 0 <= i < |codepoints| ==> codepoints[i].character == BlockChars(body, k - 1)[i]
  {
    var cs := Chars(Front(body, k));
    var n := |cs| - |codepoints|;
    FrontGrows(body, k - 1);
    assert BlockChars(body, k - 1) == cs[n..];
    hide Chars, Place, Front, BlockChars;
    forall i | 0 <= i < |codepoints| ensures codepoints[i].character == BlockChars(body, k - 1)[i] {
      PlacedCharacter(cs, START, n + i);
    }
  }

  lemma {:induction false} PlacedCharacter(cs: seq<Character>, from: Position, k: nat)
    requires k < |cs|
    ensures Place(cs, from)[k].character == cs[k]
  {
    if k > 0 { PlacedCharacter(cs[1..], from.Past(cs[0].value), k - 1); }
  }

  /** The characters that end in the k-th block. */
  function BlockChars(bs: seq<bv8>, k: nat): seq<Character> {
    FrontGrows(bs, k);
    Chars(Front(bs, k + 1))[|Chars(Front(bs, k))|..]
  }

  /** The decoder has taken these bytes since the last complete character. */
  ghost predicate Matching(decoder: Decoder, pending: seq<bv8>) {
    && Unfinished(pending)
    && (if pending == [] then decoder.HasCodePoint() else decoder == Feed(INITIAL, pending))
  }

  /** What a reader knows between two blocks: the characters read are those of the blocks read, and the bytes after
      them are being decoded. */
  ghost predicate InStep(body: seq<bv8>, k: nat, characters: seq<Character>, decoder: Decoder, pending: seq<bv8>,
                         nextPos: Position)
  {
    && Matching(decoder, pending)
    && (Rest(body, k) == [] ==> pending == [])
    && Bytes(characters) + pending == Front(body, k)
    && Chars(body) == characters + Chars(pending + Rest(body, k))
    && (WellFormed(body) <==> WellFormed(pending + Rest(body, k)))
    && decoder.state == Feed(INITIAL, Front(body, k)).state
    && nextPos == PlaceAfter(characters, START)
  }

  /** The same, with the block whose code points are being handed out; or the block that spoils the text has come. */
  ghost predicate Reads(
      body: seq<bv8>, failed: bool, k: nat, characters: seq<Character>, decoder: Decoder, pending: seq<bv8>,
      nextPos: Position, codepoints: seq<CodePoint>, current: nat)
  {
    && characters == Chars(Front(body, k)) && SoundBlocks(body, 0) == SoundBlocks(body, k)
    && (if failed then !WellFormed(body) && Spoils(body, k)
        else
          && InStep(body, k, characters, decoder, pending, nextPos)
          && current <= |codepoints| <= BLOCK_CAPACITY && |codepoints| <= |characters|
          && |codepoints| == (if k == 0 then 0 else |BlockChars(body, k - 1)|)
          && codepoints == Place(characters, START)[|characters| - |codepoints|..])
  }

  /** Decoding a block, in the middle. */
  ghost predicate Decoding(was: Decoder, p: seq<bv8>, raw: seq<bv8>, rest: seq<bv8>, i: nat,
                           decoder: Decoder, pending: seq<bv8>, chars: seq<Character>)
    requires i <= |raw|
  {
    var whole := p + raw + rest;
    && |chars| <= i && Matching(decoder, pending) && decoder == Feed(was, raw[..i])
    && Bytes(chars) + pending == p + raw[..i]
    && Chars(whole) == chars + Chars(pending + (raw[i..] + rest))
    && (WellFormed(whole) <==> WellFormed(pending + (raw[i..] + rest)))
    && (chars == [] ==> |pending| == |p| + i)
  }

  lemma {:induction false} NotInError(decoder: Decoder, pending: seq<bv8>)
    requires Matching(decoder, pending)
    ensures !decoder.HasError() && |pending| < 4
  {
    UnfinishedIsShort(pending);
    if pending != [] { assert pending[..|pending|] == pending; }
  }

  lemma {:induction false} DecodingStarts(was: Decoder, p: seq<bv8>, raw: seq<bv8>, rest: seq<bv8>)
    requires Matching(was, p)
    ensures Decoding(was, p, raw, rest, 0, was, p, [])
  {
    assert p + raw + rest == p + (raw[0..] + rest) && raw[..0] == [] && Bytes([]) + p == p + raw[..0];
    hide Chars, WellFormed;
  }

  lemma {:induction false} DecodingEnds(was: Decoder, p: seq<bv8>, raw: seq<bv8>, rest: seq<bv8>,
                                        decoder: Decoder, pending: seq<bv8>, chars: seq<Character>)
    requires Decoding(was, p, raw, rest, |raw|, decoder, pending, chars)
    ensures |chars| <= |raw| && decoder == Feed(was, raw) && !decoder.HasError() && Bytes(chars) + pending == p + raw
    ensures Matching(decoder, pending)
    ensures Chars(p + raw + rest) == chars + Chars(pending + rest)
    ensures WellFormed(p + raw + rest) <==> WellFormed(pending + rest)
    ensures chars == [] ==> |pending| == |p| + |raw|
  {
    assert raw[..|raw|] == raw && pending + (raw[|raw|..] + rest) == pending + rest;
    NotInError(decoder, pending);
    hide Chars, WellFormed, Feed, Matching, Bytes;
  }

  lemma {:induction false} FeedPending(decoder: Decoder, p: seq<bv8>, b: bv8)
    requires Matching(decoder, p)
    ensures !decoder.HasError() && decoder.Step(b) == Feed(INITIAL, p + [b])
  {
    assert (p + [b])[..|p|] == p && (p + [b])[..|p| + 1] == p + [b];
    if p != [] { assert p[..|p|] == p; }
    FeedNext(INITIAL, p + [b], |p|);
  }

  /** One byte more: an error that spoils the text, one character more, or one pending byte more. */
  lemma {:induction false} DecodingStep(was: Decoder, p: seq<bv8>, raw: seq<bv8>, rest: seq<bv8>, i: nat,
                                        decoder: Decoder, pending: seq<bv8>, chars: seq<Character>)
    requires i < |raw| && Decoding(was, p, raw, rest, i, decoder, pending, chars)
    ensures !decoder.HasError()
    ensures var d, more := decoder.Step(raw[i]), pending + [raw[i]];
            if d.HasError() then Feed(was, raw).HasError() && !WellFormed(p + raw + rest)
            else if d.HasCodePoint()
              then Decoding(was, p, raw, rest, i + 1, d, [], chars + [Character(d.codepoint, more)])
            else |more| < 4 && Decoding(was, p, raw, rest, i + 1, d, more, chars)
  {
    FeedPending(decoder, pending, raw[i]);
    hide Decoding, Decoder.HasError, Decoder.HasCodePoint, Decoder.NeedsMoreInput, Feed, WellFormed;
    if decoder.Step(raw[i]).HasError() {
      DecodingFails(was, p, raw, rest, i, decoder, pending, chars);
    } else if decoder.Step(raw[i]).HasCodePoint() {
      DecodingCompletes(was, p, raw, rest, i, decoder, pending, chars);
    } else {
      DecodingContinues(was, p, raw, rest, i, decoder, pending, chars);
    }
  }

  lemma {:induction false} OneByteOff(pending: seq<bv8>, raw: seq<bv8>, rest: seq<bv8>, i: nat)
    requires i < |raw|
    ensures pending + (raw[i..] + rest) == pending + [raw[i]] + (raw[i + 1..] + rest)
    ensures [] + (raw[i + 1..] + rest) == raw[i + 1..] + rest
  {
    assert raw[i..] == [raw[i]] + raw[i + 1..];
  }

  lemma {:induction false} DecodingFails(was: Decoder, p: seq<bv8>, raw: seq<bv8>, rest: seq<bv8>, i: nat,
                                         decoder: Decoder, pending: seq<bv8>, chars: seq<Character>)
    requires i < |raw| && Decoding(was, p, raw, rest, i, decoder, pending, chars)
    requires !decoder.HasError() && decoder.Step(raw[i]).HasError()
    ensures Feed(was, raw).HasError() && !WellFormed(p + raw + rest)
  {
    MatchingIsUnfinished(decoder, pending);
    FeedPending(decoder, pending, raw[i]);
    hide Chars, WellFormed, Feed, Unfinished, Bytes, CharLength, CharValue, Row, ByteKind, Matching;
    OneByteOff(pending, raw, rest, i);
    OneMoreByte(pending, raw[i], raw[i + 1..] + rest);
    FeedNext(was, raw, i);
    ErrorStays(was, raw, i + 1);
    assert raw[..|raw|] == raw;
  }

  lemma {:induction false} DecodingCompletes(was: Decoder, p: seq<bv8>, raw: seq<bv8>, rest: seq<bv8>, i: nat,
                                             decoder: Decoder, pending: seq<bv8>, chars: seq<Character>)
    requires i < |raw| && Decoding(was, p, raw, rest, i, decoder, pending, chars)
    requires !decoder.HasError() && decoder.Step(raw[i]).HasCodePoint()
    ensures var d := decoder.Step(raw[i]);
            Decoding(was, p, raw, rest, i + 1, d, [], chars + [Character(d.codepoint, pending + [raw[i]])])
  {
    MatchingIsUnfinished(decoder, pending);
    FeedPending(decoder, pending, raw[i]);
    var d, after := decoder.Step(raw[i]), raw[i + 1..] + rest;
    hide Chars, WellFormed, Feed, Unfinished, Bytes, CharLength, CharValue, Row, ByteKind, Matching;
    OneByteOff(pending, raw, rest, i);
    OneMoreByte(pending, raw[i], after);
    FeedNext(was, raw, i);
    BytesOneMore(chars, pending, p, raw, i, d.codepoint);
    NothingPending(d);
    Regroup(chars, [Character(d.codepoint, pending + [raw[i]])], Chars(after));
  }

  lemma {:induction false} DecodingContinues(was: Decoder, p: seq<bv8>, raw: seq<bv8>, rest: seq<bv8>, i: nat,
                                             decoder: Decoder, pending: seq<bv8>, chars: seq<Character>)
    requires i < |raw| && Decoding(was, p, raw, rest, i, decoder, pending, chars)
    requires !decoder.HasError() && !decoder.Step(raw[i]).HasError() && !decoder.Step(raw[i]).HasCodePoint()
    ensures |pending| < 3 && Decoding(was, p, raw, rest, i + 1, decoder.Step(raw[i]), pending + [raw[i]], chars)
  {
    MatchingIsUnfinished(decoder, pending);
    FeedPending(decoder, pending, raw[i]);
    var d, more, after := decoder.Step(raw[i]), pending + [raw[i]], raw[i + 1..] + rest;
    hide Chars, WellFormed, Feed, Unfinished, Bytes, CharLength, CharValue, Row, ByteKind, Matching;
    OneByteOff(pending, raw, rest, i);
    OneMoreByte(pending, raw[i], after);
    FeedNext(was, raw, i);
    BytesOneMore(chars, pending, p, raw, i, d.codepoint);
    UnfinishedIsShort(more);
    MorePending(d, more);
  }

  lemma {:induction false} MorePending(d: Decoder, pending: seq<bv8>)
    requires pending != [] && Unfinished(pending) && d == Feed(INITIAL, pending)
    ensures Matching(d, pending)
  {
  }

  lemma {:induction false} NothingPending(d: Decoder)
    requires d.HasCodePoint()
    ensures Matching(d, [])
  {
  }

  class Reader {
    const source: seq<bv8>
    var position: nat
    var nextPos: Position
    var decoder: Decoder
    /** The bytes of `currently_decoding_`, at most four. */
    var pending: seq<bv8>
    /** The decoded block. */
    var codepoints: seq<CodePoint>
    var current: nat
    var failed: bool

    /** How many blocks have been read without an error, and their characters. */
    ghost var blocksRead: nat
    ghost var characters: seq<Character>

    ghost function Body(): seq<bv8> {
      source[BodyStart(source)..]
    }

    /** One decode of the whole document. */
    ghost function All(): seq<CodePoint> {
      Place(Chars(Body()), START)
    }

    ghost predicate Valid()
      reads this
    {
      && position <= |source|
      && (!failed ==> position == BodyStart(source) + BlockEnd(Body(), blocksRead))
      && Reads(Body(), failed, blocksRead, characters, decoder, pending, nextPos, codepoints, current)
    }

    /** How many code points `ReadNext` has returned. */
    ghost function Delivered(): int
      reads this
    {
      if failed then |characters| else |characters| - |codepoints| + current
    }

    constructor (source: seq<bv8>)
      ensures Valid() && this.source == source && !failed && Delivered() == 0
      ensures blocksRead == 0 && codepoints == [] && current == 0
    {
      this.source := source;
      position, nextPos, decoder := BodyStart(source), START, INITIAL;
      pending, codepoints, current, failed, characters, blocksRead := [], [], 0, false, [], 0;
      new;
      assert [] + Rest(Body(), 0) == Body() && Front(Body(), 0) == [] && Bytes([]) + [] == [];
    }

    /** Gives every character of the block its position. */
    method CalcPositions(chars: seq<Character>)
      modifies this`codepoints, this`nextPos
      ensures codepoints == Place(chars, old(nextPos)) && nextPos == PlaceAfter(chars, old(nextPos))
    {
      codepoints := [];
      for i := 0 to |chars|
        invariant codepoints == Place(chars[..i], old(nextPos))
        invariant nextPos == PlaceAfter(chars[..i], old(nextPos))
      {
        assert chars[..i + 1] == chars[..i] + [chars[i]];
        PlaceConcat(chars[..i], [chars[i]], old(nextPos));
        codepoints := codepoints + [CodePoint(chars[i], nextPos)];
        nextPos := if chars[i].value == LINE_FEED
                   then Position(nextPos.line + 1, 1)
                   else Position(nextPos.line, nextPos.column + 1);
      }
      assert chars[..|chars|] == chars;
    }

    /** The slow path: every byte through the automaton. */
    method DecodeBlock(raw: seq<bv8>, ghost rest: seq<bv8>) returns (ok: bool, chars: seq<Character>)
      requires Matching(decoder, pending)
      modifies this`decoder, this`pending
      ensures |chars| <= |raw|
      ensures ok <==> !Feed(old(decoder), raw).HasError()
      ensures !ok ==> !WellFormed(old(pending) + raw + rest)
      ensures ok ==> Matching(decoder, pending) && decoder == Feed(old(decoder), raw)
      ensures ok ==> Bytes(chars) + pending == old(pending) + raw
      ensures ok ==> Chars(old(pending) + raw + rest) == chars + Chars(pending + rest)
      ensures ok ==> (WellFormed(old(pending) + raw + rest) <==> WellFormed(pending + rest))
      ensures ok && chars == [] ==> |pending| == |old(pending)| + |raw|
    {
      chars := [];
      DecodingStarts(decoder, pending, raw, rest);
      hide *;
      for i := 0 to |raw|
        invariant Decoding(old(decoder), old(pending), raw, rest, i, decoder, pending, chars)
      {
        DecodingStep(old(decoder), old(pending), raw, rest, i, decoder, pending, chars);
        decoder := decoder.Step(raw[i]);
        if decoder.HasError() {
          return false, chars;
        }
        pending := pending + [raw[i]];
        if decoder.HasCodePoint() {
          chars := chars + [Character(decoder.codepoint, pending)];
          pending := [];
        } else {
          // the code's "overlong" error for a fourth byte without a code point is never reached
          assert |pending| < 4;
        }
      }
      DecodingEnds(old(decoder), old(pending), raw, rest, decoder, pending, chars);
      ok := true;
    }

    /** Decodes one block by the fast or the slow path. */
    method DecodeRaw(raw: seq<bv8>, eof: bool, ghost rest: seq<bv8>) returns (ok: bool, chars: seq<Character>)
      requires Matching(decoder, pending) && raw != [] && (|raw| == BLOCK_CAPACITY || eof) && (eof <==> rest == [])
      modifies this`decoder, this`pending
      ensures |chars| <= |raw|
      ensures ok <==> !Feed(old(decoder), raw).HasError() && !(eof && Feed(old(decoder), raw).NeedsMoreInput())
      ensures !ok ==> !WellFormed(old(pending) + raw + rest)
      ensures ok ==> Matching(decoder, pending) && decoder.state == Feed(old(decoder), raw).state
      ensures ok ==> chars != [] && (rest == [] ==> pending == [])
      ensures ok ==> Bytes(chars) + pending == old(pending) + raw
      ensures ok ==> Chars(old(pending) + raw + rest) == chars + Chars(pending + rest)
      ensures ok ==> (WellFormed(old(pending) + raw + rest) <==> WellFormed(pending + rest))
    {
      hide Chars, WellFormed, Feed, CharLength, Row, ByteKind, Bytes;
      var asciiFastPath := !decoder.NeedsMoreInput();
      if asciiFastPath { asciiFastPath := IsAscii(raw); }
      NotInError(decoder, pending);
      if asciiFastPath {
        AsciiBlock(pending, raw, rest);
        decoder := decoder.(state := 0);
        pending := [];
        chars := AsciiChars(raw);
        assert [] + raw == raw && Bytes(chars) + [] == Bytes(chars);
      } else {
        UnfinishedIsShort(pending);
        ok, chars := DecodeBlock(raw, rest);
        if !ok { return; }
        UnfinishedIsShort(pending);
        assert pending[..|pending|] == pending;
        if decoder.NeedsMoreInput() && eof {
          assert pending + rest == pending;
          PendingIsUnfinished();
          UnfinishedIsNotWellFormed(pending);
          return false, chars;
        }
      }
      ok := true;
    }

    lemma {:induction false} PendingIsUnfinished()
      requires Matching(decoder, pending) && decoder.NeedsMoreInput()
      ensures pending != []
    {
    }

    /** The next bytes of the stream. */
    method ReadRaw(ghost k: nat) returns (raw: seq<bv8>, eof: bool)
      requires position < |source| && position == BodyStart(source) + BlockEnd(Body(), k)
      modifies this`position
      ensures |raw| == |Raw(Body(), k)|
      ensures raw == Raw(Body(), k) && raw != [] && (|raw| == BLOCK_CAPACITY || eof)
      ensures eof <==> Rest(Body(), k + 1) == []
      ensures position <= |source| && position == BodyStart(source) + BlockEnd(Body(), k + 1)
      ensures BlockEnd(Body(), k) != |Body()|
    {
      SourceBlock(source, position, k);
      var blockEnd := if position + BLOCK_CAPACITY < |source| then position + BLOCK_CAPACITY else |source|;
      raw := source[position..blockEnd];
      position := blockEnd;
      eof := position == |source|;
    }

    /** `read_next_block`: a block is read, or it spoils the text. */
    method ReadNextBlock() returns (ok: bool)
      requires Valid() && !failed && position < |source| && current == |codepoints|
      modifies this
      ensures Valid() && (failed <==> !ok) && Delivered() == old(Delivered())
      ensures ok ==> current == 0 < |codepoints| && blocksRead == old(blocksRead) + 1
      ensures ok ==> codepoints == Place(BlockChars(Body(), old(blocksRead)), old(nextPos))
      ensures !ok ==> blocksRead == old(blocksRead) && Deliverable(Body()) == Delivered()
    {
      hide *;
      ghost var body, k, was, p, at, before := Body(), blocksRead, decoder, pending, nextPos, codepoints;
      BeforeBlock();
      BlockStarts(body, k, characters, was, p, at, before);
      var raw, eof := ReadRaw(k);
      codepoints, current := [], 0;
      var chars: seq<Character>;
      ok, chars := DecodeRaw(raw, eof, Rest(body, k + 1));
      CalcPositions(chars);
      if !ok {
        failed := true;
        BlockFails(body, k, characters, was, decoder, p, pending, at, nextPos, before, codepoints, current);
      } else {
        BlockIsRead(body, k, characters, chars, was, decoder, p, pending, at, nextPos, before);
        characters, blocksRead := characters + chars, k + 1;
      }
      AfterBlock();
    }

    lemma {:induction false} BeforeBlock()
      requires Valid() && !failed && position < |source| && current == |codepoints|
      ensures position == BodyStart(source) + BlockEnd(Body(), blocksRead) && Delivered() == |characters|
      ensures Reads(Body(), false, blocksRead, characters, decoder, pending, nextPos, codepoints, |codepoints|)
    {
    }

    lemma {:induction false} AfterBlock()
      requires position <= |source| && (!failed ==> position == BodyStart(source) + BlockEnd(Body(), blocksRead))
      requires Reads(Body(), failed, blocksRead, characters, decoder, pending, nextPos, codepoints, current)
      ensures Valid() && Delivered() == if failed then |characters| else |characters| - |codepoints| + current
    {
    }

    lemma {:induction false} AsciiBlock(p: seq<bv8>, raw: seq<bv8>, rest: seq<bv8>)
      requires p == pending && Matching(decoder, pending) && !decoder.NeedsMoreInput() && AllAscii(raw)
      ensures p == [] && Bytes(AsciiChars(raw)) == raw && Feed(decoder, raw).HasCodePoint()
      ensures Chars(p + raw + rest) == AsciiChars(raw) + Chars([] + rest)
      ensures WellFormed(p + raw + rest) <==> WellFormed([] + rest)
    {
      assert p[..|p|] == p;
      assert p + raw + rest == raw + rest && [] + rest == rest;
      AsciiCharsAreChars(raw, rest);
      AsciiIsWellFormed(raw, rest);
      AsciiIsWellFormed(raw, []);
      assert raw + [] == raw;
      AcceptsExactlyWellFormed(decoder, raw);
      AsciiBytes(raw);
    }

    /** `read_next`: the next code point. What is handed out are the code points of the blocks before the first one
        that spoils the text, with their positions; after them comes the end of the document, or an error. */
    method ReadNext() returns (r: Option<CodePoint>)
      requires Valid()
      modifies this
      ensures Valid() && Delivered() <= Deliverable(Body()) <= |All()|
      ensures r == if old(Delivered()) < Deliverable(Body()) then Some(All()[old(Delivered())]) else None
      ensures Delivered() == old(Delivered()) + (if r.Some? then 1 else 0)
      // it lies in the buffer, which the next block overwrites
      ensures r.Some? ==> !failed && 0 < current <= |codepoints| && r == Some(codepoints[current - 1])
      ensures blocksRead == old(blocksRead) + (if r.Some? && old(current) == old(|codepoints|) then 1 else 0)
      ensures r.Some? ==> current == if old(current) == old(|codepoints|) then 1 else old(current) + 1
      ensures r.None? ==> (failed <==> !WellFormed(Body()))
      ensures r.None? ==> old(failed) || old(current) == old(|codepoints|)
      ensures r.None? && !failed ==> current == |codepoints| && blocksRead == SoundBlocks(Body(), 0)
      ensures WellFormed(Body()) ==> !failed && Deliverable(Body()) == |All()|
    {
      hide Feed, Row, ByteKind, CharLength, CharValue, PlaceAfter, Unfinished, Spoils, SoundBlocks, Front, Place, Chars,
        Bytes;
      Bounded();
      if failed { return None; }
      if current == |codepoints| {
        if position == |source| {
          AllRead();
          return None;
        }
        var ok := ReadNextBlock();
        Bounded();
        if !ok { return None; }
      }
      CurrentIsNext();
      r := Some(codepoints[current]);
      current := current + 1;
    }

    lemma {:induction false} Bounded()
      requires Valid()
      ensures Delivered() <= |characters| <= Deliverable(Body()) <= |All()|
      ensures failed ==> Deliverable(Body()) == Delivered()
      ensures WellFormed(Body()) ==> Deliverable(Body()) == |All()|
    {
      ReadIsDeliverable(Body(), blocksRead);
      if WellFormed(Body()) { WellFormedIsDelivered(Body()); }
    }

    lemma {:induction false} AllRead()
      requires Valid() && !failed && position == |source| && current == |codepoints|
      ensures WellFormed(Body()) && Deliverable(Body()) == Delivered() && blocksRead == SoundBlocks(Body(), 0)
    {
      assert Rest(Body(), blocksRead) == [] && pending + Rest(Body(), blocksRead) == [];
      ReadIsDeliverable(Body(), blocksRead);
      hide SoundBlocks, Feed, Chars;
    }

    /** The buffer holds the characters of the block read last. */
    lemma {:induction false} BufferIsBlock()
      requires Valid() && !failed && blocksRead > 0
      ensures |codepoints| == |BlockChars(Body(), blocksRead - 1)| <= BLOCK_CAPACITY
      ensures forall i :: 0 <= i < |codepoints| ==> codepoints[i].character == BlockChars(Body(), blocksRead - 1)[i]
    {
      hide Chars, Feed, SoundBlocks, Place, Front, InStep, BlockChars;
      LastBlock(Body(), blocksRead, codepoints);
    }

    lemma {:induction false} CurrentIsNext()
      requires Valid() && !failed && current < |codepoints|
      ensures 0 <= Delivered() < |All()| && codepoints[current] == All()[Delivered()]
    {
      PlaceConcat(characters, Chars(pending + Rest(Body(), blocksRead)), START);
      hide Chars, Feed, SoundBlocks, Place;
    }
  }

  lemma {:induction false} SliceOfTail<T>(s: seq<T>, from: nat, a: nat, b: nat)
    requires a <= b && from + b <= |s|
    ensures s[from..][a..b] == s[from + a..from + b]
  {
    var t := s[from..];
    assert forall k :: 0 <= k < |t| ==> t[k] == s[from + k];
    assert |t[a..b]| == |s[from + a..from + b]|;
    forall k | 0 <= k < b - a ensures t[a..b][k] == s[from + a..from + b][k] {
      assert t[a..b][k] == t[a + k];
    }
  }

  /** The bytes the stream hands over are the next block. */
  lemma {:induction false} SourceBlock(source: seq<bv8>, position: nat, k: nat)
    requires position < |source| && position == BodyStart(source) + BlockEnd(source[BodyStart(source)..], k)
    ensures var body := source[BodyStart(source)..];
            var end := if position + BLOCK_CAPACITY < |source| then position + BLOCK_CAPACITY else |source|;
            && source[position..end] == Raw(body, k) && end == BodyStart(source) + BlockEnd(body, k + 1)
            && (end == |source| <==> Rest(body, k + 1) == []) && |Raw(body, k)| == end - position
            && BlockEnd(body, k) != |body|
  {
    var from := BodyStart(source);
    var body := source[from..];
    var end := if position + BLOCK_CAPACITY < |source| then position + BLOCK_CAPACITY else |source|;
    SliceOfTail(source, from, position - from, end - from);
    assert k * BLOCK_CAPACITY + BLOCK_CAPACITY == (k + 1) * BLOCK_CAPACITY;
    hide BodyStart;
  }

  lemma {:induction false} BlockStarts(
      body: seq<bv8>, k: nat, characters: seq<Character>, decoder: Decoder, pending: seq<bv8>, nextPos: Position,
      codepoints: seq<CodePoint>)
    requires Reads(body, false, k, characters, decoder, pending, nextPos, codepoints, |codepoints|)
    ensures Matching(decoder, pending)
    ensures WellFormed(body) <==> WellFormed(pending + Raw(body, k) + Rest(body, k + 1))
  {
    OneBlock(body, k);
    Regroup(pending, Raw(body, k), Rest(body, k + 1));
    hide Feed, Chars, WellFormed, Bytes, Front, Matching;
  }

  lemma {:induction false} BlockFails(
      body: seq<bv8>, k: nat, characters: seq<Character>, was: Decoder, decoder: Decoder, p: seq<bv8>,
      pending: seq<bv8>, at: Position, now: Position, before: seq<CodePoint>, codepoints: seq<CodePoint>, current: nat)
    requires Reads(body, false, k, characters, was, p, at, before, |before|) && !WellFormed(body)
    requires var d := Feed(was, Raw(body, k)); d.HasError() || (Rest(body, k + 1) == [] && d.NeedsMoreInput())
    ensures Reads(body, true, k, characters, decoder, pending, now, codepoints, current)
    ensures Deliverable(body) == |characters|
  {
    SpoilsWhen(body, k, was);
    ReadIsDeliverable(body, k);
    hide Feed, Chars, WellFormed, Bytes, Front, Matching, Spoils, SoundBlocks;
  }

  lemma {:induction false} SpoilsWhen(body: seq<bv8>, k: nat, was: Decoder)
    requires was.state == Feed(INITIAL, Front(body, k)).state
    ensures Spoils(body, k)
            <==> Feed(was, Raw(body, k)).HasError()
                 || (Rest(body, k + 1) == [] && Feed(was, Raw(body, k)).NeedsMoreInput())
  {
    StateAfter(was, body, k);
    hide Feed;
  }

  /** A block that has been read without an error. */
  lemma {:induction false} BlockIsRead(
      body: seq<bv8>, k: nat, characters: seq<Character>, chars: seq<Character>, was: Decoder, decoder: Decoder,
      p: seq<bv8>, pending: seq<bv8>, at: Position, now: Position, before: seq<CodePoint>)
    requires Reads(body, false, k, characters, was, p, at, before, |before|) && BlockEnd(body, k) != |body|
    requires var d := Feed(was, Raw(body, k)); !d.HasError() && !(Rest(body, k + 1) == [] && d.NeedsMoreInput())
    requires Matching(decoder, pending) && decoder.state == Feed(was, Raw(body, k)).state
    requires Rest(body, k + 1) == [] ==> pending == []
    requires Bytes(chars) + pending == p + Raw(body, k) && |chars| <= |Raw(body, k)|
    requires Chars(p + Raw(body, k) + Rest(body, k + 1)) == chars + Chars(pending + Rest(body, k + 1))
    requires WellFormed(p + Raw(body, k) + Rest(body, k + 1)) <==> WellFormed(pending + Rest(body, k + 1))
    requires now == PlaceAfter(chars, at)
    ensures Reads(body, false, k + 1, characters + chars, decoder, pending, now, Place(chars, at), 0)
    ensures BlockChars(body, k) == chars
  {
    hide Feed, Chars, WellFormed, Bytes, Front, Rest, Raw, Matching, Place, PlaceAfter, SoundBlocks, BlockChars,
      BlockEnd, Spoils;
    SpoilsWhen(body, k, was);
    OneBlock(body, k);
    OneBlock(body, k + 1);
    RawFits(body, k);
    NotSpoiled(body, k);
    StateAfter(was, body, k);
    Regroup(p, Raw(body, k), Rest(body, k + 1));
    PlaceConcat(characters, chars, START);
    MatchingIsUnfinished(decoder, pending);
    ReadingGoesOn(characters, chars, p, pending, Raw(body, k), Rest(body, k + 1), body, k);
  }

  lemma {:induction false} RawFits(body: seq<bv8>, k: nat)
    ensures |Raw(body, k)| <= BLOCK_CAPACITY
  {
  }

  lemma {:induction false} MatchingIsUnfinished(decoder: Decoder, pending: seq<bv8>)
    requires Matching(decoder, pending)
    ensures Unfinished(pending)
  {
  }

  lemma {:induction false} StateAfter(was: Decoder, body: seq<bv8>, k: nat)
    requires was.state == Feed(INITIAL, Front(body, k)).state
    ensures Feed(was, Raw(body, k)).state == Feed(INITIAL, Front(body, k + 1)).state
  {
    OneBlock(body, k);
    FeedConcat(INITIAL, Front(body, k), Raw(body, k));
    SameStateFeeds(was, Feed(INITIAL, Front(body, k)), Raw(body, k));
  }

  lemma {:induction false} SameStateFeeds(d: Decoder, e: Decoder, bs: seq<bv8>)
    requires d.state == e.state
    ensures Feed(d, bs).state == Feed(e, bs).state
    decreases |bs|
  {
    hide Row, ByteKind;
    if bs != [] && !d.HasError() { SameStateFeeds(d.Step(bs[0]), e.Step(bs[0]), bs[1..]); }
  }

  lemma {:induction false} NotSpoiled(bs: seq<bv8>, k: nat)
    requires BlockEnd(bs, k) != |bs| && !Spoils(bs, k)
    ensures SoundBlocks(bs, k) == SoundBlocks(bs, k + 1)
  {
  }

  /** The characters of one block more. */
  lemma {:induction false} ReadingGoesOn(
      characters: seq<Character>, chars: seq<Character>, p: seq<bv8>, pending: seq<bv8>, raw: seq<bv8>, rest: seq<bv8>,
      body: seq<bv8>, k: nat)
    requires characters == Chars(Front(body, k)) && Bytes(characters) + p == Front(body, k)
    requires Front(body, k + 1) == Front(body, k) + raw && body == Front(body, k + 1) + rest
    requires Chars(body) == characters + Chars(p + raw + rest) && Chars(p + raw + rest) == chars + Chars(pending + rest)
    requires Bytes(chars) + pending == p + raw && Unfinished(pending)
    ensures Bytes(characters + chars) + pending == Front(body, k + 1)
    ensures Chars(Front(body, k + 1)) == characters + chars && BlockChars(body, k) == chars
    ensures Chars(body) == characters + chars + Chars(pending + rest)
  {
    hide *;
    var all := characters + chars;
    BytesConcat(characters, chars);
    Regroup(Bytes(characters), Bytes(chars), pending);
    Regroup(Bytes(characters), p, raw);
    Regroup(characters, chars, Chars(pending + rest));
    assert Bytes(all) + pending == Front(body, k + 1);
    CharsBefore(all, pending, rest);
    BlockIs(body, k, chars);
  }

  lemma {:induction false} BlockIs(body: seq<bv8>, k: nat, chars: seq<Character>)
    requires Chars(Front(body, k + 1)) == Chars(Front(body, k)) + chars
    ensures BlockChars(body, k) == chars
  {
    hide Chars, Front;
  }

  lemma {:induction false} BytesConcat(a: seq<Character>, b: seq<Character>)
    ensures Bytes(a + b) == Bytes(a) + Bytes(b)
  {
    if a == [] {
      assert a + b == b;
    } else {
      assert (a + b)[1..] == a[1..] + b;
      BytesConcat(a[1..], b);
      Regroup(a[0].bytes, Bytes(a[1..]), Bytes(b));
    }
  }

  /** One byte more is pending, or ends a character. */
  lemma {:induction false} BytesOneMore(
      chars: seq<Character>, pending: seq<bv8>, p: seq<bv8>, raw: seq<bv8>, i: nat, value: bv32)
    requires i < |raw| && Bytes(chars) + pending == p + raw[..i]
    ensures Bytes(chars) + (pending + [raw[i]]) == p + raw[..i + 1]
    ensures Bytes(chars + [Character(value, pending + [raw[i]])]) + [] == p + raw[..i + 1]
  {
    var c := Character(value, pending + [raw[i]]);
    assert raw[..i + 1] == raw[..i] + [raw[i]];
    Regroup(Bytes(chars), pending, [raw[i]]);
    Regroup(p, raw[..i], [raw[i]]);
    BytesConcat(chars, [c]);
    BytesFirst([c]);
    assert [c][1..] == [] && Bytes([]) == [] && c.bytes + [] == c.bytes;
  }

  lemma {:induction false} AsciiBytes(bs: seq<bv8>)
    ensures Bytes(AsciiChars(bs)) == bs
  {
    if bs != [] {
      AsciiBytes(bs[1..]);
      assert AsciiChars(bs)[1..] == AsciiChars(bs[1..]) && bs == [bs[0]] + bs[1..];
    }
  }

  lemma {:induction false} UnfinishedIsNotWellFormed(p: seq<bv8>)
    requires Unfinished(p) && p != []
    ensures !WellFormed(p)
  {
    UnfinishedIsShort(p);
  }

  lemma {:induction false} AsciiIsWellFormed(bs: seq<bv8>, rest: seq<bv8>)
    requires AllAscii(bs)
    ensures WellFormed(bs + rest) <==> WellFormed(rest)
  {
    if bs == [] {
      assert bs + rest == rest;
    } else {
      assert (bs + rest)[1..] == bs[1..] + rest;
      AsciiIsWellFormed(bs[1..], rest);
    }
  }
}
