/** UTF-8: the byte-driven decoder automaton, the encoder of the string parser, and the
    grammar of RFC 3629 they are measured against. */
module Utf8 {

  // ---------- RFC 3629, sections 3 and 4 ----------

  predicate IsTail(b: bv8) { 0x80 <= b <= 0xBF }

  /** Length of the `UTF8-char` at the front of `bs`; 0 when there is none. */
  function CharLength(bs: seq<bv8>): (n: nat)
    ensures n <= 4 && n <= |bs|
  {
    if bs == [] then 0
    else if bs[0] <= 0x7F then 1
    else if |bs| >= 2 && 0xC2 <= bs[0] <= 0xDF && IsTail(bs[1]) then 2
    else if |bs| >= 3 && IsTail(bs[2])
            && (|| (bs[0] == 0xE0 && 0xA0 <= bs[1] <= 0xBF)
                || (0xE1 <= bs[0] <= 0xEC && IsTail(bs[1]))
                || (bs[0] == 0xED && 0x80 <= bs[1] <= 0x9F)
                || (0xEE <= bs[0] <= 0xEF && IsTail(bs[1]))) then 3
    else if |bs| >= 4 && IsTail(bs[2]) && IsTail(bs[3])
            && (|| (bs[0] == 0xF0 && 0x90 <= bs[1] <= 0xBF)
                || (0xF1 <= bs[0] <= 0xF3 && IsTail(bs[1]))
                || (bs[0] == 0xF4 && 0x80 <= bs[1] <= 0x8F)) then 4
    else 0
  }

  /** The character number the first `UTF8-char` stands for: the x bits of the table in
      section 3, first byte to last. */
  function CharValue(bs: seq<bv8>): bv32
    requires CharLength(bs) > 0
  {
    var lead := LeadBits(bs[0]);
    match CharLength(bs)
    case 1 => lead
    case 2 => Append6(lead, bs[1])
    case 3 => Append6(Append6(lead, bs[1]), bs[2])
    case _ => Append6(Append6(Append6(lead, bs[1]), bs[2]), bs[3])
  }

  function LeadBits(b: bv8): bv32 {
    if b <= 0x7F then b as bv32
    else if b <= 0xDF then (b & 0x1F) as bv32
    else if b <= 0xEF then (b & 0x0F) as bv32
    else (b & 0x07) as bv32
  }

  /** Six more bits, taken from a tail byte. */
  function Append6(bits: bv32, b: bv8): bv32 {
    (bits << 6) | (b & 0x3F) as bv32
  }

  /** `UTF8-octets`: a sequence of `UTF8-char`s. */
  predicate WellFormed(bs: seq<bv8>) {
    bs == [] || (CharLength(bs) > 0 && WellFormed(bs[CharLength(bs)..]))
  }

  predicate IsScalarValue(c: bv32) {
    c <= 0x10FFFF && !(0xD800 <= c <= 0xDFFF)
  }

  // ---------- The decoder automaton ----------

  datatype Decoder = Decoder(state: nat, codepoint: bv32) {
    predicate HasError() { state == 12 }
    predicate HasCodePoint() { state == 0 }
    predicate NeedsMoreInput() { !HasCodePoint() && !HasError() }

    function Step(byte: bv8): Decoder
      requires !HasError()
    {
      var kind := ByteKind(byte);
      Decoder(
        Transition(state, kind),
        if HasCodePoint() then LeadMask(kind) & byte as bv32
        else ((byte & 63) as bv32) | (codepoint << 6))
    }
  }

  const INITIAL := Decoder(0, 0)

  /** The first 256 entries of the state table, as the ranges they form. */
  function ByteKind(byte: bv8): (k: nat)
    ensures k < 12
  {
    if byte <= 0x7F then 0
    else if byte <= 0x8F then 1
    else if byte <= 0x9F then 9
    else if byte <= 0xBF then 7
    else if byte <= 0xC1 then 8
    else if byte <= 0xDF then 2
    else if byte == 0xE0 then 10
    else if byte <= 0xEC then 3
    else if byte == 0xED then 4
    else if byte <= 0xEF then 3
    else if byte == 0xF0 then 11
    else if byte <= 0xF3 then 6
    else if byte == 0xF4 then 5
    else 8
  }

  /** `255 >> kind`. */
  function LeadMask(kind: nat): bv32
  {
    match kind
    case 0 => 255
    case 1 => 255 >> 1
    case 2 => 255 >> 2
    case 3 => 255 >> 3
    case 4 => 255 >> 4
    case 5 => 255 >> 5
    case 6 => 255 >> 6
    case 7 => 255 >> 7
    case _ => 0
  }

  /** The remaining 108 entries of the state table, one row per state. */
  function Row(state: nat): (r: seq<nat>)
    ensures |r| == 12
  {
    match state
    case 0 =>  [ 0, 12, 24, 36, 60, 96, 84, 12, 12, 12, 48, 72]
    case 24 => [12,  0, 12, 12, 12, 12, 12,  0, 12,  0, 12, 12]
    case 36 => [12, 24, 12, 12, 12, 12, 12, 24, 12, 24, 12, 12]
    case 48 => [12, 12, 12, 12, 12, 12, 12, 24, 12, 12, 12, 12]
    case 60 => [12, 24, 12, 12, 12, 12, 12, 12, 12, 24, 12, 12]
    case 72 => [12, 12, 12, 12, 12, 12, 12, 36, 12, 36, 12, 12]
    case 84 => [12, 36, 12, 12, 12, 12, 12, 36, 12, 36, 12, 12]
    case 96 => [12, 36, 12, 12, 12, 12, 12, 12, 12, 12, 12, 12]
    case _ =>  [12, 12, 12, 12, 12, 12, 12, 12, 12, 12, 12, 12]
  }

  function Transition(state: nat, kind: nat): nat
    requires kind < 12
  {
    Row(state)[kind]
  }

  /** The decoder after a run of bytes; it stops at the first error. */
  function Feed(d: Decoder, bs: seq<bv8>): Decoder
    decreases |bs|
  {
    if bs == [] || d.HasError() then d else Feed(d.Step(bs[0]), bs[1..])
  }

  // ---------- The automaton against the grammar ----------

  lemma {:induction false} FeedNext(d: Decoder, bs: seq<bv8>, k: nat)
    requires k < |bs| && !Feed(d, bs[..k]).HasError()
    ensures Feed(d, bs[..k + 1]) == Feed(d, bs[..k]).Step(bs[k])
    decreases k
  {
    if k == 0 {
      assert bs[..1] == [bs[0]];
    } else if !d.HasError() {
      assert bs[..k + 1][1..] == bs[1..][..k] && bs[..k][1..] == bs[1..][..k - 1];
      FeedNext(d.Step(bs[0]), bs[1..], k - 1);
    }
  }

  lemma {:induction false} FeedConcat(d: Decoder, a: seq<bv8>, b: seq<bv8>)
    ensures Feed(d, a + b) == Feed(Feed(d, a), b)
    decreases |a|
  {
    if a == [] {
      assert a + b == b;
    } else if !d.HasError() {
      assert (a + b)[1..] == a[1..] + b;
      FeedConcat(d.Step(a[0]), a[1..], b);
    }
  }

  // What the table says, state by state: the bytes a state accepts and where it goes.

  predicate Reachable(state: nat) {
    state in {0, 12, 24, 36, 48, 60, 72, 84, 96}
  }

  function Lower(state: nat): bv8 {
    if state == 48 then 0xA0 else if state == 72 then 0x90 else 0x80
  }

  function Upper(state: nat): bv8 {
    if state == 60 then 0x9F else if state == 96 then 0x8F else 0xBF
  }

  function After(state: nat): nat {
    match state
    case 24 => 0
    case 36 => 24
    case 48 => 24
    case 60 => 24
    case 72 => 36
    case 84 => 36
    case 96 => 36
    case _ => 12
  }

  function LeadState(b: bv8): nat {
    if b <= 0x7F then 0
    else if 0xC2 <= b <= 0xDF then 24
    else if b == 0xE0 then 48
    else if b == 0xED then 60
    else if 0xE1 <= b <= 0xEF then 36
    else if b == 0xF0 then 72
    else if 0xF1 <= b <= 0xF3 then 84
    else if b == 0xF4 then 96
    else 12
  }

  lemma {:induction false} FeedLead(d: Decoder, bs: seq<bv8>)
    requires d.HasCodePoint() && bs != []
    ensures Feed(d, bs[..1]).state == LeadState(bs[0])
    ensures LeadState(bs[0]) != 12 ==> Feed(d, bs[..1]).codepoint == LeadBits(bs[0])
  {
  }

  lemma {:induction false} StepInner(e: Decoder, b: bv8)
    requires e.NeedsMoreInput() && Reachable(e.state)
    ensures e.Step(b)
            == Decoder(if Lower(e.state) <= b <= Upper(e.state) then After(e.state) else 12, Append6(e.codepoint, b))
  {
    InnerRow(e.state, b);
  }

  lemma {:induction false} InnerRow(state: nat, b: bv8)
    requires Reachable(state) && state != 0 && state != 12
    ensures Transition(state, ByteKind(b)) == if Lower(state) <= b <= Upper(state) then After(state) else 12
  {
  }

  lemma {:induction false} FeedInner(d: Decoder, bs: seq<bv8>, k: nat)
    requires k < |bs|
    requires Feed(d, bs[..k]).NeedsMoreInput() && Reachable(Feed(d, bs[..k]).state)
    ensures var e := Feed(d, bs[..k]);
            Feed(d, bs[..k + 1])
            == Decoder(if Lower(e.state) <= bs[k] <= Upper(e.state) then After(e.state) else 12,
                       Append6(e.codepoint, bs[k]))
  {
    hide Feed;
    FeedNext(d, bs, k);
    StepInner(Feed(d, bs[..k]), bs[k]);
  }

  /** A `UTF8-char` is decoded by its last byte, and no earlier. */
  lemma {:induction false} CharIsDecoded(d: Decoder, bs: seq<bv8>)
    requires d.HasCodePoint() && CharLength(bs) > 0
    ensures Feed(d, bs[..CharLength(bs)]) == Decoder(0, CharValue(bs))
    ensures forall k :: 0 < k < CharLength(bs) ==> Feed(d, bs[..k]).NeedsMoreInput()
  {
    hide Row, ByteKind, Feed, Append6, LeadBits;
    var n := CharLength(bs);
    FeedLead(d, bs);
    if n >= 2 { FeedInner(d, bs, 1); }
    if n >= 3 { FeedInner(d, bs, 2); }
    if n == 4 { FeedInner(d, bs, 3); }
  }

  /** Bytes that do not start with a `UTF8-char` never complete a code point: the decoder
      reports an error, or the bytes end inside a character. */
  lemma {:induction false} NoCharNoCodePoint(d: Decoder, bs: seq<bv8>)
    requires d.HasCodePoint() && bs != [] && CharLength(bs) == 0
    ensures forall k :: 0 < k <= |bs| ==> !Feed(d, bs[..k]).HasCodePoint()
    ensures |bs| >= 4 ==> Feed(d, bs[..4]).HasError()
  {
    hide Row, ByteKind, Feed, Append6, LeadBits;
    FeedLead(d, bs);
    if Feed(d, bs[..1]).HasError() {
      ErrorStays(d, bs, 1);
    } else if |bs| >= 2 {
      FeedInner(d, bs, 1);
      if Feed(d, bs[..2]).HasError() {
        ErrorStays(d, bs, 2);
      } else if |bs| >= 3 {
        FeedInner(d, bs, 2);
        if Feed(d, bs[..3]).HasError() {
          ErrorStays(d, bs, 3);
        } else if |bs| >= 4 {
          FeedInner(d, bs, 3);
          ErrorStays(d, bs, 4);
        }
      }
    }
  }

  lemma {:induction false} ErrorStays(d: Decoder, bs: seq<bv8>, j: nat)
    requires j <= |bs| && Feed(d, bs[..j]).HasError()
    ensures forall k :: j <= k <= |bs| ==> Feed(d, bs[..k]) == Feed(d, bs[..j])
  {
    forall k | j <= k <= |bs| ensures Feed(d, bs[..k]) == Feed(d, bs[..j]) {
      FeedConcat(d, bs[..j], bs[j..k]);
      assert bs[..k] == bs[..j] + bs[j..k];
    }
  }

  /** The automaton accepts exactly the `UTF8-octets` of RFC 3629. */
  lemma {:induction false} AcceptsExactlyWellFormed(d: Decoder, bs: seq<bv8>)
    requires d.HasCodePoint()
    ensures Feed(d, bs).HasCodePoint() <==> WellFormed(bs)
    decreases |bs|
  {
    if bs != [] {
      var n := CharLength(bs);
      if n == 0 {
        NoCharNoCodePoint(d, bs);
        assert bs[..|bs|] == bs;
      } else {
        CharIsDecoded(d, bs);
        FeedConcat(d, bs[..n], bs[n..]);
        assert bs == bs[..n] + bs[n..];
        AcceptsExactlyWellFormed(Feed(d, bs[..n]), bs[n..]);
      }
    }
  }

  // ---------- The encoder of the string parser ----------

  function Low8(c: bv32): bv8 { (c & 0xFF) as bv8 }

  /** The bytes `parse_basic_string` appends for an escaped code point. */
  function Encode(c: bv32): seq<bv8> {
    if c < 0x80 then [Low8(c)]
    else if c < 0x800 then [Low8((c >> 6) | 0xC0), Low8((c & 0x3F) | 0x80)]
    else if c < 0x10000 then
      [Low8((c >> 12) | 0xE0), Low8(((c >> 6) & 0x3F) | 0x80), Low8((c & 0x3F) | 0x80)]
    else if c < 0x110000 then
      [Low8((c >> 18) | 0xF0), Low8(((c >> 12) & 0x3F) | 0x80), Low8(((c >> 6) & 0x3F) | 0x80), Low8((c & 0x3F) | 0x80)]
    else []
  }

  lemma {:induction false} EncodeOne(c: bv32, a: bv8)
    requires c < 0x80 && a == Low8(c)
    ensures a <= 0x7F && a as bv32 == c
  {
  }

  lemma {:induction false} EncodeTwo(c: bv32, a: bv8, b: bv8)
    requires 0x80 <= c < 0x800
    requires a == Low8((c >> 6) | 0xC0) && b == Low8((c & 0x3F) | 0x80)
    ensures 0xC2 <= a <= 0xDF && IsTail(b)
    ensures Append6((a & 0x1F) as bv32, b) == c
  {
  }

  /** A tail byte holds the low six bits. */
  lemma {:induction false} TailByte(c: bv32, b: bv8)
    requires b == Low8((c & 0x3F) | 0x80)
    ensures IsTail(b) && (b & 0x3F) as bv32 == c & 0x3F
  {
  }

  /** Six bits taken off are put back by `Append6`. */
  lemma {:induction false} Rejoin(c: bv32, b: bv8)
    requires (b & 0x3F) as bv32 == c & 0x3F
    ensures Append6(c >> 6, b) == c
  {
  }

  lemma {:induction false} LeadOfThree(c: bv32, a: bv8, b: bv8)
    requires 0x20 <= c < 0x400 && a == Low8((c >> 6) | 0xE0) && b == Low8((c & 0x3F) | 0x80)
    ensures 0xE0 <= a <= 0xEF && (a & 0x0F) as bv32 == c >> 6
    ensures (a == 0xE0 ==> 0xA0 <= b) && (a == 0xED && !(0x360 <= c <= 0x37F) ==> b <= 0x9F)
  {
  }

  lemma {:induction false} LeadOfFour(c: bv32, a: bv8, b: bv8)
    requires 0x10 <= c < 0x110 && a == Low8((c >> 6) | 0xF0) && b == Low8((c & 0x3F) | 0x80)
    ensures 0xF0 <= a <= 0xF4 && (a & 0x07) as bv32 == c >> 6
    ensures (a == 0xF0 ==> 0x90 <= b) && (a == 0xF4 ==> b <= 0x8F)
  {
  }

  lemma {:induction false} ShiftOfThree(c: bv32)
    requires 0x800 <= c < 0x10000
    ensures 0x20 <= c >> 6 < 0x400 && c >> 12 == (c >> 6) >> 6
    ensures 0x360 <= c >> 6 <= 0x37F ==> 0xD800 <= c <= 0xDFFF
  {
  }

  lemma {:induction false} ShiftOfFour(c: bv32)
    requires 0x10000 <= c < 0x110000
    ensures 0x10 <= c >> 12 < 0x110 && c >> 12 == (c >> 6) >> 6 && c >> 18 == (c >> 12) >> 6
  {
  }

  lemma {:induction false} EncodeThree(c: bv32, a: bv8, b: bv8, e: bv8)
    requires 0x800 <= c < 0x10000
    requires a == Low8((c >> 12) | 0xE0) && b == Low8(((c >> 6) & 0x3F) | 0x80) && e == Low8((c & 0x3F) | 0x80)
    ensures 0xE0 <= a <= 0xEF && IsTail(b) && IsTail(e)
    ensures (a == 0xE0 ==> 0xA0 <= b) && (a == 0xED && !(0xD800 <= c <= 0xDFFF) ==> b <= 0x9F)
    ensures Append6(Append6((a & 0x0F) as bv32, b), e) == c
  {
    hide *;
    var d := c >> 6;
    ShiftOfThree(c);
    LeadOfThree(d, a, b);
    TailByte(d, b);
    TailByte(c, e);
    Rejoin(d, b);
    Rejoin(c, e);
  }

  lemma {:induction false} EncodeFour(c: bv32, a: bv8, b: bv8, e: bv8, f: bv8)
    requires 0x10000 <= c < 0x110000
    requires a == Low8((c >> 18) | 0xF0) && b == Low8(((c >> 12) & 0x3F) | 0x80)
    requires e == Low8(((c >> 6) & 0x3F) | 0x80) && f == Low8((c & 0x3F) | 0x80)
    ensures 0xF0 <= a <= 0xF4 && IsTail(b) && IsTail(e) && IsTail(f)
    ensures (a == 0xF0 ==> 0x90 <= b) && (a == 0xF4 ==> b <= 0x8F)
    ensures Append6(Append6(Append6((a & 0x07) as bv32, b), e), f) == c
  {
    hide *;
    var d, g := c >> 6, c >> 12;
    ShiftOfFour(c);
    LeadOfFour(g, a, b);
    TailByte(g, b);
    TailByte(d, e);
    TailByte(c, f);
    Rejoin(g, b);
    Rejoin(d, e);
    Rejoin(c, f);
  }

  /** Every scalar value is encoded as one `UTF8-char` that stands for it. */
  lemma {:induction false} EncodeIsOneChar(c: bv32)
    requires IsScalarValue(c)
    ensures CharLength(Encode(c)) == |Encode(c)| > 0
    ensures CharValue(Encode(c)) == c
  {
    hide Low8, Append6;
    var bs := Encode(c);
    if c < 0x80 {
      EncodeOne(c, bs[0]);
    } else if c < 0x800 {
      EncodeTwo(c, bs[0], bs[1]);
    } else if c < 0x10000 {
      EncodeThree(c, bs[0], bs[1], bs[2]);
    } else {
      EncodeFour(c, bs[0], bs[1], bs[2], bs[3]);
    }
  }

  /** Decoding undoes encoding, from any state between two code points. */
  lemma {:induction false} DecodeEncode(d: Decoder, c: bv32)
    requires d.HasCodePoint() && IsScalarValue(c)
    ensures Feed(d, Encode(c)) == Decoder(0, c)
  {
    EncodeIsOneChar(c);
    CharIsDecoded(d, Encode(c));
    assert Encode(c)[..|Encode(c)|] == Encode(c);
  }

  lemma {:induction false} CharOne(a: bv8)
    requires a <= 0x7F
    ensures Encode(a as bv32) == [a]
  {
  }

  lemma {:induction false} CharTwo(a: bv8, b: bv8)
    requires 0xC2 <= a <= 0xDF && IsTail(b)
    ensures var c := Append6((a & 0x1F) as bv32, b);
            IsScalarValue(c) && Encode(c) == [a, b]
  {
  }

  lemma {:induction false} CharThree(a: bv8, b: bv8, e: bv8)
    requires 0xE0 <= a <= 0xEF && IsTail(b) && IsTail(e)
    requires (a == 0xE0 ==> 0xA0 <= b) && (a == 0xED ==> b <= 0x9F)
    ensures var c := Append6(Append6((a & 0x0F) as bv32, b), e);
            IsScalarValue(c) && Encode(c) == [a, b, e]
  {
  }

  lemma {:induction false} CharFour(a: bv8, b: bv8, e: bv8, f: bv8)
    requires 0xF0 <= a <= 0xF4 && IsTail(b) && IsTail(e) && IsTail(f)
    requires (a == 0xF0 ==> 0x90 <= b) && (a == 0xF4 ==> b <= 0x8F)
    ensures var c := Append6(Append6(Append6((a & 0x07) as bv32, b), e), f);
            IsScalarValue(c) && Encode(c) == [a, b, e, f]
  {
  }

  /** A `UTF8-char` stands for a scalar value and is the encoding of that value. */
  lemma {:induction false} CharIsEncoding(bs: seq<bv8>)
    requires CharLength(bs) > 0
    ensures IsScalarValue(CharValue(bs))
    ensures Encode(CharValue(bs)) == bs[..CharLength(bs)]
  {
    hide Encode, Append6;
    match CharLength(bs)
    case 1 =>
      CharOne(bs[0]);
      assert bs[..1] == [bs[0]];
    case 2 =>
      CharTwo(bs[0], bs[1]);
      assert bs[..2] == [bs[0], bs[1]];
    case 3 =>
      CharThree(bs[0], bs[1], bs[2]);
      assert bs[..3] == [bs[0], bs[1], bs[2]];
    case _ =>
      CharFour(bs[0], bs[1], bs[2], bs[3]);
      assert bs[..4] == [bs[0], bs[1], bs[2], bs[3]];
  }
}
