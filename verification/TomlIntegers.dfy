/** Integers in the four bases: what they mean, what the parser makes of them through the pointers it keeps, when the
    two differ, the conversion with its unsigned 64-bit accumulator, and the printer the parser must undo. */
module TomlIntegers {
  import opened Wrappers
  import opened TomlChars
  import opened Utf8BufferedReader
  import opened Utf8Reader

  datatype Base = Binary | Octal | Decimal | Hexadecimal {
    function Radix(): (r: int)
      ensures 2 <= r <= 16
    {
      match this
      case Binary => 2
      case Octal => 8
      case Decimal => 10
      case Hexadecimal => 16
    }

    function MaxDigits(): nat {
      match this
      case Binary => 63
      case Octal => 21
      case Decimal => 19
      case Hexadecimal => 16
    }

    function PrefixCharacter(): int
      requires this != Decimal
    {
      match this
      case Binary => 'b' as int
      case Octal => 'o' as int
      case Hexadecimal => 'x' as int
    }

    predicate IsDigit(c: int) {
      match this
      case Binary => c == '0' as int || c == '1' as int
      case Octal => '0' as int <= c <= '7' as int
      case Decimal => '0' as int <= c <= '9' as int
      case Hexadecimal => IsHexadecimalDigit(c)
    }
  }

  const TWO_TO_THE_64 := 0x1_0000_0000_0000_0000
  const INT64_MAX := 0x7FFF_FFFF_FFFF_FFFF
  const INT64_MIN := -0x8000_0000_0000_0000
  const UNDERSCORE := '_' as int
  const ZERO := '0' as int

  // ---------- Positional value ----------

  function Pow(b: int, n: nat): int { if n == 0 then 1 else b * Pow(b, n - 1) }

  predicate AllDigits(base: Base, ds: Text) {
    forall k :: 0 <= k < |ds| ==> base.IsDigit(ds[k])
  }

  /** The number a digit string denotes, most significant digit first. */
  function Value(base: Base, ds: Text): int {
    if ds == [] then 0 else Value(base, ds[..|ds| - 1]) * base.Radix() + HexToDec(ds[|ds| - 1])
  }

  lemma {:induction false} DigitRange(base: Base, c: int)
    requires base.IsDigit(c)
    ensures 0 <= HexToDec(c) < base.Radix() && (HexToDec(c) == 0 <==> c == ZERO)
    ensures c != UNDERSCORE && !IsValueTerminator(c)
  {
  }

  lemma {:induction false} PowPositive(b: int, n: nat)
    requires b >= 1
    ensures Pow(b, n) >= 1
  {
    if n > 0 { PowPositive(b, n - 1); }
  }

  lemma {:induction false} PowAdd(b: int, m: nat, n: nat)
    ensures Pow(b, m + n) == Pow(b, m) * Pow(b, n)
  {
    if m > 0 {
      PowAdd(b, m - 1, n);
      assert b * (Pow(b, m - 1) * Pow(b, n)) == b * Pow(b, m - 1) * Pow(b, n);
    }
  }

  lemma {:induction false} Distribute(x: int, p: int, y: int, r: int)
    ensures (x * p + y) * r == x * (r * p) + y * r
  {
  }

  lemma {:induction false} ValueSnoc(base: Base, ds: Text, d: int)
    ensures Value(base, ds + [d]) == Value(base, ds) * base.Radix() + HexToDec(d)
  {
  }

  /** Splitting a digit string: the front part counts `radix^|b|` times. */
  lemma {:induction false} ValueConcat(base: Base, a: Text, b: Text)
    ensures Value(base, a + b) == Value(base, a) * Pow(base.Radix(), |b|) + Value(base, b)
    decreases |b|
  {
    if b == [] {
      assert a + b == a;
    } else {
      var n := |b| - 1;
      var front := b[..n];
      ValueConcat(base, a, front);
      assert a + b == (a + front) + [b[n]];
      ValueSnoc(base, a + front, b[n]);
      Distribute(Value(base, a), Pow(base.Radix(), n), Value(base, front), base.Radix());
    }
  }

  lemma {:induction false} ValueBounds(base: Base, ds: Text)
    requires AllDigits(base, ds)
    ensures 0 <= Value(base, ds) < Pow(base.Radix(), |ds|)
    decreases |ds|
  {
    if ds != [] {
      var n, r := |ds| - 1, base.Radix();
      ValueBounds(base, ds[..n]);
      DigitRange(base, ds[n]);
      var x, p := Value(base, ds[..n]), Pow(r, n);
      assert (x + 1) * r <= p * r;
    }
  }

  /** A leading digit other than zero makes the value at least `radix^(n-1)`. */
  lemma {:induction false} ValueWithLeadingDigit(base: Base, ds: Text)
    requires AllDigits(base, ds) && ds != [] && ds[0] != ZERO
    ensures Value(base, ds) >= Pow(base.Radix(), |ds| - 1)
  {
    var d, rest := ds[0], ds[1..];
    ValueConcat(base, [d], rest);
    assert ds == [d] + rest;
    ValueBounds(base, rest);
    DigitRange(base, d);
    ValueSnoc(base, [], d);
    assert [] + [d] == [d];
    PowPositive(base.Radix(), |rest|);
    AtLeastOnce(HexToDec(d), Pow(base.Radix(), |rest|));
  }

  lemma {:induction false} AtLeastOnce(x: int, p: int)
    requires x >= 1 && p >= 1
    ensures x * p >= p
  {
  }

  lemma {:induction false} ValueIgnoresLeadingZeros(base: Base, ds: Text, k: nat)
    requires k <= |ds| && forall i :: 0 <= i < k ==> ds[i] == ZERO
    ensures Value(base, ds) == Value(base, ds[k..])
  {
    ValueConcat(base, ds[..k], ds[k..]);
    assert ds == ds[..k] + ds[k..];
    ValueOfZeros(base, ds[..k]);
  }

  lemma {:induction false} ValueOfZeros(base: Base, ds: Text)
    requires forall i :: 0 <= i < |ds| ==> ds[i] == ZERO
    ensures Value(base, ds) == 0
    decreases |ds|
  {
    if ds != [] { ValueOfZeros(base, ds[..|ds| - 1]); }
  }

  lemma {:induction false} PowersOfTwo()
    ensures Pow(2, 16) == 0x1_0000
    ensures Pow(2, 32) == 0x1_0000_0000
    ensures Pow(2, 63) == 0x8000_0000_0000_0000
    ensures Pow(2, 64) == TWO_TO_THE_64
  {
    assert Pow(2, 8) == 256;
    PowAdd(2, 8, 8);
    PowAdd(2, 16, 16);
    PowAdd(2, 32, 32);
  }

  lemma {:induction false} PowerLimits(base: Base)
    ensures Pow(base.Radix(), base.MaxDigits()) <= TWO_TO_THE_64
    ensures base == Binary || base == Octal ==> Pow(base.Radix(), base.MaxDigits()) == INT64_MAX + 1
    ensures Pow(base.Radix(), base.MaxDigits()) > INT64_MAX + 1 <==> base == Decimal || base == Hexadecimal
  {
    match base
    case Binary => PowersOfTwo();
    case Octal =>
      assert Pow(8, 7) == 0x20_0000;
      PowAdd(8, 7, 7);
      PowAdd(8, 14, 7);
    case Decimal =>
      assert Pow(10, 9) == 1_000_000_000;
      PowAdd(10, 9, 9);
      PowAdd(10, 18, 1);
    case Hexadecimal =>
      assert Pow(16, 8) == 0x1_0000_0000;
      PowAdd(16, 8, 8);
  }

  lemma {:induction false} PowMonotone(b: int, m: nat, n: nat)
    requires b >= 1 && m <= n
    ensures Pow(b, m) <= Pow(b, n)
  {
    PowAdd(b, n - m, m);
    PowPositive(b, n - m);
    PowPositive(b, m);
    AtLeastOnce(Pow(b, n - m), Pow(b, m));
  }

  // ---------- What a number token means ----------

  /** Every character is a digit, or an underscore right after one. */
  predicate GoodPrefix(base: Base, t: Text) {
    forall k :: 0 <= k < |t| ==> GoodAt(base, t, k)
  }

  predicate GoodAt(base: Base, t: Text, k: nat)
    requires k < |t|
  {
    base.IsDigit(t[k]) || (t[k] == UNDERSCORE && k > 0 && base.IsDigit(t[k - 1]))
  }

  predicate GoodToken(base: Base, t: Text) {
    t != [] && GoodPrefix(base, t) && base.IsDigit(t[|t| - 1])
  }

  function Stripped(t: Text): Text {
    if t == [] then []
    else Stripped(t[..|t| - 1]) + (if t[|t| - 1] == UNDERSCORE then [] else [t[|t| - 1]])
  }

  /** Where the token that starts at `from` ends: at a value terminator or at end of file. */
  function TokenEnd(src: Text, from: nat): (e: nat)
    requires from <= |src|
    ensures from <= e <= |src|
    ensures forall k :: from <= k < e ==> !IsValueTerminator(src[k])
    ensures e < |src| ==> IsValueTerminator(src[e])
    decreases |src| - from
  {
    if from == |src| || IsValueTerminator(src[from]) then from else TokenEnd(src, from + 1)
  }

  datatype IntError = Malformed | LeadingZeros | NotRepresentable | TooLong

  function SignOf(base: Base, src: Text): int
    requires src != []
  {
    if base == Decimal && src[0] == '-' as int then -1 else 1
  }

  /** Where the digits start, after the sign or the base prefix. */
  function BodyStart(base: Base, src: Text): (r: Option<nat>)
    requires src != []
    ensures r.Some? ==> r.value < |src|
  {
    if base == Decimal then
      var start := if src[0] == '+' as int || src[0] == '-' as int then 1 else 0;
      if start < |src| then Some(start) else None
    else if |src| > 2 && src[0] == ZERO && src[1] == base.PrefixCharacter() then Some(2)
    else None
  }

  function Signed(sign: int, v: int): int {
    if sign < 0 then -v else v
  }

  /** The result the grammar gives: the exact value and the end of the token, or the error. */
  function Meaning(base: Base, src: Text): Result<(int, nat), IntError>
    requires src != []
  {
    match BodyStart(base, src)
    case None => Err(Malformed)
    case Some(start) => TokenMeaning(base, SignOf(base, src), src, start)
  }

  /** A well-formed token with no more digits than the buffer has room for. */
  predicate FitsBuffer(base: Base, token: Text) {
    GoodToken(base, token) && |Stripped(token)| <= MAX_HISTORY_LENGTH
  }

  function TokenMeaning(base: Base, sign: int, src: Text, start: nat): Result<(int, nat), IntError>
    requires start <= |src|
  {
    var stop := TokenEnd(src, start);
    var token := src[start..stop];
    var ds := Stripped(token);
    if !FitsBuffer(base, token) then Err(Malformed) else TokenValue(base, sign, ds, stop)
  }

  /** The value of the digits of a token, if it is allowed, and where the token ends. */
  function TokenValue(base: Base, sign: int, ds: Text, stop: nat): (r: Result<(int, nat), IntError>)
    ensures r != Err(Malformed)
  {
    match DigitsValue(base, sign, ds)
    case Ok(v) => Ok((v, stop))
    case Err(e) => Err(e)
  }

  function DigitsValue(base: Base, sign: int, ds: Text): (r: Result<int, IntError>)
    ensures r != Err(Malformed)
  {
    if base == Decimal && |ds| > 1 && ds[0] == ZERO then Err(LeadingZeros)
    else
      var v := Signed(sign, Value(base, ds));
      if INT64_MIN <= v <= INT64_MAX then Ok(v) else Err(NotRepresentable)
  }

  // ---------- What the parser makes of a token ----------

  /** The parser looks back through a pointer: `seen[k - 1]` is what it reads of the character before the k-th one.
      Here it takes the k-th character: it is a digit, or an underscore after something seen as a digit. */
  predicate TakesAt(base: Base, t: Text, seen: seq<int>, k: nat)
    requires k < |t| <= |seen|
  {
    base.IsDigit(t[k]) || (t[k] == UNDERSCORE && k > 0 && base.IsDigit(seen[k - 1]))
  }

  predicate TakesPrefix(base: Base, t: Text, seen: seq<int>)
    requires |t| <= |seen|
  {
    forall k :: 0 <= k < |t| ==> TakesAt(base, t, seen, k)
  }

  /** The parser takes the whole token: nothing is wrong with its characters, the last one is not seen as an
      underscore, and its digits fit the buffer. */
  predicate Takes(base: Base, t: Text, seen: seq<int>)
    requires |t| <= |seen|
  {
    t != [] && TakesPrefix(base, t, seen) && seen[|t| - 1] != UNDERSCORE && |Stripped(t)| <= MAX_HISTORY_LENGTH
  }

  /** What the parser makes of a text, given what its pointers read. */
  function Reading(base: Base, src: Text, seen: seq<int>): Result<(int, nat), IntError>
    requires src != [] && |seen| == |src|
  {
    match BodyStart(base, src)
    case None => Err(Malformed)
    case Some(start) => TokenReading(base, SignOf(base, src), src, seen, start)
  }

  function TokenReading(base: Base, sign: int, src: Text, seen: seq<int>, start: nat): Result<(int, nat), IntError>
    requires start <= |src| == |seen|
  {
    var stop := TokenEnd(src, start);
    var token := src[start..stop];
    if !Takes(base, token, seen[start..]) then Err(Malformed) else TokenValue(base, sign, Stripped(token), stop)
  }

  // ---------- Where reading and meaning part ----------

  /** The k-th test looks at the k-th character and the one before it; the last one only at the last character. */
  predicate Test(base: Base, t: Text, seen: seq<int>, k: nat)
    requires k <= |t| <= |seen| && t != []
  {
    if k < |t| then TakesAt(base, t, seen, k) else seen[|t| - 1] != UNDERSCORE
  }

  /** A pointer hides a fault of the token: an underscore that follows no digit is seen to follow one, or an
      underscore at the end is not seen. */
  predicate Hides(base: Base, t: Text, seen: seq<int>)
    requires |t| <= |seen| && t != []
  {
    exists k: nat :: k <= |t| && !Test(base, t, t, k) && Test(base, t, seen, k)
  }

  /** A pointer makes up a fault: a digit before an underscore is not seen, or an underscore is seen at the end. */
  predicate Invents(base: Base, t: Text, seen: seq<int>)
    requires |t| <= |seen| && t != []
  {
    exists k: nat :: k <= |t| && Test(base, t, t, k) && !Test(base, t, seen, k)
  }

  /** The token has a fault that no pointer hides. */
  predicate Faulty(base: Base, t: Text, seen: seq<int>)
    requires |t| <= |seen| && t != []
  {
    exists k: nat :: k <= |t| && !Test(base, t, t, k) && !Test(base, t, seen, k)
  }

  lemma {:induction false} TakesIsTests(base: Base, t: Text, seen: seq<int>)
    requires |t| <= |seen| && t != []
    ensures Takes(base, t, seen)
            <==> |Stripped(t)| <= MAX_HISTORY_LENGTH && forall k: nat :: k <= |t| ==> Test(base, t, seen, k)
  {
    hide Stripped;
    if forall k: nat :: k <= |t| ==> Test(base, t, seen, k) {
      forall k | 0 <= k < |t| ensures TakesAt(base, t, seen, k) { assert Test(base, t, seen, k); }
      assert Test(base, t, seen, |t|);
    }
  }

  lemma {:induction false} GoodIsTests(base: Base, t: Text)
    requires t != []
    ensures GoodToken(base, t) <==> forall k: nat :: k <= |t| ==> Test(base, t, t, k)
  {
    DigitIsNotUnderscore(base);
    if GoodToken(base, t) {
      forall k: nat | k <= |t| ensures Test(base, t, t, k) {
        if k < |t| { assert GoodAt(base, t, k); }
      }
    }
    if forall k: nat :: k <= |t| ==> Test(base, t, t, k) {
      forall k | 0 <= k < |t| ensures GoodAt(base, t, k) { assert Test(base, t, t, k); }
      assert Test(base, t, t, |t|) && Test(base, t, t, |t| - 1);
    }
  }

  /** The parser takes a token that is well formed, and refuses one that is not, exactly when its digits do not fit
      anyway, or it has a fault the parser sees, or pointers both hide and make up faults, or do neither. */
  lemma {:induction false} TakesWhenGood(base: Base, t: Text, seen: seq<int>)
    requires |t| <= |seen| && t != []
    ensures (Takes(base, t, seen) <==> FitsBuffer(base, t))
            <==> || |Stripped(t)| > MAX_HISTORY_LENGTH || Faulty(base, t, seen)
                 || (Hides(base, t, seen) <==> Invents(base, t, seen))
  {
    TakesIsTests(base, t, seen);
    GoodIsTests(base, t);
    hide Test, Takes, GoodToken, Stripped;
  }

  /** What is seen of a token, if there is one, is enough to judge it. */
  predicate SeesEnough(base: Base, src: Text, seen: seq<int>)
    requires src != [] && |seen| == |src|
  {
    match BodyStart(base, src)
    case None => true
    case Some(start) =>
      var t, s := src[start..TokenEnd(src, start)], seen[start..];
      || t == [] || |Stripped(t)| > MAX_HISTORY_LENGTH || Faulty(base, t, s)
      || (Hides(base, t, s) <==> Invents(base, t, s))
  }

  /** What the parser makes of a text is what the text means, exactly under that condition. */
  lemma {:induction false} ReadingIsMeaning(base: Base, src: Text, seen: seq<int>)
    requires src != [] && |seen| == |src|
    ensures Reading(base, src, seen) == Meaning(base, src) <==> SeesEnough(base, src, seen)
  {
    if BodyStart(base, src).Some? {
      var start := BodyStart(base, src).value;
      var t, s := src[start..TokenEnd(src, start)], seen[start..];
      if t != [] { TakesWhenGood(base, t, s); }
      hide Takes, GoodToken, Stripped, Test, Hides, Invents, Faulty, TokenEnd, Value, BodyStart;
    }
  }

  /** As long as the pointers read what they were set to, it is. */
  lemma {:induction false} TrueSightIsMeaning(base: Base, src: Text, seen: seq<int>)
    requires src != [] && |seen| == |src|
    requires BodyStart(base, src).Some? ==>
               forall k :: 0 <= k < TokenEnd(src, BodyStart(base, src).value) ==> seen[k] == src[k]
    ensures Reading(base, src, seen) == Meaning(base, src)
  {
    if BodyStart(base, src).Some? {
      var start := BodyStart(base, src).value;
      var stop := TokenEnd(src, start);
      var t, s := src[start..stop], seen[start..];
      hide TokenEnd, BodyStart, Stripped;
      if t != [] {
        forall k: nat | k <= |t| ensures Test(base, t, s, k) == Test(base, t, t, k) {
          assert forall j :: 0 <= j < |t| ==> s[j] == t[j];
        }
        assert !Hides(base, t, s) && !Invents(base, t, s);
      }
      hide Test, Hides, Invents;
      ReadingIsMeaning(base, src, seen);
    }
  }

  /** How far `parse_value` looks ahead before it decides what a value is. */
  function LookAhead(src: Text): (n: nat)
    ensures n <= |src|
  {
    var stop := TokenEnd(src, 0);
    if stop < HISTORY_BUFFER_SIZE then stop else HISTORY_BUFFER_SIZE
  }

  /** A decimal value that goes on behind the look-ahead is refused, since it might be of another type. */
  predicate IsTooLong(base: Base, src: Text) {
    base == Decimal && LookAhead(src) == HISTORY_BUFFER_SIZE && |src| > HISTORY_BUFFER_SIZE
  }

  /** What the pointers to the code points from `from` on will read, when the reader has come as far as `head` before
      and now looks ahead from `from`. */
  function SeenAt(blocks: seq<Text>, from: nat, head: int): (seen: seq<int>)
    requires from < |Joined(blocks)|
    ensures |seen| == |Joined(blocks)| - from
  {
    var ahead := from + LookAhead(Joined(blocks)[from..]);
    SeenFrom(blocks, 0, from, if ahead > head then ahead else head)
  }

  /** What the parser makes of a value that starts at `from`. */
  function ReadingAt(base: Base, blocks: seq<Text>, from: nat, head: int): Result<(int, nat), IntError>
    requires from < |Joined(blocks)|
  {
    Reading(base, Joined(blocks)[from..], SeenAt(blocks, from, head))
  }

  /** Of the characters looked ahead at one is no underscore, and it is a digit. */
  predicate IsOneDigit(base: Base, src: Text) {
    && base == Decimal && src != [] && base.IsDigit(src[0])
    && |Stripped(src[..LookAhead(src)])| == 1
  }

  /** What `parse_value` makes of an integer that starts at `from`: a digit that stands alone is taken as it is. */
  function ValueAt(base: Base, blocks: seq<Text>, from: nat, head: int): Result<(int, nat), IntError>
    requires from < |Joined(blocks)|
  {
    var src := Joined(blocks)[from..];
    if IsOneDigit(base, src) then Ok((HexToDec(src[0]), 1))
    else if IsTooLong(base, src) then Err(TooLong)
    else ReadingAt(base, blocks, from, head)
  }

  /** The digit that stands alone is taken for what the token means, if no underscore is left behind it. */
  lemma {:induction false} LoneDigitIsItsToken(base: Base, src: Text)
    requires IsOneDigit(base, src)
    ensures Meaning(base, src) == Ok((HexToDec(src[0]), 1)) <==> TokenEnd(src, 0) == 1
  {
    hide Value;
    ValueOne(base, src[0]);
    if TokenEnd(src, 0) == 1 {
      assert src[0..1] == [src[0]];
      DigitsAreGood(base, [src[0]]);
      StrippedOfDigits(base, [src[0]]);
    }
  }

  /** It is what the text means exactly when the pointers see as much of the token as it takes. */
  lemma {:induction false} ReadingAtIsMeaning(base: Base, blocks: seq<Text>, from: nat, head: int)
    requires from < |Joined(blocks)|
    ensures ReadingAt(base, blocks, from, head) == Meaning(base, Joined(blocks)[from..])
            <==> SeesEnough(base, Joined(blocks)[from..], SeenAt(blocks, from, head))
  {
    hide Joined, Reading, Meaning, SeenAt, SeesEnough;
    ReadingIsMeaning(base, Joined(blocks)[from..], SeenAt(blocks, from, head));
  }

  lemma {:induction false} HeaderIsInToken(base: Base, src: Text)
    requires src != [] && BodyStart(base, src).Some?
    ensures TokenEnd(src, BodyStart(base, src).value) == TokenEnd(src, 0)
  {
  }

  /** A token of less than 128 code points is read as what it means, whatever the blocks are. */
  lemma {:induction false} ShortTokensAreReadRight(base: Base, blocks: seq<Text>, from: nat, head: int)
    requires from < |Joined(blocks)| && TokenEnd(Joined(blocks)[from..], 0) < MAX_HISTORY_LENGTH
    ensures ReadingAt(base, blocks, from, head) == Meaning(base, Joined(blocks)[from..])
  {
    var src := Joined(blocks)[from..];
    if BodyStart(base, src).Some? { HeaderIsInToken(base, src); }
    hide TokenEnd, BodyStart, Joined, Meaning, Reading;
    TrueSightIsMeaning(base, src, SeenAt(blocks, from, head));
  }

  /** A decimal token that is not refused for its length is short enough. */
  lemma {:induction false} DecimalsAreReadRight(blocks: seq<Text>, from: nat, head: int)
    requires from < |Joined(blocks)| && !IsTooLong(Decimal, Joined(blocks)[from..])
    ensures ReadingAt(Decimal, blocks, from, head) == Meaning(Decimal, Joined(blocks)[from..])
  {
    hide Joined, ReadingAt, Meaning;
    ShortTokensAreReadRight(Decimal, blocks, from, head);
  }

  /** In a longer token a pointer is only wrong 127 code points or more behind its first one, at the end of a block
      with another block behind it. */
  lemma {:induction false} WrongSight(blocks: seq<Text>, from: nat, head: int, k: nat)
    requires from < |Joined(blocks)| && k < TokenEnd(Joined(blocks)[from..], 0)
    ensures SeenAt(blocks, from, head)[k] != Joined(blocks)[from..][k]
            ==> k >= HISTORY_BUFFER_SIZE && EndsBlock(blocks, from + k)
  {
    var src := Joined(blocks)[from..];
    var ahead := from + LookAhead(src);
    if SeenAt(blocks, from, head)[k] != src[k] {
      WrongOnlyAtBlockEnds(blocks, 0, from, if ahead > head then ahead else head, k);
    }
    hide TokenEnd, Joined, EndsBlock;
  }

  // ---------- The parser ----------

  /** Unsigned 64-bit arithmetic wraps. */
  function Wrap64(x: int): int { x % TWO_TO_THE_64 }

  lemma {:induction false} Wrap64Exact(x: int)
    requires 0 <= x < TWO_TO_THE_64
    ensures Wrap64(x) == x
  {
  }

  /** The unsigned 64-bit accumulation, least significant digit first. Both the power and the
      sum are reduced modulo 2^64 at every step; the digit limit keeps the sum exact. */
  method Accumulate(base: Base, ds: Text) returns (result: int)
    requires AllDigits(base, ds) && |ds| <= base.MaxDigits()
    ensures 0 <= result == Value(base, ds) < TWO_TO_THE_64
  {
    var power, end := 1, |ds|;
    result := 0;
    assert ds[|ds|..] == [] && ds[0..] == ds;
    assert Value(base, []) == 0 && Pow(base.Radix(), 0) == 1 == Wrap64(1);
    hide Value, Pow, Wrap64;
    while end > 0
      invariant 0 <= end <= |ds|
      invariant result == Value(base, ds[end..])
      invariant power == Wrap64(Pow(base.Radix(), |ds| - end))
    {
      end := end - 1;
      ghost var p := Pow(base.Radix(), |ds| - end - 1);
      OneDigitMore(base, ds, end);
      Wrap64Exact(p);
      Wrap64Exact(p * HexToDec(ds[end]));
      Wrap64Exact(result + p * HexToDec(ds[end]));
      result := Wrap64(result + Wrap64(power * HexToDec(ds[end])));
      power := Wrap64(power * base.Radix());
    }
    ValueBelowLimit(base, ds);
  }

  lemma {:induction false} ValueBelowLimit(base: Base, ds: Text)
    requires AllDigits(base, ds) && |ds| <= base.MaxDigits()
    ensures 0 <= Value(base, ds) < TWO_TO_THE_64
  {
    ValueBounds(base, ds);
    PowMonotone(base.Radix(), |ds|, base.MaxDigits());
    PowerLimits(base);
  }

  lemma {:induction false} OneDigitMore(base: Base, ds: Text, i: nat)
    requires AllDigits(base, ds) && i < |ds| <= base.MaxDigits()
    ensures var p := Pow(base.Radix(), |ds| - i - 1);
            && 0 < p < TWO_TO_THE_64 && Pow(base.Radix(), |ds| - i) == p * base.Radix()
            && 0 <= p * HexToDec(ds[i]) < TWO_TO_THE_64
            && Value(base, ds[i..]) == p * HexToDec(ds[i]) + Value(base, ds[i + 1..])
            && 0 <= Value(base, ds[i..]) < TWO_TO_THE_64
  {
    var r, rest := base.Radix(), ds[i + 1..];
    assert ds[i..] == [ds[i]] + rest;
    ValuePrepend(base, ds[i], rest);
    ValueBounds(base, rest);
    ValueBelowLimit(base, ds[i..]);
    Commute(Pow(r, |rest|), r);
    assert Pow(r, |ds| - i) == r * Pow(r, |rest|);
    hide Value, Pow;
    PowPositive(r, |rest|);
    PowerLimits(base);
    StrictStep(r, |rest|);
    PowMonotone(r, |ds| - i, base.MaxDigits());
    DigitRange(base, ds[i]);
    ProductNonNegative(Pow(r, |rest|), HexToDec(ds[i]));
  }

  lemma {:induction false} ProductNonNegative(x: int, y: int)
    requires x >= 0 && y >= 0
    ensures x * y >= 0
  {
  }

  lemma {:induction false} ValueOne(base: Base, d: int)
    ensures Value(base, [d]) == HexToDec(d)
  {
  }

  lemma {:induction false} Commute(x: int, y: int)
    ensures x * y == y * x
  {
  }

  lemma {:induction false} ValuePrepend(base: Base, d: int, rest: Text)
    ensures Value(base, [d] + rest) == Pow(base.Radix(), |rest|) * HexToDec(d) + Value(base, rest)
  {
    ValueConcat(base, [d], rest);
    ValueOne(base, d);
    Commute(HexToDec(d), Pow(base.Radix(), |rest|));
  }

  lemma {:induction false} StrictStep(b: int, n: nat)
    requires b >= 2
    ensures Pow(b, n) < Pow(b, n + 1)
  {
    PowPositive(b, n);
  }

  lemma {:induction false} TakesPrefixSnoc(base: Base, t: Text, seen: seq<int>, c: int)
    requires |t| < |seen|
    ensures TakesPrefix(base, t + [c], seen)
            <==> TakesPrefix(base, t, seen) && CanFollow(base, if t == [] then None else Some(seen[|t| - 1]), c)
  {
    var s := t + [c];
    assert forall k :: 0 <= k < |t| ==> (TakesAt(base, s, seen, k) <==> TakesAt(base, t, seen, k));
    assert TakesAt(base, s, seen, |t|) <==> CanFollow(base, if t == [] then None else Some(seen[|t| - 1]), c);
    if TakesPrefix(base, s, seen) {
      forall k | 0 <= k < |t| ensures TakesAt(base, t, seen, k) {
        assert TakesAt(base, s, seen, k);
      }
    }
  }

  lemma {:induction false} TakesPrefixTake(base: Base, t: Text, seen: seq<int>, n: nat)
    requires n <= |t| <= |seen| && TakesPrefix(base, t, seen)
    ensures TakesPrefix(base, t[..n], seen)
  {
    forall k | 0 <= k < n ensures TakesAt(base, t[..n], seen, k) {
      assert TakesAt(base, t, seen, k);
    }
  }

  lemma {:induction false} StrippedSnoc(t: Text, c: int)
    ensures Stripped(t + [c]) == Stripped(t) + (if c == UNDERSCORE then [] else [c])
  {
  }

  lemma {:induction false} StrippedPrefix(t: Text, k: nat)
    requires k <= |t|
    ensures |Stripped(t[..k])| <= |Stripped(t)|
    decreases |t| - k
  {
    if k < |t| {
      assert t[..k + 1] == t[..k] + [t[k]];
      StrippedSnoc(t[..k], t[k]);
      StrippedPrefix(t, k + 1);
    } else {
      assert t[..k] == t;
    }
  }

  lemma {:induction false} StrippedDigits(base: Base, t: Text, seen: seq<int>)
    requires |t| <= |seen| && TakesPrefix(base, t, seen)
    ensures AllDigits(base, Stripped(t)) && (t != [] ==> Stripped(t) != [])
    decreases |t|
  {
    if t != [] {
      var n := |t| - 1;
      TakesPrefixTake(base, t, seen, n);
      assert TakesAt(base, t, seen, n);
      StrippedDigits(base, t[..n], seen);
      if base.IsDigit(t[n]) { DigitRange(base, t[n]); }
    }
  }

  lemma {:induction false} StopIsTokenEnd(src: Text, from: nat, stop: nat)
    requires from <= stop <= |src|
    requires forall k :: from <= k < stop ==> !IsValueTerminator(src[k])
    ensures stop == |src| || IsValueTerminator(src[stop]) ==> stop == TokenEnd(src, from)
    ensures stop <= TokenEnd(src, from)
  {
  }

  /** The end of a token does not depend on what stands before it. */
  lemma {:induction false} TokenEndShift(src: Text, from: nat)
    requires from <= |src|
    ensures TokenEnd(src, from) == from + TokenEnd(src[from..], 0)
  {
    var t, stop := src[from..], TokenEnd(src, from);
    forall k | 0 <= k < stop - from ensures !IsValueTerminator(t[k]) { assert t[k] == src[from + k]; }
    if stop < |src| { assert t[stop - from] == src[stop]; }
    hide IsValueTerminator;
    StopIsTokenEnd(t, 0, stop - from);
  }

  /** The parser's result, and the place it stops at, are what the reading says. */
  predicate Says(reading: Result<(int, nat), IntError>, r: Result<int, IntError>, consumed: int) {
    match reading
    case Ok((v, stop)) => r == Ok(v) && consumed == stop
    case Err(e) => r == Err(e)
  }

  /** The reading of a text, from the start of its digits on. */
  lemma {:induction false} ReadingFrom(base: Base, src: Text, seen: seq<int>, start: nat)
    requires src != [] && |seen| == |src| && BodyStart(base, src) == Some(start)
    ensures var t, stop := src[start..], TokenEnd(src[start..], 0);
            && (!Takes(base, t[..stop], seen[start..]) ==> Says(Reading(base, src, seen), Err(Malformed), 0))
            && (Takes(base, t[..stop], seen[start..]) ==>
                  Says(Reading(base, src, seen), DigitsValue(base, SignOf(base, src), Stripped(t[..stop])),
                    start + stop))
  {
    TokenEndShift(src, start);
    assert src[start..TokenEnd(src, start)] == src[start..][..TokenEnd(src[start..], 0)];
    hide Takes, TokenEnd, BodyStart, SignOf, Stripped, DigitsValue;
  }

  /** An error says nothing of a place. */
  lemma {:induction false} ErrorAnywhere(reading: Result<(int, nat), IntError>, e: IntError, consumed: int)
    requires Says(reading, Err(e), 0)
    ensures Says(reading, Err(e), consumed)
  {
  }

  lemma {:induction false} NoDigitNoReading(base: Base, src: Text, seen: seq<int>, start: nat)
    requires src != [] && |seen| == |src| && BodyStart(base, src) == Some(start) && !base.IsDigit(src[start])
    ensures Says(Reading(base, src, seen), Err(Malformed), 0)
  {
    FirstMustBeDigit(base, src, seen, start);
    hide Takes, TokenEnd, BodyStart, SignOf, Stripped, TokenValue;
  }

  /** A prefix of the token that cannot be continued spoils the whole token. */
  lemma {:induction false} BadPrefixSpoils(base: Base, t: Text, seen: seq<int>, i: nat)
    requires i < |t| == |seen|
    requires forall k :: 0 <= k <= i ==> !IsValueTerminator(t[k])
    requires !TakesPrefix(base, t[..i + 1], seen) || |Stripped(t[..i + 1])| > MAX_HISTORY_LENGTH
    ensures !Takes(base, t[..TokenEnd(t, 0)], seen)
  {
    StopIsTokenEnd(t, 0, i + 1);
    var token := t[..TokenEnd(t, 0)];
    assert token[..i + 1] == t[..i + 1];
    StrippedPrefix(token, i + 1);
    if TakesPrefix(base, token, seen) { TakesPrefixTake(base, token, seen, i + 1); }
  }

  lemma {:induction false} DigitIsNotUnderscore(base: Base)
    ensures !base.IsDigit(UNDERSCORE)
  {
  }

  lemma {:induction false} FirstMustBeDigit(base: Base, src: Text, seen: seq<int>, from: nat)
    requires from < |src| == |seen| && !base.IsDigit(src[from])
    ensures !Takes(base, src[from..TokenEnd(src, from)], seen[from..])
  {
    var token := src[from..TokenEnd(src, from)];
    assert token != [] && TakesPrefix(base, token, seen[from..]) ==> TakesAt(base, token, seen[from..], 0);
  }

  /** The state of the digit loop: a clean prefix of the token has been read. */
  ghost predicate Collecting(base: Base, t: Text, seen: seq<int>, i: nat, ds: Text)
    requires |t| == |seen|
  {
    && i <= |t| && |ds| <= MAX_HISTORY_LENGTH
    && (forall k :: 0 <= k < i ==> !IsValueTerminator(t[k]))
    && TakesPrefix(base, t[..i], seen) && ds == Stripped(t[..i])
  }

  predicate CanFollow(base: Base, prev: Option<int>, c: int) {
    base.IsDigit(c) || (c == UNDERSCORE && prev.Some? && base.IsDigit(prev.value))
  }

  lemma {:induction false} CollectingStarts(base: Base, t: Text, seen: seq<int>)
    requires |t| == |seen|
    ensures Collecting(base, t, seen, 0, [])
  {
    assert t[..0] == [];
  }

  lemma {:induction false} CollectingStep(base: Base, t: Text, seen: seq<int>, i: nat, ds: Text)
    requires |t| == |seen| && Collecting(base, t, seen, i, ds) && i < |t| && !IsValueTerminator(t[i])
    ensures var next := if t[i] == UNDERSCORE then ds else ds + [t[i]];
            var prev := if i == 0 then None else Some(seen[i - 1]);
            if CanFollow(base, prev, t[i]) && |next| <= MAX_HISTORY_LENGTH
            then Collecting(base, t, seen, i + 1, next)
            else !Takes(base, t[..TokenEnd(t, 0)], seen)
  {
    hide Stripped, TakesPrefix, Takes, TokenEnd, IsValueTerminator, Base.IsDigit;
    var before, c := t[..i], t[i];
    assert t[..i + 1] == before + [c];
    StrippedSnoc(before, c);
    TakesPrefixSnoc(base, before, seen, c);
    var next := if c == UNDERSCORE then ds else ds + [c];
    var prev := if i == 0 then None else Some(seen[i - 1]);
    if !(CanFollow(base, prev, c) && |next| <= MAX_HISTORY_LENGTH) {
      BadPrefixSpoils(base, t, seen, i);
    }
  }

  lemma {:induction false} CollectingDone(base: Base, t: Text, seen: seq<int>, i: nat, ds: Text)
    requires |t| == |seen| && Collecting(base, t, seen, i, ds) && i > 0
    requires i == |t| || IsValueTerminator(t[i])
    ensures i == TokenEnd(t, 0) && ds == Stripped(t[..i])
    ensures Takes(base, t[..i], seen) <==> seen[i - 1] != UNDERSCORE
  {
    StopIsTokenEnd(t, 0, i);
    hide Stripped, TakesPrefix, TokenEnd, IsValueTerminator;
  }

  method AppendDigit(digits: array<int>, length: nat, c: int)
    requires length < digits.Length
    modifies digits
    ensures digits[..length + 1] == old(digits[..length]) + [c]
  {
    digits[length] := c;
  }

  lemma {:induction false} SignedIsProduct(sign: int, v: int)
    requires sign == 1 || sign == -1
    ensures v * sign == Signed(sign, v)
  {
  }

  /** From the digits to the signed 64-bit value. */
  method DigitsToInt(base: Base, sign: int, digits: Text) returns (r: Result<int, IntError>)
    requires digits != [] && AllDigits(base, digits)
    requires sign == 1 || (sign == -1 && base == Decimal)
    ensures r == DigitsValue(base, sign, digits)
  {
    hide Value, Base.IsDigit, HexToDec;
    if |digits| == 1 {
      ValueOne(base, digits[0]);
      DigitRange(base, digits[0]);
      assert digits == [digits[0]];
      SignedIsProduct(sign, HexToDec(digits[0]));
      return Ok(HexToDec(digits[0]) * sign);
    }
    var msd := 0;
    if base != Decimal {
      while msd < |digits| && digits[msd] == ZERO
        invariant msd <= |digits| && forall i :: 0 <= i < msd ==> digits[i] == ZERO
      {
        msd := msd + 1;
      }
      if msd == |digits| {
        ValueOfZeros(base, digits);
        return Ok(0);
      }
    } else {
      if digits[0] == ZERO { return Err(LeadingZeros); }
    }
    ValueIgnoresLeadingZeros(base, digits, msd);
    if |digits| - msd > base.MaxDigits() {
      TooManyDigits(base, digits[msd..]);
      return Err(NotRepresentable);
    }
    var result := Accumulate(base, digits[msd..]);
    if result > INT64_MAX + (if sign < 0 then 1 else 0) {
      return Err(NotRepresentable);
    }
    if sign < 0 && result == INT64_MAX + 1 { return Ok(INT64_MIN); }
    SignedIsProduct(sign, result);
    return Ok(result * sign);
  }

  /** The digit limit only rejects values that do not fit in 64 bits. */
  lemma {:induction false} TooManyDigits(base: Base, ds: Text)
    requires AllDigits(base, ds) && |ds| > base.MaxDigits() && ds[0] != ZERO
    ensures Value(base, ds) > INT64_MAX
    ensures base == Decimal ==> -Value(base, ds) < INT64_MIN
  {
    ValueWithLeadingDigit(base, ds);
    PowMonotone(base.Radix(), base.MaxDigits(), |ds| - 1);
    PowerLimits(base);
  }

  lemma {:induction false} TokenDigits(base: Base, t: Text, seen: seq<int>)
    requires |t| <= |seen| && Takes(base, t, seen)
    ensures AllDigits(base, Stripped(t)) && Stripped(t) != []
  {
    StrippedDigits(base, t, seen);
  }

  // ---------- The printer ----------

  function DigitCharacter(d: int): (c: int)
    requires 0 <= d < 16
  {
    if d < 10 then ZERO + d else 'A' as int + d - 10
  }

  /** What `std::to_chars` writes for a natural number, with the letters in upper case. */
  function ToDigits(base: Base, n: nat): (ds: Text)
    ensures ds != []
  {
    if n < base.Radix() then [DigitCharacter(n)]
    else ToDigits(base, n / base.Radix()) + [DigitCharacter(n % base.Radix())]
  }

  function Zeros(n: int): (z: Text)
    ensures |z| == if n <= 0 then 0 else n
    ensures forall k :: 0 <= k < |z| ==> z[k] == ZERO
  {
    if n <= 0 then [] else [ZERO] + Zeros(n - 1)
  }

  /** `print_integer_to_stream`: a base other than ten is only used for positive values. */
  function PrintInteger(v: int, format: Base, minDigits: nat): Text {
    if v == 0 then Zeros(if minDigits == 0 then 1 else minDigits)
    else
      var base := if v > 0 then format else Decimal;
      var digits := if v < 0 then ['-' as int] + ToDigits(base, -v) else ToDigits(base, v);
      Zeros(minDigits - |digits|) + digits
  }

  /** The base the formatter uses for a value, given the flags stored with the value and the
      bases its own configuration allows. */
  function PrintedBase(v: int, format: Base, allowed: set<Base>): Base {
    if v >= 0 && format in allowed then format else Decimal
  }

  function FormatInteger(v: int, format: Base, allowed: set<Base>): Text {
    match PrintedBase(v, format, allowed)
    case Decimal => PrintInteger(v, Decimal, 0)
    case base => [ZERO, base.PrefixCharacter()] + PrintInteger(v, base, 0)
  }

  lemma {:induction false} DigitCharacterIsDigit(base: Base, d: int)
    requires 0 <= d < base.Radix()
    ensures base.IsDigit(DigitCharacter(d)) && HexToDec(DigitCharacter(d)) == d
  {
  }

  /** The printed digits denote the number, and do not start with zero unless it is zero. */
  lemma {:induction false} ToDigitsValue(base: Base, n: nat)
    ensures AllDigits(base, ToDigits(base, n))
    ensures Value(base, ToDigits(base, n)) == n
    ensures n > 0 ==> ToDigits(base, n)[0] != ZERO
    decreases n
  {
    var r := base.Radix();
    if n < r {
      DigitCharacterIsDigit(base, n);
      ValueOne(base, DigitCharacter(n));
    } else {
      ToDigitsValue(base, n / r);
      DigitCharacterIsDigit(base, n % r);
      ValueSnoc(base, ToDigits(base, n / r), DigitCharacter(n % r));
    }
  }

  lemma {:induction false} ToDigitsLength(base: Base, n: nat, k: nat)
    requires k > 0 && n < Pow(base.Radix(), k)
    ensures |ToDigits(base, n)| <= k
  {
    var r := base.Radix();
    assert Pow(r, 1) == r * Pow(r, 0);
    if n >= r {
      QuotientBound(n, r, Pow(r, k - 1));
      ToDigitsLength(base, n / r, k - 1);
    }
  }

  lemma {:induction false} QuotientBound(n: int, r: int, p: int)
    requires r > 0 && n < r * p
    ensures n / r < p
  {
  }

  lemma {:induction false} Int64Length(base: Base, n: nat)
    requires n <= INT64_MAX + 1
    ensures |ToDigits(base, n)| <= 64
  {
    PowersOfTwo();
    PowBaseMonotone(2, base.Radix(), 64);
    ToDigitsLength(base, n, 64);
  }

  lemma {:induction false} PowBaseMonotone(a: int, b: int, n: nat)
    requires 1 <= a <= b
    ensures Pow(a, n) <= Pow(b, n)
  {
    if n > 0 {
      PowBaseMonotone(a, b, n - 1);
      PowPositive(a, n - 1);
      ProductMonotone(a, b, Pow(a, n - 1), Pow(b, n - 1));
    }
  }

  lemma {:induction false} ProductMonotone(a: int, b: int, x: int, y: int)
    requires 0 <= a <= b && 0 <= x <= y
    ensures a * x <= b * y
  {
  }

  lemma {:induction false} StrippedOfDigits(base: Base, ds: Text)
    requires AllDigits(base, ds)
    ensures Stripped(ds) == ds
    decreases |ds|
  {
    if ds != [] {
      StrippedOfDigits(base, ds[..|ds| - 1]);
      DigitRange(base, ds[|ds| - 1]);
      assert ds == ds[..|ds| - 1] + [ds[|ds| - 1]];
    }
  }

  /** Plain digits between a header and a terminator are the token. */
  lemma {:induction false} DigitsAreTheToken(base: Base, head: Text, ds: Text, rest: Text)
    requires AllDigits(base, ds) && ds != []
    requires rest == [] || IsValueTerminator(rest[0])
    ensures var src := head + ds + rest;
            TokenEnd(src, |head|) == |head + ds| && src[|head|..|head + ds|] == ds
    ensures GoodToken(base, ds)
  {
    var src := head + ds + rest;
    forall k | |head| <= k < |head + ds| ensures !IsValueTerminator(src[k]) {
      assert src[k] == ds[k - |head|];
      DigitRange(base, ds[k - |head|]);
    }
    StopIsTokenEnd(src, |head|, |head + ds|);
    forall k | 0 <= k < |ds| ensures GoodAt(base, ds, k) {
    }
  }

  /** The token part of the parser, on plain digits without a superfluous zero. */
  lemma {:induction false} MeaningOfDigits(base: Base, sign: int, head: Text, ds: Text, rest: Text)
    requires AllDigits(base, ds) && 0 < |ds| <= MAX_HISTORY_LENGTH && (|ds| > 1 ==> ds[0] != ZERO)
    requires INT64_MIN <= Signed(sign, Value(base, ds)) <= INT64_MAX
    requires rest == [] || IsValueTerminator(rest[0])
    ensures TokenMeaning(base, sign, head + ds + rest, |head|) == Ok((Signed(sign, Value(base, ds)), |head + ds|))
  {
    DigitsAreTheToken(base, head, ds, rest);
    StrippedOfDigits(base, ds);
  }

  function Header(base: Base, negative: bool): Text {
    if base != Decimal then [ZERO, base.PrefixCharacter()] else if negative then ['-' as int] else []
  }

  lemma {:induction false} HeaderIsSkipped(base: Base, negative: bool, ds: Text, rest: Text)
    requires ds != [] && base.IsDigit(ds[0])
    ensures BodyStart(base, Header(base, negative) + ds + rest) == Some(|Header(base, negative)|)
    ensures SignOf(base, Header(base, negative) + ds + rest) == if negative && base == Decimal then -1 else 1
  {
  }

  /** The digits and what stands before them. */
  lemma {:induction false} PrintedShape(v: int, format: Base, allowed: set<Base>)
    ensures var base := PrintedBase(v, format, allowed);
            FormatInteger(v, format, allowed)
            == Header(base, v < 0) + ToDigits(base, if v < 0 then -v else v)
  {
  }

  /** Reading back a printed integer gives the integer, and stops right after it. */
  lemma {:induction false} ParseUndoesPrint(v: int, format: Base, allowed: set<Base>, rest: Text)
    requires INT64_MIN <= v <= INT64_MAX
    requires rest == [] || IsValueTerminator(rest[0])
    ensures var text := FormatInteger(v, format, allowed);
            Meaning(PrintedBase(v, format, allowed), text + rest) == Ok((v, |text|))
  {
    var base, text := PrintedBase(v, format, allowed), FormatInteger(v, format, allowed);
    var n := if v < 0 then -v else v;
    var ds := ToDigits(base, n);
    PrintedShape(v, format, allowed);
    ToDigitsValue(base, n);
    Int64Length(base, n);
    assert n == 0 ==> |ds| == 1;
    HeaderIsSkipped(base, v < 0, ds, rest);
    hide FormatInteger, ToDigits, Value, TokenMeaning, Header, BodyStart, SignOf;
    MeaningOfDigits(base, if v < 0 then -1 else 1, Header(base, v < 0), ds, rest);
  }

  /** Whatever the blocks are, and however far the reader has come, the parser makes the integer of what was printed. */
  lemma {:induction false} PrintedIsReadBack(
      v: int, format: Base, allowed: set<Base>, rest: Text, blocks: seq<Text>, from: nat, head: int)
    requires INT64_MIN <= v <= INT64_MAX
    requires rest == [] || IsValueTerminator(rest[0])
    requires from < |Joined(blocks)| && Joined(blocks)[from..] == FormatInteger(v, format, allowed) + rest
    ensures ValueAt(PrintedBase(v, format, allowed), blocks, from, head)
            == Ok((v, |FormatInteger(v, format, allowed)|))
  {
    var base, text := PrintedBase(v, format, allowed), FormatInteger(v, format, allowed);
    var src := Joined(blocks)[from..];
    ParseUndoesPrint(v, format, allowed, rest);
    PrintedIsShort(v, format, allowed, rest);
    hide FormatInteger, PrintedBase, Joined, Meaning, ReadingAt, Stripped, TokenEnd, IsOneDigit;
    if IsOneDigit(base, src) {
      LoneDigitIsItsToken(base, src);
    } else {
      ShortTokensAreReadRight(base, blocks, from, head);
    }
  }

  lemma {:induction false} PrintedIsShort(v: int, format: Base, allowed: set<Base>, rest: Text)
    requires INT64_MIN <= v <= INT64_MAX
    requires rest == [] || IsValueTerminator(rest[0])
    ensures var base, text := PrintedBase(v, format, allowed), FormatInteger(v, format, allowed);
            && TokenEnd(text + rest, 0) == |text| < HISTORY_BUFFER_SIZE
            && (IsOneDigit(base, text + rest) ==> |text| == 1)
  {
    hide FormatInteger, PrintedBase, ToDigits, Value, Meaning, Header, TokenEnd, Stripped, IsOneDigit, AllDigits;
    var base, n := PrintedBase(v, format, allowed), if v < 0 then -v else v;
    PrintedShape(v, format, allowed);
    ToDigitsValue(base, n);
    Int64Length(base, n);
    ParseUndoesPrint(v, format, allowed, rest);
    MeaningStops(base, FormatInteger(v, format, allowed) + rest);
    HeaderIsShort(base, v < 0);
    if IsOneDigit(base, FormatInteger(v, format, allowed) + rest) {
      PrintedAlone(base, v < 0, ToDigits(base, n), rest);
    }
  }

  lemma {:induction false} MeaningStops(base: Base, src: Text)
    requires src != [] && Meaning(base, src).Ok?
    ensures TokenEnd(src, 0) == Meaning(base, src).value.1
  {
    hide TokenEnd, Stripped, GoodToken, Value;
    HeaderIsInToken(base, src);
  }

  lemma {:induction false} HeaderIsShort(base: Base, negative: bool)
    ensures |Header(base, negative)| <= 2
  {
  }

  lemma {:induction false} PrintedAlone(base: Base, negative: bool, ds: Text, rest: Text)
    requires AllDigits(base, ds) && ds != []
    requires TokenEnd(Header(base, negative) + ds + rest, 0) == |Header(base, negative) + ds| < HISTORY_BUFFER_SIZE
    requires IsOneDigit(base, Header(base, negative) + ds + rest)
    ensures |Header(base, negative) + ds| == 1
  {
    hide Stripped, TokenEnd;
    assert Header(base, negative) == [];
    assert ([] + ds + rest)[..|ds|] == ds;
    StrippedOfDigits(base, ds);
  }

  // ---------- Two tokens the parser reads wrong ----------

  /** A plain ASCII text in blocks. */
  function Cut(t: Text): seq<Text> {
    if t == [] then []
    else if |t| <= BLOCK_CAPACITY then [t]
    else [t[..BLOCK_CAPACITY]] + Cut(t[BLOCK_CAPACITY..])
  }

  lemma {:induction false} CutJoined(t: Text)
    ensures Joined(Cut(t)) == t && GoodBlocks(Cut(t))
    ensures t != [] ==> Cut(t) != [] && Cut(t)[0] == if |t| <= BLOCK_CAPACITY then t else t[..BLOCK_CAPACITY]
  {
    if |t| > BLOCK_CAPACITY {
      CutJoined(t[BLOCK_CAPACITY..]);
      var more := Cut(t[BLOCK_CAPACITY..]);
      assert Cut(t)[1..] == more;
      assert forall k :: 1 <= k < |Cut(t)| ==> Cut(t)[k] == more[k - 1];
    } else if t != [] {
      assert [t][1..] == [] && t + [] == t;
    }
  }

  /** In such a text a pointer that is wrong reads the character 32 places on, or nothing. */
  lemma {:induction false} CutAfterRead(t: Text, q: nat)
    requires q < |t|
    ensures q < |Joined(Cut(t))|
    ensures AfterRead(Cut(t), 0, q)
            == if q % BLOCK_CAPACITY != BLOCK_CAPACITY - 1 || q + 1 == |t| then t[q]
               else if q + BLOCK_CAPACITY < |t| then t[q + BLOCK_CAPACITY] else 0
    decreases |t|
  {
    CutJoined(t);
    if |t| > BLOCK_CAPACITY {
      var first, more := t[..BLOCK_CAPACITY], t[BLOCK_CAPACITY..];
      CutJoined(more);
      if q >= BLOCK_CAPACITY { CutAfterRead(more, q - BLOCK_CAPACITY); }
      hide Joined, Cut, AfterRead;
      FirstBlock(first, Cut(more), q);
    } else {
      hide Cut, AfterRead;
      OneBlock(t, q);
    }
  }

  lemma {:induction false} OneBlock(t: Text, q: nat)
    requires q < |t|
    ensures q < |Joined([t])| && AfterRead([t], 0, q) == t[q]
  {
  }

  lemma {:induction false} FirstBlock(first: Text, more: seq<Text>, q: nat)
    requires q < |first| + |Joined(more)| && more != []
    ensures q < |Joined([first] + more)|
    ensures AfterRead([first] + more, 0, q)
            == if q >= |first| then AfterRead(more, 0, q - |first|)
               else if q + 1 < |first| then first[q] else InBuffer(more[0], 0, q)
  {
    assert ([first] + more)[1..] == more;
  }

  /** `0x`, zeros, a one, and perhaps an underscore: 130 characters. */
  function LongHex(zeros: nat, end: Text): Text {
    [ZERO, 'x' as int] + Zeros(zeros) + ['1' as int] + end
  }

  lemma {:induction false} LongDigits(zeros: nat)
    ensures var ds := Zeros(zeros) + ['1' as int];
            && |ds| == zeros + 1 && AllDigits(Hexadecimal, ds) && Value(Hexadecimal, ds) == 1
            && Stripped(ds) == ds && Stripped(ds + [UNDERSCORE]) == ds
  {
    hide Value, Stripped, Zeros;
    var ds := Zeros(zeros) + ['1' as int];
    StrippedOfDigits(Hexadecimal, ds);
    StrippedSnoc(ds, UNDERSCORE);
    assert ds[zeros..] == ['1' as int] && HexToDec('1' as int) == 1;
    ValueIgnoresLeadingZeros(Hexadecimal, ds, zeros);
    ValueOne(Hexadecimal, '1' as int);
  }

  /** Where a token of 130 characters at the 30th place of a text ends, and what is seen of its last two characters
      when the line ends there. */
  lemma {:induction false} LongTokenText(head: Text, token: Text, rest: Text)
    requires |head| == 30 && |token| == 130 && |rest| >= BLOCK_CAPACITY && rest[0] == 0x0A
    requires forall k :: 0 <= k < |token| ==> !IsValueTerminator(token[k])
    ensures var text := head + token + rest;
            && text[30..] == token + rest && text[30..][..130] == token
            && TokenEnd(text[30..], 2) == TokenEnd(text[30..], 0) == 130
  {
    var text := head + token + rest;
    assert text[30..] == token + rest && (token + rest)[..130] == token;
    assert IsValueTerminator(text[30..][130]);
    forall k | 0 <= k < 130 ensures !IsValueTerminator(text[30..][k]) { assert text[30..][k] == token[k]; }
    hide IsValueTerminator;
    StopIsTokenEnd(text[30..], 0, 130);
    StopIsTokenEnd(text[30..], 2, 130);
  }

  lemma {:induction false} LongTokenSeen(head: Text, token: Text, rest: Text)
    requires |head| == 30 && |token| == 130 && |rest| >= BLOCK_CAPACITY
    ensures var text := head + token + rest;
            && Joined(Cut(text)) == text
            && var seen := SeenFrom(Cut(text), 0, 30, 30 + HISTORY_BUFFER_SIZE);
               && |seen| == |text[30..]| && seen[129] == rest[31]
               && forall k :: 0 <= k < 129 ==> seen[k] == token[k]
  {
    var text := head + token + rest;
    CutJoined(text);
    hide Joined, Cut, AfterRead;
    forall k | 0 <= k < 129 ensures SeenFrom(Cut(text), 0, 30, 30 + HISTORY_BUFFER_SIZE)[k] == token[k] {
      assert text[30 + k] == token[k];
      CutAfterRead(text, 30 + k);
    }
    CutAfterRead(text, 159);
    assert text[191] == rest[31];
  }

  lemma {:induction false} LongTokenAt(head: Text, token: Text, rest: Text)
    requires |head| == 30 && |token| == 130 && |rest| >= BLOCK_CAPACITY && rest[0] == 0x0A
    requires forall k :: 0 <= k < |token| ==> !IsValueTerminator(token[k])
    ensures var text := head + token + rest;
            && Joined(Cut(text)) == text && text[30..] == token + rest && text[30..][..130] == token
            && TokenEnd(text[30..], 2) == TokenEnd(text[30..], 0) == 130
            && var seen := SeenAt(Cut(text), 30, 30);
               && |seen| == |text[30..]| && seen[129] == rest[31]
               && forall k :: 0 <= k < 129 ==> seen[k] == token[k]
  {
    LongTokenText(head, token, rest);
    LongTokenSeen(head, token, rest);
    hide TokenEnd, Joined, Cut, SeenFrom;
  }

  /** A valid number that is refused: `0x`, 127 zeros and a one, the line ends with the block, and the last character
      of the next block is an underscore, which is seen instead of the one. */
  lemma {:induction false} ValidNumberIsRefused(head: Text, rest: Text)
    requires |head| == 30 && |rest| >= BLOCK_CAPACITY && rest[0] == 0x0A && rest[31] == UNDERSCORE
    ensures var text := head + LongHex(127, []) + rest;
            && 30 < |Joined(Cut(text))| && Joined(Cut(text)) == text
            && Meaning(Hexadecimal, text[30..]) == Ok((1, 130))
            && ValueAt(Hexadecimal, Cut(text), 30, 30) == Err(Malformed)
  {
    var token, ds := LongHex(127, []), Zeros(127) + ['1' as int];
    var text := head + token + rest;
    LongDigits(127);
    assert token == [ZERO, 'x' as int] + ds;
    LongHexIsNoTerminator(127, []);
    LongTokenAt(head, token, rest);
    assert text[30..][2..130] == ds by { assert text[30..][..130][2..] == ds; }
    assert text[30..][0] == ZERO && text[30..][1] == 'x' as int;
    DigitsAreGood(Hexadecimal, ds);
    hide GoodToken, Stripped, TokenEnd, Value, Joined, Cut, SeenFrom, Zeros;
    assert Meaning(Hexadecimal, text[30..]) == Ok((1, 130));
  }

  lemma {:induction false} DigitsAreGood(base: Base, ds: Text)
    requires ds != [] && AllDigits(base, ds)
    ensures GoodToken(base, ds)
  {
    DigitIsNotUnderscore(base);
    forall k | 0 <= k < |ds| ensures GoodAt(base, ds, k) { assert base.IsDigit(ds[k]); }
  }

  /** An invalid number that is accepted: with an underscore at its end, and anything else as the last character of
      the next block. */
  lemma {:induction false} InvalidNumberIsAccepted(head: Text, rest: Text)
    requires |head| == 30 && |rest| >= BLOCK_CAPACITY && rest[0] == 0x0A && rest[31] != UNDERSCORE
    ensures var text := head + LongHex(126, [UNDERSCORE]) + rest;
            && 30 < |Joined(Cut(text))| && Joined(Cut(text)) == text
            && Meaning(Hexadecimal, text[30..]) == Err(Malformed)
            && ValueAt(Hexadecimal, Cut(text), 30, 30) == Ok((1, 130))
  {
    var token, ds := LongHex(126, [UNDERSCORE]), Zeros(126) + ['1' as int];
    var text, t := head + token + rest, ds + [UNDERSCORE];
    LongDigits(126);
    assert token == [ZERO, 'x' as int] + t;
    LongHexIsNoTerminator(126, [UNDERSCORE]);
    LongTokenAt(head, token, rest);
    assert text[30..][2..130] == t by { assert text[30..][..130][2..] == t; }
    assert text[30..][0] == ZERO && text[30..][1] == 'x' as int;
    var s := SeenAt(Cut(text), 30, 30)[2..];
    hide Stripped, TokenEnd, Value, Joined, Cut, SeenFrom, Zeros, Takes;
    assert s[126] == token[128] == '1' as int && s[127] == rest[31];
    UnderscoreIsNotSeen(ds, s);
    assert !GoodToken(Hexadecimal, t);
  }

  lemma {:induction false} UnderscoreIsNotSeen(ds: Text, seen: seq<int>)
    requires ds != [] && AllDigits(Hexadecimal, ds) && |Stripped(ds + [UNDERSCORE])| <= MAX_HISTORY_LENGTH
    requires |seen| > |ds| && Hexadecimal.IsDigit(seen[|ds| - 1]) && seen[|ds|] != UNDERSCORE
    ensures Takes(Hexadecimal, ds + [UNDERSCORE], seen)
  {
    hide Stripped;
    forall k | 0 <= k < |ds + [UNDERSCORE]| ensures TakesAt(Hexadecimal, ds + [UNDERSCORE], seen, k) {
      if k < |ds| { assert Hexadecimal.IsDigit(ds[k]); }
    }
  }

  lemma {:induction false} LongHexIsNoTerminator(zeros: nat, end: Text)
    requires end == [] || end == [UNDERSCORE]
    ensures |LongHex(zeros, end)| == zeros + 3 + |end|
    ensures forall k :: 0 <= k < |LongHex(zeros, end)| ==> !IsValueTerminator(LongHex(zeros, end)[k])
  {
    forall k | 0 <= k < |LongHex(zeros, end)| ensures !IsValueTerminator(LongHex(zeros, end)[k]) {
      var c := LongHex(zeros, end)[k];
      assert c == ZERO || c == 'x' as int || c == '1' as int || c == UNDERSCORE;
    }
  }
}
