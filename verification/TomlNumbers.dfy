/** Which texts are integers, and which integers they are, told from their characters alone. */
module TomlNumbers {
  import opened Wrappers
  import opened TomlChars
  import opened TomlIntegers

  /** A character that ends a value: blanks and line breaks of all kinds, and `#`, `,`, `]`, `}`. */
  predicate IsEnd(c: int) {
    || 9 <= c <= 13 || c == 32 || c == 35 || c == 44 || c == 93 || c == 125
    || c == 0x85 || c == 0xA0 || c == 0x1680 || c == 0x180E || 0x2000 <= c <= 0x200B || c == 0x2028 || c == 0x2029
    || c == 0x202F || c == 0x205F || c == 0x2060 || c == 0x3000 || c == 0xFEFF
  }

  /** What a figure or a letter from A to F, capital or small, is worth; nothing else is worth less than 16. */
  function Worth(c: int): int {
    if 48 <= c <= 57 then c - 48 else if 65 <= c <= 70 then c - 55 else if 97 <= c <= 102 then c - 87 else 99
  }

  function RadixOf(base: Base): int {
    match base case Binary => 2 case Octal => 8 case Decimal => 10 case Hexadecimal => 16
  }

  /** What stands before the digits. */
  predicate IsHead(head: Text, base: Base) {
    match base
    case Binary => head == [48, 98]
    case Octal => head == [48, 111]
    case Hexadecimal => head == [48, 120]
    case Decimal => head == [] || head == [43] || head == [45]
  }

  /** The text without its underscores. */
  function Without(t: Text): Text {
    if t == [] then [] else (if t[0] == 95 then [] else [t[0]]) + Without(t[1..])
  }

  function NumberOf(ds: Text, radix: int): int {
    if ds == [] then 0 else radix * NumberOf(ds[..|ds| - 1], radix) + Worth(ds[|ds| - 1])
  }

  /** Digits, with single underscores between them, and no more than 128 digits. */
  predicate IsNumeral(body: Text, radix: int) {
    body != [] && |Without(body)| <= 128 && forall k :: 0 <= k < |body| ==> WellPut(body, k, radix)
  }

  predicate WellPut(body: Text, k: nat, radix: int)
    requires k < |body|
  {
    || Worth(body[k]) < radix
    || (body[k] == 95 && 0 < k < |body| - 1 && Worth(body[k - 1]) < radix && Worth(body[k + 1]) < radix)
  }

  lemma {:induction false} DigitsAre(base: Base, c: int)
    ensures base.IsDigit(c) <==> Worth(c) < RadixOf(base)
    ensures base.IsDigit(c) ==> HexToDec(c) == Worth(c) && c != 95
  {
  }

  lemma {:induction false} EndsAre(c: int)
    ensures IsValueTerminator(c) <==> IsEnd(c)
  {
  }

  lemma {:induction false} WithoutSnoc(t: Text, c: int)
    ensures Without(t + [c]) == Without(t) + (if c == 95 then [] else [c])
  {
    if t == [] {
      assert t + [c] == [c] && [c][1..] == [];
    } else {
      assert (t + [c])[1..] == t[1..] + [c];
      WithoutSnoc(t[1..], c);
    }
  }

  lemma {:induction false} StrippedIsWithout(t: Text)
    ensures Stripped(t) == Without(t)
  {
    if t != [] {
      StrippedIsWithout(t[..|t| - 1]);
      WithoutSnoc(t[..|t| - 1], t[|t| - 1]);
      assert t == t[..|t| - 1] + [t[|t| - 1]];
    }
  }

  lemma {:induction false} ValueIsNumber(base: Base, ds: Text)
    requires AllDigits(base, ds)
    ensures Value(base, ds) == NumberOf(ds, RadixOf(base))
  {
    if ds != [] {
      ValueIsNumber(base, ds[..|ds| - 1]);
      DigitsAre(base, ds[|ds| - 1]);
    }
  }

  lemma {:induction false} TokensAre(base: Base, t: Text)
    ensures FitsBuffer(base, t) <==> IsNumeral(t, RadixOf(base))
    ensures FitsBuffer(base, t) ==> AllDigits(base, Without(t))
  {
    StrippedIsWithout(t);
    hide Stripped, Without, GoodAt, WellPut;
    if FitsBuffer(base, t) {
      forall k | 0 <= k < |t| ensures WellPut(t, k, RadixOf(base)) && TakesAt(base, t, t, k) {
        GoodIsWellPut(base, t, k);
      }
      StrippedDigits(base, t, t);
    }
    if IsNumeral(t, RadixOf(base)) {
      forall k | 0 <= k < |t| ensures GoodAt(base, t, k) && (k == |t| - 1 ==> base.IsDigit(t[k])) {
        WellPutIsGood(base, t, k);
      }
    }
  }

  lemma {:induction false} GoodIsWellPut(base: Base, t: Text, k: nat)
    requires GoodToken(base, t) && k < |t|
    ensures WellPut(t, k, RadixOf(base)) && TakesAt(base, t, t, k)
  {
    assert GoodAt(base, t, k) && (k < |t| - 1 ==> GoodAt(base, t, k + 1));
    DigitsAre(base, t[k]);
    if k > 0 { DigitsAre(base, t[k - 1]); }
    if k < |t| - 1 { DigitsAre(base, t[k + 1]); }
    hide Base.IsDigit, Worth;
  }

  lemma {:induction false} WellPutIsGood(base: Base, t: Text, k: nat)
    requires k < |t| && WellPut(t, k, RadixOf(base))
    ensures GoodAt(base, t, k) && (k == |t| - 1 ==> base.IsDigit(t[k]))
  {
    DigitsAre(base, t[k]);
    if k > 0 { DigitsAre(base, t[k - 1]); }
    hide Base.IsDigit, Worth;
  }

  /** What a numeral says, with the sign or the base in front of it. */
  function Said(head: Text, body: Text, base: Base): int {
    var n := NumberOf(Without(body), RadixOf(base));
    if head == [45] then -n else n
  }

  /** The value is a signed 64-bit one, and a decimal number starts with a zero only if that is all of it. */
  predicate IsAllowed(head: Text, body: Text, base: Base) {
    && -9223372036854775808 <= Said(head, body, base) <= 9223372036854775807
    && (base == Decimal && |Without(body)| > 1 ==> Without(body)[0] != 48)
  }

  lemma {:induction false} HeadIsSkipped(base: Base, head: Text, body: Text, rest: Text)
    requires IsHead(head, base) && body != []
    requires base == Decimal && head == [] ==> body[0] != 43 && body[0] != 45
    ensures BodyStart(base, head + body + rest) == Some(|head|)
    ensures SignOf(base, head + body + rest) == if head == [45] then -1 else 1
  {
  }

  lemma {:induction false} TokenIs(src: Text, head: Text, body: Text, rest: Text)
    requires src == head + body + rest
    requires (forall k :: 0 <= k < |body| ==> !IsEnd(body[k])) && (rest == [] || IsEnd(rest[0]))
    ensures TokenEnd(src, |head|) == |head + body| && src[|head|..|head + body|] == body
  {
    forall k | |head| <= k < |head + body| ensures !IsValueTerminator(src[k]) {
      assert src[k] == body[k - |head|];
      EndsAre(src[k]);
    }
    if rest != [] { EndsAre(rest[0]); }
    hide IsEnd, IsValueTerminator;
    StopIsTokenEnd(src, |head|, |head + body|);
  }

  lemma {:induction false} DigitsSay(base: Base, head: Text, body: Text)
    requires IsHead(head, base) && FitsBuffer(base, body)
    ensures var r := DigitsValue(base, if head == [45] then -1 else 1, Stripped(body));
            r.Ok? <==> IsAllowed(head, body, base)
    ensures var r := DigitsValue(base, if head == [45] then -1 else 1, Stripped(body));
            r.Ok? ==> r.value == Said(head, body, base)
  {
    hide Without, Stripped, Value, NumberOf, FitsBuffer, AllDigits;
    TokensAre(base, body);
    StrippedIsWithout(body);
    ValueIsNumber(base, Without(body));
  }

  /** A text up to the first character that ends a value means an integer if and only if it is a head, and a numeral
      that says an allowed value; it then means that value. */
  lemma {:induction false} NumbersAre(base: Base, head: Text, body: Text, rest: Text)
    requires IsHead(head, base) && body != []
    requires base == Decimal && head == [] ==> body[0] != 43 && body[0] != 45
    requires (forall k :: 0 <= k < |body| ==> !IsEnd(body[k])) && (rest == [] || IsEnd(rest[0]))
    ensures var meaning := Meaning(base, head + body + rest);
            && (meaning.Ok? <==> IsNumeral(body, RadixOf(base)) && IsAllowed(head, body, base))
            && (meaning.Ok? ==> meaning.value == (Said(head, body, base), |head + body|))
  {
    hide IsNumeral, IsAllowed, Said, FitsBuffer, DigitsValue, TokenEnd, Stripped, BodyStart, SignOf, IsEnd, IsHead;
    var src := head + body + rest;
    HeadIsSkipped(base, head, body, rest);
    TokenIs(src, head, body, rest);
    TokensAre(base, body);
    if FitsBuffer(base, body) { DigitsSay(base, head, body); }
  }

  /** Without the head of its base, or with nothing behind it, a text means no integer of that base. */
  lemma {:induction false} NoHead(base: Base, src: Text)
    requires base != Decimal && src != []
    ensures !(|src| > 2 && exists head: Text :: IsHead(head, base) && head <= src) ==> Meaning(base, src).Err?
  {
    if BodyStart(base, src).Some? {
      var head := src[..2];
      assert IsHead(head, base) && head <= src;
    }
  }

  /** A decimal value is refused for its length if and only if its first 127 characters end no value and there is
      more. */
  lemma {:induction false} TooLongIs(base: Base, src: Text)
    ensures IsTooLong(base, src)
            <==> base == Decimal && |src| > 127 && forall k :: 0 <= k < 127 ==> !IsEnd(src[k])
  {
    forall k | 0 <= k < |src| ensures IsValueTerminator(src[k]) <==> IsEnd(src[k]) { EndsAre(src[k]); }
    hide IsEnd, IsValueTerminator;
    if |src| > 127 && forall k :: 0 <= k < 127 ==> !IsEnd(src[k]) { StopIsTokenEnd(src, 0, 127); }
  }
}
