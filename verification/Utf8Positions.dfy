/** What the line and the column of a code point are, told from the values before it alone. */
module Utf8Positions {
  import opened Utf8Reader

  /** Where the line feeds among the first `k` characters stand. */
  function LineFeeds(cs: seq<Character>, k: nat): set<nat>
    requires k <= |cs|
  {
    set i: nat | i < k && cs[i].value == 10
  }

  /** The line of the k-th character begins with the `first`-th one: nothing stands before that, or a line feed does,
      and no line feed stands between the two. */
  predicate LineStartsAt(cs: seq<Character>, k: nat, first: nat)
    requires k <= |cs|
  {
    first <= k && (first > 0 ==> cs[first - 1].value == 10) && forall i :: first <= i < k ==> cs[i].value != 10
  }

  /** A position lies `k` characters behind another: so many lines further as there are line feeds between, and so many
      columns as there are characters in the line. */
  predicate Behind(from: Position, cs: seq<Character>, k: nat, to: Position)
    requires k <= |cs|
  {
    && to.line == from.line + |LineFeeds(cs, k)|
    && forall first :: 0 <= first <= k && LineStartsAt(cs, k, first) ==>
         to.column == (if first == 0 then from.column else 1) + (k - first)
  }

  lemma {:induction false} OneFurther(from: Position, cs: seq<Character>, k: nat, to: Position)
    requires k < |cs| && Behind(from, cs, k, to)
    ensures Behind(from, cs, k + 1, to.Past(cs[k].value))
  {
    var next, n := to.Past(cs[k].value), k + 1;
    if cs[k].value == 10 {
      assert LineFeeds(cs, k + 1) == LineFeeds(cs, k) + {k};
    } else {
      assert LineFeeds(cs, k + 1) == LineFeeds(cs, k);
    }
    forall first | 0 <= first <= n && LineStartsAt(cs, n, first)
      ensures next.column == (if first == 0 then from.column else 1) + (k + 1 - first)
    {
      if cs[k].value == 10 { assert first == k + 1; } else { assert first <= k && LineStartsAt(cs, k, first); }
    }
  }

  lemma {:induction false} PlacesFollow(cs: seq<Character>, from: Position, k: nat)
    requires k < |cs|
    ensures Place(cs, from)[k].character == cs[k]
    ensures Place(cs, from)[k].position == PlaceAfter(cs[..k], from)
    decreases k
  {
    if k > 0 {
      PlacesFollow(cs[1..], from.Past(cs[0].value), k - 1);
      assert cs[..k][1..] == cs[1..][..k - 1];
    }
  }

  lemma {:induction false} AfterOneMore(cs: seq<Character>, from: Position, k: nat)
    requires k < |cs|
    ensures PlaceAfter(cs[..k + 1], from) == PlaceAfter(cs[..k], from).Past(cs[k].value)
  {
    PlaceConcat(cs[..k], [cs[k]], from);
    assert cs[..k + 1] == cs[..k] + [cs[k]];
    assert [cs[k]][1..] == [];
  }

  /** Numbering characters from a position on, the k-th one, and the place after all of them, lie where they should. */
  lemma {:induction false} PlacedBehind(cs: seq<Character>, from: Position, k: nat)
    requires k <= |cs|
    ensures Behind(from, cs, k, PlaceAfter(cs[..k], from))
    ensures k < |cs| ==> Place(cs, from)[k] == CodePoint(cs[k], PlaceAfter(cs[..k], from))
  {
    if k > 0 {
      PlacedBehind(cs, from, k - 1);
      AfterOneMore(cs, from, k - 1);
      OneFurther(from, cs, k - 1, PlaceAfter(cs[..k - 1], from));
    } else {
      assert LineFeeds(cs, 0) == {};
    }
    if k < |cs| { PlacesFollow(cs, from, k); }
  }

  /** In a document the line of a code point is one more than the line feeds before it; its column is one more than the
      characters between the last of them, or the beginning, and it. */
  lemma {:induction false} PositionIs(reader: Reader, k: nat, first: nat)
    requires k < |reader.All()| && first <= k
    requires first > 0 ==> reader.All()[first - 1].character.value == 10
    requires forall i :: first <= i < k ==> reader.All()[i].character.value != 10
    ensures reader.All()[k].position.line
            == 1 + |set i: nat | i < k && reader.All()[i].character.value == 10|
    ensures reader.All()[k].position.column == 1 + (k - first)
  {
    var cs := Chars(reader.Body());
    forall i | 0 <= i <= k ensures reader.All()[i].character == cs[i] { PlacesFollow(cs, START, i); }
    PlacedBehind(cs, START, k);
    assert LineStartsAt(cs, k, first);
    assert (set i: nat | i < k && reader.All()[i].character.value == 10) == LineFeeds(cs, k);
  }

  /** There is always one place where the line begins. */
  function LineStart(cs: seq<Character>, k: nat): (first: nat)
    requires k <= |cs|
    ensures LineStartsAt(cs, k, first) && forall other: nat :: LineStartsAt(cs, k, other) ==> other == first
  {
    if k == 0 || cs[k - 1].value == 10 then k else LineStart(cs, k - 1)
  }

  /** A byte order mark is no part of the text, and nothing else is left out. */
  lemma {:induction false} MarkIsDropped(source: seq<bv8>)
    ensures BodyStart(source)
            == if |source| >= 3 && source[0] == 239 && source[1] == 187 && source[2] == 191 then 3 else 0
  {
  }
}
