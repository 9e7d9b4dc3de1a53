/** The multi-word macro prefix test: a plain scan over the keys, and the sorted index that
    answers the same question. The index is built once and must stay right when the process
    locale changes afterwards. */
module MacroPrefix {

  type Text = seq<int>

  const CAPITAL_A := 'A' as int
  const CAPITAL_Z := 'Z' as int

  /** The wide-character classification of the current locale. */
  datatype Locale = Locale(lower: int -> int, isUpper: int -> bool) {
    /** What every locale keeps for ASCII. */
    ghost predicate Valid() {
      && (forall c :: 0 <= c <= 127 && !IsCapital(c) ==> lower(c) == c)
      && (forall c :: 0 <= c <= 127 ==> (isUpper(c) <==> IsCapital(c)))
    }
  }

  /** The plain locale is one. */
  lemma {:induction false} PlainLocale()
    ensures Locale(c => if 65 <= c <= 90 then c + 32 else c, c => 65 <= c <= 90).Valid()
  {
  }

  predicate IsCapital(c: int) { CAPITAL_A <= c <= CAPITAL_Z }

  /** As an unsigned number, greater than 127: what a signed wide character may hold besides is negative. */
  predicate NonAscii(c: int) { c < 0 || c > 127 }

  // ---------- The scan ----------

  predicate AnyUpper(t: Text, loc: Locale) {
    exists k :: 0 <= k < |t| && loc.isUpper(t[k])
  }

  function LowerAll(t: Text, loc: Locale): (r: Text)
    ensures |r| == |t| && forall k :: 0 <= k < |t| ==> r[k] == loc.lower(t[k])
  {
    seq(|t|, k requires 0 <= k < |t| => loc.lower(t[k]))
  }

  /** A key with capitals must be typed as it is spelled; any other key ignores case. */
  predicate KeyMatches(key: Text, candidate: Text, loc: Locale) {
    (if AnyUpper(key, loc) then candidate else LowerAll(candidate, loc)) <= key
  }

  ghost predicate IsMacroPrefix(candidate: Text, keys: seq<Text>, loc: Locale) {
    candidate != [] && exists key :: key in keys && KeyMatches(key, candidate, loc)
  }

  method HasUpperScan(s: Text, loc: Locale) returns (r: bool)
    ensures r == AnyUpper(s, loc)
  {
    for i := 0 to |s|
      invariant forall k :: 0 <= k < i ==> !loc.isUpper(s[k])
    {
      if loc.isUpper(s[i]) { return true; }
    }
    r := false;
  }

  /** `IsSpaceMacroPrefix` over the key set, in whatever order the set is walked. */
  method IsSpaceMacroPrefix(candidate: Text, keys: seq<Text>, loc: Locale) returns (r: bool)
    ensures r == IsMacroPrefix(candidate, keys, loc)
  {
    if |keys| == 0 || |candidate| == 0 { return false; }
    var candLower: Text := [];
    for i := 0 to |keys|
      invariant candLower == [] || candLower == LowerAll(candidate, loc)
      invariant forall j :: 0 <= j < i ==> !KeyMatches(keys[j], candidate, loc)
    {
      var key := keys[i];
      assert key in keys;
      if |key| >= |candidate| {
        var upper := HasUpperScan(key, loc);
        if upper {
          if key[..|candidate|] == candidate { return true; }
        } else {
          if candLower == [] { candLower := LowerAll(candidate, loc); }
          if key[..|candLower|] == candLower { return true; }
        }
      }
    }
    r := false;
  }

  // ---------- Order ----------

  /** Lexicographic order, a shorter text first. */
  predicate Less(a: Text, b: Text) {
    if b == [] then false
    else if a == [] then true
    else a[0] < b[0] || (a[0] == b[0] && Less(a[1..], b[1..]))
  }

  predicate AtMost(a: Text, b: Text) { a == b || Less(a, b) }

  lemma {:induction false} LessTransitive(a: Text, b: Text, c: Text)
    requires Less(a, b) && Less(b, c)
    ensures Less(a, c)
  {
    if a != [] && a[0] == b[0] && b[0] == c[0] { LessTransitive(a[1..], b[1..], c[1..]); }
  }

  lemma {:induction false} LessTotal(a: Text, b: Text)
    ensures a == b || Less(a, b) || Less(b, a)
    ensures !(Less(a, b) && Less(b, a))
  {
    if a != [] && b != [] {
      LessTotal(a[1..], b[1..]);
      assert a == [a[0]] + a[1..] && b == [b[0]] + b[1..];
    }
  }

  /** `substr(0, n).compare`: three-way comparison of a key's front with the query. */
  function Compare(a: Text, b: Text): int {
    if a == [] then (if b == [] then 0 else -1)
    else if b == [] then 1
    else if a[0] < b[0] then -1
    else if a[0] > b[0] then 1
    else Compare(a[1..], b[1..])
  }

  /** Where a key stands to the keys that start with the query: before, among or after them. */
  function Side(key: Text, query: Text): (r: int)
    ensures -1 <= r <= 1
  {
    if query == [] then 0
    else if key == [] then -1
    else if key[0] < query[0] then -1
    else if key[0] > query[0] then 1
    else Side(key[1..], query[1..])
  }

  lemma {:induction false} SideZero(key: Text, query: Text)
    ensures Side(key, query) == 0 <==> query <= key
  {
    if query != [] && key != [] {
      SideZero(key[1..], query[1..]);
      if query <= key { assert query[1..] <= key[1..]; }
      if query[0] == key[0] && query[1..] <= key[1..] {
        assert query == [query[0]] + query[1..] && key == [key[0]] + key[1..];
      }
    }
  }

  function Min(a: nat, b: nat): nat { if a <= b then a else b }

  lemma {:induction false} CompareIsSide(key: Text, query: Text)
    ensures Compare(key[..Min(|key|, |query|)], query) == Side(key, query)
  {
    if query != [] && key != [] {
      var front := key[..Min(|key|, |query|)];
      assert front[1..] == key[1..][..Min(|key[1..]|, |query[1..]|)];
      CompareIsSide(key[1..], query[1..]);
    }
  }

  /** Sides never go back along the sorted order. */
  lemma {:induction false} SideMonotone(a: Text, b: Text, query: Text)
    requires AtMost(a, b)
    ensures Side(a, query) <= Side(b, query)
  {
    if a != b && query != [] && a != [] && a[0] == b[0] {
      assert a[1..] == b[1..] || Less(a[1..], b[1..]);
      SideMonotone(a[1..], b[1..], query[1..]);
    }
  }

  /** A text between two others shares what they share. */
  lemma {:induction false} BetweenShares(low: Text, mid: Text, high: Text, n: nat)
    requires AtMost(low, mid) && AtMost(mid, high)
    requires n <= |low| && n <= |high| && low[..n] == high[..n]
    ensures n <= |mid| && mid[..n] == low[..n]
  {
    if n > 0 {
      assert low[..n][0] == low[0] && high[..n][0] == high[0];
      LessTotal(mid, low);
      LessTotal(high, mid);
      if mid == [] { assert false; }
      assert mid[0] == low[0];
      assert low[1..][..n - 1] == low[..n][1..] && high[1..][..n - 1] == high[..n][1..];
      assert AtMost(low[1..], mid[1..]) && AtMost(mid[1..], high[1..]);
      BetweenShares(low[1..], mid[1..], high[1..], n - 1);
      assert mid[..n] == [mid[0]] + mid[1..][..n - 1] && low[..n] == [low[0]] + low[1..][..n - 1];
    }
  }

  // ---------- The index ----------

  datatype KeyCase = Flexible | Strict | LocaleDependent
  datatype KeyEntry = KeyEntry(offset: nat, length: nat, caseRule: KeyCase)

  /** The case rule of a key, fixed at construction without asking the locale. */
  function CaseRule(key: Text): KeyCase {
    if exists k :: 0 <= k < |key| && IsCapital(key[k]) then Strict
    else if exists k :: 0 <= k < |key| && NonAscii(key[k]) then LocaleDependent
    else Flexible
  }

  method ClassifyKey(key: Text) returns (rule: KeyCase)
    ensures rule == CaseRule(key)
  {
    rule := Flexible;
    for i := 0 to |key|
      invariant forall k :: 0 <= k < i ==> !IsCapital(key[k])
      invariant rule == if exists k :: 0 <= k < i && NonAscii(key[k]) then LocaleDependent else Flexible
    {
      if key[i] >= CAPITAL_A && key[i] <= CAPITAL_Z { return Strict; }
      if NonAscii(key[i]) { rule := LocaleDependent; }
    }
  }

  method HasUpper(key: Text, rule: KeyCase, loc: Locale) returns (r: bool)
    requires loc.Valid() && rule == CaseRule(key)
    ensures r == AnyUpper(key, loc)
  {
    if rule != LocaleDependent { return rule == Strict; }
    for i := 0 to |key|
      invariant forall k :: 0 <= k < i ==> !loc.isUpper(key[k])
    {
      if NonAscii(key[i]) && loc.isUpper(key[i]) { return true; }
    }
    r := false;
  }

  function Fold(c: int, loc: Locale): int {
    if IsCapital(c) || NonAscii(c) then loc.lower(c) else c
  }

  function FoldAll(t: Text, loc: Locale): (r: Text)
    ensures |r| == |t| && forall k :: 0 <= k < |t| ==> r[k] == Fold(t[k], loc)
  {
    seq(|t|, k requires 0 <= k < |t| => Fold(t[k], loc))
  }

  /** Folding only what may change in some locale is folding everything. */
  lemma {:induction false} FoldIsLower(t: Text, loc: Locale)
    requires loc.Valid()
    ensures FoldAll(t, loc) == LowerAll(t, loc)
  {
  }

  function QueryText(query: Text, folded: bool, loc: Locale): Text {
    if folded then FoldAll(query, loc) else query
  }

  method ComparePrefix(key: Text, candidate: Text, folded: bool, loc: Locale) returns (r: int)
    ensures r == Side(key, QueryText(candidate, folded, loc))
  {
    var length := Min(|key|, |candidate|);
    if !folded {
      CompareIsSide(key, candidate);
      return Compare(key[..length], candidate);
    }
    ghost var query := FoldAll(candidate, loc);
    for i := 0 to length
      invariant Side(key, query) == Side(key[i..], query[i..])
    {
      assert key[i..][0] == key[i] && query[i..][0] == query[i];
      assert key[i..][1..] == key[i + 1..] && query[i..][1..] == query[i + 1..];
      var ch := Fold(candidate[i], loc);
      if key[i] < ch { return -1; }
      if key[i] > ch { return 1; }
    }
    r := if |key| < |candidate| then -1 else 0;
  }

  /** A key that may ignore case has its first character among the fold starts. */
  predicate Covers(key: Text, starts: Text) {
    key != [] && CaseRule(key) != Strict ==> key[0] in starts
  }

  predicate Ascending(starts: Text) {
    forall i, j :: 0 <= i < j < |starts| ==> starts[i] < starts[j]
  }

  lemma {:induction false} CoversMore(keys: seq<Text>, starts: Text, c: int)
    requires forall i :: 0 <= i < |keys| ==> Covers(keys[i], starts)
    ensures forall i :: 0 <= i < |keys| ==> Covers(keys[i], starts + [c])
  {
    hide CaseRule;
    forall i | 0 <= i < |keys| ensures Covers(keys[i], starts + [c]) {
      assert Covers(keys[i], starts);
    }
  }

  /** The text of each sorted id. */
  ghost function Sorted(source: seq<Text>, ids: seq<nat>): (r: seq<Text>)
    requires forall i :: 0 <= i < |ids| ==> ids[i] < |source|
    ensures |r| == |ids| && forall i :: 0 <= i < |ids| ==> r[i] == source[ids[i]]
  {
    if ids == [] then [] else Sorted(source, ids[..|ids| - 1]) + [source[ids[|ids| - 1]]]
  }

  predicate Matches(key: Text, query: Text, upper: bool, loc: Locale) {
    query <= key && AnyUpper(key, loc) == upper
  }

  lemma {:induction false} MatchIs(key: Text, query: Text, upper: bool, loc: Locale)
    requires query <= key && upper == AnyUpper(key, loc)
    ensures Matches(key, query, upper, loc) && !Matches(key, query, !upper, loc)
  {
  }

  lemma {:induction false} PrefixesAgree(common: Text, key: Text, query: Text, length: nat)
    requires common <= key && query <= key && length <= |common| && length <= |query|
    ensures query[..length] == common[..length]
  {
  }

  const INLINE_FOLD_CHARS := 32

  // ---------- What the index fields say about the keys ----------

  predicate InRange(text: Text, entry: KeyEntry) { entry.offset + entry.length <= |text| }

  function View(text: Text, entry: KeyEntry): Text
    requires InRange(text, entry)
  {
    text[entry.offset..entry.offset + entry.length]
  }

  predicate Holds(text: Text, entry: KeyEntry, key: Text) {
    InRange(text, entry) && View(text, entry) == key && entry.caseRule == CaseRule(key)
  }

  /** Entry by entry, the shared text holds the keys in the order they were walked. */
  predicate KeysMatch(text: Text, keys: seq<KeyEntry>, source: seq<Text>) {
    |keys| == |source| && forall id :: 0 <= id < |keys| ==> Holds(text, keys[id], source[id])
  }

  predicate IdsOf(sorted: seq<nat>, source: seq<Text>) {
    |sorted| == |source| && forall i :: 0 <= i < |sorted| ==> sorted[i] < |source|
  }

  /** `sorted` holds every id once, in key order. */
  predicate SortMatches(sorted: seq<nat>, source: seq<Text>) {
    && IdsOf(sorted, source)
    && (forall i, j :: 0 <= i < j < |sorted| ==> Less(source[sorted[i]], source[sorted[j]]))
    && (forall id :: 0 <= id < |source| ==> id in sorted)
  }

  predicate FoldStartsMatch(starts: Text, source: seq<Text>) {
    Ascending(starts) && forall id :: 0 <= id < |source| ==> Covers(source[id], starts)
  }

  /** Every key opens with the same `length` characters. */
  predicate CommonMatches(length: nat, sorted: seq<nat>, source: seq<Text>)
    requires source != [] && IdsOf(sorted, source)
  {
    length <= |source[sorted[0]]| && forall id :: 0 <= id < |source| ==> source[sorted[0]][..length] <= source[id]
  }

  predicate AllDistinct(source: seq<Text>) {
    forall i, j :: 0 <= i < j < |source| ==> source[i] != source[j]
  }

  predicate WithinLength(source: seq<Text>, length: nat) {
    forall id :: 0 <= id < |source| ==> |source[id]| <= length
  }

  /** Appending a key to the shared text leaves the earlier views alone. */
  lemma {:induction false} AppendKey(text: Text, keys: seq<KeyEntry>, source: seq<Text>, key: Text)
    requires KeysMatch(text, keys, source)
    ensures KeysMatch(text + key, keys + [KeyEntry(|text|, |key|, CaseRule(key))], source + [key])
  {
    hide CaseRule;
    var all, entries := text + key, keys + [KeyEntry(|text|, |key|, CaseRule(key))];
    forall id | 0 <= id < |entries| ensures Holds(all, entries[id], (source + [key])[id]) {
      if id < |keys| {
        var entry := keys[id];
        assert Holds(text, entry, source[id]);
        assert all[entry.offset..entry.offset + entry.length] == text[entry.offset..entry.offset + entry.length];
      } else {
        assert all[|text|..|text| + |key|] == key;
      }
    }
  }

  /** Every id is reached through the sorted order. */
  lemma {:induction false} PlaceOf(sorted: seq<nat>, source: seq<Text>, id: nat) returns (i: nat)
    requires SortMatches(sorted, source) && id < |source|
    ensures i < |sorted| && sorted[i] == id
  {
    assert id in sorted;
    i :| 0 <= i < |sorted| && sorted[i] == id;
  }

  // ---------- Building ----------

  predicate SortedSoFar(done: seq<nat>, source: seq<Text>, n: nat)
  {
    && |done| == n <= |source|
    && (forall i :: 0 <= i < n ==> done[i] < n)
    && (forall i, j :: 0 <= i < j < n ==> Less(source[done[i]], source[done[j]]))
    && (forall id :: 0 <= id < n ==> id in done)
  }

  lemma {:induction false} InsertedInOrder(done: seq<nat>, source: seq<Text>, n: nat, at: nat)
    requires SortedSoFar(done, source, n) && n < |source| && at <= n && AllDistinct(source)
    requires forall i :: 0 <= i < at ==> Less(source[done[i]], source[n])
    requires at < n ==> !Less(source[done[at]], source[n])
    ensures SortedSoFar(done[..at] + [n] + done[at..], source, n + 1)
  {
    var r := done[..at] + [n] + done[at..];
    forall i | at <= i < n ensures Less(source[n], source[done[i]]) {
      LessTotal(source[done[at]], source[n]);
      if i > at { LessTransitive(source[n], source[done[at]], source[done[i]]); }
    }
    hide Less;
    forall id | 0 <= id <= n ensures id in r {
      if id < n {
        assert id in done;
        var i :| 0 <= i < n && done[i] == id;
        assert r[if i < at then i else i + 1] == id;
      } else {
        assert r[at] == n;
      }
    }
  }

  /** What the fold-start walk has collected after the first `n` sorted keys. */
  predicate Collected(starts: Text, sorted: seq<nat>, source: seq<Text>, n: nat)
    requires IdsOf(sorted, source) && n <= |sorted|
  {
    && Ascending(starts)
    && (starts != [] ==>
          n > 0 && source[sorted[n - 1]] != [] && starts[|starts| - 1] <= source[sorted[n - 1]][0])
    && (forall i :: 0 <= i < n ==> Covers(source[sorted[i]], starts))
  }

  function CollectOne(starts: Text, key: Text): Text {
    if CaseRule(key) == Strict || key == [] then starts
    else if starts == [] || starts[|starts| - 1] != key[0] then starts + [key[0]]
    else starts
  }

  lemma {:induction false} CollectedStep(starts: Text, sorted: seq<nat>, source: seq<Text>, n: nat)
    requires SortMatches(sorted, source) && n < |sorted| && Collected(starts, sorted, source, n)
    ensures Collected(CollectOne(starts, source[sorted[n]]), sorted, source, n + 1)
  {
    hide CaseRule;
    var key := source[sorted[n]];
    if n > 0 { assert Less(source[sorted[n - 1]], key); }
    if CaseRule(key) != Strict && key != [] && (starts == [] || starts[|starts| - 1] != key[0]) {
      CoversMore(Sorted(source, sorted[..n]), starts, key[0]);
      forall i | 0 <= i < n ensures Covers(source[sorted[i]], starts + [key[0]]) {
        assert Covers(Sorted(source, sorted[..n])[i], starts + [key[0]]);
      }
    }
  }

  lemma {:induction false} CollectedAll(starts: Text, sorted: seq<nat>, source: seq<Text>)
    requires SortMatches(sorted, source) && Collected(starts, sorted, source, |sorted|)
    ensures FoldStartsMatch(starts, source)
  {
    hide Covers, CaseRule, Less;
    forall id | 0 <= id < |source| ensures Covers(source[id], starts) {
      var i := PlaceOf(sorted, source, id);
    }
  }

  /** What the first and the last sorted key share, every key between shares. */
  lemma {:induction false} EndsShare(length: nat, sorted: seq<nat>, source: seq<Text>)
    requires SortMatches(sorted, source) && source != []
    requires length <= |source[sorted[0]]| && length <= |source[sorted[|sorted| - 1]]|
    requires source[sorted[0]][..length] == source[sorted[|sorted| - 1]][..length]
    ensures CommonMatches(length, sorted, source)
  {
    hide Less;
    var low, high := source[sorted[0]], source[sorted[|sorted| - 1]];
    forall id | 0 <= id < |source| ensures low[..length] <= source[id] {
      var i := PlaceOf(sorted, source, id);
      BetweenShares(low, source[id], high, length);
    }
  }

  // ---------- Searching ----------

  /** The query splits the sorted keys in three stretches: before, among and after its matches. */
  lemma {:induction false} SidesAscend(sorted: seq<nat>, source: seq<Text>, i: nat, j: nat, query: Text)
    requires SortMatches(sorted, source) && i <= j < |sorted|
    ensures Side(source[sorted[i]], query) <= Side(source[sorted[j]], query)
  {
    SideMonotone(source[sorted[i]], source[sorted[j]], query);
  }

  /** Everything before `at` fails the query; nothing from `at` on comes before its matches. */
  predicate Bound(at: nat, sorted: seq<nat>, source: seq<Text>, query: Text)
    requires IdsOf(sorted, source)
  {
    && at <= |sorted|
    && (forall i :: 0 <= i < at ==> Side(source[sorted[i]], query) != 0)
    && (forall i :: at <= i < |sorted| ==> Side(source[sorted[i]], query) >= 0)
  }

  /** A query that disagrees with the characters every key opens with matches no key. */
  lemma {:induction false} CommonCut(common: nat, length: nat, sorted: seq<nat>, source: seq<Text>, query: Text)
    requires IdsOf(sorted, source) && source != [] && CommonMatches(common, sorted, source)
    requires length <= common && length <= |query|
    requires Side(source[sorted[0]][..length], query[..length]) != 0
    ensures Bound(|sorted|, sorted, source, query)
  {
    var front := source[sorted[0]];
    SideZero(front[..length], query[..length]);
    assert front[..common][..length] == front[..length];
    forall i | 0 <= i < |sorted| ensures Side(source[sorted[i]], query) != 0 {
      var key := source[sorted[i]];
      SideZero(key, query);
      if query <= key { PrefixesAgree(front[..common], key, query, length); }
    }
  }

  /** Some key with this upper-case answer starts with the query. */
  ghost predicate Hit(source: seq<Text>, query: Text, upper: bool, loc: Locale) {
    exists id :: 0 <= id < |source| && Matches(source[id], query, upper, loc)
  }

  /** Nothing among the sorted keys before `n` matches with this upper-case answer. */
  ghost predicate NoneBefore(n: nat, sorted: seq<nat>, source: seq<Text>, query: Text, upper: bool, loc: Locale)
    requires IdsOf(sorted, source) && n <= |sorted|
  {
    forall i :: 0 <= i < n ==> !Matches(source[sorted[i]], query, upper, loc)
  }

  lemma {:induction false} NoneBeforeBound(
      at: nat, sorted: seq<nat>, source: seq<Text>, query: Text, upper: bool, loc: Locale)
    requires IdsOf(sorted, source) && Bound(at, sorted, source, query)
    ensures NoneBefore(at, sorted, source, query, upper, loc)
  {
    forall i | 0 <= i < at ensures !Matches(source[sorted[i]], query, upper, loc) {
      SideZero(source[sorted[i]], query);
    }
  }

  /** Once a key past the bound fails the query, every later key does. */
  lemma {:induction false} NoHitAfter(
      at: nat, first: nat, sorted: seq<nat>, source: seq<Text>, query: Text, upper: bool, loc: Locale)
    requires SortMatches(sorted, source) && Bound(first, sorted, source, query) && first <= at <= |sorted|
    requires NoneBefore(at, sorted, source, query, upper, loc)
    requires at < |sorted| ==> Side(source[sorted[at]], query) != 0
    ensures !Hit(source, query, upper, loc)
  {
    hide AnyUpper;
    forall id | 0 <= id < |source| ensures !Matches(source[id], query, upper, loc) {
      var i := PlaceOf(sorted, source, id);
      if at <= i {
        SidesAscend(sorted, source, at, i, query);
        SideZero(source[id], query);
      }
    }
  }

  /** What a walk over the matches knows when it stands at `at`. */
  ghost predicate Walked(
      at: nat, sorted: seq<nat>, source: seq<Text>, query: Text, wanted: bool, other: bool, loc: Locale)
    requires IdsOf(sorted, source)
  {
    && at <= |sorted| && NoneBefore(at, sorted, source, query, wanted, loc)
    && (if other then Hit(source, query, !wanted, loc) else NoneBefore(at, sorted, source, query, !wanted, loc))
  }

  lemma {:induction false} WalkStarts(
      at: nat, sorted: seq<nat>, source: seq<Text>, query: Text, wanted: bool, loc: Locale)
    requires IdsOf(sorted, source) && Bound(at, sorted, source, query)
    ensures Walked(at, sorted, source, query, wanted, false, loc)
  {
    NoneBeforeBound(at, sorted, source, query, wanted, loc);
    NoneBeforeBound(at, sorted, source, query, !wanted, loc);
  }

  lemma {:induction false} WalkStep(
      at: nat, sorted: seq<nat>, source: seq<Text>, query: Text, wanted: bool, other: bool, upper: bool, loc: Locale)
    requires IdsOf(sorted, source) && at < |sorted| && Walked(at, sorted, source, query, wanted, other, loc)
    requires query <= source[sorted[at]] && upper == AnyUpper(source[sorted[at]], loc)
    ensures if upper == wanted then Hit(source, query, wanted, loc)
            else Walked(at + 1, sorted, source, query, wanted, true, loc)
  {
    hide AnyUpper;
    MatchIs(source[sorted[at]], query, upper, loc);
    hide Matches;
  }

  lemma {:induction false} WalkEnds(
      at: nat, first: nat, sorted: seq<nat>, source: seq<Text>, query: Text, wanted: bool, other: bool, loc: Locale)
    requires SortMatches(sorted, source) && Bound(first, sorted, source, query) && first <= at
    requires Walked(at, sorted, source, query, wanted, other, loc)
    requires at < |sorted| ==> Side(source[sorted[at]], query) != 0
    ensures !Hit(source, query, wanted, loc) && other == Hit(source, query, !wanted, loc)
  {
    NoHitAfter(at, first, sorted, source, query, wanted, loc);
    if !other { NoHitAfter(at, first, sorted, source, query, !wanted, loc); }
    hide *;
  }

  /** The scan's answer is one exact-case lookup and one folded lookup. */
  lemma {:induction false} HitsAreTheScan(source: seq<Text>, candidate: Text, loc: Locale)
    requires loc.Valid() && candidate != []
    ensures IsMacroPrefix(candidate, source, loc) <==>
            Hit(source, candidate, true, loc) || Hit(source, FoldAll(candidate, loc), false, loc)
  {
    FoldIsLower(candidate, loc);
    hide AnyUpper, FoldAll, LowerAll;
    if IsMacroPrefix(candidate, source, loc) {
      var key :| key in source && KeyMatches(key, candidate, loc);
      var id :| 0 <= id < |source| && source[id] == key;
      assert Matches(source[id], if AnyUpper(key, loc) then candidate else FoldAll(candidate, loc), AnyUpper(key, loc),
        loc);
    }
    if Hit(source, candidate, true, loc) {
      var id :| 0 <= id < |source| && Matches(source[id], candidate, true, loc);
      assert source[id] in source && KeyMatches(source[id], candidate, loc);
    }
    if Hit(source, FoldAll(candidate, loc), false, loc) {
      var id :| 0 <= id < |source| && Matches(source[id], FoldAll(candidate, loc), false, loc);
      assert source[id] in source && KeyMatches(source[id], candidate, loc);
    }
  }

  /** Without its first character among the fold starts, the folded query matches no flexible key. */
  lemma {:induction false} NoFoldStart(starts: Text, source: seq<Text>, candidate: Text, loc: Locale)
    requires loc.Valid() && candidate != [] && FoldStartsMatch(starts, source) && Fold(candidate[0], loc) !in starts
    ensures !Hit(source, FoldAll(candidate, loc), false, loc)
  {
    var query := FoldAll(candidate, loc);
    forall id | 0 <= id < |source| ensures !Matches(source[id], query, false, loc) {
      assert Covers(source[id], starts);
      assert query[0] == Fold(candidate[0], loc);
    }
  }

  lemma {:induction false} OnlyFirst(source: seq<Text>, candidate: Text, loc: Locale)
    requires source != [] && candidate != []
    requires |source| == 1 || forall id :: 0 <= id < |source| ==> |source[id]| < |candidate|
    ensures IsMacroPrefix(candidate, source, loc) == KeyMatches(source[0], candidate, loc)
  {
    assert source[0] in source;
    hide AnyUpper;
  }

  class MacroPrefixIndex {
    var text: Text
    var keys: seq<KeyEntry>
    var sorted: seq<nat>
    var foldStarts: Text
    var maxLength: nat
    var commonLength: nat
    var firstKey: Text
    var firstCase: KeyCase
    var hasData: bool

    /** The key set in the order it was walked. */
    ghost var source: seq<Text>

    ghost predicate Valid()
      reads this
    {
      if !hasData then source == []
      else
        && source != [] && KeysMatch(text, keys, source)
        && SortMatches(sorted, source) && FoldStartsMatch(foldStarts, source)
        && WithinLength(source, maxLength) && CommonMatches(commonLength, sorted, source)
        && firstKey == source[0] && firstCase == CaseRule(firstKey)
    }

    /** The default index: no keys. */
    constructor Empty()
      ensures Valid() && source == []
    {
      text, keys, sorted, foldStarts, maxLength, commonLength := [], [], [], [], 0, 0;
      firstKey, firstCase, hasData, source := [], Flexible, false, [];
    }

    /** Builds the index from the key set, walked in any order. */
    constructor (keySet: seq<Text>)
      requires AllDistinct(keySet)
      ensures Valid() && source == keySet
    {
      text, keys, sorted, foldStarts, maxLength, commonLength := [], [], [], [], 0, 0;
      firstKey, firstCase, hasData, source := [], Flexible, false, [];
      new;
      if |keySet| == 0 { return; }
      AddAll(keySet);
      SortIds();
      FindCommonLength();
      CollectFoldStarts();
      hasData := true;
      hide *;
    }

    method AddAll(keySet: seq<Text>)
      requires keySet != [] && source == [] && text == [] && keys == [] && sorted == [] && maxLength == 0
      modifies `text, `keys, `sorted, `maxLength, `firstKey, `firstCase, `source
      ensures source == keySet && KeysMatch(text, keys, source) && WithinLength(source, maxLength)
      ensures |sorted| == |keys| && firstKey == source[0] && firstCase == CaseRule(firstKey)
      ensures forall id :: 0 <= id < |sorted| ==> sorted[id] == id
    {
      for i := 0 to |keySet|
        invariant source == keySet[..i] && KeysMatch(text, keys, source) && WithinLength(source, maxLength)
        invariant |sorted| == |keys| == i && forall id :: 0 <= id < i ==> sorted[id] == id
        invariant i > 0 ==> firstKey == keySet[0] && firstCase == CaseRule(firstKey)
      {
        hide CaseRule, Holds;
        var key := keySet[i];
        var rule := ClassifyKey(key);
        if |keys| == 0 { firstKey, firstCase := key, rule; }
        AppendKey(text, keys, source, key);
        sorted := sorted + [|keys|];
        keys := keys + [KeyEntry(|text|, |key|, rule)];
        text := text + key;
        if |key| > maxLength { maxLength := |key|; }
        source := source + [key];
        assert keySet[..i + 1] == keySet[..i] + [key];
      }
      assert keySet[..|keySet|] == keySet;
    }

    /** `std::sort` of the ids by the text of their keys. */
    method SortIds()
      requires KeysMatch(text, keys, source) && AllDistinct(source)
      requires |sorted| == |keys| && forall id :: 0 <= id < |sorted| ==> sorted[id] == id
      modifies `sorted
      ensures SortMatches(sorted, source)
    {
      var done: seq<nat> := [];
      for n := 0 to |sorted|
        invariant sorted == old(sorted) && SortedSoFar(done, source, n)
      {
        hide Less, CaseRule, Holds;
        var at := PlaceFor(done, n);
        InsertedInOrder(done, source, n, at);
        done := done[..at] + [sorted[n]] + done[at..];
      }
      sorted := done;
    }

    /** How many of the ids sorted so far go before the n-th key. */
    method PlaceFor(done: seq<nat>, n: nat) returns (at: nat)
      requires KeysMatch(text, keys, source) && SortedSoFar(done, source, n) && n < |source|
      ensures at <= n && forall i :: 0 <= i < at ==> Less(source[done[i]], source[n])
      ensures at < n ==> !Less(source[done[at]], source[n])
    {
      hide Less, CaseRule;
      assert Holds(text, keys[n], source[n]);
      at := 0;
      while at < n
        invariant 0 <= at <= n && forall i :: 0 <= i < at ==> Less(source[done[i]], source[n])
      {
        assert Holds(text, keys[done[at]], source[done[at]]);
        if !Less(View(text, keys[done[at]]), View(text, keys[n])) { return; }
        at := at + 1;
      }
    }

    /** The characters shared by the first and the last key. */
    method FindCommonLength()
      requires KeysMatch(text, keys, source) && SortMatches(sorted, source) && source != [] && commonLength == 0
      modifies `commonLength
      ensures CommonMatches(commonLength, sorted, source)
    {
      assert Holds(text, keys[sorted[0]], source[sorted[0]]);
      assert Holds(text, keys[sorted[|sorted| - 1]], source[sorted[|sorted| - 1]]);
      hide CaseRule, Less;
      var low, high := View(text, keys[sorted[0]]), View(text, keys[sorted[|sorted| - 1]]);
      while commonLength < |low| && commonLength < |high| && low[commonLength] == high[commonLength]
        invariant commonLength <= |low| && commonLength <= |high| && low[..commonLength] == high[..commonLength]
      {
        assert low[..commonLength + 1] == low[..commonLength] + [low[commonLength]];
        assert high[..commonLength + 1] == high[..commonLength] + [high[commonLength]];
        commonLength := commonLength + 1;
      }
      EndsShare(commonLength, sorted, source);
    }

    /** The first characters of the keys that may ignore case, each once, in order. */
    method CollectFoldStarts()
      requires KeysMatch(text, keys, source) && SortMatches(sorted, source) && foldStarts == []
      modifies `foldStarts
      ensures FoldStartsMatch(foldStarts, source)
    {
      for n := 0 to |sorted|
        invariant Collected(foldStarts, sorted, source, n)
      {
        hide CaseRule, Less, Collected;
        var id := sorted[n];
        assert Holds(text, keys[id], source[id]);
        var key := View(text, keys[id]);
        CollectedStep(foldStarts, sorted, source, n);
        if keys[id].caseRule == Strict || key == [] { continue; }
        if foldStarts == [] || foldStarts[|foldStarts| - 1] != key[0] {
          foldStarts := foldStarts + [key[0]];
        }
      }
      CollectedAll(foldStarts, sorted, source);
    }

    /** `std::lower_bound` under the prefix comparison. */
    method LowerBound(query: Text, folded: bool, loc: Locale) returns (at: nat)
      requires KeysMatch(text, keys, source) && SortMatches(sorted, source)
      ensures Bound(at, sorted, source, QueryText(query, folded, loc))
    {
      ghost var q := QueryText(query, folded, loc);
      hide Less, CaseRule, Side, QueryText;
      at := 0;
      var length := |sorted|;
      while length > 0
        invariant 0 <= length && at + length <= |sorted|
        invariant forall i :: 0 <= i < at ==> Side(source[sorted[i]], q) < 0
        invariant forall i :: at + length <= i < |sorted| ==> Side(source[sorted[i]], q) >= 0
      {
        var half := length / 2;
        var mid := at + half;
        assert Holds(text, keys[sorted[mid]], source[sorted[mid]]);
        var order := ComparePrefix(View(text, keys[sorted[mid]]), query, folded, loc);
        forall i | 0 <= i < |sorted|
          ensures i <= mid ==> Side(source[sorted[i]], q) <= order
          ensures mid <= i ==> order <= Side(source[sorted[i]], q)
        {
          if i <= mid { SidesAscend(sorted, source, i, mid, q); }
          if mid <= i { SidesAscend(sorted, source, mid, i, q); }
        }
        if order < 0 {
          at, length := mid + 1, length - half - 1;
        } else {
          length := half;
        }
      }
    }

    /** The `find` of both lookups. */
    method Find(query: Text, folded: bool, loc: Locale) returns (at: nat)
      requires KeysMatch(text, keys, source) && SortMatches(sorted, source)
      requires source != [] && CommonMatches(commonLength, sorted, source)
      ensures Bound(at, sorted, source, QueryText(query, folded, loc))
    {
      var length := Min(commonLength, |query|);
      if length > 0 {
        assert Holds(text, keys[sorted[0]], source[sorted[0]]);
        var order := ComparePrefix(View(text, keys[sorted[0]])[..length], query[..length], folded, loc);
        assert QueryText(query[..length], folded, loc) == QueryText(query, folded, loc)[..length];
        if order != 0 {
          CommonCut(commonLength, length, sorted, source, QueryText(query, folded, loc));
          return |sorted|;
        }
      }
      at := LowerBound(query, folded, loc);
    }

    /** How the sorted key at a place stands to the query and, if it matches, whether it has capitals. */
    method CheckAt(at: nat, query: Text, folded: bool, loc: Locale) returns (order: int, upper: bool)
      requires hasData && Valid() && loc.Valid() && at < |sorted|
      ensures sorted[at] < |source| && order == Side(source[sorted[at]], QueryText(query, folded, loc))
      ensures order == 0 ==> QueryText(query, folded, loc) <= source[sorted[at]]
      ensures order == 0 ==> upper == AnyUpper(source[sorted[at]], loc)
    {
      hide Less, CaseRule, Side, AnyUpper, CommonMatches, FoldStartsMatch, QueryText;
      var id := sorted[at];
      assert Holds(text, keys[id], source[id]);
      order := ComparePrefix(View(text, keys[id]), query, folded, loc);
      upper := false;
      SideZero(source[id], QueryText(query, folded, loc));
      if order == 0 { upper := HasUpper(View(text, keys[id]), keys[id].caseRule, loc); }
    }

    /** Walks the matches of a query and stops at the first key with the wanted upper-case answer. */
    method WalkMatches(query: Text, folded: bool, wanted: bool, loc: Locale) returns (hit: bool, other: bool)
      requires hasData && Valid() && loc.Valid()
      ensures hit == Hit(source, QueryText(query, folded, loc), wanted, loc)
      ensures !hit ==> other == Hit(source, QueryText(query, folded, loc), !wanted, loc)
    {
      ghost var q := QueryText(query, folded, loc);
      var at := Find(query, folded, loc);
      assert SortMatches(sorted, source) && IdsOf(sorted, source) && at <= |sorted|;
      hide *;
      WalkStarts(at, sorted, source, q, wanted, loc);
      ghost var first := at;
      hit, other := false, false;
      while at < |sorted|
        invariant first <= at <= |sorted|
        invariant Walked(at, sorted, source, q, wanted, other, loc)
      {
        var order, upper := CheckAt(at, query, folded, loc);
        if order != 0 { break; }
        WalkStep(at, sorted, source, q, wanted, other, upper, loc);
        if upper == wanted { return true, other; }
        other := true;
        at := at + 1;
      }
      WalkEnds(at, first, sorted, source, q, wanted, other, loc);
    }

    /** `std::binary_search` over the fold starts. */
    method IsFoldStart(c: int) returns (r: bool)
      requires Ascending(foldStarts)
      ensures r == (c in foldStarts)
    {
      var low, high := 0, |foldStarts|;
      while low < high
        invariant 0 <= low <= high <= |foldStarts|
        invariant forall i :: 0 <= i < low ==> foldStarts[i] < c
        invariant forall i :: high <= i < |foldStarts| ==> foldStarts[i] >= c
      {
        var mid := (low + high) / 2;
        if foldStarts[mid] < c { low := mid + 1; } else { high := mid; }
      }
      r := low < |foldStarts| && foldStarts[low] == c;
    }

    method FoldIntoScratch(candidate: Text, first: int, loc: Locale) returns (folded: Text)
      requires 0 < |candidate| <= INLINE_FOLD_CHARS && first == Fold(candidate[0], loc)
      ensures folded == FoldAll(candidate, loc)
    {
      var scratch := new int[INLINE_FOLD_CHARS];
      scratch[0] := first;
      for i := 1 to |candidate|
        invariant forall k :: 0 <= k < i ==> scratch[k] == Fold(candidate[k], loc)
      {
        scratch[i] := Fold(candidate[i], loc);
      }
      folded := scratch[..|candidate|];
    }

    method ContainsOtherPrefixes(candidate: Text, loc: Locale) returns (r: bool)
      requires hasData && Valid() && loc.Valid() && candidate != []
      ensures r == IsMacroPrefix(candidate, source, loc)
    {
      HitsAreTheScan(source, candidate, loc);
      hide CaseRule, Hit, IsMacroPrefix, FoldAll, KeysMatch, SortMatches, CommonMatches, Fold;
      var strict, rawFlexible := WalkMatches(candidate, false, true, loc);
      if strict { return true; }
      var first := Fold(candidate[0], loc);
      if foldStarts == [] {
        NoFoldStart(foldStarts, source, candidate, loc);
        return false;
      }
      var starts := IsFoldStart(first);
      if !starts {
        NoFoldStart(foldStarts, source, candidate, loc);
        return false;
      }
      var normalized := |candidate| <= INLINE_FOLD_CHARS;
      var folded := candidate;
      if normalized {
        folded := FoldIntoScratch(candidate, first, loc);
        if rawFlexible && folded == candidate { return true; }
      }
      var other;
      r, other := WalkMatches(folded, !normalized, false, loc);
    }

    /** The check of the first key, made before any index metadata is read. */
    method IsFirstKeyPrefix(candidate: Text, loc: Locale) returns (r: bool)
      requires hasData && Valid() && loc.Valid() && candidate != []
      ensures r == KeyMatches(source[0], candidate, loc)
    {
      FoldIsLower(candidate, loc);
      hide AnyUpper, CaseRule, LowerAll, FoldAll, Side, KeysMatch, CommonMatches, SortMatches, FoldStartsMatch;
      if |firstKey| < |candidate| { return false; }
      var upper := HasUpper(firstKey, firstCase, loc);
      var order := ComparePrefix(firstKey, candidate, !upper, loc);
      SideZero(firstKey, QueryText(candidate, !upper, loc));
      r := order == 0;
    }

    /** The index answers exactly what the scan over its keys answers. */
    method ContainsPrefix(candidate: Text, loc: Locale) returns (r: bool)
      requires Valid() && loc.Valid()
      ensures r == IsMacroPrefix(candidate, source, loc)
    {
      if !hasData || candidate == [] { return false; }
      hide CaseRule, CommonMatches, SortMatches, FoldStartsMatch, Holds, KeyMatches;
      assert source[0] in source;
      var first := IsFirstKeyPrefix(candidate, loc);
      if first { return true; }
      if |keys| == 1 || |candidate| > maxLength {
        OnlyFirst(source, candidate, loc);
        return false;
      }
      r := ContainsOtherPrefixes(candidate, loc);
    }
  }
}
