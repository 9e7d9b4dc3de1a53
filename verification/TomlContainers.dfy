/** The container operations of the TOML tree: `flatten`, which splices nested
    arrays into their parent in place, and `prune`, which removes empty containers. */
module TomlContainers {
  import opened Sequences

  datatype Node =
    | Value(v: int)
    | Table(entries: seq<Entry>)
    | Array(elems: seq<Node>)

  datatype Entry = Entry(key: string, node: Node)

  /** Reading and replacing the element between `a` and `b`. */
  lemma {:induction false} Surgery<T>(s: seq<T>, a: seq<T>, x: T, b: seq<T>)
    requires s == a + [x] + b
    ensures s[|a|] == x
    ensures forall y :: s[|a| := y] == a + [y] + b
  {
  }

  lemma {:induction false} Erasure<T>(s: seq<T>, a: seq<T>, x: T, b: seq<T>)
    requires s == a + [x] + b
    ensures s[..|a|] + s[|a| + 1..] == a + b
  {
  }

  // ---------- Leaves of an array, left to right ----------

  /** What a flattened array must hold: everything that is not an array, in document order. */
  function Leaves(ns: seq<Node>): seq<Node> {
    if ns == [] then [] else LeavesOf(ns[0]) + Leaves(ns[1..])
  }

  function LeavesOf(n: Node): seq<Node> {
    match n
    case Array(elems) => Leaves(elems)
    case _ => [n]
  }

  lemma {:induction false} LeavesConcat(a: seq<Node>, b: seq<Node>)
    ensures Leaves(a + b) == Leaves(a) + Leaves(b)
  {
    if a == [] {
      assert a + b == b;
    } else {
      assert (a + b)[1..] == a[1..] + b;
      LeavesConcat(a[1..], b);
    }
  }

  lemma {:induction false} LeavesSnoc(a: seq<Node>, n: Node)
    ensures Leaves(a + [n]) == Leaves(a) + LeavesOf(n)
  {
    LeavesConcat(a, [n]);
    assert Leaves([n]) == LeavesOf(n) + Leaves([]);
  }

  lemma {:induction false} LeavesPrefix(ns: seq<Node>, i: nat)
    requires i < |ns|
    ensures Leaves(ns[..i + 1]) == Leaves(ns[..i]) + LeavesOf(ns[i])
    ensures |Leaves(ns[..i + 1])| <= |Leaves(ns)|
  {
    LeavesSnoc(ns[..i], ns[i]);
    assert ns[..i + 1] == ns[..i] + [ns[i]];
    LeavesConcat(ns[..i + 1], ns[i + 1..]);
    assert ns == ns[..i + 1] + ns[i + 1..];
  }

  /** No array survives flattening. */
  lemma {:induction false} LeavesAreFlat(ns: seq<Node>)
    ensures forall k :: 0 <= k < |Leaves(ns)| ==> !Leaves(ns)[k].Array?
  {
    if ns != [] {
      LeavesAreFlat(ns[1..]);
      if ns[0].Array? {
        LeavesAreFlat(ns[0].elems);
        assert LeavesOf(ns[0]) == Leaves(ns[0].elems);
      }
      forall k | 0 <= k < |Leaves(ns)| ensures !Leaves(ns)[k].Array? {
        var h := LeavesOf(ns[0]);
        assert Leaves(ns) == h + Leaves(ns[1..]);
        if k < |h| {
          assert !h[k].Array?;
        } else {
          assert !Leaves(ns[1..])[k - |h|].Array?;
        }
      }
    }
  }

  lemma {:induction false} LeavesOfFlat(ns: seq<Node>)
    requires forall k :: 0 <= k < |ns| ==> !ns[k].Array?
    ensures Leaves(ns) == ns
  {
    if ns != [] {
      LeavesOfFlat(ns[1..]);
      assert ns == [ns[0]] + ns[1..];
    }
  }

  lemma {:induction false} LeavesOne(n: Node)
    ensures n.Array? ==> LeavesOf(n) == Leaves(n.elems)
    ensures !n.Array? ==> LeavesOf(n) == [n]
  {
  }

  lemma {:induction false} LeavesInFront(n: Node, ns: seq<Node>)
    ensures Leaves([n] + ns) == LeavesOf(n) + Leaves(ns)
  {
    assert ([n] + ns)[1..] == ns;
  }

  method TotalLeafCount(elems: seq<Node>) returns (leaves: nat)
    ensures leaves == |Leaves(elems)|
  {
    leaves := 0;
    for i := 0 to |elems|
      invariant leaves == |Leaves(elems[..i])|
    {
      LeavesPrefix(elems, i);
      if elems[i].Array? {
        var inner := TotalLeafCount(elems[i].elems);
        leaves := leaves + inner;
      } else {
        leaves := leaves + 1;
      }
    }
    assert elems[..|elems|] == elems;
  }

  // ---------- Flattening in place ----------

  /** One owning pointer of the element vector; moving out of it leaves `Null`. */
  datatype Slot = Null | Owns(node: Node)

  function Wrap(ns: seq<Node>): (s: seq<Slot>)
    ensures |s| == |ns|
    ensures forall k :: 0 <= k < |ns| ==> s[k] == Owns(ns[k])
  {
    seq(|ns|, k requires 0 <= k < |ns| => Owns(ns[k]))
  }

  function Nulls(n: nat): (s: seq<Slot>)
    ensures |s| == n && forall k :: 0 <= k < n ==> s[k] == Null
  {
    seq(n, _ => Null)
  }

  class NodeVector {
    var elems: seq<Slot>
    var capacity: nat

    constructor (ns: seq<Node>)
      ensures elems == Wrap(ns)
    {
      elems, capacity := Wrap(ns), |ns|;
    }

    method Reserve(n: nat)
      modifies this`capacity
      ensures capacity == if n > old(capacity) then n else old(capacity)
    {
      if n > capacity { capacity := n; }
    }

    /** Opens a gap of `count` empty slots at `idx`. */
    method PreinsertionResize(idx: nat, count: nat)
      requires idx <= |elems| && count >= 1
      modifies this
      ensures elems == old(elems)[..idx] + Nulls(count) + old(elems)[idx..]
      ensures capacity == if old(|elems|) + count > old(capacity) then old(|elems|) + count else old(capacity)
    {
      var oldSize := |elems|;
      var newSize := oldSize + count;
      var insertingAtEnd := idx == oldSize;
      Reserve(newSize);
      elems := elems + Nulls(count);
      if !insertingAtEnd {
        var left, right := oldSize, newSize - 1;
        assert old(elems)[oldSize..] == [];
        while left > idx
          invariant idx <= left <= oldSize && right == left + count - 1
          invariant elems == old(elems)[..left] + Nulls(count) + old(elems)[left..]
          invariant capacity == if newSize > old(capacity) then newSize else old(capacity)
        {
          left := left - 1;
          GapShift(elems, old(elems), left, count);
          elems := elems[right := elems[left]][left := Null];
          right := right - 1;
        }
      }
    }

    /** Moves every leaf of `child` into consecutive slots from `dest` on. */
    method FlattenChild(child: seq<Node>, dest: nat) returns (next: nat)
      requires dest + |Leaves(child)| <= |elems|
      modifies this`elems
      ensures next == dest + |Leaves(child)|
      ensures elems == Overwrite(old(elems), dest, Leaves(child))
      decreases child, 1
    {
      next := dest;
      OverwriteNothing(elems, dest);
      assert child[..0] == [];
      hide *;
      for i := 0 to |child|
        invariant next == dest + |Leaves(child[..i])|
        invariant |Leaves(child[..i])| <= |Leaves(child)|
        invariant |elems| == old(|elems|) && elems == Overwrite(old(elems), dest, Leaves(child[..i]))
      {
        LeavesPrefix(child, i);
        OverwriteTwice(old(elems), dest, Leaves(child[..i]), LeavesOf(child[i]));
        next := MoveChild(child[i], next);
      }
      assert child[..|child|] == child;
    }

    method MoveChild(n: Node, dest: nat) returns (next: nat)
      requires dest + |LeavesOf(n)| <= |elems|
      modifies this`elems
      ensures next == dest + |LeavesOf(n)|
      ensures elems == Overwrite(old(elems), dest, LeavesOf(n))
      decreases n, 0
    {
      next := dest;
      if n.Array? {
        if n.elems != [] { next := FlattenChild(n.elems, next); }
      } else {
        elems := elems[next := Owns(n)];
        next := next + 1;
      }
    }

    /** The first pass of `Flatten`: erases arrays without leaves, back to front, and
        computes the size the vector will have after splicing the others. */
    method DropLeaflessArrays(ghost original: seq<Node>)
      returns (requiresFlattening: bool, sizeAfterFlattening: nat, ghost kept: seq<Node>)
      requires elems == Wrap(original)
      modifies this`elems
      ensures elems == Wrap(kept) && Leaves(kept) == Leaves(original)
      ensures sizeAfterFlattening == |Leaves(original)|
      ensures forall k :: 0 <= k < |kept| ==> LeavesOf(kept[k]) != []
      ensures |kept| <= |original| && (!requiresFlattening ==> kept == Leaves(original))
    {
      requiresFlattening, sizeAfterFlattening, kept := false, |elems|, [];
      var i := |elems|;
      assert original[i..] == [] && original[..i] + kept == original;
      while i > 0
        invariant 0 <= i <= |original| && elems == Wrap(original[..i] + kept)
        invariant sizeAfterFlattening == i + |Leaves(kept)|
        invariant Dropping(original, i, kept, requiresFlattening)
      {
        hide *;
        i := i - 1;
        DropStep(original, i, kept);
        LeavesOne(original[i]);
        if elems[i].node.Array? {
          sizeAfterFlattening := sizeAfterFlattening - 1;
          var leafCount := TotalLeafCount(elems[i].node.elems);
          if leafCount > 0 {
            DroppingKeeps(original, i, kept, requiresFlattening);
            requiresFlattening := true;
            sizeAfterFlattening := sizeAfterFlattening + leafCount;
            kept := [original[i]] + kept;
          } else {
            DroppingErases(original, i, kept, requiresFlattening);
            elems := elems[..i] + elems[i + 1..];
          }
        } else {
          DroppingKeeps(original, i, kept, requiresFlattening);
          kept := [original[i]] + kept;
        }
      }
      assert original[0..] == original && original[..0] + kept == kept;
      if !requiresFlattening { LeavesOfFlat(kept); }
    }

    /** Replaces the slot at `i` by the leaves of the array it owns. */
    method SpliceOne(i: nat, ghost done: seq<Node>, ghost head: Node, ghost tail: seq<Node>) returns (next: nat)
      requires i == |done| && elems == Wrap(done + [head] + tail)
      requires head.Array? && LeavesOf(head) != [] && |elems| <= capacity
      modifies this
      ensures next == i + |LeavesOf(head)|
      ensures elems == Wrap(done + LeavesOf(head) + tail)
      ensures capacity == if |elems| > old(capacity) then |elems| else old(capacity)
    {
      assert elems[i] == Owns((done + [head] + tail)[i]);
      var arr := elems[i].node.elems;
      assert LeavesOf(head) == Leaves(arr);
      GapOpen(done, head, tail);
      hide Leaves, LeavesOf, Gap, Wrap, Overwrite;
      elems := elems[i := Null];
      var leafCount := TotalLeafCount(arr);
      if leafCount > 1 {
        GapWiden(done, leafCount - 1, tail);
        PreinsertionResize(i + 1, leafCount - 1);
      }
      // the slots about to be overwritten own nothing, so no node is destroyed
      GapIsEmpty(done, leafCount, tail);
      assert forall k :: i <= k < i + leafCount ==> elems[k] == Null;
      GapFill(done, Leaves(arr), tail);
      next := FlattenChild(arr, i);
    }

    /** Replaces every nested array by its leaves, in place. The second pass never grows
        the vector beyond the size computed by the first. */
    method Flatten(ghost original: seq<Node>)
      requires elems == Wrap(original) && |elems| <= capacity
      modifies this
      ensures elems == Wrap(Leaves(original))
      ensures capacity == if |elems| > old(capacity) then |elems| else old(capacity)
    {
      if |elems| == 0 { return; }
      var requiresFlattening, sizeAfterFlattening;
      ghost var rest;
      requiresFlattening, sizeAfterFlattening, rest := DropLeaflessArrays(original);
      if !requiresFlattening { return; }
      Reserve(sizeAfterFlattening);
      ghost var reserved := capacity;
      ghost var done: seq<Node> := [];
      assert done + rest == rest;
      var i := 0;
      while i < |elems|
        invariant i == |done| && elems == Wrap(done + rest)
        invariant done + Leaves(rest) == Leaves(original)
        invariant forall k :: 0 <= k < |rest| ==> LeavesOf(rest[k]) != []
        invariant capacity == reserved
        decreases |rest|
      {
        ghost var head, tail := rest[0], rest[1..];
        FlattenStep(done, rest);
        SplitHead(done, rest);
        if !elems[i].node.Array? {
          i := i + 1;
        } else {
          i := SpliceOne(i, done, head, tail);
        }
        done, rest := done + LeavesOf(head), tail;
      }
      assert done + rest == done;
    }
  }

  lemma {:induction false} FlattenStep(done: seq<Node>, rest: seq<Node>)
    requires rest != [] && forall k :: 0 <= k < |rest| ==> LeavesOf(rest[k]) != []
    ensures done + Leaves(rest) == done + LeavesOf(rest[0]) + Leaves(rest[1..])
    ensures |LeavesOf(rest[0])| + |rest[1..]| <= |Leaves(rest)|
  {
    LeavesAtLeast(rest[1..]);
  }

  lemma {:induction false} SplitAt<T>(a: seq<T>, s: seq<T>, i: nat)
    requires i < |s|
    ensures a + s[i..] == a + [s[i]] + s[i + 1..]
  {
  }

  lemma {:induction false} SplitHead<T>(a: seq<T>, s: seq<T>)
    requires s != []
    ensures a + s == a + [s[0]] + s[1..]
  {
  }

  lemma {:induction false} WrapAround(ns: seq<Node>, i: nat, tail: seq<Node>)
    requires i < |ns|
    ensures Wrap(ns[..i + 1] + tail) == Wrap(ns[..i]) + [Owns(ns[i])] + Wrap(tail)
  {
  }

  /** What the first pass knows of the elements from `i` on: the kept ones have all their leaves, each has one, and
      none is an array unless flattening is needed. */
  ghost predicate Dropping(ns: seq<Node>, i: nat, kept: seq<Node>, needed: bool)
    requires i <= |ns|
  {
    && |kept| <= |ns| - i && Leaves(kept) == Leaves(ns[i..])
    && (forall k :: 0 <= k < |kept| ==> LeavesOf(kept[k]) != [])
    && (!needed ==> forall k :: 0 <= k < |kept| ==> !kept[k].Array?)
  }

  lemma {:induction false} DroppingKeeps(ns: seq<Node>, i: nat, kept: seq<Node>, needed: bool)
    requires i < |ns| && Dropping(ns, i + 1, kept, needed) && LeavesOf(ns[i]) != []
    ensures Dropping(ns, i, [ns[i]] + kept, needed || ns[i].Array?)
    ensures |Leaves([ns[i]] + kept)| == |LeavesOf(ns[i])| + |Leaves(kept)|
  {
    LeavesInFront(ns[i], kept);
    LeavesInFront(ns[i], ns[i + 1..]);
    assert [ns[i]] + ns[i + 1..] == ns[i..];
    hide Leaves, LeavesOf;
  }

  lemma {:induction false} DroppingErases(ns: seq<Node>, i: nat, kept: seq<Node>, needed: bool)
    requires i < |ns| && Dropping(ns, i + 1, kept, needed) && LeavesOf(ns[i]) == []
    ensures Dropping(ns, i, kept, needed)
  {
    LeavesInFront(ns[i], ns[i + 1..]);
    assert [ns[i]] + ns[i + 1..] == ns[i..];
    hide Leaves, LeavesOf;
  }

  /** The vector before the i-th element is looked at, when it stays, and when it is erased. */
  lemma {:induction false} DropStep(ns: seq<Node>, i: nat, kept: seq<Node>)
    requires i < |ns|
    ensures var e := Wrap(ns[..i + 1] + kept);
            e[i] == Owns(ns[i]) && e == Wrap(ns[..i] + ([ns[i]] + kept)) && e[..i] + e[i + 1..] == Wrap(ns[..i] + kept)
  {
    var e := Wrap(ns[..i + 1] + kept);
    WrapAround(ns, i, kept);
    Surgery(e, Wrap(ns[..i]), Owns(ns[i]), Wrap(kept));
    Erasure(e, Wrap(ns[..i]), Owns(ns[i]), Wrap(kept));
    MoveBoundary(ns, i, kept);
    Regroup(ns[..i], [ns[i]], kept);
    WrapConcat(ns[..i], kept);
  }

  lemma {:induction false} WrapConcat(a: seq<Node>, b: seq<Node>)
    ensures Wrap(a + b) == Wrap(a) + Wrap(b)
  {
  }

  lemma {:induction false} MoveBoundary<T>(s: seq<T>, i: nat, tail: seq<T>)
    requires i < |s|
    ensures s[..i + 1] + tail == s[..i] + [s[i]] + tail
  {
  }

  /** One step of the shift that opens a gap: the element before the gap moves behind it. */
  lemma {:induction false} GapShift(s: seq<Slot>, base: seq<Slot>, left: nat, count: nat)
    requires left < |base| && count >= 1
    requires s == base[..left + 1] + Nulls(count) + base[left + 1..]
    ensures s[left + count := s[left]][left := Null] == base[..left] + Nulls(count) + base[left..]
  {
  }

  lemma {:induction false} LeavesAtLeast(ns: seq<Node>)
    requires forall k :: 0 <= k < |ns| ==> LeavesOf(ns[k]) != []
    ensures |Leaves(ns)| >= |ns|
  {
    if ns != [] { LeavesAtLeast(ns[1..]); }
  }

  /** `base` with the slots from `dest` on replaced by owners of `ns`. */
  function Overwrite(base: seq<Slot>, dest: nat, ns: seq<Node>): (s: seq<Slot>)
    requires dest + |ns| <= |base|
    ensures |s| == |base|
  {
    base[..dest] + Wrap(ns) + base[dest + |ns|..]
  }

  lemma {:induction false} OverwriteTwice(base: seq<Slot>, dest: nat, a: seq<Node>, b: seq<Node>)
    requires dest + |a| + |b| <= |base|
    ensures Overwrite(Overwrite(base, dest, a), dest + |a|, b) == Overwrite(base, dest, a + b)
  {
  }

  /** `n` empty slots between the owners of `a` and those of `b`. */
  function Gap(a: seq<Node>, n: nat, b: seq<Node>): (s: seq<Slot>)
    ensures |s| == |a| + n + |b|
  {
    Wrap(a) + Nulls(n) + Wrap(b)
  }

  lemma {:induction false} OverwriteNothing(base: seq<Slot>, dest: nat)
    requires dest <= |base|
    ensures Leaves([]) == [] && Overwrite(base, dest, []) == base
  {
  }

  lemma {:induction false} GapOpen(a: seq<Node>, n: Node, b: seq<Node>)
    ensures Wrap(a + [n] + b)[|a| := Null] == Gap(a, 1, b)
  {
  }

  lemma {:induction false} GapIsEmpty(a: seq<Node>, n: nat, b: seq<Node>)
    ensures forall k :: |a| <= k < |a| + n ==> Gap(a, n, b)[k] == Null
  {
  }

  lemma {:induction false} GapWiden(a: seq<Node>, n: nat, b: seq<Node>)
    ensures var g := Gap(a, 1, b);
            g[..|a| + 1] + Nulls(n) + g[|a| + 1..] == Gap(a, n + 1, b)
  {
  }

  lemma {:induction false} GapFill(a: seq<Node>, ns: seq<Node>, b: seq<Node>)
    ensures Overwrite(Gap(a, |ns|, b), |a|, ns) == Wrap(a + ns + b)
  {
  }

  // ---------- Pruning ----------

  predicate IsEmptyContainer(n: Node) {
    (n.Array? && n.elems == []) || (n.Table? && n.entries == [])
  }

  /** What a node looks like after `prune(recursive)` ran on it. */
  function Pruned(n: Node, recursive: bool): Node
    decreases n, 1
  {
    match n
    case Value(_) => n
    case Array(elems) => Array(PrunedElems(elems, recursive))
    case Table(entries) => Table(PrunedEntries(entries, recursive))
  }

  /** A child of a pruned container: pruned itself only in the recursive mode. */
  function PrunedChild(n: Node, recursive: bool): Node
    decreases n, 2
  {
    if recursive then Pruned(n, true) else n
  }

  function PrunedElems(ns: seq<Node>, recursive: bool): seq<Node>
    decreases ns, 0
  {
    if ns == [] then []
    else
      var n := PrunedChild(ns[0], recursive);
      (if IsEmptyContainer(n) then [] else [n]) + PrunedElems(ns[1..], recursive)
  }

  function PrunedEntries(es: seq<Entry>, recursive: bool): seq<Entry>
    decreases es, 0
  {
    if es == [] then []
    else
      var n := PrunedChild(es[0].node, recursive);
      (if IsEmptyContainer(n) then [] else [Entry(es[0].key, n)]) + PrunedEntries(es[1..], recursive)
  }

  /** `array::prune`: walks the vector back to front. */
  method PruneArray(elems: seq<Node>, recursive: bool) returns (r: seq<Node>)
    ensures r == PrunedElems(elems, recursive)
    decreases elems, 0
  {
    r := elems;
    if |r| == 0 { return; }
    var i := |r|;
    ghost var kept: seq<Node> := [];
    while i > 0
      invariant 0 <= i <= |elems| && r == elems[..i] + kept
      invariant kept == PrunedElems(elems[i..], recursive)
    {
      i := i - 1;
      ghost var front := elems[..i];
      assert elems[i..][1..] == elems[i + 1..];
      MoveBoundary(elems, i, kept);
      Surgery(r, front, elems[i], kept);
      var child := PruneChild(r[i], recursive);
      r := r[i := child];
      Erasure(r, front, child, kept);
      if IsEmptyContainer(child) {
        r := r[..i] + r[i + 1..];
      } else {
        Regroup(front, [child], kept);
        kept := [child] + kept;
      }
    }
    assert elems[0..] == elems;
  }

  /** `table::prune`: walks the map front to back. */
  method PruneTable(entries: seq<Entry>, recursive: bool) returns (r: seq<Entry>)
    ensures r == PrunedEntries(entries, recursive)
    decreases entries, 0
  {
    r := entries;
    if |r| == 0 { return; }
    var it := 0;
    ghost var kept: seq<Entry>, seen := [], 0;
    while it < |r|
      invariant it == |kept| && seen <= |entries| && r == kept + entries[seen..]
      invariant PrunedEntries(entries, recursive) == kept + PrunedEntries(entries[seen..], recursive)
      decreases |entries| - seen
    {
      hide PrunedEntries, PrunedChild;
      ghost var tail := entries[seen + 1..];
      PruneEntryStep(kept, entries, seen, recursive);
      SplitAt(kept, entries, seen);
      Surgery(r, kept, entries[seen], tail);
      var child := PruneChild(r[it].node, recursive);
      r := r[it := Entry(r[it].key, child)];
      Erasure(r, kept, Entry(entries[seen].key, child), tail);
      if IsEmptyContainer(child) {
        r := r[..it] + r[it + 1..];
      } else {
        it := it + 1;
        kept := kept + [Entry(entries[seen].key, child)];
      }
      seen := seen + 1;
    }
    assert r == kept;
  }

  lemma {:induction false} PruneEntryStep(kept: seq<Entry>, es: seq<Entry>, i: nat, recursive: bool)
    requires i < |es|
    ensures var n := PrunedChild(es[i].node, recursive);
            kept + PrunedEntries(es[i..], recursive)
            == (if IsEmptyContainer(n) then kept else kept + [Entry(es[i].key, n)])
               + PrunedEntries(es[i + 1..], recursive)
  {
  }

  method PruneChild(n: Node, recursive: bool) returns (r: Node)
    ensures r == PrunedChild(n, recursive)
    decreases n, 1
  {
    r := n;
    if recursive {
      if n.Array? {
        var inner := PruneArray(n.elems, true);
        r := Array(inner);
      } else if n.Table? {
        var inner := PruneTable(n.entries, true);
        r := Table(inner);
      }
    }
  }

  // What pruning promises

  /** The way down to a leaf. Array positions shift when empty siblings go, so a step
      into an array carries no index; the order of the trails carries it. */
  datatype Step = IntoKey(key: string) | IntoArray
  datatype Trail = Trail(steps: seq<Step>, leaf: int)

  function TrailsOf(n: Node, above: seq<Step>): seq<Trail>
    decreases n, 1
  {
    match n
    case Value(v) => [Trail(above, v)]
    case Array(elems) => ElemTrails(elems, above + [IntoArray])
    case Table(entries) => EntryTrails(entries, above)
  }

  function ElemTrails(ns: seq<Node>, above: seq<Step>): seq<Trail>
    decreases ns, 0
  {
    if ns == [] then [] else TrailsOf(ns[0], above) + ElemTrails(ns[1..], above)
  }

  function EntryTrails(es: seq<Entry>, above: seq<Step>): seq<Trail>
    decreases es, 0
  {
    if es == [] then []
    else TrailsOf(es[0].node, above + [IntoKey(es[0].key)]) + EntryTrails(es[1..], above)
  }

  /** Some value lies in the node or below it. */
  ghost predicate HasLeaf(n: Node) {
    match n
    case Value(_) => true
    case Array(elems) => exists i :: 0 <= i < |elems| && HasLeaf(elems[i])
    case Table(entries) => exists i :: 0 <= i < |entries| && HasLeaf(entries[i].node)
  }

  /** No container strictly below the node is empty. */
  ghost predicate NoEmptyBelow(n: Node) {
    match n
    case Value(_) => true
    case Array(elems) =>
      forall i :: 0 <= i < |elems| ==> !IsEmptyContainer(elems[i]) && NoEmptyBelow(elems[i])
    case Table(entries) =>
      forall i :: 0 <= i < |entries| ==> !IsEmptyContainer(entries[i].node) && NoEmptyBelow(entries[i].node)
  }

  /** Every value keeps its keys, its nesting and its place in document order. */
  lemma {:induction false} PruneKeepsLeaves(n: Node, recursive: bool, above: seq<Step>)
    ensures TrailsOf(Pruned(n, recursive), above) == TrailsOf(n, above)
    decreases n, 1
  {
    match n
    case Value(_) =>
    case Array(elems) => PruneKeepsElemLeaves(elems, recursive, above + [IntoArray]);
    case Table(entries) => PruneKeepsEntryLeaves(entries, recursive, above);
  }

  lemma {:induction false} PruneKeepsElemLeaves(ns: seq<Node>, recursive: bool, above: seq<Step>)
    ensures ElemTrails(PrunedElems(ns, recursive), above) == ElemTrails(ns, above)
    decreases ns, 0
  {
    if ns != [] {
      if recursive { PruneKeepsLeaves(ns[0], true, above); }
      PruneKeepsElemLeaves(ns[1..], recursive, above);
      var n := PrunedChild(ns[0], recursive);
      if IsEmptyContainer(n) {
        assert TrailsOf(n, above) == [];
        assert PrunedElems(ns, recursive) == PrunedElems(ns[1..], recursive);
      } else {
        assert ([n] + PrunedElems(ns[1..], recursive))[1..] == PrunedElems(ns[1..], recursive);
      }
    }
  }

  lemma {:induction false} PruneKeepsEntryLeaves(es: seq<Entry>, recursive: bool, above: seq<Step>)
    ensures EntryTrails(PrunedEntries(es, recursive), above) == EntryTrails(es, above)
    decreases es, 0
  {
    if es != [] {
      if recursive { PruneKeepsLeaves(es[0].node, true, above + [IntoKey(es[0].key)]); }
      PruneKeepsEntryLeaves(es[1..], recursive, above);
      var n := PrunedChild(es[0].node, recursive);
      if IsEmptyContainer(n) {
        assert TrailsOf(n, above + [IntoKey(es[0].key)]) == [];
        assert PrunedEntries(es, recursive) == PrunedEntries(es[1..], recursive);
      } else {
        assert ([Entry(es[0].key, n)] + PrunedEntries(es[1..], recursive))[1..] == PrunedEntries(es[1..], recursive);
      }
    }
  }

  /** The elements that survive a recursive prune are those holding a leaf, in order. */
  ghost function KeptElems(ns: seq<Node>): seq<Node> {
    if ns == [] then []
    else (if HasLeaf(ns[0]) then [Pruned(ns[0], true)] else []) + KeptElems(ns[1..])
  }

  ghost function KeptEntries(es: seq<Entry>): seq<Entry> {
    if es == [] then []
    else (if HasLeaf(es[0].node) then [Entry(es[0].key, Pruned(es[0].node, true))] else []) + KeptEntries(es[1..])
  }

  lemma {:induction false} PruneKeepsExactlyLeafHolders(n: Node)
    ensures IsEmptyContainer(Pruned(n, true)) <==> !HasLeaf(n)
    ensures n.Array? ==> Pruned(n, true) == Array(KeptElems(n.elems))
    ensures n.Table? ==> Pruned(n, true) == Table(KeptEntries(n.entries))
    decreases n, 1
  {
    match n
    case Value(_) =>
    case Array(elems) => KeptElemsAreLeafHolders(elems);
    case Table(entries) => KeptEntriesAreLeafHolders(entries);
  }

  lemma {:induction false} KeptElemsAreLeafHolders(ns: seq<Node>)
    ensures PrunedElems(ns, true) == KeptElems(ns)
    ensures PrunedElems(ns, true) == [] <==> forall i :: 0 <= i < |ns| ==> !HasLeaf(ns[i])
    decreases ns, 0
  {
    if ns != [] {
      PruneKeepsExactlyLeafHolders(ns[0]);
      KeptElemsAreLeafHolders(ns[1..]);
      assert forall i :: 0 < i < |ns| ==> ns[i] == ns[1..][i - 1];
    }
  }

  lemma {:induction false} KeptEntriesAreLeafHolders(es: seq<Entry>)
    ensures PrunedEntries(es, true) == KeptEntries(es)
    ensures PrunedEntries(es, true) == [] <==> forall i :: 0 <= i < |es| ==> !HasLeaf(es[i].node)
    decreases es, 0
  {
    if es != [] {
      PruneKeepsExactlyLeafHolders(es[0].node);
      KeptEntriesAreLeafHolders(es[1..]);
      assert forall i :: 0 < i < |es| ==> es[i] == es[1..][i - 1];
    }
  }

  /** After a recursive prune no container below the root is empty. */
  lemma {:induction false} PruneLeavesNoEmpty(n: Node)
    ensures NoEmptyBelow(Pruned(n, true))
    decreases n, 1
  {
    match n
    case Value(_) =>
    case Array(elems) => PruneElemsLeavesNoEmpty(elems);
    case Table(entries) => PruneEntriesLeavesNoEmpty(entries);
  }

  lemma {:induction false} PruneElemsLeavesNoEmpty(ns: seq<Node>)
    ensures NoEmptyBelow(Array(PrunedElems(ns, true)))
    decreases ns, 0
  {
    if ns != [] {
      PruneLeavesNoEmpty(ns[0]);
      PruneElemsLeavesNoEmpty(ns[1..]);
    }
  }

  lemma {:induction false} PruneEntriesLeavesNoEmpty(es: seq<Entry>)
    ensures NoEmptyBelow(Table(PrunedEntries(es, true)))
    decreases es, 0
  {
    if es != [] {
      PruneLeavesNoEmpty(es[0].node);
      PruneEntriesLeavesNoEmpty(es[1..]);
    }
  }

  /** Pruning changes nothing exactly when there is nothing empty to remove. */
  lemma {:induction false} PruneFixedPoint(n: Node)
    ensures Pruned(n, true) == n <==> NoEmptyBelow(n)
    decreases n, 1
  {
    if Pruned(n, true) == n { PruneLeavesNoEmpty(n); }
    if NoEmptyBelow(n) {
      match n
      case Value(_) =>
      case Array(elems) => PruneFixedElems(elems);
      case Table(entries) => PruneFixedEntries(entries);
    }
  }

  lemma {:induction false} PruneFixedElems(ns: seq<Node>)
    requires NoEmptyBelow(Array(ns))
    ensures PrunedElems(ns, true) == ns
    decreases ns, 0
  {
    if ns != [] {
      PruneFixedPoint(ns[0]);
      PruneFixedElems(ns[1..]);
    }
  }

  lemma {:induction false} PruneFixedEntries(es: seq<Entry>)
    requires NoEmptyBelow(Table(es))
    ensures PrunedEntries(es, true) == es
    decreases es, 0
  {
    if es != [] {
      PruneFixedPoint(es[0].node);
      PruneFixedEntries(es[1..]);
    }
  }

  lemma {:induction false} PruneIdempotent(n: Node)
    ensures Pruned(Pruned(n, true), true) == Pruned(n, true)
  {
    PruneLeavesNoEmpty(n);
    PruneFixedPoint(Pruned(n, true));
  }
}
