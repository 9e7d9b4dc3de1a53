/** Nodes in a store, the trees they stand for, and what one change of the store does to a tree. */
module TomlTree {
  import opened Wrappers

  /** Nodes are named by their position in the store; a node is never moved or removed. */
  type Id = nat

  datatype Node =
    | Scalar(v: int)
    | Table(children: map<string, Id>, isInline: bool)
    | Array(elems: seq<Id>)

  // ---------- Paths ----------

  datatype Step = Key(k: string) | Index(i: nat)

  function Child(nodes: seq<Node>, at: Id, step: Step): Option<Id> {
    if at >= |nodes| then None
    else
      match (nodes[at], step)
      case (Table(children, _), Key(k)) => if k in children then Some(children[k]) else None
      case (Array(elems), Index(i)) => if i < |elems| then Some(elems[i]) else None
      case _ => None
  }

  function Resolve(nodes: seq<Node>, at: Id, path: seq<Step>): Option<Id>
    decreases |path|
  {
    if path == [] then Some(at)
    else
      match Child(nodes, at, path[0])
      case None => None
      case Some(id) => Resolve(nodes, id, path[1..])
  }

  function Keys(key: seq<string>): (p: seq<Step>)
    ensures |p| == |key|
  {
    if key == [] then [] else [Key(key[0])] + Keys(key[1..])
  }

  lemma {:induction false} KeysConcat(a: seq<string>, b: seq<string>)
    ensures Keys(a + b) == Keys(a) + Keys(b)
  {
    if a == [] {
      assert a + b == b;
    } else {
      assert (a + b)[1..] == a[1..] + b;
      KeysConcat(a[1..], b);
    }
  }

  lemma {:induction false} ResolveConcat(nodes: seq<Node>, at: Id, a: seq<Step>, b: seq<Step>)
    ensures Resolve(nodes, at, a + b)
            == match Resolve(nodes, at, a)
               case None => None
               case Some(id) => Resolve(nodes, id, b)
    decreases |a|
  {
    if a == [] {
      assert a + b == b;
    } else {
      assert (a + b)[1..] == a[1..] + b;
      match Child(nodes, at, a[0])
      case None =>
      case Some(id) => ResolveConcat(nodes, id, a[1..], b);
    }
  }

  lemma {:induction false} ResolveSnoc(nodes: seq<Node>, at: Id, front: seq<Step>, step: Step)
    ensures Resolve(nodes, at, front + [step])
            == match Resolve(nodes, at, front)
               case None => None
               case Some(id) => Child(nodes, id, step)
  {
    ResolveConcat(nodes, at, front, [step]);
    assert [step][1..] == [];
  }

  // ---------- Forests ----------

  /** A node points to later nodes: the store only grows at its end. */
  ghost predicate NodeForward(nodes: seq<Node>, id: Id)
    requires id < |nodes|
  {
    match nodes[id]
    case Scalar(_) => true
    case Table(children, _) => forall k :: k in children ==> id < children[k] < |nodes|
    case Array(elems) => forall i :: 0 <= i < |elems| ==> id < elems[i] < |nodes|
  }

  ghost predicate Forward(nodes: seq<Node>) {
    forall id :: 0 <= id < |nodes| ==> NodeForward(nodes, id)
  }

  /** No node hangs in two places. */
  ghost predicate Unshared(nodes: seq<Node>) {
    forall a: Id, b: Id, s, t :: Child(nodes, a, s).Some? && Child(nodes, a, s) == Child(nodes, b, t) ==>
        a == b && s == t
  }

  lemma {:induction false} ChildForward(nodes: seq<Node>, at: Id, step: Step)
    requires Forward(nodes) && Child(nodes, at, step).Some?
    ensures at < Child(nodes, at, step).value < |nodes|
  {
    assert NodeForward(nodes, at);
  }

  lemma {:induction false} ResolveForward(nodes: seq<Node>, at: Id, path: seq<Step>)
    requires Forward(nodes) && Resolve(nodes, at, path).Some?
    ensures at <= Resolve(nodes, at, path).value && (path != [] ==> at < Resolve(nodes, at, path).value < |nodes|)
    decreases |path|
  {
    if path != [] {
      ChildForward(nodes, at, path[0]);
      ResolveForward(nodes, Child(nodes, at, path[0]).value, path[1..]);
    }
  }

  /** There is one way down from a node to another. */
  lemma {:induction false} PathIsUnique(nodes: seq<Node>, r: Id, p: seq<Step>, q: seq<Step>)
    requires Forward(nodes) && Unshared(nodes)
    requires Resolve(nodes, r, p).Some? && Resolve(nodes, r, p) == Resolve(nodes, r, q)
    ensures p == q
    decreases |p|
  {
    ResolveForward(nodes, r, p);
    ResolveForward(nodes, r, q);
    if p != [] && q != [] {
      var m, n := |p| - 1, |q| - 1;
      assert p == p[..m] + [p[m]] && q == q[..n] + [q[n]];
      ResolveSnoc(nodes, r, p[..m], p[m]);
      ResolveSnoc(nodes, r, q[..n], q[n]);
      PathIsUnique(nodes, r, p[..m], q[..n]);
    }
  }

  /** A node nothing points to. */
  ghost predicate Unlinked(nodes: seq<Node>, id: Id) {
    forall a: Id, s :: Child(nodes, a, s) != Some(id)
  }

  lemma {:induction false} FreshIsUnlinked(nodes: seq<Node>, id: Id)
    requires Forward(nodes) && id >= |nodes|
    ensures Unlinked(nodes, id)
  {
    forall a: Id, s ensures Child(nodes, a, s) != Some(id) {
      if Child(nodes, a, s).Some? { ChildForward(nodes, a, s); }
    }
  }

  predicate IsEmptyNode(n: Node) { n.Scalar? || (n.Table? && n.children == map[]) || n == Array([]) }

  lemma {:induction false} AppendUnshared(nodes: seq<Node>, n: Node)
    requires Unshared(nodes) && IsEmptyNode(n)
    ensures Unshared(nodes + [n])
    ensures forall a: Id, s :: Child(nodes + [n], a, s) == Child(nodes, a, s)
  {
    var grown := nodes + [n];
    forall a: Id, s ensures Child(grown, a, s) == Child(nodes, a, s) {
      if a < |nodes| { assert grown[a] == nodes[a]; }
    }
    forall a: Id, b: Id, s, t | Child(grown, a, s).Some? && Child(grown, a, s) == Child(grown, b, t)
      ensures a == b && s == t
    {
      assert Child(nodes, a, s) == Child(nodes, b, t);
    }
  }

  /** One link more, to a node nothing points to yet. */
  lemma {:induction false} LinkUnshared(nodes: seq<Node>, linked: seq<Node>, at: Id, step: Step, id: Id)
    requires Unshared(nodes) && Unlinked(nodes, id) && Child(nodes, at, step).None?
    requires forall a: Id, s :: Child(linked, a, s) == if a == at && s == step then Some(id) else Child(nodes, a, s)
    ensures Unshared(linked)
  {
  }

  lemma {:induction false} AttachLinks(nodes: seq<Node>, at: Id, k: string, id: Id)
    requires at < |nodes| && nodes[at].Table?
    ensures var linked := nodes[at := nodes[at].(children := nodes[at].children[k := id])];
            forall a: Id, s :: Child(linked, a, s) == if a == at && s == Key(k) then Some(id) else Child(nodes, a, s)
  {
  }

  lemma {:induction false} AddItemLinks(nodes: seq<Node>, arr: Id, id: Id)
    requires arr < |nodes| && nodes[arr].Array?
    ensures var linked := nodes[arr := Array(nodes[arr].elems + [id])];
            forall a: Id, s ::
              Child(linked, a, s) == if a == arr && s == Index(|nodes[arr].elems|) then Some(id) else Child(nodes, a, s)
  {
  }

  // ---------- Trees ----------

  datatype Tree = Leaf(v: int) | Branch(children: map<string, Tree>) | List(items: seq<Tree>)

  const EMPTY_BRANCH := Branch(map[])

  /** What a node stands for, with everything below it. */
  ghost function TreeOf(nodes: seq<Node>, id: Id): Tree
    requires Forward(nodes) && id < |nodes|
    decreases |nodes| - id
  {
    assert NodeForward(nodes, id);
    match nodes[id]
    case Scalar(v) => Leaf(v)
    case Table(children, _) => Branch(map k | k in children :: TreeOf(nodes, children[k]))
    case Array(elems) => List(seq(|elems|, i requires 0 <= i < |elems| => TreeOf(nodes, elems[i])))
  }

  /** Puts a tree at a path; a key that is missing on the way becomes a branch of its own. */
  function Put(t: Tree, path: seq<Step>, v: Tree): Tree
    decreases |path|
  {
    if path == [] then v
    else
      match path[0]
      case Key(k) =>
        if t.Branch? then
          Branch(t.children[k := Put(if k in t.children then t.children[k] else EMPTY_BRANCH, path[1..], v)])
        else t
      case Index(i) =>
        if t.List? && i < |t.items| then List(t.items[i := Put(t.items[i], path[1..], v)]) else t
  }

  function TreeStep(t: Tree, step: Step): Option<Tree> {
    match step
    case Key(k) => if t.Branch? && k in t.children then Some(t.children[k]) else None
    case Index(i) => if t.List? && i < |t.items| then Some(t.items[i]) else None
  }

  function TreeAt(t: Tree, path: seq<Step>): Option<Tree>
    decreases |path|
  {
    if path == [] then Some(t)
    else
      match TreeStep(t, path[0])
      case None => None
      case Some(sub) => TreeAt(sub, path[1..])
  }

  /** An empty branch at a path, unless something is there. */
  function Touch(t: Tree, path: seq<Step>): Tree {
    if TreeAt(t, path).Some? then t else Put(t, path, EMPTY_BRANCH)
  }

  lemma {:induction false} TreeStepIsChild(nodes: seq<Node>, id: Id, step: Step)
    requires Forward(nodes) && id < |nodes|
    ensures TreeStep(TreeOf(nodes, id), step).Some? <==> Child(nodes, id, step).Some?
    ensures Child(nodes, id, step).Some? ==>
              Child(nodes, id, step).value < |nodes|
                && TreeStep(TreeOf(nodes, id), step) == Some(TreeOf(nodes, Child(nodes, id, step).value))
  {
    assert NodeForward(nodes, id);
  }

  /** Going down the nodes is going down the tree. */
  lemma {:induction false} TreeAtIsResolve(nodes: seq<Node>, id: Id, path: seq<Step>)
    requires Forward(nodes) && id < |nodes|
    ensures TreeAt(TreeOf(nodes, id), path).Some? <==> Resolve(nodes, id, path).Some?
    ensures Resolve(nodes, id, path).Some? ==>
              Resolve(nodes, id, path).value < |nodes|
              && TreeAt(TreeOf(nodes, id), path) == Some(TreeOf(nodes, Resolve(nodes, id, path).value))
    decreases |path|
  {
    if path != [] {
      TreeStepIsChild(nodes, id, path[0]);
      if Child(nodes, id, path[0]).Some? {
        TreeAtIsResolve(nodes, Child(nodes, id, path[0]).value, path[1..]);
      }
    }
  }

  lemma {:induction false} TreeAtConcat(t: Tree, p: seq<Step>, q: seq<Step>)
    ensures TreeAt(t, p + q) == match TreeAt(t, p) case None => None case Some(s) => TreeAt(s, q)
    decreases |p|
  {
    if p == [] {
      assert p + q == q;
    } else {
      assert (p + q)[1..] == p[1..] + q;
      if TreeStep(t, p[0]).Some? { TreeAtConcat(TreeStep(t, p[0]).value, p[1..], q); }
    }
  }

  /** Putting below an existing place is replacing that place. */
  lemma {:induction false} PutConcat(t: Tree, p: seq<Step>, q: seq<Step>, v: Tree)
    requires TreeAt(t, p).Some?
    ensures Put(t, p + q, v) == Put(t, p, Put(TreeAt(t, p).value, q, v))
    decreases |p|
  {
    if p == [] {
      assert p + q == q;
    } else {
      assert (p + q)[1..] == p[1..] + q;
      PutConcat(TreeStep(t, p[0]).value, p[1..], q, v);
    }
  }

  /** Putting twice along the same way: the second replaces what the first made. */
  lemma {:induction false} PutOver(t: Tree, p: seq<Step>, q: seq<Step>, v: Tree)
    requires TreeAt(t, p).None?
    ensures Put(Put(t, p, EMPTY_BRANCH), p + q, v) == Put(t, p + q, v)
    decreases |p|
  {
    assert (p + q)[1..] == p[1..] + q && (p + q)[0] == p[0];
    match p[0]
    case Key(k) =>
      if t.Branch? {
        var sub := if k in t.children then t.children[k] else EMPTY_BRANCH;
        if TreeAt(sub, p[1..]).None? {
          PutOver(sub, p[1..], q, v);
        } else {
          assert k !in t.children && p[1..] == [] && p[1..] + q == q;
        }
        PutOverKey(t, k, sub, p, q, v);
      }
    case Index(i) =>
      if t.List? && i < |t.items| {
        PutOver(t.items[i], p[1..], q, v);
        PutOverIndex(t, i, p, q, v);
      }
  }

  lemma {:induction false} PutOverKey(t: Tree, k: string, sub: Tree, p: seq<Step>, q: seq<Step>, v: Tree)
    requires p != [] && p[0] == Key(k) && t.Branch? && sub == (if k in t.children then t.children[k] else EMPTY_BRANCH)
    requires Put(Put(sub, p[1..], EMPTY_BRANCH), p[1..] + q, v) == Put(sub, p[1..] + q, v)
    ensures Put(Put(t, p, EMPTY_BRANCH), p + q, v) == Put(t, p + q, v)
  {
    assert (p + q)[1..] == p[1..] + q;
    var made := Put(t, p, EMPTY_BRANCH);
    assert made == Branch(t.children[k := Put(sub, p[1..], EMPTY_BRANCH)]);
    assert Put(made, p + q, v) == Branch(made.children[k := Put(made.children[k], p[1..] + q, v)]);
    assert made.children[k := Put(sub, p[1..] + q, v)] == t.children[k := Put(sub, p[1..] + q, v)];
  }

  lemma {:induction false} PutOverIndex(t: Tree, i: nat, p: seq<Step>, q: seq<Step>, v: Tree)
    requires p != [] && p[0] == Index(i) && t.List? && i < |t.items|
    requires Put(Put(t.items[i], p[1..], EMPTY_BRANCH), p[1..] + q, v) == Put(t.items[i], p[1..] + q, v)
    ensures Put(Put(t, p, EMPTY_BRANCH), p + q, v) == Put(t, p + q, v)
  {
    assert (p + q)[1..] == p[1..] + q;
    var made := Put(t, p, EMPTY_BRANCH);
    assert made == List(t.items[i := Put(t.items[i], p[1..], EMPTY_BRANCH)]);
    assert made.items[i := Put(t.items[i], p[1..] + q, v)] == t.items[i := Put(t.items[i], p[1..] + q, v)];
  }

  /** An empty branch made on the way changes nothing of what is put further on. */
  lemma {:induction false} PutThroughTouch(t: Tree, p: seq<Step>, q: seq<Step>, v: Tree)
    ensures Put(Touch(t, p), p + q, v) == Put(t, p + q, v)
  {
    if TreeAt(t, p).None? { PutOver(t, p, q, v); }
  }

  /** Nodes before `lo` do not matter to a tree from `lo` on. */
  lemma {:induction false} TreeAbove(d: seq<Node>, e: seq<Node>, lo: Id, id: Id)
    requires Forward(d) && Forward(e) && |d| <= |e| && lo <= id < |d|
    requires forall x :: lo <= x < |d| ==> e[x] == d[x]
    ensures TreeOf(e, id) == TreeOf(d, id)
    decreases |d| - id
  {
    assert NodeForward(d, id) && e[id] == d[id];
    match d[id]
    case Scalar(_) =>
    case Table(children, _) =>
      forall k | k in children
        ensures TreeOf(e, children[k]) == TreeOf(d, children[k])
      {
        TreeAbove(d, e, lo, children[k]);
      }
    case Array(elems) =>
      forall i | 0 <= i < |elems| ensures TreeOf(e, elems[i]) == TreeOf(d, elems[i]) { TreeAbove(d, e, lo, elems[i]); }
  }

  ghost predicate OutOfReach(nodes: seq<Node>, from: Id, at: Id) {
    forall q :: Resolve(nodes, from, q) != Some(at)
  }

  lemma {:induction false} ChildOutOfReach(nodes: seq<Node>, from: Id, at: Id, step: Step)
    requires OutOfReach(nodes, from, at) && Child(nodes, from, step).Some?
    ensures OutOfReach(nodes, Child(nodes, from, step).value, at)
  {
    var c := Child(nodes, from, step).value;
    forall q ensures Resolve(nodes, c, q) != Some(at) {
      assert ([step] + q)[1..] == q;
      assert Resolve(nodes, from, [step] + q) == Resolve(nodes, c, q);
    }
  }

  ghost predicate SameBut(d: seq<Node>, e: seq<Node>, at: Id) {
    |d| <= |e| && forall x :: 0 <= x < |d| && x != at ==> e[x] == d[x]
  }

  /** A tree that does not hold the changed node is not changed. */
  lemma {:induction false} TreeOutOfReach(d: seq<Node>, e: seq<Node>, at: Id, id: Id)
    requires Forward(d) && Forward(e) && SameBut(d, e, at) && id < |d| && OutOfReach(d, id, at)
    ensures TreeOf(e, id) == TreeOf(d, id)
    decreases |d| - id
  {
    assert Resolve(d, id, []) == Some(id);
    assert NodeForward(d, id) && e[id] == d[id];
    match d[id]
    case Scalar(_) =>
    case Table(children, _) =>
      forall k | k in children ensures TreeOf(e, children[k]) == TreeOf(d, children[k]) {
        ChildOutOfReach(d, id, at, Key(k));
        TreeOutOfReach(d, e, at, children[k]);
      }
    case Array(elems) =>
      forall i | 0 <= i < |elems| ensures TreeOf(e, elems[i]) == TreeOf(d, elems[i]) {
        ChildOutOfReach(d, id, at, Index(i));
        TreeOutOfReach(d, e, at, elems[i]);
      }
  }

  /** The other children of a node on the way do not hold the changed node. */
  lemma {:induction false} SiblingOutOfReach(nodes: seq<Node>, r: Id, path: seq<Step>, at: Id, step: Step)
    requires Forward(nodes) && Unshared(nodes) && path != [] && Resolve(nodes, r, path) == Some(at)
    requires step != path[0] && Child(nodes, r, step).Some?
    ensures OutOfReach(nodes, Child(nodes, r, step).value, at)
  {
    var c := Child(nodes, r, step).value;
    forall q ensures Resolve(nodes, c, q) != Some(at) {
      var whole := [step] + q;
      assert whole[1..] == q && whole[0] == step;
      if Resolve(nodes, c, q) == Some(at) { PathIsUnique(nodes, r, path, whole); }
    }
  }

  /** Changing one node replaces its tree where the node hangs, and nothing else. */
  lemma {:induction false} Graft(d: seq<Node>, e: seq<Node>, r: Id, path: seq<Step>, at: Id)
    requires Forward(d) && Forward(e) && Unshared(d) && SameBut(d, e, at)
    requires r < |d| && Resolve(d, r, path) == Some(at) && at < |d|
    ensures TreeOf(e, r) == Put(TreeOf(d, r), path, TreeOf(e, at))
    decreases |path|
  {
    if path != [] {
      ResolveForward(d, r, path);
      var c := Child(d, r, path[0]).value;
      ChildForward(d, r, path[0]);
      Graft(d, e, c, path[1..], at);
      assert NodeForward(d, r) && e[r] == d[r];
      hide Unshared, Forward, SameBut;
      GraftStep(d, e, r, path, at, c);
    }
  }

  lemma {:induction false} GraftStep(d: seq<Node>, e: seq<Node>, r: Id, path: seq<Step>, at: Id, c: Id)
    requires Forward(d) && Forward(e) && Unshared(d) && SameBut(d, e, at)
    requires r < |d| && path != [] && Resolve(d, r, path) == Some(at) && r < at < |d|
    requires Child(d, r, path[0]) == Some(c) && c < |d| && e[r] == d[r]
    requires TreeOf(e, c) == Put(TreeOf(d, c), path[1..], TreeOf(e, at))
    ensures TreeOf(e, r) == Put(TreeOf(d, r), path, TreeOf(e, at))
  {
    assert NodeForward(d, r);
    match path[0]
    case Key(k) =>
      var children := d[r].children;
      forall j | j in children && j != k ensures TreeOf(e, children[j]) == TreeOf(d, children[j]) {
        SiblingOutOfReach(d, r, path, at, Key(j));
        TreeOutOfReach(d, e, at, children[j]);
      }
    case Index(i) =>
      var elems := d[r].elems;
      forall j | 0 <= j < |elems| && j != i ensures TreeOf(e, elems[j]) == TreeOf(d, elems[j]) {
        SiblingOutOfReach(d, r, path, at, Index(j));
        TreeOutOfReach(d, e, at, elems[j]);
      }
  }

  /** A new key below a table. */
  lemma {:induction false} GraftChild(d: seq<Node>, e: seq<Node>, r: Id, path: seq<Step>, at: Id, k: string, id: Id)
    requires Forward(d) && Forward(e) && Unshared(d) && SameBut(d, e, at)
    requires r < |d| && Resolve(d, r, path) == Some(at) && at < |d| && id < |e|
    requires d[at].Table? && e[at] == d[at].(children := d[at].children[k := id])
    ensures TreeOf(e, r) == Put(TreeOf(d, r), path + [Key(k)], TreeOf(e, id))
  {
    Graft(d, e, r, path, at);
    TreeAtIsResolve(d, r, path);
    PutConcat(TreeOf(d, r), path, [Key(k)], TreeOf(e, id));
    assert NodeForward(d, at) && NodeForward(e, at);
    var children := d[at].children;
    forall j | j in children
      ensures TreeOf(e, children[j]) == TreeOf(d, children[j])
    {
      TreeAbove(d, e, at + 1, children[j]);
    }
    assert [Key(k)][1..] == [];
    assert TreeOf(e, at).children == TreeOf(d, at).children[k := TreeOf(e, id)];
  }

  /** A new element at the end of an array. */
  lemma {:induction false} GraftItem(d: seq<Node>, e: seq<Node>, r: Id, path: seq<Step>, arr: Id, id: Id)
    requires Forward(d) && Forward(e) && Unshared(d) && SameBut(d, e, arr)
    requires r < |d| && Resolve(d, r, path) == Some(arr) && arr < |d| && id < |e|
    requires d[arr].Array? && e[arr] == Array(d[arr].elems + [id])
    ensures TreeOf(d, arr).List?
    ensures TreeOf(e, r) == Put(TreeOf(d, r), path, List(TreeOf(d, arr).items + [TreeOf(e, id)]))
  {
    Graft(d, e, r, path, arr);
    assert NodeForward(d, arr) && NodeForward(e, arr);
    var elems := d[arr].elems;
    forall j | 0 <= j < |elems|
      ensures TreeOf(e, elems[j]) == TreeOf(d, elems[j])
    {
      TreeAbove(d, e, arr + 1, elems[j]);
    }
    assert TreeOf(e, arr).items == TreeOf(d, arr).items + [TreeOf(e, id)];
  }
}
