/** A fixed array of slots read as the set of what it holds; one value stands for an empty slot. */
module FixedSlots {

  /** Every value but the empty one is held once. */
  ghost predicate Hold<T(!new)>(slots: seq<T>, items: set<T>, empty: T) {
    && (forall x :: x in items <==> x != empty && x in slots)
    && (forall j, k :: 0 <= j < k < |slots| && slots[j] != empty ==> slots[j] != slots[k])
  }

  lemma {:induction false} SizeWithout<T>(items: set<T>, x: T)
    ensures |items - {x}| == |items| - if x in items then 1 else 0
  {
  }

  ghost function Used<T(!new)>(slots: seq<T>, empty: T): nat {
    if slots == [] then 0
    else Used(slots[..|slots| - 1], empty) + if slots[|slots| - 1] != empty then 1 else 0
  }

  lemma {:induction false} SetSize<T(!new)>(slots: seq<T>, items: set<T>, empty: T)
    requires Hold(slots, items, empty)
    ensures |items| == Used(slots, empty)
  {
    if slots == [] {
      assert items == {};
    } else {
      var n := |slots| - 1;
      SetSize(slots[..n], items - {slots[n]}, empty);
      SizeWithout(items, slots[n]);
    }
  }

  lemma {:induction false} EmptyLeft<T(!new)>(slots: seq<T>, empty: T)
    ensures Used(slots, empty) <= |slots|
    ensures Used(slots, empty) < |slots| <==> empty in slots
  {
    if slots != [] {
      var n := |slots| - 1;
      EmptyLeft(slots[..n], empty);
      assert slots == slots[..n] + [slots[n]];
    }
  }

  /** The set is full exactly when every slot is. */
  lemma {:induction false} Count<T(!new)>(slots: seq<T>, items: set<T>, empty: T)
    requires Hold(slots, items, empty)
    ensures |items| <= |slots|
    ensures |items| < |slots| <==> empty in slots
  {
    SetSize(slots, items, empty);
    EmptyLeft(slots, empty);
  }

  lemma {:induction false} Fill<T(!new)>(slots: seq<T>, items: set<T>, empty: T, at: nat, x: T)
    requires Hold(slots, items, empty) && at < |slots| && slots[at] == empty && x != empty && x !in items
    ensures Hold(slots[at := x], items + {x}, empty)
  {
    var filled := slots[at := x];
    assert filled[at] == x;
    assert forall y :: y in filled ==> y == x || y in slots;
    forall y | y != empty && y in slots ensures y in filled {
      var k :| 0 <= k < |slots| && slots[k] == y;
      assert filled[k] == y;
    }
  }

  lemma {:induction false} Clear<T(!new)>(slots: seq<T>, items: set<T>, empty: T, at: nat)
    requires Hold(slots, items, empty) && at < |slots|
    ensures Hold(slots[at := empty], items - {slots[at]}, empty)
  {
    var cleared := slots[at := empty];
    assert forall y :: y in cleared ==> y == empty || y in slots;
    forall y | y != empty && y in slots && y != slots[at] ensures y in cleared {
      var k :| 0 <= k < |slots| && slots[k] == y;
      assert cleared[k] == y;
    }
    forall y | y in cleared && y != empty ensures y != slots[at] {
      var k :| 0 <= k < |cleared| && cleared[k] == y;
    }
  }

  lemma {:induction false} AllEmpty<T(!new)>(slots: seq<T>, empty: T)
    requires forall k :: 0 <= k < |slots| ==> slots[k] == empty
    ensures Hold(slots, {}, empty)
  {
  }
}
