/** The look-back reader: a 127-slot ring of code points already read, the current head, and a negative offset that
    says how far back the caller has stepped. Seen from outside it is a cursor over the whole input; what it hands out
    are pointers, into the ring or, for the head, into the buffer of the block reader. */
module Utf8BufferedReader {
  import opened Wrappers
  import opened Sequences
  import opened Utf8Reader

  const MAX_HISTORY_LENGTH := 128
  const HISTORY_BUFFER_SIZE := MAX_HISTORY_LENGTH - 1

  /** The element at a cursor position; positions outside the input read as end of file. */
  function ElementAt<T>(input: seq<T>, i: int): Option<T> {
    if 0 <= i < |input| then Some(input[i]) else None
  }

  /** Where one `read_next` leaves the cursor: it stops one past the last element. */
  function NextCursor<T>(input: seq<T>, cursor: int): int {
    if cursor < |input| then cursor + 1 else cursor
  }

  /** Two positions less than a ring apart never share a slot. */
  lemma {:induction false} SlotsAreDistinct(i: nat, j: nat)
    requires i < j < i + HISTORY_BUFFER_SIZE
    ensures i % HISTORY_BUFFER_SIZE != j % HISTORY_BUFFER_SIZE
  {
  }

  // ---------- Blocks ----------

  predicate GoodBlocks<T>(blocks: seq<seq<T>>) {
    forall k :: 0 <= k < |blocks| ==> 0 < |blocks[k]| <= BLOCK_CAPACITY
  }

  function Joined<T>(blocks: seq<seq<T>>): seq<T> {
    if blocks == [] then [] else blocks[0] + Joined(blocks[1..])
  }

  /** How many elements the first `k` blocks have. */
  function Before<T>(blocks: seq<seq<T>>, k: nat): nat
    requires k <= |blocks|
  {
    if k == 0 then 0 else Before(blocks, k - 1) + |blocks[k - 1]|
  }

  /** What the buffer holds at an index once this block has been read into it: the rest of it is cleared. */
  function InBuffer<T>(b: seq<T>, zero: T, i: nat): T {
    if i < |b| then b[i] else zero
  }

  /** What a pointer to the q-th element reads once the element after it has been asked for. The pointer leads into
      the buffer; if its element was the last of its block and there is another block, that block is there by now. */
  function AfterRead<T>(blocks: seq<seq<T>>, zero: T, q: nat): T
    requires q < |Joined(blocks)|
    decreases |blocks|
  {
    if q >= |blocks[0]| then AfterRead(blocks[1..], zero, q - |blocks[0]|)
    else if q + 1 < |blocks[0]| || |blocks| == 1 then blocks[0][q]
    else InBuffer(blocks[1], zero, q)
  }

  /** The q-th element is the last of its block, and there is another block. */
  predicate EndsBlock<T>(blocks: seq<seq<T>>, q: nat)
    requires q < |Joined(blocks)|
    decreases |blocks|
  {
    if q >= |blocks[0]| then EndsBlock(blocks[1..], q - |blocks[0]|) else q + 1 == |blocks[0]| && |blocks| > 1
  }

  /** Inside a block, and at the end of the input, the pointer still reads its element. */
  lemma {:induction false} AfterReadInside<T>(blocks: seq<seq<T>>, zero: T, q: nat)
    requires q < |Joined(blocks)| && !EndsBlock(blocks, q)
    ensures AfterRead(blocks, zero, q) == Joined(blocks)[q]
    decreases |blocks|
  {
    if q >= |blocks[0]| { AfterReadInside(blocks[1..], zero, q - |blocks[0]|); }
  }

  lemma {:induction false} LastEndsNoBlock<T>(blocks: seq<seq<T>>)
    requires GoodBlocks(blocks) && Joined(blocks) != []
    ensures !EndsBlock(blocks, |Joined(blocks)| - 1)
    decreases |blocks|
  {
    if |blocks| > 1 {
      assert blocks[1..][0] == blocks[1];
      assert Joined(blocks[1..]) == blocks[1] + Joined(blocks[1..][1..]);
      LastEndsNoBlock(blocks[1..]);
    }
  }

  /** What the pointers to the elements from `from` on read, each after one more `read_next`, when the reader has been
      as far as `head` before: what lies before the head is read from the ring. */
  function SeenFrom<T>(blocks: seq<seq<T>>, zero: T, from: nat, head: int): (s: seq<T>)
    requires from <= |Joined(blocks)|
    ensures |s| == |Joined(blocks)| - from
    ensures forall k :: 0 <= k < |s| ==>
              s[k] == if from + k < head then Joined(blocks)[from + k] else AfterRead(blocks, zero, from + k)
  {
    seq(|Joined(blocks)| - from, k requires 0 <= k < |Joined(blocks)| - from =>
      if from + k < head then Joined(blocks)[from + k] else AfterRead(blocks, zero, from + k))
  }

  lemma {:induction false} SeenTail<T>(blocks: seq<seq<T>>, zero: T, from: nat, head: int, now: int)
    requires from < |Joined(blocks)| && now == if from + 1 > head then from + 1 else head
    ensures SeenFrom(blocks, zero, from + 1, now) == SeenFrom(blocks, zero, from, head)[1..]
  {
    hide Joined, AfterRead;
  }

  /** A pointer is only wrong if its element lies at the head or beyond it, at the end of a block before another. */
  lemma {:induction false} WrongOnlyAtBlockEnds<T>(blocks: seq<seq<T>>, zero: T, from: nat, head: int, k: nat)
    requires from + k < |Joined(blocks)| && SeenFrom(blocks, zero, from, head)[k] != Joined(blocks)[from + k]
    ensures from + k >= head && EndsBlock(blocks, from + k)
  {
    if !EndsBlock(blocks, from + k) { AfterReadInside(blocks, zero, from + k); }
  }

  lemma {:induction false} JoinedAt<T>(blocks: seq<seq<T>>, zero: T, k: nat, i: nat)
    requires k < |blocks| && i < |blocks[k]|
    ensures Before(blocks, k) + i < |Joined(blocks)| && Joined(blocks)[Before(blocks, k) + i] == blocks[k][i]
    ensures AfterRead(blocks, zero, Before(blocks, k) + i)
            == if i + 1 < |blocks[k]| || k + 1 == |blocks| then blocks[k][i] else InBuffer(blocks[k + 1], zero, i)
    decreases k
  {
    if k > 0 {
      JoinedAt(blocks[1..], zero, k - 1, i);
      BeforeTail(blocks, k);
    }
  }

  lemma {:induction false} BeforeTail<T>(blocks: seq<seq<T>>, k: nat)
    requires 0 < k <= |blocks|
    ensures Before(blocks, k) == |blocks[0]| + Before(blocks[1..], k - 1)
    decreases k
  {
    if k > 1 { BeforeTail(blocks, k - 1); }
  }

  lemma {:induction false} BeforeAll<T>(blocks: seq<seq<T>>)
    ensures Before(blocks, |blocks|) == |Joined(blocks)|
  {
    if blocks != [] {
      BeforeTail(blocks, |blocks|);
      BeforeAll(blocks[1..]);
    }
  }

  lemma {:induction false} BeforeGrows<T>(blocks: seq<seq<T>>, k: nat)
    requires k <= |blocks|
    ensures Before(blocks, k) <= Before(blocks, |blocks|)
    decreases |blocks| - k
  {
    if k < |blocks| { BeforeGrows(blocks, k + 1); }
  }

  /** The block reader, as its caller sees it: one block at a time, in a buffer that the next block overwrites. */
  class BlockReader<T(0)> {
    /** Every block it will ever deliver, what the buffer is cleared with, and how many blocks have been read. */
    const blocks: seq<seq<T>>
    const zero: T
    var taken: nat

    const buffer: array<T>
    var count: nat
    var current: nat

    ghost predicate Valid()
      reads this, buffer
    {
      && GoodBlocks(blocks) && buffer.Length == BLOCK_CAPACITY
      && taken <= |blocks| && current <= count && count == (if taken == 0 then 0 else |blocks[taken - 1]|)
      && (taken > 0 ==>
           current > 0 && forall i :: 0 <= i < BLOCK_CAPACITY ==> buffer[i] == InBuffer(blocks[taken - 1], zero, i))
    }

    /** How many elements have been handed out. */
    ghost function Delivered(): nat
      requires Valid()
      reads this, buffer
    {
      if taken == 0 then 0 else Before(blocks, taken - 1) + current
    }

    constructor (blocks: seq<seq<T>>, zero: T)
      requires GoodBlocks(blocks)
      ensures Valid() && fresh(buffer) && this.blocks == blocks && this.zero == zero && Delivered() == 0
    {
      this.blocks, this.zero := blocks, zero;
      taken, count, current := 0, 0, 0;
      buffer := new T[BLOCK_CAPACITY];
    }

    /** `read_next`: where the next element lies in the buffer. The element before it may be gone. */
    method ReadNext() returns (r: Option<nat>)
      requires Valid()
      modifies this, buffer
      ensures Valid() && old(Delivered()) <= |Joined(blocks)|
      ensures r == if old(Delivered()) < |Joined(blocks)| then Some(current - 1) else None
      ensures Delivered() == old(Delivered()) + (if r.Some? then 1 else 0)
      ensures r.Some? ==> 0 < current <= BLOCK_CAPACITY && buffer[current - 1] == Joined(blocks)[old(Delivered())]
      ensures 0 < old(Delivered()) ==> 0 < old(current) <= BLOCK_CAPACITY
      ensures 0 < old(Delivered()) ==> buffer[old(current) - 1] == AfterRead(blocks, zero, old(Delivered()) - 1)
    {
      Bounded();
      if Delivered() > 0 { LastRead(); }
      hide Joined, AfterRead, Before, InBuffer;
      if current == count {
        if taken == |blocks| { return None; }
        Refill();
      } else {
        Take();
      }
      r := Some(current - 1);
    }

    lemma {:induction false} Bounded()
      requires Valid()
      ensures Delivered() <= |Joined(blocks)| && (Delivered() == 0 <==> taken == 0)
      ensures current == count && taken == |blocks| ==> Delivered() == |Joined(blocks)|
    {
      BeforeAll(blocks);
      BeforeGrows(blocks, taken);
    }

    /** What the pointer to the element handed out last will read: the same, or what the next block puts there. */
    lemma {:induction false} LastRead()
      requires Valid() && taken > 0
      ensures 0 < Delivered() <= |Joined(blocks)| && 0 < current <= BLOCK_CAPACITY
      ensures AfterRead(blocks, zero, Delivered() - 1)
              == if current < count || taken == |blocks| then buffer[current - 1]
                 else InBuffer(blocks[taken], zero, current - 1)
    {
      JoinedAt(blocks, zero, taken - 1, current - 1);
      hide Joined, AfterRead, Before;
    }

    /** The next element of the block. */
    method Take()
      requires Valid() && current < count
      modifies this`current
      ensures Valid() && current == old(current) + 1 && Delivered() == old(Delivered()) + 1
      ensures old(Delivered()) < |Joined(blocks)| && buffer[current - 1] == Joined(blocks)[old(Delivered())]
    {
      JoinedAt(blocks, zero, taken - 1, current);
      hide Joined, AfterRead;
      current := current + 1;
    }

    /** `read_next_block`: the buffer is cleared, and holds the next block, of which the first element is taken. */
    method Refill()
      requires Valid() && current == count && taken < |blocks|
      modifies this, buffer
      ensures Valid() && current == 1 && taken == old(taken) + 1
      ensures Delivered() == old(Delivered()) + 1 && old(Delivered()) < |Joined(blocks)|
      ensures buffer[0] == Joined(blocks)[old(Delivered())]
      ensures forall i :: 0 <= i < BLOCK_CAPACITY ==> buffer[i] == InBuffer(blocks[old(taken)], zero, i)
    {
      JoinedAt(blocks, zero, taken, 0);
      hide Joined, AfterRead;
      var b := blocks[taken];
      forall i | 0 <= i < BLOCK_CAPACITY { buffer[i] := InBuffer(b, zero, i); }
      taken, count, current := taken + 1, |b|, 1;
    }
  }

  // ---------- The ring ----------

  /** Where an element lies: in a slot of the ring, or in the buffer of the block reader. */
  datatype Pointer = InRing(slot: nat) | InBlock(index: nat)

  class BufferedReader<T(0)> {
    const source: BlockReader<T>
    /** Everything the block reader will ever deliver. */
    ghost const input: seq<T>

    const buffer: array<T>
    var count: nat
    var first: nat
    var head: Option<nat>
    var negativeOffset: nat

    /** Position of `head` in the input, -1 before the first read; the furthest point reached. */
    ghost var headIndex: int

    ghost function Repr(): set<object> {
      {this, buffer, source, source.buffer}
    }

    ghost predicate Valid()
      reads Repr()
    {
      && source.Valid() && input == Joined(source.blocks) && buffer != source.buffer
      && -1 <= headIndex <= |input|
      && source.Delivered() == (if headIndex < |input| then headIndex + 1 else |input|)
      && head == (if 0 <= headIndex < |input| then Some(source.current - 1) else None)
      && (head.Some? ==> source.current > 0 && source.buffer[source.current - 1] == input[headIndex])
      && count == (if headIndex < 0 then 0
                   else if headIndex < HISTORY_BUFFER_SIZE then headIndex
                   else HISTORY_BUFFER_SIZE)
      && first + count == (if headIndex < 0 then 0 else headIndex)
      && negativeOffset <= count
      && Holds()
    }

    /** Position of the element most recently returned. */
    ghost function Cursor(): int
      reads this
    {
      headIndex - negativeOffset
    }

    /** The pointer to that element. */
    ghost function Where(): Pointer
      reads this
    {
      if negativeOffset > 0 && first + count >= negativeOffset
      then InRing((first + count - negativeOffset) % HISTORY_BUFFER_SIZE)
      else match head case Some(i) => InBlock(i) case None => InBlock(0)
    }

    ghost predicate InMemory(p: Pointer) {
      match p
      case InRing(slot) => slot < buffer.Length
      case InBlock(index) => index < source.buffer.Length
    }

    /** What a pointer reads now. */
    function Deref(p: Pointer): T
      requires InMemory(p)
      reads buffer, source.buffer
    {
      match p
      case InRing(slot) => buffer[slot]
      case InBlock(index) => source.buffer[index]
    }

    /** What a pointer to the element at the cursor reads after one more `read_next`: a slot of the ring keeps its
        element, the head does not if the block reader has gone on to another block. */
    ghost function Later(cursor: nat, headIndex: int): T
      requires cursor < |Joined(source.blocks)|
    {
      if cursor < headIndex then Joined(source.blocks)[cursor] else AfterRead(source.blocks, source.zero, cursor)
    }

    /** The cursor stands at this position of this input. */
    ghost predicate StandsAt(all: seq<T>, position: int)
      reads Repr()
    {
      Valid() && input == all && Cursor() == position
    }

    constructor (blocks: seq<seq<T>>, zero: T)
      requires GoodBlocks(blocks)
      ensures Valid() && input == Joined(blocks) && source.blocks == blocks && source.zero == zero
      ensures fresh(buffer) && fresh(source) && fresh(source.buffer)
      ensures headIndex == -1 && Cursor() == -1
    {
      source := new BlockReader<T>(blocks, zero);
      input := Joined(blocks);
      count, first, head, negativeOffset := 0, 0, None, 0;
      headIndex := -1;
      buffer := new T[HISTORY_BUFFER_SIZE];
    }

    /** The ring holds the elements at `first`, ..., `first + count - 1` of the input. */
    ghost predicate Holds()
      reads this, buffer
    {
      && buffer.Length == HISTORY_BUFFER_SIZE
      && first + count <= |input|
      && forall j :: first <= j < first + count ==> buffer[j % HISTORY_BUFFER_SIZE] == input[j]
    }

    /** Appends the element at position `first + count`, overwriting the oldest when full. */
    method Remember(x: T)
      requires Holds() && first + count < |input| && x == input[first + count]
      requires count <= HISTORY_BUFFER_SIZE && (first > 0 ==> count == HISTORY_BUFFER_SIZE)
      modifies this`count, this`first, buffer
      ensures Holds() && first + count == old(first + count) + 1
      ensures count == if old(count) < HISTORY_BUFFER_SIZE then old(count) + 1 else HISTORY_BUFFER_SIZE
    {
      forall j | first <= j < first + count && first + count < j + HISTORY_BUFFER_SIZE
        ensures j % HISTORY_BUFFER_SIZE != (first + count) % HISTORY_BUFFER_SIZE
      {
        SlotsAreDistinct(j, first + count);
      }
      if count < HISTORY_BUFFER_SIZE {
        buffer[count] := x;
        count := count + 1;
      } else {
        buffer[(first + HISTORY_BUFFER_SIZE) % HISTORY_BUFFER_SIZE] := x;
        first := first + 1;
      }
    }

    method ReadNext() returns (r: Option<Pointer>)
      requires Valid()
      modifies Repr()
      ensures Valid()
      ensures Cursor() == NextCursor(input, old(Cursor())) && 0 <= Cursor()
      ensures headIndex == if Cursor() > old(headIndex) then Cursor() else old(headIndex)
      ensures r == if Cursor() < |input| then Some(Where()) else None
      ensures r.Some? ==> InMemory(r.value) && Deref(r.value) == input[Cursor()]
      // what the pointer handed out before reads now
      ensures 0 <= old(Cursor()) < |input| ==>
                InMemory(old(Where())) && Deref(old(Where())) == Later(old(Cursor()), old(headIndex))
    {
      hide Joined, AfterRead;
      if negativeOffset != 0 {
        r := Replay();
      } else {
        if count == 0 && head == None {
          head := source.ReadNext();
          headIndex := 0;
        } else if head.Some? {
          ReadOn();
        }
        r := match head case Some(i) => Some(InBlock(i)) case None => None;
      }
    }

    /** A slot of the ring the caller has stepped back to. */
    lemma {:induction false} SlotHolds(back: nat)
      requires Holds() && 0 < back <= count
      ensures first + count - back < |input|
      ensures var slot := (first + count - back) % HISTORY_BUFFER_SIZE;
              slot < buffer.Length && buffer[slot] == input[first + count - back]
    {
    }

    /** One step forward again, up to the head. */
    method Replay() returns (r: Option<Pointer>)
      requires Valid() && negativeOffset != 0
      modifies this`negativeOffset
      ensures Valid() && Cursor() == old(Cursor()) + 1
      ensures r == if Cursor() < |input| then Some(Where()) else None
      ensures r.Some? ==> InMemory(r.value) && Deref(r.value) == input[Cursor()]
      ensures 0 <= old(Cursor()) < |input| && InMemory(old(Where())) && Deref(old(Where())) == input[old(Cursor())]
    {
      hide Joined;
      SlotHolds(negativeOffset);
      negativeOffset := negativeOffset - 1;
      if negativeOffset == 0 {
        r := match head case Some(i) => Some(InBlock(i)) case None => None;
      } else {
        SlotHolds(negativeOffset);
        r := Some(InRing((first + count - negativeOffset) % HISTORY_BUFFER_SIZE));
      }
    }

    /** The head goes into the ring, and the block reader hands out the next one. */
    method ReadOn()
      requires Valid() && negativeOffset == 0 && head.Some?
      modifies this`head, this`headIndex, this`count, this`first, buffer, source, source.buffer
      ensures Valid() && headIndex == old(headIndex) + 1
      ensures old(head.value) < source.buffer.Length
      ensures source.buffer[old(head.value)] == AfterRead(source.blocks, source.zero, old(headIndex))
    {
      hide Joined, AfterRead;
      Remember(source.buffer[head.value]);
      head := source.ReadNext();
      headIndex := headIndex + 1;
    }

    /** The caller may go back to any of the 127 elements before the furthest one read. */
    ghost predicate CanStepBack(n: nat)
      requires Valid()
      reads Repr()
    {
      0 < headIndex && 0 <= Cursor() - n && headIndex - (Cursor() - n) <= HISTORY_BUFFER_SIZE
    }

    /** That is exactly what the code asserts about its own fields. */
    lemma {:induction false} CanStepBackIsTheAssertedCondition(n: nat)
      requires Valid()
      ensures CanStepBack(n) <==> count != 0 && negativeOffset + n <= count
    {
    }

    method StepBack(n: nat) returns (r: Option<Pointer>)
      requires Valid() && CanStepBack(n)
      modifies this
      ensures Valid() && headIndex == old(headIndex)
      ensures Cursor() == old(Cursor()) - n
      ensures r == if Cursor() < |input| then Some(Where()) else None
      ensures r.Some? ==> InMemory(r.value) && Deref(r.value) == input[Cursor()]
    {
      negativeOffset := negativeOffset + n;
      if negativeOffset != 0 {
        r := Some(InRing((first + count - negativeOffset) % HISTORY_BUFFER_SIZE));
      } else {
        r := match head case Some(i) => Some(InBlock(i)) case None => None;
      }
    }
  }
}
