/** Delayed hook replacements: four slots of armed tickets keyed by timer id, and the quiet test that
    compares wrapping 32-bit tick counts. */
module DorionHookReclaimSequence {

  import opened Wrappers
  import opened DorionHookReclaimPolicy
  import FixedSlots

  const CAPACITY := 4
  const QUIET_MS := 100
  const TWO_TO_THE_31 := 0x8000_0000
  const TWO_TO_THE_32 := 0x1_0000_0000

  datatype Ticket = Ticket(identity: Identity, timerId: nat, dueTickMs: nat, remainingGateChecks: nat) {
    predicate IsValid() { identity.IsValid() && timerId != 0 && remainingGateChecks != 0 }
  }

  const NO_TICKET := Ticket(NO_IDENTITY, 0, 0, 0)

  // ---------- The rules on a set of armed tickets ----------

  /** No two armed tickets share a timer or a process: the set is a map keyed by timer id. */
  ghost predicate Keyed(armed: set<Ticket>) {
    && |armed| <= CAPACITY
    && (forall t :: t in armed ==> t.IsValid())
    && (forall t, u :: t in armed && u in armed && (t.timerId == u.timerId || t.identity == u.identity) ==> t == u)
  }

  ghost predicate CanArm(armed: set<Ticket>, ticket: Ticket) {
    && ticket.IsValid() && |armed| < CAPACITY
    && forall t :: t in armed ==> t.timerId != ticket.timerId && t.identity != ticket.identity
  }

  lemma {:induction false} ArmKeeps(armed: set<Ticket>, ticket: Ticket)
    requires Keyed(armed) && CanArm(armed, ticket)
    ensures Keyed(armed + {ticket})
  {
  }

  lemma {:induction false} TakeKeeps(armed: set<Ticket>, ticket: Ticket)
    requires Keyed(armed)
    ensures Keyed(armed - {ticket})
  {
  }

  datatype Event =
    | ArmEvent(ticket: Ticket)
    | TimerEvent(timerId: nat, now: nat)
    | CancelEvent(identity: Identity)
    | ClearEvent

  /** One call: what was armed before and after, and the ticket it handed out, if any. */
  datatype Call = Call(event: Event, before: set<Ticket>, after: set<Ticket>, out: Option<Ticket>)

  /** What a call may do; every method of the slots promises it. */
  ghost predicate Allowed(c: Call) {
    match c.event
    case ArmEvent(t) => c.out.None? && c.after == if CanArm(c.before, t) then c.before + {t} else c.before
    case TimerEvent(timerId, now) =>
      (match c.out
       case Some(t) => t in c.before && t.timerId == timerId && t.dueTickMs <= now && c.after == c.before - {t}
       case None => c.after == c.before && forall t :: t in c.before ==> t.timerId != timerId || now < t.dueTickMs)
    case CancelEvent(identity) =>
      (match c.out
       case Some(t) => t in c.before && t.identity == identity && c.after == c.before - {t}
       case None => c.after == c.before && forall t :: t in c.before ==> t.identity != identity)
    case ClearEvent => c.out.None? && c.after == {}
  }

  class DelayedReclaimSlots {
    const slots: array<Ticket>
    ghost var armed: set<Ticket>

    ghost predicate Valid()
      reads this, slots
    {
      && slots.Length == CAPACITY && Keyed(armed) && FixedSlots.Hold(slots[..], armed, NO_TICKET)
    }

    constructor ()
      ensures Valid() && fresh(slots) && armed == {}
    {
      slots := new Ticket[CAPACITY](_ => NO_TICKET);
      armed := {};
      new;
      FixedSlots.AllEmpty(slots[..], NO_TICKET);
    }

    /** What a slot holds. */
    lemma {:induction false} SlotIs(i: nat)
      requires Valid() && i < CAPACITY
      ensures if slots[i].IsValid() then slots[i] in armed else slots[i] == NO_TICKET
    {
    }

    lemma {:induction false} SlotOf(t: Ticket) returns (i: nat)
      requires Valid() && t in armed
      ensures i < CAPACITY && slots[i] == t
    {
      assert t in slots[..];
      i :| 0 <= i < CAPACITY && slots[..][i] == t;
    }

    method Empty(i: nat) returns (result: Ticket)
      requires Valid() && i < CAPACITY && slots[i].IsValid()
      modifies this`armed, slots
      ensures Valid() && result == old(slots[i]) && result in old(armed) && armed == old(armed) - {result}
    {
      SlotIs(i);
      TakeKeeps(armed, slots[i]);
      FixedSlots.Clear(slots[..], armed, NO_TICKET, i);
      hide FixedSlots.Hold, Keyed;
      result := slots[i];
      armed := armed - {result};
      slots[i] := NO_TICKET;
    }

    method Arm(ticket: Ticket) returns (ok: bool)
      requires Valid()
      modifies this, slots
      ensures Valid()
      ensures ok == CanArm(old(armed), ticket)
      ensures Allowed(Call(ArmEvent(ticket), old(armed), armed, None))
    {
      if !ticket.IsValid() { return false; }
      var clashes := Clashes(ticket);
      if clashes { return false; }
      hide Keyed, FixedSlots.Hold;
      ok := Place(ticket);
    }

    /** Whether the timer or the process of a ticket is armed. */
    method Clashes(ticket: Ticket) returns (r: bool)
      requires Valid() && ticket.IsValid()
      ensures r <==> exists t :: t in armed && (t.timerId == ticket.timerId || t.identity == ticket.identity)
    {
      for i := 0 to CAPACITY
        invariant forall k :: 0 <= k < i ==> slots[k].identity != ticket.identity && slots[k].timerId != ticket.timerId
      {
        SlotIs(i);
        if slots[i].identity == ticket.identity || slots[i].timerId == ticket.timerId { return true; }
      }
      forall t | t in armed ensures t.timerId != ticket.timerId && t.identity != ticket.identity { var k := SlotOf(t); }
      r := false;
    }

    method Place(ticket: Ticket) returns (ok: bool)
      requires Valid() && ticket.IsValid()
      requires forall t :: t in armed ==> t.timerId != ticket.timerId && t.identity != ticket.identity
      modifies this, slots
      ensures Valid()
      ensures ok == (|old(armed)| < CAPACITY)
      ensures armed == if ok then old(armed) + {ticket} else old(armed)
    {
      FixedSlots.Count(slots[..], armed, NO_TICKET);
      for i := 0 to CAPACITY
        invariant Valid() && armed == old(armed) && |armed| <= CAPACITY
        invariant |armed| < CAPACITY <==> NO_TICKET in slots[..]
        invariant forall k :: 0 <= k < i ==> slots[k].IsValid()
      {
        SlotIs(i);
        if !slots[i].IsValid() {
          ArmKeeps(armed, ticket);
          FixedSlots.Fill(slots[..], armed, NO_TICKET, i, ticket);
          hide FixedSlots.Hold, Keyed;
          armed := armed + {ticket};
          slots[i] := ticket;
          return true;
        }
      }
      ok := false;
    }

    /** A ticket leaves through its own timer, at its due tick or later. */
    method TakeIfDue(timerId: nat, nowTickMs: nat) returns (r: Option<Ticket>)
      requires Valid()
      modifies this, slots
      ensures Valid()
      ensures Allowed(Call(TimerEvent(timerId, nowTickMs), old(armed), armed, r))
    {
      if timerId == 0 { return None; }
      for i := 0 to CAPACITY
        invariant Valid() && armed == old(armed)
        invariant forall k :: 0 <= k < i ==> slots[k].timerId != timerId || nowTickMs < slots[k].dueTickMs
      {
        SlotIs(i);
        if slots[i].timerId != timerId || nowTickMs < slots[i].dueTickMs { continue; }
        var result := Empty(i);
        return Some(result);
      }
      forall t | t in armed ensures t.timerId != timerId || nowTickMs < t.dueTickMs { var k := SlotOf(t); }
      r := None;
    }

    method Cancel(identity: Identity) returns (r: Option<Ticket>)
      requires Valid()
      modifies this, slots
      ensures Valid()
      ensures Allowed(Call(CancelEvent(identity), old(armed), armed, r))
    {
      if !identity.IsValid() { return None; }
      for i := 0 to CAPACITY
        invariant Valid() && armed == old(armed)
        invariant forall k :: 0 <= k < i ==> slots[k].identity != identity
      {
        SlotIs(i);
        if slots[i].identity != identity { continue; }
        var result := Empty(i);
        return Some(result);
      }
      forall t | t in armed ensures t.identity != identity { var k := SlotOf(t); }
      r := None;
    }

    method HasTimer(timerId: nat) returns (r: bool)
      requires Valid()
      ensures r <==> exists t :: t in armed && t.timerId == timerId
    {
      if timerId == 0 { return false; }
      for i := 0 to CAPACITY
        invariant forall k :: 0 <= k < i ==> !slots[k].IsValid() || slots[k].timerId != timerId
      {
        SlotIs(i);
        if slots[i].IsValid() && slots[i].timerId == timerId { return true; }
      }
      forall t | t in armed ensures t.timerId != timerId { var k := SlotOf(t); }
      r := false;
    }

    method Clear()
      requires Valid()
      modifies this, slots
      ensures Valid() && Allowed(Call(ClearEvent, old(armed), armed, None))
    {
      forall i | 0 <= i < slots.Length { slots[i] := NO_TICKET; }
      armed := {};
      FixedSlots.AllEmpty(slots[..], NO_TICKET);
    }
  }

  // ---------- Whole runs ----------

  ghost predicate IsRun(calls: seq<Call>) {
    && (forall k :: 0 <= k < |calls| ==> Allowed(calls[k]))
    && (calls != [] ==> calls[0].before == {})
    && (forall k :: 0 <= k < |calls| - 1 ==> calls[k].after == calls[k + 1].before)
  }

  predicate ArmedIn(c: Call, t: Ticket) { t in c.after && t !in c.before }

  predicate HandedOut(c: Call, t: Ticket) { c.out == Some(t) }

  predicate Dropped(c: Call, t: Ticket) { c.event.ClearEvent? && t in c.before }

  function CountArmed(calls: seq<Call>, t: Ticket): nat {
    if calls == [] then 0
    else CountArmed(calls[..|calls| - 1], t) + if ArmedIn(calls[|calls| - 1], t) then 1 else 0
  }

  function CountLeft(calls: seq<Call>, t: Ticket): nat {
    if calls == [] then 0
    else CountLeft(calls[..|calls| - 1], t)
         + if HandedOut(calls[|calls| - 1], t) || Dropped(calls[|calls| - 1], t) then 1 else 0
  }

  lemma {:induction false} RunPrefix(calls: seq<Call>, n: nat)
    requires IsRun(calls) && n <= |calls|
    ensures IsRun(calls[..n])
  {
  }

  lemma {:induction false} CallBalances(c: Call, t: Ticket)
    requires Allowed(c)
    ensures (if t in c.before then 1 else 0) + (if ArmedIn(c, t) then 1 else 0)
            == (if t in c.after then 1 else 0) + (if HandedOut(c, t) || Dropped(c, t) then 1 else 0)
  {
  }

  /** Over every run, each armed ticket leaves exactly once or is still armed. */
  lemma {:induction false} EachTicketLeavesOnce(calls: seq<Call>, t: Ticket)
    requires IsRun(calls)
    ensures CountArmed(calls, t)
            == CountLeft(calls, t) + if calls != [] && t in calls[|calls| - 1].after then 1 else 0
  {
    if calls != [] {
      RunPrefix(calls, |calls| - 1);
      EachTicketLeavesOnce(calls[..|calls| - 1], t);
      CallBalances(calls[|calls| - 1], t);
      var n := |calls| - 1;
      if n > 0 { assert calls[n - 1].after == calls[n - 1 + 1].before; }
      hide Allowed;
    }
  }

  /** A timer hands a ticket out only while it is armed, under its own id, and never before its due tick. */
  lemma {:induction false} NeverEarly(calls: seq<Call>, k: nat, t: Ticket)
    requires IsRun(calls) && k < |calls| && calls[k].event.TimerEvent? && HandedOut(calls[k], t)
    ensures calls[k].event.timerId == t.timerId && t.dueTickMs <= calls[k].event.now
    ensures CountArmed(calls[..k], t) == CountLeft(calls[..k], t) + 1
  {
    RunPrefix(calls, k);
    EachTicketLeavesOnce(calls[..k], t);
    assert t in calls[k].before;
    if k > 0 { assert calls[k - 1].after == calls[k - 1 + 1].before; }
  }

  // ---------- The quiet test ----------

  datatype QuietEvidence = QuietEvidence(
    querySucceeded: bool, nowTickMs: int, lastInputTickMs: int, anyKeyDown: bool, dispatchActive: bool,
    compositionActive: bool)

  /** 32-bit subtraction wraps. */
  function Elapsed(now: int, last: int): (r: int)
    ensures 0 <= r < TWO_TO_THE_32
  {
    (now - last) % TWO_TO_THE_32
  }

  predicate IsQuiet(e: QuietEvidence) {
    && e.querySucceeded && !e.anyKeyDown && !e.dispatchActive && !e.compositionActive
    && Elapsed(e.nowTickMs, e.lastInputTickMs) <= TWO_TO_THE_31 - 1
    && Elapsed(e.nowTickMs, e.lastInputTickMs) >= QUIET_MS
  }

  /** For clocks less than half the range apart, the wrapped ticks tell the real time since the last
      input; an input that seems to lie ahead is never quiet. */
  lemma {:induction false} QuietAcrossWrap(e: QuietEvidence, now: int, last: int)
    requires e.nowTickMs == now % 4294967296 && e.lastInputTickMs == last % 4294967296
    requires -2147483648 <= now - last < 2147483648
    ensures IsQuiet(e) <==>
            e.querySucceeded && !e.anyKeyDown && !e.dispatchActive && !e.compositionActive && now - last >= 100
  {
  }
}
