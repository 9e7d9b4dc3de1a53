/** One compatibility hook replacement per verified Dorion process: fixed pending and successful
    histories, and the flag that stands in for a history that no longer fits. */
module DorionHookReclaimPolicy {

  import FixedSlots

  const MAX_PENDING := 4
  const MAX_SUCCESSFUL := 8
  const EXE_NAME := "dorion.exe"

  datatype Identity = Identity(pid: nat, creationTime: nat) {
    predicate IsValid() { pid != 0 && creationTime != 0 }
  }

  const NO_IDENTITY := Identity(0, 0)

  // ---------- The rules on sets ----------

  datatype History = History(pending: set<Identity>, successful: set<Identity>, suppress: bool) {
    /** Both histories within their size, and no identity in both. */
    ghost predicate Bounded() {
      && |pending| <= MAX_PENDING && |successful| <= MAX_SUCCESSFUL && pending !! successful
      && (forall id :: id in pending + successful ==> id.IsValid())
    }

    predicate Grants(exeName: string, id: Identity, isCurrent: bool) {
      && isCurrent && exeName == EXE_NAME && id.IsValid()
      && id !in pending && id !in successful && !suppress && |pending| < MAX_PENDING
    }

    function Observe(exeName: string, id: Identity, isCurrent: bool): History {
      if Grants(exeName, id, isCurrent) then this.(pending := pending + {id}) else this
    }

    function Complete(id: Identity, succeeded: bool): History {
      if !succeeded || !id.IsValid() || id in successful then Forget(id)
      else Forget(id).Remember(id)
    }

    function Forget(id: Identity): History { this.(pending := pending - {id}) }

    function Remember(id: Identity): History {
      if |successful| < MAX_SUCCESSFUL then this.(successful := successful + {id}) else this.(suppress := true)
    }

    /** No observation of this identity is granted any more. */
    predicate IsSettled(id: Identity) { id in successful || suppress }
  }

  const EMPTY_HISTORY := History({}, {}, false)

  // ---------- Fixed slots ----------

  /** Empty slots hold no identity; the others hold distinct valid ones. */
  ghost predicate SlotsAre(slots: seq<Identity>, ids: set<Identity>) {
    FixedSlots.Hold(slots, ids, NO_IDENTITY)
      && forall k :: 0 <= k < |slots| ==> slots[k].IsValid() || slots[k] == NO_IDENTITY
  }

  method Contains(slots: array<Identity>, needle: Identity) returns (r: bool)
    ensures r == (needle in slots[..])
  {
    for i := 0 to slots.Length
      invariant needle !in slots[..i]
    {
      if slots[i] == needle { return true; }
    }
    assert slots[..slots.Length] == slots[..];
    r := false;
  }

  method Erase(slots: array<Identity>, needle: Identity, ghost ids: set<Identity>)
    requires SlotsAre(slots[..], ids)
    modifies slots
    ensures SlotsAre(slots[..], ids - {needle})
  {
    for i := 0 to slots.Length
      invariant slots[..] == old(slots[..]) && needle !in slots[..i]
    {
      if slots[i] == needle {
        FixedSlots.Clear(slots[..], ids, NO_IDENTITY, i);
        slots[i] := NO_IDENTITY;
        return;
      }
    }
    assert slots[..slots.Length] == slots[..];
    assert ids - {needle} == ids;
  }

  /** Puts an identity in the first empty slot, if there is one. */
  method Insert(slots: array<Identity>, id: Identity, ghost ids: set<Identity>) returns (ok: bool)
    requires SlotsAre(slots[..], ids) && id.IsValid() && id !in ids
    modifies slots
    ensures ok == (|ids| < slots.Length)
    ensures SlotsAre(slots[..], if ok then ids + {id} else ids)
  {
    FixedSlots.Count(slots[..], ids, NO_IDENTITY);
    for i := 0 to slots.Length
      invariant slots[..] == old(slots[..]) && forall k :: 0 <= k < i ==> slots[k].IsValid()
    {
      if !slots[i].IsValid() {
        FixedSlots.Fill(slots[..], ids, NO_IDENTITY, i, id);
        slots[i] := id;
        return true;
      }
    }
    ok := false;
  }

  lemma {:induction false} RememberKeeps(h: History, id: Identity)
    requires h.Bounded() && id.IsValid() && id !in h.pending
    ensures h.Remember(id).Bounded() && h.Remember(id).IsSettled(id)
    ensures forall x :: h.IsSettled(x) ==> h.Remember(id).IsSettled(x)
  {
  }

  lemma {:induction false} CompleteIs(h: History, id: Identity, succeeded: bool)
    ensures h.Complete(id, succeeded) ==
            if succeeded && id.IsValid() && id !in h.Forget(id).successful then h.Forget(id).Remember(id)
              else h.Forget(id)
    ensures id !in h.Forget(id).pending
    ensures id in h.successful ==> h.Forget(id).IsSettled(id)
    ensures h.Forget(id).successful == h.successful
  {
  }

  class Policy {
    const pending: array<Identity>
    const successful: array<Identity>
    var suppressNewIdentities: bool

    ghost var history: History
    /** Every valid identity that has completed successfully since the last reset. */
    ghost var done: set<Identity>

    ghost predicate Valid()
      reads this, pending, successful
    {
      && pending != successful && pending.Length == MAX_PENDING && successful.Length == MAX_SUCCESSFUL
      && SlotsAre(pending[..], history.pending) && SlotsAre(successful[..], history.successful)
      && suppressNewIdentities == history.suppress && history.Bounded()
      && forall id :: id in done ==> history.IsSettled(id)
    }

    constructor ()
      ensures Valid() && fresh(pending) && fresh(successful) && history == EMPTY_HISTORY && done == {}
    {
      pending := new Identity[MAX_PENDING](_ => NO_IDENTITY);
      successful := new Identity[MAX_SUCCESSFUL](_ => NO_IDENTITY);
      suppressNewIdentities, history, done := false, EMPTY_HISTORY, {};
    }

    /** True for the one caller that may replace the hook; never for an identity already done. */
    method Observe(exeName: string, id: Identity, isCurrent: bool) returns (granted: bool)
      requires Valid()
      modifies this, pending
      ensures Valid() && done == old(done)
      ensures granted == old(history).Grants(exeName, id, isCurrent)
      ensures history == old(history).Observe(exeName, id, isCurrent)
      ensures granted ==> id !in done
    {
      if !isCurrent || exeName != EXE_NAME || !id.IsValid() { return false; }
      var isPending := Contains(pending, id);
      var isSuccessful := Contains(successful, id);
      if isPending || isSuccessful || suppressNewIdentities { return false; }
      granted := Insert(pending, id, history.pending);
      if granted { history := history.(pending := history.pending + {id}); }
    }

    method Complete(id: Identity, succeeded: bool)
      requires Valid()
      modifies this, pending, successful
      ensures Valid()
      ensures history == old(history).Complete(id, succeeded)
      ensures done == old(done) + if succeeded && id.IsValid() then {id} else {}
    {
      hide *;
      CompleteIs(history, id, succeeded);
      Forget(id);
      var isSuccessful := IsSuccessful(id);
      ghost var finished := succeeded && id.IsValid();
      if succeeded && id.IsValid() && !isSuccessful { Remember(id); }
      if finished { MarkDone(id); }
    }

    method Forget(id: Identity)
      requires Valid()
      modifies this`history, pending
      ensures Valid() && history == old(history).Forget(id)
    {
      hide SlotsAre;
      FixedSlots.SizeWithout(history.pending, id);
      Erase(pending, id, history.pending);
      history := history.Forget(id);
    }

    method IsSuccessful(id: Identity) returns (r: bool)
      requires Valid()
      ensures id.IsValid() ==> r == (id in history.successful)
    {
      r := Contains(successful, id);
    }

    ghost method MarkDone(id: Identity)
      requires Valid() && history.IsSettled(id)
      modifies this`done
      ensures Valid() && done == old(done) + {id}
    {
      hide SlotsAre;
      done := done + {id};
    }

    /** Stores a completed identity, or gives up on new ones when the history is full. */
    method Remember(id: Identity)
      requires Valid() && id.IsValid() && id !in history.successful && id !in history.pending
      modifies this`history, this`suppressNewIdentities, successful
      ensures Valid() && history == old(history).Remember(id) && history.IsSettled(id)
    {
      hide SlotsAre;
      RememberKeeps(history, id);
      var kept := Insert(successful, id, history.successful);
      if !kept { suppressNewIdentities := true; }
      history := history.Remember(id);
    }

    method Reset()
      requires Valid()
      modifies this, pending, successful
      ensures Valid() && history == EMPTY_HISTORY && done == {}
    {
      forall i | 0 <= i < pending.Length { pending[i] := NO_IDENTITY; }
      forall i | 0 <= i < successful.Length { successful[i] := NO_IDENTITY; }
      suppressNewIdentities, history, done := false, EMPTY_HISTORY, {};
    }
  }

  // ---------- Whole runs ----------

  datatype Event = Observed(exeName: string, id: Identity, isCurrent: bool) | Completed(id: Identity, succeeded: bool)

  function Step(h: History, e: Event): History {
    match e
    case Observed(exeName, id, isCurrent) => h.Observe(exeName, id, isCurrent)
    case Completed(id, succeeded) => h.Complete(id, succeeded)
  }

  function Run(h: History, events: seq<Event>): History {
    if events == [] then h else Step(Run(h, events[..|events| - 1]), events[|events| - 1])
  }

  /** Whether the k-th event is an observation that was answered with true. */
  predicate GrantedAt(events: seq<Event>, k: nat)
    requires k < |events|
  {
    events[k].Observed? && Run(EMPTY_HISTORY, events[..k]).Grants(events[k].exeName, events[k].id, events[k].isCurrent)
  }

  lemma {:induction false} StepKeeps(h: History, e: Event, id: Identity)
    requires h.Bounded()
    ensures Step(h, e).Bounded()
    ensures h.IsSettled(id) ==> Step(h, e).IsSettled(id)
    ensures e.Completed? && e.succeeded && e.id.IsValid() ==> Step(h, e).IsSettled(e.id)
  {
    match e
    case Observed(exeName, x, isCurrent) =>
    case Completed(x, succeeded) =>
      ForgetKeeps(h, x);
      if succeeded && x.IsValid() && x !in h.successful { RememberKeeps(h.Forget(x), x); }
  }

  lemma {:induction false} ForgetKeeps(h: History, id: Identity)
    requires h.Bounded()
    ensures h.Forget(id).Bounded() && id !in h.Forget(id).pending
  {
    FixedSlots.SizeWithout(h.pending, id);
  }

  lemma {:induction false} RunIsBounded(events: seq<Event>)
    ensures Run(EMPTY_HISTORY, events).Bounded()
  {
    if events != [] {
      RunIsBounded(events[..|events| - 1]);
      StepKeeps(Run(EMPTY_HISTORY, events[..|events| - 1]), events[|events| - 1], NO_IDENTITY);
    }
  }

  lemma {:induction false} SettledAfterSuccess(events: seq<Event>, j: nat, id: Identity)
    requires j < |events| && events[j] == Completed(id, true) && id.IsValid()
    ensures Run(EMPTY_HISTORY, events).IsSettled(id)
  {
    var n := |events| - 1;
    RunIsBounded(events[..n]);
    StepKeeps(Run(EMPTY_HISTORY, events[..n]), events[n], id);
    if j < n {
      assert events[..n][j] == events[j];
      SettledAfterSuccess(events[..n], j, id);
    }
  }

  /** In every run, however many processes come and go, no process is granted a replacement after its success. */
  lemma {:induction false} NeverGrantedAgain(events: seq<Event>, j: nat, k: nat)
    requires j < k < |events| && events[j].Completed? && events[j].succeeded && events[j].id.IsValid()
    requires events[k].Observed? && events[k].id == events[j].id
    ensures !GrantedAt(events, k)
  {
    assert events[..k][j] == events[j];
    SettledAfterSuccess(events[..k], j, events[j].id);
  }

  lemma {:induction false} PendingStep(h: History, e: Event, id: Identity)
    requires if e.Observed? then id in h.pending || (e.id == id && h.Grants(e.exeName, id, e.isCurrent))
             else e.id != id && id in h.pending
    ensures id in Step(h, e).pending
  {
  }

  lemma {:induction false} PendingWhileUnanswered(events: seq<Event>, j: nat, id: Identity)
    requires j < |events| && GrantedAt(events, j) && events[j].id == id
    requires forall i :: j < i < |events| ==> events[i].Completed? ==> events[i].id != id
    ensures id in Run(EMPTY_HISTORY, events).pending
  {
    var n := |events| - 1;
    hide Step;
    if j < n {
      assert events[..n][j] == events[j] && events[..n][..j] == events[..j];
      assert forall i :: j < i < n ==> events[..n][i] == events[i];
      PendingWhileUnanswered(events[..n], j, id);
    }
    PendingStep(Run(EMPTY_HISTORY, events[..n]), events[n], id);
  }

  /** Two grants to one process have a completion of that process between them. */
  lemma {:induction false} OneReplacementInFlight(events: seq<Event>, j: nat, k: nat)
    requires j < k < |events| && GrantedAt(events, j) && GrantedAt(events, k) && events[j].id == events[k].id
    ensures exists i :: j < i < k && events[i].Completed? && events[i].id == events[j].id
  {
    if forall i :: j < i < k ==> events[i].Completed? ==> events[i].id != events[j].id {
      assert forall i :: 0 <= i < k ==> events[..k][i] == events[i];
      assert events[..k][..j] == events[..j];
      PendingWhileUnanswered(events[..k], j, events[j].id);
    }
  }
}
