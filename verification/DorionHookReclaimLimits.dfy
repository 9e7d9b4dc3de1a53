/** How many processes and tickets fit, over whole runs. */
module DorionHookReclaimLimits {
  import opened Wrappers
  import opened DorionHookReclaimPolicy
  import Sequence = DorionHookReclaimSequence

  // ---------- Processes ----------

  /** Processes that are not one another. */
  predicate Different(ids: seq<Identity>) {
    && (forall i :: 0 <= i < |ids| ==> ids[i].pid != 0 && ids[i].creationTime != 0)
    && forall i, j :: 0 <= i < j < |ids| ==> ids[i] != ids[j]
  }

  function AsSet(ids: seq<Identity>): set<Identity> { set id | id in ids }

  lemma {:induction false} OneMore(ids: seq<Identity>, n: nat)
    requires Different(ids) && n < |ids|
    ensures AsSet(ids[..n + 1]) == AsSet(ids[..n]) + {ids[n]} && ids[n] !in AsSet(ids[..n]) && ids[n].IsValid()
  {
  }

  lemma {:induction false} NotAmong(ids: seq<Identity>, m: nat, k: nat)
    requires Different(ids) && m <= k < |ids|
    ensures ids[k] !in AsSet(ids[..m])
  {
  }

  lemma {:induction false} NoIds(ids: seq<Identity>)
    requires ids == []
    ensures AsSet(ids) == {}
  {
  }

  lemma {:induction false} SizeOfSet(ids: seq<Identity>, n: nat)
    requires Different(ids) && n <= |ids|
    ensures |AsSet(ids[..n])| == n
  {
    hide AsSet, Different;
    if n > 0 {
      SizeOfSet(ids, n - 1);
      OneMore(ids, n - 1);
    } else {
      NoIds(ids[..0]);
    }
  }

  /** So many processes start, each the foreground one when it does. */
  function Starting(ids: seq<Identity>, n: nat): (events: seq<Event>)
    requires n <= |ids|
    ensures |events| == n
  {
    if n == 0 then [] else Starting(ids, n - 1) + [Observed("dorion.exe", ids[n - 1], true)]
  }

  /** Of processes that start one after another the first four are granted a replacement, and no more. */
  lemma {:induction false} FourAreGranted(ids: seq<Identity>, n: nat)
    requires Different(ids) && n <= |ids|
    ensures Run(EMPTY_HISTORY, Starting(ids, n)) == History(AsSet(ids[..if n < 4 then n else 4]), {}, false)
    ensures n > 0 ==> (GrantedAt(Starting(ids, n), n - 1) <==> n <= 4)
  {
    hide AsSet, Different;
    if n > 0 {
      var events, m := Starting(ids, n), if n - 1 < 4 then n - 1 else 4;
      FourAreGranted(ids, n - 1);
      assert events[..n - 1] == Starting(ids, n - 1);
      OneMore(ids, n - 1);
      SizeOfSet(ids, m);
    } else {
      NoIds(ids[..0]);
    }
  }

  /** So many processes start and are served, one after the other. */
  function Serving(ids: seq<Identity>, n: nat): (events: seq<Event>)
    requires n <= |ids|
    ensures |events| == 2 * n
  {
    if n == 0 then []
    else Serving(ids, n - 1) + [Observed("dorion.exe", ids[n - 1], true)] + [Completed(ids[n - 1], true)]
  }

  /** Of processes that are served one after the other the first eight are remembered; the ninth is served still, and
      then none. */
  lemma {:induction false} EightAreRemembered(ids: seq<Identity>, n: nat)
    requires Different(ids) && n <= |ids|
    ensures Run(EMPTY_HISTORY, Serving(ids, n)) == History({}, AsSet(ids[..if n < 8 then n else 8]), n > 8)
    ensures n > 0 ==> (GrantedAt(Serving(ids, n), 2 * n - 2) <==> n <= 9)
  {
    hide AsSet, Different, Run, History.Observe, History.Complete, History.Grants;
    if n > 0 {
      var before, id, m := Serving(ids, n - 1), ids[n - 1], if n - 1 < 8 then n - 1 else 8;
      var start, done := Observed("dorion.exe", id, true), Completed(id, true);
      EightAreRemembered(ids, n - 1);
      assert Serving(ids, n) == before + [start] + [done];
      OneMoreEvent(before, start);
      OneMoreEvent(before + [start], done);
      assert Serving(ids, n)[..2 * n - 2] == before;
      OneMore(ids, n - 1);
      NotAmong(ids, m, n - 1);
      SizeOfSet(ids, m);
      ServedOnce(Run(EMPTY_HISTORY, before), id);
    } else {
      NothingHappened();
      NoIds(ids[..0]);
    }
  }

  lemma {:induction false} OneMoreEvent(events: seq<Event>, e: Event)
    ensures Run(EMPTY_HISTORY, events + [e]) == Step(Run(EMPTY_HISTORY, events), e)
  {
    assert (events + [e])[..|events|] == events;
  }

  lemma {:induction false} NothingHappened()
    ensures Run(EMPTY_HISTORY, []) == EMPTY_HISTORY
  {
  }

  lemma {:induction false} ServedOnce(h: History, id: Identity)
    requires h.pending == {} && id !in h.successful && id.IsValid()
    ensures h.Grants("dorion.exe", id, true) <==> !h.suppress
    ensures h.Observe("dorion.exe", id, true).Complete(id, true)
            == if |h.successful| < 8 then History({}, h.successful + {id}, h.suppress)
               else History({}, h.successful, true)
  {
  }

  /** Nothing but the foreground process of that name, with an identity, is ever granted one, and not while it waits for
      an answer. */
  lemma {:induction false} OnlyDorion(events: seq<Event>, k: nat)
    requires k < |events| && GrantedAt(events, k)
    ensures events[k].exeName == "dorion.exe" && events[k].isCurrent
    ensures events[k].id.pid != 0 && events[k].id.creationTime != 0
    ensures events[k].id !in Run(EMPTY_HISTORY, events[..k]).pending
  {
  }

  // ---------- Tickets ----------

  /** Tickets that may be armed together. */
  predicate Unlike(tickets: seq<Sequence.Ticket>) {
    && (forall i :: 0 <= i < |tickets| ==>
          && tickets[i].identity.pid != 0 && tickets[i].identity.creationTime != 0
          && tickets[i].timerId != 0 && tickets[i].remainingGateChecks != 0)
    && forall i, j :: 0 <= i < j < |tickets| ==>
         tickets[i].timerId != tickets[j].timerId && tickets[i].identity != tickets[j].identity
  }

  function SetOf(tickets: seq<Sequence.Ticket>): set<Sequence.Ticket> { set t | t in tickets }

  lemma {:induction false} OneTicketMore(tickets: seq<Sequence.Ticket>, n: nat)
    requires Unlike(tickets) && n < |tickets|
    ensures SetOf(tickets[..n + 1]) == SetOf(tickets[..n]) + {tickets[n]} && tickets[n] !in SetOf(tickets[..n])
    ensures tickets[n].IsValid()
    ensures forall t :: t in SetOf(tickets[..n]) ==>
              t.timerId != tickets[n].timerId && t.identity != tickets[n].identity
  {
  }

  lemma {:induction false} SizeOfTickets(tickets: seq<Sequence.Ticket>, n: nat)
    requires Unlike(tickets) && n <= |tickets|
    ensures |SetOf(tickets[..n])| == n
  {
    hide SetOf, Unlike;
    if n > 0 {
      SizeOfTickets(tickets, n - 1);
      OneTicketMore(tickets, n - 1);
    } else {
      NoTickets(tickets[..0]);
    }
  }

  lemma {:induction false} NoTickets(tickets: seq<Sequence.Ticket>)
    requires tickets == []
    ensures SetOf(tickets) == {}
  {
  }

  lemma {:induction false} UnlikeFront(tickets: seq<Sequence.Ticket>, n: nat)
    requires Unlike(tickets) && n <= |tickets|
    ensures Unlike(tickets[..n])
  {
  }

  /** One more ticket, behind the first `n`. */
  lemma {:induction false} ArmedOneMore(c: Sequence.Call, tickets: seq<Sequence.Ticket>, n: nat)
    requires Unlike(tickets) && n < |tickets| && Sequence.Allowed(c) && c.event == Sequence.ArmEvent(tickets[n])
    requires c.before == SetOf(tickets[..if n < 4 then n else 4])
    ensures c.after == SetOf(tickets[..if n < 3 then n + 1 else 4])
  {
    hide SetOf, Unlike;
    OneTicketMore(tickets, n);
    SizeOfTickets(tickets, if n < 4 then n else 4);
  }

  /** Of tickets armed one after another the first four are, and no more. */
  lemma {:induction false} FourAreArmed(calls: seq<Sequence.Call>, tickets: seq<Sequence.Ticket>)
    requires Sequence.IsRun(calls) && |calls| == |tickets| && Unlike(tickets)
    requires forall k :: 0 <= k < |calls| ==> calls[k].event == Sequence.ArmEvent(tickets[k])
    ensures calls != [] ==> calls[|calls| - 1].after == SetOf(tickets[..if |tickets| < 4 then |tickets| else 4])
  {
    hide SetOf, Unlike, Sequence.Allowed;
    if calls != [] {
      var n := |calls| - 1;
      Sequence.RunPrefix(calls, n);
      UnlikeFront(tickets, n);
      FourAreArmed(calls[..n], tickets[..n]);
      if n > 0 {
        assert calls[n - 1].after == calls[n - 1 + 1].before;
        assert tickets[..n][..if n < 4 then n else 4] == tickets[..if n < 4 then n else 4];
      } else {
        NoTickets(tickets[..0]);
      }
      ArmedOneMore(calls[n], tickets, n);
    }
  }

  /** A timer whose ticket is armed and due hands it out. */
  lemma {:induction false} OnTime(calls: seq<Sequence.Call>, k: nat, t: Sequence.Ticket)
    requires Sequence.IsRun(calls) && k < |calls| && calls[k].event.TimerEvent?
    requires t in calls[k].before && Sequence.Keyed(calls[k].before)
    requires calls[k].event.timerId == t.timerId && t.dueTickMs <= calls[k].event.now
    ensures calls[k].out == Some(t) && calls[k].after == calls[k].before - {t}
  {
    hide Sequence.Ticket.IsValid;
  }
}
