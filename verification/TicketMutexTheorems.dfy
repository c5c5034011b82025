/** What the ticket mutex promises, for every schedule of any number of threads. */
module TicketMutexTheorems {
  import opened Options
  import opened TicketMutex
  import opened TicketMutexProofs

  /** At most one thread is between acquiring the lock and passing it on. */
  lemma MutualExclusion(schedule: seq<Turn>, t: Tid, u: Tid)
    requires Admitted(At(Exec(schedule), t)) && Admitted(At(Exec(schedule), u))
    ensures t == u
  {
    ExecInv(schedule);
    OneAdmitted(Exec(schedule), WitnessOf(schedule).draws, t, u);
  }

  /** A compare-and-swap of entries succeeds only while the lock is free, and it draws the ticket that
      is being served. */
  lemma FastPathTakesFreeLock(schedule: seq<Turn>, turn: Turn)
    requires var s := Exec(schedule);
             && (At(s, turn.tid).LockCas? || At(s, turn.tid).TryCas?)
             && MoveOf(s, turn).effect.DrawTicket?
    ensures var s := Exec(schedule);
            && s.entries == s.exits
            && At(Step(s, turn), turn.tid) == SetOwner(s.exits)
            && forall u :: !HoldsTicket(At(s, u))
  {
    var s := Exec(schedule);
    ExecInv(schedule);
    MoveAdmits(s, turn);
    OthersStay(s, turn);
    assert At(s, turn.tid).expected <= s.exits;
  }

  /** No lost wakeup: if it is the turn of a thread that sleeps, or is about to, and is not on the ready queue, then the
      thread that published this turn has not finished its scan. */
  lemma NoLostWakeup(schedule: seq<Turn>, t: Tid)
    requires var s := Exec(schedule); Sleeping(At(s, t)) && At(s, t).ticket == s.exits && t !in s.ready
    ensures exists u :: Waking(At(Exec(schedule), u), Exec(schedule).exits)
  {
    ExecInv(schedule);
    assert Waking(At(Exec(schedule), WitnessOf(schedule).waker), Exec(schedule).exits);
  }

  /** Every ticket that was drawn and not passed on is held by exactly one thread, and no other
      tickets are held. */
  lemma TicketsConserved(schedule: seq<Turn>, k: nat)
    ensures var s := Exec(schedule);
            && (s.exits <= k < s.entries <==> exists t :: HoldsTicket(At(s, t)) && At(s, t).ticket == k)
            && (forall t, u :: HoldsTicket(At(s, t)) && HoldsTicket(At(s, u)) && At(s, t).ticket == k == At(s, u).ticket
                               ==> t == u)
  {
    var s, draws := Exec(schedule), WitnessOf(schedule).draws;
    ExecInv(schedule);
    if s.exits <= k < s.entries {
      assert HoldsTicket(At(s, draws[k])) && At(s, draws[k]).ticket == k;
    }
  }

  lemma {:induction false} WitnessDraws(schedule: seq<Turn>)
    ensures WitnessOf(schedule).draws == Draws(schedule)
  {
    if schedule != [] {
      WitnessDraws(schedule[..|schedule| - 1]);
    }
  }

  /** Whether the thread whose ticket is being served has entered its critical section. */
  ghost predicate Occupied(s: State, draws: seq<Tid>)
    requires TicketsMatch(s, draws)
  {
    s.exits < s.entries && TicketMutex.Entered(At(s, draws[s.exits]))
  }

  ghost predicate ServedInOrder(s: State, draws: seq<Tid>, served: seq<Tid>)
    requires TicketsMatch(s, draws)
  {
    && |served| == s.exits + (if Occupied(s, draws) then 1 else 0)
    && served == draws[..|served|]
  }

  /** How a move changes whether its thread is inside the critical section. */
  lemma MoveEnters(s: State, turn: Turn)
    ensures var p, m := At(s, turn.tid), MoveOf(s, turn);
            && (p.SetOwner? ==> m.to.Critical? && m.effect.StoreOwner?)
            && (!p.SetOwner? && !p.UnlockStore? ==> TicketMutex.Entered(p) == TicketMutex.Entered(m.to))
            && (m.effect.StoreExits? <==> p.UnlockStore?)
            && (m.effect.DrawTicket? ==> !HoldsTicket(p))
  {
  }

  lemma ServedAfter(s: State, turn: Turn, draws: seq<Tid>, served: seq<Tid>)
    requires TicketInv(s, draws) && ServedInOrder(s, draws, served)
    requires TicketInv(Step(s, turn), draws + Drawn(s, turn))
    ensures ServedInOrder(Step(s, turn), draws + Drawn(s, turn), served + Entering(s, turn))
  {
    var s', t, draws' := Step(s, turn), turn.tid, draws + Drawn(s, turn);
    OthersStay(s, turn);
    StepCounters(s, turn);
    MoveEnters(s, turn);
    assert forall k :: 0 <= k < |draws| ==> draws'[k] == draws[k];
    if s.exits < s.entries {
      var front := draws[s.exits];
      assert Admitted(At(s, t)) ==> t == front;
    }
    if At(s, t).UnlockStore? {
      if s'.exits < s'.entries {
        assert !Admitted(At(s, draws[s'.exits]));
      }
    }
  }

  /** First come, first served: the threads enter in the order in which they drew their tickets, each
      draw is served at most once, and the number served is the number of exits, plus one while a
      thread is inside. */
  lemma {:induction false} FirstComeFirstServed(schedule: seq<Turn>)
    ensures Entries(schedule) <= Draws(schedule)
    ensures |Draws(schedule)| == Exec(schedule).entries
    ensures Exec(schedule).exits <= |Entries(schedule)| <= Exec(schedule).exits + 1
    ensures |Entries(schedule)| == Exec(schedule).exits + 1 <==>
            exists t :: TicketMutex.Entered(At(Exec(schedule), t))
  {
    ServedOf(schedule);
    var s, draws := Exec(schedule), Draws(schedule);
    if t :| TicketMutex.Entered(At(s, t)) {
      assert Admitted(At(s, t)) && HoldsTicket(At(s, t));
      assert draws[At(s, t).ticket] == t;
    }
  }

  lemma {:induction false} ServedOf(schedule: seq<Turn>)
    ensures TicketInv(Exec(schedule), Draws(schedule))
    ensures ServedInOrder(Exec(schedule), Draws(schedule), Entries(schedule))
  {
    ExecInv(schedule);
    WitnessDraws(schedule);
    if schedule != [] {
      var before := schedule[..|schedule| - 1];
      ServedOf(before);
      ServedAfter(Exec(before), schedule[|schedule| - 1], Draws(before), Entries(before));
    }
  }

  /** The linked wait queue is a duplicate-free list of exactly the threads between enqueue and
      dequeue, and each of them has announced the ticket it holds. */
  lemma WaitQueueExact(schedule: seq<Turn>) returns (queue: seq<Tid>)
    ensures Spells(Exec(schedule), queue) && NoDuplicates(queue)
    ensures forall t :: t in queue <==> Enqueued(At(Exec(schedule), t))
    ensures forall t :: Enqueued(At(Exec(schedule), t)) ==> Reason(Exec(schedule), t) == At(Exec(schedule), t).ticket
  {
    ExecInv(schedule);
    queue := WitnessOf(schedule).queue;
    forall t: Tid | Enqueued(At(Exec(schedule), t))
      ensures Reason(Exec(schedule), t) == At(Exec(schedule), t).ticket
    {
      assert Prepared(Exec(schedule), t, At(Exec(schedule), t));
    }
  }

  /** The owner field names exactly the thread in the critical section. */
  lemma OwnerExact(schedule: seq<Turn>, t: Tid)
    ensures Exec(schedule).owner == Some(t) <==> At(Exec(schedule), t).Critical?
  {
    ExecInv(schedule);
  }

  // ---------------------------------------------------------------- a free lock

  /** A thread that makes its next steps without being interrupted. */
  function Alone(s: State, t: Tid, try: bool, steps: nat): State {
    if steps == 0 then s else Step(Alone(s, t, try, steps - 1), Turn(t, try))
  }

  /** A free lock is there for the taking: an idle thread that runs alone has it after four steps of mutex_try_lock or
      of mutex_lock, with the ticket that is being served, and the wait queue is not touched. */
  lemma FreeLockTaken(s: State, t: Tid, try: bool)
    requires s.entries == s.exits && At(s, t).Idle?
    ensures var s' := Alone(s, t, try, 4);
            && At(s', t) == Critical(s.exits) && s'.owner == Some(t)
            && s'.entries == s.entries + 1 && s'.exits == s.exits
            && s'.head == s.head && s'.link == s.link && s'.queueLock == s.queueLock
            && forall u: Tid :: u != t ==> At(s', u) == At(s, u)
  {
    hide Step;
    var turn := Turn(t, try);
    CallStep(s, turn);
    var s1 := Step(s, turn);
    LoadStep(s1, turn);
    var s2 := Step(s1, turn);
    SwapStep(s2, turn);
    var s3 := Step(s2, turn);
    OwnStep(s3, turn);
    assert Alone(s, t, try, 0) == s && Alone(s, t, try, 1) == s1;
    assert Alone(s, t, try, 2) == s2 && Alone(s, t, try, 3) == s3;
  }

  lemma CallStep(s: State, turn: Turn)
    requires At(s, turn.tid).Idle?
    ensures Step(s, turn) ==
            s.(pc := s.pc[turn.tid := if turn.try then TryLoadEntries(s.exits) else LockLoadEntries(s.exits)])
  {
  }

  lemma LoadStep(s: State, turn: Turn)
    requires At(s, turn.tid) == if turn.try then TryLoadEntries(s.entries) else LockLoadEntries(s.entries)
    ensures Step(s, turn) == s.(pc := s.pc[turn.tid := if turn.try then TryCas(s.entries) else LockCas(s.entries)])
  {
  }

  lemma SwapStep(s: State, turn: Turn)
    requires At(s, turn.tid) == if turn.try then TryCas(s.entries) else LockCas(s.entries)
    ensures Step(s, turn) == s.(entries := s.entries + 1, pc := s.pc[turn.tid := SetOwner(s.entries)])
  {
  }

  lemma OwnStep(s: State, turn: Turn)
    requires At(s, turn.tid).SetOwner?
    ensures Step(s, turn) ==
            s.(owner := Some(turn.tid), pc := s.pc[turn.tid := Critical(At(s, turn.tid).ticket)])
  {
  }

  /** The value that a thread in mutex_try_lock loaded, or compares with. */
  function SeenBy(p: Pc): nat
    requires p.TryLoadEntries? || p.TryCas?
  {
    if p.TryLoadEntries? then p.seen else p.expected
  }

  /** Exits, or entries, had a value at some time of the schedule. */
  ghost predicate HadExits(schedule: seq<Turn>, x: nat) {
    exists i :: 0 <= i <= |schedule| && Exec(schedule[..i]).exits == x
  }

  ghost predicate HadEntries(schedule: seq<Turn>, x: nat) {
    exists i :: 0 <= i <= |schedule| && Exec(schedule[..i]).entries == x
  }

  lemma HadBefore(schedule: seq<Turn>, x: nat)
    requires schedule != []
    ensures HadExits(schedule[..|schedule| - 1], x) ==> HadExits(schedule, x)
    ensures HadEntries(schedule[..|schedule| - 1], x) ==> HadEntries(schedule, x)
    ensures Exec(schedule[..|schedule| - 1]).exits == x ==> HadExits(schedule, x)
    ensures Exec(schedule[..|schedule| - 1]).entries == x ==> HadEntries(schedule, x)
  {
    hide Exec;
    var n, before := |schedule| - 1, schedule[..|schedule| - 1];
    if i :| 0 <= i <= n && Exec(before[..i]).exits == x {
      assert before[..i] == schedule[..i];
    }
    if i :| 0 <= i <= n && Exec(before[..i]).entries == x {
      assert before[..i] == schedule[..i];
    }
  }

  /** How a thread gets into mutex_try_lock and on in it, and out of it without the lock. */
  lemma TrySteps(s: State, turn: Turn)
    ensures var p, q := At(s, turn.tid), MoveOf(s, turn).to;
            && (q.TryLoadEntries? ==> p.Idle? && q.seen == s.exits)
            && (q.TryCas? ==> p.TryLoadEntries? && q.expected == p.seen == s.entries)
            && (p.TryLoadEntries? || p.TryCas? ==> (q.Idle? <==> s.entries != SeenBy(p)))
  {
  }

  /** What a thread saw was there at some time: exits had that value, and for the compare-and-swap entries had it
      too. */
  lemma {:induction false} SawIt(schedule: seq<Turn>, t: Tid)
    requires var p := At(Exec(schedule), t); p.TryLoadEntries? || p.TryCas?
    ensures var p := At(Exec(schedule), t); HadExits(schedule, SeenBy(p)) && (p.TryCas? ==> HadEntries(schedule, SeenBy(p)))
  {
    hide HadExits;
    hide HadEntries;
    hide MoveOf;
    hide Step;
    if schedule != [] {
      var before, turn := schedule[..|schedule| - 1], schedule[|schedule| - 1];
      OthersStay(Exec(before), turn);
      TrySteps(Exec(before), turn);
      HadBefore(schedule, SeenBy(At(Exec(schedule), t)));
      if turn.tid != t || !At(Exec(before), t).Idle? {
        SawIt(before, t);
      }
    }
  }

  /** mutex_try_lock gives up only for a reason: a ticket was out beyond the value of exits it had loaded, or entries,
      which had been at that value, is not any more. */
  lemma TryFailsForAReason(schedule: seq<Turn>, turn: Turn)
    requires var p := At(Exec(schedule), turn.tid); p.TryLoadEntries? || p.TryCas?
    ensures var s, p := Exec(schedule), At(Exec(schedule), turn.tid);
            && (MoveOf(s, turn).to.Idle? <==> s.entries > SeenBy(p))
            && HadExits(schedule, SeenBy(p)) && (p.TryCas? ==> HadEntries(schedule, SeenBy(p)))
  {
    hide HadExits;
    hide HadEntries;
    hide MoveOf;
    hide Exec;
    hide WitnessOf;
    SawIt(schedule, turn.tid);
    TrySteps(Exec(schedule), turn);
    SeenBehind(schedule, turn.tid);
  }

  lemma SeenBehind(schedule: seq<Turn>, t: Tid)
    requires var p := At(Exec(schedule), t); p.TryLoadEntries? || p.TryCas?
    ensures SeenBy(At(Exec(schedule), t)) <= Exec(schedule).entries
  {
    hide Exec;
    hide WitnessOf;
    ExecInv(schedule);
    hide LockMatches;
    hide QueueInv;
    hide WakeupsPending;
    assert SnapshotsBehind(Exec(schedule)) && TicketsMatch(Exec(schedule), WitnessOf(schedule).draws);
  }

  // ---------------------------------------------------------------- deadlock freedom

  /** The thread waits: it spins on a taken queue lock, or it sleeps and is not on the ready queue. */
  predicate Stalled(s: State, t: Tid) {
    var p := At(s, t);
    || ((p.EnqAcquire? || p.DeqAcquire? || p.ScanAcquire?) && s.queueLock)
    || (p.Asleep? && t !in s.ready)
  }

  /** A thread that is not stalled changes its place with its next step. */
  lemma UnstalledMoves(s: State, turn: Turn, w: Witness)
    requires Inv(s, w) && !Stalled(s, turn.tid)
    ensures MoveOf(s, turn).to != At(s, turn.tid)
  {
    var t, p := turn.tid, At(s, turn.tid);
    assert CursorMatches(s, w.queue, t, p);
    if p.DeqWalk? {
      var i := DequeueCursor(s, w.queue, t);
    } else if p.EnqWalk? {
      WalkAdvances(s, w.queue, p.tail);
    } else if p.ScanWalk? {
      WalkAdvances(s, w.queue, p.waiter);
    }
  }

  lemma WalkAdvances(s: State, queue: seq<Tid>, node: Tid)
    requires Spells(s, queue) && NoDuplicates(queue) && node in queue
    ensures Link(s, node) != Some(node)
  {
    var i :| 0 <= i < |queue| && queue[i] == node;
    SpellsAt(s, queue, i);
  }

  /** Deadlock freedom: whenever some thread is inside a call or a critical section, one such thread can
      move, so a set of waiters is never stuck with nobody to wake them. */
  lemma NeverStuck(schedule: seq<Turn>, t: Tid)
    requires !At(Exec(schedule), t).Idle?
    ensures exists u ::
              && !At(Exec(schedule), u).Idle?
              && At(Step(Exec(schedule), Turn(u, false)), u) != At(Exec(schedule), u)
  {
    var s, w := Exec(schedule), WitnessOf(schedule);
    ExecInv(schedule);
    var u := UnstalledThread(s, w, t);
    UnstalledMoves(s, Turn(u, false), w);
    OthersStay(s, Turn(u, false));
  }

  lemma UnstalledThread(s: State, w: Witness, t: Tid) returns (u: Tid)
    requires Inv(s, w) && !At(s, t).Idle?
    ensures !At(s, u).Idle? && !Stalled(s, u)
  {
    u := t;
    if At(s, u).Asleep? && u !in s.ready {
      assert s.exits < s.entries;
      u := w.draws[s.exits];
      assert HoldsTicket(At(s, u));
      if At(s, u).Asleep? && u !in s.ready {
        u := w.waker;
      }
    }
    if Stalled(s, u) {
      u := w.holder.value;
      assert HoldsQueueLock(At(s, u));
    }
  }
}
