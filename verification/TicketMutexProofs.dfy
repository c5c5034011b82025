/** What every schedule of the ticket mutex keeps.

    The invariant speaks about the state and a witness: the history of ticket draws, the wait queue
    as a sequence, the thread that holds the queue lock and the thread that last stored exits.
 */
module TicketMutexProofs {
  import opened Options
  import opened TicketMutex

  datatype Witness = Witness(draws: seq<Tid>, queue: seq<Tid>, holder: Option<Tid>, waker: Tid)

  /** Outstanding tickets and their holders are in bijection; `draws[k]` is the thread that drew k. */
  ghost predicate TicketsMatch(s: State, draws: seq<Tid>) {
    && s.exits <= s.entries == |draws|
    && (forall k :: s.exits <= k < s.entries ==>
          HoldsTicket(At(s, draws[k])) && At(s, draws[k]).ticket == k)
    && (forall t :: HoldsTicket(At(s, t)) ==>
          s.exits <= At(s, t).ticket < s.entries && draws[At(s, t).ticket] == t)
  }

  /** A value of exits that a thread remembers is never ahead of exits. */
  ghost predicate SnapshotsBehind(s: State) {
    forall t ::
      var p := At(s, t);
      && (p.LockLoadEntries? || p.TryLoadEntries? ==> p.seen <= s.exits)
      && (p.LockCas? || p.TryCas? ==> p.expected <= s.exits)
  }

  /** A thread that has been admitted holds the ticket exits, and what it loads is that ticket. */
  ghost predicate AdmittedIsNext(s: State) {
    forall t :: Admitted(At(s, t)) ==>
      && At(s, t).ticket == s.exits
      && (At(s, t).UnlockStore? ==> At(s, t).loaded == s.exits)
  }

  ghost predicate LockMatches(s: State, holder: Option<Tid>) {
    && s.queueLock == holder.Some?
    && (forall t: Tid :: HoldsQueueLock(At(s, t)) <==> holder == Some(t))
  }

  ghost predicate OwnerMatches(s: State) {
    && (forall t: Tid :: s.owner == Some(t) <==> At(s, t).Critical?)
  }

  /** The linked list that starts at head spells the sequence `queue`. */
  ghost predicate Spells(s: State, queue: seq<Tid>) {
    && s.head == (if queue == [] then None else Some(queue[0]))
    && (forall i :: 0 <= i < |queue| ==>
          Link(s, queue[i]) == if i + 1 < |queue| then Some(queue[i + 1]) else None)
  }

  ghost predicate NoDuplicates(queue: seq<Tid>) {
    forall i, j :: 0 <= i < j < |queue| ==> queue[i] != queue[j]
  }

  /** The queue holds exactly the threads between enqueue and dequeue. */
  ghost predicate MembersMatch(s: State, queue: seq<Tid>) {
    forall t :: t in queue <==> Enqueued(At(s, t))
  }

  /** The ticket is announced in wait_reason before the thread becomes visible in the queue, and its
      own link is null while it is about to be appended. */
  ghost predicate Prepared(s: State, t: Tid, p: Pc) {
    && (p.LockClearLink? || p.EnqAcquire? || p.EnqHead? || p.EnqWalk? || p.EnqLink? || Enqueued(p) ==>
          Reason(s, t) == p.ticket)
    && (p.EnqAcquire? || p.EnqHead? || p.EnqWalk? || p.EnqLink? ==> Link(s, t) == None)
  }

  /** A cursor into the queue points at a node of the queue, and says what lies behind it. */
  ghost predicate CursorMatches(s: State, queue: seq<Tid>, t: Tid, p: Pc) {
    && (p.EnqWalk? ==> p.tail in queue)
    && (p.EnqLink? ==> queue != [] && p.tail == queue[|queue| - 1])
    && (p.DeqWalk? && p.prev.Some? ==> Precedes(queue, p.prev.value, t))
    && (p.ScanWalk? ==> p.waiter in queue && NotBefore(s, queue, p.waiter, p.next))
    && (p.ScanWake? ==> p.waiter in queue && Reason(s, p.waiter) == p.next)
  }

  ghost predicate Precedes(queue: seq<Tid>, a: Tid, b: Tid) {
    exists i, j :: 0 <= i < j < |queue| && queue[i] == a && queue[j] == b
  }

  /** No waiter before `cursor` has announced the ticket `next`. */
  ghost predicate NotBefore(s: State, queue: seq<Tid>, cursor: Tid, next: nat) {
    forall i, j :: 0 <= i < j < |queue| && queue[j] == cursor ==> Reason(s, queue[i]) != next
  }

  /** No lost wakeup: a sleeper whose turn has come is on the ready queue, or the thread that gave it
      its turn has not finished looking for it. */
  ghost predicate WakeupsPending(s: State, waker: Tid) {
    forall t :: Sleeping(At(s, t)) && At(s, t).ticket == s.exits && t !in s.ready ==>
      Waking(At(s, waker), s.exits)
  }

  ghost predicate QueueInv(s: State, queue: seq<Tid>) {
    && Spells(s, queue)
    && NoDuplicates(queue)
    && MembersMatch(s, queue)
    && (forall t :: Prepared(s, t, At(s, t)))
    && (forall t :: CursorMatches(s, queue, t, At(s, t)))
  }

  ghost predicate TicketInv(s: State, draws: seq<Tid>) {
    && TicketsMatch(s, draws)
    && SnapshotsBehind(s)
    && AdmittedIsNext(s)
  }

  ghost predicate Inv(s: State, w: Witness) {
    && TicketInv(s, w.draws)
    && LockMatches(s, w.holder)
    && OwnerMatches(s)
    && QueueInv(s, w.queue)
    && WakeupsPending(s, w.waker)
  }

  // ---------------------------------------------------------------- the witness of a schedule

  function Without(queue: seq<Tid>, t: Tid): seq<Tid> {
    if queue == [] then []
    else if queue[0] == t then queue[1..]
    else [queue[0]] + Without(queue[1..], t)
  }

  function HolderAfter(s: State, turn: Turn, holder: Option<Tid>): Option<Tid> {
    if HoldsQueueLock(At(Step(s, turn), turn.tid)) then Some(turn.tid)
    else if holder == Some(turn.tid) then None
    else holder
  }

  function QueueAfter(s: State, turn: Turn, queue: seq<Tid>): seq<Tid> {
    var before, after := Enqueued(At(s, turn.tid)), Enqueued(At(Step(s, turn), turn.tid));
    if !before && after then queue + [turn.tid]
    else if before && !after then Without(queue, turn.tid)
    else queue
  }

  function WitnessAfter(s: State, turn: Turn, w: Witness): Witness {
    Witness(
      w.draws + Drawn(s, turn),
      QueueAfter(s, turn, w.queue),
      HolderAfter(s, turn, w.holder),
      if At(s, turn.tid).UnlockStore? then turn.tid else w.waker)
  }

  function WitnessOf(schedule: seq<Turn>): Witness {
    if schedule == [] then Witness([], [], None, 0)
    else
      var before := schedule[..|schedule| - 1];
      WitnessAfter(Exec(before), schedule[|schedule| - 1], WitnessOf(before))
  }

  // ---------------------------------------------------------------- tickets

  /** A step moves only the thread whose turn it is, to where its move says. */
  lemma OthersStay(s: State, turn: Turn)
    ensures At(Step(s, turn), turn.tid) == MoveOf(s, turn).to
    ensures forall u: Tid :: u != turn.tid ==> At(Step(s, turn), u) == At(s, u)
  {
  }

  /** What a move means for the ticket of the thread that makes it. */
  ghost predicate TicketMove(s: State, p: Pc, m: Move) {
    && (m.effect.DrawTicket? ==> !HoldsTicket(p) && HoldsTicket(m.to) && m.to.ticket == s.entries)
    && (m.effect.StoreExits? <==> p.UnlockStore?)
    && (m.effect.StoreExits? ==> m.effect.exits == p.loaded + 1 && !HoldsTicket(m.to))
    && (!m.effect.DrawTicket? && !m.effect.StoreExits? ==>
          HoldsTicket(p) == HoldsTicket(m.to) && (HoldsTicket(p) ==> p.ticket == m.to.ticket))
  }

  lemma MoveTicket(s: State, turn: Turn)
    ensures TicketMove(s, At(s, turn.tid), MoveOf(s, turn))
  {
  }

  /** The counters after a step, as its effect says. */
  lemma StepCounters(s: State, turn: Turn)
    ensures var e, s' := MoveOf(s, turn).effect, Step(s, turn);
            && s'.entries == (if e.DrawTicket? then s.entries + 1 else s.entries)
            && s'.exits == (if e.StoreExits? then e.exits else s.exits)
  {
  }

  lemma TicketsAfter(s: State, s': State, t: Tid, m: Move, draws: seq<Tid>)
    requires TicketsMatch(s, draws) && AdmittedIsNext(s)
    requires TicketMove(s, At(s, t), m) && At(s', t) == m.to
    requires s'.entries == (if m.effect.DrawTicket? then s.entries + 1 else s.entries)
    requires s'.exits == (if m.effect.StoreExits? then m.effect.exits else s.exits)
    requires forall u: Tid :: u != t ==> At(s', u) == At(s, u)
    ensures TicketsMatch(s', draws + if m.effect.DrawTicket? then [t] else [])
  {
    var draws' := draws + if m.effect.DrawTicket? then [t] else [];
    assert draws <= draws';
    if At(s, t).UnlockStore? {
      assert Admitted(At(s, t));
    }
  }

  /** Reading exits before entries and then swapping entries forces the ticket to be the current exits. */
  lemma MoveAdmits(s: State, turn: Turn)
    requires SnapshotsBehind(s) && s.exits <= s.entries && AdmittedIsNext(s)
    ensures var m := MoveOf(s, turn);
            && (Admitted(m.to) ==>
                  && m.to.ticket == s.exits
                  && (m.to.UnlockStore? ==> m.to.loaded == s.exits))
            && (m.to.LockLoadEntries? || m.to.TryLoadEntries? ==> m.to.seen <= s.exits)
            && (m.to.LockCas? || m.to.TryCas? ==> m.to.expected <= s.exits)
            && (At(s, turn.tid).UnlockStore? ==> m.to.ScanAcquire?)
  {
    var p := At(s, turn.tid);
    assert p.LockLoadEntries? || p.TryLoadEntries? ==> p.seen <= s.exits;
    assert p.LockCas? || p.TryCas? ==> p.expected <= s.exits;
  }

  lemma StepTickets(s: State, turn: Turn, draws: seq<Tid>)
    requires TicketInv(s, draws)
    ensures TicketInv(Step(s, turn), draws + Drawn(s, turn))
  {
    var s', t := Step(s, turn), turn.tid;
    OthersStay(s, turn);
    MoveTicket(s, turn);
    MoveAdmits(s, turn);
    StepCounters(s, turn);
    TicketsAfter(s, s', t, MoveOf(s, turn), draws);
    TicketInvAfter(s, s', t, draws);
  }

  lemma TicketInvAfter(s: State, s': State, t: Tid, draws: seq<Tid>)
    requires TicketInv(s, draws)
    requires forall u: Tid :: u != t ==> At(s', u) == At(s, u)
    requires At(s, t).UnlockStore? ==> s'.exits == s.exits + 1 && At(s', t).ScanAcquire?
    requires !At(s, t).UnlockStore? ==> s'.exits == s.exits
    requires var p := At(s', t);
             && (Admitted(p) ==> p.ticket == s.exits && (p.UnlockStore? ==> p.loaded == s.exits))
             && (p.LockLoadEntries? || p.TryLoadEntries? ==> p.seen <= s.exits)
             && (p.LockCas? || p.TryCas? ==> p.expected <= s.exits)
    ensures SnapshotsBehind(s') && AdmittedIsNext(s')
  {
    if At(s, t).UnlockStore? {
      forall u: Tid | Admitted(At(s, u)) ensures u == t {
        OneAdmitted(s, draws, u, t);
      }
    }
  }

  // ---------------------------------------------------------------- the queue lock and the owner

  /** What a move means for the queue lock and for the owner field. */
  lemma MoveLock(s: State, turn: Turn)
    ensures
      var t := turn.tid;
      var p, m := At(s, t), MoveOf(s, turn);
      && (m.effect.TakeQueueLock? ==> !s.queueLock && HoldsQueueLock(m.to))
      && (m.effect.FreeQueueLock? ==> HoldsQueueLock(p) && !HoldsQueueLock(m.to))
      && (!m.effect.TakeQueueLock? && !m.effect.FreeQueueLock? ==> HoldsQueueLock(p) == HoldsQueueLock(m.to))
  {
  }

  lemma MoveOwner(s: State, turn: Turn)
    ensures
      var p, m := At(s, turn.tid), MoveOf(s, turn);
      && m.to.Critical? == (m.effect == StoreOwner(Some(turn.tid)))
      && p.Critical? == (m.effect == StoreOwner(None))
      && (m.effect.StoreOwner? ==> Admitted(p))
  {
  }

  lemma StepLock(s: State, turn: Turn, holder: Option<Tid>)
    requires LockMatches(s, holder)
    ensures LockMatches(Step(s, turn), HolderAfter(s, turn, holder))
  {
    var s', t := Step(s, turn), turn.tid;
    OthersStay(s, turn);
    MoveLock(s, turn);
    assert s'.queueLock == (MoveOf(s, turn).effect.TakeQueueLock? || (s.queueLock && !MoveOf(s, turn).effect.FreeQueueLock?));
    LockAfter(s, s', t, holder);
  }

  lemma LockAfter(s: State, s': State, t: Tid, holder: Option<Tid>)
    requires LockMatches(s, holder)
    requires forall u: Tid :: u != t ==> At(s', u) == At(s, u)
    requires var before, after := HoldsQueueLock(At(s, t)), HoldsQueueLock(At(s', t));
             && (before == after ==> s'.queueLock == s.queueLock)
             && (!before && after ==> !s.queueLock && s'.queueLock)
             && (before && !after ==> !s'.queueLock)
    ensures LockMatches(s', if HoldsQueueLock(At(s', t)) then Some(t) else if holder == Some(t) then None else holder)
  {
  }

  lemma StepOwner(s: State, turn: Turn, draws: seq<Tid>)
    requires TicketInv(s, draws) && OwnerMatches(s)
    ensures OwnerMatches(Step(s, turn))
  {
    var s', t := Step(s, turn), turn.tid;
    OthersStay(s, turn);
    MoveOwner(s, turn);
    var e := MoveOf(s, turn).effect;
    assert s'.owner == (if e.StoreOwner? then e.owner else s.owner);
    OwnerAfter(s, s', t, e, draws);
  }

  lemma OwnerAfter(s: State, s': State, t: Tid, e: Effect, draws: seq<Tid>)
    requires TicketInv(s, draws) && OwnerMatches(s)
    requires forall u: Tid :: u != t ==> At(s', u) == At(s, u)
    requires s'.owner == (if e.StoreOwner? then e.owner else s.owner)
    requires At(s', t).Critical? == (e == StoreOwner(Some(t)))
    requires At(s, t).Critical? == (e == StoreOwner(None))
    requires e.StoreOwner? ==> Admitted(At(s, t)) && (e.owner.None? || e.owner.value == t)
    ensures OwnerMatches(s')
  {
    if e.StoreOwner? {
      forall u: Tid | At(s, u).Critical? ensures u == t {
        OneAdmitted(s, draws, u, t);
      }
    }
  }

  /** At most one thread is admitted at a time. */
  lemma OneAdmitted(s: State, draws: seq<Tid>, t: Tid, u: Tid)
    requires TicketInv(s, draws)
    requires Admitted(At(s, t)) && Admitted(At(s, u))
    ensures t == u
  {
    assert draws[At(s, u).ticket] == u && draws[At(s, t).ticket] == t;
  }

  // ---------------------------------------------------------------- the wait queue

  /** The shared fields the queue is made of are as before. */
  ghost predicate SameQueueFields(s: State, s': State) {
    s'.head == s.head && s'.link == s.link && s'.reason == s.reason
  }

  /** Steps that neither link nor unlink a node, and leave the cursor of the thread in order. */
  lemma QueueUntouched(s: State, s': State, t: Tid, queue: seq<Tid>)
    requires QueueInv(s, queue)
    requires SameQueueFields(s, s')
    requires forall u: Tid :: u != t ==> At(s', u) == At(s, u)
    requires Enqueued(At(s, t)) == Enqueued(At(s', t))
    requires Prepared(s', t, At(s', t)) && CursorMatches(s', queue, t, At(s', t))
    ensures QueueInv(s', queue)
  {
    assert forall u: Tid :: Link(s', u) == Link(s, u) && Reason(s', u) == Reason(s, u);
    assert forall u: Tid :: Enqueued(At(s', u)) == Enqueued(At(s, u));
    forall u: Tid
      ensures Prepared(s', u, At(s', u)) && CursorMatches(s', queue, u, At(s', u))
    {
      assert Prepared(s, u, At(s, u)) && CursorMatches(s, queue, u, At(s, u));
    }
  }

  /** Steps outside the queue: those that hold no cursor before and after. */
  lemma MoveOutside(s: State, turn: Turn, queue: seq<Tid>)
    requires QueueInv(s, queue)
    requires var p := At(s, turn.tid);
             !p.LockSetReason? && !p.LockClearLink? && !HoldsQueueLock(p)
    ensures var p, m := At(s, turn.tid), MoveOf(s, turn);
            && !m.effect.StoreHead? && !m.effect.StoreLink? && !m.effect.StoreReason?
            && Enqueued(p) == Enqueued(m.to)
            && Prepared(s, turn.tid, m.to)
            && CursorMatches(s, queue, turn.tid, m.to)
  {
    assert Prepared(s, turn.tid, At(s, turn.tid));
  }

  /** Steps of a thread that walks the queue or releases the queue lock. */
  lemma MoveInside(s: State, turn: Turn, queue: seq<Tid>)
    requires QueueInv(s, queue)
    requires var p := At(s, turn.tid);
             && HoldsQueueLock(p) && !p.EnqLink? && !p.DeqWalk? && !p.DeqClear?
             && (p.EnqHead? ==> s.head.Some?)
    ensures var p, m := At(s, turn.tid), MoveOf(s, turn);
            && !m.effect.StoreHead? && !m.effect.StoreLink? && !m.effect.StoreReason?
            && Enqueued(p) == Enqueued(m.to)
            && Prepared(s, turn.tid, m.to)
            && CursorMatches(s, queue, turn.tid, m.to)
  {
    var p := At(s, turn.tid);
    assert Prepared(s, turn.tid, p) && CursorMatches(s, queue, turn.tid, p);
    if p.EnqWalk? {
      var i :| 0 <= i < |queue| && queue[i] == p.tail;
      SpellsAt(s, queue, i);
      assert i + 1 < |queue| ==> queue[i + 1] in queue;
    } else if p.ScanWalk? {
      ScanAdvances(s, queue, p.waiter, p.next);
    }
  }

  /** A scan that passes a waiter with another ticket has still passed no waiter with this one. */
  lemma ScanAdvances(s: State, queue: seq<Tid>, waiter: Tid, next: nat)
    requires Spells(s, queue) && NoDuplicates(queue)
    requires waiter in queue && NotBefore(s, queue, waiter, next)
    ensures Reason(s, waiter) != next && Link(s, waiter).Some? ==>
              Link(s, waiter).value in queue && NotBefore(s, queue, Link(s, waiter).value, next)
  {
    var i :| 0 <= i < |queue| && queue[i] == waiter;
    SpellsAt(s, queue, i);
    if Reason(s, waiter) != next && i + 1 < |queue| {
      assert queue[i + 1] in queue;
      forall a, b | 0 <= a < b < |queue| && queue[b] == queue[i + 1]
        ensures Reason(s, queue[a]) != next
      {
        assert b == i + 1;
      }
    }
  }

  /** A thread on its way into or out of the queue changes its own fields while nobody sees them. */
  lemma QueueOwnFields(s: State, s': State, t: Tid, queue: seq<Tid>)
    requires QueueInv(s, queue)
    requires s'.head == s.head
    requires forall u: Tid :: u != t ==>
               At(s', u) == At(s, u) && Link(s', u) == Link(s, u) && Reason(s', u) == Reason(s, u)
    requires !Enqueued(At(s, t)) && !Enqueued(At(s', t))
    requires Prepared(s', t, At(s', t)) && CursorMatches(s', queue, t, At(s', t))
    ensures QueueInv(s', queue)
  {
    assert t !in queue;
    assert forall u: Tid :: Enqueued(At(s', u)) == Enqueued(At(s, u));
    forall i | 0 <= i < |queue|
      ensures queue[i] != t
    {
      assert queue[i] in queue;
    }
    forall u: Tid
      ensures Prepared(s', u, At(s', u)) && CursorMatches(s', queue, u, At(s', u))
    {
      assert Prepared(s, u, At(s, u)) && CursorMatches(s, queue, u, At(s, u));
    }
  }

  lemma SpellsAt(s: State, queue: seq<Tid>, i: nat)
    requires Spells(s, queue) && i < |queue|
    ensures Link(s, queue[i]) == if i + 1 < |queue| then Some(queue[i + 1]) else None
  {
  }

  lemma SpellsAppended(s: State, s': State, t: Tid, queue: seq<Tid>)
    requires Spells(s, queue) && NoDuplicates(queue) && t !in queue && Link(s, t) == None
    requires if queue == [] then s'.head == Some(t) && s'.link == s.link
             else s'.head == s.head && s'.link == s.link[queue[|queue| - 1] := Some(t)]
    ensures Spells(s', queue + [t]) && NoDuplicates(queue + [t])
  {
    var queue' := queue + [t];
    forall i | 0 <= i < |queue'|
      ensures Link(s', queue'[i]) == if i + 1 < |queue'| then Some(queue'[i + 1]) else None
    {
      if i < |queue| {
        SpellsAt(s, queue, i);
        assert queue'[i] == queue[i] && queue[i] in queue;
        assert i < |queue| - 1 ==> queue[i] != queue[|queue| - 1];
      } else {
        assert queue != [] ==> queue[|queue| - 1] in queue;
      }
    }
    assert queue'[0] == if queue == [] then t else queue[0];
    assert Spells(s', queue');
  }

  /** The append: the list spells one more thread, and nobody else has a cursor. */
  lemma QueueAppended(s: State, s': State, t: Tid, queue: seq<Tid>)
    requires QueueInv(s, queue) && LockMatches(s, Some(t))
    requires forall u: Tid :: u != t ==> At(s', u) == At(s, u)
    requires s'.reason == s.reason
    requires !Enqueued(At(s, t)) && Link(s, t) == None && At(s', t).EnqRelease? && Reason(s, t) == At(s', t).ticket
    requires if queue == [] then s'.head == Some(t) && s'.link == s.link
             else s'.head == s.head && s'.link == s.link[queue[|queue| - 1] := Some(t)]
    ensures QueueInv(s', queue + [t])
  {
    var queue' := queue + [t];
    assert t !in queue;
    SpellsAppended(s, s', t, queue);
    assert forall u: Tid :: u in queue' <==> u in queue || u == t;
    NobodyElseInside(s, s', t, queue');
    forall u: Tid
      ensures Prepared(s', u, At(s', u))
    {
      assert Prepared(s, u, At(s, u));
      if u != t && queue != [] {
        assert queue[|queue| - 1] in queue;
      }
    }
  }

  /** While one thread holds the queue lock no other thread has a cursor. */
  lemma NobodyElseInside(s: State, s': State, t: Tid, queue: seq<Tid>)
    requires LockMatches(s, Some(t))
    requires forall u: Tid :: u != t ==> At(s', u) == At(s, u)
    requires CursorMatches(s', queue, t, At(s', t))
    ensures forall u: Tid :: CursorMatches(s', queue, u, At(s', u))
  {
    forall u: Tid
      ensures CursorMatches(s', queue, u, At(s', u))
    {
      assert u != t ==> !HoldsQueueLock(At(s, u));
    }
  }

  lemma {:induction false} WithoutAt(queue: seq<Tid>, i: nat)
    requires i < |queue| && NoDuplicates(queue)
    ensures Without(queue, queue[i]) == queue[..i] + queue[i + 1..]
  {
    if i > 0 {
      WithoutAt(queue[1..], i - 1);
      assert queue[1..][..i - 1] == queue[1..i] && queue[1..][i..] == queue[i + 1..];
      assert [queue[0]] + queue[1..i] == queue[..i];
    }
  }

  lemma SpellsUnlinked(s: State, s': State, t: Tid, queue: seq<Tid>, i: nat)
    requires Spells(s, queue) && NoDuplicates(queue)
    requires i < |queue| && queue[i] == t
    requires if i == 0 then s'.head == Link(s, t) && s'.link == s.link
             else s'.head == s.head && s'.link == s.link[queue[i - 1] := Link(s, t)]
    ensures Spells(s', queue[..i] + queue[i + 1..])
    ensures NoDuplicates(queue[..i] + queue[i + 1..])
    ensures forall u: Tid :: u in queue[..i] + queue[i + 1..] <==> u in queue && u != t
  {
    var queue' := queue[..i] + queue[i + 1..];
    SpellsAt(s, queue, i);
    assert queue' != [] ==> queue'[0] == queue[if i == 0 then 1 else 0];
    forall k | 0 <= k < |queue'|
      ensures Link(s', queue'[k]) == if k + 1 < |queue'| then Some(queue'[k + 1]) else None
    {
      var k0 := if k < i then k else k + 1;
      assert queue'[k] == queue[k0];
      assert k + 1 < |queue'| ==> queue'[k + 1] == queue[if k + 1 < i then k + 1 else k + 2];
      SpellsAt(s, queue, k0);
      if i > 0 && k0 == i - 1 {
        assert Link(s', queue[k0]) == Link(s, t);
      } else {
        assert i > 0 ==> queue[k0] != queue[i - 1];
        assert Link(s', queue[k0]) == Link(s, queue[k0]);
      }
    }
    assert s'.head == (if queue' == [] then None else Some(queue'[0]));
    assert Spells(s', queue');
    forall u: Tid
      ensures u in queue' <==> u in queue && u != t
    {
      if u in queue && u != t {
        var k :| 0 <= k < |queue| && queue[k] == u;
        assert queue'[if k < i then k else k - 1] == u;
      }
    }
  }

  /** The removal: the list spells the others in their old order. */
  lemma QueueUnlinked(s: State, s': State, t: Tid, queue: seq<Tid>, i: nat)
    requires QueueInv(s, queue) && LockMatches(s, Some(t))
    requires forall u: Tid :: u != t ==> At(s', u) == At(s, u)
    requires s'.reason == s.reason && At(s', t).DeqClear?
    requires i < |queue| && queue[i] == t
    requires if i == 0 then s'.head == Link(s, t) && s'.link == s.link
             else s'.head == s.head && s'.link == s.link[queue[i - 1] := Link(s, t)]
    ensures QueueInv(s', queue[..i] + queue[i + 1..])
  {
    var queue' := queue[..i] + queue[i + 1..];
    SpellsUnlinked(s, s', t, queue, i);
    assert i > 0 ==> queue[i - 1] in queue;
    NobodyElseInside(s, s', t, queue');
    forall u: Tid
      ensures Prepared(s', u, At(s', u))
    {
      assert Prepared(s, u, At(s, u));
    }
  }

  /** What a step of the dequeue walk does, given the node its cursor leads to. */
  lemma DequeueStepIs(s: State, turn: Turn)
    requires At(s, turn.tid).DeqWalk?
    ensures
      var s', t, p := Step(s, turn), turn.tid, At(s, turn.tid);
      var current := if p.prev.None? then s.head else Link(s, p.prev.value);
      && s'.reason == s.reason
      && (current == Some(t) ==>
            && At(s', t) == DeqClear(p.ticket)
            && if p.prev.None? then s'.head == Link(s, t) && s'.link == s.link
               else s'.head == s.head && s'.link == s.link[p.prev.value := Link(s, t)])
      && (current.Some? && current.value != t ==>
            At(s', t) == DeqWalk(p.ticket, current) && SameQueueFields(s, s'))
  {
    assert MoveOf(s, turn) == DequeueMove(s, turn.tid, At(s, turn.tid));
  }

  /** The position the cursor of a dequeue walk leads to is not past the thread's own node. */
  lemma DequeueCursor(s: State, queue: seq<Tid>, t: Tid) returns (i: nat)
    requires QueueInv(s, queue) && At(s, t).DeqWalk?
    ensures i < |queue|
    ensures (if At(s, t).prev.None? then s.head else Link(s, At(s, t).prev.value)) == Some(queue[i])
    ensures if i == 0 then At(s, t).prev.None? else At(s, t).prev == Some(queue[i - 1])
    ensures queue[i] != t ==> Precedes(queue, queue[i], t)
  {
    var p := At(s, t);
    assert CursorMatches(s, queue, t, p) && t in queue;
    var j :| 0 <= j < |queue| && queue[j] == t;
    if p.prev.None? {
      i := 0;
    } else {
      var a, b :| 0 <= a < b < |queue| && queue[a] == p.prev.value && queue[b] == t;
      assert b == j;
      i := a + 1;
    }
  }

  /** One step of the dequeue walk: it reaches the thread's node and unlinks it, or gets closer. */
  lemma StepDequeue(s: State, turn: Turn, queue: seq<Tid>)
    requires QueueInv(s, queue) && LockMatches(s, Some(turn.tid))
    requires At(s, turn.tid).DeqWalk?
    ensures QueueInv(Step(s, turn), QueueAfter(s, turn, queue))
  {
    var s', t := Step(s, turn), turn.tid;
    OthersStay(s, turn);
    DequeueStepIs(s, turn);
    var i := DequeueCursor(s, queue, t);
    if queue[i] == t {
      WithoutAt(queue, i);
      QueueUnlinked(s, s', t, queue, i);
    } else {
      assert Prepared(s, t, At(s, t));
      QueueUntouched(s, s', t, queue);
    }
  }

  /** Steps of a thread that sets its own fields before it is in the queue or after it has left it. */
  lemma StepOwnFields(s: State, turn: Turn, queue: seq<Tid>)
    requires QueueInv(s, queue)
    requires var p := At(s, turn.tid); p.LockSetReason? || p.LockClearLink? || p.DeqClear?
    ensures QueueInv(Step(s, turn), QueueAfter(s, turn, queue))
  {
    OthersStay(s, turn);
    assert Prepared(s, turn.tid, At(s, turn.tid));
    QueueOwnFields(s, Step(s, turn), turn.tid, queue);
  }

  lemma StepAppend(s: State, turn: Turn, queue: seq<Tid>)
    requires QueueInv(s, queue) && LockMatches(s, Some(turn.tid))
    requires var p := At(s, turn.tid); p.EnqLink? || (p.EnqHead? && s.head.None?)
    ensures QueueInv(Step(s, turn), QueueAfter(s, turn, queue))
  {
    OthersStay(s, turn);
    assert Prepared(s, turn.tid, At(s, turn.tid)) && CursorMatches(s, queue, turn.tid, At(s, turn.tid));
    QueueAppended(s, Step(s, turn), turn.tid, queue);
  }

  lemma StepElsewhere(s: State, turn: Turn, queue: seq<Tid>)
    requires QueueInv(s, queue)
    requires var p := At(s, turn.tid);
             && !p.LockSetReason? && !p.LockClearLink? && !p.DeqClear? && !p.DeqWalk? && !p.EnqLink?
             && (p.EnqHead? ==> s.head.Some?)
    ensures QueueInv(Step(s, turn), QueueAfter(s, turn, queue))
  {
    OthersStay(s, turn);
    if HoldsQueueLock(At(s, turn.tid)) {
      MoveInside(s, turn, queue);
    } else {
      MoveOutside(s, turn, queue);
    }
    EffectOutsideQueue(s, turn);
    SameFieldsSameCursor(s, Step(s, turn), queue, turn.tid, MoveOf(s, turn).to);
    QueueUntouched(s, Step(s, turn), turn.tid, queue);
  }

  lemma SameFieldsSameCursor(s: State, s': State, queue: seq<Tid>, t: Tid, p: Pc)
    requires SameQueueFields(s, s')
    requires Prepared(s, t, p) && CursorMatches(s, queue, t, p)
    ensures Prepared(s', t, p) && CursorMatches(s', queue, t, p)
  {
    assert forall u: Tid :: Link(s', u) == Link(s, u) && Reason(s', u) == Reason(s, u);
  }

  lemma StepQueue(s: State, turn: Turn, queue: seq<Tid>, holder: Option<Tid>)
    requires QueueInv(s, queue) && LockMatches(s, holder)
    ensures QueueInv(Step(s, turn), QueueAfter(s, turn, queue))
  {
    var p := At(s, turn.tid);
    assert HoldsQueueLock(p) ==> holder == Some(turn.tid);
    if p.LockSetReason? || p.LockClearLink? || p.DeqClear? {
      StepOwnFields(s, turn, queue);
    } else if p.DeqWalk? {
      StepDequeue(s, turn, queue);
    } else if p.EnqLink? || (p.EnqHead? && s.head.None?) {
      StepAppend(s, turn, queue);
    } else {
      StepElsewhere(s, turn, queue);
    }
  }

  lemma EffectOutsideQueue(s: State, turn: Turn)
    requires var e := MoveOf(s, turn).effect; !e.StoreHead? && !e.StoreLink? && !e.StoreReason?
    ensures SameQueueFields(s, Step(s, turn))
  {
  }

  // ---------------------------------------------------------------- wakeups

  /** A scan that has not passed the announced waiter does not end. */
  lemma ScanGoesOn(s: State, queue: seq<Tid>, cursor: Tid, next: nat, u: Tid)
    requires Spells(s, queue)
    requires cursor in queue && NotBefore(s, queue, cursor, next)
    requires u in queue && Reason(s, u) == next && Reason(s, cursor) != next
    ensures Link(s, cursor).Some?
  {
    var i, j :| 0 <= i < |queue| && 0 <= j < |queue| && queue[i] == cursor && queue[j] == u;
    assert i < j;
    assert Link(s, queue[i]) == Some(queue[i + 1]);
  }

  /** Two enqueued threads never announce the same ticket. */
  lemma OneAnnounces(s: State, w: Witness, t: Tid, u: Tid)
    requires Inv(s, w)
    requires t in w.queue && u in w.queue && Reason(s, t) == Reason(s, u)
    ensures t == u
  {
    assert Prepared(s, t, At(s, t)) && Prepared(s, u, At(s, u));
    assert HoldsTicket(At(s, t)) && HoldsTicket(At(s, u));
  }

  /** What a move of the thread that published the ticket does to a sleeper with that ticket: it keeps
      looking, or it puts the sleeper on the ready queue. */
  lemma ScanFinds(s: State, turn: Turn, w: Witness, u: Tid)
    requires Inv(s, w)
    requires Waking(At(s, turn.tid), s.exits)
    requires Sleeping(At(s, u)) && At(s, u).ticket == s.exits
    ensures Waking(MoveOf(s, turn).to, s.exits) || MoveOf(s, turn).effect == MakeReady(u)
  {
    var t := turn.tid;
    var p := At(s, t);
    assert CursorMatches(s, w.queue, t, p);
    assert Prepared(s, u, At(s, u)) && u in w.queue;
    assert MoveOf(s, turn) == UnlockMove(s, t, p);
    if p.ScanWalk? {
      if Reason(s, p.waiter) != s.exits {
        ScanGoesOn(s, w.queue, p.waiter, s.exits, u);
      }
    } else if p.ScanWake? {
      OneAnnounces(s, w, p.waiter, u);
    }
  }

  /** A thread only starts to sleep when its ticket is not yet the current one. */
  lemma MoveSleeps(s: State, turn: Turn)
    ensures var p, m := At(s, turn.tid), MoveOf(s, turn);
            && (Sleeping(m.to) ==> (Sleeping(p) && m.to.ticket == p.ticket) || m.to.ticket != s.exits)
            && (Waking(m.to, s.exits) && !Waking(p, s.exits) ==> p.UnlockStore?)
            && (m.effect.StoreExits? ==> Waking(m.to, m.effect.exits))
            && (m.effect.StoreExits? <==> p.UnlockStore?)
  {
  }

  lemma StepReady(s: State, turn: Turn)
    ensures var e := MoveOf(s, turn).effect;
            Step(s, turn).ready
            == if e.MakeReady? then s.ready + {e.task} else if e.Dispatch? then s.ready - {turn.tid} else s.ready
  {
  }

  lemma StepWakeups(s: State, turn: Turn, w: Witness)
    requires Inv(s, w)
    ensures WakeupsPending(Step(s, turn), if At(s, turn.tid).UnlockStore? then turn.tid else w.waker)
  {
    var s', t := Step(s, turn), turn.tid;
    OthersStay(s, turn);
    MoveSleeps(s, turn);
    StepCounters(s, turn);
    StepReady(s, turn);
    if !At(s, t).UnlockStore? {
      forall u: Tid | Sleeping(At(s', u)) && At(s', u).ticket == s'.exits && u !in s'.ready
        ensures Waking(At(s', w.waker), s'.exits)
      {
        SleeperWasPending(s, turn, u);
        if t == w.waker {
          ScanFinds(s, turn, w, u);
        }
      }
    }
  }

  lemma SleeperWasPending(s: State, turn: Turn, u: Tid)
    requires !At(s, turn.tid).UnlockStore?
    requires var s' := Step(s, turn);
             Sleeping(At(s', u)) && At(s', u).ticket == s'.exits && u !in s'.ready
    ensures Sleeping(At(s, u)) && At(s, u).ticket == s.exits && u !in s.ready
  {
    OthersStay(s, turn);
    MoveSleeps(s, turn);
    StepCounters(s, turn);
    StepReady(s, turn);
  }

  // ---------------------------------------------------------------- every schedule

  lemma StepInv(s: State, turn: Turn, w: Witness)
    requires Inv(s, w)
    ensures Inv(Step(s, turn), WitnessAfter(s, turn, w))
  {
    StepTickets(s, turn, w.draws);
    StepLock(s, turn, w.holder);
    StepOwner(s, turn, w.draws);
    StepQueue(s, turn, w.queue, w.holder);
    StepWakeups(s, turn, w);
  }

  lemma {:induction false} ExecInv(schedule: seq<Turn>)
    ensures Inv(Exec(schedule), WitnessOf(schedule))
  {
    if schedule != [] {
      var before := schedule[..|schedule| - 1];
      ExecInv(before);
      StepInv(Exec(before), schedule[|schedule| - 1], WitnessOf(before));
    }
  }
}
