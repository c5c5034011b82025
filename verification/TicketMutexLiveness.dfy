/** Starvation freedom of the ticket mutex: on every fair schedule of finitely many threads, every thread that drew a
    ticket enters its critical section. */
module TicketMutexLiveness {
  import opened Options
  import opened TicketMutex
  import opened TicketMutexProofs
  import opened TicketMutexTheorems

  // ---------------------------------------------------------------- endless schedules

  /** The first n turns of an endless schedule. */
  function Prefix(turns: nat -> Turn, n: nat): (p: seq<Turn>)
    ensures |p| == n && forall i :: 0 <= i < n ==> p[i] == turns(i)
  {
    seq(n, i requires 0 <= i < n => turns(i))
  }

  function StateAt(turns: nat -> Turn, n: nat): State {
    Exec(Prefix(turns, n))
  }

  ghost predicate HasTurn(turns: nat -> Turn, n: nat, t: Tid) {
    exists m: nat :: n <= m && turns(m).tid == t
  }

  /** Only the threads below the bound move, and each of them again and again. */
  ghost predicate Fair(turns: nat -> Turn, threads: nat) {
    && (forall i: nat :: turns(i).tid < threads)
    && (forall n: nat, t: Tid :: t < threads ==> HasTurn(turns, n, t))
  }

  lemma PrefixStep(turns: nat -> Turn, n: nat)
    ensures Prefix(turns, n + 1)[..n] == Prefix(turns, n) && Prefix(turns, n + 1)[n] == turns(n)
    ensures StateAt(turns, n + 1) == Step(StateAt(turns, n), turns(n))
    ensures WitnessOf(Prefix(turns, n + 1)) == WitnessAfter(StateAt(turns, n), turns(n), WitnessOf(Prefix(turns, n)))
  {
    assert Prefix(turns, n + 1)[..n] == Prefix(turns, n);
  }

  /** Threads that never have a turn are idle. */
  lemma {:induction false} OthersIdle(turns: nat -> Turn, threads: nat, n: nat, t: Tid)
    requires Fair(turns, threads) && threads <= t
    ensures At(StateAt(turns, n), t).Idle?
  {
    if n > 0 {
      OthersIdle(turns, threads, n - 1, t);
      PrefixStep(turns, n - 1);
      OthersStay(StateAt(turns, n - 1), turns(n - 1));
    }
  }

  // ---------------------------------------------------------------- the length of the queue

  ghost function Elements(queue: seq<Tid>): set<Tid> {
    set x | x in queue
  }

  lemma {:induction false} DistinctSize(queue: seq<Tid>)
    requires NoDuplicates(queue)
    ensures |Elements(queue)| == |queue|
  {
    if queue != [] {
      var rest, last := queue[..|queue| - 1], queue[|queue| - 1];
      DistinctSize(rest);
      assert last !in rest;
      assert Elements(queue) == Elements(rest) + {last};
    }
  }

  lemma {:induction false} BoundedSize(s: set<Tid>, k: nat)
    requires forall x :: x in s ==> x < k
    ensures |s| <= k
  {
    if k == 0 {
      assert s == {};
    } else {
      BoundedSize(s - {k - 1}, k - 1);
      if k - 1 in s {
        assert s == (s - {k - 1}) + {k - 1};
      } else {
        assert s == s - {k - 1};
      }
    }
  }

  /** A queue of threads that have turns is no longer than there are such threads. */
  lemma QueueBound(turns: nat -> Turn, threads: nat, n: nat)
    requires Fair(turns, threads)
    ensures |WitnessOf(Prefix(turns, n)).queue| <= threads
  {
    hide WitnessOf;
    hide Exec;
    hide Fair;
    var queue := WaitQueueOf(turns, n);
    forall t | t in queue
      ensures t < threads
    {
      if t >= threads {
        OthersIdle(turns, threads, n, t);
      }
    }
    DistinctSize(queue);
    BoundedSize(Elements(queue), threads);
  }

  lemma WaitQueueOf(turns: nat -> Turn, n: nat) returns (queue: seq<Tid>)
    ensures queue == WitnessOf(Prefix(turns, n)).queue && NoDuplicates(queue)
    ensures forall t :: t in queue ==> !At(StateAt(turns, n), t).Idle?
  {
    hide WitnessOf;
    hide Exec;
    ExecInv(Prefix(turns, n));
    queue := WitnessOf(Prefix(turns, n)).queue;
    assert MembersMatch(StateAt(turns, n), queue);
  }

  // ---------------------------------------------------------------- what is left to do

  function Pos(queue: seq<Tid>, x: Tid): nat {
    if queue == [] || queue[0] == x then 0 else 1 + Pos(queue[1..], x)
  }

  lemma {:induction false} PosAt(queue: seq<Tid>, i: nat)
    requires NoDuplicates(queue) && i < |queue|
    ensures Pos(queue, queue[i]) == i
  {
    if i > 0 {
      assert queue[1..][i - 1] == queue[i];
      PosAt(queue[1..], i - 1);
    }
  }

  /** How many steps a thread can still make while exits stays as it is, at most. Calls of mutex_try_lock, which fail
      meanwhile, do not count. */
  function Rank(p: Pc, queue: seq<Tid>, k: nat): int {
    match p
    case UnlockStore(_, _) => 0
    case UnlockLoad(_) => 1
    case Critical(_) => 2
    case SetOwner(_) => 3
    case DeqRelease(_) => 4
    case DeqClear(_) => 5
    case DeqWalk(_, prev) => 6 + k - (if prev.None? then 0 else Pos(queue, prev.value) + 1)
    case DeqAcquire(_) => 7 + k
    case Asleep(_) => 8 + k
    case WaitBlock(_) => 9 + k
    case WaitCheck(_) => 10 + k
    case EnqRelease(_) => 11 + k
    case EnqLink(_, _) => 12 + k
    case EnqWalk(_, tail) => 13 + 2 * k - Pos(queue, tail)
    case EnqHead(_) => 14 + 2 * k
    case EnqAcquire(_) => 15 + 2 * k
    case LockClearLink(_) => 16 + 2 * k
    case LockSetReason(_) => 17 + 2 * k
    case LockRecheck(_) => 18 + 2 * k
    case LockFetchAdd => 19 + 2 * k
    case LockCas(_) => 20 + 2 * k
    case LockLoadEntries(_) => 21 + 2 * k
    case Idle => 22 + 2 * k
    case TryLoadEntries(_) => 22 + 2 * k
    case TryCas(_) => 22 + 2 * k
    case ScanRelease(_) => 23 + 2 * k
    case ScanWake(_, _) => 28 + 2 * k
    case ScanWalk(_, waiter) => 29 + 3 * k - Pos(queue, waiter)
    case ScanHead(_) => 30 + 3 * k
    case ScanAcquire(_) => 31 + 3 * k
  }

  /** A wakeup gives a sleeper one more round. */
  function Value(s: State, queue: seq<Tid>, k: nat, t: Tid): int {
    Rank(At(s, t), queue, k) + if t in s.ready then 4 else 0
  }

  function Total(s: State, queue: seq<Tid>, k: nat, n: nat): int {
    if n == 0 then 0 else Total(s, queue, k, n - 1) + Value(s, queue, k, n - 1)
  }

  lemma RankPositive(s: State, queue: seq<Tid>, k: nat, t: Tid)
    requires QueueInv(s, queue) && |queue| <= k
    ensures Value(s, queue, k, t) >= 0
  {
    hide Spells;
    hide MembersMatch;
    hide Prepared;
    hide Precedes;
    hide NotBefore;
    hide Pos;
    var p := At(s, t);
    assert CursorMatches(s, queue, t, p);
    if p.EnqWalk? {
      NextPos(s, queue, p.tail);
    } else if p.ScanWalk? {
      NextPos(s, queue, p.waiter);
    } else if p.DeqWalk? {
      var i := DequeueCursor(s, queue, t);
      if i > 0 {
        PosAt(queue, i - 1);
      }
    }
  }

  lemma {:induction false} TotalPositive(s: State, queue: seq<Tid>, k: nat, n: nat)
    requires QueueInv(s, queue) && |queue| <= k
    ensures Total(s, queue, k, n) >= 0
  {
    hide QueueInv;
    hide Value;
    if n > 0 {
      TotalPositive(s, queue, k, n - 1);
      RankPositive(s, queue, k, n - 1);
    }
  }

  /** A turn that gets nobody any further: the thread waits, or tries the lock and fails. */
  predicate Quiet(s: State, turn: Turn) {
    Stalled(s, turn.tid) || (InTry(At(s, turn.tid)) && InTry(MoveOf(s, turn).to))
  }

  /** What a move that wakes a thread costs, and any other. */
  function Cost(e: Effect): int {
    if e.MakeReady? then 5 else 1
  }

  // ---------------------------------------------------------------- every other turn leaves less to do

  /** The next node of the queue is one place further. */
  lemma NextPos(s: State, queue: seq<Tid>, node: Tid)
    requires Spells(s, queue) && NoDuplicates(queue) && node in queue
    ensures Pos(queue, node) < |queue|
    ensures Link(s, node).Some? ==> Pos(queue, Link(s, node).value) == Pos(queue, node) + 1
  {
    var i :| 0 <= i < |queue| && queue[i] == node;
    SpellsAt(s, queue, i);
    PosAt(queue, i);
    if i + 1 < |queue| {
      PosAt(queue, i + 1);
    }
  }

  lemma HeadPos(s: State, queue: seq<Tid>)
    requires Spells(s, queue)
    ensures s.head.Some? ==> Pos(queue, s.head.value) == 0
  {
  }

  lemma WalkDrops(s: State, turn: Turn, queue: seq<Tid>, k: nat)
    requires QueueInv(s, queue) && |queue| <= k
    requires var p := At(s, turn.tid); p.EnqHead? || p.EnqWalk? || p.ScanHead? || p.ScanWalk?
    ensures Rank(MoveOf(s, turn).to, queue, k) < Rank(At(s, turn.tid), queue, k)
    ensures MoveOf(s, turn).effect.Nothing? || MoveOf(s, turn).effect.StoreHead?
  {
    hide Spells;
    hide NoDuplicates;
    hide MembersMatch;
    hide Prepared;
    hide NotBefore;
    hide Pos;
    var p := At(s, turn.tid);
    assert CursorMatches(s, queue, turn.tid, p);
    HeadPos(s, queue);
    if p.EnqWalk? {
      NextPos(s, queue, p.tail);
    } else if p.ScanWalk? {
      NextPos(s, queue, p.waiter);
    }
  }

  lemma DequeueDrops(s: State, turn: Turn, queue: seq<Tid>, k: nat)
    requires QueueInv(s, queue) && |queue| <= k && At(s, turn.tid).DeqWalk?
    ensures Rank(MoveOf(s, turn).to, queue, k) < Rank(At(s, turn.tid), queue, k)
    ensures !MoveOf(s, turn).effect.MakeReady? && !MoveOf(s, turn).effect.Dispatch?
  {
    hide Spells;
    hide MembersMatch;
    hide Prepared;
    hide CursorMatches;
    hide Precedes;
    hide Pos;
    var i := DequeueCursor(s, queue, turn.tid);
    PosAt(queue, i);
    if i > 0 {
      PosAt(queue, i - 1);
    }
  }

  predicate Walks(p: Pc) {
    p.EnqWalk? || p.ScanWalk? || p.DeqWalk?
  }

  /** Only positions in the queue depend on the queue. */
  lemma RankElsewhere(p: Pc, queue: seq<Tid>, queue': seq<Tid>, k: nat)
    requires !Walks(p) || queue' == queue
    ensures Rank(p, queue', k) == Rank(p, queue, k)
  {
  }

  /** The move of a thread that is not on its way along the queue. */
  ghost predicate Drops(s: State, turn: Turn, queue: seq<Tid>, k: nat) {
    var p, m := At(s, turn.tid), MoveOf(s, turn);
    Rank(m.to, queue, k) + Cost(m.effect) <= Rank(p, queue, k) + if m.effect.Dispatch? then 3 else 0
  }

  lemma LockDrops(s: State, turn: Turn, queue: seq<Tid>, k: nat)
    requires InLock(At(s, turn.tid)) || InTry(At(s, turn.tid))
    requires !Quiet(s, turn)
    ensures Drops(s, turn, queue, k)
  {
  }

  lemma WaitDrops(s: State, turn: Turn, queue: seq<Tid>, k: nat)
    requires var p := At(s, turn.tid); InWait(p) && !p.EnqHead? && !p.EnqWalk?
    requires !Stalled(s, turn.tid)
    ensures Drops(s, turn, queue, k)
  {
  }

  lemma ExitDrops(s: State, turn: Turn, queue: seq<Tid>, k: nat)
    requires var p := At(s, turn.tid);
             (InDequeue(p) && !p.DeqWalk?) || (InUnlock(p) && !p.UnlockStore? && !p.ScanHead? && !p.ScanWalk?)
    requires !Stalled(s, turn.tid)
    ensures Drops(s, turn, queue, k)
  {
  }

  /** The queue changes only with a step of the thread that holds its lock, and not while a thread walks along it. */
  lemma QueueChange(s: State, turn: Turn, queue: seq<Tid>)
    ensures QueueAfter(s, turn, queue) != queue ==> HoldsQueueLock(At(s, turn.tid)) && !Walks(MoveOf(s, turn).to)
  {
    OthersStay(s, turn);
    hide Step;
  }

  lemma ReadyAfter(s: State, turn: Turn, x: Tid)
    ensures var e := MoveOf(s, turn).effect;
            && (x in Step(s, turn).ready <==> if e.MakeReady? then x in s.ready || x == e.task
                                              else if e.Dispatch? then x in s.ready && x != turn.tid else x in s.ready)
            && (e.Dispatch? ==> turn.tid in s.ready && At(s, turn.tid).Asleep?)
            && (e.MakeReady? <==> At(s, turn.tid).ScanWake?) && (e.MakeReady? ==> e.task == At(s, turn.tid).waiter)
  {
  }

  lemma WokenIsOther(s: State, queue: seq<Tid>, t: Tid)
    requires QueueInv(s, queue) && At(s, t).ScanWake?
    ensures At(s, t).waiter != t
  {
    hide Spells;
    hide Prepared;
    hide NoDuplicates;
    assert CursorMatches(s, queue, t, At(s, t));
  }

  lemma MoverDrops(s: State, turn: Turn, queue: seq<Tid>, k: nat)
    requires QueueInv(s, queue) && |queue| <= k && !Quiet(s, turn) && !At(s, turn.tid).UnlockStore?
    ensures Value(Step(s, turn), QueueAfter(s, turn, queue), k, turn.tid) + Cost(MoveOf(s, turn).effect)
            <= Value(s, queue, k, turn.tid)
  {
    hide QueueInv;
    hide Rank;
    hide MoveOf;
    hide Step;
    hide QueueAfter;
    var t, p, m := turn.tid, At(s, turn.tid), MoveOf(s, turn);
    OthersStay(s, turn);
    QueueChange(s, turn, queue);
    RankElsewhere(m.to, queue, QueueAfter(s, turn, queue), k);
    ReadyAfter(s, turn, t);
    if p.ScanWake? {
      WokenIsOther(s, queue, t);
    }
    if p.DeqWalk? {
      DequeueDrops(s, turn, queue, k);
    } else if p.EnqHead? || p.EnqWalk? || p.ScanHead? || p.ScanWalk? {
      WalkDrops(s, turn, queue, k);
    } else if InLock(p) || InTry(p) {
      LockDrops(s, turn, queue, k);
    } else if InWait(p) {
      WaitDrops(s, turn, queue, k);
    } else {
      ExitDrops(s, turn, queue, k);
    }
  }

  lemma OtherValue(s: State, turn: Turn, queue: seq<Tid>, holder: Option<Tid>, k: nat, x: Tid)
    requires LockMatches(s, holder) && x != turn.tid
    ensures Value(Step(s, turn), QueueAfter(s, turn, queue), k, x)
            <= Value(s, queue, k, x) + if MoveOf(s, turn).effect == MakeReady(x) then 4 else 0
  {
    hide Rank;
    hide MoveOf;
    hide Step;
    hide QueueAfter;
    OthersStay(s, turn);
    QueueChange(s, turn, queue);
    ReadyAfter(s, turn, x);
    assert HoldsQueueLock(At(s, turn.tid)) ==> !HoldsQueueLock(At(s, x));
    RankElsewhere(At(s, x), queue, QueueAfter(s, turn, queue), k);
  }

  /** A turn that is not quiet leaves less to do, for all threads together. */
  lemma {:induction false} TotalDrops(s: State, turn: Turn, w: Witness, k: nat, n: nat)
    requires Inv(s, w) && |w.queue| <= k && !Quiet(s, turn) && !At(s, turn.tid).UnlockStore?
    ensures var e := MoveOf(s, turn).effect;
            Total(Step(s, turn), QueueAfter(s, turn, w.queue), k, n)
            <= Total(s, w.queue, k, n) - (if turn.tid < n then Cost(e) else 0)
               + (if e.MakeReady? && e.task != turn.tid && e.task < n then 4 else 0)
  {
    hide TicketInv;
    hide QueueInv;
    hide OwnerMatches;
    hide WakeupsPending;
    hide LockMatches;
    hide Value;
    hide Quiet;
    hide MoveOf;
    hide Step;
    hide QueueAfter;
    if n > 0 {
      TotalDrops(s, turn, w, k, n - 1);
      if turn.tid == n - 1 {
        MoverDrops(s, turn, w.queue, k);
      } else {
        OtherValue(s, turn, w.queue, w.holder, k, n - 1);
      }
    }
  }

  lemma QuietMove(s: State, turn: Turn)
    requires Quiet(s, turn)
    ensures var p, m := At(s, turn.tid), MoveOf(s, turn);
            m.effect.Nothing? && (m.to == p || (InTry(p) && InTry(m.to)))
  {
  }

  /** A quiet turn changes nothing that matters. */
  lemma QuietKeeps(s: State, turn: Turn, queue: seq<Tid>, k: nat, u: Tid)
    requires Quiet(s, turn) && !Stalled(s, u) && !InTry(At(s, u))
    ensures var s' := Step(s, turn);
            && turn.tid != u && QueueAfter(s, turn, queue) == queue
            && !Stalled(s', u) && !InTry(At(s', u))
            && s'.exits == s.exits && s'.entries == s.entries
            && forall x :: Value(s', queue, k, x) == Value(s, queue, k, x)
  {
    OthersStay(s, turn);
    QuietMove(s, turn);
    hide MoveOf;
    var s', t := Step(s, turn), turn.tid;
    assert Rank(At(s', t), queue, k) == Rank(At(s, t), queue, k);
  }

  lemma {:induction false} SameTotal(s: State, s': State, queue: seq<Tid>, k: nat, n: nat)
    requires forall x :: Value(s', queue, k, x) == Value(s, queue, k, x)
    ensures Total(s', queue, k, n) == Total(s, queue, k, n)
  {
    hide Value;
    if n > 0 {
      SameTotal(s, s', queue, k, n - 1);
    }
  }

  // ---------------------------------------------------------------- every ticket is served

  /** While a ticket is out, some thread can get things further. */
  lemma Mover(s: State, w: Witness) returns (u: Tid)
    requires Inv(s, w) && s.exits < s.entries
    ensures !Stalled(s, u) && !InTry(At(s, u))
  {
    u := w.draws[s.exits];
    assert HoldsTicket(At(s, u)) && At(s, u).ticket == s.exits;
    if At(s, u).Asleep? && u !in s.ready {
      u := w.waker;
      assert Waking(At(s, u), s.exits);
    }
    if Stalled(s, u) {
      u := w.holder.value;
      assert HoldsQueueLock(At(s, u));
    }
  }

  function Left(turns: nat -> Turn, threads: nat, n: nat): int {
    Total(StateAt(turns, n), WitnessOf(Prefix(turns, n)).queue, threads, threads)
  }

  /** A turn either passes the lock on, or leaves less to do, or is quiet. */
  lemma TurnCases(turns: nat -> Turn, threads: nat, n: nat, u: Tid)
    requires Fair(turns, threads) && !Stalled(StateAt(turns, n), u) && !InTry(At(StateAt(turns, n), u))
    ensures Left(turns, threads, n) >= 0
    ensures StateAt(turns, n).entries <= StateAt(turns, n + 1).entries
    ensures var s, s' := StateAt(turns, n), StateAt(turns, n + 1);
            || s'.exits == s.exits + 1
            || (s'.exits == s.exits && Left(turns, threads, n + 1) < Left(turns, threads, n))
            || (&& s'.exits == s.exits && Left(turns, threads, n + 1) == Left(turns, threads, n)
                && turns(n).tid != u && !Stalled(s', u) && !InTry(At(s', u)))
  {
    hide Exec;
    hide WitnessOf;
    hide Fair;
    hide Total;
    hide Value;
    hide Quiet;
    hide Step;
    hide MoveOf;
    hide Stalled;
    hide QueueAfter;
    hide HolderAfter;
    var s, w, turn := StateAt(turns, n), WitnessOf(Prefix(turns, n)), turns(n);
    ExecInv(Prefix(turns, n));
    PrefixStep(turns, n);
    QueueBound(turns, threads, n);
    TotalPositive(s, w.queue, threads, threads);
    Counters(s, turn, w);
    if !At(s, turn.tid).UnlockStore? {
      if Quiet(s, turn) {
        QuietKeeps(s, turn, w.queue, threads, u);
        SameTotal(s, Step(s, turn), w.queue, threads, threads);
      } else {
        TotalDrops(s, turn, w, threads, threads);
        TurnWithin(turns, threads, n);
      }
    }
  }

  lemma TurnWithin(turns: nat -> Turn, threads: nat, n: nat)
    requires Fair(turns, threads)
    ensures turns(n).tid < threads
  {
  }

  lemma Counters(s: State, turn: Turn, w: Witness)
    requires Inv(s, w)
    ensures s.entries <= Step(s, turn).entries
    ensures Step(s, turn).exits == if At(s, turn.tid).UnlockStore? then s.exits + 1 else s.exits
  {
    hide QueueInv;
    hide WakeupsPending;
    hide MoveOf;
    hide Step;
    StepCounters(s, turn);
    MoveTicket(s, turn);
    if At(s, turn.tid).UnlockStore? {
      assert Admitted(At(s, turn.tid));
    }
  }

  /** While a ticket is out, exits goes up some time. */
  lemma {:induction false} ExitsGrow(turns: nat -> Turn, threads: nat, n: nat, u: Tid, d: nat) returns (m: nat)
    requires Fair(turns, threads) && StateAt(turns, n).exits < StateAt(turns, n).entries
    requires !Stalled(StateAt(turns, n), u) && !InTry(At(StateAt(turns, n), u)) && turns(n + d).tid == u
    ensures n < m && StateAt(turns, m).exits == StateAt(turns, n).exits + 1
    decreases Left(turns, threads, n), d
  {
    hide StateAt;
    hide Left;
    hide Stalled;
    hide Fair;
    TurnCases(turns, threads, n, u);
    m := n + 1;
    if StateAt(turns, m).exits == StateAt(turns, n).exits {
      if Left(turns, threads, m) < Left(turns, threads, n) {
        var v, e := NextMover(turns, threads, m);
        m := ExitsGrow(turns, threads, m, v, e);
      } else {
        m := ExitsGrow(turns, threads, m, u, d - 1);
      }
    }
  }

  lemma NextMover(turns: nat -> Turn, threads: nat, n: nat) returns (u: Tid, d: nat)
    requires Fair(turns, threads) && StateAt(turns, n).exits < StateAt(turns, n).entries
    ensures !Stalled(StateAt(turns, n), u) && !InTry(At(StateAt(turns, n), u)) && turns(n + d).tid == u
  {
    hide Exec;
    hide Stalled;
    hide Inv;
    hide WitnessOf;
    ExecInv(Prefix(turns, n));
    u := Mover(StateAt(turns, n), WitnessOf(Prefix(turns, n)));
    if u >= threads {
      OthersIdle(turns, threads, n, u);
    }
    var m := NextTurn(turns, threads, n, u);
    d := m - n;
  }

  /** Every ticket that was drawn is passed on some time. */
  lemma {:induction false} TicketPassedOn(turns: nat -> Turn, threads: nat, n: nat, ticket: nat) returns (m: nat)
    requires Fair(turns, threads) && ticket < StateAt(turns, n).entries
    ensures n <= m && StateAt(turns, m).exits > ticket
    decreases ticket - StateAt(turns, n).exits
  {
    hide StateAt;
    hide Fair;
    m := n;
    if StateAt(turns, n).exits <= ticket {
      var u, d := NextMover(turns, threads, n);
      var next := ExitsGrow(turns, threads, n, u, d);
      EntriesGrow(turns, n, next);
      m := TicketPassedOn(turns, threads, next, ticket);
    }
  }

  lemma {:induction false} EntriesGrow(turns: nat -> Turn, n: nat, m: nat)
    requires n <= m
    ensures StateAt(turns, n).entries <= StateAt(turns, m).entries
    ensures Draws(Prefix(turns, n)) <= Draws(Prefix(turns, m))
    decreases m - n
  {
    hide Exec;
    if n < m {
      EntriesGrow(turns, n, m - 1);
      PrefixStep(turns, m - 1);
      StepCounters(StateAt(turns, m - 1), turns(m - 1));
    }
  }

  /** Before its turn, the entry of a ticket holder is still to come. */
  lemma NotYetServed(schedule: seq<Turn>, t: Tid)
    requires var p := At(Exec(schedule), t); HoldsTicket(p) && !TicketMutex.Entered(p)
    ensures var ticket := At(Exec(schedule), t).ticket;
            |Entries(schedule)| <= ticket < |Draws(schedule)| && Draws(schedule)[ticket] == t
  {
    hide Exec;
    hide Entries;
    hide Draws;
    ServedOf(schedule);
  }

  /** The turn in which a thread enters as number `ticket`. */
  lemma EntryTurn(turns: nat -> Turn, n: nat, t: Tid, ticket: nat)
    requires |Entries(Prefix(turns, n))| <= ticket < |Entries(Prefix(turns, n + 1))|
    requires ticket < |Draws(Prefix(turns, n))| && Draws(Prefix(turns, n))[ticket] == t
    ensures At(StateAt(turns, n + 1), t) == Critical(ticket)
  {
    hide Exec;
    hide MoveOf;
    hide Step;
    var before, now, s, turn := Prefix(turns, n), Prefix(turns, n + 1), StateAt(turns, n), turns(n);
    PrefixStep(turns, n);
    ServedOf(before);
    ServedOf(now);
    EntriesGrow(turns, n, n + 1);
    assert Entries(now) == Entries(before) + Entering(s, turn);
    assert turn.tid == Entries(now)[ticket] == Draws(now)[ticket] == t;
    assert Admitted(At(s, t)) && At(s, t).ticket == s.exits;
    OthersStay(s, turn);
    SetOwnerEnters(s, turn);
  }

  lemma SetOwnerEnters(s: State, turn: Turn)
    requires At(s, turn.tid).SetOwner?
    ensures MoveOf(s, turn).to == Critical(At(s, turn.tid).ticket)
  {
  }

  lemma {:induction false} EntryBetween(turns: nat -> Turn, n: nat, m: nat, t: Tid, ticket: nat) returns (e: nat)
    requires n <= m && |Entries(Prefix(turns, n))| <= ticket < |Entries(Prefix(turns, m))|
    requires ticket < |Draws(Prefix(turns, n))| && Draws(Prefix(turns, n))[ticket] == t
    ensures n < e <= m && At(StateAt(turns, e), t) == Critical(ticket)
    decreases m - n
  {
    hide StateAt;
    hide Entries;
    hide Draws;
    if |Entries(Prefix(turns, n + 1))| > ticket {
      EntryTurn(turns, n, t, ticket);
      e := n + 1;
    } else {
      EntriesGrow(turns, n, n + 1);
      e := EntryBetween(turns, n + 1, m, t, ticket);
    }
  }

  /** Starvation freedom: a thread that drew a ticket enters its critical section some time, if every thread has turns
      again and again. */
  lemma EveryHolderEnters(turns: nat -> Turn, threads: nat, n: nat, t: Tid) returns (m: nat)
    requires Fair(turns, threads)
    requires var p := At(StateAt(turns, n), t); HoldsTicket(p) && !TicketMutex.Entered(p)
    ensures n < m && At(StateAt(turns, m), t) == Critical(At(StateAt(turns, n), t).ticket)
  {
    hide Exec;
    hide Entries;
    hide Draws;
    hide Fair;
    var ticket := At(StateAt(turns, n), t).ticket;
    NotYetServed(Prefix(turns, n), t);
    FirstComeFirstServed(Prefix(turns, n));
    var late := TicketPassedOn(turns, threads, n, ticket);
    FirstComeFirstServed(Prefix(turns, late));
    m := EntryBetween(turns, n, late, t, ticket);
  }

  /** The thread has called mutex_lock and has no ticket yet. */
  predicate Arriving(p: Pc) {
    p.LockLoadEntries? || p.LockCas? || p.LockFetchAdd?
  }

  function StepsToDraw(p: Pc): nat {
    if p.LockLoadEntries? then 2 else if p.LockCas? then 1 else 0
  }

  predicate HoldsUnused(p: Pc) {
    HoldsTicket(p) && !TicketMutex.Entered(p)
  }

  lemma ArrivalStep(turns: nat -> Turn, n: nat, t: Tid)
    requires Arriving(At(StateAt(turns, n), t))
    ensures var p, q := At(StateAt(turns, n), t), At(StateAt(turns, n + 1), t);
            if turns(n).tid != t then q == p else HoldsUnused(q) || (Arriving(q) && StepsToDraw(q) < StepsToDraw(p))
  {
    hide Exec;
    hide WitnessOf;
    hide Step;
    PrefixStep(turns, n);
    OthersStay(StateAt(turns, n), turns(n));
  }

  /** A thread that calls mutex_lock draws a ticket some time. */
  lemma {:induction false} ArrivalDraws(turns: nat -> Turn, threads: nat, n: nat, t: Tid, d: nat) returns (m: nat)
    requires Fair(turns, threads) && t < threads && Arriving(At(StateAt(turns, n), t)) && turns(n + d).tid == t
    ensures n < m && HoldsUnused(At(StateAt(turns, m), t))
    decreases StepsToDraw(At(StateAt(turns, n), t)), d
  {
    hide StateAt;
    hide At;
    hide Arriving;
    hide StepsToDraw;
    hide HoldsUnused;
    ArrivalStep(turns, n, t);
    m := n + 1;
    if turns(n).tid != t {
      m := ArrivalDraws(turns, threads, m, t, d - 1);
    } else if !HoldsUnused(At(StateAt(turns, m), t)) {
      var next := NextTurn(turns, threads, m, t);
      m := ArrivalDraws(turns, threads, m, t, next - m);
    }
  }

  lemma NextTurn(turns: nat -> Turn, threads: nat, n: nat, t: Tid) returns (m: nat)
    requires Fair(turns, threads) && t < threads
    ensures n <= m && turns(m).tid == t
  {
    assert HasTurn(turns, n, t);
    m :| n <= m && turns(m).tid == t;
  }

  /** Every call of mutex_lock gets the lock some time. */
  lemma EveryLockSucceeds(turns: nat -> Turn, threads: nat, n: nat, t: Tid) returns (m: nat)
    requires Fair(turns, threads) && Arriving(At(StateAt(turns, n), t))
    ensures n < m && At(StateAt(turns, m), t).Critical?
  {
    hide Exec;
    if t >= threads {
      OthersIdle(turns, threads, n, t);
    }
    var next := NextTurn(turns, threads, n, t);
    var drawn := ArrivalDraws(turns, threads, n, t, next - n);
    m := EveryHolderEnters(turns, threads, drawn, t);
  }
}
