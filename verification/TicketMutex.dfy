/** The ticket mutex with sleeping waiters, as a transition system.

    One step is one atomic access to shared memory: a load, a store, a compare-and-swap,
    a fetch-and-add, a test-and-set of the queue lock, or one call into the scheduler.
    A schedule is any sequence of turns, each naming the thread that moves next, so a statement
    about every schedule is a statement about every interleaving of any number of threads.
 */
module TicketMutex {
  import opened Options

  /** Identity of a task control block. Threads that never moved are idle. */
  type Tid = nat

  /** Where a thread is, together with the local variables that are live there. */
  datatype Pc =
    | Idle
      // mutex_lock: fast path
    | LockLoadEntries(seen: nat)
    | LockCas(expected: nat)
      // mutex_lock: slow path
    | LockFetchAdd
    | LockRecheck(ticket: nat)
    | LockSetReason(ticket: nat)
    | LockClearLink(ticket: nat)
    | EnqAcquire(ticket: nat)
    | EnqHead(ticket: nat)
    | EnqWalk(ticket: nat, tail: Tid)
    | EnqLink(ticket: nat, tail: Tid)
    | EnqRelease(ticket: nat)
    | WaitCheck(ticket: nat)
    | WaitBlock(ticket: nat)
    | Asleep(ticket: nat)
    | DeqAcquire(ticket: nat)
    | DeqWalk(ticket: nat, prev: Option<Tid>)
    | DeqClear(ticket: nat)
    | DeqRelease(ticket: nat)
    | SetOwner(ticket: nat)
    | Critical(ticket: nat)
      // mutex_unlock
    | UnlockLoad(ticket: nat)
    | UnlockStore(ticket: nat, loaded: nat)
    | ScanAcquire(next: nat)
    | ScanHead(next: nat)
    | ScanWalk(next: nat, waiter: Tid)
    | ScanWake(next: nat, waiter: Tid)
    | ScanRelease(next: nat)
      // mutex_try_lock
    | TryLoadEntries(seen: nat)
    | TryCas(expected: nat)

  /** The fields of the mutex, the fields of the task control blocks it uses, and the tasks that
      unblock_task has put on the ready queue and the scheduler has not dispatched since. */
  datatype State = State(
    entries: nat,
    exits: nat,
    queueLock: bool,
    head: Option<Tid>,
    owner: Option<Tid>,
    pc: map<Tid, Pc>,
    reason: map<Tid, nat>,
    link: map<Tid, Option<Tid>>,
    ready: set<Tid>
  )

  /** A turn: thread `tid` makes its next step; `try` says which call an idle thread makes. */
  datatype Turn = Turn(tid: Tid, try: bool)

  const INITIAL := State(0, 0, false, None, None, map[], map[], map[], {})

  function At(s: State, t: Tid): Pc {
    if t in s.pc then s.pc[t] else Idle
  }

  function Reason(s: State, t: Tid): nat {
    if t in s.reason then s.reason[t] else 0
  }

  function Link(s: State, t: Tid): Option<Tid> {
    if t in s.link then s.link[t] else None
  }

  /** The one shared location that a step writes, and what it writes there. */
  datatype Effect =
    | Nothing
    | DrawTicket
    | StoreExits(exits: nat)
    | TakeQueueLock
    | FreeQueueLock
    | StoreHead(head: Option<Tid>)
    | StoreLink(node: Tid, link: Option<Tid>)
    | StoreReason(reason: nat)
    | StoreOwner(owner: Option<Tid>)
    | MakeReady(task: Tid)
    | Dispatch

  /** A step of one thread: its shared access and where it goes next. */
  datatype Move = Move(effect: Effect, to: Pc)

  // ---------------------------------------------------------------- the steps

  /** mutex_lock up to the point where the thread either owns the lock or prepares to wait. */
  function LockMove(s: State, t: Tid, p: Pc): Move
    requires InLock(p)
  {
    match p
    case LockLoadEntries(seen) =>
      Move(Nothing, if seen == s.entries then LockCas(seen) else LockFetchAdd)
    case LockCas(expected) =>
      if s.entries == expected then Move(DrawTicket, SetOwner(expected)) else Move(Nothing, LockFetchAdd)
    case LockFetchAdd => Move(DrawTicket, LockRecheck(s.entries))
    case LockRecheck(ticket) =>
      Move(Nothing, if s.exits == ticket then SetOwner(ticket) else LockSetReason(ticket))
    case LockSetReason(ticket) => Move(StoreReason(ticket), LockClearLink(ticket))
    case LockClearLink(ticket) => Move(StoreLink(t, None), EnqAcquire(ticket))
    case SetOwner(ticket) => Move(StoreOwner(Some(t)), Critical(ticket))
  }

  /** The enqueue under the queue lock, the wait loop and the block. */
  function WaitMove(s: State, t: Tid, p: Pc): Move
    requires InWait(p)
  {
    match p
    case EnqAcquire(ticket) => Acquire(s, p, EnqHead(ticket))
    case EnqHead(ticket) =>
      if s.head.None? then Move(StoreHead(Some(t)), EnqRelease(ticket))
      else Move(Nothing, EnqWalk(ticket, s.head.value))
    case EnqWalk(ticket, tail) =>
      Move(Nothing, if Link(s, tail).None? then EnqLink(ticket, tail)
                    else EnqWalk(ticket, Link(s, tail).value))
    case EnqLink(ticket, tail) => Move(StoreLink(tail, Some(t)), EnqRelease(ticket))
    case EnqRelease(ticket) => Move(FreeQueueLock, WaitCheck(ticket))
    case WaitCheck(ticket) =>
      Move(Nothing, if s.exits == ticket then DeqAcquire(ticket) else WaitBlock(ticket))
    case WaitBlock(ticket) => Move(Nothing, Asleep(ticket))
    case Asleep(ticket) => if t in s.ready then Move(Dispatch, WaitCheck(ticket)) else Move(Nothing, p)
  }

  /** The removal of the thread's own node from the wait queue. */
  function DequeueMove(s: State, t: Tid, p: Pc): Move
    requires InDequeue(p)
  {
    match p
    case DeqAcquire(ticket) => Acquire(s, p, DeqWalk(ticket, None))
    case DeqWalk(ticket, prev) =>
      var current := if prev.None? then s.head else Link(s, prev.value);
      if current.None? then Move(Nothing, DeqClear(ticket))
      else if current.value != t then Move(Nothing, DeqWalk(ticket, current))
      else if prev.None? then Move(StoreHead(Link(s, t)), DeqClear(ticket))
      else Move(StoreLink(prev.value, Link(s, t)), DeqClear(ticket))
    case DeqClear(ticket) => Move(StoreLink(t, None), DeqRelease(ticket))
    case DeqRelease(ticket) => Move(FreeQueueLock, SetOwner(ticket))
  }

  /** mutex_unlock: clear the owner, publish the next ticket, scan the queue and wake its holder. */
  function UnlockMove(s: State, t: Tid, p: Pc): Move
    requires InUnlock(p)
  {
    match p
    case Critical(ticket) => Move(StoreOwner(None), UnlockLoad(ticket))
    case UnlockLoad(ticket) => Move(Nothing, UnlockStore(ticket, s.exits))
    case UnlockStore(ticket, loaded) => Move(StoreExits(loaded + 1), ScanAcquire(loaded + 1))
    case ScanAcquire(next) => Acquire(s, p, ScanHead(next))
    case ScanHead(next) => Move(Nothing, ScanFrom(next, s.head))
    case ScanWalk(next, waiter) =>
      Move(Nothing, if Reason(s, waiter) == next then ScanWake(next, waiter)
                    else ScanFrom(next, Link(s, waiter)))
    case ScanWake(next, waiter) => Move(MakeReady(waiter), ScanRelease(next))
    case ScanRelease(next) => Move(FreeQueueLock, Idle)
  }

  /** The first load of mutex_lock or mutex_try_lock, and the rest of mutex_try_lock. */
  function TryMove(s: State, p: Pc, try: bool): Move
    requires InTry(p)
  {
    match p
    case Idle => Move(Nothing, if try then TryLoadEntries(s.exits) else LockLoadEntries(s.exits))
    case TryLoadEntries(seen) => Move(Nothing, if seen == s.entries then TryCas(seen) else Idle)
    case TryCas(expected) =>
      if s.entries == expected then Move(DrawTicket, SetOwner(expected)) else Move(Nothing, Idle)
  }

  /** Test-and-set of the queue lock: spin while it is taken. */
  function Acquire(s: State, p: Pc, to: Pc): Move {
    if s.queueLock then Move(Nothing, p) else Move(TakeQueueLock, to)
  }

  function ScanFrom(next: nat, waiter: Option<Tid>): Pc {
    if waiter.None? then ScanRelease(next) else ScanWalk(next, waiter.value)
  }

  function MoveOf(s: State, turn: Turn): Move {
    var p := At(s, turn.tid);
    if InLock(p) then LockMove(s, turn.tid, p)
    else if InWait(p) then WaitMove(s, turn.tid, p)
    else if InDequeue(p) then DequeueMove(s, turn.tid, p)
    else if InUnlock(p) then UnlockMove(s, turn.tid, p)
    else TryMove(s, p, turn.try)
  }

  function Apply(s: State, t: Tid, e: Effect): State {
    match e
    case Nothing => s
    case DrawTicket => s.(entries := s.entries + 1)
    case StoreExits(exits) => s.(exits := exits)
    case TakeQueueLock => s.(queueLock := true)
    case FreeQueueLock => s.(queueLock := false)
    case StoreHead(head) => s.(head := head)
    case StoreLink(node, link) => s.(link := s.link[node := link])
    case StoreReason(reason) => s.(reason := s.reason[t := reason])
    case StoreOwner(owner) => s.(owner := owner)
    case MakeReady(task) => s.(ready := s.ready + {task})
    case Dispatch => s.(ready := s.ready - {t})
  }

  function Step(s: State, turn: Turn): State {
    var m := MoveOf(s, turn);
    Apply(s, turn.tid, m.effect).(pc := s.pc[turn.tid := m.to])
  }

  predicate InLock(p: Pc) {
    p.LockLoadEntries? || p.LockCas? || p.LockFetchAdd? || p.LockRecheck? || p.LockSetReason?
    || p.LockClearLink? || p.SetOwner?
  }

  predicate InWait(p: Pc) {
    p.EnqAcquire? || p.EnqHead? || p.EnqWalk? || p.EnqLink? || p.EnqRelease?
    || p.WaitCheck? || p.WaitBlock? || p.Asleep?
  }

  predicate InDequeue(p: Pc) {
    p.DeqAcquire? || p.DeqWalk? || p.DeqClear? || p.DeqRelease?
  }

  predicate InUnlock(p: Pc) {
    p.Critical? || p.UnlockLoad? || p.UnlockStore? || p.ScanAcquire? || p.ScanHead? || p.ScanWalk?
    || p.ScanWake? || p.ScanRelease?
  }

  predicate InTry(p: Pc) {
    p.Idle? || p.TryLoadEntries? || p.TryCas?
  }

  /** The state after a schedule. */
  function Exec(schedule: seq<Turn>): State {
    if schedule == [] then INITIAL
    else Step(Exec(schedule[..|schedule| - 1]), schedule[|schedule| - 1])
  }

  // ---------------------------------------------------------------- what a thread holds

  /** The thread drew a ticket and has not yet passed it on by storing exits. */
  predicate HoldsTicket(p: Pc) {
    p.LockRecheck? || p.LockSetReason? || p.LockClearLink? || InWait(p) || InDequeue(p)
    || p.SetOwner? || p.Critical? || p.UnlockLoad? || p.UnlockStore?
  }

  /** The thread has found its ticket equal to exits and has not yet stored the next one. */
  predicate Admitted(p: Pc) {
    InDequeue(p) || p.SetOwner? || p.Critical? || p.UnlockLoad? || p.UnlockStore?
  }

  /** The thread is inside the client's critical section or still clearing up behind it. */
  predicate Entered(p: Pc) {
    p.Critical? || p.UnlockLoad? || p.UnlockStore?
  }

  /** The thread's node is linked into the wait queue. */
  predicate Enqueued(p: Pc) {
    p.EnqRelease? || p.WaitCheck? || p.WaitBlock? || p.Asleep? || p.DeqAcquire? || p.DeqWalk?
  }

  predicate HoldsQueueLock(p: Pc) {
    p.EnqHead? || p.EnqWalk? || p.EnqLink? || p.EnqRelease? || p.DeqWalk? || p.DeqClear?
    || p.DeqRelease? || p.ScanHead? || p.ScanWalk? || p.ScanWake? || p.ScanRelease?
  }

  /** The thread has stored exits = next and its scan of the wait queue is not finished. */
  predicate Waking(p: Pc, next: nat) {
    (p.ScanAcquire? || p.ScanHead? || p.ScanWalk? || p.ScanWake?) && p.next == next
  }

  /** The thread has decided to sleep, or sleeps. */
  predicate Sleeping(p: Pc) {
    p.WaitBlock? || p.Asleep?
  }

  // ---------------------------------------------------------------- events of a run

  /** The thread that draws a ticket in this turn, if one does. */
  function Drawn(s: State, turn: Turn): seq<Tid> {
    if MoveOf(s, turn).effect.DrawTicket? then [turn.tid] else []
  }

  /** The thread that enters its critical section in this turn, if one does. */
  function Entering(s: State, turn: Turn): seq<Tid> {
    if At(s, turn.tid).SetOwner? then [turn.tid] else []
  }

  /** The threads that drew tickets during a schedule, in order. */
  function Draws(schedule: seq<Turn>): seq<Tid> {
    if schedule == [] then []
    else
      var before := schedule[..|schedule| - 1];
      Draws(before) + Drawn(Exec(before), schedule[|schedule| - 1])
  }

  /** The threads that entered their critical sections during a schedule, in order. */
  function Entries(schedule: seq<Turn>): seq<Tid> {
    if schedule == [] then []
    else
      var before := schedule[..|schedule| - 1];
      Entries(before) + Entering(Exec(before), schedule[|schedule| - 1])
  }
}
