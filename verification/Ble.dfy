/**
 The connection protocol of ble.py: one `maintain_device` task per registered
 device on one asyncio loop, sharing the lock that serialises establishment.
 A task runs undisturbed between awaits; every await may succeed, fail or find
 the task cancelled, and the other tasks move in any order.
 */
module Ble {
  import opened Common
  import Connection

  /** Where a task is suspended. */
  datatype Pc =
    | Start
    | AwaitLock
    | Connecting
    | Subscribing(index: nat)
    | HoldWrite
    | HoldSleep
    | Disconnecting(dying: bool)
    | BackingOff
    | Done

  /**
   marks: the availability published so far (true is online); outcomes: how each
   finished attempt went (true is fully subscribed); sleeps: the argument of each
   backoff.
   */
  datatype Task = Task(mac: string, notifies: nat, pc: Pc, cancelled: bool, connected: bool, attempt: nat,
                       marks: seq<bool>, outcomes: seq<bool>, sleeps: seq<nat>)

  /** waiters: the tasks that wait for the lock, first come first; asyncio.Lock serves them in this order. */
  datatype Sys = Sys(tasks: seq<Task>, lock: Option<nat>, waiters: seq<nat>, stop: bool)

  /** What the awaited operation did, whether the client is connected, and whether a poll is due. */
  datatype Event = Event(fails: bool, alive: bool, poll: bool)

  datatype Action =
    | Register(mac: string, notifies: nat)
    | Resume(i: nat, event: Event)
    | Cancel(i: nat)
    | SetStop
    | Shutdown

  const INITIAL: Sys := Sys([], None, [], false)

  // ------------------------------------------------- code between awaits

  /** The head of the `while` loop: a fresh client, or the end. */
  function LoopTop(t: Task, stop: bool): Task {
    t.(pc := if stop then Done else AwaitLock, connected := false)
  }

  /** Behind the `try` statement. */
  function AfterFinally(t: Task, stop: bool, dying: bool): Task {
    if dying then t.(pc := Done)
    else
      var u := t.(outcomes := t.outcomes + [t.connected]);
      if stop then u.(pc := Done)
      else if t.connected then LoopTop(u.(attempt := 0), stop)
      else u.(attempt := t.attempt + 1, sleeps := t.sleeps + [t.attempt + 1], pc := BackingOff)
  }

  /** The `finally` clause: offline, then disconnect a client that is still connected. */
  function Finally(t: Task, stop: bool, dying: bool, alive: bool): Task {
    var u := t.(marks := t.marks + [false]);
    if alive then u.(pc := Disconnecting(dying)) else AfterFinally(u, stop, dying)
  }

  /** The head of the loop in `_hold`. */
  function HoldTop(t: Task, stop: bool, e: Event): Task {
    if stop || !e.alive then Finally(t, stop, false, e.alive)
    else t.(pc := if e.poll then HoldWrite else HoldSleep)
  }

  /** All notifications are on: the connection is good. */
  function Established(t: Task, stop: bool, e: Event): Task {
    HoldTop(t.(connected := true), stop, e)
  }

  predicate Critical(pc: Pc) {
    pc.Connecting? || pc.Subscribing?
  }

  predicate InTry(pc: Pc) {
    pc.AwaitLock? || Critical(pc) || pc.HoldWrite? || pc.HoldSleep?
  }

  /** What one task does when it is resumed; the lock is free for it where it asks for it. */
  function Moved(t: Task, stop: bool, e: Event): Task {
    if t.pc.Done? then t
    else if t.cancelled then
      var u := t.(cancelled := false);
      if InTry(t.pc) then Finally(u, stop, true, e.alive) else u.(pc := Done)
    else
      match t.pc
      case Start => LoopTop(t, stop)
      case AwaitLock => t.(pc := Connecting)
      case Connecting =>
        if e.fails then Finally(t, stop, false, e.alive)
        else
          var u := t.(marks := t.marks + [true]);
          if t.notifies == 0 then Established(u, stop, e) else u.(pc := Subscribing(0))
      case Subscribing(k) =>
        if e.fails then Finally(t, stop, false, e.alive)
        else if k + 1 < t.notifies then t.(pc := Subscribing(k + 1))
        else Established(t, stop, e)
      case HoldWrite =>
        if e.fails then Finally(t, stop, false, e.alive) else t.(pc := HoldSleep)
      case HoldSleep =>
        if e.fails then Finally(t, stop, false, e.alive) else HoldTop(t, stop, e)
      case Disconnecting(dying) => AfterFinally(t, stop, dying)
      case BackingOff => LoopTop(t, stop)
      case Done => t
  }

  predicate IsCancelled(s: Sys, i: nat) {
    i < |s.tasks| && s.tasks[i].cancelled
  }

  /** The first of the waiters, those aside that have been cancelled. */
  predicate AtHead(s: Sys, i: nat) {
    exists k :: 0 <= k < |s.waiters| && s.waiters[k] == i && forall j :: 0 <= j < k ==> IsCancelled(s, s.waiters[j])
  }

  /** A task can be resumed unless it has ended or waits for the lock behind another task. */
  predicate Enabled(s: Sys, i: nat)
    requires i < |s.tasks|
  {
    var t := s.tasks[i];
    !t.pc.Done? && (t.pc.AwaitLock? && !t.cancelled ==> s.lock == None && AtHead(s, i))
  }

  /** How many waiters stand in front of a task; all of them when it does not wait. */
  function Ahead(waiters: seq<nat>, i: nat): (k: nat)
    ensures k <= |waiters| && (k < |waiters| ==> waiters[k] == i)
    ensures forall j :: 0 <= j < k ==> waiters[j] != i
  {
    if waiters == [] || waiters[0] == i then 0 else 1 + Ahead(waiters[1..], i)
  }

  function Without(waiters: seq<nat>, i: nat): seq<nat> {
    var k := Ahead(waiters, i);
    if k == |waiters| then waiters else waiters[..k] + waiters[k + 1..]
  }

  /** A task joins the waiters when it asks for the lock, and leaves them with the lock or without. */
  function WaitersAfter(waiters: seq<nat>, i: nat, before: Pc, after: Pc): seq<nat> {
    if !before.AwaitLock? && after.AwaitLock? then waiters + [i]
    else if before.AwaitLock? && !after.AwaitLock? then Without(waiters, i)
    else waiters
  }

  predicate Registered(s: Sys, mac: string) {
    exists i :: 0 <= i < |s.tasks| && s.tasks[i].mac == mac
  }

  function NewTask(mac: string, notifies: nat): Task {
    Task(mac, notifies, Start, false, false, 0, [false], [], [])
  }

  function CancelTask(t: Task): Task {
    t.(cancelled := true)
  }

  function CancelAll(ts: seq<Task>): (us: seq<Task>)
    ensures |us| == |ts| && forall i :: 0 <= i < |ts| ==> us[i] == CancelTask(ts[i])
  {
    if ts == [] then [] else CancelAll(ts[..|ts| - 1]) + [CancelTask(ts[|ts| - 1])]
  }

  function Next(s: Sys, a: Action): Sys {
    match a
    case Register(mac, notifies) =>
      if Registered(s, mac) then s else s.(tasks := s.tasks + [NewTask(mac, notifies)])
    case Cancel(i) => if i < |s.tasks| then s.(tasks := s.tasks[i := CancelTask(s.tasks[i])]) else s
    case SetStop => s.(stop := true)
    case Shutdown => s.(stop := true, tasks := CancelAll(s.tasks))
    case Resume(i, e) =>
      if i < |s.tasks| && Enabled(s, i) then
        var u := Moved(s.tasks[i], s.stop, e);
        s.(tasks := s.tasks[i := u], waiters := WaitersAfter(s.waiters, i, s.tasks[i].pc, u.pc),
           lock := if Critical(u.pc) then Some(i) else if s.lock == Some(i) then None else s.lock)
      else s
  }

  function Run(s: Sys, actions: seq<Action>): Sys {
    if actions == [] then s else Next(Run(s, actions[..|actions| - 1]), actions[|actions| - 1])
  }

  // ------------------------------------------------- invariants

  /** Consecutive failures at the end of a run of attempts. */
  function Trailing(outcomes: seq<bool>): nat {
    if outcomes == [] || outcomes[|outcomes| - 1] then 0 else 1 + Trailing(outcomes[..|outcomes| - 1])
  }

  /** The backoffs a run of attempts calls for: after the n-th failure in a row, the n-th. */
  function Backoffs(outcomes: seq<bool>): seq<nat> {
    if outcomes == [] then []
    else
      var before := Backoffs(outcomes[..|outcomes| - 1]);
      if outcomes[|outcomes| - 1] then before else before + [Trailing(outcomes)]
  }

  predicate Online(pc: Pc) {
    pc.Subscribing? || pc.HoldWrite? || pc.HoldSleep?
  }

  /** Published availability starts offline, and every online is followed by an offline. */
  ghost predicate Alternating(marks: seq<bool>) {
    && |marks| > 0 && !marks[0]
    && forall k :: 0 < k < |marks| && marks[k] ==> !marks[k - 1]
  }

  ghost predicate TaskInv(t: Task, stop: bool) {
    && Alternating(t.marks)
    && t.marks[|t.marks| - 1] == Online(t.pc)
    && (t.pc.Subscribing? ==> t.pc.index < t.notifies)
    && (!t.pc.Done? ==> t.attempt == Trailing(t.outcomes) && t.sleeps == Backoffs(t.outcomes))
    && t.sleeps <= Backoffs(t.outcomes)
  }

  ghost predicate LockInv(s: Sys) {
    && (s.lock.Some? ==> s.lock.value < |s.tasks| && Critical(s.tasks[s.lock.value].pc))
    && forall i :: 0 <= i < |s.tasks| && Critical(s.tasks[i].pc) ==> s.lock == Some(i)
  }

  /** The waiters are the tasks that wait for the lock, each once. */
  ghost predicate QueueInv(s: Sys) {
    && (forall i :: 0 <= i < |s.tasks| ==> (s.tasks[i].pc.AwaitLock? <==> i in s.waiters))
    && (forall n :: n in s.waiters ==> n < |s.tasks|)
    && Distinct(s.waiters)
  }

  ghost predicate Inv(s: Sys) {
    && LockInv(s)
    && QueueInv(s)
    && (forall i :: 0 <= i < |s.tasks| ==> TaskInv(s.tasks[i], s.stop))
    && forall i, j :: 0 <= i < j < |s.tasks| ==> s.tasks[i].mac != s.tasks[j].mac
  }

  lemma SnocOutcome(outcomes: seq<bool>, good: bool)
    ensures Trailing(outcomes + [good]) == if good then 0 else Trailing(outcomes) + 1
    ensures Backoffs(outcomes + [good])
         == if good then Backoffs(outcomes) else Backoffs(outcomes) + [Trailing(outcomes) + 1]
    ensures Backoffs(outcomes) <= Backoffs(outcomes + [good])
  {
    assert (outcomes + [good])[..|outcomes|] == outcomes;
  }

  lemma SnocMark(marks: seq<bool>, online: bool)
    requires Alternating(marks) && (online ==> !marks[|marks| - 1])
    ensures Alternating(marks + [online]) && (marks + [online])[|marks|] == online
  {
  }

  lemma FinallyInv(t: Task, stop: bool, dying: bool, alive: bool)
    requires Alternating(t.marks) && t.attempt == Trailing(t.outcomes) && t.sleeps == Backoffs(t.outcomes)
    ensures TaskInv(Finally(t, stop, dying, alive), stop)
    ensures !Critical(Finally(t, stop, dying, alive).pc)
  {
    hide Alternating, Trailing, Backoffs, AfterFinally;
    var u := t.(marks := t.marks + [false]);
    SnocMark(t.marks, false);
    if !alive {
      AfterFinallyInv(u, stop, dying);
    }
  }

  /** Behind the `finally` clause the device is marked offline, and the outcome is counted unless the task dies. */
  lemma AfterFinallyInv(t: Task, stop: bool, dying: bool)
    requires Alternating(t.marks) && !t.marks[|t.marks| - 1]
    requires t.attempt == Trailing(t.outcomes) && t.sleeps == Backoffs(t.outcomes)
    ensures TaskInv(AfterFinally(t, stop, dying), stop)
    ensures !Critical(AfterFinally(t, stop, dying).pc)
  {
    hide Alternating, Trailing, Backoffs;
    SnocOutcome(t.outcomes, t.connected);
  }

  /** What holds of a task inside the `try` statement. */
  ghost predicate Trying(t: Task, stop: bool) {
    && Alternating(t.marks) && t.attempt == Trailing(t.outcomes) && t.sleeps == Backoffs(t.outcomes)
  }

  lemma HoldTopInv(t: Task, stop: bool, e: Event)
    requires Trying(t, stop) && t.marks[|t.marks| - 1]
    ensures TaskInv(HoldTop(t, stop, e), stop)
  {
    hide Alternating, Finally, Trailing, Backoffs;
    FinallyInv(t, stop, false, e.alive);
  }

  lemma EstablishedInv(t: Task, stop: bool, e: Event)
    requires Trying(t, stop) && t.marks[|t.marks| - 1]
    ensures TaskInv(Established(t, stop, e), stop)
  {
    hide HoldTop, TaskInv;
    HoldTopInv(t.(connected := true), stop, e);
  }

  lemma ConnectedInv(t: Task, stop: bool, e: Event)
    requires Trying(t, stop) && !t.marks[|t.marks| - 1] && t.pc == Connecting && !t.cancelled && !e.fails
    ensures TaskInv(Moved(t, stop, e), stop)
  {
    hide Alternating, Established, Trailing, Backoffs;
    SnocMark(t.marks, true);
    EstablishedInv(t.(marks := t.marks + [true]), stop, e);
  }

  lemma InsideTryInv(t: Task, stop: bool, e: Event)
    requires TaskInv(t, stop) && InTry(t.pc)
    ensures TaskInv(Moved(t, stop, e), stop)
  {
    hide Alternating, Finally, Established, HoldTop, Trailing, Backoffs;
    assert Trying(t, stop);
    FinallyInv(t.(cancelled := false), stop, true, e.alive);
    FinallyInv(t, stop, false, e.alive);
    if t.pc.Connecting? && !t.cancelled && !e.fails {
      ConnectedInv(t, stop, e);
    } else if Online(t.pc) {
      EstablishedInv(t, stop, e);
      HoldTopInv(t, stop, e);
    }
  }

  lemma OutsideTryInv(t: Task, stop: bool, e: Event)
    requires TaskInv(t, stop) && !InTry(t.pc)
    ensures TaskInv(Moved(t, stop, e), stop)
  {
    hide Alternating, Trailing, Backoffs;
    SnocOutcome(t.outcomes, t.connected);
  }

  lemma MovedInv(t: Task, stop: bool, e: Event)
    requires TaskInv(t, stop)
    ensures TaskInv(Moved(t, stop, e), stop)
  {
    hide TaskInv, Moved;
    if InTry(t.pc) {
      InsideTryInv(t, stop, e);
    } else {
      OutsideTryInv(t, stop, e);
    }
  }

  lemma MovedMac(t: Task, stop: bool, e: Event)
    ensures Moved(t, stop, e).mac == t.mac && Moved(t, stop, e).notifies == t.notifies
  {
  }

  /** A task enters the guarded section only from the lock queue, and with the lock free. */
  lemma EntersThroughLock(s: Sys, i: nat, e: Event)
    requires i < |s.tasks| && Enabled(s, i) && LockInv(s)
    requires Critical(Moved(s.tasks[i], s.stop, e).pc)
    ensures s.lock == None || s.lock == Some(i)
  {
  }

  lemma NextInv(s: Sys, a: Action)
    requires Inv(s)
    ensures Inv(Next(s, a))
  {
    hide TaskInv, QueueInv, LockInv;
    if !a.Resume? && !a.Register? {
      OthersQueue(s, a);
    }
    match a {
      case Register(mac, notifies) => RegisterInv(s, mac, notifies);
      case Resume(i, e) =>
        if i < |s.tasks| && Enabled(s, i) {
          var t := s.tasks[i];
          hide Moved;
          MovedInv(t, s.stop, e);
          MovedMac(t, s.stop, e);
          ResumeLock(s, i, e);
          ResumeQueue(s, i, e);
        }
      case Cancel(i) =>
        if i < |s.tasks| {
          CancelInv(s.tasks[i], s.stop);
        }
      case SetStop =>
        forall i | 0 <= i < |s.tasks| ensures TaskInv(s.tasks[i], true) {
          StopInv(s.tasks[i], s.stop);
        }
      case Shutdown =>
        var r := Next(s, a);
        forall i | 0 <= i < |s.tasks| ensures TaskInv(r.tasks[i], true) {
          StopInv(s.tasks[i], s.stop);
          CancelInv(s.tasks[i], true);
        }
    }
  }

  /** Stopping and cancelling move no task. */
  lemma OthersQueue(s: Sys, a: Action)
    requires LockInv(s) && QueueInv(s) && !a.Resume? && !a.Register?
    ensures LockInv(Next(s, a)) && QueueInv(Next(s, a))
  {
    hide Distinct;
  }

  lemma RegisterInv(s: Sys, mac: string, notifies: nat)
    requires Inv(s)
    ensures Inv(Next(s, Register(mac, notifies)))
  {
    assert TaskInv(NewTask(mac, notifies), s.stop);
  }

  lemma CancelInv(t: Task, stop: bool)
    requires TaskInv(t, stop)
    ensures TaskInv(CancelTask(t), stop)
  {
  }

  lemma StopInv(t: Task, stop: bool)
    requires TaskInv(t, stop)
    ensures TaskInv(t, true)
  {
  }

  lemma ResumeLock(s: Sys, i: nat, e: Event)
    requires LockInv(s) && i < |s.tasks| && Enabled(s, i)
    ensures LockInv(Next(s, Resume(i, e)))
  {
    hide Moved;
    if Critical(Moved(s.tasks[i], s.stop, e).pc) {
      EntersThroughLock(s, i, e);
    }
  }

  ghost predicate Distinct(waiters: seq<nat>) {
    forall j, k :: 0 <= j < k < |waiters| ==> waiters[j] != waiters[k]
  }

  lemma WithoutSpec(waiters: seq<nat>, i: nat)
    requires Distinct(waiters)
    ensures Distinct(Without(waiters, i))
    ensures forall n :: n in Without(waiters, i) <==> n in waiters && n != i
  {
    hide Ahead;
    var k, rest := Ahead(waiters, i), Without(waiters, i);
    if k < |waiters| {
      forall n ensures n in rest <==> n in waiters && n != i {
        if n in waiters && n != i {
          var m :| 0 <= m < |waiters| && waiters[m] == n;
          assert rest[if m < k then m else m - 1] == n;
        }
      }
    }
  }

  lemma DistinctSnoc(waiters: seq<nat>, i: nat)
    requires Distinct(waiters) && i !in waiters
    ensures Distinct(waiters + [i])
  {
  }

  lemma ResumeQueue(s: Sys, i: nat, e: Event)
    requires QueueInv(s) && i < |s.tasks| && Enabled(s, i)
    ensures QueueInv(Next(s, Resume(i, e)))
  {
    hide Moved, AtHead, Without, Distinct, Enabled;
    WithoutSpec(s.waiters, i);
    if i !in s.waiters {
      DistinctSnoc(s.waiters, i);
    }
  }

  lemma {:induction false} RunInv(actions: seq<Action>)
    ensures Inv(Run(INITIAL, actions))
  {
    if actions != [] {
      RunInv(actions[..|actions| - 1]);
      NextInv(Run(INITIAL, actions[..|actions| - 1]), actions[|actions| - 1]);
    }
  }

  // ------------------------------------------------- main results

  /**
   In every interleaving at most one task is between acquiring the lock and the end
   of its subscriptions, and the lock is held by exactly that task: never leaked.
   */
  lemma {:induction false} EstablishmentIsExclusive(actions: seq<Action>)
    ensures
      var s := Run(INITIAL, actions);
      && (forall i, j :: 0 <= i < |s.tasks| && 0 <= j < |s.tasks| && Critical(s.tasks[i].pc) && Critical(s.tasks[j].pc)
                         ==> i == j)
      && (forall i :: 0 <= i < |s.tasks| ==> (Critical(s.tasks[i].pc) <==> s.lock == Some(i)))
      && (s.lock.Some? ==> s.lock.value < |s.tasks|)
  {
    RunInv(actions);
  }

  /** Published availability: never online twice in a row, online exactly while connected, offline at the end. */
  lemma {:induction false} AvailabilityAlternates(actions: seq<Action>, i: nat)
    requires i < |Run(INITIAL, actions).tasks|
    ensures
      var t := Run(INITIAL, actions).tasks[i];
      && Alternating(t.marks)
      && (MarkedOffline(t) <==> !Online(t.pc))
      && (t.pc.Done? ==> MarkedOffline(t))
  {
    RunInv(actions);
  }

  /** The n-th consecutive failure sleeps the n-th backoff; only the last one before the end may be skipped. */
  lemma {:induction false} BackoffFollowsFailures(actions: seq<Action>, i: nat)
    requires i < |Run(INITIAL, actions).tasks|
    ensures
      var t := Run(INITIAL, actions).tasks[i];
      && t.sleeps <= Backoffs(t.outcomes)
      && (!t.pc.Done? ==> t.sleeps == Backoffs(t.outcomes))
  {
    RunInv(actions);
  }

  lemma {:induction false} BackoffsEndInRun(outcomes: seq<bool>, j: nat)
    requires j < Trailing(outcomes)
    ensures
      var n, m := Trailing(outcomes), |Backoffs(outcomes)|;
      n <= m && Backoffs(outcomes)[m - n + j] == j + 1
  {
    var init := outcomes[..|outcomes| - 1];
    if j < Trailing(init) {
      BackoffsEndInRun(init, j);
    } else if 0 < Trailing(init) {
      BackoffsEndInRun(init, 0);
    }
  }

  lemma AttemptsCounted(t: Task, stop: bool)
    requires TaskInv(t, stop) && !t.pc.Done?
    ensures t.attempt == Trailing(t.outcomes) && t.sleeps == Backoffs(t.outcomes)
  {
  }

  /**
   In seconds: the last n sleeps of a device that has failed n times in a row are the first n delays
   of the backoff, none shorter than the one before under the same draw, none above maximum and jitter.
   */
  lemma {:induction false} DelaysGrow(
    actions: seq<Action>, i: nat, j: nat, k: nat, base: real, maximum: real, jitter: real, draw: real)
    requires i < |Run(INITIAL, actions).tasks| && !Run(INITIAL, actions).tasks[i].pc.Done?
    requires j <= k < Run(INITIAL, actions).tasks[i].attempt
    requires base >= 0.0 && maximum >= 0.0 && -jitter <= draw <= jitter
    ensures
      var t := Run(INITIAL, actions).tasks[i];
      && t.attempt <= |t.sleeps|
      && var last := t.sleeps[|t.sleeps| - t.attempt..];
         && last[j] == j + 1 && last[k] == k + 1
         && 0.0 <= Connection.BackoffSeconds(last[j], base, maximum, draw)
         && Connection.BackoffSeconds(last[j], base, maximum, draw)
            <= Connection.BackoffSeconds(last[k], base, maximum, draw) <= maximum + jitter
  {
    hide Connection.BackoffSeconds, Trailing, Backoffs, TaskInv, QueueInv, LockInv;
    RunInv(actions);
    var t := Run(INITIAL, actions).tasks[i];
    AttemptsCounted(t, Run(INITIAL, actions).stop);
    hide Run;
    BackoffsEndInRun(t.outcomes, j);
    BackoffsEndInRun(t.outcomes, k);
    Connection.BackoffMonotone(j + 1, k + 1, base, maximum, draw);
    Connection.BackoffBounded(j + 1, base, maximum, jitter, draw);
    Connection.BackoffBounded(k + 1, base, maximum, jitter, draw);
  }

  /** One task per device, ever: registering a known device changes nothing, so a finished one stays finished. */
  lemma {:induction false} RegisteredOnce(actions: seq<Action>, later: seq<Action>, i: nat)
    requires i < |Run(INITIAL, actions).tasks|
    ensures
      var s, r := Run(INITIAL, actions), Run(Run(INITIAL, actions), later);
      && |s.tasks| <= |r.tasks| && r.tasks[i].mac == s.tasks[i].mac
      && (s.tasks[i].pc.Done? ==> r.tasks[i].pc.Done?)
      && forall j, k :: 0 <= j < k < |s.tasks| ==> s.tasks[j].mac != s.tasks[k].mac
  {
    RunInv(actions);
    Persist(Run(INITIAL, actions), later, i);
  }

  lemma {:induction false} Persist(s: Sys, later: seq<Action>, i: nat)
    requires i < |s.tasks|
    ensures
      var r := Run(s, later);
      && |s.tasks| <= |r.tasks| && r.tasks[i].mac == s.tasks[i].mac
      && (s.tasks[i].pc.Done? ==> r.tasks[i].pc.Done?)
  {
    if later != [] {
      var init, a := later[..|later| - 1], later[|later| - 1];
      Persist(s, init, i);
      PersistStep(Run(s, init), a, i);
    }
  }

  lemma PersistStep(s: Sys, a: Action, i: nat)
    requires i < |s.tasks|
    ensures
      var r := Next(s, a);
      && |s.tasks| <= |r.tasks| && r.tasks[i].mac == s.tasks[i].mac
      && (s.tasks[i].pc.Done? ==> r.tasks[i].pc.Done?)
  {
    if a.Resume? && a.i < |s.tasks| {
      MovedMac(s.tasks[a.i], s.stop, a.event);
    }
  }

  // ------------------------------------------------- what an attempt has to go through

  /**
   How far the present attempt of a device has got, counted from the awaits of the run: None until
   `connect` has returned, then the number of `start_notify` calls that have.
   */
  function Reached(actions: seq<Action>, i: nat): Option<nat> {
    if actions == [] then None
    else
      var init, a := actions[..|actions| - 1], actions[|actions| - 1];
      var s, before := Run(INITIAL, init), Reached(init, i);
      if a.Resume? && a.i == i < |s.tasks| && Enabled(s, i) && !s.tasks[i].cancelled then
        match s.tasks[i].pc
        case AwaitLock => None
        case Connecting => if a.event.fails then None else Some(0)
        case Subscribing(_) => if a.event.fails || before == None then before else Some(before.value + 1)
        case _ => before
      else before
  }

  /** What a place in `maintain_device` says of the attempt. */
  ghost predicate AttemptInv(t: Task, reached: Option<nat>) {
    match t.pc
    case Connecting => reached == None && !t.connected
    case Subscribing(k) => reached == Some(k) && k < t.notifies && !t.connected
    case HoldWrite => reached == Some(t.notifies) && t.connected
    case HoldSleep => reached == Some(t.notifies) && t.connected
    case Disconnecting(dying) => dying || (t.connected <==> reached == Some(t.notifies))
    case AwaitLock => !t.connected
    case _ => true
  }

  /** How the attempt stands after one await of its task. */
  function ReachedAfter(t: Task, e: Event, before: Option<nat>): Option<nat> {
    if t.cancelled then before
    else
      match t.pc
      case AwaitLock => None
      case Connecting => if e.fails then None else Some(0)
      case Subscribing(_) => if e.fails || before == None then before else Some(before.value + 1)
      case _ => before
  }

  lemma AttemptMoved(t: Task, stop: bool, e: Event, before: Option<nat>)
    requires AttemptInv(t, before)
    ensures AttemptInv(Moved(t, stop, e), ReachedAfter(t, e, before))
  {
  }

  /** The move from t to u ends an attempt: the task leaves it for the next one, for a backoff or for good. */
  predicate Ends(t: Task, u: Task) {
    && !t.cancelled && (Critical(t.pc) || t.pc.HoldWrite? || t.pc.HoldSleep? || t.pc == Disconnecting(false))
    && (u.pc.AwaitLock? || u.pc.BackingOff? || u.pc.Done?)
  }

  /**
   An attempt is counted when it ends, as good exactly when it connected and subscribed to everything.
   Then, unless stop is set, the next one follows at once behind a good one and a backoff behind a bad one.
   */
  lemma OutcomeMoved(t: Task, stop: bool, e: Event, before: Option<nat>)
    requires AttemptInv(t, before)
    ensures
      var u, good := Moved(t, stop, e), ReachedAfter(t, e, before) == Some(t.notifies);
      && u.outcomes == (if Ends(t, u) then t.outcomes + [good] else t.outcomes)
      && (Ends(t, u) ==> u.pc == if stop then Done else if good then AwaitLock else BackingOff)
  {
  }

  lemma ReachedStep(actions: seq<Action>, a: Action, i: nat)
    requires i < |Run(INITIAL, actions).tasks|
    ensures
      var s := Run(INITIAL, actions);
      Reached(actions + [a], i)
      == if a.Resume? && a.i == i && Enabled(s, i) then ReachedAfter(s.tasks[i], a.event, Reached(actions, i))
         else Reached(actions, i)
  {
    hide Run, Enabled;
    assert (actions + [a])[..|actions|] == actions;
  }

  /** Another task's steps, stopping and cancelling leave a task's place and record alone. */
  lemma OthersLeave(s: Sys, a: Action, i: nat)
    requires i < |s.tasks| && !(a.Resume? && a.i == i && Enabled(s, i))
    ensures
      var t, u := s.tasks[i], Next(s, a).tasks[i];
      u.pc == t.pc && u.connected == t.connected && u.notifies == t.notifies && u.outcomes == t.outcomes
  {
    hide Moved;
  }

  lemma TasksStay(s: Sys, a: Action)
    ensures |s.tasks| <= |Next(s, a).tasks|
    ensures forall i :: |s.tasks| <= i < |Next(s, a).tasks| ==> Next(s, a).tasks[i].pc == Start
  {
    hide Moved;
  }

  lemma {:induction false} AttemptRun(actions: seq<Action>, i: nat)
    requires i < |Run(INITIAL, actions).tasks|
    ensures AttemptInv(Run(INITIAL, actions).tasks[i], Reached(actions, i))
  {
    hide AttemptInv, Next, Enabled, ReachedAfter, Reached;
    if actions != [] {
      var init, a := actions[..|actions| - 1], actions[|actions| - 1];
      var s := Run(INITIAL, init);
      assert actions == init + [a];
      TasksStay(s, a);
      if i < |s.tasks| {
        AttemptRun(init, i);
        ReachedStep(init, a, i);
        if a.Resume? && a.i == i && Enabled(s, i) {
          AttemptMoved(s.tasks[i], s.stop, a.event, Reached(init, i));
          ResumedTask(s, i, a.event);
        } else {
          OthersLeave(s, a, i);
          SamePlace(s.tasks[i], Next(s, a).tasks[i], Reached(init, i));
        }
      } else {
        NotStarted(Next(s, a).tasks[i], Reached(actions, i));
      }
    }
  }

  lemma ResumedTask(s: Sys, i: nat, e: Event)
    requires i < |s.tasks| && Enabled(s, i)
    ensures Next(s, Resume(i, e)).tasks[i] == Moved(s.tasks[i], s.stop, e)
  {
    hide Moved;
  }

  lemma SamePlace(t: Task, u: Task, reached: Option<nat>)
    requires AttemptInv(t, reached) && u.pc == t.pc && u.connected == t.connected && u.notifies == t.notifies
    ensures AttemptInv(u, reached)
  {
  }

  lemma NotStarted(t: Task, reached: Option<nat>)
    requires t.pc == Start
    ensures AttemptInv(t, reached)
  {
  }

  /**
   In every run a connection is held only after `connect` and every one of the device's `start_notify`
   calls have returned since the lock was granted; inside the guarded section it is where they got it.
   */
  lemma {:induction false} HeldOnlySubscribed(actions: seq<Action>, i: nat)
    requires i < |Run(INITIAL, actions).tasks|
    ensures
      var t := Run(INITIAL, actions).tasks[i];
      && (t.pc == HoldWrite || t.pc == HoldSleep ==> Reached(actions, i) == Some(t.notifies))
      && (t.pc == Connecting ==> Reached(actions, i) == None)
      && (t.pc.Subscribing? ==> Reached(actions, i) == Some(t.pc.index) && t.pc.index < t.notifies)
  {
    hide Reached, Run;
    AttemptRun(actions, i);
  }

  /**
   In every run an attempt that ends is counted once, as good exactly when it connected and
   subscribed to everything.
   */
  lemma {:induction false} OutcomeEarned(actions: seq<Action>, a: Action, i: nat)
    requires i < |Run(INITIAL, actions).tasks|
    ensures
      var s := Run(INITIAL, actions);
      var t, u := s.tasks[i], Run(INITIAL, actions + [a]).tasks[i];
      var good := Reached(actions + [a], i) == Some(t.notifies);
      if a.Resume? && a.i == i && Enabled(s, i) && Ends(t, u) then
        u.outcomes == t.outcomes + [good] && u.pc == (if s.stop then Done else if good then AwaitLock else BackingOff)
      else u.outcomes == t.outcomes
  {
    hide AttemptInv, Next, Enabled, ReachedAfter, Reached;
    var s := Run(INITIAL, actions);
    assert (actions + [a])[..|actions|] == actions;
    AttemptRun(actions, i);
    ReachedStep(actions, a, i);
    TasksStay(s, a);
    if a.Resume? && a.i == i && Enabled(s, i) {
      OutcomeMoved(s.tasks[i], s.stop, a.event, Reached(actions, i));
      ResumedTask(s, i, a.event);
    } else {
      OthersLeave(s, a, i);
    }
  }

  /**
   A held connection is given up exactly when an await fails, stop is set or the link is lost; a
   poll is written exactly when one is due.
   */
  lemma {:induction false} HoldExactly(t: Task, stop: bool, e: Event)
    requires !t.cancelled
    ensures t.pc == HoldSleep ==>
      (Moved(t, stop, e).pc == HoldSleep <==> !e.fails && !stop && e.alive && !e.poll)
      && (Moved(t, stop, e).pc == HoldWrite <==> !e.fails && !stop && e.alive && e.poll)
    ensures t.pc == HoldWrite ==>
      (Moved(t, stop, e).pc == HoldSleep <==> !e.fails) && Moved(t, stop, e).pc != HoldWrite
  {
  }

  /** Still in the guarded section or holding the connection, in the attempt it was in. */
  predicate Within(pc: Pc) {
    pc.Connecting? || pc.Subscribing? || pc.HoldWrite? || pc.HoldSleep?
  }

  /**
   What makes a task leave its attempt: a cancellation, a failed await, or stop or a lost link
   where they are looked at.
   */
  predicate Leaves(t: Task, stop: bool, e: Event) {
    t.cancelled ||
    match t.pc
    case AwaitLock => false
    case Connecting => e.fails || (t.notifies == 0 && (stop || !e.alive))
    case Subscribing(k) => e.fails || (k + 1 >= t.notifies && (stop || !e.alive))
    case HoldWrite => e.fails
    case _ => e.fails || stop || !e.alive
  }

  /**
   One await of an attempt: the task stays in it unless it leaves; leaving publishes offline behind
   whatever was published, and disconnects exactly a client that is still connected.
   */
  lemma {:induction false} LeavesExactly(t: Task, stop: bool, e: Event)
    requires Within(t.pc) || t.pc == AwaitLock
    ensures
      var u := Moved(t, stop, e);
      && (Within(u.pc) <==> !Leaves(t, stop, e))
      && (Leaves(t, stop, e) ==> (u.pc == Disconnecting(t.cancelled) <==> e.alive) && (u.pc.Disconnecting? ==> e.alive))
      && u.marks == t.marks + (if t.pc == Connecting && !t.cancelled && !e.fails then [true] else [])
                            + (if Leaves(t, stop, e) then [false] else [])
  {
    assert t.marks + [] == t.marks;
  }

  /**
   Outside an attempt: the head of the loop and a backoff look at stop, a cancellation ends the
   task, nothing is published.
   */
  lemma {:induction false} BetweenExactly(t: Task, stop: bool, e: Event)
    requires t.pc == Start || t.pc == BackingOff || t.pc.Disconnecting?
    ensures
      var u := Moved(t, stop, e);
      && u.marks == t.marks
      && (if t.pc.Disconnecting? then u.pc == Done || (!t.cancelled && !t.pc.dying)
          else u.pc == if stop || t.cancelled then Done else AwaitLock)
  {
  }

  /** A cancellation that the device's task has still to see, read off the actions of a run. */
  function CancelComes(actions: seq<Action>, i: nat): bool {
    if actions == [] then false
    else
      var init, a := actions[..|actions| - 1], actions[|actions| - 1];
      var s := Run(INITIAL, init);
      if i >= |s.tasks| then false
      else if a == Cancel(i) || a == Shutdown then true
      else if a.Resume? && a.i == i && Enabled(s, i) then false
      else CancelComes(init, i)
  }

  /** In every run a task is cancelled exactly when a cancellation has come that it has still to see. */
  lemma {:induction false} CancelledExactly(actions: seq<Action>, i: nat)
    requires i < |Run(INITIAL, actions).tasks|
    ensures Run(INITIAL, actions).tasks[i].cancelled <==> CancelComes(actions, i)
  {
    hide Enabled, Moved;
    if actions != [] {
      var init, a := actions[..|actions| - 1], actions[|actions| - 1];
      var s := Run(INITIAL, init);
      if i < |s.tasks| {
        CancelledExactly(init, i);
        if a.Resume? && a.i == i && Enabled(s, i) {
          assert !s.tasks[i].pc.Done? by { NotDone(s, i); }
          SeenOnce(s.tasks[i], s.stop, a.event);
        }
      }
    }
  }

  lemma SeenOnce(t: Task, stop: bool, e: Event)
    requires !t.pc.Done?
    ensures !Moved(t, stop, e).cancelled
  {
  }

  /** In every run the devices that have a task are those that were registered, and stop is set by those who stop. */
  lemma {:induction false} RegisteredExactly(actions: seq<Action>, mac: string)
    ensures Registered(Run(INITIAL, actions), mac)
       <==> exists k :: 0 <= k < |actions| && actions[k].Register? && actions[k].mac == mac
    ensures Run(INITIAL, actions).stop
       <==> exists k :: 0 <= k < |actions| && (actions[k] == SetStop || actions[k] == Shutdown)
  {
    hide Moved, Enabled;
    if actions != [] {
      var init, a := actions[..|actions| - 1], actions[|actions| - 1];
      RegisteredExactly(init, mac);
      assert actions == init + [a];
      MacsStay(Run(INITIAL, init), a, mac);
    }
  }

  lemma MacsStay(s: Sys, a: Action, mac: string)
    ensures Registered(Next(s, a), mac) <==> Registered(s, mac) || (a.Register? && a.mac == mac)
  {
    hide Moved, Enabled;
    var r := Next(s, a);
    forall i | 0 <= i < |s.tasks| ensures r.tasks[i].mac == s.tasks[i].mac {
      if a.Resume? && a.i == i {
        MovedMac(s.tasks[i], s.stop, a.event);
      }
    }
    if Registered(s, mac) {
      var i :| 0 <= i < |s.tasks| && s.tasks[i].mac == mac;
      assert r.tasks[i].mac == mac;
    }
    if a.Register? && a.mac == mac && !Registered(s, mac) {
      assert r.tasks[|s.tasks|].mac == mac;
    }
  }

  /** The connections a device has begun after stop was set. */
  function LateGrants(actions: seq<Action>, i: nat): nat {
    if actions == [] then 0
    else
      var init, a := actions[..|actions| - 1], actions[|actions| - 1];
      var s := Run(INITIAL, init);
      LateGrants(init, i) + if s.stop && Grants(s, a) && a.i == i then 1 else 0
  }

  lemma LateStep(t: Task, stop: bool, e: Event)
    requires stop && !t.pc.Done?
    ensures !Moved(t, true, e).pc.Start? && !Moved(t, true, e).pc.AwaitLock? && !Moved(t, true, e).pc.BackingOff?
  {
  }

  lemma {:induction false} LateGrantsBounded(actions: seq<Action>, i: nat)
    ensures LateGrants(actions, i) <= 1
    ensures
      var s := Run(INITIAL, actions);
      LateGrants(actions, i) > 0 ==>
        s.stop && i < |s.tasks|
        && !s.tasks[i].pc.Start? && !s.tasks[i].pc.AwaitLock? && !s.tasks[i].pc.BackingOff?
  {
    hide Moved, Enabled;
    if actions != [] {
      var init, a := actions[..|actions| - 1], actions[|actions| - 1];
      var s := Run(INITIAL, init);
      LateGrantsBounded(init, i);
      if a.Resume? && a.i == i < |s.tasks| && Enabled(s, i) && s.stop {
        assert !s.tasks[i].pc.Done? by { NotDone(s, i); }
        LateStep(s.tasks[i], s.stop, a.event);
      }
    }
  }

  /** Once stop is set a device begins at most one more connection. */
  lemma {:induction false} AtMostOneLateConnect(actions: seq<Action>, i: nat)
    ensures LateGrants(actions, i) <= 1
  {
    LateGrantsBounded(actions, i);
  }

  // ------------------------------------------------- fairness

  /** The action gives the lock to a task. */
  predicate Grants(s: Sys, a: Action) {
    && a.Resume? && a.i < |s.tasks| && Enabled(s, a.i)
    && s.tasks[a.i].pc.AwaitLock? && !s.tasks[a.i].cancelled
  }

  function Granted(s: Sys, actions: seq<Action>): nat {
    if actions == [] then 0
    else
      var n := |actions| - 1;
      Granted(s, actions[..n]) + if Grants(Run(s, actions[..n]), actions[n]) then 1 else 0
  }

  predicate Waits(s: Sys, i: nat) {
    i < |s.tasks| && s.tasks[i].pc.AwaitLock? && !s.tasks[i].cancelled
  }

  lemma {:induction false} AheadSnoc(waiters: seq<nat>, n: nat, i: nat)
    requires i in waiters
    ensures Ahead(waiters + [n], i) == Ahead(waiters, i)
  {
    if waiters[0] != i {
      assert (waiters + [n])[1..] == waiters[1..] + [n];
      AheadSnoc(waiters[1..], n, i);
    }
  }

  /** A place is the only one of its kind. */
  lemma AheadAt(waiters: seq<nat>, i: nat, k: nat)
    requires Distinct(waiters) && k < |waiters| && waiters[k] == i
    ensures Ahead(waiters, i) == k
  {
    hide Ahead;
  }

  lemma AheadWithout(waiters: seq<nat>, j: nat, i: nat)
    requires Distinct(waiters) && i in waiters && i != j
    ensures Ahead(Without(waiters, j), i)
         == Ahead(waiters, i) - if Ahead(waiters, j) < Ahead(waiters, i) then 1 else 0
  {
    hide Ahead;
    WithoutSpec(waiters, j);
    var k, m := Ahead(waiters, j), Ahead(waiters, i);
    assert m < |waiters| by {
      var p :| 0 <= p < |waiters| && waiters[p] == i;
    }
    if k < |waiters| {
      var at := if k < m then m - 1 else m;
      assert Without(waiters, j)[at] == i;
      AheadAt(Without(waiters, j), i, at);
    }
  }

  /** One step never moves a waiting task back, and a lock given to another moves it up. */
  lemma PlaceStep(s: Sys, a: Action, i: nat)
    requires Inv(s) && Waits(s, i) && Waits(Next(s, a), i)
    ensures Ahead(Next(s, a).waiters, i) + (if Grants(s, a) then 1 else 0) <= Ahead(s.waiters, i)
  {
    hide Ahead, Moved, TaskInv, Without, LockInv;
    if a.Resume? && a.i < |s.tasks| && Enabled(s, a.i) {
      if a.i == i {
        StopsWaiting(s, a.event, i);
      } else {
        AheadSnoc(s.waiters, a.i, i);
        AheadWithout(s.waiters, a.i, i);
        if Grants(s, a) {
          GrantedInFront(s, a.i, i);
          GrantMoves(s.tasks[a.i], s.stop, a.event);
        }
      }
    }
  }

  lemma GrantMoves(t: Task, stop: bool, e: Event)
    requires t.pc.AwaitLock? && !t.cancelled
    ensures Moved(t, stop, e).pc == Connecting
  {
  }

  /** A task that is resumed while it waits stops waiting. */
  lemma StopsWaiting(s: Sys, e: Event, i: nat)
    requires Waits(s, i) && Enabled(s, i)
    ensures !Waits(Next(s, Resume(i, e)), i)
  {
  }

  lemma GrantedInFront(s: Sys, j: nat, i: nat)
    requires QueueInv(s) && Waits(s, i) && Waits(s, j) && i != j && AtHead(s, j)
    ensures Ahead(s.waiters, j) < Ahead(s.waiters, i)
  {
    hide Ahead;
    var k :| 0 <= k < |s.waiters| && s.waiters[k] == j && forall m :: 0 <= m < k ==> IsCancelled(s, s.waiters[m]);
    AheadAt(s.waiters, j, k);
    var p := Ahead(s.waiters, i);
    assert i in s.waiters;
    forall m | 0 <= m < k ensures s.waiters[m] != i {
      assert IsCancelled(s, s.waiters[m]);
    }
  }

  /**
   No device is overtaken: while it waits for the lock, other devices are given it at most as often
   as there were tasks in front of it, and every time it moves up.
   */
  lemma {:induction false} BoundedOvertaking(actions: seq<Action>, later: seq<Action>, i: nat)
    requires forall k :: 0 <= k <= |later| ==> Waits(Run(Run(INITIAL, actions), later[..k]), i)
    ensures
      var s := Run(INITIAL, actions);
      Granted(s, later) + Ahead(Run(s, later).waiters, i) <= Ahead(s.waiters, i)
  {
    hide Inv, Waits, Next, Ahead, Grants;
    if later != [] {
      var n := |later| - 1;
      var s, init := Run(INITIAL, actions), later[..n];
      assert forall k :: 0 <= k <= n ==> init[..k] == later[..k];
      BoundedOvertaking(actions, init, i);
      assert later[..|later|] == later;
      assert Waits(Run(s, later[..n]), i) && Waits(Run(s, later[..|later|]), i);
      RunInv(actions);
      RunKeeps(s, init);
      PlaceStep(Run(s, init), later[n], i);
    }
  }

  lemma {:induction false} RunKeeps(s: Sys, later: seq<Action>)
    requires Inv(s)
    ensures Inv(Run(s, later))
  {
    hide Inv, Next;
    if later != [] {
      RunKeeps(s, later[..|later| - 1]);
      NextInv(Run(s, later[..|later| - 1]), later[|later| - 1]);
    }
  }

  // ------------------------------------------------- shutdown

  /** How many more awaits a task can have in front of it once stop is set. */
  function Remaining(t: Task): nat {
    match t.pc
    case Done => 0
    case BackingOff => 1
    case Start => 1
    case Disconnecting(_) => 1
    case HoldSleep => 2
    case HoldWrite => 3
    case Subscribing(k) => if k < t.notifies then 2 + t.notifies - k else 2
    case Connecting => 3 + t.notifies
    case AwaitLock => 4 + t.notifies
  }

  function Total(ts: seq<Task>): nat {
    if ts == [] then 0 else Total(ts[..|ts| - 1]) + Remaining(ts[|ts| - 1])
  }

  /** With stop set, every resumed task is one await closer to its end. */
  lemma ResumeDecreases(t: Task, e: Event)
    requires TaskInv(t, true) && !t.pc.Done?
    ensures Remaining(Moved(t, true, e)) < Remaining(t)
  {
  }

  lemma {:induction false} TotalUpdate(ts: seq<Task>, i: nat, u: Task)
    requires i < |ts|
    ensures Total(ts[i := u]) == Total(ts) - Remaining(ts[i]) + Remaining(u)
  {
    var init, last := ts[..|ts| - 1], ts[|ts| - 1];
    if i == |ts| - 1 {
      assert ts[i := u][..|ts| - 1] == init;
    } else {
      assert ts[i := u][..|ts| - 1] == init[i := u];
      TotalUpdate(init, i, u);
    }
  }

  /** Every action of the run resumes a task that can be resumed. */
  ghost predicate Progressing(s: Sys, actions: seq<Action>) {
    forall k :: 0 <= k < |actions| ==>
      actions[k].Resume? && actions[k].i < |Run(s, actions[..k]).tasks| && Enabled(Run(s, actions[..k]), actions[k].i)
  }

  /** After stop, no run of resumed awaits is longer than the awaits that were left. */
  lemma {:induction false} ShutdownBound(s: Sys, actions: seq<Action>)
    requires Inv(s) && s.stop && Progressing(s, actions)
    ensures |actions| + Total(Run(s, actions).tasks) <= Total(s.tasks)
    ensures Inv(Run(s, actions)) && Run(s, actions).stop
  {
    hide Inv, TaskInv, Moved, Total, Enabled, Next;
    if actions != [] {
      var n := |actions| - 1;
      var init, a := actions[..n], actions[n];
      assert forall k :: 0 <= k < n ==> actions[..k] == init[..k];
      assert Progressing(s, init) by {
        forall k | 0 <= k < |init|
          ensures init[k].Resume? && init[k].i < |Run(s, init[..k]).tasks| && Enabled(Run(s, init[..k]), init[k].i)
        {
          assert actions[k] == init[k] && actions[..k] == init[..k];
        }
      }
      ShutdownBound(s, init);
      var r := Run(s, init);
      assert a.Resume? && a.i < |r.tasks| && Enabled(r, a.i);
      TotalDecreases(r, a);
      NextInv(r, a);
    }
  }

  lemma TotalDecreases(s: Sys, a: Action)
    requires Inv(s) && s.stop && a.Resume? && a.i < |s.tasks| && Enabled(s, a.i)
    ensures Total(Next(s, a).tasks) < Total(s.tasks) && Next(s, a).stop
  {
    hide Inv, TaskInv, Moved, Total, Enabled, Remaining;
    TaskOfInv(s, a.i);
    assert !s.tasks[a.i].pc.Done? by { NotDone(s, a.i); }
    ResumeDecreases(s.tasks[a.i], a.event);
    TotalUpdate(s.tasks, a.i, Moved(s.tasks[a.i], true, a.event));
  }

  lemma NotDone(s: Sys, i: nat)
    requires i < |s.tasks| && Enabled(s, i)
    ensures !s.tasks[i].pc.Done?
  {
  }

  lemma TaskOfInv(s: Sys, i: nat)
    requires Inv(s) && i < |s.tasks|
    ensures TaskInv(s.tasks[i], s.stop)
  {
  }

  /** There is no deadlock: while some task has not ended, some task can be resumed. */
  lemma {:induction false} SomeTaskEnabled(s: Sys, i: nat) returns (j: nat)
    requires Inv(s) && i < |s.tasks| && !s.tasks[i].pc.Done?
    ensures j < |s.tasks| && Enabled(s, j)
  {
    if s.lock.Some? {
      j := s.lock.value;
    } else if !s.tasks[i].pc.AwaitLock? {
      j := i;
    } else {
      j := s.waiters[0];
      assert j in s.waiters;
    }
  }

  predicate MarkedOffline(t: Task) {
    t.marks != [] && !t.marks[|t.marks| - 1]
  }

  /** Ended, or with nothing left but a disconnect behind which it ends. */
  predicate Ending(t: Task) {
    t.pc.Done? || t.pc == Disconnecting(true)
  }

  predicate Resumed(round: seq<Action>, i: nat) {
    exists k :: 0 <= k < |round| && round[k].Resume? && round[k].i == i
  }

  lemma CancelledEnds(t: Task, stop: bool, e: Event)
    requires t.cancelled || Ending(t)
    ensures Ending(Moved(t, stop, e))
  {
  }

  lemma {:induction false} RoundEnds(s: Sys, round: seq<Action>)
    requires forall i :: 0 <= i < |s.tasks| ==> s.tasks[i].cancelled || s.tasks[i].pc.Done?
    requires forall k :: 0 <= k < |round| ==> round[k].Resume?
    ensures
      var r := Run(s, round);
      && |r.tasks| == |s.tasks|
      && (forall i :: 0 <= i < |s.tasks| ==> r.tasks[i].cancelled || Ending(r.tasks[i]))
      && (forall k :: 0 <= k < |round| && round[k].i < |s.tasks| ==> Ending(r.tasks[round[k].i]))
  {
    hide Moved, AtHead;
    if round != [] {
      var n := |round| - 1;
      RoundEnds(s, round[..n]);
      var r, a := Run(s, round[..n]), round[n];
      if a.i < |r.tasks| {
        CancelledEnds(r.tasks[a.i], r.stop, a.event);
      }
      forall k | 0 <= k < n && round[k].i < |s.tasks| ensures Ending(Run(s, round).tasks[round[k].i]) {
        assert round[..n][k] == round[k];
      }
    }
  }

  /**
   `stop` stops the loop right after cancelling, so a disconnect need not complete. What holds all
   the same once every task has been resumed: each device is marked offline, the lock is free, and
   at most a disconnect is left.
   */
  lemma {:induction false} CancelledInOneRound(actions: seq<Action>, round: seq<Action>)
    requires forall k :: 0 <= k < |round| ==> round[k].Resume?
    requires forall i :: 0 <= i < |Run(INITIAL, actions).tasks| ==> Resumed(round, i)
    ensures
      var s := Run(Next(Run(INITIAL, actions), Shutdown), round);
      s.lock == None && forall i :: 0 <= i < |s.tasks| ==> Ending(s.tasks[i]) && MarkedOffline(s.tasks[i])
  {
    hide TaskInv, QueueInv, Run, Ending, MarkedOffline, Resumed;
    RunInv(actions);
    var begin := Next(Run(INITIAL, actions), Shutdown);
    NextInv(Run(INITIAL, actions), Shutdown);
    RoundEnds(begin, round);
    RunKeeps(begin, round);
    var s := Run(begin, round);
    forall i | 0 <= i < |s.tasks| ensures Ending(s.tasks[i]) && MarkedOffline(s.tasks[i]) {
      var k := ResumedWhere(round, i);
      EndingIsOffline(s.tasks[i], s.stop);
    }
    EndingIsFree(s);
  }

  lemma ResumedWhere(round: seq<Action>, i: nat) returns (k: nat)
    requires (forall k :: 0 <= k < |round| ==> round[k].Resume?) && Resumed(round, i)
    ensures k < |round| && round[k].i == i
  {
    k :| 0 <= k < |round| && round[k].Resume? && round[k].i == i;
  }

  lemma EndingIsFree(s: Sys)
    requires LockInv(s) && forall i :: 0 <= i < |s.tasks| ==> Ending(s.tasks[i])
    ensures s.lock == None
  {
  }

  lemma EndingIsOffline(t: Task, stop: bool)
    requires TaskInv(t, stop) && Ending(t)
    ensures MarkedOffline(t)
  {
  }

  /** A stopped system that cannot be resumed any further has ended all its tasks, every device marked offline. */
  lemma {:induction false} ShutdownEnds(actions: seq<Action>)
    requires var s := Run(INITIAL, actions); s.stop && forall i :: 0 <= i < |s.tasks| ==> !Enabled(s, i)
    ensures
      var s := Run(INITIAL, actions);
      s.lock == None && forall i :: 0 <= i < |s.tasks| ==> s.tasks[i].pc.Done? && MarkedOffline(s.tasks[i])
  {
    RunInv(actions);
    var s := Run(INITIAL, actions);
    forall i | 0 <= i < |s.tasks| ensures s.tasks[i].pc.Done? {
      if !s.tasks[i].pc.Done? {
        var j := SomeTaskEnabled(s, i);
      }
    }
  }
}
