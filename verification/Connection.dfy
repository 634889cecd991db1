/** Retry policy shared by the connections and the command writes (connection.py). */
module Connection {
  const MAX_BACKOFF_EXP: nat := 30

  /** base doubled n times. */
  function Doubled(base: real, n: nat): real
    decreases n
  {
    if n == 0 then base else 2.0 * Doubled(base, n - 1)
  }

  function MinReal(a: real, b: real): real {
    if b < a then b else a
  }

  function MaxReal(a: real, b: real): real {
    if b > a then b else a
  }

  /** The exponent a failure number stands for, from 1 to the cap. */
  function Clamped(attempt: int): (n: nat)
    ensures 1 <= n <= MAX_BACKOFF_EXP
  {
    if attempt < 1 then 1 else if attempt > MAX_BACKOFF_EXP then MAX_BACKOFF_EXP else attempt
  }

  /** The delay before the next attempt; draw is the random number in [-jitter, jitter]. */
  function BackoffSeconds(attempt: int, base: real, maximum: real, draw: real): real {
    MaxReal(MinReal(Doubled(base, Clamped(attempt) - 1), maximum) + draw, 0.0)
  }

  /** Exponential backoff without the cap on the exponent. */
  function Unclamped(attempt: nat, base: real, maximum: real, draw: real): real
    requires attempt >= 1
  {
    MaxReal(MinReal(Doubled(base, attempt - 1), maximum) + draw, 0.0)
  }

  lemma {:induction false} BackoffBounded(attempt: int, base: real, maximum: real, jitter: real, draw: real)
    requires maximum >= 0.0 && -jitter <= draw <= jitter
    ensures 0.0 <= BackoffSeconds(attempt, base, maximum, draw) <= maximum + jitter
  {
  }

  lemma {:induction false} DoubledMonotone(base: real, m: nat, n: nat)
    requires base >= 0.0 && m <= n
    ensures 0.0 <= Doubled(base, m) <= Doubled(base, n)
    decreases n
  {
    if n == 0 {
    } else if m == n {
      DoubledMonotone(base, m - 1, n - 1);
    } else {
      DoubledMonotone(base, m, n - 1);
    }
  }

  /** The same draw never makes a later failure wait for less time. */
  lemma {:induction false} BackoffMonotone(a: int, b: int, base: real, maximum: real, draw: real)
    requires base >= 0.0 && a <= b
    ensures BackoffSeconds(a, base, maximum, draw) <= BackoffSeconds(b, base, maximum, draw)
  {
    DoubledMonotone(base, Clamped(a) - 1, Clamped(b) - 1);
  }

  /**
   Without jitter the first delay is the base and each further one twice the one before, up to the
   maximum, until the thirtieth failure; jitter is added, and no delay is negative.
   */
  lemma {:induction false} BackoffDoubles(n: int, base: real, maximum: real, draw: real)
    requires base >= 0.0 && maximum >= 0.0
    ensures
      var delay, next := BackoffSeconds(n, base, maximum, 0.0), BackoffSeconds(n + 1, base, maximum, 0.0);
      && (n <= 1 ==> delay == if base < maximum then base else maximum)
      && (1 <= n < 30 ==> next == if 2.0 * delay < maximum then 2.0 * delay else maximum)
      && (n >= 30 ==> next == delay)
      && BackoffSeconds(n, base, maximum, draw) == if delay + draw > 0.0 then delay + draw else 0.0
  {
    DoubledMonotone(base, 0, Clamped(n) - 1);
    if 1 <= n < 30 {
      assert Doubled(base, n) == 2.0 * Doubled(base, n - 1);
    }
  }

  /** The cap on the exponent is invisible, whatever is drawn, exactly when the largest doubling reaches the maximum. */
  lemma {:induction false} CapIsInvisible(base: real, maximum: real)
    requires base > 0.0
    ensures CapUnseen(base, maximum) <==> Doubled(base, 29) >= maximum
  {
    hide BackoffSeconds, Unclamped, CapUnseen;
    if Doubled(base, 29) >= maximum {
      forall n: nat, draw: real | n >= 1
        ensures BackoffSeconds(n, base, maximum, draw) == Unclamped(n, base, maximum, draw)
      {
        CapUnseenAt(n, base, maximum, draw);
      }
      assert CapUnseen(base, maximum) by { CapUnseenFrom(base, maximum); }
    } else {
      CapSeen(base, maximum);
    }
  }

  /** No failure number and no draw shows the cap. */
  ghost predicate CapUnseen(base: real, maximum: real) {
    forall n: nat, draw: real :: n >= 1 ==>
      BackoffSeconds(n, base, maximum, draw) == Unclamped(n, base, maximum, draw)
  }

  lemma CapUnseenFrom(base: real, maximum: real)
    requires forall n: nat, draw: real :: n >= 1 ==>
      BackoffSeconds(n, base, maximum, draw) == Unclamped(n, base, maximum, draw)
    ensures CapUnseen(base, maximum)
  {
  }

  lemma CapUnseenAt(n: nat, base: real, maximum: real, draw: real)
    requires n >= 1 && base > 0.0 && Doubled(base, 29) >= maximum
    ensures BackoffSeconds(n, base, maximum, draw) == Unclamped(n, base, maximum, draw)
  {
    if n > MAX_BACKOFF_EXP {
      DoubledMonotone(base, MAX_BACKOFF_EXP - 1, n - 1);
    }
  }

  lemma CapSeen(base: real, maximum: real)
    requires base > 0.0 && Doubled(base, 29) < maximum
    ensures !CapUnseen(base, maximum)
  {
    DoubledMonotone(base, 0, 29);
    assert Doubled(base, 30) == 2.0 * Doubled(base, 29);
    assert BackoffSeconds(31, base, maximum, 0.0) != Unclamped(31, base, maximum, 0.0);
  }

  /** `write_with_retry` on its own: accepts[k] says whether the k-th write is accepted. */
  method WriteWithRetry(attempts: nat, accepts: seq<bool>) returns (ok: bool, writes: nat)
    requires |accepts| >= attempts
    ensures writes <= attempts
    ensures ok <==> writes > 0 && accepts[writes - 1]
    ensures forall k :: 0 <= k < writes - 1 ==> !accepts[k]
    ensures !ok ==> writes == attempts
  {
    writes := 0;
    var attempt := 1;
    while attempt < attempts + 1
      invariant 1 <= attempt <= attempts + 1 && writes == attempt - 1
      invariant forall k :: 0 <= k < writes ==> !accepts[k]
    {
      writes := writes + 1;
      if accepts[attempt - 1] {
        return true, writes;
      }
      attempt := attempt + 1;
    }
    return false, writes;
  }
}

/**
 The writes on one connection: poll writes of `_hold` (ble.py) and command writes
 (solardevice.py, connection.py) interleave at every await and share one lock.
 */
module Writes {
  import opened Common

  /** A poll writes once per round; a command up to its number of attempts. */
  datatype Kind = Poll | Command(attempts: nat)

  datatype Pc = Ready | AwaitLock | Writing | Pausing | Ended

  /** results: how each write went; returned: what a command's coroutine returned. */
  datatype Writer = Writer(kind: Kind, pc: Pc, results: seq<bool>, returned: Option<bool>)

  datatype Client = Client(writers: seq<Writer>, lock: Option<nat>)

  datatype Action =
    | Spawn(kind: Kind)
    | Step(i: nat, accepted: bool)
    | Cancel(i: nat)

  const INITIAL: Client := Client([], None)

  /** The next await of a writer; the lock is free where it asks for it. */
  function Moved(w: Writer, accepted: bool): Writer {
    match w.pc
    case Ready =>
      if w.kind.Command? && w.kind.attempts == 0 then w.(pc := Ended, returned := Some(false))
      else w.(pc := AwaitLock)
    case AwaitLock => w.(pc := Writing)
    case Writing =>
      var u := w.(results := w.results + [accepted]);
      if w.kind.Poll? then u.(pc := if accepted then Pausing else Ended)
      else if accepted then u.(pc := Ended, returned := Some(true))
      else if |u.results| < w.kind.attempts then u.(pc := Pausing)
      else u.(pc := Ended, returned := Some(false))
    case Pausing => w.(pc := AwaitLock)
    case Ended => w
  }

  function Next(c: Client, a: Action): Client {
    match a
    case Spawn(kind) => c.(writers := c.writers + [Writer(kind, Ready, [], None)])
    case Cancel(i) =>
      if i < |c.writers| then
        Client(c.writers[i := c.writers[i].(pc := Ended)], if c.lock == Some(i) then None else c.lock)
      else c
    case Step(i, accepted) =>
      if i < |c.writers| && (c.writers[i].pc.AwaitLock? ==> c.lock == None) then
        var u := Moved(c.writers[i], accepted);
        Client(c.writers[i := u],
               if u.pc.Writing? then Some(i) else if c.lock == Some(i) then None else c.lock)
      else c
  }

  function Run(actions: seq<Action>): Client {
    if actions == [] then INITIAL else Next(Run(actions[..|actions| - 1]), actions[|actions| - 1])
  }

  predicate AllRefused(results: seq<bool>) {
    forall k :: 0 <= k < |results| ==> !results[k]
  }

  /** How the results of a command relate to where it is and what it returned. */
  ghost predicate WriterInv(w: Writer) {
    w.kind.Command? ==>
      && |w.results| <= w.kind.attempts
      && (w.pc.AwaitLock? || w.pc.Writing? || w.pc.Pausing? ==> |w.results| < w.kind.attempts)
      && (w.pc.Ready? ==> w.results == [])
      && (w.returned.Some? ==> w.pc.Ended?)
      && (w.returned == Some(true) ==> w.results != [] && w.results[|w.results| - 1]
                                       && AllRefused(w.results[..|w.results| - 1]))
      && (w.returned != Some(true) ==> AllRefused(w.results))
      && (w.returned == Some(false) ==> |w.results| == w.kind.attempts)
  }

  ghost predicate Inv(c: Client) {
    && (forall i :: 0 <= i < |c.writers| ==> WriterInv(c.writers[i]))
    && (forall i :: 0 <= i < |c.writers| ==> (c.writers[i].pc.Writing? <==> c.lock == Some(i)))
    && (c.lock.Some? ==> c.lock.value < |c.writers|)
  }

  lemma MovedInv(w: Writer, accepted: bool)
    requires WriterInv(w)
    ensures WriterInv(Moved(w, accepted))
  {
    assert (w.results + [accepted])[..|w.results|] == w.results;
  }

  lemma NextInv(c: Client, a: Action)
    requires Inv(c)
    ensures Inv(Next(c, a))
  {
    hide WriterInv;
    match a {
      case Spawn(kind) => assert WriterInv(Writer(kind, Ready, [], None)) by { SpawnInv(kind); }
      case Cancel(i) =>
        if i < |c.writers| { CancelInv(c.writers[i]); }
      case Step(i, accepted) =>
        if i < |c.writers| { MovedInv(c.writers[i], accepted); }
    }
  }

  lemma SpawnInv(kind: Kind)
    ensures WriterInv(Writer(kind, Ready, [], None))
  {
  }

  lemma CancelInv(w: Writer)
    requires WriterInv(w)
    ensures WriterInv(w.(pc := Ended))
  {
  }

  lemma {:induction false} RunInv(actions: seq<Action>)
    ensures Inv(Run(actions))
  {
    if actions != [] {
      RunInv(actions[..|actions| - 1]);
      NextInv(Run(actions[..|actions| - 1]), actions[|actions| - 1]);
    }
  }

  /** In every interleaving at most one write is in flight on the connection. */
  lemma {:induction false} OneWriteInFlight(actions: seq<Action>)
    ensures
      var c := Run(actions);
      && (forall i, j :: 0 <= i < |c.writers| && 0 <= j < |c.writers|
                         && c.writers[i].pc.Writing? && c.writers[j].pc.Writing?
                         ==> i == j)
      && (c.lock == None <==> forall i :: 0 <= i < |c.writers| ==> !c.writers[i].pc.Writing?)
  {
    RunInv(actions);
  }

  /** A command that has ended on its own has returned; a poll has, exactly when its last write was refused. */
  ghost predicate EndedInv(w: Writer) {
    if w.kind.Command? then w.pc.Ended? ==> w.returned.Some?
    else
      && (w.pc.Ready? ==> w.results == [])
      && (forall k :: 0 <= k < |w.results| - 1 ==> w.results[k])
      && (w.pc.Ended? ==> w.results != [] && !w.results[|w.results| - 1])
      && (!w.pc.Ended? && w.results != [] ==> w.results[|w.results| - 1])
  }

  lemma EndedMoved(w: Writer, accepted: bool)
    requires EndedInv(w)
    ensures EndedInv(Moved(w, accepted))
  {
  }

  lemma {:induction false} EndedRun(actions: seq<Action>, i: nat)
    requires i < |Run(actions).writers| && Cancel(i) !in actions
    ensures EndedInv(Run(actions).writers[i])
  {
    hide EndedInv, Moved;
    if actions != [] {
      var n := |actions| - 1;
      var c, a := Run(actions[..n]), actions[n];
      assert a in actions && Cancel(i) !in actions[..n];
      if i < |c.writers| {
        EndedRun(actions[..n], i);
        if a.Step? {
          EndedMoved(c.writers[i], a.accepted);
        }
      } else {
        SpawnedInv(a.kind);
      }
    }
  }

  lemma SpawnedInv(kind: Kind)
    ensures EndedInv(Writer(kind, Ready, [], None))
  {
  }

  /**
   In every run a poll writes until its first refused write and then no more, and a command that
   nobody cancelled ends only by returning.
   */
  lemma {:induction false} EndsExactly(actions: seq<Action>, i: nat)
    requires i < |Run(actions).writers| && Cancel(i) !in actions
    ensures
      var w := Run(actions).writers[i];
      && (w.kind.Command? ==> (w.pc.Ended? <==> w.returned.Some?))
      && (w.kind.Poll? ==> (w.pc.Ended? <==> false in w.results)
                           && forall k :: 0 <= k < |w.results| - 1 ==> w.results[k])
  {
    EndedRun(actions, i);
    RunInv(actions);
    assert WriterInv(Run(actions).writers[i]);
  }

  /** A writer that can be resumed: it waits for a lock that is free, or for nothing. */
  predicate Enabled(c: Client, i: nat) {
    i < |c.writers| && !c.writers[i].pc.Ended? && (c.writers[i].pc.AwaitLock? ==> c.lock == None)
  }

  /** While a writer has not ended, some writer can be resumed. */
  lemma {:induction false} NoDeadlock(actions: seq<Action>, i: nat) returns (j: nat)
    requires i < |Run(actions).writers| && !Run(actions).writers[i].pc.Ended?
    ensures Enabled(Run(actions), j)
  {
    RunInv(actions);
    var c := Run(actions);
    j := if c.lock.Some? then c.lock.value else i;
  }

  /** How many awaits a command has in front of it at most. */
  function Left(w: Writer): nat
    requires w.kind.Command? && |w.results| <= w.kind.attempts
  {
    var n := 3 * (w.kind.attempts - |w.results|);
    match w.pc
    case Ready => n + 2
    case Pausing => n + 1
    case AwaitLock => n
    case Writing => if n > 0 then n - 1 else 0
    case Ended => 0
  }

  /** Each resumption brings a command closer to its end, from at most three awaits per attempt and two. */
  lemma {:induction false} CommandGetsCloser(actions: seq<Action>, i: nat, accepted: bool)
    requires Enabled(Run(actions), i) && Run(actions).writers[i].kind.Command?
    ensures
      var w, u := Run(actions).writers[i], Run(actions + [Step(i, accepted)]).writers[i];
      && u.kind == w.kind && |w.results| <= |u.results| <= w.kind.attempts
      && (u.pc.Ended? || Left(u) < Left(w)) && Left(w) <= 3 * w.kind.attempts + 2
  {
    RunInv(actions);
    RunInv(actions + [Step(i, accepted)]);
    assert (actions + [Step(i, accepted)])[..|actions|] == actions;
    assert WriterInv(Run(actions).writers[i]);
    assert WriterInv(Run(actions + [Step(i, accepted)]).writers[i]);
  }

  /** A cancelled writer has ended, gives the lock back if it had it, and touches no other writer. */
  lemma {:induction false} CancelReleases(actions: seq<Action>, i: nat)
    requires i < |Run(actions).writers|
    ensures
      var c, d := Run(actions), Run(actions + [Cancel(i)]);
      && d.writers == c.writers[i := c.writers[i].(pc := Ended)]
      && (d.lock == None <==> forall k :: 0 <= k < |c.writers| && k != i ==> !c.writers[k].pc.Writing?)
  {
    assert (actions + [Cancel(i)])[..|actions|] == actions;
    RunInv(actions);
    OneWriteInFlight(actions + [Cancel(i)]);
  }

  /**
   However its writes interleave with the others, a command writes at most `attempts`
   times, stops at the first accepted write, and returns True exactly when it had one.
   */
  lemma {:induction false} CommandRetries(actions: seq<Action>, i: nat)
    requires i < |Run(actions).writers| && Run(actions).writers[i].kind.Command?
    ensures
      var w := Run(actions).writers[i];
      && |w.results| <= w.kind.attempts
      && (forall k :: 0 <= k < |w.results| - 1 ==> !w.results[k])
      && (w.returned.Some? ==> (w.returned.value <==> w.results != [] && w.results[|w.results| - 1]))
      && (w.returned == Some(false) ==> |w.results| == w.kind.attempts)
  {
    RunInv(actions);
    var w := Run(actions).writers[i];
    assert WriterInv(w);
    forall k | 0 <= k < |w.results| - 1 ensures !w.results[k] {
      assert w.results[..|w.results| - 1][k] == w.results[k];
    }
  }
}
