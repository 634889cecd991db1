/**
 The queue between the notification callbacks and the logger thread: `_enqueue`
 (solardevice.py), `try_put` and `run_logger` (supervisor.py). Putting and taking
 one sample are steps; `datalogger.log` may return or raise.
 */
module Pipeline {
  import opened Common

  datatype Sample = Sample(device: string, item: string, value: real)

  /** A sample the logger is through with, and whether `datalogger.log` returned. */
  datatype Handled = Handled(sample: Sample, logged: bool)

  /**
   A maxsize below one means no bound. dropped is `_dropped` of each device; produced
   and kept are history: every sample offered, and whether the queue took it.
   */
  datatype State = State(maxsize: int, queue: seq<Sample>, dropped: map<string, nat>, inHand: Option<Sample>,
                         handled: seq<Handled>, produced: seq<Sample>, kept: seq<bool>)

  datatype Action = Enqueue(sample: Sample) | Take | Finish(logged: bool)

  predicate Full(maxsize: int, queue: seq<Sample>) {
    0 < maxsize <= |queue|
  }

  function DroppedBy(dropped: map<string, nat>, device: string): nat {
    if device in dropped then dropped[device] else 0
  }

  function Next(s: State, a: Action): State {
    match a
    case Enqueue(x) =>
      var t := s.(produced := s.produced + [x], kept := s.kept + [!Full(s.maxsize, s.queue)]);
      if Full(s.maxsize, s.queue) then t.(dropped := s.dropped[x.device := DroppedBy(s.dropped, x.device) + 1])
      else t.(queue := s.queue + [x])
    case Take =>
      if s.inHand.Some? || s.queue == [] then s else s.(queue := s.queue[1..], inHand := Some(s.queue[0]))
    case Finish(logged) =>
      if s.inHand.None? then s else s.(inHand := None, handled := s.handled + [Handled(s.inHand.value, logged)])
  }

  function Initial(maxsize: int): State {
    State(maxsize, [], map[], None, [], [], [])
  }

  function Run(maxsize: int, actions: seq<Action>): State {
    if actions == [] then Initial(maxsize) else Next(Run(maxsize, actions[..|actions| - 1]), actions[|actions| - 1])
  }

  // ------------------------------------------------- conservation

  /** The samples the queue took, in the order they were produced. */
  function Kept(produced: seq<Sample>, kept: seq<bool>): seq<Sample>
    requires |produced| == |kept|
  {
    if produced == [] then []
    else
      var n := |produced| - 1;
      Kept(produced[..n], kept[..n]) + if kept[n] then [produced[n]] else []
  }

  /** The samples of one device that the queue refused. */
  function Refused(produced: seq<Sample>, kept: seq<bool>, device: string): nat
    requires |produced| == |kept|
  {
    if produced == [] then 0
    else
      var n := |produced| - 1;
      Refused(produced[..n], kept[..n], device) + if !kept[n] && produced[n].device == device then 1 else 0
  }

  function Samples(handled: seq<Handled>): seq<Sample> {
    if handled == [] then [] else Samples(handled[..|handled| - 1]) + [handled[|handled| - 1].sample]
  }

  function Held(inHand: Option<Sample>): seq<Sample> {
    if inHand.Some? then [inHand.value] else []
  }

  ghost predicate Inv(s: State) {
    && |s.kept| == |s.produced|
    && Kept(s.produced, s.kept) == Samples(s.handled) + Held(s.inHand) + s.queue
    && (forall d :: DroppedBy(s.dropped, d) == Refused(s.produced, s.kept, d))
    && (s.maxsize > 0 ==> |s.queue| <= s.maxsize)
  }

  lemma Snoc(produced: seq<Sample>, kept: seq<bool>, x: Sample, taken: bool, device: string)
    requires |produced| == |kept|
    ensures Kept(produced + [x], kept + [taken]) == Kept(produced, kept) + if taken then [x] else []
    ensures Refused(produced + [x], kept + [taken], device)
         == Refused(produced, kept, device) + if !taken && x.device == device then 1 else 0
  {
    assert (produced + [x])[..|produced|] == produced && (kept + [taken])[..|kept|] == kept;
  }

  lemma SamplesSnoc(handled: seq<Handled>, h: Handled)
    ensures Samples(handled + [h]) == Samples(handled) + [h.sample]
  {
    assert (handled + [h])[..|handled|] == handled;
  }

  lemma NextInv(s: State, a: Action)
    requires Inv(s)
    ensures Inv(Next(s, a))
  {
    hide Kept, Refused, Samples;
    match a {
      case Enqueue(x) =>
        var taken := !Full(s.maxsize, s.queue);
        forall d ensures DroppedBy(Next(s, a).dropped, d) == Refused(s.produced + [x], s.kept + [taken], d) {
          Snoc(s.produced, s.kept, x, taken, d);
        }
        Snoc(s.produced, s.kept, x, taken, "");
      case Take =>
      case Finish(logged) =>
        if s.inHand.Some? {
          SamplesSnoc(s.handled, Handled(s.inHand.value, logged));
        }
    }
  }

  /**
   Conservation in every interleaving: the samples the queue took are, in order, those the
   logger is through with, the one in hand and those queued; every other one is counted as
   dropped by its device; and the queue keeps its bound.
   */
  lemma {:induction false} Conservation(maxsize: int, actions: seq<Action>)
    ensures Inv(Run(maxsize, actions)) && Run(maxsize, actions).maxsize == maxsize
  {
    hide Inv;
    if actions == [] {
      InitialInv(maxsize);
    } else {
      Conservation(maxsize, actions[..|actions| - 1]);
      NextInv(Run(maxsize, actions[..|actions| - 1]), actions[|actions| - 1]);
    }
  }

  lemma InitialInv(maxsize: int)
    ensures Inv(Initial(maxsize))
  {
  }

  /** A sample is refused exactly when the queue has a bound and that many samples wait. */
  lemma {:induction false} RefusedExactly(maxsize: int, actions: seq<Action>, x: Sample)
    ensures
      var s, t := Run(maxsize, actions), Run(maxsize, actions + [Enqueue(x)]);
      && t.produced == s.produced + [x]
      && (if maxsize > 0 && |s.queue| == maxsize then t.kept == s.kept + [false] && t.queue == s.queue
          else t.kept == s.kept + [true] && t.queue == s.queue + [x])
  {
    Conservation(maxsize, actions);
    assert (actions + [Enqueue(x)])[..|actions|] == actions;
  }

  // ------------------------------------------------- order

  function Logged(handled: seq<Handled>): seq<Sample> {
    if handled == [] then []
    else
      var last := handled[|handled| - 1];
      Logged(handled[..|handled| - 1]) + if last.logged then [last.sample] else []
  }

  /** What has been logged grows, in every run, by the sample in hand when its `log` returns, and by nothing else. */
  lemma {:induction false} LoggedGrows(maxsize: int, actions: seq<Action>, a: Action)
    ensures
      var s := Run(maxsize, actions);
      Logged(Run(maxsize, actions + [a]).handled)
      == Logged(s.handled) + if a == Finish(true) && s.inHand.Some? then [s.inHand.value] else []
  {
    assert (actions + [a])[..|actions|] == actions;
    var s := Run(maxsize, actions);
    if a.Finish? && s.inHand.Some? {
      var h := Handled(s.inHand.value, a.logged);
      assert (s.handled + [h])[..|s.handled|] == s.handled;
    }
  }

  lemma {:induction false} LoggedOfSamples(handled: seq<Handled>)
    ensures Subsequence(Logged(handled), Samples(handled))
  {
    if handled != [] {
      var n := |handled| - 1;
      LoggedOfSamples(handled[..n]);
      SubsequenceSnoc(Logged(handled[..n]), Samples(handled[..n]), handled[n].sample);
      SubsequenceOfMore(Logged(handled[..n]), Samples(handled[..n]), [handled[n].sample]);
      assert Logged(handled[..n]) + [] == Logged(handled[..n]);
    }
  }

  lemma {:induction false} KeptOfProduced(produced: seq<Sample>, kept: seq<bool>)
    requires |produced| == |kept|
    ensures Subsequence(Kept(produced, kept), produced)
  {
    if produced != [] {
      var n := |produced| - 1;
      KeptOfProduced(produced[..n], kept[..n]);
      assert produced == produced[..n] + [produced[n]];
      SubsequenceSnoc(Kept(produced[..n], kept[..n]), produced[..n], produced[n]);
      SubsequenceOfMore(Kept(produced[..n], kept[..n]), produced[..n], [produced[n]]);
      assert Kept(produced[..n], kept[..n]) + [] == Kept(produced[..n], kept[..n]);
    }
  }

  /**
   What was logged is a subsequence of what was produced, in every interleaving and whatever failed
   or was dropped.
   */
  lemma {:induction false} LoggedInOrder(maxsize: int, actions: seq<Action>)
    ensures Subsequence(Logged(Run(maxsize, actions).handled), Run(maxsize, actions).produced)
  {
    Conservation(maxsize, actions);
    var s := Run(maxsize, actions);
    hide Logged, Samples, Kept, Subsequence, Run;
    LoggedOfSamples(s.handled);
    SubsequenceOfMore(Logged(s.handled), Samples(s.handled), Held(s.inHand) + s.queue);
    assert Samples(s.handled) + (Held(s.inHand) + s.queue) == Kept(s.produced, s.kept);
    KeptOfProduced(s.produced, s.kept);
    Transitive(Logged(s.handled), Kept(s.produced, s.kept), s.produced);
  }

  /** One round of the logger: what is produced before it takes a sample, and while `log` is at it. */
  datatype Round = Round(before: seq<Sample>, during: seq<Sample>, logged: bool)

  function Offered(s: State, xs: seq<Sample>): State {
    if xs == [] then s else Next(Offered(s, xs[..|xs| - 1]), Enqueue(xs[|xs| - 1]))
  }

  function Turn(s: State, r: Round): State {
    Next(Offered(Next(Offered(s, r.before), Take), r.during), Finish(r.logged))
  }

  function Rounds(s: State, rounds: seq<Round>): State {
    if rounds == [] then s else Turn(Rounds(s, rounds[..|rounds| - 1]), rounds[|rounds| - 1])
  }

  /** Producing only appends to the queue. */
  lemma {:induction false} OfferedAppends(s: State, xs: seq<Sample>)
    ensures
      var t := Offered(s, xs);
      s.queue <= t.queue && t.inHand == s.inHand && t.handled == s.handled && t.maxsize == s.maxsize
  {
    if xs != [] {
      OfferedAppends(s, xs[..|xs| - 1]);
    }
  }

  function Offers(xs: seq<Sample>): (actions: seq<Action>)
    ensures |actions| == |xs| && forall k :: 0 <= k < |xs| ==> actions[k] == Enqueue(xs[k])
  {
    seq(|xs|, k requires 0 <= k < |xs| => Enqueue(xs[k]))
  }

  lemma {:induction false} OffersAreSteps(maxsize: int, actions: seq<Action>, xs: seq<Sample>)
    ensures Run(maxsize, actions + Offers(xs)) == Offered(Run(maxsize, actions), xs)
  {
    hide Next;
    var all := actions + Offers(xs);
    if xs == [] {
      assert all == actions;
    } else {
      OffersAreSteps(maxsize, actions, xs[..|xs| - 1]);
      assert all[..|all| - 1] == actions + Offers(xs[..|xs| - 1]);
    }
  }

  /** A round is what it says: offers, one taken, offers while `log` is at it, and the end of the call. */
  lemma {:induction false} RoundIsSteps(maxsize: int, actions: seq<Action>, r: Round)
    ensures Run(maxsize, actions + Offers(r.before) + [Take] + Offers(r.during) + [Finish(r.logged)])
         == Turn(Run(maxsize, actions), r)
  {
    hide Next, Offered;
    var a := actions + Offers(r.before);
    var b := a + [Take] + Offers(r.during);
    OffersAreSteps(maxsize, actions, r.before);
    assert (a + [Take])[..|a|] == a;
    OffersAreSteps(maxsize, a + [Take], r.during);
    assert (b + [Finish(r.logged)])[..|b|] == b;
  }

  /** A round that finds a sample handles the oldest one. */
  lemma OneTurn(s: State, r: Round)
    requires s.inHand.None? && s.queue != []
    ensures
      var t := Turn(s, r);
      && s.queue[1..] <= t.queue && t.inHand.None?
      && t.handled == s.handled + [Handled(s.queue[0], r.logged)]
  {
    hide Offered;
    OfferedAppends(s, r.before);
    var u := Offered(s, r.before);
    OfferedAppends(Next(u, Take), r.during);
    assert u.queue[0] == s.queue[0] && s.queue[1..] <= u.queue[1..];
  }

  /**
   A failing `log` stops nothing: whatever is produced meanwhile, each round handles the oldest
   sample of the queue once, in order, and the outcomes are those of the calls.
   */
  lemma {:induction false} LoggerDrains(s: State, rounds: seq<Round>)
    requires s.inHand.None? && |rounds| <= |s.queue|
    ensures
      var t := Rounds(s, rounds);
      && s.queue[|rounds|..] <= t.queue && t.inHand.None?
      && Samples(t.handled) == Samples(s.handled) + s.queue[..|rounds|]
      && |t.handled| == |s.handled| + |rounds|
      && forall k :: 0 <= k < |rounds| ==> t.handled[|s.handled| + k].logged == rounds[k].logged
  {
    hide Samples, Turn;
    if rounds != [] {
      var n := |rounds| - 1;
      LoggerDrains(s, rounds[..n]);
      var r := Rounds(s, rounds[..n]);
      assert r.queue[0] == s.queue[n..][0] == s.queue[n];
      OneTurn(r, rounds[n]);
      SamplesSnoc(r.handled, Handled(s.queue[n], rounds[n].logged));
      assert s.queue[..n] + [s.queue[n]] == s.queue[..n + 1];
      assert s.queue[n..][1..] == s.queue[n + 1..];
    }
  }

  // ------------------------------------------------- the code

  /** The queue with its producers and its one consumer. */
  class Queue {
    const maxsize: int
    var items: seq<Sample>
    var dropped: map<string, nat>
    var inHand: Option<Sample>
    var handled: seq<Handled>
    var produced: seq<Sample>
    var kept: seq<bool>

    function Value(): State
      reads this
    {
      State(maxsize, items, dropped, inHand, handled, produced, kept)
    }

    constructor (maxsize: int)
      ensures Value() == Initial(maxsize)
    {
      this.maxsize := maxsize;
      items, dropped, inHand, handled, produced, kept := [], map[], None, [], [], [];
    }

    method TryPut(x: Sample) returns (ok: bool)
      modifies `items
      ensures ok <==> !Full(maxsize, old(items))
      ensures items == if ok then old(items) + [x] else old(items)
    {
      if Full(maxsize, items) {
        return false;
      }
      items := items + [x];
      return true;
    }

    /** `_enqueue`: never waits, and counts what it drops. */
    method Offer(x: Sample)
      modifies this
      ensures Value() == Next(old(Value()), Enqueue(x))
    {
      var ok := TryPut(x);
      produced, kept := produced + [x], kept + [ok];
      if !ok {
        dropped := dropped[x.device := DroppedBy(dropped, x.device) + 1];
      }
    }

    /** The producers' turn. */
    method OfferAll(xs: seq<Sample>)
      modifies this
      ensures Value() == Offered(old(Value()), xs)
    {
      for n := 0 to |xs|
        invariant Value() == Offered(old(Value()), xs[..n])
      {
        Offer(xs[n]);
        assert xs[..n + 1][..n] == xs[..n];
      }
      assert xs[..|xs|] == xs;
    }

    /** One turn of the loop; a turn that finds the queue empty only waits. */
    method LoggerTurn(round: Round)
      requires inHand.None?
      modifies this
      ensures inHand.None? && Value() == Turn(old(Value()), round)
    {
      hide Offered;
      OfferAll(round.before);
      OfferedAppends(old(Value()), round.before);
      if items != [] {
        inHand := Some(items[0]);
        items := items[1..];
      }
      ghost var taken := Value();
      OfferAll(round.during);
      OfferedAppends(taken, round.during);
      if inHand.Some? {
        handled := handled + [Handled(inHand.value, round.logged)];
        inHand := None;
      }
    }

    /** `run_logger` among its producers. */
    method RunLogger(rounds: seq<Round>)
      requires inHand.None?
      modifies this
      ensures Value() == Rounds(old(Value()), rounds)
    {
      hide Turn;
      for n := 0 to |rounds|
        invariant inHand.None?
        invariant Value() == Rounds(old(Value()), rounds[..n])
      {
        assert rounds[..n + 1][..n] == rounds[..n];
        LoggerTurn(rounds[n]);
      }
      assert rounds[..|rounds|] == rounds;
    }
  }
}
