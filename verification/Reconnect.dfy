/**
 on_connect (datalogger.py) topic by topic. It runs on the network thread and walks the set
 of command topics, while create_listener on the logger thread adds to the same set and then
 subscribes. A Python set that has grown makes the walk raise RuntimeError at its next turn.
 */
module Reconnect {
  import D = Delivery

  /** start: the set when the walk began; done: the topics visited. Over: the walk has ended or raised. */
  datatype Walk =
    | Idle
    | Walking(start: set<D.Topic>, done: set<D.Topic>)
    | Over(start: set<D.Topic>, done: set<D.Topic>, raised: bool)

  /** create_listener: not running, or between adding a topic and subscribing to it. */
  datatype Logger = Free | Added(topic: D.Topic)

  /**
   History since the connection: listened are the topics the logger thread subscribed to,
   failed those that were asked for and never taken.
   */
  datatype State = State(commands: set<D.Topic>, subs: set<D.Topic>, walk: Walk, logger: Logger,
                         listened: set<D.Topic>, failed: set<D.Topic>)

  datatype Action =
    | Connect
    | Turn(topic: D.Topic, outcome: D.Subscribing)
    | Add(topic: D.Topic)
    | Listen(outcome: D.Subscribing)

  const INITIAL := State({}, {}, Idle, Free, {}, {})

  function Start(w: Walk): set<D.Topic> {
    if w.Idle? then {} else w.start
  }

  function Done(w: Walk): set<D.Topic> {
    if w.Idle? then {} else w.done
  }

  function Subscribe(s: State, t: D.Topic, outcome: D.Subscribing): State {
    if outcome.Subscribed? then s.(subs := s.subs + {t}, failed := s.failed - {t})
    else if t in s.subs then s
    else s.(failed := s.failed + {t})
  }

  /** One turn of the walk; topic is the member the set hands out next. */
  function Turned(s: State, t: D.Topic, outcome: D.Subscribing): State {
    if !s.walk.Walking? then s
    else if |s.commands| != |s.walk.start| then s.(walk := Over(s.walk.start, s.walk.done, true))
    else if s.walk.done == s.walk.start then s.(walk := Over(s.walk.start, s.walk.done, false))
    else if t in s.walk.start - s.walk.done then
      Subscribe(s, t, outcome).(walk := Walking(s.walk.start, s.walk.done + {t}))
    else s
  }

  function Next(s: State, a: Action): State {
    match a
    case Connect =>
      if s.walk.Walking? then s
      else s.(subs := {}, walk := Walking(s.commands, {}), listened := {}, failed := {})
    case Turn(t, outcome) => Turned(s, t, outcome)
    case Add(t) => if s.logger.Free? then s.(commands := s.commands + {t}, logger := Added(t)) else s
    case Listen(outcome) =>
      if s.logger.Free? then s
      else
        var t := s.logger.topic;
        Subscribe(s, t, outcome).(listened := s.listened + {t}, logger := Free)
  }

  function Run(s: State, actions: seq<Action>): State {
    if actions == [] then s else Next(Run(s, actions[..|actions| - 1]), actions[|actions| - 1])
  }

  // ------------------------------------------------- every step

  function Adding(l: Logger): set<D.Topic> {
    if l.Free? then {} else {l.topic}
  }

  ghost predicate Inv(s: State) {
    && Done(s.walk) <= Start(s.walk) <= s.commands
    && s.failed <= Done(s.walk) + s.listened
    && s.subs == Done(s.walk) + s.listened - s.failed
    && s.listened + Adding(s.logger) <= s.commands
    && s.commands <= Start(s.walk) + s.listened + Adding(s.logger)
    && (s.walk.Over? && !s.walk.raised ==> s.walk.done == s.walk.start)
  }

  lemma SubscribeSets(s: State, t: D.Topic, outcome: D.Subscribing, before: set<D.Topic>, after: set<D.Topic>)
    requires s.failed <= before && s.subs == before - s.failed && after == before + {t}
    ensures
      var u := Subscribe(s, t, outcome);
      u.failed <= after && u.subs == after - u.failed
  {
  }

  lemma NextInv(s: State, a: Action)
    requires Inv(s)
    ensures Inv(Next(s, a))
  {
    hide Subscribe;
    var before := Done(s.walk) + s.listened;
    match a {
      case Connect =>
      case Add(t) =>
      case Turn(t, outcome) => SubscribeSets(s, t, outcome, before, before + {t});
      case Listen(outcome) =>
        if s.logger.Added? {
          SubscribeSets(s, s.logger.topic, outcome, before, before + {s.logger.topic});
        }
    }
    SubscribeFrame(s, a);
  }

  /** A subscribe touches nothing but the subscriptions and their failures. */
  lemma SubscribeFrame(s: State, a: Action)
    ensures forall t, outcome ::
      Subscribe(s, t, outcome) == s.(subs := Subscribe(s, t, outcome).subs, failed := Subscribe(s, t, outcome).failed)
  {
  }

  lemma {:induction false} RunInv(actions: seq<Action>)
    ensures Inv(Run(INITIAL, actions))
  {
    if actions != [] {
      RunInv(actions[..|actions| - 1]);
      NextInv(Run(INITIAL, actions[..|actions| - 1]), actions[|actions| - 1]);
    }
  }

  // ------------------------------------------------- read off the actions

  /** The walk hands out a topic: the set has not grown, and the topic is one it has still to visit. */
  predicate HandsOut(s: State, t: D.Topic) {
    s.walk.Walking? && s.commands == s.walk.start && t in s.walk.start && t !in s.walk.done
  }

  /** The last time since the connection that the broker was asked for the topic with success, if any. */
  predicate Served(actions: seq<Action>, t: D.Topic) {
    if actions == [] then false
    else
      var init, a := actions[..|actions| - 1], actions[|actions| - 1];
      var s := Run(INITIAL, init);
      match a
      case Connect => s.walk.Walking? && Served(init, t)
      case Turn(u, outcome) => (u == t && outcome.Subscribed? && HandsOut(s, t)) || Served(init, t)
      case Listen(outcome) => (s.logger == Added(t) && outcome.Subscribed?) || Served(init, t)
      case Add(_) => Served(init, t)
  }

  /** In every run the broker serves exactly the topics it took since the connection, from either thread. */
  lemma {:induction false} ServedExactly(actions: seq<Action>, t: D.Topic)
    ensures t in Run(INITIAL, actions).subs <==> Served(actions, t)
  {
    if actions != [] {
      var init := actions[..|actions| - 1];
      ServedExactly(init, t);
      SameSize(init);
    }
  }

  lemma SmallerSet<T>(a: set<T>, b: set<T>)
    requires a < b
    ensures |a| < |b|
  {
    assert exists x :: x in b && x !in a;
    var x :| x in b && x !in a;
    SubsetSize(a, b - {x});
  }

  lemma {:induction false} SubsetSize<T>(a: set<T>, b: set<T>)
    requires a <= b
    ensures |a| <= |b|
    decreases |a|
  {
    if a != {} {
      var x :| x in a;
      SubsetSize(a - {x}, b - {x});
    }
  }

  /** In every run the set has grown since the walk began exactly when it has another size. */
  lemma SameSize(actions: seq<Action>)
    ensures
      var s := Run(INITIAL, actions);
      s.walk.Walking? ==> (|s.commands| == |s.walk.start| <==> s.commands == s.walk.start)
  {
    RunInv(actions);
    var s := Run(INITIAL, actions);
    if s.walk.Walking? && s.commands != s.walk.start {
      SmallerSet(s.walk.start, s.commands);
    }
  }

  /**
   In every run a turn of the walk raises when the set has grown, ends it when every topic has been
   visited, and otherwise visits one more; nothing else moves it but a new connection, which starts
   over with every registered topic.
   */
  lemma {:induction false} WalkExactly(actions: seq<Action>, a: Action)
    ensures
      var s := Run(INITIAL, actions);
      var w, u := s.walk, Run(INITIAL, actions + [a]);
      if w.Walking? && a.Turn? then
        u.walk == if s.commands != w.start then Over(w.start, w.done, true)
                  else if w.done == w.start then Over(w.start, w.done, false)
                  else if HandsOut(s, a.topic) then Walking(w.start, w.done + {a.topic})
                  else w
      else if !w.Walking? && a.Connect? then u.walk == Walking(s.commands, {}) && u.subs == {}
      else u.walk == w
  {
    assert (actions + [a])[..|actions|] == actions;
    SameSize(actions);
    SubscribeFrame(Run(INITIAL, actions), a);
  }

  /** A topic is registered from the moment create_listener adds it, before the broker is asked. */
  lemma {:induction false} RegisteredExactly(actions: seq<Action>, a: Action)
    ensures
      var s, u := Run(INITIAL, actions), Run(INITIAL, actions + [a]);
      if a.Add? && s.logger.Free? then u.commands == s.commands + {a.topic} && u.logger == Added(a.topic)
      else u.commands == s.commands && u.logger == if a.Listen? then Free else s.logger
  {
    assert (actions + [a])[..|actions|] == actions;
    SubscribeFrame(Run(INITIAL, actions), a);
  }

  // ------------------------------------------------- main results

  /**
   In every run, with on_connect over and no listener under way, the registered topics the broker
   does not serve are those refused and those that neither the walk reached nor the logger listened to.
   */
  lemma {:induction false} LostExactly(actions: seq<Action>)
    requires Run(INITIAL, actions).walk.Over? && Run(INITIAL, actions).logger.Free?
    ensures
      var s := Run(INITIAL, actions);
      s.commands - s.subs == s.failed + (s.walk.start - s.walk.done - s.listened)
  {
    RunInv(actions);
  }

  /** A new topic is registered while the walk still has topics in front of it. */
  predicate TooEarly(s: State, a: Action) {
    a.Add? && s.logger.Free? && a.topic !in s.commands && s.walk.Walking? && s.walk.done != s.walk.start
  }

  /** No registration of the run comes too early. */
  ghost predicate NoneTooEarly(s: State, actions: seq<Action>) {
    forall k :: 0 <= k < |actions| ==> !TooEarly(Run(s, actions[..k]), actions[k])
  }

  /** Where a walk stands that was begun by a connection: undisturbed, or bound to raise before its end. */
  ghost predicate Standing(s: State, undisturbed: bool) {
    && !s.walk.Idle? && s.walk.start <= s.commands
    && (undisturbed ==> (s.walk.done == s.walk.start || (s.walk.Walking? && s.commands == s.walk.start)))
    && (!undisturbed ==> s.walk.done != s.walk.start && s.walk.start < s.commands)
  }

  lemma StandingStep(s: State, a: Action, undisturbed: bool)
    requires Standing(s, undisturbed) && !a.Connect?
    ensures Standing(Next(s, a), undisturbed && !TooEarly(s, a))
  {
    SubscribeFrame(s, a);
    hide Subscribe;
    if s.walk.start < s.commands {
      SmallerSet(s.walk.start, s.commands);
    }
  }

  lemma NothingTooEarly(s: State)
    ensures NoneTooEarly(s, [])
  {
  }

  lemma TooEarlySnoc(s: State, actions: seq<Action>)
    requires actions != []
    ensures
      var n := |actions| - 1;
      NoneTooEarly(s, actions)
      <==> NoneTooEarly(s, actions[..n]) && !TooEarly(Run(s, actions[..n]), actions[n])
  {
    hide TooEarly, Run;
    var n := |actions| - 1;
    var init := actions[..n];
    assert forall k :: 0 <= k < n ==> init[..k] == actions[..k] && init[k] == actions[k];
    if NoneTooEarly(s, init) && !TooEarly(Run(s, init), actions[n]) {
      forall k | 0 <= k < |actions| ensures !TooEarly(Run(s, actions[..k]), actions[k]) {
        assert k < n ==> !TooEarly(Run(s, init[..k]), init[k]);
      }
    }
    if NoneTooEarly(s, actions) {
      forall k | 0 <= k < n ensures !TooEarly(Run(s, init[..k]), init[k]) {
        assert !TooEarly(Run(s, actions[..k]), actions[k]);
      }
    }
  }

  lemma {:induction false} StandingRun(s: State, actions: seq<Action>)
    requires s.walk.Walking? && s.walk.start == s.commands
    requires forall k :: 0 <= k < |actions| ==> !actions[k].Connect?
    ensures Standing(Run(s, actions), NoneTooEarly(s, actions))
  {
    hide Standing, TooEarly, NoneTooEarly, Next;
    if actions == [] {
      StandingStart(s);
      NothingTooEarly(s);
    } else {
      var n := |actions| - 1;
      var init := actions[..n];
      StandingRun(s, init);
      TooEarlySnoc(s, actions);
      StandingStep(Run(s, init), actions[n], NoneTooEarly(s, init));
    }
  }

  lemma StandingStart(s: State)
    requires s.walk.Walking? && s.walk.start == s.commands
    ensures Standing(s, true)
  {
  }

  /**
   After a connection the walk reaches every topic that was registered exactly when no new one is
   registered before it has. Then all registered topics but the refused ones are served again;
   otherwise it raises, and of the topics it did not reach only those listened to since are served.
   */
  lemma {:induction false} RestoredExactly(before: seq<Action>, during: seq<Action>)
    requires !Run(INITIAL, before).walk.Walking?
    requires forall k :: 0 <= k < |during| ==> !during[k].Connect?
    requires
      var s := Run(Next(Run(INITIAL, before), Connect), during);
      s.walk.Over? && s.logger.Free?
    ensures
      var begin := Next(Run(INITIAL, before), Connect);
      var s := Run(begin, during);
      && (s.walk.done == s.walk.start <==> NoneTooEarly(begin, during))
      && (NoneTooEarly(begin, during) ==> s.commands - s.subs == s.failed)
      && (!NoneTooEarly(begin, during) ==>
            s.walk.raised && s.walk.start - s.walk.done != {} && (s.walk.start - s.walk.done) * s.subs <= s.listened)
  {
    var begin := Next(Run(INITIAL, before), Connect);
    RunInv(before);
    NextInv(Run(INITIAL, before), Connect);
    InvRun(begin, during);
    StandingRun(begin, during);
  }

  lemma {:induction false} InvRun(s: State, actions: seq<Action>)
    requires Inv(s)
    ensures Inv(Run(s, actions))
  {
    if actions != [] {
      InvRun(s, actions[..|actions| - 1]);
      NextInv(Run(s, actions[..|actions| - 1]), actions[|actions| - 1]);
    }
  }

  /**
   Such a run exists: one topic is visited, a third one is registered, and the second is lost
   although nothing refused it.
   */
  lemma {:induction false} TopicLost(a: D.Topic, b: D.Topic, c: D.Topic)
    requires a != b && c != a && c != b
    ensures
      var ok := D.Subscribed;
      var registered := [Add(a), Listen(ok), Add(b), Listen(ok), Connect];
      var u := Run(INITIAL, registered + [Turn(a, ok), Add(c), Turn(b, ok), Listen(ok)]);
      && u.walk == Over({a, b}, {a}, true) && u.logger == Free && u.failed == {}
      && u.commands == {a, b, c} && u.subs == {a, c}
  {
    var ok := D.Subscribed;
    var setup := [Add(a), Listen(ok), Add(b), Listen(ok), Connect];
    var lost := [Turn(a, ok), Add(c), Turn(b, ok), Listen(ok)];
    RunConcat(INITIAL, setup, lost);
    WalkBegun(a, b);
    WalkDisturbed(Run(INITIAL, setup), a, b, c);
  }

  lemma {:induction false} RunConcat(s: State, a: seq<Action>, b: seq<Action>)
    ensures Run(s, a + b) == Run(Run(s, a), b)
  {
    if b == [] {
      assert a + b == a;
    } else {
      assert (a + b)[..|a + b| - 1] == a + b[..|b| - 1];
      RunConcat(s, a, b[..|b| - 1]);
    }
  }

  lemma WalkBegun(a: D.Topic, b: D.Topic)
    requires a != b
    ensures
      var ok := D.Subscribed;
      Run(INITIAL, [Add(a), Listen(ok), Add(b), Listen(ok), Connect])
      == State({a, b}, {}, Walking({a, b}, {}), Free, {}, {})
  {
    var ok := D.Subscribed;
    var all := [Add(a), Listen(ok), Add(b), Listen(ok), Connect];
    RunFour(INITIAL, Add(a), Listen(ok), Add(b), Listen(ok));
    assert all[..4] == [Add(a), Listen(ok), Add(b), Listen(ok)];
    var s := Run(INITIAL, all[..4]);
    hide Run;
    assert s.commands == {a, b} && s.logger == Free && s.walk == Idle;
    assert Run(INITIAL, all) == Next(s, Connect) by { RunLast(INITIAL, all); }
  }

  lemma RunLast(s: State, actions: seq<Action>)
    requires actions != []
    ensures Run(s, actions) == Next(Run(s, actions[..|actions| - 1]), actions[|actions| - 1])
  {
  }

  lemma RunFour(s: State, a: Action, b: Action, c: Action, d: Action)
    ensures Run(s, [a, b, c, d]) == Next(Next(Next(Next(s, a), b), c), d)
  {
    hide Next;
    var all := [a, b, c, d];
    assert all[..3][..2] == all[..2] && all[..2][..1] == all[..1] && all[..1][..0] == [];
    assert Run(s, all[..1]) == Next(s, a);
    assert Run(s, all[..2]) == Next(Next(s, a), b);
    assert Run(s, all[..3]) == Next(Next(Next(s, a), b), c);
  }

  lemma WalkDisturbed(s: State, a: D.Topic, b: D.Topic, c: D.Topic)
    requires s == State({a, b}, {}, Walking({a, b}, {}), Free, {}, {}) && a != b && c != a && c != b
    ensures
      var u := Run(s, [Turn(a, D.Subscribed), Add(c), Turn(b, D.Subscribed), Listen(D.Subscribed)]);
      && u.walk == Over({a, b}, {a}, true) && u.logger == Free && u.failed == {}
      && u.commands == {a, b, c} && u.subs == {a, c}
  {
    hide Run;
    RunFour(s, Turn(a, D.Subscribed), Add(c), Turn(b, D.Subscribed), Listen(D.Subscribed));
    var walk := Walking({a, b}, {a});
    var s1 := State({a, b}, {a}, walk, Free, {}, {});
    assert Next(s, Turn(a, D.Subscribed)) == s1 by { FirstTurn(s, a, b); }
    var s2 := State({a, b, c}, {a}, walk, Added(c), {}, {});
    assert s1.commands + {c} == s2.commands;
    assert Next(s1, Add(c)) == s2;
    var s3 := s2.(walk := Over({a, b}, {a}, true));
    assert Next(s2, Turn(b, D.Subscribed)) == s3 by { SmallerSet({a, b}, {a, b, c}); }
    assert s3.subs + {c} == {a, c} && s3.failed - {c} == {};
  }

  lemma FirstTurn(s: State, a: D.Topic, b: D.Topic)
    requires s == State({a, b}, {}, Walking({a, b}, {}), Free, {}, {}) && a != b
    ensures Next(s, Turn(a, D.Subscribed)) == State({a, b}, {a}, Walking({a, b}, {a}), Free, {}, {})
  {
    assert {} + {a} == {a};
    var none: set<D.Topic> := {};
    assert none - {a} == {} && a in s.walk.start - s.walk.done;
  }
}
