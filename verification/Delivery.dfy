/**
 Delivery of readings (datalogger.py): the cache of what was sent, the discovery
 configs, and the command subscriptions. The broker, the HTTP endpoint and the
 clocks are outside: what they answer is part of each call.
 */
module Delivery {
  import opened Common

  datatype Topic = Topic(device: string, variable: string)

  /** A Python value; Nothing is None. */
  datatype Reading = Nothing | Number(number: real) | Text(text: string)

  /** `client.subscribe`: taken by the broker, not sent or denied, or an exception. */
  datatype Subscribing = Subscribed | NotSubscribed | Raises

  /** `client.publish`: queued, answered with an error code, or an exception. */
  datatype Sending = Queued | Dropped | Fails

  /**
   What one call of `log` meets. Clocks: ts and later are the two `datetime.now()`,
   mono and stored the two `time.monotonic()`, wall the test of the listener's age,
   and created and renewed the times a listener is recorded with; configAt is when
   the config is queued.
   */
  datatype Env = Env(ts: real, later: real, mono: real, configAt: real, stored: real, wall: real,
                     created: real, renewed: real, first: Subscribing, again: Subscribing,
                     config: Sending, state: Sending, post: bool)

  datatype Config = Config(topic: Topic, at: real)

  /** The fields of DataLoggerMqtt, the broker's subscriptions, and the configs queued so far. */
  datatype Mqtt = Mqtt(sensors: map<Topic, real>, commands: set<Topic>, listeners: map<Topic, real>,
                       sets: set<string>, subs: set<Topic>, configs: seq<Config>)

  datatype Verdict = NotAsked | Accepted | Refused

  /** One call of `send_to_server`; raised says that it ended with an exception. */
  datatype Send = Send(topic: Topic, reading: Reading, ts: real, mqtt: Verdict, http: Verdict, raised: bool)

  datatype Cell = Cell(ts: real, value: Reading)

  /** Which sinks there are, and the refresh interval. */
  datatype Setup = Setup(mqtt: bool, http: bool, refresh: real)

  datatype State = State(cells: map<Topic, Cell>, mqtt: Mqtt, sends: seq<Send>)

  datatype Action =
    | Log(topic: Topic, reading: Reading, env: Env)
    | Disconnect
    | OnConnect(refused: set<Topic>)

  const DISCOVERY_REPUBLISH_SECONDS := 3600.0
  const LISTENER_SECONDS := 300.0

  const INITIAL := State(map[], Mqtt(map[], {}, map[], {}, {}, []), [])

  // ------------------------------------------------- DataLoggerMqtt

  predicate Contains(text: string, part: string) {
    part <= text || (text != "" && Contains(text[1..], part))
  }

  /** `"power_switch" in var` */
  predicate IsSwitch(t: Topic) {
    Contains(t.variable, "power_switch")
  }

  /** A variable is a switch exactly when the name occurs in it. */
  lemma {:induction false} SwitchExactly(t: Topic)
    ensures IsSwitch(t) <==> exists a: string, b: string :: t.variable == a + "power_switch" + b
  {
    if a: string, b: string :| t.variable == a + "power_switch" + b {
      OccursBehind(a, "power_switch", b);
    }
    if IsSwitch(t) {
      var a, b := OccursWhere(t.variable, "power_switch");
    }
  }

  lemma {:induction false} OccursBehind(a: string, part: string, b: string)
    ensures Contains(a + part + b, part)
  {
    if a == "" {
      assert a + part + b == part + b;
      if part + b == "" {
        assert part <= part + b;
      }
    } else {
      assert (a + part + b)[1..] == a[1..] + part + b;
      OccursBehind(a[1..], part, b);
    }
  }

  lemma {:induction false} OccursWhere(text: string, part: string) returns (a: string, b: string)
    requires Contains(text, part)
    ensures text == a + part + b
  {
    if part <= text {
      a, b := "", text[|part|..];
    } else {
      a, b := OccursWhere(text[1..], part);
      a := [text[0]] + a;
      assert text == [text[0]] + text[1..];
    }
  }

  function Listen(m: Mqtt, t: Topic, outcome: Subscribing, now: real): Mqtt {
    m.(commands := m.commands + {t}, sets := m.sets + {t.device},
       subs := if outcome.Subscribed? then m.subs + {t} else m.subs,
       listeners := if outcome.Raises? then m.listeners else m.listeners[t := now])
  }

  predicate ConfigDue(m: Mqtt, t: Topic, refresh: bool, mono: real) {
    t !in m.sensors || (refresh && mono - m.sensors[t] >= DISCOVERY_REPUBLISH_SECONDS)
  }

  /** The config of a topic, and for a switch its listener. */
  function Discovered(m: Mqtt, t: Topic, e: Env): Mqtt {
    var u := m.(configs := m.configs + [Config(t, e.configAt)]);
    var v := if IsSwitch(t) then Listen(u, t, e.first, e.created) else u;
    v.(sensors := v.sensors[t := e.stored])
  }

  /** The client after `publish`, what the broker said of the value, and whether an exception ended the call. */
  function Published(m: Mqtt, t: Topic, refresh: bool, e: Env): (Mqtt, Verdict, bool) {
    if ConfigDue(m, t, refresh, e.mono) && e.config.Fails? then (m, NotAsked, true)
    else
      var u := if ConfigDue(m, t, refresh, e.mono) then Discovered(m, t, e) else m;
      if e.state.Fails? then (u, NotAsked, true)
      else
        var verdict := if e.state.Queued? then Accepted else Refused;
        if IsSwitch(t) && t !in u.listeners then (u, verdict, true)
        else if IsSwitch(t) && e.wall > u.listeners[t] + LISTENER_SECONDS then
          (Listen(u, t, e.again, e.renewed), verdict, false)
        else (u, verdict, false)
  }

  // ------------------------------------------------- DataLogger

  function Sent(setup: Setup, m: Mqtt, t: Topic, r: Reading, refresh: bool, e: Env): (Mqtt, Send) {
    var (u, verdict, raised) := if setup.mqtt then Published(m, t, refresh, e) else (m, NotAsked, false);
    var http := if raised || !setup.http then NotAsked else if e.post then Accepted else Refused;
    (u, Send(t, r, e.ts, verdict, http, raised))
  }

  /** Every configured sink took the value, and `send_to_server` returned True. */
  predicate Full(send: Send) {
    !send.raised && !send.mqtt.Refused? && !send.http.Refused?
  }

  function CellOf(s: State, t: Topic, ts: real): Cell {
    if t in s.cells then s.cells[t] else Cell(ts, Nothing)
  }

  /** Whether `log` sends the reading: because it differs, or because the cached one is old. */
  predicate Attempts(setup: Setup, s: State, t: Topic, r: Reading, e: Env) {
    var cell := CellOf(s, t, e.ts);
    cell.value != r || cell.ts < e.later - setup.refresh
  }

  function Logged(setup: Setup, s: State, t: Topic, r: Reading, e: Env): State {
    var cell := CellOf(s, t, e.ts);
    if Attempts(setup, s, t, r, e) then
      var (m, send) := Sent(setup, s.mqtt, t, r, cell.value == r, e);
      State(s.cells[t := if Full(send) then Cell(e.ts, r) else cell], m, s.sends + [send])
    else s.(cells := s.cells[t := cell])
  }

  function Next(setup: Setup, s: State, a: Action): State {
    match a
    case Log(t, r, e) => Logged(setup, s, t, r, e)
    case Disconnect => s.(mqtt := s.mqtt.(subs := {}))
    case OnConnect(refused) => s.(mqtt := s.mqtt.(subs := s.mqtt.commands - refused))
  }

  function Run(setup: Setup, s: State, actions: seq<Action>): State {
    if actions == [] then s
    else Next(setup, Run(setup, s, actions[..|actions| - 1]), actions[|actions| - 1])
  }

  // ------------------------------------------------- the cache

  function Cached(s: State, t: Topic): Reading {
    if t in s.cells then s.cells[t].value else Nothing
  }

  /** Every configured sink answers well: the value is queued, the POST is taken. */
  predicate Answered(setup: Setup, e: Env) {
    (setup.mqtt ==> e.state.Queued?) && (setup.http ==> e.post)
  }

  /** A config of the topic has to be queued first. */
  predicate NeedsConfig(m: Mqtt, t: Topic, refresh: bool, e: Env) {
    t !in m.sensors || (refresh && e.mono - m.sensors[t] >= 3600.0)
  }

  /** `publish` raises: at the config, at the value, or for a switch whose listener has never been recorded. */
  predicate Throws(setup: Setup, m: Mqtt, t: Topic, refresh: bool, e: Env) {
    setup.mqtt &&
    ((NeedsConfig(m, t, refresh, e) && e.config.Fails?)
     || e.state.Fails?
     || (IsSwitch(t) && t !in m.listeners && (NeedsConfig(m, t, refresh, e) ==> e.first.Raises?)))
  }

  /** What becomes of a send, from the answers alone. */
  lemma {:induction false} SendExactly(setup: Setup, m: Mqtt, t: Topic, r: Reading, refresh: bool, e: Env)
    ensures
      var send := Sent(setup, m, t, r, refresh, e).1;
      && send.topic == t && send.reading == r && send.ts == e.ts
      && (send.raised <==> Throws(setup, m, t, refresh, e))
      && (Full(send) <==> !Throws(setup, m, t, refresh, e) && Answered(setup, e))
      && send.http == (if !setup.http || Throws(setup, m, t, refresh, e) then NotAsked
                       else if e.post then Accepted else Refused)
      && send.mqtt == (if !setup.mqtt || (NeedsConfig(m, t, refresh, e) && e.config.Fails?) || e.state.Fails?
                       then NotAsked else if e.state.Queued? then Accepted else Refused)
  {
    hide Contains;
  }

  /** When the topic was logged for the first time. */
  function FirstLogged(actions: seq<Action>, t: Topic): Option<real> {
    if actions == [] then None
    else
      var earlier := FirstLogged(actions[..|actions| - 1], t);
      var last := actions[|actions| - 1];
      if earlier == None && last.Log? && last.topic == t then Some(last.env.ts) else earlier
  }

  /**
   The last reading all configured sinks took, with its time; before there is one, None since the
   first was logged.
   */
  function Delivered(setup: Setup, actions: seq<Action>, t: Topic, now: real): Cell
    decreases |actions|, 1
  {
    match LastTaken(setup, actions, t)
    case Some(cell) => cell
    case None => Cell(if FirstLogged(actions, t).Some? then FirstLogged(actions, t).value else now, Nothing)
  }

  /** The reading differs from what was delivered last, or that is too old. */
  predicate Wanted(setup: Setup, last: Cell, r: Reading, e: Env) {
    r != last.value || last.ts < e.later - setup.refresh
  }

  /** The call is sent and taken by every sink. */
  predicate Takes(setup: Setup, s: State, before: Cell, t: Topic, r: Reading, e: Env) {
    Wanted(setup, before, r, e) && !Throws(setup, s.mqtt, t, r == before.value, e) && Answered(setup, e)
  }

  function LastTaken(setup: Setup, actions: seq<Action>, t: Topic): Option<Cell>
    decreases |actions|, 0
  {
    if actions == [] then None
    else
      var init, last := actions[..|actions| - 1], actions[|actions| - 1];
      if last.Log? && last.topic == t
         && Takes(setup, Run(setup, INITIAL, init), Delivered(setup, init, t, last.env.ts), t, last.reading, last.env)
      then Some(Cell(last.env.ts, last.reading))
      else LastTaken(setup, init, t)
  }

  ghost predicate CacheInv(setup: Setup, actions: seq<Action>, t: Topic) {
    var s := Run(setup, INITIAL, actions);
    && (t in s.cells <==> FirstLogged(actions, t).Some?)
    && (LastTaken(setup, actions, t).Some? ==> t in s.cells)
    && (t in s.cells ==> s.cells[t] == Delivered(setup, actions, t, 0.0))
  }

  lemma DeliveredIsCell(setup: Setup, actions: seq<Action>, t: Topic, now: real)
    requires CacheInv(setup, actions, t)
    ensures CellOf(Run(setup, INITIAL, actions), t, now) == Delivered(setup, actions, t, now)
  {
    hide Run, LastTaken, FirstLogged;
  }

  lemma LoggedCell(setup: Setup, s: State, t: Topic, r: Reading, e: Env)
    ensures
      var before, u := CellOf(s, t, e.ts), Logged(setup, s, t, r, e);
      && u.cells == s.cells[t := if Takes(setup, s, before, t, r, e) then Cell(e.ts, r) else before]
  {
    hide Sent, Full, Throws, Answered;
    SendExactly(setup, s.mqtt, t, r, CellOf(s, t, e.ts).value == r, e);
  }

  lemma CacheStep(setup: Setup, actions: seq<Action>, t: Topic)
    requires actions != [] && CacheInv(setup, actions[..|actions| - 1], t)
    ensures CacheInv(setup, actions, t)
  {
    hide Logged, Takes;
    var init, a := actions[..|actions| - 1], actions[|actions| - 1];
    var s := Run(setup, INITIAL, init);
    assert Run(setup, INITIAL, actions) == Next(setup, s, a);
    DeliveredIs(setup, actions, t, 0.0);
    if a.Log? {
      LoggedCell(setup, s, a.topic, a.reading, a.env);
      DeliveredIsCell(setup, init, t, a.env.ts);
      DeliveredIs(setup, init, t, a.env.ts);
    }
    DeliveredIs(setup, init, t, 0.0);
    hide Delivered, Run;
  }

  lemma DeliveredIs(setup: Setup, actions: seq<Action>, t: Topic, now: real)
    ensures Delivered(setup, actions, t, now)
         == match LastTaken(setup, actions, t)
            case Some(cell) => cell
            case None => Cell(if FirstLogged(actions, t).Some? then FirstLogged(actions, t).value else now, Nothing)
  {
  }

  /** Over every run the cache holds the last reading that all configured sinks took, with the time it was logged. */
  lemma {:induction false} CacheIsLastDelivered(setup: Setup, actions: seq<Action>, t: Topic)
    ensures
      var s := Run(setup, INITIAL, actions);
      && (t in s.cells <==> FirstLogged(actions, t).Some?)
      && (t in s.cells ==> s.cells[t] == Delivered(setup, actions, t, 0.0))
    ensures CacheInv(setup, actions, t)
  {
    hide CacheInv;
    if actions == [] {
      CacheStart(setup, t);
    } else {
      CacheIsLastDelivered(setup, actions[..|actions| - 1], t);
      CacheStep(setup, actions, t);
    }
    CacheSays(setup, actions, t);
  }

  lemma CacheStart(setup: Setup, t: Topic)
    ensures CacheInv(setup, [], t)
  {
  }

  lemma CacheSays(setup: Setup, actions: seq<Action>, t: Topic)
    requires CacheInv(setup, actions, t)
    ensures
      var s := Run(setup, INITIAL, actions);
      && (t in s.cells <==> FirstLogged(actions, t).Some?)
      && (t in s.cells ==> s.cells[t] == Delivered(setup, actions, t, 0.0))
  {
  }

  /**
   After every run a reading is held back exactly when the last one that every sink took carried the
   same value and is not older than the refresh interval; any other is sent, once.
   */
  lemma {:induction false} HeldBackExactly(setup: Setup, actions: seq<Action>, t: Topic, r: Reading, e: Env)
    ensures
      var s := Run(setup, INITIAL, actions);
      var last := Delivered(setup, actions, t, e.ts);
      if r == last.value && last.ts >= e.later - setup.refresh then Logged(setup, s, t, r, e).sends == s.sends
      else
        |Logged(setup, s, t, r, e).sends| == |s.sends| + 1
        && Logged(setup, s, t, r, e).sends[..|s.sends|] == s.sends
        && var send := Logged(setup, s, t, r, e).sends[|s.sends|];
           send.topic == t && send.reading == r && send.ts == e.ts
  {
    hide Run, Delivered, LastTaken, Published;
    CacheIsLastDelivered(setup, actions, t);
    DeliveredIsCell(setup, actions, t, e.ts);
  }

  /**
   A failed send is retried: when a sink does not answer well or the call raises, then, whatever
   happens on other topics or to the connection, each next reading that still differs from the last
   delivered one is sent, as the same reading is.
   */
  lemma {:induction false} FailedIsRetried(
    setup: Setup, actions: seq<Action>, t: Topic, r: Reading, e: Env, later: seq<Action>, r': Reading, e': Env)
    requires
      !Answered(setup, e)
      || Throws(setup, Run(setup, INITIAL, actions).mqtt, t, r == Delivered(setup, actions, t, e.ts).value, e)
    requires forall k :: 0 <= k < |later| ==> later[k].Log? ==> later[k].topic != t
    requires r' != Delivered(setup, actions, t, e.ts).value
    ensures
      var s := Run(setup, Run(setup, INITIAL, actions + [Log(t, r, e)]), later);
      Cached(s, t) == Delivered(setup, actions, t, e.ts).value && |Logged(setup, s, t, r', e').sends| == |s.sends| + 1
  {
    hide Sent, Throws, Answered;
    var all := actions + [Log(t, r, e)];
    assert all[..|all| - 1] == actions;
    CacheIsLastDelivered(setup, actions, t);
    CacheIsLastDelivered(setup, all, t);
    assert LastTaken(setup, all, t) == LastTaken(setup, actions, t);
    OtherTopics(setup, Run(setup, INITIAL, all), later, t);
  }

  lemma {:induction false} OtherTopics(setup: Setup, s: State, later: seq<Action>, t: Topic)
    requires forall k :: 0 <= k < |later| ==> later[k].Log? ==> later[k].topic != t
    ensures Cached(Run(setup, s, later), t) == Cached(s, t)
  {
    hide Sent, Attempts;
    if later != [] {
      OtherTopics(setup, s, later[..|later| - 1], t);
    }
  }

  // ------------------------------------------------- one sink

  /** The last value the sinks show for a topic: the broker's retained state, or the last POST. */
  function Shown(t: Topic, sends: seq<Send>): Reading {
    if sends == [] then Nothing
    else
      var last := sends[|sends| - 1];
      if last.topic == t && (last.mqtt.Accepted? || last.http.Accepted?) then last.reading
      else Shown(t, sends[..|sends| - 1])
  }

  /** The call raises KeyError behind an accepted value: a switch whose listener was never recorded. */
  predicate Orphaned(setup: Setup, s: State, t: Topic, r: Reading, e: Env) {
    var refresh := CellOf(s, t, e.ts).value == r;
    && setup.mqtt && Attempts(setup, s, t, r, e) && e.state.Queued? && IsSwitch(t) && t !in s.mqtt.listeners
    && (ConfigDue(s.mqtt, t, refresh, e.mono) ==> !e.config.Fails? && e.first.Raises?)
  }

  lemma ShownSnoc(t: Topic, sends: seq<Send>, send: Send)
    ensures Shown(t, sends + [send])
         == if send.topic == t && (send.mqtt.Accepted? || send.http.Accepted?) then send.reading else Shown(t, sends)
  {
    assert (sends + [send])[..|sends|] == sends;
  }

  /** With one sink, one call keeps cache and sink equal exactly when it does not raise behind an accepted new value. */
  lemma {:induction false} OneSinkStep(setup: Setup, s: State, t: Topic, r: Reading, e: Env)
    requires setup.mqtt != setup.http && Cached(s, t) == Shown(t, s.sends)
    ensures
      var u := Logged(setup, s, t, r, e);
      Cached(u, t) == Shown(t, u.sends) <==> !(Orphaned(setup, s, t, r, e) && r != Cached(s, t))
  {
    hide Contains, Shown;
    if Attempts(setup, s, t, r, e) {
      var cell := CellOf(s, t, e.ts);
      var (m, send) := Sent(setup, s.mqtt, t, r, cell.value == r, e);
      ShownSnoc(t, s.sends, send);
    }
  }

  /** The action is a log call that raises behind an accepted new value. */
  predicate Breaks(setup: Setup, s: State, a: Action, t: Topic) {
    a.Log? && a.topic == t && Orphaned(setup, s, t, a.reading, a.env) && a.reading != Cached(s, t)
  }

  ghost predicate InSync(s: State, t: Topic) {
    Cached(s, t) == Shown(t, s.sends)
  }

  lemma SyncStep(setup: Setup, s: State, a: Action, t: Topic)
    requires setup.mqtt != setup.http && InSync(s, t)
    ensures InSync(Next(setup, s, a), t) <==> !Breaks(setup, s, a, t)
  {
    hide Published, Orphaned, Shown;
    if a.Log? {
      if a.topic == t {
        OneSinkStep(setup, s, t, a.reading, a.env);
      } else if Attempts(setup, s, a.topic, a.reading, a.env) {
        var cell := CellOf(s, a.topic, a.env.ts);
        var (m, send) := Sent(setup, s.mqtt, a.topic, a.reading, cell.value == a.reading, a.env);
        ShownSnoc(t, s.sends, send);
      }
    }
  }

  lemma RunStep(setup: Setup, actions: seq<Action>, n: nat)
    requires n < |actions|
    ensures Run(setup, INITIAL, actions[..n + 1]) == Next(setup, Run(setup, INITIAL, actions[..n]), actions[n])
  {
    hide Next;
    assert actions[..n + 1][..n] == actions[..n];
  }

  lemma {:induction false} SyncUpTo(setup: Setup, actions: seq<Action>, t: Topic, n: nat)
    requires setup.mqtt != setup.http && n <= |actions|
    requires forall k :: 0 <= k < |actions| ==> !Breaks(setup, Run(setup, INITIAL, actions[..k]), actions[k], t)
    ensures InSync(Run(setup, INITIAL, actions[..n]), t)
  {
    hide InSync, Breaks, Next;
    if n == 0 {
      SyncStart(t);
    } else {
      SyncUpTo(setup, actions, t, n - 1);
      RunStep(setup, actions, n - 1);
      SyncStep(setup, Run(setup, INITIAL, actions[..n - 1]), actions[n - 1], t);
    }
  }

  /** With one sink, cache and sink agree all through a run exactly when no call of the run breaks them apart. */
  lemma {:induction false} OneSinkExactly(setup: Setup, actions: seq<Action>, t: Topic)
    requires setup.mqtt != setup.http
    ensures (forall n :: 0 <= n <= |actions| ==> InSync(Run(setup, INITIAL, actions[..n]), t))
       <==> (forall n :: 0 <= n < |actions| ==> !Breaks(setup, Run(setup, INITIAL, actions[..n]), actions[n], t))
  {
    hide InSync, Breaks, Next, Run;
    if forall n :: 0 <= n <= |actions| ==> InSync(Run(setup, INITIAL, actions[..n]), t) {
      forall n | 0 <= n < |actions| ensures !Breaks(setup, Run(setup, INITIAL, actions[..n]), actions[n], t) {
        assert InSync(Run(setup, INITIAL, actions[..n]), t) && InSync(Run(setup, INITIAL, actions[..n + 1]), t);
        RunStep(setup, actions, n);
        SyncStep(setup, Run(setup, INITIAL, actions[..n]), actions[n], t);
      }
    }
    if forall n :: 0 <= n < |actions| ==> !Breaks(setup, Run(setup, INITIAL, actions[..n]), actions[n], t) {
      forall n | 0 <= n <= |actions| ensures InSync(Run(setup, INITIAL, actions[..n]), t) {
        SyncUpTo(setup, actions, t, n);
      }
    }
  }

  lemma SyncStart(t: Topic)
    ensures InSync(INITIAL, t) && Listening(INITIAL.mqtt, t)
  {
  }

  /** A switch that has been discovered has its listener recorded. */
  predicate Listening(m: Mqtt, t: Topic) {
    IsSwitch(t) && t in m.sensors ==> t in m.listeners
  }

  /** No `subscribe` of the run raised for the topic. */
  predicate Subscribes(actions: seq<Action>, t: Topic) {
    forall k :: 0 <= k < |actions| ==> actions[k].Log? && actions[k].topic == t ==> !actions[k].env.first.Raises?
  }

  /** A publish forgets no listener, and discovers a switch with its listener unless the subscribe raises. */
  lemma PublishedListening(m: Mqtt, t: Topic, refresh: bool, e: Env, other: Topic)
    requires Listening(m, other) && (other == t && IsSwitch(t) ==> !e.first.Raises?)
    ensures Listening(Published(m, t, refresh, e).0, other)
  {
    hide Contains;
  }

  /** With one sink the cache equals what that sink shows, in every run where the topic's listener could be created. */
  lemma {:induction false} OneSinkInSync(setup: Setup, actions: seq<Action>, t: Topic)
    requires setup.mqtt != setup.http && (IsSwitch(t) && setup.mqtt ==> Subscribes(actions, t))
    ensures
      var s := Run(setup, INITIAL, actions);
      Cached(s, t) == Shown(t, s.sends) && (setup.mqtt ==> Listening(s.mqtt, t))
  {
    hide IsSwitch, Shown, Cached, Published, Listening;
    if actions == [] {
      SyncStart(t);
    } else {
      var init, a := actions[..|actions| - 1], actions[|actions| - 1];
      assert IsSwitch(t) && setup.mqtt ==> Subscribes(init, t);
      OneSinkInSync(setup, init, t);
      var s := Run(setup, INITIAL, init);
      SyncStep(setup, s, a, t);
      ListeningHolds(setup, s, a, t);
    }
  }

  lemma ListeningHolds(setup: Setup, s: State, a: Action, t: Topic)
    requires setup.mqtt ==> Listening(s.mqtt, t)
    requires IsSwitch(t) && setup.mqtt && a.Log? && a.topic == t ==> !a.env.first.Raises?
    ensures !Breaks(setup, s, a, t)
    ensures setup.mqtt ==> Listening(Next(setup, s, a).mqtt, t)
  {
    hide IsSwitch, Published;
    if a.Log? && setup.mqtt {
      PublishedListening(s.mqtt, a.topic, CellOf(s, a.topic, a.env.ts).value == a.reading, a.env, t);
    }
  }

  /**
   Discovered without a recorded listener, and nothing ever delivered: where a failed first
   subscribe leaves a switch.
   */
  predicate Dark(s: State, t: Topic) {
    IsSwitch(t) && t in s.mqtt.sensors && t !in s.mqtt.listeners && Cached(s, t) == Nothing
  }

  /** No reading of the topic has been logged. */
  predicate Unlogged(actions: seq<Action>, t: Topic) {
    forall k :: 0 <= k < |actions| && actions[k].Log? ==> actions[k].topic != t
  }

  lemma {:induction false} UnloggedIsUnknown(setup: Setup, actions: seq<Action>, t: Topic)
    requires Unlogged(actions, t)
    ensures
      var s := Run(setup, INITIAL, actions);
      t !in s.cells && t !in s.mqtt.sensors && t !in s.mqtt.listeners
  {
    hide Published;
    if actions != [] {
      var init, a := actions[..|actions| - 1], actions[|actions| - 1];
      UnloggedIsUnknown(setup, init, t);
      var s := Run(setup, INITIAL, init);
      if a.Log? {
        PublishedOnly(s.mqtt, a.topic, CellOf(s, a.topic, a.env.ts).value == a.reading, a.env, t);
      }
    }
  }

  /** Publishing one topic records nothing for another. */
  lemma PublishedOnly(m: Mqtt, t: Topic, refresh: bool, e: Env, other: Topic)
    requires other != t
    ensures
      var u := Published(m, t, refresh, e).0;
      (other in u.sensors <==> other in m.sensors) && (other in u.listeners <==> other in m.listeners)
  {
    hide IsSwitch, ConfigDue;
  }

  /**
   After any run, a first reading of a switch whose subscribe raises leaves it dark, whatever the
   broker made of the value.
   */
  lemma {:induction false} FailedSubscribeDarkens(setup: Setup, actions: seq<Action>, t: Topic, r: Reading, e: Env)
    requires setup.mqtt && IsSwitch(t) && r != Nothing && Unlogged(actions, t)
    requires e.first.Raises? && !e.config.Fails?
    ensures Dark(Run(setup, INITIAL, actions + [Log(t, r, e)]), t)
  {
    hide IsSwitch;
    UnloggedIsUnknown(setup, actions, t);
    assert (actions + [Log(t, r, e)])[..|actions|] == actions;
  }

  /**
   A dark switch stays dark whatever else happens, and every later reading of it raises before the
   HTTP sink sees it.
   */
  lemma {:induction false} DarkForEver(setup: Setup, s: State, later: seq<Action>, t: Topic, r: Reading, e: Env)
    requires setup.mqtt && Dark(s, t) && r != Nothing
    requires forall k :: 0 <= k < |later| ==> later[k].Log? && later[k].topic == t ==> later[k].reading != Nothing
    ensures
      var u := Run(setup, s, later);
      && Dark(u, t)
      && |Logged(setup, u, t, r, e).sends| == |u.sends| + 1
      && var send := Logged(setup, u, t, r, e).sends[|u.sends|]; send.raised && send.http.NotAsked?
  {
    hide IsSwitch;
    if later != [] {
      DarkForEver(setup, s, later[..|later| - 1], t, r, e);
      DarkStep(setup, Run(setup, s, later[..|later| - 1]), later[|later| - 1], t);
    }
  }

  lemma DarkStep(setup: Setup, s: State, a: Action, t: Topic)
    requires setup.mqtt && Dark(s, t) && (a.Log? && a.topic == t ==> a.reading != Nothing)
    ensures Dark(Next(setup, s, a), t)
  {
    hide IsSwitch, Published;
    if a.Log? {
      PublishedDark(s.mqtt, a.topic, CellOf(s, a.topic, a.env.ts).value == a.reading, a.env, t);
    }
  }

  /**
   Without a timed resend the listener of a discovered switch is not created again, and publishing
   the switch raises.
   */
  lemma PublishedDark(m: Mqtt, t: Topic, refresh: bool, e: Env, other: Topic)
    requires IsSwitch(other) && other in m.sensors && other !in m.listeners && (other == t ==> !refresh)
    ensures
      var (u, verdict, raised) := Published(m, t, refresh, e);
      other in u.sensors && other !in u.listeners && (other == t ==> raised)
  {
    hide Contains;
  }

  // ------------------------------------------------- discovery

  /** Configs of one topic keep the republish interval, and the recorded time is never before the last of them. */
  ghost predicate ConfigInv(m: Mqtt) {
    && (forall i :: 0 <= i < |m.configs| ==>
          m.configs[i].topic in m.sensors && m.configs[i].at <= m.sensors[m.configs[i].topic])
    && (forall i, j :: 0 <= i < j < |m.configs| && m.configs[i].topic == m.configs[j].topic ==>
          m.configs[j].at - m.configs[i].at >= DISCOVERY_REPUBLISH_SECONDS)
  }

  /** The monotonic clock does not run backwards within a call. */
  predicate Ordered(e: Env) {
    e.mono <= e.configAt <= e.stored
  }

  lemma ConfigStep(m: Mqtt, t: Topic, refresh: bool, e: Env)
    requires ConfigInv(m) && Ordered(e)
    ensures ConfigInv(Published(m, t, refresh, e).0)
  {
    hide IsSwitch, Listen, ConfigInv, Discovered;
    if ConfigDue(m, t, refresh, e.mono) {
      DiscoveredConfigs(m, t, refresh, e);
    }
    var u := if ConfigDue(m, t, refresh, e.mono) then Discovered(m, t, e) else m;
    ListenConfigs(u, t, e.again, e.renewed);
  }

  lemma ListenConfigs(m: Mqtt, t: Topic, outcome: Subscribing, now: real)
    ensures ConfigInv(m) ==> ConfigInv(Listen(m, t, outcome, now))
  {
  }

  lemma DiscoveredConfigs(m: Mqtt, t: Topic, refresh: bool, e: Env)
    requires ConfigInv(m) && Ordered(e) && ConfigDue(m, t, refresh, e.mono)
    ensures ConfigInv(Discovered(m, t, e))
  {
    hide IsSwitch;
  }

  /** In every run two configs of a topic are at least the republish interval apart. */
  lemma {:induction false} ConfigsApart(setup: Setup, actions: seq<Action>)
    requires forall k :: 0 <= k < |actions| && actions[k].Log? ==> Ordered(actions[k].env)
    ensures ConfigInv(Run(setup, INITIAL, actions).mqtt)
  {
    hide Published;
    if actions != [] {
      var init, a := actions[..|actions| - 1], actions[|actions| - 1];
      ConfigsApart(setup, init);
      var s := Run(setup, INITIAL, init);
      if a.Log? {
        ConfigStep(s.mqtt, a.topic, CellOf(s, a.topic, a.env.ts).value == a.reading, a.env);
      }
    }
  }

  /** When the configs of a topic were queued. */
  function Times(configs: seq<Config>, t: Topic): seq<real> {
    if configs == [] then []
    else
      var n := |configs| - 1;
      Times(configs[..n], t) + if configs[n].topic == t then [configs[n].at] else []
  }

  lemma TimesSnoc(configs: seq<Config>, c: Config, t: Topic)
    ensures Times(configs + [c], t) == Times(configs, t) + if c.topic == t then [c.at] else []
  {
    assert (configs + [c])[..|configs|] == configs;
  }

  /** The configs a run has queued are those of the topics recorded, each at a time some call has seen. */
  ghost predicate Recorded(m: Mqtt, t: Topic, lo: real, hi: real) {
    && (t in m.sensors <==> Times(m.configs, t) != [])
    && forall k :: 0 <= k < |Times(m.configs, t)| ==> lo <= Times(m.configs, t)[k] <= hi
  }

  /** Spaced as configs are, whatever topics lie between. */
  ghost predicate Spaced(ts: seq<real>) {
    forall j, k :: 0 <= j < k < |ts| ==> ts[k] - ts[j] >= DISCOVERY_REPUBLISH_SECONDS
  }

  lemma PublishedRecorded(m: Mqtt, t: Topic, refresh: bool, e: Env, other: Topic, lo: real, hi: real)
    requires Recorded(m, other, lo, hi) && lo <= e.configAt <= hi
    ensures Recorded(Published(m, t, refresh, e).0, other, lo, hi)
  {
    hide IsSwitch, Times;
    TimesSnoc(m.configs, Config(t, e.configAt), other);
  }

  lemma {:induction false} RunRecorded(setup: Setup, actions: seq<Action>, t: Topic, lo: real, hi: real)
    requires forall k :: 0 <= k < |actions| && actions[k].Log? ==> lo <= actions[k].env.configAt <= hi
    ensures Recorded(Run(setup, INITIAL, actions).mqtt, t, lo, hi)
  {
    hide Published, Times;
    if actions == [] {
      assert Times([], t) == [] by { NoTimes(t); }
    } else {
      var init, a := actions[..|actions| - 1], actions[|actions| - 1];
      RunRecorded(setup, init, t, lo, hi);
      var s := Run(setup, INITIAL, init);
      if a.Log? {
        PublishedRecorded(s.mqtt, a.topic, CellOf(s, a.topic, a.env.ts).value == a.reading, a.env, t, lo, hi);
      }
    }
  }

  lemma NoTimes(t: Topic)
    ensures Times([], t) == []
  {
  }

  lemma {:induction false} TimesSpaced(configs: seq<Config>, t: Topic)
    requires forall i, j :: 0 <= i < j < |configs| && configs[i].topic == configs[j].topic ==>
      configs[j].at - configs[i].at >= DISCOVERY_REPUBLISH_SECONDS
    ensures forall at :: at in Times(configs, t) ==> Config(t, at) in configs
    ensures Spaced(Times(configs, t))
  {
    if configs != [] {
      var n := |configs| - 1;
      var init, last := configs[..n], configs[n];
      TimesSpaced(init, t);
      assert configs == init + [last];
      TimesSnoc(init, last, t);
      hide Times, Spaced;
      forall at | at in Times(init, t) ensures last.topic == t ==> last.at - at >= DISCOVERY_REPUBLISH_SECONDS {
        var i :| 0 <= i < n && init[i] == Config(t, at);
        assert configs[i] == init[i];
      }
      if last.topic == t {
        SpacedSnoc(Times(init, t), last.at);
      }
    }
  }

  lemma SpacedSnoc(ts: seq<real>, at: real)
    requires Spaced(ts) && forall before :: before in ts ==> at - before >= DISCOVERY_REPUBLISH_SECONDS
    ensures Spaced(ts + [at])
  {
    var us := ts + [at];
    forall j, k | 0 <= j < k < |us| ensures us[k] - us[j] >= DISCOVERY_REPUBLISH_SECONDS {
      assert us[j] == ts[j] && ts[j] in ts;
    }
  }

  lemma {:induction false} SpacedSpan(ts: seq<real>)
    requires ts != [] && Spaced(ts)
    ensures (|ts| - 1) as real * DISCOVERY_REPUBLISH_SECONDS <= ts[|ts| - 1] - ts[0]
  {
    if |ts| > 1 {
      var init := ts[..|ts| - 1];
      SpacedSpan(init);
      assert (|ts| - 1) as real == (|init| - 1) as real + 1.0;
    }
  }

  /**
   How often: a run whose configs fall into a span of time queues at most one per topic, and one
   more per full interval of it.
   */
  lemma {:induction false} ConfigRate(setup: Setup, actions: seq<Action>, t: Topic, lo: real, hi: real)
    requires lo <= hi
    requires forall k :: 0 <= k < |actions| && actions[k].Log? ==>
      Ordered(actions[k].env) && lo <= actions[k].env.configAt <= hi
    ensures
      var n := |Times(Run(setup, INITIAL, actions).mqtt.configs, t)|;
      (n - 1) as real * DISCOVERY_REPUBLISH_SECONDS <= hi - lo
  {
    hide Run, Times;
    ConfigsApart(setup, actions);
    RunRecorded(setup, actions, t, lo, hi);
    var m := Run(setup, INITIAL, actions).mqtt;
    TimesSpaced(m.configs, t);
    if Times(m.configs, t) != [] {
      SpacedSpan(Times(m.configs, t));
    }
  }

  /**
   When: a call queues a config exactly if it sends and no config of the topic has been queued in the
   run, or it resends an old value and the interval has passed since the time recorded for the last one.
   */
  lemma {:induction false} RepublishedExactly(setup: Setup, actions: seq<Action>, t: Topic, r: Reading, e: Env)
    requires setup.mqtt && !e.config.Fails?
    ensures
      var s := Run(setup, INITIAL, actions);
      var before, after := Times(s.mqtt.configs, t), Times(Logged(setup, s, t, r, e).mqtt.configs, t);
      && (t in s.mqtt.sensors <==> before != [])
      && after == (if Attempts(setup, s, t, r, e)
                      && (before == []
                          || (Cached(s, t) == r && e.mono - s.mqtt.sensors[t] >= DISCOVERY_REPUBLISH_SECONDS))
                   then before + [e.configAt] else before)
  {
    hide IsSwitch, Times, Run;
    var lo, hi := Earliest(actions), Latest(actions);
    RunRecorded(setup, actions, t, lo, hi);
    TimesSnoc(Run(setup, INITIAL, actions).mqtt.configs, Config(t, e.configAt), t);
  }

  /** Bounds on the times of a run. */
  function Earliest(actions: seq<Action>): (lo: real)
    ensures forall k :: 0 <= k < |actions| && actions[k].Log? ==> lo <= actions[k].env.configAt
  {
    if actions == [] then 0.0
    else
      var a, lo := actions[|actions| - 1], Earliest(actions[..|actions| - 1]);
      if a.Log? && a.env.configAt < lo then a.env.configAt else lo
  }

  function Latest(actions: seq<Action>): (hi: real)
    ensures forall k :: 0 <= k < |actions| && actions[k].Log? ==> actions[k].env.configAt <= hi
  {
    if actions == [] then 0.0
    else
      var a, hi := actions[|actions| - 1], Latest(actions[..|actions| - 1]);
      if a.Log? && a.env.configAt > hi then a.env.configAt else hi
  }

  // ------------------------------------------------- subscriptions

  /** Every switch that was discovered has its set topic registered; only switches do; the broker serves no other. */
  ghost predicate CommandInv(m: Mqtt) {
    && (forall t :: t in m.sensors && IsSwitch(t) ==> t in m.commands)
    && (forall t :: t in m.commands ==> IsSwitch(t) && t in m.sensors && t.device in m.sets)
    && m.subs <= m.commands
  }

  /** Every value the broker saw belongs to a topic that had its config. */
  ghost predicate SeenInv(sends: seq<Send>, sensors: map<Topic, real>) {
    forall k :: 0 <= k < |sends| && !sends[k].mqtt.NotAsked? ==> sends[k].topic in sensors
  }

  ghost predicate TopicInv(s: State) {
    CommandInv(s.mqtt) && SeenInv(s.sends, s.mqtt.sensors)
  }

  lemma ListenCommands(m: Mqtt, t: Topic, outcome: Subscribing, now: real)
    requires CommandInv(m) && IsSwitch(t) && t in m.sensors
    ensures CommandInv(Listen(m, t, outcome, now))
  {
    hide IsSwitch;
  }

  lemma DiscoveredCommands(m: Mqtt, t: Topic, e: Env)
    requires CommandInv(m)
    ensures CommandInv(Discovered(m, t, e))
  {
    hide IsSwitch;
  }

  lemma PublishedCommands(m: Mqtt, t: Topic, refresh: bool, e: Env)
    requires CommandInv(m)
    ensures CommandInv(Published(m, t, refresh, e).0)
  {
    hide IsSwitch, CommandInv, Listen;
    DiscoveredCommands(m, t, e);
    var u := if ConfigDue(m, t, refresh, e.mono) then Discovered(m, t, e) else m;
    if IsSwitch(t) {
      ListenCommands(u, t, e.again, e.renewed);
    }
  }

  lemma PublishedSeen(m: Mqtt, t: Topic, refresh: bool, e: Env)
    ensures
      var (u, verdict, raised) := Published(m, t, refresh, e);
      m.sensors.Keys <= u.sensors.Keys && (!verdict.NotAsked? ==> t in u.sensors)
  {
    hide IsSwitch;
  }

  lemma TopicStep(setup: Setup, s: State, a: Action)
    requires TopicInv(s)
    ensures TopicInv(Next(setup, s, a))
  {
    hide Published;
    if a.Log? && Attempts(setup, s, a.topic, a.reading, a.env) {
      hide CommandInv;
      var refresh := CellOf(s, a.topic, a.env.ts).value == a.reading;
      PublishedCommands(s.mqtt, a.topic, refresh, a.env);
      PublishedSeen(s.mqtt, a.topic, refresh, a.env);
    }
  }

  /** The registered set topics are those of the switches published, and the broker never serves any other. */
  lemma {:induction false} SwitchesRegistered(setup: Setup, actions: seq<Action>)
    ensures TopicInv(Run(setup, INITIAL, actions))
  {
    hide TopicInv, Next;
    if actions == [] {
      TopicStart();
    } else {
      SwitchesRegistered(setup, actions[..|actions| - 1]);
      TopicStep(setup, Run(setup, INITIAL, actions[..|actions| - 1]), actions[|actions| - 1]);
    }
  }

  lemma TopicStart()
    ensures TopicInv(INITIAL)
  {
  }

  /**
   However often the broker forgot them, once on_connect has ended the subscriptions are the
   registered topics but the refused ones, and logging with working subscribes keeps it so.
   */
  lemma {:induction false} SubscriptionsRestored(
    setup: Setup, actions: seq<Action>, refused: set<Topic>, later: seq<Action>)
    requires forall k :: 0 <= k < |later| ==>
      later[k].Log? && later[k].env.first.Subscribed? && later[k].env.again.Subscribed?
    ensures
      var m := Run(setup, Run(setup, INITIAL, actions + [OnConnect(refused)]), later).mqtt;
      m.commands - refused <= m.subs <= m.commands && (refused == {} ==> m.subs == m.commands)
  {
    hide Published;
    if later == [] {
      assert (actions + [OnConnect(refused)])[..|actions|] == actions;
    } else {
      var init, a := later[..|later| - 1], later[|later| - 1];
      SubscriptionsRestored(setup, actions, refused, init);
      var s := Run(setup, Run(setup, INITIAL, actions + [OnConnect(refused)]), init);
      PublishedSubscribes(s.mqtt, a.topic, CellOf(s, a.topic, a.env.ts).value == a.reading, a.env);
    }
  }

  /** New set topics come with their subscriptions. */
  lemma PublishedSubscribes(m: Mqtt, t: Topic, refresh: bool, e: Env)
    requires e.first.Subscribed? && e.again.Subscribed? && m.subs <= m.commands
    ensures
      var u := Published(m, t, refresh, e).0;
      m.commands <= u.commands && m.subs <= u.subs <= u.commands && u.commands - m.commands <= u.subs
  {
    hide IsSwitch;
  }

  /** A call that asks the broker for the topic with success. */
  predicate AsksFor(a: Action, t: Topic) {
    match a
    case Log(topic, _, e) => topic == t && (e.first.Subscribed? || e.again.Subscribed?)
    case OnConnect(refused) => t !in refused
    case Disconnect => false
  }

  /** In every run the broker serves only topics it was asked for since it last forgot them. */
  lemma {:induction false} ServedOnlyIfAsked(setup: Setup, actions: seq<Action>, t: Topic) returns (k: nat)
    requires t in Run(setup, INITIAL, actions).mqtt.subs
    ensures k < |actions| && AsksFor(actions[k], t) && forall j :: k < j < |actions| ==> actions[j] != Disconnect
  {
    hide Published;
    var init, a := actions[..|actions| - 1], actions[|actions| - 1];
    var s := Run(setup, INITIAL, init);
    if AsksFor(a, t) {
      k := |actions| - 1;
    } else {
      if a.Log? {
        PublishedAsks(s.mqtt, a.topic, CellOf(s, a.topic, a.env.ts).value == a.reading, a.env);
      }
      k := ServedOnlyIfAsked(setup, init, t);
    }
  }

  /** A publish subscribes nothing but its own topic, and that only when a subscribe is taken. */
  lemma PublishedAsks(m: Mqtt, t: Topic, refresh: bool, e: Env)
    ensures Published(m, t, refresh, e).0.subs
         <= m.subs + if e.first.Subscribed? || e.again.Subscribed? then {t} else {}
  {
    hide IsSwitch;
  }

  /**
   Publishing a discovered switch subscribes it again exactly when its listener is over 300 seconds
   old: a lost subscription comes back.
   */
  lemma {:induction false} SubscriptionHeals(m: Mqtt, t: Topic, e: Env)
    requires IsSwitch(t) && t in m.sensors && t in m.listeners && !e.state.Fails? && e.again.Subscribed?
    requires e.renewed >= e.wall
    ensures
      var u := Published(m, t, false, e).0;
      && (t in u.subs <==> t in m.subs || e.wall - m.listeners[t] > 300.0)
      && t in u.listeners && e.wall - u.listeners[t] <= 300.0
  {
    hide Contains;
  }

  /**
   The smallest run that parts cache and sink: the first reading of a switch, accepted by the
   broker while its subscribe raises.
   */
  lemma {:induction false} OneSinkFails(e: Env)
    requires e.first.Raises? && e.config.Queued? && e.state.Queued?
    ensures
      var t := Topic("regulator", "power_switch");
      var s := Run(Setup(true, false, 600.0), INITIAL, [Log(t, Text("ON"), e)]);
      Cached(s, t) == Nothing && Shown(t, s.sends) == Text("ON") && Dark(s, t)
  {
    var t := Topic("regulator", "power_switch");
    var setup := Setup(true, false, 600.0);
    assert Run(setup, INITIAL, [Log(t, Text("ON"), e)]) == Logged(setup, INITIAL, t, Text("ON"), e);
    assert IsSwitch(t) by { assert "power_switch" <= t.variable; }
    hide IsSwitch;
    ShownSnoc(t, [], Send(t, Text("ON"), e.ts, Accepted, NotAsked, true));
  }

  // ------------------------------------------------- the objects

  /** An MQTT client with the calls of the source, its broker and the outcomes given by the environment. */
  class DataLoggerMqtt {
    var sensors: map<Topic, real>
    var commandTopics: set<Topic>
    var listenerCreated: map<Topic, real>
    var sets: set<string>
    var subscriptions: set<Topic>
    var configs: seq<Config>

    function Value(): Mqtt
      reads this
    {
      Mqtt(sensors, commandTopics, listenerCreated, sets, subscriptions, configs)
    }

    constructor ()
      ensures Value() == INITIAL.mqtt
    {
      sensors, commandTopics, listenerCreated, sets, subscriptions, configs := map[], {}, map[], {}, {}, [];
    }

    method CreateListener(t: Topic, outcome: Subscribing, now: real)
      modifies this
      ensures Value() == Listen(old(Value()), t, outcome, now)
    {
      commandTopics := commandTopics + {t};
      if outcome.Subscribed? {
        subscriptions := subscriptions + {t};
      }
      if !outcome.Raises? {
        listenerCreated := listenerCreated[t := now];
      }
      sets := sets + {t.device};
    }

    /** raised: the call ends with an exception, and the verdict is what the broker had said by then. */
    method Publish(t: Topic, refresh: bool, e: Env) returns (verdict: Verdict, raised: bool)
      modifies this
      ensures (Value(), verdict, raised) == Published(old(Value()), t, refresh, e)
    {
      hide Contains;
      if ConfigDue(Value(), t, refresh, e.mono) {
        if e.config.Fails? {
          return NotAsked, true;
        }
        configs := configs + [Config(t, e.configAt)];
        if IsSwitch(t) {
          CreateListener(t, e.first, e.created);
        }
        sensors := sensors[t := e.stored];
      }
      if e.state.Fails? {
        return NotAsked, true;
      }
      verdict := if e.state.Queued? then Accepted else Refused;
      if IsSwitch(t) {
        if t !in listenerCreated {
          return verdict, true;
        }
        if e.wall > listenerCreated[t] + LISTENER_SECONDS {
          CreateListener(t, e.again, e.renewed);
        }
      }
      return verdict, false;
    }

    /** The broker comes back without subscriptions; each set topic is subscribed again, in any order. */
    method OnConnect(refused: set<Topic>)
      modifies this
      ensures Value() == old(Value()).(subs := old(commandTopics) - refused)
    {
      subscriptions := {};
      var todo := commandTopics;
      while todo != {}
        modifies `subscriptions
        invariant todo <= commandTopics
        invariant subscriptions == commandTopics - todo - refused
        decreases |todo|
      {
        var t :| t in todo;
        if t !in refused {
          subscriptions := subscriptions + {t};
        }
        todo := todo - {t};
      }
    }
  }

  class DataLogger {
    const setup: Setup
    const mqtt: DataLoggerMqtt
    var logdata: map<Topic, Cell>
    /** The sends so far. */
    var sends: seq<Send>

    function Value(): State
      reads this, mqtt
    {
      State(logdata, mqtt.Value(), sends)
    }

    constructor (setup: Setup)
      ensures this.setup == setup && Value() == INITIAL && fresh(mqtt)
    {
      this.setup := setup;
      mqtt := new DataLoggerMqtt();
      logdata := map[];
      sends := [];
    }

    method SendToServer(t: Topic, r: Reading, refresh: bool, e: Env) returns (send: Send)
      modifies mqtt
      ensures (mqtt.Value(), send) == Sent(setup, old(mqtt.Value()), t, r, refresh, e)
    {
      hide Published;
      var verdict, raised := NotAsked, false;
      if setup.mqtt {
        verdict, raised := mqtt.Publish(t, refresh, e);
      }
      var http := NotAsked;
      if !raised && setup.http {
        http := if e.post then Accepted else Refused;
      }
      send := Send(t, r, e.ts, verdict, http, raised);
    }

    method Log(t: Topic, r: Reading, e: Env)
      modifies this, mqtt
      ensures Value() == Logged(setup, old(Value()), t, r, e)
    {
      hide Sent;
      if t !in logdata {
        logdata := logdata[t := Cell(e.ts, Nothing)];
      }
      assert logdata[t] == CellOf(old(Value()), t, e.ts);
      if logdata[t].value != r {
        var send := SendToServer(t, r, false, e);
        sends := sends + [send];
        if Full(send) {
          logdata := logdata[t := Cell(e.ts, r)];
        }
      } else if logdata[t].ts < e.later - setup.refresh {
        var send := SendToServer(t, r, true, e);
        sends := sends + [send];
        if Full(send) {
          logdata := logdata[t := Cell(e.ts, r)];
        }
      }
    }
  }
}
