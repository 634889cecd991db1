/** MQTT topics of commands: how they are built (datalogger.py, create_listener) and taken apart (on_message). */
module Topics {
  import opened Common

  /** Python's `s.split("/")`. */
  function Split(s: string): (parts: seq<string>)
    ensures |parts| > 0
  {
    if s == "" then [""]
    else
      var parts := Split(s[1..]);
      if s[0] == '/' then [""] + parts else [[s[0]] + parts[0]] + parts[1..]
  }

  /** The stored prefix always ends with a slash. */
  function Prefix(prefix: string): string {
    if prefix != "" && prefix[|prefix| - 1] == '/' then prefix else prefix + "/"
  }

  /** It is the given one, or that with one slash behind it, and storing it again changes nothing. */
  lemma {:induction false} PrefixOnce(prefix: string)
    ensures
      var p := Prefix(prefix);
      && prefix <= p && |p| <= |prefix| + 1 && p[|p| - 1] == '/' && Prefix(p) == p
  {
  }

  function SetTopic(prefix: string, device: string, variable: string): string {
    Prefix(prefix) + device + "/" + variable + "/set"
  }

  /** The device and the variable a command topic names. */
  function Route(topic: string): Option<(string, string)> {
    var parts := Split(topic);
    if |parts| < 4 then None else Some((parts[|parts| - 3], parts[|parts| - 2]))
  }

  lemma {:induction false} SplitAtSlash(a: string, b: string)
    ensures Split(a + "/" + b) == Split(a) + Split(b)
  {
    if a == "" {
      assert (a + "/" + b)[1..] == b;
    } else {
      assert (a + "/" + b)[1..] == a[1..] + "/" + b;
      SplitAtSlash(a[1..], b);
    }
  }

  lemma {:induction false} PartsHaveNoSlash(s: string, k: nat)
    requires k < |Split(s)|
    ensures '/' !in Split(s)[k]
  {
    if s != "" {
      if k > 0 || s[0] == '/' {
        PartsHaveNoSlash(s[1..], if s[0] == '/' && k > 0 then k - 1 else k);
      } else {
        PartsHaveNoSlash(s[1..], 0);
      }
    }
  }

  lemma {:induction false} OnePart(s: string)
    requires '/' !in s
    ensures Split(s) == [s]
  {
    if s != "" {
      OnePart(s[1..]);
      assert [s[0]] + s[1..] == s;
    }
  }

  /** The parts with a slash between each two. */
  function Join(parts: seq<string>): string {
    if parts == [] then ""
    else if |parts| == 1 then parts[0]
    else parts[0] + "/" + Join(parts[1..])
  }

  lemma {:induction false} JoinOfSplit(s: string)
    ensures Join(Split(s)) == s
  {
    if s != "" {
      JoinOfSplit(s[1..]);
      var parts := Split(s[1..]);
      if s[0] == '/' {
        assert ([""] + parts)[1..] == parts;
        assert "" + "/" + s[1..] == s;
      } else {
        assert Split(s)[1..] == parts[1..];
        assert [s[0]] + s[1..] == s;
        if |parts| > 1 {
          assert [s[0]] + (parts[0] + "/" + Join(parts[1..])) == ([s[0]] + parts[0]) + "/" + Join(parts[1..]);
        }
      }
    }
  }

  lemma {:induction false} JoinConcat(a: seq<string>, b: seq<string>)
    requires a != [] && b != []
    ensures Join(a + b) == Join(a) + "/" + Join(b)
  {
    if |a| == 1 {
      assert (a + b)[1..] == b;
    } else {
      assert (a + b)[1..] == a[1..] + b;
      JoinConcat(a[1..], b);
      assert a[0] + "/" + (Join(a[1..]) + "/" + Join(b)) == (a[0] + "/" + Join(a[1..])) + "/" + Join(b);
    }
  }

  /** The topic ends in the device, the variable and one more level, in this order and whatever comes before. */
  ghost predicate Names(topic: string, device: string, variable: string) {
    '/' !in device && '/' !in variable
    && exists head, last :: '/' !in last && topic == head + "/" + device + "/" + variable + "/" + last
  }

  /** A topic is routed exactly to the device and the variable it names. */
  lemma {:induction false} RouteExactly(topic: string, device: string, variable: string)
    ensures Route(topic) == Some((device, variable)) <==> Names(topic, device, variable)
  {
    hide Split, Join;
    if Names(topic, device, variable) {
      var head, last :| '/' !in last && topic == head + "/" + device + "/" + variable + "/" + last;
      NamedParts(head, device, variable, last);
    }
    if Route(topic) == Some((device, variable)) {
      hide Names;
      RoutedIsNamed(topic, device, variable);
    }
  }

  lemma RoutedIsNamed(topic: string, device: string, variable: string)
    requires Route(topic) == Some((device, variable))
    ensures Names(topic, device, variable)
  {
    hide Split, Join;
    var parts := Split(topic);
    var n := |parts|;
    PartsHaveNoSlash(topic, n - 3);
    PartsHaveNoSlash(topic, n - 2);
    PartsHaveNoSlash(topic, n - 1);
    JoinOfSplit(topic);
    var head, last := parts[..n - 3], parts[n - 1];
    assert parts == head + [device, variable, last];
    JoinConcat(head, [device, variable, last]);
    JoinThree(device, variable, last);
    FourLevels(Join(head), device, variable, last);
  }

  lemma JoinThree(a: string, b: string, c: string)
    ensures Join([a, b, c]) == a + "/" + (b + "/" + c)
  {
    assert [a, b, c][1..] == [b, c] && [b, c][1..] == [c];
    assert Join([c]) == c;
    assert Join([b, c]) == b + "/" + c;
  }

  lemma Regroup(a: string, b: string, c: string)
    ensures a + (b + c) == a + b + c
  {
  }

  lemma FourLevels(a: string, b: string, c: string, d: string)
    ensures a + "/" + (b + "/" + (c + "/" + d)) == a + "/" + b + "/" + c + "/" + d
  {
    Regroup(c, "/", d);
    Regroup(b + "/", c + "/", d);
    Regroup(a + "/", b + "/" + c + "/", d);
    Regroup(a + "/", b + "/" + c, "/");
    Regroup(a + "/", b + "/", c);
    Regroup(a + "/", b, "/");
    Regroup(b + "/", c, "/");
  }

  lemma NamedParts(head: string, device: string, variable: string, last: string)
    requires '/' !in device && '/' !in variable && '/' !in last
    ensures Split(head + "/" + device + "/" + variable + "/" + last) == Split(head) + [device, variable, last]
  {
    hide Split;
    FourLevels(head, device, variable, last);
    SplitAtSlash(head, device + "/" + (variable + "/" + last));
    SplitAtSlash(device, variable + "/" + last);
    SplitAtSlash(variable, last);
    OnePart(device);
    OnePart(variable);
    OnePart(last);
    assert [device] + ([variable] + [last]) == [device, variable, last];
  }

  lemma SetTopicParts(prefix: string, device: string, variable: string)
    ensures exists head: seq<string> ::
      |head| > 0 && Split(SetTopic(prefix, device, variable)) == head + Split(device) + Split(variable) + ["set"]
  {
    hide Split;
    var p := Prefix(prefix);
    var h := p[..|p| - 1];
    var tail := variable + "/" + "set";
    assert SetTopic(prefix, device, variable) == h + "/" + (device + "/" + tail);
    SplitAtSlash(h, device + "/" + tail);
    SplitAtSlash(device, tail);
    SplitAtSlash(variable, "set");
    OnePart("set");
    assert Split(SetTopic(prefix, device, variable)) == Split(h) + Split(device) + Split(variable) + ["set"];
  }

  /** A subscribed topic is routed back to its device and variable exactly when neither holds a slash. */
  lemma {:induction false} SubscribedTopicRoutesBack(prefix: string, device: string, variable: string)
    ensures Route(SetTopic(prefix, device, variable)) == Some((device, variable))
       <==> '/' !in device && '/' !in variable
  {
    hide Split;
    var parts := Split(SetTopic(prefix, device, variable));
    SetTopicParts(prefix, device, variable);
    if '/' !in device && '/' !in variable {
      OnePart(device);
      OnePart(variable);
    } else {
      PartsHaveNoSlash(SetTopic(prefix, device, variable), |parts| - 3);
      PartsHaveNoSlash(SetTopic(prefix, device, variable), |parts| - 2);
    }
  }
}

/**
 How MQTT commands pass from the network thread (datalogger.py, on_message) to the
 devices (ble.py, command_bridge). The two threads share the lists of `mqtt.sets` by
 reference, so lists live in a heap here and `sets` holds references to them.
 Looking a list up and appending to it is one step; so is every other access to a
 shared dictionary, list or event.
 */
module Bridge {
  import opened Common
  import opened Topics

  datatype Name = Name(text: string)

  /** watched: the trigger of the device was registered when the command arrived. */
  datatype Cmd = Cmd(variable: string, payload: string, watched: bool)

  datatype Msg = Msg(name: Name, cmd: Cmd)

  /** on_message after its append: about to look the trigger up, or about to set the event it found. */
  datatype Sender = Idle | Appended(name: Name) | Setting

  /** Where the bridge is with the first device of its sweep. */
  datatype Visit = Get | Test(ref: nat) | Swap(ref: nat) | Lookup(ref: nat) | Iterate(ref: nat, pos: nat)

  datatype Pc =
    | LoopHead
    | Registering(names: seq<Name>)
    | Waiting
    | Clearing
    | Listing
    | Sweeping(todo: seq<Name>, at: Visit)
    | Ended

  /**
   History: arrived and submitted, in order; swept and known are the devices of the
   last sweep and what had arrived when it began.
   */
  datatype Sys = Sys(heap: seq<seq<Cmd>>, sets: map<Name, nat>, registered: set<Name>, wake: bool, stop: bool,
                     devices: seq<Name>, sender: Sender, bridge: Pc,
                     arrived: seq<Msg>, submitted: seq<Msg>, swept: seq<Name>, known: seq<Msg>)

  datatype Action =
    | OnMessage(topic: string, payload: Option<string>)
    | SenderStep
    | BridgeStep
    | AddDevice(name: Name)
    | CreateListener(name: Name)
    | Stop

  const INITIAL := Sys([], map[], {}, false, false, [], Idle, LoopHead, [], [], [], [])

  // ------------------------------------------------- steps

  /** `setdefault(name, [])` */
  function WithList(s: Sys, name: Name): Sys {
    if name in s.sets then s else s.(heap := s.heap + [[]], sets := s.sets[name := |s.heap|])
  }

  /** The end of the list a sender finds under the name. */
  function Append(s: Sys, name: Name, cmd: Cmd): Sys
    requires name in s.sets && s.sets[name] < |s.heap|
  {
    s.(heap := s.heap[s.sets[name] := s.heap[s.sets[name]] + [cmd]],
       arrived := s.arrived + [Msg(name, cmd)], sender := Appended(name))
  }

  /** A message that cannot be decoded or routed is dropped. */
  function Receive(s: Sys, topic: string, payload: Option<string>): Sys {
    var target := Route(topic);
    if s.sender != Idle || payload == None || target == None then s
    else
      var (device, variable) := target.value;
      var name := Name(device);
      var t := WithList(s, name);
      if t.sets[name] < |t.heap| then Append(t, name, Cmd(variable, payload.value, name in t.registered)) else t
  }

  function SenderMoved(s: Sys): Sys {
    match s.sender
    case Idle => s
    case Appended(name) => s.(sender := if name in s.registered then Setting else Idle)
    case Setting => s.(sender := Idle, wake := true)
  }

  /** On to the next device of the sweep. */
  function Advance(todo: seq<Name>): Pc {
    if |todo| <= 1 then LoopHead else Sweeping(todo[1..], Get)
  }

  /** One access of the sweep to shared state, for device name = todo[0]. */
  function Visited(s: Sys, todo: seq<Name>, at: Visit): Sys
    requires todo != []
  {
    var name := todo[0];
    match at
    case Get =>
      s.(bridge := if name in s.sets then Sweeping(todo, Test(s.sets[name])) else Advance(todo))
    case Test(ref) =>
      s.(bridge := if ref < |s.heap| && s.heap[ref] != [] then Sweeping(todo, Swap(ref)) else Advance(todo))
    case Swap(ref) =>
      s.(heap := s.heap + [[]], sets := s.sets[name := |s.heap|], bridge := Sweeping(todo, Lookup(ref)))
    case Lookup(ref) =>
      s.(bridge := if name in s.devices then Sweeping(todo, Iterate(ref, 0)) else Advance(todo))
    case Iterate(ref, pos) =>
      if ref < |s.heap| && pos < |s.heap[ref]| then
        s.(submitted := s.submitted + [Msg(name, s.heap[ref][pos])], bridge := Sweeping(todo, Iterate(ref, pos + 1)))
      else s.(bridge := Advance(todo))
  }

  /** The loop of the bridge outside its sweep. */
  function BetweenSweeps(s: Sys): Sys {
    match s.bridge
    case LoopHead => s.(bridge := if s.stop then Ended else Registering(s.devices))
    case Registering(names) =>
      if names == [] then s.(bridge := Waiting)
      else s.(registered := s.registered + {names[0]}, bridge := Registering(names[1..]))
    case Waiting => s.(bridge := Clearing)
    case Clearing => s.(wake := false, bridge := Listing)
    case Listing =>
      s.(swept := s.devices, known := s.arrived,
         bridge := if s.devices == [] then LoopHead else Sweeping(s.devices, Get))
    case _ => s
  }

  function BridgeMoved(s: Sys): Sys {
    if s.bridge.Sweeping? && s.bridge.todo != [] then Visited(s, s.bridge.todo, s.bridge.at) else BetweenSweeps(s)
  }

  function Next(s: Sys, a: Action): Sys {
    match a
    case OnMessage(topic, payload) => Receive(s, topic, payload)
    case SenderStep => SenderMoved(s)
    case BridgeStep => BridgeMoved(s)
    case AddDevice(name) => if name in s.devices then s else s.(devices := s.devices + [name])
    case CreateListener(name) => WithList(s, name)
    case Stop => s.(stop := true)
  }

  function Run(s: Sys, actions: seq<Action>): Sys {
    if actions == [] then s else Next(Run(s, actions[..|actions| - 1]), actions[|actions| - 1])
  }

  // ------------------------------------------------- what the history says about one device

  /** The commands for one device, in order. */
  function Of(name: Name, ms: seq<Msg>): seq<Cmd> {
    if ms == [] then []
    else
      var rest := Of(name, ms[..|ms| - 1]);
      if ms[|ms| - 1].name == name then rest + [ms[|ms| - 1].cmd] else rest
  }

  /** In the list a sender would append to. */
  function Pending(heap: seq<seq<Cmd>>, sets: map<Name, nat>, name: Name): seq<Cmd> {
    if name in sets && sets[name] < |heap| then heap[sets[name]] else []
  }

  predicate Visiting(bridge: Pc, name: Name) {
    bridge.Sweeping? && bridge.todo != [] && bridge.todo[0] == name
  }

  /** Taken by the bridge and not yet submitted. */
  function Held(heap: seq<seq<Cmd>>, bridge: Pc, name: Name): seq<Cmd> {
    if !Visiting(bridge, name) then []
    else
      match bridge.at
      case Lookup(ref) => if ref < |heap| then heap[ref] else []
      case Iterate(ref, pos) => if ref < |heap| && pos <= |heap[ref]| then heap[ref][pos..] else []
      case _ => []
  }

  /** The wake event is set, or the sender is past the point where it can miss it. */
  predicate WakeComes(wake: bool, sender: Sender, registered: set<Name>) {
    wake || sender.Setting? || (sender.Appended? && sender.name in registered)
  }

  /** The sweep the bridge is in or about to start has still to look at the device. */
  predicate WillVisit(bridge: Pc, devices: seq<Name>, name: Name) {
    match bridge
    case Clearing => name in devices
    case Listing => name in devices
    case Sweeping(todo, at) =>
      todo != [] && (name in todo[1..] || (name == todo[0] && (at.Get? || at.Test? || at.Swap?)))
    case _ => false
  }

  predicate AnyWatched(cs: seq<Cmd>) {
    exists k :: 0 <= k < |cs| && cs[k].watched
  }

  // ------------------------------------------------- invariants

  /** References lead to lists, and no two devices share one. */
  ghost predicate HeapInv(heap: seq<seq<Cmd>>, sets: map<Name, nat>) {
    && (forall n :: n in sets ==> sets[n] < |heap|)
    && (forall m, n :: m in sets && n in sets && m != n ==> sets[m] != sets[n])
  }

  /** No sender can reach the list. */
  ghost predicate Detached(sets: map<Name, nat>, ref: nat) {
    forall n :: n in sets ==> sets[n] != ref
  }

  ghost predicate VisitInv(heap: seq<seq<Cmd>>, sets: map<Name, nat>, name: Name, at: Visit) {
    match at
    case Get => true
    case Test(ref) => name in sets && sets[name] == ref
    case Swap(ref) => name in sets && sets[name] == ref
    case Lookup(ref) => ref < |heap| && Detached(sets, ref)
    case Iterate(ref, pos) => ref < |heap| && pos <= |heap[ref]| && Detached(sets, ref)
  }

  ghost predicate Known(names: seq<Name>, devices: seq<Name>) {
    forall n :: n in names ==> n in devices
  }

  ghost predicate RefInv(s: Sys) {
    && HeapInv(s.heap, s.sets)
    && (forall n :: n in s.registered ==> n in s.devices)
    && (s.bridge.Registering? ==> Known(s.bridge.names, s.devices))
    && (s.bridge.Sweeping? ==> s.bridge.todo != [] && Known(s.bridge.todo, s.devices)
                               && VisitInv(s.heap, s.sets, s.bridge.todo[0], s.bridge.at))
  }

  predicate Joined(whole: seq<Cmd>, a: seq<Cmd>, b: seq<Cmd>, c: seq<Cmd>) {
    whole == a + b + c
  }

  /** What arrived is what was submitted, is held and is pending. */
  ghost predicate Conserved(s: Sys, name: Name) {
    Joined(Of(name, s.arrived), Of(name, s.submitted), Held(s.heap, s.bridge, name), Pending(s.heap, s.sets, name))
  }

  ghost predicate Woken(s: Sys, name: Name) {
    AnyWatched(Pending(s.heap, s.sets, name)) ==>
      name in s.registered
      && (WakeComes(s.wake, s.sender, s.registered) || WillVisit(s.bridge, s.devices, name))
  }

  /** The sweep is through with the device. */
  predicate Through(swept: seq<Name>, bridge: Pc, name: Name) {
    name in swept && !(bridge.Sweeping? && name in bridge.todo)
  }

  predicate Began(a: seq<Cmd>, b: seq<Cmd>) {
    a <= b
  }

  /** Devices the sweep is through with have had everything that was there when it began. */
  ghost predicate Swept(s: Sys, name: Name) {
    && Began(Of(name, s.known), Of(name, s.arrived))
    && (Through(s.swept, s.bridge, name) ==> Began(Of(name, s.known), Of(name, s.submitted)))
    && (Visiting(s.bridge, name) && (s.bridge.at.Lookup? || s.bridge.at.Iterate?)
        ==> Began(Of(name, s.known), Of(name, s.submitted) + Held(s.heap, s.bridge, name)))
  }

  ghost predicate NameInv(s: Sys, name: Name) {
    Conserved(s, name) && Woken(s, name) && Swept(s, name)
  }

  ghost predicate Inv(s: Sys) {
    RefInv(s) && forall name :: NameInv(s, name)
  }

  lemma OfSnoc(name: Name, ms: seq<Msg>, m: Msg)
    ensures Of(name, ms + [m]) == if m.name == name then Of(name, ms) + [m.cmd] else Of(name, ms)
  {
    assert (ms + [m])[..|ms|] == ms;
  }

  // ------------------------------------------------- steps of the other threads

  /** A step that moves no list: what is pending and held is unchanged. */
  lemma WithListName(s: Sys, name: Name, n: Name)
    requires RefInv(s) && NameInv(s, n)
    ensures NameInv(WithList(s, name), n)
  {
    hide Of, AnyWatched, Joined, Began, WakeComes, WillVisit, Through;
    var t := WithList(s, name);
    assert Pending(t.heap, t.sets, n) == Pending(s.heap, s.sets, n);
    assert Held(t.heap, t.bridge, n) == Held(s.heap, s.bridge, n);
  }

  lemma WithListRefs(s: Sys, name: Name)
    requires RefInv(s)
    ensures RefInv(WithList(s, name)) && name in WithList(s, name).sets
  {
    hide Known;
  }

  lemma WithListInv(s: Sys, name: Name)
    requires Inv(s)
    ensures Inv(WithList(s, name)) && name in WithList(s, name).sets
  {
    WithListRefs(s, name);
    hide RefInv, WithList, NameInv;
    forall n ensures NameInv(WithList(s, name), n) {
      WithListName(s, name, n);
    }
  }

  lemma AppendRefs(s: Sys, name: Name, cmd: Cmd)
    requires RefInv(s) && name in s.sets
    ensures RefInv(Append(s, name, cmd))
  {
    hide Known;
  }

  lemma AppendLists(s: Sys, name: Name, cmd: Cmd, n: Name)
    requires RefInv(s) && name in s.sets
    ensures
      var t := Append(s, name, cmd);
      && Held(t.heap, t.bridge, n) == Held(s.heap, s.bridge, n)
      && Pending(t.heap, t.sets, n)
         == if n == name then Pending(s.heap, s.sets, n) + [cmd] else Pending(s.heap, s.sets, n)
  {
    hide Known;
  }

  lemma JoinedSnoc(whole: seq<Cmd>, a: seq<Cmd>, b: seq<Cmd>, c: seq<Cmd>, cmd: Cmd)
    requires Joined(whole, a, b, c)
    ensures Joined(whole + [cmd], a, b, c + [cmd])
  {
  }

  lemma BeganSnoc(a: seq<Cmd>, b: seq<Cmd>, cmd: Cmd)
    requires Began(a, b)
    ensures Began(a, b + [cmd])
  {
  }

  lemma AppendName(s: Sys, name: Name, cmd: Cmd, n: Name)
    requires RefInv(s) && NameInv(s, n) && name in s.sets && s.sender == Idle
    requires cmd.watched == (name in s.registered)
    ensures NameInv(Append(s, name, cmd), n)
  {
    AppendLists(s, name, cmd, n);
    hide Of, Joined, Began, WillVisit, Through, Held, Pending, RefInv;
    OfSnoc(n, s.arrived, Msg(name, cmd));
    JoinedSnoc(Of(n, s.arrived), Of(n, s.submitted), Held(s.heap, s.bridge, n), Pending(s.heap, s.sets, n), cmd);
    BeganSnoc(Of(n, s.known), Of(n, s.arrived), cmd);
  }

  lemma AppendInv(s: Sys, name: Name, cmd: Cmd)
    requires Inv(s) && name in s.sets && s.sender == Idle && cmd.watched == (name in s.registered)
    ensures Inv(Append(s, name, cmd))
  {
    AppendRefs(s, name, cmd);
    hide NameInv;
    forall n ensures NameInv(Append(s, name, cmd), n) {
      AppendName(s, name, cmd, n);
    }
  }

  lemma ReceiveInv(s: Sys, topic: string, payload: Option<string>)
    requires Inv(s)
    ensures Inv(Receive(s, topic, payload))
  {
    hide NameInv, Route;
    var target := Route(topic);
    if s.sender == Idle && payload != None && target != None {
      var (device, variable) := target.value;
      var name := Name(device);
      WithListInv(s, name);
      AppendInv(WithList(s, name), name, Cmd(variable, payload.value, name in s.registered));
    }
  }

  /** A step that leaves the lists, the histories and the bridge alone and takes no wake-up away. */
  lemma AsideInv(s: Sys, t: Sys)
    requires Inv(s)
    requires t == s.(sender := t.sender, wake := t.wake, stop := t.stop, devices := t.devices)
    requires s.devices <= t.devices
    requires WakeComes(s.wake, s.sender, s.registered) ==> WakeComes(t.wake, t.sender, t.registered)
    ensures Inv(t)
  {
    hide Of, AnyWatched, Joined, Began, Held, Pending, Through, WakeComes, HeapInv, VisitInv;
    forall n ensures NameInv(t, n) {
      assert NameInv(s, n);
    }
  }

  // ------------------------------------------------- steps of the bridge

  lemma BetweenSweepsInv(s: Sys)
    requires Inv(s) && !s.bridge.Sweeping?
    ensures Inv(BetweenSweeps(s))
  {
    BetweenSweepsRefs(s);
    hide Known, HeapInv, VisitInv, BetweenSweeps, NameInv;
    forall n ensures NameInv(BetweenSweeps(s), n) {
      BetweenSweepsName(s, n);
    }
  }

  lemma BetweenSweepsRefs(s: Sys)
    requires RefInv(s) && !s.bridge.Sweeping?
    ensures RefInv(BetweenSweeps(s))
  {
    hide HeapInv;
  }

  lemma BetweenSweepsName(s: Sys, n: Name)
    requires NameInv(s, n) && !s.bridge.Sweeping? && (n in s.registered ==> n in s.devices)
    ensures NameInv(BetweenSweeps(s), n)
  {
    BetweenSweepsWakes(s, n);
    BetweenSweepsSwept(s, n);
    BetweenSweepsConserved(s, n);
    hide BetweenSweeps, Conserved, Woken, Swept;
  }

  lemma BetweenSweepsConserved(s: Sys, n: Name)
    requires Conserved(s, n) && !s.bridge.Sweeping?
    ensures Conserved(BetweenSweeps(s), n)
  {
    hide Joined, Of, Pending;
  }

  lemma BetweenSweepsWakes(s: Sys, n: Name)
    requires Woken(s, n) && !s.bridge.Sweeping? && (n in s.registered ==> n in s.devices)
    ensures Woken(BetweenSweeps(s), n)
  {
    hide AnyWatched, Pending;
  }

  lemma BetweenSweepsSwept(s: Sys, n: Name)
    requires Swept(s, n) && !s.bridge.Sweeping?
    ensures Swept(BetweenSweeps(s), n)
  {
    hide Of;
  }

  lemma AdvanceRefs(s: Sys)
    requires RefInv(s) && s.bridge.Sweeping?
    ensures RefInv(s.(bridge := Advance(s.bridge.todo)))
  {
    hide HeapInv;
  }

  lemma SwapRefs(s: Sys)
    requires RefInv(s) && s.bridge.Sweeping? && s.bridge.at.Swap?
    ensures RefInv(Visited(s, s.bridge.todo, s.bridge.at))
  {
    hide Known;
  }

  lemma VisitRefs(s: Sys)
    requires RefInv(s) && s.bridge.Sweeping?
    ensures RefInv(Visited(s, s.bridge.todo, s.bridge.at))
  {
    hide Advance, Known, HeapInv;
    if s.bridge.at.Swap? {
      SwapRefs(s);
    } else {
      AdvanceRefs(s);
    }
  }

  /**
   Moving on is safe for the device the sweep leaves: nothing it held, nothing that was there at
   the start, is left.
   */
  lemma AdvanceName(s: Sys, n: Name)
    requires NameInv(s, n) && s.bridge.Sweeping? && s.bridge.todo != [] && Held(s.heap, s.bridge, n) == []
    requires n == s.bridge.todo[0] ==> Pending(s.heap, s.sets, n) == [] || s.bridge.at.Iterate?
    ensures NameInv(s.(bridge := Advance(s.bridge.todo)), n)
  {
    hide Of, Pending;
    var t := s.(bridge := Advance(s.bridge.todo));
    assert Held(t.heap, t.bridge, n) == [];
    assert Of(n, s.submitted) + [] + [] == Of(n, s.submitted);
  }

  lemma SwapLists(s: Sys, n: Name)
    requires RefInv(s) && s.bridge.Sweeping? && s.bridge.at.Swap?
    ensures
      var t := Visited(s, s.bridge.todo, s.bridge.at);
      && Held(s.heap, s.bridge, n) == []
      && (if n == s.bridge.todo[0]
          then Held(t.heap, t.bridge, n) == Pending(s.heap, s.sets, n) && Pending(t.heap, t.sets, n) == []
          else Held(t.heap, t.bridge, n) == [] && Pending(t.heap, t.sets, n) == Pending(s.heap, s.sets, n))
  {
    hide Known;
  }

  lemma SwapName(s: Sys, n: Name)
    requires RefInv(s) && NameInv(s, n) && s.bridge.Sweeping? && s.bridge.at.Swap?
    ensures NameInv(Visited(s, s.bridge.todo, s.bridge.at), n)
  {
    SwapLists(s, n);
    hide Of, Held, Pending, RefInv;
    assert Of(n, s.submitted) + [] == Of(n, s.submitted);
    assert Of(n, s.submitted) + Pending(s.heap, s.sets, n) + [] == Of(n, s.submitted) + Pending(s.heap, s.sets, n);
  }

  lemma FirstOfRest<T>(s: seq<T>, pos: nat)
    requires pos < |s|
    ensures s[pos..] == [s[pos]] + s[pos + 1..]
  {
  }

  lemma SubmitLists(s: Sys, n: Name)
    requires RefInv(s) && s.bridge.Sweeping? && s.bridge.at.Iterate?
    requires s.bridge.at.pos < |s.heap[s.bridge.at.ref]|
    ensures
      var t := Visited(s, s.bridge.todo, s.bridge.at);
      && Pending(t.heap, t.sets, n) == Pending(s.heap, s.sets, n)
      && Held(s.heap, s.bridge, n)
         == if n == s.bridge.todo[0] then [s.heap[s.bridge.at.ref][s.bridge.at.pos]] + Held(t.heap, t.bridge, n)
            else Held(t.heap, t.bridge, n)
  {
    hide Known, HeapInv, Detached, Pending;
    FirstOfRest(s.heap[s.bridge.at.ref], s.bridge.at.pos);
  }

  lemma Regrouped(a: seq<Cmd>, cmd: Cmd, b: seq<Cmd>, c: seq<Cmd>)
    ensures a + ([cmd] + b) == (a + [cmd]) + b
    ensures a + ([cmd] + b) + c == (a + [cmd]) + b + c
  {
  }

  ghost predicate Submitting(s: Sys) {
    && RefInv(s) && s.bridge.Sweeping? && s.bridge.at.Iterate?
    && s.bridge.at.pos < |s.heap[s.bridge.at.ref]|
  }

  lemma SubmitConserved(s: Sys, n: Name)
    requires Submitting(s) && Conserved(s, n)
    ensures Conserved(Visited(s, s.bridge.todo, s.bridge.at), n)
  {
    SubmitLists(s, n);
    var t := Visited(s, s.bridge.todo, s.bridge.at);
    var m := Msg(s.bridge.todo[0], s.heap[s.bridge.at.ref][s.bridge.at.pos]);
    hide Of, Held, Pending, RefInv;
    OfSnoc(n, s.submitted, m);
    if n == m.name {
      Regrouped(Of(n, s.submitted), m.cmd, Held(t.heap, t.bridge, n), Pending(t.heap, t.sets, n));
    }
  }

  lemma SubmitWoken(s: Sys, n: Name)
    requires Submitting(s) && Woken(s, n)
    ensures Woken(Visited(s, s.bridge.todo, s.bridge.at), n)
  {
    hide RefInv, Pending, AnyWatched, WakeComes;
  }

  lemma SubmitSwept(s: Sys, n: Name)
    requires Submitting(s) && Swept(s, n)
    ensures Swept(Visited(s, s.bridge.todo, s.bridge.at), n)
  {
    SubmitLists(s, n);
    var t := Visited(s, s.bridge.todo, s.bridge.at);
    var m := Msg(s.bridge.todo[0], s.heap[s.bridge.at.ref][s.bridge.at.pos]);
    hide Of, Held, Pending, RefInv;
    OfSnoc(n, s.submitted, m);
    if n == m.name {
      Regrouped(Of(n, s.submitted), m.cmd, Held(t.heap, t.bridge, n), []);
    }
  }

  lemma SubmitName(s: Sys, n: Name)
    requires Submitting(s) && NameInv(s, n)
    ensures NameInv(Visited(s, s.bridge.todo, s.bridge.at), n)
  {
    hide Submitting, Conserved, Woken, Swept, Visited;
    SubmitConserved(s, n);
    SubmitWoken(s, n);
    SubmitSwept(s, n);
  }

  /** Looking a list or a device up changes nothing that is held or pending. */
  lemma LookName(s: Sys, at: Visit, n: Name)
    requires NameInv(s, n) && s.bridge.Sweeping? && s.bridge.todo != []
    requires (s.bridge.at.Get? && at.Test?) || (s.bridge.at.Test? && at.Swap?)
          || (s.bridge.at.Lookup? && at == Iterate(s.bridge.at.ref, 0))
    ensures NameInv(s.(bridge := Sweeping(s.bridge.todo, at)), n)
  {
    hide Of, AnyWatched, Joined, Began, Pending, WakeComes;
    var t := s.(bridge := Sweeping(s.bridge.todo, at));
    assert Held(t.heap, t.bridge, n) == Held(s.heap, s.bridge, n);
  }

  lemma VisitName(s: Sys, n: Name)
    requires RefInv(s) && NameInv(s, n) && s.bridge.Sweeping?
    ensures NameInv(Visited(s, s.bridge.todo, s.bridge.at), n)
  {
    hide Of, NameInv, Advance;
    var todo, at := s.bridge.todo, s.bridge.at;
    match at {
      case Get => if todo[0] in s.sets { LookName(s, Test(s.sets[todo[0]]), n); } else { AdvanceName(s, n); }
      case Test(ref) => if s.heap[ref] != [] { LookName(s, Swap(ref), n); } else { AdvanceName(s, n); }
      case Swap(ref) => SwapName(s, n);
      case Lookup(ref) => LookName(s, Iterate(ref, 0), n);
      case Iterate(ref, pos) => if pos < |s.heap[ref]| { SubmitName(s, n); } else { AdvanceName(s, n); }
    }
  }

  lemma SweepInv(s: Sys)
    requires Inv(s) && s.bridge.Sweeping?
    ensures Inv(Visited(s, s.bridge.todo, s.bridge.at))
  {
    VisitRefs(s);
    hide Visited, NameInv, Advance;
    forall n ensures NameInv(Visited(s, s.bridge.todo, s.bridge.at), n) {
      VisitName(s, n);
    }
  }

  lemma {:induction false} NextInv(s: Sys, a: Action)
    requires Inv(s)
    ensures Inv(Next(s, a))
  {
    match a {
      case OnMessage(topic, payload) => ReceiveInv(s, topic, payload);
      case BridgeStep =>
        assert s.bridge.Sweeping? ==> s.bridge.todo != [];
        hide Inv, Visited, BetweenSweeps;
        if s.bridge.Sweeping? {
          SweepInv(s);
        } else {
          BetweenSweepsInv(s);
        }
      case CreateListener(name) => WithListInv(s, name);
      case _ =>
        hide Inv;
        AsideInv(s, Next(s, a));
    }
  }

  lemma {:induction false} RunInv(actions: seq<Action>)
    ensures Inv(Run(INITIAL, actions))
  {
    hide Inv, Next;
    if actions == [] {
      InitialInv();
    } else {
      RunInv(actions[..|actions| - 1]);
      NextInv(Run(INITIAL, actions[..|actions| - 1]), actions[|actions| - 1]);
    }
  }

  lemma InitialInv()
    ensures Inv(INITIAL)
  {
  }

  // ------------------------------------------------- main results

  /** The message names a device and a variable. */
  ghost predicate Readable(topic: string, payload: Option<string>) {
    payload.Some? && exists device, variable :: Names(topic, device, variable)
  }

  /**
   The commands a run has been sent, read off its actions alone: a message that can be decoded and
   whose topic names a device and a variable is a command to that device, heard when the sender is idle.
   */
  ghost function Told(actions: seq<Action>): seq<Msg> {
    if actions == [] then []
    else
      var init, a := actions[..|actions| - 1], actions[|actions| - 1];
      var s := Run(INITIAL, init);
      if a.OnMessage? && s.sender == Idle && Readable(a.topic, a.payload) then
        var device, variable :| Names(a.topic, device, variable);
        Told(init) + [Msg(Name(device), Cmd(variable, a.payload.value, Name(device) in s.registered))]
      else Told(init)
  }

  /** What arrives is exactly what was sent, in order: nothing else, nothing less, under no other name. */
  lemma {:induction false} ArrivedAsTold(actions: seq<Action>)
    ensures Run(INITIAL, actions).arrived == Told(actions)
  {
    hide Route, Names;
    if actions != [] {
      var init, a := actions[..|actions| - 1], actions[|actions| - 1];
      var s := Run(INITIAL, init);
      ArrivedAsTold(init);
      RunInv(init);
      if a.OnMessage? {
        HeardAsNamed(s, a.topic, a.payload);
        if s.sender == Idle && Readable(a.topic, a.payload) {
          var device, variable :| Names(a.topic, device, variable)
            && Told(actions)
               == Told(init) + [Msg(Name(device), Cmd(variable, a.payload.value, Name(device) in s.registered))];
          RouteExactly(a.topic, device, variable);
        }
      } else {
        StepsKeepArrived(s, a);
      }
    }
  }

  lemma StepsKeepArrived(s: Sys, a: Action)
    requires !a.OnMessage?
    ensures Next(s, a).arrived == s.arrived
  {
  }

  lemma HeardAsNamed(s: Sys, topic: string, payload: Option<string>)
    requires HeapInv(s.heap, s.sets)
    ensures Receive(s, topic, payload).arrived
         == if s.sender == Idle && payload.Some? && Route(topic).Some? then
              s.arrived + [Msg(Name(Route(topic).value.0),
                               Cmd(Route(topic).value.1, payload.value, Name(Route(topic).value.0) in s.registered))]
            else s.arrived
    ensures Readable(topic, payload) <==> payload.Some? && Route(topic).Some?
  {
    hide Names, Route;
    if Route(topic).Some? {
      RouteExactly(topic, Route(topic).value.0, Route(topic).value.1);
      WithListRefsOnly(s, Name(Route(topic).value.0));
    }
    if Readable(topic, payload) {
      var device, variable :| Names(topic, device, variable);
      RouteExactly(topic, device, variable);
    }
  }

  lemma WithListRefsOnly(s: Sys, name: Name)
    requires HeapInv(s.heap, s.sets)
    ensures
      var t := WithList(s, name);
      name in t.sets && t.sets[name] < |t.heap| && t.arrived == s.arrived && t.registered == s.registered
  {
  }

  /**
   Exactly once, in order, in every interleaving: what a device was sent is what was
   submitted to it, then what the bridge holds, then what waits in the list.
   */
  lemma {:induction false} ExactlyOnce(actions: seq<Action>, name: Name)
    ensures
      var s := Run(INITIAL, actions);
      Of(name, Told(actions)) == Of(name, s.submitted) + Held(s.heap, s.bridge, name) + Pending(s.heap, s.sets, name)
  {
    RunInv(actions);
    assert NameInv(Run(INITIAL, actions), name);
    ArrivedAsTold(actions);
  }

  /** No wake-up is lost: while the bridge waits, a watched command that is pending has its wake-up set or coming. */
  lemma {:induction false} NoLostWakeup(actions: seq<Action>, name: Name)
    ensures
      var s := Run(INITIAL, actions);
      s.bridge.Waiting? && AnyWatched(Pending(s.heap, s.sets, name)) ==> WakeComes(s.wake, s.sender, s.registered)
  {
    RunInv(actions);
    assert NameInv(Run(INITIAL, actions), name);
  }

  /** A bridge that waits with no wake-up set or coming has submitted every command it was sent after registering. */
  lemma {:induction false} QuietMeansDelivered(actions: seq<Action>, name: Name, k: nat)
    requires
      var s := Run(INITIAL, actions);
      && s.bridge.Waiting? && !s.wake && s.sender == Idle
      && k < |Of(name, Told(actions))| && Of(name, Told(actions))[k].watched
    ensures
      var s := Run(INITIAL, actions);
      k < |Of(name, s.submitted)| && Of(name, s.submitted)[k] == Of(name, Told(actions))[k]
  {
    hide Of, Told;
    var s := Run(INITIAL, actions);
    ExactlyOnce(actions, name);
    NoLostWakeup(actions, name);
    hide Pending, Run;
    if !AnyWatched(Pending(s.heap, s.sets, name)) {
      assert Of(name, Told(actions)) == Of(name, s.submitted) + Pending(s.heap, s.sets, name);
    }
  }

  lemma {:induction false} RunConcat(s: Sys, a: seq<Action>, b: seq<Action>)
    ensures Run(s, a + b) == Run(Run(s, a), b)
  {
    hide Next;
    if b == [] {
      assert a + b == a;
    } else {
      assert (a + b)[..|a + b| - 1] == a + b[..|b| - 1];
      RunConcat(s, a, b[..|b| - 1]);
    }
  }

  /** No action of the run is the bridge's step at the place pc. */
  ghost predicate NoneAt(s: Sys, actions: seq<Action>, pc: Pc) {
    forall k :: 0 <= k < |actions| ==> actions[k].BridgeStep? ==> Run(s, actions[..k]).bridge != pc
  }

  lemma NoneAtInit(s: Sys, actions: seq<Action>, pc: Pc)
    requires actions != [] && NoneAt(s, actions, pc)
    ensures
      var init, a := actions[..|actions| - 1], actions[|actions| - 1];
      NoneAt(s, init, pc) && (a.BridgeStep? ==> Run(s, init).bridge != pc)
  {
    hide Run;
    var init := actions[..|actions| - 1];
    forall k | 0 <= k < |init| ensures init[k].BridgeStep? ==> Run(s, init[..k]).bridge != pc {
      assert init[k] == actions[k] && init[..k] == actions[..k];
    }
  }

  /** What the other threads leave alone. */
  lemma OtherThreads(s: Sys, a: Action)
    requires !a.BridgeStep?
    ensures
      var t := Next(s, a);
      t.bridge == s.bridge && t.registered == s.registered && t.swept == s.swept && t.known == s.known
  {
    hide Route;
  }

  /** What a visit leaves alone. */
  lemma VisitKeeps(s: Sys)
    requires s.bridge.Sweeping? && s.bridge.todo != []
    ensures
      var t := Visited(s, s.bridge.todo, s.bridge.at);
      && t.registered == s.registered && t.swept == s.swept && t.known == s.known
      && !t.bridge.Registering? && !t.bridge.Waiting?
  {
  }

  lemma KnownStep(s: Sys, a: Action)
    requires a.BridgeStep? ==> s.bridge != Listing
    ensures Next(s, a).swept == s.swept && Next(s, a).known == s.known
  {
    hide Receive, SenderMoved, WithList, Visited;
    if !a.BridgeStep? {
      OtherThreads(s, a);
    } else if s.bridge.Sweeping? && s.bridge.todo != [] {
      VisitKeeps(s);
    }
  }

  lemma {:induction false} KnownStays(s: Sys, actions: seq<Action>)
    requires NoneAt(s, actions, Listing)
    ensures Run(s, actions).swept == s.swept && Run(s, actions).known == s.known
  {
    hide NoneAt, Next;
    if actions != [] {
      NoneAtInit(s, actions, Listing);
      KnownStays(s, actions[..|actions| - 1]);
      KnownStep(Run(s, actions[..|actions| - 1]), actions[|actions| - 1]);
    }
  }

  /**
   A sweep misses nothing, whenever it runs and whatever arrives meanwhile: when it is over, each
   device that was known when it began has been given all that had been sent to it by then.
   */
  lemma {:induction false} SweepDelivers(before: seq<Action>, during: seq<Action>, name: Name)
    requires Run(INITIAL, before).bridge == Listing && name in Run(INITIAL, before).devices
    requires NoneAt(Run(INITIAL, before + [BridgeStep]), during, Listing)
    requires !Run(INITIAL, before + [BridgeStep] + during).bridge.Sweeping?
    ensures Of(name, Told(before)) <= Of(name, Run(INITIAL, before + [BridgeStep] + during).submitted)
  {
    hide Of, Told, NoneAt;
    var all := before + [BridgeStep];
    assert all[..|all| - 1] == before;
    RunConcat(INITIAL, all, during);
    KnownStays(Run(INITIAL, all), during);
    ArrivedAsTold(before);
    RunInv(all + during);
    assert NameInv(Run(INITIAL, all + during), name);
  }

  // ------------------------------------------------- going on

  /**
   The sender looks its trigger up and sets the event exactly when there is one; then it is ready
   for the next message.
   */
  lemma {:induction false} SenderExactly(s: Sys)
    ensures
      var t := Next(s, SenderStep);
      && (s.sender.Appended? ==>
            t.sender == (if s.sender.name in s.registered then Setting else Idle) && t.wake == s.wake)
      && (s.sender == Setting ==> t.sender == Idle && t.wake)
      && t == s.(sender := t.sender, wake := t.wake)
  {
  }

  /** In every run the known devices are those added, each once; those who stop set stop, the sender sets the event. */
  lemma {:induction false} DevicesExactly(actions: seq<Action>, name: Name)
    ensures
      var s := Run(INITIAL, actions);
      && (name in s.devices <==> AddDevice(name) in actions)
      && (s.stop <==> Stop in actions)
      && (s.wake ==> SenderStep in actions)
      && forall j, k :: 0 <= j < k < |s.devices| ==> s.devices[j] != s.devices[k]
  {
    hide Receive, SenderMoved, BridgeMoved;
    if actions != [] {
      var init, a := actions[..|actions| - 1], actions[|actions| - 1];
      DevicesExactly(init, name);
      assert actions == init + [a];
      OthersKeepDevices(Run(INITIAL, init), a);
    }
  }

  lemma OthersKeepDevices(s: Sys, a: Action)
    ensures !a.AddDevice? ==> Next(s, a).devices == s.devices
    ensures a != Stop ==> Next(s, a).stop == s.stop
    ensures a != SenderStep && Next(s, a).wake ==> s.wake
  {
    hide Route;
  }

  /** How many steps a round has in front of it before its sweep begins. */
  function BeforeSweep(bridge: Pc): Option<nat> {
    match bridge
    case Registering(names) => Some(|names| + 4)
    case Waiting => Some(3)
    case Clearing => Some(2)
    case Listing => Some(1)
    case _ => None
  }

  /**
   The loop goes round: at its head it ends when stop is set and else takes up the devices; each step
   then brings the sweep one nearer, and the sweep goes through the devices there are.
   */
  lemma {:induction false} RoundGoesOn(s: Sys)
    ensures
      var t := Next(s, BridgeStep);
      && (s.bridge == LoopHead ==> t.bridge == if s.stop then Ended else Registering(s.devices))
      && (BeforeSweep(s.bridge).Some? && s.bridge != Listing ==>
            BeforeSweep(t.bridge) == Some(BeforeSweep(s.bridge).value - 1))
      && (s.bridge == Listing ==> if s.devices == [] then t.bridge == LoopHead
                                  else t.bridge.Sweeping? && t.bridge.todo == s.devices)
      && (s.bridge == Ended ==> t.bridge == Ended)
  {
  }

  // ------------------------------------------------- registering and waking

  /** What registration still has in front of it, or behind it, while a round of the loop gets to its wait. */
  ghost predicate Listed(s: Sys, names: seq<Name>) {
    match s.bridge
    case Registering(todo) => forall n :: n in names ==> n in s.registered || n in todo
    case Waiting => forall n :: n in names ==> n in s.registered
    case _ => true
  }

  lemma ListedStep(s: Sys, a: Action, names: seq<Name>)
    requires Listed(s, names) && (a.BridgeStep? ==> s.bridge != LoopHead)
    ensures Listed(Next(s, a), names)
  {
    hide Receive, SenderMoved, WithList, Visited;
    if !a.BridgeStep? {
      OtherThreads(s, a);
    } else if s.bridge.Sweeping? && s.bridge.todo != [] {
      VisitKeeps(s);
    }
  }

  lemma {:induction false} ListedRun(s: Sys, actions: seq<Action>, names: seq<Name>)
    requires Listed(s, names) && NoneAt(s, actions, LoopHead)
    ensures Listed(Run(s, actions), names)
  {
    hide NoneAt, Next, Listed;
    if actions != [] {
      NoneAtInit(s, actions, LoopHead);
      ListedRun(s, actions[..|actions| - 1], names);
      ListedStep(Run(s, actions[..|actions| - 1]), actions[|actions| - 1], names);
    }
  }

  /** When the bridge waits, every device that was known at the head of the round has its trigger registered. */
  lemma {:induction false} RegisteredBeforeWaiting(before: seq<Action>, during: seq<Action>, name: Name)
    requires Run(INITIAL, before).bridge == LoopHead && name in Run(INITIAL, before).devices
    requires NoneAt(Run(INITIAL, before + [BridgeStep]), during, LoopHead)
    requires Run(INITIAL, before + [BridgeStep] + during).bridge == Waiting
    ensures name in Run(INITIAL, before + [BridgeStep] + during).registered
  {
    hide NoneAt;
    var all := before + [BridgeStep];
    assert all[..|all| - 1] == before;
    RunConcat(INITIAL, all, during);
    ListedRun(Run(INITIAL, all), during, Run(INITIAL, before).devices);
  }

  /** Once cleared, the event stays clear until the sender sets it: no wake-up is counted twice. */
  lemma {:induction false} ClearedStaysClear(s: Sys, during: seq<Action>)
    requires s.bridge == Clearing
    requires
      var cleared := Next(s, BridgeStep);
      forall k :: 0 <= k < |during| ==> during[k].SenderStep? ==> Run(cleared, during[..k]).sender != Setting
    ensures !Run(Next(s, BridgeStep), during).wake
  {
    hide Route;
    if during != [] {
      var init := during[..|during| - 1];
      forall k | 0 <= k < |init|
        ensures init[k].SenderStep? ==> Run(Next(s, BridgeStep), init[..k]).sender != Setting
      {
        assert init[k] == during[k] && init[..k] == during[..k];
      }
      ClearedStaysClear(s, init);
      WakeKept(Run(Next(s, BridgeStep), init), during[|during| - 1]);
    }
  }

  lemma WakeKept(s: Sys, a: Action)
    requires !s.wake && (a.SenderStep? ==> s.sender != Setting)
    ensures !Next(s, a).wake
  {
    hide Route;
  }

  /** How far a sweep still has to go: devices, accesses to the current one, commands in hand. */
  function Distance(s: Sys): (nat, nat, nat)
    requires s.bridge.Sweeping?
  {
    match s.bridge.at
    case Get => (|s.bridge.todo|, 4, 0)
    case Test(_) => (|s.bridge.todo|, 3, 0)
    case Swap(_) => (|s.bridge.todo|, 2, 0)
    case Lookup(_) => (|s.bridge.todo|, 1, 0)
    case Iterate(ref, pos) =>
      (|s.bridge.todo|, 0, if ref < |s.heap| && pos <= |s.heap[ref]| then |s.heap[ref]| - pos else 0)
  }

  predicate Closer(a: (nat, nat, nat), b: (nat, nat, nat)) {
    a.0 < b.0 || (a.0 == b.0 && (a.1 < b.1 || (a.1 == b.1 && a.2 < b.2)))
  }

  lemma AdvanceGetsCloser(s: Sys, t: Sys)
    requires s.bridge.Sweeping? && t.bridge == Advance(s.bridge.todo)
    ensures t.bridge.LoopHead? || (t.bridge.Sweeping? && Closer(Distance(t), Distance(s)))
  {
  }

  lemma BridgeGetsCloser(s: Sys)
    requires RefInv(s) && s.bridge.Sweeping?
    ensures
      var t := Visited(s, s.bridge.todo, s.bridge.at);
      t.bridge.LoopHead? || (t.bridge.Sweeping? && Closer(Distance(t), Distance(s)))
  {
    hide Known, HeapInv, Detached, Advance;
    var t := Visited(s, s.bridge.todo, s.bridge.at);
    if t.bridge == Advance(s.bridge.todo) {
      hide Visited, Closer, Distance, VisitInv;
      AdvanceGetsCloser(s, t);
    }
  }

  lemma SameDistance(s: Sys, t: Sys)
    requires RefInv(s) && s.bridge.Sweeping? && t.bridge == s.bridge
    requires s.bridge.at.Iterate? ==>
      s.bridge.at.ref < |t.heap| && t.heap[s.bridge.at.ref] == s.heap[s.bridge.at.ref]
    ensures Distance(t) == Distance(s)
  {
    hide Known, HeapInv, Detached;
  }

  lemma OthersKeepDistance(s: Sys, a: Action)
    requires RefInv(s) && s.bridge.Sweeping? && !a.BridgeStep?
    ensures Next(s, a).bridge == s.bridge && Distance(Next(s, a)) == Distance(s)
  {
    hide Route, Known, Distance;
    var t := Next(s, a);
    if a.OnMessage? || a.CreateListener? {
      assert s.bridge.at.Iterate? ==> t.heap[s.bridge.at.ref] == s.heap[s.bridge.at.ref];
    } else {
      hide HeapInv, VisitInv;
      assert t.heap == s.heap;
    }
    hide HeapInv, VisitInv, Next;
    SameDistance(s, t);
  }

  /**
   No stream of commands can hold a sweep up: each of its steps brings its end closer, and no other
   thread moves it away.
   */
  lemma {:induction false} SweepIsWaitFree(actions: seq<Action>, a: Action)
    requires Run(INITIAL, actions).bridge.Sweeping?
    ensures
      var s, t := Run(INITIAL, actions), Next(Run(INITIAL, actions), a);
      if a.BridgeStep? then t.bridge.LoopHead? || (t.bridge.Sweeping? && Closer(Distance(t), Distance(s)))
      else t.bridge == s.bridge && Distance(t) == Distance(s)
  {
    RunInv(actions);
    hide Visited, BetweenSweeps, NameInv, Distance, Closer, Receive;
    if a.BridgeStep? {
      BridgeGetsCloser(Run(INITIAL, actions));
    } else {
      OthersKeepDistance(Run(INITIAL, actions), a);
    }
  }
}
