/** Whole runs of the Meritsun plugin: notifications in, battery state out. */
module MeritsunRuns {
  import opened Common
  import opened Framer
  import opened Filter
  import opened Battery
  import opened Meritsun
  import opened MeritsunFrames

  /** The transport delivering a run of notifications to the plugin. */
  method Deliver(util: Util, chunks: seq<seq<Byte>>)
    requires util.Valid() && Retained(util.stream)
    modifies util, util.device
    ensures util.Valid() && Retained(util.stream)
    ensures util.stream == FedResidue(old(util.stream), chunks)
    ensures util.State() == HandledAll(old(util.State()), FedPackets(old(util.stream), chunks))
  {
    hide Packets, Residue, Buffer, Framed, AnyReading, HandledAll;
    ghost var begin, stream0, done := util.State(), util.stream, [];
    NothingDone(begin);
    for n := 0 to |chunks|
      invariant util.Valid() && Retained(util.stream)
      invariant FedResidue(stream0, chunks) == FedResidue(util.stream, chunks[n..])
      invariant FedPackets(stream0, chunks) == done + FedPackets(util.stream, chunks[n..])
      invariant util.State() == HandledAll(begin, done)
    {
      ghost var ps := Packets(Buffer(util.stream, chunks[n]));
      FedStep(util.stream, chunks[n..], done);
      HandledAllConcat(begin, done, ps);
      var _ := util.NotificationUpdate(chunks[n]);
      done := done + ps;
      assert chunks[n..][1..] == chunks[n + 1..];
    }
    assert chunks[|chunks|..] == [];
    assert done + [] == done;
  }

  lemma FedStep(stream: seq<Byte>, chunks: seq<seq<Byte>>, done: seq<seq<Byte>>)
    requires chunks != []
    ensures
      var s := Buffer(stream, chunks[0]);
      && FedResidue(stream, chunks) == FedResidue(Residue(s), chunks[1..])
      && done + FedPackets(stream, chunks) == (done + Packets(s)) + FedPackets(Residue(s), chunks[1..])
  {
  }

  /** Two ways of cutting one byte stream into notifications end in the same counters, battery and buffer. */
  lemma {:induction false} BoundariesLeaveNoTrace(k: Link, stream: seq<Byte>, a: seq<seq<Byte>>, b: seq<seq<Byte>>)
    requires k.battery.Complete() && Retained(stream)
    requires Fits(stream, a) && Fits(stream, b) && Flatten(a) == Flatten(b)
    ensures FedPackets(stream, a) == FedPackets(stream, b)
    ensures FedResidue(stream, a) == FedResidue(stream, b)
    ensures HandledAll(k, FedPackets(stream, a)) == HandledAll(k, FedPackets(stream, b))
  {
    SplitIndependence(stream, a);
    SplitIndependence(stream, b);
  }

  /**
   End to end: a printed frame, behind any garbage and before the next marker,
   in any notifications, is one more accepted frame and exactly its own calls.
   */
  lemma {:induction false} EndToEnd(
    k: Link, garbage: seq<Byte>, r: Reading, marker: Byte, next: Byte, chunks: seq<seq<Byte>>)
    requires k.battery.Complete() && r.Printable() && IsMarker(marker) && IsMarker(next)
    requires Fits([], chunks) && Flatten(chunks) == garbage + r.Frame(marker) + [next]
    ensures AllAssignable(r.Calls())
    ensures
      var before := HandledAll(k, Packets(garbage + [marker]));
      HandledAll(k, FedPackets([], chunks))
      == before.(ok := before.ok + 1, battery := AssignedAll(before.battery, r.Calls()))
    ensures FedResidue([], chunks) == [next]
  {
    hide Packets, Residue, Framed, Accepted, PacketCalls, HandledAll;
    var f := r.Frame(marker);
    FrameRoundTrip(r, marker);
    FrameIsOnePacket(r, marker);
    AcceptedWhenDecoded(f);
    SplitIndependence([], chunks);
    var tail := f + [next];
    assert [] + Flatten(chunks) == garbage + tail;
    Resynchronises(garbage, tail);
    assert tail[0] == marker;
    assert Framed([next]) by { SingleMarkerFramed(next); }
    OnlyResidue([next]);
    FirstPacket(f, [next]);
    assert [f] + [] == [f];
    NothingDone(k);
    PacketDone(k, Packets(garbage + [marker]), f, []);
  }

  lemma SingleMarkerFramed(m: Byte)
    requires IsMarker(m)
    ensures Framed([m])
  {
  }

  lemma AcceptedWhenDecoded(packet: seq<Byte>)
    requires PacketCalls(packet).Some?
    ensures Accepted(packet) && AllAssignable(PacketCalls(packet).value)
  {
  }

  // ------------------------------------------------- what the battery shows

  /** Values a battery accepts as its first ones. */
  predicate Believable(r: Reading) {
    && 10000 <= r.mvoltage <= 15000 && -500000 <= r.mcurrent <= 500000 && 1 <= r.mcapacity <= 250000
    && 1 <= r.cycles <= 10000 && 1 <= r.soc <= 100 && 1731 <= r.temperature <= 3731
    && |r.cells| <= CELL_SLOTS && forall i :: 0 <= i < |r.cells| ==> 2000 < r.cells[i] < 4000
  }

  ghost predicate ShowsScalars(b: BatteryState, r: Reading)
    requires b.Complete()
  {
    && b.definitions[Mvoltage].val == r.mvoltage as real
    && b.definitions[Mcurrent].val == r.mcurrent as real
    && b.definitions[Mcapacity].val == r.mcapacity as real
    && b.definitions[Cycles].val == r.cycles as real
    && b.definitions[Dsoc].val == (10 * r.soc) as real
    && b.definitions[Dkelvin].val == r.temperature as real
    && b.status == Some(r.status) && b.afestatus == Some(r.afestatus)
    && b.chargeState == Some(if r.mcurrent > 20 then Charging else if r.mcurrent < -20 then Discharging else Standby)
    && b.health == Some(if r.cycles > 2000 then Good else Perfect)
  }

  ghost predicate ShowsCells(b: BatteryState, r: Reading, n: nat)
    requires b.Complete() && n <= |r.cells| <= CELL_SLOTS
  {
    forall i :: 1 <= i <= CELL_SLOTS ==> b.cells[i].val == if i <= n then r.cells[i - 1] as real else 0.0
  }

  ghost predicate CellsFresh(b: BatteryState)
    requires b.Complete()
  {
    forall i :: 1 <= i <= CELL_SLOTS ==> b.cells[i].min == 2000.0 && b.cells[i].max == 4000.0
  }

  /** The six validated quantities in the order a frame sets them, and what it sets them to. */
  function Rank(q: Quantity): nat {
    match q
    case Mvoltage => 0 case Mcurrent => 1 case Mcapacity => 2 case Cycles => 3 case Dsoc => 4 case Dkelvin => 5
  }

  function Nth(n: nat): (q: Quantity)
    requires n < 6
    ensures Rank(q) == n
  {
    if n == 0 then Mvoltage else if n == 1 then Mcurrent else if n == 2 then Mcapacity
    else if n == 3 then Cycles else if n == 4 then Dsoc else Dkelvin
  }

  function ValueOf(r: Reading, q: Quantity): int {
    match q
    case Mvoltage => r.mvoltage case Mcurrent => r.mcurrent case Mcapacity => r.mcapacity
    case Cycles => r.cycles case Dsoc => r.soc * 10 case Dkelvin => r.temperature
  }

  function CallOf(r: Reading, q: Quantity): (call: Assignment)
    ensures Assignable(call)
  {
    match q
    case Mvoltage => SetMvoltage(r.mvoltage) case Mcurrent => SetMcurrent(r.mcurrent)
    case Mcapacity => SetMcapacity(r.mcapacity) case Cycles => SetChargeCycles(r.cycles)
    case Dsoc => SetSoc(r.soc) case Dkelvin => SetTemperature(r.temperature)
  }

  /** The first n quantities show the reading, the others are still untouched. */
  ghost predicate Progress(s: BatteryState, r: Reading, message: seq<Byte>, n: nat) {
    && s.Complete() && s.cells == InitialState().cells && s.msg == message
    && (forall q: Quantity :: if Rank(q) < n then s.definitions[q].val == ValueOf(r, q) as real
                              else s.definitions[q] == InitialDefinitions()[q])
    && (n > 1 ==> s.chargeState == Some(ChargeStateFor(r.mcurrent)))
    && (n > 3 ==> s.health == Some(if r.cycles > 2000 then Good else Perfect))
  }

  lemma UnsetTakes(r: Reading, q: Quantity)
    requires Believable(r)
    ensures Next(InitialDefinitions()[q], ValueOf(r, q) as real).val == ValueOf(r, q) as real
  {
    match q
    case Mvoltage => case Mcurrent => case Mcapacity => case Cycles => case Dsoc => case Dkelvin =>
  }

  /** One setter call: its quantity is validated, and current and cycles bring their labels. */
  lemma CallParts(s: BatteryState, r: Reading, q: Quantity)
    requires Believable(r) && s.Complete()
    requires Next(s.definitions[q], ValueOf(r, q) as real).val == ValueOf(r, q) as real
    ensures
      var t := Assigned(s, CallOf(r, q)).value;
      && t.definitions == s.definitions[q := Next(s.definitions[q], ValueOf(r, q) as real)]
      && t.cells == s.cells && t.msg == s.msg
      && t.chargeState == (if q == Mcurrent then Some(ChargeStateFor(r.mcurrent)) else s.chargeState)
      && t.health == (if q == Cycles then Some(if r.cycles > 2000 then Good else Perfect) else s.health)
  {
    hide Next, InRange;
  }

  lemma RankOrder(p: Quantity, q: Quantity)
    ensures Rank(p) <= Rank(q) <==> p == q || Rank(p) < Rank(q)
  {
  }

  lemma ProgressStep(s: BatteryState, r: Reading, message: seq<Byte>, q: Quantity)
    requires Believable(r) && Progress(s, r, message, Rank(q))
    ensures Progress(Assigned(s, CallOf(r, q)).value, r, message, Rank(q) + 1)
  {
    hide Next, InitialDefinitions, InitialState, Assigned, CallOf, Believable, ValueOf;
    UnsetTakes(r, q);
    CallParts(s, r, q);
    forall p: Quantity ensures Rank(p) <= Rank(q) <==> p == q || Rank(p) < Rank(q) {
      RankOrder(p, q);
    }
  }

  /** The calls a frame makes from the n-th quantity on, those for the cells aside. */
  function CallsFrom(r: Reading, n: nat): (calls: seq<Assignment>)
    requires n <= 6
    ensures AllAssignable(calls)
    decreases 6 - n
  {
    if n == 6 then [SetStatus(r.status), SetAfestatus(r.afestatus)]
    else [CallOf(r, Nth(n))] + CallsFrom(r, n + 1)
  }

  lemma HeadOfCalls(r: Reading)
    requires r.Printable()
    ensures r.Calls() == ([SetMsg(r.Text() + PADDING)] + CallsFrom(r, 0)) + r.CellsCalls(0)
  {
    hide Reading.Text, Reading.CellsCalls;
    FirstHalf(r);
    SecondHalf(r);
  }

  lemma FirstHalf(r: Reading)
    ensures CallsFrom(r, 0) == [SetMvoltage(r.mvoltage), SetMcurrent(r.mcurrent), SetMcapacity(r.mcapacity)]
                               + CallsFrom(r, 3)
  {
    assert CallsFrom(r, 1) == [SetMcurrent(r.mcurrent)] + CallsFrom(r, 2);
    assert CallsFrom(r, 2) == [SetMcapacity(r.mcapacity)] + CallsFrom(r, 3);
  }

  lemma SecondHalf(r: Reading)
    ensures CallsFrom(r, 3) == [SetChargeCycles(r.cycles), SetSoc(r.soc), SetTemperature(r.temperature),
                                SetStatus(r.status), SetAfestatus(r.afestatus)]
  {
    assert CallsFrom(r, 6) == [SetStatus(r.status), SetAfestatus(r.afestatus)];
    assert CallsFrom(r, 5) == [SetTemperature(r.temperature)] + CallsFrom(r, 6);
    assert CallsFrom(r, 4) == [SetSoc(r.soc)] + CallsFrom(r, 5);
  }

  lemma UnfoldCall(s: BatteryState, a: Assignment, later: seq<Assignment>)
    requires s.Complete() && AllAssignable([a] + later)
    ensures AllAssignable(later)
    ensures AssignedAll(s, [a] + later) == AssignedAll(Assigned(s, a).value, later)
  {
    var all := [a] + later;
    assert all[1..] == later;
    assert forall i :: 0 <= i < |later| ==> all[i + 1] == later[i];
  }

  lemma {:induction false} ScalarsShown(s: BatteryState, r: Reading, message: seq<Byte>, n: nat)
    requires Believable(r) && n <= 6 && Progress(s, r, message, n)
    ensures
      var b := AssignedAll(s, CallsFrom(r, n));
      ShowsScalars(b, r) && b.cells == InitialState().cells && b.msg == message
    decreases 6 - n
  {
    hide Assigned, AssignedAll, InitialState, InitialDefinitions;
    if n == 6 {
      LastTwoCalls(s, r, message);
    } else {
      ProgressStep(s, r, message, Nth(n));
      UnfoldCall(s, CallOf(r, Nth(n)), CallsFrom(r, n + 1));
      ScalarsShown(Assigned(s, CallOf(r, Nth(n))).value, r, message, n + 1);
    }
  }

  lemma LastTwoCalls(s: BatteryState, r: Reading, message: seq<Byte>)
    requires Progress(s, r, message, 6)
    ensures
      var b := AssignedAll(s, [SetStatus(r.status), SetAfestatus(r.afestatus)]);
      ShowsScalars(b, r) && b.cells == InitialState().cells && b.msg == message
  {
    hide InitialDefinitions, InitialState;
    TwoCalls(s, SetStatus(r.status), SetAfestatus(r.afestatus));
    assert Rank(Mvoltage) < 6 && Rank(Mcurrent) < 6 && Rank(Mcapacity) < 6;
    assert Rank(Cycles) < 6 && Rank(Dsoc) < 6 && Rank(Dkelvin) < 6;
  }

  lemma {:induction false} CellsShown(b: BatteryState, r: Reading, n: nat)
    requires b.Complete() && Believable(r) && n <= |r.cells|
    requires ShowsCells(b, r, n) && CellsFresh(b)
    ensures AllAssignable(r.CellsCalls(n))
    ensures var c := AssignedAll(b, r.CellsCalls(n)); ShowsCells(c, r, |r.cells|) && c == b.(cells := c.cells)
    decreases |r.cells| - n
  {
    if n < |r.cells| {
      var c := Assigned(b, SetCell(n + 1, r.cells[n])).value;
      assert ShowsCells(c, r, n + 1);
      CellsShown(c, r, n + 1);
      assert r.CellsCalls(n)[1..] == r.CellsCalls(n + 1);
    }
  }

  lemma StartsUntouched(r: Reading, message: seq<Byte>)
    ensures Progress(Assigned(InitialState(), SetMsg(message)).value, r, message, 0)
  {
  }

  /** A fresh battery shows exactly what the first plausible frame says. */
  lemma {:induction false} FirstFrameShown(r: Reading)
    requires r.Printable() && Believable(r)
    ensures AllAssignable(r.Calls())
    ensures
      var b := AssignedAll(InitialState(), r.Calls());
      ShowsScalars(b, r) && ShowsCells(b, r, |r.cells|) && b.msg == r.Text() + PADDING
  {
    hide Assigned, AssignedAll, InitialState, Progress, CallsFrom, ShowsScalars, ShowsCells, CellsFresh;
    hide Reading.Calls, Reading.CellsCalls, Reading.Text;
    var message := r.Text() + PADDING;
    var s0 := Assigned(InitialState(), SetMsg(message)).value;
    StartsUntouched(r, message);
    HeadOfCalls(r);
    ScalarsShown(s0, r, message, 0);
    var head := [SetMsg(message)] + CallsFrom(r, 0);
    UnfoldCall(InitialState(), SetMsg(message), CallsFrom(r, 0));
    var b := AssignedAll(InitialState(), head);
    FreshCells(b, r);
    CellsShown(b, r, 0);
    CellsLeaveScalars(b, AssignedAll(b, r.CellsCalls(0)), r);
    AssignedAllConcat(InitialState(), head, r.CellsCalls(0));
  }

  lemma CellsLeaveScalars(b: BatteryState, c: BatteryState, r: Reading)
    requires b.Complete() && c.Complete() && ShowsScalars(b, r) && c == b.(cells := c.cells)
    ensures ShowsScalars(c, r) && c.msg == b.msg
  {
  }

  lemma FreshCells(b: BatteryState, r: Reading)
    requires b.Complete() && b.cells == InitialState().cells && |r.cells| <= CELL_SLOTS
    ensures ShowsCells(b, r, 0) && CellsFresh(b)
  {
    InitialCellsAre(CELL_SLOTS);
  }

  lemma {:induction false} InitialCellsAre(n: nat)
    ensures forall i :: 1 <= i <= n ==> InitialCells(n)[i] == Limits(0, 2000, 4000, 500)
  {
    if n > 0 {
      InitialCellsAre(n - 1);
    }
  }
}
