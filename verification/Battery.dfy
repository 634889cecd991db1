/**
 The battery entity a plugin writes its readings into: `BatteryDevice` and the
 parts of `PowerDevice` behind it (solardevice.py). Temperature is held in
 tenths of a kelvin, charge in tenths of a percent, the rest in milli-units.
 */
module Battery {
  import opened Common
  import opened Filter

  datatype Quantity = Dsoc | Dkelvin | Mcapacity | Mcurrent | Mvoltage | Cycles
  datatype ChargeState = Charging | Discharging | Standby
  datatype Health = Good | Perfect

  const CELL_SLOTS: nat := 16

  /** One setter call of a plugin. */
  datatype Assignment =
    | SetMsg(message: seq<Byte>)
    | SetMvoltage(value: int)
    | SetMcurrent(value: int)
    | SetMcapacity(value: int)
    | SetChargeCycles(value: int)
    | SetSoc(value: int)
    | SetTemperature(value: int)
    | SetStatus(value: int)
    | SetAfestatus(value: int)
    | SetCell(cell: nat, value: int)

  datatype BatteryState = BatteryState(
    definitions: map<Quantity, Definition>,
    cells: map<nat, Definition>,
    chargeState: Option<ChargeState>,
    health: Option<Health>,
    status: Option<int>,
    afestatus: Option<int>,
    msg: seq<Byte>)
  {
    ghost predicate Complete() {
      && (forall q: Quantity :: q in definitions)
      && (forall i: nat :: i in cells <==> 1 <= i <= CELL_SLOTS)
    }
  }

  function InitialDefinitions(): (m: map<Quantity, Definition>)
    ensures forall q: Quantity :: q in m
  {
    var m := map[
      Dsoc := Limits(0, 1, 1000, 100),
      Dkelvin := Limits(2731, 1731, 3731, 20),
      Mcapacity := Limits(0, 1, 250000, 20000),
      Mcurrent := Limits(0, -500000, 500000, 400000),
      Mvoltage := Limits(0, 10000, 15000, 12000),
      Cycles := Limits(0, 1, 10000, 1)
    ];
    HasEveryQuantity(m);
    m
  }

  lemma HasEveryQuantity(m: map<Quantity, Definition>)
    requires Dsoc in m && Dkelvin in m && Mcapacity in m && Mcurrent in m && Mvoltage in m && Cycles in m
    ensures forall q: Quantity :: q in m
  {
    forall q: Quantity ensures q in m {
      match q
      case Dsoc => case Dkelvin => case Mcapacity => case Mcurrent => case Mvoltage => case Cycles =>
    }
  }

  function InitialCells(n: nat): (m: map<nat, Definition>)
    ensures forall i: nat :: i in m <==> 1 <= i <= n
  {
    if n == 0 then map[] else InitialCells(n - 1)[n := Limits(0, 2000, 4000, 500)]
  }

  function InitialState(): (s: BatteryState)
    ensures s.Complete()
  {
    BatteryState(InitialDefinitions(), InitialCells(CELL_SLOTS), None, None, None, None, [])
  }

  // ------------------------------------------------------- one setter call

  ghost function Validated(s: BatteryState, q: Quantity, v: real): (t: BatteryState)
    requires s.Complete()
    ensures t.Complete()
  {
    s.(definitions := s.definitions[q := Next(s.definitions[q], v)])
  }

  function ChargeStateFor(value: int): ChargeState {
    if value > 20 then Charging else if value < -20 then Discharging else Standby
  }

  /** The cell setter: no escape, a dead band of 10 mV, and its own start-up rule. */
  function NextCell(d: Definition, v: real): Definition {
    if d.val == 0.0 && v > 0.0 && d.min < v < d.max then d.(val := v)
    else if d.val == 0.0 && v == 0.0 then d
    else if !InRange(d, v) || !Close(d, v, d.val) then d
    else if v > 0.0 && Abs(v - d.val) > 10.0 then d.(val := v)
    else d
  }

  /** What a setter call does; None is the KeyError of a cell that does not exist. */
  ghost function Assigned(s: BatteryState, a: Assignment): (t: Option<BatteryState>)
    requires s.Complete()
    ensures t.Some? <==> Assignable(a)
    ensures t.Some? ==> t.value.Complete()
  {
    match a
    case SetMsg(m) => Some(s.(msg := m))
    case SetMvoltage(v) => Some(Validated(s, Mvoltage, v as real))
    case SetMcurrent(v) =>
      var t := Validated(s, Mcurrent, v as real);
      if v == 0 && Abs(t.definitions[Mcurrent].val) > 500.0 then Some(t)
      else Some(t.(chargeState := Some(ChargeStateFor(v))))
    case SetMcapacity(v) => Some(Validated(s, Mcapacity, v as real))
    case SetChargeCycles(v) =>
      var t := Validated(s, Cycles, v as real);
      if v > 0 then Some(t.(health := Some(if v > 2000 then Good else Perfect))) else Some(t)
    case SetSoc(v) => Some(Validated(s, Dsoc, (v * 10) as real))
    case SetTemperature(v) => Some(Validated(s, Dkelvin, v as real))
    case SetStatus(v) => Some(s.(status := Some(v)))
    case SetAfestatus(v) => Some(s.(afestatus := Some(v)))
    case SetCell(i, v) =>
      if i in s.cells then Some(s.(cells := s.cells[i := NextCell(s.cells[i], v as real)])) else None
  }

  predicate Assignable(a: Assignment) {
    a.SetCell? ==> 1 <= a.cell <= CELL_SLOTS
  }

  predicate AllAssignable(assignments: seq<Assignment>) {
    forall i :: 0 <= i < |assignments| ==> Assignable(assignments[i])
  }

  /** A run of setter calls. */
  ghost function AssignedAll(s: BatteryState, assignments: seq<Assignment>): (t: BatteryState)
    requires s.Complete() && AllAssignable(assignments)
    ensures t.Complete()
    decreases |assignments|
  {
    if assignments == [] then s
    else AssignedAll(Assigned(s, assignments[0]).value, assignments[1..])
  }

  lemma {:induction false} AssignedAllConcat(s: BatteryState, a: seq<Assignment>, b: seq<Assignment>)
    requires s.Complete() && AllAssignable(a) && AllAssignable(b)
    ensures AllAssignable(a + b)
    ensures AssignedAll(s, a + b) == AssignedAll(AssignedAll(s, a), b)
    decreases |a|
  {
    if a == [] {
      assert a + b == b;
    } else {
      assert (a + b)[1..] == a[1..] + b;
      AssignedAllConcat(Assigned(s, a[0]).value, a[1..], b);
    }
  }

  // ------------------------------------------------------- runs of setter calls

  /** The reading of a quantity in a setter call, if it is one; charge comes in percent and is held in tenths. */
  function ReadingIn(q: Quantity, a: Assignment): seq<real> {
    match a
    case SetMvoltage(v) => if q == Mvoltage then [v as real] else []
    case SetMcurrent(v) => if q == Mcurrent then [v as real] else []
    case SetMcapacity(v) => if q == Mcapacity then [v as real] else []
    case SetChargeCycles(v) => if q == Cycles then [v as real] else []
    case SetSoc(v) => if q == Dsoc then [10.0 * v as real] else []
    case SetTemperature(v) => if q == Dkelvin then [v as real] else []
    case _ => []
  }

  function CellReadingIn(cell: nat, a: Assignment): seq<real> {
    if a.SetCell? && a.cell == cell then [a.value as real] else []
  }

  function ReadingsOf(q: Quantity, assignments: seq<Assignment>): seq<real> {
    if assignments == [] then []
    else ReadingsOf(q, assignments[..|assignments| - 1]) + ReadingIn(q, assignments[|assignments| - 1])
  }

  function CellReadingsOf(cell: nat, assignments: seq<Assignment>): seq<real> {
    if assignments == [] then []
    else CellReadingsOf(cell, assignments[..|assignments| - 1]) + CellReadingIn(cell, assignments[|assignments| - 1])
  }

  lemma OneReading(d: Definition, v: real)
    ensures Run(d, [v]) == Next(d, v) && CellRun(d, [v]) == NextCell(d, v)
    ensures Run(d, []) == d && CellRun(d, []) == d
  {
    assert [v][..0] == [];
  }

  lemma CellRunSnoc(d: Definition, vs: seq<real>, last: seq<real>)
    requires |last| <= 1
    ensures CellRun(d, vs + last) == CellRun(CellRun(d, vs), last)
  {
    if last == [] {
      assert vs + last == vs;
    } else {
      assert (vs + last)[..|vs|] == vs && last[..0] == [];
    }
  }

  lemma QuantityOnItsOwn(s: BatteryState, a: Assignment, q: Quantity)
    requires s.Complete() && Assignable(a)
    ensures Assigned(s, a).value.definitions[q] == Run(s.definitions[q], ReadingIn(q, a))
  {
    hide Next, NextCell, Run, CellRun, ChargeStateFor, Abs;
    OneReading(s.definitions[q], 0.0);
    match a
    case SetMvoltage(v) => OneReading(s.definitions[q], v as real);
    case SetMcurrent(v) => OneReading(s.definitions[q], v as real);
    case SetMcapacity(v) => OneReading(s.definitions[q], v as real);
    case SetChargeCycles(v) => OneReading(s.definitions[q], v as real);
    case SetSoc(v) => OneReading(s.definitions[q], 10.0 * v as real);
    case SetTemperature(v) => OneReading(s.definitions[q], v as real);
    case _ =>
  }

  lemma CellOnItsOwn(s: BatteryState, a: Assignment, cell: nat)
    requires s.Complete() && Assignable(a) && 1 <= cell <= 16
    ensures Assigned(s, a).value.cells[cell] == CellRun(s.cells[cell], CellReadingIn(cell, a))
  {
    hide Next, NextCell, Run, CellRun, ChargeStateFor, Validated, Abs;
    OneReading(s.cells[cell], if a.SetCell? then a.value as real else 0.0);
    if !a.SetCell? {
      CellsUntouched(s, a);
    }
  }

  lemma CellsUntouched(s: BatteryState, a: Assignment)
    requires s.Complete() && !a.SetCell?
    ensures Assigned(s, a).value.cells == s.cells
  {
    hide Next;
  }

  lemma AllSnoc(s: BatteryState, assignments: seq<Assignment>)
    requires s.Complete() && assignments != [] && AllAssignable(assignments)
    ensures
      var init, last := assignments[..|assignments| - 1], assignments[|assignments| - 1];
      && AllAssignable(init) && Assignable(last)
      && AssignedAll(s, assignments) == Assigned(AssignedAll(s, init), last).value
  {
    hide Assigned;
    var init, last := assignments[..|assignments| - 1], assignments[|assignments| - 1];
    AssignedAllConcat(s, init, [last]);
    assert init + [last] == assignments;
    var r := AssignedAll(s, init);
    assert AssignedAll(r, [last]) == AssignedAll(Assigned(r, last).value, [last][1..]);
  }

  /**
   Whatever setters are called in whatever order, each quantity holds what the filter makes of its own
   readings alone, and each cell what the cell rule makes of its own.
   */
  lemma {:induction false} EachOnItsOwn(s: BatteryState, assignments: seq<Assignment>, q: Quantity, cell: nat)
    requires s.Complete() && AllAssignable(assignments) && 1 <= cell <= 16
    ensures AssignedAll(s, assignments).definitions[q] == Run(s.definitions[q], ReadingsOf(q, assignments))
    ensures AssignedAll(s, assignments).cells[cell] == CellRun(s.cells[cell], CellReadingsOf(cell, assignments))
    decreases |assignments|
  {
    hide Run, CellRun, ReadingIn, CellReadingIn, Assigned;
    if assignments == [] {
      NoReadings(s, q, cell);
    } else {
      var init, last := assignments[..|assignments| - 1], assignments[|assignments| - 1];
      AllSnoc(s, assignments);
      EachOnItsOwn(s, init, q, cell);
      var r := AssignedAll(s, init);
      hide AssignedAll;
      QuantityOnItsOwn(r, last, q);
      CellOnItsOwn(r, last, cell);
      RunConcat(s.definitions[q], ReadingsOf(q, init), ReadingIn(q, last));
      AtMostOne(last, cell);
      CellRunSnoc(s.cells[cell], CellReadingsOf(cell, init), CellReadingIn(cell, last));
    }
  }

  lemma AtMostOne(a: Assignment, cell: nat)
    ensures |CellReadingIn(cell, a)| <= 1
  {
  }

  lemma NoReadings(s: BatteryState, q: Quantity, cell: nat)
    requires s.Complete() && 1 <= cell <= 16
    ensures Run(s.definitions[q], ReadingsOf(q, [])) == s.definitions[q]
    ensures CellRun(s.cells[cell], CellReadingsOf(cell, [])) == s.cells[cell]
  {
  }

  /**
   The labels a setter call leaves: of the current, unless a zero meets a stored current over half
   an ampere, and of the cycles.
   */
  lemma {:induction false} LabelsExactly(s: BatteryState, a: Assignment)
    requires s.Complete() && Assignable(a)
    ensures
      var t := Assigned(s, a).value;
      var stored := t.definitions[Mcurrent].val;
      && t.chargeState == (if !a.SetMcurrent? || (a.value == 0 && (stored > 500.0 || stored < -500.0))
                           then s.chargeState else if a.value > 20 then Some(Charging)
                           else if a.value < -20 then Some(Discharging) else Some(Standby))
      && t.health == (if !a.SetChargeCycles? || a.value <= 0 then s.health
                      else if a.value > 2000 then Some(Good) else Some(Perfect))
      && t.status == (if a.SetStatus? then Some(a.value) else s.status)
      && t.afestatus == (if a.SetAfestatus? then Some(a.value) else s.afestatus)
      && t.msg == (if a.SetMsg? then a.message else s.msg)
  {
    hide Next, NextCell;
  }

  /** The limits of a fresh battery: the first reading it stores, and how far the second may be away. */
  lemma {:induction false} FirstTwoReadings(q: Quantity, v: real, w: real)
    requires v != 0.0 && v != 2731.0 && w != v
    ensures
      var d := InitialState().definitions[q];
      var (min, max, step) := match q
        case Dsoc => (1.0, 1000.0, 100.0)
        case Dkelvin => (1731.0, 3731.0, 20.0)
        case Mcapacity => (1.0, 250000.0, 20000.0)
        case Mcurrent => (-500000.0, 500000.0, 400000.0)
        case Mvoltage => (10000.0, 15000.0, 12000.0)
        case Cycles => (1.0, 10000.0, 1.0);
      && (Run(d, [v]).val == v <==> min <= v <= max)
      && (min <= v <= max ==> (Run(d, [v, w]).val == w <==> min <= w <= max && w - v <= step && v - w <= step))
      && d == Definition(if q == Dkelvin then 2731.0 else 0.0, min, max, step, 0, None)
  {
    assert [v, w][..1] == [v] && [v][..0] == [];
    var d := InitialState().definitions[q];
    assert Run(d, [v]) == Next(d, v) && Run(d, [v, w]) == Next(Next(d, v), w);
    match q
    case Dsoc => case Dkelvin => case Mcapacity => case Mcurrent => case Mvoltage => case Cycles =>
  }

  // ------------------------------------------------------- the cells

  function CellRun(d: Definition, vs: seq<real>): (r: Definition)
    ensures SameLimits(d, r)
  {
    if vs == [] then d else NextCell(CellRun(d, vs[..|vs| - 1]), vs[|vs| - 1])
  }

  /** A cell that has been read stays within its bounds, and a cell voltage is one that was reported. */
  lemma {:induction false} CellBounded(d: Definition, vs: seq<real>)
    requires d.val == 0.0
    ensures var c := CellRun(d, vs).val; c == 0.0 || (InRange(d, c) && c in vs)
  {
    if vs != [] {
      CellBounded(d, vs[..|vs| - 1]);
    }
  }

  /** A reading the cell setter would store in place of the voltage it holds. */
  predicate Moves(d: Definition, v: real) {
    && d.min <= v <= d.max && v > 0.0
    && (v - d.val > 10.0 || d.val - v > 10.0) && v - d.val <= d.maxdiff && d.val - v <= d.maxdiff
  }

  /**
   A reading changes a cell exactly when it moves it, or is the first one and strictly inside the
   bounds; it then is what the cell holds.
   */
  lemma {:induction false} CellExactly(d: Definition, v: real)
    ensures NextCell(d, v)
         == if Moves(d, v) || (d.val == 0.0 && v > 0.0 && d.min < v < d.max) then d.(val := v) else d
  {
  }

  /** The cells of a fresh battery: empty, 2000 to 4000 mV, steps of at most 500 mV. */
  lemma {:induction false} FreshCells(cell: nat)
    requires 1 <= cell <= 16
    ensures InitialState().cells[cell] == Definition(0.0, 2000.0, 4000.0, 500.0, 0, None)
  {
    FreshCellsUpTo(16, cell);
  }

  lemma {:induction false} FreshCellsUpTo(n: nat, cell: nat)
    requires 1 <= cell <= n
    ensures InitialCells(n)[cell] == Definition(0.0, 2000.0, 4000.0, 500.0, 0, None)
  {
    if cell < n {
      FreshCellsUpTo(n - 1, cell);
    }
  }

  lemma {:induction false} CellStays(d: Definition, vs: seq<real>)
    requires d.val != 0.0 && forall k :: 0 <= k < |vs| ==> !Moves(d, vs[k])
    ensures CellRun(d, vs) == d
  {
    if vs != [] {
      CellStays(d, vs[..|vs| - 1]);
    }
  }

  /**
   Unlike `validate`, the cell setter has no escape: a stored voltage moves for
   the first time exactly when some reading is in range, positive, more than
   10 mV and at most maxdiff away. Until then nothing, however persistent, moves it.
   */
  lemma {:induction false} CellMovesOnlyNearby(d: Definition, vs: seq<real>)
    requires d.val != 0.0
    ensures (forall n :: 0 <= n <= |vs| ==> CellRun(d, vs[..n]) == d)
       <==> (forall k :: 0 <= k < |vs| ==> !Moves(d, vs[k]))
  {
    if forall k :: 0 <= k < |vs| ==> !Moves(d, vs[k]) {
      forall n | 0 <= n <= |vs| ensures CellRun(d, vs[..n]) == d {
        CellStays(d, vs[..n]);
      }
    } else {
      var k :| 0 <= k < |vs| && Moves(d, vs[k]);
      if CellRun(d, vs[..k]) == d {
        assert vs[..k + 1][..k] == vs[..k];
        assert CellRun(d, vs[..k + 1]) != d;
      }
    }
  }

  // ------------------------------------------------------- the object

  class BatteryDevice {
    var definitions: map<Quantity, Definition>
    var cells: map<nat, Definition>
    var chargeState: Option<ChargeState>
    var health: Option<Health>
    var status: Option<int>
    var afestatus: Option<int>
    var msg: seq<Byte>

    ghost predicate Valid()
      reads this
    {
      State().Complete()
    }

    ghost function State(): BatteryState
      reads this
    {
      BatteryState(definitions, cells, chargeState, health, status, afestatus, msg)
    }

    constructor ()
      ensures Valid() && State() == InitialState()
    {
      definitions := InitialDefinitions();
      chargeState, health, status, afestatus, msg := None, None, None, None, [];
      var slots: map<nat, Definition> := map[];
      var i: nat := 0;
      while i < CELL_SLOTS
        invariant i <= CELL_SLOTS && slots == InitialCells(i)
      {
        i := i + 1;
        slots := slots[i := Limits(0, 2000, 4000, 500)];
      }
      cells := slots;
    }

    /** `validate`: the branches of the source, in its order. It returns False, or None once the value is stored. */
    method Validate(q: Quantity, v: real) returns (result: Option<bool>)
      requires Valid()
      modifies this
      ensures Valid() && State() == Validated(old(State()), q, v)
      ensures result == if v != old(definitions[q].val) && definitions[q].val == v then None else Some(false)
    {
      var d := definitions[q];
      if v == d.val {
        d := d.(rejected := 0, rejectedVal := None);
        definitions := definitions[q := d];
        return Some(false);
      }
      assert definitions[q := d] == definitions;
      if v > d.max { return Some(false); }
      if v < d.min { return Some(false); }
      if (d.val != 0.0 && d.val != 2731.0) && Abs(v - d.val) > d.maxdiff {
        if d.rejectedVal.Some? && Abs(v - d.rejectedVal.value) <= d.maxdiff {
          d := d.(rejected := d.rejected + 1);
        } else {
          d := d.(rejected := 1);
        }
        d := d.(rejectedVal := Some(v));
        if d.rejected <= MAX_CONSECUTIVE_REJECTS {
          definitions := definitions[q := d];
          return Some(false);
        }
      }
      d := d.(rejected := 0, rejectedVal := None);
      d := d.(val := v);
      definitions := definitions[q := d];
      return None;
    }

    method SetCellMvoltage(cell: nat, value: int)
      requires Valid() && Assignable(SetCell(cell, value))
      modifies this
      ensures Valid() && State() == Assigned(old(State()), SetCell(cell, value)).value
    {
      var d, v := cells[cell], value as real;
      assert cells[cell := d] == cells;
      if d.val == 0.0 && v > 0.0 && v > d.min && v < d.max {
        cells := cells[cell := d.(val := v)];
        return;
      }
      if d.val == 0.0 && v == 0.0 { return; }
      if v > d.max { return; }
      if v < d.min { return; }
      if Abs(v - d.val) > d.maxdiff { return; }
      if v > 0.0 && Abs(v - d.val) > 10.0 {
        cells := cells[cell := d.(val := v)];
      }
    }

    method Assign(a: Assignment)
      requires Valid() && Assignable(a)
      modifies this
      ensures Valid() && State() == Assigned(old(State()), a).value
    {
      match a {
        case SetMsg(m) => msg := m;
        case SetMvoltage(v) => var _ := Validate(Mvoltage, v as real);
        case SetMcurrent(v) =>
          var _ := Validate(Mcurrent, v as real);
          var stored := definitions[Mcurrent].val;
          if v == 0 && (stored > 500.0 || stored < -500.0) { return; }
          chargeState := Some(if v > 20 then Charging else if v < -20 then Discharging else Standby);
        case SetMcapacity(v) => var _ := Validate(Mcapacity, v as real);
        case SetChargeCycles(v) =>
          var _ := Validate(Cycles, v as real);
          if v > 0 {
            health := Some(if v > 2000 then Good else Perfect);
          }
        case SetSoc(v) => var _ := Validate(Dsoc, (v * 10) as real);
        case SetTemperature(v) => var _ := Validate(Dkelvin, v as real);
        case SetStatus(v) => status := Some(v);
        case SetAfestatus(v) => afestatus := Some(v);
        case SetCell(i, v) => SetCellMvoltage(i, v);
      }
    }
  }
}
