/**
 The validation filter of `PowerDevice.validate` (solardevice.py): one stored
 value, hard bounds, a bound on the step between readings, and an escape that
 believes the third of three consistent readings that jump too far.
 */
module Filter {
  import opened Common

  const MAX_CONSECUTIVE_REJECTS: nat := 2

  /** One of the dictionaries an entity keeps per quantity. */
  datatype Definition = Definition(val: real, min: real, max: real, maxdiff: real,
                                   rejected: nat, rejectedVal: Option<real>)

  function Limits(val: int, min: int, max: int, maxdiff: int): Definition {
    Definition(val as real, min as real, max as real, maxdiff as real, 0, None)
  }

  predicate Fresh(d: Definition) {
    d.rejected == 0 && d.rejectedVal == None
  }

  predicate InRange(d: Definition, v: real) {
    d.min <= v <= d.max
  }

  /** 0 and 2731 are the values an entity starts with; they mean "nothing read yet". */
  predicate Unset(d: Definition) {
    d.val == 0.0 || d.val == 2731.0
  }

  predicate SameLimits(d: Definition, e: Definition) {
    d.min == e.min && d.max == e.max && d.maxdiff == e.maxdiff
  }

  predicate Close(d: Definition, a: real, b: real) {
    Abs(a - b) <= d.maxdiff
  }

  /** The reject count once v has been seen too far from the stored value. */
  function RejectsAfter(d: Definition, v: real): nat {
    if d.rejectedVal.Some? && Close(d, v, d.rejectedVal.value) then d.rejected + 1 else 1
  }

  predicate Accepts(d: Definition, v: real) {
    && v != d.val
    && InRange(d, v)
    && (Unset(d) || Close(d, v, d.val) || RejectsAfter(d, v) > MAX_CONSECUTIVE_REJECTS)
  }

  function Next(d: Definition, v: real): Definition {
    if v == d.val then d.(rejected := 0, rejectedVal := None)
    else if !InRange(d, v) then d
    else if Accepts(d, v) then d.(val := v, rejected := 0, rejectedVal := None)
    else d.(rejected := RejectsAfter(d, v), rejectedVal := Some(v))
  }

  /** The filter after a whole run of readings. */
  function Run(d: Definition, vs: seq<real>): (r: Definition)
    ensures SameLimits(d, r)
  {
    if vs == [] then d else Next(Run(d, vs[..|vs| - 1]), vs[|vs| - 1])
  }

  lemma {:induction false} RunConcat(d: Definition, a: seq<real>, b: seq<real>)
    ensures Run(d, a + b) == Run(Run(d, a), b)
  {
    if b == [] {
      assert a + b == a;
    } else {
      assert (a + b)[..|a + b| - 1] == a + b[..|b| - 1];
      RunConcat(d, a, b[..|b| - 1]);
    }
  }

  // ------------------------------------------------- bounds on every run

  /** The stored value is the initial one or lies within the hard bounds. */
  lemma {:induction false} StoredValueBounded(d: Definition, vs: seq<real>)
    ensures Run(d, vs).val == d.val || InRange(d, Run(d, vs).val)
  {
    if vs != [] {
      StoredValueBounded(d, vs[..|vs| - 1]);
    }
  }

  // ------------------------------------------------- jumps

  /** In range and a jump away from the stored value: such a reading counts towards the escape. */
  predicate Counted(d: Definition, v: real) {
    InRange(d, v) && v != d.val && !Close(d, v, d.val)
  }

  /** Outside the hard bounds (and not a repeat of the stored value): such a reading leaves no trace. */
  predicate Ignored(d: Definition, v: real) {
    !InRange(d, v) && v != d.val
  }

  /** The last counted reading that only ignored readings follow, or -1. */
  function LastCounted(d: Definition, vs: seq<real>): (j: int)
    ensures -1 <= j < |vs|
    ensures j >= 0 ==> Counted(d, vs[j]) && forall k :: j < k < |vs| ==> Ignored(d, vs[k])
  {
    if vs == [] then -1
    else
      var last := |vs| - 1;
      if Counted(d, vs[last]) then last
      else if Ignored(d, vs[last]) then LastCounted(d, vs[..last])
      else -1
  }

  /** vs ends in two counted readings close to each other (ignored readings aside). */
  predicate EndsInPair(d: Definition, vs: seq<real>) {
    var j := LastCounted(d, vs);
    j >= 0 && (var i := LastCounted(d, vs[..j]); i >= 0 && Close(d, vs[j], vs[i]))
  }

  /** What the reject count and the last rejected value say about the readings seen so far. */
  predicate Pending(s: Definition, vs: seq<real>) {
    var j := LastCounted(s, vs);
    && s.rejectedVal == (if j >= 0 then Some(vs[j]) else None)
    && s.rejected == (if j < 0 then 0 else if EndsInPair(s, vs) then 2 else 1)
  }

  lemma LastCountedSnoc(d: Definition, vs: seq<real>, v: real)
    ensures Counted(d, v) ==> LastCounted(d, vs + [v]) == |vs|
    ensures Ignored(d, v) ==> LastCounted(d, vs + [v]) == LastCounted(d, vs)
    ensures !Counted(d, v) && !Ignored(d, v) ==> LastCounted(d, vs + [v]) == -1
  {
    assert (vs + [v])[..|vs|] == vs;
  }

  lemma PendingStep(s: Definition, vs: seq<real>, v: real)
    requires Pending(s, vs)
    ensures Pending(Next(s, v), vs + [v])
  {
    var t, us := Next(s, v), vs + [v];
    assert us[..|vs|] == vs;
    LastCountedSnoc(t, vs, v);
    if !Accepts(s, v) {
      SameValueSameChain(s, t, vs);
      SameValueSameChain(s, t, us);
      var j := LastCounted(t, us);
      if Ignored(s, v) && j >= 0 {
        assert us[..j] == vs[..j];
      }
    }
  }

  lemma {:induction false} SameValueSameChain(s: Definition, t: Definition, vs: seq<real>)
    requires SameLimits(s, t) && s.val == t.val
    ensures LastCounted(s, vs) == LastCounted(t, vs)
    ensures EndsInPair(s, vs) == EndsInPair(t, vs)
    decreases |vs|
  {
    if vs != [] {
      SameValueSameChain(s, t, vs[..|vs| - 1]);
    }
    var j := LastCounted(s, vs);
    if j >= 0 {
      SameValueSameChain(s, t, vs[..j]);
    }
  }

  lemma {:induction false} PendingInvariant(d: Definition, vs: seq<real>)
    requires Fresh(d)
    ensures Pending(Run(d, vs), vs)
  {
    if vs != [] {
      var init := vs[..|vs| - 1];
      PendingInvariant(d, init);
      PendingStep(Run(d, init), init, vs[|vs| - 1]);
      assert init + [vs[|vs| - 1]] == vs;
    }
  }

  /** What is believed follows from the reject count and the last rejected value. */
  lemma JumpFromPending(d: Definition, vs: seq<real>, v: real)
    requires Fresh(d)
    requires var s := Run(d, vs); !Unset(s) && Counted(s, v)
    ensures var s := Run(d, vs);
            Accepts(s, v) <==> EndsInPair(s, vs) && Close(s, v, vs[LastCounted(s, vs)])
  {
    PendingInvariant(d, vs);
  }

  lemma {:induction false} LastCountedUnique(d: Definition, vs: seq<real>, j: nat)
    requires j < |vs| && Counted(d, vs[j]) && forall k :: j < k < |vs| ==> Ignored(d, vs[k])
    ensures LastCounted(d, vs) == j
  {
    if j < |vs| - 1 {
      LastCountedUnique(d, vs[..|vs| - 1], j);
    }
  }

  // ------------------------------------------------- what a reading does, in figures

  /** At most maxdiff apart. */
  predicate Within(d: Definition, a: real, b: real) {
    a - b <= d.maxdiff && b - a <= d.maxdiff
  }

  /** In the hard bounds, and further than maxdiff from the value val. */
  predicate Jump(d: Definition, val: real, x: real) {
    x != val && d.min <= x <= d.max && (x - val > d.maxdiff || val - x > d.maxdiff)
  }

  predicate Outside(d: Definition, val: real, x: real) {
    x != val && (x < d.min || x > d.max)
  }

  /** After any run, a reading in bounds is stored at once when nothing was read before or it is near enough. */
  lemma {:induction false} NearIsStored(d: Definition, vs: seq<real>, v: real)
    requires d.min <= v <= d.max
    requires
      var val := Run(d, vs).val;
      val == 0.0 || val == 2731.0 || (v - val <= d.maxdiff && val - v <= d.maxdiff)
    ensures Run(d, vs + [v]) == Run(d, vs).(val := v, rejected := 0, rejectedVal := None)
  {
    assert (vs + [v])[..|vs|] == vs;
  }

  /** A repeat of the stored value ends the run of rejects; a reading out of bounds leaves no trace. */
  lemma {:induction false} RepeatsAndOutsiders(d: Definition, vs: seq<real>, v: real)
    ensures
      var s, t := Run(d, vs), Run(d, vs + [v]);
      && (v == s.val ==> t == s.(rejected := 0, rejectedVal := None))
      && (v != s.val && (v < d.min || v > d.max) ==> t == s)
  {
    assert (vs + [v])[..|vs|] == vs;
  }

  /**
   vs ends in two jumps within maxdiff of each other, the last within maxdiff of v, and else only
   outsiders behind the first.
   */
  ghost predicate ThirdOfThree(d: Definition, val: real, vs: seq<real>, v: real) {
    exists i, j :: 0 <= i < j < |vs| && Jump(d, val, vs[i]) && Jump(d, val, vs[j])
                   && Within(d, vs[j], vs[i]) && Within(d, v, vs[j])
                   && forall k :: i < k < |vs| && k != j ==> Outside(d, val, vs[k])
  }

  /**
   After any run from a fresh definition, a reading in bounds that is further than maxdiff from
   the stored value is believed exactly when it is the third of three such readings, each within
   maxdiff of the one before, with nothing but out-of-bounds readings in between.
   */
  lemma {:induction false} JumpIsThirdConsistentReading(d: Definition, vs: seq<real>, v: real)
    requires d.rejected == 0 && d.rejectedVal == None
    requires Run(d, vs).val != 0.0 && Run(d, vs).val != 2731.0 && Jump(d, Run(d, vs).val, v)
    ensures
      var val := Run(d, vs).val;
      && (Run(d, vs + [v]).val == v <==> ThirdOfThree(d, val, vs, v))
      && (!ThirdOfThree(d, val, vs, v) ==> Run(d, vs + [v]).val == val)
  {
    assert (vs + [v])[..|vs|] == vs;
    var s := Run(d, vs);
    JumpFromPending(d, vs, v);
    JumpIsCounted(d, s, v, v);
    if ThirdOfThree(d, s.val, vs, v) {
      ThirdIsPair(d, s, vs, v);
    } else if EndsInPair(s, vs) && Close(s, v, vs[LastCounted(s, vs)]) {
      PairIsThird(d, s, vs, v);
    }
  }

  lemma JumpIsCounted(d: Definition, s: Definition, x: real, y: real)
    requires SameLimits(d, s)
    ensures Jump(d, s.val, x) <==> Counted(s, x)
    ensures Outside(d, s.val, x) <==> Ignored(s, x)
    ensures Within(d, x, y) <==> Close(s, x, y)
  {
  }

  lemma ThirdIsPair(d: Definition, s: Definition, vs: seq<real>, v: real)
    requires SameLimits(d, s) && ThirdOfThree(d, s.val, vs, v)
    ensures EndsInPair(s, vs) && Close(s, v, vs[LastCounted(s, vs)])
  {
    var i, j :| 0 <= i < j < |vs| && Jump(d, s.val, vs[i]) && Jump(d, s.val, vs[j])
                && Within(d, vs[j], vs[i]) && Within(d, v, vs[j])
                && forall k :: i < k < |vs| && k != j ==> Outside(d, s.val, vs[k]);
    JumpIsCounted(d, s, vs[i], vs[j]);
    JumpIsCounted(d, s, vs[j], vs[i]);
    JumpIsCounted(d, s, v, vs[j]);
    forall k | i < k < |vs| && k != j ensures Ignored(s, vs[k]) {
      JumpIsCounted(d, s, vs[k], v);
    }
    hide Jump, Outside, Within, Close, Counted, Ignored, LastCounted;
    LastCountedUnique(s, vs, j);
    LastCountedUnique(s, vs[..j], i);
  }

  lemma PairIsThird(d: Definition, s: Definition, vs: seq<real>, v: real)
    requires SameLimits(d, s) && EndsInPair(s, vs) && Close(s, v, vs[LastCounted(s, vs)])
    ensures ThirdOfThree(d, s.val, vs, v)
  {
    hide Jump, Outside, Within, Close, Counted, Ignored, LastCounted;
    var j := LastCounted(s, vs);
    var i := LastCounted(s, vs[..j]);
    assert vs[..j][i] == vs[i];
    JumpIsCounted(d, s, vs[i], vs[j]);
    JumpIsCounted(d, s, vs[j], vs[i]);
    JumpIsCounted(d, s, v, vs[j]);
    forall k | i < k < |vs| && k != j ensures Outside(d, s.val, vs[k]) {
      assert k < j ==> vs[..j][k] == vs[k];
      JumpIsCounted(d, s, vs[k], v);
    }
  }

  /** Jumps no two of which are within maxdiff of each other never move the stored value. */
  lemma {:induction false} ScatteredNeverMoves(d: Definition, vs: seq<real>)
    requires d.rejected == 0 && d.rejectedVal == None && d.val != 0.0 && d.val != 2731.0
    requires forall k :: 0 <= k < |vs| ==> Jump(d, d.val, vs[k]) || Outside(d, d.val, vs[k])
    requires forall i, j :: 0 <= i < j < |vs| && Jump(d, d.val, vs[i]) && Jump(d, d.val, vs[j]) ==>
      !Within(d, vs[j], vs[i])
    ensures Run(d, vs).val == d.val
  {
    if vs != [] {
      var init, v := vs[..|vs| - 1], vs[|vs| - 1];
      ScatteredNeverMoves(d, init);
      assert init + [v] == vs;
      if Jump(d, d.val, v) {
        JumpIsThirdConsistentReading(d, init, v);
      } else {
        RepeatsAndOutsiders(d, init, v);
      }
    }
  }

  // ------------------------------------------------- self-stabilisation

  function Count(vs: seq<real>, v: real): nat {
    if vs == [] then 0 else Count(vs[..|vs| - 1], v) + (if vs[|vs| - 1] == v then 1 else 0)
  }

  /** A state some run reaches when the initial value is 0, 2731 or within the bounds. */
  predicate Plausible(s: Definition) {
    s.rejected <= MAX_CONSECUTIVE_REJECTS && (Unset(s) || InRange(s, s.val))
  }

  lemma {:induction false} PlausibleInvariant(d: Definition, vs: seq<real>)
    requires Fresh(d) && Plausible(d)
    ensures Plausible(Run(d, vs))
  {
    PendingInvariant(d, vs);
    StoredValueBounded(d, vs);
  }

  function Settled(s: Definition, v: real): Definition {
    s.(val := v, rejected := 0, rejectedVal := None)
  }

  /** Where the filter can be after n repeats of v among readings outside the bounds. */
  predicate Settling(s: Definition, t: Definition, v: real, n: nat) {
    || (n >= 1 && t == Settled(s, v))
    || (n == 0 && t.val == s.val && Plausible(t) && SameLimits(s, t))
    || (1 <= n <= MAX_CONSECUTIVE_REJECTS && t == s.(rejected := t.rejected, rejectedVal := Some(v))
        && n <= t.rejected <= MAX_CONSECUTIVE_REJECTS && InRange(s, s.val) && !Unset(s) && Counted(s, v))
  }

  lemma {:induction false} SettlingRun(s: Definition, vs: seq<real>, v: real)
    requires Plausible(s) && InRange(s, v) && s.maxdiff >= 0.0
    requires forall k :: 0 <= k < |vs| ==> vs[k] == v || !InRange(s, vs[k])
    ensures Settling(s, Run(s, vs), v, Count(vs, v))
  {
    if vs != [] {
      SettlingRun(s, vs[..|vs| - 1], v);
    }
  }

  /** At least three repeats of v, interleaved with any readings outside the bounds. */
  predicate Repeats(s: Definition, vs: seq<real>, v: real) {
    && Count(vs, v) >= MAX_CONSECUTIVE_REJECTS + 1
    && forall k :: 0 <= k < |vs| ==> vs[k] == v || !InRange(s, vs[k])
  }

  /** The step bound is a bound, or the first repeat of v passes without it. */
  predicate Yields(s: Definition, v: real) {
    s.maxdiff >= 0.0 || Unset(s) || v == s.val
  }

  /** An unset value, or v itself, takes the first repeat whatever the step bound. */
  lemma {:induction false} SettlingAtOnce(s: Definition, vs: seq<real>, v: real)
    requires InRange(s, v) && (Unset(s) || v == s.val)
    requires forall k :: 0 <= k < |vs| ==> vs[k] == v || !InRange(s, vs[k])
    ensures Run(s, vs) == Settled(s, v) || (Count(vs, v) == 0 && Run(s, vs).val == s.val)
  {
    if vs != [] {
      SettlingAtOnce(s, vs[..|vs| - 1], v);
    }
  }

  /**
   Self-stabilisation: from any plausible state, three repeats of one in-range
   reading, interleaved with any readings outside the bounds, forget the past
   exactly when the step bound is not negative, nothing has been read yet, or the
   reading is the stored value.
   */
  lemma {:induction false} ThreeRepeatsSettle(s: Definition, vs: seq<real>, v: real)
    requires Plausible(s) && InRange(s, v) && Repeats(s, vs, v)
    ensures Run(s, vs) == Settled(s, v) <==> Yields(s, v)
  {
    if s.maxdiff >= 0.0 {
      SettlingRun(s, vs, v);
    } else if Unset(s) || v == s.val {
      SettlingAtOnce(s, vs, v);
    } else {
      NegativeStepLatches(s, vs);
    }
  }

  /** Two filters with the same limits and different pasts that both yield agree after the same three repeats. */
  lemma {:induction false} DifferentPastsConverge(
    d: Definition, e: Definition, past: seq<real>, other: seq<real>, vs: seq<real>, v: real)
    requires Fresh(d) && Plausible(d) && Fresh(e) && Plausible(e) && SameLimits(d, e)
    requires InRange(d, v) && Repeats(d, vs, v)
    requires Yields(Run(d, past), v) && Yields(Run(e, other), v)
    ensures Run(d, past + vs) == Run(e, other + vs)
  {
    RunConcat(d, past, vs);
    RunConcat(e, other, vs);
    PlausibleInvariant(d, past);
    PlausibleInvariant(e, other);
    ThreeRepeatsSettle(Run(d, past), vs, v);
    ThreeRepeatsSettle(Run(e, other), vs, v);
  }

  /** Two repeats are not enough when the reading jumps. */
  lemma {:induction false} TwoRepeatsDoNotSettle(s: Definition, v: real)
    requires Fresh(s) && !Unset(s) && Counted(s, v)
    ensures Run(s, [v, v]).val == s.val
  {
    var vs := [v, v];
    assert vs[..1] == [v] && [v][..0] == [];
    assert Run(s, [v]) == Next(s, v);
    assert Run(s, vs) == Next(Next(s, v), v);
  }

  /** With a negative step bound (a limit override can set one) the escape never opens. */
  lemma {:induction false} NegativeStepLatches(s: Definition, vs: seq<real>)
    requires s.maxdiff < 0.0 && !Unset(s)
    requires s.rejected <= MAX_CONSECUTIVE_REJECTS
    ensures Run(s, vs).val == s.val && Run(s, vs).rejected <= MAX_CONSECUTIVE_REJECTS
  {
    if vs != [] {
      NegativeStepLatches(s, vs[..|vs| - 1]);
    }
  }
}
