/**
 The Meritsun plugin (plugins/Meritsun/__init__.py): frames cut from the byte
 stream, checked by their additive sum and decoded into the battery entity.
 */
module Meritsun {
  import opened Common
  import opened Framer
  import opened Padding
  import opened AsciiHex
  import opened Battery

  const END_VAL: Byte := 12
  const BUFFER: nat := 122
  const MIN_END: nat := 60
  const FULL_LENGTH: nat := 130
  const UINT32_WRAP: int := 0x1_0000_0000
  const INT32_MAX: int := 0x7fff_ffff

  // ------------------------------------------------- one packet

  /** The packet copied into a zero-filled buffer of 122 bytes. */
  function Buffered(packet: seq<Byte>): (buf: seq<Byte>)
    ensures |buf| == BUFFER
  {
    if |packet| >= BUFFER then packet[..BUFFER] else packet + seq(BUFFER - |packet|, _ => 0)
  }

  function FrameEndOf(packet: seq<Byte>): (end: nat)
    ensures end == 0 || 2 <= end <= Min(|packet|, BUFFER)
  {
    ContentEnd(packet, END_VAL, Min(|packet|, BUFFER))
  }

  predicate Accepted(packet: seq<Byte>) {
    FrameEndOf(packet) >= MIN_END && ChecksumOk(Buffered(packet), FrameEndOf(packet))
  }

  function MessageOf(packet: seq<Byte>): seq<Byte> {
    var n := Min(|packet|, BUFFER - 1);
    if n == 0 then [] else Buffered(packet)[1..n]
  }

  /** A field, or None when it is missing or holds anything but 0-9 and A-F. */
  function ReadField(message: seq<Byte>, start: nat, end: nat): Option<int>
    requires start <= end
  {
    if end >= |message| || exists i :: start <= i <= end && !IsUpperDigit(message[i]) then None
    else Some(FieldValue(message, start, end, 0))
  }

  /** The cell setter calls from slot i on: empty slots end them, implausible ones are skipped. */
  function CellCalls(message: seq<Byte>, i: nat): (calls: seq<Assignment>)
    requires i <= CELL_SLOTS
    ensures AllAssignable(calls)
    decreases CELL_SLOTS - i
  {
    if i == CELL_SLOTS then []
    else
      var mv := FieldValue(message, 4 * i + 44, 4 * i + 47, 0);
      if mv == 0 then []
      else (if 1000 <= mv <= 5000 then [SetCell(i + 1, mv)] else []) + CellCalls(message, i + 1)
  }

  /** The scalar fields behind the voltage. */
  datatype Scalar = Current | Capacity | ChargeCycles | Charge | Temperature | Status

  function ScalarCall(kind: Scalar, v: int): (call: Assignment)
    ensures Assignable(call)
  {
    match kind
    case Current => SetMcurrent(ToSigned(v, UINT32_WRAP, INT32_MAX))
    case Capacity => SetMcapacity(v)
    case ChargeCycles => SetChargeCycles(v)
    case Charge => SetSoc(v)
    case Temperature => SetTemperature(v)
    case Status => SetStatus(v)
  }

  function OptionalCall(kind: Scalar, field: Option<int>): (calls: seq<Assignment>)
    ensures AllAssignable(calls)
  {
    match field
    case None => []
    case Some(v) => [ScalarCall(kind, v)]
  }

  predicate Present(field: Option<int>) {
    field.Some? && field.value != 0
  }

  function CellBlock(message: seq<Byte>, full: bool): (calls: seq<Assignment>)
    ensures AllAssignable(calls)
  {
    if full then [SetAfestatus(FieldValue(message, 40, 41, 0))] + CellCalls(message, 0) else []
  }

  lemma CellBlockFull(message: seq<Byte>)
    ensures CellBlock(message, true) == [SetAfestatus(FieldValue(message, 40, 41, 0))] + CellCalls(message, 0)
  {
  }

  lemma CellCallsEnd(message: seq<Byte>)
    ensures CellCalls(message, CELL_SLOTS) == []
  {
  }

  lemma CellCallsStep(message: seq<Byte>, i: nat)
    requires i < CELL_SLOTS
    ensures
      var mv := FieldValue(message, i * 4 + 44, i * 4 + 47, 0);
      CellCalls(message, i) == if mv == 0 then [] else
                                 (if 1000 <= mv <= 5000 then [SetCell(i + 1, mv)] else []) + CellCalls(message, i + 1)
  {
    hide FieldValue;
  }

  /** The scalar fields as read from a message. */
  datatype Scalars = Scalars(mcurrent: Option<int>, mcapacity: Option<int>, cycles: Option<int>,
                             soc: Option<int>, temperature: Option<int>, status: Option<int>)
  {
    predicate AnyPresent() {
      || Present(mcurrent) || Present(mcapacity) || Present(cycles)
      || Present(soc) || Present(temperature) || Present(status)
    }

    function Calls(): (calls: seq<Assignment>)
      ensures AllAssignable(calls)
    {
      OptionalCall(Current, mcurrent) + OptionalCall(Capacity, mcapacity) + OptionalCall(ChargeCycles, cycles)
      + OptionalCall(Charge, soc) + OptionalCall(Temperature, temperature) + OptionalCall(Status, status)
    }
  }

  function ScalarsOf(message: seq<Byte>): Scalars {
    Scalars(ReadField(message, 8, 15), ReadField(message, 16, 23), ReadField(message, 24, 27),
            ReadField(message, 28, 31), ReadField(message, 32, 35), ReadField(message, 36, 37))
  }

  /** The setter calls a message makes, in order; None when it is not a reading. */
  function Decoded(message: seq<Byte>, full: bool): (calls: Option<seq<Assignment>>)
    ensures calls.Some? ==> AllAssignable(calls.value)
  {
    if |message| < 38 then None
    else
      var mvoltage := ReadField(message, 0, 7);
      if mvoltage == None || mvoltage.value < 1000 || !ScalarsOf(message).AnyPresent() then None
      else
        var head := [SetMsg(message), SetMvoltage(mvoltage.value)];
        ConcatAssignable(head, ScalarsOf(message).Calls(), CellBlock(message, full));
        Some(head + ScalarsOf(message).Calls() + CellBlock(message, full))
  }

  lemma ConcatAssignable(a: seq<Assignment>, b: seq<Assignment>, c: seq<Assignment>)
    requires AllAssignable(a) && AllAssignable(b) && AllAssignable(c)
    ensures AllAssignable(a + b + c)
  {
  }

  lemma DecodedReading(message: seq<Byte>, full: bool, mvoltage: int)
    requires |message| >= 38 && ReadField(message, 0, 7) == Some(mvoltage) && mvoltage >= 1000
    requires ScalarsOf(message).AnyPresent()
    ensures Decoded(message, full)
         == Some([SetMsg(message), SetMvoltage(mvoltage)] + ScalarsOf(message).Calls() + CellBlock(message, full))
  {
  }

  /** What a packet makes the plugin call on the battery; None when it is dropped. */
  function PacketCalls(packet: seq<Byte>): (calls: Option<seq<Assignment>>)
    ensures calls.Some? ==> AllAssignable(calls.value)
  {
    if Accepted(packet) then Decoded(MessageOf(packet), |packet| <= FULL_LENGTH) else None
  }

  // ------------------------------------------------- which messages are readings, in figures

  /** Present, and all of 0-9 and A-F. */
  predicate Hexed(message: seq<Byte>, start: nat, end: nat) {
    end < |message| && forall i :: start <= i <= end ==> 48 <= message[i] <= 57 || 65 <= message[i] <= 70
  }

  predicate SaysSomething(message: seq<Byte>, start: nat, end: nat) {
    Hexed(message, start, end) && FieldValue(message, start, end, 0) != 0
  }

  lemma ReadFieldExactly(message: seq<Byte>, start: nat, end: nat)
    requires start <= end
    ensures ReadField(message, start, end)
         == if Hexed(message, start, end) then Some(FieldValue(message, start, end, 0)) else None
  {
    hide FieldValue;
  }

  /**
   A message is refused exactly when it is short, has no voltage of a volt or more, or says nothing
   but the voltage.
   */
  lemma {:induction false} RefusedExactly(message: seq<Byte>, full: bool)
    ensures Decoded(message, full) == None
       <==> |message| < 38 || !Hexed(message, 0, 7) || FieldValue(message, 0, 7, 0) < 1000
            || !(SaysSomething(message, 8, 15) || SaysSomething(message, 16, 23) || SaysSomething(message, 24, 27)
                 || SaysSomething(message, 28, 31) || SaysSomething(message, 32, 35) || SaysSomething(message, 36, 37))
  {
    hide ReadField, FieldValue, Hexed, Scalars.Calls, CellBlock;
    ReadFieldExactly(message, 0, 7);
    ReadFieldExactly(message, 8, 15);
    ReadFieldExactly(message, 16, 23);
    ReadFieldExactly(message, 24, 27);
    ReadFieldExactly(message, 28, 31);
    ReadFieldExactly(message, 32, 35);
    ReadFieldExactly(message, 36, 37);
  }

  /** The call, if its field can be read. */
  function Only(readable: bool, call: Assignment): seq<Assignment> {
    if readable then [call] else []
  }

  /**
   A reading makes these calls in this order: message and voltage, one call for each scalar that can
   be read, and on a full frame the status block and the cells.
   */
  lemma {:induction false} CallsExactly(message: seq<Byte>, full: bool)
    requires Decoded(message, full).Some?
    ensures
      var current := FieldValue(message, 8, 15, 0);
      Decoded(message, full).value
      == [SetMsg(message), SetMvoltage(FieldValue(message, 0, 7, 0))]
         + (Only(Hexed(message, 8, 15), SetMcurrent(if current > 0x7fff_ffff then current - 0x1_0000_0000 else current))
            + Only(Hexed(message, 16, 23), SetMcapacity(FieldValue(message, 16, 23, 0)))
            + Only(Hexed(message, 24, 27), SetChargeCycles(FieldValue(message, 24, 27, 0)))
            + Only(Hexed(message, 28, 31), SetSoc(FieldValue(message, 28, 31, 0)))
            + Only(Hexed(message, 32, 35), SetTemperature(FieldValue(message, 32, 35, 0)))
            + Only(Hexed(message, 36, 37), SetStatus(FieldValue(message, 36, 37, 0))))
         + (if full then [SetAfestatus(FieldValue(message, 40, 41, 0))] + CellCalls(message, 0) else [])
  {
    hide ReadField, FieldValue, Hexed, CellCalls, ScalarsOf, Scalars.Calls, Scalars.AnyPresent, Only;
    ReadFieldExactly(message, 0, 7);
    ScalarCallsExactly(message);
  }

  lemma OneCall(message: seq<Byte>, start: nat, end: nat, kind: Scalar)
    requires start <= end
    ensures OptionalCall(kind, ReadField(message, start, end))
         == Only(Hexed(message, start, end), ScalarCall(kind, FieldValue(message, start, end, 0)))
  {
    hide FieldValue, Hexed, ScalarCall;
    ReadFieldExactly(message, start, end);
  }

  lemma ScalarCallsExactly(message: seq<Byte>)
    ensures
      var current := FieldValue(message, 8, 15, 0);
      ScalarsOf(message).Calls()
      == Only(Hexed(message, 8, 15), SetMcurrent(if current > 0x7fff_ffff then current - 0x1_0000_0000 else current))
         + Only(Hexed(message, 16, 23), SetMcapacity(FieldValue(message, 16, 23, 0)))
         + Only(Hexed(message, 24, 27), SetChargeCycles(FieldValue(message, 24, 27, 0)))
         + Only(Hexed(message, 28, 31), SetSoc(FieldValue(message, 28, 31, 0)))
         + Only(Hexed(message, 32, 35), SetTemperature(FieldValue(message, 32, 35, 0)))
         + Only(Hexed(message, 36, 37), SetStatus(FieldValue(message, 36, 37, 0)))
  {
    hide ReadField, FieldValue, Hexed, OptionalCall, Only;
    OneCall(message, 8, 15, Current);
    OneCall(message, 16, 23, Capacity);
    OneCall(message, 24, 27, ChargeCycles);
    OneCall(message, 28, 31, Charge);
    OneCall(message, 32, 35, Temperature);
    OneCall(message, 36, 37, Status);
  }

  /** The millivolts in a cell slot. */
  function CellAt(message: seq<Byte>, slot: int): int {
    FieldValue(message, 44 + 4 * slot, 47 + 4 * slot, 0)
  }

  /** A cell is set exactly when it reads 1000 to 5000 mV and no slot up to it reads 0. */
  lemma {:induction false} CellsExactly(message: seq<Byte>, i: nat, call: Assignment)
    requires i <= 16
    ensures call in CellCalls(message, i)
       <==> call.SetCell? && i < call.cell <= 16 && call.value == CellAt(message, call.cell - 1)
            && 1000 <= call.value <= 5000 && forall j :: i <= j < call.cell ==> CellAt(message, j) != 0
    decreases 16 - i
  {
    hide FieldValue, CellCalls;
    if i == 16 {
      CellCallsEnd(message);
    } else {
      CellCallsStep(message, i);
      CellsExactly(message, i + 1, call);
      assert CellAt(message, i) == FieldValue(message, i * 4 + 44, i * 4 + 47, 0);
    }
  }

  /** A frame of more than 130 bytes touches neither the status block nor the cells. */
  lemma {:induction false} BloatedSetsNoCells(packet: seq<Byte>, call: Assignment)
    requires PacketCalls(packet).Some? && |packet| > 130 && call in PacketCalls(packet).value
    ensures !call.SetAfestatus? && !call.SetCell?
  {
    hide Decoded, Accepted, FieldValue, Hexed;
    CallsExactly(MessageOf(packet), false);
  }

  /** Any other frame that is a reading sets the status block. */
  lemma {:induction false} FullSetsAfestatus(packet: seq<Byte>)
    requires PacketCalls(packet).Some? && |packet| <= 130
    ensures SetAfestatus(FieldValue(MessageOf(packet), 40, 41, 0)) in PacketCalls(packet).value
  {
    hide Decoded, Accepted, FieldValue, Hexed, CellCalls;
    var message := MessageOf(packet);
    CallsExactly(message, true);
    var calls := PacketCalls(packet).value;
    var call := SetAfestatus(FieldValue(message, 40, 41, 0));
    assert call in [call] + CellCalls(message, 0);
  }

  /** A pack whose frame says 13960 mV and zeros is refused: a run of zeros, not a reading. */
  lemma {:induction false} VoltageOnlyRefused(zeros: nat, full: bool)
    requires zeros >= 30
    ensures
      var message := [56, 56, 51, 54, 48, 48, 48, 48] + seq(zeros, _ => 48);
      FieldValue(message, 0, 7, 0) == 13960 && Decoded(message, full) == None
  {
    hide Decoded, FieldValue;
    var head: seq<Byte> := [56, 56, 51, 54, 48, 48, 48, 48];
    var message: seq<Byte> := head + seq(zeros, _ => 48);
    assert message[..8] == head;
    assert forall i :: 4 <= i < |message| ==> message[i] == 48;
    NothingButVoltage(message, full);
  }

  lemma NothingButVoltage(message: seq<Byte>, full: bool)
    requires |message| >= 38 && message[..8] == [56, 56, 51, 54, 48, 48, 48, 48]
    requires forall i :: 4 <= i < |message| ==> message[i] == 48
    ensures FieldValue(message, 0, 7, 0) == 13960 && Decoded(message, full) == None
  {
    hide Decoded, FieldValue;
    RefusedExactly(message, full);
    ZeroField(message, 8, 15);
    ZeroField(message, 16, 23);
    ZeroField(message, 24, 27);
    ZeroField(message, 28, 31);
    ZeroField(message, 32, 35);
    ZeroField(message, 36, 37);
    VoltageField(message);
  }

  lemma ZeroField(message: seq<Byte>, start: nat, end: nat)
    requires start < end < |message| && (end - start) % 2 == 1
    requires forall i :: start <= i <= end ==> message[i] == 48
    ensures FieldValue(message, start, end, 0) == 0
  {
    hide FieldValue;
    FieldIsLittleEndian(message, start, end, 0);
    ZeroBytes(message[start..end + 1]);
  }

  lemma {:induction false} ZeroBytes(chars: seq<Byte>)
    requires |chars| % 2 == 0 && forall i :: 0 <= i < |chars| ==> chars[i] == 48
    ensures AllDigits(chars) && LittleEndian(PairBytes(chars)) == 0
  {
    if |chars| >= 2 {
      ZeroBytes(chars[2..]);
      assert PairBytes(chars)[1..] == PairBytes(chars[2..]);
    }
  }

  lemma VoltageField(message: seq<Byte>)
    requires |message| >= 8 && message[..8] == [56, 56, 51, 54, 48, 48, 48, 48]
    ensures FieldValue(message, 0, 7, 0) == 13960
  {
    hide FieldValue;
    var chars := message[0..8];
    FieldIsLittleEndian(message, 0, 7, 0);
    assert chars == [56, 56, 51, 54, 48, 48, 48, 48];
    ZeroBytes(chars[2..][2..]);
    assert PairBytes(chars) == [0x88] + PairBytes(chars[2..]);
    assert PairBytes(chars[2..]) == [0x36] + PairBytes(chars[2..][2..]);
    assert PairBytes(chars)[1..][1..] == PairBytes(chars[2..][2..]);
  }

  lemma CallDone(begin: BatteryState, done: seq<Assignment>, call: Assignment)
    requires begin.Complete() && AllAssignable(done) && Assignable(call)
    ensures AllAssignable(done + [call])
    ensures AssignedAll(begin, done + [call]) == Assigned(AssignedAll(begin, done), call).value
  {
    AssignedAllConcat(begin, done, [call]);
    var s := AssignedAll(begin, done);
    assert AssignedAll(s, [call]) == AssignedAll(Assigned(s, call).value, [call][1..]);
  }

  ghost function Chain(done: seq<Assignment>, a: seq<Assignment>, b: seq<Assignment>): (c: seq<Assignment>)
    ensures c == a + b && (done + a) + b == done + c
  {
    assert (done + a) + b == done + (a + b);
    a + b
  }

  lemma TwoCalls(begin: BatteryState, a: Assignment, b: Assignment)
    requires begin.Complete() && Assignable(a) && Assignable(b)
    ensures AllAssignable([a, b])
    ensures AssignedAll(begin, [a, b]) == Assigned(Assigned(begin, a).value, b).value
  {
    CallDone(begin, [], a);
    CallDone(begin, [a], b);
    assert [] + [a] == [a] && [a] + [b] == [a, b];
  }

  /** Whatever frame end a packet has, the sum compared against the checksum field fits its 16 bits. */
  lemma {:induction false} SumNeverWraps(packet: seq<Byte>)
    ensures PairSum(Buffered(packet), 1, ChecksumStart(FrameEndOf(packet))) < 0x1_0000
  {
    PairSumBounds(Buffered(packet), 1, ChecksumStart(FrameEndOf(packet)));
  }

  /**
   One hex digit of an accepted packet's content or checksum turned into a digit
   of another value: the packet is rejected, unless the pair it stands in did not parse.
   */
  lemma {:induction false} CorruptedDigitRejected(packet: seq<Byte>, k: nat, c: Byte)
    requires Accepted(packet)
    requires 1 <= k <= ChecksumStart(FrameEndOf(packet)) + 3
    requires IsDigit(Buffered(packet)[k]) && IsDigit(c) && DigitValue(Buffered(packet)[k]) != DigitValue(c)
    ensures k < |packet| && FrameEndOf(packet[k := c]) == FrameEndOf(packet)
    ensures Accepted(packet[k := c])
       <==> PairReading(Buffered(packet)[PairStart(k)], Buffered(packet)[PairStart(k) + 1]) == None
  {
    hide PairReading, ChecksumOk, ContentEnd;
    ContentEndChange(packet, END_VAL, Min(|packet|, BUFFER), k, c);
    assert Buffered(packet[k := c]) == Buffered(packet)[k := c];
    OneDigitCorruption(Buffered(packet), FrameEndOf(packet), k, c);
  }

  // ------------------------------------------------- a run of packets

  /** The counters and the battery. */
  datatype Link = Link(ok: nat, bad: nat, battery: BatteryState)

  ghost function Handled(k: Link, packet: seq<Byte>): (r: Link)
    requires k.battery.Complete()
    ensures r.battery.Complete()
  {
    if !Accepted(packet) then k.(bad := k.bad + 1)
    else
      match PacketCalls(packet)
      case None => k.(ok := k.ok + 1)
      case Some(calls) => k.(ok := k.ok + 1, battery := AssignedAll(k.battery, calls))
  }

  ghost function HandledAll(k: Link, packets: seq<seq<Byte>>): (r: Link)
    requires k.battery.Complete()
    ensures r.battery.Complete()
    decreases |packets|
  {
    if packets == [] then k else HandledAll(Handled(k, packets[0]), packets[1..])
  }

  lemma {:induction false} HandledAllConcat(k: Link, a: seq<seq<Byte>>, b: seq<seq<Byte>>)
    requires k.battery.Complete()
    ensures HandledAll(k, a + b) == HandledAll(HandledAll(k, a), b)
    decreases |a|
  {
    if a == [] {
      assert a + b == b;
    } else {
      assert (a + b)[1..] == a[1..] + b;
      HandledAllConcat(Handled(k, a[0]), a[1..], b);
    }
  }

  /**
   A packet counts as a good frame: content up to 60 at least, and the pairs up to the checksum
   field add up to what that states.
   */
  predicate Good(packet: seq<Byte>) {
    var end, buf := FrameEndOf(packet), Buffered(packet);
    var p := ChecksumStart(end);
    end >= 60 && PairSum(buf, 1, p) == 256 * PairAt(buf, p) + PairAt(buf, p + 2)
  }

  function GoodOnes(packets: seq<seq<Byte>>): nat {
    if packets == [] then 0 else (if Good(packets[0]) then 1 else 0) + GoodOnes(packets[1..])
  }

  /** The counters count the good frames and the others. */
  lemma {:induction false} CountersExactly(k: Link, packets: seq<seq<Byte>>)
    requires k.battery.Complete()
    ensures
      var r := HandledAll(k, packets);
      && GoodOnes(packets) <= |packets|
      && r.ok == k.ok + GoodOnes(packets) && r.bad == k.bad + |packets| - GoodOnes(packets)
    decreases |packets|
  {
    hide PairSum, PairAt, ChecksumStart, PacketCalls;
    if packets != [] {
      CountersExactly(Handled(k, packets[0]), packets[1..]);
    }
  }

  /**
   The frame end in figures. Only the first 122 bytes count, the marker aside: without padding among
   them it is 0; otherwise it lies one past the first padding byte at 109 or later, or, when there is
   none, one past the last.
   */
  lemma {:induction false} FrameEndExactly(packet: seq<Byte>)
    ensures
      var n, end := if |packet| < 122 then |packet| else 122, FrameEndOf(packet);
      if end == 0 then forall i :: 1 <= i < n ==> packet[i] != 12
      else 2 <= end <= n && packet[end - 1] == 12
           && if end > 109 then forall i :: 109 <= i < end - 1 ==> packet[i] != 12
              else forall i :: end <= i < n ==> packet[i] != 12
  {
  }

  /** The message is the packet behind its marker, at most 120 bytes of it. */
  lemma {:induction false} MessageExactly(packet: seq<Byte>)
    ensures |packet| > 0 ==> MessageOf(packet) == packet[1..if |packet| < 121 then |packet| else 121]
    ensures packet == [] ==> MessageOf(packet) == []
  {
  }

  /** Accepted and rejected frames together count the packets cut. */
  lemma {:induction false} CountersCountPackets(k: Link, packets: seq<seq<Byte>>)
    requires k.battery.Complete()
    ensures var r := HandledAll(k, packets); r.ok + r.bad == k.ok + k.bad + |packets|
    decreases |packets|
  {
    if packets != [] {
      CountersCountPackets(Handled(k, packets[0]), packets[1..]);
    }
  }

  predicate AnyReading(packets: seq<seq<Byte>>) {
    exists i :: 0 <= i < |packets| && PacketCalls(packets[i]).Some?
  }

  lemma NothingDone(begin: Link)
    requires begin.battery.Complete()
    ensures HandledAll(begin, []) == begin && !AnyReading([])
  {
  }

  lemma PacketDone(begin: Link, done: seq<seq<Byte>>, packet: seq<Byte>, later: seq<seq<Byte>>)
    requires begin.battery.Complete()
    ensures HandledAll(begin, done + [packet]) == Handled(HandledAll(begin, done), packet)
    ensures done + ([packet] + later) == (done + [packet]) + later
    ensures AnyReading(done + [packet]) == (AnyReading(done) || PacketCalls(packet).Some?)
  {
    hide Handled, PacketCalls;
    HandledAllConcat(begin, done, [packet]);
    var k := HandledAll(begin, done);
    assert HandledAll(k, [packet]) == HandledAll(Handled(k, packet), [packet][1..]);
    var all := done + [packet];
    assert all[|done|] == packet;
    assert forall i :: 0 <= i < |done| ==> all[i] == done[i];
  }

  // ------------------------------------------------- searching the buffer

  /** `bytearray.find`: the first index of b at or after k, or -1. */
  function Find(s: seq<Byte>, b: Byte, k: nat): (r: int)
    requires k <= |s|
    ensures r == -1 || (k <= r < |s| && s[r] == b)
    ensures forall i :: k <= i < |s| && (r == -1 || i < r) ==> s[i] != b
    decreases |s| - k
  {
    if k == |s| then -1 else if s[k] == b then k else Find(s, b, k + 1)
  }

  /** `bytearray.rfind`: the last index of b, or -1. */
  function RFind(s: seq<Byte>, b: Byte): (r: int)
    ensures r == -1 || (0 <= r < |s| && s[r] == b)
    ensures forall i :: r < i < |s| ==> s[i] != b
  {
    if s == [] then -1 else if s[|s| - 1] == b then |s| - 1 else RFind(s[..|s| - 1], b)
  }

  lemma RFindIsLastMarker(s: seq<Byte>)
    ensures var a, b := RFind(s, START_VAL), RFind(s, OTHER_START);
            LastMarker(s) == if a < b then b else a
  {
  }

  // ------------------------------------------------- the object

  class Util {
    var stream: seq<Byte>
    var framesOk: nat
    var framesBad: nat
    const device: BatteryDevice

    ghost predicate Valid()
      reads this, device
    {
      device.Valid()
    }

    ghost function State(): Link
      reads this, device
    {
      Link(framesOk, framesBad, device.State())
    }

    constructor (device: BatteryDevice)
      requires device.Valid()
      ensures Valid() && this.device == device && stream == []
      ensures State() == Link(0, 0, device.State())
    {
      this.device := device;
      stream, framesOk, framesBad := [], 0, 0;
    }

    method EarliestMarker(at: nat) returns (found: int)
      requires at <= |stream|
      ensures found == if NextMarker(stream, at) == |stream| then -1 else NextMarker(stream, at)
    {
      found := -1;
      for m := 0 to |MARKERS|
        invariant -1 <= found < |stream|
        invariant found != -1 ==> at <= found && IsMarker(stream[found])
        invariant forall j, i :: 0 <= j < m && at <= i < (if found == -1 then |stream| else found)
                                 ==> stream[i] != MARKERS[j]
      {
        var q := Find(stream, MARKERS[m], at);
        if q >= 0 && (found < 0 || q < found) {
          found := q;
        }
      }
      assert MARKERS[0] == START_VAL && MARKERS[1] == OTHER_START;
      NextMarkerAt(stream, at, if found == -1 then |stream| else found);
    }

    /** Appending a notification and keeping the buffer within its bound. */
    method Extend(data: seq<Byte>)
      modifies this`stream
      ensures data != [] ==> stream == Buffer(old(stream), data)
    {
      stream := stream + data;
      if |stream| > 512 {
        var first, second := RFind(stream, START_VAL), RFind(stream, OTHER_START);
        var keep := if first < second then second else first;
        RFindIsLastMarker(stream);
        stream := if keep > 0 then stream[keep..] else stream[|stream| - 256..];
      }
    }

    /** Returns whether some packet of the notification was a reading. */
    method NotificationUpdate(data: seq<Byte>) returns (updated: bool)
      requires Valid() && Retained(stream)
      modifies this, device
      ensures Valid() && Retained(stream)
      ensures stream == Residue(Buffer(old(stream), data))
      ensures State() == HandledAll(old(State()), Packets(Buffer(old(stream), data)))
      ensures updated == AnyReading(Packets(Buffer(old(stream), data)))
    {
      hide Packets, Residue, LastMarker, NextMarker, Framed, PacketCalls, HandledAll, Handled, AnyReading, Noise;
      ghost var whole, begin := Buffer(stream, data), State();
      CutIsPartition(whole);
      NothingDone(begin);
      if data == [] {
        OnlyResidue(stream);
        return false;
      }
      Extend(data);
      updated := false;
      ghost var done := [];
      while true
        invariant Valid()
        invariant Packets(whole) == done + Packets(stream) && Residue(whole) == Residue(stream)
        invariant State() == HandledAll(begin, done)
        invariant updated == AnyReading(done)
        decreases |stream|
      {
        var start := EarliestMarker(0);
        if start < 0 {
          CutNothing(stream);
          stream := [];
          assert done + [] == done;
          break;
        }
        var nxt := EarliestMarker(start + 1);
        CutStep(stream, start, if nxt < 0 then |stream| else nxt);
        if nxt < 0 {
          if start > 0 {
            stream := stream[start..];
          }
          assert stream == Residue(whole);
          assert done + [] == done;
          break;
        }
        var packet := stream[start..nxt];
        PacketDone(begin, done, packet, Packets(stream[nxt..]));
        done := done + [packet];
        stream := stream[nxt..];
        var reading := HandleDataPacket(packet);
        if reading {
          updated := true;
        }
      }
    }

    method FrameEnd(packet: seq<Byte>) returns (end: nat)
      ensures end == FrameEndOf(packet)
    {
      end := 0;
      var i := 1;
      while i < Min(|packet|, BUFFER)
        invariant 1 <= i && (packet == [] || i <= Min(|packet|, BUFFER))
        invariant packet != [] ==> end == ContentEnd(packet, END_VAL, i)
        invariant packet == [] ==> end == 0
      {
        ContentEndStep(packet, END_VAL, i);
        if packet[i] == END_VAL && end < 110 {
          end := i + 1;
        }
        i := i + 1;
      }
    }

    method HandleDataPacket(packet: seq<Byte>) returns (reading: bool)
      requires Valid()
      modifies this, device
      ensures Valid() && stream == old(stream)
      ensures State() == Handled(old(State()), packet)
      ensures reading == PacketCalls(packet).Some?
    {
      hide ChecksumOk, Decoded, FrameEndOf, AssignedAll;
      var buf := new Byte[BUFFER](_ => 0);
      for k := 0 to Min(|packet|, BUFFER)
        modifies buf
        invariant forall i :: 0 <= i < BUFFER ==> buf[i] == if i < k then packet[i] else 0
      {
        buf[k] := packet[k];
      }
      assert buf[..] == Buffered(packet);
      var revindex := Min(|packet|, BUFFER - 1);
      var end := FrameEnd(packet);
      var matches := false;
      if end >= 60 {
        matches := ChecksumMatches(buf[..], end);
      }
      if end < 60 || !matches {
        framesBad := framesBad + 1;
        return false;
      }
      framesOk := framesOk + 1;
      assert buf[1..revindex] == MessageOf(packet);
      reading := HandleMessage(buf[1..revindex], |packet| <= FULL_LENGTH);
    }

    /** `if field is not None`: one setter call. */
    method CallIfPresent(kind: Scalar, field: Option<int>, ghost begin: BatteryState, ghost done: seq<Assignment>)
      requires Valid() && begin.Complete() && AllAssignable(done)
      requires device.State() == AssignedAll(begin, done)
      modifies device
      ensures Valid() && AllAssignable(done + OptionalCall(kind, field))
      ensures device.State() == AssignedAll(begin, done + OptionalCall(kind, field))
    {
      if field.Some? {
        CallDone(begin, done, ScalarCall(kind, field.value));
        device.Assign(ScalarCall(kind, field.value));
      } else {
        assert done + [] == done;
      }
    }

    method CallScalars(f: Scalars, ghost begin: BatteryState, ghost done: seq<Assignment>)
      requires Valid() && begin.Complete() && AllAssignable(done)
      requires device.State() == AssignedAll(begin, done)
      modifies device
      ensures Valid() && AllAssignable(done + f.Calls())
      ensures device.State() == AssignedAll(begin, done + f.Calls())
    {
      CallIfPresent(Current, f.mcurrent, begin, done);
      ghost var made := OptionalCall(Current, f.mcurrent);
      CallIfPresent(Capacity, f.mcapacity, begin, done + made);
      made := Chain(done, made, OptionalCall(Capacity, f.mcapacity));
      CallIfPresent(ChargeCycles, f.cycles, begin, done + made);
      made := Chain(done, made, OptionalCall(ChargeCycles, f.cycles));
      CallIfPresent(Charge, f.soc, begin, done + made);
      made := Chain(done, made, OptionalCall(Charge, f.soc));
      CallIfPresent(Temperature, f.temperature, begin, done + made);
      made := Chain(done, made, OptionalCall(Temperature, f.temperature));
      CallIfPresent(Status, f.status, begin, done + made);
      made := Chain(done, made, OptionalCall(Status, f.status));
    }

    method HandleMessage(message: seq<Byte>, full: bool) returns (reading: bool)
      requires Valid()
      modifies device
      ensures Valid()
      ensures reading == Decoded(message, full).Some?
      ensures !reading ==> device.State() == old(device.State())
      ensures reading ==> device.State() == AssignedAll(old(device.State()), Decoded(message, full).value)
    {
      if |message| < 38 { return false; }
      var mvoltage := ReadField(message, 0, 7);
      if mvoltage == None || mvoltage.value < 1000 { return false; }
      var scalars := ScalarsOf(message);
      if !scalars.AnyPresent() { return false; }
      ghost var begin := device.State();
      device.Assign(SetMsg(message));
      device.Assign(SetMvoltage(mvoltage.value));
      ghost var done := [SetMsg(message), SetMvoltage(mvoltage.value)];
      TwoCalls(begin, done[0], done[1]);
      CallScalars(scalars, begin, done);
      done := done + scalars.Calls();
      if full {
        HandleCells(message, begin, done);
      } else {
        assert done + [] == done;
      }
      return true;
    }

    method HandleCells(message: seq<Byte>, ghost begin: BatteryState, ghost done: seq<Assignment>)
      requires Valid() && begin.Complete() && AllAssignable(done)
      requires device.State() == AssignedAll(begin, done)
      modifies device
      ensures Valid() && AllAssignable(done + CellBlock(message, true))
      ensures device.State() == AssignedAll(begin, done + CellBlock(message, true))
    {
      hide FieldValue, AssignedAll, Assigned, AllAssignable, CellCalls, CellBlock;
      CellBlockFull(message);
      var afestatus := FieldValue(message, 40, 41, 0);
      CallDone(begin, done, SetAfestatus(afestatus));
      device.Assign(SetAfestatus(afestatus));
      ghost var made := done + [SetAfestatus(afestatus)];
      ghost var total := done + CellBlock(message, true);
      assert total == made + CellCalls(message, 0);
      var i := 0;
      while i < 16
        invariant 0 <= i <= 16 && Valid() && AllAssignable(made)
        invariant total == made + CellCalls(message, i)
        invariant device.State() == AssignedAll(begin, made)
      {
        CellCallsStep(message, i);
        var cellMv := FieldValue(message, i * 4 + 44, i * 4 + 47, 0);
        if cellMv == 0 {
          assert made + [] == made;
          break;
        }
        if 1000 <= cellMv <= 5000 {
          var call := SetCell(i + 1, cellMv);
          CallDone(begin, made, call);
          device.Assign(call);
          assert made + ([call] + CellCalls(message, i + 1)) == (made + [call]) + CellCalls(message, i + 1);
          made := made + [call];
        } else {
          assert [] + CellCalls(message, i + 1) == CellCalls(message, i + 1);
        }
        i := i + 1;
      }
      if i == 16 {
        CellCallsEnd(message);
      }
      assert made + [] == made;
    }

    /** Frames accepted and rejected since the last call. */
    method FrameHealth() returns (ok: nat, bad: nat)
      requires Valid()
      modifies this
      ensures Valid() && stream == old(stream)
      ensures (ok, bad) == (old(framesOk), old(framesBad))
      ensures State() == Link(0, 0, old(device.State()))
    {
      ok, bad := framesOk, framesBad;
      framesOk, framesBad := 0, 0;
    }
  }
}
