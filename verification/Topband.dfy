/**
 The Topband plugin's byte scanner (plugins/Topband/__init__.py): a start byte
 94, a fixed buffer of 115 slots, a zero byte at index 113 and one byte more.
 */
module Topband {
  import opened Common
  import opened Padding
  import opened AsciiHex
  import opened Battery
  import opened Meritsun
  import opened MeritsunFrames

  const HEAD: Byte := 94
  const TAIL: Byte := 0
  const SLOTS: nat := 115
  const CLOSED: nat := 114

  datatype Mode = SOI | INFO | EOI

  /** The scanner; buf is the written part of the buffer. */
  datatype Scan = Scan(mode: Mode, buf: seq<Byte>, end: nat)

  datatype Step = Continue(state: Scan) | Frame(message: seq<Byte>)

  const INITIAL: Scan := Scan(SOI, [], 0)

  // ------------------------------------------------- one byte, one chunk

  function Next(s: Scan, b: Byte): Step {
    var t := if |s.buf| > CLOSED then INITIAL else s;
    match t.mode
    case SOI => Continue(if b == HEAD then Scan(INFO, t.buf + [b], t.end) else t)
    case INFO =>
      var buf := t.buf + [b];
      if b != TAIL then Continue(Scan(INFO, buf, t.end))
      else Continue(Scan(if |buf| == CLOSED then EOI else INFO, buf,
                         if t.end < LAST_FREE then |buf| else t.end))
    case EOI =>
      if ChecksumOk(t.buf, t.end) then Frame(if t.buf == [] then [] else t.buf[1..]) else Continue(INITIAL)
  }

  /** A chunk; the first frame in it ends the scan and drops what is left of the chunk. */
  function Chunk(s: Scan, data: seq<Byte>): (Scan, Option<seq<Byte>>)
    decreases |data|
  {
    if data == [] then (s, None)
    else
      match Next(s, data[0])
      case Frame(m) => (INITIAL, Some(m))
      case Continue(t) => Chunk(t, data[1..])
  }

  // ------------------------------------------------- what every reachable state satisfies

  ghost predicate Reachable(s: Scan) {
    && (s.mode == SOI ==> s == INITIAL)
    && (s.mode == INFO ==> 1 <= |s.buf| <= SLOTS)
    && (s.mode == EOI ==> |s.buf| == CLOSED && 110 <= s.end <= CLOSED && s.buf[CLOSED - 1] == TAIL)
    && (s.mode != SOI ==> s.buf != [] && s.buf[0] == HEAD && s.end == ContentEnd(s.buf, TAIL, |s.buf|))
  }

  lemma ReachableShape(s: Scan)
    requires Reachable(s) || s == INITIAL
    ensures Reachable(s)
    ensures s.mode == EOI ==> |s.buf| == CLOSED
    ensures s.mode == SOI ==> s == INITIAL
  {
  }

  lemma {:induction false} NextReachable(s: Scan, b: Byte)
    requires Reachable(s)
    ensures Next(s, b).Continue? ==> Reachable(Next(s, b).state)
  {
    hide ChecksumOk, ContentEnd;
    EndOfHead();
    var t := if |s.buf| > CLOSED then INITIAL else s;
    if t.mode == INFO {
      var n, buf := |t.buf|, t.buf + [b];
      assert buf[..n] == t.buf[..n];
      ContentEndLocal(t.buf, buf, TAIL, n);
      ContentEndStep(buf, TAIL, n);
    } else if t.mode == SOI && b == HEAD {
      assert [] + [b] == [HEAD];
    }
  }

  lemma EndOfHead()
    ensures ContentEnd([HEAD], TAIL, 1) == 0
  {
  }

  lemma {:induction false} ChunkReachable(s: Scan, data: seq<Byte>)
    requires Reachable(s)
    ensures Reachable(Chunk(s, data).0)
    decreases |data|
  {
    if data != [] {
      NextReachable(s, data[0]);
      if Next(s, data[0]).Continue? {
        ChunkReachable(Next(s, data[0]).state, data[1..]);
      }
    }
  }

  // ------------------------------------------------- slots that were never written

  /** Two slots read as a field: None when one holds nothing, for which `chr` raises. */
  function SlotPair(slots: seq<Option<Byte>>, p: int): Option<int> {
    if p < 0 || p + 1 >= |slots| then Some(0)
    else if slots[p] == None || slots[p + 1] == None then None
    else Some(FieldValue([slots[p].value, slots[p + 1].value], 0, 1, 0))
  }

  function Plus(a: Option<int>, b: Option<int>): Option<int> {
    if a == None || b == None then None else Some(a.value + b.value)
  }

  function SlotSum(slots: seq<Option<Byte>>, position: int, limit: int): Option<int>
    decreases limit - position
  {
    if position < limit then Plus(SlotPair(slots, position), SlotSum(slots, position + 2, limit)) else Some(0)
  }

  /** The checksum over the buffer as it is; None when it raises. */
  function SlotsMatch(slots: seq<Option<Byte>>, contentEnd: int): Option<bool> {
    var p := ChecksumStart(contentEnd);
    var total, high, low := SlotSum(slots, 1, p), SlotPair(slots, p), SlotPair(slots, p + 2);
    if total == None || high == None || low == None then None
    else Some(total.value == 256 * high.value + low.value)
  }

  /** The slots below n hold the bytes of buf. */
  predicate Holds(slots: seq<Option<Byte>>, buf: seq<Byte>, n: nat) {
    n <= |buf| && n <= |slots| && forall i :: 0 <= i < n ==> slots[i] == Some(buf[i])
  }

  lemma SlotPairRead(slots: seq<Option<Byte>>, buf: seq<Byte>, n: nat, p: int)
    requires Holds(slots, buf, n) && 0 <= p && p + 1 < n
    ensures SlotPair(slots, p) == Some(PairAt(buf, p))
  {
    hide FieldValue;
    var pair := [buf[p], buf[p + 1]];
    PairAtParse(pair, 0);
    PairAtParse(buf, p);
  }

  lemma {:induction false} SlotSumRead(slots: seq<Option<Byte>>, buf: seq<Byte>, n: nat, lo: int, hi: int)
    requires Holds(slots, buf, n) && 1 <= lo <= hi < n && (hi - lo) % 2 == 0
    ensures SlotSum(slots, lo, hi) == Some(PairSum(buf, lo, hi))
    decreases hi - lo
  {
    hide SlotPair, PairAt;
    if lo < hi {
      SlotPairRead(slots, buf, n, lo);
      SlotSumRead(slots, buf, n, lo + 2, hi);
    }
  }

  /**
   The checksum of a closed buffer reads written slots only: it never raises, and its verdict is
   that on the written bytes, whether the last of the 115 slots holds anything or not.
   */
  lemma {:induction false} ChecksumReadsWritten(s: Scan, slots: seq<Option<Byte>>)
    requires Reachable(s) && s.mode == EOI && |slots| == SLOTS && Holds(slots, s.buf, CLOSED)
    ensures SlotsMatch(slots, s.end) == Some(ChecksumOk(s.buf, s.end))
  {
    hide SlotPair, PairAt, SlotSum, PairSum, ContentEnd, Holds;
    var p := ChecksumStart(s.end);
    SlotSumRead(slots, s.buf, CLOSED, 1, p);
    SlotPairRead(slots, s.buf, CLOSED, p);
    SlotPairRead(slots, s.buf, CLOSED, p + 2);
  }

  /** A buffer with nothing in a slot the checksum reads raises instead, so the written prefix is needed. */
  lemma {:induction false} UnwrittenRaises(slots: seq<Option<Byte>>, contentEnd: int, k: nat)
    requires |slots| == SLOTS && 110 <= contentEnd <= CLOSED
    requires ChecksumStart(contentEnd) <= k <= ChecksumStart(contentEnd) + 3 && slots[k] == None
    ensures SlotsMatch(slots, contentEnd) == None
  {
    hide FieldValue, SlotSum;
  }

  /** t ends in s. */
  predicate IsSuffix(s: seq<Byte>, t: seq<Byte>) {
    |s| <= |t| && t[|t| - |s|..] == s
  }

  lemma SuffixSnoc(s: seq<Byte>, t: seq<Byte>, b: Byte)
    requires IsSuffix(s, t)
    ensures IsSuffix(s + [b], t + [b])
  {
    var n, k := |t|, |s|;
    assert (t + [b])[n - k..] == t[n - k..] + [b];
  }

  lemma SuffixEmpty(t: seq<Byte>)
    ensures IsSuffix([], t)
  {
  }

  lemma NextSuffix(s: Scan, b: Byte, past: seq<Byte>)
    requires Reachable(s) && IsSuffix(s.buf, past) && Next(s, b).Continue?
    ensures IsSuffix(Next(s, b).state.buf, past + [b])
  {
    hide IsSuffix, ChecksumOk, ContentEnd;
    SuffixEmpty(past);
    SuffixEmpty(past + [b]);
    SuffixSnoc([], past, b);
    SuffixSnoc(s.buf, past, b);
  }

  /** The written part of the buffer is always the last bytes of the input. */
  lemma {:induction false} BufferIsLastInput(s: Scan, past: seq<Byte>, data: seq<Byte>)
    requires Reachable(s) && IsSuffix(s.buf, past)
    ensures IsSuffix(Chunk(s, data).0.buf, past + data)
    decreases |data|
  {
    hide IsSuffix, Reachable, Next;
    if data == [] {
      assert past + data == past;
    } else if Next(s, data[0]).Continue? {
      NextReachable(s, data[0]);
      NextSuffix(s, data[0], past);
      assert past + data == (past + [data[0]]) + data[1..];
      BufferIsLastInput(Next(s, data[0]).state, past + [data[0]], data[1..]);
    } else {
      SuffixEmpty(past + data);
    }
  }

  // ------------------------------------------------- chunk boundaries

  /** Until a frame is accepted a chunk may be fed whole or in pieces; an accepted frame drops the rest. */
  lemma {:induction false} ChunkConcat(s: Scan, a: seq<Byte>, b: seq<Byte>)
    ensures Chunk(s, a).1.None? ==> Chunk(s, a + b) == Chunk(Chunk(s, a).0, b)
    ensures Chunk(s, a).1.Some? ==> Chunk(s, a + b) == Chunk(s, a) && Chunk(s, a).0 == INITIAL
    decreases |a|
  {
    if a == [] {
      assert a + b == b;
    } else {
      assert (a + b)[1..] == a[1..] + b;
      if Next(s, a[0]).Continue? {
        ChunkConcat(Next(s, a[0]).state, a[1..], b);
      }
    }
  }

  // ------------------------------------------------- accepted frames

  /** The 114 bytes the scanner takes for a frame. */
  predicate Framed(w: seq<Byte>) {
    && |w| == CLOSED && w[0] == HEAD && w[CLOSED - 1] == TAIL
    && ChecksumOk(w, ContentEnd(w, TAIL, CLOSED))
  }

  /** The frame ends behind the first zero byte at 109 or later. */
  predicate EndsAt(w: seq<Byte>, end: nat) {
    && 110 <= end <= |w| && w[end - 1] == 0 && forall i :: 109 <= i < end - 1 ==> w[i] != 0
  }

  /** A frame in figures: 114 bytes between a 94 and a zero whose sum matches where they end. */
  lemma {:induction false} FramedExactly(w: seq<Byte>, end: nat)
    requires |w| == 114 && EndsAt(w, end)
    ensures Framed(w) <==> w[0] == 94 && w[113] == 0 && ChecksumOk(w, end)
  {
    hide ChecksumOk;
    assert ContentEnd(w, TAIL, CLOSED) == end;
  }

  /** Only well-formed frames are accepted: the message is 113 bytes of the input behind a start byte. */
  lemma {:induction false} AcceptedIsFramed(s: Scan, past: seq<Byte>, data: seq<Byte>)
    returns (start: nat)
    requires Reachable(s) && IsSuffix(s.buf, past) && Chunk(s, data).1.Some?
    ensures start + 114 < |past + data|
    ensures Framed((past + data)[start..start + 114])
    ensures Chunk(s, data).1 == Some((past + data)[start + 1..start + 114])
    decreases |data|
  {
    hide ChecksumOk, ContentEnd, Reachable, IsSuffix;
    var b, input := data[0], past + data;
    match Next(s, b) {
      case Frame(m) =>
        start := FrameIsTail(s, past, b);
        assert input[..|past|] == past;
        SliceOfPrefix(input, |past|, start, start + CLOSED);
        SliceOfPrefix(input, |past|, start + 1, start + CLOSED);
      case Continue(t) =>
        NextReachable(s, b);
        NextSuffix(s, b, past);
        assert input == (past + [b]) + data[1..];
        start := AcceptedIsFramed(t, past + [b], data[1..]);
    }
  }

  lemma FrameIsTail(s: Scan, past: seq<Byte>, b: Byte) returns (start: nat)
    requires Reachable(s) && IsSuffix(s.buf, past) && Next(s, b).Frame?
    ensures start + CLOSED == |past|
    ensures Framed(past[start..start + CLOSED])
    ensures Next(s, b) == Frame(past[start + 1..start + CLOSED])
  {
    hide ChecksumOk, ContentEnd;
    assert s.mode == EOI && |s.buf| == CLOSED;
    start := |past| - CLOSED;
    assert past[start..start + CLOSED] == past[start..];
    assert past[start + 1..start + CLOSED] == s.buf[1..];
  }

  lemma {:induction false} NoiseIgnored(noise: seq<Byte>, data: seq<Byte>)
    requires HEAD !in noise
    ensures Chunk(INITIAL, noise + data) == Chunk(INITIAL, data)
    decreases |noise|
  {
    if noise == [] {
      assert noise + data == data;
    } else {
      assert (noise + data)[1..] == noise[1..] + data;
      assert Next(INITIAL, noise[0]) == Continue(INITIAL);
      NoiseIgnored(noise[1..], data);
    }
  }

  lemma FillStep(w: seq<Byte>, k: nat)
    requires |w| == CLOSED && w[CLOSED - 1] == TAIL && 1 <= k < CLOSED
    ensures Next(Scan(INFO, w[..k], ContentEnd(w, TAIL, k)), w[k])
         == Continue(Scan(if k + 1 == CLOSED then EOI else INFO, w[..k + 1], ContentEnd(w, TAIL, k + 1)))
  {
    hide ChecksumOk, ContentEnd;
    ContentEndStep(w, TAIL, k);
    assert w[..k] + [w[k]] == w[..k + 1];
  }

  lemma {:induction false} FillsBuffer(w: seq<Byte>, k: nat, rest: seq<Byte>)
    requires |w| == CLOSED && w[0] == HEAD && w[CLOSED - 1] == TAIL && 1 <= k < CLOSED
    ensures Chunk(Scan(INFO, w[..k], ContentEnd(w, TAIL, k)), w[k..] + rest)
         == Chunk(Scan(EOI, w, ContentEnd(w, TAIL, CLOSED)), rest)
    decreases CLOSED - k
  {
    hide ChecksumOk, ContentEnd;
    var data := w[k..] + rest;
    assert data[0] == w[k] && data[1..] == w[k + 1..] + rest;
    ContentEndStep(w, TAIL, k);
    FillStep(w, k);
    if k + 1 < CLOSED {
      FillsBuffer(w, k + 1, rest);
    } else {
      assert w[..CLOSED] == w && data[1..] == rest;
    }
  }

  /** From rest, 114 bytes with the right ends and one more are accepted exactly when their checksum matches. */
  lemma {:induction false} FrameAcceptedExactly(noise: seq<Byte>, w: seq<Byte>, x: Byte, rest: seq<Byte>)
    requires 94 !in noise && |w| == 114 && w[0] == 94 && w[113] == 0
    ensures Framed(w) ==> Chunk(INITIAL, noise + w + [x] + rest) == (INITIAL, Some(w[1..]))
    ensures !Framed(w) ==> Chunk(INITIAL, noise + w + [x] + rest) == Chunk(INITIAL, rest)
  {
    hide ChecksumOk, ContentEnd;
    var data := w + ([x] + rest);
    assert noise + w + [x] + rest == noise + data;
    NoiseIgnored(noise, data);
    assert data[1..] == w[1..] + ([x] + rest);
    NothingPadded(w);
    assert [] + [w[0]] == w[..1];
    FillsBuffer(w, 1, [x] + rest);
    assert ([x] + rest)[1..] == rest;
  }

  lemma NothingPadded(w: seq<Byte>)
    requires w != []
    ensures ContentEnd(w, TAIL, 1) == 0
  {
  }

  // ------------------------------------------------- recovery

  /**
   From any reachable state enough bytes without a start byte bring the scanner back to rest: 115
   in every case, one less for every byte the buffer holds beyond the first.
   */
  lemma {:induction false} Recovers(s: Scan, data: seq<Byte>)
    requires Reachable(s) && 94 !in data && (s == INITIAL || |data| + |s.buf| > 115)
    ensures Chunk(s, data).0 == INITIAL
    decreases |data|
  {
    hide ChecksumOk, ContentEnd;
    if s == INITIAL {
      assert data + [] == data;
      NoiseIgnored(data, []);
    } else {
      NextReachable(s, data[0]);
      if Next(s, data[0]).Continue? {
        Recovers(Next(s, data[0]).state, data[1..]);
      }
    }
  }

  /** Behind such a gap, unless the gap itself completed a frame, the next frame is taken as from rest. */
  lemma {:induction false} FrameAfterGap(s: Scan, gap: seq<Byte>, w: seq<Byte>, x: Byte, rest: seq<Byte>)
    requires Reachable(s) && 94 !in gap && |gap| >= 115 && Chunk(s, gap).1 == None
    requires Framed(w)
    ensures Chunk(s, gap + (w + [x] + rest)) == (INITIAL, Some(w[1..]))
  {
    hide ChecksumOk, ContentEnd, Chunk;
    Recovers(s, gap);
    ChunkConcat(s, gap, w + [x] + rest);
    FrameAcceptedExactly([], w, x, rest);
    assert [] + w + [x] + rest == w + [x] + rest;
  }

  // ------------------------------------------------- the setter calls

  /** A field, without looking at its characters. */
  function Field(message: seq<Byte>, start: nat, end: nat): int {
    FieldValue(message, start, end, 0)
  }

  function CellCallsFrom(message: seq<Byte>, i: nat): (calls: seq<Assignment>)
    requires i <= CELL_SLOTS
    ensures AllAssignable(calls)
    decreases CELL_SLOTS - i
  {
    if i == CELL_SLOTS then []
    else [SetCell(i + 1, Field(message, i * 4 + 44, i * 4 + 47))] + CellCallsFrom(message, i + 1)
  }

  function FirstCalls(message: seq<Byte>): (calls: seq<Assignment>)
    ensures AllAssignable(calls)
  {
    [SetMsg(message), SetMvoltage(Field(message, 0, 7)),
     SetMcurrent(ToSigned(Field(message, 8, 15), UINT32_WRAP, INT32_MAX)),
     SetMcapacity(Field(message, 16, 23)), SetChargeCycles(Field(message, 24, 27))]
  }

  function LastCalls(message: seq<Byte>): (calls: seq<Assignment>)
    ensures AllAssignable(calls)
  {
    [SetSoc(Field(message, 28, 31)), SetTemperature(Field(message, 32, 35)),
     SetStatus(Field(message, 36, 37)), SetAfestatus(Field(message, 40, 41))]
  }

  function HeadCalls(message: seq<Byte>): (calls: seq<Assignment>)
    ensures AllAssignable(calls)
  {
    FirstCalls(message) + LastCalls(message)
  }

  /** What a message makes the plugin call; short messages make none. */
  function CallsOf(message: seq<Byte>): (calls: seq<Assignment>)
    ensures AllAssignable(calls)
  {
    if |message| < 38 then [] else HeadCalls(message) + CellCallsFrom(message, 0)
  }

  /** A message of 38 bytes or more makes these 25 calls, whatever its fields say; a shorter one makes none. */
  lemma {:induction false} CallsExactly(message: seq<Byte>)
    ensures |message| < 38 ==> CallsOf(message) == []
    ensures |message| >= 38 ==>
      var calls, current := CallsOf(message), Field(message, 8, 15);
      && |calls| == 25
      && calls[..9] == [SetMsg(message), SetMvoltage(Field(message, 0, 7)),
                        SetMcurrent(if current > 0x7fff_ffff then current - 0x1_0000_0000 else current),
                        SetMcapacity(Field(message, 16, 23)), SetChargeCycles(Field(message, 24, 27)),
                        SetSoc(Field(message, 28, 31)), SetTemperature(Field(message, 32, 35)),
                        SetStatus(Field(message, 36, 37)), SetAfestatus(Field(message, 40, 41))]
      && forall i :: 0 <= i < 16 ==> calls[9 + i] == SetCell(i + 1, Field(message, 44 + 4 * i, 47 + 4 * i))
  {
    hide Field, CellCallsFrom, ToSigned, AllAssignable, Assignable;
    hide FirstCalls, LastCalls;
    CellInOrder(message, 0, 0);
    forall i | 0 <= i < 16
      ensures CellCallsFrom(message, 0)[i] == SetCell(i + 1, Field(message, 44 + 4 * i, 47 + 4 * i))
    {
      CellInOrder(message, 0, i);
    }
    HeadInOrder(message);
  }

  lemma HeadInOrder(message: seq<Byte>)
    ensures
      var current := Field(message, 8, 15);
      HeadCalls(message)
      == [SetMsg(message), SetMvoltage(Field(message, 0, 7)),
          SetMcurrent(if current > 0x7fff_ffff then current - 0x1_0000_0000 else current),
          SetMcapacity(Field(message, 16, 23)), SetChargeCycles(Field(message, 24, 27)),
          SetSoc(Field(message, 28, 31)), SetTemperature(Field(message, 32, 35)),
          SetStatus(Field(message, 36, 37)), SetAfestatus(Field(message, 40, 41))]
  {
    hide Field, AllAssignable, Assignable;
  }

  lemma {:induction false} CellInOrder(message: seq<Byte>, k: nat, i: nat)
    requires k <= i < 16
    ensures |CellCallsFrom(message, k)| == 16 - k
    ensures CellCallsFrom(message, k)[i - k] == SetCell(i + 1, Field(message, 44 + 4 * i, 47 + 4 * i))
    decreases 16 - k
  {
    hide Field, AllAssignable, Assignable;
    if k < i {
      CellInOrder(message, k + 1, i);
    } else if k < 15 {
      CellInOrder(message, k + 1, k + 1);
    } else {
      assert CellCallsFrom(message, 16) == [];
    }
  }

  // ------------------------------------------------- round trip

  /** The frame a Topband pack would send for a reading. */
  function Printed(r: Reading): (w: seq<Byte>)
    requires r.Printable()
    ensures |w| == CLOSED && w[0] == HEAD && w[CLOSED - 1] == TAIL
  {
    [HEAD] + r.Text() + [TAIL]
  }

  lemma PrintedFramed(r: Reading)
    requires r.Printable()
    ensures Framed(Printed(r))
  {
    hide ChecksumOk;
    var w := Printed(r);
    forall i | 1 <= i < 113 ensures w[i] != TAIL {
      TextIsClean(r, i - 1);
      assert w[i] == r.Text()[i - 1];
    }
    assert ContentEnd(w, TAIL, CLOSED) == 114;
    PrintedChecksum(r, HEAD);
    var g := Buffered(r.Frame(HEAD));
    assert g[..113] == w[..113];
    ChecksumReadsContentOnly(w, g, 114, 113);
  }

  function SlotCalls(r: Reading, i: nat): seq<Assignment>
    requires i <= CELL_SLOTS
    decreases CELL_SLOTS - i
  {
    if i == CELL_SLOTS then [] else [SetCell(i + 1, r.Slot(i))] + SlotCalls(r, i + 1)
  }

  lemma {:induction false} SlotsRead(r: Reading, message: seq<Byte>, i: nat)
    requires r.Printable() && |message| >= 108 && message[..108] == HexPairs(r.Content()) && i <= CELL_SLOTS
    ensures CellCallsFrom(message, i) == SlotCalls(r, i)
    decreases CELL_SLOTS - i
  {
    hide FieldValue, HexPairs;
    if i < CELL_SLOTS {
      SlotRead(r, message, i);
      SlotsRead(r, message, i + 1);
    }
  }

  /**
   A printed frame behind any noise without a start byte gives back exactly its values, and drops
   the rest of the chunk.
   */
  lemma {:induction false} FrameRoundTrip(r: Reading, noise: seq<Byte>, x: Byte, rest: seq<Byte>)
    requires r.Printable() && 94 !in noise
    ensures
      var message := r.Text() + [0];
      && Chunk(INITIAL, noise + Printed(r) + [x] + rest) == (INITIAL, Some(message))
      && CallsOf(message) == [SetMsg(message), SetMvoltage(r.mvoltage), SetMcurrent(r.mcurrent),
                              SetMcapacity(r.mcapacity), SetChargeCycles(r.cycles), SetSoc(r.soc),
                              SetTemperature(r.temperature), SetStatus(r.status), SetAfestatus(r.afestatus)]
                             + SlotCalls(r, 0)
  {
    hide HexPairs, Framed, Chunk, CallsOf;
    var message := r.Text() + [TAIL];
    PrintedFramed(r);
    FrameAcceptedExactly(noise, Printed(r), x, rest);
    assert Printed(r)[1..] == message;
    CallsRead(r, message);
  }

  lemma CallsRead(r: Reading, message: seq<Byte>)
    requires r.Printable() && |message| >= 108 && message[..108] == HexPairs(r.Content())
    ensures CallsOf(message) == [SetMsg(message), SetMvoltage(r.mvoltage), SetMcurrent(r.mcurrent),
                                 SetMcapacity(r.mcapacity), SetChargeCycles(r.cycles), SetSoc(r.soc),
                                 SetTemperature(r.temperature), SetStatus(r.status), SetAfestatus(r.afestatus)]
                                + SlotCalls(r, 0)
  {
    hide FieldValue, HexPairs, CellCallsFrom, SlotCalls, AllDigits, AllUpper;
    ScalarsRead(r, message);
    FieldsPresent(message);
    SlotsRead(r, message, 0);
  }

  /** The checked reader and the plain one agree wherever the checked one reads. */
  lemma FieldsPresent(message: seq<Byte>)
    ensures forall i: nat, j: nat :: i <= j && ReadField(message, i, j).Some?
                                     ==> Field(message, i, j) == ReadField(message, i, j).value
  {
  }

  // ------------------------------------------------- the object

  predicate AllWritten(slots: seq<Option<Byte>>) {
    forall i :: 0 <= i < |slots| ==> slots[i].Some?
  }

  function Written(slots: seq<Option<Byte>>): (s: seq<Byte>)
    requires AllWritten(slots)
    ensures |s| == |slots| && forall i :: 0 <= i < |s| ==> s[i] == slots[i].value
  {
    if slots == [] then [] else Written(slots[..|slots| - 1]) + [slots[|slots| - 1].value]
  }

  class Util {
    var recvDataType: Mode
    const revBuf: array<Option<Byte>>
    var revIndex: nat
    var end: nat
    const device: BatteryDevice

    ghost predicate Valid()
      reads this, revBuf, device
    {
      && revBuf.Length == SLOTS && revIndex <= SLOTS && AllWritten(revBuf[..revIndex])
      && Reachable(State()) && device.Valid()
    }

    ghost function State(): Scan
      requires revBuf.Length == SLOTS && revIndex <= SLOTS && AllWritten(revBuf[..revIndex])
      reads this, revBuf
    {
      Scan(recvDataType, Written(revBuf[..revIndex]), end)
    }

    constructor (device: BatteryDevice)
      requires device.Valid()
      ensures Valid() && this.device == device && State() == INITIAL && fresh(revBuf)
    {
      this.device := device;
      recvDataType, revIndex, end := SOI, 0, 0;
      revBuf := new Option<Byte>[SLOTS](_ => None);
    }

    method Reset()
      requires revBuf.Length == SLOTS
      modifies this
      ensures revIndex == 0 && State() == INITIAL
    {
      revIndex := 0;
      end := 0;
      recvDataType := SOI;
    }

    method Store(b: Byte)
      requires revBuf.Length == SLOTS && revIndex < SLOTS && AllWritten(revBuf[..revIndex])
      modifies this`revIndex, revBuf
      ensures revIndex == old(revIndex) + 1 && AllWritten(revBuf[..revIndex])
      ensures State() == old(State()).(buf := old(State()).buf + [b])
    {
      ghost var before := revBuf[..revIndex];
      revBuf[revIndex] := Some(b);
      revIndex := revIndex + 1;
      assert revBuf[..revIndex] == before + [Some(b)];
      assert Written(revBuf[..revIndex]) == Written(before) + [b];
    }

    /** One turn of the scanning loop; the message is returned when a frame is accepted. */
    method Feed(b: Byte) returns (message: Option<seq<Byte>>)
      requires Valid()
      modifies this, revBuf
      ensures Valid()
      ensures message.Some? ==> Next(old(State()), b) == Frame(message.value) && State() == INITIAL
      ensures message.None? ==> Next(old(State()), b) == Continue(State())
    {
      hide ChecksumOk, ContentEnd, Reachable, Written;
      ReachableShape(State());
      ReachableShape(INITIAL);
      NextReachable(State(), b);
      message := None;
      if revIndex > 114 {
        Reset();
      }
      if recvDataType == SOI {
        if b == HEAD {
          recvDataType := INFO;
          Store(b);
        }
      } else if recvDataType == INFO {
        Store(b);
        if b == TAIL {
          if end < 110 {
            end := revIndex;
          }
          if revIndex == 114 {
            recvDataType := EOI;
          }
        }
      } else {
        var matches := ChecksumMatches(Written(revBuf[..revIndex]), end);
        if matches {
          message := Some(Written(revBuf[..revIndex])[1..]);
        }
        Reset();
      }
    }

    /** Returns whether a frame was accepted and handled. */
    method NotificationUpdate(data: seq<Byte>) returns (updated: bool)
      requires Valid()
      modifies this, revBuf, device
      ensures Valid()
      ensures State() == Chunk(old(State()), data).0
      ensures var m := Chunk(old(State()), data).1;
              updated == (m.Some? && |m.value| >= 38)
      ensures var m := Chunk(old(State()), data).1;
              device.State() == if m.Some? then AssignedAll(old(device.State()), CallsOf(m.value))
                                else old(device.State())
    {
      hide Next, Chunk, CallsOf, AssignedAll, Reachable;
      var i := 0;
      assert data[0..] == data;
      while i < |data|
        invariant 0 <= i <= |data| && Valid()
        invariant Chunk(State(), data[i..]) == Chunk(old(State()), data)
        invariant device.State() == old(device.State())
      {
        assert data[i..][1..] == data[i + 1..];
        ChunkStep(State(), data[i..]);
        var message := Feed(data[i]);
        if message.Some? {
          updated := HandleMessage(message.value);
          return;
        }
        i := i + 1;
      }
      ChunkEnd(State());
      return false;
    }

    method Make(call: Assignment, ghost begin: BatteryState, ghost done: seq<Assignment>)
      requires device.Valid() && begin.Complete() && AllAssignable(done) && Assignable(call)
      requires device.State() == AssignedAll(begin, done)
      modifies device
      ensures device.Valid() && AllAssignable(done + [call])
      ensures device.State() == AssignedAll(begin, done + [call])
    {
      CallDone(begin, done, call);
      device.Assign(call);
    }

    method HandleMessage(message: seq<Byte>) returns (handled: bool)
      requires device.Valid()
      modifies device
      ensures device.Valid() && handled == (|message| >= 38)
      ensures device.State() == AssignedAll(old(device.State()), CallsOf(message))
    {
      hide AssignedAll, Assigned, FieldValue, CellCallsFrom, FirstCalls, LastCalls;
      ghost var begin := device.State();
      NoneDone(begin);
      if |message| < 38 { return false; }
      HandleFirst(message, begin);
      HandleLast(message, begin, FirstCalls(message));
      HandleCells(message, begin);
      return true;
    }

    /** The setters up to the charge cycles. */
    method HandleFirst(message: seq<Byte>, ghost begin: BatteryState)
      requires device.Valid() && begin == device.State()
      modifies device
      ensures device.Valid() && device.State() == AssignedAll(begin, FirstCalls(message))
    {
      hide AssignedAll, Assigned, AllAssignable, FieldValue;
      NoneDone(begin);
      ghost var done: seq<Assignment>, calls := [], FirstCalls(message);
      Make(SetMsg(message), begin, done);
      done := done + [calls[0]];
      Make(SetMvoltage(FieldValue(message, 0, 7, 0)), begin, done);
      done := done + [calls[1]];
      Make(SetMcurrent(ToSigned(FieldValue(message, 8, 15, 0), UINT32_WRAP, INT32_MAX)), begin, done);
      done := done + [calls[2]];
      Make(SetMcapacity(FieldValue(message, 16, 23, 0)), begin, done);
      done := done + [calls[3]];
      Make(SetChargeCycles(FieldValue(message, 24, 27, 0)), begin, done);
      done := done + [calls[4]];
      assert done == calls;
    }

    /** The setters from the state of charge on, the cells aside. */
    method HandleLast(message: seq<Byte>, ghost begin: BatteryState, ghost first: seq<Assignment>)
      requires device.Valid() && begin.Complete() && AllAssignable(first)
      requires device.State() == AssignedAll(begin, first)
      modifies device
      ensures device.Valid() && device.State() == AssignedAll(begin, first + LastCalls(message))
    {
      hide AssignedAll, Assigned, AllAssignable, FieldValue;
      ghost var done, calls := first, LastCalls(message);
      Make(SetSoc(FieldValue(message, 28, 31, 0)), begin, done);
      done := done + [calls[0]];
      Make(SetTemperature(FieldValue(message, 32, 35, 0)), begin, done);
      done := done + [calls[1]];
      Make(SetStatus(FieldValue(message, 36, 37, 0)), begin, done);
      done := done + [calls[2]];
      Make(SetAfestatus(FieldValue(message, 40, 41, 0)), begin, done);
      done := done + [calls[3]];
      assert done == first + calls;
    }

    method HandleCells(message: seq<Byte>, ghost begin: BatteryState)
      requires device.Valid() && begin.Complete()
      requires device.State() == AssignedAll(begin, HeadCalls(message))
      modifies device
      ensures device.Valid()
      ensures device.State() == AssignedAll(begin, HeadCalls(message) + CellCallsFrom(message, 0))
    {
      hide AssignedAll, Assigned, FieldValue, HeadCalls, CellCallsFrom;
      ghost var made, total := HeadCalls(message), HeadCalls(message) + CellCallsFrom(message, 0);
      var i := 0;
      while i < 16
        invariant 0 <= i <= 16 && device.Valid() && AllAssignable(made)
        invariant total == made + CellCallsFrom(message, i)
        invariant device.State() == AssignedAll(begin, made)
      {
        var call := SetCell(i + 1, FieldValue(message, i * 4 + 44, i * 4 + 47, 0));
        CellStep(message, i);
        Make(call, begin, made);
        assert made + ([call] + CellCallsFrom(message, i + 1)) == (made + [call]) + CellCallsFrom(message, i + 1);
        made := made + [call];
        i := i + 1;
      }
      CellsEnd(message);
      assert made + [] == made;
    }
  }

  lemma ChunkStep(s: Scan, data: seq<Byte>)
    requires data != []
    ensures Next(s, data[0]).Frame? ==> Chunk(s, data) == (INITIAL, Some(Next(s, data[0]).message))
    ensures Next(s, data[0]).Continue? ==> Chunk(s, data) == Chunk(Next(s, data[0]).state, data[1..])
  {
  }

  lemma ChunkEnd(s: Scan)
    ensures Chunk(s, []) == (s, None)
  {
  }

  lemma CellStep(message: seq<Byte>, i: nat)
    requires i < CELL_SLOTS
    ensures CellCallsFrom(message, i)
         == [SetCell(i + 1, FieldValue(message, i * 4 + 44, i * 4 + 47, 0))] + CellCallsFrom(message, i + 1)
  {
  }

  lemma CellsEnd(message: seq<Byte>)
    ensures CellCallsFrom(message, CELL_SLOTS) == []
  {
  }

  lemma NoneDone(s: BatteryState)
    requires s.Complete()
    ensures AllAssignable([]) && AssignedAll(s, []) == s
  {
  }
}
