/**
 Modbus RTU framing: the shared module (modbus.py), the Hacien plugin's own
 check and reassembly, and the requests the SolarLink plugin builds. The
 external `libscrc.modbus` is taken to be the same code as Hacien's loop, as
 section 2.5.1.2 of the MODBUS over Serial Line Specification V1.02 has it.
 */
module Modbus {
  import opened Common
  import Crc
  import AsciiHex

  const WRITE_RESPONSE: Byte := 6
  const HEADER_BYTES: nat := 3
  const CRC_BYTES: nat := 2

  // ------------------------------------------------- modbus.py

  /** One bound of a Python slice over n elements. */
  function Bound(i: int, n: nat): (b: nat)
    ensures b <= n
  {
    if i < 0 then (if i + n < 0 then 0 else i + n) else Min(i, n)
  }

  function Slice(s: seq<Byte>, i: int, j: int): seq<Byte> {
    if Bound(i, |s|) <= Bound(j, |s|) then s[Bound(i, |s|)..Bound(j, |s|)] else []
  }

  function BigEndian(bytes: seq<Byte>): nat {
    if bytes == [] then 0 else 256 * BigEndian(bytes[..|bytes| - 1]) + bytes[|bytes| - 1]
  }

  function BytesToInt(frame: seq<Byte>, offset: int, length: int): nat {
    if |frame| < offset + length then 0
    else if length > 0 then BigEndian(Slice(frame, offset, offset + length))
    else AsciiHex.LittleEndian(Slice(frame, offset + length + 1, offset + 1))
  }

  function HighByte(value: int): Byte {
    (value / 256) % 256
  }

  function LowByte(value: int): Byte {
    value % 256
  }

  predicate ValidateFrame(frame: Option<seq<Byte>>) {
    match frame
    case None => false
    case Some(f) =>
      |f| >= HEADER_BYTES + CRC_BYTES &&
      (f[1] == WRITE_RESPONSE ||
       (|f| - (HEADER_BYTES + CRC_BYTES) == f[2] &&
        Crc.Value(Crc.Of(f[..|f| - CRC_BYTES])) == BytesToInt(f, |f| - 1, -2)))
  }

  /** A positive length reads high byte first. */
  lemma {:induction false} ReadsForwards(frame: seq<Byte>, offset: nat)
    requires offset + 2 <= |frame|
    ensures BytesToInt(frame, offset, 2) == 256 * (frame[offset] as int) + frame[offset + 1]
  {
    var w := frame[offset..offset + 2];
    assert Slice(frame, offset, offset + 2) == w;
    assert w[..1][..0] == [];
    assert BigEndian(w[..1]) == w[0];
  }

  /** A negative length reads the bytes ending at the offset, low byte first. */
  lemma {:induction false} ReadsBackwards(frame: seq<Byte>)
    requires |frame| >= 2
    ensures BytesToInt(frame, |frame| - 1, -2) == (frame[|frame| - 2] as int) + 256 * (frame[|frame| - 1] as int)
  {
    var n := |frame|;
    var w := frame[n - 2..n];
    assert Slice(frame, n - 2, n) == w;
    assert w[1..][1..] == [];
    assert AsciiHex.LittleEndian(w[1..]) == w[1];
  }

  /** The same for any number of bytes: each further byte is the least significant one; a short frame reads as 0. */
  lemma {:induction false} ForwardsByteByByte(frame: seq<Byte>, offset: nat, length: nat)
    requires length > 0
    ensures offset + length > |frame| ==> BytesToInt(frame, offset, length) == 0
    ensures offset + length <= |frame| ==>
      BytesToInt(frame, offset, length) == frame[offset + length - 1]
        + (if length == 1 then 0 else 256 * BytesToInt(frame, offset, length - 1))
  {
    if offset + length <= |frame| {
      var w := frame[offset..offset + length];
      assert Slice(frame, offset, offset + length) == w;
      assert w[..length - 1] == frame[offset..offset + length - 1]
          == Slice(frame, offset, offset + (length - 1));
      if length == 1 {
        assert BigEndian(w[..0]) == 0;
      }
    }
  }

  /** Backwards, each further byte is the one before in the frame and the most significant end stays at the offset. */
  lemma {:induction false} BackwardsByteByByte(frame: seq<Byte>, offset: nat, length: int)
    requires offset < |frame| && 0 <= length <= offset
    ensures BytesToInt(frame, offset, 0) == 0
    ensures BytesToInt(frame, offset, -length - 1)
         == frame[offset - length] + 256 * BytesToInt(frame, offset, -length)
  {
    var w := frame[offset - length..offset + 1];
    assert Slice(frame, offset - length, offset + 1) == w;
    assert w[1..] == frame[offset - length + 1..offset + 1]
        == Slice(frame, offset - length + 1, offset + 1);
    assert Slice(frame, offset + 1, offset + 1) == [];
  }

  /** A length that reaches past the start of the frame counts from its end again, as a negative slice bound does. */
  lemma {:induction false} BackwardsPastStart(frame: seq<Byte>, offset: nat, length: int)
    requires offset < |frame| && length > offset + 1
    ensures BytesToInt(frame, offset, -length)
         == (if |frame| + offset + 1 < length then AsciiHex.LittleEndian(frame[..offset + 1])
             else if |frame| < length then AsciiHex.LittleEndian(frame[|frame| + offset + 1 - length..offset + 1])
             else 0)
  {
  }

  /** A response of the declared length is valid exactly when its residue is zero. */
  lemma {:induction false} ValidFrames(f: seq<Byte>)
    ensures !ValidateFrame(None)
    ensures ValidateFrame(Some(f))
       <==> |f| >= 5 && (f[1] == 6 || (|f| == 5 + (f[2] as int) && Crc.Of(f) == 0))
  {
    if |f| >= 5 {
      var body := f[..|f| - 2];
      assert f == body + [f[|f| - 2], f[|f| - 1]];
      Crc.ResidueZero(body, f[|f| - 2], f[|f| - 1]);
      ReadsBackwards(f);
    }
  }

  lemma SplitBytes(v: nat)
    requires v < 0x1_0000
    ensures LowByte(v) + 256 * HighByte(v) == v
  {
  }

  /** Appending a body's own code, low byte first, makes a frame of residue zero. */
  function Sealed(body: seq<Byte>): (f: seq<Byte>)
    ensures Crc.Of(f) == 0
    ensures |f| == |body| + 2 && f[..|body|] == body
  {
    var v := Crc.Value(Crc.Of(body));
    Crc.ValueBound(Crc.Of(body));
    SplitBytes(v);
    Crc.ResidueZero(body, LowByte(v), HighByte(v));
    body + [LowByte(v), HighByte(v)]
  }

  // ------------------------------------------------- the two checkers

  /** Hacien's check. */
  predicate HacienValid(msg: seq<Byte>) {
    |msg| > 0 && Crc.Of(msg) == 0
  }

  predicate Agree(f: seq<Byte>) {
    ValidateFrame(Some(f)) == HacienValid(f)
  }

  /** A frame of n bytes, and from five bytes on of a function and a declared length. */
  predicate Header(f: seq<Byte>, n: nat, code: Byte, declared: Byte) {
    |f| == n && (n >= 5 ==> f[1] == code && f[2] == declared)
  }

  /**
   The two checkers agree on every frame of a given length, function and declared length exactly
   when there is at most one byte, which both refuse, or the lengths match and the function is not
   a write response.
   */
  lemma {:induction false} CheckersAgree(n: nat, code: Byte, declared: Byte)
    ensures (forall f :: Header(f, n, code, declared) ==> Agree(f))
       <==> (n <= 1 || (n == 5 + declared && code != 6))
  {
    hide ValidateFrame, HacienValid, Crc.Of;
    if n <= 1 || (n == 5 + declared && code != WRITE_RESPONSE) {
      forall f | Header(f, n, code, declared) ensures Agree(f) {
        if n <= 1 {
          TinyAgree(f);
        } else {
          ShapedAgree(f);
        }
      }
    } else {
      var f := SomeSealed(n, code, declared);
      assert Header(f, n, code, declared) && !Agree(f);
    }
  }

  lemma TinyAgree(f: seq<Byte>)
    requires |f| <= 1
    ensures Agree(f) && !HacienValid(f)
  {
    hide Crc.Of;
    if |f| == 1 {
      assert f == [f[0]];
      Crc.OneByteFails(f[0]);
    }
  }

  lemma ShapedAgree(f: seq<Byte>)
    requires |f| >= 5 && |f| == 5 + (f[2] as int) && f[1] != WRITE_RESPONSE
    ensures Agree(f)
  {
    hide Crc.Of;
    ValidFrames(f);
  }

  /** A frame of any other shape on which the checkers differ. */
  lemma SomeSealed(n: nat, code: Byte, declared: Byte) returns (f: seq<Byte>)
    requires n > 1 && (n != 5 + declared || code == WRITE_RESPONSE)
    ensures Header(f, n, code, declared) && !Agree(f)
  {
    hide Crc.Of;
    if n < 5 {
      f := Sealed(seq(n - 2, _ => 0));
      return;
    }
    var body := [0, code, declared] + seq(n - 5, _ => 0);
    f := Sealed(body);
    assert f[1] == f[..|body|][1] && f[2] == f[..|body|][2];
    if code == WRITE_RESPONSE {
      f := Damaged(f);
    }
    ValidFrames(f);
  }

  /** The frame with its last byte changed no longer checks. */
  lemma Damaged(f: seq<Byte>) returns (g: seq<Byte>)
    requires |f| >= 1 && Crc.Of(f) == 0
    ensures |g| == |f| && (forall i :: 0 <= i < |f| - 1 ==> g[i] == f[i])
    ensures Crc.Of(g) != 0
  {
    hide Crc.Of;
    var k := |f| - 1;
    var c: Byte := if f[k] == 0 then 1 else 0;
    g := f[..k] + [c];
    Crc.TwoBytesDetected(f[..k], [f[k]], [c], []);
    assert f[..k] + [f[k]] + [] == f;
    assert f[..k] + [c] + [] == g;
  }

  /** Frames too short for modbus.py can still satisfy Hacien: two bytes of 255 do. */
  lemma {:induction false} ShortFrameDisagrees()
    ensures HacienValid([255, 255]) && !ValidateFrame(Some([255, 255]))
  {
    Crc.ValueOfInitial();
    assert Crc.Of([]) == Crc.INITIAL;
    Crc.ResidueZero([], 255, 255);
    assert [] + [255, 255] == [255, 255];
  }
}

/** Reassembly of Hacien responses (plugins/Hacien/__init__.py). */
module Hacien {
  import opened Common
  import opened Modbus

  datatype Outcome = Raised | Incomplete | Complete(message: seq<Byte>)

  predicate StartsResponse(data: seq<Byte>) {
    |data| >= 2 && data[0] == 1 && data[1] == 3
  }

  /** Reading the first two bytes raises an IndexError. */
  predicate Unreadable(data: seq<Byte>) {
    data == [] || (|data| == 1 && data[0] == 1)
  }

  function BufferAfter(buffer: seq<Byte>, data: seq<Byte>): seq<Byte> {
    if Unreadable(data) then buffer
    else if StartsResponse(data) then data
    else buffer + data
  }

  function OutcomeOf(buffer: seq<Byte>, data: seq<Byte>): Outcome {
    if Unreadable(data) then Raised
    else if HacienValid(BufferAfter(buffer, data)) then Complete(BufferAfter(buffer, data))
    else Incomplete
  }

  function BufferRun(buffer: seq<Byte>, chunks: seq<seq<Byte>>): seq<Byte> {
    if chunks == [] then buffer
    else BufferAfter(BufferRun(buffer, chunks[..|chunks| - 1]), chunks[|chunks| - 1])
  }

  class Util {
    var buffer: seq<Byte>

    constructor ()
      ensures buffer == []
    {
      buffer := [];
    }

    method Validate(msg: seq<Byte>) returns (ok: bool)
      ensures ok == HacienValid(msg)
    {
      if |msg| == 0 { return false; }
      var crc := Crc.Compute(msg);
      return crc == 0;
    }

    method NotificationUpdate(data: seq<Byte>) returns (outcome: Outcome)
      modifies this
      ensures buffer == BufferAfter(old(buffer), data)
      ensures outcome == OutcomeOf(old(buffer), data)
    {
      hide HacienValid;
      if |data| == 0 || (data[0] == 1 && |data| == 1) {
        return Raised;
      }
      if data[0] == 1 && data[1] == 3 {
        buffer := [];
      }
      ghost var start := buffer;
      for i := 0 to |data|
        invariant buffer == start + data[..i]
      {
        buffer := buffer + [data[i]];
      }
      assert data[..|data|] == data;
      var ok := Validate(buffer);
      if ok {
        return Complete(buffer);
      }
      return Incomplete;
    }
  }

  /** A notification behind the first whose bytes are all kept: it neither restarts the buffer nor is a lone 1. */
  predicate Kept(data: seq<Byte>) {
    !StartsResponse(data) && data != [1]
  }

  lemma FlattenSnoc(chunks: seq<seq<Byte>>, last: seq<Byte>)
    ensures Flatten(chunks + [last]) == Flatten(chunks) + last
  {
    if chunks == [] {
      assert chunks + [last] == [last];
      assert [last][1..] == [];
    } else {
      assert (chunks + [last])[1..] == chunks[1..] + [last];
      FlattenSnoc(chunks[1..], last);
    }
  }

  lemma {:induction false} BufferIsPrefix(buffer: seq<Byte>, first: seq<Byte>, later: seq<seq<Byte>>)
    requires StartsResponse(first)
    requires forall i :: 0 <= i < |later| ==> Kept(later[i])
    ensures BufferRun(buffer, [first] + later) == first + Flatten(later)
    decreases |later|
  {
    var chunks := [first] + later;
    if later == [] {
      assert chunks[..0] == [];
      assert BufferRun(buffer, []) == buffer;
      assert first + Flatten(later) == first;
    } else {
      var init, last := later[..|later| - 1], later[|later| - 1];
      assert chunks[..|chunks| - 1] == [first] + init;
      BufferIsPrefix(buffer, first, init);
      FlattenSnoc(init, last);
      assert init + [last] == later;
      assert first + Flatten(init) + last == first + (Flatten(init) + last);
      assert Flatten(init) + [] == Flatten(init);
    }
  }

  lemma {:induction false} BufferNoLonger(buffer: seq<Byte>, first: seq<Byte>, later: seq<seq<Byte>>)
    requires StartsResponse(first)
    ensures |BufferRun(buffer, [first] + later)| <= |first| + |Flatten(later)|
    ensures (exists i :: 0 <= i < |later| && !Kept(later[i]))
            ==> |BufferRun(buffer, [first] + later)| < |first| + |Flatten(later)|
    decreases |later|
  {
    var chunks := [first] + later;
    if later == [] {
      assert chunks[..0] == [];
      assert BufferRun(buffer, []) == buffer;
    } else {
      var init, last := later[..|later| - 1], later[|later| - 1];
      assert chunks[..|chunks| - 1] == [first] + init;
      BufferNoLonger(buffer, first, init);
      FlattenSnoc(init, last);
      assert init + [last] == later;
    }
  }

  lemma {:induction false} RunConcat(buffer: seq<Byte>, a: seq<seq<Byte>>, b: seq<seq<Byte>>)
    ensures BufferRun(buffer, a + b) == BufferRun(BufferRun(buffer, a), b)
  {
    if b == [] {
      assert a + b == a;
    } else {
      assert (a + b)[..|a + b| - 1] == a + b[..|b| - 1];
      RunConcat(buffer, a, b[..|b| - 1]);
    }
  }

  lemma {:induction false} FlattenConcat(a: seq<seq<Byte>>, b: seq<seq<Byte>>)
    ensures Flatten(a + b) == Flatten(a) + Flatten(b)
  {
    if a == [] {
      assert a + b == b;
    } else {
      assert (a + b)[1..] == a[1..] + b;
      FlattenConcat(a[1..], b);
    }
  }

  /** No run leaves a lone 1 in the buffer. */
  lemma {:induction false} NeverLoneOne(past: seq<seq<Byte>>)
    ensures BufferRun([], past) != [1]
  {
    if past != [] {
      var init, last := past[..|past| - 1], past[|past| - 1];
      NeverLoneOne(init);
      var buffer := BufferRun([], init);
      if last != [] && !Unreadable(last) && !StartsResponse(last) {
        assert (buffer + last)[|buffer|..] == last;
      }
    }
  }

  function Ones(s: seq<Byte>): (n: nat)
    ensures n <= |s|
  {
    if s == [] then 0 else Ones(s[1..]) + if s[0] == 1 then 1 else 0
  }

  lemma {:induction false} OnesConcat(a: seq<Byte>, b: seq<Byte>)
    ensures Ones(a + b) == Ones(a) + Ones(b)
  {
    if a == [] {
      assert a + b == b;
    } else {
      assert (a + b)[1..] == a[1..] + b;
      OnesConcat(a[1..], b);
    }
  }

  lemma {:induction false} AllOnes(s: seq<Byte>, k: nat)
    requires Ones(s) == |s| && k < |s|
    ensures s[k] == 1
  {
    if k > 0 {
      AllOnes(s[1..], k - 1);
    }
  }

  /** Without a restart the buffer grows by the stream but for n lone ones. */
  lemma {:induction false} OnlyOnesLost(buffer: seq<Byte>, chunks: seq<seq<Byte>>)
    returns (grown: seq<Byte>, n: nat)
    requires forall i :: 0 <= i < |chunks| ==> !StartsResponse(chunks[i])
    ensures BufferRun(buffer, chunks) == buffer + grown
    ensures |grown| + n == |Flatten(chunks)| && Ones(grown) + n == Ones(Flatten(chunks))
    ensures (exists i :: 0 <= i < |chunks| && chunks[i] == [1]) ==> n > 0
  {
    if chunks == [] {
      grown, n := [], 0;
      assert buffer + grown == buffer;
    } else {
      var init, last := chunks[..|chunks| - 1], chunks[|chunks| - 1];
      grown, n := OnlyOnesLost(buffer, init);
      FlattenSnoc(init, last);
      assert init + [last] == chunks;
      OnesConcat(Flatten(init), last);
      OnesConcat(grown, last);
      if Unreadable(last) {
        n := n + |last|;
      } else {
        assert buffer + grown + last == buffer + (grown + last);
        grown := grown + last;
      }
    }
  }

  /** The first two bytes of the response arrive together, and no later notification is a restart or a lone 1. */
  predicate Unbroken(chunks: seq<seq<Byte>>) {
    forall i :: 0 <= i < |chunks| ==>
      chunks[i] != [1] && (StartsResponse(chunks[i]) ==> Flatten(chunks[..i]) == [])
  }

  /** A notification that restarts the buffer leaves nothing of what came before it. */
  lemma RestartShortens(buffer: seq<Byte>, chunks: seq<seq<Byte>>, i: nat)
    requires i < |chunks| && StartsResponse(chunks[i])
    ensures Flatten(chunks) == Flatten(chunks[..i]) + (chunks[i] + Flatten(chunks[i + 1..]))
    ensures BufferRun(buffer, chunks) == BufferRun(BufferRun(buffer, chunks[..i]), [chunks[i]] + chunks[i + 1..])
    ensures |BufferRun(buffer, chunks)| <= |chunks[i]| + |Flatten(chunks[i + 1..])|
  {
    var a, b := chunks[..i], [chunks[i]] + chunks[i + 1..];
    assert chunks == a + b;
    assert b[1..] == chunks[i + 1..];
    RunConcat(buffer, a, b);
    FlattenConcat(a, b);
    BufferNoLonger(BufferRun(buffer, a), chunks[i], chunks[i + 1..]);
  }

  lemma {:induction false} EmptyParts(chunks: seq<seq<Byte>>, i: nat)
    requires Flatten(chunks) == [] && i < |chunks|
    ensures chunks[i] == []
  {
    if i > 0 {
      EmptyParts(chunks[1..], i - 1);
    }
  }

  /** A notification that starts the response: what follows is kept whole, or the buffer falls short. */
  lemma StartedExactly(buffer: seq<Byte>, chunks: seq<seq<Byte>>, i: nat)
    requires i < |chunks| && StartsResponse(chunks[i]) && Flatten(chunks[..i]) == []
    ensures BufferRun(buffer, chunks) == Flatten(chunks) <==> Unbroken(chunks)
  {
    var later := chunks[i + 1..];
    RestartShortens(buffer, chunks, i);
    assert [] + (chunks[i] + Flatten(later)) == chunks[i] + Flatten(later);
    forall j | 0 <= j < i ensures chunks[j] == [] {
      EmptyParts(chunks[..i], j);
    }
    if forall k :: 0 <= k < |later| ==> Kept(later[k]) {
      BufferIsPrefix(BufferRun(buffer, chunks[..i]), chunks[i], later);
      forall k | 0 <= k < |chunks|
        ensures chunks[k] != [1] && (StartsResponse(chunks[k]) ==> Flatten(chunks[..k]) == [])
      {
        assert k > i ==> Kept(later[k - i - 1]);
      }
    } else {
      var k :| 0 <= k < |later| && !Kept(later[k]);
      BufferNoLonger(BufferRun(buffer, chunks[..i]), chunks[i], later);
      BehindStart(chunks, i, i + 1 + k);
    }
  }

  lemma BehindStart(chunks: seq<seq<Byte>>, i: nat, k: nat)
    requires i < k <= |chunks| && chunks[i] != []
    ensures Flatten(chunks[..k]) != []
  {
    assert chunks[..k] == chunks[..i] + ([chunks[i]] + chunks[i + 1..k]);
    FlattenConcat(chunks[..i], [chunks[i]] + chunks[i + 1..k]);
    assert ([chunks[i]] + chunks[i + 1..k])[1..] == chunks[i + 1..k];
  }

  /** No notification starts the response, so its first byte came alone and is gone. */
  lemma NeverStarted(past: seq<seq<Byte>>, chunks: seq<seq<Byte>>)
    requires StartsResponse(Flatten(chunks))
    requires forall i :: 0 <= i < |chunks| ==> !StartsResponse(chunks[i])
    ensures BufferRun(BufferRun([], past), chunks) != Flatten(chunks) && !Unbroken(chunks)
  {
    var buffer, whole := BufferRun([], past), Flatten(chunks);
    var i := FirstFilled(chunks);
    assert chunks[i] == [1];
    var grown, n := OnlyOnesLost(buffer, chunks);
    if buffer + grown == whole {
      OnesConcat(buffer, grown);
      NeverLoneOne(past);
      AllOnes(buffer, 0);
      if n > 1 {
        AllOnes(buffer, 1);
      }
    }
  }

  lemma {:induction false} FirstFilled(chunks: seq<seq<Byte>>) returns (i: nat)
    requires Flatten(chunks) != []
    ensures i < |chunks| && chunks[i] != [] && chunks[i] <= Flatten(chunks)
  {
    if chunks[0] != [] {
      i := 0;
    } else {
      assert Flatten(chunks) == Flatten(chunks[1..]);
      i := FirstFilled(chunks[1..]);
      i := i + 1;
    }
  }

  lemma ReassembledBuffer(past: seq<seq<Byte>>, chunks: seq<seq<Byte>>)
    requires StartsResponse(Flatten(chunks))
    ensures BufferRun(BufferRun([], past), chunks) == Flatten(chunks) <==> Unbroken(chunks)
  {
    hide Unbroken;
    var buffer := BufferRun([], past);
    if i :| 0 <= i < |chunks| && StartsResponse(chunks[i]) {
      if Flatten(chunks[..i]) == [] {
        StartedExactly(buffer, chunks, i);
      } else {
        RestartShortens(buffer, chunks, i);
        assert !Unbroken(chunks) by { NotUnbroken(chunks, i); }
      }
    } else {
      NeverStarted(past, chunks);
    }
  }

  lemma NotUnbroken(chunks: seq<seq<Byte>>, i: nat)
    requires i < |chunks| && StartsResponse(chunks[i]) && Flatten(chunks[..i]) != []
    ensures !Unbroken(chunks)
  {
  }

  /**
   After any past, a response cut into any notifications reaches the handler whole, on the last of
   them, exactly when the last is not empty, the first two bytes arrive together, no later
   notification looks like a new response and none is a lone 1.
   */
  lemma {:induction false} ResponseReassembled(past: seq<seq<Byte>>, chunks: seq<seq<Byte>>)
    requires chunks != [] && StartsResponse(Flatten(chunks)) && HacienValid(Flatten(chunks))
    ensures
      var n := |chunks| - 1;
      OutcomeOf(BufferRun(BufferRun([], past), chunks[..n]), chunks[n]) == Complete(Flatten(chunks))
      <==> chunks[n] != [] && Unbroken(chunks)
  {
    hide HacienValid;
    ReassembledBuffer(past, chunks);
    assert chunks[|chunks| - 1] == [1] ==> !Unbroken(chunks);
    hide Unbroken;
  }

  /**
   A response whose last notification is the high byte of its code, 1: reading data[1] raises, and
   the response is never handed over, whatever came before.
   */
  lemma {:induction false} LastByteLost(past: seq<seq<Byte>>)
    ensures
      var whole: seq<Byte> := [1, 3, 2, 0, 243, 248, 1];
      var buffer := BufferRun(BufferRun([], past), [whole[..6]]);
      && HacienValid(whole) && ValidateFrame(Some(whole))
      && OutcomeOf(buffer, whole[6..]) == Raised && BufferAfter(buffer, whole[6..]) == whole[..6]
  {
    hide HacienValid, Crc.Of, ValidateFrame;
    var whole: seq<Byte> := [1, 3, 2, 0, 243, 248, 1];
    Crc.CodeEndsInOne();
    ConcreteIsValid(whole);
    assert whole[6..] == [1];
    assert [whole[..6]][..0] == [];
  }

  lemma ConcreteIsValid(f: seq<Byte>)
    requires |f| == 7 && f[2] == 2 && f[1] == 3 && Crc.Of(f) == 0
    ensures HacienValid(f) && ValidateFrame(Some(f))
  {
    hide Crc.Of;
    ValidFrames(f);
  }

  /**
   A response that looks like a new one half-way: four payload bytes, two of them 1 and 3, with an
   intact code, so that both checkers accept the whole; cut before the 1 its beginning is thrown away.
   */
  lemma {:induction false} ResponseLost(buffer: seq<Byte>) returns (first: seq<Byte>, last: seq<Byte>)
    ensures StartsResponse(first) && HacienValid(first + last) && ValidateFrame(Some(first + last))
    ensures OutcomeOf(BufferRun(buffer, [first]), last) != Complete(first + last)
    ensures BufferRun(buffer, [first, last]) == last
  {
    hide HacienValid, Crc.Of, ValidateFrame;
    first := [1, 3, 4];
    var body: seq<Byte> := [1, 3, 4, 1, 3, 0, 0];
    var f := Sealed(body);
    last := f[3..];
    assert f[..3] == f[..7][..3] == body[..3] == first;
    assert f[3] == f[..7][3] == 1 && f[4] == f[..7][4] == 3 && f[1] == f[..7][1] && f[2] == f[..7][2];
    assert f == first + last;
    SealedIsValid(f);
    RestartLoses(buffer, first, last);
  }

  lemma RestartLoses(buffer: seq<Byte>, first: seq<Byte>, last: seq<Byte>)
    requires StartsResponse(first) && StartsResponse(last)
    ensures OutcomeOf(BufferRun(buffer, [first]), last) != Complete(first + last)
    ensures BufferRun(buffer, [first, last]) == last
  {
    hide HacienValid;
    assert [first, last][..1] == [first] && [first][..0] == [];
    assert BufferRun(buffer, [first]) == first;
    assert |last| < |first + last|;
  }

  lemma SealedIsValid(f: seq<Byte>)
    requires |f| == 9 && f[2] == 4 && f[1] == 3 && Crc.Of(f) == 0
    ensures HacienValid(f) && ValidateFrame(Some(f))
  {
    hide Crc.Of;
    ValidFrames(f);
  }

  /** Before the last notification something is handed over only if a proper prefix ends in its own code. */
  lemma {:induction false} PrematureOnlyBySelfCheck(
    buffer: seq<Byte>, first: seq<Byte>, later: seq<seq<Byte>>, next: seq<Byte>)
    requires StartsResponse(first) && Kept(next)
    requires forall i :: 0 <= i < |later| ==> Kept(later[i])
    ensures OutcomeOf(BufferRun(buffer, [first] + later), next)
      == var prefix := first + Flatten(later) + next;
         if next == [] then Raised else if Crc.Of(prefix) == 0 then Complete(prefix) else Incomplete
  {
    BufferIsPrefix(buffer, first, later);
  }
}

/** Requests of the SolarLink plugin (plugins/SolarLink/__init__.py). */
module SolarLink {
  import opened Common
  import opened Modbus

  const READ: Byte := 3
  const WRITE: Byte := 6

  datatype Target = Target(code: Byte, register: nat, word: nat)

  /** Register, word and function behind a command name; other names raise. */
  function TargetOf(cmd: string): (t: Option<Target>)
    ensures t.Some? ==> 0 < t.value.register < 0x1_0000 && t.value.word < 0x1_0000
  {
    if cmd == "SolarPanelAndBatteryState" then Some(Target(READ, 288, 3))
    else if cmd == "BatteryParamInfo" then Some(Target(READ, 256, 7))
    else if cmd == "SolarPanelInfo" then Some(Target(READ, 263, 4))
    else if cmd == "ParamSettingData" then Some(Target(READ, 57345, 33))
    else if cmd == "RegulatorPowerOn" then Some(Target(WRITE, 266, 1))
    else if cmd == "RegulatorPowerOff" then Some(Target(WRITE, 266, 0))
    else None
  }

  /** The registers, words and functions of the six commands; any other name raises. */
  lemma {:induction false} TargetsExactly(cmd: string)
    ensures TargetOf(cmd)
         == match cmd
            case "SolarPanelAndBatteryState" => Some(Target(3, 0x0120, 3))
            case "BatteryParamInfo" => Some(Target(3, 0x0100, 7))
            case "SolarPanelInfo" => Some(Target(3, 0x0107, 4))
            case "ParamSettingData" => Some(Target(3, 0xE001, 33))
            case "RegulatorPowerOn" => Some(Target(6, 0x010A, 1))
            case "RegulatorPowerOff" => Some(Target(6, 0x010A, 0))
            case _ => None
  {
  }

  class Util {
    var pollRegister: Option<string>
    const deviceId: Byte

    constructor (deviceId: Byte)
      ensures this.deviceId == deviceId && pollRegister == None
    {
      this.deviceId := deviceId;
      pollRegister := None;
    }

    /** None when the command is unknown and the source raises; the register name is noted either way. */
    method CreatePollRequest(cmd: string) returns (data: Option<seq<Byte>>)
      modifies this
      ensures pollRegister == Some(cmd)
      ensures data.Some? <==> TargetOf(cmd).Some?
      ensures data.Some? ==>
                var t, d := TargetOf(cmd).value, data.value;
                && |d| == 8 && d[0] == deviceId && d[1] == t.code
                && BytesToInt(d, 2, 2) == t.register && BytesToInt(d, 4, 2) == t.word
                && Crc.Of(d) == 0
    {
      hide TargetOf, Crc.Of, Crc.Value, BytesToInt, HighByte, LowByte;
      pollRegister := Some(cmd);
      var target := TargetOf(cmd);
      if target == None { return None; }
      var t := target.value;
      var d := [];
      d := d + [deviceId];
      d := d + [t.code];
      d := d + [HighByte(t.register)];
      d := d + [LowByte(t.register)];
      d := d + [HighByte(t.word)];
      d := d + [LowByte(t.word)];
      var crc := Crc.Compute(d);
      ghost var body := d;
      d := d + [LowByte(Crc.Value(crc))];
      d := d + [HighByte(Crc.Value(crc))];
      SealedRequest(body, d, t);
      return Some(d);
    }
  }

  lemma SealedRequest(body: seq<Byte>, d: seq<Byte>, t: Target)
    requires |body| == 6 && t.register < 0x1_0000 && t.word < 0x1_0000
    requires body[2] == HighByte(t.register) && body[3] == LowByte(t.register)
    requires body[4] == HighByte(t.word) && body[5] == LowByte(t.word)
    requires d == body + [LowByte(Crc.Value(Crc.Of(body)))] + [HighByte(Crc.Value(Crc.Of(body)))]
    ensures BytesToInt(d, 2, 2) == t.register && BytesToInt(d, 4, 2) == t.word && Crc.Of(d) == 0
  {
    hide Crc.Of, Crc.Value, BytesToInt, HighByte, LowByte;
    var v := Crc.Value(Crc.Of(body));
    Crc.ValueBound(Crc.Of(body));
    SplitBytes(v);
    SplitBytes(t.register);
    SplitBytes(t.word);
    Crc.ResidueZero(body, LowByte(v), HighByte(v));
    assert d == body + [LowByte(v), HighByte(v)];
    ReadsForwards(d, 2);
    ReadsForwards(d, 4);
  }
}
