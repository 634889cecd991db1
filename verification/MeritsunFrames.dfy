/**
 A printer for Meritsun frames and what the plugin reads back from them:
 marker, 54 content bytes and the 16-bit sum as upper-case hex pairs, eight
 bytes of padding.
 */
module MeritsunFrames {
  import opened Common
  import opened Framer
  import opened Padding
  import opened AsciiHex
  import opened Battery
  import opened Meritsun

  const CONTENT_BYTES: nat := 54
  const PADDING: seq<Byte> := [12, 12, 12, 12, 12, 12, 12, 12]

  datatype Reading = Reading(mvoltage: nat, mcurrent: int, mcapacity: nat, cycles: nat, soc: nat,
                             temperature: nat, status: Byte, spare1: Byte, afestatus: Byte, spare2: Byte,
                             cells: seq<nat>)
  {
    /** Every field fits its width and the frame is not the all-zero run the plugin refuses. */
    predicate Printable() {
      && 1000 <= mvoltage < 0x1_0000_0000
      && -0x8000_0000 <= mcurrent <= 0x7fff_ffff
      && mcapacity < 0x1_0000_0000
      && cycles < 0x1_0000 && soc < 0x1_0000 && temperature < 0x1_0000
      && (mcurrent != 0 || mcapacity != 0 || cycles != 0 || soc != 0 || temperature != 0 || status != 0)
      && |cells| <= CELL_SLOTS
      && forall i :: 0 <= i < |cells| ==> 1000 <= cells[i] <= 5000
    }

    function Unsigned(): (u: nat)
      requires -0x8000_0000 <= mcurrent <= 0x7fff_ffff
      ensures u < 0x1_0000_0000 && ToSigned(u, UINT32_WRAP, INT32_MAX) == mcurrent
    {
      if mcurrent < 0 then mcurrent + 0x1_0000_0000 else mcurrent
    }

    /** The millivolts of slot i; slots past the last cell are empty. */
    function Slot(i: nat): nat {
      if i < |cells| then cells[i] else 0
    }

    function SlotBytes(n: nat): (b: seq<Byte>)
      ensures |b| == 2 * n
    {
      if n == 0 then [] else SlotBytes(n - 1) + ToLittleEndian(Slot(n - 1), 2)
    }

    function Content(): (b: seq<Byte>)
      requires Printable()
      ensures |b| == CONTENT_BYTES
    {
      (ToLittleEndian(mvoltage, 4) + ToLittleEndian(Unsigned(), 4) + ToLittleEndian(mcapacity, 4))
      + (ToLittleEndian(cycles, 2) + ToLittleEndian(soc, 2) + ToLittleEndian(temperature, 2))
      + ([status, spare1, afestatus, spare2] + SlotBytes(CELL_SLOTS))
    }

    /** The characters between the marker and the padding. */
    function Text(): (s: seq<Byte>)
      requires Printable()
      ensures |s| == 112
    {
      var sum := Sum(Content());
      SumBound(Content());
      HexPairs(Content()) + HexPairs([sum / 256, sum % 256])
    }

    function Frame(marker: Byte): (s: seq<Byte>)
      requires Printable()
      ensures |s| == 121
    {
      [marker] + Text() + PADDING
    }

    function CellsCalls(i: nat): seq<Assignment>
      requires i <= |cells|
      decreases |cells| - i
    {
      if i == |cells| then [] else [SetCell(i + 1, cells[i])] + CellsCalls(i + 1)
    }

    /** What the battery should be told. */
    function Calls(): seq<Assignment>
      requires Printable()
    {
      [SetMsg(Text() + PADDING), SetMvoltage(mvoltage), SetMcurrent(mcurrent), SetMcapacity(mcapacity),
       SetChargeCycles(cycles), SetSoc(soc), SetTemperature(temperature), SetStatus(status),
       SetAfestatus(afestatus)] + CellsCalls(0)
    }
  }

  function Sum(bytes: seq<Byte>): nat {
    if bytes == [] then 0 else bytes[0] + Sum(bytes[1..])
  }

  lemma {:induction false} SumBound(bytes: seq<Byte>)
    ensures Sum(bytes) <= 255 * |bytes|
  {
    if bytes != [] {
      SumBound(bytes[1..]);
    }
  }

  // ------------------------------------------------- reading printed text

  lemma UpperPairs(bytes: seq<Byte>, i: nat)
    requires i < 2 * |bytes|
    ensures IsUpperDigit(HexPairs(bytes)[i])
  {
  }

  lemma DigitsRead(message: seq<Byte>, chars: seq<Byte>, start: nat, end: nat)
    requires start <= end < |message| && chars == message[start..end + 1]
    requires AllUpper(chars)
    ensures ReadField(message, start, end) == Some(FieldValue(message, start, end, 0))
  {
    hide FieldValue;
    forall i | start <= i <= end ensures IsUpperDigit(message[i]) {
      assert message[i] == chars[i - start];
    }
  }

  lemma SliceOfPrefix<T>(s: seq<T>, n: nat, lo: nat, hi: nat)
    requires lo <= hi <= n <= |s|
    ensures s[..n][lo..hi] == s[lo..hi]
  {
  }

  lemma FieldOfPairs(message: seq<Byte>, start: nat, end: nat, bytes: seq<Byte>)
    requires bytes != [] && end == start + 2 * |bytes| - 1 < |message|
    requires message[start..end + 1] == HexPairs(bytes)
    ensures ReadField(message, start, end) == Some(FieldValue(message, start, end, 0))
    ensures FieldValue(message, start, end, 0) == LittleEndian(bytes)
  {
    hide FieldValue, ReadField, HexPairs, LittleEndian, PairBytes, AllDigits, AllUpper;
    assert (end - start) % 2 == 1;
    PairBytesOfHexPairs(bytes);
    FieldIsLittleEndian(message, start, end, 0);
    DigitsRead(message, HexPairs(bytes), start, end);
  }

  /** A field over whole bytes of the content reads back the number they were printed from. */
  lemma PrintedValue(message: seq<Byte>, content: seq<Byte>, lo: nat, width: nat, start: nat, end: nat, value: nat)
    requires 0 < width && lo + width <= |content| && 2 * |content| <= |message|
    requires start == 2 * lo && end == 2 * (lo + width) - 1
    requires message[..2 * |content|] == HexPairs(content)
    requires content[lo..lo + width] == ToLittleEndian(value, width) && value < Pow256(width)
    ensures FieldValue(message, start, end, 0) == value
    ensures ReadField(message, start, end) == Some(value)
  {
    hide FieldValue, ReadField, HexPairs, LittleEndian, AllDigits, AllUpper, ToLittleEndian, Pow256;
    var bytes := ToLittleEndian(value, width);
    SliceOfPrefix(message, 2 * |content|, start, end + 1);
    HexPairsSlice(content, lo, lo + width);
    assert message[start..end + 1] == HexPairs(bytes);
    FieldOfPairs(message, start, end, bytes);
    LittleEndianRoundTrip(value, width);
  }

  lemma Widths()
    ensures Pow256(1) == 0x100 && Pow256(2) == 0x1_0000 && Pow256(4) == 0x1_0000_0000
  {
    assert Pow256(0) == 1;
    assert Pow256(1) == 256;
    assert Pow256(2) == 65536;
    assert Pow256(3) == 16777216;
  }

  // ------------------------------------------------- framing

  lemma TextIsClean(r: Reading, i: nat)
    requires r.Printable() && i < 112
    ensures IsUpperDigit(r.Text()[i])
  {
    var content := r.Content();
    var sum := Sum(content);
    SumBound(content);
    if i < 108 {
      UpperPairs(content, i);
      assert r.Text()[i] == HexPairs(content)[i];
    } else {
      UpperPairs([sum / 256, sum % 256], i - 108);
      assert r.Text()[i] == HexPairs([sum / 256, sum % 256])[i - 108];
    }
  }

  /** No payload byte is a marker or padding, so the frame is one packet with its content ending at 114. */
  lemma {:induction false} FrameIsOnePacket(r: Reading, marker: Byte)
    requires r.Printable() && IsMarker(marker)
    ensures Framed(r.Frame(marker))
    ensures FrameEndOf(r.Frame(marker)) == 114
  {
    var f := r.Frame(marker);
    forall i | 1 <= i < |f| ensures !IsMarker(f[i]) && (i < 113 ==> f[i] != END_VAL) {
      if i < 113 {
        TextIsClean(r, i - 1);
        assert f[i] == r.Text()[i - 1];
      } else {
        assert f[i] == PADDING[i - 113];
      }
    }
    assert f[113] == PADDING[0];
    var first := FirstPad(f, END_VAL, 109, 121);
    assert first == 113;
  }

  lemma {:induction false} PrintedSum(frame: seq<Byte>, content: seq<Byte>, k: nat)
    requires k <= |content| && 1 + 2 * |content| <= |frame|
    requires frame[1..1 + 2 * |content|] == HexPairs(content)
    ensures PairSum(frame, 1 + 2 * k, 1 + 2 * |content|) == Sum(content[k..])
    decreases |content| - k
  {
    hide PairAt, HexPairs;
    if k < |content| {
      PrintedSum(frame, content, k + 1);
      PrintedPair(frame, 1, content, k);
      assert content[k..][1..] == content[k + 1..];
    }
  }

  lemma SinglePair(b: Byte)
    ensures HexPairs([b]) == [HexChar(b / 16), HexChar(b % 16)]
  {
    assert [b][1..] == [];
  }

  lemma PairOfChars(frame: seq<Byte>, q: nat, b: Byte)
    requires q + 1 < |frame| && frame[q] == HexChar(b / 16) && frame[q + 1] == HexChar(b % 16)
    ensures PairAt(frame, q) == b
  {
    PairAtParse(frame, q);
  }

  lemma PrintedPair(frame: seq<Byte>, at: nat, content: seq<Byte>, k: nat)
    requires k < |content| && at + 2 * |content| <= |frame|
    requires frame[at..at + 2 * |content|] == HexPairs(content)
    ensures PairAt(frame, at + 2 * k) == content[k]
  {
    hide PairAt, HexPairs, AllDigits, AllUpper;
    var q, text := at + 2 * k, HexPairs(content);
    HexPairsSlice(content, k, k + 1);
    assert content[k..k + 1] == [content[k]];
    SinglePair(content[k]);
    assert frame[q] == text[2 * k] == text[2 * k..2 * (k + 1)][0];
    assert frame[q + 1] == text[2 * k + 1] == text[2 * k..2 * (k + 1)][1];
    PairOfChars(frame, q, content[k]);
  }

  lemma {:induction false} PrintedChecksum(r: Reading, marker: Byte)
    requires r.Printable()
    ensures ChecksumOk(Buffered(r.Frame(marker)), 114)
  {
    hide PairAt, PairSum, HexPairs, AllDigits, AllUpper;
    var frame, content := Buffered(r.Frame(marker)), r.Content();
    var sum := Sum(content);
    SumBound(content);
    var tail := [sum / 256, sum % 256];
    assert frame[1..109] == HexPairs(content);
    assert frame[109..113] == HexPairs(tail);
    PrintedSum(frame, content, 0);
    assert content[0..] == content;
    PrintedPair(frame, 109, tail, 0);
    PrintedPair(frame, 109, tail, 1);
  }

  /**
   A byte that is not padding, replaced by another, keeps the packet's end, and goes into the copy
   where it stands.
   */
  lemma ByteReplaced(packet: seq<Byte>, k: nat, c: Byte)
    requires k < |packet| <= BUFFER && packet[k] != END_VAL && c != END_VAL
    ensures FrameEndOf(packet[k := c]) == FrameEndOf(packet)
    ensures Buffered(packet[k := c]) == Buffered(packet)[k := c]
  {
    ContentEndChange(packet, END_VAL, |packet|, k, c);
  }

  /** A pair that reads 0 and is spoilt so that it does not parse still counts as 0. */
  lemma SpoiltPairUnseen(f: seq<Byte>, k: int)
    requires 1 <= k < 109 && k % 2 == 1 && |f| >= 114
    requires f[k] == 48 && f[k + 1] == 48 && ChecksumOk(f, 114)
    ensures ChecksumOk(f[k := 71], 114)
  {
    hide PairAt;
    var g := f[k := 71];
    PairAtParse(f, k);
    PairAtParse(g, k);
    PairSumOneChange(f, g, k, 109);
    SamePair(f, g, 109);
    SamePair(f, g, 111);
  }

  /**
   The limit of the checksum is real: turn one character of a spare zero byte into G, and the
   frame is still accepted; then turn the byte's other digit into any other, and it still is.
   */
  lemma {:induction false} CorruptedDigitAccepted(r: Reading, marker: Byte, c: Byte)
    requires r.Printable() && r.spare1 == 0 && IsMarker(marker) && IsDigit(c) && DigitValue(c) != 0
    ensures
      var g := r.Frame(marker)[39 := 71];
      && Accepted(g) && Buffered(g)[40] == 48 && DigitValue(48) == 0 && Accepted(g[40 := c])
  {
    hide ChecksumOk, FrameEndOf, HexPairs, Reading.Content, PairReading;
    var f := r.Frame(marker);
    var g := f[39 := 71];
    FrameIsOnePacket(r, marker);
    PrintedChecksum(r, marker);
    SpareChars(r, marker);
    ByteReplaced(f, 39, 71);
    SpoiltPairUnseen(Buffered(f), 39);
    assert Buffered(g)[39] == 71 && Buffered(g)[40] == 48;
    CorruptedDigitRejected(g, 40, c);
    assert PairReading(71, 48) == None by { NotAPair(); }
  }

  lemma NotAPair()
    ensures PairReading(71, 48) == None
  {
  }

  /** The spare byte stands at 39 and 40. */
  lemma SpareChars(r: Reading, marker: Byte)
    requires r.Printable() && r.spare1 == 0
    ensures r.Frame(marker)[39] == 48 && r.Frame(marker)[40] == 48
    ensures Buffered(r.Frame(marker))[39] == 48 && Buffered(r.Frame(marker))[40] == 48
  {
    hide ToLittleEndian, Reading.SlotBytes, HexPairs, AllDigits, AllUpper;
    var c, t := r.Content(), HexPairs(r.Content());
    ContentFields(r);
    HexPairsSlice(c, 19, 20);
    assert c[19..20] == [r.spare1];
    SinglePair(0);
    assert t[38..40] == [48, 48];
    assert r.Frame(marker)[39] == t[38] && r.Frame(marker)[40] == t[39];
  }

  // ------------------------------------------------- decoding

  lemma {:induction false} SlotAt(r: Reading, n: nat, i: nat)
    requires i < n
    ensures r.SlotBytes(n)[2 * i..2 * i + 2] == ToLittleEndian(r.Slot(i), 2)
    decreases n
  {
    if i < n - 1 {
      SlotAt(r, n - 1, i);
      assert r.SlotBytes(n)[2 * i..2 * i + 2] == r.SlotBytes(n - 1)[2 * i..2 * i + 2];
    }
  }

  lemma ThreeParts<T>(a: seq<T>, b: seq<T>, c: seq<T>, m: nat, n: nat, l: nat)
    requires m == |a| && n == m + |b| && l == n + |c|
    ensures (a + b + c)[0..m] == a && (a + b + c)[m..n] == b && (a + b + c)[n..l] == c
  {
  }

  lemma SliceOfSlice<T>(s: seq<T>, m: nat, n: nat, lo: nat, hi: nat)
    requires lo <= hi <= n - m && m <= n <= |s|
    ensures s[m..n][lo..hi] == s[m + lo..m + hi]
  {
    var t := s[m..n];
    assert |t[lo..hi]| == |s[m + lo..m + hi]|;
    forall i | 0 <= i < hi - lo ensures t[lo..hi][i] == s[m + lo..m + hi][i] {
      assert t[lo + i] == s[m + lo + i];
    }
  }

  lemma ContentFields(r: Reading)
    requires r.Printable()
    ensures var c := r.Content();
            && c[0..4] == ToLittleEndian(r.mvoltage, 4) && c[4..8] == ToLittleEndian(r.Unsigned(), 4)
            && c[8..12] == ToLittleEndian(r.mcapacity, 4) && c[12..14] == ToLittleEndian(r.cycles, 2)
            && c[14..16] == ToLittleEndian(r.soc, 2) && c[16..18] == ToLittleEndian(r.temperature, 2)
            && c[18..19] == [r.status] && c[20..21] == [r.afestatus] && c[22..54] == r.SlotBytes(CELL_SLOTS)
  {
    hide ToLittleEndian, Reading.SlotBytes;
    var flags, slots := [r.status, r.spare1, r.afestatus, r.spare2], r.SlotBytes(CELL_SLOTS);
    var a, b, d := ToLittleEndian(r.mvoltage, 4), ToLittleEndian(r.Unsigned(), 4), ToLittleEndian(r.mcapacity, 4);
    var e, f, g := ToLittleEndian(r.cycles, 2), ToLittleEndian(r.soc, 2), ToLittleEndian(r.temperature, 2);
    var c := r.Content();
    ThreeParts(a + b + d, e + f + g, flags + slots, 12, 18, 54);
    FieldsOfThird(c, 0, 12, a, b, d);
    FieldsOfThird(c, 12, 18, e, f, g);
    assert (flags + slots)[..1] == [r.status] && (flags + slots)[2..3] == [r.afestatus];
    SliceOfSlice(c, 18, 54, 0, 1);
    SliceOfSlice(c, 18, 54, 2, 3);
    SliceOfSlice(c, 18, 54, 4, 36);
  }

  lemma FieldsOfThird(s: seq<Byte>, lo: nat, hi: nat, a: seq<Byte>, b: seq<Byte>, c: seq<Byte>)
    requires lo <= hi <= |s| && s[lo..hi] == a + b + c
    ensures
      var m, n := |a|, |a| + |b|;
      s[lo..lo + m] == a && s[lo + m..lo + n] == b && s[lo + n..hi] == c
  {
    var m, n := |a|, |a| + |b|;
    ThreeParts(a, b, c, m, n, hi - lo);
    SliceOfSlice(s, lo, hi, 0, m);
    SliceOfSlice(s, lo, hi, m, n);
    SliceOfSlice(s, lo, hi, n, hi - lo);
  }

  lemma OneByte(b: Byte)
    ensures ToLittleEndian(b, 1) == [b]
  {
    assert ToLittleEndian(b / 256, 0) == [];
  }

  lemma ScalarsRead(r: Reading, message: seq<Byte>)
    requires r.Printable() && |message| >= 108 && message[..108] == HexPairs(r.Content())
    ensures ReadField(message, 0, 7) == Some(r.mvoltage)
    ensures ScalarsOf(message) == Scalars(Some(r.Unsigned()), Some(r.mcapacity), Some(r.cycles),
                                          Some(r.soc), Some(r.temperature), Some(r.status))
    ensures FieldValue(message, 40, 41, 0) == r.afestatus
  {
    hide FieldValue, ReadField, ToLittleEndian, HexPairs, AllDigits, AllUpper;
    var c := r.Content();
    ContentFields(r);
    Widths();
    OneByte(r.status);
    OneByte(r.afestatus);
    PrintedValue(message, c, 0, 4, 0, 7, r.mvoltage);
    PrintedValue(message, c, 4, 4, 8, 15, r.Unsigned());
    PrintedValue(message, c, 8, 4, 16, 23, r.mcapacity);
    PrintedValue(message, c, 12, 2, 24, 27, r.cycles);
    PrintedValue(message, c, 14, 2, 28, 31, r.soc);
    PrintedValue(message, c, 16, 2, 32, 35, r.temperature);
    PrintedValue(message, c, 18, 1, 36, 37, r.status);
    PrintedValue(message, c, 20, 1, 40, 41, r.afestatus);
  }

  lemma SlotRead(r: Reading, message: seq<Byte>, i: nat)
    requires r.Printable() && |message| >= 108 && message[..108] == HexPairs(r.Content()) && i < CELL_SLOTS
    ensures FieldValue(message, i * 4 + 44, i * 4 + 47, 0) == r.Slot(i)
  {
    hide FieldValue, ReadField, ToLittleEndian, HexPairs, AllDigits, AllUpper;
    var c := r.Content();
    ContentFields(r);
    Widths();
    SlotAt(r, CELL_SLOTS, i);
    SliceOfSlice(c, 22, 54, 2 * i, 2 * i + 2);
    PrintedValue(message, c, 22 + 2 * i, 2, i * 4 + 44, i * 4 + 47, r.Slot(i));
  }

  lemma {:induction false} CellsRead(r: Reading, message: seq<Byte>, i: nat)
    requires r.Printable() && |message| >= 108 && message[..108] == HexPairs(r.Content()) && i <= |r.cells|
    ensures CellCalls(message, i) == r.CellsCalls(i)
    decreases |r.cells| - i
  {
    hide FieldValue, CellCalls, HexPairs;
    if i == CELL_SLOTS {
      CellCallsEnd(message);
    } else {
      SlotRead(r, message, i);
      CellCallsStep(message, i);
      if i < |r.cells| {
        CellsRead(r, message, i + 1);
      }
    }
  }

  lemma ScalarCalls(s: Scalars, a: int, b: int, c: int, d: int, e: int, f: int)
    requires s == Scalars(Some(a), Some(b), Some(c), Some(d), Some(e), Some(f))
    ensures s.Calls() == [SetMcurrent(ToSigned(a, UINT32_WRAP, INT32_MAX)), SetMcapacity(b),
                          SetChargeCycles(c), SetSoc(d), SetTemperature(e), SetStatus(f)]
  {
  }

  lemma {:induction false} MessageRoundTrip(r: Reading, message: seq<Byte>)
    requires r.Printable() && message == r.Text() + PADDING
    ensures Decoded(message, true) == Some(r.Calls())
  {
    hide FieldValue, ReadField, HexPairs, ScalarsOf, AllDigits, AllUpper, Decoded, CellBlock, CellCalls;
    hide Reading.CellsCalls, Scalars.Calls, Scalars.AnyPresent;
    assert message[..108] == HexPairs(r.Content());
    ScalarsRead(r, message);
    var s := ScalarsOf(message);
    ScalarCalls(s, r.Unsigned(), r.mcapacity, r.cycles, r.soc, r.temperature, r.status);
    CellsRead(r, message, 0);
    CellBlockFull(message);
    assert s.AnyPresent() by { SomePresent(r, s); }
    DecodedReading(message, true, r.mvoltage);
    assert [SetMsg(message), SetMvoltage(r.mvoltage)] + s.Calls()
           + ([SetAfestatus(r.afestatus)] + r.CellsCalls(0)) == r.Calls();
  }

  lemma SomePresent(r: Reading, s: Scalars)
    requires r.Printable()
    requires s == Scalars(Some(r.Unsigned()), Some(r.mcapacity), Some(r.cycles), Some(r.soc), Some(r.temperature),
                          Some(r.status))
    ensures s.AnyPresent()
  {
  }

  lemma MessageOfFrame(r: Reading, marker: Byte)
    requires r.Printable()
    ensures MessageOf(r.Frame(marker)) == r.Text() + PADDING
  {
    var f := r.Frame(marker);
    assert Buffered(f)[1..121] == f[1..121];
    assert f[1..121] == r.Text() + PADDING;
  }

  /** A printed frame reads back as exactly the values it was printed from. */
  lemma {:induction false} FrameRoundTrip(r: Reading, marker: Byte)
    requires r.Printable() && IsMarker(marker)
    ensures PacketCalls(r.Frame(marker)) == Some(r.Calls())
  {
    hide FrameEndOf, ChecksumOk, Decoded, MessageOf, Buffered, Framed;
    FrameIsOnePacket(r, marker);
    PrintedChecksum(r, marker);
    MessageRoundTrip(r, r.Text() + PADDING);
    MessageOfFrame(r, marker);
  }
}
