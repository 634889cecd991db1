/**
 ASCII-hex fields and the additive frame checksum (asciihex.py), and the sign
 extension of codec.py. `ParseHex` is Python's `int(text, 16)` on text whose
 characters are single octets: surrounding white space, one sign, a 0x prefix,
 both letter cases and single underscores between digits are all accepted.
 */
module AsciiHex {
  import opened Common

  const UNDERSCORE: Byte := 95
  const PLUS: Byte := 43
  const MINUS: Byte := 45

  predicate IsSpace(c: Byte) {
    9 <= c <= 13 || c == 32 || c == 133 || c == 160
  }

  predicate IsDigit(c: Byte) {
    48 <= c <= 57 || 65 <= c <= 70 || 97 <= c <= 102
  }

  /** The digits the devices print: 0-9 and upper case A-F. */
  predicate IsUpperDigit(c: Byte) {
    48 <= c <= 57 || 65 <= c <= 70
  }

  predicate AllDigits(s: seq<Byte>) {
    forall i :: 0 <= i < |s| ==> IsDigit(s[i])
  }

  predicate AllUpper(s: seq<Byte>) {
    forall i :: 0 <= i < |s| ==> IsUpperDigit(s[i])
  }

  function DigitValue(c: Byte): (v: int)
    requires IsDigit(c)
    ensures 0 <= v < 16
  {
    if c <= 57 then c - 48 else if c <= 70 then c - 55 else c - 87
  }

  function SkipSpaces(s: seq<Byte>): seq<Byte> {
    if |s| > 0 && IsSpace(s[0]) then SkipSpaces(s[1..]) else s
  }

  /** Digits with single underscores between them, and what follows them. */
  function ScanDigits(s: seq<Byte>, value: nat, afterUnderscore: bool): Option<(nat, seq<Byte>)> {
    if |s| > 0 && IsDigit(s[0]) then
      ScanDigits(s[1..], 16 * value + DigitValue(s[0]), false)
    else if |s| > 0 && s[0] == UNDERSCORE && !afterUnderscore then
      ScanDigits(s[1..], value, true)
    else if afterUnderscore then
      None
    else
      Some((value, s))
  }

  function DropPrefix(s: seq<Byte>): seq<Byte> {
    if |s| >= 2 && s[0] == 48 && (s[1] == 120 || s[1] == 88) then
      if |s| > 2 && s[2] == UNDERSCORE then s[3..] else s[2..]
    else s
  }

  function ParseUnsigned(s: seq<Byte>): Option<int> {
    var body := DropPrefix(s);
    if |body| == 0 || !IsDigit(body[0]) then None
    else
      match ScanDigits(body, 0, false)
      case None => None
      case Some((v, rest)) => if SkipSpaces(rest) == [] then Some(v) else None
  }

  function ParseHex(s: seq<Byte>): Option<int> {
    var t := SkipSpaces(s);
    if |t| > 0 && t[0] == MINUS then
      match ParseUnsigned(t[1..])
      case None => None
      case Some(v) => Some(-v)
    else if |t| > 0 && t[0] == PLUS then
      match ParseUnsigned(t[1..])
      case None => None
      case Some(v) => Some(v)
    else
      match ParseUnsigned(t)
      case None => None
      case Some(v) => Some(v)
  }

  /** Two-character groups in reverse order; an odd last character is dropped. */
  function PairsReversed(chars: seq<Byte>): seq<Byte> {
    if |chars| < 2 then [] else PairsReversed(chars[2..]) + chars[..2]
  }

  function FieldValue(frame: seq<Byte>, start: int, end: int, default: int): int {
    if start < 0 || end < start || end >= |frame| then default
    else
      match ParseHex(PairsReversed(frame[start..end + 1]))
      case None => default
      case Some(v) => v
  }

  function ToSigned(value: int, wrap: int, threshold: int): int {
    if value > threshold then value - wrap else value
  }

  // ---------------------------------------------------------------- fields

  /** The bytes a run of digit pairs spells, in the order they are sent. */
  function PairBytes(chars: seq<Byte>): seq<Byte>
    requires AllDigits(chars)
  {
    if |chars| < 2 then []
    else [16 * DigitValue(chars[0]) + DigitValue(chars[1])] + PairBytes(chars[2..])
  }

  function LittleEndian(bytes: seq<Byte>): nat {
    if bytes == [] then 0 else bytes[0] + 256 * LittleEndian(bytes[1..])
  }

  function Accumulate(s: seq<Byte>, value: nat): nat
    requires AllDigits(s)
  {
    if s == [] then value else Accumulate(s[1..], 16 * value + DigitValue(s[0]))
  }

  lemma {:induction false} AccumulateConcat(a: seq<Byte>, b: seq<Byte>, value: nat)
    requires AllDigits(a) && AllDigits(b)
    ensures AllDigits(a + b)
    ensures Accumulate(a + b, value) == Accumulate(b, Accumulate(a, value))
  {
    if a == [] {
      assert a + b == b;
    } else {
      assert (a + b)[1..] == a[1..] + b;
      AccumulateConcat(a[1..], b, 16 * value + DigitValue(a[0]));
    }
  }

  lemma {:induction false} ScanOfDigits(s: seq<Byte>, value: nat)
    requires AllDigits(s)
    ensures ScanDigits(s, value, false) == Some((Accumulate(s, value), []))
  {
    if s != [] {
      ScanOfDigits(s[1..], 16 * value + DigitValue(s[0]));
    }
  }

  lemma ParseOfDigits(s: seq<Byte>)
    requires AllDigits(s) && s != []
    ensures ParseHex(s) == Some(Accumulate(s, 0))
  {
    assert IsDigit(s[0]);
    assert |s| > 1 ==> IsDigit(s[1]);
    ScanOfDigits(s, 0);
  }

  lemma {:induction false} PairsReversedDigits(chars: seq<Byte>)
    requires AllDigits(chars) && |chars| % 2 == 0
    ensures AllDigits(PairsReversed(chars)) && |PairsReversed(chars)| == |chars|
    ensures Accumulate(PairsReversed(chars), 0) == LittleEndian(PairBytes(chars))
  {
    if |chars| >= 2 {
      PairsReversedDigits(chars[2..]);
      var rest := PairsReversed(chars[2..]);
      AccumulateConcat(rest, chars[..2], 0);
      var v := Accumulate(rest, 0);
      assert chars[..2][1..] == [chars[1]];
      assert Accumulate([chars[1]], 16 * v + DigitValue(chars[0]))
          == 16 * (16 * v + DigitValue(chars[0])) + DigitValue(chars[1]) by {
        assert [chars[1]][1..] == [];
      }
      assert PairBytes(chars)[1..] == PairBytes(chars[2..]);
    }
  }

  /** A field of digit pairs reads as the little-endian number its bytes spell. */
  lemma {:induction false} FieldIsLittleEndian(frame: seq<Byte>, start: nat, end: nat, default: int)
    requires start < end < |frame| && (end - start) % 2 == 1
    requires AllDigits(frame[start..end + 1])
    ensures FieldValue(frame, start, end, default) == LittleEndian(PairBytes(frame[start..end + 1]))
  {
    var chars := frame[start..end + 1];
    PairsReversedDigits(chars);
    ParseOfDigits(PairsReversed(chars));
  }

  // -------------------------------------------------------------- printing

  function HexChar(d: int): (c: Byte)
    requires 0 <= d < 16
    ensures IsUpperDigit(c) && IsDigit(c) && DigitValue(c) == d
  {
    if d < 10 then 48 + d else 55 + d
  }

  function HexPairs(bytes: seq<Byte>): (s: seq<Byte>)
    ensures |s| == 2 * |bytes|
    ensures AllDigits(s) && AllUpper(s)
  {
    if bytes == [] then [] else [HexChar(bytes[0] / 16), HexChar(bytes[0] % 16)] + HexPairs(bytes[1..])
  }

  lemma {:induction false} PairBytesOfHexPairs(bytes: seq<Byte>)
    ensures PairBytes(HexPairs(bytes)) == bytes
  {
    if bytes != [] {
      PairBytesOfHexPairs(bytes[1..]);
      assert HexPairs(bytes)[2..] == HexPairs(bytes[1..]);
    }
  }

  lemma {:induction false} HexPairsConcat(a: seq<Byte>, b: seq<Byte>)
    ensures HexPairs(a + b) == HexPairs(a) + HexPairs(b)
  {
    hide AllDigits, AllUpper;
    if a == [] {
      assert a + b == b;
    } else {
      assert (a + b)[1..] == a[1..] + b;
      HexPairsConcat(a[1..], b);
    }
  }

  lemma HexPairsSlice(bytes: seq<Byte>, lo: nat, hi: nat)
    requires lo <= hi <= |bytes|
    ensures HexPairs(bytes)[2 * lo..2 * hi] == HexPairs(bytes[lo..hi])
  {
    hide HexPairs, AllDigits, AllUpper;
    var a, b, c := bytes[..lo], bytes[lo..hi], bytes[hi..];
    Thirds(bytes, lo, hi);
    HexPairsConcat(a, b + c);
    HexPairsConcat(b, c);
    Middle(HexPairs(bytes), HexPairs(a), HexPairs(b), HexPairs(c), 2 * lo, 2 * hi);
  }

  lemma Thirds<T>(s: seq<T>, lo: nat, hi: nat)
    requires lo <= hi <= |s|
    ensures s == s[..lo] + (s[lo..hi] + s[hi..])
  {
    assert s == s[..lo] + s[lo..];
    var t := s[lo..];
    assert t[hi - lo..] == s[hi..];
    assert t == t[..hi - lo] + t[hi - lo..];
  }

  lemma Middle(whole: seq<Byte>, a: seq<Byte>, b: seq<Byte>, c: seq<Byte>, lo: nat, hi: nat)
    requires whole == a + (b + c) && lo == |a| && hi == lo + |b|
    ensures hi <= |whole| && whole[lo..hi] == b
  {
  }

  function ToLittleEndian(value: nat, width: nat): (bytes: seq<Byte>)
    ensures |bytes| == width
  {
    if width == 0 then [] else [value % 256] + ToLittleEndian(value / 256, width - 1)
  }

  function Pow256(n: nat): nat {
    if n == 0 then 1 else 256 * Pow256(n - 1)
  }

  lemma {:induction false} LittleEndianRoundTrip(value: nat, width: nat)
    requires value < Pow256(width)
    ensures LittleEndian(ToLittleEndian(value, width)) == value
  {
    if width > 0 {
      LittleEndianRoundTrip(value / 256, width - 1);
      assert ToLittleEndian(value, width)[1..] == ToLittleEndian(value / 256, width - 1);
    }
  }

  // -------------------------------------------------------------- checksum

  function PairAt(frame: seq<Byte>, position: int): int {
    FieldValue(frame, position, position + 1, 0)
  }

  /** The sum of the two-character fields at position, position + 2, ... below limit. */
  function PairSum(frame: seq<Byte>, position: int, limit: int): int
    decreases limit - position
  {
    if position < limit then PairAt(frame, position) + PairSum(frame, position + 2, limit) else 0
  }

  /** Where the checksum field starts: the first odd index not below contentEnd - 5. */
  function ChecksumStart(contentEnd: int): (p: int)
    ensures p >= 1 && p % 2 == 1 && p >= contentEnd - 5
    ensures p == 1 || p - 2 < contentEnd - 5
  {
    if contentEnd - 5 <= 1 then 1
    else if contentEnd % 2 == 0 then contentEnd - 5
    else contentEnd - 4
  }

  function StatedSum(frame: seq<Byte>, p: int): int {
    256 * PairAt(frame, p) + PairAt(frame, p + 2)
  }

  predicate ChecksumOk(frame: seq<Byte>, contentEnd: int) {
    PairSum(frame, 1, ChecksumStart(contentEnd)) == StatedSum(frame, ChecksumStart(contentEnd))
  }

  lemma PairSumEmpty(frame: seq<Byte>, position: int)
    ensures PairSum(frame, position, position) == 0
  {
  }

  lemma {:induction false} PairSumSnoc(frame: seq<Byte>, lo: int, hi: int)
    requires lo <= hi && (hi - lo) % 2 == 0
    ensures PairSum(frame, lo, hi + 2) == PairSum(frame, lo, hi) + PairAt(frame, hi)
    decreases hi - lo
  {
    if lo < hi {
      PairSumSnoc(frame, lo + 2, hi);
    } else {
      assert PairSum(frame, hi + 2, hi + 2) == 0;
    }
  }

  method ChecksumMatches(frame: seq<Byte>, contentEnd: int) returns (ok: bool)
    ensures ok == ChecksumOk(frame, contentEnd)
  {
    hide FieldValue, PairSum;
    PairSumEmpty(frame, 1);
    var total, position := 0, 1;
    while position < contentEnd - 5
      invariant position >= 1 && position % 2 == 1
      invariant position <= ChecksumStart(contentEnd)
      invariant total == PairSum(frame, 1, position)
    {
      PairSumSnoc(frame, 1, position);
      total := total + FieldValue(frame, position, position + 1, 0);
      position := position + 2;
    }
    var stated := FieldValue(frame, position, position + 1, 0) * 256
                + FieldValue(frame, position + 2, position + 3, 0);
    ok := total == stated;
  }

  /** Every pair reads as at most 255, so the sum of a frame's fields never needs a seventeenth bit. */
  lemma {:induction false} PairSumBounds(frame: seq<Byte>, lo: int, hi: int)
    requires lo <= hi && (hi - lo) % 2 == 0
    ensures 2 * PairSum(frame, lo, hi) <= 255 * (hi - lo)
    ensures 2 * PairSum(frame, lo, hi) >= -15 * (hi - lo)
    decreases hi - lo
  {
    if lo < hi {
      PairSumBounds(frame, lo + 2, hi);
      if 0 <= lo && lo + 1 < |frame| {
        PairParse(frame[lo], frame[lo + 1]);
        PairAtParse(frame, lo);
      }
    }
  }

  /** What int(..., 16) makes of two characters, case by case. */
  function PairReading(a: Byte, b: Byte): Option<int> {
    if IsDigit(a) && IsDigit(b) then Some(16 * DigitValue(a) + DigitValue(b))
    else if IsDigit(b) && (IsSpace(a) || a == PLUS) then Some(DigitValue(b))
    else if IsDigit(b) && a == MINUS then Some(-DigitValue(b))
    else if IsDigit(a) && IsSpace(b) then Some(DigitValue(a))
    else None
  }

  lemma {:induction false} PairParse(a: Byte, b: Byte)
    ensures ParseHex([a, b]) == PairReading(a, b)
  {
    var s := [a, b];
    assert s[1..] == [b] && s[2..] == [] && [b][1..] == [];
    ParseOne(b);
    if IsDigit(a) && IsDigit(b) {
      ParseOfDigits(s);
      assert Accumulate(s, 0) == Accumulate([b], DigitValue(a));
      assert Accumulate([b], DigitValue(a)) == Accumulate([], 16 * DigitValue(a) + DigitValue(b));
    } else if IsDigit(a) {
      ParseDigitThenOther(a, b);
    } else if IsSpace(a) {
      assert SkipSpaces(s) == SkipSpaces([b]);
    } else {
      assert SkipSpaces(s) == s;
      assert DropPrefix(s) == s;
    }
  }

  lemma ParseDigitThenOther(a: Byte, b: Byte)
    requires IsDigit(a) && !IsDigit(b)
    ensures ParseHex([a, b]) == if IsSpace(b) then Some(DigitValue(a)) else None
  {
    var s := [a, b];
    assert s[1..] == [b] && s[2..] == [] && [b][1..] == [];
    ParseOne(b);
    assert SkipSpaces(s) == s;
    if DropPrefix(s) == s {
      assert ScanDigits(s, 0, false) == ScanDigits([b], DigitValue(a), false);
      if b == UNDERSCORE {
        assert ScanDigits([b], DigitValue(a), false) == ScanDigits([], DigitValue(a), true);
      } else {
        assert ScanDigits([b], DigitValue(a), false) == Some((DigitValue(a) as nat, [b]));
      }
    }
  }

  lemma ParseOne(b: Byte)
    ensures ParseUnsigned([b]) == if IsDigit(b) then Some(DigitValue(b)) else None
    ensures SkipSpaces([b]) == if IsSpace(b) then [] else [b]
  {
    assert [b][1..] == [];
    assert SkipSpaces([]) == [];
    if IsDigit(b) {
      assert ScanDigits([b], 0, false) == ScanDigits([], DigitValue(b), false);
    }
  }

  const UPPER: string := "0123456789ABCDEF"
  const LOWER: string := "0123456789abcdef"

  ghost predicate Spells(c: Byte, v: int) {
    0 <= v < 16 && (c == UPPER[v] as int || c == LOWER[v] as int)
  }

  /** One character reads as v exactly when it is the digit of that value, in either case. */
  lemma {:induction false} OneCharacter(c: Byte, v: int)
    ensures ParseHex([c]) == Some(v) <==> Spells(c, v)
  {
    hide ScanDigits, Spells;
    var s := [c];
    ParseOne(c);
    DigitSpelt(c, v);
    assert s[1..] == [];
    assert DropPrefix(s) == s;
  }

  /**
   Eight characters are white space: they are ignored on either side of a
   digit. In front of one a plus sign and a zero leave the value as well.
   */
  lemma {:induction false} IgnoredCharacters(c: Byte, d: Byte, v: int)
    requires Spells(d, v)
    ensures ParseHex([d, c]) == Some(v)
        <==> c in {9, 10, 11, 12, 13, 32, 133, 160} || (v == 0 && Spells(c, 0))
    ensures ParseHex([c, d]) == Some(v)
        <==> c in {9, 10, 11, 12, 13, 32, 133, 160, 43, 48} || (v == 0 && c == 45)
  {
    hide ParseHex;
    DigitSpelt(d, v);
    DigitSpelt(c, 0);
    PairParse(d, c);
    PairParse(c, d);
  }

  lemma DigitSpelt(c: Byte, v: int)
    ensures Spells(c, v) <==> IsDigit(c) && DigitValue(c) == v
  {
  }

  /** Signs, prefix and underscores: 0x1F, -1f, +1_F and 0X_1f are numbers. */
  lemma {:induction false} AcceptedForms()
    ensures ParseHex([48, 120, 49, 70]) == Some(31)
    ensures ParseHex([45, 49, 102]) == Some(-31)
    ensures ParseHex([43, 49, 95, 70]) == Some(31)
    ensures ParseHex([48, 88, 95, 49, 102]) == Some(31)
  {
    hide ScanDigits;
    var tail: seq<Byte>, upper: seq<Byte>, lower: seq<Byte> := [95, 70], [49, 70], [49, 102];
    ScanPairs();
    assert [48, 120, 49, 70][2..] == upper && [45, 49, 102][1..] == lower;
    assert [43, 49, 95, 70][1..] == [49] + tail;
    assert [48, 88, 95, 49, 102][3..] == lower;
  }

  lemma ScanPairs()
    ensures ScanDigits([49, 70], 0, false) == ScanDigits([49, 102], 0, false) == Some((31, []))
    ensures ScanDigits([49] + [95, 70], 0, false) == Some((31, []))
  {
    var tail: seq<Byte> := [95, 70];
    assert [49, 70][1..] == [70] && [49, 102][1..] == [102];
    assert ([49] + tail)[1..] == tail && tail[1..] == [70];
    ScanOne(70, 1);
    ScanOne(102, 1);
  }

  /** A doubled, trailing or leading underscore and a prefix alone are not: 1__F, 1F_, _1F and 0x. */
  lemma {:induction false} RefusedForms()
    ensures ParseHex([49, 95, 95, 70]) == None
    ensures ParseHex([49, 70, 95]) == None
    ensures ParseHex([95, 49, 70]) == None
    ensures ParseHex([48, 120]) == None
  {
    assert [49, 95, 95, 70][1..] == [95, 95, 70] && [95, 95, 70][1..] == [95, 70];
    assert [49, 70, 95][1..] == [70, 95] && [70, 95][1..] == [95] && [95][1..] == [];
    assert ScanDigits([70, 95], 1, false) == ScanDigits([95], 31, false) == ScanDigits([], 31, true);
    assert [48, 120][2..] == [];
  }

  lemma ScanOne(c: Byte, value: nat)
    requires IsDigit(c)
    ensures ScanDigits([c], value, false) == ScanDigits([c], value, true)
        == Some((16 * value + DigitValue(c), []))
  {
    assert [c][1..] == [];
  }

  lemma PairAtParse(frame: seq<Byte>, p: int)
    requires 0 <= p && p + 1 < |frame|
    ensures PairAt(frame, p) == match PairReading(frame[p], frame[p + 1]) case None => 0 case Some(v) => v
  {
    var chars := frame[p..p + 2];
    assert chars == [frame[p], frame[p + 1]];
    assert PairsReversed(chars[2..]) == [];
    assert PairsReversed(chars) == chars;
    PairParse(frame[p], frame[p + 1]);
  }

  /** The pair a position of the frame belongs to starts at the odd index at or before it. */
  function PairStart(k: int): int {
    if k % 2 == 1 then k else k - 1
  }

  lemma {:induction false} PairSumFrame(f: seq<Byte>, g: seq<Byte>, lo: int, hi: int)
    requires 1 <= lo <= hi && (hi - lo) % 2 == 0 && hi <= |f| && |f| == |g|
    requires f[lo..hi] == g[lo..hi]
    ensures PairSum(f, lo, hi) == PairSum(g, lo, hi)
    decreases hi - lo
  {
    if lo < hi {
      assert f[lo + 2..hi] == f[lo..hi][2..] && g[lo + 2..hi] == g[lo..hi][2..];
      PairSumFrame(f, g, lo + 2, hi);
      assert f[lo] == f[lo..hi][0] && g[lo] == g[lo..hi][0];
      assert f[lo + 1] == f[lo..hi][1] && g[lo + 1] == g[lo..hi][1];
      PairAtParse(f, lo);
      PairAtParse(g, lo);
    }
  }

  lemma {:induction false} PairSumSplit(f: seq<Byte>, lo: int, mid: int, hi: int)
    requires lo <= mid <= hi && (mid - lo) % 2 == 0
    ensures PairSum(f, lo, hi) == PairSum(f, lo, mid) + PairSum(f, mid, hi)
    decreases mid - lo
  {
    if lo < mid {
      PairSumSplit(f, lo + 2, mid, hi);
    }
  }

  lemma PairSumOneChange(f: seq<Byte>, g: seq<Byte>, q: int, hi: int)
    requires 1 <= q < hi <= |f| && q % 2 == 1 && hi % 2 == 1 && |f| == |g|
    requires f[1..q] == g[1..q] && f[q + 2..hi] == g[q + 2..hi]
    ensures PairSum(g, 1, hi) - PairSum(f, 1, hi) == PairAt(g, q) - PairAt(f, q)
  {
    hide PairAt;
    PairSumSplit(f, 1, q, hi);
    PairSumSplit(g, 1, q, hi);
    PairSumFrame(f, g, 1, q);
    PairSumFrame(f, g, q + 2, hi);
    assert PairSum(f, q, hi) == PairAt(f, q) + PairSum(f, q + 2, hi);
    assert PairSum(g, q, hi) == PairAt(g, q) + PairSum(g, q + 2, hi);
  }

  /** Changing one digit of a pair changes its reading, unless the pair parses neither before nor after. */
  lemma DigitChangesPair(a: Byte, b: Byte, c: Byte, first: bool)
    requires IsDigit(c) && IsDigit(if first then a else b)
    requires DigitValue(c) != DigitValue(if first then a else b)
    ensures var before := PairReading(a, b);
            var after := if first then PairReading(c, b) else PairReading(a, c);
            (before == None <==> after == None) && (before != None ==> before != after)
  {
  }

  lemma OneDigitPair(f: seq<Byte>, k: int, c: Byte)
    requires 1 <= k && PairStart(k) + 1 < |f|
    requires IsDigit(f[k]) && IsDigit(c) && DigitValue(f[k]) != DigitValue(c)
    ensures PairAt(f[k := c], PairStart(k)) == PairAt(f, PairStart(k))
        <==> PairReading(f[PairStart(k)], f[PairStart(k) + 1]) == None
  {
    var q := PairStart(k);
    DigitChangesPair(f[q], f[q + 1], c, k == q);
    PairAtParse(f, q);
    PairAtParse(f[k := c], q);
  }

  /**
   One hex digit of the content or of the checksum is replaced by a digit of
   another value. The corrupted frame still passes exactly when the pair holding
   the digit did not parse in the first place (both readings then count as 0).
   */
  lemma {:induction false} OneDigitCorruption(f: seq<Byte>, contentEnd: int, k: int, c: Byte)
    requires ChecksumOk(f, contentEnd)
    requires 1 <= k <= ChecksumStart(contentEnd) + 3 < |f|
    requires IsDigit(f[k]) && IsDigit(c) && DigitValue(f[k]) != DigitValue(c)
    ensures ChecksumOk(f[k := c], contentEnd)
        <==> PairReading(f[PairStart(k)], f[PairStart(k) + 1]) == None
  {
    hide PairAt, PairReading;
    var g := f[k := c];
    var p, q := ChecksumStart(contentEnd), PairStart(k);
    OneDigitPair(f, k, c);
    if q < p {
      PairSumOneChange(f, g, q, p);
      SamePair(f, g, p);
      SamePair(f, g, p + 2);
    } else {
      PairSumFrame(f, g, 1, p);
      SamePair(f, g, if q == p then p + 2 else p);
    }
  }

  lemma SamePair(f: seq<Byte>, g: seq<Byte>, p: int)
    requires 0 <= p && p + 1 < |f| && |f| == |g| && f[p] == g[p] && f[p + 1] == g[p + 1]
    ensures PairAt(f, p) == PairAt(g, p)
  {
    PairAtParse(f, p);
    PairAtParse(g, p);
  }

  /** The verdict depends on nothing behind the checksum field. */
  lemma {:induction false} ChecksumReadsContentOnly(f: seq<Byte>, g: seq<Byte>, contentEnd: int, n: nat)
    requires n == ChecksumStart(contentEnd) + 4 && n <= |f| && n <= |g| && f[..n] == g[..n]
    ensures ChecksumOk(f, contentEnd) == ChecksumOk(g, contentEnd)
  {
    hide PairAt;
    var p := ChecksumStart(contentEnd);
    PrefixPairSum(f, g, 1, p, n);
    PrefixPairAt(f, g, p, n);
    PrefixPairAt(f, g, p + 2, n);
  }

  lemma PrefixPairAt(f: seq<Byte>, g: seq<Byte>, p: int, n: int)
    requires 0 <= p && p + 1 < n <= |f| && n <= |g| && f[..n] == g[..n]
    ensures PairAt(f, p) == PairAt(g, p)
  {
    assert f[p] == f[..n][p] && g[p] == g[..n][p];
    assert f[p + 1] == f[..n][p + 1] && g[p + 1] == g[..n][p + 1];
    PairAtParse(f, p);
    PairAtParse(g, p);
  }

  lemma {:induction false} PrefixPairSum(f: seq<Byte>, g: seq<Byte>, lo: int, hi: int, n: int)
    requires 1 <= lo <= hi < n <= |f| && n <= |g| && f[..n] == g[..n] && (hi - lo) % 2 == 0
    ensures PairSum(f, lo, hi) == PairSum(g, lo, hi)
    decreases hi - lo
  {
    hide PairAt;
    if lo < hi {
      PrefixPairAt(f, g, lo, n);
      PrefixPairSum(f, g, lo + 2, hi, n);
    }
  }
}
