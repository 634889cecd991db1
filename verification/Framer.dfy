/**
 Cutting a BLE byte stream into packets at the marker bytes 0x92 and 0xC9
 (Meritsun `notificationUpdate`). `Packets` and `Residue` cut a whole stream;
 `Fed` is what the plugin does, one notification at a time, with its 512-byte bound.
 */
module Framer {
  import opened Common

  const START_VAL: Byte := 0x92
  const OTHER_START: Byte := 0xC9
  const MARKERS: seq<Byte> := [START_VAL, OTHER_START]
  const BOUND: nat := 512
  const KEPT: nat := 256

  predicate IsMarker(b: Byte) {
    b == START_VAL || b == OTHER_START
  }

  predicate NoMarker(s: seq<Byte>) {
    forall i :: 0 <= i < |s| ==> !IsMarker(s[i])
  }

  /** Starts with a marker and holds no other. */
  predicate Framed(s: seq<Byte>) {
    |s| > 0 && IsMarker(s[0]) && NoMarker(s[1..])
  }

  /** What the buffer can hold between notifications. */
  predicate Retained(s: seq<Byte>) {
    s == [] || Framed(s)
  }

  /** The first marker at or after k, or |s|. */
  function NextMarker(s: seq<Byte>, k: nat): (r: nat)
    requires k <= |s|
    ensures k <= r <= |s|
    ensures forall i :: k <= i < r ==> !IsMarker(s[i])
    ensures r < |s| ==> IsMarker(s[r])
    decreases |s| - k
  {
    if k == |s| || IsMarker(s[k]) then k else NextMarker(s, k + 1)
  }

  /** The last marker, or -1. */
  function LastMarker(s: seq<Byte>): (r: int)
    ensures -1 <= r < |s|
    ensures forall i :: r < i < |s| ==> !IsMarker(s[i])
    ensures r >= 0 ==> IsMarker(s[r])
  {
    if s == [] then -1
    else if IsMarker(s[|s| - 1]) then |s| - 1
    else LastMarker(s[..|s| - 1])
  }

  // ------------------------------------------------- cutting a whole stream

  function Packets(s: seq<Byte>): seq<seq<Byte>>
    decreases |s|
  {
    var start := NextMarker(s, 0);
    if start == |s| then []
    else
      var nxt := NextMarker(s, start + 1);
      if nxt == |s| then [] else [s[start..nxt]] + Packets(s[nxt..])
  }

  function Residue(s: seq<Byte>): seq<Byte>
    decreases |s|
  {
    var start := NextMarker(s, 0);
    if start == |s| then []
    else
      var nxt := NextMarker(s, start + 1);
      if nxt == |s| then s[start..] else Residue(s[nxt..])
  }

  /** The bytes before the first marker. */
  function Noise(s: seq<Byte>): seq<Byte> {
    s[..NextMarker(s, 0)]
  }

  predicate AllFramed(ps: seq<seq<Byte>>) {
    forall i :: 0 <= i < |ps| ==> Framed(ps[i])
  }

  lemma CutStep(s: seq<Byte>, start: nat, nxt: nat)
    requires start == NextMarker(s, 0) < |s| && nxt == NextMarker(s, start + 1)
    ensures nxt == |s| ==> Packets(s) == [] && Residue(s) == s[start..]
    ensures nxt < |s| ==> Packets(s) == [s[start..nxt]] + Packets(s[nxt..]) && Residue(s) == Residue(s[nxt..])
  {
  }

  lemma CutNothing(s: seq<Byte>)
    requires NextMarker(s, 0) == |s|
    ensures Packets(s) == [] && Residue(s) == []
  {
  }

  lemma FramedSlice(s: seq<Byte>, start: nat, nxt: nat)
    requires start < nxt <= |s| && IsMarker(s[start])
    requires forall i :: start < i < nxt ==> !IsMarker(s[i])
    ensures Framed(s[start..nxt])
  {
  }

  lemma FlattenCons<T>(p: seq<T>, ps: seq<seq<T>>)
    ensures Flatten([p] + ps) == p + Flatten(ps)
  {
    assert ([p] + ps)[1..] == ps;
  }

  lemma {:induction false} CutRebuilds(s: seq<Byte>)
    ensures s == Noise(s) + Flatten(Packets(s)) + Residue(s)
    decreases |s|
  {
    hide NextMarker, Packets, Residue, Flatten, IsMarker;
    var start := NextMarker(s, 0);
    FlattenNil();
    if start == |s| {
      CutNothing(s);
    } else {
      var nxt := NextMarker(s, start + 1);
      CutStep(s, start, nxt);
      if nxt < |s| {
        var t := s[nxt..];
        CutRebuilds(t);
        NextMarkerAt(t, 0, 0);
        FlattenCons(s[start..nxt], Packets(t));
        Regroup(s, start, nxt, Flatten(Packets(t)), Residue(t));
      } else {
        assert s == s[..start] + [] + s[start..];
      }
    }
  }

  lemma {:induction false} CutIsFramed(s: seq<Byte>)
    ensures NoMarker(Noise(s)) && AllFramed(Packets(s)) && Retained(Residue(s))
    ensures Residue(s) == [] ==> Packets(s) == []
    decreases |s|
  {
    hide Packets, Residue, Framed, IsMarker;
    var start := NextMarker(s, 0);
    hide NextMarker;
    if start == |s| {
      CutNothing(s);
    } else {
      var nxt := NextMarker(s, start + 1);
      CutStep(s, start, nxt);
      FramedSlice(s, start, nxt);
      if nxt < |s| {
        CutIsFramed(s[nxt..]);
        NextMarkerAt(s[nxt..], 0, 0);
        CutNotEmpty(s[nxt..]);
      } else {
        assert s[start..nxt] == s[start..];
      }
    }
  }

  /** A stream that starts at a marker leaves a residue. */
  lemma {:induction false} CutNotEmpty(s: seq<Byte>)
    requires s != [] && IsMarker(s[0])
    ensures Residue(s) != []
    decreases |s|
  {
    hide Packets, Residue, NextMarker;
    NextMarkerAt(s, 0, 0);
    var nxt := NextMarker(s, 1);
    CutStep(s, 0, nxt);
    if nxt < |s| {
      CutNotEmpty(s[nxt..]);
    }
  }

  /** Nothing is lost or invented: leading noise, then the packets, then the residue, is the stream. */
  lemma {:induction false} CutIsPartition(s: seq<Byte>)
    ensures s == Noise(s) + Flatten(Packets(s)) + Residue(s)
    ensures NoMarker(Noise(s)) && AllFramed(Packets(s)) && Retained(Residue(s))
    ensures Residue(s) == [] ==> Packets(s) == []
  {
    hide Noise, NoMarker, AllFramed, Retained, Packets, Residue, Flatten;
    CutRebuilds(s);
    CutIsFramed(s);
  }

  lemma Regroup(s: seq<Byte>, start: nat, nxt: nat, middle: seq<Byte>, r: seq<Byte>)
    requires start <= nxt <= |s| && s[nxt..] == [] + middle + r
    ensures s == s[..start] + (s[start..nxt] + middle) + r
  {
    assert s == s[..start] + s[start..nxt] + s[nxt..];
    assert [] + middle + r == middle + r;
  }

  lemma FlattenNil()
    ensures Flatten<Byte>([]) == []
  {
  }

  lemma NextMarkerAt(s: seq<Byte>, k: nat, r: nat)
    requires k <= r <= |s|
    requires forall i :: k <= i < r ==> !IsMarker(s[i])
    requires r < |s| ==> IsMarker(s[r])
    ensures NextMarker(s, k) == r
  {
  }

  lemma Shifted(noise: seq<Byte>, s: seq<Byte>, a: nat, b: nat)
    requires a <= b <= |s|
    ensures (noise + s)[|noise| + a..|noise| + b] == s[a..b]
    ensures (noise + s)[|noise| + a..] == s[a..]
  {
  }

  lemma NoiseDropped(noise: seq<Byte>, s: seq<Byte>)
    requires NoMarker(noise)
    ensures Packets(noise + s) == Packets(s) && Residue(noise + s) == Residue(s)
  {
    hide NextMarker, Packets, Residue, IsMarker;
    var t, n := noise + s, |noise|;
    var start := NextMarker(s, 0);
    NextMarkerAt(t, 0, n + start);
    if start == |s| {
      CutNothing(s);
      CutNothing(t);
    } else {
      var nxt := NextMarker(s, start + 1);
      NextMarkerAt(t, n + start + 1, n + nxt);
      CutStep(s, start, nxt);
      CutStep(t, n + start, n + nxt);
      Shifted(noise, s, start, nxt);
      Shifted(noise, s, nxt, |s|);
    }
  }

  lemma FirstPacket(p: seq<Byte>, s: seq<Byte>)
    requires Framed(p) && s != [] && IsMarker(s[0])
    ensures Packets(p + s) == [p] + Packets(s) && Residue(p + s) == Residue(s)
  {
    hide NextMarker, Packets, Residue;
    var t := p + s;
    NextMarkerAt(t, 0, 0);
    forall i | 1 <= i < |p| ensures !IsMarker(t[i]) {
      assert t[i] == p[1..][i - 1];
    }
    NextMarkerAt(t, 1, |p|);
    CutStep(t, 0, |p|);
    assert t[0..|p|] == p && t[|p|..] == s;
  }

  lemma OnlyResidue(r: seq<Byte>)
    requires Retained(r)
    ensures Packets(r) == [] && Residue(r) == r
  {
    if r != [] {
      NextMarkerAt(r, 0, 0);
      forall i | 1 <= i < |r| ensures !IsMarker(r[i]) {
        assert r[i] == r[1..][i - 1];
      }
      NextMarkerAt(r, 1, |r|);
      assert r[0..] == r;
    }
  }

  lemma StartsAtMarker(ps: seq<seq<Byte>>, r: seq<Byte>)
    requires AllFramed(ps) && Framed(r)
    ensures var t := Flatten(ps) + r; t != [] && IsMarker(t[0])
  {
    if ps != [] {
      assert Framed(ps[0]);
    }
  }

  /** The partition determines the cut: no other way of splitting at markers exists. */
  lemma {:induction false} CutIsUnique(noise: seq<Byte>, ps: seq<seq<Byte>>, r: seq<Byte>)
    requires NoMarker(noise) && AllFramed(ps) && Retained(r)
    requires r == [] ==> ps == []
    ensures Packets(noise + Flatten(ps) + r) == ps
    ensures Residue(noise + Flatten(ps) + r) == r
    decreases |ps|
  {
    hide Packets, Residue, Framed;
    if ps == [] {
      assert noise + Flatten(ps) + r == noise + r;
      NoiseDropped(noise, r);
      OnlyResidue(r);
    } else {
      var rest := Flatten(ps[1..]) + r;
      CutIsUnique([], ps[1..], r);
      assert [] + Flatten(ps[1..]) + r == rest;
      assert noise + Flatten(ps) + r == noise + (ps[0] + rest);
      StartsAtMarker(ps[1..], r);
      NoiseDropped(noise, ps[0] + rest);
      FirstPacket(ps[0], rest);
      assert [ps[0]] + ps[1..] == ps;
    }
  }

  /** Cutting in two instalments, carrying the residue over, is cutting once. */
  lemma {:induction false} CutConcat(a: seq<Byte>, b: seq<Byte>)
    ensures Packets(a + b) == Packets(a) + Packets(Residue(a) + b)
    ensures Residue(a + b) == Residue(Residue(a) + b)
    decreases |a|
  {
    hide NextMarker, Packets, Residue, Framed, IsMarker;
    var start := NextMarker(a, 0);
    if start == |a| {
      CutNothing(a);
      NoiseDropped(a, b);
      assert [] + b == b;
    } else {
      var nxt := NextMarker(a, start + 1);
      CutStep(a, start, nxt);
      var t := a[start..] + b;
      assert a + b == a[..start] + t;
      NoiseDropped(a[..start], t);
      if nxt < |a| {
        var p, rest := a[start..nxt], a[nxt..];
        CutConcat(rest, b);
        FramedSlice(a, start, nxt);
        assert t == p + (rest + b);
        FirstPacket(p, rest + b);
        assert [p] + (Packets(rest) + Packets(Residue(rest) + b)) == ([p] + Packets(rest)) + Packets(Residue(rest) + b);
      } else {
        assert [] + Packets(t) == Packets(t);
      }
    }
  }

  /** Whatever came before, everything from the next marker on is cut as if it stood alone. */
  lemma {:induction false} Resynchronises(garbage: seq<Byte>, s: seq<Byte>)
    requires s != [] && IsMarker(s[0])
    ensures Packets(garbage + s) == Packets(garbage + [s[0]]) + Packets(s)
    ensures Residue(garbage + s) == Residue(s)
  {
    hide NextMarker, Packets, Residue, Flatten, Noise;
    var m, r := [s[0]], Residue(garbage);
    CutConcat(garbage, s);
    CutConcat(garbage, m);
    CutIsPartition(garbage);
    OnlyResidue(m);
    if r == [] {
      assert r + s == s && r + m == m;
      assert Packets(garbage) == [];
      assert [] + Packets(s) == Packets(s);
    } else {
      FirstPacket(r, s);
      FirstPacket(r, m);
      assert Packets(garbage) + ([r] + Packets(s)) == (Packets(garbage) + [r]) + Packets(s);
    }
  }

  /** Of two bytes the first is a packet exactly when both are markers, 0x92 or 0xC9; the second is kept if it is. */
  lemma {:induction false} TwoBytes(a: Byte, b: Byte)
    ensures Packets([a, b]) == if a in {0x92, 0xC9} && b in {0x92, 0xC9} then [[a]] else []
    ensures Residue([a, b]) == if b in {0x92, 0xC9} then [b] else if a in {0x92, 0xC9} then [a, b] else []
  {
    var s := [a, b];
    assert s[1..] == [b] && s[0..1] == [a] && s[0..] == s;
    assert NextMarker([b], 0) == if b in {0x92, 0xC9} then 0 else 1;
    assert NextMarker([b], 1) == 1 && [b][0..] == [b];
  }

  // ------------------------------------------------- one notification at a time

  /** The bound on the buffer: an overlong one is cut back to its last marker, or to its tail. */
  function Trim(s: seq<Byte>): seq<Byte> {
    if |s| <= BOUND then s
    else if LastMarker(s) > 0 then s[LastMarker(s)..]
    else s[|s| - KEPT..]
  }

  /** What a notification is cut from: an empty one is not looked at. */
  function Buffer(stream: seq<Byte>, data: seq<Byte>): seq<Byte> {
    if data == [] then stream else Trim(stream + data)
  }

  /** The packets the plugin hands on over a run of notifications. */
  function FedPackets(stream: seq<Byte>, chunks: seq<seq<Byte>>): seq<seq<Byte>>
    decreases |chunks|
  {
    if chunks == [] then []
    else
      var s := Buffer(stream, chunks[0]);
      Packets(s) + FedPackets(Residue(s), chunks[1..])
  }

  function FedResidue(stream: seq<Byte>, chunks: seq<seq<Byte>>): seq<Byte>
    decreases |chunks|
  {
    if chunks == [] then stream else FedResidue(Residue(Buffer(stream, chunks[0])), chunks[1..])
  }

  /** The buffer never passes the bound over the run. */
  predicate Fits(stream: seq<Byte>, chunks: seq<seq<Byte>>)
    decreases |chunks|
  {
    chunks == [] || (|stream + chunks[0]| <= 512 && Fits(Residue(stream + chunks[0]), chunks[1..]))
  }

  lemma BufferFits(stream: seq<Byte>, data: seq<Byte>)
    requires |stream + data| <= 512
    ensures Buffer(stream, data) == stream + data
  {
    assert data == [] ==> stream + data == stream;
  }

  /** Split independence: the notification boundaries leave no trace, both runs being the whole-stream cut. */
  lemma {:induction false} SplitIndependence(stream: seq<Byte>, chunks: seq<seq<Byte>>)
    requires Retained(stream) && Fits(stream, chunks)
    ensures FedPackets(stream, chunks) == Packets(stream + Flatten(chunks))
    ensures FedResidue(stream, chunks) == Residue(stream + Flatten(chunks))
    decreases |chunks|
  {
    hide NextMarker, LastMarker, Buffer, Packets, Residue, Framed, Noise;
    if chunks == [] {
      assert stream + Flatten(chunks) == stream;
      OnlyResidue(stream);
    } else {
      var s, later := stream + chunks[0], chunks[1..];
      BufferFits(stream, chunks[0]);
      assert Retained(Residue(s)) by { CutIsPartition(s); }
      SplitIndependence(Residue(s), later);
      CutConcat(s, Flatten(later));
      assert stream + Flatten(chunks) == s + Flatten(later);
    }
  }

  /** What is cut from the end of a stream is the end of what is cut from all of it. */
  lemma EndIsCutLast(a: seq<Byte>, b: seq<Byte>) returns (before: seq<seq<Byte>>)
    ensures Packets(a + b) == before + Packets(b)
  {
    hide NextMarker, Packets, Residue, Framed, IsMarker;
    var n := NextMarker(b, 0);
    var noise, m := b[..n], b[n..];
    assert b == noise + m;
    if n == |b| {
      CutNothing(b);
      before := Packets(a + b);
      assert before + [] == before;
    } else {
      NoiseDropped(noise, m);
      assert a + b == (a + noise) + m;
      Resynchronises(a + noise, m);
      before := Packets(a + noise + [m[0]]);
    }
  }

  /** Cutting an overlong buffer back keeps an end of it. */
  lemma BufferIsEnd(stream: seq<Byte>, data: seq<Byte>) returns (dropped: seq<Byte>)
    ensures stream + data == dropped + Buffer(stream, data)
  {
    hide LastMarker;
    var s := stream + data;
    if data == [] || |s| <= BOUND {
      dropped := [];
    } else {
      dropped := s[..if LastMarker(s) > 0 then LastMarker(s) else |s| - KEPT];
    }
  }

  /**
   Whatever overflows on the way, the packets handed on are packets of the whole stream, in their
   order: none is made up.
   */
  lemma {:induction false} LossyRunInOrder(stream: seq<Byte>, chunks: seq<seq<Byte>>)
    ensures Subsequence(FedPackets(stream, chunks), Packets(stream + Flatten(chunks)))
    decreases |chunks|
  {
    hide NextMarker, Packets, Residue, Buffer, Subsequence;
    if chunks == [] {
      NothingFed(stream, Packets(stream + Flatten(chunks)));
    } else {
      var s, later := Buffer(stream, chunks[0]), chunks[1..];
      var rest := Flatten(later);
      LossyRunInOrder(Residue(s), later);
      SubsequenceBehind(Packets(s), FedPackets(Residue(s), later), Packets(Residue(s) + rest));
      CutConcat(s, rest);
      var dropped := BufferIsEnd(stream, chunks[0]);
      var before := EndIsCutLast(dropped, s + rest);
      assert stream + Flatten(chunks) == dropped + (s + rest) by {
        assert stream + (chunks[0] + rest) == (stream + chunks[0]) + rest;
        assert (dropped + s) + rest == dropped + (s + rest);
      }
      TailIsSubsequence(before, Packets(s + rest));
      Transitive(FedPackets(stream, chunks), Packets(s + rest), before + Packets(s + rest));
    }
  }

  lemma NothingFed(stream: seq<Byte>, whole: seq<seq<Byte>>)
    ensures Subsequence(FedPackets(stream, []), whole)
  {
  }

  lemma SuffixMarkers(s: seq<Byte>, k: nat)
    requires k <= |s|
    ensures LastMarker(s) < k ==> NoMarker(s[k..])
    ensures LastMarker(s) == k ==> Framed(s[k..])
  {
  }

  lemma OnlyFirstIsMarker(s: seq<Byte>)
    requires Retained(s)
    ensures forall i :: 0 < i < |s| ==> !IsMarker(s[i])
  {
    forall i | 0 < i < |s| ensures !IsMarker(s[i]) {
      assert s[1..][i - 1] == s[i];
    }
  }

  /** After any notification of at most 512 bytes the buffer is empty or starts with its only marker, and fits. */
  lemma {:induction false} RetainedBounded(stream: seq<Byte>, data: seq<Byte>)
    requires Retained(stream) && |stream| <= 512 && |data| <= 512
    ensures var r := Residue(Buffer(stream, data)); Retained(r) && |r| <= 512
  {
    var s := stream + data;
    CutIsPartition(Buffer(stream, data));
    if data != [] && |s| > BOUND && LastMarker(s) > 0 {
      var keep := LastMarker(s);
      OnlyFirstIsMarker(stream);
    }
  }

  lemma KeptFromLastMarker(s: seq<Byte>)
    requires LastMarker(s) > 0
    ensures Packets(s[LastMarker(s)..]) == [] && Residue(s[LastMarker(s)..]) == s[LastMarker(s)..]
    ensures (Packets(s) == [] && Residue(s) == s[LastMarker(s)..]) <==> NextMarker(s, 0) == LastMarker(s)
  {
    hide Packets, Residue, NextMarker, Framed;
    var keep, first := LastMarker(s), NextMarker(s, 0);
    SuffixMarkers(s, keep);
    OnlyResidue(s[keep..]);
    assert IsMarker(s[keep]);
    CutStep(s, first, NextMarker(s, first + 1));
  }

  lemma KeptNothing(s: seq<Byte>)
    requires |s| > KEPT && LastMarker(s) <= 0
    ensures Packets(s[|s| - KEPT..]) == [] && Residue(s[|s| - KEPT..]) == []
    ensures (Packets(s) == [] && Residue(s) == []) <==> LastMarker(s) < 0
  {
    hide Packets, Residue, Framed;
    var t := s[|s| - KEPT..];
    SuffixMarkers(s, |s| - KEPT);
    NextMarkerAt(t, 0, |t|);
    CutNothing(t);
    if LastMarker(s) < 0 {
      NextMarkerAt(s, 0, |s|);
      CutNothing(s);
    } else {
      NextMarkerAt(s, 0, 0);
      NextMarkerAt(s, 1, |s|);
      CutStep(s, 0, |s|);
    }
  }

  /**
   A buffer past the bound delivers no packet at all. The notification is still
   handled as the whole-stream cut asks exactly when the buffer holds no marker,
   or a single one that is not its first byte.
   */
  lemma {:induction false} OverflowIsExact(s: seq<Byte>)
    requires |s| > 512
    ensures Packets(Trim(s)) == []
    ensures Residue(Trim(s)) == if LastMarker(s) > 0 then s[LastMarker(s)..] else []
    ensures (Packets(Trim(s)) == Packets(s) && Residue(Trim(s)) == Residue(s))
       <==> (LastMarker(s) < 0 || (LastMarker(s) > 0 && NextMarker(s, 0) == LastMarker(s)))
  {
    hide Packets, Residue, LastMarker, NextMarker;
    if LastMarker(s) > 0 {
      KeptFromLastMarker(s);
    } else {
      KeptNothing(s);
    }
  }
}
