/**
 Where a frame's content ends. Both pack protocols fill the tail of a frame with
 a padding byte, and both take the end of content from it in the same way.
 */
module Padding {
  import opened Common

  const LAST_FREE: nat := 110

  /** The first padding byte at an index in [k, n), or -1. */
  function FirstPad(s: seq<Byte>, pad: Byte, k: nat, n: nat): (r: int)
    requires n <= |s|
    ensures r == -1 || (k <= r < n && s[r] == pad)
    ensures forall i :: k <= i < n && (r == -1 || i < r) ==> s[i] != pad
  {
    if n <= k then -1
    else
      var f := FirstPad(s, pad, k, n - 1);
      if f >= 0 then f else if s[n - 1] == pad then n - 1 else -1
  }

  /** The last padding byte at an index in [1, n), or -1. */
  function LastPad(s: seq<Byte>, pad: Byte, n: nat): (r: int)
    requires n <= |s|
    ensures r == -1 || (1 <= r < n && s[r] == pad)
    ensures forall i :: 1 <= i < n && r < i ==> s[i] != pad
  {
    if n <= 1 then -1
    else if s[n - 1] == pad then n - 1
    else LastPad(s, pad, n - 1)
  }

  /** One past the first padding byte at index 109 or later, else one past the last padding byte, else 0. */
  function ContentEnd(s: seq<Byte>, pad: Byte, n: nat): (end: nat)
    requires n <= |s|
    ensures end == 0 || 2 <= end <= n
  {
    var f := FirstPad(s, pad, LAST_FREE - 1, n);
    if f >= 0 then f + 1 else LastPad(s, pad, n) + 1
  }

  /** Taking one more byte into account: an end below 110 moves to every padding byte, a later one is final. */
  lemma {:induction false} ContentEndStep(s: seq<Byte>, pad: Byte, n: nat)
    requires 1 <= n < |s|
    ensures ContentEnd(s, pad, n + 1)
         == if s[n] == pad && ContentEnd(s, pad, n) < LAST_FREE then n + 1 else ContentEnd(s, pad, n)
  {
  }

  lemma {:induction false} ContentEndLocal(s: seq<Byte>, t: seq<Byte>, pad: Byte, n: nat)
    requires n <= |s| && n <= |t| && s[..n] == t[..n]
    ensures ContentEnd(s, pad, n) == ContentEnd(t, pad, n)
  {
    FirstPadLocal(s, t, pad, LAST_FREE - 1, n);
    LastPadLocal(s, t, pad, n);
  }

  lemma {:induction false} FirstPadLocal(s: seq<Byte>, t: seq<Byte>, pad: Byte, k: nat, n: nat)
    requires n <= |s| && n <= |t| && s[..n] == t[..n]
    ensures FirstPad(s, pad, k, n) == FirstPad(t, pad, k, n)
  {
    if n > k {
      assert s[..n][..n - 1] == s[..n - 1] && t[..n][..n - 1] == t[..n - 1];
      assert s[..n][n - 1] == t[..n][n - 1];
      FirstPadLocal(s, t, pad, k, n - 1);
    }
  }

  lemma {:induction false} LastPadLocal(s: seq<Byte>, t: seq<Byte>, pad: Byte, n: nat)
    requires n <= |s| && n <= |t| && s[..n] == t[..n]
    ensures LastPad(s, pad, n) == LastPad(t, pad, n)
  {
    if n > 1 {
      assert s[..n][..n - 1] == s[..n - 1] && t[..n][..n - 1] == t[..n - 1];
      assert s[..n][n - 1] == t[..n][n - 1];
      LastPadLocal(s, t, pad, n - 1);
    }
  }

  lemma {:induction false} FirstPadChange(s: seq<Byte>, pad: Byte, k: nat, n: nat, at: nat, c: Byte)
    requires n <= |s| && at < |s| && s[at] != pad && c != pad
    ensures FirstPad(s[at := c], pad, k, n) == FirstPad(s, pad, k, n)
  {
    if n > k {
      FirstPadChange(s, pad, k, n - 1, at, c);
    }
  }

  lemma {:induction false} LastPadChange(s: seq<Byte>, pad: Byte, n: nat, at: nat, c: Byte)
    requires n <= |s| && at < |s| && s[at] != pad && c != pad
    ensures LastPad(s[at := c], pad, n) == LastPad(s, pad, n)
  {
    if n > 1 {
      LastPadChange(s, pad, n - 1, at, c);
    }
  }

  /** A byte that is not padding, before and after, does not move the content end. */
  lemma {:induction false} ContentEndChange(s: seq<Byte>, pad: Byte, n: nat, at: nat, c: Byte)
    requires n <= |s| && at < |s| && s[at] != pad && c != pad
    ensures ContentEnd(s[at := c], pad, n) == ContentEnd(s, pad, n)
  {
    FirstPadChange(s, pad, LAST_FREE - 1, n, at, c);
    LastPadChange(s, pad, n, at, c);
  }
}
