/** Values shared by every part of the model. */
module Common {

  datatype Option<+T> = None | Some(value: T)

  /** One octet of a BLE notification, as Python sees it: an integer below 256. */
  type Byte = b: int | 0 <= b < 256

  function Abs(x: real): real {
    if x < 0.0 then -x else x
  }

  function Min(a: int, b: int): int {
    if a < b then a else b
  }

  function Flatten<T>(parts: seq<seq<T>>): seq<T> {
    if parts == [] then [] else parts[0] + Flatten(parts[1..])
  }

  /** part comes out of whole by leaving elements out. */
  predicate Subsequence<T(==)>(part: seq<T>, whole: seq<T>) {
    if part == [] then true
    else if whole == [] then false
    else
      var m, n := |part| - 1, |whole| - 1;
      (part[m] == whole[n] && Subsequence(part[..m], whole[..n])) || Subsequence(part, whole[..n])
  }

  lemma {:induction false} SubsequenceOfMore<T>(part: seq<T>, whole: seq<T>, more: seq<T>)
    requires Subsequence(part, whole)
    ensures Subsequence(part, whole + more)
  {
    if more == [] {
      assert whole + more == whole;
    } else {
      var n := |more| - 1;
      SubsequenceOfMore(part, whole, more[..n]);
      assert (whole + more)[..|whole| + n] == whole + more[..n];
    }
  }

  lemma SubsequenceSnoc<T>(part: seq<T>, whole: seq<T>, x: T)
    requires Subsequence(part, whole)
    ensures Subsequence(part + [x], whole + [x])
  {
    assert (part + [x])[..|part|] == part && (whole + [x])[..|whole|] == whole;
  }

  lemma {:induction false} Transitive<T>(a: seq<T>, b: seq<T>, c: seq<T>)
    requires Subsequence(a, b) && Subsequence(b, c)
    ensures Subsequence(a, c)
    decreases |c|
  {
    if a != [] && b != [] && c != [] {
      var k, m, n := |a| - 1, |b| - 1, |c| - 1;
      if b[m] == c[n] && Subsequence(b[..m], c[..n]) {
        if a[k] == b[m] && Subsequence(a[..k], b[..m]) {
          Transitive(a[..k], b[..m], c[..n]);
        } else {
          Transitive(a, b[..m], c[..n]);
        }
      } else {
        Transitive(a, b, c[..n]);
      }
    }
  }

  lemma {:induction false} SubsequenceSelf<T>(s: seq<T>)
    ensures Subsequence(s, s)
  {
    if s != [] {
      SubsequenceSelf(s[..|s| - 1]);
    }
  }

  /** What comes in front of both changes nothing. */
  lemma {:induction false} SubsequenceBehind<T>(front: seq<T>, part: seq<T>, whole: seq<T>)
    requires Subsequence(part, whole)
    ensures Subsequence(front + part, front + whole)
    decreases |whole|
  {
    if part == [] {
      SubsequenceSelf(front);
      SubsequenceOfMore(front, front, whole);
      assert front + part == front;
    } else {
      var m, n := |part| - 1, |whole| - 1;
      assert (front + whole)[..|front| + n] == front + whole[..n];
      if part[m] == whole[n] && Subsequence(part[..m], whole[..n]) {
        SubsequenceBehind(front, part[..m], whole[..n]);
        assert (front + part)[..|front| + m] == front + part[..m];
      } else {
        SubsequenceBehind(front, part, whole[..n]);
      }
    }
  }

  /** A tail is one. */
  lemma {:induction false} TailIsSubsequence<T>(front: seq<T>, tail: seq<T>)
    ensures Subsequence(tail, front + tail)
  {
    if tail != [] {
      TailIsSubsequence(front, tail[..|tail| - 1]);
      assert (front + tail)[..|front + tail| - 1] == front + tail[..|tail| - 1];
    }
  }
}
