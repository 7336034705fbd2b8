/** Sequence helpers shared by the network model and the traversals. */
module Collections {

  /** A value that may be absent, like a Java reference that may be null. */
  datatype Option<T> = None | Some(value: T)

  function Last<T>(s: seq<T>): T
    requires |s| > 0
  {
    s[|s| - 1]
  }

  /** No element occurs twice. */
  ghost predicate Distinct<T>(s: seq<T>) {
    forall i, j :: 0 <= i < j < |s| ==> s[i] != s[j]
  }

  /**
   * Position of the first occurrence of `x` in `s`, or -1 when `x` does not occur:
   * the behaviour of a linear lookup that answers with a not-found sentinel.
   */
  function IndexOf<T(==)>(s: seq<T>, x: T): (k: int)
    ensures -1 <= k < |s|
    ensures k == -1 <==> x !in s
    ensures k >= 0 ==> s[k] == x && forall j :: 0 <= j < k ==> s[j] != x
  {
    if |s| == 0 then -1
    else if s[0] == x then 0
    else
      var k := IndexOf(s[1..], x);
      if k == -1 then -1 else k + 1
  }

  /** Appending elements never moves the first occurrence of an element already present. */
  lemma IndexOfAppend<T>(s: seq<T>, t: seq<T>, x: T)
    ensures x in s ==> IndexOf(s + t, x) == IndexOf(s, x)
    ensures x !in s && x in t ==> IndexOf(s + t, x) == |s| + IndexOf(t, x)
  {
    var k, j := IndexOf(s + t, x), IndexOf(s, x);
    if x in s {
      assert (s + t)[j] == x;
    } else if x in t {
      var m := IndexOf(t, x);
      assert (s + t)[|s| + m] == x;
    }
  }

  /** Dropping the last element commutes with putting one in front. */
  lemma ConsDropLast<T>(x: T, s: seq<T>)
    requires |s| > 0
    ensures ([x] + s)[..|s|] == [x] + s[..|s| - 1]
  {
  }

  /** The sequence read backwards, as `Collections.reverse` leaves a list. */
  function Reversed<T>(s: seq<T>): (r: seq<T>)
    ensures |r| == |s|
    ensures forall i :: 0 <= i < |s| ==> r[i] == s[|s| - 1 - i]
  {
    if s == [] then [] else Reversed(s[1..]) + [s[0]]
  }

  /** Adding an element at the back of a list puts it at the front of its reversal. */
  lemma ReversedSnoc<T>(s: seq<T>, x: T)
    ensures Reversed(s + [x]) == [x] + Reversed(s)
  {
    var a, b := Reversed(s + [x]), [x] + Reversed(s);
    assert |a| == |b|;
    forall i | 0 <= i < |a| ensures a[i] == b[i] {
      if i > 0 {
        assert a[i] == (s + [x])[|s| - i];
      }
    }
  }

  /** A list of distinct numbers below `n` has at most `n` elements. */
  lemma {:induction false} DistinctBounded(s: seq<int>, n: nat)
    requires Distinct(s)
    requires forall i :: 0 <= i < |s| ==> 0 <= s[i] < n
    ensures |s| <= n
    decreases n
  {
    if n == 0 {
    } else if n - 1 in s {
      var i :| 0 <= i < |s| && s[i] == n - 1;
      var rest := s[..i] + s[i + 1..];
      assert forall j :: 0 <= j < |rest| ==> rest[j] == (if j < i then s[j] else s[j + 1]);
      forall j | 0 <= j < |rest| ensures 0 <= rest[j] < n - 1 {
        if j < i { assert s[j] != s[i]; } else { assert s[j + 1] != s[i]; }
      }
      DistinctBounded(rest, n - 1);
    } else {
      forall j | 0 <= j < |s| ensures 0 <= s[j] < n - 1 {
        assert s[j] != n - 1;
      }
      DistinctBounded(s, n - 1);
    }
  }
}
