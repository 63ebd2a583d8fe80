/** Helpers shared by the models of the index pools and of the samplers:
    an Option type for the error paths, distinctness of sequences, and the
    two Python/torch indexing conventions the source relies on (negative
    positions counted from the end, and prefix slicing `s[:k]`). */
module Sequences {

  datatype Option<T> = None | Some(value: T)

  /** No element occurs twice. */
  predicate Distinct<T(==)>(s: seq<T>) {
    forall i, j :: 0 <= i < j < |s| ==> s[i] != s[j]
  }

  /** No element of `a` occurs in `b`. */
  predicate Disjoint<T(==)>(a: seq<T>, b: seq<T>) {
    forall i, j :: 0 <= i < |a| && 0 <= j < |b| ==> a[i] != b[j]
  }

  function Elements<T>(s: seq<T>): set<T> {
    set x | x in s
  }

  /** The positions 0, 1, ..., n - 1 as a set. */
  function Below(n: nat): (r: set<nat>)
    ensures forall i: nat :: i in r <==> i < n
  {
    if n == 0 then {} else Below(n - 1) + {n - 1}
  }

  /** A position torch or Python accepts for a sequence of length n:
      -n <= p < n, where a negative p counts from the end. */
  predicate InBounds(p: int, n: nat) {
    -(n as int) <= p < n
  }

  predicate AllInBounds(ps: seq<int>, n: nat) {
    forall k :: 0 <= k < |ps| ==> InBounds(ps[k], n)
  }

  /** The element a valid position designates. */
  function Normalize(p: int, n: nat): (q: nat)
    requires InBounds(p, n)
    ensures q < n
    ensures p >= 0 ==> q == p
    ensures p < 0 ==> q - n == p
  {
    if p >= 0 then p else p + n
  }

  /** Python's prefix slice `s[:k]`: a negative k drops -k elements from
      the end, and a k beyond the length takes everything. */
  function PyPrefix<T>(s: seq<T>, k: int): (r: seq<T>)
    ensures |r| <= |s| && r == s[..|r|]
    ensures k >= 0 ==> |r| == if k < |s| then k else |s|
    ensures k < 0 ==> |r| == if -k < |s| then |s| + k else 0
  {
    if k >= 0 then
      (if k < |s| then s[..k] else s)
    else
      (if -k < |s| then s[..|s| + k] else [])
  }

  lemma {:induction false} DistinctElements<T>(s: seq<T>)
    requires Distinct(s)
    ensures |Elements(s)| == |s|
  {
    if s != [] {
      var tail := s[1..];
      assert Distinct(tail) by {
        forall i, j | 0 <= i < j < |tail| ensures tail[i] != tail[j] {
          assert tail[i] == s[i + 1] && tail[j] == s[j + 1];
        }
      }
      DistinctElements(tail);
      assert s[0] !in Elements(tail) by {
        forall j | 0 <= j < |tail| ensures tail[j] != s[0] {
          assert tail[j] == s[j + 1];
        }
      }
      assert Elements(s) == {s[0]} + Elements(tail) by {
        assert s == [s[0]] + tail;
      }
    }
  }

  lemma {:induction false} BelowSize(n: nat)
    ensures |Below(n)| == n
  {
    if n > 0 {
      var prev := Below(n - 1);
      BelowSize(n - 1);
      assert n - 1 !in prev;
      assert |prev + {n - 1}| == |prev| + 1;
    }
  }

  /** Pigeonhole: n distinct positions below n are all of them. */
  lemma DistinctBelowCoversAll(s: seq<nat>, n: nat)
    requires Distinct(s) && |s| == n
    requires forall k :: 0 <= k < |s| ==> s[k] < n
    ensures Elements(s) == Below(n)
  {
    DistinctElements(s);
    BelowSize(n);
    assert Elements(s) <= Below(n);
    var missing := Below(n) - Elements(s);
    assert |missing| == |Below(n)| - |Elements(s)| == 0;
    assert missing == {};
  }
}
