/** Sequence helpers shared by the table models: a SQL `DELETE ... WHERE` keeps a filtered sub-sequence. */
module Seqs {

  /** The elements of `s` that satisfy `keep`, in their original order. */
  function Filter<T>(s: seq<T>, keep: T -> bool): (r: seq<T>)
    ensures |r| <= |s|
    ensures forall i :: 0 <= i < |r| ==> r[i] in s && keep(r[i])
    ensures forall i :: 0 <= i < |s| && keep(s[i]) ==> s[i] in r
    decreases |s|
  {
    if s == [] then []
    else if keep(s[0]) then [s[0]] + Filter(s[1..], keep)
    else Filter(s[1..], keep)
  }

  lemma AppendAssoc<T>(x: seq<T>, y: seq<T>, z: seq<T>)
    ensures (x + y) + z == x + (y + z)
  {
  }

  /** Every ordered pair of positions of `s` satisfies `ok`. */
  predicate Pairwise<T>(s: seq<T>, ok: (T, T) -> bool)
  {
    forall i, j :: 0 <= i < j < |s| ==> ok(s[i], s[j])
  }

  /** A filter keeps every element exactly when all of them pass. */
  lemma {:induction false} FilterKeepsAll<T>(s: seq<T>, keep: T -> bool)
    ensures Filter(s, keep) == s <==> forall i :: 0 <= i < |s| ==> keep(s[i])
    decreases |s|
  {
    if s != [] {
      FilterKeepsAll(s[1..], keep);
      if !keep(s[0]) {
        assert |Filter(s, keep)| < |s|;
      } else if Filter(s, keep) == s {
        assert Filter(s[1..], keep) == s[1..];
      }
    }
  }

  /** The rows a filter keeps and the rows it drops add up to the whole sequence. */
  lemma {:induction false} FilterPartition<T>(s: seq<T>, keep: T -> bool, drop: T -> bool)
    requires forall i :: 0 <= i < |s| ==> drop(s[i]) == !keep(s[i])
    ensures |Filter(s, keep)| + |Filter(s, drop)| == |s|
    decreases |s|
  {
    if s != [] {
      FilterPartition(s[1..], keep, drop);
    }
  }

  lemma PairwiseTail<T>(s: seq<T>, ok: (T, T) -> bool)
    requires s != [] && Pairwise(s, ok)
    ensures Pairwise(s[1..], ok)
  {
    var rest := s[1..];
    forall i, j | 0 <= i < j < |rest| ensures ok(rest[i], rest[j]) {
      assert rest[i] == s[i + 1] && rest[j] == s[j + 1];
    }
  }

  /** Filtering keeps a pairwise property: the kept rows are a sub-sequence. */
  lemma {:induction false} FilterPairwise<T>(s: seq<T>, keep: T -> bool, ok: (T, T) -> bool)
    requires Pairwise(s, ok)
    ensures Pairwise(Filter(s, keep), ok)
    decreases |s|
  {
    if s != [] {
      var rest := s[1..];
      assert Pairwise(Filter(rest, keep), ok) by {
        PairwiseTail(s, ok);
        FilterPairwise(rest, keep, ok);
      }
      if keep(s[0]) {
        var r, tail := Filter(s, keep), Filter(rest, keep);
        assert r == [s[0]] + tail;
        forall i, j | 0 <= i < j < |r| ensures ok(r[i], r[j]) {
          if i == 0 {
            assert tail[j - 1] in rest;
            var k :| 0 <= k < |rest| && rest[k] == tail[j - 1];
            assert ok(s[0], s[k + 1]);
          } else {
            assert ok(tail[i - 1], tail[j - 1]);
          }
        }
      }
    }
  }
}
