/**
 * `ORDER BY nombre ASC` under SQLite's default BINARY collation: names compare code point by
 * code point, and a proper prefix sorts first.
 */
module Collation {

  /** `a` sorts no later than `b`. */
  predicate InOrder(a: string, b: string)
    decreases |a|
  {
    a == [] || (b != [] && (a[0] < b[0] || (a[0] == b[0] && InOrder(a[1..], b[1..]))))
  }

  lemma {:induction false} InOrderTotal(a: string, b: string)
    ensures InOrder(a, b) || InOrder(b, a)
    decreases |a|
  {
    if a != [] && b != [] && a[0] == b[0] {
      InOrderTotal(a[1..], b[1..]);
    }
  }

  lemma {:induction false} InOrderTransitive(a: string, b: string, c: string)
    requires InOrder(a, b) && InOrder(b, c)
    ensures InOrder(a, c)
    decreases |a|
  {
    if a != [] && a[0] == b[0] && b[0] == c[0] {
      InOrderTransitive(a[1..], b[1..], c[1..]);
    }
  }

  lemma {:induction false} InOrderAntisymmetric(a: string, b: string)
    requires InOrder(a, b) && InOrder(b, a)
    ensures a == b
    decreases |a|
  {
    if a != [] {
      InOrderAntisymmetric(a[1..], b[1..]);
      assert a == [a[0]] + a[1..] && b == [b[0]] + b[1..];
    }
  }

  predicate Sorted(s: seq<string>)
  {
    forall i, j :: 0 <= i < j < |s| ==> InOrder(s[i], s[j])
  }

  /** Places `x` into an already ordered list. */
  function Insert(x: string, s: seq<string>): seq<string>
    decreases |s|
  {
    if s == [] then [x]
    else if InOrder(x, s[0]) then [x] + s
    else [s[0]] + Insert(x, s[1..])
  }

  /** The order a query with `ORDER BY ... ASC` returns `names` in. */
  function SortNames(names: seq<string>): seq<string>
    decreases |names|
  {
    if names == [] then [] else Insert(names[0], SortNames(names[1..]))
  }

  /** Inserting adds `x` and keeps every other name. */
  lemma {:induction false} InsertPermutes(x: string, s: seq<string>)
    ensures multiset(Insert(x, s)) == multiset(s) + multiset{x}
    decreases |s|
  {
    if s != [] {
      assert s == [s[0]] + s[1..];
      if !InOrder(x, s[0]) {
        InsertPermutes(x, s[1..]);
      }
    }
  }

  /** A list stays ordered when its first name is dropped. */
  lemma SortedTail(s: seq<string>)
    requires Sorted(s) && s != []
    ensures Sorted(s[1..])
  {
    var rest := s[1..];
    forall i, j | 0 <= i < j < |rest| ensures InOrder(rest[i], rest[j]) {
      assert rest[i] == s[i + 1] && rest[j] == s[j + 1];
    }
  }

  /** Inserting into an ordered list keeps it ordered. */
  lemma {:induction false} InsertSorted(x: string, s: seq<string>)
    requires Sorted(s)
    ensures Sorted(Insert(x, s))
    decreases |s|
  {
    if s != [] {
      var r := Insert(x, s);
      if InOrder(x, s[0]) {
        forall j | 0 < j < |r| ensures InOrder(x, r[j]) {
          if j > 1 {
            InOrderTransitive(x, s[0], s[j - 1]);
          }
        }
      } else {
        var rest := s[1..];
        SortedTail(s);
        InsertSorted(x, rest);
        var tail := Insert(x, rest);
        assert InOrder(s[0], x) by {
          InOrderTotal(x, s[0]);
        }
        forall j | 0 <= j < |tail| ensures InOrder(s[0], tail[j]) {
          assert tail[j] in multiset(rest) + multiset{x} by {
            InsertPermutes(x, rest);
          }
          if tail[j] != x {
            var k :| 0 <= k < |rest| && rest[k] == tail[j];
            assert s[k + 1] == tail[j];
          }
        }
        assert r == [s[0]] + tail;
      }
    }
  }

  /** Sorting yields an ordered list. */
  lemma {:induction false} SortNamesSorted(names: seq<string>)
    ensures Sorted(SortNames(names))
    decreases |names|
  {
    if names != [] {
      SortNamesSorted(names[1..]);
      InsertSorted(names[0], SortNames(names[1..]));
    }
  }

  /** Sorting keeps every name, as often as it occurs. */
  lemma {:induction false} SortNamesPermutes(names: seq<string>)
    ensures multiset(SortNames(names)) == multiset(names)
    decreases |names|
  {
    if names != [] {
      SortNamesPermutes(names[1..]);
      InsertPermutes(names[0], SortNames(names[1..]));
      assert names == [names[0]] + names[1..];
    }
  }

  /** Sorting yields an ordered permutation of its input. */
  lemma SortNamesSpec(names: seq<string>)
    ensures Sorted(SortNames(names))
    ensures multiset(SortNames(names)) == multiset(names)
  {
    SortNamesSorted(names);
    SortNamesPermutes(names);
  }
}
