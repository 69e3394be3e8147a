/**
 * The start-up de-duplication of `asistencias`: before the unique index is created, every row whose
 * id is not the smallest of its (identification, event, date) group is deleted.
 */
module Dedup {
  import opened Seqs
  import opened Records

  /** `r` has the smallest id among the rows of `table` that share its key. */
  predicate IsGroupMin(table: seq<Record>, r: Record)
  {
    forall i :: 0 <= i < |table| && RowKey(table[i]) == RowKey(r) ==> r.id <= table[i].id
  }

  /** The table after `DELETE ... WHERE id NOT IN (SELECT MIN(id) ... GROUP BY` the key `)`. */
  function Deduplicated(table: seq<Record>): seq<Record>
  {
    Filter(table, r => IsGroupMin(table, r))
  }

  /** Every key present in the table has a row with the smallest id of its group. */
  lemma {:induction false} GroupMinExists(table: seq<Record>, k: Key)
    requires k in Keys(table)
    ensures exists r :: r in table && RowKey(r) == k && IsGroupMin(table, r)
    decreases |table|
  {
    var first, rest := table[0], table[1..];
    assert table == [first] + rest;
    if k in Keys(rest) {
      GroupMinExists(rest, k);
      var r :| r in rest && RowKey(r) == k && IsGroupMin(rest, r);
      if RowKey(first) == k && first.id < r.id {
        forall i | 0 <= i < |table| && RowKey(table[i]) == k ensures first.id <= table[i].id {
          if i > 0 {
            assert table[i] == rest[i - 1];
          }
        }
        assert IsGroupMin(table, first);
      } else {
        forall i | 0 <= i < |table| && RowKey(table[i]) == k ensures r.id <= table[i].id {
          if i > 0 {
            assert table[i] == rest[i - 1];
          }
        }
        assert IsGroupMin(table, r);
      }
    } else {
      assert RowKey(first) == k by {
        var x :| x in table && RowKey(x) == k;
        if x != first {
          assert x in rest;
        }
      }
      forall i | 0 < i < |table| ensures RowKey(table[i]) != k {
        assert table[i] == rest[i - 1];
        assert table[i] in rest;
      }
      assert IsGroupMin(table, first);
    }
  }

  /**
   * After de-duplication every key that was present appears exactly once, its surviving row is
   * the one with the smallest id for that key, and no row is invented.
   */
  lemma DeduplicatedSpec(table: seq<Record>)
    requires DistinctIds(table)
    ensures UniqueKeys(Deduplicated(table)) && DistinctIds(Deduplicated(table))
    ensures Keys(Deduplicated(table)) == Keys(table)
    ensures forall r :: r in Deduplicated(table) ==> r in table && IsGroupMin(table, r)
  {
    var keep := r => IsGroupMin(table, r);
    var d := Deduplicated(table);
    DistinctIdsPairwise(table);
    FilterPairwise(table, keep, DifferentIds);
    DistinctIdsPairwise(d);
    forall i, j | 0 <= i < j < |d| ensures DifferentKeys(d[i], d[j]) {
      var a :| 0 <= a < |table| && table[a] == d[i];
      var b :| 0 <= b < |table| && table[b] == d[j];
      assert IsGroupMin(table, d[i]) && IsGroupMin(table, d[j]);
      assert DifferentIds(d[i], d[j]);
    }
    forall k | k in Keys(table) ensures k in Keys(d) {
      GroupMinExists(table, k);
      var r :| r in table && RowKey(r) == k && IsGroupMin(table, r);
      var a :| 0 <= a < |table| && table[a] == r;
      assert r in d;
    }
    forall k | k in Keys(d) ensures k in Keys(table) {
      var r :| r in d && RowKey(r) == k;
      var a :| 0 <= a < |d| && d[a] == r;
    }
  }

  /** A table that already satisfies the unique index is left as it is. */
  lemma DeduplicatedIdentity(table: seq<Record>)
    requires UniqueKeys(table)
    ensures Deduplicated(table) == table
  {
    var keep := r => IsGroupMin(table, r);
    forall i | 0 <= i < |table| ensures keep(table[i]) {
      forall j | 0 <= j < |table| && j != i ensures RowKey(table[j]) != RowKey(table[i]) {
        if i < j {
          assert DifferentKeys(table[i], table[j]);
        } else if j < i {
          assert DifferentKeys(table[j], table[i]);
        }
      }
    }
    FilterKeepsAll(table, keep);
  }

  /** Rows are deleted exactly when some key occurs more than once. */
  lemma DeduplicatedRemovesIffDuplicates(table: seq<Record>)
    requires DistinctIds(table)
    ensures |Deduplicated(table)| < |table| <==> !UniqueKeys(table)
  {
    if UniqueKeys(table) {
      DeduplicatedIdentity(table);
    } else {
      var i, j :| 0 <= i < j < |table| && RowKey(table[i]) == RowKey(table[j]);
      assert table[i].id != table[j].id;
      var keep := r => IsGroupMin(table, r);
      var drop := r => !IsGroupMin(table, r);
      var late := if table[i].id < table[j].id then j else i;
      assert drop(table[late]);
      FilterPartition(table, keep, drop);
      assert table[late] in Filter(table, drop);
    }
  }
}
