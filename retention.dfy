/**
 * The trailing window of years (`get_ventana_anos`) and the retention rule built on it: rows whose
 * event year is before the window's first year are the ones `limpiar_datos_antiguos` deletes.
 */
module Retention {
  import opened Seqs
  import opened Records

  /** The years of a window, its first year (`ano_inicio`) and its last year (`ano_fin`). */
  datatype Window = Window(years: seq<int>, first: int, last: int)

  /**
   * `get_ventana_anos(count)` with the clock read turned into `currentYear`: `count` consecutive
   * years ending at the current one (none when `count` is not positive, as `range` gives).
   */
  function YearWindow(count: int, currentYear: int): (w: Window)
    ensures w.last == currentYear && w.last - w.first + 1 == count
    ensures |w.years| == if count > 0 then count else 0
    ensures forall y :: y in w.years <==> w.first <= y <= w.last
    ensures forall i :: 0 < i < |w.years| ==> w.years[i] == w.years[i - 1] + 1
    ensures count > 0 ==> w.years[0] == w.first && w.years[|w.years| - 1] == currentYear
  {
    var first := currentYear - (count - 1);
    var years := seq(if count > 0 then count else 0, i => first + i);
    RangeMembers(first, currentYear, years);
    Window(years, first, currentYear)
  }

  /** `list(range(first, last + 1))` holds exactly the years from `first` to `last`. */
  lemma RangeMembers(first: int, last: int, years: seq<int>)
    requires |years| == (if last - first + 1 > 0 then last - first + 1 else 0)
    requires forall i :: 0 <= i < |years| ==> years[i] == first + i
    ensures forall y :: y in years <==> first <= y <= last
  {
    forall y | first <= y <= last ensures y in years {
      assert years[y - first] == y;
    }
  }

  /** `CAST(SUBSTR(fecha_evento, 1, 4) AS INTEGER) < firstYear`. */
  function IsOld(firstYear: int): Record -> bool
  {
    (r: Record) => r.entry.date.year < firstYear
  }

  function IsRecent(firstYear: int): Record -> bool
  {
    (r: Record) => r.entry.date.year >= firstYear
  }

  /** The rows the retention `DELETE` removes: event year before `firstYear`. */
  function Expired(rows: seq<Record>, firstYear: int): seq<Record>
  {
    Filter(rows, IsOld(firstYear))
  }

  /** The rows the retention `DELETE` keeps. */
  function Retained(rows: seq<Record>, firstYear: int): seq<Record>
  {
    Filter(rows, IsRecent(firstYear))
  }

  /**
   * The cleanup keeps exactly the rows from `firstYear` on, drops exactly the older ones, the two
   * counts add up to the table size, and when nothing is old the table is unchanged.
   */
  lemma RetentionSpec(rows: seq<Record>, firstYear: int)
    ensures |Expired(rows, firstYear)| + |Retained(rows, firstYear)| == |rows|
    ensures Expired(rows, firstYear) == [] <==> Retained(rows, firstYear) == rows
    ensures forall r :: r in Retained(rows, firstYear) ==> r in rows && r.entry.date.year >= firstYear
    ensures forall i :: 0 <= i < |rows| && rows[i].entry.date.year >= firstYear ==> rows[i] in Retained(rows, firstYear)
    ensures UniqueKeys(rows) ==> UniqueKeys(Retained(rows, firstYear))
    ensures DistinctIds(rows) ==> DistinctIds(Retained(rows, firstYear))
  {
    var aged, recent := IsOld(firstYear), IsRecent(firstYear);
    FilterPartition(rows, recent, aged);
    FilterKeepsAll(rows, recent);
    if Expired(rows, firstYear) != [] {
      var x := Expired(rows, firstYear)[0];
      assert x in rows && !recent(x);
    }
    if UniqueKeys(rows) {
      UniqueKeysPairwise(rows);
      FilterPairwise(rows, recent, DifferentKeys);
      UniqueKeysPairwise(Retained(rows, firstYear));
    }
    if DistinctIds(rows) {
      DistinctIdsPairwise(rows);
      FilterPairwise(rows, recent, DifferentIds);
      DistinctIdsPairwise(Retained(rows, firstYear));
    }
  }
}
