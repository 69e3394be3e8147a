/**
 * The attendance grid (`/api/asistencias`) and the Excel export (`/exportar`): the sort column and
 * direction taken from the request, and the search conditions and parameters built from the
 * global search box and the eleven per-column boxes.
 */
module Listing {
  import opened Wrappers
  import opened Strings
  import opened SqlText
  import opened Search

  /** `col_names`: the columns in display order. */
  const Columns: seq<string> := [
    "nombre_evento", "dictado_por", "docente", "programa_docente",
    "numero_identificacion", "nombre_completo", "programa_estudiante",
    "modalidad", "tipo_asistente", "sede", "fecha_evento"
  ]

  /** The column an index selects, `fecha_evento` when it is out of range. */
  function ColumnAt(i: int): (c: string)
    ensures c in Columns
    ensures 0 <= i < |Columns| ==> c == Columns[i]
    ensures !(0 <= i < |Columns|) ==> c == "fecha_evento"
  {
    if 0 <= i < |Columns| then Columns[i] else "fecha_evento"
  }

  /**
   * The grid's sort column from `order[0][column]` (10 when absent): `None` when `int()` rejects
   * the text, which makes the whole request fail. Only a listed column name can reach the query.
   */
  function GridSortColumn(arg: Option<string>): (r: Option<string>)
    ensures r.Some? ==> r.value in Columns
    ensures r.None? <==> arg.Some? && ParseInt(arg.value).None?
  {
    match arg
    case None => Some(ColumnAt(10))
    case Some(text) =>
      match ParseInt(text)
      case None => None
      case Some(i) => Some(ColumnAt(i))
  }

  /**
   * The export's sort column from `order_column` ("10" when absent): text `int()` rejects falls back
   * to `fecha_evento` instead of failing.
   */
  function ExportSortColumn(arg: Option<string>): (r: string)
    ensures r in Columns
    ensures arg.Some? && ParseInt(arg.value).None? ==> r == "fecha_evento"
  {
    var text := if arg.Some? then arg.value else "10";
    match ParseInt(text)
    case None => "fecha_evento"
    case Some(i) => ColumnAt(i)
  }

  /** The sort direction: `asc` or `desc` as given, `desc` for anything else or when absent. */
  function SortDirection(arg: Option<string>): (r: string)
    ensures r == "asc" || r == "desc"
    ensures arg.Some? && (arg.value == "asc" || arg.value == "desc") ==> r == arg.value
    ensures arg.None? || (arg.value != "asc" && arg.value != "desc") ==> r == "desc"
  {
    if arg.Some? && (arg.value == "asc" || arg.value == "desc") then arg.value else "desc"
  }

  /**
   * Both screens sort by the column whose index the browser sends, and by the event date when no
   * index is sent.
   */
  lemma SortColumnSelects(i: int)
    requires 0 <= i < |Columns|
    ensures GridSortColumn(Some(ShowInt(i))) == Some(Columns[i])
    ensures ExportSortColumn(Some(ShowInt(i))) == Columns[i]
    ensures GridSortColumn(None) == Some("fecha_evento") && ExportSortColumn(None) == "fecha_evento"
  {
    ParseShow(i);
    ParseShow(10);
    assert ShowInt(10) == "10";
  }

  /** An index outside the column list sorts both screens by the event date. */
  lemma SortColumnFallback(i: int)
    requires !(0 <= i < |Columns|)
    ensures GridSortColumn(Some(ShowInt(i))) == Some("fecha_evento")
    ensures ExportSortColumn(Some(ShowInt(i))) == "fecha_evento"
  {
    ParseShow(i);
  }

  lemma ColumnsPlain()
    ensures forall i :: 0 <= i < |Columns| ==> Plain(Columns[i])
  {
  }

  /** The sanitised column and direction hold no parameter marker. */
  lemma SortPlain(column: string, dirArg: Option<string>)
    requires column in Columns
    ensures Plain(column) && Plain(SortDirection(dirArg))
  {
    ColumnsPlain();
    assert Plain("asc") by { PlainByIndex("asc"); }
    assert Plain("desc") by { PlainByIndex("desc"); }
  }

  /**
   * The grid's two filtered queries, after `adapt_query`, hold as many markers as the driver is
   * given values: `params` for the count, `params + [length, start]` for the page.
   */
  lemma GridQueriesFit(d: Dialect, globalRaw: string, boxes: seq<string>, orderArg: Option<string>, dirArg: Option<string>)
    requires |boxes| == |Columns| && GridSortColumn(orderArg).Some?
    ensures var conditions := GlobalConditions(globalRaw) + ColumnConditions(Columns, boxes, |Columns|);
      var params := GlobalParams(Columns, globalRaw) + ColumnParams(Columns, boxes, |Columns|);
      && Markers(d, AdaptQuery(d, CountQuery(d, Columns, conditions))) == |params|
      && Markers(d, AdaptQuery(d, PageQuery(d, Columns, conditions, GridSortColumn(orderArg).value, SortDirection(dirArg)))) == |params| + 2
  {
    ColumnsPlain();
    SortPlain(GridSortColumn(orderArg).value, dirArg);
    SearchMarkers(d, Columns, globalRaw, boxes);
    PageQueryMarkers(d, Columns, globalRaw, boxes, GridSortColumn(orderArg).value, SortDirection(dirArg));
  }

  /** The export's query, after `adapt_query`, holds exactly one marker per parameter. */
  lemma ExportQueryFits(d: Dialect, globalRaw: string, boxes: seq<string>, orderArg: Option<string>, dirArg: Option<string>)
    requires |boxes| == |Columns|
    ensures var conditions := GlobalConditions(globalRaw) + ColumnConditions(Columns, boxes, |Columns|);
      var params := GlobalParams(Columns, globalRaw) + ColumnParams(Columns, boxes, |Columns|);
      Markers(d, AdaptQuery(d, ExportQuery(d, Columns, conditions, ExportSortColumn(orderArg), SortDirection(dirArg)))) == |params|
  {
    ColumnsPlain();
    SortPlain(ExportSortColumn(orderArg), dirArg);
    ExportQueryMarkers(d, Columns, globalRaw, boxes, ExportSortColumn(orderArg), SortDirection(dirArg));
  }
}
