/**
 * The filter of the statistics page (`estadisticas`): the `WHERE` conditions and parameters built
 * from the four query-string filters, with the trailing five-year window applied only when the
 * user gives no date bound.
 */
module Statistics {
  import opened Strings
  import opened SqlText
  import opened Records
  import opened Retention
  import opened Collation

  /** `evento`, `programa`, `fecha_inicio` and `fecha_fin`; an absent argument arrives as `""`. */
  datatype StatsFilter = StatsFilter(eventName: string, program: string, dateFrom: string, dateTo: string)

  /** One condition of the filter, with the value bound to its marker. */
  datatype Test =
    | YearAtLeast(year: int)
    | YearAtMost(year: int)
    | EventIs(name: string)
    | ProgramIs(name: string)
    | DateFrom(text: string)
    | DateTo(text: string)

  /** A bound parameter: the window's years are integers, the other filters text. */
  datatype Param = YearParam(year: int) | TextParam(text: string)

  /** The years of the page's window (`get_ventana_anos(5)`). */
  const WindowYears := 5

  /** `CAST(SUBSTR(fecha_evento, 1, 4) AS INTEGER)`. */
  function YearColumn(): string
  {
    "CAST(SUBSTR(fecha_evento, " + "1, 4) AS INTEGER)"
  }

  function Column(t: Test): string
  {
    match t
    case YearAtLeast(_) => YearColumn()
    case YearAtMost(_) => YearColumn()
    case EventIs(_) => "nombre_evento"
    case ProgramIs(_) => "programa_estudiante"
    case DateFrom(_) => "fecha_evento"
    case DateTo(_) => "fecha_evento"
  }

  function Comparison(t: Test): string
  {
    match t
    case YearAtLeast(_) => " >= "
    case YearAtMost(_) => " <= "
    case EventIs(_) => " = "
    case ProgramIs(_) => " = "
    case DateFrom(_) => " >= "
    case DateTo(_) => " <= "
  }

  /** The condition's SQL text, written with SQLite's `?` marker. */
  function TestText(t: Test): string
  {
    Column(t) + Comparison(t) + "?"
  }

  function TestParam(t: Test): Param
  {
    match t
    case YearAtLeast(y) => YearParam(y)
    case YearAtMost(y) => YearParam(y)
    case EventIs(name) => TextParam(name)
    case ProgramIs(name) => TextParam(name)
    case DateFrom(text) => TextParam(text)
    case DateTo(text) => TextParam(text)
  }

  /**
   * Whether a stored row passes the condition. Dates are stored as text, so the date bounds compare
   * text under the BINARY collation; the window compares the year read from the text.
   */
  predicate Holds(t: Test, r: Record)
  {
    match t
    case YearAtLeast(y) => r.entry.date.year >= y
    case YearAtMost(y) => r.entry.date.year <= y
    case EventIs(name) => r.entry.eventName == name
    case ProgramIs(name) => r.entry.studentProgram == name
    case DateFrom(text) => InOrder(text, r.entry.date.text)
    case DateTo(text) => InOrder(r.entry.date.text, text)
  }

  /** No date bound was given, so the window applies. */
  predicate NoDates(f: StatsFilter)
  {
    f.dateFrom == "" && f.dateTo == ""
  }

  /** The window's two bounds when no date bound is given. */
  function WindowTests(f: StatsFilter, w: Window): seq<Test>
  {
    if NoDates(f) then [YearAtLeast(w.first), YearAtMost(w.last)] else []
  }

  /** The condition of a filter that is applied only when its argument is not empty. */
  function Optional(given: string, t: Test): seq<Test>
  {
    if given != "" then [t] else []
  }

  /** The conditions in the order the page appends them. */
  function StatsTests(f: StatsFilter, w: Window): seq<Test>
  {
    WindowTests(f, w)
    + Optional(f.eventName, EventIs(f.eventName))
    + Optional(f.program, ProgramIs(f.program))
    + Optional(f.dateFrom, DateFrom(f.dateFrom))
    + Optional(f.dateTo, DateTo(f.dateTo))
  }

  function TestTexts(tests: seq<Test>): seq<string>
  {
    seq(|tests|, i requires 0 <= i < |tests| => TestText(tests[i]))
  }

  function TestParams(tests: seq<Test>): seq<Param>
  {
    seq(|tests|, i requires 0 <= i < |tests| => TestParam(tests[i]))
  }

  /** A row passes every condition of the filter. */
  predicate Selected(tests: seq<Test>, r: Record)
  {
    forall t :: t in tests ==> Holds(t, r)
  }

  lemma TestsAppend(tests: seq<Test>, more: seq<Test>)
    ensures TestTexts(tests + more) == TestTexts(tests) + TestTexts(more)
    ensures TestParams(tests + more) == TestParams(tests) + TestParams(more)
  {
  }

  /**
   * The filter-building steps of the page: the window bounds when neither date is given, then each
   * non-empty filter in turn, each appending its condition and its parameter.
   */
  method BuildStatsFilter(f: StatsFilter, currentYear: int) returns (clauses: seq<string>, params: seq<Param>)
    ensures var tests := StatsTests(f, YearWindow(WindowYears, currentYear));
      clauses == TestTexts(tests) && params == TestParams(tests)
  {
    var w := YearWindow(WindowYears, currentYear);
    clauses, params := [], [];
    if f.dateFrom == "" && f.dateTo == "" {
      clauses := clauses + [TestText(YearAtLeast(w.first))];
      params := params + [YearParam(w.first)];
      clauses := clauses + [TestText(YearAtMost(w.last))];
      params := params + [YearParam(w.last)];
    }
    ghost var tests := WindowTests(f, w);
    assert clauses == TestTexts(tests) && params == TestParams(tests);
    clauses, params := AddFilter(clauses, params, tests, f.eventName, EventIs(f.eventName));
    tests := tests + Optional(f.eventName, EventIs(f.eventName));
    clauses, params := AddFilter(clauses, params, tests, f.program, ProgramIs(f.program));
    tests := tests + Optional(f.program, ProgramIs(f.program));
    clauses, params := AddFilter(clauses, params, tests, f.dateFrom, DateFrom(f.dateFrom));
    tests := tests + Optional(f.dateFrom, DateFrom(f.dateFrom));
    clauses, params := AddFilter(clauses, params, tests, f.dateTo, DateTo(f.dateTo));
  }

  /** One `if filtro:` step: a non-empty filter appends its condition and its parameter. */
  method AddFilter(clauses: seq<string>, params: seq<Param>, ghost tests: seq<Test>, given: string, t: Test)
    returns (clauses': seq<string>, params': seq<Param>)
    requires clauses == TestTexts(tests) && params == TestParams(tests)
    ensures clauses' == TestTexts(tests + Optional(given, t)) && params' == TestParams(tests + Optional(given, t))
  {
    clauses', params' := clauses, params;
    if given != "" {
      clauses' := clauses' + [TestText(t)];
      params' := params' + [TestParam(t)];
    }
    TestsAppend(tests, Optional(given, t));
  }

  /**
   * The window bounds are among the conditions exactly when no date bound is given, and they are
   * then the first two, from the window's first year to the current year.
   */
  lemma WindowOnlyWithoutDates(f: StatsFilter, currentYear: int)
    ensures var w := YearWindow(WindowYears, currentYear);
      var tests := StatsTests(f, w);
      && (NoDates(f) <==> exists i :: 0 <= i < |tests| && tests[i].YearAtLeast?)
      && (NoDates(f) <==> exists i :: 0 <= i < |tests| && tests[i].YearAtMost?)
      && (NoDates(f) ==> tests[..2] == [YearAtLeast(currentYear - 4), YearAtMost(currentYear)])
  {
    var w := YearWindow(WindowYears, currentYear);
    var tests := StatsTests(f, w);
    if NoDates(f) {
      assert tests[0].YearAtLeast? && tests[1].YearAtMost?;
    } else {
      forall i | 0 <= i < |tests| ensures !tests[i].YearAtLeast? && !tests[i].YearAtMost? {
        assert tests[i] in tests;
      }
    }
  }

  lemma SelectedAppend(a: seq<Test>, b: seq<Test>, r: Record)
    ensures Selected(a + b, r) <==> Selected(a, r) && Selected(b, r)
  {
  }

  lemma SelectedOptional(given: string, t: Test, r: Record)
    ensures Selected(Optional(given, t), r) <==> (given != "" ==> Holds(t, r))
  {
    if given != "" {
      assert t in Optional(given, t);
    }
  }

  /**
   * What the filter selects: without date bounds, rows whose event year lies in the five-year
   * window; with them, rows whose date text lies within the given bounds, whatever the year; and
   * in both cases the chosen event and student programme when they are given.
   */
  lemma StatsSemantics(f: StatsFilter, currentYear: int, r: Record)
    ensures var w := YearWindow(WindowYears, currentYear);
      Selected(StatsTests(f, w), r) <==>
        && (NoDates(f) ==> r.entry.date.year in w.years)
        && (f.eventName != "" ==> r.entry.eventName == f.eventName)
        && (f.program != "" ==> r.entry.studentProgram == f.program)
        && (f.dateFrom != "" ==> InOrder(f.dateFrom, r.entry.date.text))
        && (f.dateTo != "" ==> InOrder(r.entry.date.text, f.dateTo))
  {
    var w := YearWindow(WindowYears, currentYear);
    var window := WindowTests(f, w);
    var event := Optional(f.eventName, EventIs(f.eventName));
    var program := Optional(f.program, ProgramIs(f.program));
    var from := Optional(f.dateFrom, DateFrom(f.dateFrom));
    var to := Optional(f.dateTo, DateTo(f.dateTo));
    assert Selected(window, r) <==> (NoDates(f) ==> r.entry.date.year in w.years) by {
      if NoDates(f) {
        var low, high := YearAtLeast(w.first), YearAtMost(w.last);
        assert window == [low, high];
        assert low in window && high in window;
        assert Selected(window, r) <==> Holds(low, r) && Holds(high, r);
      }
    }
    SelectedOptional(f.eventName, EventIs(f.eventName), r);
    SelectedOptional(f.program, ProgramIs(f.program), r);
    SelectedOptional(f.dateFrom, DateFrom(f.dateFrom), r);
    SelectedOptional(f.dateTo, DateTo(f.dateTo), r);
    SelectedAppend(window, event, r);
    SelectedAppend(window + event, program, r);
    SelectedAppend(window + event + program, from, r);
    SelectedAppend(window + event + program + from, to, r);
  }

  /** `where_sql`: `WHERE` and the conditions joined with `AND`, or nothing when there are none. */
  function WhereSql(clauses: seq<string>): string
  {
    if clauses == [] then [] else " WHERE " + Join(clauses, " AND ")
  }

  /** The first of the page's queries up to its filter. */
  function TotalHead(): string
  {
    "SELECT COUNT(*) " + "as total_asistencias " + "FROM asistencias "
  }

  lemma TotalHeadPlain()
    ensures Plain(TotalHead())
  {
    var select, total, from := "SELECT COUNT(*) ", "as total_asistencias ", "FROM asistencias ";
    assert Plain(select) by { PlainByIndex(select); }
    assert Plain(total) by { PlainByIndex(total); }
    assert Plain(from) by { PlainByIndex(from); }
    PlainAppend(select, total);
    PlainAppend(select + total, from);
  }

  lemma ColumnPlain(t: Test)
    ensures Plain(Column(t))
  {
    match t
    case YearAtLeast(_) => YearColumnPlain();
    case YearAtMost(_) => YearColumnPlain();
    case EventIs(_) => PlainByIndex("nombre_evento");
    case ProgramIs(_) => PlainByIndex("programa_estudiante");
    case DateFrom(_) => PlainByIndex("fecha_evento");
    case DateTo(_) => PlainByIndex("fecha_evento");
  }

  lemma YearColumnPlain()
    ensures Plain(YearColumn())
  {
    var cast, tail := "CAST(SUBSTR(fecha_evento, ", "1, 4) AS INTEGER)";
    assert Plain(cast) by { PlainByIndex(cast); }
    assert Plain(tail) by { PlainByIndex(tail); }
    PlainAppend(cast, tail);
  }

  /** Each condition holds exactly one `?`, no `%`, and ends in its marker. */
  lemma TestTextShape(t: Test)
    ensures Occurrences('?', TestText(t)) == 1 && '%' !in TestText(t)
    ensures TestText(t) != [] && TestText(t)[|TestText(t)| - 1] == '?'
  {
    var c := Column(t) + Comparison(t);
    assert Plain(c) by {
      ColumnPlain(t);
      assert Plain(Comparison(t)) by { PlainByIndex(Comparison(t)); }
      PlainAppend(Column(t), Comparison(t));
    }
    assert Occurrences('?', c) == 0 by { OccurrencesNone('?', c); }
    assert Occurrences('?', "?") == 1 by {
      assert Occurrences('?', "?") == 1 + Occurrences('?', []);
    }
    OccurrencesAppend('?', c, "?");
  }

  /** The joined conditions hold one `?` per condition, no `%`, and end in a marker. */
  lemma JoinedTexts(tests: seq<Test>)
    ensures Occurrences('?', Join(TestTexts(tests), " AND ")) == |tests|
    ensures '%' !in Join(TestTexts(tests), " AND ")
  {
    var texts, sep := TestTexts(tests), " AND ";
    assert Plain(sep) by { PlainByIndex(sep); }
    forall i | 0 <= i < |texts|
      ensures Markers(Sqlite, texts[i]) == 1 && '%' !in texts[i]
      ensures texts[i] != [] && texts[i][|texts[i]| - 1] != '%'
    {
      TestTextShape(tests[i]);
    }
    assert Markers(Sqlite, Join(texts, sep)) == |texts| by {
      JoinMarkers(Sqlite, texts, sep);
      SumOnes(Sqlite, texts);
    }
    JoinChars(texts, sep, '%');
  }

  /** `where_sql` holds one `?` per condition and no `%`. */
  lemma WhereSqlShape(tests: seq<Test>)
    ensures Occurrences('?', WhereSql(TestTexts(tests))) == |tests| && '%' !in WhereSql(TestTexts(tests))
  {
    if tests != [] {
      var keyword, joined := " WHERE ", Join(TestTexts(tests), " AND ");
      assert Plain(keyword) by { PlainByIndex(keyword); }
      JoinedTexts(tests);
      OccurrencesNone('?', keyword);
      OccurrencesAppend('?', keyword, joined);
    }
  }

  /** The count query over any list of conditions holds one marker per parameter after adapting. */
  lemma QueryMarkers(d: Dialect, tests: seq<Test>)
    ensures Markers(d, AdaptQuery(d, TotalHead() + WhereSql(TestTexts(tests)))) == |TestParams(tests)|
  {
    var head, w := TotalHead(), WhereSql(TestTexts(tests));
    WhereSqlShape(tests);
    assert Occurrences('?', head) == 0 && '%' !in head by {
      TotalHeadPlain();
      OccurrencesNone('?', head);
    }
    OccurrencesAppend('?', head, w);
    AdaptQueryMarkers(d, head + w);
  }
}
