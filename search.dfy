/**
 * The search of the attendance grid and of the Excel export: the conditions and parameters built
 * from the global search box and the per-column boxes, and the SQL text of those conditions on
 * either back end.
 */
module Search {
  import opened Strings
  import opened Normalization
  import opened SqlText

  /**
   * One search condition: the global search (any column matches) or one column's box. `Sql` gives
   * its text.
   */
  datatype Condition = AnyColumnLike | ColumnLike(column: string)

  /** The `LIKE` argument for a search text: `%`, the normalised text, `%`. */
  function Pattern(text: string): string
  {
    Containing(NormalizeText(text))
  }

  /** `[x for _ in range(n)]`. */
  function Repeat(x: string, n: nat): (r: seq<string>)
    ensures |r| == n && forall i :: 0 <= i < n ==> r[i] == x
  {
    if n == 0 then [] else Repeat(x, n - 1) + [x]
  }

  /** The global search's condition, if its stripped text is not empty. */
  function GlobalConditions(globalRaw: string): seq<Condition>
  {
    if IsBlank(globalRaw) then [] else [AnyColumnLike]
  }

  /** The global search's parameters: the same pattern once per column. */
  function GlobalParams(cols: seq<string>, globalRaw: string): seq<string>
  {
    if IsBlank(globalRaw) then [] else Repeat(Pattern(Trim(globalRaw)), |cols|)
  }

  /** The boxes among `0 .. n - 1` that are not empty once stripped, in column order. */
  function FilledBoxes(boxes: seq<string>, n: nat): (r: seq<nat>)
    requires n <= |boxes|
    ensures forall j :: 0 <= j < |r| ==> r[j] < n && !IsBlank(boxes[r[j]])
    ensures forall j, j' :: 0 <= j < j' < |r| ==> r[j] < r[j']
  {
    if n == 0 then [] else FilledBoxes(boxes, n - 1) + (if IsBlank(boxes[n - 1]) then [] else [n - 1])
  }

  /** Every box among `0 .. n - 1` with text once stripped is among the filled ones. */
  lemma {:induction false} FilledBoxesComplete(boxes: seq<string>, n: nat, k: nat)
    requires k < n <= |boxes| && !IsBlank(boxes[k])
    ensures k in FilledBoxes(boxes, n)
    decreases n
  {
    var prev := FilledBoxes(boxes, n - 1);
    var last := if IsBlank(boxes[n - 1]) then [] else [n - 1];
    assert FilledBoxes(boxes, n) == prev + last;
    if k < n - 1 {
      FilledBoxesComplete(boxes, n - 1, k);
      assert k in prev;
    } else {
      assert last == [k];
    }
  }

  /** The conditions testing the columns at `idx`, in that order. */
  function ColumnsOf(cols: seq<string>, idx: seq<nat>): seq<Condition>
    requires forall j :: 0 <= j < |idx| ==> idx[j] < |cols|
  {
    seq(|idx|, j requires 0 <= j < |idx| => ColumnLike(cols[idx[j]]))
  }

  /** The patterns of the boxes at `idx`, in that order. */
  function PatternsOf(boxes: seq<string>, idx: seq<nat>): seq<string>
    requires forall j :: 0 <= j < |idx| ==> idx[j] < |boxes|
  {
    seq(|idx|, j requires 0 <= j < |idx| => Pattern(Trim(boxes[idx[j]])))
  }

  /** The column conditions: one per filled box, in column order. */
  function ColumnConditions(cols: seq<string>, boxes: seq<string>, n: nat): seq<Condition>
    requires n <= |boxes| == |cols|
  {
    ColumnsOf(cols, FilledBoxes(boxes, n))
  }

  /** Their parameters, in the same order. */
  function ColumnParams(cols: seq<string>, boxes: seq<string>, n: nat): seq<string>
    requires n <= |boxes| == |cols|
  {
    PatternsOf(boxes, FilledBoxes(boxes, n))
  }

  /** Box `n` adds its condition and its pattern at the end when filled, and nothing otherwise. */
  lemma ColumnStep(cols: seq<string>, boxes: seq<string>, n: nat)
    requires n < |boxes| == |cols|
    ensures !IsBlank(boxes[n]) ==> ColumnConditions(cols, boxes, n + 1) == ColumnConditions(cols, boxes, n) + [ColumnLike(cols[n])]
    ensures !IsBlank(boxes[n]) ==> ColumnParams(cols, boxes, n + 1) == ColumnParams(cols, boxes, n) + [Pattern(Trim(boxes[n]))]
    ensures IsBlank(boxes[n]) ==> ColumnConditions(cols, boxes, n + 1) == ColumnConditions(cols, boxes, n)
    ensures IsBlank(boxes[n]) ==> ColumnParams(cols, boxes, n + 1) == ColumnParams(cols, boxes, n)
  {
    var f := FilledBoxes(boxes, n);
    if !IsBlank(boxes[n]) {
      assert FilledBoxes(boxes, n + 1) == f + [n];
      assert (f + [n])[..|f|] == f;
    } else {
      assert FilledBoxes(boxes, n + 1) == f + [];
      assert f + [] == f;
    }
  }

  /** The column boxes' part of the condition-building loop: each filled box in column order. */
  method ColumnSearch(cols: seq<string>, boxes: seq<string>)
    returns (columnConditions: seq<Condition>, columnParams: seq<string>)
    requires |boxes| == |cols|
    ensures columnConditions == ColumnConditions(cols, boxes, |cols|)
    ensures columnParams == ColumnParams(cols, boxes, |cols|)
  {
    columnConditions, columnParams := [], [];
    var i := 0;
    while i < |cols|
      invariant 0 <= i <= |cols|
      invariant columnConditions == ColumnConditions(cols, boxes, i)
      invariant columnParams == ColumnParams(cols, boxes, i)
    {
      var value := Trim(boxes[i]);
      BlankIffTrimEmpty(boxes[i]);
      ColumnStep(cols, boxes, i);
      if |value| != 0 {
        columnConditions := columnConditions + [ColumnLike(cols[i])];
        columnParams := columnParams + [Pattern(value)];
      }
      i := i + 1;
    }
  }

  /**
   * The condition-building loop of both screens: the global search first, then each filled column
   * box in column order, each search text stripped and then normalised into its pattern.
   */
  method BuildSearch(cols: seq<string>, globalRaw: string, boxes: seq<string>)
    returns (conditions: seq<Condition>, params: seq<string>)
    requires |boxes| == |cols|
    ensures conditions == GlobalConditions(globalRaw) + ColumnConditions(cols, boxes, |cols|)
    ensures params == GlobalParams(cols, globalRaw) + ColumnParams(cols, boxes, |cols|)
  {
    var columnConditions, columnParams := ColumnSearch(cols, boxes);
    conditions, params := [], [];
    var search := Trim(globalRaw);
    if |search| != 0 {
      assert !IsBlank(globalRaw) by { BlankIffTrimEmpty(globalRaw); }
      conditions := [AnyColumnLike];
      params := Repeat(Pattern(search), |cols|);
    } else {
      assert IsBlank(globalRaw) by { BlankIffTrimEmpty(globalRaw); }
    }
    conditions, params := conditions + columnConditions, params + columnParams;
  }

  /** There is no condition exactly when neither the global box nor any column box has text. */
  lemma NoSearchNoConditions(cols: seq<string>, globalRaw: string, boxes: seq<string>)
    requires |boxes| == |cols|
    ensures GlobalConditions(globalRaw) + ColumnConditions(cols, boxes, |cols|) == [] <==>
      IsBlank(globalRaw) && forall k :: 0 <= k < |cols| ==> IsBlank(boxes[k])
  {
    var filled := FilledBoxes(boxes, |cols|);
    assert filled != [] ==> !IsBlank(boxes[filled[0]]);
    forall k | 0 <= k < |cols| && !IsBlank(boxes[k]) ensures filled != [] {
      FilledBoxesComplete(boxes, |cols|, k);
    }
  }

  /** `REPLACE(x, 'v','b')`. */
  function Unaccent(x: string, v: char, b: char): string
  {
    "REPLACE(" + x + ", '" + [v] + "','" + [b] + "')"
  }

  /** The lower-case accented vowels the PostgreSQL branch replaces, and their base letters. */
  const AccentedVowels := "\U{E1}\U{E9}\U{ED}\U{F3}\U{FA}"
  const BaseVowels := "aeiou"

  /** The column text with the first `n` accented vowels replaced, innermost first. */
  function StripVowels(c: string, n: nat): string
    requires n <= 5
  {
    if n == 0 then c else Unaccent(StripVowels(c, n - 1), AccentedVowels[n - 1], BaseVowels[n - 1])
  }

  /**
   * What a column is compared as: `LOWER(column)` on SQLite; on PostgreSQL the lower-case vowels
   * á é í ó ú are first replaced by their base letters.
   */
  function ColumnExpr(d: Dialect, c: string): string
  {
    match d
    case Sqlite => "LOWER(" + c + ")"
    case Postgres => "LOWER(" + StripVowels(c, 5) + ")"
  }

  /** The parameter marker of each driver. */
  function Marker(d: Dialect): string
  {
    match d
    case Sqlite => "?"
    case Postgres => "%s"
  }

  /** One column's `LIKE` test. */
  function LikeTest(d: Dialect, c: string): string
  {
    ColumnExpr(d, c) + " LIKE " + Marker(d)
  }

  /** The LIKE test of every column, in column order. */
  function LikeTests(d: Dialect, cols: seq<string>): seq<string>
  {
    seq(|cols|, i requires 0 <= i < |cols| => LikeTest(d, cols[i]))
  }

  function Sql(d: Dialect, cols: seq<string>, c: Condition): string
  {
    match c
    case AnyColumnLike => "(" + Join(LikeTests(d, cols), " OR ") + ")"
    case ColumnLike(column) => LikeTest(d, column)
  }

  /** The SQL text of every condition, in the order of the conditions. */
  function Texts(d: Dialect, cols: seq<string>, conditions: seq<Condition>): seq<string>
  {
    seq(|conditions|, i requires 0 <= i < |conditions| => Sql(d, cols, conditions[i]))
  }

  /** `WHERE` followed by the conditions joined with `AND`, or nothing when there are none. */
  function WhereClause(d: Dialect, cols: seq<string>, conditions: seq<Condition>): string
  {
    if conditions == [] then [] else "WHERE " + Join(Texts(d, cols, conditions), " AND ")
  }

  /** The grid's count query up to its `WHERE` clause. */
  function CountHead(): string
  {
    "SELECT COUNT(*) " + "as total " + "FROM asistencias "
  }

  /** The grid's filtered count query, before `adapt_query`. */
  function CountQuery(d: Dialect, cols: seq<string>, conditions: seq<Condition>): string
  {
    CountHead() + WhereClause(d, cols, conditions)
  }

  lemma UnaccentPlain(x: string, v: char, b: char)
    requires Plain(x) && Plain([v]) && Plain([b])
    ensures Plain(Unaccent(x, v, b))
  {
    PlainAppend("REPLACE(", x);
    PlainAppend("REPLACE(" + x, ", '");
    PlainAppend("REPLACE(" + x + ", '", [v]);
    PlainAppend("REPLACE(" + x + ", '" + [v], "','");
    PlainAppend("REPLACE(" + x + ", '" + [v] + "','", [b]);
    PlainAppend("REPLACE(" + x + ", '" + [v] + "','" + [b], "')");
  }

  lemma {:induction false} StripVowelsPlain(c: string, n: nat)
    requires Plain(c) && n <= 5
    ensures Plain(StripVowels(c, n))
  {
    if n > 0 {
      StripVowelsPlain(c, n - 1);
      UnaccentPlain(StripVowels(c, n - 1), AccentedVowels[n - 1], BaseVowels[n - 1]);
    }
  }

  lemma ColumnExprPlain(d: Dialect, c: string)
    requires Plain(c)
    ensures Plain(ColumnExpr(d, c))
  {
    match d
    case Sqlite =>
      PlainAppend("LOWER(", c);
      PlainAppend("LOWER(" + c, ")");
    case Postgres =>
      StripVowelsPlain(c, 5);
      var r := StripVowels(c, 5);
      PlainAppend("LOWER(", r);
      PlainAppend("LOWER(" + r, ")");
  }

  /** One `LIKE` test holds exactly one marker and, on PostgreSQL, no `?`. */
  lemma LikeTestMarkers(d: Dialect, c: string)
    requires Plain(c)
    ensures WellMarked(d, LikeTest(d, c), 1)
  {
    var e := ColumnExpr(d, c) + " LIKE ";
    ColumnExprPlain(d, c);
    PlainAppend(ColumnExpr(d, c), " LIKE ");
    PlainNoMarkers(d, e);
    MarkersAppend(d, e, Marker(d));
    if d == Postgres {
      assert FormatMarkers("%s") == 1 by {
        assert FormatMarkers("%s") == 1 + FormatMarkers("s");
      }
    } else {
      assert Occurrences('?', "?") == 1 + Occurrences('?', []);
    }
  }

  /** How many markers a condition holds: one per column for the global search, else one. */
  function Weight(cols: seq<string>, c: Condition): nat
  {
    if c.AnyColumnLike? then |cols| else 1
  }

  function TotalWeight(cols: seq<string>, conditions: seq<Condition>): nat
    decreases |conditions|
  {
    if conditions == [] then 0 else Weight(cols, conditions[0]) + TotalWeight(cols, conditions[1..])
  }

  /**
   * `t` carries `w` markers, ends in something other than `%` (so nothing after it can complete a
   * marker) and, on PostgreSQL, holds no `?`.
   */
  predicate WellMarked(d: Dialect, t: string, w: nat)
  {
    Markers(d, t) == w && t != [] && t[|t| - 1] != '%' && (d == Postgres ==> '?' !in t)
  }

  /** Tests joined with `OR` keep one marker per test. */
  lemma OrJoinMarkers(d: Dialect, tests: seq<string>)
    requires forall i :: 0 <= i < |tests| ==> WellMarked(d, tests[i], 1)
    ensures Markers(d, Join(tests, " OR ")) == |tests|
    ensures tests != [] ==> WellMarked(d, Join(tests, " OR "), |tests|)
  {
    var sep := " OR ";
    assert Plain(sep);
    assert Closed(tests);
    SumOnes(d, tests);
    JoinMarkers(d, tests, sep);
    if d == Postgres {
      JoinChars(tests, sep, '?');
    }
  }

  /** Parentheses add no marker. */
  lemma ParenthesesMarkers(d: Dialect, t: string)
    requires t == [] || t[|t| - 1] != '%'
    ensures Markers(d, "(" + t + ")") == Markers(d, t)
    ensures d == Postgres && '?' !in t ==> '?' !in "(" + t + ")"
  {
    PlainNoMarkers(d, "(");
    PlainNoMarkers(d, ")");
    MarkersAppend(d, "(", t);
    MarkersAppend(d, "(" + t, ")");
  }

  lemma LikeTestsMarkers(d: Dialect, cols: seq<string>)
    requires forall i :: 0 <= i < |cols| ==> Plain(cols[i])
    ensures forall i :: 0 <= i < |cols| ==> WellMarked(d, LikeTests(d, cols)[i], 1)
  {
    forall i | 0 <= i < |cols| ensures WellMarked(d, LikeTests(d, cols)[i], 1) {
      LikeTestMarkers(d, cols[i]);
    }
  }

  /** The global search's text: one marker per column. */
  lemma AnyColumnMarkers(d: Dialect, cols: seq<string>)
    requires forall i :: 0 <= i < |cols| ==> Plain(cols[i])
    ensures WellMarked(d, Sql(d, cols, AnyColumnLike), |cols|)
  {
    LikeTestsMarkers(d, cols);
    OrJoinMarkers(d, LikeTests(d, cols));
    ParenthesesMarkers(d, Join(LikeTests(d, cols), " OR "));
  }

  /** A condition's text holds as many markers as its weight. */
  lemma SqlMarkers(d: Dialect, cols: seq<string>, c: Condition)
    requires forall i :: 0 <= i < |cols| ==> Plain(cols[i])
    requires c.ColumnLike? ==> Plain(c.column)
    ensures WellMarked(d, Sql(d, cols, c), Weight(cols, c))
  {
    match c
    case ColumnLike(column) =>
      LikeTestMarkers(d, column);
    case AnyColumnLike =>
      AnyColumnMarkers(d, cols);
  }

  lemma TextsWellMarked(d: Dialect, cols: seq<string>, conditions: seq<Condition>)
    requires forall i :: 0 <= i < |cols| ==> Plain(cols[i])
    requires forall i :: 0 <= i < |conditions| ==> conditions[i].ColumnLike? ==> Plain(conditions[i].column)
    ensures forall i :: 0 <= i < |conditions| ==> WellMarked(d, Texts(d, cols, conditions)[i], Weight(cols, conditions[i]))
  {
    forall i | 0 <= i < |conditions| ensures WellMarked(d, Texts(d, cols, conditions)[i], Weight(cols, conditions[i])) {
      SqlMarkers(d, cols, conditions[i]);
    }
  }

  lemma {:induction false} SumWeights(d: Dialect, cols: seq<string>, conditions: seq<Condition>, texts: seq<string>)
    requires |texts| == |conditions|
    requires forall i :: 0 <= i < |texts| ==> Markers(d, texts[i]) == Weight(cols, conditions[i])
    ensures SumMarkers(d, texts) == TotalWeight(cols, conditions)
    decreases |texts|
  {
    if texts != [] {
      SumWeights(d, cols, conditions[1..], texts[1..]);
    }
  }

  /** Joining well-marked texts with `AND` keeps their markers, added up. */
  lemma JoinWellMarked(d: Dialect, cols: seq<string>, conditions: seq<Condition>, texts: seq<string>)
    requires |texts| == |conditions| && texts != []
    requires forall i :: 0 <= i < |texts| ==> WellMarked(d, texts[i], Weight(cols, conditions[i]))
    ensures WellMarked(d, Join(texts, " AND "), TotalWeight(cols, conditions))
  {
    var sep := " AND ";
    assert Plain(sep);
    assert Closed(texts);
    SumWeights(d, cols, conditions, texts);
    JoinMarkers(d, texts, sep);
    if d == Postgres {
      JoinChars(texts, sep, '?');
    }
  }

  /** `t` is not empty and does not end in the `%` of a marker. */
  predicate Clear(t: string)
  {
    t != [] && t[|t| - 1] != '%'
  }

  /** The `WHERE` clause holds the markers of its conditions, added up. */
  lemma TextsMarkers(d: Dialect, cols: seq<string>, conditions: seq<Condition>)
    requires forall i :: 0 <= i < |cols| ==> Plain(cols[i])
    requires forall i :: 0 <= i < |conditions| ==> conditions[i].ColumnLike? ==> Plain(conditions[i].column)
    ensures Markers(d, WhereClause(d, cols, conditions)) == TotalWeight(cols, conditions)
    ensures d == Postgres ==> '?' !in WhereClause(d, cols, conditions)
    ensures Clear(WhereClause(d, cols, conditions)) <==> conditions != []
  {
    if conditions != [] {
      var texts := Texts(d, cols, conditions);
      var joined := Join(texts, " AND ");
      TextsWellMarked(d, cols, conditions);
      JoinWellMarked(d, cols, conditions, texts);
      WhereKeywordMarkers(d, joined);
      assert ("WHERE " + joined)[|"WHERE " + joined| - 1] == joined[|joined| - 1];
    }
  }

  /** The `WHERE` keyword adds no marker. */
  lemma WhereKeywordMarkers(d: Dialect, t: string)
    ensures Markers(d, "WHERE " + t) == Markers(d, t)
    ensures d == Postgres && '?' !in t ==> '?' !in "WHERE " + t
  {
    PlainNoMarkers(d, "WHERE ");
    MarkersAppend(d, "WHERE ", t);
  }

  lemma {:induction false} TotalWeightAppend(cols: seq<string>, a: seq<Condition>, b: seq<Condition>)
    ensures TotalWeight(cols, a + b) == TotalWeight(cols, a) + TotalWeight(cols, b)
    decreases |a|
  {
    if a == [] {
      assert a + b == b;
    } else {
      TotalWeightAppend(cols, a[1..], b);
      assert (a + b)[1..] == a[1..] + b;
    }
  }

  lemma {:induction false} ColumnsWeight(cols: seq<string>, idx: seq<nat>)
    requires forall j :: 0 <= j < |idx| ==> idx[j] < |cols|
    ensures TotalWeight(cols, ColumnsOf(cols, idx)) == |idx|
    decreases |idx|
  {
    if idx != [] {
      var p := idx[..|idx| - 1];
      ColumnsWeight(cols, p);
      TotalWeightAppend(cols, ColumnsOf(cols, p), [ColumnLike(cols[idx[|idx| - 1]])]);
      assert ColumnsOf(cols, idx) == ColumnsOf(cols, p) + [ColumnLike(cols[idx[|idx| - 1]])];
    }
  }

  /** The global search weighs one marker per column, as many as its parameters. */
  lemma GlobalWeight(cols: seq<string>, globalRaw: string)
    ensures TotalWeight(cols, GlobalConditions(globalRaw)) == |GlobalParams(cols, globalRaw)|
  {
    if !IsBlank(globalRaw) {
      assert TotalWeight(cols, [AnyColumnLike]) == |cols| + TotalWeight(cols, []);
    }
  }

  /** Every column the search's conditions test is one of the plain listed columns. */
  lemma ConditionsPlain(cols: seq<string>, g: seq<Condition>, filled: seq<nat>)
    requires forall i :: 0 <= i < |cols| ==> Plain(cols[i])
    requires forall j :: 0 <= j < |filled| ==> filled[j] < |cols|
    requires forall i :: 0 <= i < |g| ==> g[i] == AnyColumnLike
    ensures var conditions := g + ColumnsOf(cols, filled);
      forall i :: 0 <= i < |conditions| ==> conditions[i].ColumnLike? ==> Plain(conditions[i].column)
  {
    var cs := ColumnsOf(cols, filled);
    forall i | 0 <= i < |g + cs| ensures (g + cs)[i].ColumnLike? ==> Plain((g + cs)[i].column) {
      if i >= |g| {
        assert (g + cs)[i] == cs[i - |g|];
      }
    }
  }

  /** The search's conditions weigh as many markers as it has parameters, and test plain columns. */
  lemma SearchWeight(cols: seq<string>, globalRaw: string, boxes: seq<string>)
    requires |boxes| == |cols| && forall i :: 0 <= i < |cols| ==> Plain(cols[i])
    ensures var conditions := GlobalConditions(globalRaw) + ColumnConditions(cols, boxes, |cols|);
      && TotalWeight(cols, conditions) == |GlobalParams(cols, globalRaw) + ColumnParams(cols, boxes, |cols|)|
      && forall i :: 0 <= i < |conditions| ==> conditions[i].ColumnLike? ==> Plain(conditions[i].column)
  {
    var g := GlobalConditions(globalRaw);
    var filled := FilledBoxes(boxes, |cols|);
    var cs := ColumnsOf(cols, filled);
    assert TotalWeight(cols, g + cs) == TotalWeight(cols, g) + |filled| by {
      ColumnsWeight(cols, filled);
      TotalWeightAppend(cols, g, cs);
    }
    GlobalWeight(cols, globalRaw);
    assert |ColumnParams(cols, boxes, |cols|)| == |filled|;
    ConditionsPlain(cols, g, filled);
  }

  /** The search's `WHERE` clause holds exactly one marker per parameter on either back end. */
  lemma WhereMarkers(d: Dialect, cols: seq<string>, globalRaw: string, boxes: seq<string>)
    requires |boxes| == |cols| && forall i :: 0 <= i < |cols| ==> Plain(cols[i])
    ensures var conditions := GlobalConditions(globalRaw) + ColumnConditions(cols, boxes, |cols|);
      var params := GlobalParams(cols, globalRaw) + ColumnParams(cols, boxes, |cols|);
      && Markers(d, WhereClause(d, cols, conditions)) == |params|
      && (d == Postgres ==> '?' !in WhereClause(d, cols, conditions))
      && (Clear(WhereClause(d, cols, conditions)) <==> conditions != [])
  {
    SearchWeight(cols, globalRaw, boxes);
    TextsMarkers(d, cols, GlobalConditions(globalRaw) + ColumnConditions(cols, boxes, |cols|));
  }

  lemma CountHeadPlain()
    ensures Plain(CountHead())
  {
    var select, total, from := "SELECT COUNT(*) ", "as total ", "FROM asistencias ";
    assert Plain(select) by { PlainByIndex(select); }
    assert Plain(total) by { PlainByIndex(total); }
    assert Plain(from) by { PlainByIndex(from); }
    PlainAppend(select, total);
    PlainAppend(select + total, from);
  }

  /**
   * The search's filtered count query still holds one marker per parameter after `adapt_query`:
   * on PostgreSQL there is no `?` that adapting would turn into an extra one.
   */
  lemma SearchMarkers(d: Dialect, cols: seq<string>, globalRaw: string, boxes: seq<string>)
    requires |boxes| == |cols| && forall i :: 0 <= i < |cols| ==> Plain(cols[i])
    ensures var conditions := GlobalConditions(globalRaw) + ColumnConditions(cols, boxes, |cols|);
      var params := GlobalParams(cols, globalRaw) + ColumnParams(cols, boxes, |cols|);
      Markers(d, AdaptQuery(d, CountQuery(d, cols, conditions))) == |params|
  {
    var conditions := GlobalConditions(globalRaw) + ColumnConditions(cols, boxes, |cols|);
    var w := WhereClause(d, cols, conditions);
    WhereMarkers(d, cols, globalRaw, boxes);
    CountHeadPlain();
    PlainNoMarkers(d, CountHead());
    MarkersAppend(d, CountHead(), w);
    if d == Postgres {
      assert '?' !in CountHead() + w;
      AdaptQueryKeepsFormatMarkers(CountHead() + w);
    }
  }

  /** The sort clause shared by the grid's page query and the export's query. */
  function OrderBy(column: string, direction: string): string
  {
    " ORDER BY " + column + " " + direction
  }

  /** The page bounds of the grid's page query: `LIMIT ? OFFSET ?`, bound to `length` and `start`. */
  function PageBounds(): string
  {
    " LIMIT " + "?" + " OFFSET " + "?"
  }

  /** The grid's page query up to its `WHERE` clause: the listed columns. */
  function PageHead(cols: seq<string>): string
  {
    "SELECT " + Join(cols, ", ") + " FROM asistencias "
  }

  /** The grid's page query, before `adapt_query`: the listed columns, the search, the sort, the page. */
  function PageQuery(d: Dialect, cols: seq<string>, conditions: seq<Condition>, column: string, direction: string): string
  {
    PageHead(cols) + WhereClause(d, cols, conditions) + OrderBy(column, direction) + PageBounds()
  }

  /** The export's query up to its `WHERE` clause. */
  function ExportHead(): string
  {
    "SELECT * FROM asistencias"
  }

  /** The export's ` WHERE` clause: added only when there are conditions. */
  function ExportWhere(d: Dialect, cols: seq<string>, conditions: seq<Condition>): string
  {
    if conditions == [] then [] else " " + WhereClause(d, cols, conditions)
  }

  /** The export's query, before `adapt_query`: the search and the sort. */
  function ExportQuery(d: Dialect, cols: seq<string>, conditions: seq<Condition>, column: string, direction: string): string
  {
    ExportHead() + ExportWhere(d, cols, conditions) + OrderBy(column, direction)
  }

  lemma OrderByPlain(column: string, direction: string)
    requires Plain(column) && Plain(direction)
    ensures Plain(OrderBy(column, direction)) && OrderBy(column, direction) != []
  {
    assert Plain(" ORDER BY ") by { PlainByIndex(" ORDER BY "); }
    PlainAppend(" ORDER BY ", column);
    PlainAppend(" ORDER BY " + column, " ");
    PlainAppend(" ORDER BY " + column + " ", direction);
  }

  lemma BoundWordsPlain()
    ensures Plain(" LIMIT ") && Plain(" OFFSET ")
  {
    PlainByIndex(" LIMIT ");
    PlainByIndex(" OFFSET ");
  }

  lemma PageBoundsNoPercent()
    ensures '%' !in PageBounds()
  {
    var limit, offset, mark := " LIMIT ", " OFFSET ", "?";
    BoundWordsPlain();
    assert '%' !in mark;
    assert '%' !in limit + mark;
    assert '%' !in limit + mark + offset;
    assert '%' !in limit + mark + offset + mark;
  }

  /** The page bounds hold two `?` markers and no `%`. */
  lemma PageBoundsMarkers()
    ensures Occurrences('?', PageBounds()) == 2 && '%' !in PageBounds()
  {
    PageBoundsNoPercent();
    var limit, offset, mark := " LIMIT ", " OFFSET ", "?";
    BoundWordsPlain();
    assert Occurrences('?', mark) == 1 by {
      assert Occurrences('?', mark) == 1 + Occurrences('?', []);
    }
    PlainNoMarkers(Sqlite, limit);
    PlainNoMarkers(Sqlite, offset);
    OccurrencesAppend('?', limit, mark);
    OccurrencesAppend('?', limit + mark, offset);
    OccurrencesAppend('?', limit + mark + offset, mark);
  }

  lemma PageHeadPlain(cols: seq<string>)
    requires forall i :: 0 <= i < |cols| ==> Plain(cols[i])
    ensures Plain(PageHead(cols))
  {
    var joined := Join(cols, ", ");
    assert Plain(joined) by {
      JoinChars(cols, ", ", '?');
      JoinChars(cols, ", ", '%');
    }
    var select, from := "SELECT ", " FROM asistencias ";
    assert Plain(select) by { PlainByIndex(select); }
    assert Plain(from) by { PlainByIndex(from); }
    PlainAppend(select, joined);
    PlainAppend(select + joined, from);
  }

  /**
   * Markers of a query made of a plain head, a clause, a plain non-empty middle and a tail without
   * `%`: only the clause and the tail contribute, and no marker is split between parts.
   */
  lemma {:induction false} SurroundedMarkers(d: Dialect, head: string, w: string, mid: string, tail: string)
    requires Plain(head) && head != [] && Plain(mid) && mid != [] && '%' !in tail
    requires w == [] || Clear(w)
    ensures Markers(d, head + w + mid + tail) == Markers(d, w) + Markers(d, tail)
    ensures Occurrences('?', head + w + mid + tail) == Occurrences('?', w) + Occurrences('?', tail)
  {
    PlainNoMarkers(d, head);
    PlainNoMarkers(d, mid);
    PlainNoMarkers(Sqlite, head);
    PlainNoMarkers(Sqlite, mid);
    MarkersAppend(d, head, w);
    assert (head + w)[|head + w| - 1] != '%' by {
      if w == [] { assert head + w == head; }
    }
    MarkersAppend(d, head + w, mid);
    MarkersAppend(d, head + w + mid, tail);
    OccurrencesAppend('?', head, w);
    OccurrencesAppend('?', head + w, mid);
    OccurrencesAppend('?', head + w + mid, tail);
  }

  /**
   * The grid's page query, after `adapt_query`, holds one marker per search parameter and two more
   * for the page bounds, which is what `params + [length, start]` supplies.
   */
  lemma PageQueryMarkers(d: Dialect, cols: seq<string>, globalRaw: string, boxes: seq<string>, column: string, direction: string)
    requires |boxes| == |cols| && forall i :: 0 <= i < |cols| ==> Plain(cols[i])
    requires Plain(column) && Plain(direction)
    ensures var conditions := GlobalConditions(globalRaw) + ColumnConditions(cols, boxes, |cols|);
      var params := GlobalParams(cols, globalRaw) + ColumnParams(cols, boxes, |cols|);
      Markers(d, AdaptQuery(d, PageQuery(d, cols, conditions, column, direction))) == |params| + 2
  {
    var conditions := GlobalConditions(globalRaw) + ColumnConditions(cols, boxes, |cols|);
    var head := PageHead(cols);
    var w := WhereClause(d, cols, conditions);
    var q := PageQuery(d, cols, conditions, column, direction);
    WhereMarkers(d, cols, globalRaw, boxes);
    PageHeadPlain(cols);
    OrderByPlain(column, direction);
    PageBoundsMarkers();
    FormatMarkersNone(PageBounds());
    SurroundedMarkers(d, head, w, OrderBy(column, direction), PageBounds());
    assert q == head + w + OrderBy(column, direction) + PageBounds();
    if d == Postgres {
      OccurrencesNone('?', w);
      AdaptQueryAddsMarkers(q);
    } else {
      assert Markers(d, PageBounds()) == 2;
    }
  }

  /** The export's `WHERE` clause holds the markers of the bare clause and stays clear of `%`. */
  lemma ExportWhereMarkers(d: Dialect, cols: seq<string>, conditions: seq<Condition>)
    requires conditions != [] ==> Clear(WhereClause(d, cols, conditions))
    requires d == Postgres ==> '?' !in WhereClause(d, cols, conditions)
    ensures var w := ExportWhere(d, cols, conditions);
      && Markers(d, w) == Markers(d, WhereClause(d, cols, conditions))
      && (w == [] || Clear(w)) && (d == Postgres ==> '?' !in w)
  {
    if conditions != [] {
      var bare := WhereClause(d, cols, conditions);
      PlainNoMarkers(d, " ");
      MarkersAppend(d, " ", bare);
      assert (" " + bare)[|" " + bare| - 1] == bare[|bare| - 1];
    }
  }

  lemma ExportHeadPlain()
    ensures Plain(ExportHead()) && ExportHead() != []
  {
    PlainByIndex(ExportHead());
  }

  /** Before adapting, the export's query holds the markers of its conditions and, on PostgreSQL, no `?`. */
  lemma ExportQueryRaw(d: Dialect, cols: seq<string>, conditions: seq<Condition>, column: string, direction: string)
    requires forall i :: 0 <= i < |cols| ==> Plain(cols[i])
    requires forall i :: 0 <= i < |conditions| ==> conditions[i].ColumnLike? ==> Plain(conditions[i].column)
    requires Plain(column) && Plain(direction)
    ensures var q := ExportQuery(d, cols, conditions, column, direction);
      Markers(d, q) == TotalWeight(cols, conditions) && (d == Postgres ==> '?' !in q)
  {
    var w := ExportWhere(d, cols, conditions);
    var order := OrderBy(column, direction);
    var q := ExportQuery(d, cols, conditions, column, direction);
    TextsMarkers(d, cols, conditions);
    ExportWhereMarkers(d, cols, conditions);
    ExportHeadPlain();
    OrderByPlain(column, direction);
    assert q == ExportHead() + w + order + [];
    SurroundedMarkers(d, ExportHead(), w, order, []);
    if d == Postgres {
      OccurrencesNone('?', w);
      OccurrencesNone('?', q);
    }
  }

  /** The export's query, after `adapt_query`, holds exactly one marker per search parameter. */
  lemma ExportQueryMarkers(d: Dialect, cols: seq<string>, globalRaw: string, boxes: seq<string>, column: string, direction: string)
    requires |boxes| == |cols| && forall i :: 0 <= i < |cols| ==> Plain(cols[i])
    requires Plain(column) && Plain(direction)
    ensures var conditions := GlobalConditions(globalRaw) + ColumnConditions(cols, boxes, |cols|);
      var params := GlobalParams(cols, globalRaw) + ColumnParams(cols, boxes, |cols|);
      Markers(d, AdaptQuery(d, ExportQuery(d, cols, conditions, column, direction))) == |params|
  {
    var conditions := GlobalConditions(globalRaw) + ColumnConditions(cols, boxes, |cols|);
    var q := ExportQuery(d, cols, conditions, column, direction);
    SearchWeight(cols, globalRaw, boxes);
    ExportQueryRaw(d, cols, conditions, column, direction);
    if d == Postgres {
      AdaptQueryKeepsFormatMarkers(q);
    }
  }
}
