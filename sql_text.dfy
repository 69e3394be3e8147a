/**
 * Query text shared by the two database back ends: `adapt_query`, and counting the parameter
 * markers a query holds (`?` for SQLite, `%s` for PostgreSQL).
 */
module SqlText {
  import opened Strings

  datatype Dialect = Sqlite | Postgres

  /**
   * `adapt_query`: queries are written for SQLite; on PostgreSQL every `?` becomes `%s` and every
   * `SUBSTR(` becomes `SUBSTRING(`.
   */
  function AdaptQuery(d: Dialect, q: string): string
  {
    match d
    case Sqlite => q
    case Postgres => Replace(Replace(q, "?", "%s"), "SUBSTR(", "SUBSTRING(")
  }

  /** The number of parameter markers the driver of `d` sees in `s`. */
  function Markers(d: Dialect, s: string): nat
  {
    match d
    case Sqlite => Occurrences('?', s)
    case Postgres => FormatMarkers(s)
  }

  /** Text free of `?` and `%` holds no marker of either driver. */
  predicate Plain(s: string)
  {
    '?' !in s && '%' !in s
  }

  /** Plainness checked character by character, which is how literals are best shown plain. */
  lemma PlainByIndex(s: string)
    requires forall i :: 0 <= i < |s| ==> s[i] != '?' && s[i] != '%'
    ensures Plain(s)
  {
  }

  lemma PlainAppend(a: string, b: string)
    requires Plain(a) && Plain(b)
    ensures Plain(a + b)
  {
  }

  lemma PlainNoMarkers(d: Dialect, s: string)
    requires Plain(s)
    ensures Markers(d, s) == 0
  {
    match d
    case Sqlite => OccurrencesNone('?', s);
    case Postgres => FormatMarkersNone(s);
  }

  /** Adapting keeps the SQLite text and, on PostgreSQL, leaves no `?` behind. */
  lemma AdaptQuerySpec(d: Dialect, q: string)
    ensures d == Sqlite ==> AdaptQuery(d, q) == q
    ensures d == Postgres ==> '?' !in AdaptQuery(d, q)
  {
    if d == Postgres {
      ReplaceExcludes(q, "?", "%s", '?');
      ReplaceExcludes(Replace(q, "?", "%s"), "SUBSTR(", "SUBSTRING(", '?');
    }
  }

  /**
   * A query written with `?` markers and no `%` keeps one marker per `?` on both back ends, so the
   * parameter list that fits it on SQLite fits it on PostgreSQL too.
   */
  lemma AdaptQueryMarkers(d: Dialect, q: string)
    requires '%' !in q
    ensures Markers(d, AdaptQuery(d, q)) == Occurrences('?', q)
  {
    if d == Postgres {
      FormatMarkersFromQuestionMarks(q);
      FormatMarkersNone(q);
      FormatMarkersReplace(Replace(q, "?", "%s"), "SUBSTR(", "SUBSTRING(");
    }
  }

  /**
   * A query already written with `%s` markers and no `?` (the PostgreSQL search conditions) passes
   * through adapting with its markers unchanged.
   */
  lemma AdaptQueryKeepsFormatMarkers(q: string)
    requires '?' !in q
    ensures Markers(Postgres, AdaptQuery(Postgres, q)) == Markers(Postgres, q)
  {
    OccurrencesNone('?', q);
    FormatMarkersFromQuestionMarks(q);
    FormatMarkersReplace(Replace(q, "?", "%s"), "SUBSTR(", "SUBSTRING(");
  }

  /**
   * On PostgreSQL, adapting turns each `?` into one more `%s` beside those the query already holds,
   * so a query may mix both kinds of marker.
   */
  lemma AdaptQueryAddsMarkers(q: string)
    ensures Markers(Postgres, AdaptQuery(Postgres, q)) == Occurrences('?', q) + Markers(Postgres, q)
  {
    FormatMarkersFromQuestionMarks(q);
    FormatMarkersReplace(Replace(q, "?", "%s"), "SUBSTR(", "SUBSTRING(");
  }

  lemma MarkersAppend(d: Dialect, a: string, b: string)
    requires a == [] || a[|a| - 1] != '%'
    ensures Markers(d, a + b) == Markers(d, a) + Markers(d, b)
  {
    match d
    case Sqlite => OccurrencesAppend('?', a, b);
    case Postgres => FormatMarkersAppend(a, b);
  }

  /** The markers of each part, added up. */
  function SumMarkers(d: Dialect, parts: seq<string>): nat
    decreases |parts|
  {
    if parts == [] then 0 else Markers(d, parts[0]) + SumMarkers(d, parts[1..])
  }

  /** Parts of one marker each hold as many markers as there are parts. */
  lemma {:induction false} SumOnes(d: Dialect, parts: seq<string>)
    requires forall i :: 0 <= i < |parts| ==> Markers(d, parts[i]) == 1
    ensures SumMarkers(d, parts) == |parts|
    decreases |parts|
  {
    if parts != [] {
      SumOnes(d, parts[1..]);
    }
  }

  /** No part is empty or ends in `%`. */
  predicate Closed(parts: seq<string>)
  {
    forall i :: 0 <= i < |parts| ==> parts[i] != [] && parts[i][|parts[i]| - 1] != '%'
  }

  /** Joining with a plain separator adds no marker and splits none. */
  lemma {:induction false} JoinMarkers(d: Dialect, parts: seq<string>, sep: string)
    requires Closed(parts) && Plain(sep) && sep != []
    ensures Markers(d, Join(parts, sep)) == SumMarkers(d, parts)
    ensures parts != [] ==> Join(parts, sep) != [] && Join(parts, sep)[|Join(parts, sep)| - 1] != '%'
    decreases |parts|
  {
    if |parts| == 1 {
      assert SumMarkers(d, parts[1..]) == 0;
    } else if |parts| > 1 {
      var rest := Join(parts[1..], sep);
      JoinMarkers(d, parts[1..], sep);
      PlainNoMarkers(d, sep);
      MarkersAppend(d, parts[0], sep);
      MarkersAppend(d, parts[0] + sep, rest);
      assert Join(parts, sep) == parts[0] + sep + rest;
    }
  }

  /** A character of a joined text comes from a part or from the separator. */
  lemma {:induction false} JoinChars(parts: seq<string>, sep: string, c: char)
    requires c !in sep && forall i :: 0 <= i < |parts| ==> c !in parts[i]
    ensures c !in Join(parts, sep)
    decreases |parts|
  {
    if |parts| > 1 {
      JoinChars(parts[1..], sep, c);
      assert Join(parts, sep) == parts[0] + sep + Join(parts[1..], sep);
    }
  }
}
