/**
 * `normalize_text` and how the attendance search compares a stored value with a search term:
 * `LIKE '%term%'` against the stored value as each database prepares it.
 */
module Normalization {
  import opened Seqs
  import opened Strings

  predicate IsUpperAscii(c: char)
  {
    'A' <= c <= 'Z'
  }

  /** `str.lower()` on one character of the Latin-1 range; characters above it are kept. */
  function LowerLatin1(c: char): (r: char)
    ensures IsUpperAscii(c) ==> r as int == c as int + 32
    ensures r != c ==> IsUpperAscii(c) || ('\U{C0}' <= c <= '\U{DE}' && c != '\U{D7}')
  {
    if IsUpperAscii(c) || ('\U{C0}' <= c <= '\U{DE}' && c != '\U{D7}') then (c as int + 32) as char else c
  }

  /**
   * What remains of a lower-case character after canonical decomposition and dropping every
   * non-ASCII code point: the base letter of an accented Latin-1 letter, the character itself when
   * it is ASCII, and nothing otherwise.
   */
  function AsciiBase(c: char): (r: string)
    ensures |r| <= 1 && (c < '\U{80}' ==> r == [c])
    ensures forall i :: 0 <= i < |r| ==> r[i] < '\U{80}'
  {
    if c < '\U{80}' then [c]
    else if '\U{E0}' <= c <= '\U{E5}' then "a"
    else if c == '\U{E7}' then "c"
    else if '\U{E8}' <= c <= '\U{EB}' then "e"
    else if '\U{EC}' <= c <= '\U{EF}' then "i"
    else if c == '\U{F1}' then "n"
    else if '\U{F2}' <= c <= '\U{F6}' then "o"
    else if '\U{F9}' <= c <= '\U{FC}' then "u"
    else if c == '\U{FD}' || c == '\U{FF}' then "y"
    else []
  }

  function NormalizeChar(c: char): string
  {
    AsciiBase(LowerLatin1(c))
  }

  /** `normalize_text`: lower-case, decompose, keep the ASCII part. */
  function NormalizeText(s: string): (r: string)
    ensures |r| <= |s|
    decreases |s|
  {
    if s == [] then [] else NormalizeText(s[..|s| - 1]) + NormalizeChar(s[|s| - 1])
  }

  lemma {:induction false} NormalizeAppend(a: string, b: string)
    ensures NormalizeText(a + b) == NormalizeText(a) + NormalizeText(b)
    decreases |b|
  {
    if b == [] {
      assert a + b == a;
    } else {
      var p, tail := b[..|b| - 1], NormalizeChar(b[|b| - 1]);
      assert NormalizeText(a + b) == NormalizeText(a + p) + tail by {
        assert (a + b)[..|a + b| - 1] == a + p;
      }
      assert NormalizeText(a + p) == NormalizeText(a) + NormalizeText(p) by {
        NormalizeAppend(a, p);
      }
      AppendAssoc(NormalizeText(a), NormalizeText(p), tail);
    }
  }

  /** The result is ASCII with no capital letters. */
  lemma {:induction false} NormalizeAsciiLower(s: string)
    ensures forall i :: 0 <= i < |NormalizeText(s)| ==>
      NormalizeText(s)[i] < '\U{80}' && !IsUpperAscii(NormalizeText(s)[i])
    decreases |s|
  {
    if s != [] {
      NormalizeAsciiLower(s[..|s| - 1]);
      var c := LowerLatin1(s[|s| - 1]);
      assert !IsUpperAscii(c);
      var r := NormalizeText(s);
      var p := NormalizeText(s[..|s| - 1]);
      forall i | 0 <= i < |r| ensures r[i] < '\U{80}' && !IsUpperAscii(r[i]) {
        if i < |p| {
          assert r[i] == p[i];
        }
      }
    }
  }

  /** Normalising twice changes nothing more. */
  lemma {:induction false} NormalizeIdempotent(s: string)
    ensures NormalizeText(NormalizeText(s)) == NormalizeText(s)
    decreases |s|
  {
    if s != [] {
      var p := s[..|s| - 1];
      NormalizeIdempotent(p);
      var tail := NormalizeChar(s[|s| - 1]);
      NormalizeAppend(NormalizeText(p), tail);
      NormalizeAsciiLower(s);
      assert tail == [] || tail == [tail[0]];
      if tail != [] {
        assert tail[0] == NormalizeText(s)[|NormalizeText(s)| - 1];
        assert NormalizeText(tail) == NormalizeText([]) + NormalizeChar(tail[0]);
      }
    }
  }

  /** On ASCII text, normalising only folds the capitals, as SQLite's `LOWER()` does. */
  lemma {:induction false} NormalizeAscii(s: string)
    requires forall i :: 0 <= i < |s| ==> s[i] < '\U{80}'
    ensures NormalizeText(s) == SqliteLower(s)
    decreases |s|
  {
    if s != [] {
      NormalizeAscii(s[..|s| - 1]);
      assert SqliteLower(s) == SqliteLower(s[..|s| - 1]) + [SqliteLower(s)[|s| - 1]];
    }
  }

  /**
   * SQL `LIKE` with `%` (any run of characters) and `_` (any one character) and no escape
   * character.
   */
  predicate Like(s: string, p: string)
    decreases |s| + |p|
  {
    if p == [] then s == []
    else if p[0] == '%' then Like(s, p[1..]) || (s != [] && Like(s[1..], p))
    else s != [] && (p[0] == '_' || p[0] == s[0]) && Like(s[1..], p[1..])
  }

  lemma {:induction false} LikeAnything(s: string)
    ensures Like(s, "%")
    decreases |s|
  {
    if s != [] {
      LikeAnything(s[1..]);
    }
  }

  /** A pattern matches itself followed by anything, once a `%` is put after it. */
  lemma {:induction false} LikeSelfThenAnything(s: string, tail: string)
    ensures Like(s + tail, s + "%")
    decreases |s|
  {
    if s == [] {
      LikeAnything(tail);
      assert s + tail == tail && s + "%" == "%";
    } else {
      LikeSelfThenAnything(s[1..], tail);
      assert (s + tail)[1..] == s[1..] + tail && (s + "%")[1..] == s[1..] + "%";
      if s[0] == '%' {
        var p := s + "%";
        assert Like((s + tail)[1..], p[1..]);
        assert Like((s + tail)[1..], p) by {
          assert p[0] == '%';
        }
      }
    }
  }

  /** A leading `%` lets any text precede a match. */
  lemma {:induction false} LikeAfterAnything(head: string, s: string, q: string)
    requires Like(s, q)
    ensures Like(head + s, "%" + q)
    decreases |head|
  {
    assert ("%" + q)[1..] == q;
    if head != [] {
      LikeAfterAnything(head[1..], s, q);
      assert (head + s)[1..] == head[1..] + s;
    } else {
      assert head + s == s;
    }
  }

  /**
   * PostgreSQL's `LIKE` without an `ESCAPE` clause: as `Like`, except that a backslash makes the
   * character after it match only itself. A pattern ending in a lone backslash is an error in
   * PostgreSQL; it matches nothing here.
   */
  predicate LikeEscaped(s: string, p: string)
    decreases |s| + |p|
  {
    if p == [] then s == []
    else if p[0] == '\\' then |p| >= 2 && s != [] && s[0] == p[1] && LikeEscaped(s[1..], p[2..])
    else if p[0] == '%' then LikeEscaped(s, p[1..]) || (s != [] && LikeEscaped(s[1..], p))
    else s != [] && (p[0] == '_' || p[0] == s[0]) && LikeEscaped(s[1..], p[1..])
  }

  /** Without a backslash in the pattern, PostgreSQL's `LIKE` is the plain one. */
  lemma {:induction false} LikeEscapedPlain(s: string, p: string)
    requires '\\' !in p
    ensures LikeEscaped(s, p) <==> Like(s, p)
    decreases |s| + |p|
  {
    if p != [] {
      assert '\\' !in p[1..];
      if p[0] == '%' {
        LikeEscapedPlain(s, p[1..]);
        if s != [] {
          LikeEscapedPlain(s[1..], p);
        }
      } else if s != [] {
        LikeEscapedPlain(s[1..], p[1..]);
      }
    }
  }

  /** `LIKE '%t%'`: the pattern the search builds around a normalised term. */
  function Containing(t: string): string
  {
    "%" + t + "%"
  }

  /** Any text in which `t` occurs matches `Containing(t)`. */
  lemma ContainsMatches(head: string, t: string, tail: string)
    ensures Like(head + t + tail, Containing(t))
  {
    LikeSelfThenAnything(t, tail);
    LikeAfterAnything(head, t + tail, t + "%");
    assert head + t + tail == head + (t + tail);
    assert Containing(t) == "%" + (t + "%");
  }

  /** SQLite's built-in `LOWER()`: only the ASCII capitals are folded. */
  function SqliteLower(s: string): (r: string)
    ensures |r| == |s|
    ensures forall i :: 0 <= i < |s| ==> r[i] == (if IsUpperAscii(s[i]) then (s[i] as int + 32) as char else s[i])
  {
    seq(|s|, i requires 0 <= i < |s| => if IsUpperAscii(s[i]) then (s[i] as int + 32) as char else s[i])
  }

  /**
   * The SQLite branch of the search as written: `LOWER(column) LIKE '%' || normalize_text(term) || '%'`.
   * `LIKE`'s own ASCII case folding is moot here since both sides are already lower-case.
   */
  predicate SqliteMatch(value: string, term: string)
  {
    Like(SqliteLower(value), Containing(NormalizeText(term)))
  }

  /** The five lower-case vowels the PostgreSQL branch replaces, before lowering. */
  function StripLowerVowels(s: string): string
  {
    Replace(Replace(Replace(Replace(Replace(s,
      "\U{E1}", "a"), "\U{E9}", "e"), "\U{ED}", "i"), "\U{F3}", "o"), "\U{FA}", "u")
  }

  /**
   * PostgreSQL's `LOWER()` on the Latin-1 range, character by character. This definition is the
   * reference; `PostgresMissesCapitalAccent` shows what it means for the search.
   */
  function PostgresLower(s: string): (r: string)
    ensures |r| == |s|
  {
    seq(|s|, i requires 0 <= i < |s| => LowerLatin1(s[i]))
  }

  /**
   * The PostgreSQL branch as written:
   * `LOWER(REPLACE(... REPLACE(column, 'á','a') ..., 'ú','u')) LIKE '%' || normalize_text(term) || '%'`.
   */
  predicate PostgresMatch(value: string, term: string)
  {
    LikeEscaped(PostgresLower(StripLowerVowels(value)), Containing(NormalizeText(term)))
  }

  /**
   * On SQLite, a stored value with an accented letter is not found even by its own exact text:
   * the term loses its accent, the column keeps it.
   */
  lemma SqliteMissesAccentedValue()
    ensures NormalizeText("\U{E9}") == "e"
    ensures !SqliteMatch("\U{E9}", "\U{E9}")
  {
    assert NormalizeText("\U{E9}") == NormalizeText([]) + NormalizeChar('\U{E9}');
    assert SqliteLower("\U{E9}") == "\U{E9}";
    assert Containing("e") == "%e%";
    assert !Like("\U{E9}", "e%");
    assert !Like([], "e%");
  }

  /**
   * On PostgreSQL, a capital accented vowel is not replaced (only the lower-case ones are), and
   * `LOWER` then leaves an accented letter that the normalised term cannot match.
   */
  lemma PostgresMissesCapitalAccent()
    ensures NormalizeText("\U{C1}") == "a"
    ensures !PostgresMatch("\U{C1}", "\U{C1}")
  {
    assert NormalizeText("\U{C1}") == NormalizeText([]) + NormalizeChar('\U{C1}');
    assert StripLowerVowels("\U{C1}") == "\U{C1}";
    assert PostgresLower("\U{C1}") == "\U{E1}";
    assert Containing("a") == "%a%";
    assert !LikeEscaped("\U{E1}", "a%");
    assert !LikeEscaped([], "a%");
  }

  /** The search text `a\b` is already normal: normalisation keeps the backslash. */
  lemma NormalizeBackslashText()
    ensures NormalizeText("a\\b") == "a\\b"
  {
    assert NormalizeText("a\\b") == NormalizeText("a\\") + NormalizeChar('b');
    assert NormalizeText("a\\") == NormalizeText("a") + NormalizeChar('\\');
    assert NormalizeText("a") == NormalizeText([]) + NormalizeChar('a');
  }

  /** A column value without accents or capitals, such as "ab", reaches `LIKE` unchanged. */
  lemma PlainColumnKept()
    ensures PostgresLower(StripLowerVowels("ab")) == "ab"
    ensures SqliteLower("ab") == "ab"
  {
    assert StripLowerVowels("ab") == "ab";
    assert PostgresLower("ab") == "ab";
  }

  /** With the backslash as escape, `%a\b%` matches "ab". */
  lemma EscapedPatternMatches()
    ensures LikeEscaped("ab", Containing("a\\b"))
  {
    var p := Containing("a\\b");
    assert p == "%a\\b%";
    assert LikeEscaped([], "%");
    assert LikeEscaped("b", "\\b%");
    assert LikeEscaped("ab", p[1..]);
  }

  /** Without an escape, `%a\b%` needs a backslash in the text and misses "ab". */
  lemma PlainPatternMisses()
    ensures !Like("ab", Containing("a\\b"))
  {
    assert Containing("a\\b") == "%a\\b%";
    assert !Like("b", "\\b%");
    assert !Like([], "a\\b%");
    assert !Like("b", "a\\b%");
  }

  /**
   * A backslash in the search text escapes the next character of the pattern on PostgreSQL only:
   * the text `a\b` finds the stored value "ab" there, and does not on SQLite.
   */
  lemma BackslashEscapesOnPostgres()
    ensures NormalizeText("a\\b") == "a\\b"
    ensures PostgresMatch("ab", "a\\b")
    ensures !SqliteMatch("ab", "a\\b")
  {
    NormalizeBackslashText();
    PlainColumnKept();
    EscapedPatternMatches();
    PlainPatternMisses();
  }

  /** The search as intended: both the column and the term normalised the same way. */
  predicate IntendedMatch(value: string, term: string)
  {
    Like(NormalizeText(value), Containing(NormalizeText(term)))
  }

  /**
   * Intended search: a value is found by any part of it, whatever the case and accents of either
   * side.
   */
  lemma IntendedMatchContains(head: string, part: string, tail: string)
    ensures IntendedMatch(head + part + tail, part)
  {
    NormalizeAppend(head + part, tail);
    NormalizeAppend(head, part);
    ContainsMatches(NormalizeText(head), NormalizeText(part), NormalizeText(tail));
  }

  /** Intended search: the counterexamples above are found. */
  lemma IntendedMatchAccented()
    ensures IntendedMatch("\U{E9}", "\U{E9}") && IntendedMatch("\U{C1}", "\U{C1}")
  {
    IntendedMatchContains([], "\U{E9}", []);
    IntendedMatchContains([], "\U{C1}", []);
    assert [] + "\U{E9}" + [] == "\U{E9}";
    assert [] + "\U{C1}" + [] == "\U{C1}";
  }

  /** On ASCII values the SQLite search as written agrees with the intended one. */
  lemma SqliteAgreesOnAscii(value: string, term: string)
    requires forall i :: 0 <= i < |value| ==> value[i] < '\U{80}'
    ensures SqliteMatch(value, term) <==> IntendedMatch(value, term)
  {
    NormalizeAscii(value);
  }
}
