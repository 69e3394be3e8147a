/**
 * Python string operations the application relies on, restated over `seq<char>`:
 * `strip`, `isdigit`, `int`, `str`, `replace` and `join`, plus counts of SQL placeholders.
 */
module Strings {
  import opened Wrappers

  /** The characters `str.isspace()` accepts among the first 256 code points. */
  predicate IsSpace(c: char)
  {
    c == ' ' || ('\t' <= c <= '\r') || ('\U{1C}' <= c <= '\U{1F}') || c == '\U{85}' || c == '\U{A0}'
  }

  /** Where the text of `s` starts, looking from index `i` on. */
  function TextStart(s: string, i: nat): (k: nat)
    requires i <= |s|
    ensures i <= k <= |s|
    decreases |s| - i
  {
    if i < |s| && IsSpace(s[i]) then TextStart(s, i + 1) else i
  }

  /** Where the text of `s[..n]` ends. */
  function TextEnd(s: string, n: nat): (k: nat)
    requires n <= |s|
    ensures k <= n
  {
    if n > 0 && IsSpace(s[n - 1]) then TextEnd(s, n - 1) else n
  }

  /** `str.lstrip()`. */
  function TrimStart(s: string): string
  {
    s[TextStart(s, 0)..]
  }

  /** `str.rstrip()`. */
  function TrimEnd(s: string): string
  {
    s[..TextEnd(s, |s|)]
  }

  /** `str.strip()`. */
  function Trim(s: string): string
  {
    TrimEnd(TrimStart(s))
  }

  lemma {:induction false} TextStartSpec(s: string, i: nat)
    requires i <= |s|
    ensures forall j :: i <= j < TextStart(s, i) ==> IsSpace(s[j])
    ensures TextStart(s, i) == |s| || !IsSpace(s[TextStart(s, i)])
    decreases |s| - i
  {
    if i < |s| && IsSpace(s[i]) {
      TextStartSpec(s, i + 1);
    }
  }

  lemma {:induction false} TextEndSpec(s: string, n: nat)
    requires n <= |s|
    ensures forall j :: TextEnd(s, n) <= j < n ==> IsSpace(s[j])
    ensures TextEnd(s, n) == 0 || !IsSpace(s[TextEnd(s, n) - 1])
  {
    if n > 0 && IsSpace(s[n - 1]) {
      TextEndSpec(s, n - 1);
    }
  }

  /** `lstrip` drops the leading whitespace and nothing else. */
  lemma TrimStartSpec(s: string)
    ensures |TrimStart(s)| <= |s| && TrimStart(s) == s[|s| - |TrimStart(s)|..]
    ensures forall i :: 0 <= i < |s| - |TrimStart(s)| ==> IsSpace(s[i])
    ensures TrimStart(s) == [] || !IsSpace(TrimStart(s)[0])
  {
    TextStartSpec(s, 0);
  }

  /** `rstrip` drops the trailing whitespace and nothing else. */
  lemma TrimEndSpec(s: string)
    ensures |TrimEnd(s)| <= |s| && TrimEnd(s) == s[..|TrimEnd(s)|]
    ensures forall i :: |TrimEnd(s)| <= i < |s| ==> IsSpace(s[i])
    ensures TrimEnd(s) == [] || !IsSpace(TrimEnd(s)[|TrimEnd(s)| - 1])
  {
    TextEndSpec(s, |s|);
  }

  /** `strip` leaves no whitespace at either end, and keeps text that has none there. */
  lemma TrimSpec(s: string)
    ensures Trim(s) == [] || (!IsSpace(Trim(s)[0]) && !IsSpace(Trim(s)[|Trim(s)| - 1]))
    ensures s == [] || (!IsSpace(s[0]) && !IsSpace(s[|s| - 1])) ==> Trim(s) == s
  {
    var t := TrimStart(s);
    TrimStartSpec(s);
    TrimEndSpec(t);
    if TrimEnd(t) != [] {
      assert TrimEnd(t)[0] == t[0];
    }
  }

  /** A form value that is empty once stripped (`if not valor` after `.strip()`): all whitespace. */
  predicate IsBlank(s: string)
  {
    TextStart(s, 0) == |s|
  }

  /** Blank means exactly that stripping leaves nothing. */
  lemma BlankIffTrimEmpty(s: string)
    ensures IsBlank(s) <==> |Trim(s)| == 0
  {
    TextStartSpec(s, 0);
    var t := TrimStart(s);
    TextEndSpec(t, |t|);
    assert |t| > 0 ==> t[0] == s[TextStart(s, 0)];
  }

  /** A value is blank exactly when every one of its characters is whitespace. */
  lemma BlankIffAllSpace(s: string)
    ensures IsBlank(s) <==> forall i :: 0 <= i < |s| ==> IsSpace(s[i])
  {
    TextStartSpec(s, 0);
  }

  predicate IsDigit(c: char)
  {
    '0' <= c <= '9'
  }

  /** `str.isdigit()` on ASCII text: non-empty and made of decimal digits only. */
  predicate IsDigits(s: string)
  {
    |s| > 0 && forall i :: 0 <= i < |s| ==> IsDigit(s[i])
  }

  /** The value `int()` gives a string of decimal digits (leading zeros allowed). */
  function DigitsValue(s: string): nat
    requires forall i :: 0 <= i < |s| ==> IsDigit(s[i])
    decreases |s|
  {
    if s == [] then 0
    else
      assert IsDigit(s[|s| - 1]);
      DigitsValue(s[..|s| - 1]) * 10 + (s[|s| - 1] as int - '0' as int)
  }

  function DigitChar(d: nat): (c: char)
    requires d < 10
    ensures IsDigit(c) && c as int - '0' as int == d
  {
    ('0' as int + d) as char
  }

  /** `str(n)` for a non-negative integer; reading it back gives `n`. */
  function Show(n: nat): (r: string)
    ensures IsDigits(r) && DigitsValue(r) == n
    ensures r[0] != '0' || n == 0
    decreases n
  {
    if n < 10 then [DigitChar(n)] else Show(n / 10) + [DigitChar(n % 10)]
  }

  /** `str(i)` for any integer. */
  function ShowInt(i: int): string
  {
    if i < 0 then "-" + Show(-i) else Show(i)
  }

  /**
   * `int(s)` on a string: surrounding whitespace, an optional sign, then ASCII decimal digits.
   * `None` stands for the `ValueError` that Python raises on anything else.
   */
  function ParseInt(s: string): Option<int>
  {
    var t := Trim(s);
    if |t| > 0 && (t[0] == '-' || t[0] == '+') && IsDigits(t[1..]) then
      var v: int := DigitsValue(t[1..]);
      Some(if t[0] == '-' then -v else v)
    else if IsDigits(t) then Some(DigitsValue(t))
    else None
  }

  /** `int(str(i)) == i`. */
  lemma ParseShow(i: int)
    ensures ParseInt(ShowInt(i)) == Some(i)
  {
    var r := ShowInt(i);
    TrimSpec(r);
    if i < 0 {
      assert r[1..] == Show(-i);
    }
  }

  /** `str.replace(pattern, replacement)`: every non-overlapping occurrence, scanning left to right. */
  function Replace(s: string, pattern: string, replacement: string): string
    requires pattern != []
    decreases |s|
  {
    if s == [] then []
    else if |pattern| <= |s| && s[..|pattern|] == pattern then
      replacement + Replace(s[|pattern|..], pattern, replacement)
    else [s[0]] + Replace(s[1..], pattern, replacement)
  }

  lemma ReplaceHead(s: string, pattern: string, replacement: string)
    requires pattern != [] && replacement != [] && s != []
    ensures Replace(s, pattern, replacement) != []
    ensures Replace(s, pattern, replacement)[0] ==
              if |pattern| <= |s| && s[..|pattern|] == pattern then replacement[0] else s[0]
  {
  }

  /**
   * After the replacement the character `c` is absent, when the replacement text does not hold it and `c`
   * is either the whole pattern or absent from the input.
   */
  lemma {:induction false} ReplaceExcludes(s: string, pattern: string, replacement: string, c: char)
    requires pattern != [] && c !in replacement
    requires pattern == [c] || c !in s
    ensures c !in Replace(s, pattern, replacement)
    decreases |s|
  {
    if s != [] {
      if |pattern| <= |s| && s[..|pattern|] == pattern {
        ReplaceExcludes(s[|pattern|..], pattern, replacement, c);
      } else {
        assert s[0] != c;
        ReplaceExcludes(s[1..], pattern, replacement, c);
      }
    }
  }

  /** How many times `c` occurs in `s`. */
  function Occurrences(c: char, s: string): (n: nat)
    ensures n <= |s|
    decreases |s|
  {
    if s == [] then 0 else (if s[0] == c then 1 else 0) + Occurrences(c, s[1..])
  }

  /** `c` occurs nowhere exactly when its count is zero. */
  lemma {:induction false} OccurrencesNone(c: char, s: string)
    ensures Occurrences(c, s) == 0 <==> c !in s
    decreases |s|
  {
    if s != [] {
      OccurrencesNone(c, s[1..]);
      assert s == [s[0]] + s[1..];
    }
  }

  lemma {:induction false} OccurrencesAppend(c: char, a: string, b: string)
    ensures Occurrences(c, a + b) == Occurrences(c, a) + Occurrences(c, b)
    decreases |a|
  {
    if a == [] {
      assert a + b == b;
    } else {
      assert (a + b)[1..] == a[1..] + b;
      OccurrencesAppend(c, a[1..], b);
    }
  }

  /** How many `%s` placeholders (the PostgreSQL driver's parameter marker) `s` holds. */
  function FormatMarkers(s: string): (n: nat)
    decreases |s|
  {
    if |s| < 2 then 0
    else (if s[0] == '%' && s[1] == 's' then 1 else 0) + FormatMarkers(s[1..])
  }

  /** Text without `%` holds no `%s` marker. */
  lemma {:induction false} FormatMarkersNone(s: string)
    requires '%' !in s
    ensures FormatMarkers(s) == 0
    decreases |s|
  {
    if |s| >= 2 {
      FormatMarkersNone(s[1..]);
    }
  }

  lemma FormatMarkersCons(c: char, s: string)
    ensures FormatMarkers([c] + s) == (if s != [] && c == '%' && s[0] == 's' then 1 else 0) + FormatMarkers(s)
  {
    assert ([c] + s)[1..] == s;
  }

  /** Markers add up across a concatenation unless the left part ends in the `%` of a marker. */
  lemma {:induction false} FormatMarkersAppend(a: string, b: string)
    requires a == [] || a[|a| - 1] != '%'
    ensures FormatMarkers(a + b) == FormatMarkers(a) + FormatMarkers(b)
    decreases |a|
  {
    if a == [] {
      assert a + b == b;
    } else {
      assert a + b == [a[0]] + (a[1..] + b);
      FormatMarkersCons(a[0], a[1..] + b);
      FormatMarkersCons(a[0], a[1..]);
      assert a == [a[0]] + a[1..];
      FormatMarkersAppend(a[1..], b);
    }
  }

  /** Replacing text free of `%` whose first character is not `s` leaves the `%s` count alone. */
  lemma {:induction false} FormatMarkersReplace(s: string, pattern: string, replacement: string)
    requires pattern != [] && replacement != []
    requires '%' !in pattern && '%' !in replacement && pattern[0] != 's' && replacement[0] != 's'
    ensures FormatMarkers(Replace(s, pattern, replacement)) == FormatMarkers(s)
    decreases |s|
  {
    if s != [] {
      if |pattern| <= |s| && s[..|pattern|] == pattern {
        var rest := s[|pattern|..];
        FormatMarkersReplace(rest, pattern, replacement);
        FormatMarkersNone(pattern);
        FormatMarkersNone(replacement);
        FormatMarkersAppend(replacement, Replace(rest, pattern, replacement));
        assert s == pattern + rest;
        FormatMarkersAppend(pattern, rest);
      } else {
        var rest := s[1..];
        FormatMarkersReplace(rest, pattern, replacement);
        if rest != [] {
          ReplaceHead(rest, pattern, replacement);
        }
        FormatMarkersCons(s[0], Replace(rest, pattern, replacement));
        assert s == [s[0]] + rest;
        FormatMarkersCons(s[0], rest);
      }
    }
  }

  /** Turning every `?` into `%s` adds one `%s` marker per `?` and removes none. */
  lemma {:induction false} FormatMarkersFromQuestionMarks(s: string)
    ensures FormatMarkers(Replace(s, "?", "%s")) == Occurrences('?', s) + FormatMarkers(s)
    decreases |s|
  {
    if s != [] {
      var rest := s[1..];
      FormatMarkersFromQuestionMarks(rest);
      var tail := Replace(rest, "?", "%s");
      assert s == [s[0]] + rest;
      FormatMarkersCons(s[0], rest);
      if s[0] == '?' {
        assert Replace(s, "?", "%s") == ['%'] + (['s'] + tail);
        FormatMarkersCons('%', ['s'] + tail);
        FormatMarkersCons('s', tail);
      } else {
        assert Replace(s, "?", "%s") == [s[0]] + tail;
        if rest != [] {
          ReplaceHead(rest, "?", "%s");
        }
        FormatMarkersCons(s[0], tail);
      }
    }
  }

  /** Python's `sep.join(parts)`. */
  function Join(parts: seq<string>, sep: string): string
    decreases |parts|
  {
    if parts == [] then []
    else if |parts| == 1 then parts[0]
    else parts[0] + sep + Join(parts[1..], sep)
  }
}
