/**
 * The evaluation that follows a registration: five ratings from 1 to 5, an optional comment, and
 * at most one evaluation per attendance row.
 */
module Evaluation {
  import opened Wrappers
  import opened Seqs
  import opened Strings
  import opened Registration

  /** `campos_evaluacion`, in the order they are checked and stored. */
  const RatingFields: seq<string> := [
    "calidad_contenido", "metodologia", "lenguaje_comprensible",
    "manejo_grupo", "solucion_inquietudes"
  ]

  /**
   * One rating field: after stripping it must be non-empty, all decimal digits, and its value
   * between 1 and 5; `None` when the form is refused for it.
   */
  function RatingValue(raw: string): (r: Option<int>)
    ensures r.Some? ==> 1 <= r.value <= 5
  {
    var t := Trim(raw);
    if IsDigits(t) && 1 <= DigitsValue(t) <= 5 then Some(DigitsValue(t)) else None
  }

  /** `n` zero digits. */
  function Zeros(n: nat): (z: string)
    ensures |z| == n && forall i :: 0 <= i < n ==> z[i] == '0'
  {
    if n == 0 then [] else Zeros(n - 1) + "0"
  }

  /** A digit string whose value is 0 is all zeros. */
  lemma {:induction false} ZeroValue(s: string)
    requires forall i :: 0 <= i < |s| ==> IsDigit(s[i])
    requires DigitsValue(s) == 0
    ensures s == Zeros(|s|)
    decreases |s|
  {
    if s != [] {
      ZeroValue(s[..|s| - 1]);
      assert s == s[..|s| - 1] + [s[|s| - 1]];
    }
  }

  /** A digit string whose value is below 10 is zeros followed by that one digit. */
  lemma SmallValue(s: string)
    requires IsDigits(s) && DigitsValue(s) < 10
    ensures s == Zeros(|s| - 1) + [DigitChar(DigitsValue(s))]
  {
    var p, last := s[..|s| - 1], s[|s| - 1];
    assert s == p + [last];
    assert DigitsValue(s) == DigitsValue(p) * 10 + (last as int - '0' as int);
    assert DigitsValue(p) == 0;
    ZeroValue(p);
    assert last == DigitChar(DigitsValue(s));
  }

  lemma {:induction false} ZerosValue(n: nat)
    ensures DigitsValue(Zeros(n)) == 0
  {
    if n > 0 {
      ZerosValue(n - 1);
      assert Zeros(n)[..n - 1] == Zeros(n - 1);
    }
  }

  /** An accepted rating is, once stripped, some zeros followed by the digit of its value. */
  lemma RatingValueSound(raw: string, v: int)
    requires RatingValue(raw) == Some(v)
    ensures 1 <= v <= 5 && |Trim(raw)| >= 1 && Trim(raw) == Zeros(|Trim(raw)| - 1) + [DigitChar(v)]
  {
    SmallValue(Trim(raw));
  }

  /** Zeros followed by one digit from 1 to 5 are accepted as that digit. */
  lemma RatingValueComplete(raw: string, v: int, z: nat)
    requires 1 <= v <= 5 && Trim(raw) == Zeros(z) + [DigitChar(v)]
    ensures RatingValue(raw) == Some(v)
  {
    var t := Trim(raw);
    ZerosValue(z);
    assert t[..|t| - 1] == Zeros(z);
  }

  /**
   * A rating is accepted exactly when, once stripped, it is some zeros followed by one digit from
   * 1 to 5, and its value is that digit.
   */
  lemma RatingValueSpec(raw: string, v: int)
    ensures RatingValue(raw) == Some(v) <==>
      1 <= v <= 5 && exists z: nat :: z <= |Trim(raw)| && Trim(raw) == Zeros(z) + [DigitChar(v)]
  {
    var t := Trim(raw);
    if RatingValue(raw) == Some(v) {
      RatingValueSound(raw, v);
      var z: nat := |t| - 1;
      assert z <= |t| && t == Zeros(z) + [DigitChar(v)];
    }
    if 1 <= v <= 5 && exists z: nat :: z <= |t| && t == Zeros(z) + [DigitChar(v)] {
      var z: nat :| z <= |t| && t == Zeros(z) + [DigitChar(v)];
      RatingValueComplete(raw, v, z);
    }
  }

  /** What `str(v)` of a valid rating reads back as, with any surrounding whitespace. */
  lemma RatingOfShow(v: int, pad: string)
    requires 1 <= v <= 5 && forall i :: 0 <= i < |pad| ==> IsSpace(pad[i])
    ensures RatingValue(pad + Show(v) + pad) == Some(v)
  {
    var s := pad + Show(v) + pad;
    TrimStartSpec(s);
    TrimEndSpec(TrimStart(s));
    assert Show(v) == [DigitChar(v)];
    assert s[|pad|] == DigitChar(v);
    assert |TrimStart(s)| == |pad| + 1 by {
      assert !IsSpace(s[|pad|]);
      var u := TrimStart(s);
      assert |u| >= |pad| + 1;
      assert u[0] == s[|s| - |u|] && !IsSpace(u[0]);
      assert forall i :: 0 <= i < |pad| ==> IsSpace(s[i]) by {
        forall i | 0 <= i < |pad| ensures IsSpace(s[i]) {
          assert s[i] == pad[i];
        }
      }
    }
    assert TrimStart(s) == [DigitChar(v)] + pad;
    assert Trim(s) == [DigitChar(v)] by {
      var u := TrimStart(s);
      assert |TrimEnd(u)| >= 1 by {
        assert !IsSpace(u[0]);
      }
      var w := TrimEnd(u);
      assert w[|w| - 1] == u[|w| - 1] && !IsSpace(u[|w| - 1]);
      assert forall i :: 1 <= i < |u| ==> IsSpace(u[i]) by {
        forall i | 1 <= i < |u| ensures IsSpace(u[i]) {
          assert u[i] == pad[i - 1];
        }
      }
    }
  }

  /** `fields[k]` is the first of `fields` whose rating is refused. */
  predicate FirstInvalid(form: map<string, string>, fields: seq<string>, k: int)
  {
    && 0 <= k < |fields|
    && RatingValue(Field(form, fields[k])).None?
    && forall j :: 0 <= j < k ==> RatingValue(Field(form, fields[j])).Some?
  }

  /**
   * The rating loop: either the first refused field, or the five values in field order
   * (`evaluacion`).
   */
  method CheckRatings(form: map<string, string>, fields: seq<string>) returns (r: Result<seq<int>, string>)
    ensures r.Ok? <==> forall i :: 0 <= i < |fields| ==> RatingValue(Field(form, fields[i])).Some?
    ensures r.Ok? ==> |r.value| == |fields|
    ensures r.Ok? ==> forall i :: 0 <= i < |fields| ==> Some(r.value[i]) == RatingValue(Field(form, fields[i]))
    ensures r.Err? ==> exists k :: FirstInvalid(form, fields, k) && r.error == fields[k]
  {
    var values: seq<int> := [];
    var i := 0;
    while i < |fields|
      invariant 0 <= i <= |fields| && |values| == i
      invariant forall j :: 0 <= j < i ==> Some(values[j]) == RatingValue(Field(form, fields[j]))
    {
      var rating := RatingValue(Field(form, fields[i]));
      if rating.None? {
        assert FirstInvalid(form, fields, i);
        return Err(fields[i]);
      }
      values := values + [rating.value];
      i := i + 1;
    }
    r := Ok(values);
  }

  /** A stored row of `evaluaciones_capacitaciones`. */
  datatype Evaluation = Evaluation(id: nat, attendanceId: nat, ratings: seq<int>, comment: Option<string>)

  function DifferentAttendance(a: Evaluation, b: Evaluation): bool
  {
    a.attendanceId != b.attendanceId
  }

  function DifferentEvaluationIds(a: Evaluation, b: Evaluation): bool
  {
    a.id != b.id
  }

  /** Five ratings, each between 1 and 5: what the table's CHECK constraints admit. */
  predicate WellRated(e: Evaluation)
  {
    |e.ratings| == |RatingFields| && forall i :: 0 <= i < |e.ratings| ==> 1 <= e.ratings[i] <= 5
  }

  /** What the evaluation form answers. */
  datatype EvaluationOutcome = InvalidRating(field: string) | AlreadyEvaluated | Recorded(id: nat)

  /** The stripped comment, or no comment when it is empty. */
  function CommentOf(form: map<string, string>): (c: Option<string>)
    ensures c.None? <==> IsBlank(Field(form, "comentarios"))
    ensures c.Some? ==> c.value == Trim(Field(form, "comentarios")) && c.value != [] && !IsSpace(c.value[0])
  {
    TrimSpec(Field(form, "comentarios"));
    BlankIffTrimEmpty(Field(form, "comentarios"));
    var t := Trim(Field(form, "comentarios"));
    if t == [] then None else Some(t)
  }

  class EvaluationTable {
    var rows: seq<Evaluation>
    var nextId: nat

    /** Ids distinct and below the counter, one evaluation per attendance, ratings in range. */
    ghost predicate Valid()
      reads this
    {
      && Pairwise(rows, DifferentEvaluationIds)
      && (forall i :: 0 <= i < |rows| ==> rows[i].id < nextId && WellRated(rows[i]))
      && Pairwise(rows, DifferentAttendance)
    }

    constructor ()
      ensures Valid() && rows == [] && nextId == 1
    {
      rows := [];
      nextId := 1;
    }

    /** Whether `attendanceId` already has an evaluation. */
    predicate Evaluated(attendanceId: nat)
      reads this
    {
      exists i :: 0 <= i < |rows| && rows[i].attendanceId == attendanceId
    }

    /**
     * The evaluation form handler: the first refused rating is reported with nothing stored; an
     * attendance that already has an evaluation is refused by the unique constraint with nothing
     * stored; otherwise one row with the five values and the comment is appended.
     */
    method Submit(attendanceId: nat, form: map<string, string>) returns (out: EvaluationOutcome)
      requires Valid()
      modifies this
      ensures Valid()
      ensures out.InvalidRating? <==> exists k :: FirstInvalid(form, RatingFields, k)
      ensures out.InvalidRating? ==> exists k :: FirstInvalid(form, RatingFields, k) && out.field == RatingFields[k]
      ensures out.AlreadyEvaluated? <==> !out.InvalidRating? && old(Evaluated(attendanceId))
      ensures !out.Recorded? ==> rows == old(rows) && nextId == old(nextId)
      ensures out.Recorded? ==>
        && out.id == old(nextId) && nextId == old(nextId) + 1
        && |rows| == |old(rows)| + 1 && rows[..|old(rows)|] == old(rows)
        && rows[|rows| - 1].id == out.id && rows[|rows| - 1].attendanceId == attendanceId
        && rows[|rows| - 1].comment == CommentOf(form)
        && forall i :: 0 <= i < |RatingFields| ==>
             Some(rows[|rows| - 1].ratings[i]) == RatingValue(Field(form, RatingFields[i]))
    {
      var checked := CheckRatings(form, RatingFields);
      if checked.Err? {
        return InvalidRating(checked.error);
      }
      assert forall k :: !FirstInvalid(form, RatingFields, k);
      if exists i :: 0 <= i < |rows| && rows[i].attendanceId == attendanceId {
        return AlreadyEvaluated;
      }
      var e := Evaluation(nextId, attendanceId, checked.value, CommentOf(form));
      assert WellRated(e);
      var t := rows + [e];
      forall i, j | 0 <= i < j < |t|
        ensures DifferentEvaluationIds(t[i], t[j]) && DifferentAttendance(t[i], t[j])
      {
        assert t[i] == rows[i];
      }
      rows := t;
      nextId := nextId + 1;
      out := Recorded(e.id);
    }
  }
}
