/** The attendance form: its ten required fields, the optional event date and the follow-up page. */
module Registration {
  import opened Wrappers
  import opened Strings
  import opened Records

  /** `campos_requeridos`, in the order the form handler checks them. */
  const RequiredFields: seq<string> := [
    "nombre_evento", "dictado_por", "docente", "programa_docente",
    "numero_identificacion", "nombre_completo", "programa_estudiante",
    "modalidad", "tipo_asistente", "sede"
  ]

  /** The one event whose attendees are not asked for an evaluation. */
  const GroupVisit: string := "Visita de Grupos"

  /** `request.form.get(name, "")`: a missing field reads as the empty string. */
  function Field(form: map<string, string>, name: string): string
  {
    if name in form then form[name] else ""
  }

  /**
   * The `fecha_evento` field after `.strip()`: empty, rejected by `strptime(..., "%Y-%m-%d")`,
   * or a valid date.
   */
  datatype DateInput = Blank | Malformed | Given(date: EventDate)

  /** The date a row is stored with: today's when the field is empty, none when it is malformed. */
  function ResolveDate(input: DateInput, today: EventDate): (d: Option<EventDate>)
    ensures d.None? <==> input.Malformed?
    ensures input.Given? ==> d == Some(input.date)
    ensures input.Blank? ==> d == Some(today)
  {
    match input
    case Blank => Some(today)
    case Malformed => None
    case Given(date) => Some(date)
  }

  /** The row a form describes: each required field stripped, in column order, plus the date. */
  function FormEntry(form: map<string, string>, date: EventDate): Entry
  {
    Entry(
      Trim(Field(form, "nombre_evento")), Trim(Field(form, "dictado_por")),
      Trim(Field(form, "docente")), Trim(Field(form, "programa_docente")),
      Trim(Field(form, "numero_identificacion")), Trim(Field(form, "nombre_completo")),
      Trim(Field(form, "programa_estudiante")), Trim(Field(form, "modalidad")),
      Trim(Field(form, "tipo_asistente")), Trim(Field(form, "sede")),
      date)
  }

  /** Builds the row from the checked values (`datos`), which come in `RequiredFields` order. */
  function EntryOf(values: seq<string>, date: EventDate): Entry
    requires |values| == |RequiredFields|
  {
    Entry(values[0], values[1], values[2], values[3], values[4], values[5], values[6],
          values[7], values[8], values[9], date)
  }

  /** No field of `fields` is blank once stripped. */
  predicate Complete(form: map<string, string>, fields: seq<string>)
  {
    forall i :: 0 <= i < |fields| ==> !IsBlank(Field(form, fields[i]))
  }

  /** `fields[k]` is the first of `fields` that is blank once stripped. */
  predicate FirstBlank(form: map<string, string>, fields: seq<string>, k: int)
  {
    && 0 <= k < |fields|
    && IsBlank(Field(form, fields[k]))
    && forall j :: 0 <= j < k ==> !IsBlank(Field(form, fields[j]))
  }

  /**
   * The required-field loop over `campos_requeridos`: either the first field that is blank once
   * stripped, or the stripped values of all of them in order (`datos`).
   */
  method CheckRequired(form: map<string, string>, fields: seq<string>) returns (r: Result<seq<string>, string>)
    ensures r.Ok? <==> Complete(form, fields)
    ensures r.Ok? ==> |r.value| == |fields|
    ensures r.Ok? ==> forall i :: 0 <= i < |fields| ==> r.value[i] == Trim(Field(form, fields[i]))
    ensures r.Err? ==> exists k :: FirstBlank(form, fields, k) && r.error == fields[k]
  {
    var values: seq<string> := [];
    var i := 0;
    while i < |fields|
      invariant 0 <= i <= |fields| && |values| == i
      invariant forall j :: 0 <= j < i ==> !IsBlank(Field(form, fields[j]))
      invariant forall j :: 0 <= j < i ==> values[j] == Trim(Field(form, fields[j]))
    {
      var raw := Field(form, fields[i]);
      BlankIffTrimEmpty(raw);
      var value := Trim(raw);
      if |value| == 0 {
        assert IsBlank(raw);
        assert FirstBlank(form, fields, i);
        assert !Complete(form, fields);
        return Err(fields[i]);
      }
      values := values + [value];
      i := i + 1;
    }
    assert Complete(form, fields);
    r := Ok(values);
  }

  /** The checked values describe the same row as the form. */
  lemma EntryOfForm(form: map<string, string>, values: seq<string>, date: EventDate)
    requires |values| == |RequiredFields|
    requires forall i :: 0 <= i < |RequiredFields| ==> values[i] == Trim(Field(form, RequiredFields[i]))
    ensures EntryOf(values, date) == FormEntry(form, date)
  {
  }

  /** Where the browser goes after a successful registration. */
  datatype NextPage = EvaluationForm(attendanceId: nat) | SuccessPage

  /** What the form handler answers. */
  datatype RegisterOutcome =
    | MissingField(field: string)
    | MalformedDate
    | AlreadyRegistered(key: Key)
    | Registered(id: nat, next: NextPage)
}
