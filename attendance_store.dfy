/**
 * The `asistencias` table as the application changes it: registration from the form, the start-up
 * removal of duplicates, the retention clean-up and the spreadsheet import.
 */
module AttendanceStore {
  import opened Wrappers
  import opened Strings
  import opened Records
  import opened Registration
  import opened Dedup
  import opened Retention
  import opened SheetImport

  /** What the retention clean-up reports: rows deleted and the first year kept (`ano_limite`). */
  datatype CleanupReport = CleanupReport(removed: nat, cutoffYear: int)

  /** The import's tallies and its `errores` list. */
  datatype ImportReport = ImportReport(inserted: nat, duplicates: nat, notes: seq<ImportNote>)

  class AttendanceTable {
    /** The rows in insertion order. */
    var rows: seq<Record>
    /** The next AUTOINCREMENT value. */
    var nextId: nat

    /** Primary keys are distinct and below the counter. */
    ghost predicate Valid()
      reads this
    {
      DistinctIds(rows) && IdsBelow(rows, nextId)
    }

    constructor ()
      ensures Valid() && rows == [] && nextId == 1
    {
      rows := [];
      nextId := 1;
    }

    /**
     * The form handler: the first blank required field, then a malformed date, then an existing
     * (identification, event, date) triple are refused with nothing stored; otherwise one row is
     * appended with the next id, and the attendee is sent to the evaluation of that row unless the
     * event is the group visit.
     */
    method Register(form: map<string, string>, dateInput: DateInput, today: EventDate) returns (out: RegisterOutcome)
      requires Valid()
      modifies this
      ensures Valid()
      ensures out.MissingField? <==> !Complete(form, RequiredFields)
      ensures out.MissingField? ==> exists k :: FirstBlank(form, RequiredFields, k) && out.field == RequiredFields[k]
      ensures out.MalformedDate? <==> Complete(form, RequiredFields) && dateInput.Malformed?
      ensures out.AlreadyRegistered? <==>
        Complete(form, RequiredFields) && !dateInput.Malformed? &&
        KeyOf(FormEntry(form, ResolveDate(dateInput, today).value)) in Keys(old(rows))
      ensures out.AlreadyRegistered? ==> out.key == KeyOf(FormEntry(form, ResolveDate(dateInput, today).value))
      ensures !out.Registered? ==> rows == old(rows) && nextId == old(nextId)
      ensures out.Registered? ==>
        var e := FormEntry(form, ResolveDate(dateInput, today).value);
        && out.id == old(nextId) && nextId == old(nextId) + 1
        && rows == old(rows) + [Record(out.id, e)]
        && (out.next == SuccessPage <==> e.eventName == GroupVisit)
        && (out.next.EvaluationForm? ==> out.next.attendanceId == out.id)
      ensures UniqueKeys(old(rows)) ==> UniqueKeys(rows)
    {
      var checked := CheckRequired(form, RequiredFields);
      if checked.Err? {
        return MissingField(checked.error);
      }
      var date := ResolveDate(dateInput, today);
      if date.None? {
        return MalformedDate;
      }
      EntryOfForm(form, checked.value, date.value);
      var e := EntryOf(checked.value, date.value);
      if KeyOf(e) in Keys(rows) {
        return AlreadyRegistered(KeyOf(e));
      }
      var id := Insert(e);
      var next := if e.eventName != GroupVisit then EvaluationForm(id) else SuccessPage;
      out := Registered(id, next);
    }

    /**
     * One `cursor.execute` of the import's insert and how it ends: stored with the next id, refused
     * by the unique index (a duplicate), or failed for another reason; only a stored row changes
     * the table.
     */
    method ExecuteInsert(row: SheetRow) returns (outcome: RowOutcome)
      requires Valid()
      modifies this
      ensures Valid()
      ensures (outcome, Keys(rows)) == Step(Keys(old(rows)), row)
      ensures outcome == Inserted ==> rows == old(rows) + [Record(old(nextId), row.entry)] && nextId == old(nextId) + 1
      ensures outcome != Inserted ==> rows == old(rows) && nextId == old(nextId)
      ensures UniqueKeys(old(rows)) ==> UniqueKeys(rows)
    {
      match row
      case Unwritable(_) =>
        outcome := Failed;
      case Cells(e) =>
        if KeyOf(e) in Keys(rows) {
          outcome := Duplicate;
        } else {
          var _ := Insert(e);
          outcome := Inserted;
        }
    }

    /**
     * `INSERT INTO asistencias`: the row is stored with the counter's id, which is handed back
     * (`lastrowid` on SQLite, `RETURNING id` on PostgreSQL). Both callers insert only a triple that
     * is not stored yet.
     */
    method Insert(e: Entry) returns (id: nat)
      requires Valid() && KeyOf(e) !in Keys(rows)
      modifies this
      ensures Valid()
      ensures id == old(nextId) && nextId == old(nextId) + 1
      ensures rows == old(rows) + [Record(id, e)]
      ensures Keys(rows) == Keys(old(rows)) + {KeyOf(e)}
      ensures UniqueKeys(old(rows)) ==> UniqueKeys(rows)
    {
      var r := Record(nextId, e);
      AppendFreshId(rows, r, nextId);
      if UniqueKeys(rows) {
        AppendFreshKey(rows, r);
      }
      KeysAppend(rows, r);
      rows, nextId := rows + [r], nextId + 1;
      id := r.id;
    }

    /**
     * The start-up clean-up before the unique index is created: when some triple occurs more than
     * once, every row that is not the lowest id of its triple is deleted and the count is reported;
     * otherwise nothing changes and nothing is reported.
     */
    method DeduplicateAtStartup() returns (removed: Option<nat>)
      requires Valid()
      modifies this
      ensures Valid() && nextId == old(nextId)
      ensures rows == Deduplicated(old(rows))
      ensures UniqueKeys(rows) && Keys(rows) == Keys(old(rows))
      ensures removed.Some? <==> !UniqueKeys(old(rows))
      ensures removed.Some? ==> removed.value == |old(rows)| - |rows| > 0
      ensures removed.None? ==> rows == old(rows)
    {
      DeduplicatedSpec(rows);
      DeduplicatedRemovesIffDuplicates(rows);
      if UniqueKeys(rows) {
        DeduplicatedIdentity(rows);
        return None;
      }
      var before := |rows|;
      IdsBelowSubset(Deduplicated(rows), rows, nextId);
      rows := Deduplicated(rows);
      removed := Some(before - |rows|);
    }

    /**
     * `limpiar_datos_antiguos`: deletes the rows whose event year falls before the first year of
     * the trailing window of `keepYears` years ending at `currentYear`, and reports how many went.
     */
    method PurgeOldRecords(keepYears: int, currentYear: int) returns (report: CleanupReport)
      requires Valid()
      modifies this
      ensures Valid() && nextId == old(nextId)
      ensures report.cutoffYear == YearWindow(keepYears, currentYear).first
      ensures rows == Retained(old(rows), report.cutoffYear)
      ensures report.removed == |Expired(old(rows), report.cutoffYear)| == |old(rows)| - |rows|
      ensures report.removed == 0 <==> rows == old(rows)
      ensures forall i :: 0 <= i < |rows| ==> rows[i].entry.date.year >= report.cutoffYear
      ensures UniqueKeys(old(rows)) ==> UniqueKeys(rows)
    {
      var cutoff := YearWindow(keepYears, currentYear).first;
      RetentionSpec(rows, cutoff);
      var expired := Expired(rows, cutoff);
      if |expired| > 0 {
        rows := Retained(rows, cutoff);
      }
      IdsBelowSubset(Retained(old(rows), cutoff), old(rows), nextId);
      report := CleanupReport(|expired|, cutoff);
    }

    /**
     * The spreadsheet import: each row in order is inserted with the next id unless its triple is
     * already stored (a duplicate) or its insert fails for another reason; the tallies and notes are
     * those of `Tally` and `Notes`, and the stored rows grow by exactly the inserted ones.
     */
    method ImportSheet(sheet: seq<SheetRow>) returns (report: ImportReport)
      requires Valid()
      modifies this
      ensures Valid()
      ensures report.inserted == Tally(Keys(old(rows)), sheet, |sheet|, Inserted)
      ensures report.duplicates == Tally(Keys(old(rows)), sheet, |sheet|, Duplicate)
      ensures report.notes == Notes(Keys(old(rows)), sheet, |sheet|)
      ensures Keys(rows) == Keys(old(rows)) + SheetKeys(sheet, |sheet|)
      ensures rows == old(rows) + Appended(Keys(old(rows)), sheet, |sheet|, old(nextId))
      ensures |rows| == |old(rows)| + report.inserted
      ensures nextId == old(nextId) + report.inserted
      ensures UniqueKeys(old(rows)) ==> UniqueKeys(rows)
    {
      ghost var start := Keys(rows);
      ghost var unique := UniqueKeys(rows);
      var inserted, duplicates, notes := 0, 0, [];
      var i := 0;
      while i < |sheet|
        invariant 0 <= i <= |sheet|
        invariant Valid()
        invariant Stored(start, sheet, i) == Keys(rows)
        invariant inserted == Tally(start, sheet, i, Inserted)
        invariant duplicates == Tally(start, sheet, i, Duplicate)
        invariant notes == Notes(start, sheet, i)
        invariant rows == old(rows) + Appended(start, sheet, i, old(nextId))
        invariant |rows| == |old(rows)| + inserted
        invariant nextId == old(nextId) + inserted
        invariant unique ==> UniqueKeys(rows)
      {
        ghost var kept := rows;
        var outcome := ExecuteInsert(sheet[i]);
        assert outcome == Outcome(start, sheet, i);
        notes := notes + RowNote(outcome, duplicates, sheet[i], i + 2);
        inserted := inserted + if outcome == Inserted then 1 else 0;
        duplicates := duplicates + if outcome == Duplicate then 1 else 0;
        i := i + 1;
      }
      RunSpec(start, sheet, i);
      report := ImportReport(inserted, duplicates, notes);
    }
  }
}
