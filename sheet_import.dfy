/**
 * The spreadsheet upload: the checks made before the workbook is read, and the row-by-row insert in
 * which the unique index decides whether each row is stored, skipped as a duplicate, or fails.
 */
module SheetImport {
  import opened Records

  /** `columnas_requeridas`: the ten form fields plus `fecha_evento`. */
  const RequiredColumns: seq<string> := [
    "nombre_evento", "dictado_por", "docente", "programa_docente",
    "numero_identificacion", "nombre_completo", "programa_estudiante",
    "modalidad", "tipo_asistente", "sede", "fecha_evento"
  ]

  /** The entries of `required` that `columns` lacks, in the order of `required`. */
  function Missing(required: seq<string>, columns: seq<string>): (r: seq<string>)
    ensures forall c :: c in r <==> c in required && c !in columns
    ensures |r| <= |required|
    decreases |required|
  {
    if required == [] then []
    else (if required[0] in columns then [] else [required[0]]) + Missing(required[1..], columns)
  }

  /** `columnas_faltantes`: the upload is refused, naming these, when the list is not empty. */
  function MissingColumns(columns: seq<string>): seq<string>
  {
    Missing(RequiredColumns, columns)
  }

  /** What arrives under the `file` field of the upload. */
  datatype Upload = NoFile | File(name: string)

  predicate EndsWith(s: string, suffix: string)
  {
    |suffix| <= |s| && s[|s| - |suffix|..] == suffix
  }

  /**
   * The checks before reading the workbook: a file was sent, its name is not empty, and it ends in
   * `.xlsx` or `.xls`. The empty-name check is subsumed by the extension check.
   */
  predicate AcceptedUpload(u: Upload)
    ensures AcceptedUpload(u) <==> u.File? && (EndsWith(u.name, ".xlsx") || EndsWith(u.name, ".xls"))
  {
    u.File? && u.name != "" && (EndsWith(u.name, ".xlsx") || EndsWith(u.name, ".xls"))
  }

  /**
   * One row of the sheet, after `str()` of every cell: either the eleven values of a row, or a row
   * whose insert fails for a reason other than the unique index (the driver's message).
   */
  datatype SheetRow = Cells(entry: Entry) | Unwritable(reason: string)

  /** How one row's insert ends. */
  datatype RowOutcome = Inserted | Duplicate | Failed

  /** One insert, given the keys already stored; the keys stored afterwards. */
  function Step(keys: set<Key>, row: SheetRow): (RowOutcome, set<Key>)
  {
    match row
    case Unwritable(_) => (Failed, keys)
    case Cells(e) =>
      if KeyOf(e) in keys then (Duplicate, keys) else (Inserted, keys + {KeyOf(e)})
  }

  /** The keys stored after the first `n` rows, starting from the stored `keys`. */
  function Stored(keys: set<Key>, sheet: seq<SheetRow>, n: nat): set<Key>
    requires n <= |sheet|
  {
    if n == 0 then keys else Step(Stored(keys, sheet, n - 1), sheet[n - 1]).1
  }

  /** How the insert of row `i` ends; it fails exactly when the row cannot be written. */
  function Outcome(keys: set<Key>, sheet: seq<SheetRow>, i: nat): (o: RowOutcome)
    requires i < |sheet|
    ensures o == Failed <==> sheet[i].Unwritable?
  {
    Step(Stored(keys, sheet, i), sheet[i]).0
  }

  function Min(a: int, b: int): int
  {
    if a < b then a else b
  }

  /** How many of the first `n` rows end as `o`. */
  function Tally(keys: set<Key>, sheet: seq<SheetRow>, n: nat, o: RowOutcome): nat
    requires n <= |sheet|
  {
    if n == 0 then 0 else Tally(keys, sheet, n - 1, o) + (if Outcome(keys, sheet, n - 1) == o then 1 else 0)
  }

  /** The keys of the first `n` rows that carry values. */
  function SheetKeys(sheet: seq<SheetRow>, n: nat): set<Key>
    requires n <= |sheet|
  {
    set i | 0 <= i < n && sheet[i].Cells? :: KeyOf(sheet[i].entry)
  }

  /** How many of the first `n` rows carry values whose key is not among `keys`. */
  function NewRows(keys: set<Key>, sheet: seq<SheetRow>, n: nat): nat
    requires n <= |sheet|
  {
    if n == 0 then 0
    else NewRows(keys, sheet, n - 1) + (if sheet[n - 1].Cells? && KeyOf(sheet[n - 1].entry) !in keys then 1 else 0)
  }

  lemma SheetKeysStep(sheet: seq<SheetRow>, n: nat)
    requires n < |sheet|
    ensures SheetKeys(sheet, n + 1) == SheetKeys(sheet, n) + (if sheet[n].Cells? then {KeyOf(sheet[n].entry)} else {})
  {
    forall k | k in SheetKeys(sheet, n + 1)
      ensures k in SheetKeys(sheet, n) || (sheet[n].Cells? && k == KeyOf(sheet[n].entry))
    {
      var i :| 0 <= i < n + 1 && sheet[i].Cells? && KeyOf(sheet[i].entry) == k;
    }
  }

  /**
   * Every row is counted exactly once as inserted, duplicate or failed, and afterwards every key of
   * the rows read is stored.
   */
  lemma {:induction false} RunSpec(keys: set<Key>, sheet: seq<SheetRow>, n: nat)
    requires n <= |sheet|
    ensures Stored(keys, sheet, n) == keys + SheetKeys(sheet, n)
    ensures Tally(keys, sheet, n, Inserted) + Tally(keys, sheet, n, Duplicate) + Tally(keys, sheet, n, Failed) == n
  {
    if n > 0 {
      RunSpec(keys, sheet, n - 1);
      SheetKeysStep(sheet, n - 1);
    }
  }

  /**
   * The records the first `n` rows add to the table: each inserted row's eleven values, in sheet
   * order, under consecutive ids from `firstId` (the AUTOINCREMENT counter before the import).
   */
  function Appended(keys: set<Key>, sheet: seq<SheetRow>, n: nat, firstId: nat): (r: seq<Record>)
    requires n <= |sheet|
    ensures |r| == Tally(keys, sheet, n, Inserted)
  {
    if n == 0 then []
    else
      var prev := Appended(keys, sheet, n - 1, firstId);
      if Outcome(keys, sheet, n - 1) == Inserted then prev + [Record(firstId + |prev|, sheet[n - 1].entry)]
      else prev
  }

  /**
   * The appended records carry consecutive ids from `firstId`, each holds the values of a sheet row
   * that carries values, none repeats a key stored before the import, and together with the keys
   * stored before they hold exactly the keys stored afterwards.
   */
  lemma {:induction false} AppendedSpec(keys: set<Key>, sheet: seq<SheetRow>, n: nat, firstId: nat)
    requires n <= |sheet|
    ensures var r := Appended(keys, sheet, n, firstId);
      && (forall j :: 0 <= j < |r| ==> r[j].id == firstId + j)
      && (forall j :: 0 <= j < |r| ==> exists i :: 0 <= i < n && sheet[i] == Cells(r[j].entry))
      && (forall j :: 0 <= j < |r| ==> RowKey(r[j]) !in keys)
      && keys + Keys(r) == Stored(keys, sheet, n)
  {
    if n > 0 {
      var prev := Appended(keys, sheet, n - 1, firstId);
      AppendedSpec(keys, sheet, n - 1, firstId);
      if Outcome(keys, sheet, n - 1) == Inserted {
        var rec := Record(firstId + |prev|, sheet[n - 1].entry);
        KeysAppend(prev, rec);
        assert RowKey(rec) !in Stored(keys, sheet, n - 1);
        var r := prev + [rec];
        forall j | 0 <= j < |r| ensures exists i :: 0 <= i < n && sheet[i] == Cells(r[j].entry) {
          if j == |prev| {
            assert sheet[n - 1] == Cells(r[j].entry);
          } else {
            assert r[j] == prev[j];
          }
        }
      }
    }
  }

  /**
   * Rows with new, distinct keys: the ones whose key is not stored yet are inserted and the
   * others are reported as duplicates.
   */
  lemma {:induction false} ImportCounts(keys: set<Key>, sheet: seq<SheetRow>, n: nat)
    requires n <= |sheet|
    requires forall i :: 0 <= i < |sheet| ==> sheet[i].Cells?
    requires forall i, j :: 0 <= i < j < |sheet| ==> KeyOf(sheet[i].entry) != KeyOf(sheet[j].entry)
    ensures Tally(keys, sheet, n, Inserted) == NewRows(keys, sheet, n)
    ensures Tally(keys, sheet, n, Duplicate) == n - NewRows(keys, sheet, n)
  {
    if n > 0 {
      ImportCounts(keys, sheet, n - 1);
      RunSpec(keys, sheet, n - 1);
      var last := KeyOf(sheet[n - 1].entry);
      assert last !in SheetKeys(sheet, n - 1);
      assert Outcome(keys, sheet, n - 1) == Inserted <==> last !in keys;
    }
  }

  /**
   * One entry of the `errores` list, `line` being the sheet line (`index + 2`: the header is line 1
   * and the data frame counts from 0).
   */
  datatype ImportNote =
    | DuplicateNote(line: nat, fullName: string, eventName: string, dateText: string)
    | FailureNote(line: nat, reason: string)

  /**
   * The notes the first `n` rows leave: one per failed row, and one per duplicate row while at
   * most five duplicates have been met.
   */
  function Notes(keys: set<Key>, sheet: seq<SheetRow>, n: nat): seq<ImportNote>
    requires n <= |sheet|
  {
    if n == 0 then []
    else Notes(keys, sheet, n - 1) + RowNote(Outcome(keys, sheet, n - 1), Tally(keys, sheet, n - 1, Duplicate), sheet[n - 1], n + 1)
  }

  function CountDuplicateNotes(notes: seq<ImportNote>): nat
    decreases |notes|
  {
    if notes == [] then 0
    else CountDuplicateNotes(notes[..|notes| - 1]) + (if notes[|notes| - 1].DuplicateNote? then 1 else 0)
  }

  function CountFailureNotes(notes: seq<ImportNote>): nat
    decreases |notes|
  {
    if notes == [] then 0
    else CountFailureNotes(notes[..|notes| - 1]) + (if notes[|notes| - 1].FailureNote? then 1 else 0)
  }

  lemma {:induction false} CountNotesAppend(a: seq<ImportNote>, b: seq<ImportNote>)
    ensures CountDuplicateNotes(a + b) == CountDuplicateNotes(a) + CountDuplicateNotes(b)
    ensures CountFailureNotes(a + b) == CountFailureNotes(a) + CountFailureNotes(b)
    decreases |b|
  {
    if b == [] {
      assert a + b == a;
    } else {
      CountNotesAppend(a, b[..|b| - 1]);
      assert (a + b)[..|a + b| - 1] == a + b[..|b| - 1];
    }
  }

  /**
   * The note, if any, that a row adds on sheet line `line`, given how its insert ended and the
   * duplicates met before it.
   */
  function RowNote(outcome: RowOutcome, duplicatesBefore: nat, row: SheetRow, line: nat): seq<ImportNote>
  {
    match row
    case Unwritable(reason) => [FailureNote(line, reason)]
    case Cells(e) =>
      if outcome == Duplicate && duplicatesBefore < 5
      then [DuplicateNote(line, e.fullName, e.eventName, e.date.text)]
      else []
  }

  /** A row leaves a failure note exactly when it failed, and a duplicate note only among the first five duplicates. */
  lemma RowNoteCounts(outcome: RowOutcome, duplicatesBefore: nat, row: SheetRow, line: nat)
    requires outcome == Failed <==> row.Unwritable?
    ensures CountDuplicateNotes(RowNote(outcome, duplicatesBefore, row, line)) == if outcome == Duplicate && duplicatesBefore < 5 then 1 else 0
    ensures CountFailureNotes(RowNote(outcome, duplicatesBefore, row, line)) == if outcome == Failed then 1 else 0
  {
    var r := RowNote(outcome, duplicatesBefore, row, line);
    assert r == [] || r[..0] == [];
  }

  /** Only the first five duplicates are listed. */
  lemma {:induction false} DuplicateNotesCount(keys: set<Key>, sheet: seq<SheetRow>, n: nat)
    requires n <= |sheet|
    ensures CountDuplicateNotes(Notes(keys, sheet, n)) == Min(Tally(keys, sheet, n, Duplicate), 5)
  {
    if n > 0 {
      var o, dups := Outcome(keys, sheet, n - 1), Tally(keys, sheet, n - 1, Duplicate);
      var before, extra := Notes(keys, sheet, n - 1), RowNote(o, dups, sheet[n - 1], n + 1);
      var duplicate := if o == Duplicate then 1 else 0;
      assert CountDuplicateNotes(extra) == if dups < 5 then duplicate else 0 by {
        RowNoteCounts(o, dups, sheet[n - 1], n + 1);
      }
      assert Tally(keys, sheet, n, Duplicate) == dups + duplicate;
      assert CountDuplicateNotes(Notes(keys, sheet, n)) == CountDuplicateNotes(before) + CountDuplicateNotes(extra) by {
        assert Notes(keys, sheet, n) == before + extra;
        CountNotesAppend(before, extra);
      }
      assert CountDuplicateNotes(before) == Min(dups, 5) by {
        DuplicateNotesCount(keys, sheet, n - 1);
      }
    }
  }

  /** Every failed row leaves a note. */
  lemma {:induction false} FailureNotesCount(keys: set<Key>, sheet: seq<SheetRow>, n: nat)
    requires n <= |sheet|
    ensures CountFailureNotes(Notes(keys, sheet, n)) == Tally(keys, sheet, n, Failed)
  {
    if n > 0 {
      var o, dups := Outcome(keys, sheet, n - 1), Tally(keys, sheet, n - 1, Duplicate);
      var before, extra := Notes(keys, sheet, n - 1), RowNote(o, dups, sheet[n - 1], n + 1);
      var failed := if o == Failed then 1 else 0;
      assert CountFailureNotes(extra) == failed by {
        RowNoteCounts(o, dups, sheet[n - 1], n + 1);
      }
      assert Tally(keys, sheet, n, Failed) == Tally(keys, sheet, n - 1, Failed) + failed;
      assert CountFailureNotes(Notes(keys, sheet, n)) == CountFailureNotes(before) + failed by {
        assert Notes(keys, sheet, n) == before + extra;
        CountNotesAppend(before, extra);
      }
      assert CountFailureNotes(before) == Tally(keys, sheet, n - 1, Failed) by {
        FailureNotesCount(keys, sheet, n - 1);
      }
    }
  }

  /** Every note names a data line of the sheet. */
  lemma {:induction false} NotesLines(keys: set<Key>, sheet: seq<SheetRow>, n: nat)
    requires n <= |sheet|
    ensures forall i :: 0 <= i < |Notes(keys, sheet, n)| ==> 2 <= Notes(keys, sheet, n)[i].line <= n + 1
  {
    if n > 0 {
      NotesLines(keys, sheet, n - 1);
      var before := Notes(keys, sheet, n - 1);
      var all := Notes(keys, sheet, n);
      forall i | 0 <= i < |all| ensures 2 <= all[i].line <= n + 1 {
        if i < |before| {
          assert all[i] == before[i];
        }
      }
    }
  }
}
