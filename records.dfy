/**
 * The `asistencias` table: one row per person, event and date, with the uniqueness rule on
 * (identification number, event name, event date).
 */
module Records {
  import opened Seqs

  /**
   * An event date as stored in `fecha_evento`: `text` is the stored value (what the uniqueness rule
   * compares) and `year` is what `CAST(SUBSTR(fecha_evento, 1, 4) AS INTEGER)` reads from it.
   */
  datatype EventDate = EventDate(text: string, year: int)

  /** The eleven user-supplied columns of an attendance row. */
  datatype Entry = Entry(
    eventName: string,       // nombre_evento
    instructor: string,      // dictado_por
    teacher: string,         // docente
    teacherProgram: string,  // programa_docente
    idNumber: string,        // numero_identificacion
    fullName: string,        // nombre_completo
    studentProgram: string,  // programa_estudiante
    modality: string,        // modalidad
    attendeeType: string,    // tipo_asistente
    campus: string,          // sede
    date: EventDate)         // fecha_evento

  /** A stored row: the primary key and the columns. */
  datatype Record = Record(id: nat, entry: Entry)

  /** The columns of the unique index `idx_asistencias_unique`. */
  datatype Key = Key(idNumber: string, eventName: string, dateText: string)

  function KeyOf(e: Entry): Key
  {
    Key(e.idNumber, e.eventName, e.date.text)
  }

  function RowKey(r: Record): Key
  {
    KeyOf(r.entry)
  }

  function Keys(rows: seq<Record>): set<Key>
  {
    set r | r in rows :: RowKey(r)
  }

  function DifferentKeys(a: Record, b: Record): bool
  {
    RowKey(a) != RowKey(b)
  }

  function DifferentIds(a: Record, b: Record): bool
  {
    a.id != b.id
  }

  /** No two rows share a (identification, event, date) triple: what the unique index enforces. */
  predicate UniqueKeys(rows: seq<Record>)
  {
    forall i, j :: 0 <= i < j < |rows| ==> RowKey(rows[i]) != RowKey(rows[j])
  }

  /** No two rows share a primary key. */
  predicate DistinctIds(rows: seq<Record>)
  {
    forall i, j :: 0 <= i < j < |rows| ==> rows[i].id != rows[j].id
  }

  lemma UniqueKeysPairwise(rows: seq<Record>)
    ensures UniqueKeys(rows) <==> Pairwise(rows, DifferentKeys)
  {
  }

  lemma DistinctIdsPairwise(rows: seq<Record>)
    ensures DistinctIds(rows) <==> Pairwise(rows, DifferentIds)
  {
  }

  /** Every id is below the next value of the id counter. */
  predicate IdsBelow(rows: seq<Record>, bound: nat)
  {
    forall i :: 0 <= i < |rows| ==> rows[i].id < bound
  }

  /** Rows drawn from a table whose ids are below `bound` have ids below `bound`. */
  lemma IdsBelowSubset(part: seq<Record>, rows: seq<Record>, bound: nat)
    requires IdsBelow(rows, bound)
    requires forall i :: 0 <= i < |part| ==> part[i] in rows
    ensures IdsBelow(part, bound)
  {
    forall i | 0 <= i < |part| ensures part[i].id < bound {
      var j :| 0 <= j < |rows| && rows[j] == part[i];
    }
  }

  /** Appending a row with the counter's id keeps the ids distinct and below the advanced counter. */
  lemma AppendFreshId(rows: seq<Record>, r: Record, bound: nat)
    requires DistinctIds(rows) && IdsBelow(rows, bound) && r.id == bound
    ensures DistinctIds(rows + [r]) && IdsBelow(rows + [r], bound + 1)
  {
    var t := rows + [r];
    forall i, j | 0 <= i < j < |t| ensures DifferentIds(t[i], t[j]) {
      assert t[i] == rows[i];
    }
  }

  /** Appending a row whose key is new keeps the keys unique. */
  lemma AppendFreshKey(rows: seq<Record>, r: Record)
    requires UniqueKeys(rows) && RowKey(r) !in Keys(rows)
    ensures UniqueKeys(rows + [r])
  {
    var t := rows + [r];
    forall i, j | 0 <= i < j < |t| ensures DifferentKeys(t[i], t[j]) {
      if j == |rows| {
        assert t[i] in rows;
      } else {
        assert t[i] == rows[i] && t[j] == rows[j];
      }
    }
  }

  lemma KeysAppend(rows: seq<Record>, r: Record)
    ensures Keys(rows + [r]) == Keys(rows) + {RowKey(r)}
  {
    var t := rows + [r];
    forall k | k in Keys(t) ensures k in Keys(rows) + {RowKey(r)} {
      var x :| x in t && RowKey(x) == k;
    }
    forall k | k in Keys(rows) ensures k in Keys(t) {
      var x :| x in rows && RowKey(x) == k;
      assert x in t;
    }
    assert r in t;
  }
}
