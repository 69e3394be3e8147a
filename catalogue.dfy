/**
 * The two catalogues behind the form's drop-downs, `programas` and `modalidades`: adding a name,
 * switching `activo` between 1 and 0, deleting only what no attendance row uses, and the ordered
 * list of active names.
 */
module Catalogue {
  import opened Wrappers
  import opened Seqs
  import opened Strings
  import opened Records
  import opened Collation

  /** Which catalogue: academic programs or attendance modalities. */
  datatype Kind = Programs | Modalities

  /** A catalogue row; `active` is the `activo` integer column (1 enabled, 0 disabled). */
  datatype Item = Item(id: nat, name: string, active: int)

  /** The new `activo` of a toggle: 0 for an enabled entry, 1 for anything else. */
  function Flip(active: int): (r: int)
    ensures r == 0 || r == 1
    ensures r == 1 <==> active != 1
  {
    if active == 1 then 0 else 1
  }

  /** The catalogue after toggling entry `id`; other entries are untouched. */
  function Toggled(items: seq<Item>, id: nat): (r: seq<Item>)
    ensures |r| == |items|
    ensures forall i :: 0 <= i < |items| ==>
      r[i].id == items[i].id && r[i].name == items[i].name &&
      r[i].active == (if items[i].id == id then Flip(items[i].active) else items[i].active)
  {
    seq(|items|, i requires 0 <= i < |items| =>
      if items[i].id == id then items[i].(active := Flip(items[i].active)) else items[i])
  }

  /** Toggling twice restores a catalogue whose states are 0 or 1. */
  lemma ToggleTwice(items: seq<Item>, id: nat)
    requires forall i :: 0 <= i < |items| ==> items[i].active == 0 || items[i].active == 1
    ensures Toggled(Toggled(items, id), id) == items
  {
    var r := Toggled(Toggled(items, id), id);
    forall i | 0 <= i < |items| ensures r[i] == items[i] {
    }
  }

  /** The position of entry `id`, if any (`SELECT ... WHERE id = ?`). */
  function IndexOf(items: seq<Item>, id: nat): (k: Option<nat>)
    ensures k.Some? ==> k.value < |items| && items[k.value].id == id
    ensures k.None? <==> forall i :: 0 <= i < |items| ==> items[i].id != id
    decreases |items|
  {
    if items == [] then None
    else if items[|items| - 1].id == id then Some(|items| - 1)
    else IndexOf(items[..|items| - 1], id)
  }

  function HasOtherId(id: nat): Item -> bool
  {
    (it: Item) => it.id != id
  }

  /** The names of entries with id `id` (the `SELECT nombre ... WHERE id = ?` subquery). */
  function NamesWithId(items: seq<Item>, id: nat): set<string>
  {
    set i | 0 <= i < |items| && items[i].id == id :: items[i].name
  }

  /**
   * Whether an attendance row uses one of `names`: for a program, as the student's or the
   * teacher's program; for a modality, as the modality.
   */
  predicate Uses(kind: Kind, names: set<string>, e: Entry)
  {
    match kind
    case Programs => e.studentProgram in names || e.teacherProgram in names
    case Modalities => e.modality in names
  }

  /**
   * The `COUNT(*)` of attendance rows that use one of `names`. This definition is the reference;
   * `UseCountZero` states what the refusal depends on.
   */
  function UseCount(kind: Kind, names: set<string>, rows: seq<Record>): (n: nat)
    ensures n <= |rows|
    decreases |rows|
  {
    if rows == [] then 0
    else UseCount(kind, names, rows[..|rows| - 1]) + (if Uses(kind, names, rows[|rows| - 1].entry) then 1 else 0)
  }

  /** The count is zero exactly when no row uses any of the names. */
  lemma {:induction false} UseCountZero(kind: Kind, names: set<string>, rows: seq<Record>)
    ensures UseCount(kind, names, rows) == 0 <==> forall i :: 0 <= i < |rows| ==> !Uses(kind, names, rows[i].entry)
    decreases |rows|
  {
    if rows != [] {
      var p := rows[..|rows| - 1];
      UseCountZero(kind, names, p);
      forall i | 0 <= i < |p| ensures p[i] == rows[i] {
      }
    }
  }

  /** The names of the enabled entries, in catalogue order. */
  function ActiveList(items: seq<Item>): (r: seq<string>)
    decreases |items|
  {
    if items == [] then []
    else ActiveList(items[..|items| - 1]) + (if items[|items| - 1].active == 1 then [items[|items| - 1].name] else [])
  }

  /** `SELECT nombre ... WHERE activo = 1 ORDER BY nombre ASC`. */
  function ActiveNames(items: seq<Item>): seq<string>
  {
    SortNames(ActiveList(items))
  }

  lemma {:induction false} ActiveListMembers(items: seq<Item>, n: string)
    ensures n in ActiveList(items) <==> exists i :: 0 <= i < |items| && items[i].active == 1 && items[i].name == n
    decreases |items|
  {
    if items != [] {
      var p := items[..|items| - 1];
      ActiveListMembers(p, n);
      if exists i :: 0 <= i < |p| && p[i].active == 1 && p[i].name == n {
        var i :| 0 <= i < |p| && p[i].active == 1 && p[i].name == n;
        assert items[i] == p[i];
      }
      if exists i :: 0 <= i < |items| && items[i].active == 1 && items[i].name == n {
        var i :| 0 <= i < |items| && items[i].active == 1 && items[i].name == n;
        if i < |p| {
          assert items[i] == p[i];
        }
      }
    }
  }

  /** The drop-down list is ordered and holds exactly the names of enabled entries. */
  lemma ActiveNamesSpec(items: seq<Item>, n: string)
    ensures Sorted(ActiveNames(items))
    ensures n in ActiveNames(items) <==> exists i :: 0 <= i < |items| && items[i].active == 1 && items[i].name == n
  {
    SortNamesSpec(ActiveList(items));
    ActiveListMembers(items, n);
    assert n in ActiveNames(items) <==> n in multiset(ActiveNames(items));
    assert n in ActiveList(items) <==> n in multiset(ActiveList(items));
  }

  /**
   * With distinct names, toggling an enabled entry removes its name from the drop-down list and
   * toggling a disabled one adds it.
   */
  lemma ToggleActiveNames(items: seq<Item>, k: nat)
    requires k < |items|
    requires Pairwise(items, DistinctEntries)
    ensures items[k].name in ActiveNames(Toggled(items, items[k].id)) <==> items[k].active != 1
  {
    var t := Toggled(items, items[k].id);
    ActiveNamesSpec(t, items[k].name);
    assert t[k].name == items[k].name;
  }

  /** Two entries differ in both name and id. */
  function DistinctEntries(a: Item, b: Item): bool
  {
    a.name != b.name && a.id != b.id
  }

  /** What adding an entry answers. */
  datatype AddOutcome = BlankName | NameTaken | Added(id: nat)

  /** What toggling an entry answers. */
  datatype ToggleOutcome = NotFound | Switched(newState: int)

  /** What deleting an entry answers: refused with the number of rows that still use it, or done. */
  datatype DeleteOutcome = InUse(count: nat) | Deleted

  class Catalogue {
    const kind: Kind
    var items: seq<Item>
    var nextId: nat

    /** Ids distinct and below the counter; names distinct (the `UNIQUE` constraint). */
    ghost predicate Valid()
      reads this
    {
      Pairwise(items, DistinctEntries) && forall i :: 0 <= i < |items| ==> items[i].id < nextId
    }

    constructor (kind: Kind)
      ensures Valid() && this.kind == kind && items == [] && nextId == 1
    {
      this.kind := kind;
      items := [];
      nextId := 1;
    }

    /**
     * Adds an enabled entry under the stripped name: an empty name and a name already present are
     * refused with nothing changed.
     */
    method Add(rawName: string) returns (out: AddOutcome)
      requires Valid()
      modifies this
      ensures Valid()
      ensures out.BlankName? <==> IsBlank(rawName)
      ensures out.NameTaken? <==> !IsBlank(rawName) && exists i :: 0 <= i < |old(items)| && old(items)[i].name == Trim(rawName)
      ensures !out.Added? ==> items == old(items) && nextId == old(nextId)
      ensures out.Added? ==> out.id == old(nextId) && nextId == old(nextId) + 1
      ensures out.Added? ==> items == old(items) + [Item(out.id, Trim(rawName), 1)]
    {
      BlankIffTrimEmpty(rawName);
      var name := Trim(rawName);
      if name == [] {
        return BlankName;
      }
      if exists i :: 0 <= i < |items| && items[i].name == name {
        return NameTaken;
      }
      items := items + [Item(nextId, name, 1)];
      out := Added(nextId);
      nextId := nextId + 1;
    }

    /** Switches entry `id` between enabled and disabled and reports the new state. */
    method Toggle(id: nat) returns (out: ToggleOutcome)
      requires Valid()
      modifies this
      ensures Valid() && nextId == old(nextId)
      ensures out.NotFound? <==> forall i :: 0 <= i < |old(items)| ==> old(items)[i].id != id
      ensures out.NotFound? ==> items == old(items)
      ensures out.Switched? ==> items == Toggled(old(items), id)
      ensures out.Switched? ==> exists i :: 0 <= i < |old(items)| && old(items)[i].id == id && out.newState == Flip(old(items)[i].active)
    {
      var k := IndexOf(items, id);
      if k.None? {
        return NotFound;
      }
      out := Switched(Flip(items[k.value].active));
      items := Toggled(items, id);
    }

    /**
     * Deletes entry `id` unless some attendance row uses its name; an id that is not present
     * matches no row and deletes nothing.
     */
    method Delete(id: nat, attendance: seq<Record>) returns (out: DeleteOutcome)
      requires Valid()
      modifies this
      ensures Valid() && nextId == old(nextId)
      ensures out.InUse? <==> UseCount(kind, NamesWithId(old(items), id), attendance) > 0
      ensures out.InUse? ==> out.count == UseCount(kind, NamesWithId(old(items), id), attendance) && items == old(items)
      ensures out.Deleted? ==> items == Filter(old(items), HasOtherId(id))
      ensures out.Deleted? ==> forall i :: 0 <= i < |attendance| ==> !Uses(kind, NamesWithId(old(items), id), attendance[i].entry)
    {
      var count := UseCount(kind, NamesWithId(items, id), attendance);
      UseCountZero(kind, NamesWithId(items, id), attendance);
      if count > 0 {
        return InUse(count);
      }
      FilterPairwise(items, HasOtherId(id), DistinctEntries);
      items := Filter(items, HasOtherId(id));
      out := Deleted;
    }
  }
}
