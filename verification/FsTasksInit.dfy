/** A restart: the overlay is built again from the task table. */
module FsTasksInit {
  import opened Wrappers
  import opened FsTaskRows
  import opened FsTaskState
  import opened FsTaskRestart
  import opened FolderTable
  import opened FsTasks

  /** The same entries of one kind. */
  ghost predicate SameIn(space: Space, a: set<Item>, b: set<Item>) {
    forall i: Item | i.key.space == space :: i in a <==> i in b
  }

  ghost predicate Before(items: set<Item>, task: nat) { forall i | i in items :: i.task < task }

  /** The entries of one row; those of a new name do not replace any. */
  method InitRow(table: Table, r: Row) returns (ghost was: Option<Item>)
    requires table.Valid() && Before(table.Items(), r.id)
    modifies table
    ensures table.Valid() && forall g :: table.Refs(g) == old(table.Refs(g))
    ensures if was.None? then MakesNew(r.typ) || !HasAdd(old(table.Items()), KeyOf(r))
            else !MakesNew(r.typ) && was.value in old(table.Items()) && was.value.add && was.value.key == KeyOf(r)
    ensures table.Items() == Less(old(table.Items()), was) + ItemsOf(r)
    ensures Before(table.Items(), r.id + 1)
  {
    hide Table.Items, Table.Valid;
    table.GetOrCreate(r.folder);
    was := None;
    if !MakesNew(r.typ) {
      var found := table.FindName(true, KeyOf(r));
      if found.Some? { table.Delete(found.value); }
      was := found;
    }
    if Hides(r.typ) { table.Insert(HideItem(r)); }
    if Adds(r.typ) { table.Insert(AddItem(r)); }
    table.Release(r.folder);
  }

  lemma InitStep(rows: seq<Row>, n: nat, items: set<Item>, was: Option<Item>, items': set<Item>, space: Space)
    requires n < |rows| && Legal(rows[..n + 1], space) && items' == Less(items, was) + ItemsOf(rows[n])
    requires Legal(rows[..n], space) ==> SameIn(space, items, Rebuild(rows[..n]))
    requires var r := rows[n];
             if was.None? then MakesNew(r.typ) || !HasAdd(items, KeyOf(r))
             else !MakesNew(r.typ) && was.value in items && was.value.add && was.value.key == KeyOf(r)
    ensures SameIn(space, items', Rebuild(rows[..n + 1]))
  {
    var r, before := rows[n], rows[..n];
    assert rows[..n + 1] == before + [r];
    RebuildMore(before, r);
    LegalBefore(before, r, space);
    hide Rebuild, Legal;
    if was.Some? && space == SpaceOf(r.typ) {
      forall i | i in items && i.add && i.key == KeyOf(r) ensures i == was.value { AddsUnique(before, i, was.value); }
    }
  }

  lemma LegalBefore(rows: seq<Row>, r: Row, space: Space)
    requires Legal(rows + [r], space)
    ensures Legal(rows, space) && (MakesNew(r.typ) && SpaceOf(r.typ) == space ==> !HasAdd(Rebuild(rows), KeyOf(r)))
  {
    hide Rebuild, HasAdd, KeyOf;
    var all := rows + [r];
    forall j | 0 <= j < |rows| && MakesNew(rows[j].typ) && SpaceOf(rows[j].typ) == space ensures NewAt(rows, j) {
      assert NewAt(all, j) && all[..j] == rows[..j];
    }
    if MakesNew(r.typ) && SpaceOf(r.typ) == space { assert NewAt(all, |rows|) && all[..|rows|] == rows; }
  }

  /** All rows in the order of their ids. */
  method Init(rows: seq<Row>) returns (table: Table)
    requires forall i, j | 0 <= i < j < |rows| :: rows[i].id < rows[j].id
    ensures fresh(table) && table.Valid() && forall g :: table.Refs(g) == 0
    ensures forall space | Legal(rows, space) :: SameIn(space, table.Items(), Rebuild(rows))
    ensures OfRows(table.Items(), rows)
  {
    hide Table.Items, Table.Valid, Rebuild, Legal, SameIn, OfRows, ItemsOf;
    table := new Table();
    ghost var last: nat := 0;
    assert rows[..0] == [];
    EmptySame(table.Items());
    for n := 0 to |rows|
      invariant fresh(table) && table.Valid() && forall g :: table.Refs(g) == 0
      invariant Before(table.Items(), if n < |rows| then rows[n].id else last)
      invariant forall space | Legal(rows[..n], space) :: SameIn(space, table.Items(), Rebuild(rows[..n]))
      invariant OfRows(table.Items(), rows[..n])
    {
      ghost var items := table.Items();
      ghost var was := InitRow(table, rows[n]);
      last := rows[n].id + 1;
      ghost var done := rows[..n + 1];
      OfOneMore(items, rows[..n], rows[n], was, table.Items());
      assert done == rows[..n] + [rows[n]];
      forall space | Legal(done, space) ensures SameIn(space, table.Items(), Rebuild(done)) {
        InitStep(rows, n, items, was, table.Items(), space);
      }
    }
    assert rows[..|rows|] == rows;
  }

  lemma EmptySame(items: set<Item>)
    requires items == {}
    ensures forall space :: SameIn(space, items, Rebuild([]))
    ensures OfRows(items, [])
  {
  }

  /** Every entry is one of a row. */
  ghost predicate OfRows(items: set<Item>, rows: seq<Row>) {
    forall i | i in items :: exists j :: 0 <= j < |rows| && i in ItemsOf(rows[j])
  }

  lemma OfOneMore(items: set<Item>, rows: seq<Row>, r: Row, was: Option<Item>, items': set<Item>)
    requires OfRows(items, rows) && items' == Less(items, was) + ItemsOf(r)
    ensures OfRows(items', rows + [r])
  {
    hide ItemsOf;
    var after := rows + [r];
    forall i | i in items' ensures exists j :: 0 <= j < |after| && i in ItemsOf(after[j]) {
      if i in items {
        var j :| 0 <= j < |rows| && i in ItemsOf(rows[j]);
        assert after[j] == rows[j];
      } else {
        assert after[|rows|] == r;
      }
    }
  }

  lemma RebuiltIds(live: set<Item>, items: set<Item>, rows: seq<Row>)
    requires OfRows(items, rows) && DirIds(live, rows) && RowsOk(rows)
    ensures FromRows(items, rows) && DirIds(items, rows)
  {
    forall i | i in items
      ensures exists j :: 0 <= j < |rows| && rows[j].id == i.task && KeyOf(rows[j]) == i.key
      ensures i.add && i.key.space == Dirs ==> KnownFolder(rows, i.id) && i.id != 0
    {
      var j :| 0 <= j < |rows| && i in ItemsOf(rows[j]);
      assert rows[j].id == i.task && KeyOf(rows[j]) == i.key;
    }
  }

  lemma RebuiltAgrees(items: set<Item>, rows: seq<Row>)
    requires SameIn(Files, items, Rebuild(rows)) && SameIn(Dirs, items, Rebuild(rows))
    ensures Agree(items, rows)
  {
    hide Rebuild;
  }

  /** A restart: the operations go on with the new trees. */
  method Reopen(t: Tasks) returns (next: Tasks)
    requires t.Valid()
    ensures fresh(next) && fresh(next.table) && next.Valid()
    ensures next.rows == t.rows && next.depends == t.depends && next.db == t.db && (t.Agreed() ==> next.Agreed())
  {
    assert RowsOk(t.rows);
    hide Table.Items, Table.Valid, Rebuild, Legal, Inv, Agree, DirIds, FromRows, OfRows, RowsOk;
    IdsRise(t.rows);
    var table := Init(t.rows);
    RebuiltIds(t.table.Items(), table.Items(), t.rows);
    if Legal(t.rows, Dirs) { RebuiltAgrees(table.Items(), t.rows); }
    next := new Tasks.Reopened(table, t.rows, t.depends, t.db);
  }

  /** Any run of operations and completions, then a restart: every look-up of a file through the new trees gives
      what it gave before, and so does every look-up of a folder if the live trees agreed with the table. */
  method Restart(t: Tasks) returns (table: Table)
    requires t.Valid()
    ensures fresh(table) && table.Valid()
    ensures forall k: Key, v | k.space == Files || t.Agreed() :: Shows(table.Items(), t.db, k, v) <==> v == t.Sees(k)
    ensures forall k: Key, v | k.space == Files || t.Agreed() :: Shows(table.Items(), t.db, k, v) <==> Shows(t.table.Items(), t.db, k, v)
  {
    assert RowsOk(t.rows);
    hide Table.Items, Table.Valid, Rebuild, Legal, SameIn, Shows, Inv, FilesSync, Agree, Lookup, Plain, RowsOk;
    IdsRise(t.rows);
    table := Init(t.rows);
    forall k: Key, v | k.space == Files || t.Agreed()
      ensures Shows(table.Items(), t.db, k, v) <==> v == t.Sees(k)
      ensures Shows(t.table.Items(), t.db, k, v) <==> v == t.Sees(k)
    {
      SameShows(t.rows, t.db, table.Items(), k, v);
      if k.space == Files { t.FilesAreSeen(k, v); } else { t.FoldersAreSeen(k, v); }
    }
  }

  lemma IdsRise(rows: seq<Row>)
    requires RowsOk(rows)
    ensures forall i, j | 0 <= i < j < |rows| :: rows[i].id < rows[j].id
  {
  }

  lemma SameShows(rows: seq<Row>, db: map<Key, int>, items: set<Item>, k: Key, v: Option<int>)
    requires SameIn(k.space, items, Rebuild(rows))
    ensures Shows(items, db, k, v) <==> v == Lookup(Plain(rows, db), k)
  {
    OverlayMeans(rows, db, k, v);
    SameAt(items, Rebuild(rows), db, k, v);
  }
}
