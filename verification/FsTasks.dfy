/** The operations that change the overlay: each adds rows to the task table, with dependencies on earlier
    rows, and entries to the trees; and what happens when a task was carried out. */
module FsTasks {
  import opened Wrappers
  import opened FsTaskRows
  import opened FsTaskState
  import opened FsTaskDone
  import opened FsTaskRestart
  import opened FolderTable

  const ENOENT: int := -2
  const EEXIST: int := -17
  const ENOTEMPTY: int := -39

  /** Every entry comes from a row of the table. */
  ghost predicate FromRows(items: set<Item>, rows: seq<Row>) {
    forall i | i in items :: exists j :: 0 <= j < |rows| && rows[j].id == i.task && KeyOf(rows[j]) == i.key
  }

  /** Pending folders have the ids of pending tasks, or of the server, in the trees and in the table. */
  ghost predicate DirIds(items: set<Item>, rows: seq<Row>) {
    && (forall i | i in items && i.add && i.key.space == Dirs :: KnownFolder(rows, i.id) && i.id != 0)
    && (forall j | 0 <= j < |rows| && rows[j].typ.RenfolderTo? :: KnownFolder(rows, rows[j].sfolder) && rows[j].sfolder != 0)
  }

  lemma KnownMore(rows: seq<Row>, moved: seq<Row>, more: seq<Row>, folder: int)
    requires KnownFolder(rows, folder) && SameTasks(rows, moved)
    ensures KnownFolder(moved + more, folder)
  {
    if folder < 0 {
      var i :| 0 <= i < |rows| && rows[i].typ.Mkdir? && TempId(rows[i].id) == folder;
      assert SameTask(rows[i], moved[i]);
      assert (moved + more)[i] == moved[i];
    }
  }

  lemma DirIdsMore(items: set<Item>, rows: seq<Row>, moved: seq<Row>, more: seq<Row>, items': set<Item>)
    requires DirIds(items, rows) && SameTasks(rows, moved)
    requires forall i | i in items' && i.add && i.key.space == Dirs :: i in items || (KnownFolder(moved + more, i.id) && i.id != 0)
    requires forall j | 0 <= j < |more| && more[j].typ.RenfolderTo? :: KnownFolder(moved + more, more[j].sfolder) && more[j].sfolder != 0
    ensures DirIds(items', moved + more)
  {
    forall j | 0 <= j < |moved| && moved[j].typ.RenfolderTo? ensures rows[j] == moved[j] { assert SameTask(rows[j], moved[j]); }
    assert |rows| == |moved|;
    hide KnownFolder, SameTasks;
    var after := moved + more;
    forall j | 0 <= j < |after| && after[j].typ.RenfolderTo? ensures KnownFolder(after, after[j].sfolder) && after[j].sfolder != 0 {
      if j < |moved| { KnownMore(rows, moved, more, rows[j].sfolder); } else { assert after[j] == more[j - |moved|]; }
    }
    forall i | i in items' && i.add && i.key.space == Dirs ensures KnownFolder(moved + more, i.id) && i.id != 0 {
      if i in items { KnownMore(rows, moved, more, i.id); }
    }
  }

  lemma DirIdsStep(items: set<Item>, rows: seq<Row>, r: Row, items': set<Item>)
    requires DirIds(items, rows) && items' <= items + ItemsOf(r) && !r.typ.RenfolderTo? && r.id > 0
    ensures DirIds(items', rows + [r])
  {
    SameSelf(rows);
    assert (rows + [r])[|rows|] == r;
    DirIdsMore(items, rows, rows, [r], items');
  }

  lemma FromRowsMore(items: set<Item>, rows: seq<Row>, more: seq<Row>, moved: seq<Row>, items': set<Item>)
    requires FromRows(items, rows) && SameTasks(rows, moved)
    requires forall i | i in items' :: i in items || exists j :: 0 <= j < |more| && more[j].id == i.task && KeyOf(more[j]) == i.key
    ensures FromRows(items', moved + more)
  {
    var after := moved + more;
    forall i | i in items' ensures exists j :: 0 <= j < |after| && after[j].id == i.task && KeyOf(after[j]) == i.key {
      if i in items {
        var j :| 0 <= j < |rows| && rows[j].id == i.task && KeyOf(rows[j]) == i.key;
        assert SameTask(rows[j], moved[j]);
        assert after[j] == moved[j];
      } else {
        var j :| 0 <= j < |more| && more[j].id == i.task && KeyOf(more[j]) == i.key;
        assert after[|moved| + j] == more[j];
      }
    }
  }

  lemma SameSelf(rows: seq<Row>)
    ensures SameTasks(rows, rows)
  {
  }

  lemma FromRowsStep(items: set<Item>, rows: seq<Row>, r: Row, items': set<Item>)
    requires FromRows(items, rows) && items' <= items + ItemsOf(r)
    ensures FromRows(items', rows + [r])
  {
    SameSelf(rows);
    assert [r][0] == r;
    FromRowsMore(items, rows, [r], rows, items');
  }

  /** An entry's task has a row that is not the first row of a rename, if the entry adds. */
  lemma TaskOfEntry(items: set<Item>, rows: seq<Row>, i: Item)
    requires FromRows(items, rows) && i in items
    ensures HasRow(rows, i.task)
  {
    var j :| 0 <= j < |rows| && rows[j].id == i.task;
  }

  lemma NewTask(items: set<Item>, rows: seq<Row>, i: Item)
    requires FromRows(items, rows) && RowsOk(rows) && i in items
    ensures i.task < NextId(rows)
  {
  }

  lemma KnownHasRow(rows: seq<Row>, folder: int)
    requires KnownFolder(rows, folder) && folder < 0
    ensures HasRow(rows, -folder)
  {
  }

  /** The task of an entry that is taken out has the entry's name. */
  lemma EntryIsNamed(items: set<Item>, rows: seq<Row>, deps: set<(nat, nat)>, db: map<Key, int>, k: Key, cr: Option<Item>, t: nat)
    requires Inv(rows, deps, db) && FromRows(items, rows) && t == NextId(rows) && (cr.Some? ==> cr.value in items && cr.value.key == k)
    ensures EdgeOn(t, cr) <= NameEdges(rows, t, k.folder, k.name, {t})
  {
    if cr.Some? {
      NewTask(items, rows, cr.value);
      var j :| 0 <= j < |rows| && rows[j].id == cr.value.task && KeyOf(rows[j]) == k;
      assert rows[j] in rows;
    }
  }

  lemma RenamedIsNamed(rows: seq<Row>, deps: set<(nat, nat)>, db: map<Key, int>, items: set<Item>, f: Row, t: Row, cr: Option<Item>)
    requires Inv(rows, deps, db) && FromRows(items, rows) && f.id == NextId(rows) && t.id == f.id + 1
    requires cr.Some? ==> cr.value in items && cr.value.key == KeyOf(f)
    ensures RenameEdges(rows, f, t, cr) == RenameEdges(rows, f, t, None)
  {
    if cr.Some? {
      NewTask(items, rows, cr.value);
      NamedBefore(items, rows, f, t.id, cr.value);
    }
    hide NameEdges, EdgeIf, KeyOf, Inv, FromRows;
  }

  lemma NamedBefore(items: set<Item>, rows: seq<Row>, f: Row, t: nat, i: Item)
    requires FromRows(items, rows) && i in items && i.key == KeyOf(f) && i.task != t && i.task != f.id
    ensures (t, i.task) in NameEdges(rows + [f], t, f.folder, f.name, {t, f.id})
  {
    var j :| 0 <= j < |rows| && rows[j].id == i.task && KeyOf(rows[j]) == KeyOf(f);
    assert (rows + [f])[j] == rows[j];
  }

  lemma NameEdgesKnown(rows: seq<Row>, t: nat, folder: int, name: string, not: set<nat>)
    ensures forall e | e in NameEdges(rows, t, folder, name, not) :: e.0 == t && HasRow(rows, e.1)
  {
  }

  lemma FolderEdgesKnown(rows: seq<Row>, t: nat, folder: int)
    ensures forall e | e in FolderEdges(rows, t, folder) :: e.0 == t && HasRow(rows, e.1)
  {
  }

  lemma RemovalWaits(rows: seq<Row>, deps: set<(nat, nat)>, db: map<Key, int>, folder: int, name: string, c: int)
    requires Inv(rows, deps, db)
    ensures var t := NextId(rows);
            forall r: Row | r in rows && (r.folder == c || (r.folder == folder && r.name == name)) ::
              (t, r.id) in FolderEdges(rows, t, c) + NameEdges(rows, t, folder, name, {t})
  {
    hide Plain, Ordered, Targeted, TempOk, DbOk, EdgesKnown, Located;
  }

  class Tasks {
    const table: Table
    var rows: seq<Row>
    var depends: set<(nat, nat)>
    /** The tables of files and folders: the id under every name. */
    var db: map<Key, int>

    ghost predicate Valid()
      reads this, table
    {
      && table.Valid() && Inv(rows, depends, db)
      && FilesSync(table.Items(), rows) && FromRows(table.Items(), rows) && DirIds(table.Items(), rows) && Legal(rows, Files)
    }

    /** A restart would rebuild an overlay that answers alike. */
    ghost predicate Agreed()
      reads this, table
    {
      Agree(table.Items(), rows) && Legal(rows, Dirs)
    }

    /** What the file system shows: the database with all pending tasks done. */
    ghost function Sees(k: Key): Option<int>
      reads this
    {
      Lookup(Plain(rows, db), k)
    }

    lemma SeesAll()
      ensures forall j {:trigger Lookup(Plain(rows, db), j)} :: Lookup(Plain(rows, db), j) == Sees(j)
    {
    }

    /** Look-ups of files go through the live trees and find this. */
    lemma FilesAreSeen(k: Key, v: Option<int>)
      requires Valid() && k.space == Files
      ensures Shows(table.Items(), db, k, v) <==> v == Sees(k)
    {
      SyncShows(table.Items(), rows, db, k, v);
    }

    lemma FoldersAreSeen(k: Key, v: Option<int>)
      requires Valid() && Agreed()
      ensures Shows(table.Items(), db, k, v) <==> v == Sees(k)
    {
      AgreeShows(table.Items(), rows, db, k, v);
    }

    /** Every new file keeps an entry that hides its name, with the same task. */
    lemma NewFilesAreHidden(i: Item)
      requires Valid() && i in table.Items() && i.add && i.key.space == Files
      ensures Item(false, i.key, i.task, 0) in table.Items()
    {
      FilesArePaired(rows, i);
    }

    /** While tasks are pending, one of them can be carried out. */
    lemma NeverStuck()
      requires Valid() && Downward(rows, depends) && rows != []
      ensures exists i :: 0 <= i < |rows| && !IsFrom(rows[i].typ) && Ready(depends, rows[i].id)
    {
      SomeTaskIsReady(rows, depends);
    }

    constructor (db: map<Key, int>)
      requires DbOk(db)
      ensures Valid() && Agreed() && rows == [] && depends == {} && this.db == db && fresh(table)
    {
      table := new Table();
      rows, depends := [], {};
      this.db := db;
    }

    /** The operations go on with trees that were built from the table. */
    constructor Reopened(table: Table, rows: seq<Row>, depends: set<(nat, nat)>, db: map<Key, int>)
      requires table.Valid() && Inv(rows, depends, db) && Legal(rows, Files)
      requires FilesSync(table.Items(), rows) && FromRows(table.Items(), rows) && DirIds(table.Items(), rows)
      ensures Valid() && this.table == table && this.rows == rows && this.depends == depends && this.db == db
      ensures Agree(table.Items(), rows) && Legal(rows, Dirs) ==> Agreed()
    {
      hide Inv, Legal, FilesSync, FromRows, DirIds, Agree, Table.Valid, Table.Items;
      this.table, this.rows, this.depends, this.db := table, rows, depends, db;
    }

    // ---------- the trees ----------

    /** Takes the entry that adds the name out of its tree. */
    method TakeOut(k: Key) returns (was: Option<Item>)
      requires table.Valid() && table.Refs(k.folder) > 0
      modifies table
      ensures table.Valid() && forall g :: table.Refs(g) == old(table.Refs(g))
      ensures was.None? ==> table.Items() == old(table.Items()) && !HasAdd(table.Items(), k)
      ensures was.Some? ==>
                && was.value in old(table.Items()) && was.value.add && was.value.key == k
                && table.Items() == old(table.Items()) - {was.value}
    {
      hide Table.Items;
      was := table.FindName(true, k);
      if was.Some? { table.Delete(was.value); }
    }

    method PutIn(i: Item)
      requires table.Valid() && table.Refs(i.key.folder) > 0 && i !in table.Items()
      modifies table
      ensures table.Valid() && table.Items() == old(table.Items()) + {i} && forall g :: table.Refs(g) == old(table.Refs(g))
    {
      hide Table.Items;
      table.Insert(i);
    }

    /** Puts the entries of a new row into the trees, after `was` was taken out, and the row into the tables. */
    method Record(r: Row, more: set<(nat, nat)>, was: Option<Item>, ghost items0: set<Item>)
      requires table.Valid() && Inv(rows, depends, db) && FilesSync(items0, rows) && FromRows(items0, rows) && DirIds(items0, rows)
      requires table.Items() == Less(items0, was) && table.Refs(r.folder) > 0
      requires if was.None? then !HasAdd(items0, KeyOf(r)) else was.value in items0 && was.value.add && was.value.key == KeyOf(r)
      requires r.id == NextId(rows) && r.id > 0 && !r.typ.RenfileTo? && !r.typ.RenfolderTo? && !IsFrom(r.typ)
      requires (r.typ.UnSetRev? ==> r.int1 > 0) && (IsUpload(r.typ) ==> r.sfolder == r.folder)
      requires Removes(r.typ) ==> Lookup(Plain(rows, db), KeyOf(r)) == Some(Target(r))
      requires NameEdges(rows, r.id, r.folder, r.name, {r.id}) <= more
      requires forall e | e in more :: e.0 == r.id && HasRow(rows, e.1)
      requires MakesFile(r.typ) ==> Waits(rows, more, r)
      requires Legal(rows, Files) && (MakesNew(r.typ) ==> was.None?)
      modifies this, table
      ensures Valid() && db == old(db) && forall g :: table.Refs(g) == old(table.Refs(g))
      ensures rows == old(rows) + [r] && depends == old(depends) + more && table.Items() == Less(items0, was) + ItemsOf(r)
      ensures forall j :: Sees(j) == if j == KeyOf(r) then (if Adds(r.typ) then Some(Result(r)) else None) else old(Sees(j))
      ensures Agree(items0, old(rows)) && Legal(old(rows), Dirs) ==> Agreed()
      ensures old(Downward(rows, depends)) ==> Downward(rows, depends)
    {
      hide Inv, FilesSync, FromRows, DirIds, Legal, Table.Items, Table.Valid, Downward, Agree, NameEdges, Plain, HasRow, Waits;
      NewItems(items0, rows, depends, db, r);
      Taken(items0, rows, KeyOf(r), was);
      if Hides(r.typ) { PutIn(HideItem(r)); }
      if Adds(r.typ) { PutIn(AddItem(r)); }
      StepKeeps(rows, depends, db, items0, r, more, table.Items());
      LegalRecord(rows, items0, r);
      DirIdsStep(items0, rows, r, table.Items());
      SeesMore(rows, r, db);
      rows := rows + [r];
      depends := depends + more;
    }

    /** Whether there is a file or a folder of the name, as the file system asks for it. */
    method Exists(k: Key) returns (yes: bool)
      requires Valid()
      modifies table
      ensures Valid() && table.Items() == old(table.Items()) && forall g :: table.Refs(g) == old(table.Refs(g))
      ensures yes <==> !Shows(table.Items(), db, k, None)
      ensures k.space == Files || Agreed() ==> (yes <==> Sees(k).Some?)
    {
      if k.space == Files { FilesAreSeen(k, None); }
      if Agreed() { FoldersAreSeen(k, None); }
      hide Inv, FilesSync, FromRows, DirIds, Legal, Table.Items, Table.Valid, Table.Refs, Agree, Plain, Lookup, Shows;
      yes := LookUp(k);
    }

    method LookUp(k: Key) returns (yes: bool)
      requires table.Valid()
      modifies table
      ensures table.Valid() && table.Items() == old(table.Items()) && forall g :: table.Refs(g) == old(table.Refs(g))
      ensures yes <==> !Shows(table.Items(), db, k, None)
    {
      hide Table.Items, Table.Valid;
      yes := k in db;
      var found := table.Get(k.folder);
      if found {
        var cr := table.FindName(true, k);
        if cr.Some? {
          yes := true;
        } else {
          var un := table.FindName(false, k);
          if un.Some? { yes := false; }
        }
        table.Release(k.folder);
      }
    }

    /** The file under a name, as a rename looks it up. */
    method FindFile(k: Key) returns (id: Option<int>)
      requires Valid() && k.space == Files
      modifies table
      ensures Valid() && table.Items() == old(table.Items()) && forall g :: table.Refs(g) == old(table.Refs(g))
      ensures id == Sees(k)
    {
      hide Inv, FilesSync, FromRows, DirIds, Legal, Table.Items, Table.Valid, Agree, Plain, Table.Refs;
      id := if k in db then Some(db[k]) else None;
      var found := table.Get(k.folder);
      if found {
        var cr := table.FindName(true, k);
        if cr.Some? {
          id := Some(cr.value.id);
        } else {
          var un := table.FindName(false, k);
          if un.Some? { id := None; }
        }
        table.Release(k.folder);
      }
      FileShown(table.Items(), rows, db, k, id);
    }

    // ---------- folders ----------

    method Mkdir(folder: int, name: string) returns (ret: int)
      requires Valid() && KnownFolder(rows, folder)
      modifies this, table
      ensures Valid() && db == old(db) && forall g :: table.Refs(g) == old(table.Refs(g))
      ensures ret == 0 || ret == EEXIST
      ensures ret == 0 <==> Shows(old(table.Items()), db, Key(Dirs, folder, name), None)
      ensures ret == EEXIST ==> rows == old(rows) && depends == old(depends) && table.Items() == old(table.Items())
      ensures ret == 0 ==>
                var r := Row(NextId(old(rows)), TaskType.Mkdir, folder, name, 0, folder, 0);
                && rows == old(rows) + [r] && table.Items() == old(table.Items()) + {AddItem(r)}
                && depends == old(depends) + EdgeIf(folder < 0, r.id, -folder) + NameEdges(old(rows), r.id, folder, name, {r.id})
                && forall j :: Sees(j) == if j == KeyOf(r) then Some(TempId(r.id)) else old(Sees(j))
      ensures old(Agreed()) ==> Agreed()
      ensures old(Downward(rows, depends)) ==> Downward(rows, depends)
    {
      hide Inv, FilesSync, FromRows, DirIds, Legal, Table.Items, Table.Valid, Downward, Agree, KnownFolder, NameEdges;
      ghost var items0 := table.Items();
      var k := Key(Dirs, folder, name);
      table.GetOrCreate(folder);
      if folder >= 0 && k in db {
        var rm := table.FindName(false, k);
        if rm.None? {
          table.Release(folder);
          return EEXIST;
        }
      }
      var mk := table.FindName(true, k);
      if mk.Some? {
        table.Release(folder);
        return EEXIST;
      }
      NoNegativeFolder(rows, depends, db, k);
      var t := NextId(rows);
      var r := Row(t, TaskType.Mkdir, folder, name, 0, folder, 0);
      var more := EdgeIf(folder < 0, t, -folder) + NameEdges(rows, t, folder, name, {t});
      if folder < 0 { KnownHasRow(rows, folder); }
      NameEdgesKnown(rows, t, folder, name, {t});
      Record(r, more, None, items0);
      table.Release(folder);
      ret := 0;
    }

    /** A folder is empty if nothing was made in it and all that the database has in it is hidden. */
    method IsEmpty(c: int) returns (empty: bool)
      requires table.Valid()
      modifies table
      ensures table.Valid() && table.Items() == old(table.Items()) && forall g :: table.Refs(g) == old(table.Refs(g))
      ensures empty <==> EmptyFolder(table.Items(), db, c)
    {
      hide Table.Items;
      var found := table.Get(c);
      var any := table.AnyAdds(c);
      var hidden := AllHidden(c);
      empty := !any && hidden;
      if found { table.Release(c); }
    }

    /** The loops over the tables of files and folders. */
    method AllHidden(c: int) returns (hidden: bool)
      requires table.Valid()
      ensures hidden <==> (c >= 0 ==> forall k | k in db && k.folder == c :: HasHide(table.Items(), k))
    {
      hide Table.Items;
      hidden := true;
      if c >= 0 {
        var left := set k | k in db && k.folder == c;
        while left != {}
          invariant forall k | k in left :: k in db && k.folder == c
          invariant forall k | k in db && k.folder == c && k !in left :: HasHide(table.Items(), k)
          decreases left
        {
          var k :| k in left;
          var un := table.FindName(false, k);
          if un.None? { return false; }
          left := left - {k};
        }
      }
    }

    /** The entry of a pending folder is dropped before the folder is known to be empty. */
    method Rmdir(folder: int, name: string) returns (ret: int, ghost mk: Option<Item>, ghost c: int)
      requires Valid()
      modifies this, table
      ensures Valid() && db == old(db) && forall g :: table.Refs(g) == old(table.Refs(g))
      ensures ret == 0 || ret == ENOENT || ret == ENOTEMPTY
      ensures ret == ENOENT <==> Shows(old(table.Items()), db, Key(Dirs, folder, name), None)
      ensures if mk.None? then !HasAdd(old(table.Items()), Key(Dirs, folder, name))
              else mk.value in old(table.Items()) && mk.value.add && mk.value.key == Key(Dirs, folder, name)
      ensures ret != ENOENT ==> Shows(old(table.Items()), db, Key(Dirs, folder, name), Some(c))
      ensures ret == 0 <==> ret != ENOENT && forall k: Key | k.folder == c :: Shows(Less(old(table.Items()), mk), db, k, None)
      ensures old(Agreed()) && (mk.None? || c != folder) ==>
                (ret == 0 <==> ret != ENOENT && forall k: Key | k.folder == c :: old(Sees(k)) == None)
      ensures ret != 0 ==> rows == old(rows) && depends == old(depends) && table.Items() == Less(old(table.Items()), mk)
      ensures ret == 0 ==>
                var r := Row(NextId(old(rows)), TaskType.Rmdir, folder, name, 0, c, 0);
                && rows == old(rows) + [r] && table.Items() == Less(old(table.Items()), mk) + {HideItem(r)}
                && depends == old(depends) + FolderEdges(old(rows), r.id, c) + NameEdges(old(rows), r.id, folder, name, {r.id})
                && forall j :: Sees(j) == if j == KeyOf(r) then None else old(Sees(j))
      ensures ret == 0 ==>
                forall r: Row | r in old(rows) && (r.folder == c || (r.folder == folder && r.name == name)) ::
                  (NextId(old(rows)), r.id) in depends
      ensures old(Agreed()) && ret != ENOTEMPTY ==> Agreed()
      ensures old(Downward(rows, depends)) ==> Downward(rows, depends)
    {
      hide Inv, FilesSync, FromRows, DirIds, Legal, Table.Items, Table.Valid, Downward, Agree, NameEdges, FolderEdges, EmptyFolder, Plain, Table.Refs, HasRow;
      ghost var items0, agreed := table.Items(), Agreed();
      var k := Key(Dirs, folder, name);
      table.GetOrCreate(folder);
      var m := TakeOut(k);
      mk := m;
      c := 0;
      var id;
      if m.None? {
        var rm := table.FindName(false, k);
        if k !in db || rm.Some? {
          table.Release(folder);
          return ENOENT, mk, c;
        }
        id := db[k];
      } else {
        id := m.value.id;
      }
      c := id;
      var empty := IsEmpty(id);
      EmptyShows(rows, depends, db, Less(items0, m), id);
      if agreed { NothingSeen(items0, rows, db, m, folder, id); }
      if !empty {
        DroppedKeeps(items0, rows, k, m);
        table.Release(folder);
        return ENOTEMPTY, mk, c;
      }
      var t := NextId(rows);
      var r := Row(t, TaskType.Rmdir, folder, name, 0, id, 0);
      var more := EdgeOn(t, m) + FolderEdges(rows, t, id) + NameEdges(rows, t, folder, name, {t});
      if m.Some? { TaskOfEntry(items0, rows, m.value); }
      EntryIsNamed(items0, rows, depends, db, k, m, t);
      NameEdgesKnown(rows, t, folder, name, {t});
      FolderEdgesKnown(rows, t, id);
      RemovalWaits(rows, depends, db, folder, name, id);
      Record(r, more, m, items0);
      table.Release(folder);
      ret := 0;
    }

    // ---------- files ----------

    /** A new file; the caller has looked the name up and found no pending one. */
    method AddCreat(folder: int, name: string) returns (task: nat)
      requires Valid() && KnownFolder(rows, folder) && !HasAdd(table.Items(), Key(Files, folder, name))
      modifies this, table
      ensures Valid() && db == old(db) && forall g :: table.Refs(g) == old(table.Refs(g))
      ensures var r := Row(NextId(old(rows)), TaskType.Creat, folder, name, 0, folder, 0);
              && task == r.id && rows == old(rows) + [r]
              && table.Items() == old(table.Items()) + {HideItem(r), AddItem(r)}
              && depends == old(depends) + EdgeIf(folder < 0, task, -folder) + NameEdges(old(rows), task, folder, name, {task})
              && forall j :: Sees(j) == if j == KeyOf(r) then Some(TempId(task)) else old(Sees(j))
      ensures old(Agreed()) ==> Agreed()
      ensures old(Downward(rows, depends)) ==> Downward(rows, depends)
    {
      hide Inv, FilesSync, FromRows, DirIds, Legal, Table.Items, Table.Valid, Downward, Agree, KnownFolder, NameEdges;
      ghost var items0 := table.Items();
      task := NextId(rows);
      var r := Row(task, TaskType.Creat, folder, name, 0, folder, 0);
      var more := EdgeIf(folder < 0, task, -folder) + NameEdges(rows, task, folder, name, {task});
      if folder < 0 { KnownHasRow(rows, folder); }
      NameEdgesKnown(rows, task, folder, name, {task});
      table.GetOrCreate(folder);
      Record(r, more, None, items0);
      table.Release(folder);
    }

    /** New contents for a file. */
    method AddModified(folder: int, name: string, fileId: int) returns (task: nat)
      requires Valid() && KnownFolder(rows, folder)
      modifies this, table
      ensures Valid() && db == old(db) && forall g :: table.Refs(g) == old(table.Refs(g))
      ensures var r := Row(NextId(old(rows)), TaskType.Modify, folder, name, fileId, folder, 0);
              && task == r.id && rows == old(rows) + [r]
              && depends == old(depends) + EdgeIf(folder < 0, task, -folder) + NameEdges(old(rows), task, folder, name, {task})
              && (forall j :: Sees(j) == if j == KeyOf(r) then Some(TempId(task)) else old(Sees(j)))
      ensures old(Agreed()) ==> Agreed()
      ensures old(Downward(rows, depends)) ==> Downward(rows, depends)
    {
      hide Inv, FilesSync, FromRows, DirIds, Legal, Table.Items, Table.Valid, Downward, Agree, KnownFolder, NameEdges;
      ghost var items0 := table.Items();
      task := NextId(rows);
      var r := Row(task, TaskType.Modify, folder, name, fileId, folder, 0);
      var k := KeyOf(r);
      table.GetOrCreate(folder);
      var cr := TakeOut(k);
      var more := EdgeIf(folder < 0, task, -folder) + NameEdges(rows, task, folder, name, {task}) + EdgeOn(task, cr);
      if folder < 0 { KnownHasRow(rows, folder); }
      if cr.Some? { TaskOfEntry(items0, rows, cr.value); }
      EntryIsNamed(items0, rows, depends, db, k, cr, task);
      NameEdgesKnown(rows, task, folder, name, {task});
      Record(r, more, cr, items0);
      table.Release(folder);
    }

    /** The file of a name, taken out of the tree of new files if it is there. */
    method TakeFile(k: Key) returns (cr: Option<Item>, fileId: Option<int>)
      requires Valid() && k.space == Files && table.Refs(k.folder) > 0
      modifies table
      ensures table.Valid() && forall g :: table.Refs(g) == old(table.Refs(g))
      ensures table.Items() == Less(old(table.Items()), cr) && fileId == Sees(k)
      ensures if cr.None? then !HasAdd(old(table.Items()), k) else cr.value in old(table.Items()) && cr.value.add && cr.value.key == k
      ensures fileId.None? ==> cr.None?
    {
      hide Inv, FilesSync, FromRows, DirIds, Legal, Table.Items, Table.Valid, Plain;
      ghost var items0 := table.Items();
      cr := TakeOut(k);
      if cr.None? {
        var un := table.FindName(false, k);
        fileId := if k !in db || un.Some? then None else Some(db[k]);
      } else {
        fileId := Some(cr.value.id);
      }
      FileShown(items0, rows, db, k, fileId);
    }

    /** Deleting a file.  `rev` is the file now at an old place of the deleted one, if there is one: then the
        task makes the deleted file a revision of it. */
    method Unlink(folder: int, name: string, rev: int) returns (ret: int)
      requires Valid() && (rev < 0 ==> HasRow(rows, -rev))
      modifies this, table
      ensures Valid() && db == old(db) && forall g :: table.Refs(g) == old(table.Refs(g))
      ensures ret == 0 || ret == ENOENT
      ensures ret == ENOENT <==> old(Sees(Key(Files, folder, name))) == None
      ensures ret == ENOENT ==> rows == old(rows) && depends == old(depends) && table.Items() == old(table.Items())
      ensures ret == 0 ==>
                && |rows| == |old(rows)| + 1 && rows[..|old(rows)|] == old(rows)
                && var r := rows[|old(rows)|];
                && r.id == NextId(old(rows)) && KeyOf(r) == Key(Files, folder, name) && (r.typ.Unlink? || r.typ.UnSetRev?)
                && old(Sees(KeyOf(r))) == Some(Target(r)) && (r.typ.UnSetRev? ==> r.file == rev)
                && depends == old(depends) + EdgeIf(r.typ.UnSetRev? && rev < 0, r.id, -rev) + EdgeIf(Target(r) < 0, r.id, -Target(r))
                              + NameEdges(old(rows), r.id, folder, name, {r.id})
                && (forall j :: Sees(j) == if j == KeyOf(r) then None else old(Sees(j)))
      ensures old(Agreed()) ==> Agreed()
      ensures old(Downward(rows, depends)) ==> Downward(rows, depends)
    {
      hide Inv, FilesSync, FromRows, DirIds, Legal, Table.Items, Table.Valid, Downward, Agree, NameEdges, Plain, Table.Refs, HasRow;
      ghost var items0 := table.Items();
      var k := Key(Files, folder, name);
      table.GetOrCreate(folder);
      var cr, found := TakeFile(k);
      if found.None? {
        table.Release(folder);
        return ENOENT;
      }
      var fileId := found.value;
      IdsOfFiles(rows, depends, db, k);
      var t := NextId(rows);
      var revOf := if fileId < 0 then 0 else rev;
      var r := if revOf != 0 then Row(t, UnSetRev, folder, name, revOf, 0, fileId) else Row(t, TaskType.Unlink, folder, name, fileId, 0, 0);
      var more := EdgeOn(t, cr) + EdgeIf(revOf < 0, t, -revOf) + EdgeIf(fileId < 0, t, -fileId) + NameEdges(rows, t, folder, name, {t});
      if cr.Some? { TaskOfEntry(items0, rows, cr.value); }
      EntryIsNamed(items0, rows, depends, db, k, cr, t);
      NameEdgesKnown(rows, t, folder, name, {t});
      Record(r, more, cr, items0);
      table.Release(folder);
      ret := 0;
    }

    // ---------- renames ----------

    /** A rename is two rows: a marker for the old name, and the task.  The caller has looked the file up. */
    method RenameFile(fileId: int, folder: int, name: string, toFolder: int, newName: string)
      requires Valid() && KnownFolder(rows, folder) && KnownFolder(rows, toFolder)
      requires Sees(Key(Files, folder, name)) == Some(fileId)
      modifies this, table
      ensures Valid() && db == old(db) && forall g :: table.Refs(g) == old(table.Refs(g))
      ensures var (f, t) := FileRename(old(rows), fileId, folder, name, toFolder, newName);
              && rows == Relocate(old(rows), fileId, toFolder) + [f, t] && depends == old(depends) + RenameEdges(old(rows), f, t, None)
              && forall j :: Sees(j) == if j == KeyOf(t) then Some(fileId) else if j == KeyOf(f) then None else old(Sees(j))
      ensures old(Agreed()) ==> Agreed()
      ensures old(Downward(rows, depends)) ==> (Downward(rows, depends) <==> folder != toFolder || name != newName)
      ensures folder == toFolder && name == newName ==>
                var (f, t) := FileRename(old(rows), fileId, folder, name, toFolder, newName); (t.id, f.id) in depends
    {
      hide Inv, FilesSync, FromRows, DirIds, Legal, Table.Items, Table.Valid, Downward, Agree, NameEdges, Plain, KnownFolder, Relocate, RenameEdges, Renamed;
      ghost var items0 := table.Items();
      var (f, t) := FileRename(rows, fileId, folder, name, toFolder, newName);
      IdsOfFiles(rows, depends, db, KeyOf(f));
      NewItems(items0, rows, depends, db, f);
      NewItems(items0, rows, depends, db, t);
      var cr, over := SwapEntries(f, t);
      RenameTrees(rows, items0, f, t, cr, over, table.Items());
      var more := RenameEdges(rows, f, t, cr);
      RenameEdgesKnown(rows, items0, f, t, cr);
      RenamedIsNamed(rows, depends, db, items0, f, t, cr);
      RenameKeeps(rows, depends, db, f, t, more);
      RenameSynced(rows, db, items0, f, t, table.Items());
      LegalPair(rows, Relocate(rows, fileId, toFolder), f, t, Files);
      if Legal(rows, Dirs) { LegalPair(rows, Relocate(rows, fileId, toFolder), f, t, Dirs); }
      rows := Relocate(rows, fileId, toFolder) + [f, t];
      depends := depends + more;
    }

    /** The entries of a rename go into the trees: the old name is hidden, and the new one replaced. */
    method SwapEntries(f: Row, t: Row) returns (cr: Option<Item>, over: Option<Item>)
      requires table.Valid() && f.typ == RenfileFrom && t.typ == RenfileTo && f.id != t.id
      requires HideItem(f) !in table.Items() && HideItem(t) !in table.Items() && AddItem(t) !in table.Items()
      modifies table
      ensures table.Valid() && forall g :: table.Refs(g) == old(table.Refs(g))
      ensures Renamed(old(table.Items()), f, t, cr, over, table.Items())
    {
      hide Table.Items, Table.Valid, Table.Refs;
      table.GetOrCreate(f.folder);
      cr := TakeOut(KeyOf(f));
      PutIn(HideItem(f));
      table.Release(f.folder);
      table.GetOrCreate(t.folder);
      over := TakeOut(KeyOf(t));
      PutIn(HideItem(t));
      PutIn(AddItem(t));
      table.Release(t.folder);
    }

    /** If the target of a folder's rename exists, a row for its removal goes into the table, but no entry into
        the trees. */
    method DeleteFolderIfEx(folder: int, name: string) returns (rm: Option<Row>, ghost on: Option<Item>)
      requires Valid()
      modifies this, table
      ensures Valid() && db == old(db) && table.Items() == old(table.Items()) && forall g :: table.Refs(g) == old(table.Refs(g))
      ensures rm.None? ==> rows == old(rows) && depends == old(depends) && !HasAdd(table.Items(), Key(Dirs, folder, name))
      ensures Shows(table.Items(), db, Key(Dirs, folder, name), if rm.Some? then Some(rm.value.sfolder) else None) && old(depends) <= depends
      ensures rm.Some? ==>
                && rm.value == Row(NextId(old(rows)), TaskType.Rmdir, folder, name, 0, rm.value.sfolder, 0)
                && rows == old(rows) + [rm.value] && HasRow(rows, rm.value.id)
                && depends == old(depends) + RemovalEdges(rm.value, on)
      ensures on.Some? ==> on.value in old(table.Items()) && on.value.add && on.value.key == Key(Dirs, folder, name)
      ensures on.Some? <==> HasAdd(old(table.Items()), Key(Dirs, folder, name))
      ensures old(Legal(rows, Dirs)) ==> Legal(rows, Dirs)
      ensures old(Downward(rows, depends)) ==> Downward(rows, depends)
    {
      hide Inv, FilesSync, FromRows, DirIds, Legal, Table.Items, Table.Valid, Downward, Plain;
      ghost var items0 := table.Items();
      var k := Key(Dirs, folder, name);
      var c, made := 0, None;
      rm, on := None, None;
      var found := table.Get(folder);
      if found {
        var mk := table.FindName(true, k);
        if mk.Some? {
          c, made, on := mk.value.id, mk, mk;
        } else {
          var hidden := table.FindName(false, k);
          if hidden.Some? {
            table.Release(folder);
            return;
          }
        }
        table.Release(folder);
      }
      assert on.None? ==> !HasAdd(items0, k);
      if on.Some? { EntryKnown(items0, rows, on.value); }
      NoNegativeFolder(rows, depends, db, k);
      FolderOfDb(rows, depends, db, k);
      if c == 0 {
        if folder < 0 { return; }
        if k in db { c := db[k]; }
        if c == 0 { return; }
      }
      var r := Row(NextId(rows), TaskType.Rmdir, folder, name, 0, c, 0);
      var more := RemovalEdges(r, made);
      RemovalKeeps(rows, depends, db, items0, r, more);
      LegalAppend(rows, r, Files);
      if Legal(rows, Dirs) { LegalAppend(rows, r, Dirs); }
      rows := rows + [r];
      depends := depends + more;
      rm := Some(r);
    }

    /** Renames a folder; the caller has looked it up.  The live trees then look for an entry to replace under
        the old name in the new folder, while a restart would replace the one under the new name. */
    method RenameFolder(id: int, folder: int, name: string, toFolder: int, newName: string)
      returns (ghost rm: Option<Row>, ghost on: Option<Item>, ghost f: Row, ghost t: Row, ghost mk: Option<Item>, ghost over: Option<Item>)
      requires Valid() && KnownFolder(rows, id) && KnownFolder(rows, folder) && KnownFolder(rows, toFolder) && id != 0 && id != folder
      modifies this, table
      ensures Valid() && db == old(db) && forall g :: table.Refs(g) == old(table.Refs(g))
      ensures KeyOf(f) == Key(Dirs, folder, name) && KeyOf(t) == Key(Dirs, toFolder, newName) && t.sfolder == id
      ensures f.typ == RenfolderFrom && t.typ == RenfolderTo && FolderSwapped(old(table.Items()), f, t, mk, over, table.Items())
      ensures Shows(old(table.Items()), db, KeyOf(t), if rm.Some? then Some(rm.value.sfolder) else None) && (rm.Some? ==> rm.value.typ.Rmdir?)
      ensures var rows1 := if rm.Some? then old(rows) + [rm.value] else old(rows);
              && rows == Relocate(rows1, id, toFolder) + [f, t]
              && depends == old(depends) + (if rm.Some? then RemovalEdges(rm.value, on) else {}) + FolderRenameEdges(rows1, f, t, rm, mk)
      ensures on.Some? ==> on.value in old(table.Items()) && on.value.add && on.value.key == KeyOf(t)
      ensures on.Some? <==> HasAdd(old(table.Items()), KeyOf(t))
      ensures forall j :: Sees(j) == if j == KeyOf(t) then Some(id) else if j == KeyOf(f) then None else old(Sees(j))
      ensures old(Agreed()) ==> (Agreed() <==> RenameAgrees(old(table.Items()), folder, name, toFolder, newName))
      ensures old(Downward(rows, depends)) ==> Downward(rows, depends)
    {
      hide Inv, FilesSync, FromRows, DirIds, Legal, Table.Items, Table.Valid, Downward, Agree, NameEdges, Plain, KnownFolder, Relocate, FolderRenameEdges,
        FolderSwapped, RenameAgrees, SameTasks, Rebuild, Step;
      ghost var items0, rows0 := table.Items(), rows;
      var rm', on' := DeleteFolderIfEx(toFolder, newName);
      rm, on := rm', on';
      StillKnown(rows0, rm, id);
      StillKnown(rows0, rm, folder);
      StillKnown(rows0, rm, toFolder);
      var n := NextId(rows);
      var from, to := Row(n, RenfolderFrom, folder, name, 0, id, 0), Row(n + 1, RenfolderTo, toFolder, newName, 0, id, n);
      NewItems(items0, rows, depends, db, from);
      NewItems(items0, rows, depends, db, to);
      var taken, replaced := SwapFolders(from, to);
      mk, over := taken, replaced;
      FolderSwap(items0, from, to, mk, over, table.Items());
      var more := FolderRenameEdges(rows, from, to, rm', taken);
      FolderRenameEdgesKnown(rows, items0, from, to, rm, mk);
      FolderRenameKeeps(rows, depends, db, from, to, more);
      FolderRenameSynced(rows, db, items0, from, to, table.Items());
      FolderRenameSees(rows0, rm, from, to, db);
      if rm.Some? { RebuildMore(rows0, rm.value); }
      FolderRenameAgree(rows0, items0, rm, from, to, mk, over, table.Items(), Relocate(rows, id, toFolder) + [from, to]);
      LegalPair(rows, Relocate(rows, id, toFolder), from, to, Files);
      if Agree(items0, rows0) && Legal(rows0, Dirs) {
        RemovedIsFree(rows0, items0, rm, KeyOf(to));
        LegalPair(rows, Relocate(rows, id, toFolder), from, to, Dirs);
      }
      rows := Relocate(rows, id, toFolder) + [from, to];
      depends := depends + more;
      f, t := from, to;
    }

    method SwapFolders(f: Row, t: Row) returns (mk: Option<Item>, over: Option<Item>)
      requires table.Valid() && f.typ == RenfolderFrom && t.typ == RenfolderTo && f.id != t.id
      requires HideItem(f) !in table.Items() && HideItem(t) !in table.Items() && AddItem(t) !in table.Items()
      modifies table
      ensures table.Valid() && forall g :: table.Refs(g) == old(table.Refs(g))
      ensures FolderSwapped(old(table.Items()), f, t, mk, over, table.Items())
    {
      hide Table.Items, Table.Valid, Table.Refs;
      table.GetOrCreate(f.folder);
      mk := TakeOut(KeyOf(f));
      PutIn(HideItem(f));
      table.Release(f.folder);
      table.GetOrCreate(t.folder);
      over := TakeOut(Key(Dirs, t.folder, f.name));
      PutIn(HideItem(t));
      PutIn(AddItem(t));
      table.Release(t.folder);
    }

    // ---------- tasks that were carried out ----------

    /** The entries of a task under a name are deleted. */
    method DropEntries(k: Key, task: nat) returns (cr: Option<Item>, un: Option<Item>)
      requires table.Valid()
      modifies table
      ensures table.Valid() && forall g :: table.Refs(g) == old(table.Refs(g))
      ensures OfTask(old(table.Items()), true, k, task, cr) && OfTask(old(table.Items()), false, k, task, un)
      ensures table.Items() == Less(Less(old(table.Items()), cr), un)
    {
      hide Table.Items, Table.Valid;
      cr, un := None, None;
      var found := table.Get(k.folder);
      if found {
        cr := table.FindTask(true, k, task);
        if cr.Some? { table.Delete(cr.value); }
        un := table.FindTask(false, k, task);
        if un.Some? { table.Delete(un.value); }
        table.Release(k.folder);
      }
    }

    /** The entry with the temporary id of a task, in the folder that its row names, gets the new id. */
    method PutId(task: nat, sfolder: int, id: int) returns (moved: Option<Item>)
      requires table.Valid() && id > 0
      requires forall i | i in table.Items() && i.add && i.key.space == Files :: i.id == TempId(task) ==> i.(id := id) !in table.Items()
      modifies table
      ensures table.Valid() && forall g :: table.Refs(g) == old(table.Refs(g))
      ensures IdPut(old(table.Items()), task, sfolder, id, moved, table.Items())
    {
      hide Table.Items, Table.Valid;
      moved := None;
      var there := table.Get(sfolder);
      if there {
        moved := table.FindId(Files, sfolder, TempId(task));
        if moved.Some? { table.SetId(moved.value, id); }
        table.Release(sfolder);
      }
    }

    /** The entries of a file that was uploaded; its id is put in where the file was renamed in the meantime. */
    method FileCreated(k: Key, task: nat, sfolder: int, id: int) returns (ghost cr: Option<Item>, ghost un: Option<Item>, ghost moved: Option<Item>)
      requires table.Valid() && k.space == Files && id > 0
      requires forall i | i in table.Items() && i.add && i.key.space == Files :: i.id == TempId(task) ==> i.(id := id) !in table.Items()
      modifies table
      ensures table.Valid() && forall g :: table.Refs(g) == old(table.Refs(g))
      ensures CreatedTrees(old(table.Items()), k, task, sfolder, id, cr, un, moved, table.Items())
    {
      hide Table.Items, Table.Valid, IdPut, OfTask;
      moved := None;
      var c, u := DropEntries(k, task);
      cr, un := c, u;
      if c.None? { moved := PutId(task, sfolder, id); }
    }

    /** An upload was carried out: the database gets the file, and the table loses the row. */
    method CompleteUpload(i: nat, id: int)
      requires Valid() && i < |rows| && IsUpload(rows[i].typ) && Ready(depends, rows[i].id) && ServerId(db, KeyOf(rows[i]), id)
      modifies this, table
      ensures Valid() && db == old(db)[old(KeyOf(rows[i])) := id] && forall g :: table.Refs(g) == old(table.Refs(g))
      ensures rows == SubRows(Drop(old(rows), i, 1), old(rows[i].id), id) && depends == Released(old(depends), {old(rows[i].id)})
      ensures forall k: Key :: Sees(k) == SubOption(k, old(Sees(k)), old(rows[i].id), id)
      ensures old(Agreed()) ==> Agreed()
      ensures old(Downward(rows, depends)) ==> Downward(rows, depends)
    {
      assert id > 0;
      hide Inv, FilesSync, FromRows, DirIds, Legal, Table.Items, Table.Valid, Agree, Plain, Ready, ServerId, Drop, SubRows, CreatedTrees, Released, SubOption,
        Lookup, KeyOf, Table.Refs, Downward;
      var r := rows[i];
      ghost var items0 := table.Items();
      NewId(rows, items0, r.id, id);
      ghost var cr, un, moved := FileCreated(KeyOf(r), r.id, r.sfolder, id);
      var db', rows' := db[KeyOf(r) := id], SubRows(Drop(rows, i, 1), r.id, id);
      UploadDone(rows, depends, db, items0, i, id, cr, un, moved, table.Items(), rows', db');
      DownOne(rows, depends, i, id);
      Install(rows', Released(depends, {r.id}), db');
    }

    /** A file was deleted: its row leaves the database, wherever it is. */
    method CompleteUnlink(i: nat)
      requires Valid() && i < |rows| && (rows[i].typ.Unlink? || rows[i].typ.UnSetRev?) && Ready(depends, rows[i].id)
      modifies this, table
      ensures Valid() && db == DeleteFile(old(db), old(Target(rows[i]))) && forall g :: table.Refs(g) == old(table.Refs(g))
      ensures rows == Drop(old(rows), i, 1) && depends == Released(old(depends), {old(rows[i].id)})
      ensures forall k: Key :: Sees(k) == old(Sees(k))
      ensures old(Agreed()) ==> Agreed()
      ensures old(Downward(rows, depends)) ==> Downward(rows, depends)
    {
      hide Inv, FilesSync, FromRows, DirIds, Legal, Table.Items, Table.Valid, Agree, Plain, Ready, Drop, Released, Lookup, KeyOf, Table.Refs, DeleteFile, Target, Downward;
      var r := rows[i];
      ghost var items0 := table.Items();
      var un := DropHide(KeyOf(r), r.id);
      var rows', db' := Drop(rows, i, 1), DeleteFile(db, Target(r));
      UnlinkDone(rows, depends, db, items0, i, un, table.Items(), rows', db');
      DownOne(rows, depends, i, 0);
      Install(rows', Released(depends, {r.id}), db');
    }

    method DropHide(k: Key, task: nat) returns (un: Option<Item>)
      requires table.Valid()
      modifies table
      ensures table.Valid() && forall g :: table.Refs(g) == old(table.Refs(g))
      ensures OfTask(old(table.Items()), false, k, task, un) && table.Items() == Less(old(table.Items()), un)
    {
      hide Table.Items, Table.Valid;
      un := None;
      var found := table.Get(k.folder);
      if found {
        un := table.FindTask(false, k, task);
        if un.Some? { table.Delete(un.value); }
        table.Release(k.folder);
      }
    }

    /** A file was renamed: its row of the database gets the new name, and both rows of the task go. */
    method CompleteRename(i: nat)
      requires Valid() && i < |rows| && rows[i].typ.RenfileTo? && Ready(depends, rows[i].id)
      modifies this, table
      ensures Valid() && i > 0 && db == MoveFile(old(db), old(rows[i].file), old(KeyOf(rows[i])))
      ensures forall g :: table.Refs(g) == old(table.Refs(g))
      ensures rows == Drop(old(rows), i - 1, 2) && depends == Released(old(depends), {old(rows[i - 1].id), old(rows[i].id)})
      ensures forall k: Key :: Sees(k) == old(Sees(k))
      ensures old(Agreed()) ==> Agreed()
      ensures old(Downward(rows, depends)) ==> Downward(rows, depends)
    {
      RenameRowsOf(rows, depends, db, i);
      hide Inv, FilesSync, FromRows, DirIds, Legal, Table.Items, Table.Valid, Agree, Plain, Ready, Drop, Released, Lookup, KeyOf, Table.Refs, MoveFile, Downward;
      var t := rows[i];
      var f := FindRow(t.int1);
      ghost var items0 := table.Items();
      var cr, un := DropEntries(KeyOf(t), t.id);
      ghost var items1 := table.Items();
      var from := DropHide(KeyOf(f), f.id);
      var rows', db' := Drop(rows, i - 1, 2), MoveFile(db, t.file, KeyOf(t));
      RenameDone(rows, depends, db, items0, i, cr, un, items1, from, table.Items(), rows', db');
      DownTwo(rows, depends, i - 1);
      Install(rows', Released(depends, {f.id, t.id}), db');
    }

    /** The query for a row by its id. */
    method FindRow(id: int) returns (r: Row)
      requires RowsOk(rows) && HasRow(rows, id)
      ensures r in rows && r.id == id
    {
      var i: nat := 0;
      while rows[i].id != id
        invariant i < |rows| && forall j | 0 <= j < i :: rows[j].id != id
        decreases |rows| - i
      {
        i := i + 1;
      }
      r := rows[i];
    }

    /** The tables after a task was carried out. */
    method Install(rows': seq<Row>, depends': set<(nat, nat)>, db': map<Key, int>)
      requires table.Valid() && Inv(rows', depends', db') && FilesSync(table.Items(), rows')
      requires FromRows(table.Items(), rows') && DirIds(table.Items(), rows') && Legal(rows', Files)
      modifies `rows, `depends, `db
      ensures Valid() && rows == rows' && depends == depends' && db == db'
      ensures Agree(table.Items(), rows') && Legal(rows', Dirs) ==> Agreed()
      ensures forall k :: Sees(k) == Lookup(Plain(rows', db'), k)
    {
      hide Inv, FilesSync, FromRows, DirIds, Legal, Table.Items, Table.Valid, Agree, Plain, Lookup;
      rows, depends, db := rows', depends', db';
    }
  }

  lemma DownOne(rows: seq<Row>, deps: set<(nat, nat)>, i: nat, id: int)
    requires i < |rows|
    ensures var left := Released(deps, {rows[i].id});
            Downward(rows, deps) ==> Downward(Drop(rows, i, 1), left) && Downward(SubRows(Drop(rows, i, 1), rows[i].id, id), left)
  {
    if Downward(rows, deps) {
      var gone := set j | i <= j < i + 1 :: rows[j].id;
      assert gone == {rows[i].id};
      hide Downward, Drop, Released;
      DownDrop(rows, deps, i, 1, gone);
      DownSub(Drop(rows, i, 1), Released(deps, gone), rows[i].id, id);
    }
  }

  lemma DownSub(rows: seq<Row>, deps: set<(nat, nat)>, t: nat, id: int)
    requires Downward(rows, deps)
    ensures Downward(SubRows(rows, t, id), deps)
  {
    var after := SubRows(rows, t, id);
    forall e | e in deps ensures DownTo(after, e.0, e.1) {
      assert DownTo(rows, e.0, e.1);
      var i :| 0 <= i < |rows| && rows[i].id == e.1 && Owner(rows[i]) < e.0;
      assert after[i] == SubRow(rows[i], t, id);
    }
  }

  lemma DownTwo(rows: seq<Row>, deps: set<(nat, nat)>, i: nat)
    requires i + 1 < |rows|
    ensures Downward(rows, deps) ==> Downward(Drop(rows, i, 2), Released(deps, {rows[i].id, rows[i + 1].id}))
  {
    if Downward(rows, deps) {
      var gone := set j | i <= j < i + 2 :: rows[j].id;
      assert gone == {rows[i].id, rows[i + 1].id};
      hide Downward, Drop, Released;
      DownDrop(rows, deps, i, 2, gone);
    }
  }

  /** What an upload keeps and shows. */
  lemma UploadDone(rows: seq<Row>, deps: set<(nat, nat)>, db: map<Key, int>, items0: set<Item>, i: nat, id: int,
                   cr: Option<Item>, un: Option<Item>, moved: Option<Item>, items: set<Item>, rows': seq<Row>, db': map<Key, int>)
    requires Inv(rows, deps, db) && FilesSync(items0, rows) && FromRows(items0, rows) && DirIds(items0, rows)
    requires i < |rows| && IsUpload(rows[i].typ) && Ready(deps, rows[i].id) && ServerId(db, KeyOf(rows[i]), id)
    requires CreatedTrees(items0, KeyOf(rows[i]), rows[i].id, rows[i].sfolder, id, cr, un, moved, items)
    requires rows' == SubRows(Drop(rows, i, 1), rows[i].id, id) && db' == db[KeyOf(rows[i]) := id]
    ensures Inv(rows', Released(deps, {rows[i].id}), db') && FilesSync(items, rows') && FromRows(items, rows') && DirIds(items, rows')
    ensures Agree(items0, rows) ==> Agree(items, rows')
    ensures forall k: Key :: Lookup(Plain(rows', db'), k) == SubOption(k, Lookup(Plain(rows, db), k), rows[i].id, id)
    ensures forall space | Legal(rows, space) :: Legal(rows', space)
  {
    LegalDone(rows, deps, db, i, id);
    RowsOf(rows, deps, db);
    hide Inv, FilesSync, FromRows, DirIds, Legal, Agree, Plain, Ready, ServerId, Drop, SubRows, CreatedTrees, Released, SubItems, WithoutTask, Rebuild, SubOption,
      RowsOk, KeyOf, Lookup, SubMap;
    UploadTrees(rows, deps, db, items0, i, id, cr, un, moved, items);
    FileUploaded(rows, deps, db, i, id);
    SubSees(Plain(rows, db), rows[i].id, id);
    UploadKeeps(rows, items0, i, id, rows', items);
  }

  lemma UnlinkDone(rows: seq<Row>, deps: set<(nat, nat)>, db: map<Key, int>, items0: set<Item>, i: nat, un: Option<Item>, items: set<Item>,
                   rows': seq<Row>, db': map<Key, int>)
    requires Inv(rows, deps, db) && FilesSync(items0, rows) && FromRows(items0, rows) && DirIds(items0, rows)
    requires i < |rows| && (rows[i].typ.Unlink? || rows[i].typ.UnSetRev?) && Ready(deps, rows[i].id)
    requires OfTask(items0, false, KeyOf(rows[i]), rows[i].id, un) && items == Less(items0, un)
    requires rows' == Drop(rows, i, 1) && db' == DeleteFile(db, Target(rows[i]))
    ensures Inv(rows', Released(deps, {rows[i].id}), db') && Plain(rows', db') == Plain(rows, db)
    ensures FilesSync(items, rows') && FromRows(items, rows') && DirIds(items, rows') && (Agree(items0, rows) ==> Agree(items, rows'))
    ensures forall space | Legal(rows, space) :: Legal(rows', space)
  {
    RowsOf(rows, deps, db);
    LegalDone(rows, deps, db, i, 0);
    UnlinkTrees(rows, items0, i, un, items);
    hide Inv, FilesSync, FromRows, DirIds, Legal, Agree, Plain, Ready, Drop, Released, Rebuild, RowsOk, DeleteFile, Target, Lookup, KeyOf, OfTask, Less,
      WithoutTask, WithoutTasks;
    FileDeleted(rows, deps, db, i);
    OneTask(items0, rows[i].id);
    OneTask(Rebuild(rows), rows[i].id);
    UnlinkKeeps(rows, items0, i, rows', items);
  }

  lemma UnlinkTrees(rows: seq<Row>, items0: set<Item>, i: nat, un: Option<Item>, items: set<Item>)
    requires RowsOk(rows) && FilesSync(items0, rows) && FromRows(items0, rows) && i < |rows| && (rows[i].typ.Unlink? || rows[i].typ.UnSetRev?)
    requires OfTask(items0, false, KeyOf(rows[i]), rows[i].id, un) && items == Less(items0, un)
    ensures items == WithoutTask(items0, rows[i].id)
  {
    hide FilesSync, FromRows, RowsOk, OfTask, WithoutTask;
    NoAddOfTask(rows, items0, i);
    EntriesGone(rows, items0, i, None, un);
  }

  lemma OneTask(items: set<Item>, t: nat)
    ensures WithoutTask(items, t) == WithoutTasks(items, {t})
  {
  }

  lemma UnlinkKeeps(rows: seq<Row>, items: set<Item>, i: nat, rows': seq<Row>, items': set<Item>)
    requires RowsOk(rows) && FilesSync(items, rows) && FromRows(items, rows) && DirIds(items, rows) && i < |rows|
    requires rows[i].typ.Unlink? || rows[i].typ.UnSetRev?
    requires rows' == Drop(rows, i, 1)
    requires items' == WithoutTasks(items, {rows[i].id}) && Rebuild(rows') == WithoutTasks(Rebuild(rows), {rows[i].id})
    ensures FilesSync(items', rows') && FromRows(items', rows') && DirIds(items', rows')
    ensures Agree(items, rows) ==> Agree(items', rows')
  {
    hide FilesSync, DirIds, Agree, Rebuild, Drop, FromRows, RowsOk, WithoutTasks;
    var gone := set j | i <= j < i + 1 :: rows[j].id;
    assert gone == {rows[i].id};
    DropKeeps(rows, items, i, 1, rows', items', gone);
  }

  lemma NoAddOfTask(rows: seq<Row>, items: set<Item>, i: nat)
    requires RowsOk(rows) && FilesSync(items, rows) && FromRows(items, rows) && i < |rows| && KeyOf(rows[i]).space == Files && !Adds(rows[i].typ)
    ensures OfTask(items, true, KeyOf(rows[i]), rows[i].id, None)
  {
    hide RowsOk, FilesSync, FromRows, KeyOf;
    forall a | a in items && a.add && a.task == rows[i].id ensures a.key != KeyOf(rows[i]) {
      EntriesOfTask(rows, items, i, a);
    }
  }

  function WithoutTasks(items: set<Item>, gone: set<nat>): set<Item> { set i | i in items && i.task !in gone }

  lemma DropSync(items: set<Item>, rows: seq<Row>, rows': seq<Row>, gone: set<nat>)
    requires Rebuild(rows') == WithoutTasks(Rebuild(rows), gone)
    requires forall a | a in items && a.task in gone :: a.key.space == Files
    ensures FilesSync(items, rows) ==> FilesSync(WithoutTasks(items, gone), rows')
    ensures Agree(items, rows) ==> Agree(WithoutTasks(items, gone), rows')
  {
    hide Rebuild;
    var after := WithoutTasks(items, gone);
    if Agree(items, rows) {
      forall x | x in Rebuild(rows') && x !in after ensures !x.add && x.key.space == Dirs && HasHide(after, x.key) {
        var h :| h in items && !h.add && h.key == x.key;
        assert h in after;
      }
    }
  }

  /** What dropping rows about files keeps. */
  lemma DropKeeps(rows: seq<Row>, items: set<Item>, i: nat, n: nat, rows': seq<Row>, items': set<Item>, gone: set<nat>)
    requires RowsOk(rows) && FilesSync(items, rows) && FromRows(items, rows) && DirIds(items, rows) && i + n <= |rows|
    requires rows' == Drop(rows, i, n) && gone == (set j | i <= j < i + n :: rows[j].id)
    requires forall j | i <= j < i + n :: KeyOf(rows[j]).space == Files
    requires items' == WithoutTasks(items, gone) && Rebuild(rows') == WithoutTasks(Rebuild(rows), gone)
    ensures FilesSync(items', rows') && FromRows(items', rows') && DirIds(items', rows')
    ensures Agree(items, rows) ==> Agree(items', rows')
  {
    DropAt(rows, i, n);
    hide FilesSync, DirIds, Agree, Rebuild, Drop, FromRows, RowsOk;
    forall a | a in items && a.task in gone ensures a.key.space == Files {
      var j :| i <= j < i + n && rows[j].id == a.task;
      TaskSpace(rows, items, j, a);
    }
    DropSync(items, rows, rows', gone);
    forall x | x in items' ensures exists a :: a in items && Alike(a, x) && a.task !in gone { assert Alike(x, x); }
    forall j | 0 <= j < |rows'| ensures SubRow(rows'[j], 0, 0) == rows'[j] { NoSub(rows'[j]); }
    OtherRows(rows, items, i, n, 0, 0, rows', items', gone);
  }

  lemma NoSub(r: Row)
    ensures SubRow(r, 0, 0) == r
  {
  }

  lemma RenameRowsOf(rows: seq<Row>, deps: set<(nat, nat)>, db: map<Key, int>, i: nat)
    requires Inv(rows, deps, db) && i < |rows| && rows[i].typ.RenfileTo?
    ensures RowsOk(rows) && i > 0 && rows[i - 1].typ.RenfileFrom? && rows[i].int1 == rows[i - 1].id && rows[i].file == rows[i - 1].file
    ensures HasRow(rows, rows[i].int1) && forall r | r in rows && r.id == rows[i].int1 :: r == rows[i - 1]
  {
    RowsOf(rows, deps, db);
    hide Inv;
    assert Paired(rows, i - 1);
    hide RowsOk;
    OneRow(rows, i - 1);
  }

  /** Ids are unique. */
  lemma OneRow(rows: seq<Row>, i: nat)
    requires RowsOk(rows) && i < |rows|
    ensures HasRow(rows, rows[i].id) && forall r | r in rows && r.id == rows[i].id :: r == rows[i]
  {
    assert forall j, m | 0 <= j < m < |rows| :: rows[j].id < rows[m].id;
    hide RowsOk;
    forall r | r in rows && r.id == rows[i].id ensures r == rows[i] {
      var j :| 0 <= j < |rows| && rows[j] == r;
    }
  }

  lemma RenameDone(rows: seq<Row>, deps: set<(nat, nat)>, db: map<Key, int>, items0: set<Item>, i: nat,
                   cr: Option<Item>, un: Option<Item>, items1: set<Item>, from: Option<Item>, items: set<Item>, rows': seq<Row>, db': map<Key, int>)
    requires Inv(rows, deps, db) && FilesSync(items0, rows) && FromRows(items0, rows) && DirIds(items0, rows)
    requires 0 < i < |rows| && rows[i - 1].typ.RenfileFrom? && rows[i].typ.RenfileTo? && Ready(deps, rows[i].id)
    requires OfTask(items0, true, KeyOf(rows[i]), rows[i].id, cr) && OfTask(items0, false, KeyOf(rows[i]), rows[i].id, un)
    requires items1 == Less(Less(items0, cr), un)
    requires OfTask(items1, false, KeyOf(rows[i - 1]), rows[i - 1].id, from) && items == Less(items1, from)
    requires rows' == Drop(rows, i - 1, 2) && db' == MoveFile(db, rows[i].file, KeyOf(rows[i]))
    ensures Inv(rows', Released(deps, {rows[i - 1].id, rows[i].id}), db') && Plain(rows', db') == Plain(rows, db)
    ensures FilesSync(items, rows') && FromRows(items, rows') && DirIds(items, rows') && (Agree(items0, rows) ==> Agree(items, rows'))
    ensures forall space | Legal(rows, space) :: Legal(rows', space)
  {
    RowsOf(rows, deps, db);
    LegalRenamed(rows, deps, db, i - 1);
    RenamedTrees(rows, items0, i, cr, un, items1, from, items);
    hide Inv, FilesSync, FromRows, DirIds, Legal, Agree, Plain, Ready, Drop, Released, Rebuild, RowsOk, MoveFile, Lookup, KeyOf, OfTask, Less,
      WithoutTask, WithoutTasks;
    FileRenamed(rows, deps, db, i - 1);
    TwoTasks(Rebuild(rows), rows[i - 1].id, rows[i].id);
    RenamedKeeps(rows, items0, i - 1, rows', items);
  }

  lemma RenamedTrees(rows: seq<Row>, items0: set<Item>, i: nat, cr: Option<Item>, un: Option<Item>, items1: set<Item>, from: Option<Item>, items: set<Item>)
    requires RowsOk(rows) && FilesSync(items0, rows) && FromRows(items0, rows)
    requires 0 < i < |rows| && rows[i - 1].typ.RenfileFrom? && rows[i].typ.RenfileTo?
    requires OfTask(items0, true, KeyOf(rows[i]), rows[i].id, cr) && OfTask(items0, false, KeyOf(rows[i]), rows[i].id, un)
    requires items1 == Less(Less(items0, cr), un)
    requires OfTask(items1, false, KeyOf(rows[i - 1]), rows[i - 1].id, from) && items == Less(items1, from)
    ensures items == WithoutTasks(items0, {rows[i - 1].id, rows[i].id})
  {
    assert rows[i - 1].id < rows[i].id;
    hide RowsOk, FilesSync, FromRows;
    EntriesGone(rows, items0, i, cr, un);
    NoAddOfTask(rows, items0, i - 1);
    SameOfTask(items0, items1, rows[i].id, KeyOf(rows[i - 1]), rows[i - 1].id, from);
    EntriesGone(rows, items0, i - 1, None, from);
    hide OfTask, WithoutTask, WithoutTasks, Less;
    LessCommutes(items0, rows[i].id, rows[i - 1].id, from);
    TwoTasks(items0, rows[i - 1].id, rows[i].id);
  }

  lemma LessCommutes(items: set<Item>, t: nat, f: nat, x: Option<Item>)
    requires Less(items, x) == WithoutTask(items, f)
    ensures Less(WithoutTask(items, t), x) == WithoutTask(WithoutTask(items, f), t)
  {
    forall i ensures i in Less(WithoutTask(items, t), x) <==> i in Less(items, x) && i.task != t {}
  }

  lemma SameOfTask(items0: set<Item>, items1: set<Item>, t: nat, k: Key, task: nat, x: Option<Item>)
    requires items1 == WithoutTask(items0, t) && task != t && OfTask(items1, false, k, task, x)
    ensures OfTask(items0, false, k, task, x)
  {
  }

  lemma TwoTasks(all: set<Item>, f: nat, t: nat)
    ensures WithoutTask(WithoutTask(all, f), t) == WithoutTasks(all, {f, t})
  {
  }

  lemma RenamedKeeps(rows: seq<Row>, items: set<Item>, i: nat, rows': seq<Row>, items': set<Item>)
    requires RowsOk(rows) && FilesSync(items, rows) && FromRows(items, rows) && DirIds(items, rows) && i + 1 < |rows|
    requires rows[i].typ.RenfileFrom? && rows[i + 1].typ.RenfileTo? && rows' == Drop(rows, i, 2)
    requires items' == WithoutTasks(items, {rows[i].id, rows[i + 1].id})
    requires Rebuild(rows') == WithoutTasks(Rebuild(rows), {rows[i].id, rows[i + 1].id})
    ensures FilesSync(items', rows') && FromRows(items', rows') && DirIds(items', rows')
    ensures Agree(items, rows) ==> Agree(items', rows')
  {
    hide FilesSync, DirIds, Agree, Rebuild, Drop, FromRows, RowsOk, WithoutTasks;
    var gone := set j | i <= j < i + 2 :: rows[j].id;
    assert gone == {rows[i].id, rows[i + 1].id};
    DropKeeps(rows, items, i, 2, rows', items', gone);
  }

  function SubOption(k: Key, v: Option<int>, t: nat, id: int): Option<int> {
    if v.Some? && k.space == Files then Some(SubId(v.value, t, id)) else v
  }

  /** `x` is the entry of the task under the name, if there is one. */
  ghost predicate OfTask(items: set<Item>, add: bool, k: Key, t: nat, x: Option<Item>) {
    if x.None? then forall i | i in items :: !(i.add == add && i.key == k && i.task == t)
    else x.value in items && x.value.add == add && x.value.key == k && x.value.task == t
  }

  /** The id of `moved` was set. */
  ghost predicate IdPut(items1: set<Item>, t: nat, sfolder: int, id: int, moved: Option<Item>, items: set<Item>) {
    && (moved.None? ==> forall i | i in items1 :: !(i.add && i.key.space == Files && i.key.folder == sfolder && i.id == TempId(t)))
    && (moved.Some? ==> moved.value in items1 && moved.value.add && moved.value.key.space == Files && moved.value.key.folder == sfolder && moved.value.id == TempId(t))
    && items == if moved.None? then items1 else items1 - {moved.value} + {moved.value.(id := id)}
  }

  /** The trees after an upload, if `cr` and `un` were deleted and the id of `moved` was set. */
  ghost predicate CreatedTrees(items0: set<Item>, k: Key, t: nat, sfolder: int, id: int, cr: Option<Item>, un: Option<Item>, moved: Option<Item>,
                               items: set<Item>) {
    var items1 := Less(Less(items0, cr), un);
    && OfTask(items0, true, k, t, cr) && OfTask(items0, false, k, t, un)
    && if cr.Some? then moved.None? && items == items1 else IdPut(items1, t, sfolder, id, moved, items)
  }

  /** An entry shows what the name stands for. */
  lemma EntryIsSeen(rows: seq<Row>, db: map<Key, int>, i: Item)
    requires i in Rebuild(rows) && i.add
    ensures Lookup(Plain(rows, db), i.key) == Some(i.id)
  {
    OverlayMeans(rows, db, i.key, Some(i.id));
  }

  /** The entry with a temporary id is the only one, in the folder of the task's row. */
  lemma TempEntry(rows: seq<Row>, deps: set<(nat, nat)>, db: map<Key, int>, i: nat, a: Item)
    requires Inv(rows, deps, db) && i < |rows| && IsUpload(rows[i].typ)
    requires a in Rebuild(rows) && a.add && a.key.space == Files && a.id == TempId(rows[i].id)
    ensures a.key.folder == rows[i].sfolder
    ensures forall b | b in Rebuild(rows) && b.add && b.key.space == Files && b.id == a.id :: b == a
  {
    var m := Plain(rows, db);
    EntryIsSeen(rows, db, a);
    assert TempAt(rows, a.id, a.key.folder);
    var j :| 0 <= j < |rows| && IsUpload(rows[j].typ) && TempId(rows[j].id) == a.id && rows[j].sfolder == a.key.folder;
    assert j == i;
    forall b | b in Rebuild(rows) && b.add && b.key.space == Files && b.id == a.id ensures b == a {
      EntryIsSeen(rows, db, b);
      AddsUnique(rows, a, b);
    }
  }

  lemma RowsOf(rows: seq<Row>, deps: set<(nat, nat)>, db: map<Key, int>)
    requires Inv(rows, deps, db)
    ensures RowsOk(rows)
  {
  }

  lemma NewId(rows: seq<Row>, items: set<Item>, t: nat, id: int)
    requires FilesSync(items, rows) && id > 0
    ensures forall a | a in items && a.add && a.key.space == Files :: a.id == TempId(t) ==> a.(id := id) !in items
  {
    hide Rebuild;
    forall a | a in items && a.add && a.key.space == Files && a.id == TempId(t) ensures a.(id := id) !in items {
      if a.(id := id) in items { AddsUnique(rows, a, a.(id := id)); }
    }
  }

  /** The entries of a task about a file are those of its row. */
  lemma EntriesOfTask(rows: seq<Row>, items: set<Item>, i: nat, a: Item)
    requires RowsOk(rows) && FilesSync(items, rows) && FromRows(items, rows) && i < |rows| && KeyOf(rows[i]).space == Files
    requires a in items && a.task == rows[i].id
    ensures a in ItemsOf(rows[i])
  {
    hide Rebuild, ItemsOf, KeyOf;
    var j :| 0 <= j < |rows| && rows[j].id == a.task && KeyOf(rows[j]) == a.key;
    assert j == i;
    assert a in Rebuild(rows);
    RebuildItems(rows, a);
    var m :| 0 <= m < |rows| && a in ItemsOf(rows[m]);
    TaskOfItem(rows[m], a);
    assert m == i;
  }

  lemma TaskOfItem(r: Row, a: Item)
    requires a in ItemsOf(r)
    ensures a.task == r.id
  {
  }

  lemma SubOne(items: set<Item>, t: nat, id: int, a: Option<Item>)
    requires a.Some? ==> a.value in items && a.value.add && a.value.key.space == Files && a.value.id == TempId(t)
    requires forall b | b in items && b.add && b.key.space == Files && b.id == TempId(t) :: a == Some(b)
    ensures SubItems(items, t, id) == if a.None? then items else items - {a.value} + {a.value.(id := id)}
  {
    var r := if a.None? then items else items - {a.value} + {a.value.(id := id)};
    forall b | b in items ensures SubItem(b, t, id) == if a == Some(b) then b.(id := id) else b {}
    forall x ensures x in SubItems(items, t, id) <==> x in r {
      if x in r {
        if a.Some? && x == a.value.(id := id) { assert x == SubItem(a.value, t, id); } else { assert x == SubItem(x, t, id); }
      }
    }
  }

  /** Deleting the entries of a task under its name deletes all its entries. */
  lemma EntriesGone(rows: seq<Row>, items: set<Item>, i: nat, cr: Option<Item>, un: Option<Item>)
    requires RowsOk(rows) && FilesSync(items, rows) && FromRows(items, rows) && i < |rows| && KeyOf(rows[i]).space == Files
    requires OfTask(items, true, KeyOf(rows[i]), rows[i].id, cr) && OfTask(items, false, KeyOf(rows[i]), rows[i].id, un)
    ensures Less(Less(items, cr), un) == WithoutTask(items, rows[i].id)
    ensures if cr.Some? then cr.value == AddItem(rows[i]) && AddItem(rows[i]) in items else AddItem(rows[i]) !in items
  {
    var r := rows[i];
    hide RowsOk, FilesSync, FromRows, KeyOf;
    forall a | a in items && a.task == r.id ensures (a.add ==> cr == Some(a) && a == AddItem(r)) && (!a.add ==> un == Some(a)) {
      EntriesOfTask(rows, items, i, a);
      TaskSpace(rows, items, i, a);
      ItemKinds(r, a);
      if cr.Some? { EntriesOfTask(rows, items, i, cr.value); ItemKinds(r, cr.value); }
      if un.Some? { EntriesOfTask(rows, items, i, un.value); ItemKinds(r, un.value); }
    }
    AddItemOf(r);
  }

  lemma ItemKinds(r: Row, a: Item)
    requires a in ItemsOf(r)
    ensures a == if a.add then AddItem(r) else HideItem(r)
  {
  }

  lemma AddItemOf(r: Row)
    ensures AddItem(r).add && AddItem(r).task == r.id && AddItem(r).key == KeyOf(r)
  {
  }

  /** After an upload the entries of its task are gone, and the new id is everywhere. */
  lemma UploadTrees(rows: seq<Row>, deps: set<(nat, nat)>, db: map<Key, int>, items0: set<Item>, i: nat, id: int,
                    cr: Option<Item>, un: Option<Item>, moved: Option<Item>, items: set<Item>)
    requires Inv(rows, deps, db) && FilesSync(items0, rows) && FromRows(items0, rows) && i < |rows| && IsUpload(rows[i].typ)
    requires CreatedTrees(items0, KeyOf(rows[i]), rows[i].id, rows[i].sfolder, id, cr, un, moved, items)
    ensures items == SubItems(WithoutTask(items0, rows[i].id), rows[i].id, id)
  {
    var r, rest := rows[i], WithoutTask(items0, rows[i].id);
    EntriesGone(rows, items0, i, cr, un);
    hide Inv, FromRows, Rebuild;
    forall b | b in rest && b.add && b.key.space == Files && b.id == TempId(r.id) ensures moved == Some(b) {
      TempEntry(rows, deps, db, i, b);
      assert b in Rebuild(rows) && b in items0 && b.task != r.id;
    }
    SubOne(rest, r.id, id, moved);
  }

  lemma SubSees(m: map<Key, int>, t: nat, id: int)
    ensures forall k: Key :: Lookup(SubMap(m, t, id), k) == SubOption(k, Lookup(m, k), t, id)
  {
  }

  lemma SubSync(items: set<Item>, rows: seq<Row>, rows': seq<Row>, t: nat, id: int)
    requires Rebuild(rows') == SubItems(WithoutTask(Rebuild(rows), t), t, id)
    requires forall a | a in items && a.task == t :: a.key.space == Files
    ensures FilesSync(items, rows) ==> FilesSync(SubItems(WithoutTask(items, t), t, id), rows')
    ensures Agree(items, rows) ==> Agree(SubItems(WithoutTask(items, t), t, id), rows')
  {
    SubItemSame(t, id);
    hide Rebuild, SubItem;
    var after := SubItems(WithoutTask(items, t), t, id);
    if Agree(items, rows) {
      forall x | x in Rebuild(rows') ensures x in after || (!x.add && x.key.space == Dirs && HasHide(after, x.key)) {
        var a :| a in Rebuild(rows) && a.task != t && x == SubItem(a, t, id);
        if a !in items {
          var h :| h in items && !h.add && h.key == a.key;
          assert SubItem(h, t, id) in after;
        }
      }
    }
  }

  /** Entries whose tasks are not among `gone`, with perhaps other ids of files. */
  ghost predicate LeftOf(items: set<Item>, items': set<Item>, gone: set<nat>) {
    forall x | x in items' :: exists a :: a in items && Alike(a, x) && a.task !in gone
  }

  predicate Alike(a: Item, x: Item) { x.key == a.key && x.add == a.add && x.task == a.task && (a.key.space == Dirs ==> x.id == a.id) }

  /** The rows of other tasks are still there. */
  lemma OtherRows(rows: seq<Row>, items: set<Item>, i: nat, n: nat, t: nat, id: int, rows': seq<Row>, items': set<Item>, gone: set<nat>)
    requires FromRows(items, rows) && DirIds(items, rows) && i + n <= |rows|
    requires |rows'| == |rows| - n
    requires forall j | 0 <= j < |rows'| :: SubRow(Drop(rows, i, n)[j], t, id) == rows'[j]
    requires LeftOf(items, items', gone) && forall j | i <= j < i + n :: rows[j].id in gone
    requires forall j | i <= j < i + n :: !rows[j].typ.Mkdir?
    ensures FromRows(items', rows') && DirIds(items', rows')
  {
    DropAt(rows, i, n);
    hide Drop;
    forall x | x in items' ensures exists j :: 0 <= j < |rows'| && rows'[j].id == x.task && KeyOf(rows'[j]) == x.key {
      var a :| a in items && Alike(a, x) && a.task !in gone;
      var j :| 0 <= j < |rows| && rows[j].id == a.task && KeyOf(rows[j]) == a.key;
      var j' := if j < i then j else j - n;
      assert rows'[j'] == SubRow(rows[j], t, id);
    }
    forall x | x in items' && x.add && x.key.space == Dirs ensures KnownFolder(rows', x.id) && x.id != 0 {
      var a :| a in items && Alike(a, x) && a.task !in gone;
      StillKnownFolder(rows, i, n, t, id, rows', x.id);
    }
    forall j | 0 <= j < |rows'| && rows'[j].typ.RenfolderTo? ensures KnownFolder(rows', rows'[j].sfolder) && rows'[j].sfolder != 0 {
      var j0 := if j < i then j else j + n;
      assert rows'[j] == SubRow(rows[j0], t, id);
      StillKnownFolder(rows, i, n, t, id, rows', rows[j0].sfolder);
    }
  }

  lemma StillKnownFolder(rows: seq<Row>, i: nat, n: nat, t: nat, id: int, rows': seq<Row>, folder: int)
    requires KnownFolder(rows, folder) && i + n <= |rows| && |rows'| == |rows| - n
    requires forall j | 0 <= j < |rows'| :: SubRow(Drop(rows, i, n)[j], t, id) == rows'[j]
    requires forall j | i <= j < i + n :: !rows[j].typ.Mkdir?
    ensures KnownFolder(rows', folder)
  {
    DropAt(rows, i, n);
    hide Drop;
    if folder < 0 {
      var j :| 0 <= j < |rows| && rows[j].typ.Mkdir? && TempId(rows[j].id) == folder;
      assert rows'[if j < i then j else j - n] == SubRow(rows[j], t, id);
    }
  }

  lemma UploadKeeps(rows: seq<Row>, items: set<Item>, i: nat, id: int, rows': seq<Row>, items': set<Item>)
    requires RowsOk(rows) && FilesSync(items, rows) && FromRows(items, rows) && DirIds(items, rows) && i < |rows| && IsUpload(rows[i].typ)
    requires rows' == SubRows(Drop(rows, i, 1), rows[i].id, id)
    requires items' == SubItems(WithoutTask(items, rows[i].id), rows[i].id, id)
    requires Rebuild(rows') == SubItems(WithoutTask(Rebuild(rows), rows[i].id), rows[i].id, id)
    ensures FilesSync(items', rows') && FromRows(items', rows') && DirIds(items', rows')
    ensures Agree(items, rows) ==> Agree(items', rows')
  {
    hide FilesSync, DirIds, Agree, Rebuild, Drop, SubItems, WithoutTask, FromRows, RowsOk, SubRows;
    UploadSync(rows, items, i, id, rows');
    UploadRows(rows, items, i, id, rows');
  }

  lemma UploadSync(rows: seq<Row>, items: set<Item>, i: nat, id: int, rows': seq<Row>)
    requires RowsOk(rows) && FromRows(items, rows) && i < |rows| && IsUpload(rows[i].typ)
    requires Rebuild(rows') == SubItems(WithoutTask(Rebuild(rows), rows[i].id), rows[i].id, id)
    ensures var items' := SubItems(WithoutTask(items, rows[i].id), rows[i].id, id);
            (FilesSync(items, rows) ==> FilesSync(items', rows')) && (Agree(items, rows) ==> Agree(items', rows'))
  {
    assert KeyOf(rows[i]).space == Files;
    hide FilesSync, Agree, Rebuild, SubItems, WithoutTask, FromRows, RowsOk, KeyOf;
    forall a | a in items && a.task == rows[i].id ensures a.key.space == Files { TaskSpace(rows, items, i, a); }
    SubSync(items, rows, rows', rows[i].id, id);
  }

  lemma UploadRows(rows: seq<Row>, items: set<Item>, i: nat, id: int, rows': seq<Row>)
    requires FromRows(items, rows) && DirIds(items, rows) && i < |rows| && IsUpload(rows[i].typ)
    requires rows' == SubRows(Drop(rows, i, 1), rows[i].id, id)
    ensures var items' := SubItems(WithoutTask(items, rows[i].id), rows[i].id, id); FromRows(items', rows') && DirIds(items', rows')
  {
    DropLen(rows, i);
    hide DirIds, Drop, SubItems, WithoutTask, LeftOf, FromRows, KeyOf, SubRow, SubItem;
    SubLeft(items, rows[i].id, id);
    OtherRows(rows, items, i, 1, rows[i].id, id, rows', SubItems(WithoutTask(items, rows[i].id), rows[i].id, id), {rows[i].id});
  }

  lemma SubLeft(items: set<Item>, t: nat, id: int)
    ensures LeftOf(items, SubItems(WithoutTask(items, t), t, id), {t})
  {
    forall x | x in SubItems(WithoutTask(items, t), t, id) ensures exists a :: a in items && Alike(a, x) && a.task !in {t} {
      var a :| a in WithoutTask(items, t) && x == SubItem(a, t, id);
      assert Alike(a, x);
    }
  }

  lemma TaskSpace(rows: seq<Row>, items: set<Item>, i: nat, a: Item)
    requires RowsOk(rows) && FromRows(items, rows) && i < |rows| && a in items && a.task == rows[i].id
    ensures a.key == KeyOf(rows[i])
  {
    var j :| 0 <= j < |rows| && rows[j].id == a.task && KeyOf(rows[j]) == a.key;
    assert j == i;
  }

  lemma SubItemSame(t: nat, id: int)
    ensures forall a: Item :: SubItem(a, t, id).key == a.key && SubItem(a, t, id).add == a.add && SubItem(a, t, id).task == a.task
  {
  }

  /** The two rows of a file's rename. */
  function FileRename(rows: seq<Row>, fileId: int, folder: int, name: string, toFolder: int, newName: string): (Row, Row) {
    var id := NextId(rows);
    (Row(id, RenfileFrom, folder, name, fileId, 0, 0), Row(id + 1, RenfileTo, toFolder, newName, fileId, 0, id))
  }

  /** The trees after a rename, if `cr` and `over` were taken out. */
  ghost predicate Renamed(items0: set<Item>, f: Row, t: Row, cr: Option<Item>, over: Option<Item>, items2: set<Item>) {
    var items1 := Less(items0, cr) + {HideItem(f)};
    && (if cr.None? then !HasAdd(items0, KeyOf(f)) else cr.value in items0 && cr.value.add && cr.value.key == KeyOf(f))
    && (if over.None? then !HasAdd(items1, KeyOf(t)) else over.value in items1 && over.value.add && over.value.key == KeyOf(t))
    && items2 == Less(items1, over) + {HideItem(t)} + {AddItem(t)}
  }

  /** The dependencies of a rename. */
  function RenameEdges(rows: seq<Row>, f: Row, t: Row, cr: Option<Item>): set<(nat, nat)> {
    OwnEdges(f, t, t.file, cr) + NameEdges(rows + [f], t.id, f.folder, f.name, {t.id, f.id}) + NameEdges(rows + [f], t.id, t.folder, t.name, {t.id})
  }

  /** Those on the tasks that make what is renamed, the folders, and the entry of the old name. */
  function OwnEdges(f: Row, t: Row, id: int, cr: Option<Item>): set<(nat, nat)> {
    EdgeIf(id < 0, t.id, -id) + EdgeIf(f.folder < 0, t.id, -f.folder) + EdgeIf(t.folder < 0 && t.folder != f.folder, t.id, -t.folder)
    + EdgeOn(t.id, cr)
  }

  lemma OwnEdgesKnown(rows: seq<Row>, items: set<Item>, f: Row, t: Row, id: int, cr: Option<Item>)
    requires FromRows(items, rows) && KnownFolder(rows, f.folder) && KnownFolder(rows, t.folder)
    requires (id < 0 ==> HasRow(rows, -id)) && (cr.Some? ==> cr.value in items)
    ensures forall e | e in OwnEdges(f, t, id, cr) :: e.0 == t.id && HasRow(rows, e.1)
  {
    if f.folder < 0 { KnownHasRow(rows, f.folder); }
    if t.folder < 0 { KnownHasRow(rows, t.folder); }
    if cr.Some? { TaskOfEntry(items, rows, cr.value); }
    hide FromRows, KnownFolder, HasRow;
  }

  lemma OwnEdgesWait(rows: seq<Row>, f: Row, t: Row, id: int, cr: Option<Item>)
    ensures EdgeIf(t.folder < 0, t.id, -t.folder) <= OwnEdges(f, t, id, cr)
  {
  }

  lemma NameEdgesApart(rows: seq<Row>, f: Row, t: nat, folder: int, name: string, not: set<nat>)
    requires f.id in not || f.folder != folder || f.name != name
    ensures forall e | e in NameEdges(rows + [f], t, folder, name, not) :: HasRow(rows, e.1)
  {
    forall e | e in NameEdges(rows + [f], t, folder, name, not) ensures HasRow(rows, e.1) {
      var r :| r in rows + [f] && r.folder == folder && r.name == name && r.id !in not && e == (t, r.id);
      var j :| 0 <= j < |rows + [f]| && (rows + [f])[j] == r;
      assert j < |rows| || r == f;
      assert rows[j].id == e.1;
    }
  }

  lemma RenameEdgesKnown(rows: seq<Row>, items: set<Item>, f: Row, t: Row, cr: Option<Item>)
    requires FromRows(items, rows) && KnownFolder(rows, f.folder) && KnownFolder(rows, t.folder)
    requires (t.file < 0 ==> HasRow(rows, -t.file)) && (cr.Some? ==> cr.value in items) && f.id != t.id
    ensures var more := RenameEdges(rows, f, t, cr);
            && (forall e | e in more :: e.0 == t.id && HasRow(rows + [f], e.1))
            && ((f.folder != t.folder || f.name != t.name) ==> forall e | e in more :: HasRow(rows, e.1))
            && (f.folder == t.folder && f.name == t.name ==> (t.id, f.id) in more)
            && NameEdges(rows + [f], t.id, f.folder, f.name, {t.id, f.id}) <= more
            && NameEdges(rows + [f], t.id, t.folder, t.name, {t.id}) <= more && Waits(rows, more, t)
  {
    OwnEdgesKnown(rows, items, f, t, t.file, cr);
    OwnEdgesWait(rows, f, t, t.file, cr);
    hide FromRows, KnownFolder, HasRow, NameEdges, OwnEdges;
    NameEdgesKnown(rows + [f], t.id, f.folder, f.name, {t.id, f.id});
    NameEdgesKnown(rows + [f], t.id, t.folder, t.name, {t.id});
    NameEdgesApart(rows, f, t.id, f.folder, f.name, {t.id, f.id});
    if f.folder != t.folder || f.name != t.name { NameEdgesApart(rows, f, t.id, t.folder, t.name, {t.id}); }
    if f.folder == t.folder && f.name == t.name { SelfIsNamed(rows, f, t); }
    forall id | HasRow(rows, id) ensures HasRow(rows + [f], id) { HasRowMore(rows, f, id); }
  }

  lemma SelfIsNamed(rows: seq<Row>, f: Row, t: Row)
    requires f.folder == t.folder && f.name == t.name && f.id != t.id
    ensures (t.id, f.id) in NameEdges(rows + [f], t.id, t.folder, t.name, {t.id})
  {
    assert f in rows + [f];
  }

  /** A rename onto itself waits for its own first row, which goes away only with it. */
  lemma SelfIsStuck(rows: seq<Row>, deps: set<(nat, nat)>, f: Row, t: Row)
    requires RowsOk(rows + [f, t]) && IsFrom(f.typ) && t.id == f.id + 1 && (t.id, f.id) in deps
    ensures !Downward(rows + [f, t], deps)
  {
    var all := rows + [f, t];
    assert all[|rows|] == f;
    assert forall i | 0 <= i < |all| && all[i].id == f.id :: i == |rows|;
    assert !DownTo(all, t.id, f.id);
  }

  /** What the renaming of a file keeps. */
  lemma RenameKeeps(rows: seq<Row>, deps: set<(nat, nat)>, db: map<Key, int>, f: Row, t: Row, more: set<(nat, nat)>)
    requires Inv(rows, deps, db) && f.id == NextId(rows) && t.id == f.id + 1 && t.int1 == f.id && t.file == f.file
    requires f.typ == RenfileFrom && t.typ == RenfileTo && Lookup(Plain(rows, db), KeyOf(f)) == Some(f.file)
    requires NameEdges(rows + [f], t.id, f.folder, f.name, {t.id, f.id}) <= more
    requires NameEdges(rows + [f], t.id, t.folder, t.name, {t.id}) <= more
    requires forall e | e in more :: e.0 == t.id && HasRow(rows + [f], e.1)
    requires Waits(rows, more, t)
    ensures var moved := Relocate(rows, f.file, t.folder);
            && SameTasks(rows, moved) && Inv(moved + [f, t], deps + more, db)
            && (Downward(rows, deps) && (forall e | e in more :: HasRow(rows, e.1)) ==> Downward(moved + [f, t], deps + more))
            && ((t.id, f.id) in more ==> !Downward(moved + [f, t], deps + more))
  {
    assert RowsOk(rows) && TempOk(rows, Plain(rows, db));
    hide Inv, Downward, NameEdges, Plain, Relocate, RowsOk, SameTasks, HasRow, Lookup, TempOk, NextId, Waits;
    var moved := Relocate(rows, f.file, t.folder);
    InvRename(rows, deps, db, f, t, more);
    MovedSame(rows, Plain(rows, db), f, t.folder);
    if Downward(rows, deps) && (forall e | e in more :: HasRow(rows, e.1)) { DownPair(rows, moved, deps, f, t, more); }
    if (t.id, f.id) in more {
      RowsOf(moved + [f, t], deps + more, db);
      SelfIsStuck(moved, deps + more, f, t);
    }
  }

  lemma RenameSynced(rows: seq<Row>, db: map<Key, int>, items0: set<Item>, f: Row, t: Row, items2: set<Item>)
    requires SameTasks(rows, Relocate(rows, f.file, t.folder)) && f.typ == RenfileFrom && t.typ == RenfileTo
    requires FilesSync(items2, rows + [f] + [t]) && FromRows(items0, rows) && DirIds(items0, rows)
    requires items2 <= items0 + {HideItem(f), HideItem(t), AddItem(t)}
    ensures var rows' := Relocate(rows, f.file, t.folder) + [f, t];
            && FilesSync(items2, rows') && FromRows(items2, rows') && DirIds(items2, rows')
            && (Agree(items2, rows + [f] + [t]) ==> Agree(items2, rows'))
            && forall j :: Lookup(Plain(rows', db), j)
                           == if j == KeyOf(t) then Some(t.file) else if j == KeyOf(f) then None else Lookup(Plain(rows, db), j)
  {
    hide FilesSync, FromRows, DirIds, Agree, Plain, Relocate, SameTasks, Lookup;
    var moved := Relocate(rows, f.file, t.folder);
    assert rows + [f] + [t] == rows + [f, t];
    SamePair(rows, moved, f, t);
    SameRebuild(rows + [f, t], moved + [f, t], db);
    SyncMoved(items2, rows + [f, t], moved + [f, t]);
    RenameRows(rows, moved, items0, f, t, items2);
    SeesMore(rows, f, db);
    SeesMore(rows + [f], t, db);
  }

  lemma SamePair(rows: seq<Row>, moved: seq<Row>, f: Row, t: Row)
    requires SameTasks(rows, moved)
    ensures SameTasks(rows + [f, t], moved + [f, t])
  {
  }

  lemma SyncMoved(items: set<Item>, a: seq<Row>, b: seq<Row>)
    requires Rebuild(a) == Rebuild(b)
    ensures FilesSync(items, a) ==> FilesSync(items, b)
    ensures Agree(items, a) ==> Agree(items, b)
  {
    hide Rebuild;
  }

  /** The trees of a renamed file are those of the two rows. */
  lemma RenameTrees(rows: seq<Row>, items0: set<Item>, f: Row, t: Row, cr: Option<Item>, over: Option<Item>, items2: set<Item>)
    requires FilesSync(items0, rows) && f.typ == RenfileFrom && t.typ == RenfileTo && Renamed(items0, f, t, cr, over, items2)
    ensures FilesSync(items2, rows + [f] + [t]) && items2 <= items0 + {HideItem(f), HideItem(t), AddItem(t)}
    ensures cr.Some? ==> cr.value in items0 && cr.value.key == KeyOf(f)
    ensures Agree(items0, rows) ==> Agree(items2, rows + [f] + [t])
  {
    hide FilesSync, Agree, Rebuild;
    var items1 := Less(items0, cr) + {HideItem(f)};
    Taken(items0, rows, KeyOf(f), cr);
    assert items1 == Step(items0, f);
    SyncStep(items0, rows, f);
    Taken(items1, rows + [f], KeyOf(t), over);
    assert items2 == Step(items1, t);
    SyncStep(items1, rows + [f], t);
    if Agree(items0, rows) {
      AgreeStep(items0, rows, f);
      AgreeStep(items1, rows + [f], t);
    }
  }

  lemma RenameRows(rows: seq<Row>, moved: seq<Row>, items0: set<Item>, f: Row, t: Row, items2: set<Item>)
    requires SameTasks(rows, moved) && FromRows(items0, rows) && DirIds(items0, rows) && f.typ == RenfileFrom && t.typ == RenfileTo
    requires items2 <= items0 + {HideItem(f), HideItem(t), AddItem(t)}
    ensures FromRows(items2, moved + [f, t]) && DirIds(items2, moved + [f, t])
  {
    hide SameTasks, FromRows, DirIds, KnownFolder;
    assert [f, t][0] == f && [f, t][1] == t;
    FromRowsMore(items0, rows, [f, t], moved, items2);
    DirIdsMore(items0, rows, moved, [f, t], items2);
  }

  /** The trees after a folder's rename, if `mk` and `over` were taken out. */
  ghost predicate FolderSwapped(items0: set<Item>, f: Row, t: Row, mk: Option<Item>, over: Option<Item>, items2: set<Item>) {
    var items1, old2 := Less(items0, mk) + {HideItem(f)}, Key(Dirs, t.folder, f.name);
    && (if mk.None? then !HasAdd(items0, KeyOf(f)) else mk.value in items0 && mk.value.add && mk.value.key == KeyOf(f))
    && (if over.None? then !HasAdd(items1, old2) else over.value in items1 && over.value.add && over.value.key == old2)
    && items2 == Less(items1, over) + {HideItem(t)} + {AddItem(t)}
  }

  /** When live trees and a restart agree about a renamed folder: it keeps its name, or no pending folder is
      in the way under the new name, nor, in another folder, under the old one. */
  ghost predicate RenameAgrees(items: set<Item>, folder: int, name: string, toFolder: int, newName: string) {
    || newName == name
    || (!HasAdd(items, Key(Dirs, toFolder, newName)) && (folder == toFolder || !HasAdd(items, Key(Dirs, toFolder, name))))
  }

  /** The dependencies of a folder's rename: those on tasks of the new name look in the renamed folder itself. */
  function FolderRenameEdges(rows: seq<Row>, f: Row, t: Row, rm: Option<Row>, mk: Option<Item>): set<(nat, nat)> {
    OwnEdges(f, t, t.sfolder, mk) + (if rm.Some? then {(t.id, rm.value.id)} else {})
    + NameEdges(rows + [f], t.id, f.folder, f.name, {t.id, f.id}) + NameEdges(rows + [f], t.id, t.sfolder, t.name, {t.id})
  }

  lemma FolderRenameEdgesKnown(rows: seq<Row>, items: set<Item>, f: Row, t: Row, rm: Option<Row>, mk: Option<Item>)
    requires FromRows(items, rows) && KnownFolder(rows, f.folder) && KnownFolder(rows, t.folder) && KnownFolder(rows, t.sfolder)
    requires (rm.Some? ==> HasRow(rows, rm.value.id)) && (mk.Some? ==> mk.value in items) && t.sfolder != f.folder
    ensures forall e | e in FolderRenameEdges(rows, f, t, rm, mk) :: e.0 == t.id && HasRow(rows, e.1)
  {
    if t.sfolder < 0 { KnownHasRow(rows, t.sfolder); }
    OwnEdgesKnown(rows, items, f, t, t.sfolder, mk);
    hide FromRows, KnownFolder, HasRow, NameEdges, OwnEdges;
    NameEdgesKnown(rows + [f], t.id, f.folder, f.name, {t.id, f.id});
    NameEdgesKnown(rows + [f], t.id, t.sfolder, t.name, {t.id});
    NameEdgesApart(rows, f, t.id, f.folder, f.name, {t.id, f.id});
    NameEdgesApart(rows, f, t.id, t.sfolder, t.name, {t.id});
  }

  lemma StillKnown(rows: seq<Row>, rm: Option<Row>, folder: int)
    requires KnownFolder(rows, folder)
    ensures rm.Some? ==> KnownFolder(rows + [rm.value], folder)
  {
    if rm.Some? {
      SameSelf(rows);
      KnownMore(rows, rows, [rm.value], folder);
    }
  }

  lemma EntryKnown(items: set<Item>, rows: seq<Row>, i: Item)
    requires FromRows(items, rows) && DirIds(items, rows) && i in items && i.add && i.key.space == Dirs
    ensures i.id != 0 && HasRow(rows, i.task) && (i.id < 0 ==> HasRow(rows, -i.id))
  {
    TaskOfEntry(items, rows, i);
    if i.id < 0 { KnownHasRow(rows, i.id); }
  }

  lemma FolderSwap(items0: set<Item>, f: Row, t: Row, mk: Option<Item>, over: Option<Item>, items2: set<Item>)
    requires FolderSwapped(items0, f, t, mk, over, items2)
    ensures items2 <= items0 + {HideItem(f), HideItem(t), AddItem(t)} && (mk.Some? ==> mk.value in items0)
    ensures f.typ == RenfolderFrom && t.typ == RenfolderTo ==>
              forall i: Item | i.key.space == Files :: i in items2 <==> i in items0
  {
  }

  lemma FolderRenameKeeps(rows: seq<Row>, deps: set<(nat, nat)>, db: map<Key, int>, f: Row, t: Row, more: set<(nat, nat)>)
    requires Inv(rows, deps, db) && f.id == NextId(rows) && t.id == f.id + 1 && t.int1 == f.id
    requires f.typ == RenfolderFrom && t.typ == RenfolderTo && KnownFolder(rows, t.sfolder)
    requires forall e | e in more :: e.0 == t.id && HasRow(rows, e.1)
    ensures var moved := Relocate(rows, t.sfolder, t.folder);
            && SameTasks(rows, moved) && Inv(moved + [f, t], deps + more, db)
            && (Downward(rows, deps) ==> Downward(moved + [f, t], deps + more))
  {
    assert RowsOk(rows);
    hide Inv, Downward, Plain, Relocate, RowsOk, SameTasks, HasRow, NextId, KnownFolder;
    forall id | HasRow(rows, id) ensures HasRow(rows + [f], id) { HasRowMore(rows, f, id); }
    MovedFolder(rows, t.sfolder, t.folder);
    InvRenameFolder(rows, deps, db, f, t, more);
    if Downward(rows, deps) { DownPair(rows, Relocate(rows, t.sfolder, t.folder), deps, f, t, more); }
  }

  lemma FolderRenameSynced(rows: seq<Row>, db: map<Key, int>, items0: set<Item>, f: Row, t: Row, items2: set<Item>)
    requires SameTasks(rows, Relocate(rows, t.sfolder, t.folder)) && f.typ == RenfolderFrom && t.typ == RenfolderTo
    requires FilesSync(items0, rows) && FromRows(items0, rows) && DirIds(items0, rows) && KnownFolder(rows, t.sfolder) && t.sfolder != 0
    requires items2 <= items0 + {HideItem(f), HideItem(t), AddItem(t)}
    requires forall i: Item | i.key.space == Files :: i in items2 <==> i in items0
    ensures var rows' := Relocate(rows, t.sfolder, t.folder) + [f, t];
            && FilesSync(items2, rows') && FromRows(items2, rows') && DirIds(items2, rows')
            && Rebuild(rows') == Step(Step(Rebuild(rows), f), t)
            && Plain(rows', db) == Do(Do(Plain(rows, db), f), t)
  {
    hide FromRows, DirIds, Plain, Relocate, SameTasks, KnownFolder, Rebuild;
    var moved := Relocate(rows, t.sfolder, t.folder);
    assert rows + [f] + [t] == rows + [f, t];
    SamePair(rows, moved, f, t);
    SameRebuild(rows + [f, t], moved + [f, t], db);
    RebuildMore(rows, f);
    RebuildMore(rows + [f], t);
    PlainMore(rows, f, db);
    PlainMore(rows + [f], t, db);
    assert [f, t][0] == f && [f, t][1] == t;
    FromRowsMore(items0, rows, [f, t], moved, items2);
    KnownMore(rows, moved, [f, t], t.sfolder);
    DirIdsMore(items0, rows, moved, [f, t], items2);
  }

  lemma FolderRenameSees(rows: seq<Row>, rm: Option<Row>, f: Row, t: Row, db: map<Key, int>)
    requires f.typ == RenfolderFrom && t.typ == RenfolderTo && (rm.Some? ==> rm.value.typ.Rmdir? && KeyOf(rm.value) == KeyOf(t))
    ensures var rows1 := if rm.Some? then rows + [rm.value] else rows;
            forall j :: Lookup(Do(Do(Plain(rows1, db), f), t), j)
                        == if j == KeyOf(t) then Some(t.sfolder) else if j == KeyOf(f) then None else Lookup(Plain(rows, db), j)
  {
    hide Plain, Do, Lookup;
    var m := Plain(rows, db);
    if rm.Some? {
      PlainMore(rows, rm.value, db);
      DoAt(m, rm.value);
    }
    var m1 := Plain(if rm.Some? then rows + [rm.value] else rows, db);
    DoAt(m1, f);
    DoAt(Do(m1, f), t);
  }

  lemma DoAt(m: map<Key, int>, r: Row)
    ensures forall j :: Lookup(Do(m, r), j) == if j == KeyOf(r) then (if Adds(r.typ) then Some(Result(r)) else None) else Lookup(m, j)
  {
  }

  lemma RemovalKeeps(rows: seq<Row>, deps: set<(nat, nat)>, db: map<Key, int>, items: set<Item>, r: Row, more: set<(nat, nat)>)
    requires Inv(rows, deps, db) && FilesSync(items, rows) && FromRows(items, rows) && DirIds(items, rows)
    requires r.id == NextId(rows) && r.typ.Rmdir? && forall e | e in more :: e.0 == r.id && HasRow(rows, e.1)
    ensures Inv(rows + [r], deps + more, db) && FilesSync(items, rows + [r]) && FromRows(items, rows + [r]) && DirIds(items, rows + [r])
    ensures Downward(rows, deps) ==> Downward(rows + [r], deps + more)
    ensures HasRow(rows + [r], r.id)
  {
    assert RowsOk(rows);
    hide Inv, FromRows, DirIds, Downward, Rebuild, RowsOk, NextId, KnownFolder, FilesSync, HasRow;
    DirSync(items, rows, r);
    InvAppendDir(rows, deps, db, r, more);
    FromRowsStep(items, rows, r, items);
    SameSelf(rows);
    DirIdsMore(items, rows, rows, [r], items);
    if Downward(rows, deps) { DownAppend(rows, deps, r, more); }
    HasRowMore(rows, r, r.id);
  }

  lemma DirSync(items: set<Item>, rows: seq<Row>, r: Row)
    requires FilesSync(items, rows) && KeyOf(r).space == Dirs
    ensures FilesSync(items, rows + [r])
  {
    RebuildMore(rows, r);
    hide Rebuild;
  }

  lemma FolderOfDb(rows: seq<Row>, deps: set<(nat, nat)>, db: map<Key, int>, k: Key)
    requires Inv(rows, deps, db)
    ensures k in db ==> db[k] > 0
  {
  }

  /** The overlay that a restart builds. */
  function Restarted(r0: set<Item>, rm: Option<Row>, f: Row, t: Row): set<Item> {
    Step(Step(if rm.Some? then Step(r0, rm.value) else r0, f), t)
  }

  /** A pending folder is there after a restart unless it is the renamed one or one that it replaces. */
  lemma RestartedAdds(r0: set<Item>, rm: Option<Row>, f: Row, t: Row, i: Item)
    requires f.typ == RenfolderFrom && t.typ == RenfolderTo && (rm.Some? ==> rm.value.typ.Rmdir? && KeyOf(rm.value) == KeyOf(t))
    requires i.add
    ensures i in Restarted(r0, rm, f, t) <==> i == AddItem(t) || (i in r0 && i.key != KeyOf(f) && i.key != KeyOf(t))
  {
  }

  lemma RestartedHides(r0: set<Item>, rm: Option<Row>, f: Row, t: Row, i: Item)
    requires f.typ == RenfolderFrom && t.typ == RenfolderTo && (rm.Some? ==> rm.value.typ.Rmdir? && KeyOf(rm.value) == KeyOf(t))
    requires !i.add
    ensures i in Restarted(r0, rm, f, t) <==>
              i == HideItem(f) || i == HideItem(t) || i in r0 || (rm.Some? && i == HideItem(rm.value))
  {
  }

  /** The live trees keep and drop entries by other names. */
  lemma LiveAdds(rows: seq<Row>, items0: set<Item>, f: Row, t: Row, mk: Option<Item>, over: Option<Item>, items2: set<Item>, i: Item)
    requires f.typ == RenfolderFrom && t.typ == RenfolderTo && FolderSwapped(items0, f, t, mk, over, items2)
    requires Agree(items0, rows) && i.add
    ensures i in items2 <==> i == AddItem(t) || (i in items0 && i.key != KeyOf(f) && i.key != Key(Dirs, t.folder, f.name))
  {
    hide Rebuild;
    if i in items0 {
      if i.key == KeyOf(f) && mk.Some? { AddsUnique(rows, i, mk.value); }
      if i.key == Key(Dirs, t.folder, f.name) && over.Some? { AddsUnique(rows, i, over.value); }
    }
  }

  lemma LiveHides(items0: set<Item>, f: Row, t: Row, mk: Option<Item>, over: Option<Item>, items2: set<Item>, i: Item)
    requires FolderSwapped(items0, f, t, mk, over, items2) && !i.add
    ensures i in items2 <==> i == HideItem(f) || i == HideItem(t) || i in items0
  {
  }

  /** Live trees and a restart agree about a renamed folder exactly under `RenameAgrees`. */
  lemma FolderRenameAgree(rows: seq<Row>, items0: set<Item>, rm: Option<Row>, f: Row, t: Row, mk: Option<Item>, over: Option<Item>, items2: set<Item>,
                          after: seq<Row>)
    requires f.typ == RenfolderFrom && t.typ == RenfolderTo && FolderSwapped(items0, f, t, mk, over, items2)
    requires (rm.Some? ==> rm.value.typ.Rmdir? && KeyOf(rm.value) == KeyOf(t)) && (rm.None? ==> !HasAdd(items0, KeyOf(t)))
    requires Rebuild(after) == Restarted(Rebuild(rows), rm, f, t) && AddItem(t) !in items0
    ensures Agree(items0, rows) ==> (Agree(items2, after) <==> RenameAgrees(items0, f.folder, f.name, t.folder, t.name))
  {
    if Agree(items0, rows) {
      hide FolderSwapped, Restarted, Rebuild;
      assert forall i: Item | i.add :: i in items0 <==> i in Rebuild(rows);
      forall i: Item | i.add
        ensures i in items2 <==> i == AddItem(t) || (i in items0 && i.key != KeyOf(f) && i.key != Key(Dirs, t.folder, f.name))
        ensures i in Rebuild(after) <==> i == AddItem(t) || (i in items0 && i.key != KeyOf(f) && i.key != KeyOf(t))
      {
        LiveAdds(rows, items0, f, t, mk, over, items2, i);
        RestartedAdds(Rebuild(rows), rm, f, t, i);
      }
      forall i: Item | !i.add
        ensures i in items2 <==> i == HideItem(f) || i == HideItem(t) || i in items0
        ensures i in Rebuild(after) <==> i == HideItem(f) || i == HideItem(t) || i in Rebuild(rows) || (rm.Some? && i == HideItem(rm.value))
      {
        LiveHides(items0, f, t, mk, over, items2, i);
        RestartedHides(Rebuild(rows), rm, f, t, i);
      }
      FolderAddsAgree(items0, f, t, items2, Rebuild(after));
      FolderHidesAgree(rows, items0, rm, f, t, items2, after);
    }
  }

  lemma FolderAddsAgree(items0: set<Item>, f: Row, t: Row, items2: set<Item>, after: set<Item>)
    requires f.typ == RenfolderFrom && t.typ == RenfolderTo && AddItem(t) !in items0
    requires forall i: Item | i.add :: i in items2 <==> i == AddItem(t) || (i in items0 && i.key != KeyOf(f) && i.key != Key(Dirs, t.folder, f.name))
    requires forall i: Item | i.add :: i in after <==> i == AddItem(t) || (i in items0 && i.key != KeyOf(f) && i.key != KeyOf(t))
    ensures (forall i: Item | i.add :: i in items2 <==> i in after) <==> RenameAgrees(items0, f.folder, f.name, t.folder, t.name)
  {
    if !RenameAgrees(items0, f.folder, f.name, t.folder, t.name) {
      if HasAdd(items0, KeyOf(t)) {
        var i :| i in items0 && i.add && i.key == KeyOf(t);
        assert i in items2 && i !in after;
      } else {
        var i :| i in items0 && i.add && i.key == Key(Dirs, t.folder, f.name);
        assert i !in items2 && i in after;
      }
    }
  }

  lemma FolderHidesAgree(rows: seq<Row>, items0: set<Item>, rm: Option<Row>, f: Row, t: Row, items2: set<Item>, after: seq<Row>)
    requires f.typ == RenfolderFrom && t.typ == RenfolderTo && Agree(items0, rows)
    requires rm.Some? ==> rm.value.typ.Rmdir? && KeyOf(rm.value) == KeyOf(t)
    requires forall i: Item | !i.add :: i in items2 <==> i == HideItem(f) || i == HideItem(t) || i in items0
    requires forall i: Item | !i.add :: i in Rebuild(after) <==>
               i == HideItem(f) || i == HideItem(t) || i in Rebuild(rows) || (rm.Some? && i == HideItem(rm.value))
    ensures Agree(items2, after) <==> forall i: Item | i.add :: i in items2 <==> i in Rebuild(after)
  {
    hide Rebuild;
    assert HideItem(t) in items2;
    forall i: Item | !i.add && i in Rebuild(after) ensures i in items2 || (i.key.space == Dirs && HasHide(items2, i.key)) {
      if i in Rebuild(rows) && i !in items0 {
        var h :| h in items0 && !h.add && h.key == i.key;
        assert h in items2;
      }
    }
  }

  ghost predicate EmptyFolder(items: set<Item>, db: map<Key, int>, c: int) {
    && (forall i | i in items :: !(i.add && i.key.folder == c))
    && (c >= 0 ==> forall k | k in db && k.folder == c :: HasHide(items, k))
  }

  /** An empty folder is one that shows nothing. */
  lemma EmptyShows(rows: seq<Row>, deps: set<(nat, nat)>, db: map<Key, int>, items: set<Item>, c: int)
    requires Inv(rows, deps, db)
    ensures EmptyFolder(items, db, c) <==> forall k: Key | k.folder == c :: Shows(items, db, k, None)
  {
    assert DbOk(db);
    hide Inv;
    if forall k: Key | k.folder == c :: Shows(items, db, k, None) {
      forall i | i in items ensures !(i.add && i.key.folder == c) {
        assert i.key.folder == c ==> Shows(items, db, i.key, None);
      }
      forall k | k in db && k.folder == c ensures HasHide(items, k) { assert Shows(items, db, k, None); }
    }
  }

  /** What other folders show does not change when the entry of a folder is taken out. */
  lemma NothingSeen(items: set<Item>, rows: seq<Row>, db: map<Key, int>, was: Option<Item>, folder: int, c: int)
    requires Agree(items, rows) && (was.Some? ==> was.value.key.folder == folder)
    ensures was.None? || c != folder ==>
              ((forall k: Key | k.folder == c :: Shows(Less(items, was), db, k, None))
               <==> forall k: Key | k.folder == c :: Lookup(Plain(rows, db), k) == None)
  {
    hide Shows, Agree, Plain;
    if was.None? || c != folder {
      forall k: Key | k.folder == c ensures Shows(Less(items, was), db, k, None) <==> Lookup(Plain(rows, db), k) == None {
        AgreeShows(items, rows, db, k, None);
        SameAt(items, Less(items, was), db, k, None);
      }
    }
  }

  lemma DroppedKeeps(items: set<Item>, rows: seq<Row>, k: Key, was: Option<Item>)
    requires FilesSync(items, rows) && FromRows(items, rows) && DirIds(items, rows) && k.space == Dirs
    requires was.Some? ==> was.value.key == k
    ensures FilesSync(Less(items, was), rows) && FromRows(Less(items, was), rows) && DirIds(Less(items, was), rows)
  {
    hide Rebuild;
  }

  /** What the removal of a folder waits for: the entry that it has now, and its creation. */
  function RemovalEdges(r: Row, on: Option<Item>): set<(nat, nat)> { EdgeOn(r.id, on) + EdgeIf(r.sfolder < 0, r.id, -r.sfolder) }

  /** A dependency on the task of an entry. */
  function EdgeOn(t: nat, on: Option<Item>): set<(nat, nat)> { if on.Some? then {(t, on.value.task)} else {} }

  function Less(items: set<Item>, was: Option<Item>): set<Item> { if was.None? then items else items - {was.value} }

  lemma SeesMore(rows: seq<Row>, r: Row, db: map<Key, int>)
    ensures forall j :: Lookup(Plain(rows + [r], db), j)
                        == if j == KeyOf(r) then (if Adds(r.typ) then Some(Result(r)) else None) else Lookup(Plain(rows, db), j)
  {
    PlainMore(rows, r, db);
  }

  /** The one entry that adds a file name was taken out. */
  lemma Taken(items: set<Item>, rows: seq<Row>, k: Key, was: Option<Item>)
    requires FilesSync(items, rows)
    requires if was.None? then !HasAdd(items, k) else was.value in items && was.value.add && was.value.key == k
    ensures k.space == Files || Agree(items, rows) ==>
              Less(items, was) == WithoutAdds(items, k)
  {
    if (k.space == Files || Agree(items, rows)) && was.Some? {
      forall i | i in items && i.add && i.key == k ensures i == was.value { AddsUnique(rows, i, was.value); }
    }
  }

  lemma FileShown(items: set<Item>, rows: seq<Row>, db: map<Key, int>, k: Key, v: Option<int>)
    requires FilesSync(items, rows) && k.space == Files && Shows(items, db, k, v)
    ensures Lookup(Plain(rows, db), k) == v
  {
    hide Plain, FilesSync, Shows, Lookup;
    SyncShows(items, rows, db, k, v);
  }

  /** The id of a file is the server's, or that of a pending upload. */
  lemma IdsOfFiles(rows: seq<Row>, deps: set<(nat, nat)>, db: map<Key, int>, k: Key)
    requires Inv(rows, deps, db) && k.space == Files
    ensures var m := Plain(rows, db); k in m ==> m[k] != 0 && (m[k] < 0 ==> HasRow(rows, -m[k]))
  {
    var m := Plain(rows, db);
    if k in m && m[k] < 0 {
      var i :| 0 <= i < |rows| && IsUpload(rows[i].typ) && TempId(rows[i].id) == m[k] && rows[i].sfolder == k.folder;
      assert rows[i].id == -m[k];
    }
  }

  lemma NoNegativeFolder(rows: seq<Row>, deps: set<(nat, nat)>, db: map<Key, int>, k: Key)
    requires Inv(rows, deps, db) && k.space == Dirs
    ensures k in db ==> k.folder >= 0
  {
  }

  /** The entries of a new row are not in the trees yet. */
  lemma NewItems(items: set<Item>, rows: seq<Row>, deps: set<(nat, nat)>, db: map<Key, int>, r: Row)
    requires Inv(rows, deps, db) && FromRows(items, rows) && r.id >= NextId(rows)
    ensures AddItem(r) !in items && HideItem(r) !in items
  {
    hide Ordered, Targeted, TempOk, DbOk, EdgesKnown, NextId;
    if AddItem(r) in items { NewTask(items, rows, AddItem(r)); }
    if HideItem(r) in items { NewTask(items, rows, HideItem(r)); }
  }

  lemma SyncSame(a: set<Item>, b: set<Item>, rows: seq<Row>)
    requires FilesSync(a, rows) && forall i: Item | i.key.space == Files :: i in b <==> i in a
    ensures FilesSync(b, rows)
  {
    hide Rebuild;
  }

  /** What an operation that adds one row keeps. */
  lemma StepKeeps(rows: seq<Row>, deps: set<(nat, nat)>, db: map<Key, int>, items: set<Item>, r: Row, more: set<(nat, nat)>, items': set<Item>)
    requires Inv(rows, deps, db) && FilesSync(items, rows) && FromRows(items, rows)
    requires r.id == NextId(rows) && !r.typ.RenfileTo? && !IsFrom(r.typ)
    requires (r.typ.UnSetRev? ==> r.int1 > 0) && (IsUpload(r.typ) ==> r.sfolder == r.folder)
    requires Removes(r.typ) ==> Lookup(Plain(rows, db), KeyOf(r)) == Some(Target(r))
    requires NameEdges(rows, r.id, r.folder, r.name, {r.id}) <= more
    requires forall e | e in more :: e.0 == r.id && HasRow(rows, e.1)
    requires MakesFile(r.typ) ==> Waits(rows, more, r)
    requires items' <= items + ItemsOf(r)
    requires forall i: Item | i.key.space == Files :: i in items' <==> i in Step(items, r)
    ensures Inv(rows + [r], deps + more, db) && FilesSync(items', rows + [r]) && FromRows(items', rows + [r])
    ensures Agree(items, rows) && items' == Step(items, r) ==> Agree(items', rows + [r])
    ensures Downward(rows, deps) ==> Downward(rows + [r], deps + more)
  {
    assert RowsOk(rows);
    hide Inv, FromRows, Agree, Downward, Rebuild, Plain, RowsOk, NextId, NameEdges, ItemsOf, Step, FilesSync, HasRow, Lookup, Target, KeyOf, Waits, MakesFile;
    InvAppend(rows, deps, db, r, more);
    SyncStep(items, rows, r);
    SyncSame(Step(items, r), items', rows + [r]);
    FromRowsStep(items, rows, r, items');
    if Agree(items, rows) { AgreeStep(items, rows, r); }
    if Downward(rows, deps) { DownAppend(rows, deps, r, more); }
  }
}
