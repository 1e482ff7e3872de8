/** Whole runs of the pending changes: whatever users do, whatever the uploader completes, and however often the
    program restarts, a look-up of a file gives what the same changes do to a plain namespace. */
module FsTaskRuns {
  import opened Wrappers
  import opened FsTaskRows
  import opened FsTaskState
  import opened FsTaskDone
  import opened FsTaskRestart
  import opened FolderTable
  import opened FsTasks
  import FsTasksInit

  /** What a visible file is: a file of the server, or what the event of this number made. */
  datatype Origin = Server(id: int) | Made(event: nat)

  datatype Event =
    | MakeFolder(folder: int, name: string)
    | RemoveFolder(folder: int, name: string)
    | MoveFolder(id: int, folder: int, name: string, toFolder: int, newName: string)
    | NewFile(folder: int, name: string)
    | Change(folder: int, name: string)
    | Delete(folder: int, name: string, rev: nat)
    | Move(folder: int, name: string, toFolder: int, newName: string)
    | Uploaded(row: nat, id: int)
    | Deleted(row: nat)
    | Moved(row: nat)
    | Restarted

  /** The plain namespace, and the temporary ids of pending folders. */
  datatype World = World(files: map<Key, Origin>, folders: set<int>)

  predicate Known(w: World, folder: int) { folder >= 0 || folder in w.folders }

  function FileKey(folder: int, name: string): Key { Key(Files, folder, name) }

  /** Event `n`; `made` is the id of the folder that it made.  Completions and restarts change nothing. */
  function After(w: World, n: nat, e: Event, made: Option<int>): World {
    match e
    case MakeFolder(_, _) => if made.Some? then w.(folders := w.folders + {made.value}) else w
    case NewFile(f, name) => if Known(w, f) && FileKey(f, name) !in w.files then w.(files := w.files[FileKey(f, name) := Made(n)]) else w
    case Change(f, name) => if Known(w, f) && FileKey(f, name) in w.files then w.(files := w.files[FileKey(f, name) := Made(n)]) else w
    case Delete(f, name, _) => w.(files := w.files - {FileKey(f, name)})
    case Move(f, name, f', name') =>
      var k, k' := FileKey(f, name), FileKey(f', name');
      if Known(w, f) && Known(w, f') && k in w.files then w.(files := (w.files - {k})[k' := w.files[k]]) else w
    case _ => w
  }

  function Start(db: map<Key, int>): World { World(map k | k in db && k.space == Files :: Server(db[k]), {}) }

  function WorldAfter(db: map<Key, int>, events: seq<Event>, made: seq<Option<int>>): World
    requires |made| == |events|
  {
    if events == [] then Start(db)
    else
      var n := |events| - 1;
      After(WorldAfter(db, events[..n], made[..n]), n, events[n], made[n])
  }

  /** The id under which an origin is known now. */
  function IdOf(w: World, ids: map<Origin, int>, k: Key): Option<int> {
    if k in w.files && w.files[k] in ids then Some(ids[w.files[k]]) else None
  }

  ghost function FolderIds(rows: seq<Row>): set<int> { set r | r in rows && r.typ.Mkdir? :: TempId(r.id) }

  /** The tasks show the world: every file has an id, and server files have theirs. */
  ghost predicate Linked(rows: seq<Row>, db: map<Key, int>, w: World, ids: map<Origin, int>, n: nat) {
    && (forall k: Key | k.space == Files :: Lookup(Plain(rows, db), k) == IdOf(w, ids, k))
    && (forall k | k in w.files :: k.space == Files && w.files[k] in ids && (w.files[k].Made? ==> w.files[k].event < n))
    && (forall x | Server(x) in ids :: ids[Server(x)] == x && x > 0)
    && FolderIds(rows) == w.folders
  }

  // ---------- different files have different ids ----------

  ghost predicate OneName(m: map<Key, int>) {
    forall j, k | j in m && k in m && j.space == Files && k.space == Files && m[j] == m[k] && m[j] > 0 :: j == k
  }

  ghost predicate Gone(m: map<Key, int>, id: int) { forall k | k in m && k.space == Files :: m[k] != id }

  lemma OneNameStep(m: map<Key, int>, r: Row)
    requires OneName(m) && r.id > 0
    requires r.typ.RenfileFrom? ==> Lookup(m, KeyOf(r)) == Some(r.file)
    requires r.typ.RenfileTo? && r.file > 0 ==> Gone(m, r.file)
    ensures OneName(Do(m, r)) && (r.typ.RenfileFrom? && r.file > 0 ==> Gone(Do(m, r), r.file))
  {
  }

  lemma {:induction false} OneNameBefore(rows: seq<Row>, deps: set<(nat, nat)>, db: map<Key, int>, n: nat)
    requires Inv(rows, deps, db) && n <= |rows|
    ensures OneName(Plain(rows[..n], db))
    ensures n > 0 && rows[n - 1].typ.RenfileFrom? && rows[n - 1].file > 0 ==> Gone(Plain(rows[..n], db), rows[n - 1].file)
  {
    hide Plain, Do, Inv, OneName;
    if n > 0 {
      var r, before := rows[n - 1], rows[..n - 1];
      OneNameBefore(rows, deps, db, n - 1);
      assert rows[..n] == before + [r];
      PlainMore(before, r, db);
      RowAt(rows, deps, db, n - 1);
      OneNameStep(Plain(before, db), r);
    } else {
      assert rows[..n] == [];
      NoRows(rows, deps, db);
    }
  }

  lemma NoRows(rows: seq<Row>, deps: set<(nat, nat)>, db: map<Key, int>)
    requires Inv(rows, deps, db)
    ensures OneName(Plain([], db))
  {
    assert DbOk(db);
  }

  lemma RowAt(rows: seq<Row>, deps: set<(nat, nat)>, db: map<Key, int>, i: nat)
    requires Inv(rows, deps, db) && i < |rows|
    ensures rows[i].id > 0
    ensures rows[i].typ.RenfileFrom? ==> Lookup(Plain(rows[..i], db), KeyOf(rows[i])) == Some(rows[i].file)
    ensures rows[i].typ.RenfileTo? ==> i > 0 && rows[i - 1].typ.RenfileFrom? && rows[i - 1].file == rows[i].file
  {
    hide Plain, Lookup, TempOk, DbOk, Ordered, EdgesKnown;
    if rows[i].typ.RenfileTo? { assert Paired(rows, i - 1); }
  }

  /** No two names show the same file. */
  lemma {:induction false} FilesDiffer(rows: seq<Row>, deps: set<(nat, nat)>, db: map<Key, int>, j: Key, k: Key)
    requires Inv(rows, deps, db) && j.space == Files && k.space == Files
    requires Lookup(Plain(rows, db), j) == Lookup(Plain(rows, db), k) != None
    ensures j == k
  {
    OneNameBefore(rows, deps, db, |rows|);
    assert rows[..|rows|] == rows;
    assert TempOk(rows, Plain(rows, db));
    hide Plain, Inv;
  }

  // ---------- the pending folders ----------

  lemma FolderIdsMore(rows: seq<Row>, r: Row)
    ensures FolderIds(rows + [r]) == FolderIds(rows) + if r.typ.Mkdir? then {TempId(r.id)} else {}
  {
    forall x | x in rows + [r] ensures x in rows || x == r {}
    assert (rows + [r])[|rows|] == r;
    forall x | x in rows ensures x in rows + [r] {}
  }

  lemma FolderIdsSame(a: seq<Row>, b: seq<Row>)
    requires |a| == |b| && forall i | 0 <= i < |a| :: b[i].id == a[i].id && b[i].typ == a[i].typ
    ensures FolderIds(a) == FolderIds(b)
  {
    forall x | x in FolderIds(a) ensures x in FolderIds(b) {
      var i :| 0 <= i < |a| && a[i].typ.Mkdir? && TempId(a[i].id) == x;
      assert b[i] in b;
    }
    forall x | x in FolderIds(b) ensures x in FolderIds(a) {
      var i :| 0 <= i < |b| && b[i].typ.Mkdir? && TempId(b[i].id) == x;
      assert a[i] in a;
    }
  }

  lemma FolderIdsDrop(rows: seq<Row>, i: nat, n: nat)
    requires i + n <= |rows| && forall j | i <= j < i + n :: !rows[j].typ.Mkdir?
    ensures FolderIds(Drop(rows, i, n)) == FolderIds(rows)
  {
    var left := Drop(rows, i, n);
    DropAt(rows, i, n);
    hide Drop;
    forall x | x in FolderIds(rows) ensures x in FolderIds(left) {
      var j :| 0 <= j < |rows| && rows[j].typ.Mkdir? && TempId(rows[j].id) == x;
      assert left[if j < i then j else j - n] == rows[j];
    }
    forall x | x in FolderIds(left) ensures x in FolderIds(rows) {
      var j :| 0 <= j < |left| && left[j].typ.Mkdir? && TempId(left[j].id) == x;
      assert rows[if j < i then j else j + n] == left[j];
    }
  }

  lemma FolderKnown(rows: seq<Row>, w: World, folder: int)
    requires FolderIds(rows) == w.folders
    ensures KnownFolder(rows, folder) <==> Known(w, folder)
  {
    if folder < 0 && folder in FolderIds(rows) {
      var i :| 0 <= i < |rows| && rows[i].typ.Mkdir? && TempId(rows[i].id) == folder;
    }
  }

  lemma FolderIdsPair(rows: seq<Row>, id: int, folder: int, f: Row, t: Row)
    requires !f.typ.Mkdir? && !t.typ.Mkdir?
    ensures FolderIds(Relocate(rows, id, folder) + [f, t]) == FolderIds(rows)
  {
    var moved := Relocate(rows, id, folder);
    FolderIdsSame(rows, moved);
    assert moved + [f, t] == moved + [f] + [t];
    hide Relocate;
    FolderIdsMore(moved, f);
    FolderIdsMore(moved + [f], t);
  }

  // ---------- one event ----------

  /** A file of a new origin is under the name now. */
  lemma MadeLinked(rows: seq<Row>, deps: set<(nat, nat)>, db: map<Key, int>, rows': seq<Row>, w: World, ids: map<Origin, int>, n: nat, k: Key, id: int)
    requires Linked(rows, db, w, ids, n) && k.space == Files && FolderIds(rows') == FolderIds(rows)
    requires forall j :: Lookup(Plain(rows', db), j) == if j == k then Some(id) else Lookup(Plain(rows, db), j)
    ensures Linked(rows', db, w.(files := w.files[k := Made(n)]), ids[Made(n) := id], n + 1)
  {
    hide Plain, FolderIds, Lookup;
  }

  lemma GoneLinked(rows: seq<Row>, db: map<Key, int>, rows': seq<Row>, w: World, ids: map<Origin, int>, n: nat, k: Key)
    requires Linked(rows, db, w, ids, n) && FolderIds(rows') == FolderIds(rows)
    requires forall j :: Lookup(Plain(rows', db), j) == if j == k then None else Lookup(Plain(rows, db), j)
    ensures Linked(rows', db, w.(files := w.files - {k}), ids, n + 1)
  {
    hide Plain, FolderIds, Lookup;
  }

  lemma MovedLinked(rows: seq<Row>, db: map<Key, int>, rows': seq<Row>, w: World, ids: map<Origin, int>, n: nat, k: Key, k': Key)
    requires Linked(rows, db, w, ids, n) && k in w.files && k'.space == Files && FolderIds(rows') == FolderIds(rows)
    requires forall j :: Lookup(Plain(rows', db), j)
                         == if j == k' then Some(ids[w.files[k]]) else if j == k then None else Lookup(Plain(rows, db), j)
    ensures Linked(rows', db, w.(files := (w.files - {k})[k' := w.files[k]]), ids, n + 1)
  {
    hide Plain, FolderIds, Lookup;
  }

  /** Nothing happened to files. */
  lemma SameLinked(rows: seq<Row>, db: map<Key, int>, rows': seq<Row>, db': map<Key, int>, w: World, ids: map<Origin, int>, n: nat, folders: set<int>)
    requires Linked(rows, db, w, ids, n) && FolderIds(rows') == folders
    requires forall j: Key | j.space == Files :: Lookup(Plain(rows', db'), j) == Lookup(Plain(rows, db), j)
    ensures Linked(rows', db', w.(folders := folders), ids, n + 1)
  {
    hide Plain, FolderIds, Lookup;
  }

  function Renumbered(ids: map<Origin, int>, task: nat, id: int): map<Origin, int> { map o | o in ids :: SubId(ids[o], task, id) }

  lemma UploadLinked(rows: seq<Row>, db: map<Key, int>, rows': seq<Row>, db': map<Key, int>, w: World, ids: map<Origin, int>, n: nat, task: nat, id: int)
    requires Linked(rows, db, w, ids, n) && FolderIds(rows') == FolderIds(rows)
    requires forall j :: Lookup(Plain(rows', db'), j) == SubOption(j, Lookup(Plain(rows, db), j), task, id)
    ensures Linked(rows', db', w, Renumbered(ids, task, id), n + 1)
  {
    hide Plain, FolderIds, Lookup;
  }

  lemma ServerIds(db: map<Key, int>)
    requires DbOk(db)
    ensures forall id | id in db.Values :: id > 0
  {
  }

  lemma StartLinked(db: map<Key, int>) returns (ids: map<Origin, int>)
    requires DbOk(db)
    ensures Linked([], db, Start(db), ids, 0)
  {
    ServerIds(db);
    ids := map id | id in db.Values :: Server(id) := id;
    assert forall k | k in db :: db[k] in db.Values;
    assert Plain([], db) == db;
    hide Plain, DbOk;
  }

  method StepFolder(t: Tasks, e: Event, ghost w: World, ghost ids: map<Origin, int>, ghost n: nat) returns (made: Option<int>)
    requires t.Valid() && Linked(t.rows, t.db, w, ids, n) && (e.MakeFolder? || e.RemoveFolder? || e.MoveFolder?)
    modifies t, t.table
    ensures t.Valid() && Linked(t.rows, t.db, After(w, n, e, made), ids, n + 1)
    ensures made.Some? ==> e.MakeFolder? && Known(w, e.folder)
    ensures e.MakeFolder? && old(t.Agreed()) ==>
              && t.Agreed()
              && (made.Some? <==> Known(w, e.folder) && old(t.Sees(Key(Dirs, e.folder, e.name))) == None)
              && (made.Some? ==> t.Sees(Key(Dirs, e.folder, e.name)) == made)
  {
    hide Linked, Inv, FilesSync, FromRows, DirIds, Legal, Table.Items, Table.Valid, Agree, Plain, FolderIds, KnownFolder, Relocate, Lookup, Shows;
    ghost var rows0 := t.rows;
    LinkedFolders(t.rows, t.db, w, ids, n);
    made := None;
    match e {
      case MakeFolder(f, name) =>
        FolderKnown(t.rows, w, f);
        if t.Agreed() { t.FoldersAreSeen(Key(Dirs, f, name), None); }
        var id := NextId(t.rows);
        if KnownFolder(t.rows, f) {
          var ret := t.Mkdir(f, name);
          if ret == 0 {
            made := Some(TempId(id));
            FolderIdsMore(rows0, Row(id, TaskType.Mkdir, f, name, 0, f, 0));
          }
        }
      case RemoveFolder(f, name) =>
        ghost var mk, c;
        var ret;
        ret, mk, c := t.Rmdir(f, name);
        if ret == 0 { FolderIdsMore(rows0, Row(NextId(rows0), TaskType.Rmdir, f, name, 0, c, 0)); }
      case MoveFolder(id, f, name, f', name') =>
        if id != 0 && id != f && KnownFolder(t.rows, id) && KnownFolder(t.rows, f) && KnownFolder(t.rows, f') {
          ghost var rm, on, from, to, mk, over := t.RenameFolder(id, f, name, f', name');
          if rm.Some? { FolderIdsMore(rows0, rm.value); }
          FolderIdsPair(if rm.Some? then rows0 + [rm.value] else rows0, id, f', from, to);
        }
    }
    t.SeesAll();
    assert FolderIds(t.rows) == FolderIds(rows0) + if made.Some? then {made.value} else {};
    assert After(w, n, e, made) == w.(folders := FolderIds(t.rows));
    SameLinked(rows0, t.db, t.rows, t.db, w, ids, n, FolderIds(t.rows));
  }

  lemma LinkedFolders(rows: seq<Row>, db: map<Key, int>, w: World, ids: map<Origin, int>, n: nat)
    requires Linked(rows, db, w, ids, n)
    ensures FolderIds(rows) == w.folders
    ensures forall k: Key | k.space == Files :: Lookup(Plain(rows, db), k) == IdOf(w, ids, k)
    ensures forall k: Key | k.space == Files :: k in w.files <==> Lookup(Plain(rows, db), k) != None
  {
    hide Plain, FolderIds;
  }

  lemma NotPending(items: set<Item>, db: map<Key, int>, k: Key)
    requires Shows(items, db, k, None)
    ensures !HasAdd(items, k)
  {
  }

  method StepFile(t: Tasks, e: Event, ghost w: World, ghost ids: map<Origin, int>, n: nat) returns (ghost ids': map<Origin, int>)
    requires t.Valid() && Linked(t.rows, t.db, w, ids, n) && (e.NewFile? || e.Change? || e.Delete? || e.Move?)
    modifies t, t.table
    ensures t.Valid() && Linked(t.rows, t.db, After(w, n, e, None), ids', n + 1)
    ensures old(t.Agreed()) ==> t.Agreed()
  {
    hide Linked, Inv, FilesSync, FromRows, DirIds, Legal, Table.Items, Table.Valid, Agree, Plain, FolderIds, KnownFolder, Relocate, Lookup, Shows;
    ghost var rows0, db0 := t.rows, t.db;
    LinkedFolders(t.rows, t.db, w, ids, n);
    ids' := ids;
    FolderKnown(t.rows, w, e.folder);
    var k := FileKey(e.folder, e.name);
    var file := t.FindFile(k);
    if e.Delete? {
      var ret := t.Unlink(e.folder, e.name, e.rev);
      if ret == 0 { FolderIdsMore(rows0, t.rows[|rows0|]); assert t.rows == rows0 + [t.rows[|rows0|]]; }
      t.SeesAll();
      GoneLinked(rows0, db0, t.rows, w, ids, n, k);
      return;
    }
    if KnownFolder(t.rows, e.folder) {
      if e.Move? {
        FolderKnown(t.rows, w, e.toFolder);
        if KnownFolder(t.rows, e.toFolder) && file.Some? {
          t.RenameFile(file.value, e.folder, e.name, e.toFolder, e.newName);
          ghost var (f, to) := FileRename(rows0, file.value, e.folder, e.name, e.toFolder, e.newName);
          FolderIdsPair(rows0, file.value, e.toFolder, f, to);
          t.SeesAll();
          MovedLinked(rows0, db0, t.rows, w, ids, n, k, FileKey(e.toFolder, e.newName));
          return;
        }
      } else if e.NewFile? && file.None? {
        t.FilesAreSeen(k, None);
        NotPending(t.table.Items(), t.db, k);
        var task := t.AddCreat(e.folder, e.name);
        FolderIdsMore(rows0, Row(task, TaskType.Creat, e.folder, e.name, 0, e.folder, 0));
        t.SeesAll();
        MadeLinked(rows0, t.depends, db0, t.rows, w, ids, n, k, TempId(task));
        ids' := ids[Made(n) := TempId(task)];
        return;
      } else if e.Change? && file.Some? {
        var task := t.AddModified(e.folder, e.name, file.value);
        FolderIdsMore(rows0, Row(task, TaskType.Modify, e.folder, e.name, file.value, e.folder, 0));
        t.SeesAll();
        MadeLinked(rows0, t.depends, db0, t.rows, w, ids, n, k, TempId(task));
        ids' := ids[Made(n) := TempId(task)];
        return;
      }
    }
    t.SeesAll();
    SameLinked(rows0, db0, t.rows, t.db, w, ids, n, FolderIds(t.rows));
  }

  /** A task that is reported as carried out, if it is one that can be. */
  method StepDone(t: Tasks, e: Event, ghost w: World, ghost ids: map<Origin, int>, ghost n: nat) returns (ghost ids': map<Origin, int>)
    requires t.Valid() && Linked(t.rows, t.db, w, ids, n) && (e.Uploaded? || e.Deleted? || e.Moved?)
    modifies t, t.table
    ensures t.Valid() && Linked(t.rows, t.db, w, ids', n + 1)
    ensures old(t.Agreed()) ==> t.Agreed()
  {
    hide Linked, Inv, FilesSync, FromRows, DirIds, Legal, Table.Items, Table.Valid, Agree, Plain, FolderIds, Lookup, ServerId, Ready, SubOption, Drop,
      Released, DeleteFile, MoveFile;
    ghost var rows0, db0 := t.rows, t.db;
    LinkedFolders(t.rows, t.db, w, ids, n);
    ids' := ids;
    if e.row < |t.rows| && Ready(t.depends, t.rows[e.row].id) {
      var r := t.rows[e.row];
      if e.Uploaded? && IsUpload(r.typ) && ServerId(t.db, KeyOf(r), e.id) {
        t.CompleteUpload(e.row, e.id);
        UploadFolders(rows0, e.row, e.id);
        t.SeesAll();
        UploadLinked(rows0, db0, t.rows, t.db, w, ids, n, r.id, e.id);
        ids' := Renumbered(ids, r.id, e.id);
        return;
      } else if e.Deleted? && (r.typ.Unlink? || r.typ.UnSetRev?) {
        t.CompleteUnlink(e.row);
        FolderIdsDrop(rows0, e.row, 1);
      } else if e.Moved? && r.typ.RenfileTo? {
        RenameRowsOf(t.rows, t.depends, t.db, e.row);
        t.CompleteRename(e.row);
        FolderIdsDrop(rows0, e.row - 1, 2);
      }
    }
    t.SeesAll();
    SameLinked(rows0, db0, t.rows, t.db, w, ids, n, FolderIds(t.rows));
  }

  lemma UploadFolders(rows: seq<Row>, i: nat, id: int)
    requires i < |rows| && IsUpload(rows[i].typ)
    ensures FolderIds(SubRows(Drop(rows, i, 1), rows[i].id, id)) == FolderIds(rows)
  {
    hide Drop, FolderIds;
    FolderIdsDrop(rows, i, 1);
    FolderIdsSame(Drop(rows, i, 1), SubRows(Drop(rows, i, 1), rows[i].id, id));
  }

  /** Every run on a database: the files that look-ups find through the trees are those of the plain namespace,
      each under an id of its own, which is the server's for a file of the server that was not changed. */
  method Run(db: map<Key, int>, events: seq<Event>) returns (t: Tasks, made: seq<Option<int>>, ghost ids: map<Origin, int>)
    requires DbOk(db)
    ensures t.Valid() && |made| == |events|
    ensures var w := WorldAfter(db, events, made);
            && (forall k: Key, v | k.space == Files :: Shows(t.table.Items(), t.db, k, v) <==> v == IdOf(w, ids, k))
            && (forall k | k in w.files :: w.files[k] in ids)
            && (forall j, k | j in w.files && k in w.files && ids[w.files[j]] == ids[w.files[k]] :: j == k)
            && (forall x | Server(x) in ids :: ids[Server(x)] == x)
    ensures (forall i | 0 <= i < |events| :: !events[i].RemoveFolder? && !events[i].MoveFolder?) ==> t.Agreed()
  {
    hide Linked, Inv, FilesSync, FromRows, DirIds, Legal, Table.Items, Table.Valid, Agree, Plain, FolderIds, Lookup, Shows;
    t := new Tasks(db);
    made := [];
    ids := StartLinked(db);
    for n := 0 to |events|
      invariant t.Valid() && fresh(t) && fresh(t.table) && |made| == n
      invariant Linked(t.rows, t.db, WorldAfter(db, events[..n], made), ids, n)
      invariant (forall i | 0 <= i < n :: !events[i].RemoveFolder? && !events[i].MoveFolder?) ==> t.Agreed()
    {
      var e := events[n];
      ghost var w := WorldAfter(db, events[..n], made);
      var m := None;
      match e {
        case MakeFolder(_, _) | RemoveFolder(_, _) | MoveFolder(_, _, _, _, _) => m := StepFolder(t, e, w, ids, n);
        case NewFile(_, _) | Change(_, _) | Delete(_, _, _) | Move(_, _, _, _) => ids := StepFile(t, e, w, ids, n);
        case Uploaded(_, _) | Deleted(_) | Moved(_) => ids := StepDone(t, e, w, ids, n);
        case Restarted =>
          LinkedFolders(t.rows, t.db, w, ids, n);
          t := FsTasksInit.Reopen(t);
          SameLinked(t.rows, t.db, t.rows, t.db, w, ids, n, FolderIds(t.rows));
      }
      OneMore(db, events, n, made, m);
      made := made + [m];
    }
    assert events[..|events|] == events;
    RunShows(t, WorldAfter(db, events, made), ids, |events|);
  }

  lemma OneMore(db: map<Key, int>, events: seq<Event>, n: nat, made: seq<Option<int>>, m: Option<int>)
    requires n < |events| && |made| == n
    ensures WorldAfter(db, events[..n + 1], made + [m]) == After(WorldAfter(db, events[..n], made), n, events[n], m)
  {
    hide After;
    assert events[..n + 1][..n] == events[..n] && (made + [m])[..n] == made;
  }

  lemma RunShows(t: Tasks, w: World, ids: map<Origin, int>, n: nat)
    requires t.Valid() && Linked(t.rows, t.db, w, ids, n)
    ensures forall k: Key, v | k.space == Files :: Shows(t.table.Items(), t.db, k, v) <==> v == IdOf(w, ids, k)
    ensures forall k | k in w.files :: w.files[k] in ids
    ensures forall j, k | j in w.files && k in w.files && ids[w.files[j]] == ids[w.files[k]] :: j == k
    ensures forall x | Server(x) in ids :: ids[Server(x)] == x
  {
    hide Inv, FilesSync, FromRows, DirIds, Legal, Table.Items, Table.Valid, Plain, FolderIds, Shows;
    forall k: Key, v | k.space == Files ensures Shows(t.table.Items(), t.db, k, v) <==> v == IdOf(w, ids, k) {
      t.FilesAreSeen(k, v);
    }
    forall j, k | j in w.files && k in w.files && ids[w.files[j]] == ids[w.files[k]] ensures j == k {
      FilesDiffer(t.rows, t.depends, t.db, j, k);
    }
  }
}
