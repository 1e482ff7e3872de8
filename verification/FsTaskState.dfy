/** What every step keeps of the task table, its dependencies and the database. */
module FsTaskState {
  import opened Wrappers
  import opened FsTaskRows

  // ---------- the tables ----------

  /** Ids are one more than the largest id in use. */
  function NextId(rows: seq<Row>): nat { if rows == [] then 1 else rows[|rows| - 1].id + 1 }

  predicate IsFrom(t: TaskType) { t.RenfileFrom? || t.RenfolderFrom? }

  /** A rename's first row only marks the old name: its second row, the next one, is the task. */
  function Owner(r: Row): nat { if IsFrom(r.typ) then r.id + 1 else r.id }

  predicate IsUpload(t: TaskType) { t.Creat? || t.Modify? }

  predicate Removes(t: TaskType) { t.Unlink? || t.UnSetRev? || t.RenfileFrom? }

  /** The file that a removing task expects under its name. */
  function Target(r: Row): int { if r.typ.UnSetRev? then r.int1 else r.file }

  ghost predicate RowsOk(rows: seq<Row>) {
    && (forall i | 0 <= i < |rows| :: rows[i].id > 0)
    && (forall i, j | 0 <= i < j < |rows| :: rows[i].id < rows[j].id)
    && (forall i | 0 <= i < |rows| && IsFrom(rows[i].typ) :: Paired(rows, i))
    && (forall i | 0 <= i < |rows| && rows[i].typ.RenfileTo? :: i > 0 && rows[i - 1].typ.RenfileFrom? && Paired(rows, i - 1))
    && (forall i | 0 <= i < |rows| && rows[i].typ.UnSetRev? :: rows[i].int1 > 0)
  }

  ghost predicate Paired(rows: seq<Row>, i: nat)
    requires i < |rows|
  {
    && i + 1 < |rows| && rows[i + 1].id == rows[i].id + 1 && rows[i + 1].int1 == rows[i].id
    && rows[i + 1].typ == (if rows[i].typ.RenfileFrom? then RenfileTo else RenfolderTo)
    && (rows[i].typ.RenfileFrom? ==> rows[i + 1].file == rows[i].file)
  }

  ghost predicate HasRow(rows: seq<Row>, id: int) { exists i :: 0 <= i < |rows| && rows[i].id == id }

  /** Tasks on the same file name wait for each other. */
  ghost predicate Ordered(rows: seq<Row>, deps: set<(nat, nat)>) {
    forall i, j | 0 <= i < j < |rows| && KeyOf(rows[i]) == KeyOf(rows[j]) && KeyOf(rows[i]).space == Files ::
      (Owner(rows[j]), rows[i].id) in deps
  }

  /** A task that removes a file finds the file it means when its turn comes. */
  ghost predicate Targeted(rows: seq<Row>, db: map<Key, int>) {
    forall j | 0 <= j < |rows| && Removes(rows[j].typ) ::
      Lookup(Plain(rows[..j], db), KeyOf(rows[j])) == Some(Target(rows[j]))
  }

  /** In the database ids are those of the server, also those of folders, and a file has one name. */
  ghost predicate DbOk(db: map<Key, int>) {
    && (forall k | k in db :: db[k] > 0 && k.folder >= 0)
    && (forall j, k | j in db && k in db && j.space == Files && k.space == Files && db[j] == db[k] :: j == k)
  }

  /** A temporary id has one name, in the folder that its task's row says. */
  ghost predicate TempOk(rows: seq<Row>, m: map<Key, int>) {
    && (forall j, k | j in m && k in m && j.space == Files && k.space == Files && m[j] == m[k] && m[j] < 0 :: j == k)
    && (forall k | k in m && k.space == Files && m[k] < 0 :: TempAt(rows, m[k], k.folder))
    && (forall k | k in m && k.space == Files :: m[k] != 0)
  }

  ghost predicate TempAt(rows: seq<Row>, id: int, folder: int) {
    exists i :: 0 <= i < |rows| && IsUpload(rows[i].typ) && TempId(rows[i].id) == id && rows[i].sfolder == folder
  }

  /** Dependencies name rows of the table. */
  ghost predicate EdgesKnown(rows: seq<Row>, deps: set<(nat, nat)>) {
    forall e | e in deps :: HasRow(rows, e.0) && HasRow(rows, e.1)
  }

  /** A folder that the server does not know yet comes from a pending task. */
  predicate KnownFolder(rows: seq<Row>, folder: int) {
    folder < 0 ==> exists i :: 0 <= i < |rows| && rows[i].typ.Mkdir? && TempId(rows[i].id) == folder
  }

  predicate MakesFile(t: TaskType) { Adds(t) && SpaceOf(t) == Files }

  /** A task that makes a file in a folder that the server does not know waits for the folder's task. */
  ghost predicate Located(rows: seq<Row>, deps: set<(nat, nat)>) {
    forall i | 0 <= i < |rows| && MakesFile(rows[i].typ) :: Waits(rows, deps, rows[i])
  }

  ghost predicate Waits(rows: seq<Row>, deps: set<(nat, nat)>, r: Row) {
    KnownFolder(rows, r.folder) && EdgeIf(r.folder < 0, r.id, -r.folder) <= deps
  }

  ghost predicate Inv(rows: seq<Row>, deps: set<(nat, nat)>, db: map<Key, int>) {
    && RowsOk(rows) && Ordered(rows, deps) && Targeted(rows, db) && DbOk(db) && TempOk(rows, Plain(rows, db))
    && EdgesKnown(rows, deps) && Located(rows, deps)
  }

  /** Of files, the live overlay is the one of the rows. */
  ghost predicate FilesSync(items: set<Item>, rows: seq<Row>) {
    forall i: Item | i.key.space == Files :: i in items <==> i in Rebuild(rows)
  }

  /** The live overlay and the one that a restart builds from the rows answer every look-up alike: the
      latter may have more entries that hide a folder hidden anyway. */
  ghost predicate Agree(items: set<Item>, rows: seq<Row>) {
    && items <= Rebuild(rows)
    && forall i | i in Rebuild(rows) :: i in items || (!i.add && i.key.space == Dirs && HasHide(items, i.key))
  }

  lemma AgreeShows(items: set<Item>, rows: seq<Row>, db: map<Key, int>, k: Key, v: Option<int>)
    requires Agree(items, rows)
    ensures Shows(items, db, k, v) <==> Shows(Rebuild(rows), db, k, v)
    ensures Shows(items, db, k, v) <==> v == Lookup(Plain(rows, db), k)
  {
    OverlayMeans(rows, db, k, v);
    hide Rebuild, Plain;
  }

  lemma SyncShows(items: set<Item>, rows: seq<Row>, db: map<Key, int>, k: Key, v: Option<int>)
    requires FilesSync(items, rows) && k.space == Files
    ensures Shows(items, db, k, v) <==> v == Lookup(Plain(rows, db), k)
  {
    OverlayMeans(rows, db, k, v);
    SameAt(items, Rebuild(rows), db, k, v);
  }

  lemma SyncStep(items: set<Item>, rows: seq<Row>, r: Row)
    requires FilesSync(items, rows)
    ensures FilesSync(Step(items, r), rows + [r])
  {
    hide ItemsOf, Rebuild;
    RebuildMore(rows, r);
  }

  lemma AgreeStep(items: set<Item>, rows: seq<Row>, r: Row)
    requires Agree(items, rows)
    ensures Agree(Step(items, r), rows + [r])
  {
    hide ItemsOf, Rebuild;
    RebuildMore(rows, r);
    var after := Step(items, r);
    forall i | i in Step(Rebuild(rows), r) && i !in after
      ensures !i.add && i.key.space == Dirs && HasHide(after, i.key)
    {
      var h :| h in items && !h.add && h.key == i.key;
      assert h in after;
    }
  }

  // ---------- one more row ----------

  function NameEdges(rows: seq<Row>, t: nat, folder: int, name: string, not: set<nat>): set<(nat, nat)> {
    set r | r in rows && r.folder == folder && r.name == name && r.id !in not :: (t, r.id)
  }

  function FolderEdges(rows: seq<Row>, t: nat, folder: int): set<(nat, nat)> {
    set r | r in rows && r.folder == folder :: (t, r.id)
  }

  function EdgeIf(b: bool, t: nat, on: int): set<(nat, nat)> { if b && on >= 0 then {(t, on as nat)} else {} }

  lemma RowsAppend(rows: seq<Row>, r: Row)
    requires RowsOk(rows) && r.id == NextId(rows) && !IsFrom(r.typ) && !r.typ.RenfileTo? && (r.typ.UnSetRev? ==> r.int1 > 0)
    ensures RowsOk(rows + [r])
  {
    var after := rows + [r];
    forall i | 0 <= i < |after| && IsFrom(after[i].typ) ensures Paired(after, i) { assert Paired(rows, i); }
    forall i | 0 <= i < |after| && after[i].typ.RenfileTo?
      ensures i > 0 && after[i - 1].typ.RenfileFrom? && Paired(after, i - 1)
    {
      assert Paired(rows, i - 1);
    }
  }

  lemma OrderedAppend(rows: seq<Row>, deps: set<(nat, nat)>, r: Row, more: set<(nat, nat)>)
    requires Ordered(rows, deps)
    requires KeyOf(r).space == Files ==>
               forall i | 0 <= i < |rows| && KeyOf(rows[i]) == KeyOf(r) :: (Owner(r), rows[i].id) in deps + more
    ensures Ordered(rows + [r], deps + more)
  {
    hide KeyOf, Owner;
  }

  lemma TargetedAppend(rows: seq<Row>, db: map<Key, int>, r: Row)
    requires Targeted(rows, db)
    requires Removes(r.typ) ==> Lookup(Plain(rows, db), KeyOf(r)) == Some(Target(r))
    ensures Targeted(rows + [r], db)
  {
    hide Plain, Lookup;
    var after := rows + [r];
    forall j | 0 <= j < |after| && Removes(after[j].typ)
      ensures Lookup(Plain(after[..j], db), KeyOf(after[j])) == Some(Target(after[j]))
    {
      if j < |rows| { assert after[..j] == rows[..j]; } else { assert after[..j] == rows; }
    }
  }

  /** A task that does not move a temporary id. */
  lemma TempAppend(rows: seq<Row>, m: map<Key, int>, r: Row)
    requires TempOk(rows, m) && RowsOk(rows) && r.id == NextId(rows) && !r.typ.RenfileTo? && !IsFrom(r.typ)
    requires IsUpload(r.typ) ==> r.sfolder == r.folder
    ensures TempOk(rows + [r], Do(m, r))
  {
    assert r.id > 0;
    hide RowsOk;
    var after, n := rows + [r], Do(m, r);
    forall k | k in n && k.space == Files && n[k] < 0 ensures TempAt(after, n[k], k.folder) {
      if k == KeyOf(r) && Adds(r.typ) {
        assert after[|rows|] == r;
      } else {
        TempKept(rows, [r], m[k], k.folder);
      }
    }
    forall k | k in m && k.space == Files && m[k] < 0 ensures m[k] != TempId(r.id) {
      TempIsOld(rows, m[k], k.folder);
    }
  }

  lemma TempKept(rows: seq<Row>, more: seq<Row>, id: int, folder: int)
    requires TempAt(rows, id, folder)
    ensures TempAt(rows + more, id, folder)
  {
    var i :| 0 <= i < |rows| && IsUpload(rows[i].typ) && TempId(rows[i].id) == id && rows[i].sfolder == folder;
    assert (rows + more)[i] == rows[i];
  }

  lemma TempIsOld(rows: seq<Row>, id: int, folder: int)
    requires TempAt(rows, id, folder) && RowsOk(rows)
    ensures id > TempId(NextId(rows))
  {
  }

  lemma EdgesAppend(rows: seq<Row>, deps: set<(nat, nat)>, r: Row, more: set<(nat, nat)>)
    requires EdgesKnown(rows, deps) && forall e | e in more :: e.0 == r.id && HasRow(rows, e.1)
    ensures EdgesKnown(rows + [r], deps + more)
  {
    forall e | e in deps + more ensures HasRow(rows + [r], e.0) && HasRow(rows + [r], e.1) {
      HasRowMore(rows, r, e.0);
      HasRowMore(rows, r, e.1);
    }
  }

  lemma HasRowMore(rows: seq<Row>, r: Row, id: int)
    ensures HasRow(rows + [r], id) <==> HasRow(rows, id) || id == r.id
  {
    var after := rows + [r];
    if HasRow(rows, id) {
      var i :| 0 <= i < |rows| && rows[i].id == id;
      assert after[i].id == id;
    }
    assert after[|rows|] == r;
  }

  lemma AppendEdges(rows: seq<Row>, r: Row, more: set<(nat, nat)>)
    requires RowsOk(rows) && r.id == NextId(rows) && !IsFrom(r.typ)
    requires NameEdges(rows, r.id, r.folder, r.name, {r.id}) <= more
    ensures forall i | 0 <= i < |rows| && KeyOf(rows[i]) == KeyOf(r) :: (Owner(r), rows[i].id) in more
  {
    forall i | 0 <= i < |rows| && KeyOf(rows[i]) == KeyOf(r) ensures (r.id, rows[i].id) in more {
      assert rows[i] in rows && rows[i].id != r.id;
      assert (r.id, rows[i].id) in NameEdges(rows, r.id, r.folder, r.name, {r.id});
    }
  }

  lemma KnownKept(rows: seq<Row>, more: seq<Row>, folder: int)
    requires KnownFolder(rows, folder)
    ensures KnownFolder(rows + more, folder)
  {
    if folder < 0 {
      var i :| 0 <= i < |rows| && rows[i].typ.Mkdir? && TempId(rows[i].id) == folder;
      assert (rows + more)[i] == rows[i];
    }
  }

  lemma LocatedAppend(rows: seq<Row>, deps: set<(nat, nat)>, r: Row, more: set<(nat, nat)>)
    requires Located(rows, deps) && (MakesFile(r.typ) ==> Waits(rows, more, r))
    ensures Located(rows + [r], deps + more)
  {
    hide KnownFolder, EdgeIf, MakesFile;
    var after := rows + [r];
    forall i | 0 <= i < |after| && MakesFile(after[i].typ) ensures Waits(after, deps + more, after[i]) {
      if i < |rows| { assert Waits(rows, deps, rows[i]); }
      KnownKept(rows, [r], after[i].folder);
    }
  }

  /** The common case of an operation: one row, with the dependencies `more`. */
  lemma InvAppend(rows: seq<Row>, deps: set<(nat, nat)>, db: map<Key, int>, r: Row, more: set<(nat, nat)>)
    requires Inv(rows, deps, db) && r.id == NextId(rows) && !r.typ.RenfileTo? && !IsFrom(r.typ)
    requires r.typ.UnSetRev? ==> r.int1 > 0
    requires IsUpload(r.typ) ==> r.sfolder == r.folder
    requires Removes(r.typ) ==> Lookup(Plain(rows, db), KeyOf(r)) == Some(Target(r))
    requires NameEdges(rows, r.id, r.folder, r.name, {r.id}) <= more
    requires forall e | e in more :: e.0 == r.id && HasRow(rows, e.1)
    requires MakesFile(r.typ) ==> Waits(rows, more, r)
    ensures Inv(rows + [r], deps + more, db)
  {
    hide RowsOk, Plain, Do, Lookup, NameEdges, NextId, Ordered, Targeted, TempOk, DbOk, EdgesKnown, Owner, KeyOf, HasRow, Located, Waits, MakesFile;
    LocatedAppend(rows, deps, r, more);
    RowsAppend(rows, r);
    AppendEdges(rows, r, more);
    OrderedAppend(rows, deps, r, more);
    TargetedAppend(rows, db, r);
    PlainMore(rows, r, db);
    TempAppend(rows, Plain(rows, db), r);
    EdgesAppend(rows, deps, r, more);
  }

  // ---------- renaming a file ----------

  /** The row of the task that a temporary id comes from notes where the file is now. */
  function Relocate(rows: seq<Row>, id: int, folder: int): (r: seq<Row>)
    ensures |r| == |rows|
    ensures forall j | 0 <= j < |rows| :: r[j] == if TempId(rows[j].id) == id then rows[j].(sfolder := folder) else rows[j]
  {
    seq(|rows|, j requires 0 <= j < |rows| => if TempId(rows[j].id) == id then rows[j].(sfolder := folder) else rows[j])
  }

  /** Rows that differ only in where an upload's file is. */
  ghost predicate SameTasks(a: seq<Row>, b: seq<Row>) {
    |a| == |b| && forall j | 0 <= j < |a| :: SameTask(a[j], b[j])
  }

  predicate SameTask(a: Row, b: Row) {
    b == a || (IsUpload(a.typ) && b == a.(sfolder := b.sfolder)) || (a.typ.Mkdir? && b == a.(sfolder := b.sfolder))
  }

  lemma {:induction false} SameRebuild(a: seq<Row>, b: seq<Row>, db: map<Key, int>)
    requires SameTasks(a, b)
    ensures Rebuild(a) == Rebuild(b) && Plain(a, db) == Plain(b, db)
    decreases |a|
  {
    if a != [] { SameRebuild(a[..|a| - 1], b[..|b| - 1], db); }
  }

  lemma SameOrdered(a: seq<Row>, b: seq<Row>, deps: set<(nat, nat)>)
    requires SameTasks(a, b) && Ordered(a, deps)
    ensures Ordered(b, deps)
  {
    forall i, j | 0 <= i < j < |b| && KeyOf(b[i]) == KeyOf(b[j]) && KeyOf(b[i]).space == Files
      ensures (Owner(b[j]), b[i].id) in deps
    {
      assert SameTask(a[i], b[i]) && SameTask(a[j], b[j]);
    }
  }

  lemma SameTargeted(a: seq<Row>, b: seq<Row>, db: map<Key, int>)
    requires SameTasks(a, b) && Targeted(a, db)
    ensures Targeted(b, db)
  {
    forall j | 0 <= j < |b| && Removes(b[j].typ)
      ensures Lookup(Plain(b[..j], db), KeyOf(b[j])) == Some(Target(b[j]))
    {
      assert SameTask(a[j], b[j]);
      SameRebuild(a[..j], b[..j], db);
    }
  }

  lemma SameKnown(a: seq<Row>, b: seq<Row>, folder: int)
    requires SameTasks(a, b) && KnownFolder(a, folder)
    ensures KnownFolder(b, folder)
  {
    if folder < 0 {
      var i :| 0 <= i < |a| && a[i].typ.Mkdir? && TempId(a[i].id) == folder;
      assert SameTask(a[i], b[i]);
    }
  }

  lemma SameLocated(a: seq<Row>, b: seq<Row>, deps: set<(nat, nat)>)
    requires SameTasks(a, b) && Located(a, deps)
    ensures Located(b, deps)
  {
    hide KnownFolder, EdgeIf, MakesFile;
    forall i | 0 <= i < |b| && MakesFile(b[i].typ) ensures Waits(b, deps, b[i]) {
      assert SameTask(a[i], b[i]);
      assert Waits(a, deps, a[i]);
      SameKnown(a, b, a[i].folder);
    }
  }

  lemma SameNext(a: seq<Row>, b: seq<Row>)
    requires SameTasks(a, b)
    ensures NextId(a) == NextId(b)
  {
    if a != [] { assert SameTask(a[|a| - 1], b[|a| - 1]); }
  }

  lemma SameHasRow(a: seq<Row>, b: seq<Row>, id: int)
    requires SameTasks(a, b)
    ensures HasRow(b, id) <==> HasRow(a, id)
  {
    if HasRow(a, id) {
      var i :| 0 <= i < |a| && a[i].id == id;
      assert b[i].id == id;
    }
  }

  lemma SameRowsOk(a: seq<Row>, b: seq<Row>)
    requires SameTasks(a, b) && RowsOk(a)
    ensures RowsOk(b)
  {
    forall i | 0 <= i < |b| ensures b[i].id == a[i].id && b[i].typ == a[i].typ && b[i].int1 == a[i].int1 && b[i].file == a[i].file {
      assert SameTask(a[i], b[i]);
    }
    forall i | 0 <= i < |b| && IsFrom(b[i].typ) ensures Paired(b, i) { assert Paired(a, i); }
    forall i | 0 <= i < |b| && b[i].typ.RenfileTo? ensures i > 0 && b[i - 1].typ.RenfileFrom? && Paired(b, i - 1) {
      assert Paired(a, i - 1);
    }
  }

  lemma RelocateSame(rows: seq<Row>, id: int, folder: int, from: int)
    requires RowsOk(rows) && (id < 0 ==> TempAt(rows, id, from))
    ensures SameTasks(rows, Relocate(rows, id, folder))
  {
    if id < 0 {
      var i :| 0 <= i < |rows| && IsUpload(rows[i].typ) && TempId(rows[i].id) == id;
      forall j | 0 <= j < |rows| ensures SameTask(rows[j], Relocate(rows, id, folder)[j]) {
        if rows[j].id == rows[i].id { assert j == i; }
      }
    }
  }

  lemma RowsPair(rows: seq<Row>, f: Row, t: Row)
    requires RowsOk(rows) && f.id == NextId(rows) && t.id == f.id + 1 && t.int1 == f.id && t.file == f.file
    requires f.typ == RenfileFrom && t.typ == RenfileTo
    ensures RowsOk(rows + [f, t])
  {
    var after := rows + [f, t];
    forall i | 0 <= i < |after| && IsFrom(after[i].typ) ensures Paired(after, i) {
      if i < |rows| { assert Paired(rows, i); }
    }
    forall i | 0 <= i < |after| && after[i].typ.RenfileTo?
      ensures i > 0 && after[i - 1].typ.RenfileFrom? && Paired(after, i - 1)
    {
      if i < |rows| { assert Paired(rows, i - 1); }
    }
  }

  lemma OrderedPair(rows: seq<Row>, deps: set<(nat, nat)>, f: Row, t: Row, more: set<(nat, nat)>)
    requires Ordered(rows, deps)
    requires forall i | 0 <= i < |rows| && KeyOf(rows[i]) == KeyOf(f) :: (Owner(f), rows[i].id) in deps + more
    requires forall i | 0 <= i < |rows| && KeyOf(rows[i]) == KeyOf(t) :: (Owner(t), rows[i].id) in deps + more
    requires KeyOf(f) == KeyOf(t) ==> (Owner(t), f.id) in deps + more
    ensures Ordered(rows + [f, t], deps + more)
  {
    hide KeyOf, Owner;
    OrderedAppend(rows, deps, f, more);
    OrderedAppend(rows + [f], deps + more, t, more);
    assert rows + [f] + [t] == rows + [f, t] && deps + more + more == deps + more;
  }

  lemma TempMoved(rows: seq<Row>, m: map<Key, int>, f: Row, t: Row)
    requires RowsOk(rows) && TempOk(rows, m) && Lookup(m, KeyOf(f)) == Some(f.file)
    requires f.typ == RenfileFrom && t.typ == RenfileTo && t.file == f.file
    ensures TempOk(Relocate(rows, f.file, t.folder), Do(Do(m, f), t))
  {
    hide RowsOk;
    var n, after := Do(Do(m, f), t), Relocate(rows, f.file, t.folder);
    forall k | k in n && k.space == Files && n[k] < 0 ensures TempAt(after, n[k], k.folder) {
      if k == KeyOf(t) {
        assert TempAt(rows, m[KeyOf(f)], f.folder);
        var i :| 0 <= i < |rows| && IsUpload(rows[i].typ) && TempId(rows[i].id) == f.file && rows[i].sfolder == f.folder;
        assert after[i].sfolder == t.folder;
      } else {
        assert m[k] != f.file;
        var i :| 0 <= i < |rows| && IsUpload(rows[i].typ) && TempId(rows[i].id) == m[k] && rows[i].sfolder == k.folder;
        assert after[i] == rows[i];
      }
    }
  }

  lemma {:induction false} TempMore(rows: seq<Row>, more: seq<Row>, m: map<Key, int>)
    requires TempOk(rows, m)
    ensures TempOk(rows + more, m)
  {
    forall k | k in m && k.space == Files && m[k] < 0 ensures TempAt(rows + more, m[k], k.folder) {
      TempKept(rows, more, m[k], k.folder);
    }
  }

  lemma EdgesTo(rows: seq<Row>, moved: seq<Row>, f: Row, t: Row, more: set<(nat, nat)>, folder: int, name: string, not: set<nat>)
    requires SameTasks(rows, moved) && RowsOk(rows) && f.id == NextId(rows) && t.id == f.id + 1 && not <= {t.id, f.id}
    requires NameEdges(rows + [f], t.id, folder, name, not) <= more
    ensures forall i | 0 <= i < |moved| && moved[i].folder == folder && moved[i].name == name :: (t.id, moved[i].id) in more
  {
    assert |moved| == |rows|;
    hide NameEdges, SameTasks, RowsOk, NextId;
    forall i | 0 <= i < |moved| && moved[i].folder == folder && moved[i].name == name ensures (t.id, moved[i].id) in more {
      EdgeAt(rows, moved, f, t, i, folder, name, not);
    }
  }

  lemma PairEdges(rows: seq<Row>, moved: seq<Row>, f: Row, t: Row, more: set<(nat, nat)>)
    requires SameTasks(rows, moved) && RowsOk(rows) && f.id == NextId(rows) && t.id == f.id + 1
    requires f.typ == RenfileFrom && t.typ == RenfileTo
    requires NameEdges(rows + [f], t.id, f.folder, f.name, {t.id, f.id}) <= more
    requires NameEdges(rows + [f], t.id, t.folder, t.name, {t.id}) <= more
    ensures forall i | 0 <= i < |moved| && KeyOf(moved[i]) == KeyOf(f) :: (Owner(f), moved[i].id) in more
    ensures forall i | 0 <= i < |moved| && KeyOf(moved[i]) == KeyOf(t) :: (Owner(t), moved[i].id) in more
    ensures KeyOf(f) == KeyOf(t) ==> (Owner(t), f.id) in more
  {
    hide NameEdges, SameTasks, RowsOk;
    EdgesTo(rows, moved, f, t, more, f.folder, f.name, {t.id, f.id});
    EdgesTo(rows, moved, f, t, more, t.folder, t.name, {t.id});
    if KeyOf(f) == KeyOf(t) { SelfEdge(rows, f, t); }
  }

  lemma SelfEdge(rows: seq<Row>, f: Row, t: Row)
    requires t.id == f.id + 1 && t.folder == f.folder && t.name == f.name
    ensures (t.id, f.id) in NameEdges(rows + [f], t.id, t.folder, t.name, {t.id})
  {
    assert f in rows + [f];
  }

  lemma MovedSame(rows: seq<Row>, m: map<Key, int>, f: Row, folder: int)
    requires RowsOk(rows) && TempOk(rows, m) && Lookup(m, KeyOf(f)) == Some(f.file) && f.typ == RenfileFrom
    ensures SameTasks(rows, Relocate(rows, f.file, folder))
  {
    hide RowsOk, SameTasks;
    if f.file < 0 { assert TempAt(rows, m[KeyOf(f)], f.folder); }
    RelocateSame(rows, f.file, folder, f.folder);
  }

  lemma TargetedPair(rows: seq<Row>, db: map<Key, int>, f: Row, t: Row)
    requires Targeted(rows, db) && f.typ == RenfileFrom && t.typ == RenfileTo
    requires Lookup(Plain(rows, db), KeyOf(f)) == Some(f.file)
    ensures Targeted(rows + [f, t], db) && Plain(rows + [f, t], db) == Do(Do(Plain(rows, db), f), t)
  {
    hide Plain, Do, Lookup, Targeted;
    TargetedAppend(rows, db, f);
    TargetedAppend(rows + [f], db, t);
    PlainMore(rows, f, db);
    PlainMore(rows + [f], t, db);
    assert rows + [f] + [t] == rows + [f, t];
  }

  /** Two rows for a rename, and the file's whereabouts. */
  lemma InvRename(rows: seq<Row>, deps: set<(nat, nat)>, db: map<Key, int>, f: Row, t: Row, more: set<(nat, nat)>)
    requires Inv(rows, deps, db) && f.id == NextId(rows) && t.id == f.id + 1 && t.int1 == f.id && t.file == f.file
    requires f.typ == RenfileFrom && t.typ == RenfileTo
    requires Lookup(Plain(rows, db), KeyOf(f)) == Some(f.file)
    requires NameEdges(rows + [f], t.id, f.folder, f.name, {t.id, f.id}) <= more
    requires NameEdges(rows + [f], t.id, t.folder, t.name, {t.id}) <= more
    requires forall e | e in more :: e.0 == t.id && HasRow(rows + [f], e.1)
    requires Waits(rows, more, t)
    ensures Inv(Relocate(rows, f.file, t.folder) + [f, t], deps + more, db)
  {
    hide Plain, Do, Lookup, NameEdges, SameTasks, Relocate, Ordered, Targeted, KeyOf, RowsOk, TempOk, DbOk, EdgesKnown, NextId, Owner, Located, Waits;
    var moved := Relocate(rows, f.file, t.folder);
    MovedSame(rows, Plain(rows, db), f, t.folder);
    SameRowsOk(rows, moved);
    SameNext(rows, moved);
    SameRebuild(rows, moved, db);
    RowsPair(moved, f, t);
    SameOrdered(rows, moved, deps);
    PairEdges(rows, moved, f, t, more);
    OrderedPair(moved, deps, f, t, more);
    SameTargeted(rows, moved, db);
    TargetedPair(moved, db, f, t);
    TempMoved(rows, Plain(rows, db), f, t);
    TempMore(moved, [f, t], Plain(moved + [f, t], db));
    EdgesPair(rows, moved, deps, f, t, more);
    LocatedPair(rows, moved, deps, f, t, more);
  }

  lemma LocatedPair(rows: seq<Row>, moved: seq<Row>, deps: set<(nat, nat)>, f: Row, t: Row, more: set<(nat, nat)>)
    requires SameTasks(rows, moved) && Located(rows, deps) && !MakesFile(f.typ) && (MakesFile(t.typ) ==> Waits(rows, more, t))
    ensures Located(moved + [f, t], deps + more)
  {
    hide Located, KnownFolder, SameTasks;
    SameLocated(rows, moved, deps);
    LocatedAppend(moved, deps, f, {});
    assert deps + {} == deps;
    if MakesFile(t.typ) {
      SameKnown(rows, moved, t.folder);
      KnownKept(moved, [f], t.folder);
    }
    LocatedAppend(moved + [f], deps, t, more);
    assert moved + [f] + [t] == moved + [f, t];
  }

  lemma EdgeAt(rows: seq<Row>, moved: seq<Row>, f: Row, t: Row, i: nat, folder: int, name: string, not: set<nat>)
    requires SameTasks(rows, moved) && RowsOk(rows) && f.id == NextId(rows) && t.id == f.id + 1 && i < |rows|
    requires not <= {t.id, f.id} && moved[i].folder == folder && moved[i].name == name
    ensures (t.id, moved[i].id) in NameEdges(rows + [f], t.id, folder, name, not)
  {
    assert SameTask(rows[i], moved[i]);
    assert (rows + [f])[i] == rows[i] && rows[i] in rows + [f];
  }

  lemma EdgesPair(rows: seq<Row>, moved: seq<Row>, deps: set<(nat, nat)>, f: Row, t: Row, more: set<(nat, nat)>)
    requires SameTasks(rows, moved) && EdgesKnown(rows, deps)
    requires forall e | e in more :: e.0 == t.id && HasRow(rows + [f], e.1)
    ensures EdgesKnown(moved + [f, t], deps + more)
  {
    hide SameTasks;
    assert moved + [f, t] == moved + [f] + [t];
    forall e | e in deps + more ensures HasRow(moved + [f, t], e.0) && HasRow(moved + [f, t], e.1) {
      SameHasRow(rows, moved, e.0);
      SameHasRow(rows, moved, e.1);
      HasRowMore(rows, f, e.1);
      HasRowMore(moved, f, e.0);
      HasRowMore(moved, f, e.1);
      HasRowMore(moved + [f], t, e.0);
      HasRowMore(moved + [f], t, e.1);
    }
  }

  // ---------- carrying out a task ----------

  predicate Ready(deps: set<(nat, nat)>, t: nat) { forall e | e in deps :: e.0 != t }

  function Drop(rows: seq<Row>, i: nat, n: nat): seq<Row>
    requires i + n <= |rows|
  {
    rows[..i] + rows[i + n..]
  }

  /** What is left of the dependencies when `gone` is done. */
  function Released(deps: set<(nat, nat)>, gone: set<nat>): set<(nat, nat)> {
    set e | e in deps && e.0 !in gone && e.1 !in gone
  }

  /** A task that waits for nothing is the first for its name. */
  lemma ReadyIsFirst(rows: seq<Row>, deps: set<(nat, nat)>, i: nat)
    requires Ordered(rows, deps) && i < |rows| && KeyOf(rows[i]).space == Files && Ready(deps, Owner(rows[i]))
    ensures NoKey(rows[..i], KeyOf(rows[i]))
  {
    hide KeyOf;
    forall j | 0 <= j < i ensures KeyOf(rows[j]) != KeyOf(rows[i]) { EarlierEdge(rows, deps, j, i); }
  }

  lemma EarlierEdge(rows: seq<Row>, deps: set<(nat, nat)>, i: nat, j: nat)
    requires Ordered(rows, deps) && i < j < |rows| && KeyOf(rows[j]).space == Files
    ensures KeyOf(rows[i]) == KeyOf(rows[j]) ==> (Owner(rows[j]), rows[i].id) in deps
  {
    hide KeyOf, Owner;
  }

  lemma SplitAt(rows: seq<Row>, i: nat)
    requires i < |rows|
    ensures rows == rows[..i] + [rows[i]] + rows[i + 1..]
    ensures Drop(rows, i, 1) == rows[..i] + rows[i + 1..]
  {
  }

  lemma DropAt(rows: seq<Row>, i: nat, n: nat)
    requires i + n <= |rows|
    ensures |Drop(rows, i, n)| == |rows| - n
    ensures forall j | 0 <= j < |rows| - n :: Drop(rows, i, n)[j] == rows[if j < i then j else j + n]
  {
  }

  /** Dropping rows from the table keeps what is said about pairs of rows. */
  lemma DropRows(rows: seq<Row>, i: nat, n: nat)
    requires RowsOk(rows) && i + n <= |rows| && (n == 1 || n == 2)
    requires n == 1 ==> !IsFrom(rows[i].typ) && !rows[i].typ.RenfileTo? && !rows[i].typ.RenfolderTo?
    requires n == 2 ==> rows[i].typ.RenfileFrom?
    ensures RowsOk(Drop(rows, i, n))
  {
    hide Drop;
    var after := Drop(rows, i, n);
    DropAt(rows, i, n);
    if n == 2 { assert Paired(rows, i); }
    forall j: nat | j < |after| ensures IsFrom(after[j].typ) ==> Paired(after, j) {
      if IsFrom(after[j].typ) { DropPaired(rows, i, n, j); }
    }
    forall j: nat | j < |after| && after[j].typ.RenfileTo?
      ensures j > 0 && after[j - 1].typ.RenfileFrom? && Paired(after, j - 1)
    {
      var j': nat := if j < i then j else j + n;
      assert Paired(rows, j' - 1);
      assert j' - 1 < i || j' - 1 >= i + n;
      DropPaired(rows, i, n, j - 1);
    }
  }

  lemma DropPaired(rows: seq<Row>, i: nat, n: nat, j: nat)
    requires RowsOk(rows) && i + n <= |rows| && (n == 1 || n == 2) && j < |rows| - n
    requires n == 1 ==> !IsFrom(rows[i].typ) && !rows[i].typ.RenfileTo? && !rows[i].typ.RenfolderTo?
    requires n == 2 ==> rows[i].typ.RenfileFrom? && Paired(rows, i)
    requires |Drop(rows, i, n)| == |rows| - n
    requires IsFrom(Drop(rows, i, n)[j].typ)
    ensures Paired(Drop(rows, i, n), j)
  {
    hide Drop;
    DropAt(rows, i, n);
    assert Paired(rows, if j < i then j else j + n);
  }

  lemma DropOrdered(rows: seq<Row>, deps: set<(nat, nat)>, i: nat, n: nat, gone: set<nat>)
    requires RowsOk(rows) && Ordered(rows, deps) && i + n <= |rows| && (n == 1 || n == 2)
    requires n == 1 ==> !IsFrom(rows[i].typ) && !rows[i].typ.RenfileTo? && !rows[i].typ.RenfolderTo?
    requires n == 2 ==> rows[i].typ.RenfileFrom?
    requires gone == set j | i <= j < i + n :: rows[j].id
    ensures Ordered(Drop(rows, i, n), Released(deps, gone))
  {
    hide KeyOf;
    var after := Drop(rows, i, n);
    forall a, b | 0 <= a < b < |after| && KeyOf(after[a]) == KeyOf(after[b]) && KeyOf(after[a]).space == Files
      ensures (Owner(after[b]), after[a].id) in Released(deps, gone)
    {
      var a', b': nat := if a < i then a else a + n, if b < i then b else b + n;
      assert after[a] == rows[a'] && after[b] == rows[b'];
      assert (Owner(rows[b']), rows[a'].id) in deps;
      OwnerStays(rows, i, n, b');
      assert rows[a'].id !in gone;
    }
  }

  /** The task a row belongs to is dropped only with the row. */
  lemma OwnerStays(rows: seq<Row>, i: nat, n: nat, b: nat)
    requires RowsOk(rows) && i + n <= |rows| && b < |rows| && !(i <= b < i + n) && (n == 1 || n == 2)
    requires n == 1 ==> !rows[i].typ.RenfileTo? && !rows[i].typ.RenfolderTo?
    requires n == 2 ==> rows[i].typ.RenfileFrom?
    ensures forall j | i <= j < i + n :: Owner(rows[b]) != rows[j].id
  {
    if IsFrom(rows[b].typ) { assert Paired(rows, b); }
    if n == 2 { assert Paired(rows, i); }
  }

  lemma DropEdges(rows: seq<Row>, deps: set<(nat, nat)>, i: nat, n: nat, gone: set<nat>)
    requires EdgesKnown(rows, deps) && i + n <= |rows| && gone == set j | i <= j < i + n :: rows[j].id
    ensures EdgesKnown(Drop(rows, i, n), Released(deps, gone))
  {
    var after := Drop(rows, i, n);
    forall e | e in Released(deps, gone) ensures HasRow(after, e.0) && HasRow(after, e.1) {
      StillThere(rows, i, n, gone, e.0);
      StillThere(rows, i, n, gone, e.1);
    }
  }

  lemma StillThere(rows: seq<Row>, i: nat, n: nat, gone: set<nat>, id: nat)
    requires HasRow(rows, id) && i + n <= |rows| && gone == (set j | i <= j < i + n :: rows[j].id) && id !in gone
    ensures HasRow(Drop(rows, i, n), id)
  {
    var j :| 0 <= j < |rows| && rows[j].id == id;
    var after := Drop(rows, i, n);
    if j < i { assert after[j] == rows[j]; } else { assert after[j - n] == rows[j]; }
  }

  lemma DropLocated(rows: seq<Row>, deps: set<(nat, nat)>, i: nat, n: nat, gone: set<nat>)
    requires RowsOk(rows) && Located(rows, deps) && i + n <= |rows| && gone == set j | i <= j < i + n :: rows[j].id
    requires forall j | i <= j < i + n :: !rows[j].typ.Mkdir?
    ensures Located(Drop(rows, i, n), Released(deps, gone))
  {
    var after := Drop(rows, i, n);
    DropAt(rows, i, n);
    hide Drop, MakesFile, RowsOk, KnownFolder;
    forall j | 0 <= j < |after| && MakesFile(after[j].typ) ensures Waits(after, Released(deps, gone), after[j]) {
      var j': nat := if j < i then j else j + n;
      assert Waits(rows, deps, rows[j']);
      StillWaits(rows, deps, i, n, gone, j');
    }
  }

  lemma StillWaits(rows: seq<Row>, deps: set<(nat, nat)>, i: nat, n: nat, gone: set<nat>, j: nat)
    requires RowsOk(rows) && i + n <= |rows| && gone == (set j | i <= j < i + n :: rows[j].id)
    requires forall j | i <= j < i + n :: !rows[j].typ.Mkdir?
    requires j < |rows| && !(i <= j < i + n) && Waits(rows, deps, rows[j])
    ensures Waits(Drop(rows, i, n), Released(deps, gone), rows[j])
  {
    var after, r := Drop(rows, i, n), rows[j];
    if r.folder < 0 {
      var m :| 0 <= m < |rows| && rows[m].typ.Mkdir? && TempId(rows[m].id) == r.folder;
      assert after[if m < i then m else m - n] == rows[m];
      assert rows[m].id !in gone && r.id !in gone;
    }
  }

  /** A task that waits for nothing makes its file in a folder of the server. */
  lemma ReadyIsLocated(rows: seq<Row>, deps: set<(nat, nat)>, i: nat)
    requires Located(rows, deps) && i < |rows| && MakesFile(rows[i].typ) && Ready(deps, rows[i].id)
    ensures rows[i].folder >= 0
  {
    assert Waits(rows, deps, rows[i]);
    hide KnownFolder;
  }

  /** What the removing tasks expect is not changed by carrying out the first task of a name. */
  lemma DropTargeted(rows: seq<Row>, db: map<Key, int>, i: nat)
    requires Targeted(rows, db) && i < |rows| && NoKey(rows[..i], KeyOf(rows[i]))
    ensures Targeted(Drop(rows, i, 1), Do(db, rows[i]))
  {
    hide Do, Lookup, KeyOf;
    var after, r := Drop(rows, i, 1), rows[i];
    forall j | 0 <= j < |after| && Removes(after[j].typ)
      ensures Lookup(Plain(after[..j], Do(db, r)), KeyOf(after[j])) == Some(Target(after[j]))
    {
      if j < i {
        assert after[..j] == rows[..j] && after[j] == rows[j] && rows[..i][j] == rows[j];
        DoElsewhere(db, r, KeyOf(rows[j]));
        PlainAt(rows[..j], db, Do(db, r), KeyOf(rows[j]));
      } else {
        assert after[j] == rows[j + 1];
        var b := rows[i + 1..j + 1];
        assert after[..j] == rows[..i] + b && rows[..j + 1] == rows[..i] + [r] + b;
        PlainWithout(rows[..i], r, b, db);
      }
    }
  }

  lemma DoElsewhere(db: map<Key, int>, r: Row, k: Key)
    requires k != KeyOf(r)
    ensures Lookup(db, k) == Lookup(Do(db, r), k)
  {
  }

  /** Temporary ids that are left still come from rows of the table. */
  lemma DropTemp(rows: seq<Row>, m: map<Key, int>, i: nat, n: nat)
    requires TempOk(rows, m) && i + n <= |rows| && forall j | i <= j < i + n :: !IsUpload(rows[j].typ)
    ensures TempOk(Drop(rows, i, n), m)
  {
    var after := Drop(rows, i, n);
    forall k | k in m && k.space == Files && m[k] < 0 ensures TempAt(after, m[k], k.folder) {
      var j :| 0 <= j < |rows| && IsUpload(rows[j].typ) && TempId(rows[j].id) == m[k] && rows[j].sfolder == k.folder;
      if j < i { assert after[j] == rows[j]; } else { assert after[j - n] == rows[j]; }
    }
  }

  // ---------- renaming a folder ----------

  lemma DirTemp(rows: seq<Row>, m: map<Key, int>, r: Row)
    requires TempOk(rows, m) && KeyOf(r).space == Dirs
    ensures TempOk(rows + [r], Do(m, r))
  {
    forall k | k in Do(m, r) && k.space == Files && Do(m, r)[k] < 0 ensures TempAt(rows + [r], m[k], k.folder) {
      TempKept(rows, [r], m[k], k.folder);
    }
  }

  lemma DirOrdered(rows: seq<Row>, deps: set<(nat, nat)>, more: set<(nat, nat)>, r: Row)
    requires Ordered(rows, deps) && KeyOf(r).space == Dirs
    ensures Ordered(rows + [r], deps + more)
  {
    OrderedAppend(rows, deps, r, more);
  }

  lemma MovedFolder(rows: seq<Row>, id: int, folder: int)
    requires RowsOk(rows) && KnownFolder(rows, id)
    ensures SameTasks(rows, Relocate(rows, id, folder))
  {
    if id < 0 {
      var i :| 0 <= i < |rows| && rows[i].typ.Mkdir? && TempId(rows[i].id) == id;
      forall j | 0 <= j < |rows| ensures SameTask(rows[j], Relocate(rows, id, folder)[j]) {
        if rows[j].id == rows[i].id { assert j == i; }
      }
    }
  }

  /** A row about a folder, with any dependencies. */
  lemma InvAppendDir(rows: seq<Row>, deps: set<(nat, nat)>, db: map<Key, int>, r: Row, more: set<(nat, nat)>)
    requires Inv(rows, deps, db) && r.id == NextId(rows) && (r.typ.Mkdir? || r.typ.Rmdir?)
    requires forall e | e in more :: e.0 == r.id && HasRow(rows, e.1)
    ensures Inv(rows + [r], deps + more, db)
  {
    hide RowsOk, Plain, Do, Lookup, NextId, Ordered, Targeted, TempOk, DbOk, EdgesKnown, Owner, HasRow, Located;
    LocatedAppend(rows, deps, r, more);
    RowsAppend(rows, r);
    DirOrdered(rows, deps, more, r);
    TargetedAppend(rows, db, r);
    PlainMore(rows, r, db);
    DirTemp(rows, Plain(rows, db), r);
    EdgesAppend(rows, deps, r, more);
  }

  lemma RowsFolderPair(rows: seq<Row>, f: Row, t: Row)
    requires RowsOk(rows) && f.id == NextId(rows) && t.id == f.id + 1 && t.int1 == f.id
    requires f.typ == RenfolderFrom && t.typ == RenfolderTo
    ensures RowsOk(rows + [f, t])
  {
    var after := rows + [f, t];
    forall i | 0 <= i < |after| && IsFrom(after[i].typ) ensures Paired(after, i) {
      if i < |rows| { assert Paired(rows, i); }
    }
    forall i | 0 <= i < |after| && after[i].typ.RenfileTo?
      ensures i > 0 && after[i - 1].typ.RenfileFrom? && Paired(after, i - 1)
    {
      assert Paired(rows, i - 1);
    }
  }

  lemma SameTemp(a: seq<Row>, b: seq<Row>, m: map<Key, int>)
    requires SameTasks(a, b) && TempOk(a, m) && forall j | 0 <= j < |a| && IsUpload(a[j].typ) :: b[j] == a[j]
    ensures TempOk(b, m)
  {
    forall k | k in m && k.space == Files && m[k] < 0 ensures TempAt(b, m[k], k.folder) {
      var i :| 0 <= i < |a| && IsUpload(a[i].typ) && TempId(a[i].id) == m[k] && a[i].sfolder == k.folder;
      assert b[i] == a[i];
    }
  }

  lemma UploadsStay(rows: seq<Row>, id: int, folder: int)
    requires RowsOk(rows) && KnownFolder(rows, id)
    ensures forall j | 0 <= j < |rows| && IsUpload(rows[j].typ) :: Relocate(rows, id, folder)[j] == rows[j]
  {
    if id < 0 {
      var i :| 0 <= i < |rows| && rows[i].typ.Mkdir? && TempId(rows[i].id) == id;
      forall j | 0 <= j < |rows| && IsUpload(rows[j].typ) ensures rows[j].id != rows[i].id {
        assert j != i;
      }
    }
  }

  lemma InvRenameFolder(rows: seq<Row>, deps: set<(nat, nat)>, db: map<Key, int>, f: Row, t: Row, more: set<(nat, nat)>)
    requires Inv(rows, deps, db) && f.id == NextId(rows) && t.id == f.id + 1 && t.int1 == f.id
    requires f.typ == RenfolderFrom && t.typ == RenfolderTo && KnownFolder(rows, t.sfolder)
    requires forall e | e in more :: e.0 == t.id && HasRow(rows + [f], e.1)
    ensures Inv(Relocate(rows, t.sfolder, t.folder) + [f, t], deps + more, db)
  {
    hide Plain, Do, Lookup, SameTasks, Relocate, Ordered, Targeted, RowsOk, TempOk, DbOk, EdgesKnown, NextId, Owner, KnownFolder, HasRow, Located;
    var moved := Relocate(rows, t.sfolder, t.folder);
    MovedFolder(rows, t.sfolder, t.folder);
    UploadsStay(rows, t.sfolder, t.folder);
    SameRowsOk(rows, moved);
    SameNext(rows, moved);
    SameRebuild(rows, moved, db);
    RowsFolderPair(moved, f, t);
    SameOrdered(rows, moved, deps);
    DirOrdered(moved, deps, {}, f);
    assert deps + {} == deps;
    DirOrdered(moved + [f], deps, more, t);
    SameTargeted(rows, moved, db);
    TargetedAppend(moved, db, f);
    TargetedAppend(moved + [f], db, t);
    SameTemp(rows, moved, Plain(rows, db));
    DirTemp(moved, Plain(moved, db), f);
    PlainMore(moved, f, db);
    DirTemp(moved + [f], Plain(moved + [f], db), t);
    PlainMore(moved + [f], t, db);
    assert moved + [f] + [t] == moved + [f, t];
    EdgesPair(rows, moved, deps, f, t, more);
    LocatedPair(rows, moved, deps, f, t, more);
  }

  // ---------- dependencies go to smaller ids ----------

  /** Every dependency is on a task with a smaller id, if a rename's first row is read as its task. */
  ghost predicate Downward(rows: seq<Row>, deps: set<(nat, nat)>) {
    forall e | e in deps :: DownTo(rows, e.0, e.1)
  }

  ghost predicate DownTo(rows: seq<Row>, t: nat, on: nat) {
    exists i :: 0 <= i < |rows| && rows[i].id == on && Owner(rows[i]) < t
  }

  lemma OldIsDown(rows: seq<Row>, on: nat)
    requires RowsOk(rows) && HasRow(rows, on)
    ensures DownTo(rows, NextId(rows), on)
  {
    var i :| 0 <= i < |rows| && rows[i].id == on;
    if IsFrom(rows[i].typ) { assert Paired(rows, i); }
  }

  lemma DownKept(rows: seq<Row>, more: seq<Row>, t: nat, t': nat, on: nat)
    requires DownTo(rows, t, on) && t <= t'
    ensures DownTo(rows + more, t', on)
  {
    var i :| 0 <= i < |rows| && rows[i].id == on && Owner(rows[i]) < t;
    assert (rows + more)[i] == rows[i];
  }

  lemma DownAppend(rows: seq<Row>, deps: set<(nat, nat)>, r: Row, more: set<(nat, nat)>)
    requires RowsOk(rows) && Downward(rows, deps) && r.id == NextId(rows)
    requires forall e | e in more :: e.0 == r.id && HasRow(rows, e.1)
    ensures Downward(rows + [r], deps + more)
  {
    hide RowsOk, DownTo, NextId;
    forall e | e in deps + more ensures DownTo(rows + [r], e.0, e.1) {
      if e in deps { DownKept(rows, [r], e.0, e.0, e.1); } else { OldIsDown(rows, e.1); DownKept(rows, [r], r.id, r.id, e.1); }
    }
  }

  lemma DownSame(a: seq<Row>, b: seq<Row>, deps: set<(nat, nat)>)
    requires SameTasks(a, b) && Downward(a, deps)
    ensures Downward(b, deps)
  {
    forall e | e in deps ensures DownTo(b, e.0, e.1) {
      var i :| 0 <= i < |a| && a[i].id == e.1 && Owner(a[i]) < e.0;
      assert SameTask(a[i], b[i]);
    }
  }

  /** A rename's dependencies go down if none is on its own first row. */
  lemma DownPair(rows: seq<Row>, moved: seq<Row>, deps: set<(nat, nat)>, f: Row, t: Row, more: set<(nat, nat)>)
    requires RowsOk(rows) && Downward(rows, deps) && SameTasks(rows, moved) && f.id == NextId(rows) && t.id == f.id + 1
    requires forall e | e in more :: e.0 == t.id && HasRow(rows, e.1)
    ensures Downward(moved + [f, t], deps + more)
  {
    hide RowsOk, DownTo, NextId, SameTasks;
    SameNext(rows, moved);
    SameRowsOk(rows, moved);
    DownSame(rows, moved, deps);
    forall e | e in deps + more ensures DownTo(moved + [f, t], e.0, e.1) {
      if e in deps {
        DownKept(moved, [f, t], e.0, e.0, e.1);
      } else {
        SameHasRow(rows, moved, e.1);
        OldIsDown(moved, e.1);
        DownKept(moved, [f, t], f.id, t.id, e.1);
      }
    }
  }

  lemma DownDrop(rows: seq<Row>, deps: set<(nat, nat)>, i: nat, n: nat, gone: set<nat>)
    requires Downward(rows, deps) && i + n <= |rows| && gone == set j | i <= j < i + n :: rows[j].id
    ensures Downward(Drop(rows, i, n), Released(deps, gone))
  {
    var after := Drop(rows, i, n);
    forall e | e in Released(deps, gone) ensures DownTo(after, e.0, e.1) {
      var j :| 0 <= j < |rows| && rows[j].id == e.1 && Owner(rows[j]) < e.0;
      if j < i { assert after[j] == rows[j]; } else { assert after[j - n] == rows[j]; }
    }
  }

  /** While tasks are pending, one of them waits for nothing: the one with the smallest id. */
  lemma SomeTaskIsReady(rows: seq<Row>, deps: set<(nat, nat)>)
    requires RowsOk(rows) && EdgesKnown(rows, deps) && Downward(rows, deps) && rows != []
    ensures exists i :: 0 <= i < |rows| && !IsFrom(rows[i].typ) && Ready(deps, rows[i].id)
  {
    var m: nat := if IsFrom(rows[0].typ) then 1 else 0;
    if m == 1 { assert Paired(rows, 0); }
    forall e | e in deps ensures e.0 != rows[m].id {
      assert DownTo(rows, e.0, e.1);
      var i :| 0 <= i < |rows| && rows[i].id == e.1 && Owner(rows[i]) < e.0;
      assert Owner(rows[i]) >= rows[m].id;
    }
  }
}
