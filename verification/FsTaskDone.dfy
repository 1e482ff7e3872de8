/** Tasks that were carried out leave the visible files as they were, up to the id of an uploaded file. */
module FsTaskDone {
  import opened Wrappers
  import opened FsTaskRows
  import opened FsTaskState

  // ---------- the database ----------

  /** The row of a file is deleted, wherever it is. */
  function DeleteFile(db: map<Key, int>, id: int): map<Key, int> {
    map k | k in db && !(k.space == Files && db[k] == id) :: db[k]
  }

  /** The row of a file gets a new folder and name. */
  function MoveFile(db: map<Key, int>, id: int, k: Key): map<Key, int> { DeleteFile(db, id)[k := id] }

  /** The id a server may give to an uploaded file: a new one, or the one that the name has. */
  predicate ServerId(db: map<Key, int>, k: Key, id: int) {
    && id > 0 && (k in db ==> db[k] == id)
    && forall j | j in db && j.space == Files && db[j] == id :: j == k
  }

  lemma DeleteIsDo(db: map<Key, int>, r: Row)
    requires DbOk(db) && Lookup(db, KeyOf(r)) == Some(Target(r)) && Removes(r.typ)
    ensures DeleteFile(db, Target(r)) == Do(db, r) && DbOk(Do(db, r))
  {
    var k := KeyOf(r);
    forall j | j in db && j.space == Files ensures db[j] == Target(r) <==> j == k {}
  }

  lemma MoveIsDo(db: map<Key, int>, f: Row, t: Row)
    requires DbOk(db) && f.typ == RenfileFrom && t.typ == RenfileTo && t.file == f.file
    requires Lookup(db, KeyOf(f)) == Some(f.file) && t.folder >= 0
    ensures MoveFile(db, f.file, KeyOf(t)) == Do(Do(db, f), t) && DbOk(Do(Do(db, f), t))
  {
    DeleteIsDo(db, f);
  }

  lemma FirstIsInDb(rows: seq<Row>, deps: set<(nat, nat)>, db: map<Key, int>, i: nat)
    requires Inv(rows, deps, db) && i < |rows| && Removes(rows[i].typ) && Ready(deps, Owner(rows[i]))
    ensures NoKey(rows[..i], KeyOf(rows[i])) && Lookup(db, KeyOf(rows[i])) == Some(Target(rows[i]))
  {
    hide Plain, RowsOk, TempOk, EdgesKnown, DbOk, Located;
    ReadyIsFirst(rows, deps, i);
    PlainNoKey(rows[..i], db, KeyOf(rows[i]));
  }

  lemma RebuildDrop(rows: seq<Row>, i: nat)
    requires RowsOk(rows) && i < |rows| && NoKey(rows[..i], KeyOf(rows[i]))
    ensures Rebuild(Drop(rows, i, 1)) == WithoutTask(Rebuild(rows), rows[i].id)
  {
    var a, b := rows[..i], rows[i + 1..];
    forall j | 0 <= j < |b| ensures b[j].id != rows[i].id { assert b[j] == rows[i + 1 + j]; }
    RebuildWithout(a, rows[i], b);
    SplitAt(rows, i);
  }

  lemma PlainDrop(rows: seq<Row>, db: map<Key, int>, i: nat)
    requires i < |rows| && NoKey(rows[..i], KeyOf(rows[i]))
    ensures Plain(Drop(rows, i, 1), Do(db, rows[i])) == Plain(rows, db)
  {
    PlainWithout(rows[..i], rows[i], rows[i + 1..], db);
    SplitAt(rows, i);
  }

  /** The table without a task that is done. */
  ghost predicate TableOk(rows: seq<Row>, deps: set<(nat, nat)>) {
    RowsOk(rows) && Ordered(rows, deps) && EdgesKnown(rows, deps) && Located(rows, deps)
  }

  lemma TableWithout(rows: seq<Row>, deps: set<(nat, nat)>, i: nat)
    requires TableOk(rows, deps) && i < |rows| && !IsFrom(rows[i].typ) && !rows[i].typ.RenfileTo? && !rows[i].typ.RenfolderTo? && !rows[i].typ.Mkdir?
    ensures TableOk(Drop(rows, i, 1), Released(deps, {rows[i].id}))
  {
    hide RowsOk, Ordered, EdgesKnown, Drop, Released, Located;
    DropRows(rows, i, 1);
    var gone := set j | i <= j < i + 1 :: rows[j].id;
    assert gone == {rows[i].id};
    DropOrdered(rows, deps, i, 1, gone);
    DropEdges(rows, deps, i, 1, gone);
    DropLocated(rows, deps, i, 1, gone);
  }

  lemma LocatedWithoutRename(rows: seq<Row>, deps: set<(nat, nat)>, i: nat)
    requires RowsOk(rows) && Located(rows, deps) && i + 1 < |rows| && rows[i].typ.RenfileFrom?
    ensures Located(Drop(rows, i, 2), Released(deps, {rows[i].id, rows[i + 1].id}))
  {
    assert Paired(rows, i);
    hide RowsOk, Drop, Released, Located;
    var gone := set j | i <= j < i + 2 :: rows[j].id;
    assert gone == {rows[i].id, rows[i + 1].id};
    DropLocated(rows, deps, i, 2, gone);
  }

  lemma TableWithoutRename(rows: seq<Row>, deps: set<(nat, nat)>, i: nat)
    requires TableOk(rows, deps) && i + 1 < |rows| && rows[i].typ.RenfileFrom?
    ensures TableOk(Drop(rows, i, 2), Released(deps, {rows[i].id, rows[i + 1].id}))
  {
    hide RowsOk, Ordered, EdgesKnown, Drop, Released, Located;
    DropRows(rows, i, 2);
    var gone := set j | i <= j < i + 2 :: rows[j].id;
    assert gone == {rows[i].id, rows[i + 1].id};
    DropOrdered(rows, deps, i, 2, gone);
    DropEdges(rows, deps, i, 2, gone);
    LocatedWithoutRename(rows, deps, i);
  }

  // ---------- a file was deleted ----------

  lemma FileDeleted(rows: seq<Row>, deps: set<(nat, nat)>, db: map<Key, int>, i: nat)
    requires Inv(rows, deps, db) && i < |rows| && (rows[i].typ.Unlink? || rows[i].typ.UnSetRev?) && Ready(deps, rows[i].id)
    ensures var rows', db' := Drop(rows, i, 1), DeleteFile(db, Target(rows[i]));
            && Inv(rows', Released(deps, {rows[i].id}), db') && Plain(rows', db') == Plain(rows, db)
            && Rebuild(rows') == WithoutTask(Rebuild(rows), rows[i].id)
  {
    hide RowsOk, Ordered, Targeted, DbOk, TempOk, EdgesKnown, Plain, Lookup, Do, DeleteFile, Drop, Released, NoKey, Located;
    FirstIsInDb(rows, deps, db, i);
    DeleteIsDo(db, rows[i]);
    PlainDrop(rows, db, i);
    RebuildDrop(rows, i);
    TableWithout(rows, deps, i);
    DropTargeted(rows, db, i);
    DropTemp(rows, Plain(rows, db), i, 1);
  }

  // ---------- a file was renamed ----------

  lemma TwoDrops(rows: seq<Row>, i: nat)
    requires i + 2 <= |rows|
    ensures Drop(Drop(rows, i, 1), i, 1) == Drop(rows, i, 2) && Drop(rows, i, 1)[..i] == rows[..i] && Drop(rows, i, 1)[i] == rows[i + 1]
  {
  }

  lemma SecondIsFirst(rows: seq<Row>, i: nat, k: Key)
    requires i + 2 <= |rows| && NoKey(rows[..i + 1], k)
    ensures NoKey(rows[..i], k)
  {
    forall j | 0 <= j < i ensures KeyOf(rows[..i][j]) != k { assert rows[..i][j] == rows[..i + 1][j]; }
  }

  lemma RenameIsFirst(rows: seq<Row>, deps: set<(nat, nat)>, db: map<Key, int>, i: nat)
    requires Inv(rows, deps, db) && i + 1 < |rows| && rows[i].typ.RenfileFrom? && Ready(deps, rows[i + 1].id)
    ensures var f, t := rows[i], rows[i + 1];
            && t.typ.RenfileTo? && t.file == f.file
            && NoKey(rows[..i], KeyOf(f)) && NoKey(rows[..i], KeyOf(t)) && Lookup(db, KeyOf(f)) == Some(f.file)
  {
    assert Paired(rows, i);
    hide RowsOk, Targeted, DbOk, TempOk, EdgesKnown, Plain, Lookup, NoKey, Ordered, Located;
    FirstIsInDb(rows, deps, db, i);
    ReadyIsFirst(rows, deps, i + 1);
    SecondIsFirst(rows, i, KeyOf(rows[i + 1]));
  }

  /** The two rows one after the other. */
  lemma RenameDropped(rows: seq<Row>, db: map<Key, int>, i: nat)
    requires RowsOk(rows) && Targeted(rows, db) && i + 1 < |rows| && rows[i].typ.RenfileFrom? && rows[i + 1].typ.RenfileTo?
    requires NoKey(rows[..i], KeyOf(rows[i])) && NoKey(rows[..i], KeyOf(rows[i + 1]))
    ensures var f, t := rows[i], rows[i + 1]; var rows' := Drop(rows, i, 2);
            && Targeted(rows', Do(Do(db, f), t)) && Plain(rows', Do(Do(db, f), t)) == Plain(rows, db)
            && Rebuild(rows') == WithoutTask(WithoutTask(Rebuild(rows), f.id), t.id)
  {
    hide RowsOk, Targeted, Plain, Do, Drop, NoKey, WithoutTask;
    var mid, f := Drop(rows, i, 1), rows[i];
    DropLen(rows, i);
    TwoDrops(rows, i);
    PlainDrop(rows, db, i);
    PlainDrop(mid, Do(db, f), i);
    RebuildDrop(rows, i);
    RebuildDropMid(rows, i);
    DropTargeted(rows, db, i);
    DropTargeted(mid, Do(db, f), i);
  }

  lemma FileRenamed(rows: seq<Row>, deps: set<(nat, nat)>, db: map<Key, int>, i: nat)
    requires Inv(rows, deps, db) && i + 1 < |rows| && rows[i].typ.RenfileFrom? && Ready(deps, rows[i + 1].id)
    ensures rows[i + 1].typ.RenfileTo?
    ensures var f, t := rows[i], rows[i + 1];
            var rows', db' := Drop(rows, i, 2), MoveFile(db, t.file, KeyOf(t));
            && Inv(rows', Released(deps, {f.id, t.id}), db') && Plain(rows', db') == Plain(rows, db)
            && Rebuild(rows') == WithoutTask(WithoutTask(Rebuild(rows), f.id), t.id)
  {
    hide RowsOk, Ordered, Targeted, DbOk, TempOk, EdgesKnown, Plain, Lookup, Do, MoveFile, Drop, Released, NoKey, WithoutTask, Located;
    RenameIsFirst(rows, deps, db, i);
    ReadyIsLocated(rows, deps, i + 1);
    MoveIsDo(db, rows[i], rows[i + 1]);
    RenameDropped(rows, db, i);
    TableWithoutRename(rows, deps, i);
    DropTemp(rows, Plain(rows, db), i, 2);
  }

  /** The second row of a rename, when the first one is gone. */
  lemma RebuildDropMid(rows: seq<Row>, i: nat)
    requires RowsOk(rows) && i + 1 < |rows| && NoKey(rows[..i], KeyOf(rows[i + 1]))
    ensures Rebuild(Drop(rows, i, 2)) == WithoutTask(Rebuild(Drop(rows, i, 1)), rows[i + 1].id)
  {
    var a, b := rows[..i], rows[i + 2..];
    forall j | 0 <= j < |b| ensures b[j].id != rows[i + 1].id { assert b[j] == rows[i + 2 + j]; }
    RebuildWithout(a, rows[i + 1], b);
    assert Drop(rows, i, 1) == a + [rows[i + 1]] + b;
  }

  // ---------- a file was uploaded ----------

  lemma SubRowsOk(rows: seq<Row>, t: nat, id: int)
    requires RowsOk(rows)
    ensures RowsOk(SubRows(rows, t, id))
  {
    var b := SubRows(rows, t, id);
    forall i | 0 <= i < |b| && IsFrom(b[i].typ) ensures Paired(b, i) { assert Paired(rows, i); }
    forall i | 0 <= i < |b| && b[i].typ.RenfileTo? ensures i > 0 && b[i - 1].typ.RenfileFrom? && Paired(b, i - 1) {
      assert Paired(rows, i - 1);
    }
  }

  lemma SubOrdered(rows: seq<Row>, deps: set<(nat, nat)>, t: nat, id: int)
    requires Ordered(rows, deps)
    ensures Ordered(SubRows(rows, t, id), deps)
  {
  }

  lemma SubEdges(rows: seq<Row>, deps: set<(nat, nat)>, t: nat, id: int)
    requires EdgesKnown(rows, deps)
    ensures EdgesKnown(SubRows(rows, t, id), deps)
  {
    var b := SubRows(rows, t, id);
    forall x: nat | HasRow(rows, x) ensures HasRow(b, x) {
      var i :| 0 <= i < |rows| && rows[i].id == x;
      assert b[i].id == x;
    }
  }

  lemma SubLocated(rows: seq<Row>, deps: set<(nat, nat)>, t: nat, id: int)
    requires Located(rows, deps)
    ensures Located(SubRows(rows, t, id), deps)
  {
    var b := SubRows(rows, t, id);
    forall i | 0 <= i < |b| && MakesFile(b[i].typ) ensures Waits(b, deps, b[i]) {
      assert Waits(rows, deps, rows[i]);
      if b[i].folder < 0 {
        var m :| 0 <= m < |rows| && rows[m].typ.Mkdir? && TempId(rows[m].id) == rows[i].folder;
        assert b[m].id == rows[m].id;
      }
    }
  }

  lemma {:induction false} SubPrefix(rows: seq<Row>, t: nat, id: int, j: nat)
    requires j <= |rows|
    ensures SubRows(rows, t, id)[..j] == SubRows(rows[..j], t, id)
  {
  }

  lemma SubTargeted(rows: seq<Row>, db: map<Key, int>, t: nat, id: int)
    requires RowsOk(rows) && Targeted(rows, db) && forall j | 0 <= j < |rows| :: rows[j].id != t
    ensures Targeted(SubRows(rows, t, id), SubMap(db, t, id))
  {
    hide Plain, SubMap;
    var b := SubRows(rows, t, id);
    forall j | 0 <= j < |b| && Removes(b[j].typ)
      ensures Lookup(Plain(b[..j], SubMap(db, t, id)), KeyOf(b[j])) == Some(Target(b[j]))
    {
      SubPrefix(rows, t, id, j);
      SubPlain(rows[..j], db, t, id);
      SubLookup(Plain(rows[..j], db), KeyOf(rows[j]), t, id);
    }
  }

  lemma SubLookup(m: map<Key, int>, k: Key, t: nat, id: int)
    ensures Lookup(SubMap(m, t, id), k) == match Lookup(m, k) case None => None case Some(x) => Some(if k.space == Files then SubId(x, t, id) else x)
  {
  }

  lemma SubTemp(rows: seq<Row>, m: map<Key, int>, t: nat, id: int, i: nat)
    requires RowsOk(rows) && TempOk(rows, m) && id > 0 && i < |rows| && rows[i].id == t
    ensures TempOk(SubRows(Drop(rows, i, 1), t, id), SubMap(m, t, id))
  {
    hide RowsOk;
    var after, n := SubRows(Drop(rows, i, 1), t, id), SubMap(m, t, id);
    forall k | k in n && k.space == Files && n[k] < 0 ensures TempAt(after, n[k], k.folder) {
      var j :| 0 <= j < |rows| && IsUpload(rows[j].typ) && TempId(rows[j].id) == m[k] && rows[j].sfolder == k.folder;
      if j < i { assert after[j].id == rows[j].id; } else { assert after[j - 1].id == rows[j].id; }
    }
  }

  lemma UploadedDb(db: map<Key, int>, r: Row, id: int)
    requires DbOk(db) && IsUpload(r.typ) && ServerId(db, KeyOf(r), id) && r.folder >= 0
    ensures db[KeyOf(r) := id] == SubMap(Do(db, r), r.id, id) && DbOk(db[KeyOf(r) := id])
  {
  }

  lemma OthersHaveOtherIds(rows: seq<Row>, i: nat)
    requires RowsOk(rows) && i < |rows|
    ensures forall j | 0 <= j < |rows| - 1 :: Drop(rows, i, 1)[j].id != rows[i].id
  {
    forall j | 0 <= j < |rows| - 1 ensures Drop(rows, i, 1)[j].id != rows[i].id {
      assert Drop(rows, i, 1)[j] == rows[if j < i then j else j + 1];
    }
  }

  lemma UploadedTable(rows: seq<Row>, deps: set<(nat, nat)>, i: nat, id: int)
    requires TableOk(rows, deps) && i < |rows| && IsUpload(rows[i].typ)
    ensures TableOk(SubRows(Drop(rows, i, 1), rows[i].id, id), Released(deps, {rows[i].id}))
  {
    hide RowsOk, Ordered, EdgesKnown, Drop, Released, SubRows, Located;
    var t, rest := rows[i].id, Drop(rows, i, 1);
    TableWithout(rows, deps, i);
    SubRowsOk(rest, t, id);
    SubOrdered(rest, Released(deps, {t}), t, id);
    SubEdges(rest, Released(deps, {t}), t, id);
    SubLocated(rest, Released(deps, {t}), t, id);
  }

  lemma UploadDropped(rows: seq<Row>, db: map<Key, int>, i: nat, id: int)
    requires i < |rows| && RowsOk(rows) && RowsOk(Drop(rows, i, 1)) && Targeted(rows, db) && NoKey(rows[..i], KeyOf(rows[i]))
    ensures var t := rows[i].id;
            var rows', db' := SubRows(Drop(rows, i, 1), t, id), SubMap(Do(db, rows[i]), t, id);
            && Targeted(rows', db') && Plain(rows', db') == SubMap(Plain(rows, db), t, id)
            && Rebuild(rows') == SubItems(WithoutTask(Rebuild(rows), t), t, id)
  {
    hide RowsOk, Targeted, Plain, Do, Drop, NoKey, SubRows, SubMap, SubItems, WithoutTask;
    var t, rest := rows[i].id, Drop(rows, i, 1);
    OthersHaveOtherIds(rows, i);
    DropLen(rows, i);
    PlainDrop(rows, db, i);
    SubPlain(rest, Do(db, rows[i]), t, id);
    RebuildDrop(rows, i);
    SubRebuild(rest, t, id);
    DropTargeted(rows, db, i);
    SubTargeted(rest, Do(db, rows[i]), t, id);
  }

  lemma DropLen(rows: seq<Row>, i: nat)
    requires i < |rows|
    ensures |Drop(rows, i, 1)| == |rows| - 1
  {
  }

  lemma FileUploaded(rows: seq<Row>, deps: set<(nat, nat)>, db: map<Key, int>, i: nat, id: int)
    requires Inv(rows, deps, db) && i < |rows| && IsUpload(rows[i].typ) && Ready(deps, rows[i].id)
    requires ServerId(db, KeyOf(rows[i]), id)
    ensures var t := rows[i].id;
            var rows', db' := SubRows(Drop(rows, i, 1), t, id), db[KeyOf(rows[i]) := id];
            && Inv(rows', Released(deps, {t}), db') && Plain(rows', db') == SubMap(Plain(rows, db), t, id)
            && Rebuild(rows') == SubItems(WithoutTask(Rebuild(rows), t), t, id)
  {
    assert id > 0 && KeyOf(rows[i]).space == Files && Owner(rows[i]) == rows[i].id;
    hide RowsOk, Ordered, Targeted, DbOk, TempOk, EdgesKnown, Plain, Lookup, Do, Drop, Released, NoKey, SubRows, SubMap, SubItems, WithoutTask,
      ServerId, KeyOf, Owner, Located;
    ReadyIsFirst(rows, deps, i);
    ReadyIsLocated(rows, deps, i);
    UploadedDb(db, rows[i], id);
    DropRows(rows, i, 1);
    UploadDropped(rows, db, i, id);
    UploadedTable(rows, deps, i, id);
    SubTemp(rows, Plain(rows, db), rows[i].id, id, i);
  }
}
