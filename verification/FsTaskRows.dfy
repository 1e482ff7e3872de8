/** Pending changes to the tree of files and folders, as the rows of the task table and as the entries that
    overlay the database, and what they mean: the database with all pending tasks done in order. */
module FsTaskRows {
  import opened Wrappers
  datatype TaskType =
    Mkdir | Rmdir | Creat | Unlink | RenfileFrom | RenfileTo | RenfolderFrom | RenfolderTo | Modify | UnSetRev

  /** A row of the task table; `file` and `sfolder` are the ids that the task is about. */
  datatype Row = Row(id: nat, typ: TaskType, folder: int, name: string, file: int, sfolder: int, int1: int)

  datatype Space = Files | Dirs
  datatype Key = Key(space: Space, folder: int, name: string)

  /** An entry of the overlay: of a `creats` or `mkdirs` tree if `add`, else of an `unlinks` or `rmdirs`
      tree.  The ids in the latter are never read, so they are left out. */
  datatype Item = Item(add: bool, key: Key, task: nat, id: int)

  function SpaceOf(t: TaskType): Space {
    match t
    case Mkdir | Rmdir | RenfolderFrom | RenfolderTo => Dirs
    case _ => Files
  }

  /** The task makes its name appear. */
  predicate Adds(t: TaskType) { t.Mkdir? || t.Creat? || t.Modify? || t.RenfileTo? || t.RenfolderTo? }

  /** The task hides what the database has under its name. */
  predicate Hides(t: TaskType) { !t.Mkdir? }

  function KeyOf(r: Row): Key { Key(SpaceOf(r.typ), r.folder, r.name) }

  /** The id of what a task creates, until the server assigns one. */
  function TempId(task: nat): int { 0 - (task as int) }

  /** The id under the name after the task. */
  function Result(r: Row): int {
    match r.typ
    case RenfileTo => r.file
    case RenfolderTo => r.sfolder
    case _ => TempId(r.id)
  }

  function AddItem(r: Row): Item { Item(true, KeyOf(r), r.id, Result(r)) }

  function HideItem(r: Row): Item { Item(false, KeyOf(r), r.id, 0) }

  function ItemsOf(r: Row): set<Item> {
    (if Hides(r.typ) then {HideItem(r)} else {}) + (if Adds(r.typ) then {AddItem(r)} else {})
  }

  function WithoutAdds(items: set<Item>, k: Key): set<Item> {
    set i | i in items && !(i.add && i.key == k)
  }

  /** The overlay after one more task. */
  function Step(items: set<Item>, r: Row): set<Item> {
    WithoutAdds(items, KeyOf(r)) + ItemsOf(r)
  }

  /** The overlay of a list of tasks. */
  function Rebuild(rows: seq<Row>): set<Item> {
    if rows == [] then {} else Step(Rebuild(rows[..|rows| - 1]), rows[|rows| - 1])
  }

  // ---------- what is visible ----------

  function Lookup(m: map<Key, int>, k: Key): Option<int> { if k in m then Some(m[k]) else None }

  ghost predicate HasAdd(items: set<Item>, k: Key) { exists i :: i in items && i.add && i.key == k }

  ghost predicate HasHide(items: set<Item>, k: Key) { exists i :: i in items && !i.add && i.key == k }

  /** A look-up through the overlay may answer `v`: with several entries for a name it may find any. */
  ghost predicate Shows(items: set<Item>, db: map<Key, int>, k: Key, v: Option<int>) {
    if HasAdd(items, k) then exists i :: i in items && i.add && i.key == k && v == Some(i.id)
    else if HasHide(items, k) then v == None
    else v == Lookup(db, k)
  }

  /** The namespace without an overlay: one task done on the database. */
  function Do(m: map<Key, int>, r: Row): map<Key, int> {
    if Adds(r.typ) then m[KeyOf(r) := Result(r)] else m - {KeyOf(r)}
  }

  /** All tasks done, in order. */
  function Plain(rows: seq<Row>, db: map<Key, int>): map<Key, int> {
    if rows == [] then db else Do(Plain(rows[..|rows| - 1], db), rows[|rows| - 1])
  }

  lemma RebuildMore(rows: seq<Row>, r: Row)
    ensures Rebuild(rows + [r]) == Step(Rebuild(rows), r)
  {
    assert (rows + [r])[..|rows|] == rows;
  }

  lemma PlainMore(rows: seq<Row>, r: Row, db: map<Key, int>)
    ensures Plain(rows + [r], db) == Do(Plain(rows, db), r)
  {
    assert (rows + [r])[..|rows|] == rows;
  }

  lemma StepShows(items: set<Item>, r: Row, db: map<Key, int>, m: map<Key, int>, k: Key, v: Option<int>)
    requires forall v' :: Shows(items, db, k, v') <==> v' == Lookup(m, k)
    ensures Shows(Step(items, r), db, k, v) <==> v == Lookup(Do(m, r), k)
  {
    var after := Step(items, r);
    if k == KeyOf(r) {
      if Adds(r.typ) {
        assert AddItem(r) in after;
      } else {
        assert HideItem(r) in after;
      }
    } else {
      SameAt(items, after, db, k, v);
    }
  }

  lemma SameAt(a: set<Item>, b: set<Item>, db: map<Key, int>, k: Key, v: Option<int>)
    requires forall i: Item | i.key == k :: i in a <==> i in b
    ensures Shows(a, db, k, v) <==> Shows(b, db, k, v)
  {
  }

  /** The overlay means what it is for: through it the database looks as if all pending tasks were done. */
  lemma {:induction false} OverlayMeans(rows: seq<Row>, db: map<Key, int>, k: Key, v: Option<int>)
    ensures Shows(Rebuild(rows), db, k, v) <==> v == Lookup(Plain(rows, db), k)
    decreases |rows|
  {
    if rows != [] {
      var before, r := rows[..|rows| - 1], rows[|rows| - 1];
      forall v' ensures Shows(Rebuild(before), db, k, v') <==> v' == Lookup(Plain(before, db), k) {
        OverlayMeans(before, db, k, v');
      }
      StepShows(Rebuild(before), r, db, Plain(before, db), k, v);
    }
  }

  lemma {:induction false} RebuildItems(rows: seq<Row>, i: Item)
    requires i in Rebuild(rows)
    ensures exists j :: 0 <= j < |rows| && i in ItemsOf(rows[j])
    decreases |rows|
  {
    var m := |rows| - 1;
    if i in ItemsOf(rows[m]) {
    } else {
      RebuildItems(rows[..m], i);
      var j :| 0 <= j < m && i in ItemsOf(rows[..m][j]);
      assert i in ItemsOf(rows[j]);
    }
  }

  /** Entries that hide stay; entries that add stay until the next task on the name. */
  lemma {:induction false} RebuildHas(rows: seq<Row>, j: nat)
    requires j < |rows|
    ensures Hides(rows[j].typ) ==> HideItem(rows[j]) in Rebuild(rows)
    ensures Adds(rows[j].typ) && (forall m | j < m < |rows| :: KeyOf(rows[m]) != KeyOf(rows[j])) ==> AddItem(rows[j]) in Rebuild(rows)
    decreases |rows|
  {
    var m := |rows| - 1;
    if j < m {
      var before := rows[..m];
      RebuildHas(before, j);
      assert before[j] == rows[j];
    }
  }

  // ---------- removing a task that was carried out ----------

  ghost predicate NoKey(rows: seq<Row>, k: Key) { forall j | 0 <= j < |rows| :: KeyOf(rows[j]) != k }

  lemma {:induction false} NoAddsWithoutRows(rows: seq<Row>, k: Key, i: Item)
    requires NoKey(rows, k) && i in Rebuild(rows)
    ensures i.key != k
  {
    RebuildItems(rows, i);
  }

  function WithoutTask(items: set<Item>, t: nat): set<Item> { set i | i in items && i.task != t }

  lemma WithoutStep(items: set<Item>, s: Row, t: nat)
    requires s.id != t
    ensures Step(WithoutTask(items, t), s) == WithoutTask(Step(items, s), t)
  {
  }

  lemma WithoutLast(items: set<Item>, r: Row)
    requires forall i | i in items :: i.key != KeyOf(r) && i.task != r.id
    ensures WithoutTask(Step(items, r), r.id) == items
  {
  }

  /** If no earlier task has the name of `r`, the overlay without `r` is the overlay minus its entries. */
  lemma {:induction false} RebuildWithout(a: seq<Row>, r: Row, b: seq<Row>)
    requires NoKey(a, KeyOf(r))
    requires forall j | 0 <= j < |a| :: a[j].id != r.id
    requires forall j | 0 <= j < |b| :: b[j].id != r.id
    ensures Rebuild(a + b) == WithoutTask(Rebuild(a + [r] + b), r.id)
    decreases |b|
  {
    hide Step, WithoutTask;
    if b == [] {
      assert a + [r] + b == a + [r] && a + b == a;
      RebuildMore(a, r);
      forall i | i in Rebuild(a) ensures i.key != KeyOf(r) && i.task != r.id {
        NoAddsWithoutRows(a, KeyOf(r), i);
        RebuildItems(a, i);
      }
      WithoutLast(Rebuild(a), r);
    } else {
      var b', s := b[..|b| - 1], b[|b| - 1];
      RebuildWithout(a, r, b');
      assert a + [r] + b == (a + [r] + b') + [s] && a + b == (a + b') + [s];
      RebuildMore(a + [r] + b', s);
      RebuildMore(a + b', s);
      WithoutStep(Rebuild(a + [r] + b'), s, r.id);
    }
  }

  lemma DoOther(m: map<Key, int>, r: Row, s: Row)
    requires KeyOf(r) != KeyOf(s)
    ensures Do(Do(m, r), s) == Do(Do(m, s), r)
  {
  }

  /** A task commutes with the earlier tasks if none of them has its name. */
  lemma {:induction false} DoFirst(a: seq<Row>, r: Row, db: map<Key, int>)
    requires NoKey(a, KeyOf(r))
    ensures Plain(a + [r], db) == Plain(a, Do(db, r))
    decreases |a|
  {
    PlainMore(a, r, db);
    if a == [] {
      assert a + [r] == [r];
    } else {
      var a', s := a[..|a| - 1], a[|a| - 1];
      DoFirst(a', r, db);
      PlainMore(a', r, db);
      DoOther(Plain(a', db), s, r);
    }
  }

  /** Carrying out such a task on the database, and forgetting it, changes nothing. */
  lemma {:induction false} PlainWithout(a: seq<Row>, r: Row, b: seq<Row>, db: map<Key, int>)
    requires NoKey(a, KeyOf(r))
    ensures Plain(a + [r] + b, db) == Plain(a + b, Do(db, r))
    decreases |b|
  {
    if b == [] {
      assert a + [r] + b == a + [r] && a + b == a;
      DoFirst(a, r, db);
    } else {
      var b', s := b[..|b| - 1], b[|b| - 1];
      PlainWithout(a, r, b', db);
      assert a + [r] + b == (a + [r] + b') + [s] && a + b == (a + b') + [s];
      PlainMore(a + [r] + b', s, db);
      PlainMore(a + b', s, Do(db, r));
    }
  }

  /** What is under other names does not matter. */
  lemma {:induction false} PlainAt(rows: seq<Row>, m: map<Key, int>, n: map<Key, int>, k: Key)
    requires Lookup(m, k) == Lookup(n, k)
    ensures Lookup(Plain(rows, m), k) == Lookup(Plain(rows, n), k)
    decreases |rows|
  {
    if rows != [] { PlainAt(rows[..|rows| - 1], m, n, k); }
  }

  lemma {:induction false} PlainNoKey(rows: seq<Row>, m: map<Key, int>, k: Key)
    requires NoKey(rows, k)
    ensures Lookup(Plain(rows, m), k) == Lookup(m, k)
    decreases |rows|
  {
    if rows != [] { PlainNoKey(rows[..|rows| - 1], m, k); }
  }

  // ---------- the server's id instead of the temporary one ----------

  function SubId(x: int, t: nat, id: int): int { if x == TempId(t) then id else x }

  /** The update of the table when the file of task `t` got its id. */
  function SubRow(r: Row, t: nat, id: int): Row { r.(file := SubId(r.file, t, id)) }

  function SubRows(rows: seq<Row>, t: nat, id: int): (r: seq<Row>)
    ensures |r| == |rows|
    ensures forall j | 0 <= j < |rows| :: r[j] == SubRow(rows[j], t, id)
  {
    if rows == [] then [] else SubRows(rows[..|rows| - 1], t, id) + [SubRow(rows[|rows| - 1], t, id)]
  }

  function SubItem(i: Item, t: nat, id: int): Item {
    if i.add && i.key.space == Files then i.(id := SubId(i.id, t, id)) else i
  }

  function SubItems(items: set<Item>, t: nat, id: int): set<Item> {
    set i | i in items :: SubItem(i, t, id)
  }

  lemma SubUnion(a: set<Item>, b: set<Item>, t: nat, id: int)
    ensures SubItems(a + b, t, id) == SubItems(a, t, id) + SubItems(b, t, id)
  {
    hide SubItem;
  }

  lemma SubWithoutAdds(a: set<Item>, k: Key, t: nat, id: int)
    ensures SubItems(WithoutAdds(a, k), t, id) == WithoutAdds(SubItems(a, t, id), k)
  {
    assert forall i :: SubItem(i, t, id).add == i.add && SubItem(i, t, id).key == i.key;
    hide SubItem;
  }

  lemma SubStep(items: set<Item>, r: Row, t: nat, id: int)
    requires r.id != t
    ensures Step(SubItems(items, t, id), SubRow(r, t, id)) == SubItems(Step(items, r), t, id)
  {
    hide SubItems, WithoutAdds, ItemsOf;
    SubItemsOf(r, t, id);
    SubWithoutAdds(items, KeyOf(r), t, id);
    SubUnion(WithoutAdds(items, KeyOf(r)), ItemsOf(r), t, id);
  }

  lemma SubItemsOf(r: Row, t: nat, id: int)
    requires r.id != t
    ensures ItemsOf(SubRow(r, t, id)) == SubItems(ItemsOf(r), t, id)
  {
    assert SubItem(AddItem(r), t, id) == AddItem(SubRow(r, t, id));
    assert SubItem(HideItem(r), t, id) == HideItem(SubRow(r, t, id));
  }

  lemma {:induction false} SubRebuild(rows: seq<Row>, t: nat, id: int)
    requires forall j | 0 <= j < |rows| :: rows[j].id != t
    ensures Rebuild(SubRows(rows, t, id)) == SubItems(Rebuild(rows), t, id)
    decreases |rows|
  {
    if rows != [] {
      var before, r := rows[..|rows| - 1], rows[|rows| - 1];
      SubRebuild(before, t, id);
      SubStep(Rebuild(before), r, t, id);
      RebuildMore(SubRows(before, t, id), SubRow(r, t, id));
    }
  }

  function SubMap(m: map<Key, int>, t: nat, id: int): map<Key, int> {
    map k | k in m :: if k.space == Files then SubId(m[k], t, id) else m[k]
  }

  lemma SubDo(m: map<Key, int>, r: Row, t: nat, id: int)
    requires r.id != t
    ensures Do(SubMap(m, t, id), SubRow(r, t, id)) == SubMap(Do(m, r), t, id)
  {
  }

  lemma {:induction false} SubPlain(rows: seq<Row>, db: map<Key, int>, t: nat, id: int)
    requires forall j | 0 <= j < |rows| :: rows[j].id != t
    ensures Plain(SubRows(rows, t, id), SubMap(db, t, id)) == SubMap(Plain(rows, db), t, id)
    decreases |rows|
  {
    hide Do, SubMap, SubRow;
    if rows != [] {
      var before, r := rows[..|rows| - 1], rows[|rows| - 1];
      SubPlain(before, db, t, id);
      PlainMore(SubRows(before, t, id), SubRow(r, t, id), SubMap(db, t, id));
      SubDo(Plain(before, db), r, t, id);
    }
  }

  // ---------- pairs of entries ----------

  /** Every pending file has an entry that hides the database under its name, with the same task. */
  lemma {:induction false} FilesArePaired(rows: seq<Row>, i: Item)
    requires i in Rebuild(rows) && i.add && i.key.space == Files
    ensures Item(false, i.key, i.task, 0) in Rebuild(rows)
  {
    RebuildItems(rows, i);
    var j :| 0 <= j < |rows| && i in ItemsOf(rows[j]);
    RebuildHas(rows, j);
  }

  /** A name has at most one entry that adds. */
  lemma {:induction false} AddsUnique(rows: seq<Row>, i: Item, j: Item)
    requires i in Rebuild(rows) && j in Rebuild(rows) && i.add && j.add && i.key == j.key
    ensures i == j
    decreases |rows|
  {
    var m := |rows| - 1;
    if i.key != KeyOf(rows[m]) { AddsUnique(rows[..m], i, j); }
  }
}
