/** What the task table has to be for a restart: the functions that put in the entries of new names do not look
    for an entry to replace, so there must not be one. */
module FsTaskRestart {
  import opened Wrappers
  import opened FsTaskRows
  import opened FsTaskState
  import opened FsTaskDone

  /** The tasks whose entry is put in without looking for one to replace. */
  predicate MakesNew(t: TaskType) { t.Mkdir? || t.Creat? || t.RenfolderTo? }

  /** New names are new. */
  ghost predicate Legal(rows: seq<Row>, space: Space) {
    forall j | 0 <= j < |rows| && MakesNew(rows[j].typ) && SpaceOf(rows[j].typ) == space :: NewAt(rows, j)
  }

  ghost predicate NewAt(rows: seq<Row>, j: nat)
    requires j < |rows|
  {
    !HasAdd(Rebuild(rows[..j]), KeyOf(rows[j]))
  }

  lemma LegalAppend(rows: seq<Row>, r: Row, space: Space)
    requires Legal(rows, space) && (MakesNew(r.typ) && SpaceOf(r.typ) == space ==> !HasAdd(Rebuild(rows), KeyOf(r)))
    ensures Legal(rows + [r], space)
  {
    hide HasAdd, KeyOf, Rebuild;
    var after := rows + [r];
    forall j | 0 <= j < |after| && MakesNew(after[j].typ) && SpaceOf(after[j].typ) == space ensures NewAt(after, j) {
      if j < |rows| { assert NewAt(rows, j) && after[..j] == rows[..j]; } else { assert after[..j] == rows; }
    }
  }

  lemma LegalSame(a: seq<Row>, b: seq<Row>, space: Space)
    requires SameTasks(a, b) && Legal(a, space)
    ensures Legal(b, space)
  {
    hide HasAdd, Rebuild;
    forall j | 0 <= j < |b| && MakesNew(b[j].typ) && SpaceOf(b[j].typ) == space ensures NewAt(b, j) {
      assert SameTask(a[j], b[j]) && NewAt(a, j);
      SameRebuild(a[..j], b[..j], map[]);
    }
  }

  lemma LegalDrop(rows: seq<Row>, i: nat, space: Space)
    requires RowsOk(rows) && i < |rows| && NoKey(rows[..i], KeyOf(rows[i])) && Legal(rows, space)
    ensures Legal(Drop(rows, i, 1), space)
  {
    var after := Drop(rows, i, 1);
    forall j | 0 <= j < |after| && MakesNew(after[j].typ) && SpaceOf(after[j].typ) == space ensures NewAt(after, j) {
      if j < i {
        assert NewAt(rows, j) && after[..j] == rows[..j];
      } else {
        assert after[j] == rows[j + 1] && NewAt(rows, j + 1);
        DropBefore(rows, i, j, KeyOf(after[j]));
      }
    }
  }

  lemma DropSlices(rows: seq<Row>, i: nat, j: nat)
    requires i <= j < |rows| - 1
    ensures |Drop(rows, i, 1)| == |rows| - 1 && rows[..j + 1] == rows[..i] + [rows[i]] + rows[i + 1..j + 1]
    ensures Drop(rows, i, 1)[..j] == rows[..i] + rows[i + 1..j + 1]
  {
  }

  lemma DropBefore(rows: seq<Row>, i: nat, j: nat, k: Key)
    requires RowsOk(rows) && i <= j < |rows| - 1 && NoKey(rows[..i], KeyOf(rows[i]))
    requires !HasAdd(Rebuild(rows[..j + 1]), k)
    ensures !HasAdd(Rebuild(Drop(rows, i, 1)[..j]), k)
  {
    var a, b := rows[..i], rows[i + 1..j + 1];
    forall m | 0 <= m < |b| ensures b[m].id != rows[i].id { assert b[m] == rows[i + 1 + m]; }
    forall m | 0 <= m < |a| ensures a[m].id != rows[i].id { assert a[m] == rows[m]; }
    hide Rebuild, NoKey, RowsOk, KeyOf, Drop;
    DropSlices(rows, i, j);
    RebuildWithout(a, rows[i], b);
  }

  lemma LegalSub(rows: seq<Row>, t: nat, id: int, space: Space)
    requires Legal(rows, space) && forall j | 0 <= j < |rows| :: rows[j].id != t
    ensures Legal(SubRows(rows, t, id), space)
  {
    var after := SubRows(rows, t, id);
    hide Rebuild, HasAdd;
    forall j | 0 <= j < |after| && MakesNew(after[j].typ) && SpaceOf(after[j].typ) == space ensures NewAt(after, j) {
      assert after[j] == SubRow(rows[j], t, id) && NewAt(rows, j);
      SubPrefix(rows, t, id, j);
      SubRebuild(rows[..j], t, id);
      SubAdds(Rebuild(rows[..j]), t, id, KeyOf(rows[j]));
    }
  }

  lemma SubAdds(items: set<Item>, t: nat, id: int, k: Key)
    requires !HasAdd(items, k)
    ensures !HasAdd(SubItems(items, t, id), k)
  {
  }

  /** New names stay new when a file's task was carried out. */
  lemma LegalDone(rows: seq<Row>, deps: set<(nat, nat)>, db: map<Key, int>, i: nat, id: int)
    requires Inv(rows, deps, db) && i < |rows| && KeyOf(rows[i]).space == Files && !IsFrom(rows[i].typ) && Ready(deps, rows[i].id)
    ensures forall space | Legal(rows, space) :: Legal(Drop(rows, i, 1), space) && Legal(SubRows(Drop(rows, i, 1), rows[i].id, id), space)
  {
    assert Owner(rows[i]) == rows[i].id;
    hide Legal, Ordered, Targeted, DbOk, TempOk, EdgesKnown, Located, Drop, NoKey, RowsOk, Plain, KeyOf, SubRows;
    ReadyIsFirst(rows, deps, i);
    OthersHaveOtherIds(rows, i);
    DropLen(rows, i);
    forall space | Legal(rows, space)
      ensures Legal(Drop(rows, i, 1), space) && Legal(SubRows(Drop(rows, i, 1), rows[i].id, id), space)
    {
      LegalDrop(rows, i, space);
      LegalSub(Drop(rows, i, 1), rows[i].id, id, space);
    }
  }

  /** And when both rows of a file's rename went. */
  lemma LegalRenamed(rows: seq<Row>, deps: set<(nat, nat)>, db: map<Key, int>, i: nat)
    requires Inv(rows, deps, db) && i + 1 < |rows| && rows[i].typ.RenfileFrom? && Ready(deps, rows[i + 1].id)
    ensures forall space | Legal(rows, space) :: Legal(Drop(rows, i, 2), space)
  {
    RenameIsFirst(rows, deps, db, i);
    hide Legal, Ordered, Targeted, DbOk, TempOk, EdgesKnown, Located, Drop, NoKey, RowsOk, Plain, KeyOf, Lookup;
    TwoDrops(rows, i);
    forall space | Legal(rows, space) ensures Legal(Drop(rows, i, 2), space) {
      LegalDrop(rows, i, space);
      LegalDropMid(rows, i, space);
    }
  }

  lemma LegalDropMid(rows: seq<Row>, i: nat, space: Space)
    requires RowsOk(rows) && i + 1 < |rows| && NoKey(rows[..i], KeyOf(rows[i + 1])) && Legal(Drop(rows, i, 1), space)
    ensures Legal(Drop(rows, i, 2), space)
  {
    var mid, after := Drop(rows, i, 1), Drop(rows, i, 2);
    forall j | 0 <= j < |after| && MakesNew(after[j].typ) && SpaceOf(after[j].typ) == space ensures NewAt(after, j) {
      if j < i {
        assert NewAt(mid, j) && after[..j] == mid[..j];
      } else {
        assert after[j] == mid[j + 1] && NewAt(mid, j + 1);
        DropBeforeMid(rows, i, j, KeyOf(after[j]));
      }
    }
  }

  lemma MidSlices(rows: seq<Row>, i: nat, j: nat)
    requires i <= j < |rows| - 2
    ensures |Drop(rows, i, 1)| == |rows| - 1 && |Drop(rows, i, 2)| == |rows| - 2
    ensures Drop(rows, i, 1)[..j + 1] == rows[..i] + [rows[i + 1]] + rows[i + 2..j + 2]
    ensures Drop(rows, i, 2)[..j] == rows[..i] + rows[i + 2..j + 2]
  {
  }

  lemma DropBeforeMid(rows: seq<Row>, i: nat, j: nat, k: Key)
    requires RowsOk(rows) && i <= j < |rows| - 2 && NoKey(rows[..i], KeyOf(rows[i + 1]))
    requires !HasAdd(Rebuild(Drop(rows, i, 1)[..j + 1]), k)
    ensures !HasAdd(Rebuild(Drop(rows, i, 2)[..j]), k)
  {
    var a, r, b := rows[..i], rows[i + 1], rows[i + 2..j + 2];
    forall m | 0 <= m < |b| ensures b[m].id != r.id { assert b[m] == rows[i + 2 + m]; }
    forall m | 0 <= m < |a| ensures a[m].id != r.id { assert a[m] == rows[m]; }
    hide Rebuild, NoKey, RowsOk, KeyOf, Drop;
    MidSlices(rows, i, j);
    RebuildWithout(a, r, b);
  }

  // ---------- the operations ----------

  /** One more row, if its name is new in the live trees where it has to be. */
  lemma LegalRecord(rows: seq<Row>, items: set<Item>, r: Row)
    requires FilesSync(items, rows) && Legal(rows, Files) && (MakesNew(r.typ) ==> !HasAdd(items, KeyOf(r)))
    ensures Legal(rows + [r], Files)
    ensures Agree(items, rows) && Legal(rows, Dirs) ==> Legal(rows + [r], Dirs)
  {
    hide Legal, Rebuild;
    LegalAppend(rows, r, Files);
    if Agree(items, rows) && Legal(rows, Dirs) { LegalAppend(rows, r, Dirs); }
  }

  /** The two rows of a rename; only a folder's second row has to find its name free. */
  lemma LegalPair(rows: seq<Row>, moved: seq<Row>, f: Row, t: Row, space: Space)
    requires SameTasks(rows, moved) && Legal(rows, space) && IsFrom(f.typ) && (t.typ.RenfileTo? || t.typ.RenfolderTo?)
    requires SpaceOf(t.typ) == space && t.typ.RenfolderTo? ==> !HasAdd(Rebuild(rows), KeyOf(t))
    ensures Legal(moved + [f, t], space)
  {
    hide Legal, Rebuild, SameTasks;
    LegalSame(rows, moved, space);
    SameRebuild(rows, moved, map[]);
    LegalAppend(moved, f, space);
    RebuildMore(moved, f);
    LegalAppend(moved + [f], t, space);
    assert moved + [f] + [t] == moved + [f, t];
  }

  /** After its removal a folder's name is free. */
  lemma RemovedIsFree(rows: seq<Row>, items: set<Item>, rm: Option<Row>, k: Key)
    requires Agree(items, rows) && (rm.None? ==> !HasAdd(items, k)) && (rm.Some? ==> rm.value.typ.Rmdir? && KeyOf(rm.value) == k)
    ensures !HasAdd(Rebuild(if rm.Some? then rows + [rm.value] else rows), k)
  {
    if rm.Some? { RebuildMore(rows, rm.value); }
    hide Rebuild;
  }
}
