/** The overlay as the source keeps it: for every folder with pending tasks or open references, four trees
    of entries, their number, and the number of references. */
module FolderTable {
  import opened Wrappers
  import opened FsTaskRows

  datatype Folder = Folder(mkdirs: set<Item>, rmdirs: set<Item>, creats: set<Item>, unlinks: set<Item>, taskscnt: nat, refcnt: nat)

  function Tree(fo: Folder, add: bool, space: Space): set<Item> {
    match space
    case Dirs => if add then fo.mkdirs else fo.rmdirs
    case Files => if add then fo.creats else fo.unlinks
  }

  function SetTree(fo: Folder, add: bool, space: Space, tree: set<Item>): Folder {
    match space
    case Dirs => if add then fo.(mkdirs := tree) else fo.(rmdirs := tree)
    case Files => if add then fo.(creats := tree) else fo.(unlinks := tree)
  }

  function All(fo: Folder): set<Item> { fo.mkdirs + fo.rmdirs + fo.creats + fo.unlinks }

  function Size(fo: Folder): nat { |fo.mkdirs| + |fo.rmdirs| + |fo.creats| + |fo.unlinks| }

  /** Every entry is in its tree, and `taskscnt` counts the entries of the four trees. */
  ghost predicate FolderOk(f: int, fo: Folder) {
    && (forall add, space, i | i in Tree(fo, add, space) :: i.add == add && i.key.space == space && i.key.folder == f)
    && fo.taskscnt == Size(fo)
    && (fo.taskscnt > 0 || fo.refcnt > 0)
  }

  lemma TreeLaws(fo: Folder, add: bool, space: Space, t: set<Item>)
    ensures var fo' := SetTree(fo, add, space, t);
            && (forall a, s :: Tree(fo', a, s) == if a == add && s == space then t else Tree(fo, a, s))
            && fo'.refcnt == fo.refcnt && Size(fo') == Size(fo) - |Tree(fo, add, space)| + |t|
  {
  }

  lemma AllTrees(fo: Folder, i: Item)
    ensures i in All(fo) <==> exists add, space :: i in Tree(fo, add, space)
  {
    assert Tree(fo, true, Dirs) == fo.mkdirs && Tree(fo, false, Dirs) == fo.rmdirs;
    assert Tree(fo, true, Files) == fo.creats && Tree(fo, false, Files) == fo.unlinks;
  }

  lemma InTree(f: int, fo: Folder, i: Item)
    requires FolderOk(f, fo)
    ensures i in All(fo) <==> i in Tree(fo, i.add, i.key.space)
    ensures i in All(fo) ==> i.key.folder == f
  {
    hide Tree, All, Size;
    AllTrees(fo, i);
  }

  lemma Inserted(f: int, fo: Folder, i: Item)
    requires FolderOk(f, fo) && i.key.folder == f && i !in All(fo)
    ensures var fo' := SetTree(fo, i.add, i.key.space, Tree(fo, i.add, i.key.space) + {i}).(taskscnt := fo.taskscnt + 1);
            FolderOk(f, fo') && fo'.refcnt == fo.refcnt && forall j :: j in All(fo') <==> j == i || j in All(fo)
  {
    hide SetTree, Size, All;
    var t := Tree(fo, i.add, i.key.space) + {i};
    var fo1 := SetTree(fo, i.add, i.key.space, t);
    var fo2 := fo1.(taskscnt := fo.taskscnt + 1);
    TreeLaws(fo, i.add, i.key.space, t);
    SameTrees(fo1, fo2);
    InTree(f, fo, i);
    hide Tree;
    forall j ensures j in All(fo2) <==> j == i || j in All(fo) {
      InTree(f, fo2, j);
      InTree(f, fo, j);
    }
  }

  lemma SameTrees(a: Folder, b: Folder)
    requires b == a.(taskscnt := b.taskscnt)
    ensures Size(a) == Size(b) && forall add, space :: Tree(a, add, space) == Tree(b, add, space)
  {
  }

  lemma Counted(f: int, fo: Folder, n: nat)
    requires FolderOk(f, fo) && (n > 0 || fo.taskscnt > 0)
    ensures FolderOk(f, fo.(refcnt := n)) && All(fo.(refcnt := n)) == All(fo)
  {
    assert forall add, space :: Tree(fo.(refcnt := n), add, space) == Tree(fo, add, space);
  }

  lemma Fresh(f: int)
    ensures FolderOk(f, Folder({}, {}, {}, {}, 0, 1)) && All(Folder({}, {}, {}, {}, 0, 1)) == {}
  {
  }

  lemma NoTasks(f: int, fo: Folder)
    requires FolderOk(f, fo) && fo.taskscnt == 0
    ensures All(fo) == {}
  {
  }

  lemma Deleted(f: int, fo: Folder, i: Item)
    requires FolderOk(f, fo) && i in All(fo)
    ensures fo.taskscnt > 0
    ensures var fo' := SetTree(fo, i.add, i.key.space, Tree(fo, i.add, i.key.space) - {i}).(taskscnt := fo.taskscnt - 1);
            && (fo.refcnt > 0 ==> FolderOk(f, fo')) && fo'.refcnt == fo.refcnt
            && forall j :: j in All(fo') <==> j != i && j in All(fo)
  {
    hide SetTree, All;
    InTree(f, fo, i);
    var t := Tree(fo, i.add, i.key.space) - {i};
    assert Size(fo) >= |Tree(fo, i.add, i.key.space)| >= 1;
    hide Size;
    var fo1 := SetTree(fo, i.add, i.key.space, t);
    var fo2 := fo1.(taskscnt := fo.taskscnt - 1);
    TreeLaws(fo, i.add, i.key.space, t);
    SameTrees(fo1, fo2);
    hide Tree;
    forall j ensures j in All(fo2) <==> j != i && j in All(fo) {
      AllTrees(fo2, j);
      AllTrees(fo, j);
    }
  }

  class Table {
    var folders: map<int, Folder>

    ghost predicate Valid()
      reads this
    {
      forall f | f in folders :: FolderOk(f, folders[f])
    }

    ghost function Items(): set<Item>
      reads this
    {
      set f, i | f in folders && i in All(folders[f]) :: i
    }

    ghost function Refs(f: int): nat
      reads this
    {
      if f in folders then folders[f].refcnt else 0
    }

    constructor ()
      ensures Valid() && Items() == {} && folders == map[]
    {
      folders := map[];
    }

    lemma ItemAt(i: Item)
      requires Valid()
      ensures i in Items() <==> i.key.folder in folders && i in All(folders[i.key.folder])
    {
      hide All, FolderOk;
      forall f | f in folders ensures i in All(folders[f]) ==> i.key.folder == f { InTree(f, folders[f], i); }
    }

    lemma ItemsAt()
      requires Valid()
      ensures forall i :: i in Items() <==> i.key.folder in folders && i in All(folders[i.key.folder])
    {
      hide All, FolderOk, Items;
      forall i ensures i in Items() <==> i.key.folder in folders && i in All(folders[i.key.folder]) { ItemAt(i); }
    }

    method GetOrCreate(f: int)
      requires Valid()
      modifies this
      ensures Valid() && Items() == old(Items()) && f in folders
      ensures forall g :: Refs(g) == old(Refs(g)) + if g == f then 1 else 0
    {
      hide Items;
      ItemsAt();
      hide All, FolderOk;
      if f in folders {
        Counted(f, folders[f], folders[f].refcnt + 1);
        folders := folders[f := folders[f].(refcnt := folders[f].refcnt + 1)];
      } else {
        Fresh(f);
        folders := folders[f := Folder({}, {}, {}, {}, 0, 1)];
      }
      ItemsAt();
    }

    method Get(f: int) returns (found: bool)
      requires Valid()
      modifies this
      ensures Valid() && Items() == old(Items()) && (found <==> f in old(folders)) && (found ==> f in folders)
      ensures forall g :: Refs(g) == old(Refs(g)) + if found && g == f then 1 else 0
      ensures !found ==> forall i | i in Items() :: i.key.folder != f
    {
      hide Items;
      ItemsAt();
      found := f in folders;
      hide All, FolderOk;
      if found {
        Counted(f, folders[f], folders[f].refcnt + 1);
        folders := folders[f := folders[f].(refcnt := folders[f].refcnt + 1)];
      }
      ItemsAt();
    }

    /** The last reference to a folder without tasks removes it. */
    method Release(f: int)
      requires Valid() && Refs(f) > 0
      modifies this
      ensures Valid() && Items() == old(Items())
      ensures forall g :: Refs(g) == old(Refs(g)) - if g == f then 1 else 0
    {
      hide Items;
      ItemsAt();
      hide All, FolderOk;
      var fo := folders[f].(refcnt := folders[f].refcnt - 1);
      if fo.refcnt == 0 && fo.taskscnt == 0 {
        NoTasks(f, folders[f]);
        folders := folders - {f};
      } else {
        Counted(f, folders[f], fo.refcnt);
        folders := folders[f := fo];
      }
      ItemsAt();
    }

    method Insert(i: Item)
      requires Valid() && i.key.folder in folders && i !in Items()
      modifies this
      ensures Valid() && Items() == old(Items()) + {i}
      ensures forall g :: Refs(g) == old(Refs(g))
    {
      hide Items, All, FolderOk, Tree, SetTree;
      ItemsAt();
      var f := i.key.folder;
      var fo := folders[f];
      Inserted(f, fo, i);
      folders := folders[f := SetTree(fo, i.add, i.key.space, Tree(fo, i.add, i.key.space) + {i}).(taskscnt := fo.taskscnt + 1)];
      ItemsAt();
    }

    method Delete(i: Item)
      requires Valid() && i in Items() && Refs(i.key.folder) > 0
      modifies this
      ensures Valid() && Items() == old(Items()) - {i}
      ensures forall g :: Refs(g) == old(Refs(g))
    {
      hide Items, All, FolderOk, Tree, SetTree;
      ItemsAt();
      var f := i.key.folder;
      var fo := folders[f];
      Deleted(f, fo, i);
      folders := folders[f := SetTree(fo, i.add, i.key.space, Tree(fo, i.add, i.key.space) - {i}).(taskscnt := fo.taskscnt - 1)];
      ItemsAt();
    }

    /** The id in an entry is replaced. */
    method SetId(i: Item, id: int)
      requires Valid() && i in Items() && Refs(i.key.folder) > 0 && (i.(id := id) in Items() ==> i.id == id)
      modifies this
      ensures Valid() && Items() == old(Items()) - {i} + {i.(id := id)}
      ensures forall g :: Refs(g) == old(Refs(g))
    {
      hide Items;
      Delete(i);
      Insert(i.(id := id));
    }

    /** Any entry with the name: the search stops at the first one it meets. */
    method FindName(add: bool, k: Key) returns (r: Option<Item>)
      requires Valid()
      ensures r.None? <==> forall i | i in Items() :: !(i.add == add && i.key == k)
      ensures r.Some? ==> r.value in Items() && r.value.add == add && r.value.key == k
    {
      r := FindWhere(add, k.space, k.folder, (i: Item) => i.key.name == k.name);
      KeyParts(k);
    }

    /** The entry of a task under a name. */
    method FindTask(add: bool, k: Key, task: nat) returns (r: Option<Item>)
      requires Valid()
      ensures r.None? <==> forall i | i in Items() :: !(i.add == add && i.key == k && i.task == task)
      ensures r.Some? ==> r.value in Items() && r.value.add == add && r.value.key == k && r.value.task == task
    {
      r := FindWhere(add, k.space, k.folder, (i: Item) => i.key.name == k.name && i.task == task);
      KeyParts(k);
    }

    /** The walk over a tree for an id. */
    method FindId(space: Space, f: int, id: int) returns (r: Option<Item>)
      requires Valid()
      ensures r.None? <==> forall i | i in Items() :: !(i.add && i.key.space == space && i.key.folder == f && i.id == id)
      ensures r.Some? ==> r.value in Items() && r.value.add && r.value.key.space == space && r.value.key.folder == f && r.value.id == id
    {
      r := FindWhere(true, space, f, (i: Item) => i.id == id);
    }

    /** Whether something was made in the folder. */
    method AnyAdds(f: int) returns (any: bool)
      requires Valid()
      ensures any <==> exists i :: i in Items() && i.add && i.key.folder == f
    {
      hide Items, All, Tree, FolderOk;
      ItemsAt();
      any := false;
      if f in folders {
        var fo := folders[f];
        AddTrees(fo);
        any := fo.creats != {} || fo.mkdirs != {};
        forall i | i in Items() && i.add && i.key.folder == f ensures i in fo.creats || i in fo.mkdirs {
          InTree(f, fo, i);
          assert i.key.space == Files || i.key.space == Dirs;
        }
        forall i | i in fo.creats || i in fo.mkdirs ensures i in Items() && i.add && i.key.folder == f {
          TreeMembers(f, fo, true, Files);
          TreeMembers(f, fo, true, Dirs);
          InTree(f, fo, i);
        }
      }
    }

    static lemma AddTrees(fo: Folder)
      ensures fo.creats == Tree(fo, true, Files) && fo.mkdirs == Tree(fo, true, Dirs)
    {
    }

    static lemma KeyParts(k: Key)
      ensures forall j: Key :: j == k <==> j.space == k.space && j.folder == k.folder && j.name == k.name
    {
    }

    method FindWhere(add: bool, space: Space, f: int, p: Item -> bool) returns (r: Option<Item>)
      requires Valid()
      ensures r.None? <==> forall i | i in Items() :: !(i.add == add && i.key.space == space && i.key.folder == f && p(i))
      ensures r.Some? ==> r.value in Items() && r.value.add == add && r.value.key.space == space && r.value.key.folder == f && p(r.value)
    {
      hide Items, All, Tree, FolderOk;
      ItemsAt();
      r := None;
      if f in folders {
        forall i { InTree(f, folders[f], i); }
        var found := set i | i in Tree(folders[f], add, space) && p(i);
        TreeMembers(f, folders[f], add, space);
        if found != {} {
          var i :| i in found;
          r := Some(i);
        } else {
          assert forall i | i in Tree(folders[f], add, space) :: i in found <==> p(i);
        }
      }
    }

    static lemma TreeMembers(f: int, fo: Folder, add: bool, space: Space)
      requires FolderOk(f, fo)
      ensures forall i | i in Tree(fo, add, space) :: i.add == add && i.key.space == space && i.key.folder == f
    {
      hide Tree;
    }
  }
}
