// The entry table of the sqlite indexer and the trigger that fills its path column
// (common/sqlite_indexer.c).

module EntryTable {
  import opened LittleEndian
  import opened Splitting

  /** A row; the position of a row in the table stands for its rowid. */
  datatype Row = Row(ino: int, parentIno: int, kind: int, name: string, path: Option<string>)

  /** An entry as it is inserted, before the trigger. */
  datatype Entry = Entry(ino: int, parentIno: int, kind: int, name: string)

  /** SQL concatenation with a slash and a name: null when the path is null. */
  function Joined(path: Option<string>, name: string): Option<string> {
    if path.None? then None else Some(Slash(path.value, name))
  }

  function Slash(path: string, name: string): (s: string)
    ensures |s| == |path| + 1 + |name|
  {
    path + "/" + name
  }

  lemma SlashIsInjective(p: string, q: string, name: string)
    ensures Slash(p, name) == Slash(q, name) <==> p == q
  {
    if Slash(p, name) == Slash(q, name) {
      assert p == Slash(p, name)[..|p|] && q == Slash(q, name)[..|q|];
    }
  }

  /** The scalar subquery: the path of the first row with that inode, joined with the
      name; null when there is no such row or its path is null. */
  function Subquery(rows: seq<Row>, ino: int, name: string): Option<string> {
    if rows == [] then None
    else if rows[0].ino == ino then
      Joined(rows[0].path, name)
    else Subquery(rows[1..], ino, name)
  }

  /** Insert, then the trigger: its update sees the new row too, still with a null path. */
  function Insert(rows: seq<Row>, e: Entry): seq<Row> {
    var inserted := rows + [Row(e.ino, e.parentIno, e.kind, e.name, None)];
    var path := if e.name == "." then Some(".") else Subquery(inserted, e.parentIno, e.name);
    inserted[|rows| := Row(e.ino, e.parentIno, e.kind, e.name, path)]
  }

  /** How the database takes an insertion: it may fail before storing the row, or report
      an error when the statement is reset, with the row stored. */
  datatype Outcome = Done | StepFails | ResetFails

  class Table {
    /** Whether the database is open; an error closes it. */
    var open: bool
    var rows: seq<Row>

    constructor (open: bool)
      ensures this.open == open && rows == []
    {
      this.open, rows := open, [];
    }

    /** Returns 0, or -1 for a refused or failed insertion. */
    method AddDirEntry(e: Entry, outcome: Outcome) returns (rc: int)
      modifies this
      ensures rc == if old(open) && e.name != ".." && outcome.Done? then 0 else -1
      ensures rows == if old(open) && e.name != ".." && !outcome.StepFails? then Insert(old(rows), e) else old(rows)
      ensures open == (old(open) && (e.name == ".." || outcome.Done?))
    {
      if !open {
        return -1;
      }
      if e.name == ".." {
        return -1;
      }
      if outcome.StepFails? {
        open := false;
        return -1;
      }
      InsertRow(e);
      if outcome.ResetFails? {
        open := false;
        return -1;
      }
      rc := 0;
    }

    method InsertRow(e: Entry)
      modifies this`rows
      ensures rows == Insert(old(rows), e)
    {
      rows := rows + [Row(e.ino, e.parentIno, e.kind, e.name, None)];
      var path := Some(".");
      if e.name != "." {
        // The select scans the table in rowid order for the parent.
        var a := 0;
        while a < |rows| && rows[a].ino != e.parentIno
          invariant a <= |rows| && rows == old(rows) + [Row(e.ino, e.parentIno, e.kind, e.name, None)]
          invariant Subquery(rows, e.parentIno, e.name) == Subquery(rows[a..], e.parentIno, e.name)
        {
          assert rows[a..][1..] == rows[a + 1..];
          a := a + 1;
        }
        path := if a == |rows| then None else Joined(rows[a].path, e.name);
      }
      rows := rows[|rows| - 1 := Row(e.ino, e.parentIno, e.kind, e.name, path)];
    }
  }

  // ---------------------------------------------------------------------
  // The table after a run of insertions.
  // ---------------------------------------------------------------------

  function TableOf(entries: seq<Entry>): (rows: seq<Row>)
    ensures |rows| == |entries|
    ensures forall i :: 0 <= i < |rows| ==> rows[i].ino == entries[i].ino
  {
    if entries == [] then [] else Insert(TableOf(entries[..|entries| - 1]), entries[|entries| - 1])
  }

  /** The first of the first n entries with that inode, or n. */
  function FirstWith(entries: seq<Entry>, ino: int, n: nat): (k: nat)
    requires n <= |entries|
    ensures k <= n && (k < n ==> entries[k].ino == ino)
    ensures forall j :: 0 <= j < k ==> entries[j].ino != ino
  {
    if n == 0 then 0
    else
      var k := FirstWith(entries, ino, n - 1);
      if k < n - 1 || entries[n - 1].ino == ino then k else n
  }

  lemma {:induction false} SubqueryIsFirst(rows: seq<Row>, ino: int, name: string, k: nat)
    requires k <= |rows| && (forall j :: 0 <= j < k ==> rows[j].ino != ino)
    requires k < |rows| ==> rows[k].ino == ino
    ensures Subquery(rows, ino, name) == if k < |rows| then Joined(rows[k].path, name) else None
    decreases k
  {
    if k > 0 {
      SubqueryIsFirst(rows[1..], ino, name, k - 1);
    }
  }

  lemma {:induction false} TablePrefix(entries: seq<Entry>, n: nat)
    requires n <= |entries|
    ensures TableOf(entries)[..n] == TableOf(entries[..n])
    decreases |entries|
  {
    if n < |entries| {
      var m := |entries| - 1;
      TablePrefix(entries[..m], n);
      assert entries[..m][..n] == entries[..n];
      assert TableOf(entries)[..n] == TableOf(entries[..m])[..n];
    } else {
      assert entries[..n] == entries;
    }
  }

  /** What the trigger stores in a table whose inodes are those of some entries. */
  lemma InsertedPath(before: seq<Row>, entries: seq<Entry>, e: Entry)
    requires |before| == |entries| && forall j :: 0 <= j < |entries| ==> before[j].ino == entries[j].ino
    ensures var k := FirstWith(entries, e.parentIno, |entries|);
            Insert(before, e)[|before|].path
            == if e.name == "." then Some(".") else if k < |entries| then Joined(before[k].path, e.name) else None
  {
    var inserted := before + [Row(e.ino, e.parentIno, e.kind, e.name, None)];
    var k := FirstWith(entries, e.parentIno, |entries|);
    var first := if k == |entries| && e.ino != e.parentIno then k + 1 else k;
    SubqueryIsFirst(inserted, e.parentIno, e.name, first);
  }

  lemma {:induction false} FirstWithPrefix(entries: seq<Entry>, ino: int, n: nat)
    requires n <= |entries|
    ensures FirstWith(entries[..n], ino, n) == FirstWith(entries, ino, n)
  {
    var j, k := FirstWith(entries[..n], ino, n), FirstWith(entries, ino, n);
    assert j < n ==> entries[..n][j] == entries[j];
    assert k < n ==> entries[..n][k] == entries[k];
  }

  /** The path column, without the trigger: `.` rows have `.`; any other row has the path
      of the first earlier row with its parent's inode, and its name. */
  lemma PathColumn(entries: seq<Entry>, i: nat)
    requires i < |entries|
    ensures var e, rows := entries[i], TableOf(entries); var k := FirstWith(entries, e.parentIno, i);
            rows[i].path == if e.name == "." then Some(".") else if k < i then Joined(rows[k].path, e.name) else None
  {
    hide Insert, FirstWith;
    var e, rows := entries[i], TableOf(entries);
    var upTo := entries[..i + 1];
    assert upTo[..i] == entries[..i] && upTo[i] == e;
    TablePrefix(entries, i);
    TablePrefix(entries, i + 1);
    var before := TableOf(entries[..i]);
    assert TableOf(upTo) == Insert(before, e);
    assert rows[i] == rows[..i + 1][i] == Insert(before, e)[i];
    InsertedPath(before, entries[..i], e);
    FirstWithPrefix(entries, e.parentIno, i);
    assert forall j :: 0 <= j < i ==> before[j] == rows[..i][j] == rows[j];
  }

  // ---------------------------------------------------------------------
  // The tree the entries describe.
  // ---------------------------------------------------------------------

  /** Rows from a child of the root down, each naming an entry of the directory that
      the row before it names. */
  ghost predicate IsChain(entries: seq<Entry>, root: int, c: seq<nat>) {
    && c != []
    && (forall t :: 0 <= t < |c| ==> c[t] < |entries| && entries[c[t]].name != ".")
    && entries[c[0]].parentIno == root
    && (forall t :: 0 < t < |c| ==> entries[c[t]].parentIno == entries[c[t - 1]].ino)
  }

  /** The path from the root along a chain. */
  function TreePath(entries: seq<Entry>, c: seq<nat>): (path: string)
    requires forall t :: 0 <= t < |c| ==> c[t] < |entries|
    ensures |path| > 0 && (c != [] ==> |path| > 1)
  {
    if c == [] then "." else Slash(TreePath(entries, c[..|c| - 1]), entries[c[|c| - 1]].name)
  }

  /** Some row that is not a `.` row has the inode as its parent. */
  ghost predicate IsParent(entries: seq<Entry>, ino: int) {
    exists k :: 0 <= k < |entries| && entries[k].name != "." && entries[k].parentIno == ino
  }

  /** A parent is named by one row; the root by none. */
  ghost predicate OneNameEach(entries: seq<Entry>, root: int) {
    forall i, j ::
      && 0 <= i < |entries| && 0 <= j < |entries| && entries[i].name != "." && entries[j].name != "."
      && entries[i].ino == entries[j].ino && IsParent(entries, entries[i].ino)
      ==> i == j && entries[i].ino != root
  }

  /** When row i is inserted, the first row with its parent's inode is there already, and
      is the row that names the parent (for the root, any row). */
  predicate ParentFirst(entries: seq<Entry>, root: int, i: nat)
    requires i < |entries|
  {
    var p := entries[i].parentIno;
    var k := FirstWith(entries, p, i);
    k < i && (entries[k].name == "." <==> p == root)
  }

  /** Every chain from the root is stored under its path. */
  ghost predicate PathsAreRight(entries: seq<Entry>, root: int) {
    forall c :: IsChain(entries, root, c) ==>
      TableOf(entries)[c[|c| - 1]].path == Some(TreePath(entries, c))
  }

  ghost predicate ParentsComeFirst(entries: seq<Entry>, root: int) {
    forall c :: IsChain(entries, root, c) ==> ParentFirst(entries, root, c[|c| - 1])
  }

  lemma ChainFront(entries: seq<Entry>, root: int, c: seq<nat>)
    requires IsChain(entries, root, c) && |c| > 1
    ensures IsChain(entries, root, c[..|c| - 1])
    ensures TreePath(entries, c) == Slash(TreePath(entries, c[..|c| - 1]), entries[c[|c| - 1]].name)
  {
  }

  /** One row: if the row before it on the chain has the right path, it has too just when
      its parent came first. */
  lemma {:induction false} RowPathIsRight(entries: seq<Entry>, root: int, c: seq<nat>)
    requires IsChain(entries, root, c) && OneNameEach(entries, root)
    requires |c| > 1 ==> TableOf(entries)[c[|c| - 2]].path == Some(TreePath(entries, c[..|c| - 1]))
    ensures TableOf(entries)[c[|c| - 1]].path == Some(TreePath(entries, c)) <==>
            ParentFirst(entries, root, c[|c| - 1])
  {
    hide TableOf, FirstWith, Slash;
    var i, rows, front := c[|c| - 1], TableOf(entries), c[..|c| - 1];
    var e := entries[i];
    var k := FirstWith(entries, e.parentIno, i);
    PathColumn(entries, i);
    if k < i {
      PathColumn(entries, k);
      FirstParentRow(entries, root, c, k);
      if rows[k].path.Some? {
        SlashIsInjective(rows[k].path.value, TreePath(entries, front), e.name);
      }
    }
  }

  /** A row with the inode of a chain's last parent is the parent's name row or a `.` row;
      the root's are `.` rows. */
  lemma FirstParentRow(entries: seq<Entry>, root: int, c: seq<nat>, k: nat)
    requires IsChain(entries, root, c) && OneNameEach(entries, root)
    requires k < |entries| && entries[k].ino == entries[c[|c| - 1]].parentIno
    ensures if |c| == 1 then entries[k].name == "." && entries[k].ino == root && TreePath(entries, c[..0]) == "."
            else entries[k].ino != root && (entries[k].name == "." || k == c[|c| - 2])
                 && TreePath(entries, c[..|c| - 1]) != "."
  {
    var i := c[|c| - 1];
    assert IsParent(entries, entries[i].parentIno);
    if |c| > 1 {
      var j := c[|c| - 2];
      assert entries[j].ino == entries[i].parentIno && entries[j].name != ".";
    }
  }

  lemma {:induction false} ChainPathIsRight(entries: seq<Entry>, root: int, c: seq<nat>)
    requires IsChain(entries, root, c) && OneNameEach(entries, root) && ParentsComeFirst(entries, root)
    ensures TableOf(entries)[c[|c| - 1]].path == Some(TreePath(entries, c))
    decreases |c|
  {
    if |c| > 1 {
      ChainFront(entries, root, c);
      ChainPathIsRight(entries, root, c[..|c| - 1]);
    }
    RowPathIsRight(entries, root, c);
  }

  /** For entries of a tree in any order: the stored paths are the paths from the root if
      and only if every row's parent came first. */
  lemma {:induction false} PathsAreRightExactly(entries: seq<Entry>, root: int)
    requires OneNameEach(entries, root)
    ensures PathsAreRight(entries, root) <==> ParentsComeFirst(entries, root)
  {
    hide TableOf, FirstWith, TreePath, ParentFirst;
    if PathsAreRight(entries, root) {
      forall c | IsChain(entries, root, c)
        ensures ParentFirst(entries, root, c[|c| - 1])
      {
        if |c| > 1 {
          ChainFront(entries, root, c);
          assert c[..|c| - 1][|c| - 2] == c[|c| - 2];
        }
        RowPathIsRight(entries, root, c);
      }
    }
    if ParentsComeFirst(entries, root) {
      forall c | IsChain(entries, root, c)
        ensures TableOf(entries)[c[|c| - 1]].path == Some(TreePath(entries, c))
      {
        ChainPathIsRight(entries, root, c);
      }
    }
  }

  // ---------------------------------------------------------------------
  // The order of a directory walk.
  // ---------------------------------------------------------------------

  /** Some row before i names the inode. */
  ghost predicate NamedBefore(entries: seq<Entry>, ino: int, i: nat)
    requires i <= |entries|
  {
    exists j :: 0 <= j < i && entries[j].ino == ino && entries[j].name != "."
  }

  /** Each directory's named row is inserted before its own `.` row and before the rows
      that have it as parent; the root's `.` row before those that have the root. */
  ghost predicate InOrder(entries: seq<Entry>, root: int) {
    forall i :: 0 <= i < |entries| ==>
      if entries[i].name == "." then entries[i].ino == root || NamedBefore(entries, entries[i].ino, i)
      else if entries[i].parentIno == root then exists j :: 0 <= j < i && entries[j].ino == root
      else NamedBefore(entries, entries[i].parentIno, i)
  }

  /** In such an order every stored path is right, whatever was inserted and however much. */
  lemma {:induction false} OrderedInsertionsAreRight(entries: seq<Entry>, root: int)
    requires InOrder(entries, root) && OneNameEach(entries, root)
    ensures PathsAreRight(entries, root)
  {
    forall c | IsChain(entries, root, c)
      ensures ParentFirst(entries, root, c[|c| - 1])
    {
      OrderGivesParentFirst(entries, root, c[|c| - 1]);
    }
    PathsAreRightExactly(entries, root);
  }

  lemma OrderGivesParentFirst(entries: seq<Entry>, root: int, i: nat)
    requires InOrder(entries, root) && OneNameEach(entries, root)
    requires i < |entries| && entries[i].name != "."
    ensures ParentFirst(entries, root, i)
  {
    var p := entries[i].parentIno;
    var k := FirstWith(entries, p, i);
    assert IsParent(entries, p);
    if p == root {
      var j :| 0 <= j < i && entries[j].ino == root;
      assert entries[k].ino == root;
    } else {
      var j :| 0 <= j < i && entries[j].ino == p && entries[j].name != ".";
      assert entries[k].name == "." ==> NamedBefore(entries, p, k);
    }
  }

  /** And every row that is not a `.` row has a path: it hangs from the root. */
  lemma {:induction false} ChainTo(entries: seq<Entry>, root: int, i: nat) returns (c: seq<nat>)
    requires InOrder(entries, root) && i < |entries| && entries[i].name != "."
    ensures IsChain(entries, root, c) && c[|c| - 1] == i
    decreases i
  {
    if entries[i].parentIno == root {
      c := [i];
    } else {
      assert NamedBefore(entries, entries[i].parentIno, i);
      var j :| 0 <= j < i && entries[j].ino == entries[i].parentIno && entries[j].name != ".";
      var d := ChainTo(entries, root, j);
      c := d + [i];
    }
  }

  // ---------------------------------------------------------------------
  // Reading the table.
  // ---------------------------------------------------------------------

  /** The names along a chain. */
  function NamesAlong(entries: seq<Entry>, c: seq<nat>): (names: seq<string>)
    requires forall t :: 0 <= t < |c| ==> c[t] < |entries|
    ensures |names| == |c|
  {
    seq(|c|, t requires 0 <= t < |c| => entries[c[t]].name)
  }

  ghost predicate NoSlashes(entries: seq<Entry>) {
    forall i :: 0 <= i < |entries| ==> '/' !in entries[i].name
  }

  /** Split at its slashes, a path is a dot and the names from the root down. */
  lemma {:induction false} SplitTreePath(entries: seq<Entry>, c: seq<nat>)
    requires NoSlashes(entries) && forall t :: 0 <= t < |c| ==> c[t] < |entries|
    ensures Split(TreePath(entries, c), '/') == ["."] + NamesAlong(entries, c)
    decreases |c|
  {
    hide Split;
    if c == [] {
      SplitWhole(".", '/');
    } else {
      var n := |c| - 1;
      SplitTreePath(entries, c[..n]);
      SplitAppended(TreePath(entries, c[..n]), entries[c[n]].name, '/');
      assert NamesAlong(entries, c) == NamesAlong(entries, c[..n]) + [entries[c[n]].name];
    }
  }

  ghost predicate IsSplit(path: Option<string>, names: seq<string>) {
    path.Some? && Split(path.value, '/') == ["."] + names
  }

  /** Every chain is stored under a path that splits into the names along it. */
  ghost predicate PathsSplit(entries: seq<Entry>, root: int) {
    forall c :: IsChain(entries, root, c) ==>
      IsSplit(TableOf(entries)[c[|c| - 1]].path, NamesAlong(entries, c))
  }

  /** What the stored paths look like to a reader: for entries of a tree in any order, they
      split into the names from the root down if and only if every row's parent came first. */
  lemma {:induction false} PathsSplitExactly(entries: seq<Entry>, root: int)
    requires OneNameEach(entries, root) && NoSlashes(entries)
    ensures PathsSplit(entries, root) <==> ParentsComeFirst(entries, root)
  {
    hide TableOf, ParentFirst, TreePath, Split, NamesAlong;
    PathsAreRightExactly(entries, root);
    forall c | IsChain(entries, root, c)
      ensures IsSplit(TableOf(entries)[c[|c| - 1]].path, NamesAlong(entries, c)) <==>
              TableOf(entries)[c[|c| - 1]].path == Some(TreePath(entries, c))
    {
      SplitTreePath(entries, c);
      if TableOf(entries)[c[|c| - 1]].path.Some? {
        SplitIsInjective(TableOf(entries)[c[|c| - 1]].path.value, TreePath(entries, c), '/');
      }
    }
  }

  /** In the order of a directory walk they do; and a stored path has one reading only. */
  lemma {:induction false} OrderedPathsSplit(entries: seq<Entry>, root: int)
    requires InOrder(entries, root) && OneNameEach(entries, root) && NoSlashes(entries)
    ensures PathsSplit(entries, root)
    ensures forall c, d :: IsChain(entries, root, c) && IsChain(entries, root, d) ==>
              (TableOf(entries)[c[|c| - 1]].path == TableOf(entries)[d[|d| - 1]].path <==>
               NamesAlong(entries, c) == NamesAlong(entries, d))
  {
    hide TableOf, ParentFirst, TreePath, Split, NamesAlong;
    OrderedInsertionsAreRight(entries, root);
    PathsAreRightExactly(entries, root);
    PathsSplitExactly(entries, root);
    forall c, d | IsChain(entries, root, c) && IsChain(entries, root, d)
      ensures TableOf(entries)[c[|c| - 1]].path == TableOf(entries)[d[|d| - 1]].path <==>
              NamesAlong(entries, c) == NamesAlong(entries, d)
    {
      var p, q := TableOf(entries)[c[|c| - 1]].path, TableOf(entries)[d[|d| - 1]].path;
      assert IsSplit(p, NamesAlong(entries, c)) && IsSplit(q, NamesAlong(entries, d));
      SplitIsInjective(p.value, q.value, '/');
      assert (["."] + NamesAlong(entries, c))[1..] == NamesAlong(entries, c);
      assert (["."] + NamesAlong(entries, d))[1..] == NamesAlong(entries, d);
    }
  }

  /** The other columns of a row are those of the entry inserted. */
  lemma {:induction false} RowsKeepEntries(entries: seq<Entry>, i: nat)
    requires i < |entries|
    ensures var row, e := TableOf(entries)[i], entries[i];
            row.ino == e.ino && row.parentIno == e.parentIno && row.kind == e.kind && row.name == e.name
    decreases |entries|
  {
    var n := |entries| - 1;
    if i < n {
      RowsKeepEntries(entries[..n], i);
      assert TableOf(entries)[i] == TableOf(entries[..n])[i];
    }
  }

  // ---------------------------------------------------------------------
  // Orders in which paths go wrong.
  // ---------------------------------------------------------------------

  const DOT_ROW_FIRST := [Entry(2, 2, 4, "."), Entry(5, 2, 4, "."), Entry(5, 2, 4, "d"), Entry(6, 5, 8, "f")]

  /** A directory whose `.` row comes before its name row: what is in it is stored under a
      path that leaves the directory out. */
  lemma {:induction false} DotRowFirstCutsThePath()
    ensures OneNameEach(DOT_ROW_FIRST, 2) && IsChain(DOT_ROW_FIRST, 2, [2, 3]) && !ParentFirst(DOT_ROW_FIRST, 2, 3)
    ensures TreePath(DOT_ROW_FIRST, [2, 3]) == Slash(Slash(".", "d"), "f")
    ensures TableOf(DOT_ROW_FIRST)[3].path == Some(Slash(".", "f"))
  {
    hide TableOf, FirstWith, Slash;
    PathColumn(DOT_ROW_FIRST, 1);
    PathColumn(DOT_ROW_FIRST, 3);
    assert DOT_ROW_FIRST[1].ino == 5 != DOT_ROW_FIRST[0].ino;
    assert FirstWith(DOT_ROW_FIRST, 5, 3) == 1;
    assert [2, 3][..1] == [2] && [2][..0] == [];
    assert TreePath(DOT_ROW_FIRST, [2]) == Slash(".", "d");
  }

  /** What the test program of the indexers gets by passing what stat finds, the entry's
      own inode or the one a link or a mount point leads to, as the parent: no row that is
      not a `.` row has a path, except below a `.` row that comes before every other row
      with that inode, or below a link or mount point that does and has a path itself. */
  lemma {:induction false} StatInodeAsParent(entries: seq<Entry>, i: nat)
    requires i < |entries| && entries[i].name != "."
    ensures var rows, k := TableOf(entries), FirstWith(entries, entries[i].parentIno, i);
            rows[i].path
            == if k == i then None
               else if entries[k].name == "." then Some(Slash(".", entries[i].name))
               else if entries[k].parentIno == entries[k].ino then None
               else Joined(rows[k].path, entries[i].name)
  {
    hide TableOf, FirstWith;
    var k := FirstWith(entries, entries[i].parentIno, i);
    PathColumn(entries, i);
    if k < i {
      PathColumn(entries, k);
    }
  }
}
