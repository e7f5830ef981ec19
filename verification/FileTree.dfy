/** The explorer: a directory tree flattened into indented rows, and the two
  * views derived in memory from a cached list of rows.
  */
module FileTree {
  import opened Basics
  import opened OrderedSort
  import opened TextTrim

  /** A directory entry; `Other` is neither a directory nor a regular file, or has
    * a name that is not Unicode.
    */
  datatype Node = Dir(name: string, children: seq<Node>) | File(name: string) | Other(name: string)

  datatype TreeRow = TreeRow(depth: nat, isDir: bool, rel: string, name: string)

  predicate IsNoiseDir(name: string) {
    || name in {"target", ".git", "node_modules", "__pycache__", ".smart-coder", ".pytest_cache", "screenshots"}
    || name in {"dist", "build", "Library", "Temp", "obj", "Logs", "UserSettings", "Builds"}
    || (name != [] && name[0] == '.' && name != ".")
  }

  predicate IsShownDir(n: Node) { n.Dir? && !IsNoiseDir(n.name) }

  predicate IsFile(n: Node) { n.File? }

  /** Alphabetical, whatever the case. */
  predicate NameLe(a: Node, b: Node) {
    TextLe(LowerAll(a.name), LowerAll(b.name))
  }

  function Height(n: Node): nat {
    match n
    case Dir(_, children) => 1 + HeightAll(children)
    case File(_) => 0
    case Other(_) => 0
  }

  function HeightAll(nodes: seq<Node>): nat {
    if nodes == [] then 0 else Max(Height(nodes[0]), HeightAll(nodes[1..]))
  }

  lemma {:induction false} HeightOfMember(nodes: seq<Node>, n: Node)
    requires n in nodes
    ensures Height(n) <= HeightAll(nodes)
  {
    if n != nodes[0] {
      HeightOfMember(nodes[1..], n);
    }
  }

  lemma {:induction false} HeightOfMembers(nodes: seq<Node>, all: seq<Node>)
    requires forall n :: n in nodes ==> n in all
    ensures HeightAll(nodes) <= HeightAll(all)
  {
    if nodes != [] {
      HeightOfMember(all, nodes[0]);
      HeightOfMembers(nodes[1..], all);
    }
  }

  /** The entries shown for a directory, in order: directories before files. */
  function Arranged(children: seq<Node>): seq<Node> {
    Sort(Filter(children, IsShownDir), NameLe) + Sort(Filter(children, IsFile), NameLe)
  }

  lemma ArrangedMembers(children: seq<Node>)
    ensures forall n :: n in Arranged(children) <==> n in children && (IsShownDir(n) || IsFile(n))
  {
    SortMembers(Filter(children, IsShownDir), NameLe);
    SortMembers(Filter(children, IsFile), NameLe);
  }

  function Shown(children: seq<Node>): (r: seq<Node>)
    ensures HeightAll(r) <= HeightAll(children)
  {
    ArrangedMembers(children);
    HeightOfMembers(Arranged(children), children);
    Arranged(children)
  }

  /** Backslashes in a name turn into slashes. */
  function Slashes(name: string): string {
    seq(|name|, i requires 0 <= i < |name| => if name[i] == '\\' then '/' else name[i])
  }

  /** The path of an entry of the directory whose own path, with its slash, is
    * `at`; the root's is empty.
    */
  function RelOf(at: string, name: string): string { at + Slashes(name) }

  function RowOf(n: Node, at: string, depth: nat): TreeRow {
    TreeRow(depth, n.Dir?, RelOf(at, n.name), n.name)
  }

  /** The rows of the entries `nodes`, in this order. */
  function Rows(nodes: seq<Node>, at: string, depth: nat, collapsed: set<string>): seq<TreeRow>
    decreases HeightAll(nodes), |nodes|
  {
    if nodes == [] then [] else
      var row := RowOf(nodes[0], at, depth);
      assert nodes[0].Dir? ==> HeightAll(nodes[0].children) < Height(nodes[0]) <= HeightAll(nodes);
      var below := if nodes[0].Dir? && row.rel !in collapsed
                   then Rows(Shown(nodes[0].children), row.rel + "/", depth + 1, collapsed) else [];
      [row] + below + Rows(nodes[1..], at, depth, collapsed)
  }

  function BuildRows(root: seq<Node>, collapsed: set<string>): seq<TreeRow> {
    Rows(Shown(root), "", 0, collapsed)
  }

  function FullRows(root: seq<Node>): seq<TreeRow> {
    BuildRows(root, {})
  }

  /** The paths above a path: what comes before each of its slashes. */
  function Ancestors(rel: string): set<string> {
    set i | 0 <= i < |rel| && rel[i] == '/' :: rel[..i]
  }

  predicate Hidden(rel: string, collapsed: set<string>) {
    exists a :: a in Ancestors(rel) && a in collapsed
  }

  function Visible(collapsed: set<string>): TreeRow -> bool {
    (r: TreeRow) => !Hidden(r.rel, collapsed)
  }

  function CollapseView(full: seq<TreeRow>, collapsed: set<string>): seq<TreeRow> {
    Filter(full, Visible(collapsed))
  }

  predicate Hit(r: TreeRow, q: string) {
    Contains(LowerAll(r.name), q) || Contains(LowerAll(r.rel), q)
  }

  /** The paths of the hits and everything above them. */
  function KeepSet(rows: seq<TreeRow>, q: string): set<string> {
    if rows == [] then {}
    else
      var r := rows[|rows| - 1];
      KeepSet(rows[..|rows| - 1], q) + (if Hit(r, q) then {r.rel} + Ancestors(r.rel) else {})
  }

  function RelIn(keep: set<string>): TreeRow -> bool {
    (r: TreeRow) => r.rel in keep
  }

  function FilterView(full: seq<TreeRow>, query: string): seq<TreeRow> {
    var q := LowerAll(Trim(query));
    if q == [] then full else Filter(full, RelIn(KeepSet(full, q)))
  }

  // ----- the operations

  lemma {:induction false} RowsConcat(a: seq<Node>, b: seq<Node>, at: string, depth: nat, collapsed: set<string>)
    ensures Rows(a + b, at, depth, collapsed) == Rows(a, at, depth, collapsed) + Rows(b, at, depth, collapsed)
  {
    if a == [] {
      assert a + b == b;
    } else {
      assert (a + b)[1..] == a[1..] + b;
      RowsConcat(a[1..], b, at, depth, collapsed);
    }
  }

  lemma RowsSnoc(nodes: seq<Node>, i: nat, at: string, depth: nat, collapsed: set<string>)
    requires i < |nodes|
    ensures var row := RowOf(nodes[i], at, depth);
            var below := if nodes[i].Dir? && row.rel !in collapsed
                         then Rows(Shown(nodes[i].children), row.rel + "/", depth + 1, collapsed) else [];
            Rows(nodes[..i + 1], at, depth, collapsed) == Rows(nodes[..i], at, depth, collapsed) + ([row] + below)
  {
    assert nodes[..i + 1] == nodes[..i] + [nodes[i]];
    RowsConcat(nodes[..i], [nodes[i]], at, depth, collapsed);
    assert [nodes[i]][1..] == [];
  }

  lemma NoRows(at: string, depth: nat, collapsed: set<string>)
    ensures Rows([], at, depth, collapsed) == []
  {
  }

  lemma FileRow(files: seq<Node>, i: nat, at: string, depth: nat, collapsed: set<string>)
    requires i < |files| && !files[i].Dir?
    ensures Rows(files[..i + 1], at, depth, collapsed)
         == Rows(files[..i], at, depth, collapsed) + [RowOf(files[i], at, depth)]
  {
    hide Rows;
    RowsSnoc(files, i, at, depth, collapsed);
  }

  /** One directory's entries, split and sorted. */
  method Arrange(entries: seq<Node>) returns (dirs: seq<Node>, files: seq<Node>)
    ensures dirs + files == Shown(entries)
    ensures forall n :: n in dirs ==> n.Dir? && n in entries
    ensures forall n :: n in files ==> n.File?
  {
    hide IsNoiseDir, NameLe, HeightAll;
    dirs, files := [], [];
    for i := 0 to |entries|
      invariant dirs == Filter(entries[..i], IsShownDir) && files == Filter(entries[..i], IsFile)
    {
      assert entries[..i + 1] == entries[..i] + [entries[i]];
      FilterSnoc(entries[..i], entries[i], IsShownDir);
      FilterSnoc(entries[..i], entries[i], IsFile);
      if entries[i].Dir? && !IsNoiseDir(entries[i].name) {
        dirs := dirs + [entries[i]];
      } else if entries[i].File? {
        files := files + [entries[i]];
      }
    }
    assert entries[..|entries|] == entries;
    SortMembers(dirs, NameLe);
    SortMembers(files, NameLe);
    dirs := Sort(dirs, NameLe);
    files := Sort(files, NameLe);
  }

  method Walk(entries: seq<Node>, at: string, depth: nat, collapsed: set<string>, out: seq<TreeRow>)
    returns (rows: seq<TreeRow>)
    ensures rows == out + Rows(Shown(entries), at, depth, collapsed)
    decreases HeightAll(entries)
  {
    hide Shown, Rows, HeightAll, RelOf;
    var dirs, files := Arrange(entries);
    rows := out;
    NoRows(at, depth, collapsed);
    for i := 0 to |dirs|
      invariant rows == out + Rows(dirs[..i], at, depth, collapsed)
    {
      var row := RowOf(dirs[i], at, depth);
      RowsSnoc(dirs, i, at, depth, collapsed);
      HeightOfMember(entries, dirs[i]);
      rows := rows + [row];
      if row.rel !in collapsed {
        rows := Walk(dirs[i].children, row.rel + "/", depth + 1, collapsed, rows);
      }
    }
    assert dirs[..|dirs|] == dirs;
    for i := 0 to |files|
      invariant rows == out + Rows(dirs, at, depth, collapsed) + Rows(files[..i], at, depth, collapsed)
    {
      assert files[i] in files;
      FileRow(files, i, at, depth, collapsed);
      rows := rows + [RowOf(files[i], at, depth)];
    }
    assert files[..|files|] == files;
    RowsConcat(dirs, files, at, depth, collapsed);
  }

  /** Index of the last slash, or -1. */
  function LastSlash(s: string): (i: int)
    ensures -1 <= i < |s| && (i >= 0 ==> s[i] == '/')
    ensures forall j :: i < j < |s| ==> s[j] != '/'
  {
    if s == [] then -1
    else if s[|s| - 1] == '/' then |s| - 1
    else LastSlash(s[..|s| - 1])
  }

  lemma NoSlashNoAncestors(s: string)
    requires LastSlash(s) < 0
    ensures Ancestors(s) == {}
  {
  }

  lemma AncestorsStep(s: string)
    requires LastSlash(s) >= 0
    ensures Ancestors(s) == Ancestors(s[..LastSlash(s)]) + {s[..LastSlash(s)]}
  {
    var k := LastSlash(s);
    forall a ensures a in Ancestors(s) <==> a in Ancestors(s[..k]) + {s[..k]} {
      if a in Ancestors(s) {
        var i :| 0 <= i < |s| && s[i] == '/' && a == s[..i];
        assert i < k ==> s[..k][i] == '/' && s[..k][..i] == a;
      }
      if a in Ancestors(s[..k]) {
        var i :| 0 <= i < k && s[..k][i] == '/' && a == s[..k][..i];
        assert s[i] == '/' && s[..i] == a;
      }
    }
  }

  method IsHidden(rel: string, collapsed: set<string>) returns (hidden: bool)
    ensures hidden == Hidden(rel, collapsed)
  {
    hide LastSlash, Ancestors;
    var cur := rel;
    while LastSlash(cur) >= 0
      invariant Hidden(rel, collapsed) == Hidden(cur, collapsed)
      decreases |cur|
    {
      AncestorsStep(cur);
      cur := cur[..LastSlash(cur)];
      if cur in collapsed {
        return true;
      }
    }
    NoSlashNoAncestors(cur);
    return false;
  }

  method CollapseRun(full: seq<TreeRow>, collapsed: set<string>) returns (view: seq<TreeRow>)
    ensures view == CollapseView(full, collapsed)
  {
    hide Hidden;
    if collapsed == {} {
      NothingHidden(full);
      return full;
    }
    view := [];
    for i := 0 to |full|
      invariant view == Filter(full[..i], Visible(collapsed))
    {
      assert full[..i + 1] == full[..i] + [full[i]];
      FilterSnoc(full[..i], full[i], Visible(collapsed));
      var hidden := IsHidden(full[i].rel, collapsed);
      if !hidden {
        view := view + [full[i]];
      }
    }
    assert full[..|full|] == full;
  }

  lemma NothingHidden(full: seq<TreeRow>)
    ensures CollapseView(full, {}) == full
  {
    FilterAll(full, Visible({}));
  }

  method AddAncestors(rel: string, keep: set<string>) returns (r: set<string>)
    ensures r == keep + Ancestors(rel)
  {
    hide LastSlash, Ancestors;
    r := keep;
    var cur := rel;
    while LastSlash(cur) >= 0
      invariant r + Ancestors(cur) == keep + Ancestors(rel)
      decreases |cur|
    {
      AncestorsStep(cur);
      cur := cur[..LastSlash(cur)];
      r := r + {cur};
    }
    NoSlashNoAncestors(cur);
  }

  method FilterRun(full: seq<TreeRow>, query: string) returns (view: seq<TreeRow>)
    ensures view == FilterView(full, query)
  {
    hide Hit, LowerAll, Trim, Ancestors;
    var q := LowerAll(Trim(query));
    if q == [] {
      return full;
    }
    var keep: set<string> := {};
    for i := 0 to |full|
      invariant keep == KeepSet(full[..i], q)
    {
      assert full[..i + 1][..i] == full[..i];
      if Hit(full[i], q) {
        keep := AddAncestors(full[i].rel, keep + {full[i].rel});
      }
    }
    assert full[..|full|] == full;
    view := [];
    for i := 0 to |full|
      invariant view == Filter(full[..i], RelIn(keep))
    {
      assert full[..i + 1] == full[..i] + [full[i]];
      FilterSnoc(full[..i], full[i], RelIn(keep));
      if full[i].rel in keep {
        view := view + [full[i]];
      }
    }
    assert full[..|full|] == full;
  }
}
