/** The views derived in memory against a fresh walk of the tree. */
module FileTreeViews {
  import opened OrderedSort
  import opened TextTrim
  import opened FileTree

  // ----- the trees a file system can hold

  /** No shown name contains `c`. */
  predicate NamesAvoid(nodes: seq<Node>, c: char)
    decreases HeightAll(nodes), |nodes|
  {
    nodes == [] || (
      && c !in nodes[0].name
      && (assert nodes[0].Dir? ==> HeightAll(nodes[0].children) < Height(nodes[0]) <= HeightAll(nodes);
          nodes[0].Dir? ==> NamesAvoid(Shown(nodes[0].children), c))
      && NamesAvoid(nodes[1..], c))
  }

  predicate IsPlain(name: string) { '/' !in name && '\\' !in name }

  // ----- paths

  lemma PlainSlashes(name: string)
    requires '\\' !in name
    ensures Slashes(name) == name
  {
    forall i | 0 <= i < |name| ensures Slashes(name)[i] == name[i] {
      assert name[i] in name;
    }
  }

  lemma AncestorsOfEntry(at: string, name: string)
    requires '/' !in name
    ensures Ancestors(at + name) == Ancestors(at)
  {
    var rel := at + name;
    forall j | |at| <= j < |rel| ensures rel[j] != '/' {
      assert rel[j] == name[j - |at|] && name[j - |at|] in name;
    }
    forall a ensures a in Ancestors(rel) <==> a in Ancestors(at) {
      if a in Ancestors(rel) {
        var i :| 0 <= i < |rel| && rel[i] == '/' && a == rel[..i];
        assert at[i] == '/' && at[..i] == a;
      }
      if a in Ancestors(at) {
        var i :| 0 <= i < |at| && at[i] == '/' && a == at[..i];
        assert rel[i] == '/' && rel[..i] == a;
      }
    }
  }

  lemma AncestorsOfInside(rel: string)
    ensures Ancestors(rel + "/") == Ancestors(rel) + {rel}
  {
    var at := rel + "/";
    forall a ensures a in Ancestors(at) <==> a in Ancestors(rel) + {rel} {
      if a in Ancestors(at) {
        var i :| 0 <= i < |at| && at[i] == '/' && a == at[..i];
        assert i < |rel| ==> rel[i] == '/' && rel[..i] == a;
        assert i == |rel| ==> at[..i] == rel;
      }
      if a in Ancestors(rel) {
        var i :| 0 <= i < |rel| && rel[i] == '/' && a == rel[..i];
        assert at[i] == '/' && at[..i] == a;
      }
      assert at[|rel|] == '/' && at[..|rel|] == rel;
    }
  }

  lemma AncestorOfBelow(rel: string, x: string)
    requires rel + "/" <= x
    ensures rel in Ancestors(x)
  {
    assert x[|rel|] == (rel + "/")[|rel|] && x[..|rel|] == rel;
  }

  // ----- shape of the rows

  function Below(n: Node, at: string, depth: nat, collapsed: set<string>): seq<TreeRow> {
    var row := RowOf(n, at, depth);
    if n.Dir? && row.rel !in collapsed then Rows(Shown(n.children), row.rel + "/", depth + 1, collapsed) else []
  }

  lemma RowsParts(nodes: seq<Node>, at: string, depth: nat, collapsed: set<string>)
    requires nodes != []
    ensures Rows(nodes, at, depth, collapsed)
         == [RowOf(nodes[0], at, depth)] + Below(nodes[0], at, depth, collapsed) + Rows(nodes[1..], at, depth, collapsed)
  {
  }

  lemma Smaller(nodes: seq<Node>)
    requires nodes != []
    ensures HeightAll(nodes[1..]) <= HeightAll(nodes)
    ensures nodes[0].Dir? ==> HeightAll(Shown(nodes[0].children)) < HeightAll(nodes)
  {
    assert nodes[0].Dir? ==> Height(nodes[0]) == 1 + HeightAll(nodes[0].children);
  }

  lemma PrefixTransitive(a: string, b: string, c: string)
    requires a <= b && b <= c
    ensures a <= c
  {
  }

  lemma PrefixStep(a: string, b: string)
    ensures a <= a + b
  {
  }

  /** Every row lies under the directory it was listed for. */
  lemma {:induction false} RowsInside(nodes: seq<Node>, at: string, depth: nat, collapsed: set<string>)
    ensures forall r :: r in Rows(nodes, at, depth, collapsed) ==> at <= r.rel
    decreases HeightAll(nodes), |nodes|
  {
    if nodes != [] {
      Smaller(nodes);
      RowsParts(nodes, at, depth, collapsed);
      hide Rows, Shown, HeightAll, Slashes;
      var n := nodes[0];
      var rel := RelOf(at, n.name);
      RowsInside(nodes[1..], at, depth, collapsed);
      PrefixStep(at, Slashes(n.name));
      if n.Dir? && rel !in collapsed {
        RowsInside(Shown(n.children), rel + "/", depth + 1, collapsed);
        forall r | r in Below(n, at, depth, collapsed) ensures at <= r.rel {
          PrefixTransitive(at, rel + "/", r.rel);
        }
      }
    }
  }

  // ----- order of one level

  lemma NameOrder()
    ensures TotalPreorder(NameLe)
  {
    TextOrder();
    hide LowerAll, TextLe;
    forall a, b ensures NameLe(a, b) || NameLe(b, a) {
      assert TextLe(LowerAll(a.name), LowerAll(b.name)) || TextLe(LowerAll(b.name), LowerAll(a.name));
    }
  }

  /** Directories that are not noise, then files; each alphabetical whatever the
    * case, and names that differ only in case in the order they were read.
    */
  lemma ShownOrder(children: seq<Node>, group: Node -> bool)
    ensures var r, k := Shown(children), |Filter(children, IsShownDir)|;
            && k <= |r| && multiset(r[..k]) == multiset(Filter(children, IsShownDir))
            && multiset(r[k..]) == multiset(Filter(children, IsFile))
            && Sorted(r[..k], NameLe) && Sorted(r[k..], NameLe)
            && (AllAlike(group, NameLe) ==>
                  && Filter(r[..k], group) == Filter(Filter(children, IsShownDir), group)
                  && Filter(r[k..], group) == Filter(Filter(children, IsFile), group))
  {
    var dirs, files := Filter(children, IsShownDir), Filter(children, IsFile);
    hide NameLe, IsShownDir, IsFile, Filter, Sort;
    NameOrder();
    SortMembers(dirs, NameLe);
    SortPermutes(dirs, NameLe);
    SortPermutes(files, NameLe);
    SortSorts(dirs, NameLe);
    SortSorts(files, NameLe);
    if AllAlike(group, NameLe) {
      SortStable(dirs, NameLe, group);
      SortStable(files, NameLe, group);
    }
    assert Shown(children)[..|dirs|] == Sort(dirs, NameLe);
  }

  // ----- collapsing

  ghost predicate AllOpen(at: string, collapsed: set<string>) {
    forall a :: a in Ancestors(at) ==> a !in collapsed
  }

  lemma NothingBelowCollapsed(n: Node, at: string, depth: nat, collapsed: set<string>)
    requires RelOf(at, n.name) in collapsed
    ensures Filter(Below(n, at, depth, {}), Visible(collapsed)) == []
  {
    var below := Below(n, at, depth, {});
    if n.Dir? {
      var rel := RelOf(at, n.name);
      RowsInside(Shown(n.children), rel + "/", depth + 1, {});
      hide Rows, Shown, RelOf, Ancestors;
      forall i | 0 <= i < |below| ensures !Visible(collapsed)(below[i]) {
        assert below[i] in below;
        AncestorOfBelow(rel, below[i].rel);
      }
    }
    FilterNone(below, Visible(collapsed));
  }

  lemma FilterParts(a: TreeRow, b: seq<TreeRow>, c: seq<TreeRow>, keep: TreeRow -> bool)
    ensures Filter([a] + b + c, keep) == (if keep(a) then [a] else []) + Filter(b, keep) + Filter(c, keep)
  {
    FilterConcat([a] + b, c, keep);
    FilterConcat([a], b, keep);
  }

  lemma {:induction false} CollapseRows(nodes: seq<Node>, at: string, depth: nat, collapsed: set<string>)
    requires NamesAvoid(nodes, '/') && NamesAvoid(nodes, '\\') && AllOpen(at, collapsed)
    ensures Filter(Rows(nodes, at, depth, {}), Visible(collapsed)) == Rows(nodes, at, depth, collapsed)
    decreases HeightAll(nodes), |nodes|
  {
    if nodes != [] {
      Smaller(nodes);
      RowsParts(nodes, at, depth, {});
      RowsParts(nodes, at, depth, collapsed);
      var n := nodes[0];
      var rel := RelOf(at, n.name);
      PlainSlashes(n.name);
      AncestorsOfEntry(at, n.name);
      AncestorsOfInside(rel);
      FilterParts(RowOf(n, at, depth), Below(n, at, depth, {}), Rows(nodes[1..], at, depth, {}), Visible(collapsed));
      hide Rows, Shown, HeightAll, Ancestors, Slashes;
      CollapseRows(nodes[1..], at, depth, collapsed);
      if n.Dir? && rel in collapsed {
        NothingBelowCollapsed(n, at, depth, collapsed);
      } else if n.Dir? {
        CollapseRows(Shown(n.children), rel + "/", depth + 1, collapsed);
      }
    }
  }

  /** The cached list, collapsed in memory, is the fresh collapsed walk. */
  lemma CollapseIsWalk(root: seq<Node>, collapsed: set<string>)
    requires NamesAvoid(Shown(root), '/') && NamesAvoid(Shown(root), '\\')
    ensures CollapseView(FullRows(root), collapsed) == BuildRows(root, collapsed)
  {
    CollapseRows(Shown(root), "", 0, collapsed);
  }

  // ----- a backslash in a name breaks it

  /** The entries of one level all have their rows. */
  lemma {:induction false} LevelIsListed(nodes: seq<Node>, i: nat, at: string, depth: nat, collapsed: set<string>)
    requires i < |nodes|
    ensures RowOf(nodes[i], at, depth) in Rows(nodes, at, depth, collapsed)
    ensures forall r :: r in Below(nodes[i], at, depth, collapsed) ==> r in Rows(nodes, at, depth, collapsed)
  {
    RowsParts(nodes, at, depth, collapsed);
    hide Rows, Below;
    if i > 0 {
      LevelIsListed(nodes[1..], i - 1, at, depth, collapsed);
    }
  }

  lemma SlashFromBackslash(at: string, name: string) returns (a: string)
    requires '\\' in name
    ensures a in Ancestors(RelOf(at, name)) && at <= a
  {
    var i :| 0 <= i < |name| && name[i] == '\\';
    var rel := RelOf(at, name);
    assert rel[|at| + i] == '/';
    a := rel[..|at| + i];
  }

  /** Some collapsed path hides, in the cached list, a row a fresh walk shows. */
  lemma {:induction false} HidesAShownRow(nodes: seq<Node>, at: string, depth: nat) returns (a: string, r: TreeRow)
    requires !NamesAvoid(nodes, '\\')
    ensures at <= a && r in Rows(nodes, at, depth, {a}) && Hidden(r.rel, {a})
    decreases HeightAll(nodes), |nodes|
  {
    var n := nodes[0];
    Smaller(nodes);
    hide Rows, Shown, HeightAll, Ancestors;
    if '\\' in n.name {
      a := SlashFromBackslash(at, n.name);
      r := RowOf(n, at, depth);
      LevelIsListed(nodes, 0, at, depth, {a});
    } else if n.Dir? && !NamesAvoid(Shown(n.children), '\\') {
      var rel := RelOf(at, n.name);
      a, r := HidesAShownRow(Shown(n.children), rel + "/", depth + 1);
      assert |a| > |rel|;
      LevelIsListed(nodes, 0, at, depth, {a});
      PrefixStep(at, Slashes(n.name) + "/");
      assert at + (Slashes(n.name) + "/") == rel + "/";
      PrefixTransitive(at, rel + "/", a);
    } else {
      a, r := HidesAShownRow(nodes[1..], at, depth);
      RowsParts(nodes, at, depth, {a});
    }
  }

  /** The views agree for every collapsed set exactly when no shown name has a
    * backslash in it.
    */
  lemma CollapseExactlyWhen(root: seq<Node>)
    requires NamesAvoid(Shown(root), '/')
    ensures (forall collapsed :: CollapseView(FullRows(root), collapsed) == BuildRows(root, collapsed))
        <==> NamesAvoid(Shown(root), '\\')
  {
    if NamesAvoid(Shown(root), '\\') {
      forall collapsed ensures CollapseView(FullRows(root), collapsed) == BuildRows(root, collapsed) {
        CollapseIsWalk(root, collapsed);
      }
    } else {
      var a, r := HidesAShownRow(Shown(root), "", 0);
      assert r in BuildRows(root, {a}) && !Visible({a})(r);
      assert CollapseView(FullRows(root), {a}) != BuildRows(root, {a});
    }
  }
}
