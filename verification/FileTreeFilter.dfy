/** The filtered view against a filter defined on the tree itself. */
module FileTreeFilter {
  import opened OrderedSort
  import opened TextTrim
  import opened FileTree
  import opened FileTreeViews

  /** What a file system guarantees of the entries shown: plain names, no two the
    * same in one directory.
    */
  predicate ProperTree(nodes: seq<Node>)
    decreases HeightAll(nodes), |nodes|
  {
    nodes == [] || (
      && IsPlain(nodes[0].name)
      && (forall i :: 1 <= i < |nodes| ==> nodes[i].name != nodes[0].name)
      && (assert nodes[0].Dir? ==> HeightAll(nodes[0].children) < Height(nodes[0]) <= HeightAll(nodes);
          nodes[0].Dir? ==> ProperTree(Shown(nodes[0].children)))
      && ProperTree(nodes[1..]))
  }

  /** Keep an entry that matches, or a directory something below which is kept. */
  function FilterTree(nodes: seq<Node>, at: string, depth: nat, q: string): seq<TreeRow>
    decreases HeightAll(nodes), |nodes|
  {
    if nodes == [] then [] else
      var row := RowOf(nodes[0], at, depth);
      assert nodes[0].Dir? ==> HeightAll(nodes[0].children) < Height(nodes[0]) <= HeightAll(nodes);
      var below := if nodes[0].Dir? then FilterTree(Shown(nodes[0].children), row.rel + "/", depth + 1, q) else [];
      (if Hit(row, q) || below != [] then [row] + below else []) + FilterTree(nodes[1..], at, depth, q)
  }

  // ----- the kept paths of a list of rows

  predicate Leads(a: string, r: TreeRow, q: string) {
    Hit(r, q) && (a == r.rel || a in Ancestors(r.rel))
  }

  lemma {:induction false} KeepSetMembers(rows: seq<TreeRow>, q: string, a: string)
    ensures a in KeepSet(rows, q) <==> exists i :: 0 <= i < |rows| && Leads(a, rows[i], q)
  {
    hide Hit, Ancestors;
    if rows != [] {
      var init := rows[..|rows| - 1];
      KeepSetMembers(init, q, a);
      if a in KeepSet(init, q) {
        var i :| 0 <= i < |init| && Leads(a, init[i], q);
        assert Leads(a, rows[i], q);
      }
      if i :| 0 <= i < |rows| && Leads(a, rows[i], q) {
        assert i < |init| ==> Leads(a, init[i], q);
      }
    }
  }

  lemma {:induction false} KeepSetConcat(x: seq<TreeRow>, y: seq<TreeRow>, q: string)
    ensures KeepSet(x + y, q) == KeepSet(x, q) + KeepSet(y, q)
  {
    hide Hit, Ancestors;
    if y == [] {
      assert x + y == x;
    } else {
      assert (x + y)[..|x + y| - 1] == x + y[..|y| - 1];
      KeepSetConcat(x, y[..|y| - 1], q);
    }
  }

  /** A row is in the view exactly when it matches or lies above a match. */
  lemma FilterKeeps(full: seq<TreeRow>, query: string, r: TreeRow)
    requires Trim(query) != []
    ensures r in FilterView(full, query)
       <==> r in full && exists i :: 0 <= i < |full| && Leads(r.rel, full[i], LowerAll(Trim(query)))
  {
    hide Leads, KeepSet, Trim;
    assert LowerAll(Trim(query)) != [];
    KeepSetMembers(full, LowerAll(Trim(query)), r.rel);
  }

  // ----- whose path it is

  predicate Under(x: string, base: string) {
    x == base || base + "/" <= x
  }

  lemma UnderOne(x: string, at: string, m: string, n: string)
    requires IsPlain(m) && IsPlain(n) && Under(x, at + m) && Under(x, at + n)
    ensures m == n
  {
    NotLonger(x, at, m, n);
    NotLonger(x, at, n, m);
    assert m == x[|at|..|at| + |m|] && n == x[|at|..|at| + |n|];
  }

  lemma NotLonger(x: string, at: string, m: string, n: string)
    requires IsPlain(m) && IsPlain(n) && Under(x, at + m) && Under(x, at + n)
    ensures |m| >= |n|
  {
    assert |x| >= |at| + |n|;
    forall j | |at| <= j < |at| + |n| ensures x[j] != '/' {
      assert x[j] == (at + n)[j] == n[j - |at|] && n[j - |at|] in n;
    }
    assert x == at + m || x[|at| + |m|] == (at + m + "/")[|at| + |m|] == '/';
  }

  lemma UnderAbove(a: string, x: string, base: string)
    requires Under(a, base) && (a == x || a in Ancestors(x))
    ensures Under(x, base)
  {
    if a != x {
      var i :| 0 <= i < |x| && x[i] == '/' && a == x[..i];
      if a == base {
        assert x[..i + 1] == base + "/";
      } else {
        PrefixTransitive(base + "/", a, x);
      }
    }
  }

  /** The rows of other entries keep nothing under this one. */
  lemma OthersKeepNothing(rows: seq<TreeRow>, at: string, names: set<string>, name: string, a: string, q: string)
    requires forall i :: 0 <= i < |rows| ==> UnderSome(rows[i].rel, at, names)
    requires name !in names && IsPlain(name) && (forall n :: n in names ==> IsPlain(n)) && Under(a, at + name)
    ensures a !in KeepSet(rows, q)
  {
    hide Under, IsPlain, Hit, Ancestors;
    KeepSetMembers(rows, q, a);
    if i :| 0 <= i < |rows| && Leads(a, rows[i], q) {
      UnderAbove(a, rows[i].rel, at + name);
      var n :| n in names && Under(rows[i].rel, at + n);
      UnderOne(rows[i].rel, at, n, name);
    }
  }

  predicate UnderSome(x: string, at: string, names: set<string>) {
    exists n :: n in names && Under(x, at + n)
  }

  function Names(nodes: seq<Node>): set<string> {
    set i | 0 <= i < |nodes| :: nodes[i].name
  }

  lemma NamesStep(nodes: seq<Node>)
    requires nodes != [] && ProperTree(nodes)
    ensures Names(nodes) == {nodes[0].name} + Names(nodes[1..]) && nodes[0].name !in Names(nodes[1..])
    ensures IsPlain(nodes[0].name) && ProperTree(nodes[1..])
    ensures nodes[0].Dir? ==> ProperTree(Shown(nodes[0].children))
  {
    hide IsPlain, Shown;
    var rest := nodes[1..];
    forall a ensures a in Names(nodes) <==> a in {nodes[0].name} + Names(rest) {
      if a in Names(nodes) {
        var i :| 0 <= i < |nodes| && nodes[i].name == a;
        assert i > 0 ==> rest[i - 1].name == a;
      }
      if a in Names(rest) {
        var i :| 0 <= i < |rest| && rest[i].name == a;
        assert nodes[i + 1].name == a;
      }
    }
  }

  lemma {:induction false} NamesPlain(nodes: seq<Node>)
    requires ProperTree(nodes)
    ensures forall n :: n in Names(nodes) ==> IsPlain(n)
  {
    hide IsPlain, Names;
    if nodes != [] {
      NamesStep(nodes);
      NamesPlain(nodes[1..]);
    } else {
      NoNames();
    }
  }

  lemma NoNames()
    ensures Names([]) == {}
  {
  }

  /** An entry's own row and the rows below it are under its path. */
  lemma OwnRowsUnder(n: Node, at: string, depth: nat)
    requires IsPlain(n.name)
    ensures forall r :: r in [RowOf(n, at, depth)] + Below(n, at, depth, {}) ==> Under(r.rel, at + n.name)
  {
    PlainSlashes(n.name);
    if n.Dir? {
      RowsInside(Shown(n.children), at + n.name + "/", depth + 1, {});
    }
    hide Rows, Shown, Slashes;
  }

  lemma {:induction false} RowsUnderNames(nodes: seq<Node>, at: string, depth: nat)
    requires ProperTree(nodes)
    ensures forall r :: r in Rows(nodes, at, depth, {}) ==> UnderSome(r.rel, at, Names(nodes))
  {
    if nodes != [] {
      NamesStep(nodes);
      OwnRowsUnder(nodes[0], at, depth);
      RowsUnderNames(nodes[1..], at, depth);
      RowsParts(nodes, at, depth, {});
      hide Rows, Below, Under, Names, ProperTree, IsPlain, RowOf;
      var own := [RowOf(nodes[0], at, depth)] + Below(nodes[0], at, depth, {});
      var rest := Rows(nodes[1..], at, depth, {});
      forall r: TreeRow | r in own + rest ensures UnderSome(r.rel, at, Names(nodes)) {
        if r in own {
          assert nodes[0].name in Names(nodes) && Under(r.rel, at + nodes[0].name);
        } else {
          assert UnderSome(r.rel, at, Names(nodes[1..]));
        }
      }
    }
  }

  // ----- the filter

  /** `keep` and `paths` agree on everything under the entries of `at`. */
  ghost predicate Agree(keep: set<string>, paths: set<string>, at: string, names: set<string>) {
    forall a :: UnderSome(a, at, names) ==> (a in keep <==> a in paths)
  }

  lemma HitKeeps(rows: seq<TreeRow>, base: string, q: string)
    requires forall i :: 0 <= i < |rows| ==> base + "/" <= rows[i].rel
    ensures base in KeepSet(rows, q) <==> KeepSet(rows, q) != {}
  {
    hide Hit, Ancestors;
    if a :| a in KeepSet(rows, q) {
      KeepSetMembers(rows, q, a);
      var i :| 0 <= i < |rows| && Leads(a, rows[i], q);
      AncestorOfBelow(base, rows[i].rel);
      assert Leads(base, rows[i], q);
      KeepSetMembers(rows, q, base);
    }
  }

  lemma OwnRowKeeps(r: TreeRow, a: string, q: string)
    ensures a in KeepSet([r], q) <==> Leads(a, r, q)
    ensures a in KeepSet([r], q) ==> |a| <= |r.rel|
    ensures r.rel in KeepSet([r], q) <==> Hit(r, q)
  {
    assert KeepSet([r], q) == KeepSet([], q) + if Hit(r, q) then {r.rel} + Ancestors(r.rel) else {};
  }

  ghost predicate RowsUnder(rows: seq<TreeRow>, at: string, names: set<string>) {
    forall i :: 0 <= i < |rows| ==> UnderSome(rows[i].rel, at, names)
  }

  /** Where `mine` and `others` share no name, each keeps its own paths. */
  lemma PartAgrees(mine: seq<TreeRow>, others: seq<TreeRow>, paths: set<string>,
      at: string, names: set<string>, otherNames: set<string>, q: string, keep: set<string>)
    requires paths == KeepSet(mine, q) + KeepSet(others, q)
    requires RowsUnder(others, at, otherNames) && names !! otherNames
    requires forall n :: n in names + otherNames ==> IsPlain(n)
    requires Agree(keep, paths, at, names + otherNames)
    ensures Agree(keep, KeepSet(mine, q), at, names)
  {
    hide KeepSet, IsPlain, Under;
    forall a | UnderSome(a, at, names) ensures a in keep <==> a in KeepSet(mine, q) {
      var n :| n in names && Under(a, at + n);
      OthersKeepNothing(others, at, otherNames, n, a, q);
      assert UnderSome(a, at, names + otherNames);
    }
  }

  /** The paths kept for one entry and what follows it. */
  lemma HeadAgrees(nodes: seq<Node>, at: string, depth: nat, q: string, keep: set<string>)
    requires nodes != [] && ProperTree(nodes)
    requires Agree(keep, KeepSet(Rows(nodes, at, depth, {}), q), at, Names(nodes))
    ensures var own := [RowOf(nodes[0], at, depth)] + Below(nodes[0], at, depth, {});
            && Agree(keep, KeepSet(own, q), at, {nodes[0].name})
            && Agree(keep, KeepSet(Rows(nodes[1..], at, depth, {}), q), at, Names(nodes[1..]))
  {
    var n, rest := nodes[0], nodes[1..];
    var own, restRows := [RowOf(n, at, depth)] + Below(n, at, depth, {}), Rows(rest, at, depth, {});
    hide *;
    RowsParts(nodes, at, depth, {});
    NamesStep(nodes);
    NamesPlain(rest);
    OwnRowsSome(n, at, depth);
    RestRowsSome(rest, at, depth);
    KeepSetConcat(own, restRows, q);
    var paths := KeepSet(own + restRows, q);
    assert paths == KeepSet(restRows, q) + KeepSet(own, q);
    assert Names(nodes) == Names(rest) + {n.name};
    PartAgrees(own, restRows, paths, at, {n.name}, Names(rest), q, keep);
    PartAgrees(restRows, own, paths, at, Names(rest), {n.name}, q, keep);
  }

  lemma OwnRowsSome(n: Node, at: string, depth: nat)
    requires IsPlain(n.name)
    ensures RowsUnder([RowOf(n, at, depth)] + Below(n, at, depth, {}), at, {n.name})
  {
    OwnRowsUnder(n, at, depth);
    hide Rows, Below, Under, RowOf;
    var own := [RowOf(n, at, depth)] + Below(n, at, depth, {});
    forall i | 0 <= i < |own| ensures UnderSome(own[i].rel, at, {n.name}) {
      assert own[i] in own;
    }
  }

  lemma RestRowsSome(nodes: seq<Node>, at: string, depth: nat)
    requires ProperTree(nodes)
    ensures RowsUnder(Rows(nodes, at, depth, {}), at, Names(nodes))
  {
    RowsUnderNames(nodes, at, depth);
    hide Rows, Under, Names;
  }

  /** The paths kept below a directory. */
  lemma BelowAgrees(n: Node, at: string, depth: nat, q: string, keep: set<string>)
    requires n.Dir? && IsPlain(n.name)
    requires Agree(keep, KeepSet([RowOf(n, at, depth)] + Below(n, at, depth, {}), q), at, {n.name})
    ensures var rel := at + n.name;
            && Agree(keep, KeepSet(Below(n, at, depth, {}), q), rel + "/", Names(Shown(n.children)))
            && (rel in keep <==> Hit(RowOf(n, at, depth), q) || KeepSet(Below(n, at, depth, {}), q) != {})
  {
    var row, below := RowOf(n, at, depth), Below(n, at, depth, {});
    var rel := at + n.name;
    PlainSlashes(n.name);
    assert row.rel == rel;
    RowsInside(Shown(n.children), rel + "/", depth + 1, {});
    assert forall i :: 0 <= i < |below| ==> below[i] in below && rel + "/" <= below[i].rel;
    hide Rows, Below, Names, IsPlain, RowOf, KeepSet, Hit, Shown;
    KeepSetConcat([row], below, q);
    HitKeeps(below, rel, q);
    OwnRowKeeps(row, rel, q);
    assert UnderSome(rel, at, {n.name});
    forall a | UnderSome(a, rel + "/", Names(Shown(n.children))) ensures a in keep <==> a in KeepSet(below, q) {
      var m :| m in Names(Shown(n.children)) && Under(a, rel + "/" + m);
      EntryIsInside(a, rel, m);
      OwnRowKeeps(row, a, q);
      assert UnderSome(a, at, {n.name});
    }
  }

  lemma EntryIsInside(a: string, rel: string, m: string)
    requires Under(a, rel + "/" + m)
    ensures Under(a, rel) && |a| > |rel|
  {
    PrefixStep(rel + "/", m);
    if a != rel + "/" + m {
      PrefixStep(rel + "/" + m, "/");
      PrefixTransitive(rel + "/", rel + "/" + m, rel + "/" + m + "/");
      PrefixTransitive(rel + "/", rel + "/" + m + "/", a);
    }
  }

  lemma FileAgrees(n: Node, at: string, depth: nat, q: string, keep: set<string>)
    requires !n.Dir? && IsPlain(n.name)
    requires Agree(keep, KeepSet([RowOf(n, at, depth)] + Below(n, at, depth, {}), q), at, {n.name})
    ensures at + n.name in keep <==> Hit(RowOf(n, at, depth), q)
  {
    var row := RowOf(n, at, depth);
    PlainSlashes(n.name);
    OwnRowKeeps(row, row.rel, q);
    assert [row] + Below(n, at, depth, {}) == [row];
    hide KeepSet, Hit, Ancestors;
    assert UnderSome(at + n.name, at, {n.name});
  }

  function FilterBelow(n: Node, at: string, depth: nat, q: string): seq<TreeRow> {
    if n.Dir? then FilterTree(Shown(n.children), RelOf(at, n.name) + "/", depth + 1, q) else []
  }

  lemma FilterTreeParts(nodes: seq<Node>, at: string, depth: nat, q: string)
    requires nodes != []
    ensures var row, below := RowOf(nodes[0], at, depth), FilterBelow(nodes[0], at, depth, q);
            var here := if Hit(row, q) || below != [] then [row] + below else [];
            FilterTree(nodes, at, depth, q) == here + FilterTree(nodes[1..], at, depth, q)
  {
  }

  /** Something is kept exactly when something matches. */
  lemma {:induction false} KeptExactlyWhenHit(nodes: seq<Node>, at: string, depth: nat, q: string)
    ensures FilterTree(nodes, at, depth, q) != [] <==> KeepSet(Rows(nodes, at, depth, {}), q) != {}
    decreases HeightAll(nodes), |nodes|
  {
    if nodes == [] {
    } else {
      Smaller(nodes);
      RowsParts(nodes, at, depth, {});
      FilterTreeParts(nodes, at, depth, q);
      var n := nodes[0];
      var row, below, rest := RowOf(n, at, depth), Below(n, at, depth, {}), Rows(nodes[1..], at, depth, {});
      KeptExactlyWhenHit(nodes[1..], at, depth, q);
      if n.Dir? {
        KeptExactlyWhenHit(Shown(n.children), RelOf(at, n.name) + "/", depth + 1, q);
      }
      hide Rows, FilterTree, Shown, HeightAll, RowOf, Hit;
      KeepSetConcat([row] + below, rest, q);
      KeepSetConcat([row], below, q);
      OwnRowKeeps(row, row.rel, q);
      NothingKept(row, q);
    }
  }

  lemma NothingKept(r: TreeRow, q: string)
    ensures KeepSet([r], q) != {} <==> Hit(r, q)
    ensures KeepSet([], q) == {}
  {
    hide Hit, Ancestors;
    assert KeepSet([r], q) == KeepSet([], q) + if Hit(r, q) then {r.rel} + Ancestors(r.rel) else {};
  }

  lemma {:induction false} FilterRows(nodes: seq<Node>, at: string, depth: nat, q: string, keep: set<string>)
    requires ProperTree(nodes)
    requires Agree(keep, KeepSet(Rows(nodes, at, depth, {}), q), at, Names(nodes))
    ensures Filter(Rows(nodes, at, depth, {}), RelIn(keep)) == FilterTree(nodes, at, depth, q)
    decreases HeightAll(nodes), |nodes|
  {
    if nodes == [] {
    } else {
      Smaller(nodes);
      RowsParts(nodes, at, depth, {});
      FilterTreeParts(nodes, at, depth, q);
      NamesStep(nodes);
      HeadAgrees(nodes, at, depth, q, keep);
      FilterRows(nodes[1..], at, depth, q, keep);
      var n := nodes[0];
      FilterParts(RowOf(n, at, depth), Below(n, at, depth, {}), Rows(nodes[1..], at, depth, {}), RelIn(keep));
      if n.Dir? {
        FilterDir(n, at, depth, q, keep);
      } else {
        FilterFile(n, at, depth, q, keep);
      }
      hide Rows, FilterTree, Shown, HeightAll, RowOf, Hit, Agree, KeepSet, Names, ProperTree;
    }
  }

  lemma FilterFile(n: Node, at: string, depth: nat, q: string, keep: set<string>)
    requires !n.Dir? && IsPlain(n.name)
    requires Agree(keep, KeepSet([RowOf(n, at, depth)] + Below(n, at, depth, {}), q), at, {n.name})
    ensures var row := RowOf(n, at, depth);
            RelIn(keep)(row) == Hit(row, q) && Filter(Below(n, at, depth, {}), RelIn(keep)) == FilterBelow(n, at, depth, q)
  {
    hide Agree, KeepSet, Hit;
    FileAgrees(n, at, depth, q, keep);
    PlainSlashes(n.name);
  }

  lemma FilterDir(n: Node, at: string, depth: nat, q: string, keep: set<string>)
    requires n.Dir? && IsPlain(n.name) && ProperTree(Shown(n.children))
    requires Agree(keep, KeepSet([RowOf(n, at, depth)] + Below(n, at, depth, {}), q), at, {n.name})
    ensures var row, below := RowOf(n, at, depth), FilterBelow(n, at, depth, q);
            && (RelIn(keep)(row) <==> Hit(row, q) || below != [])
            && Filter(Below(n, at, depth, {}), RelIn(keep)) == below
    decreases HeightAll(Shown(n.children)), |Shown(n.children)| + 1
  {
    hide Agree, KeepSet, Hit, Rows, FilterTree, HeightAll, Shown, Names, ProperTree;
    BelowAgrees(n, at, depth, q, keep);
    PlainSlashes(n.name);
    KeptExactlyWhenHit(Shown(n.children), at + n.name + "/", depth + 1, q);
    FilterRows(Shown(n.children), at + n.name + "/", depth + 1, q, keep);
  }

  /** The filter of the cached list is the filter of the tree. */
  lemma FilterIsTreeFilter(root: seq<Node>, query: string)
    requires ProperTree(Shown(root)) && Trim(query) != []
    ensures FilterView(FullRows(root), query) == FilterTree(Shown(root), "", 0, LowerAll(Trim(query)))
  {
    hide Trim, Rows, Shown, FilterTree, KeepSet;
    var q := LowerAll(Trim(query));
    FilterRows(Shown(root), "", 0, q, KeepSet(FullRows(root), q));
  }

  // ----- the exact condition, for every tree

  predicate AnyHit(rows: seq<TreeRow>, q: string) {
    exists i :: 0 <= i < |rows| && Hit(rows[i], q)
  }

  predicate AboveAHit(rows: seq<TreeRow>, a: string, q: string) {
    exists i :: 0 <= i < |rows| && Leads(a, rows[i], q)
  }

  /** Whatever shown entry has a path that some row of `full` makes the filter keep
    * is a match itself or has a match below it.
    */
  predicate KeptForItsOwn(full: seq<TreeRow>, nodes: seq<Node>, at: string, depth: nat, q: string)
    decreases HeightAll(nodes), |nodes|
  {
    nodes == [] || (
      var row, below := RowOf(nodes[0], at, depth), Below(nodes[0], at, depth, {});
      assert nodes[0].Dir? ==> HeightAll(nodes[0].children) < Height(nodes[0]) <= HeightAll(nodes);
      && (AboveAHit(full, row.rel, q) ==> Hit(row, q) || AnyHit(below, q))
      && (nodes[0].Dir? ==> KeptForItsOwn(full, Shown(nodes[0].children), row.rel + "/", depth + 1, q))
      && KeptForItsOwn(full, nodes[1..], at, depth, q))
  }

  lemma AnyHitMeans(rows: seq<TreeRow>, q: string)
    ensures AnyHit(rows, q) <==> KeepSet(rows, q) != {}
  {
    hide Hit, Ancestors, KeepSet;
    if i :| 0 <= i < |rows| && Hit(rows[i], q) {
      assert Leads(rows[i].rel, rows[i], q);
      KeepSetMembers(rows, q, rows[i].rel);
    }
    if a :| a in KeepSet(rows, q) {
      KeepSetMembers(rows, q, a);
    }
  }

  /** The matches of an entry's own rows reach the whole list. */
  lemma OwnHitsReach(n: Node, at: string, depth: nat, q: string, keep: set<string>)
    requires KeepSet([RowOf(n, at, depth)] + Below(n, at, depth, {}), q) <= keep
    ensures var row, below := RowOf(n, at, depth), Below(n, at, depth, {});
            && (Hit(row, q) || AnyHit(below, q) ==> row.rel in keep)
            && KeepSet(below, q) <= keep
  {
    var row, below := RowOf(n, at, depth), Below(n, at, depth, {});
    if n.Dir? {
      RowsInside(Shown(n.children), row.rel + "/", depth + 1, {});
    }
    assert forall i :: 0 <= i < |below| ==> below[i] in below && row.rel + "/" <= below[i].rel;
    hide *;
    KeepSetConcat([row], below, q);
    OwnRowKeeps(row, row.rel, q);
    HitKeeps(below, row.rel, q);
    AnyHitMeans(below, q);
  }

  lemma FilterBelowHits(n: Node, at: string, depth: nat, q: string)
    ensures FilterBelow(n, at, depth, q) != [] <==> AnyHit(Below(n, at, depth, {}), q)
  {
    if n.Dir? {
      KeptExactlyWhenHit(Shown(n.children), RelOf(at, n.name) + "/", depth + 1, q);
    }
    hide Rows, FilterTree, Shown, KeepSet, Hit;
    AnyHitMeans(Below(n, at, depth, {}), q);
  }

  /** Two lists put together the same way: the first keeps `row` at least when the
    * second does.
    */
  lemma PartsCompared(row: TreeRow, k: bool, h: bool, b: seq<TreeRow>, c: seq<TreeRow>, b': seq<TreeRow>, c': seq<TreeRow>)
    requires (h ==> k) && (!h ==> b' == []) && |b'| <= |b| && |c'| <= |c|
    ensures var x, y := (if k then [row] else []) + b + c, (if h then [row] + b' else []) + c';
            && |y| <= |x|
            && (k == h && b == b' && c == c' ==> x == y)
            && (k != h || |b'| < |b| || |c'| < |c| ==> |y| < |x|)
  {
  }

  lemma {:induction false} FilterCompared(full: seq<TreeRow>, nodes: seq<Node>, at: string, depth: nat, q: string)
    requires KeepSet(Rows(nodes, at, depth, {}), q) <= KeepSet(full, q)
    ensures var view, wanted := Filter(Rows(nodes, at, depth, {}), RelIn(KeepSet(full, q))), FilterTree(nodes, at, depth, q);
            if KeptForItsOwn(full, nodes, at, depth, q) then view == wanted else |wanted| < |view|
    decreases HeightAll(nodes), |nodes|
  {
    if nodes == [] {
    } else {
      var n, rest, keep := nodes[0], nodes[1..], KeepSet(full, q);
      var row, below := RowOf(n, at, depth), Below(n, at, depth, {});
      Smaller(nodes);
      RowsParts(nodes, at, depth, {});
      FilterTreeParts(nodes, at, depth, q);
      OwnCondition(full, nodes, at, depth, q);
      hide *;
      KeepSetConcat([row] + below, Rows(rest, at, depth, {}), q);
      OwnHitsReach(n, at, depth, q, keep);
      FilterBelowHits(n, at, depth, q);
      FilterParts(row, below, Rows(rest, at, depth, {}), RelIn(keep));
      KeptMeans(full, row, q);
      BelowCompared(full, n, at, depth, q);
      FilterCompared(full, rest, at, depth, q);
      PartsCompared(row, row.rel in keep, Hit(row, q) || FilterBelow(n, at, depth, q) != [],
        Filter(below, RelIn(keep)), Filter(Rows(rest, at, depth, {}), RelIn(keep)),
        FilterBelow(n, at, depth, q), FilterTree(rest, at, depth, q));
    }
  }

  predicate BelowForItsOwn(full: seq<TreeRow>, n: Node, at: string, depth: nat, q: string) {
    n.Dir? ==> KeptForItsOwn(full, Shown(n.children), RelOf(at, n.name) + "/", depth + 1, q)
  }

  lemma OwnCondition(full: seq<TreeRow>, nodes: seq<Node>, at: string, depth: nat, q: string)
    requires nodes != []
    ensures KeptForItsOwn(full, nodes, at, depth, q)
       <==> (var row, below := RowOf(nodes[0], at, depth), Below(nodes[0], at, depth, {});
             && (AboveAHit(full, row.rel, q) ==> Hit(row, q) || AnyHit(below, q))
             && BelowForItsOwn(full, nodes[0], at, depth, q)
             && KeptForItsOwn(full, nodes[1..], at, depth, q))
  {
    hide AboveAHit, AnyHit, Hit, Shown, Rows;
  }

  lemma KeptMeans(full: seq<TreeRow>, row: TreeRow, q: string)
    ensures RelIn(KeepSet(full, q))(row) == (row.rel in KeepSet(full, q)) == AboveAHit(full, row.rel, q)
  {
    hide KeepSet, Leads;
    KeepSetMembers(full, q, row.rel);
  }

  lemma BelowCompared(full: seq<TreeRow>, n: Node, at: string, depth: nat, q: string)
    requires KeepSet(Below(n, at, depth, {}), q) <= KeepSet(full, q)
    ensures var view, wanted := Filter(Below(n, at, depth, {}), RelIn(KeepSet(full, q))), FilterBelow(n, at, depth, q);
            if BelowForItsOwn(full, n, at, depth, q) then view == wanted else |wanted| < |view|
    decreases if n.Dir? then HeightAll(Shown(n.children)) else 0, if n.Dir? then |Shown(n.children)| + 1 else 0
  {
    if n.Dir? {
      var at' := RelOf(at, n.name) + "/";
      assert Below(n, at, depth, {}) == Rows(Shown(n.children), at', depth + 1, {});
      assert FilterBelow(n, at, depth, q) == FilterTree(Shown(n.children), at', depth + 1, q);
      hide Rows, FilterTree, KeptForItsOwn, Shown, KeepSet, HeightAll;
      FilterCompared(full, Shown(n.children), at', depth + 1, q);
    }
  }

  /** For any tree, whatever its names, and one query: the filter of the list is the
    * filter of the tree exactly when every kept entry is kept for its own sake.
    */
  lemma FilterExactlyWhen(root: seq<Node>, query: string)
    ensures var q, full := LowerAll(Trim(query)), FullRows(root);
            (FilterView(full, query) == FilterTree(Shown(root), "", 0, q)
             <==> KeptForItsOwn(full, Shown(root), "", 0, q))
  {
    var q, full := LowerAll(Trim(query)), FullRows(root);
    hide Trim, Rows, Shown, FilterTree, KeepSet, KeptForItsOwn, Hit, LowerAll;
    FilterCompared(full, Shown(root), "", 0, q);
    if q == [] {
      BlankKeepsAll(full);
    }
  }

  /** A blank query matches every row. */
  lemma BlankKeepsAll(full: seq<TreeRow>)
    ensures Filter(full, RelIn(KeepSet(full, []))) == full
  {
    forall i | 0 <= i < |full| ensures RelIn(KeepSet(full, []))(full[i]) {
      assert Contains(LowerAll(full[i].rel), []) by {
        assert LowerAll(full[i].rel)[0..0] == [];
      }
      assert Leads(full[i].rel, full[i], []);
      hide KeepSet, Hit, Ancestors;
      KeepSetMembers(full, [], full[i].rel);
    }
    hide KeepSet;
    FilterAll(full, RelIn(KeepSet(full, [])));
  }

  // ----- for all queries

  /** An entry's own row, or one below it, is matched. */
  predicate OwnHit(row: TreeRow, below: seq<TreeRow>, q: string) {
    Hit(row, q) || AnyHit(below, q)
  }

  /** Both texts of `s`, asked for as queries, match the entry or something below it. */
  predicate StandsFor(row: TreeRow, below: seq<TreeRow>, s: TreeRow) {
    OwnHit(row, below, LowerAll(Trim(s.name))) && OwnHit(row, below, LowerAll(Trim(s.rel)))
  }

  /** Each entry stands for every row whose path is its own or goes on from it. For
    * the entry's own row and the rows below it that is no condition.
    */
  predicate StandForAll(full: seq<TreeRow>, nodes: seq<Node>, at: string, depth: nat)
    decreases HeightAll(nodes), |nodes|
  {
    nodes == [] || (
      var row, below := RowOf(nodes[0], at, depth), Below(nodes[0], at, depth, {});
      assert nodes[0].Dir? ==> HeightAll(nodes[0].children) < Height(nodes[0]) <= HeightAll(nodes);
      && (forall i :: 0 <= i < |full| && Under(full[i].rel, row.rel) ==> StandsFor(row, below, full[i]))
      && (nodes[0].Dir? ==> StandForAll(full, Shown(nodes[0].children), row.rel + "/", depth + 1))
      && StandForAll(full, nodes[1..], at, depth))
  }

  lemma UnderIsAncestor(a: string, x: string)
    ensures Under(x, a) <==> a == x || a in Ancestors(x)
  {
    if a + "/" <= x {
      AncestorOfBelow(a, x);
    }
    if a in Ancestors(x) {
      var i :| 0 <= i < |x| && x[i] == '/' && a == x[..i];
      assert x[..i + 1] == a + "/";
    }
  }

  lemma HitTransitive(r: TreeRow, t: string, q: string)
    requires Hit(r, t) && Contains(t, q)
    ensures Hit(r, q)
  {
    if Contains(LowerAll(r.name), t) {
      ContainsTransitive(LowerAll(r.name), t, q);
    } else {
      ContainsTransitive(LowerAll(r.rel), t, q);
    }
  }

  lemma OwnHitTransitive(row: TreeRow, below: seq<TreeRow>, t: string, q: string)
    requires OwnHit(row, below, t) && Contains(t, q)
    ensures OwnHit(row, below, q)
  {
    hide Hit, Contains;
    if Hit(row, t) {
      HitTransitive(row, t, q);
    } else {
      var i :| 0 <= i < |below| && Hit(below[i], t);
      HitTransitive(below[i], t, q);
    }
  }

  /** A row that matches a query is found by one of its own texts. */
  lemma StandsForMatch(row: TreeRow, below: seq<TreeRow>, s: TreeRow, query: string)
    requires StandsFor(row, below, s) && Hit(s, LowerAll(Trim(query)))
    ensures OwnHit(row, below, LowerAll(Trim(query)))
  {
    var q := LowerAll(Trim(query));
    hide OwnHit, Contains, LowerAll, Trim;
    if Contains(LowerAll(s.name), q) {
      FoundTrimmed(s.name, query);
      OwnHitTransitive(row, below, LowerAll(Trim(s.name)), q);
    } else {
      FoundTrimmed(s.rel, query);
      OwnHitTransitive(row, below, LowerAll(Trim(s.rel)), q);
    }
  }

  lemma EntryKeptForItsOwn(full: seq<TreeRow>, row: TreeRow, below: seq<TreeRow>, query: string)
    requires forall i :: 0 <= i < |full| && Under(full[i].rel, row.rel) ==> StandsFor(row, below, full[i])
    requires AboveAHit(full, row.rel, LowerAll(Trim(query)))
    ensures OwnHit(row, below, LowerAll(Trim(query)))
  {
    var q := LowerAll(Trim(query));
    hide StandsFor, OwnHit, Under, Ancestors, Hit, LowerAll, Trim;
    var i :| 0 <= i < |full| && Leads(row.rel, full[i], q);
    UnderIsAncestor(row.rel, full[i].rel);
    StandsForMatch(row, below, full[i], query);
  }

  lemma {:induction false} StandingSuffices(full: seq<TreeRow>, nodes: seq<Node>, at: string, depth: nat, query: string)
    requires StandForAll(full, nodes, at, depth)
    ensures KeptForItsOwn(full, nodes, at, depth, LowerAll(Trim(query)))
    decreases HeightAll(nodes), |nodes|
  {
    if nodes != [] {
      var n, q := nodes[0], LowerAll(Trim(query));
      var row, below := RowOf(n, at, depth), Below(n, at, depth, {});
      Smaller(nodes);
      OwnCondition(full, nodes, at, depth, q);
      StandCondition(full, nodes, at, depth);
      StandingSuffices(full, nodes[1..], at, depth, query);
      if n.Dir? {
        StandingSuffices(full, Shown(n.children), RelOf(at, n.name) + "/", depth + 1, query);
      }
      hide StandForAll, KeptForItsOwn, Rows, Shown, HeightAll, Trim, LowerAll, RowOf, AboveAHit, Under, StandsFor;
      if AboveAHit(full, row.rel, q) {
        EntryKeptForItsOwn(full, row, below, query);
      }
    }
  }

  lemma StandCondition(full: seq<TreeRow>, nodes: seq<Node>, at: string, depth: nat)
    requires nodes != []
    ensures StandForAll(full, nodes, at, depth)
       <==> (var row, below := RowOf(nodes[0], at, depth), Below(nodes[0], at, depth, {});
             && (forall i :: 0 <= i < |full| && Under(full[i].rel, row.rel) ==> StandsFor(row, below, full[i]))
             && (nodes[0].Dir? ==> StandForAll(full, Shown(nodes[0].children), RelOf(at, nodes[0].name) + "/", depth + 1))
             && StandForAll(full, nodes[1..], at, depth))
  {
    hide Under, StandsFor, Shown, Rows;
  }

  /** A row is matched by each of its own texts. */
  lemma FoundByItself(s: TreeRow)
    ensures Hit(s, LowerAll(Trim(s.name))) && Hit(s, LowerAll(Trim(s.rel)))
  {
    TrimmedIsFound(s.name);
    TrimmedIsFound(s.rel);
  }

  /** Where an entry does not stand for a row, one of that row's texts is a query for
    * which the entry is kept and should not be.
    */
  lemma KeptForAnother(full: seq<TreeRow>, row: TreeRow, below: seq<TreeRow>, i: nat) returns (query: string)
    requires i < |full| && Under(full[i].rel, row.rel) && !StandsFor(row, below, full[i])
    ensures AboveAHit(full, row.rel, LowerAll(Trim(query))) && !OwnHit(row, below, LowerAll(Trim(query)))
  {
    var s := full[i];
    query := if OwnHit(row, below, LowerAll(Trim(s.name))) then s.rel else s.name;
    hide OwnHit, Under, Ancestors, Hit, LowerAll, Trim;
    FoundByItself(s);
    UnderIsAncestor(row.rel, s.rel);
    assert Leads(row.rel, s, LowerAll(Trim(query)));
  }

  lemma {:induction false} SomeQueryDiffers(full: seq<TreeRow>, nodes: seq<Node>, at: string, depth: nat)
    returns (query: string)
    requires !StandForAll(full, nodes, at, depth)
    ensures !KeptForItsOwn(full, nodes, at, depth, LowerAll(Trim(query)))
    decreases HeightAll(nodes), |nodes|
  {
    var n := nodes[0];
    var row, below := RowOf(n, at, depth), Below(n, at, depth, {});
    Smaller(nodes);
    StandCondition(full, nodes, at, depth);
    if !StandForAll(full, nodes[1..], at, depth) {
      query := SomeQueryDiffers(full, nodes[1..], at, depth);
    } else if n.Dir? && !StandForAll(full, Shown(n.children), RelOf(at, n.name) + "/", depth + 1) {
      query := SomeQueryDiffers(full, Shown(n.children), RelOf(at, n.name) + "/", depth + 1);
    } else {
      var i :| 0 <= i < |full| && Under(full[i].rel, row.rel) && !StandsFor(row, below, full[i]);
      query := KeptForAnother(full, row, below, i);
    }
    OwnCondition(full, nodes, at, depth, LowerAll(Trim(query)));
    hide StandForAll, KeptForItsOwn, Rows, Shown, HeightAll, Trim, LowerAll, RowOf, AboveAHit, Under, StandsFor;
  }

  /** For any tree: the two filters agree for all queries exactly when each entry
    * stands for every row whose path is its own or goes on from it.
    */
  lemma FiltersAgreeExactlyWhen(root: seq<Node>)
    ensures (forall query ::
               FilterView(FullRows(root), query) == FilterTree(Shown(root), "", 0, LowerAll(Trim(query))))
        <==> StandForAll(FullRows(root), Shown(root), "", 0)
  {
    hide FullRows, Shown, FilterTree, FilterView, KeptForItsOwn, StandForAll, LowerAll, Trim;
    var full := FullRows(root);
    if StandForAll(full, Shown(root), "", 0) {
      forall query
        ensures FilterView(full, query) == FilterTree(Shown(root), "", 0, LowerAll(Trim(query))) {
        StandingSuffices(full, Shown(root), "", 0, query);
        FilterExactlyWhen(root, query);
      }
    } else {
      var query := SomeQueryDiffers(full, Shown(root), "", 0);
      FilterExactlyWhen(root, query);
      assert FilterView(full, query) != FilterTree(Shown(root), "", 0, LowerAll(Trim(query)));
    }
  }

  // ----- an empty directory beside a file with a backslash in its name

  const EMPTY_DIR := Dir("a", [])

  const STRANGER := File("a\\b")

  /** The directory is kept for a file that is not in it. */
  lemma FilterKeepsAStranger()
    ensures var root := [EMPTY_DIR, STRANGER];
            && FilterView(FullRows(root), "b") == [TreeRow(0, true, "a", "a"), TreeRow(0, false, "a/b", "a\\b")]
            && FilterTree(Shown(root), "", 0, "b") == [TreeRow(0, false, "a/b", "a\\b")]
  {
    var root, rows := [EMPTY_DIR, STRANGER], [TreeRow(0, true, "a", "a"), TreeRow(0, false, "a/b", "a\\b")];
    StrangerShown();
    StrangerRows();
    hide Shown, FilterTree, Rows;
    StrangerKept(rows);
    StrangerWanted();
  }

  lemma StrangerWanted()
    ensures FilterTree([EMPTY_DIR, STRANGER], "", 0, "b") == [TreeRow(0, false, "a/b", "a\\b")]
  {
    StrangerShown();
    StrangerRows();
    StrangerHits();
    assert FilterTree([], "a/", 1, "b") == [] && FilterTree([], "", 0, "b") == [];
    assert RelOf("", "a") == "a" by { assert RowOf(EMPTY_DIR, "", 0).rel == "a"; }
    hide Shown, FilterTree, Rows, RowOf, Hit, RelOf;
    FilterTreeParts([EMPTY_DIR, STRANGER], "", 0, "b");
    FilterTreeParts([STRANGER], "", 0, "b");
    assert [EMPTY_DIR, STRANGER][1..] == [STRANGER] && [STRANGER][1..] == [];
  }

  lemma StrangerKept(rows: seq<TreeRow>)
    requires rows == [TreeRow(0, true, "a", "a"), TreeRow(0, false, "a/b", "a\\b")]
    ensures FilterView(rows, "b") == rows
  {
    QueryB();
    hide *;
    StrangerLeads(rows);
    FilterAll(rows, RelIn(KeepSet(rows, "b")));
    ViewOfQuery(rows, "b");
  }

  lemma QueryB()
    ensures Trim("b") == "b" && LowerAll("b") == "b"
  {
    NoSpace('b');
    NoUpper("b");
    hide *;
    NothingToTrim("b");
  }

  lemma NoSpace(c: char)
    requires 'a' <= c <= 'z'
    ensures !IsWhitespace(c)
  {
  }

  lemma NoUpper(s: string)
    requires forall i :: 0 <= i < |s| ==> 'a' <= s[i] <= 'z'
    ensures LowerAll(s) == s
  {
    assert forall i :: 0 <= i < |s| ==> LowerAll(s)[i] == s[i];
  }

  lemma NothingToTrim(s: string)
    requires s != [] && !IsWhitespace(s[0]) && !IsWhitespace(s[|s| - 1])
    ensures Trim(s) == s
  {
    hide IsWhitespace;
    assert TrimStart(s) == s;
  }

  lemma ViewOfQuery(rows: seq<TreeRow>, q: string)
    requires LowerAll(Trim(q)) == q != []
    ensures FilterView(rows, q) == Filter(rows, RelIn(KeepSet(rows, q)))
  {
  }

  lemma StrangerLeads(rows: seq<TreeRow>)
    requires rows == [TreeRow(0, true, "a", "a"), TreeRow(0, false, "a/b", "a\\b")]
    ensures forall i :: 0 <= i < |rows| ==> RelIn(KeepSet(rows, "b"))(rows[i])
  {
    StrangerHits();
    AncestorOfBelow("a", "a/b");
    hide Hit, Ancestors, KeepSet;
    assert Leads("a", rows[1], "b") && Leads("a/b", rows[1], "b");
    hide *;
    KeepSetMembers(rows, "b", "a");
    KeepSetMembers(rows, "b", "a/b");
    RelInMeans(KeepSet(rows, "b"), rows[0]);
    RelInMeans(KeepSet(rows, "b"), rows[1]);
  }

  lemma RelInMeans(keep: set<string>, r: TreeRow)
    ensures RelIn(keep)(r) <==> r.rel in keep
  {
  }

  lemma StrangerShown()
    ensures Shown([EMPTY_DIR, STRANGER]) == [EMPTY_DIR, STRANGER] && Shown([]) == []
  {
    assert IsShownDir(EMPTY_DIR) && !IsFile(EMPTY_DIR) && !IsShownDir(STRANGER) && IsFile(STRANGER);
    SortOne(EMPTY_DIR);
    SortOne(STRANGER);
    FilterNone([], IsShownDir);
    FilterNone([], IsFile);
    assert Sort([], NameLe) == [];
    hide Sort, Filter, IsShownDir, IsFile;
    FilterOfTwo(EMPTY_DIR, STRANGER, IsShownDir);
    FilterOfTwo(EMPTY_DIR, STRANGER, IsFile);
  }

  lemma FilterOfTwo(x: Node, y: Node, keep: Node -> bool)
    ensures Filter([x, y], keep) == (if keep(x) then [x] else []) + (if keep(y) then [y] else [])
  {
    assert [x, y][1..] == [y] && [y][1..] == [];
    assert Filter([y], keep) == if keep(y) then [y] else [];
  }

  lemma SortOne(n: Node)
    ensures Sort([n], NameLe) == [n]
  {
    assert [n][1..] == [];
  }

  lemma StrangerRows()
    ensures RowOf(EMPTY_DIR, "", 0) == TreeRow(0, true, "a", "a")
    ensures RowOf(STRANGER, "", 0) == TreeRow(0, false, "a/b", "a\\b")
    ensures Below(EMPTY_DIR, "", 0, {}) == []
    ensures Rows([EMPTY_DIR, STRANGER], "", 0, {}) == [TreeRow(0, true, "a", "a"), TreeRow(0, false, "a/b", "a\\b")]
  {
    var root := [EMPTY_DIR, STRANGER];
    StrangerShown();
    assert Slashes("a") == "a" && Slashes("a\\b") == "a/b";
    hide Shown, Slashes;
    assert Below(EMPTY_DIR, "", 0, {}) == Rows([], "a/", 1, {}) == [];
    RowsParts(root, "", 0, {});
    RowsParts([STRANGER], "", 0, {});
    assert Rows([], "", 0, {}) == [];
    hide Rows, Below;
    assert root[1..] == [STRANGER] && [STRANGER][1..] == [];
  }

  lemma StrangerHits()
    ensures !Hit(TreeRow(0, true, "a", "a"), "b") && Hit(TreeRow(0, false, "a/b", "a\\b"), "b")
  {
    assert LowerAll("a") == "a" && LowerAll("a/b") == "a/b";
    assert !Contains("a", "b") by {
      assert "a"[1..] == "" && !Contains("", "b") && "a"[0] != "b"[0];
    }
    assert Contains("a/b", "b") by {
      assert "a/b"[1..] == "/b" && "/b"[1..] == "b" && Contains("b", "b");
    }
    hide Contains, LowerAll;
  }
}
