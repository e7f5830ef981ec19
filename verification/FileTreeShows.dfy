/** The views of the explorer on the names and paths of their rows. */
module FileTreeShows {
  import opened OrderedSort
  import opened TextTrim
  import opened FileTree
  import opened FileTreeViews
  import opened FileTreeFilter

  // ----- one directory

  const BUILD_AND_CACHE := {"target", ".git", "node_modules", "__pycache__", ".smart-coder", ".pytest_cache", "screenshots",
                            "dist", "build", "Library", "Temp", "obj", "Logs", "UserSettings", "Builds"}

  /** Hidden directories are noise, and so is what building leaves behind. */
  lemma NoiseExactly(name: string)
    ensures IsNoiseDir(name) <==> ("." <= name && name != ".") || name in BUILD_AND_CACHE
  {
  }

  /** Directories come before files and each are in alphabetical order, whatever the
    * case; the directories that are no noise are there, and the files.
    */
  lemma EntriesInOrder(children: seq<Node>) returns (k: nat)
    ensures var r := Shown(children);
            && k <= |r|
            && (forall i :: 0 <= i < k ==> r[i].Dir? && !IsNoiseDir(r[i].name))
            && (forall i :: k <= i < |r| ==> r[i].File?)
            && (forall i, j :: 0 <= i < j < |r| && (j < k || k <= i) ==> TextLe(LowerAll(r[i].name), LowerAll(r[j].name)))
            && (forall n :: n in r <==> n in children && (n.File? || (n.Dir? && !IsNoiseDir(n.name))))
  {
    ArrangedMembers(children);
    var dirs, files := Filter(children, IsShownDir), Filter(children, IsFile);
    k := |dirs|;
    hide *;
    GroupInOrder(dirs);
    GroupInOrder(files);
    ShownIs(children);
    KindOfMembers(children);
  }

  lemma GroupInOrder(group: seq<Node>)
    ensures var r := Sort(group, NameLe);
            && |r| == |group| && (forall n :: n in r <==> n in group)
            && forall i, j :: 0 <= i < j < |r| ==> TextLe(LowerAll(r[i].name), LowerAll(r[j].name))
  {
    NameOrder();
    SortSorts(group, NameLe);
    SortPermutes(group, NameLe);
    SortMembers(group, NameLe);
    hide Sort, TextLe, LowerAll;
    var r := Sort(group, NameLe);
    assert |multiset(r)| == |r|;
    forall i, j | 0 <= i < j < |r| ensures TextLe(LowerAll(r[i].name), LowerAll(r[j].name)) {
      assert NameLe(r[i], r[j]);
    }
  }

  lemma ShownIs(children: seq<Node>)
    ensures Shown(children) == Sort(Filter(children, IsShownDir), NameLe) + Sort(Filter(children, IsFile), NameLe)
    ensures forall n :: n in Shown(children) <==> n in Arranged(children)
  {
    hide Sort, Filter;
  }

  lemma KindOfMembers(children: seq<Node>)
    ensures forall n :: n in Filter(children, IsShownDir) ==> n.Dir? && !IsNoiseDir(n.name)
    ensures forall n :: n in Filter(children, IsFile) ==> n.File?
    ensures forall n :: IsFile(n) || IsShownDir(n) <==> n.File? || (n.Dir? && !IsNoiseDir(n.name))
  {
  }

  // ----- the rows of a filtered list

  lemma PickedSnoc<T>(at: seq<nat>, xs: seq<T>, ys: seq<T>, x: T)
    requires PickedAt(ys, xs, at)
    ensures PickedAt(ys, xs + [x], at)
    ensures PickedAt(ys + [x], xs + [x], at + [|xs|])
  {
  }

  lemma {:induction false} FilterPicks<T(!new)>(xs: seq<T>, keep: T -> bool) returns (at: seq<nat>)
    ensures PickedAt(Filter(xs, keep), xs, at)
    ensures forall j: nat :: j in at <==> j < |xs| && keep(xs[j])
  {
    if xs == [] {
      at := [];
    } else {
      var init, last := xs[..|xs| - 1], xs[|xs| - 1];
      var before := FilterPicks(init, keep);
      hide PickedAt, Filter;
      assert xs == init + [last];
      FilterSnoc(init, last, keep);
      PickedSnoc(before, init, Filter(init, keep), last);
      at := if keep(last) then before + [|init|] else before;
      assert forall j: nat :: j < |init| ==> xs[j] == init[j];
    }
  }

  // ----- collapsing

  /** Some directory on the way to the path is collapsed. */
  ghost predicate BelowOneOf(rel: string, collapsed: set<string>) {
    exists c :: c in collapsed && c + "/" <= rel
  }

  lemma AncestorsArePrefixes(rel: string, a: string)
    ensures a in Ancestors(rel) <==> a + "/" <= rel
  {
    if a in Ancestors(rel) {
      var i :| 0 <= i < |rel| && rel[i] == '/' && a == rel[..i];
      assert rel[..i + 1] == a + "/";
    }
    if a + "/" <= rel {
      assert rel[|a|] == (a + "/")[|a|];
      assert rel[..|a|] == (a + "/")[..|a|] == a;
    }
  }

  /** The rows left in a collapsed view are those with no collapsed directory above them. */
  lemma CollapseExactly(full: seq<TreeRow>, collapsed: set<string>) returns (at: seq<nat>)
    ensures PickedAt(CollapseView(full, collapsed), full, at)
    ensures forall j: nat :: j in at <==> j < |full| && !BelowOneOf(full[j].rel, collapsed)
  {
    at := FilterPicks(full, Visible(collapsed));
    hide Ancestors, PickedAt;
    forall rel, a ensures a in Ancestors(rel) <==> a + "/" <= rel {
      AncestorsArePrefixes(rel, a);
    }
  }

  // ----- filtering

  /** The query, without white space around it, is in the name or in the path,
    * whatever the case.
    */
  ghost predicate Found(row: TreeRow, query: string) {
    var q := LowerAll(Trim(query));
    || (exists i :: OccursAt(LowerAll(row.name), q, i))
    || (exists i :: OccursAt(LowerAll(row.rel), q, i))
  }

  /** A match has the row's path or one below it. */
  ghost predicate KeptFor(full: seq<TreeRow>, rel: string, query: string) {
    exists j :: 0 <= j < |full| && Found(full[j], query) && (full[j].rel == rel || rel + "/" <= full[j].rel)
  }

  lemma FoundIsHit(row: TreeRow, query: string)
    ensures Found(row, query) <==> Hit(row, LowerAll(Trim(query)))
  {
    ContainsMeans(LowerAll(row.name), LowerAll(Trim(query)));
    ContainsMeans(LowerAll(row.rel), LowerAll(Trim(query)));
    hide LowerAll, Trim, Contains;
  }

  lemma KeptIs(full: seq<TreeRow>, rel: string, query: string)
    ensures rel in KeepSet(full, LowerAll(Trim(query))) <==> KeptFor(full, rel, query)
  {
    var q := LowerAll(Trim(query));
    KeepSetMembers(full, q, rel);
    hide LowerAll, Trim, KeepSet;
    forall j | 0 <= j < |full|
      ensures Leads(rel, full[j], q) <==> Found(full[j], query) && (full[j].rel == rel || rel + "/" <= full[j].rel)
    {
      FoundIsHit(full[j], query);
      AncestorsArePrefixes(full[j].rel, rel);
    }
    hide Leads, Found;
  }

  /** The rows left in a filtered view are the matches and what is above them; a blank
    * query leaves all.
    */
  lemma FilterExactly(full: seq<TreeRow>, query: string) returns (at: seq<nat>)
    ensures PickedAt(FilterView(full, query), full, at)
    ensures forall j: nat :: j in at <==> j < |full| && (Trim(query) == "" || KeptFor(full, full[j].rel, query))
  {
    var q := LowerAll(Trim(query));
    assert q == "" <==> Trim(query) == "";
    hide LowerAll, Trim, KeptFor, KeepSet, PickedAt;
    if q == "" {
      at := FilterPicks(full, r => true);
      FilterAll(full, r => true);
    } else {
      at := FilterPicks(full, RelIn(KeepSet(full, q)));
      forall j: nat | j < |full| ensures full[j].rel in KeepSet(full, q) <==> KeptFor(full, full[j].rel, query) {
        KeptIs(full, full[j].rel, query);
      }
    }
  }
}
