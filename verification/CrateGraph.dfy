/** The crate graph of a workspace, and which crates one links. */
module CrateGraph {
  import opened Basics
  import opened NameLists
  import opened OrderedSort

  datatype DepKind = Normal | Dev | Build

  datatype Dep = Dep(name: string, internal: bool, kind: DepKind)

  datatype Package = Package(name: string, deps: seq<Dep>)

  datatype Graph = Graph(packages: seq<Package>)

  // ----- loading

  function NamesOf(packages: seq<Package>): seq<string> {
    seq(|packages|, i requires 0 <= i < |packages| => packages[i].name)
  }

  function ClassifiedDep(d: Dep, names: seq<string>): Dep {
    d.(internal := d.name in names)
  }

  function Classified(p: Package, names: seq<string>): Package {
    p.(deps := seq(|p.deps|, i requires 0 <= i < |p.deps| => ClassifiedDep(p.deps[i], names)))
  }

  /** The dependencies of one package, each marked in turn. */
  method Classify(p: Package, names: seq<string>) returns (r: Package)
    ensures r == Classified(p, names)
  {
    var deps := p.deps;
    for i := 0 to |deps|
      invariant |deps| == |p.deps|
      invariant forall j :: 0 <= j < |deps| ==> deps[j] == if j < i then ClassifiedDep(p.deps[j], names) else p.deps[j]
    {
      var isMember := deps[i].name in names;
      deps := deps[i := deps[i].(internal := isMember)];
    }
    r := p.(deps := deps);
  }

  /** The second pass over the members: every name is there to compare with. */
  method Load(read: seq<Package>) returns (g: Graph)
    ensures |g.packages| == |read|
    ensures forall i :: 0 <= i < |read| ==> g.packages[i] == Classified(read[i], NamesOf(read))
  {
    hide Classified;
    var packages := read;
    var names := NamesOf(read);
    for i := 0 to |packages|
      invariant |packages| == |read|
      invariant forall j :: 0 <= j < |packages| ==> packages[j] == if j < i then Classified(read[j], names) else read[j]
    {
      var p := Classify(packages[i], names);
      packages := packages[i := p];
    }
    g := Graph(packages);
  }

  // ----- edges and paths

  /** One crate by name: the first that has it. */
  function Get(packages: seq<Package>, name: string): Option<Package>
    decreases |packages|
  {
    if packages == [] then None
    else if packages[0].name == name then Some(packages[0])
    else Get(packages[1..], name)
  }

  predicate IsLink(d: Dep) { d.kind == Normal && d.internal }

  /** The crates a crate links directly, in order. */
  function Links(deps: seq<Dep>): seq<string> {
    if deps == [] then []
    else if IsLink(deps[0]) then [deps[0].name] + Links(deps[1..])
    else Links(deps[1..])
  }

  function Next(g: Graph, name: string): seq<string> {
    match Get(g.packages, name)
    case None => []
    case Some(p) => Links(p.deps)
  }

  /** The package at `i` is the first of its name. */
  predicate IsFirst(packages: seq<Package>, i: nat)
    requires i < |packages|
  {
    forall k :: 0 <= k < i ==> packages[k].name != packages[i].name
  }

  /** The first package named `a` has a normal dependency on the member `b`. */
  ghost predicate IsEdge(g: Graph, a: string, b: string) {
    exists i: nat, j: nat :: i < |g.packages| && j < |g.packages[i].deps|
      && g.packages[i].name == a && IsFirst(g.packages, i)
      && g.packages[i].deps[j].name == b && g.packages[i].deps[j].kind == Normal && g.packages[i].deps[j].internal
  }

  lemma {:induction false} LinksAreDeps(deps: seq<Dep>, n: string)
    ensures n in Links(deps) <==> exists j :: 0 <= j < |deps| && deps[j].name == n && deps[j].kind == Normal && deps[j].internal
  {
    if deps != [] {
      var rest := deps[1..];
      LinksAreDeps(rest, n);
      if j :| 0 <= j < |rest| && rest[j].name == n && rest[j].kind == Normal && rest[j].internal {
        assert deps[j + 1] == rest[j];
      }
      if j :| 0 < j < |deps| && deps[j].name == n && deps[j].kind == Normal && deps[j].internal {
        assert deps[j] == rest[j - 1];
      }
    }
  }

  lemma {:induction false} GetFinds(packages: seq<Package>, name: string)
    ensures match Get(packages, name)
            case None => forall i :: 0 <= i < |packages| ==> packages[i].name != name
            case Some(p) => exists i :: 0 <= i < |packages| && packages[i] == p && p.name == name && IsFirst(packages, i)
    decreases |packages|
  {
    if packages != [] && packages[0].name != name {
      var rest := packages[1..];
      GetFinds(rest, name);
      assert forall i :: 0 < i < |packages| ==> packages[i] == rest[i - 1];
      if Get(rest, name).Some? {
        var i :| 0 <= i < |rest| && rest[i] == Get(rest, name).value && rest[i].name == name && IsFirst(rest, i);
        assert packages[i + 1] == rest[i] && IsFirst(packages, i + 1);
      }
    }
  }

  /** What the walk follows from a crate are its edges. */
  lemma NextAreEdges(g: Graph, a: string, b: string)
    ensures b in Next(g, a) <==> IsEdge(g, a, b)
  {
    hide Get, Links;
    GetFinds(g.packages, a);
    if Get(g.packages, a).Some? {
      var p := Get(g.packages, a).value;
      var i: nat :| i < |g.packages| && g.packages[i] == p && p.name == a && IsFirst(g.packages, i);
      LinksAreDeps(p.deps, b);
      assert forall k: nat :: k < |g.packages| && g.packages[k].name == a && IsFirst(g.packages, k) ==> k == i;
      if b in Links(p.deps) {
        var j: nat :| j < |p.deps| && p.deps[j].name == b && p.deps[j].kind == Normal && p.deps[j].internal;
        assert g.packages[i].deps[j] == p.deps[j];
      }
    }
  }

  ghost predicate IsPath(g: Graph, path: seq<string>) {
    forall i :: 0 < i < |path| ==> IsEdge(g, path[i - 1], path[i])
  }

  /** Some chain of at least one link leads from `a` to `b`. */
  ghost predicate Reachable(g: Graph, a: string, b: string) {
    exists path :: |path| >= 2 && path[0] == a && path[|path| - 1] == b && IsPath(g, path)
  }

  lemma OneLink(g: Graph, a: string, b: string)
    requires IsEdge(g, a, b)
    ensures Reachable(g, a, b)
  {
    hide IsEdge;
    assert IsPath(g, [a, b]);
  }

  lemma OneMoreLink(g: Graph, a: string, b: string, c: string)
    requires Reachable(g, a, b) && IsEdge(g, b, c)
    ensures Reachable(g, a, c)
  {
    hide IsEdge;
    var path :| |path| >= 2 && path[0] == a && path[|path| - 1] == b && IsPath(g, path);
    var longer := path + [c];
    forall i | 0 < i < |longer| ensures IsEdge(g, longer[i - 1], longer[i]) {
      assert i < |path| ==> longer[i] == path[i];
    }
    assert IsPath(g, longer);
  }

  /** A set that contains what its members link contains what they reach. */
  lemma {:induction false} ClosedContains(g: Graph, closed: set<string>, path: seq<string>)
    requires |path| >= 2 && IsPath(g, path)
    requires forall y :: IsEdge(g, path[0], y) ==> y in closed
    requires forall x, y :: x in closed && IsEdge(g, x, y) ==> y in closed
    ensures path[|path| - 1] in closed
  {
    hide IsEdge;
    var init := path[..|path| - 1];
    assert IsEdge(g, path[|path| - 2], path[|path| - 1]);
    if |path| > 2 {
      assert forall i :: 0 <= i < |init| ==> init[i] == path[i];
      ClosedContains(g, closed, init);
    }
  }

  /** Internal means: the name of a member. */
  predicate WellMarked(g: Graph) {
    forall i, j :: 0 <= i < |g.packages| && 0 <= j < |g.packages[i].deps| ==>
      g.packages[i].deps[j].internal == (g.packages[i].deps[j].name in NamesOf(g.packages))
  }

  lemma LoadedIsMarked(read: seq<Package>, g: Graph)
    requires |g.packages| == |read|
    requires forall i :: 0 <= i < |read| ==> g.packages[i] == Classified(read[i], NamesOf(read))
    ensures WellMarked(g) && NamesOf(g.packages) == NamesOf(read)
  {
    var names := NamesOf(read);
    forall i | 0 <= i < |read| ensures g.packages[i].name == names[i] {
      assert g.packages[i] == Classified(read[i], names);
    }
    assert NamesOf(g.packages) == names;
    forall i, j | 0 <= i < |read| && 0 <= j < |g.packages[i].deps|
      ensures g.packages[i].deps[j].internal == (g.packages[i].deps[j].name in names)
    {
      assert g.packages[i] == Classified(read[i], names);
      assert g.packages[i].deps[j] == ClassifiedDep(read[i].deps[j], names);
    }
  }

  /** In a loaded graph every crate reached is a member of the workspace. */
  lemma LinksStayInside(g: Graph, a: string, b: string)
    requires WellMarked(g) && Reachable(g, a, b)
    ensures b in NamesOf(g.packages)
  {
    var path :| |path| >= 2 && path[0] == a && path[|path| - 1] == b && IsPath(g, path);
    assert IsEdge(g, path[|path| - 2], b);
  }

  // ----- the closure

  function DepNames(packages: seq<Package>): set<string> {
    set i, j | 0 <= i < |packages| && 0 <= j < |packages[i].deps| :: packages[i].deps[j].name
  }

  lemma NextIsKnown(g: Graph, a: string, n: string)
    requires n in Next(g, a)
    ensures n in DepNames(g.packages)
  {
    NextAreEdges(g, a, n);
  }

  /** All links of a crate are listed. */
  predicate Expanded(g: Graph, x: string, seen: seq<string>) {
    forall y :: y in Next(g, x) ==> y in seen
  }

  lemma ExpandedMore(g: Graph, x: string, seen: seq<string>, n: string)
    requires Expanded(g, x, seen)
    ensures Expanded(g, x, seen + [n])
  {
    hide Next;
  }

  /** What the worklist has established: nothing listed twice, everything listed
    * is reachable, and only what still waits has unlisted links.
    */
  ghost predicate Exploring(g: Graph, name: string, seen: seq<string>, queue: seq<string>) {
    && NoDuplicates(seen)
    && (forall x :: x in seen ==> Reachable(g, name, x) && x in DepNames(g.packages))
    && (forall x :: x in queue ==> x in seen || x == name)
    && (forall x :: (x in seen || x == name) && x !in queue ==> Expanded(g, x, seen))
  }

  /** In the middle of one crate's links: those before `i` are listed. */
  ghost predicate Listing(g: Graph, name: string, current: string, i: nat, seen: seq<string>, queue: seq<string>) {
    && (current in seen || current == name)
    && i <= |Next(g, current)|
    && (forall k :: 0 <= k < i ==> Next(g, current)[k] in seen)
    && Exploring(g, name, seen, queue + [current])
  }

  lemma StartListing(g: Graph, name: string, seen: seq<string>, queue: seq<string>)
    requires queue != [] && Exploring(g, name, seen, queue)
    ensures Listing(g, name, queue[|queue| - 1], 0, seen, queue[..|queue| - 1])
  {
    hide Next, Reachable, DepNames, NoDuplicates;
    assert queue[..|queue| - 1] + [queue[|queue| - 1]] == queue;
  }

  lemma LinkReached(g: Graph, name: string, current: string, n: string)
    requires (current == name || Reachable(g, name, current)) && n in Next(g, current)
    ensures Reachable(g, name, n) && n in DepNames(g.packages)
  {
    NextIsKnown(g, current, n);
    NextAreEdges(g, current, n);
    hide Next, DepNames, Reachable, IsEdge;
    if current == name {
      OneLink(g, name, n);
    } else {
      OneMoreLink(g, name, current, n);
    }
  }

  lemma ListNew(g: Graph, name: string, current: string, i: nat, seen: seq<string>, queue: seq<string>)
    requires Listing(g, name, current, i, seen, queue) && i < |Next(g, current)| && Next(g, current)[i] !in seen
    ensures var n := Next(g, current)[i];
            Listing(g, name, current, i + 1, seen + [n], queue + [n])
  {
    var n := Next(g, current)[i];
    LinkReached(g, name, current, n);
    AddFresh(seen, n);
    hide Next, Reachable, DepNames, NoDuplicates, Expanded, Exploring;
    ExploringMore(g, name, seen, queue + [current], n, queue + [n] + [current]);
  }

  /** A new crate to look at, wherever it is put in the queue. */
  lemma ExploringMore(g: Graph, name: string, seen: seq<string>, queue: seq<string>, n: string, queue': seq<string>)
    requires Exploring(g, name, seen, queue)
    requires forall x :: x in queue' <==> x in queue || x == n
    requires Reachable(g, name, n) && n in DepNames(g.packages) && NoDuplicates(seen + [n])
    ensures Exploring(g, name, seen + [n], queue')
  {
    hide Next, Reachable, DepNames, NoDuplicates, Expanded;
    var seen' := seen + [n];
    forall x | (x in seen' || x == name) && x !in queue' ensures Expanded(g, x, seen') {
      assert x != n && x !in queue;
      ExpandedMore(g, x, seen, n);
    }
  }

  lemma ListOld(g: Graph, name: string, current: string, i: nat, seen: seq<string>, queue: seq<string>)
    requires Listing(g, name, current, i, seen, queue) && i < |Next(g, current)| && Next(g, current)[i] in seen
    ensures Listing(g, name, current, i + 1, seen, queue)
  {
    hide Next, Reachable, DepNames, NoDuplicates;
  }

  lemma EndListing(g: Graph, name: string, current: string, seen: seq<string>, queue: seq<string>)
    requires Listing(g, name, current, |Next(g, current)|, seen, queue)
    ensures Exploring(g, name, seen, queue)
  {
    hide Next, Reachable, DepNames, NoDuplicates;
    forall y | y in Next(g, current) ensures y in seen {
      var k :| 0 <= k < |Next(g, current)| && Next(g, current)[k] == y;
    }
  }

  function Unseen(g: Graph, seen: seq<string>): nat {
    |DepNames(g.packages) - (set x | x in seen)|
  }

  lemma SeenGrows(g: Graph, seen: seq<string>, n: string)
    requires n in DepNames(g.packages) && n !in seen
    ensures Unseen(g, seen + [n]) < Unseen(g, seen)
  {
    var all := DepNames(g.packages);
    var before, after := set x | x in seen, set x | x in seen + [n];
    assert all - after == (all - before) - {n};
  }

  /** The links of one crate, each listed and queued if it is new. */
  method ListLinks(g: Graph, name: string, current: string, seen: seq<string>, queue: seq<string>)
    returns (seen': seq<string>, queue': seq<string>)
    requires Listing(g, name, current, 0, seen, queue)
    ensures Exploring(g, name, seen', queue')
    ensures Unseen(g, seen') < Unseen(g, seen) || (seen' == seen && queue' == queue)
  {
    hide *;
    seen', queue' := seen, queue;
    var next := Next(g, current);
    for i := 0 to |next|
      invariant Listing(g, name, current, i, seen', queue')
      invariant Unseen(g, seen') < Unseen(g, seen) || (seen' == seen && queue' == queue)
    {
      var n := next[i];
      if n !in seen' {
        NextIsKnown(g, current, n);
        SeenGrows(g, seen', n);
        ListNew(g, name, current, i, seen', queue');
        seen', queue' := seen' + [n], queue' + [n];
      } else {
        ListOld(g, name, current, i, seen', queue');
      }
    }
    EndListing(g, name, current, seen', queue');
  }

  lemma Explored(g: Graph, name: string, seen: seq<string>, b: string)
    requires Exploring(g, name, seen, [])
    ensures b in seen <==> Reachable(g, name, b)
  {
    hide Next, DepNames, NoDuplicates;
    if Reachable(g, name, b) {
      var path :| |path| >= 2 && path[0] == name && path[|path| - 1] == b && IsPath(g, path);
      assert Expanded(g, path[0], seen) && forall x :: x in seen ==> Expanded(g, x, seen);
      forall x, y | IsEdge(g, x, y) ensures y in Next(g, x) {
        NextAreEdges(g, x, y);
      }
      hide Reachable, IsPath, IsEdge;
      ClosedContains(g, (set x | x in seen), path);
    }
  }

  lemma StartExploring(g: Graph, name: string)
    ensures Exploring(g, name, [], [name])
  {
  }

  function Others(name: string): string -> bool { (n: string) => n != name }

  /** Every crate one links, directly or not: reachable through normal internal
    * dependencies, without itself, sorted, each once. Ends on cyclic graphs too.
    */
  method Transitive(g: Graph, name: string) returns (r: seq<string>)
    ensures StrictlySorted(r)
    ensures forall b :: b in r <==> b != name && Reachable(g, name, b)
  {
    var seen, queue := [], [name];
    StartExploring(g, name);
    while queue != []
      invariant Exploring(g, name, seen, queue)
      decreases Unseen(g, seen), |queue|
    {
      hide *;
      var current := queue[|queue| - 1];
      StartListing(g, name, seen, queue);
      seen, queue := ListLinks(g, name, current, seen, queue[..|queue| - 1]);
    }
    var kept := Filter(seen, Others(name));
    FilterNoDuplicates(seen, Others(name));
    SortStrict(kept);
    SortMembers(kept, TextLe);
    r := Sort(kept, TextLe);
    forall b ensures b in r <==> b != name && Reachable(g, name, b) {
      Explored(g, name, seen, b);
    }
  }
}
