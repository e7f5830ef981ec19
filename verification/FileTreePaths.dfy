/** The rows of a tree, entry by entry: which entries have one, in what order, and
  * what it says.
  */
module FileTreePaths {
  import opened Basics
  import opened FileTree
  import opened FileTreeViews

  /** An entry by its place in each directory on the way to it. */
  type Place = seq<nat>

  function EntryAt(nodes: seq<Node>, p: Place): Option<Node>
    decreases |p|
  {
    if p == [] || p[0] >= |nodes| then None
    else if |p| == 1 then Some(nodes[p[0]])
    else if nodes[p[0]].Dir? then EntryAt(Shown(nodes[p[0]].children), p[1..])
    else None
  }

  /** The names on the way to an entry, its own included, apart by slashes. */
  function PathOf(nodes: seq<Node>, p: Place): string
    requires EntryAt(nodes, p).Some?
    decreases |p|
  {
    var name := Slashes(nodes[p[0]].name);
    if |p| == 1 then name else name + "/" + PathOf(Shown(nodes[p[0]].children), p[1..])
  }

  /** No directory on the way is collapsed. */
  predicate IsOpen(nodes: seq<Node>, p: Place, at: string, collapsed: set<string>)
    requires EntryAt(nodes, p).Some?
    decreases |p|
  {
    |p| == 1 || (
      var rel := at + Slashes(nodes[p[0]].name);
      rel !in collapsed && IsOpen(Shown(nodes[p[0]].children), p[1..], rel + "/", collapsed))
  }

  predicate HasRow(nodes: seq<Node>, p: Place, at: string, collapsed: set<string>) {
    EntryAt(nodes, p).Some? && IsOpen(nodes, p, at, collapsed)
  }

  /** As deep as there are directories above it, of its own kind and name. */
  function RowAt(nodes: seq<Node>, p: Place, at: string, depth: nat): TreeRow
    requires EntryAt(nodes, p).Some?
  {
    var n := EntryAt(nodes, p).value;
    TreeRow(depth + |p| - 1, n.Dir?, at + PathOf(nodes, p), n.name)
  }

  /** A directory before what is in it, and earlier entries before later ones. */
  predicate Before(p: Place, q: Place)
    decreases |p|
  {
    q != [] && (p == [] || p[0] < q[0] || (p[0] == q[0] && Before(p[1..], q[1..])))
  }

  // ----- the places of the rows

  function Within(ps: seq<Place>): seq<Place> {
    seq(|ps|, i requires 0 <= i < |ps| => [0] + ps[i])
  }

  function Shift(p: Place): Place
    requires p != []
  {
    [p[0] + 1] + p[1..]
  }

  predicate Proper(ps: seq<Place>) {
    forall i :: 0 <= i < |ps| ==> ps[i] != []
  }

  function Later(ps: seq<Place>): (r: seq<Place>)
    requires Proper(ps)
    ensures Proper(r)
  {
    seq(|ps|, i requires 0 <= i < |ps| => Shift(ps[i]))
  }

  /** The places with a row, in the order of the walk. */
  function Places(nodes: seq<Node>, at: string, collapsed: set<string>): (r: seq<Place>)
    ensures Proper(r)
    decreases HeightAll(nodes), |nodes|
  {
    if nodes == [] then [] else
      var rel := RelOf(at, nodes[0].name);
      Smaller(nodes);
      var inner := if nodes[0].Dir? && rel !in collapsed
                   then Places(Shown(nodes[0].children), rel + "/", collapsed) else [];
      [[0]] + Within(inner) + Later(Places(nodes[1..], at, collapsed))
  }

  lemma WithinEntry(nodes: seq<Node>, p: Place, at: string, depth: nat, collapsed: set<string>)
    requires nodes != [] && nodes[0].Dir? && p != []
    ensures var inner, rel := Shown(nodes[0].children), RelOf(at, nodes[0].name);
            && (HasRow(nodes, [0] + p, at, collapsed) <==> rel !in collapsed && HasRow(inner, p, rel + "/", collapsed))
            && (EntryAt(inner, p).Some? ==>
                  EntryAt(nodes, [0] + p).Some? && RowAt(nodes, [0] + p, at, depth) == RowAt(inner, p, rel + "/", depth + 1))
  {
    var inner, rel := Shown(nodes[0].children), RelOf(at, nodes[0].name);
    EntryWithin(nodes, p);
    hide EntryAt, Shown, Slashes;
    if EntryAt(inner, p).Some? {
      OpenWithin(nodes, p, at, collapsed);
      PathWithin(nodes, p);
      hide IsOpen, PathOf;
      assert at + (Slashes(nodes[0].name) + "/" + PathOf(inner, p)) == rel + "/" + PathOf(inner, p);
    }
  }

  lemma EntryWithin(nodes: seq<Node>, p: Place)
    requires nodes != [] && nodes[0].Dir? && p != []
    ensures EntryAt(nodes, [0] + p) == EntryAt(Shown(nodes[0].children), p)
  {
    hide Shown;
    assert ([0] + p)[1..] == p && ([0] + p)[0] == 0;
  }

  lemma OpenWithin(nodes: seq<Node>, p: Place, at: string, collapsed: set<string>)
    requires nodes != [] && nodes[0].Dir? && p != [] && EntryAt(Shown(nodes[0].children), p).Some?
    ensures EntryAt(nodes, [0] + p).Some?
    ensures var rel := RelOf(at, nodes[0].name);
            IsOpen(nodes, [0] + p, at, collapsed)
            <==> rel !in collapsed && IsOpen(Shown(nodes[0].children), p, rel + "/", collapsed)
  {
    EntryWithin(nodes, p);
    hide EntryAt, Shown, Slashes;
    assert ([0] + p)[1..] == p && ([0] + p)[0] == 0;
  }

  lemma PathWithin(nodes: seq<Node>, p: Place)
    requires nodes != [] && nodes[0].Dir? && p != [] && EntryAt(Shown(nodes[0].children), p).Some?
    ensures EntryAt(nodes, [0] + p).Some?
    ensures PathOf(nodes, [0] + p) == Slashes(nodes[0].name) + "/" + PathOf(Shown(nodes[0].children), p)
  {
    EntryWithin(nodes, p);
    hide EntryAt, Shown, Slashes;
    assert ([0] + p)[1..] == p && ([0] + p)[0] == 0;
  }

  lemma LaterEntry(nodes: seq<Node>, p: Place, at: string, depth: nat, collapsed: set<string>)
    requires nodes != [] && p != []
    ensures HasRow(nodes, Shift(p), at, collapsed) <==> HasRow(nodes[1..], p, at, collapsed)
    ensures EntryAt(nodes[1..], p).Some? ==>
              EntryAt(nodes, Shift(p)).Some? && RowAt(nodes, Shift(p), at, depth) == RowAt(nodes[1..], p, at, depth)
  {
    hide Shown, Slashes;
    assert Shift(p)[1..] == p[1..];
    assert p[0] < |nodes| - 1 ==> nodes[1..][p[0]] == nodes[p[0] + 1];
  }

  ghost predicate RowsAre(rows: seq<TreeRow>, nodes: seq<Node>, ps: seq<Place>, at: string, depth: nat, collapsed: set<string>) {
    |rows| == |ps| && forall i :: 0 <= i < |ps| ==> IsRow(rows[i], nodes, ps[i], at, depth, collapsed)
  }

  /** The row of an entry. */
  predicate IsRow(r: TreeRow, nodes: seq<Node>, p: Place, at: string, depth: nat, collapsed: set<string>) {
    HasRow(nodes, p, at, collapsed) && r == RowAt(nodes, p, at, depth)
  }

  lemma WithinIsRow(r: TreeRow, nodes: seq<Node>, p: Place, at: string, depth: nat, collapsed: set<string>)
    requires nodes != [] && nodes[0].Dir? && p != [] && RelOf(at, nodes[0].name) !in collapsed
    requires IsRow(r, Shown(nodes[0].children), p, RelOf(at, nodes[0].name) + "/", depth + 1, collapsed)
    ensures IsRow(r, nodes, [0] + p, at, depth, collapsed)
  {
    WithinEntry(nodes, p, at, depth, collapsed);
    hide Shown, EntryAt, PathOf, IsOpen, RowAt;
  }

  lemma LaterIsRow(r: TreeRow, nodes: seq<Node>, p: Place, at: string, depth: nat, collapsed: set<string>)
    requires nodes != [] && p != [] && IsRow(r, nodes[1..], p, at, depth, collapsed)
    ensures IsRow(r, nodes, Shift(p), at, depth, collapsed)
  {
    LaterEntry(nodes, p, at, depth, collapsed);
    hide EntryAt, PathOf, IsOpen, RowAt;
  }

  lemma {:induction false} PlacesHaveRows(nodes: seq<Node>, at: string, depth: nat, collapsed: set<string>)
    ensures RowsAre(Rows(nodes, at, depth, collapsed), nodes, Places(nodes, at, collapsed), at, depth, collapsed)
    decreases HeightAll(nodes), |nodes|
  {
    if nodes != [] {
      var n, rest := nodes[0], nodes[1..];
      var rel := RelOf(at, n.name);
      Smaller(nodes);
      RowsParts(nodes, at, depth, collapsed);
      PlacesParts(nodes, at, collapsed);
      PlacesHaveRows(rest, at, depth, collapsed);
      LaterRows(nodes, Places(rest, at, collapsed), at, depth, collapsed);
      OwnRow(nodes, at, depth, collapsed);
      InnerRows(nodes, at, depth, collapsed);
      hide *;
      RowsConcat3(nodes, [RowOf(n, at, depth)], Below(n, at, depth, collapsed), Rows(rest, at, depth, collapsed),
                  [[0]], Within(InnerPlaces(nodes, at, collapsed)), Later(Places(rest, at, collapsed)), at, depth, collapsed);
    }
  }

  function InnerPlaces(nodes: seq<Node>, at: string, collapsed: set<string>): (r: seq<Place>)
    requires nodes != []
    ensures Proper(r)
  {
    var rel := RelOf(at, nodes[0].name);
    if nodes[0].Dir? && rel !in collapsed then Places(Shown(nodes[0].children), rel + "/", collapsed) else []
  }

  lemma PlacesParts(nodes: seq<Node>, at: string, collapsed: set<string>)
    requires nodes != []
    ensures Places(nodes, at, collapsed)
         == [[0]] + Within(InnerPlaces(nodes, at, collapsed)) + Later(Places(nodes[1..], at, collapsed))
  {
  }

  lemma OwnRow(nodes: seq<Node>, at: string, depth: nat, collapsed: set<string>)
    requires nodes != []
    ensures RowsAre([RowOf(nodes[0], at, depth)], nodes, [[0]], at, depth, collapsed)
  {
  }

  lemma {:induction false} InnerRows(nodes: seq<Node>, at: string, depth: nat, collapsed: set<string>)
    requires nodes != []
    ensures RowsAre(Below(nodes[0], at, depth, collapsed), nodes, Within(InnerPlaces(nodes, at, collapsed)), at, depth, collapsed)
    decreases HeightAll(nodes), 0
  {
    var n, rel := nodes[0], RelOf(at, nodes[0].name);
    if n.Dir? && rel !in collapsed {
      var inner := Shown(n.children);
      Smaller(nodes);
      PlacesHaveRows(inner, rel + "/", depth + 1, collapsed);
      var ps := Places(inner, rel + "/", collapsed);
      assert InnerPlaces(nodes, at, collapsed) == ps;
      assert Below(n, at, depth, collapsed) == Rows(inner, rel + "/", depth + 1, collapsed);
      var rows := Below(n, at, depth, collapsed);
      hide Rows, Places, IsRow, Shown, Below, InnerPlaces;
      forall i | 0 <= i < |ps| ensures IsRow(rows[i], nodes, [0] + ps[i], at, depth, collapsed) {
        WithinIsRow(rows[i], nodes, ps[i], at, depth, collapsed);
      }
    }
  }

  lemma LaterRows(nodes: seq<Node>, ps: seq<Place>, at: string, depth: nat, collapsed: set<string>)
    requires nodes != [] && Proper(ps)
    requires RowsAre(Rows(nodes[1..], at, depth, collapsed), nodes[1..], ps, at, depth, collapsed)
    ensures RowsAre(Rows(nodes[1..], at, depth, collapsed), nodes, Later(ps), at, depth, collapsed)
  {
    hide Rows, IsRow;
    var rows := Rows(nodes[1..], at, depth, collapsed);
    forall i | 0 <= i < |ps| ensures IsRow(rows[i], nodes, Shift(ps[i]), at, depth, collapsed) {
      LaterIsRow(rows[i], nodes, ps[i], at, depth, collapsed);
    }
  }

  lemma RowsConcat3(nodes: seq<Node>, a: seq<TreeRow>, b: seq<TreeRow>, c: seq<TreeRow>,
      p: seq<Place>, q: seq<Place>, r: seq<Place>, at: string, depth: nat, collapsed: set<string>)
    requires RowsAre(a, nodes, p, at, depth, collapsed) && RowsAre(b, nodes, q, at, depth, collapsed)
    requires RowsAre(c, nodes, r, at, depth, collapsed)
    ensures RowsAre(a + b + c, nodes, p + q + r, at, depth, collapsed)
  {
    hide IsRow;
  }

  // ----- their order, and that none is missing

  ghost predicate InOrder(ps: seq<Place>) {
    forall i, j :: 0 <= i < j < |ps| ==> Before(ps[i], ps[j])
  }

  lemma {:induction false} PlacesInOrder(nodes: seq<Node>, at: string, collapsed: set<string>)
    ensures InOrder(Places(nodes, at, collapsed))
    decreases HeightAll(nodes), |nodes|
  {
    if nodes != [] {
      Smaller(nodes);
      PlacesParts(nodes, at, collapsed);
      PlacesInOrder(nodes[1..], at, collapsed);
      var inner, later := InnerPlaces(nodes, at, collapsed), Places(nodes[1..], at, collapsed);
      if inner != [] {
        PlacesInOrder(Shown(nodes[0].children), RelOf(at, nodes[0].name) + "/", collapsed);
      }
      hide Places, Shown;
      PartsInOrder(inner, later);
    }
  }

  lemma PartsInOrder(inner: seq<Place>, later: seq<Place>)
    requires Proper(inner) && Proper(later) && InOrder(inner) && InOrder(later)
    ensures InOrder([[0]] + Within(inner) + Later(later))
  {
    var ps := [[0]] + Within(inner) + Later(later);
    var m := 1 + |inner|;
    forall i, j | 0 <= i < j < |ps| ensures Before(ps[i], ps[j]) {
      if j < m {
        assert ps[j] == [0] + inner[j - 1];
        if i == 0 {
          FirstBefore(inner[j - 1]);
        } else {
          assert ps[i] == [0] + inner[i - 1];
          WithinBefore(inner[i - 1], inner[j - 1]);
        }
      } else {
        assert ps[j] == Shift(later[j - m]);
        if i < m {
          assert ps[i][0] == 0;
        } else {
          assert ps[i] == Shift(later[i - m]);
          ShiftBefore(later[i - m], later[j - m]);
        }
      }
    }
  }

  lemma FirstBefore(p: Place)
    requires p != []
    ensures Before([0], [0] + p)
  {
    assert ([0] + p)[1..] == p && [0][1..] == [];
  }

  lemma WithinBefore(p: Place, q: Place)
    requires Before(p, q)
    ensures Before([0] + p, [0] + q)
  {
    assert ([0] + p)[1..] == p && ([0] + q)[1..] == q;
  }

  lemma ShiftBefore(p: Place, q: Place)
    requires p != [] && Before(p, q)
    ensures Before(Shift(p), Shift(q))
  {
    assert Shift(p)[1..] == p[1..] && Shift(q)[1..] == q[1..];
  }

  lemma {:induction false} NoPlaceMissing(nodes: seq<Node>, p: Place, at: string, collapsed: set<string>)
    requires HasRow(nodes, p, at, collapsed)
    ensures p in Places(nodes, at, collapsed)
    decreases HeightAll(nodes), |nodes|
  {
    var rel := RelOf(at, nodes[0].name);
    Smaller(nodes);
    if p[0] > 0 {
      var q: Place := [p[0] - 1] + p[1..];
      assert Shift(q) == p by { assert q[1..] == p[1..]; }
      hide HasRow, Places, Shown;
      LaterEntry(nodes, q, at, 0, collapsed);
      NoPlaceMissing(nodes[1..], q, at, collapsed);
      LaterIsPlace(nodes, q, at, collapsed);
    } else if |p| > 1 {
      var q := p[1..];
      assert [0] + q == p && nodes[0].Dir?;
      hide HasRow, Places, Shown;
      WithinEntry(nodes, q, at, 0, collapsed);
      NoPlaceMissing(Shown(nodes[0].children), q, rel + "/", collapsed);
      WithinIsPlace(nodes, q, at, collapsed);
    } else {
      assert p == [0];
      hide HasRow, Places, Shown;
      PlacesParts(nodes, at, collapsed);
      assert Places(nodes, at, collapsed)[0] == p;
    }
  }

  lemma LaterIsPlace(nodes: seq<Node>, q: Place, at: string, collapsed: set<string>)
    requires nodes != [] && q != [] && q in Places(nodes[1..], at, collapsed)
    ensures Shift(q) in Places(nodes, at, collapsed)
  {
    PlacesParts(nodes, at, collapsed);
    hide Places, InnerPlaces;
    var later := Places(nodes[1..], at, collapsed);
    var i :| 0 <= i < |later| && later[i] == q;
    assert Later(later)[i] == Shift(q);
  }

  lemma WithinIsPlace(nodes: seq<Node>, q: Place, at: string, collapsed: set<string>)
    requires nodes != [] && nodes[0].Dir? && RelOf(at, nodes[0].name) !in collapsed
    requires q in Places(Shown(nodes[0].children), RelOf(at, nodes[0].name) + "/", collapsed)
    ensures [0] + q in Places(nodes, at, collapsed)
  {
    PlacesParts(nodes, at, collapsed);
    hide Places, Shown;
    var inner := InnerPlaces(nodes, at, collapsed);
    var i :| 0 <= i < |inner| && inner[i] == q;
    assert Within(inner)[i] == [0] + q;
  }

  /** A walk has one row for each entry with no collapsed directory above it, and
    * says of it how many directories are above, of what kind it is, its path and
    * its name; a directory comes before what is in it, earlier entries first.
    */
  lemma RowsExactly(root: seq<Node>, collapsed: set<string>) returns (ps: seq<Place>)
    ensures RowsAre(BuildRows(root, collapsed), Shown(root), ps, "", 0, collapsed)
    ensures InOrder(ps)
    ensures forall p :: HasRow(Shown(root), p, "", collapsed) <==> p in ps
  {
    hide Shown, Rows, Places, HasRow, RowAt;
    ps := Places(Shown(root), "", collapsed);
    PlacesHaveRows(Shown(root), "", 0, collapsed);
    PlacesInOrder(Shown(root), "", collapsed);
    forall p ensures HasRow(Shown(root), p, "", collapsed) <==> p in ps {
      if HasRow(Shown(root), p, "", collapsed) {
        NoPlaceMissing(Shown(root), p, "", collapsed);
      }
    }
  }
}
