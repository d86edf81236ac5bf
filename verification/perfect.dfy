/** What a perfect maze guarantees: a path of openings between any two cells,
    and exactly one opened wall fewer than there are cells. */
module Perfect {
  import opened Grid
  import opened Maze

  /** Walking from `p` along `ds`, every step goes through an opening, and
      the walk ends at `q`. */
  ghost predicate IsPath(g: Grid, p: Pos, ds: seq<Direction>, q: Pos)
    requires g.Valid()
    decreases |ds|
  {
    if ds == [] then p == q
    else g.Passage(p, ds[0]) && IsPath(g, Neighbor(p, ds[0]), ds[1..], q)
  }

  /** The walk `ds` taken backwards. */
  function Back(ds: seq<Direction>): (r: seq<Direction>)
    ensures |r| == |ds|
  {
    if ds == [] then [] else Back(ds[1..]) + [Opposite(ds[0])]
  }

  lemma {:induction false} PathConcat(g: Grid, a: Pos, x: seq<Direction>, b: Pos, y: seq<Direction>, c: Pos)
    requires g.Valid() && IsPath(g, a, x, b) && IsPath(g, b, y, c)
    ensures IsPath(g, a, x + y, c)
    decreases |x|
  {
    if x == [] {
      assert x + y == y;
    } else {
      PathConcat(g, Neighbor(a, x[0]), x[1..], b, y, c);
      assert (x + y)[1..] == x[1..] + y;
    }
  }

  /** In a grid whose neighbours agree on their walls, a path can be walked
      backwards. */
  lemma {:induction false} PathBack(g: Grid, a: Pos, ds: seq<Direction>, b: Pos)
    requires g.Valid() && Symmetric(g) && IsPath(g, a, ds, b)
    ensures IsPath(g, b, Back(ds), a)
    decreases |ds|
  {
    if ds != [] {
      var n := Neighbor(a, ds[0]);
      PathBack(g, n, ds[1..], b);
      NeighborFacts(a, ds[0], ds[0]);
      assert g.HasWall(n, Opposite(ds[0])) == g.HasWall(a, ds[0]);
      assert IsPath(g, a, [], a);
      assert IsPath(g, n, [Opposite(ds[0])], a);
      PathConcat(g, b, Back(ds[1..]), n, [Opposite(ds[0])], a);
    }
  }

  /** Following the carved-from links leads from any cell back to the root
      through openings. */
  lemma {:induction false} PathToRoot(g: Grid, root: Pos, up: map<Pos, Direction>, rank: map<Pos, nat>, p: Pos)
    returns (ds: seq<Direction>)
    requires g.Valid() && SpanningTree(g, root, up, rank) && g.InGrid(p)
    ensures IsPath(g, p, ds, root)
    decreases rank[p]
  {
    InAllPos(g, p);
    if p == root {
      ds := [];
    } else {
      var d := up[p];
      var q := Neighbor(p, d);
      InAllPos(g, q);
      assert Linked(up, p, d);
      assert g.Passage(p, d);
      var rest := PathToRoot(g, root, up, rank, q);
      ds := [d] + rest;
      assert ds[1..] == rest;
    }
  }

  /** A perfect maze is connected: any two cells are joined by a path of openings. */
  lemma Connected(g: Grid, a: Pos, b: Pos) returns (ds: seq<Direction>)
    requires Generated(g) && g.InGrid(a) && g.InGrid(b)
    ensures IsPath(g, a, ds, b)
  {
    var root, up, rank :| SpanningTree(g, root, up, rank);
    var x := PathToRoot(g, root, up, rank, a);
    var y := PathToRoot(g, root, up, rank, b);
    PathBack(g, b, y, root);
    PathConcat(g, a, x, root, Back(y), b);
    ds := x + Back(y);
  }

  /** The opened walls, each counted once, from the cell on its left or above. */
  ghost function CarvedEdges(g: Grid): set<(Pos, Direction)>
    requires g.Valid()
  {
    set i, j, d | 0 <= i < g.w && 0 <= j < g.h && d in {Right, Bottom} && g.Passage(Pos(i, j), d)
      :: (Pos(i, j), d)
  }

  /** The opened wall named by a carved-from link, in the form CarvedEdges uses. */
  function EdgeOf(up: map<Pos, Direction>, p: Pos): (Pos, Direction)
  {
    if p !in up then (p, Right)
    else if up[p] == Right || up[p] == Bottom then (p, up[p])
    else (Neighbor(p, up[p]), Opposite(up[p]))
  }

  /** Distinct links naming distinct walls name as many walls as there are links. */
  lemma {:induction false} EdgeImage(up: map<Pos, Direction>, s: set<Pos>)
    requires forall x, y :: x in s && y in s && EdgeOf(up, x) == EdgeOf(up, y) ==> x == y
    ensures |set p | p in s :: EdgeOf(up, p)| == |s|
    decreases |s|
  {
    if s != {} {
      var x :| x in s;
      var s' := s - {x};
      EdgeImage(up, s');
      var img := set p | p in s :: EdgeOf(up, p);
      var img' := set p | p in s' :: EdgeOf(up, p);
      assert img == img' + {EdgeOf(up, x)};
      assert EdgeOf(up, x) !in img';
    }
  }

  /** The walls named by the carved-from links. */
  ghost function LinkEdges(up: map<Pos, Direction>): set<(Pos, Direction)>
  {
    set p | p in up.Keys :: EdgeOf(up, p)
  }

  /** Every opened wall is named by a link ... */
  lemma EdgesAreLinks(g: Grid, root: Pos, up: map<Pos, Direction>, rank: map<Pos, nat>)
    requires g.Valid() && SpanningTree(g, root, up, rank)
    ensures CarvedEdges(g) <= LinkEdges(up)
  {
    forall e | e in CarvedEdges(g) ensures e in LinkEdges(up) {
      var p, d := e.0, e.1;
      NeighborFacts(p, d, d);
      assert Linked(up, p, d);
      if p in up && up[p] == d {
        assert EdgeOf(up, p) == e;
      } else {
        assert EdgeOf(up, Neighbor(p, d)) == e;
      }
    }
  }

  /** ... and every link names an opened wall. */
  lemma LinksAreEdges(g: Grid, root: Pos, up: map<Pos, Direction>, rank: map<Pos, nat>)
    requires g.Valid() && SpanningTree(g, root, up, rank)
    ensures LinkEdges(up) <= CarvedEdges(g)
  {
    forall e | e in LinkEdges(up) ensures e in CarvedEdges(g) {
      var p :| p in up.Keys && EdgeOf(up, p) == e;
      var d := up[p];
      InAllPos(g, p);
      InAllPos(g, Neighbor(p, d));
      assert Linked(up, p, d);
      LinkedBothWays(up, p, d);
      NeighborFacts(p, d, d);
      if d == Right || d == Bottom {
        assert g.Passage(p, d);
      } else {
        assert g.Passage(Neighbor(p, d), Opposite(d));
      }
    }
  }

  /** A perfect maze opens exactly one wall fewer than it has cells. */
  lemma EdgeCount(g: Grid)
    requires Generated(g)
    ensures |CarvedEdges(g)| == g.w * g.h - 1
  {
    var root, up, rank :| SpanningTree(g, root, up, rank);
    forall x, y | x in up.Keys && y in up.Keys && EdgeOf(up, x) == EdgeOf(up, y)
      ensures x == y
    {
      SameEdge(g, root, up, rank, x, y);
    }
    EdgeImage(up, up.Keys);
    EdgesAreLinks(g, root, up, rank);
    LinksAreEdges(g, root, up, rank);
    assert CarvedEdges(g) == LinkEdges(up);
    assert |CarvedEdges(g)| == |up.Keys|;
    AllPosCard(g.w, g.h);
    var all := AllPos(g.w, g.h);
    assert all == up.Keys + {root} && root !in up.Keys;
    assert |all| == |up.Keys| + 1;
  }

  /** Two cells whose links name the same wall are the same cell: otherwise
      each would have been carved from the other, against their ranks. */
  lemma SameEdge(g: Grid, root: Pos, up: map<Pos, Direction>, rank: map<Pos, nat>, x: Pos, y: Pos)
    requires g.Valid() && SpanningTree(g, root, up, rank)
    requires x in up && y in up && EdgeOf(up, x) == EdgeOf(up, y)
    ensures x == y
  {
    var dx, dy := up[x], up[y];
    NeighborFacts(x, dx, dx);
    NeighborFacts(y, dy, dy);
    assert rank[Neighbor(x, dx)] < rank[x] && rank[Neighbor(y, dy)] < rank[y];
  }
}
