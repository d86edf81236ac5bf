/** `makeMaze`: randomised iterative depth-first search over the grid with an
    explicit fixed-size stack, carving a perfect maze from the centre cell.
    The random source is an oracle: the k-th call of `rand()` yields `rand(k)`. */
module Maze {
  import opened Grid

  /** The neighbour of `c` towards `d` is a cell of the grid the generator
      has not reached yet. */
  predicate Fresh(g: Grid, c: Pos, d: Direction)
    requires g.Valid()
  {
    g.InGrid(Neighbor(c, d)) && !g.At(Neighbor(c, d)).visited
  }

  /** No neighbour of `p` is left to visit. */
  ghost predicate Finished(g: Grid, p: Pos)
    requires g.Valid()
  {
    forall d :: !Fresh(g, p, d)
  }

  /** The directions the generator may take from `c`, listed in the fixed
      order TOP, RIGHT, BOTTOM, LEFT: exactly those whose neighbour is inside
      the grid and unvisited. */
  function Candidates(g: Grid, c: Pos): (r: seq<Direction>)
    requires g.Valid() && g.InGrid(c)
    ensures |r| <= 4
    ensures forall d :: d in r <==> Fresh(g, c, d)
    ensures forall a, b :: 0 <= a < b < |r| ==> Index(r[a]) < Index(r[b])
  {
    InOrder(c.j - 1 >= 0 && !g.At(Pos(c.i, c.j - 1)).visited,
            c.i + 1 < g.w && !g.At(Pos(c.i + 1, c.j)).visited,
            c.j + 1 < g.h && !g.At(Pos(c.i, c.j + 1)).visited,
            c.i - 1 >= 0 && !g.At(Pos(c.i - 1, c.j)).visited)
  }

  /** The directions whose flag is set, in TOP, RIGHT, BOTTOM, LEFT order. */
  function InOrder(top: bool, right: bool, bottom: bool, left: bool): (r: seq<Direction>)
    ensures |r| <= 4
    ensures forall d :: d in r <==>
      (d == Top && top) || (d == Right && right) || (d == Bottom && bottom) || (d == Left && left)
    ensures forall a, b :: 0 <= a < b < |r| ==> Index(r[a]) < Index(r[b])
  {
    (if top then [Top] else []) + (if right then [Right] else [])
    + (if bottom then [Bottom] else []) + (if left then [Left] else [])
  }

  /** `getRandom`: the value `roll` of `rand()` reduced into `[0, range)`. */
  function GetRandom(roll: nat, range: nat): (r: nat)
    requires range > 0
    ensures r < range
  {
    roll % range
  }

  /** The direction of the first carve, from the centre cell: there every
      neighbour is fresh, so the candidates are all four directions in the
      fixed order, and the first value of `rand()` picks one of them. */
  function FirstDirection(roll: nat): Direction
  {
    [Top, Right, Bottom, Left][GetRandom(roll, 4)]
  }

  /** The wall between `p` and its neighbour towards `d` belongs to a tree
      edge: one of the two cells was carved from the other. `up[q]` is the
      direction from `q` back to the cell it was carved from. */
  ghost predicate Linked(up: map<Pos, Direction>, p: Pos, d: Direction)
  {
    (p in up && up[p] == d) || (Neighbor(p, d) in up && up[Neighbor(p, d)] == Opposite(d))
  }

  /** `up` and `rank` describe a tree over `nodes` rooted at `root`: every
      other node points to an adjacent node of smaller rank, and a wall
      between two cells of the grid is down exactly on a tree edge. */
  ghost predicate Tree(g: Grid, nodes: set<Pos>, root: Pos, up: map<Pos, Direction>, rank: map<Pos, nat>)
    requires g.Valid()
  {
    && root in nodes
    && rank.Keys == nodes
    && up.Keys == nodes - {root}
    && (forall p :: p in up ==> Neighbor(p, up[p]) in nodes && rank[Neighbor(p, up[p])] < rank[p])
    && (forall p, d :: g.InGrid(p) && g.InGrid(Neighbor(p, d)) ==> (g.HasWall(p, d) <==> !Linked(up, p, d)))
  }

  /** The passages of `g` are exactly the edges of a tree spanning every cell. */
  ghost predicate SpanningTree(g: Grid, root: Pos, up: map<Pos, Direction>, rank: map<Pos, nat>)
    requires g.Valid()
  {
    Tree(g, AllPos(g.w, g.h), root, up, rank)
  }

  /** A perfect maze: its passages form a spanning tree of the grid. */
  ghost predicate PerfectMaze(g: Grid)
    requires g.Valid()
  {
    exists root, up, rank :: SpanningTree(g, root, up, rank)
  }

  /** What a finished maze satisfies: coordinates kept, every cell visited,
      walls consistent, outside closed, passages a spanning tree. */
  ghost predicate Generated(g: Grid)
  {
    && g.Valid()
    && Coordinates(g)
    && (forall p :: g.InGrid(p) ==> g.At(p).visited)
    && Symmetric(g)
    && BoundaryIntact(g)
    && PerfectMaze(g)
  }

  /** Linked is a property of the wall, not of the side it is seen from. */
  lemma LinkedBothWays(up: map<Pos, Direction>, p: Pos, d: Direction)
    ensures Linked(up, p, d) == Linked(up, Neighbor(p, d), Opposite(d))
  {
    NeighborFacts(p, d, d);
  }

  /** A tree's walls are consistent between neighbours. */
  lemma TreeSymmetric(g: Grid, nodes: set<Pos>, root: Pos, up: map<Pos, Direction>, rank: map<Pos, nat>)
    requires g.Valid() && Tree(g, nodes, root, up, rank)
    ensures Symmetric(g)
  {
    forall p, d | g.InGrid(p) && g.InGrid(Neighbor(p, d))
      ensures g.HasWall(p, d) == g.At(Neighbor(p, d)).walls.Has(Opposite(d))
    {
      NeighborFacts(p, d, d);
      LinkedBothWays(up, p, d);
      assert g.At(Neighbor(p, d)).walls.Has(Opposite(d)) == g.HasWall(Neighbor(p, d), Opposite(d));
    }
  }

  /** `p` is one of the cells held in `stack[0..index]`. */
  ghost predicate OnStack(stack: seq<Cell>, index: int, p: Pos)
  {
    exists k :: 0 <= k <= index && k < |stack| && CellPos(stack[k]) == p
  }

  /** The cells reached so far are exactly those marked visited; the cells
      not reached yet still have all four walls. */
  ghost predicate CellsInv(g: Grid, visited: set<Pos>)
  {
    && g.Valid() && Coordinates(g) && BoundaryIntact(g)
    && (forall p :: p in visited ==> g.InGrid(p))
    && (forall p :: g.InGrid(p) ==> (g.At(p).visited <==> p in visited))
    && (forall p :: g.InGrid(p) && !g.At(p).visited ==> g.At(p).walls == AllWalls)
  }

  /** The stack `stack[0..index]` holds reached cells, is never taller than
      the set of reached cells, and every reached cell already dropped from
      it has no unreached neighbour. */
  ghost predicate StackInv(g: Grid, stack: seq<Cell>, index: int, visited: set<Pos>)
    requires g.Valid()
  {
    && |stack| == g.w * g.h
    && -1 <= index < |stack|
    && index + 1 <= |visited| <= g.w * g.h
    && (forall k :: 0 <= k <= index ==> CellPos(stack[k]) in visited)
    && (forall p :: p in visited && !OnStack(stack, index, p) ==> Finished(g, p))
  }

  /** Ranks are push numbers: all below the number of cells pushed so far. */
  ghost predicate Ranked(visited: set<Pos>, rank: map<Pos, nat>)
  {
    forall p :: p in rank ==> rank[p] < |visited|
  }

  /** The loop invariant of the generator: the opened walls are exactly the
      edges of a tree over the reached cells. */
  ghost predicate GenInv(g: Grid, root: Pos, stack: seq<Cell>, index: int, visited: set<Pos>,
                         up: map<Pos, Direction>, rank: map<Pos, nat>)
  {
    && CellsInv(g, visited)
    && StackInv(g, stack, index, visited)
    && Tree(g, visited, root, up, rank)
    && Ranked(visited, rank)
  }

  /** The state after marking the centre cell and pushing it. */
  lemma Begin(g: Grid, root: Pos, stack: seq<Cell>)
    requires 0 < g.w && 0 < g.h && root == Pos(g.w / 2, g.h / 2)
    requires g == FillGrid(g.w, g.h).Put(root, Cell(root.i, root.j, AllWalls, true))
    requires |stack| == g.w * g.h && stack[0] == g.At(root)
    ensures GenInv(g, root, stack, 0, {root}, map[], map[root := 0])
  {
    BeginCells(g, root);
    assert OnStack(stack, 0, root);
    CellsBound(g, {root});
    assert StackInv(g, stack, 0, {root});
    assert Ranked({root}, map[root := 0]);
  }

  /** After the reset only the centre is visited, and every cell is closed,
      so the walls form the one-node tree at the centre. */
  lemma BeginCells(g: Grid, root: Pos)
    requires 0 < g.w && 0 < g.h && root == Pos(g.w / 2, g.h / 2)
    requires g == FillGrid(g.w, g.h).Put(root, Cell(root.i, root.j, AllWalls, true))
    ensures CellsInv(g, {root})
    ensures Tree(g, {root}, root, map[], map[root := 0])
  {
    FillGridIsClosed(g.w, g.h);
    assert forall p :: g.InGrid(p) ==> g.At(p).walls == AllWalls;
  }

  /** Room on the stack: a fresh neighbour means the grid has a cell not yet
      reached, so the stack (never taller than the reached set) has a free slot. */
  lemma Room(g: Grid, root: Pos, stack: seq<Cell>, index: int, visited: set<Pos>,
             up: map<Pos, Direction>, rank: map<Pos, nat>, d: Direction)
    requires GenInv(g, root, stack, index, visited, up, rank)
    requires 0 <= index && Fresh(g, CellPos(stack[index]), d)
    ensures Neighbor(CellPos(stack[index]), d) !in visited
    ensures |visited + {Neighbor(CellPos(stack[index]), d)}| == |visited| + 1 <= g.w * g.h
    ensures index + 1 < |stack|
  {
    var nb := Neighbor(CellPos(stack[index]), d);
    CellsBound(g, visited + {nb});
  }

  /** Carving into a fresh neighbour marks exactly that neighbour reached. */
  lemma CellsStep(g: Grid, visited: set<Pos>, cur: Pos, d: Direction)
    requires CellsInv(g, visited) && cur in visited && Fresh(g, cur, d)
    ensures CellsInv(Carve(g, cur, d), visited + {Neighbor(cur, d)})
  {
    CarveKeepsOutside(g, cur, d);
    NeighborFacts(cur, d, d);
  }

  /** Pushing the fresh neighbour keeps the stack invariant. */
  lemma StackStep(g: Grid, stack: seq<Cell>, index: int, visited: set<Pos>, d: Direction)
    requires g.Valid() && Coordinates(g) && StackInv(g, stack, index, visited)
    requires forall p :: p in visited ==> g.InGrid(p)
    requires 0 <= index && Fresh(g, CellPos(stack[index]), d)
    requires Neighbor(CellPos(stack[index]), d) !in visited
    requires |visited| + 1 <= g.w * g.h
    ensures var cur := CellPos(stack[index]);
      var nb := Neighbor(cur, d);
      StackInv(Carve(g, cur, d), stack[index + 1 := g.At(nb)], index + 1, visited + {nb})
  {
    var cur := CellPos(stack[index]);
    var nb := Neighbor(cur, d);
    var g' := Carve(g, cur, d);
    var stack' := stack[index + 1 := g.At(nb)];
    var visited' := visited + {nb};
    assert CellPos(stack'[index + 1]) == nb;
    assert OnStack(stack', index + 1, nb);
    forall p | OnStack(stack, index, p) ensures OnStack(stack', index + 1, p) {
      var k :| 0 <= k <= index && k < |stack| && CellPos(stack[k]) == p;
      assert stack'[k] == stack[k];
    }
    forall q | g.InGrid(q) && g.At(q).visited ensures g'.At(q).visited {
      if q != cur && q != nb {
        assert g'.At(q) == g.At(q);
      }
    }
    forall p, e | p in visited && !OnStack(stack', index + 1, p) && Finished(g, p)
      ensures !Fresh(g', p, e)
    {
      assert !Fresh(g, p, e);
    }
  }

  /** Carving from a reached cell into an unreached, fully walled neighbour
      grows the tree by exactly that edge. */
  lemma TreeStep(g: Grid, visited: set<Pos>, root: Pos, up: map<Pos, Direction>, rank: map<Pos, nat>,
                 cur: Pos, d: Direction)
    requires g.Valid() && Tree(g, visited, root, up, rank) && Ranked(visited, rank)
    requires cur in visited && g.InGrid(cur) && Fresh(g, cur, d)
    requires Neighbor(cur, d) !in visited
    requires g.At(Neighbor(cur, d)).walls == AllWalls
    ensures var nb := Neighbor(cur, d);
      Tree(Carve(g, cur, d), visited + {nb}, root, up[nb := Opposite(d)], rank[nb := |visited|])
    ensures var nb := Neighbor(cur, d);
      Ranked(visited + {nb}, rank[nb := |visited|])
  {
    var nb := Neighbor(cur, d);
    var g' := Carve(g, cur, d);
    var up' := up[nb := Opposite(d)];
    var rank' := rank[nb := |visited|];
    var visited' := visited + {nb};
    NeighborFacts(cur, d, d);
    assert Neighbor(nb, Opposite(d)) == cur;

    forall p | p in up'
      ensures Neighbor(p, up'[p]) in visited' && rank'[Neighbor(p, up'[p])] < rank'[p]
    {
      if p != nb {
        assert p in up;
      }
    }

    forall s, e | g'.InGrid(s) && g'.InGrid(Neighbor(s, e))
      ensures g'.HasWall(s, e) <==> !Linked(up', s, e)
    {
      WallStep(g, visited, root, up, rank, cur, d, s, e);
    }
  }

  /** The wall between `s` and its neighbour towards `e` after carving from
      `cur` towards `d` is down exactly when it is a tree edge afterwards. */
  lemma WallStep(g: Grid, visited: set<Pos>, root: Pos, up: map<Pos, Direction>, rank: map<Pos, nat>,
                 cur: Pos, d: Direction, s: Pos, e: Direction)
    requires g.Valid() && Tree(g, visited, root, up, rank)
    requires cur in visited && g.InGrid(cur) && Fresh(g, cur, d)
    requires Neighbor(cur, d) !in visited
    requires g.At(Neighbor(cur, d)).walls == AllWalls
    requires g.InGrid(s) && g.InGrid(Neighbor(s, e))
    ensures Carve(g, cur, d).HasWall(s, e) <==> !Linked(up[Neighbor(cur, d) := Opposite(d)], s, e)
  {
    var nb := Neighbor(cur, d);
    var g' := Carve(g, cur, d);
    var up' := up[nb := Opposite(d)];
    var t := Neighbor(s, e);
    NeighborFacts(cur, d, d);
    NeighborFacts(s, e, e);
    NeighborFacts(s, d, e);
    NeighborFacts(nb, Opposite(d), Opposite(e));
    if s == cur && e == d {
      assert !g'.HasWall(s, e);
      assert Linked(up', s, e);
    } else if s == nb && e == Opposite(d) {
      assert !g'.HasWall(s, e);
      assert Linked(up', s, e);
    } else if s == nb {
      assert g'.HasWall(s, e);
      assert !Linked(up', s, e);
    } else if t == nb {
      assert g'.At(s) == g.At(s);
      assert !Linked(up', s, e);
      assert !Linked(up, s, e);
    } else {
      assert Linked(up', s, e) == Linked(up, s, e);
      if s == cur {
        assert g'.HasWall(s, e) == g.HasWall(s, e);
      } else {
        assert g'.At(s) == g.At(s);
      }
    }
  }

  /** One carving step keeps the invariant. */
  lemma Push(g: Grid, root: Pos, stack: seq<Cell>, index: int, visited: set<Pos>,
             up: map<Pos, Direction>, rank: map<Pos, nat>, d: Direction)
    requires GenInv(g, root, stack, index, visited, up, rank)
    requires 0 <= index && Fresh(g, CellPos(stack[index]), d)
    requires index + 1 < |stack|
    ensures var cur := CellPos(stack[index]);
      var nb := Neighbor(cur, d);
      GenInv(Carve(g, cur, d), root, stack[index + 1 := g.At(nb)], index + 1,
             visited + {nb}, up[nb := Opposite(d)], rank[nb := |visited|])
  {
    var cur := CellPos(stack[index]);
    Room(g, root, stack, index, visited, up, rank, d);
    CellsStep(g, visited, cur, d);
    StackStep(g, stack, index, visited, d);
    TreeStep(g, visited, root, up, rank, cur, d);
  }

  /** Dropping a cell with no fresh neighbour off the stack keeps the invariant. */
  lemma Pop(g: Grid, root: Pos, stack: seq<Cell>, index: int, visited: set<Pos>,
            up: map<Pos, Direction>, rank: map<Pos, nat>)
    requires GenInv(g, root, stack, index, visited, up, rank)
    requires 0 <= index && Finished(g, CellPos(stack[index]))
    ensures GenInv(g, root, stack, index - 1, visited, up, rank)
  {
    forall p | p != CellPos(stack[index]) && OnStack(stack, index, p)
      ensures OnStack(stack, index - 1, p)
    {
      var k :| 0 <= k <= index && k < |stack| && CellPos(stack[k]) == p;
      assert k != index;
    }
  }

  /** A set of cells that holds `a` and is closed under stepping to
      neighbours inside the grid holds every cell between `a` and `b`. */
  lemma {:induction false} Spread(g: Grid, s: set<Pos>, a: Pos, b: Pos)
    requires g.InGrid(a) && g.InGrid(b) && a in s
    requires forall p, d :: p in s && g.InGrid(Neighbor(p, d)) ==> Neighbor(p, d) in s
    ensures b in s
    decreases if a.i < b.i then b.i - a.i else a.i - b.i, if a.j < b.j then b.j - a.j else a.j - b.j
  {
    if a.i < b.i {
      Spread(g, s, Neighbor(a, Right), b);
    } else if a.i > b.i {
      Spread(g, s, Neighbor(a, Left), b);
    } else if a.j < b.j {
      Spread(g, s, Neighbor(a, Bottom), b);
    } else if a.j > b.j {
      Spread(g, s, Neighbor(a, Top), b);
    } else {
      assert a == b;
    }
  }

  /** With the stack empty, every cell has been reached and the tree over the
      reached cells spans the grid. */
  lemma Finish(g: Grid, root: Pos, stack: seq<Cell>, visited: set<Pos>,
               up: map<Pos, Direction>, rank: map<Pos, nat>)
    requires GenInv(g, root, stack, -1, visited, up, rank)
    ensures visited == AllPos(g.w, g.h)
    ensures |visited| == g.w * g.h
    ensures Generated(g)
  {
    forall p, d | p in visited && g.InGrid(Neighbor(p, d))
      ensures Neighbor(p, d) in visited
    {
      assert !OnStack(stack, -1, p);
      assert !Fresh(g, p, d);
    }
    forall b | g.InGrid(b) ensures b in visited {
      Spread(g, visited, root, b);
    }
    assert visited == AllPos(g.w, g.h) by {
      forall p | p in AllPos(g.w, g.h) ensures p in visited {
        var i, j :| 0 <= i < g.w && 0 <= j < g.h && p == Pos(i, j);
        assert g.InGrid(p);
      }
    }
    CellsBound(g, visited);
    TreeSymmetric(g, visited, root, up, rank);
    assert SpanningTree(g, root, up, rank);
  }

  /** One pass of the generator's loop: look at the cell on top of the
      stack; if it has a fresh neighbour, pick one of the candidates with the
      next value of `rand()`, carve into it and push it; otherwise pop. Either
      a new cell is reached or the stack shrinks. */
  method Step(g: Grid, stack: seq<Cell>, index: int, draws: nat, rand: nat -> nat,
              ghost root: Pos, ghost visited: set<Pos>,
              ghost up: map<Pos, Direction>, ghost rank: map<Pos, nat>)
    returns (g': Grid, stack': seq<Cell>, index': int, draws': nat,
             ghost visited': set<Pos>, ghost up': map<Pos, Direction>, ghost rank': map<Pos, nat>)
    requires GenInv(g, root, stack, index, visited, up, rank)
    requires 0 <= index && draws + 1 == |visited|
    ensures GenInv(g', root, stack', index', visited', up', rank')
    ensures g'.w == g.w && g'.h == g.h
    ensures draws' + 1 == |visited'|
    ensures |visited'| == |visited| + 1 || (visited' == visited && index' == index - 1)
    ensures forall p :: p in up ==> p in up' && up'[p] == up[p]
    ensures var cur := CellPos(stack[index]);
      var cs := Candidates(g, cur);
      |cs| > 0 ==> Linked(up', cur, cs[GetRandom(rand(draws), |cs|)])
  {
    var current := stack[index];
    var cur := CellPos(current);
    var directions := Candidates(g, cur);
    if |directions| > 0 {
      var d := directions[GetRandom(rand(draws), |directions|)];
      assert d in directions;
      Room(g, root, stack, index, visited, up, rank, d);
      var next := g.At(Neighbor(cur, d));
      Push(g, root, stack, index, visited, up, rank, d);
      g' := Carve(g, cur, d);
      index' := index + 1;
      stack' := stack[index' := next];
      up' := up[Neighbor(cur, d) := Opposite(d)];
      rank' := rank[Neighbor(cur, d) := |visited|];
      visited' := visited + {Neighbor(cur, d)};
      draws' := draws + 1;
    } else {
      Pop(g, root, stack, index, visited, up, rank);
      g', stack', index', draws' := g, stack, index - 1, draws;
      visited', up', rank' := visited, up, rank;
    }
  }

  /** In a grid of at least 3 by 3 whose only visited cell is the centre,
      the candidates from the centre are all four directions, in order. */
  lemma CentreCandidates(g: Grid)
    requires 3 <= g.w && 3 <= g.h
    requires g == Seeded(g.w, g.h)
    ensures Candidates(g, Pos(g.w / 2, g.h / 2)) == [Top, Right, Bottom, Left]
  {
    var c := Pos(g.w / 2, g.h / 2);
    assert !g.At(Pos(c.i, c.j - 1)).visited;
    assert !g.At(Pos(c.i + 1, c.j)).visited;
    assert !g.At(Pos(c.i, c.j + 1)).visited;
    assert !g.At(Pos(c.i - 1, c.j)).visited;
  }

  /** A tree edge stays one when the tree only grows. */
  lemma LinkedGrows(up: map<Pos, Direction>, up': map<Pos, Direction>, p: Pos, d: Direction)
    requires forall q :: q in up ==> q in up' && up'[q] == up[q]
    ensures Linked(up, p, d) ==> Linked(up', p, d)
  {
  }

  /** In the finished maze, a tree edge from the centre of a grid of at least
      3 by 3 is an opening. */
  lemma CentrePassage(g: Grid, root: Pos, up: map<Pos, Direction>, d: Direction)
    requires g.Valid()
    requires forall p, e :: g.InGrid(p) && g.InGrid(Neighbor(p, e)) ==> (g.HasWall(p, e) <==> !Linked(up, p, e))
    requires 3 <= g.w && 3 <= g.h && root == Pos(g.w / 2, g.h / 2)
    requires Linked(up, root, d)
    ensures g.Passage(root, d)
  {
    assert g.InGrid(Neighbor(root, d));
  }

  /** The grid after the reset of `makeMaze`, with the centre cell marked. */
  function Seeded(w: nat, h: nat): (g: Grid)
    requires 0 < w && 0 < h
    ensures g.Valid() && g.w == w && g.h == h
  {
    var root := Pos(w / 2, h / 2);
    FillGrid(w, h).Put(root, Cell(root.i, root.j, AllWalls, true))
  }

  /** The state before the first pass: the centre cell is on the bottom of
      the stack and has all four directions as candidates. */
  predicate CentreFirst(g: Grid, stack: seq<Cell>, root: Pos)
    requires g.Valid() && g.InGrid(root)
  {
    0 < |stack| && CellPos(stack[0]) == root && Candidates(g, root) == [Top, Right, Bottom, Left]
  }

  /** The start of `makeMaze`: fill the grid, mark the centre cell visited
      and push it on a stack with room for every cell. The generator's
      invariant holds, and in a grid of at least 3 by 3 the first pass will
      choose among all four directions. */
  method Reset(w: nat, h: nat) returns (g: Grid, stack: seq<Cell>)
    requires 0 < w && 0 < h
    ensures g.w == w && g.h == h && |stack| == w * h
    ensures GenInv(g, Pos(w / 2, h / 2), stack, 0, {Pos(w / 2, h / 2)}, map[], map[Pos(w / 2, h / 2) := 0])
    ensures 3 <= w && 3 <= h ==> CentreFirst(g, stack, Pos(w / 2, h / 2))
  {
    g := FillGrid(w, h);
    var root := Pos(w / 2, h / 2);
    g := g.Put(root, g.At(root).(visited := true));
    stack := seq(w * h, _ => Cell(root.i, root.j, AllWalls, true));
    Begin(g, root, stack);
    if 3 <= w && 3 <= h {
      CentreCandidates(g);
    }
  }

  /** `makeMaze`: reset the grid, start from the centre cell, and carve by
      randomised depth-first search until the stack is empty. `draws` counts
      the calls of `rand()`; one is made per carved passage. */
  method MakeMaze(w: nat, h: nat, rand: nat -> nat) returns (g: Grid, draws: nat)
    requires 0 < w && 0 < h
    ensures g.w == w && g.h == h
    ensures Generated(g)
    ensures draws == w * h - 1
    ensures 3 <= w && 3 <= h ==> g.Passage(Pos(w / 2, h / 2), FirstDirection(rand(0)))
  {
    var stack;
    g, stack := Reset(w, h);
    var root := Pos(w / 2, h / 2);
    var index := 0;
    draws := 0;
    ghost var visited := {root};
    ghost var up: map<Pos, Direction> := map[];
    ghost var rank: map<Pos, nat> := map[root := 0];
    if 3 <= w && 3 <= h {
      // The first pass of the loop, written out so that its choice can be
      // named: from the centre every direction is a candidate.
      assert CellPos(stack[index]) == root;
      g, stack, index, draws, visited, up, rank := Step(g, stack, index, draws, rand, root, visited, up, rank);
    }

    while index >= 0
      invariant GenInv(g, root, stack, index, visited, up, rank)
      invariant g.w == w && g.h == h
      invariant draws + 1 == |visited|
      invariant 3 <= w && 3 <= h ==> Linked(up, root, FirstDirection(rand(0)))
      decreases w * h - |visited|, index + 1
    {
      ghost var up0 := up;
      g, stack, index, draws, visited, up, rank := Step(g, stack, index, draws, rand, root, visited, up, rank);
      if 3 <= w && 3 <= h {
        LinkedGrows(up0, up, root, FirstDirection(rand(0)));
      }
    }
    Finish(g, root, stack, visited, up, rank);
    if 3 <= w && 3 <= h {
      CentrePassage(g, root, up, FirstDirection(rand(0)));
    }
  }
}
