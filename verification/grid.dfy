/** The grid of cells the maze is carved in: directions, walls, cells, and the
    two-dimensional cell array `grid[row][column]`, with the operations that
    reset it and that carve a passage between two neighbouring cells. */
module Grid {

  /** The four sides of a cell, in the order a cell stores its walls. */
  datatype Direction = Top | Right | Bottom | Left

  /** Position of a direction in the walls array (TOP, RIGHT, BOTTOM, LEFT). */
  function Index(d: Direction): nat
  {
    match d
    case Top => 0
    case Right => 1
    case Bottom => 2
    case Left => 3
  }

  function Opposite(d: Direction): Direction
  {
    match d
    case Top => Bottom
    case Right => Left
    case Bottom => Top
    case Left => Right
  }

  /** A grid coordinate: column `i` (the cell's `x`) and row `j` (its `y`).
      Coordinates are unbounded so that a step off the grid is expressible. */
  datatype Pos = Pos(i: int, j: int)

  /** The coordinate one step from `p` towards `d`; rows grow downwards. */
  function Neighbor(p: Pos, d: Direction): Pos
  {
    match d
    case Top => Pos(p.i, p.j - 1)
    case Right => Pos(p.i + 1, p.j)
    case Bottom => Pos(p.i, p.j + 1)
    case Left => Pos(p.i - 1, p.j)
  }

  /** Stepping back the opposite way returns to the start, and distinct
      directions lead to distinct cells. */
  lemma NeighborFacts(p: Pos, d: Direction, e: Direction)
    ensures Neighbor(Neighbor(p, d), Opposite(d)) == p
    ensures Opposite(Opposite(d)) == d
    ensures Neighbor(p, d) != p
    ensures Neighbor(p, d) == Neighbor(p, e) ==> d == e
    ensures Opposite(d) == Opposite(e) ==> d == e
  {
  }

  /** The wall flags of one cell; `true` means the wall is standing. */
  datatype Walls = Walls(top: bool, right: bool, bottom: bool, left: bool)
  {
    predicate Has(d: Direction)
    {
      match d
      case Top => top
      case Right => right
      case Bottom => bottom
      case Left => left
    }

    /** The same walls with the one facing `d` knocked down. */
    function Remove(d: Direction): (r: Walls)
      ensures !r.Has(d)
      ensures forall e :: e != d ==> r.Has(e) == Has(e)
    {
      match d
      case Top => this.(top := false)
      case Right => this.(right := false)
      case Bottom => this.(bottom := false)
      case Left => this.(left := false)
    }
  }

  const AllWalls := Walls(true, true, true, true)
  const NoWalls := Walls(false, false, false, false)

  /** One cell: its own coordinates, its walls, and the flag the generator
      sets when it reaches the cell. */
  datatype Cell = Cell(x: int, y: int, walls: Walls, visited: bool)

  /** The coordinate a cell records for itself. */
  function CellPos(c: Cell): Pos
  {
    Pos(c.x, c.y)
  }

  /** A `w` by `h` grid stored row by row, `rows[j][i]` being column `i` of row `j`. */
  datatype Grid = Grid(w: nat, h: nat, rows: seq<seq<Cell>>)
  {
    predicate Valid()
    {
      |rows| == h && forall j :: 0 <= j < h ==> |rows[j]| == w
    }

    predicate InGrid(p: Pos)
    {
      0 <= p.i < w && 0 <= p.j < h
    }

    function At(p: Pos): Cell
      requires Valid() && InGrid(p)
    {
      rows[p.j][p.i]
    }

    /** The grid with the cell at `p` replaced by `c`. */
    function Put(p: Pos, c: Cell): (r: Grid)
      requires Valid() && InGrid(p)
      ensures r.Valid() && r.w == w && r.h == h
      ensures r.At(p) == c
      ensures forall q :: InGrid(q) && q != p ==> r.At(q) == At(q)
    {
      Grid(w, h, rows[p.j := rows[p.j][p.i := c]])
    }

    predicate HasWall(p: Pos, d: Direction)
      requires Valid() && InGrid(p)
    {
      At(p).walls.Has(d)
    }

    /** An opening from `p` towards `d` into another cell of the grid. */
    predicate Passage(p: Pos, d: Direction)
      requires Valid()
    {
      InGrid(p) && InGrid(Neighbor(p, d)) && !HasWall(p, d)
    }
  }

  /** The set of all coordinates of a `w` by `h` grid. */
  function AllPos(w: nat, h: nat): set<Pos>
  {
    set i, j | 0 <= i < w && 0 <= j < h :: Pos(i, j)
  }

  function Row(w: nat, j: int): set<Pos>
  {
    set i | 0 <= i < w :: Pos(i, j)
  }

  lemma {:induction false} RowCard(w: nat, j: int)
    ensures |Row(w, j)| == w
    decreases w
  {
    if w == 0 {
      assert Row(w, j) == {};
    } else {
      RowCard(w - 1, j);
      assert Row(w, j) == Row(w - 1, j) + {Pos(w - 1, j)};
    }
  }

  /** A `w` by `h` grid has `w * h` cells. */
  lemma {:induction false} AllPosCard(w: nat, h: nat)
    ensures |AllPos(w, h)| == w * h
    decreases h
  {
    if h == 0 {
      assert AllPos(w, h) == {};
    } else {
      var above, last := AllPos(w, h - 1), Row(w, h - 1);
      AllPosCard(w, h - 1);
      RowCard(w, h - 1);
      AllPosSplit(w, h);
      assert |above + last| == |above| + |last|;
      assert w * h == w * (h - 1) + w;
    }
  }

  /** The grid is the rows above the last one plus the last row, which share no cell. */
  lemma AllPosSplit(w: nat, h: nat)
    requires 0 < h
    ensures AllPos(w, h) == AllPos(w, h - 1) + Row(w, h - 1)
    ensures AllPos(w, h - 1) * Row(w, h - 1) == {}
  {
  }

  /** Any set of cells of a grid has at most as many members as the grid,
      and exactly as many only when it is the whole grid. */
  lemma CellsBound(g: Grid, s: set<Pos>)
    requires forall p :: p in s ==> g.InGrid(p)
    ensures |s| <= g.w * g.h
    ensures (forall p :: g.InGrid(p) ==> p in s) ==> |s| == g.w * g.h
    ensures |s| == g.w * g.h ==> forall p :: g.InGrid(p) ==> p in s
  {
    AllPosCard(g.w, g.h);
    assert s <= AllPos(g.w, g.h) by {
      forall p | p in s ensures p in AllPos(g.w, g.h) {
        assert Pos(p.i, p.j) == p;
      }
    }
    var t := AllPos(g.w, g.h);
    assert t == s + (t - s) && s * (t - s) == {};
    if forall p :: g.InGrid(p) ==> p in s {
      assert s == t;
    }
    if |s| == g.w * g.h {
      assert |t - s| == 0;
      forall p | g.InGrid(p) ensures p in s {
        InAllPos(g, p);
      }
    }
  }

  lemma InAllPos(g: Grid, p: Pos)
    ensures p in AllPos(g.w, g.h) <==> g.InGrid(p)
  {
    if g.InGrid(p) {
      assert p == Pos(p.i, p.j);
    }
  }

  /** Every cell records its own column and row. */
  ghost predicate Coordinates(g: Grid)
    requires g.Valid()
  {
    forall p :: g.InGrid(p) ==> CellPos(g.At(p)) == p
  }

  /** Two neighbouring cells agree on the wall between them. */
  ghost predicate Symmetric(g: Grid)
    requires g.Valid()
  {
    forall p, d :: g.InGrid(p) && g.InGrid(Neighbor(p, d)) ==>
      g.HasWall(p, d) == g.At(Neighbor(p, d)).walls.Has(Opposite(d))
  }

  /** Every wall on the outside of the grid stands: the top walls of row 0,
      the right walls of the last column, the bottom walls of the last row
      and the left walls of column 0. */
  ghost predicate BoundaryIntact(g: Grid)
    requires g.Valid()
  {
    forall p, d :: g.InGrid(p) && !g.InGrid(Neighbor(p, d)) ==> g.HasWall(p, d)
  }

  /** `fillGrid`: every cell gets its own coordinates, all four walls, and
      is marked unvisited. */
  function FillGrid(w: nat, h: nat): (g: Grid)
    ensures g.Valid() && g.w == w && g.h == h
    ensures forall p :: g.InGrid(p) ==> g.At(p) == Cell(p.i, p.j, AllWalls, false)
  {
    Grid(w, h, seq(h, j => seq(w, i => Cell(i, j, AllWalls, false))))
  }

  /** A freshly filled grid is a closed box of closed cells: coordinates
      right, walls consistent, the outside walled and no passage anywhere. */
  lemma FillGridIsClosed(w: nat, h: nat)
    ensures Coordinates(FillGrid(w, h))
    ensures Symmetric(FillGrid(w, h))
    ensures BoundaryIntact(FillGrid(w, h))
    ensures forall p, d :: !FillGrid(w, h).Passage(p, d)
  {
  }

  /** The grid as a zero-initialised static array holds it before the first
      maze is made: every field zero, so no wall stands anywhere. */
  function ZeroGrid(w: nat, h: nat): (g: Grid)
    ensures g.Valid() && g.w == w && g.h == h
    ensures forall p :: g.InGrid(p) ==> g.At(p) == Cell(0, 0, NoWalls, false)
  {
    Grid(w, h, seq(h, j => seq(w, i => Cell(0, 0, NoWalls, false))))
  }

  /** Knock down the wall of `p` facing `d` and the opposite wall of the
      neighbour, and mark the neighbour visited. */
  function Carve(g: Grid, p: Pos, d: Direction): (r: Grid)
    requires g.Valid() && g.InGrid(p) && g.InGrid(Neighbor(p, d))
    ensures r.Valid() && r.w == g.w && r.h == g.h
    ensures r.At(p) == g.At(p).(walls := g.At(p).walls.Remove(d))
    ensures var q := Neighbor(p, d);
      r.At(q) == g.At(q).(walls := g.At(q).walls.Remove(Opposite(d)), visited := true)
    ensures forall s :: g.InGrid(s) && s != p && s != Neighbor(p, d) ==> r.At(s) == g.At(s)
  {
    var c := g.At(p);
    var g1 := g.Put(p, c.(walls := c.walls.Remove(d)));
    var q := Neighbor(p, d);
    var n := g1.At(q);
    g1.Put(q, n.(walls := n.walls.Remove(Opposite(d)), visited := true))
  }

  /** Carving keeps every cell's coordinates and never opens a wall on the
      outside of the grid: the only walls it knocks down face cells inside. */
  lemma CarveKeepsOutside(g: Grid, p: Pos, d: Direction)
    requires g.Valid() && g.InGrid(p) && g.InGrid(Neighbor(p, d))
    requires Coordinates(g) && BoundaryIntact(g)
    ensures Coordinates(Carve(g, p, d))
    ensures BoundaryIntact(Carve(g, p, d))
  {
    var r := Carve(g, p, d);
    NeighborFacts(p, d, d);
    forall s, e | r.InGrid(s) && !r.InGrid(Neighbor(s, e))
      ensures r.HasWall(s, e)
    {
      NeighborFacts(p, d, e);
      NeighborFacts(Neighbor(p, d), Opposite(d), e);
      assert g.HasWall(s, e);
    }
  }

  /** Carving keeps neighbouring cells in agreement about the wall between
      them, and opens exactly the passage between `p` and its neighbour, in
      both directions. */
  lemma {:induction false} CarveKeepsSymmetric(g: Grid, p: Pos, d: Direction)
    requires g.Valid() && g.InGrid(p) && g.InGrid(Neighbor(p, d))
    requires Symmetric(g)
    ensures Symmetric(Carve(g, p, d))
    ensures Carve(g, p, d).Passage(p, d)
    ensures Carve(g, p, d).Passage(Neighbor(p, d), Opposite(d))
  {
    var r := Carve(g, p, d);
    var q := Neighbor(p, d);
    NeighborFacts(p, d, d);
    forall s, e | r.InGrid(s) && r.InGrid(Neighbor(s, e))
      ensures r.HasWall(s, e) == r.At(Neighbor(s, e)).walls.Has(Opposite(e))
    {
      var t := Neighbor(s, e);
      NeighborFacts(s, e, e);
      NeighborFacts(s, d, e);
      NeighborFacts(q, Opposite(d), Opposite(e));
      NeighborFacts(t, Opposite(e), d);
      if s == p && e == d {
      } else if s == q && e == Opposite(d) {
      } else {
        assert r.HasWall(s, e) == g.HasWall(s, e);
        assert r.At(t).walls.Has(Opposite(e)) == g.At(t).walls.Has(Opposite(e));
      }
    }
  }
}
