/** The player: a target cell that arrow keys move through openings
    (`movePlayer`), and a pixel position that follows the target a fixed
    step per frame (`playerMovement`). */
module Motion {
  import opened Grid

  const CellWidth: int := 48
  const CellBorder: int := 8
  /** Pixels moved per frame on each axis. */
  const Step: int := 14
  const XOffset: int := 332
  const YOffset: int := 52

  /** Pixel distance between the origins of two neighbouring cells. */
  const Span: int := CellWidth + CellBorder

  /** `current` is the last cell the sprite fully reached, `next` the cell it
      is heading for, and (`x`, `y`) the sprite's pixel position. */
  datatype Player = Player(current: Pos, next: Pos, x: int, y: int)

  /** The player at the start of every maze: cell (0, 0), at rest. */
  const StartPlayer := Player(Pos(0, 0), Pos(0, 0), XOffset, YOffset)

  datatype Option<T> = None | Some(value: T)

  function PixelX(i: int): int
  {
    XOffset + Span * i
  }

  function PixelY(j: int): int
  {
    YOffset + Span * j
  }

  /** The bound `movePlayer` checks before stepping towards `d`, as written:
      the columns are compared with the grid width, the rows with its height. */
  predicate LooseBound(g: Grid, p: Pos, d: Direction)
  {
    match d
    case Top => p.j > 0
    case Right => p.i < g.w
    case Bottom => p.j < g.h
    case Left => p.i > 0
  }

  /** The bound that keeps the step inside the grid. */
  predicate TightBound(g: Grid, p: Pos, d: Direction)
  {
    match d
    case Top => p.j > 0
    case Right => p.i < g.w - 1
    case Bottom => p.j < g.h - 1
    case Left => p.i > 0
  }

  /** `movePlayer` as written: when the loose bound holds, read the wall of
      the target cell facing `d` and step the target through it if it is
      down. `None` stands for a read of a cell outside the declared bounds
      of the grid array, which C leaves undefined. */
  function MovePlayerAsWritten(g: Grid, p: Player, d: Direction): (r: Option<Player>)
    requires g.Valid()
    ensures r.None? <==> LooseBound(g, p.next, d) && !g.InGrid(p.next)
    ensures r.Some? ==> r.value.current == p.current && r.value.x == p.x && r.value.y == p.y
    ensures r.Some? ==> (r.value.next == Neighbor(p.next, d) <==>
      LooseBound(g, p.next, d) && g.InGrid(p.next) && !g.HasWall(p.next, d))
    ensures r.Some? && r.value.next != Neighbor(p.next, d) ==> r.value.next == p.next
  {
    if !LooseBound(g, p.next, d) then Some(p)
    else if !g.InGrid(p.next) then None
    else if g.HasWall(p.next, d) then Some(p)
    else Some(p.(next := Neighbor(p.next, d)))
  }

  /** `movePlayer` with the bound corrected to stay inside the grid: the
      target steps towards `d` exactly when there is an opening that way, and
      it never leaves the grid, whatever the walls. */
  function MovePlayer(g: Grid, p: Player, d: Direction): (r: Player)
    requires g.Valid() && g.InGrid(p.next)
    ensures g.InGrid(r.next)
    ensures r.current == p.current && r.x == p.x && r.y == p.y
    ensures r.next == Neighbor(p.next, d) <==> g.Passage(p.next, d)
    ensures r.next != Neighbor(p.next, d) ==> r.next == p.next
  {
    if TightBound(g, p.next, d) && !g.HasWall(p.next, d) then p.(next := Neighbor(p.next, d)) else p
  }

  /** On a grid whose outside walls stand, the loose bound is harmless: the
      code as written does exactly what the corrected move does. */
  lemma LooseBoundSafe(g: Grid, p: Player, d: Direction)
    requires g.Valid() && BoundaryIntact(g) && g.InGrid(p.next)
    ensures MovePlayerAsWritten(g, p, d) == Some(MovePlayer(g, p, d))
  {
    if LooseBound(g, p.next, d) && !TightBound(g, p.next, d) {
      assert !g.InGrid(Neighbor(p.next, d));
    }
  }

  /** Several arrow keys in a row, as written; `None` once a read falls
      outside the grid array. */
  function MovesAsWritten(g: Grid, p: Player, ds: seq<Direction>): Option<Player>
    requires g.Valid()
    decreases |ds|
  {
    if ds == [] then Some(p)
    else match MovePlayerAsWritten(g, p, ds[0])
      case None => None
      case Some(q) => MovesAsWritten(g, q, ds[1..])
  }

  /** On a grid without walls, `k` presses of RIGHT from column `a` of row 0
      take the target to column `a + k`, up to and including column `w`,
      one past the last column. */
  lemma {:induction false} RightsOnOpenGrid(w: nat, h: nat, a: nat, k: nat)
    requires 0 < h && a + k <= w
    ensures MovesAsWritten(ZeroGrid(w, h), StartPlayer.(next := Pos(a, 0)), seq(k, _ => Right))
         == Some(StartPlayer.(next := Pos(a + k, 0)))
    decreases k
  {
    var g := ZeroGrid(w, h);
    var ds := seq(k, _ => Right);
    if k == 0 {
      assert ds == [];
    } else {
      assert g.InGrid(Pos(a, 0));
      assert MovePlayerAsWritten(g, StartPlayer.(next := Pos(a, 0)), Right)
          == Some(StartPlayer.(next := Pos(a + 1, 0)));
      assert ds[1..] == seq(k - 1, _ => Right);
      RightsOnOpenGrid(w, h, a + 1, k - 1);
    }
  }

  /** The start screen's grid is the zero-initialised array, with no wall
      anywhere. Eleven presses of RIGHT there take the target to column 11 of
      an 11-column grid, and a further DOWN reads outside the row. */
  lemma StartScreenEscape()
    ensures MovesAsWritten(ZeroGrid(11, 11), StartPlayer, seq(11, _ => Right))
         == Some(StartPlayer.(next := Pos(11, 0)))
    ensures !ZeroGrid(11, 11).InGrid(Pos(11, 0))
    ensures MovePlayerAsWritten(ZeroGrid(11, 11), StartPlayer.(next := Pos(11, 0)), Bottom) == None
  {
    assert StartPlayer.(next := Pos(0, 0)) == StartPlayer;
    RightsOnOpenGrid(11, 11, 0, 11);
  }

  /** With the corrected bound, the same presses stop at the last column. */
  lemma StartScreenContained()
    ensures MovePlayer(ZeroGrid(11, 11), StartPlayer.(next := Pos(10, 0)), Right)
         == StartPlayer.(next := Pos(10, 0))
  {
  }

  function Abs(n: int): nat
  {
    if n < 0 then -n else n
  }

  /** Pixel distance from the sprite to the target cell, per axis. */
  function DistX(p: Player): nat
  {
    Abs(p.x - PixelX(p.next.i))
  }

  function DistY(p: Player): nat
  {
    Abs(p.y - PixelY(p.next.j))
  }

  /** The sprite sits on the step lattice anchored at the grid's origin. */
  predicate Aligned(p: Player)
  {
    (p.x - XOffset) % Step == 0 && (p.y - YOffset) % Step == 0
  }

  /** At rest: the target reached and the sprite on its cell. */
  predicate Settled(p: Player)
  {
    p.current == p.next && p.x == PixelX(p.next.i) && p.y == PixelY(p.next.j)
  }

  /** `playerMovement`: on each axis, if the sprite already sits on the
      target's pixel, the current cell takes the target's coordinate on that
      axis; otherwise the sprite moves one step towards it. */
  function PlayerMovement(p: Player): (r: Player)
    ensures r.next == p.next
    ensures (r.x == p.x) == (p.x == PixelX(p.next.i))
    ensures r.x == p.x || r.x == p.x + Step || r.x == p.x - Step
    ensures r.x > p.x ==> p.x < PixelX(p.next.i)
    ensures r.x < p.x ==> p.x > PixelX(p.next.i)
    ensures r.current.i == (if p.x == PixelX(p.next.i) then p.next.i else p.current.i)
    ensures (r.y == p.y) == (p.y == PixelY(p.next.j))
    ensures r.y == p.y || r.y == p.y + Step || r.y == p.y - Step
    ensures r.y > p.y ==> p.y < PixelY(p.next.j)
    ensures r.y < p.y ==> p.y > PixelY(p.next.j)
    ensures r.current.j == (if p.y == PixelY(p.next.j) then p.next.j else p.current.j)
  {
    var nextX := PixelX(p.next.i);
    var nextY := PixelY(p.next.j);
    var p1 :=
      if p.x == nextX then p.(current := Pos(p.next.i, p.current.j))
      else if p.x < nextX then p.(x := p.x + Step)
      else p.(x := p.x - Step);
    if p1.y == nextY then p1.(current := Pos(p1.current.i, p1.next.j))
    else if p1.y < nextY then p1.(y := p1.y + Step)
    else p1.(y := p1.y - Step)
  }

  /** Every cell origin lies on the step lattice anchored at the grid's
      origin `off`, because the step divides the cell span (14 divides
      48 + 8): a position on the lattice is a whole number of steps from
      every cell origin. */
  lemma LatticeGap(off: int, a: int, i: int)
    requires (a - off) % Step == 0
    ensures (off + Span * i - a) % Step == 0
  {
    assert off + Span * i - off == Step * (4 * i);
    var q := (a - off) / Step;
    assert a - off == Step * q;
    assert off + Span * i - a == Step * (4 * i - q);
  }

  /** A multiple of the step other than zero is at least one step away from it. */
  lemma LatticeDistance(n: int)
    requires n % Step == 0 && n != 0
    ensures Abs(n) >= Step
  {
  }

  /** On the lattice, a movement never overshoots: the distance to the
      target drops by exactly one step on each axis that is not there yet,
      and the sprite stays on the lattice. */
  lemma Approach(p: Player)
    requires Aligned(p)
    ensures Aligned(PlayerMovement(p))
    ensures DistX(PlayerMovement(p)) == if DistX(p) == 0 then 0 else DistX(p) - Step
    ensures DistY(PlayerMovement(p)) == if DistY(p) == 0 then 0 else DistY(p) - Step
  {
    var r := PlayerMovement(p);
    LatticeGap(XOffset, p.x, p.next.i);
    LatticeGap(YOffset, p.y, p.next.j);
    if p.x != PixelX(p.next.i) {
      LatticeDistance(PixelX(p.next.i) - p.x);
    }
    if p.y != PixelY(p.next.j) {
      LatticeDistance(PixelY(p.next.j) - p.y);
    }
    assert (r.x - XOffset) % Step == 0 by {
      assert r.x - XOffset == (p.x - XOffset) + (r.x - p.x);
    }
    assert (r.y - YOffset) % Step == 0 by {
      assert r.y - YOffset == (p.y - YOffset) + (r.y - p.y);
    }
  }

  /** At rest, a movement changes nothing. */
  lemma SettledIsFixpoint(p: Player)
    requires Settled(p)
    ensures PlayerMovement(p) == p
  {
  }

  /** `n` frames of movement with no key pressed. */
  function Frames(p: Player, n: nat): Player
    decreases n
  {
    if n == 0 then p else Frames(PlayerMovement(p), n - 1)
  }

  lemma {:induction false} SettledStays(p: Player, n: nat)
    requires Settled(p)
    ensures Frames(p, n) == p
    decreases n
  {
    if n > 0 {
      SettledIsFixpoint(p);
      SettledStays(p, n - 1);
    }
  }

  /** From any position on the lattice the player comes to rest on its
      target within one frame more than the number of steps to cover. */
  lemma {:induction false} Converges(p: Player, n: nat)
    requires Aligned(p)
    requires n > DistX(p) / Step && n > DistY(p) / Step
    ensures Settled(Frames(p, n))
    decreases n
  {
    var q := PlayerMovement(p);
    Approach(p);
    if DistX(p) == 0 && DistY(p) == 0 {
      assert Settled(q);
      SettledStays(q, n - 1);
    } else {
      assert DistX(q) / Step < n - 1 || DistX(p) == 0;
      Converges(q, n - 1);
    }
  }

  /** The main loop's motion step as written: `playerMovement` runs only
      while the current cell differs from the target. */
  function AdvanceAsWritten(p: Player): (r: Player)
    ensures r.next == p.next
    ensures r == p <==> p.current == p.next
  {
    if p.current != p.next then PlayerMovement(p) else p
  }

  /** The motion step with the intended guard: `playerMovement` runs until
      the player is at rest. */
  function Advance(p: Player): Player
  {
    if Settled(p) then p else PlayerMovement(p)
  }

  /** The two guards disagree exactly when the target has been reached but
      the sprite is not on it. */
  lemma AdvanceGuards(p: Player)
    ensures AdvanceAsWritten(p) != Advance(p) <==> p.current == p.next && !Settled(p)
  {
    if p.current == p.next && !Settled(p) {
      assert PlayerMovement(p).x != p.x || PlayerMovement(p).y != p.y;
    }
  }

  /** The sprite left off its cell by turning back mid-move. */
  const Stuck := Player(Pos(0, 0), Pos(0, 0), XOffset + Step, YOffset)

  /** As written, pressing RIGHT, letting one frame pass and pressing LEFT
      leaves the sprite one step to the right of cell (0, 0), where it then
      stays: the loop sees current == next and never moves it back. */
  lemma TurnBackStrands(g: Grid)
    requires g.Valid() && Symmetric(g) && g.Passage(Pos(0, 0), Right)
    ensures MovePlayerAsWritten(g, StartPlayer, Right) == Some(StartPlayer.(next := Pos(1, 0)))
    ensures MovePlayerAsWritten(g, AdvanceAsWritten(StartPlayer.(next := Pos(1, 0))), Left) == Some(Stuck)
    ensures AdvanceAsWritten(Stuck) == Stuck && !Settled(Stuck)
  {
    NeighborFacts(Pos(0, 0), Right, Right);
    assert g.HasWall(Pos(1, 0), Left) == g.HasWall(Pos(0, 0), Right);
  }

  /** `n` frames of the corrected motion step. */
  function AdvanceFrames(p: Player, n: nat): Player
    decreases n
  {
    if n == 0 then p else AdvanceFrames(Advance(p), n - 1)
  }

  /** With the intended guard the player always comes to rest, including
      after turning back mid-move. */
  lemma {:induction false} AdvanceConverges(p: Player, n: nat)
    requires Aligned(p)
    requires n > DistX(p) / Step && n > DistY(p) / Step
    ensures Settled(AdvanceFrames(p, n))
    ensures AdvanceFrames(p, n) == Frames(p, n)
    decreases n
  {
    var q := PlayerMovement(p);
    Approach(p);
    if Settled(p) {
      SettledIsFixpoint(p);
    }
    assert Advance(p) == q;
    if DistX(p) == 0 && DistY(p) == 0 {
      assert Settled(q);
      SettledStays(q, n - 1);
      AdvanceSettledStays(q, n - 1);
    } else {
      assert DistX(q) / Step < n - 1 || DistX(p) == 0;
      AdvanceConverges(q, n - 1);
    }
  }

  lemma {:induction false} AdvanceSettledStays(p: Player, n: nat)
    requires Settled(p)
    ensures AdvanceFrames(p, n) == p
    decreases n
  {
    if n > 0 {
      AdvanceSettledStays(p, n - 1);
    }
  }

  /** The player is inside a `w` by `h` grid: both cells in it and the
      sprite on the lattice within the grid's pixel span. */
  predicate OnBoard(p: Player, w: nat, h: nat)
  {
    && 0 <= p.current.i < w && 0 <= p.current.j < h
    && 0 <= p.next.i < w && 0 <= p.next.j < h
    && Aligned(p)
    && XOffset <= p.x <= PixelX(w - 1)
    && YOffset <= p.y <= PixelY(h - 1)
  }

  /** The corrected move keeps the player on the board. */
  lemma MoveStaysOnBoard(g: Grid, p: Player, d: Direction)
    requires g.Valid() && OnBoard(p, g.w, g.h)
    ensures OnBoard(MovePlayer(g, p, d), g.w, g.h)
  {
  }

  /** The motion step as written keeps the player on the board. */
  lemma AdvanceAsWrittenStaysOnBoard(p: Player, w: nat, h: nat)
    requires OnBoard(p, w, h)
    ensures OnBoard(AdvanceAsWritten(p), w, h)
  {
    Approach(p);
  }

  /** The corrected motion step keeps the player on the board. */
  lemma AdvanceStaysOnBoard(p: Player, w: nat, h: nat)
    requires OnBoard(p, w, h)
    ensures OnBoard(Advance(p), w, h)
  {
    Approach(p);
  }
}
