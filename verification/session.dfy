/** One play session: the start screen, the game, the win screen and the end,
    driven by key events and by the per-frame game logic. */
module Session {
  import opened Grid
  import opened Maze
  import opened Motion

  const GridWidth: nat := 11
  const GridHeight: nat := 11

  /** The cell the player must reach: the bottom-right corner. */
  const Goal := Pos(GridWidth - 1, GridHeight - 1)

  /** The game states, coded 'S', 'G', 'W' and 'D' in the program. */
  datatype State = Start | Game | Win | Done

  datatype Key = ArrowUp | ArrowRight | ArrowDown | ArrowLeft | LetterS | LetterR | OtherKey

  /** A key press (`repeat` is set for auto-repeated presses) or a quit request. */
  datatype Event = KeyDown(key: Key, repeat: bool) | Quit

  /** `screenShown` records whether the previous frame drew the start or the
      win screen; those frames set `timer_start`, which the game frame reads
      to decide whether the maze was just entered. */
  datatype Session = Session(state: State, grid: Grid, player: Player, screenShown: bool)

  predicate IsArrow(k: Key)
  {
    k == ArrowUp || k == ArrowRight || k == ArrowDown || k == ArrowLeft
  }

  function ArrowDirection(k: Key): Direction
    requires IsArrow(k)
  {
    match k
    case ArrowUp => Top
    case ArrowRight => Right
    case ArrowDown => Bottom
    case ArrowLeft => Left
  }

  /** The state change one event causes: quitting ends the session from any
      state, S starts the game from the start screen, R restarts it from the
      win screen, and nothing else changes the state. */
  function NextState(s: State, e: Event): (r: State)
    ensures e.Quit? ==> r == Done
    ensures (r == Game && s != Game) <==>
      (e == KeyDown(LetterS, false) && s == Start) || (e == KeyDown(LetterR, false) && s == Win)
    ensures r != s ==> e.Quit? || r == Game
  {
    match e
    case Quit => Done
    case KeyDown(k, repeat) =>
      if repeat then s
      else if k == LetterS && s == Start then Game
      else if k == LetterR && s == Win then Game
      else s
  }

  /** The state after a sequence of events. */
  function StateAfter(s: State, es: seq<Event>): State
    decreases |es|
  {
    if es == [] then s else StateAfter(NextState(s, es[0]), es[1..])
  }

  /** Once done, always done. */
  lemma {:induction false} DoneIsFinal(es: seq<Event>)
    ensures StateAfter(Done, es) == Done
    decreases |es|
  {
    if es != [] {
      DoneIsFinal(es[1..]);
    }
  }

  /** Events alone never lead to the start or the win screen from anywhere
      else: a sequence of them keeps the state, or ends in the game or done. */
  lemma {:induction false} StatesReached(s: State, es: seq<Event>)
    ensures StateAfter(s, es) in {s, Game, Done}
    decreases |es|
  {
    if es != [] {
      StatesReached(NextState(s, es[0]), es[1..]);
    }
  }

  /** The game state can only be entered from the start or win screen. */
  lemma {:induction false} GameEntered(s: State, es: seq<Event>)
    requires s != Game && StateAfter(s, es) == Game
    ensures s == Start || s == Win
    decreases |es|
  {
    if es != [] {
      if NextState(s, es[0]) != Game {
        GameEntered(NextState(s, es[0]), es[1..]);
      }
    }
  }

  /** On the start screen the sprite has not moved from cell (0, 0), and the
      target lies within one column and one row past the grid: the loose
      bounds of `movePlayer` let it go no further without an out-of-array read. */
  predicate StartShape(p: Player, w: nat, h: nat)
  {
    && p.current == Pos(0, 0) && p.x == XOffset && p.y == YOffset
    && 0 <= p.next.i <= w && 0 <= p.next.j <= h
  }

  /** The session holds together: an 11 by 11 grid; on the start screen the
      zero-initialised grid and a player of the start-screen shape; during
      the game and on the win screen a generated maze with the player on it. */
  ghost predicate Good(s: Session)
  {
    && s.grid.Valid() && s.grid.w == GridWidth && s.grid.h == GridHeight
    && (s.state == Start ==>
          s.grid == ZeroGrid(GridWidth, GridHeight) && StartShape(s.player, GridWidth, GridHeight))
    && (s.state == Game || s.state == Win ==>
          Generated(s.grid) && OnBoard(s.player, GridWidth, GridHeight))
  }

  /** The program's starting point: start screen, grid array still zero,
      player at cell (0, 0), and no frame drawn yet, so `timer_start` is
      still unset. */
  function Initial(): (r: Session)
    ensures Good(r)
    ensures r.state == Start && r.player == StartPlayer && !r.screenShown
  {
    Session(Start, ZeroGrid(GridWidth, GridHeight), StartPlayer, false)
  }

  /** A fresh, not auto-repeated press of an arrow key. */
  predicate IsPress(e: Event)
  {
    e.KeyDown? && !e.repeat && IsArrow(e.key)
  }

  /** The arrow key for a direction. */
  function KeyOf(d: Direction): (k: Key)
    ensures IsArrow(k) && ArrowDirection(k) == d
  {
    match d
    case Top => ArrowUp
    case Right => ArrowRight
    case Bottom => ArrowDown
    case Left => ArrowLeft
  }

  /** One event as `processEvents` handles it. Auto-repeated presses are
      dropped. Arrow keys call `movePlayer` as written in every state: their
      case labels sit inside an `if (game_state == 'G')` that a jump to the
      label skips. `None` stands for a read outside the grid array. */
  function ProcessEvent(s: Session, e: Event): (r: Option<Session>)
    requires s.grid.Valid()
    ensures r.None? <==> IsPress(e) && MovePlayerAsWritten(s.grid, s.player, ArrowDirection(e.key)).None?
    ensures r.Some? ==> r.value.grid == s.grid && r.value.state == NextState(s.state, e)
    ensures r.Some? && IsPress(e) ==>
      MovePlayerAsWritten(s.grid, s.player, ArrowDirection(e.key)) == Some(r.value.player)
    ensures !IsPress(e) ==> r.Some? && r.value.player == s.player
  {
    if IsPress(e) then
      match MovePlayerAsWritten(s.grid, s.player, ArrowDirection(e.key))
      case None => None
      case Some(q) => Some(s.(player := q))
    else
      Some(s.(state := NextState(s.state, e)))
  }

  /** The directions of the fresh arrow presses among `es`, in order. */
  function PressDirs(es: seq<Event>): (ds: seq<Direction>)
    ensures |ds| <= |es|
    decreases |es|
  {
    if es == [] then []
    else (if IsPress(es[0]) then [ArrowDirection(es[0].key)] else []) + PressDirs(es[1..])
  }

  /** All events polled in one frame, in order: the state follows the events,
      the player follows the arrow presses as successive `movePlayer` calls,
      and the grid is untouched. The result is `None` exactly when one of
      those calls reads outside the grid array. */
  function ProcessEvents(s: Session, es: seq<Event>): (r: Option<Session>)
    requires s.grid.Valid()
    ensures r.None? <==> MovesAsWritten(s.grid, s.player, PressDirs(es)).None?
    ensures r.Some? ==> r.value == s.(state := StateAfter(s.state, es),
                                      player := MovesAsWritten(s.grid, s.player, PressDirs(es)).value)
    decreases |es|
  {
    if es == [] then Some(s)
    else
      match ProcessEvent(s, es[0])
      case None => None
      case Some(s1) =>
        var rest := PressDirs(es[1..]);
        if IsPress(es[0]) then
          assert ([ArrowDirection(es[0].key)] + rest)[1..] == rest;
          ProcessEvents(s1, es[1..])
        else
          assert PressDirs(es) == rest;
          ProcessEvents(s1, es[1..])
  }

  /** On a grid whose outside walls stand, events never read outside the
      array and keep the player on the board. */
  lemma {:induction false} PlayEvents(s: Session, es: seq<Event>)
    requires s.grid.Valid() && BoundaryIntact(s.grid) && OnBoard(s.player, s.grid.w, s.grid.h)
    ensures ProcessEvents(s, es).Some?
    ensures OnBoard(ProcessEvents(s, es).value.player, s.grid.w, s.grid.h)
    decreases |es|
  {
    if es != [] {
      var e := es[0];
      if IsPress(e) {
        LooseBoundSafe(s.grid, s.player, ArrowDirection(e.key));
        MoveStaysOnBoard(s.grid, s.player, ArrowDirection(e.key));
      }
      var s1 := ProcessEvent(s, e).value;
      PlayEvents(s1, es[1..]);
    }
  }

  /** One arrow press as written keeps the start-screen shape, unless it
      reads outside the array. */
  lemma StartMove(g: Grid, p: Player, d: Direction)
    requires g.Valid() && StartShape(p, g.w, g.h)
    ensures MovePlayerAsWritten(g, p, d).Some? ==> StartShape(MovePlayerAsWritten(g, p, d).value, g.w, g.h)
  {
  }

  /** Whatever the events, a player of the start-screen shape keeps it for as
      long as no read falls outside the array. */
  lemma {:induction false} StartEvents(s: Session, es: seq<Event>)
    requires s.grid.Valid() && StartShape(s.player, s.grid.w, s.grid.h)
    ensures ProcessEvents(s, es).Some? ==> StartShape(ProcessEvents(s, es).value.player, s.grid.w, s.grid.h)
    decreases |es|
  {
    if es != [] {
      var e := es[0];
      if IsPress(e) {
        StartMove(s.grid, s.player, ArrowDirection(e.key));
      }
      match ProcessEvent(s, e)
      case None =>
      case Some(s1) => StartEvents(s1, es[1..]);
    }
  }

  /** The key presses for a sequence of directions. */
  function Presses(ds: seq<Direction>): (es: seq<Event>)
    ensures |es| == |ds|
    ensures forall k :: 0 <= k < |ds| ==> IsPress(es[k]) && ArrowDirection(es[k].key) == ds[k]
  {
    if ds == [] then [] else [KeyDown(KeyOf(ds[0]), false)] + Presses(ds[1..])
  }

  /** Arrow presses processed as events move the player exactly as the
      presses of `movePlayer` do, and leave the state alone. */
  lemma {:induction false} PressesMove(s: Session, ds: seq<Direction>)
    requires s.grid.Valid()
    ensures MovesAsWritten(s.grid, s.player, ds).None? ==> ProcessEvents(s, Presses(ds)).None?
    ensures MovesAsWritten(s.grid, s.player, ds).Some? ==>
      ProcessEvents(s, Presses(ds)) == Some(s.(player := MovesAsWritten(s.grid, s.player, ds).value))
    decreases |ds|
  {
    if ds != [] {
      var es := Presses(ds);
      assert es[1..] == Presses(ds[1..]);
      match MovePlayerAsWritten(s.grid, s.player, ds[0])
      case None =>
      case Some(q) =>
        assert ProcessEvent(s, es[0]) == Some(s.(player := q));
        PressesMove(s.(player := q), ds[1..]);
    }
  }

  /** On the start screen, eleven presses of RIGHT in one frame take the
      target to column 11, outside the grid; the state stays on the start
      screen, and a press of DOWN in the next frame reads outside the array. */
  lemma StartScreenOverrun()
    ensures ProcessEvents(Initial(), Presses(seq(11, _ => Right)))
         == Some(Initial().(player := StartPlayer.(next := Pos(11, 0))))
    ensures ProcessEvents(Initial().(player := StartPlayer.(next := Pos(11, 0))), Presses([Bottom])).None?
  {
    StartScreenEscape();
    PressesMove(Initial(), seq(11, _ => Right));
    PressesMove(Initial().(player := StartPlayer.(next := Pos(11, 0))), [Bottom]);
  }

  /** One pass of the main loop, which runs until the state is done. The
      events are processed first. A frame whose events leave it on the
      start or win screen draws that screen and restarts the timer. A frame
      in the game state first checks the timer: if the previous frame drew
      the start or win screen, it resets the player and generates a new
      maze from `rand`, drawing `draws` random numbers; if no screen has
      been drawn yet, the timer is unset and the frame is undefined. Then
      `playerMovement` runs while the current cell differs from the target,
      and reaching the goal cell moves to the win screen without drawing it.
      `None` stands for a read outside the grid array or of the unset timer,
      which only the start screen can cause. */
  method Frame(s: Session, events: seq<Event>, rand: nat -> nat) returns (r: Option<Session>, draws: nat)
    requires Good(s) && s.state != Done
    ensures r.None? ==> s.state == Start
    ensures r.Some? ==> Good(r.value)
    ensures var m := ProcessEvents(s, events);
      var game := m.Some? && m.value.state == Game;
      && (draws == if game && s.screenShown then GridWidth * GridHeight - 1 else 0)
      && (m.None? ==> r.None?)
      && (m.Some? && !game ==> r == Some(m.value.(screenShown := m.value.state != Done)))
      && (game && s.screenShown ==>
            && r.Some? && r.value.state == Game && !r.value.screenShown
            && r.value.player == StartPlayer && Generated(r.value.grid)
            && r.value.grid.Passage(Pos(GridWidth / 2, GridHeight / 2), FirstDirection(rand(0))))
      && (game && !s.screenShown && s.state == Start ==> r.None?)
      && (game && !s.screenShown && s.state != Start ==>
            && r.Some?
            && r.value.grid == s.grid && !r.value.screenShown
            && r.value.player == AdvanceAsWritten(m.value.player)
            && (r.value.state == Win <==> r.value.player.current == Goal)
            && (r.value.state == Game || r.value.state == Win))
    ensures (&& s.state == Win && !s.screenShown && s.player.current == s.player.next == Goal
             && events == [KeyDown(LetterR, false)]) ==> r == Some(s)
  {
    var m := ProcessEvents(s, events);
    StatesReached(s.state, events);
    if s.state == Start {
      StartEvents(s, events);
    } else {
      PlayEvents(s, events);
    }
    draws := 0;
    match m
    case None =>
      r := None;
    case Some(after) =>
      if after.state != Game {
        r := Some(after.(screenShown := after.state != Done));
      } else if !s.screenShown && s.state == Start {
        r := None;
      } else {
        var grid := after.grid;
        var player := after.player;
        if s.screenShown {
          grid, draws := MakeMaze(GridWidth, GridHeight, rand);
          player := StartPlayer;
        }
        AdvanceAsWrittenStaysOnBoard(player, GridWidth, GridHeight);
        player := AdvanceAsWritten(player);
        var state := if player.current == Goal then Win else Game;
        r := Some(Session(state, grid, player, false));
      }
  }

  /** During the game and on the win screen the maze's outside walls stand,
      so the arrow keys as written behave exactly like the corrected move. */
  lemma PlayFollowsSource(s: Session, d: Direction)
    requires Good(s) && (s.state == Game || s.state == Win)
    ensures MovePlayerAsWritten(s.grid, s.player, d) == Some(MovePlayer(s.grid, s.player, d))
  {
    LooseBoundSafe(s.grid, s.player, d);
  }
}
