/**
  A model of the Snake simulation of gym-snake2 (class SnakeEnv): a 20 x 20
  grid whose outer ring is wall, a snake stored head first, a facing
  direction 0..3 (up, right, down, left), a starvation counter and one apple.
 */
module Snake2Env {

  const Width: int := 20
  const Height: int := 20
  const MaxSnakeHealth: int := 100

  datatype Option<T> = None | Some(value: T)

  /** A grid position; x grows to the right, y grows downwards. */
  datatype Cell = Cell(x: int, y: int)

  predicate InGrid(c: Cell) {
    0 <= c.x < Width && 0 <= c.y < Height
  }

  /** The cells the apple spawner accepts: everything off the outer ring. */
  predicate Interior(c: Cell) {
    1 <= c.x <= Width - 2 && 1 <= c.y <= Height - 2
  }

  /** The border test of the collision check, with its constants as written. */
  predicate OnBorder(c: Cell) {
    c.x == Height - 1 || c.y == Width - 1 || c.x == 0 || c.y == 0
  }

  /** The cells the board snapshot paints as wall: rows 0 and Height-1, columns 0 and Width-1. */
  predicate Wall(x: int, y: int) {
    y == 0 || y == Height - 1 || x == 0 || x == Width - 1
  }

  function Abs(n: int): (r: nat) {
    if n < 0 then -n else n
  }

  predicate Adjacent(a: Cell, b: Cell) {
    Abs(a.x - b.x) + Abs(a.y - b.y) == 1
  }

  function Opposite(d: int): (r: int) {
    (d + 2) % 4
  }

  /** The cell one step from c when moving in direction facing; any value
      other than 0, 1, 2 falls into the "left" branch. */
  function Offset(c: Cell, facing: int): (r: Cell)
    ensures Adjacent(r, c)
  {
    if facing == 0 then Cell(c.x, c.y - 1)
    else if facing == 1 then Cell(c.x + 1, c.y)
    else if facing == 2 then Cell(c.x, c.y + 1)
    else Cell(c.x - 1, c.y)
  }

  /** The cell the growth step appends: the tail moved one cell against the
      current facing; a facing outside 0..3 leaves the tail cell as it is. */
  function Behind(c: Cell, facing: int): (r: Cell) {
    if facing == 0 then Cell(c.x, c.y + 1)
    else if facing == 1 then Cell(c.x - 1, c.y)
    else if facing == 2 then Cell(c.x, c.y - 1)
    else if facing == 3 then Cell(c.x + 1, c.y)
    else c
  }

  /** Stage one of a step: an action equal to the facing or to its reverse is ignored. */
  function TurnFilter(facing: int, action: int): (r: int)
    ensures r == facing || r == action
    ensures r != facing <==> action != facing && action != Opposite(facing)
    ensures 0 <= facing < 4 ==> r != Opposite(facing)
  {
    if action != facing && action != Opposite(facing) then action else facing
  }

  /** Stage two of a step: push the new head, drop the tail. */
  function Moved(s: seq<Cell>, facing: int): (r: seq<Cell>)
    requires |s| >= 1
    ensures |r| == |s|
    ensures r[1..] == s[..|s| - 1]
    ensures Adjacent(r[0], s[0])
  {
    [Offset(s[0], facing)] + s[..|s| - 1]
  }

  /** Stage three: the head is on the border or on one of the other segments. */
  predicate Collides(s: seq<Cell>)
    requires |s| >= 1
  {
    OnBorder(s[0]) || s[0] in s[1..]
  }

  /** The body after the apple is eaten: one more cell past the tail. */
  function Grown(s: seq<Cell>, facing: int): (r: seq<Cell>)
    requires |s| >= 1
    ensures |r| == |s| + 1 && r[..|s|] == s
    ensures 0 <= facing < 4 ==> Adjacent(r[|s|], s[|s| - 1])
  {
    s + [Behind(s[|s| - 1], facing)]
  }

  /** The snapshot code of column x, row y: the apple wins, then wall and snake, else empty. */
  function BoardCode(s: seq<Cell>, apple: Cell, x: int, y: int): (r: int) {
    if Cell(x, y) == apple then 1
    else if Wall(x, y) || Cell(x, y) in s then -1
    else 0
  }

  const InitialBody: seq<Cell> := [Cell(15, 15), Cell(15, 16), Cell(15, 17)]

  predicate Connected(s: seq<Cell>) {
    forall i :: 0 <= i < |s| - 1 ==> Adjacent(s[i], s[i + 1])
  }

  predicate Distinct(s: seq<Cell>) {
    forall i, j :: 0 <= i < j < |s| ==> s[i] != s[j]
  }

  /** What holds of the body while the episode is running: every segment but
      the last (which may be a cell just grown, dropped by the next move) is
      an interior cell, and no two of them coincide. */
  predicate RunningBody(s: seq<Cell>) {
    && |s| >= 1
    && (forall c :: c in s[..|s| - 1] ==> Interior(c))
    && Distinct(s[..|s| - 1])
  }

  // ----------------------------------------------------------------------
  // Lemmas about the step stages

  /** The three descriptions of the wall (spawn, collision, snapshot) agree on the grid. */
  lemma WallAgreement(c: Cell)
    requires InGrid(c)
    ensures Interior(c) <==> !OnBorder(c)
    ensures OnBorder(c) <==> Wall(c.x, c.y)
  {
  }

  /** The growth offset is the move offset in the opposite direction, so it undoes a move. */
  lemma BehindIsReverseMove(c: Cell, facing: int)
    requires 0 <= facing < 4
    ensures Behind(c, facing) == Offset(c, Opposite(facing))
    ensures Behind(Offset(c, facing), facing) == c
  {
  }

  /** A head that stays off the border after one move from an interior cell is interior. */
  lemma MovedHeadInterior(c: Cell, facing: int)
    requires Interior(c)
    ensures InGrid(Offset(c, facing))
    ensures !OnBorder(Offset(c, facing)) ==> Interior(Offset(c, facing))
  {
  }

  lemma MovedConnected(s: seq<Cell>, facing: int)
    requires |s| >= 1 && Connected(s)
    ensures Connected(Moved(s, facing))
  {
  }

  lemma GrownConnected(s: seq<Cell>, facing: int)
    requires |s| >= 1 && Connected(s) && 0 <= facing < 4
    ensures Connected(Grown(s, facing))
  {
  }

  /** A move that does not run the head into the body keeps the running
      invariant, and the whole moved body (the part a growth step keeps in
      front of its new cell) is interior and duplicate-free. */
  lemma MovedRunning(s: seq<Cell>, facing: int)
    requires |s| >= 2 && RunningBody(s)
    requires !Collides(Moved(s, facing))
    ensures Distinct(Moved(s, facing))
    ensures forall i :: 0 <= i < |s| ==> Interior(Moved(s, facing)[i])
    ensures RunningBody(Moved(s, facing))
    ensures RunningBody(Grown(Moved(s, facing), facing))
  {
    var r := Moved(s, facing);
    MovedHeadInterior(s[0], facing);
    WallAgreement(r[0]);
    forall i | 0 <= i < |r|
      ensures Interior(r[i])
    {
      if i > 0 {
        assert r[i] == r[1..][i - 1] == s[i - 1];
      }
    }
    forall i, j | 0 <= i < j < |r|
      ensures r[i] != r[j]
    {
      if i == 0 {
        assert r[j] == r[1..][j - 1];
      } else {
        assert r[i] == s[..|s| - 1][i - 1] && r[j] == s[..|s| - 1][j - 1];
      }
    }
    var g := Grown(r, facing);
    assert g[..|g| - 1] == r;
  }

  predicate AllInGrid(s: seq<Cell>) {
    forall c :: c in s ==> InGrid(c)
  }

  /** A move from an interior head stays on the grid. */
  lemma MovedInGrid(s: seq<Cell>, facing: int)
    requires |s| >= 1 && AllInGrid(s) && Interior(s[0])
    ensures AllInGrid(Moved(s, facing))
  {
  }

  /** Growing past an interior tail stays on the grid. */
  lemma GrownInGrid(s: seq<Cell>, facing: int)
    requires |s| >= 1 && AllInGrid(s) && Interior(s[|s| - 1])
    ensures AllInGrid(Grown(s, facing))
  {
  }

  // ----------------------------------------------------------------------
  // One tick on values

  /** The state a step reads and writes. */
  datatype Game = Game(segments: seq<Cell>, facing: int, health: int, apple: Cell, done: bool)

  /** What every game reached from Reset by Steps satisfies: the body is a
      connected chain of at least three cells inside the grid whose head is
      one move in the facing direction from the second segment, the apple is
      off the wall, health is in range and empty health means the episode is
      over; while it runs, the body (but its last cell) is interior and
      duplicate-free. */
  ghost predicate Reachable(g: Game) {
    && |g.segments| >= 3
    && 0 <= g.facing < 4
    && Connected(g.segments)
    && g.segments[0] == Offset(g.segments[1], g.facing)
    && AllInGrid(g.segments)
    && Interior(g.apple)
    && 0 <= g.health <= MaxSnakeHealth
    && (g.health == 0 ==> g.done)
    && (!g.done ==> RunningBody(g.segments))
  }

  /** One step of the game in its four stages; spawned is the cell the apple
      spawner draws if the apple is eaten. */
  function Tick(g: Game, action: int, spawned: Cell): (r: Game)
    requires |g.segments| >= 1
  {
    var f := TurnFilter(g.facing, action);
    var moved := Moved(g.segments, f);
    var eaten := moved[0] == g.apple;
    var health := if eaten then MaxSnakeHealth else g.health - 1;
    Game(if eaten then Grown(moved, f) else moved, f, health,
         if eaten then spawned else g.apple,
         Collides(moved) || health == 0)
  }

  /** What one tick does to the body, the health, the apple and the flag:
      the new head is next to the old one and the rest of the body is the old
      body shifted by one; the body grows by one cell exactly when the head
      lands on the apple, which restores health and moves the apple to the
      spawned cell; otherwise health drops by one and the apple stays; the
      episode ends exactly on a collision of the moved body or empty health. */
  lemma TickFacts(g: Game, action: int, spawned: Cell)
    requires |g.segments| >= 1
    ensures var r := Tick(g, action, spawned);
            var eaten := r.segments[0] == g.apple;
            && |r.segments| == |g.segments| + (if eaten then 1 else 0)
            && r.segments[1..|g.segments|] == g.segments[..|g.segments| - 1]
            && Adjacent(r.segments[0], g.segments[0])
            && r.health == (if eaten then MaxSnakeHealth else g.health - 1)
            && r.apple == (if eaten then spawned else g.apple)
            && (r.done <==> Collides(r.segments[..|g.segments|]) || r.health == 0)
  {
  }

  /** Reset starts a reachable game. */
  lemma InitialReachable(apple: Cell)
    requires Interior(apple)
    ensures Reachable(Game(InitialBody, 0, MaxSnakeHealth, apple, false))
  {
  }

  /** A step from a running reachable game with a legal action and an
      interior spawn cell reaches a reachable game. */
  lemma TickKeepsReachable(g: Game, action: int, spawned: Cell)
    requires Reachable(g) && !g.done
    requires 0 <= action < 4 && Interior(spawned)
    ensures Reachable(Tick(g, action, spawned))
  {
    var f := TurnFilter(g.facing, action);
    var before := g.segments;
    var moved := Moved(before, f);
    MovedConnected(before, f);
    MovedInGrid(before, f);
    if moved[0] == g.apple {
      GrownConnected(moved, f);
      assert moved[|moved| - 1] == before[|before| - 2];
      assert before[|before| - 2] in before[..|before| - 1];
      GrownInGrid(moved, f);
    }
    if !Collides(moved) {
      MovedRunning(before, f);
    }
  }

  /** The stages of a step, taken one after the other (the filtered facing,
      the moved body, whether the head met the apple, and the state after
      growth or starvation), compose to Tick and reach a reachable game. */
  lemma StepOutcome(g: Game, action: int, moved: seq<Cell>, eaten: bool, after: Game)
    requires Reachable(g) && !g.done && 0 <= action < 4
    requires after.facing == TurnFilter(g.facing, action)
    requires moved == Moved(g.segments, after.facing)
    requires eaten == (moved[0] == g.apple)
    requires after.segments == (if eaten then Grown(moved, after.facing) else moved)
    requires if eaten then Interior(after.apple) else after.apple == g.apple
    requires after.health == (if eaten then MaxSnakeHealth else g.health - 1)
    requires after.done == (Collides(moved) || after.health == 0)
    ensures after == Tick(g, action, after.apple) && Reachable(after)
  {
    TickKeepsReachable(g, action, after.apple);
  }

  /** The starvation clock: from a running reachable game health stays in
      [0, MaxSnakeHealth], drops by exactly one unless the apple is eaten, and
      a step that empties it ends the episode. */
  lemma TickHealth(g: Game, action: int, spawned: Cell)
    requires Reachable(g) && !g.done
    ensures var r := Tick(g, action, spawned);
            && 0 <= r.health <= MaxSnakeHealth
            && (r.segments[0] != g.apple ==> r.health == g.health - 1)
            && (r.health == 0 ==> r.done)
  {
  }

  /** A running game whose head has just moved right onto (6, 6), so it
      faces right (1); turning up (0) puts the head on the apple at (6, 5). */
  function OverlapGame(): Game
  {
    Game([Cell(6, 6), Cell(5, 6), Cell(5, 5), Cell(5, 4)], 1, 50, Cell(6, 5), false)
  }

  /** That game satisfies Reachable, including the head being one move in
      the facing direction from the second segment. */
  lemma OverlapGameReachable()
    ensures Reachable(OverlapGame())
  {
    var s := OverlapGame().segments;
    assert s[..3] == [Cell(6, 6), Cell(5, 6), Cell(5, 5)];
  }

  /** The growth cell is not kept off the body: in that reachable game, the
      cell appended behind the tail when the apple is eaten is a cell the
      body already occupies, and the episode goes on. */
  lemma GrowthCanOverlapBody()
    ensures Reachable(OverlapGame())
    ensures var r := Tick(OverlapGame(), 0, Cell(10, 10));
            && !r.done
            && r.segments == [Cell(6, 5), Cell(6, 6), Cell(5, 6), Cell(5, 5), Cell(5, 6)]
            && !Distinct(r.segments)
  {
    OverlapGameReachable();
    var g := OverlapGame();
    var r := Tick(g, 0, Cell(10, 10));
    assert Moved(g.segments, 0) == [Cell(6, 5), Cell(6, 6), Cell(5, 6), Cell(5, 5)];
    assert r.segments[2] == r.segments[4];
  }

  /** The snapshot of a reachable game: the apple is the only cell coded 1,
      every wall cell is -1 (the apple never covers one), every other snake
      cell is -1, and a cell is 0 exactly when it is interior, free of the
      snake and not the apple. */
  lemma BoardOfReachable(g: Game, x: int, y: int)
    requires Reachable(g)
    ensures BoardCode(g.segments, g.apple, x, y) == 1 <==> Cell(x, y) == g.apple
    ensures Wall(x, y) ==> BoardCode(g.segments, g.apple, x, y) == -1
    ensures Cell(x, y) in g.segments && Cell(x, y) != g.apple ==> BoardCode(g.segments, g.apple, x, y) == -1
    ensures InGrid(Cell(x, y)) ==>
              (BoardCode(g.segments, g.apple, x, y) == 0 <==>
               Interior(Cell(x, y)) && Cell(x, y) !in g.segments && Cell(x, y) != g.apple)
  {
  }

  // ----------------------------------------------------------------------
  // The environment

  class SnakeEnv {
    var segments: seq<Cell>
    var facing: int
    var health: int
    var apple: Cell
    var done: bool
    /** The head after the latest step; the reward shaping compares against it. */
    var previous: Option<Cell>

    ghost function State(): Game
      reads this
    {
      Game(segments, facing, health, apple, done)
    }

    ghost predicate Valid()
      reads this
    {
      Reachable(State())
    }

    /** No episode exists until Reset; only the previous-head slot is set. */
    constructor ()
      ensures segments == [] && previous == None && !done
    {
      segments := [];
      facing := 0;
      health := 0;
      apple := Cell(0, 0);
      done := false;
      previous := None;
    }

    method Reset()
      modifies this
      ensures Valid()
      ensures segments == InitialBody && facing == 0
      ensures health == MaxSnakeHealth && !done
      ensures Interior(apple)
      ensures previous == old(previous)
    {
      segments := InitialBody;
      health := MaxSnakeHealth;
      facing := 0;
      apple := SpawnApple();
      done := false;
      InitialReachable(apple);
    }

    /** Some cell off the wall; the random draw is left unspecified, and
        nothing keeps the cell off the snake. */
    method SpawnApple() returns (pos: Cell)
      ensures Interior(pos)
    {
      var x: int :| 1 <= x <= Width - 2;
      var y: int :| 1 <= y <= Height - 2;
      pos := Cell(x, y);
    }

    method MoveSnake()
      requires |segments| >= 1
      modifies this`segments
      ensures segments == Moved(old(segments), facing)
    {
      var head := Offset(segments[0], facing);
      var leftovers := segments[..|segments| - 1];
      segments := [head];
      for k := 0 to |leftovers|
        invariant segments == [head] + leftovers[..k]
      {
        segments := segments + [leftovers[k]];
      }
      assert leftovers[..|leftovers|] == leftovers;
    }

    method CheckCollision() returns (hit: bool)
      requires |segments| >= 1
      ensures hit <==> Collides(segments)
    {
      var head := segments[0];
      if head.x == Height - 1 || head.y == Width - 1 || head.x == 0 || head.y == 0 {
        return true;
      }
      var rest := segments[1..];
      for k := 0 to |rest|
        invariant forall j :: 0 <= j < k ==> rest[j] != head
      {
        if segments[0] == rest[k] {
          return true;
        }
      }
      return false;
    }

    method CheckEaten() returns (eaten: bool)
      requires |segments| >= 1
      modifies this`segments, this`apple
      ensures eaten <==> old(segments)[0] == old(apple)
      ensures eaten ==> segments == Grown(old(segments), facing) && Interior(apple)
      ensures !eaten ==> segments == old(segments) && apple == old(apple)
    {
      if segments[0] != apple {
        return false;
      }
      var tail := segments[|segments| - 1];
      segments := segments + [Behind(tail, facing)];
      apple := SpawnApple();
      return true;
    }

    /** One tick. The new state is Tick of the old one, with the apple's new
        cell (if it was eaten) as the spawner's draw. */
    method Step(action: int) returns (isDone: bool)
      requires Valid() && !done
      requires 0 <= action < 4
      modifies this
      ensures Valid()
      ensures State() == Tick(old(State()), action, apple)
      ensures isDone == done
      ensures previous == Some(segments[0])
    {
      ghost var before := State();
      facing := TurnFilter(facing, action);
      MoveSnake();
      ghost var moved := segments;
      var hit := CheckCollision();
      done := hit;
      var eaten := CheckEaten();
      if eaten {
        health := MaxSnakeHealth;
      } else {
        health := health - 1;
      }
      if health == 0 {
        done := true;
      }
      previous := Some(segments[0]);
      isDone := done;
      StepOutcome(before, action, moved, eaten, State());
    }

    method GetBoard() returns (board: array2<int>)
      requires AllInGrid(segments) && InGrid(apple)
      ensures fresh(board)
      ensures board.Length0 == Width && board.Length1 == Height
      ensures forall y, x :: 0 <= y < Height && 0 <= x < Width ==>
                board[y, x] == BoardCode(segments, apple, x, y)
    {
      board := new int[Width, Height]((_, _) => 0);
      for j := 0 to Width
        invariant forall r, c :: 0 <= r < Height && 0 <= c < Width ==>
                    board[r, c] == if (r == 0 || r == Height - 1) && c < j then -1 else 0
      {
        board[0, j] := -1;
        board[Height - 1, j] := -1;
      }
      for i := 0 to Height
        invariant forall r, c :: 0 <= r < Height && 0 <= c < Width ==>
                    board[r, c] == if r == 0 || r == Height - 1 || ((c == 0 || c == Width - 1) && r < i) then -1 else 0
      {
        board[i, 0] := -1;
        board[i, Width - 1] := -1;
      }
      for k := 0 to |segments|
        invariant forall r, c :: 0 <= r < Height && 0 <= c < Width ==>
                    board[r, c] == if Wall(c, r) || Cell(c, r) in segments[..k] then -1 else 0
      {
        assert segments[k] in segments;
        board[segments[k].y, segments[k].x] := -1;
      }
      assert segments[..|segments|] == segments;
      board[apple.y, apple.x] := 1;
    }
  }

  /** A client: after Reset, turning right moves the head to (16, 15); the
      reverse action then leaves the facing alone, and the head moves on to
      (17, 15), whatever cells the apple spawner picks. */
  method ReverseIsIgnored() returns (head: Cell, facing: int)
    ensures head == Cell(17, 15) && facing == 1
  {
    var env := new SnakeEnv();
    env.Reset();
    ghost var start := env.State();
    assert start.segments == InitialBody && start.facing == 0;
    var over := env.Step(1);
    assert env.facing == 1;
    assert env.segments[0] == Cell(16, 15) && !over;
    over := env.Step(3);
    head, facing := env.segments[0], env.facing;
  }
}
