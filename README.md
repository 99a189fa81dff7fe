# gym-snake2 simulation core, modelled in Dafny

This project models the Snake state machine of the `SnakeEnv` environment of
gym-snake2 and proves properties of it. The grid is 20 x 20 and its outer ring
is wall. The snake is a list of cells, head first. It has a facing (0 up,
1 right, 2 down, 3 left), a health counter that starts at 100, one apple and a
`done` flag.

`snake2_env.dfy` holds one module, `Snake2Env`:

- value-level definitions of the stages of a step: `TurnFilter` (the reversal
  filter), `Offset` and `Moved` (the move), `Collides` (the wall and
  self-collision test), `Behind` and `Grown` (growth) and `BoardCode` (one cell
  of the board snapshot);
- `Tick`, one whole step on a `Game` value, and `Reachable`, the invariant
  every state reached from `Reset` satisfies;
- the class `SnakeEnv`, whose fields are the environment's fields and whose
  methods `Reset`, `Step`, `MoveSnake`, `CheckCollision`, `CheckEaten`,
  `SpawnApple` and `GetBoard` follow the Python methods. `Step` is proved to
  produce `Tick` of the old state and to keep `Valid()` (that is,
  `Reachable`). `GetBoard` fills a fresh `array2<int>` through its loops and
  is proved equal to `BoardCode` on every cell.

The apple spawner is random. It is modelled as an arbitrary choice of an
interior cell. `Tick` takes the spawner's draw as a parameter, and `Step`
states its new state as `Tick` with the apple's new cell as that draw.

The code differs from the intent described for the game in two places.
The model follows the code in both.

- The spawn loop's inner `continue` only continues the `for` over segments,
  so the apple may land on the snake. Only wall cells are rejected.
  `SpawnApple` promises an interior cell and nothing more.
- Growth appends the old tail offset against the *current facing*. It does
  not continue the tail's own direction. The appended cell can coincide with
  a body cell; `GrowthCanOverlapBody` gives a running game satisfying
  `Reachable` where it does: the snake has just moved right, turns up onto
  the apple, and the cell grown behind its tail is one it already holds.
  The next move always drops that cell again. So the invariant that holds
  while the episode runs is weaker than "no duplicate segments": every segment
  except the last is interior and pairwise distinct (`RunningBody`).

`_check_collision` returns the integer 1 or 0 and `step` stores it in
`done`; starvation then stores `True`. The model represents `done` as a
`bool`.

## Model

| member | source | states |
|---|---|---|
| `Snake2Env.TurnFilter` | gym_snake2/envs/snake2_env.py:30-34 | the new facing is the old facing or the action; it changes exactly when the action is neither the facing nor `(facing + 2) % 4`; from a facing in 0..3 it is never the reverse of the old facing |
| `Snake2Env.Offset` | gym_snake2/envs/snake2_env.py:152-160 | the new head is at Manhattan distance 1 from the old head, for every facing value (anything but 0, 1, 2 moves left) |
| `Snake2Env.BehindIsReverseMove` | gym_snake2/envs/snake2_env.py:197-204 | for a facing in 0..3 the growth offset is the move offset of the opposite direction, so it undoes a move |
| `Snake2Env.Moved` | gym_snake2/envs/snake2_env.py:151-166 | the moved body has the old length, its tail part is the old body without its last cell, and its head is next to the old head |
| `Snake2Env.Grown` | gym_snake2/envs/snake2_env.py:194-206 | growth adds exactly one cell after the unchanged body, next to the old last cell when the facing is in 0..3 |
| `Snake2Env.WallAgreement` | gym_snake2/envs/snake2_env.py:176-177 | on the grid, the collision border test, the board's wall rows and columns and the spawner's interior are the same partition of cells |
| `Snake2Env.MovedHeadInterior` | gym_snake2/envs/snake2_env.py:151-178 | a move from an interior head stays on the grid, and a head that is not on the border is interior |
| `Snake2Env.MovedConnected` | gym_snake2/envs/snake2_env.py:162-166 | moving keeps consecutive segments adjacent |
| `Snake2Env.GrownConnected` | gym_snake2/envs/snake2_env.py:195-206 | growing keeps consecutive segments adjacent |
| `Snake2Env.MovedInGrid` | gym_snake2/envs/snake2_env.py:151-166 | a move from an interior head keeps every segment on the grid |
| `Snake2Env.GrownInGrid` | gym_snake2/envs/snake2_env.py:194-206 | growing past an interior last cell keeps every segment on the grid |
| `Snake2Env.MovedRunning` | gym_snake2/envs/snake2_env.py:180-183 | a move whose head misses the border and the body gives an interior, duplicate-free body, and the running invariant holds with and without growth |
| `Snake2Env.InitialReachable` | gym_snake2/envs/snake2_env.py:107-117 | the state reset builds satisfies the invariant for any interior apple |
| `Snake2Env.TickFacts` | gym_snake2/envs/snake2_env.py:36-52 | the new head is next to the old one and the rest is the old body shifted; the length grows by one exactly on eating; eating restores health to 100 and takes the spawned apple, otherwise health drops by 1 and the apple stays; `done` is exactly collision of the moved body or health 0 |
| `Snake2Env.TickKeepsReachable` | gym_snake2/envs/snake2_env.py:28-52 | a step from a running game with a legal action and an interior spawn cell keeps the invariant: length at least 3, facing in 0..3, body connected and on the grid, head one move in the facing direction from the second segment, apple interior, health in [0, 100], health 0 implies `done`, running body interior and distinct except its last cell |
| `Snake2Env.StepOutcome` | gym_snake2/envs/snake2_env.py:30-52 | the four stages of a step, taken in order, compose to `Tick` and reach a state satisfying the invariant |
| `Snake2Env.TickHealth` | gym_snake2/envs/snake2_env.py:44-52 | from a running game health after the step is in [0, 100], drops by exactly 1 without eating, and health 0 means `done` |
| `Snake2Env.OverlapGameReachable` | gym_snake2/envs/snake2_env.py:194-206 | the concrete game `OverlapGame` (head just moved right onto (6, 6), so facing 1; apple at (6, 5)) satisfies `Reachable`, including the head being one move in the facing direction from the second segment |
| `Snake2Env.GrowthCanOverlapBody` | gym_snake2/envs/snake2_env.py:194-206 | from that game, turning up onto the apple gives the body (6,5),(6,6),(5,6),(5,5),(5,6): growth appends a cell the body already holds and the episode continues |
| `Snake2Env.BoardOfReachable` | gym_snake2/envs/snake2_env.py:76-104 | in a reachable game the apple is the only cell coded 1, every wall cell is -1, every other snake cell is -1, and a grid cell is 0 exactly when it is interior, off the snake and not the apple |
| `Snake2Env.SnakeEnv.constructor` | gym_snake2/envs/snake2_env.py:16-22 | a new environment has no body and no previous head |
| `Snake2Env.SnakeEnv.Reset` | gym_snake2/envs/snake2_env.py:107-119 | after reset the body is (15,15),(15,16),(15,17), facing 0, health 100, not done, an interior apple; the invariant holds; the previous head is left as it was |
| `Snake2Env.SnakeEnv.SpawnApple` | gym_snake2/envs/snake2_env.py:213-225 | the spawned apple is an interior cell (not claimed to avoid the snake) |
| `Snake2Env.SnakeEnv.MoveSnake` | gym_snake2/envs/snake2_env.py:151-166 | the append loop leaves the body equal to `Moved` of the old body |
| `Snake2Env.SnakeEnv.CheckCollision` | gym_snake2/envs/snake2_env.py:171-185 | the result is true exactly when the head is on the border or equals some later segment; nothing changes |
| `Snake2Env.SnakeEnv.CheckEaten` | gym_snake2/envs/snake2_env.py:187-211 | eaten exactly when the head is on the apple; then the body is `Grown` and the apple is re-spawned on an interior cell; otherwise body and apple are unchanged |
| `Snake2Env.SnakeEnv.Step` | gym_snake2/envs/snake2_env.py:28-73 | the new state is `Tick` of the old state (the apple's new cell being the spawner's draw), the invariant is kept, the result is the new `done`, and the previous head is the new head |
| `Snake2Env.SnakeEnv.GetBoard` | gym_snake2/envs/snake2_env.py:76-104 | a fresh 20 x 20 board indexed `[y, x]` whose every cell is `BoardCode`: 1 on the apple, else -1 on wall and snake cells, else 0 |
| `Snake2Env.ReverseIsIgnored` | gym_snake2/envs/snake2_env.py:28-37 | after reset, turning right and then issuing the reverse action leaves the facing at right, with the head at (17,15), whatever the spawner draws |

## Left out

- Rendering: `render` and the display set-up in `__init__` are pygame I/O.
- Gym plumbing: `metadata`, `action_space`, seeding and the four-value return tuple. `Step` returns only `done`, the one value `step` reports.
- Reward: `step` computes a float reward (including the "moved closer to the apple" bonus) and never returns it. The model keeps the `snake_previous` bookkeeping as the field `previous`, and nothing else of the reward.
- Randomness: `random.randrange` and the `while True` retry loop. `SpawnApple` is an arbitrary interior cell. The distribution is not modelled, and neither is the possibility that the loop never ends.
- The spawner's scan over the segments: its `continue` has no effect, so it is not modelled as a loop.
- `SnakeEnv.Step`: requires an action in 0..3, the declared action space `spaces.Discrete(4)` (line 19). `Offset` and `Behind` still model the code's branches for any value.
- `SnakeEnv.Step`: requires that the episode is not over; what `step` does after `done` is not modelled.
- `SnakeEnv.GetBoard`: requires every segment and the apple to be on the grid, as the board's indexing needs. A negative coordinate would wrap around in Python; reachable states never hold one (`Reachable` includes `AllInGrid`).
- `CheckCollision`: the optional `snake_head` argument of `_check_collision` is used only by commented-out code, so it is not modelled.
- The debug `print` on starvation.
- The commented-out observation helpers (lines 230-307), including a floating-point distance.
