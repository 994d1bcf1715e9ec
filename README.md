# Naruto side-scroller: the game loop's hit/score rules

This project models the core of a small browser game. Naruto (the player)
dodges Shika (the enemy) and scores by passing it. The model covers two parts:

- The main loop's per-tick state machine. It works on four module-level
  variables: `score`, `cross` (true when the scoring cooldown is off),
  `gameOverFlag` and `updateScoreFlag` (true while scoring is enabled).
- The horizontal moves of the keyboard handler.

Each tick runs three steps in a fixed order:

1. The hit test: `20 < |nx-sx| < 90`, `|ny-sy| < 50`, and the game is not over.
   A hit ends the game and disables scoring.
2. Otherwise, the crossing test: `|nx-sx| < 145`, the cooldown is off and
   scoring is enabled. A crossing adds one point and starts the cooldown.
3. The overlap test: the two sprites' horizontal extents intersect and the
   cooldown is still off. It ends the game.

A deferred timer later ends the cooldown. Here that timer is an explicit
`ResetCross` event. The arrow keys move Naruto 120 pixels.

Modules:

- `Rules` (rules.dfy): the tick as pure functions on a `State` value and the
  `Frame` of positions the tick reads.
- `Trace` (trace.dfy): runs, meaning sequences of ticks and timer events, and
  inductive lemmas about them.
- `Loop` (game.dfy): class `Game`. It holds the four variables, and its
  `Tick` and `ResetCross` methods update them in place. Each method is proved
  equal to the matching function in `Rules`.
- `Controls` (controls.dfy): class `Naruto` with its `left` position and the
  key handler.

The model follows the code as written in two places where the behaviour may
be surprising:

- The overlap test ends the game but does not disable scoring. So after an
  overlap game-over, a later crossing still scores
  (`ScoringOutlivesOverlapGameOver`).
- When both sprites are at most 145 pixels wide, any overlap is also within
  crossing distance. Step 2 then starts the cooldown before step 3 looks at
  it. Scoring is only ever disabled together with ending the game
  (`Consistent`), and every state reached from the start has this property
  (`Reachable`). So in every run, the overlap test never ends the game on its
  own (`OverlapNeverFiresAlone`).

## Model

| member | source | states |
|---|---|---|
| `Rules.Initial` | script.js:2-7 | the variables start as score 0, cooldown off, game not over, scoring enabled |
| `Rules.Consistent` | script.js:72-73 | scoring is disabled only together with ending the game |
| `Rules.Abs` | script.js:63-64 | the absolute value of the difference (x or -x, whichever is non-negative) |
| `Rules.Hit` | script.js:63-67 | the hit test: horizontal offset strictly between 20 and 90, vertical offset below 50, game not over |
| `Rules.Crossing` | script.js:74 | the crossing test: horizontal offset below 145, cooldown off, scoring enabled |
| `Rules.Overlap` | script.js:89-91 | the overlap test: Naruto's right edge is past Shika's left edge and Naruto's left edge is before Shika's right edge |
| `Rules.Collide` | script.js:66-86 | a hit ends the game, disables scoring, and leaves the score and cooldown alone; a non-hit crossing adds exactly one point, starts the cooldown and leaves the game-over flag and scoring alone; otherwise nothing changes |
| `Rules.OverlapCheck` | script.js:88-97 | the game is over afterwards exactly when it already was or the sprites overlap while the cooldown is off; nothing else changes |
| `Rules.AfterTick` | script.js:53-98 | a hit sets game over, disables scoring and scores nothing; a non-hit crossing scores exactly 1 and starts the cooldown; the score never falls and rises by at most 1; a scoring tick never ends the game; during the cooldown nothing scores and no tick ends the cooldown; disabled scoring stays disabled and freezes the score; game over latches; an overlap with the cooldown still off after step 2 ends the game, and nothing else except a hit does; without a hit scoring is unchanged, and without a hit or crossing the cooldown is unchanged; it keeps `Consistent` |
| `Rules.AfterReset` | script.js:78-80 | the timer ends the cooldown and changes nothing else; it keeps `Consistent` |
| `Rules.OverlapNeverFiresAlone` | script.js:74-97 | with sprites at most 145 px wide, in every `Consistent` state, a tick ends the game exactly when the hit test fires (or the game was already over) |
| `Rules.ScoringOutlivesOverlapGameOver` | script.js:73-96 | for every state and frames: a tick whose game-over comes from the overlap test (not the hit test) leaves scoring as it was, and any next tick that passes the crossing test raises the score by one |
| `Rules.OverlapGameOverExample` | script.js:74-96 | that case is reachable from the initial state: an overlap game-over on the first tick, then a point on the second |
| `Trace.Apply` | script.js:53-98 | an event is either one run of the interval callback (`AfterTick`) or the cooldown timer firing (`AfterReset`) |
| `Trace.Run` | script.js:53-80 | a run applies events in order, in any interleaving of ticks and timer firings |
| `Trace.ScoreBounded` | script.js:74-75 | over any run the score never falls and rises by at most the number of ticks |
| `Trace.GameOverLatches` | script.js:67-96 | once the game is over it stays over for the rest of any run |
| `Trace.ScoreFrozen` | script.js:73-75 | once scoring is disabled it is never re-enabled, and the score never changes again |
| `Trace.OnePointPerCooldown` | script.js:74-80 | between two timer events at most one point is scored, and none if the cooldown was already running; only the timer ends the cooldown |
| `Trace.RunKeepsConsistent` | script.js:72-80 | every event of a run keeps `Consistent` |
| `Trace.Reachable` | script.js:2-80 | every state reached from the initial state is `Consistent` |
| `Trace.HitIsFinal` | script.js:67-75 | after a hit, the game stays over and the score keeps its pre-hit value whatever follows |
| `Loop.Game.constructor` | script.js:2-7 | the variables start as score 0, cooldown off, game not over, scoring enabled |
| `Loop.Game.Tick` | script.js:53-98 | the in-place update equals `Rules.AfterTick` on the variables before the tick; the score rises by at most 1; game over latches; disabled scoring freezes the score |
| `Loop.Game.ResetCross` | script.js:78-80 | the in-place update equals `Rules.AfterReset`: the cooldown ends |
| `Controls.KeyMove` | script.js:42-49 | the right arrow (39) adds 120 to `left`, the left arrow (37) subtracts 120, and any other key leaves it unchanged |
| `Controls.MovesCancel` | script.js:42-49 | a left move and a right move undo each other |
| `Controls.Naruto.MoveRight` | script.js:42-45 | `left` grows by 120 |
| `Controls.Naruto.MoveLeft` | script.js:46-49 | `left` shrinks by 120 |
| `Controls.Naruto.KeyDown` | script.js:32-49 | the new `left` is `KeyMove` of the old one and the key code |

## Left out

- Audio: starting the theme, the retry loop that waits for the audio to be ready, and pausing the theme or playing the game-over sound. These are calls into the browser's media objects.
- Page reads and writes. Reading positions and widths from computed styles with `parseInt` is replaced by the integer `Frame` parameters, so a position that does not parse is not modelled. Writing the score text, showing the game-over banner and stopping Shika's animation class are not modelled. The banner becomes visible exactly when `gameOverFlag` is set.
- Fractional positions in the key handler: Naruto's `left` is an integer here. The key handler reads the computed `left` with `parseInt`, which drops any fraction before adding or subtracting 120. This truncation is not modelled, so from a fractional position a left move followed by a right move gives the truncated value, not the original one as `Controls.MovesCancel` states for integers.
- Shika's speed-up, which shortens a CSS animation duration by 0.2 seconds after each point. It is floating point and only affects the positions the next ticks read.
- The jump key (38). It toggles a CSS animation class for 700 ms, which only affects the positions later ticks read. Logging of key codes is left out too.
- Real time: the 10 ms interval and the 1000 ms cooldown timer. A tick is a call of `Tick`, and the timer is a call of `ResetCross`. In `Trace`, a timer event may come at any point of a run, not only 1000 ms after a point. That covers every order of events the page can produce.
- `Controls.Naruto.constructor`: Naruto's starting position comes from the stylesheet, which is not part of this model, so it is a parameter.
