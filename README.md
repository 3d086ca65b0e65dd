# firefly-threads: the blink cascade, modelled in Dafny

The crate shows a grid of fireflies in a web page. `setup_fireflies(rows, cols)`
builds a rows × cols matrix of fireflies, kept in the global `GRID_STATE`, and
gives each one a thread and an mpsc channel. `start()` sends a `Blink` message to
one firefly chosen at random. A firefly that receives `Blink` switches its light
on and starts a timer thread that switches it off one second later. It then sends
`Blink` to its four neighbours up, down, left and right. `get_grid_row(i)` reports
row i as 0/1 values, and index.js polls it to colour the page.

The model is sequential: every thread's work becomes an explicit step.

- `outcomes.dfy` (module `Outcomes`): `Option`, the two panics the model
  represents (index out of bounds, usize subtraction overflow), and how a step
  ends. If panics unwind, the `.lock().unwrap()` calls can also panic, on a
  poisoned mutex; the model has no locks (see Left out).
- `topology.dfy` (module `Topology`): the neighbour index arithmetic of
  `inform_neighbours`. It holds the torus neighbours the grid is meant to have,
  with their meaning proved against an independent adjacency relation. It also
  holds the arithmetic as written, in an overflow-checked build (`Neighbours`)
  and in a wrapping build on 32-bit wasm (`WrappingNeighbours`).
- `fireflies.dfy` (module `Fireflies`): the class `Firefly` (coordinates, light,
  mailbox for the channel's queue, count of pending off-timers) and the class
  `Simulation` for `GRID_STATE`. Its methods are setup, the row snapshot, start,
  and one iteration of a firefly's receive loop.

`HandleBlink` follows the source in an overflow-checked build. At row 0 or
column 0 the step panics after the light went on and before any message is
sent. `HandleBlinkWrapping` follows the source in a build without overflow
checks, where row 0 sends "up" to row (2^32 − 1) mod rows and column 0 sends
"left" to column (2^32 − 1) mod cols. That is the wrong place unless the
dimension is a power of two (`WrappingPredAtZero`).
`HandleBlinkTorus` is the same step with the torus neighbours the code
evidently intends (see Findings).

Some plain facts about the code that the model keeps:

- `get_grid_row` with no grid returns the empty row and never raises a not-initialised error.
- `setup_fireflies` accepts 0 rows or 0 columns, and `start` then panics on indexing.
- The code has no teardown operation and no continuous phase coupling, only the on/off cascade.

## Model

| member | source | states |
|---|---|---|
| `Fireflies.Firefly.constructor` | src/lib.rs:97-107 | a new firefly holds its own x and y, is Off and has an empty channel; LitHasTimer (a lit firefly has an off-timer pending) holds |
| `Fireflies.Firefly.Send` | src/lib.rs:157-164 | sending on a channel appends the message at the back of its queue; light and timers unchanged, so LitHasTimer is kept |
| `Fireflies.Firefly.Receive` | src/lib.rs:115 | `recv` takes the oldest message, or yields nothing (the thread stays blocked) when the queue is empty; light and timers unchanged, so LitHasTimer is kept |
| `Fireflies.Firefly.Blink` | src/lib.rs:133-137 | the light is On and one more off-timer is pending; the mailbox is unchanged; LitHasTimer holds afterwards, so the light will go off again |
| `Fireflies.Firefly.TimerOff` | src/lib.rs:138-144 | a pending timer fires: the light is Off, one timer fewer, mailbox unchanged; LitHasTimer holds afterwards |
| `Fireflies.Simulation.constructor` | src/lib.rs:24 | no grid exists before setup |
| `Fireflies.Simulation.Setup` | src/lib.rs:172-191 | afterwards the grid has exactly rows rows of cols fireflies; grid[y][x] has x and y as its coordinates, is Off, has an empty mailbox and no timer; all fireflies are fresh, so the old grid is replaced |
| `Fireflies.Simulation.GetGridRow` | src/lib.rs:73-93 | no grid gives the empty row; i at or past the last row gives the out-of-bounds panic; otherwise the result has one entry per column, the j-th being 1 iff firefly (j, i) is On and 0 iff it is Off |
| `Fireflies.Simulation.Start` | src/lib.rs:46-61 | without a grid nothing happens; with 0 rows or 0 columns the indexing panics and nothing changes; otherwise the chosen firefly gets exactly one more Blink and no other mailbox, light or timer changes |
| `Fireflies.Simulation.Deliver` | src/lib.rs:156-165 | each firefly's mailbox gains as many Blinks as the number of times it appears among the targets; no light or timer changes |
| `Fireflies.Simulation.ReceiveAndBlink` | src/lib.rs:115-119 | with a message waiting, the oldest one leaves that firefly's mailbox, its light goes On and one more timer is pending; with none, nothing changes; no other firefly is touched |
| `Fireflies.Simulation.HandleBlink` | src/lib.rs:115-121 | on an empty mailbox the thread waits and nothing changes; otherwise the head message is removed, that firefly alone turns On and gains a timer, and then either the step panics (x or y is 0, no message sent) or each of the four neighbours' mailboxes gains one Blink per occurrence among up, down, left, right, and no other mailbox changes |
| `Fireflies.Simulation.HandleBlinkWrapping` | src/lib.rs:147-165 | the same step as computed by a build without overflow checks: it never panics, and each mailbox gains one Blink per occurrence of its firefly among the wrapping neighbours |
| `Fireflies.Simulation.HandleBlinkTorus` | src/lib.rs:147-168 | the same step with the intended torus neighbours: it never panics, and each mailbox gains one Blink per occurrence of its firefly among the torus neighbours |
| `Fireflies.Informed` | src/lib.rs:150-165 | the positions `inform_neighbours` sends to in an overflow-checked build: none exactly when it panics (x or y is 0), otherwise exactly the torus neighbours; all inside the grid |
| `Fireflies.RandomIndex` | src/lib.rs:64-70 | the range of `get_random_index(n)`: an accepted index is below n when n > 0, and is exactly 0 when n is 0 |
| `Fireflies.LightBit` | src/lib.rs:80-87 | each reported value is 0 or 1, and it is 1 exactly when the light is On |
| `Fireflies.Rendered` | index.js:35-39 | the page draws a cell dark exactly when the polled value is 0 |
| `Fireflies.RenderedLightBit` | index.js:31-42 | the page shows each firefly in the light state get_grid_row read |
| `Topology.Succ` | src/lib.rs:153 | `(i + 1) % n` stays below n, is i + 1 before the last index and wraps exactly the last index to 0 |
| `Topology.Pred` | src/lib.rs:152 | the intended predecessor stays below n and Succ undoes it |
| `Topology.PredSucc` | src/lib.rs:152-153 | Pred undoes Succ as well, so up and down are inverse moves |
| `Topology.TorusNeighbours` | src/lib.rs:150-155 | four positions, all in the grid and all adjacent to the firefly on the torus |
| `Topology.NeighboursAreAdjacent` | src/lib.rs:150-155 | for the intended torus neighbours (TorusNeighbours): a position is among the four neighbours iff it is adjacent on the torus |
| `Topology.NeighboursSymmetric` | src/lib.rs:150-155 | for the intended torus neighbours (TorusNeighbours): q is a neighbour of p iff p is a neighbour of q |
| `Topology.SelfNeighbour` | src/lib.rs:150-155 | for the intended torus neighbours (TorusNeighbours): a firefly is its own neighbour iff the grid has one row or one column |
| `Topology.NeighboursDistinct` | src/lib.rs:150-156 | for the intended torus neighbours (TorusNeighbours): from 3 × 3 on, the four neighbours are distinct and differ from the firefly itself |
| `Topology.MessagesPerPosition` | src/lib.rs:156-165 | for the intended torus neighbours (TorusNeighbours): from 3 × 3 on, one step sends exactly one Blink to each adjacent position and none elsewhere |
| `Topology.OneRowSelfMessages` | src/lib.rs:152-165 | for the intended torus neighbours (TorusNeighbours): in a one-row grid of at least three columns a firefly sends itself two Blinks (up and down) |
| `Topology.SingleCellNeighbours` | src/lib.rs:150-155 | for the intended torus neighbours (TorusNeighbours): in a 1 × 1 grid all four neighbours are the cell itself |
| `Topology.CheckedSub` | src/lib.rs:152 | usize subtraction with overflow checks is defined exactly when it does not go below 0, and then undoes the addition |
| `Topology.Neighbours` | src/lib.rs:150-155 | as written with overflow checks: a panic exactly when x or y is 0, and otherwise exactly the torus neighbours |
| `Topology.WrappingSub` | src/lib.rs:152 | usize subtraction without overflow checks is subtraction modulo 2^32 |
| `Topology.WrappingPred` | src/lib.rs:152 | `(i - 1) % n` with wrapping subtraction stays below n |
| `Topology.WrappingNeighbours` | src/lib.rs:150-155 | as written without overflow checks: four positions, all in the grid |
| `Topology.WrappingPredAwayFromZero` | src/lib.rs:152 | for indices above 0 the wrapping predecessor is the torus predecessor |
| `Topology.WrappingNeighboursAwayFromEdge` | src/lib.rs:150-155 | away from row 0 and column 0 the wrapping build informs the torus neighbours |
| `Topology.WrappingPredAtZero` | src/lib.rs:152 | at index 0 the wrapping predecessor is n - 1 iff n divides 2^32 |
| `Topology.WrappingUpNineRows` | src/lib.rs:152 | in the 9 × 16 grid of index.js:11-12, row 0 sends "up" to row 3 instead of row 8 |
| `Topology.WrappingLeftThreeColumns` | src/lib.rs:154 | with 3 columns, column 0 sends "left" to itself instead of column 2; with 16 columns it is right |

## Findings

| source | as written | input that shows it | evidently intended | confidence | as-written member | corrected member |
|---|---|---|---|---|---|---|
| src/lib.rs:152 | `(y - 1) % rows` on `usize`: with overflow checks it panics at y = 0; without them it gives (2^32 - 1) % rows | y = 0 in the 9 × 16 grid of index.js: a panic, or row 3 where row 8 is meant | the torus wrap to rows - 1 (src/lib.rs:177 calls the grid torus-like) | high; not executed | `Topology.WrappingUpNineRows` | `Topology.TorusNeighbours` |
| src/lib.rs:154 | `(x - 1) % cols` on `usize`: the same at x = 0 | x = 0 in a grid of 3 columns: a panic, or column 0 itself where column 2 is meant | the torus wrap to cols - 1 | high; not executed | `Topology.WrappingLeftThreeColumns` | `Topology.TorusNeighbours` |

`Topology.Neighbours` models the overflow-checked build. It proves that the panic
happens exactly at row 0 or column 0. `Topology.WrappingPredAtZero` proves that
a wrapping build is right at index 0 only when the dimension is a power of two.
`Fireflies.Simulation.HandleBlinkTorus` is the step built on the corrected
neighbours. `Fireflies.Simulation.HandleBlink` and
`Fireflies.Simulation.HandleBlinkWrapping` keep the code's behaviour in the two
kinds of build.

## Left out

- Threads, `Arc<Mutex<…>>` locking and channel blocking are not modelled. Each thread's work is one explicit step, which a caller may interleave in any order. In src/lib.rs:115 the channel mutex guard of the `while let` header stays alive through `recv` and the loop body, while the thread is blocked in `recv`. Once a firefly's thread is idle, `start` (src/lib.rs:55) and every `inform_neighbours` send to it (src/lib.rs:160) wait for that guard forever, and a firefly that sends to itself locks a mutex it already holds. The model has no locks and does not capture this deadlock: the cascade it states is the intended behaviour, not what a running page does.
- The one-second `thread::sleep` of the off-timer (src/lib.rs:139) is not modelled. `Firefly.TimerOff` is a step that any pending timer may take at any point.
- What happens after a panic is not modelled. The panicking thread ends while holding its channel mutex: the mutex is poisoned if panics unwind, and stays locked for good under the default `panic=abort` of wasm32. Either way later sends to that firefly never succeed. `HandleBlink` reports the panic, but the model does not stop later steps for that firefly.
- The threads of a replaced grid are not modelled. They keep running after `setup_fireflies` is called again and then index the new grid with their old coordinates. `Setup` only guarantees that the new fireflies are fresh.
- The race between the threads started in src/lib.rs:183 and the grid published in src/lib.rs:190 is not modelled, nor the aliasing of the `static mut` global.
- `get_random_index` (src/lib.rs:64-70) uses floating point and a JavaScript call. `Start` takes the two indices as parameters and requires each to be in the range that `floor(random * n)` can produce.
- The `log!` calls, `alert`, the wasm_bindgen glue and `utils::set_panic_hook` are I/O and bindings, so they are not modelled.
- The DOM grid and render loop of index.js are UI. Only the meaning it gives the polled 0/1 values is modelled, as `Rendered`.
- Rows and columns are unbounded naturals in `Setup`. Allocation failure for huge grids is not modelled.
