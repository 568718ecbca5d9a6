# Falling-sand simulation engine in Dafny

This project models the simulation engine of a falling-sand cellular automaton
(the Rust crate `sand`): the chunked grid storage and the two-phase tick of
`src/game.rs`, and the material rule `update_cell` and the `Spawner` of
`src/cells.rs`.

- `game.dfy`, module `Game`: one `Cell` type (`Air | Sand`), the `CellBlock`
  (64 cells in a flat sequence, row after row, and a `dirty` flag), and the
  class `GameState`. Its field `blocks` maps block coordinates to blocks. Its
  methods `ResetBlock` and `WriteCell` reassign that map, and the function
  `IsEmpty` reads it. `Stored` gives the blocks after one `write_cell`, and
  `CellAt` reads a global coordinate. The lemmas prove that coordinate
  translation is one-to-one and that a write changes exactly one cell.
- `engine.dfy`, module `Engine`: the tick `update(read, write)`.
  - Phase A (`PrepareWrite`, made of the two source loops `ResetOrCopy` and
    `ClearDirty`) leaves the write buffer equal to `Prepared(read)`.
  - Phase B (`EvaluateRules`, `EvaluateBlock`, `EvaluateCell`) runs the
    straight-down Sand rule over every dirty read block, cell by cell, in the
    order given by `CellBlock.Cells()`.
  - `Update` is proved to leave the write buffer equal to a closed-form
    reference tick, `TickCell` and `TickDirty`, whose definition does not
    mention any visiting order.
  - Lemmas about the reference tick: falling, resting, clean blocks, dirty
    propagation, Sand conservation, and stranded Sand.
- `cells.dfy`, module `Cells`: `Spawner.Spawn` is proved to equal
  `Spawned(old)`, and spawning is proved idempotent. `UpdateCell` is the Sand
  rule with down/diagonal priority and the double-buffer emptiness check. The
  coin flip is a `bool` parameter.

Modelling choices:
- A `CellBlock` is a datatype value. In the source each block is owned by
  value by its `HashMap` and is never shared. So "update a block in place"
  becomes reassigning that block's map entry, and no aliasing is lost.
- A `GameState` always holds the four blocks `(0,0)`, `(1,0)`, `(0,1)` and
  `(1,1)` that `GameState::new` inserts. The grid is therefore 16 x 16 cells,
  and `size` is 16. This matches the literal `15` of the built-in rule
  (`Engine.LAST_ROW`).
- The source's `HashMap` iteration order is unspecified. The model visits the
  blocks in the fixed order `BLOCK_KEYS`, and the tick is proved equal to the
  reference `TickCell`/`TickDirty` for that order only. The reference itself
  does not mention the order. The other 23 block orders are not covered by a
  proof.
- `write_cell` and `is_empty` on a missing block panic in the source (`unwrap`).
  The model turns this into the precondition `Addressable` (the block exists
  and the index is in range), or `Valid()` together with an on-grid
  coordinate.

Behaviour of the code worth knowing:
- `cells()` visits local x in the outer loop, so local y changes fastest.
- The built-in rule of `update` checks only the read buffer and only the cell
  straight below. The diagonal branches are commented out. Only `update_cell`
  checks both buffers and a diagonal.
- `update_cell` compares the diagonal column with the height (`size - 1`).
  On this square grid that is the last column too.
- A block's dirty flag after a tick means that some Sand fell into it. A block
  that Sand only leaves ends the tick clean. The Sand resting above the
  vacated cell is then copied, not evaluated, in the next tick and stays in
  the air (`Engine.StrandedSand`).
- `src/cells.rs` declares its own `Cell` enum, identical to the one of
  `src/game.rs`. The model has one `Cell` type for both.
- `GameState::new` takes no argument, although `lib.rs` passes one, and
  `cells.rs` reads a `size` field that `GameState` does not declare. The model
  uses one `GameState` with a constant `size` of 16.

## Model

| member | source | states |
|---|---|---|
| `Game.CellBlock.New` | src/game.rs:16-22 | a new block has exactly 64 cells, all Air, and is dirty |
| `Game.CellBlock.Cells` | src/game.rs:24-32 | the traversal has 64 tuples; tuple t is (cells[t/8 + (t%8)*8], t/8, t%8), i.e. tuple i*8+j is (cells[i + j*8], i, j) with i the outer loop |
| `Game.GameState.constructor` | src/game.rs:43-53 | the new state holds exactly the four blocks (0,0), (1,0), (0,1), (1,1), each fresh (all Air, dirty), and is well formed |
| `Game.GameState.ResetBlock` | src/game.rs:55-58 | block (x, y) becomes a fresh all-Air dirty block; every other block is unchanged; well-formedness is kept when the key already existed |
| `Game.GameState.WriteCell` | src/game.rs:60-70 | the new blocks are exactly `Stored(old blocks, c, x, y, d)`; well-formedness is kept |
| `Game.GameState.IsEmpty` | src/game.rs:72-79 | the result is true exactly when the cell stored for global (x, y) is Air |
| `Game.InGridAddressable` | src/game.rs:61-65 | every on-grid coordinate resolves to one of the four blocks and to an index inside its cell array |
| `Game.TranslationInjective` | src/game.rs:61-64 | the local index x%8 + (y%8)*8 lies in 0..63, and a block plus a local index determine the global coordinate uniquely |
| `Game.StoredCellAt` | src/game.rs:69 | after write_cell(c, x, y, _) the cell at (x, y) is c and every other cell is unchanged |
| `Game.StoredFlags` | src/game.rs:65-68 | write_cell keeps the block keys and block sizes; it sets the owning block's dirty flag when d is true, keeps it when d is false (never clears it), and leaves every other flag unchanged |
| `Game.WriteCellEffect` | src/game.rs:60-79 | the whole effect of write_cell on every coordinate and flag; in particular is_empty(x, y) right after write_cell(c, x, y, _) is `c == Air` |
| `Game.GridExtensionality` | src/game.rs:9-12 | two well-formed states with equal flags and equal cells at every coordinate are equal |
| `Engine.Prepared` | src/game.rs:84-99 | after Phase A, the write block of a dirty read block is all Air, the write block of a clean one has the read block's cells, and every write dirty flag is false |
| `Engine.ResetCopied` | src/game.rs:86-94 | after the first Phase A loop, a write block whose read block is dirty is all Air and dirty; any other has the read block's cells and keeps its own dirty flag |
| `Engine.ResetOrCopy` | src/game.rs:86-94 | the whole write buffer after the first Phase A loop is `ResetCopied(read, old write)`, cells and dirty flags |
| `Engine.ClearDirty` | src/game.rs:96-99 | every write dirty flag becomes false and no cell changes |
| `Engine.PrepareWrite` | src/game.rs:84-99 | after Phase A the write buffer equals `Prepared(read)` |
| `Engine.Visit` | src/game.rs:102-106 | tuple t of block BLOCK_KEYS[b] names the read cell at world position (i + bx*8, j + by*8), visited at step b*64 + t |
| `Engine.OrderInjective` | src/game.rs:101-105 | no two cells are visited at the same step of Phase B |
| `Engine.DirtyStep` | src/game.rs:113-114 | a step marks a block dirty exactly when the Sand it visits falls into that block |
| `Engine.EvaluateCell` | src/game.rs:107-127 | evaluating the cell visited at step s carries the write buffer from the partial result of the first s steps to that of the first s+1: Sand falls into (x, y+1), marking its block dirty, when y+1 <= 15 and that cell is Air in the read buffer, and otherwise is re-written in place; Air writes nothing |
| `Engine.EvaluateBlock` | src/game.rs:103-129 | Phase B over one dirty block carries the write buffer from the partial result before its 64 steps to the result after them |
| `Engine.SkipClean` | src/game.rs:103 | a clean read block is not evaluated and changes nothing |
| `Engine.EvaluateRules` | src/game.rs:101-130 | starting from `Prepared(read)`, Phase B leaves every cell equal to `TickCell(read, ...)` and every dirty flag equal to `TickDirty(read, ...)` |
| `Engine.Update` | src/game.rs:82-130 | one tick leaves the write buffer equal to the reference tick of the read buffer: cells are `TickCell`, and a block is dirty exactly when some Sand fell into it |
| `Engine.FallingSandMoves` | src/game.rs:108-114 | a Sand of a dirty block with Air below leaves its cell Air and occupies the cell below, whose block becomes dirty even if it was clean |
| `Engine.RestingSandStays` | src/game.rs:122-124 | a Sand of a dirty block that cannot fall stays in place, and its block is dirty afterwards only if some Sand fell into it |
| `Engine.CleanCellKept` | src/game.rs:90-93 | a cell of a clean read block that no Sand falls into keeps its read value |
| `Engine.SandForward` | src/game.rs:108-124 | the Sand read at (x, y) is found after the tick at its destination, which traces back to (x, y) |
| `Engine.SandBackward` | src/game.rs:108-124 | every Sand after the tick comes from one Sand of the read buffer, at its origin |
| `Engine.SandConserved` | src/game.rs:82-130 | Destination and Origin are inverse maps between the Sand cells before and after a tick, so each grain occupies exactly one cell, its own or the one below |
| `Engine.StrandedSand` | src/game.rs:96-114 | a block that Sand only leaves ends the tick clean, so the Sand resting above the vacated cell stays above Air in the following tick |
| `Cells.StoreSand` | src/cells.rs:16-18 | writing Sand at on-grid points in turn keeps the state well formed |
| `Cells.StoreSandStep` | src/cells.rs:16-18 | writing the first i+1 points is writing the first i and then point i |
| `Cells.StoreSandFlags` | src/cells.rs:17 | writing Sand with dirty=false at a list of points changes no dirty flag |
| `Cells.StoreSandCellAt` | src/cells.rs:16-18 | after writing Sand at a list of points, a cell is Sand if it is one of the points and is unchanged otherwise |
| `Cells.StoreSandEffect` | src/cells.rs:16-18 | the two facts above for every cell and every block |
| `Cells.SpawnEffect` | src/cells.rs:15-19 | after spawn, (0,0), (2,0), (4,0), (6,0) and (8,0) hold Sand; every other cell and every dirty flag is unchanged |
| `Cells.SpawnIdempotent` | src/cells.rs:15-19 | spawning twice gives the same state as spawning once |
| `Cells.Spawner.Spawn` | src/cells.rs:15-19 | the new blocks are `Spawned(old blocks)`; well-formedness is kept |
| `Cells.SandWrite` | src/cells.rs:25-40 | the Sand rule makes one write in row y or y+1, never above. It is dirty exactly when it moves. A move goes to (x, y+1) or the coin's diagonal, to a target that is on the grid and Air in both buffers, and happens exactly when one of those two targets is vacant. The straight-down target wins when it is vacant. A non-move re-writes (x, y) |
| `Cells.SandRuleEffect` | src/cells.rs:32-39 | the rule changes exactly one write-buffer cell, to Sand. A moving write lands on a cell that was Air in the write buffer, so it never overwrites an earlier write. Only the target's block may become dirty, and only for a move |
| `Cells.UpdateCell` | src/cells.rs:23-44 | on Sand the write buffer becomes `AfterSand(read, old write, x, y, coin)`, the one write `SandWrite` describes; on Air it is unchanged |

## Left out

- All of `src/lib.rs` is left out: the SDL window, canvas and texture set-up,
  the event loop, frame timing and drawing are I/O. The test-setup writes and
  the read/write swap after each tick are driver code.
- The debug `println!` in `update` is left out.
- The `rand` crate is left out: the coin of `update_cell` is a `bool`
  argument.
- Panics are not modelled. A missing block (`unwrap`) becomes a
  precondition.
- Negative coordinates are not modelled. Rust's truncating `/` and `%` would
  give a negative local index there, so every accessor requires `x, y >= 0`.
- The `i32` coordinates cannot overflow on a 16 x 16 grid, so machine integer
  width is not modelled.
- The commented-out diagonal branches of `update` are dead code and are left
  out.
- Only Air and Sand exist in the code; no other material is modelled.
- `CellBlock` is a value, not an object. The source never shares a block, so
  no aliasing behaviour is lost.
- `Engine.EvaluateRules`: proved only for the block order `BLOCK_KEYS`, not
  for every order a `HashMap` may iterate in. The Phase B proof numbers the
  steps by that order.
- `Cells.UpdateCell`: nothing in the code calls it during a tick, so no tick
  that uses it is modelled. Its effect is stated for one call.
