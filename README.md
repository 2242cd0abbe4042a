# Kilobot board, modelled in Dafny

This project models the `Board` of the Rusty-Kilobot simulator (`src/board.rs`): a
fixed-size rectangular grid of `width` by `height` cells, each holding at most one
`BotLocation` (a bot together with the `u16` angle it faces, in degrees clockwise
from north). The grid is stored row-major in one flat buffer, so the cell at (x, y)
is at index `x + y*width`. Everything lives in `board.dfy`, module `Board`:

- `BotLocation<K>` is a class: `bot` is fixed when the location is made and
  `facing` is a field that `SetFacing` overwrites in place. The bot type (`Kilobot`)
  is opaque and is the type parameter `K`.
- `Board<K>` is a class whose `width`, `height` and `bots` buffer (an
  `array<Option<BotLocation<K>>>`) never change after construction; the mutators
  write one slot of the array in place. `Valid()` is the board's invariant: the
  buffer has exactly `width*height` cells, that product fits in a `u8` (at most
  255), and no location object sits in two cells (a location is owned by exactly
  one cell). `Count()` is the number of occupied cells, defined by the recursive
  function `Occupied`.
- The source's `u8` and `u16` are the subset types `U8` and `U16`. Writing the
  index arithmetic `x + y*width` and the product `width*height` into `U8`
  variables makes Dafny prove that they do not overflow, which holds given
  `width*height <= 255` (a larger product makes the source panic in a debug build).
- `LocationError`, `Option` and `Result` are the source's error enum and Rust's
  `Option` and `Result`, with the error type fixed to `LocationError`.

Removing from an empty, in-range cell: the doc comment of
`remove_bot_location_at_index` promises `Err(NotOccupied)`, but the code matches on
`self.bots.get(index)`, which is `Some(&None)` for every in-range index. The
`NotOccupied` arm is therefore unreachable, and the call panics at `unwrap()` on the
empty cell. The model follows the code. The panic is the precondition
`!PanicsOnRemove(index)`, the unreachable arm is kept in the method body, and the
removal methods never return `NotOccupied`.

## Model

| member | source | states |
|---|---|---|
| `Board.Board.constructor` | src/board.rs:210-228 | for `width*height <= 255` the board has the given width and height, a buffer of `width*height` cells, every cell empty, zero bots, and the invariant holds |
| `Board.Board.GetIndexFromCoord` | src/board.rs:128-143 | returns `Ok` exactly when `x < width && y < height`, otherwise `OutOfBounds`; the `Ok` index is `x + y*width`, below `width*height`, and its `u8` computation does not overflow |
| `Board.Board.IndexInjective` | src/board.rs:135-143 | two in-bounds coordinates with the same index are the same coordinate |
| `Board.Board.IndexOnto` | src/board.rs:135-143 | every index below `width*height` is the index of the in-bounds coordinate `(index % width, index / width)` |
| `Board.Board.GetBotAtIndex` | src/board.rs:108-126 | `OutOfBounds` exactly when the index is past the buffer, `NotOccupied` exactly when the cell is empty, otherwise the bot stored in that cell; reads only |
| `Board.Board.GetBotAtCoord` | src/board.rs:95-106 | `OutOfBounds` off the board; on the board it is `GetBotAtIndex` of `x + y*width` and is never `OutOfBounds` |
| `Board.Board.AddBotLocation` | src/board.rs:24-55 | off the board gives `Some(OutOfBounds)` and an occupied cell gives `Some(AlreadyOccupied)`, both leaving every cell unchanged; otherwise `None`, the target cell holds a fresh location with the given bot and facing, every other cell is unchanged, the bot is found there, the count rises by one, and the invariant is kept |
| `Board.Board.PanicsOnRemove` | src/board.rs:78-84 | holds exactly for an in-range empty cell, the input on which removal panics at `unwrap()`; these are exactly the indices where the bot lookup gives `NotOccupied` |
| `Board.Board.RemoveBotLocationAtIndex` | src/board.rs:70-93 | past the buffer gives `OutOfBounds` and no change; on an occupied cell returns the stored location, empties that cell only, lowers the count by one, and no cell holds the returned location any more; an empty in-range cell is the source's panic, excluded by the precondition |
| `Board.Board.RemoveBotLocationAtCoord` | src/board.rs:57-68 | off the board gives `OutOfBounds` and no change; on the board it acts as the index form at `x + y*width`, after which the bot lookup there gives `NotOccupied` |
| `Board.Board.NumBots` | src/board.rs:230-241 | the `u16` loop count of occupied cells equals `Count()`, never overflows, and is at most `width*height` |
| `Board.OccupiedAtMostLength` | src/board.rs:234-241 | the number of occupied cells never exceeds the number of cells |
| `Board.OccupiedZeroIffEmpty` | src/board.rs:223-226 | the count is zero exactly when every cell is empty |
| `Board.OccupiedUpdate` | src/board.rs:49 | replacing one cell changes the count by the difference between the new and the old cell's occupancy |
| `Board.OccupiedAfterPlace` | src/board.rs:46-50 | filling an empty cell adds one to the count |
| `Board.OccupiedAfterClear` | src/board.rs:82-84 | emptying an occupied cell subtracts one from the count |
| `Board.BotLocation.constructor` | src/board.rs:167-171 | a location holds exactly the bot and facing it is made with |
| `Board.BotLocation.GetFacing` | src/board.rs:193-199 | returns the stored facing, whatever `u16` it is |
| `Board.BotLocation.SetFacing` | src/board.rs:201-207 | afterwards `GetFacing()` returns the new value, with no range check against 360 |
| `Board.AddThenRemove` | src/board.rs:33-68 | adding a bot to an empty in-bounds cell and removing it at the same coordinate returns a location with that bot and facing and restores every cell |
| `Board.FourByThree` | src/board.rs:210-219 | `new_board(4, 3)` has 12 cells and no bots; index of (3, 2) is 11; (4, 0) and (0, 3) are `OutOfBounds` |

## Left out

- `print_board` (src/board.rs:146-164): it only writes to standard output and needs `Kilobot::get_uid`, which is not part of this model. It visits the cells in index order, and its `unimplemented!()` arm cannot be reached.
- The text of both `Display` implementations: string formatting over `Display for Kilobot`, which is not part of this model. Only the occupied-cell count of `Display for Board` is modelled, as `NumBots`.
- `BotLocation::bot_mut` and the `Kilobot` internals: the bot is an opaque value, so `bot` is a constant field. The immutable accessor `bot()` is that field.
- Release-mode `u8` wrap-around in `new_board` and `get_index_from_coord`: excluded by the precondition `width*height <= 255` instead of modelled as modular arithmetic.
- `RemoveBotLocationAtIndex`, `RemoveBotLocationAtCoord`: the panic on an empty in-range cell is a precondition, so the model has no behaviour for that input, as the source has none.
- The `Box` around a removed location: the model returns the location object itself.
- `Vec::with_capacity` and `push` in `new_board`: the buffer is an array allocated at its final length and filled with `None` by the same loop, since it never grows afterwards.
- No facing is range-checked or normalised against 360, in the source or in the model; facings are any `u16`.
