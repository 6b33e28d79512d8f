# tank-filler: the LED "gas mixing" matrix and its rotary-encoder knobs

The repository drives an 8 by 8 NeoPixel matrix that works as a "gas mixing"
readout. It lights cells red, green or blue, and I2C rotary encoders
("knobs") add and remove cells of a colour. This project models the two parts
of the program and proves properties about them.

- **The matrix `Mtx`:** a grid of RGB values, plus one list per colour name
  of the cells that show that colour.
  - `add_pxls(number, color)` moves randomly chosen off cells into a colour.
  - `remove_pxls(number, color)` moves cells of a colour back to off.
  - In cp_grid.py and code.py the lists are kept in step with the grid. The
    central property is that they always partition the cells. Module
    `GridState` proves this about one loop round, and class `ColorGrid.Mtx`
    keeps it as its `Valid()` invariant.
  - grid.py is an earlier draft whose lists drift away from the grid. Module
    `GridDraft` models it as written; see "## Findings".
- **The knob `Knob.update`:** it negates the encoder count, reports an add or
  a remove, and tracks an active-low push button.
  - code.py (`Encoder.Knob`) uses hysteresis. It fires when the position moves
    more than `RESOLUTION` (20) past the position of the last change, and
    carries the event out on a shared `ColorGrid.Mtx`.
    - Because the test is strict, turning forward one step at a time fires
      every 21 steps, not every 20 (`Encoder.RampFiresEveryResolutionPlusOne`).
  - knob_code.py (`EncoderDraft.Knob`) fires whenever the position changes
    onto a multiple of 20. It uses Python's floored `%`, which matches Dafny's
    for the positive divisor.
  - Both share the button logic in `KnobEvents`.

The modules follow the source files:

| module | file | source |
|---|---|---|
| `Pixels` | pixels.dfy | colour table, cells, grid shape and `__init__` contents, shared by all drafts of `Mtx` |
| `GridState` | grid_state.dfy | the partition invariant and one round of the `add_pxls`/`remove_pxls` loop, as values |
| `ColorGrid` | color_grid.dfy | class `Mtx` of cp_grid.py, which is the same class as code.py's `Mtx` |
| `GridDraft` | grid_draft.dfy | class `Mtx` of grid.py |
| `KnobEvents` | knob_events.dfy | events and button edges of both `Knob` classes |
| `Encoder` | encoder.dfy | class `Knob` of code.py |
| `EncoderDraft` | encoder_draft.dfy | class `Knob` of knob_code.py |

How the source's behaviour is represented:

- **`random.choice`:** an arbitrary pick (`:|`) from the list. The methods
  return the picked cells as a ghost sequence, and every contract holds
  whichever cells are picked.
- **`list.remove`:** `GridState.RemoveFirst`, which drops the first
  occurrence and keeps the order of the rest.
- **The hardware:** `update` takes the encoder count and the button level as
  parameters. It returns the event and the button edge that the source
  prints.

## Model

| member | source | states |
|---|---|---|
| Pixels.Value | cp_grid.py:6-7 | the colour table: every component is at most 255, and only `off` is black |
| Pixels.Locations.Set | cp_grid.py:28-29 | assigning one colour's list leaves the other three lists unchanged |
| Pixels.Paint | cp_grid.py:27 | `grid[row][col] = v` changes exactly that cell and keeps the grid's shape |
| Pixels.InitialGrid | cp_grid.py:10-11 | the initial grid has `height` rows of `width` entries, all off |
| Pixels.ColumnMajor | cp_grid.py:13-14 | the initial off list, column by column and each column top to bottom; `Pixels.ColumnMajorLength` and `Pixels.ColumnMajorCells` state its length and contents |
| Pixels.InitialLocations | cp_grid.py:12-14 | the initial lists: `off` holds `Pixels.ColumnMajor`, the others are empty; `GridState.InitialPartitioned` states that they partition the grid |
| Pixels.ColumnMajorLength | cp_grid.py:13-14 | the initial off list has `height * width` entries |
| Pixels.ColumnMajorCells | cp_grid.py:13-14 | the initial off list names every in-bounds cell exactly once and no other cell |
| GridState.RemoveFirst | cp_grid.py:28 | `list.remove` removes one occurrence of the cell: the length drops by one and the multiset loses exactly that cell |
| GridState.InitialPartitioned | cp_grid.py:9-14 | after `__init__` the lists partition the grid, every cell is off, the off list has `height * width` cells and the colour lists are empty |
| GridState.ColorAt | cp_grid.py:12-14 | in a partitioned matrix every in-bounds cell is in exactly one list, and the grid shows that list's colour |
| GridState.Relocate | cp_grid.py:28-29 | the list part of one round: the chosen cell ends up last in the target list, and the lists of other colours are unchanged; `GridState.RelocateLists` and `GridState.RelocateCounts` state the rest |
| GridState.Move | cp_grid.py:26-29 | one round with the chosen cell: it shows the target colour and is listed under the target, and the grid keeps its shape; `GridState.MovePreservesPartition` states that the round keeps the partition |
| GridState.Rounds | cp_grid.py:24 | the number of rounds `range(number)` runs, none for a negative `number`; `ColorGrid.Mtx.MoveCells` states the count of moved cells with it |
| GridState.SetCounts | cp_grid.py:28-29 | replacing one list changes each cell's occurrence count and the total size by exactly that list's difference |
| GridState.RelocateLists | cp_grid.py:28-29 | one relocation changes only the source and target lists: the source loses the cell, the target gains it at the end, and with source equal to target the contents are kept |
| GridState.RelocateCounts | cp_grid.py:28-29 | one relocation keeps every cell's occurrence count and the total size |
| GridState.MoveKeepsColors | cp_grid.py:25-29 | after one round every listed cell is in bounds and shows its list's colour |
| GridState.MovePreservesPartition | cp_grid.py:25-29 | one round of `add_pxls` (and, with the colours swapped, `remove_pxls`, lines 35-39) keeps the partition |
| GridState.ListsMove | cp_grid.py:24-29 | a round that finds cells extends the record of moved cells: the counts, the target list `start + moved`, and the multiset balance |
| GridState.ListsIdle | cp_grid.py:30-31 | a round that finds the source list empty changes nothing |
| GridState.GridMove | cp_grid.py:27 | painting one more cell repaints exactly the moved cells and keeps all others |
| ColorGrid.Mtx.constructor | cp_grid.py:9-14 | a new matrix is all off, with every cell in the off list and empty colour lists, and satisfies the partition invariant |
| ColorGrid.Mtx.MoveOne | cp_grid.py:25-29 | one round with a non-empty source list: a cell of that list is painted the target colour and relocated, and the partition is kept |
| ColorGrid.Mtx.Round | cp_grid.py:24-31 | one pass of the loop body keeps the partition and the record of what the run has done |
| ColorGrid.Mtx.MoveCells | cp_grid.py:23-41 | the partition is kept; every moved cell came from the source list; the grid changes exactly at the moved cells, to the target's value; every other list is unchanged; with the source different from the target, `range(number)` rounds move `min(number, |source|)` cells, the source list loses exactly those cells and the target list is the old list followed by them; with the source equal to the target, each of the `number` rounds moves a cell to the end of the same list (none if it is empty), so its contents are kept as a multiset and the grid is unchanged |
| ColorGrid.Mtx.AddPixels | cp_grid.py:23-31 | `add_pxls`: at most `number` cells, all from the off list, move; for a colour other than off, `min(number, |off|)` off cells become `color`, appended to its list in the order chosen; the off list loses exactly those cells; the other colours are untouched; with no off cells nothing changes; `'off'` as the colour keeps the grid and the off multiset |
| ColorGrid.Mtx.RemovePixels | cp_grid.py:33-41 | `remove_pxls`: at most `number` cells, all from the colour's list, move; for a colour other than off, `min(number, |color|)` cells of `color` are painted off and appended to the off list; the colour's list loses exactly those cells; the other colours are untouched; with no cells of that colour nothing changes |
| ColorGrid.AddThenRemove | cp_grid.py:44-52 | adding `a` cells of a fresh colour and then removing `r <= a` of them leaves `a - r` cells of it, and the off list changes by `-a + r` |
| ColorGrid.EightByEightScenario | cp_grid.py:44-52 | the `__main__` run on 8 by 8, 10 blue added and 5 removed, leaves 5 blue cells, 59 off cells and no red or green |
| GridDraft.DraftAdd | grid.py:28-30 | one draft add round with the chosen cell: it shows the colour and is listed under it, and for a colour other than off the off list is unchanged, so it keeps the cell |
| GridDraft.DraftRemove | grid.py:34-35 | one draft remove round with the chosen cell: it shows off and no list changes |
| GridDraft.Mtx.constructor | grid.py:10-15 | the draft's `__init__` builds the same grid and lists as cp_grid.py |
| GridDraft.Mtx.AddOne | grid.py:27-30 | one round of the draft `add_pxls`: an off cell is painted and appended to the colour's list, and stays in the off list |
| GridDraft.Mtx.AddPixels | grid.py:25-30 | the draft `add_pxls`: on a non-empty grid every one of the `number` rounds paints an off cell, the colour's list grows by exactly those cells, and the off list is unchanged for a non-off colour |
| GridDraft.Mtx.RemoveOne | grid.py:33-35 | one round of the draft `remove_pxls` paints a listed cell off and changes no list |
| GridDraft.Mtx.RemovePixels | grid.py:31-35 | the draft `remove_pxls`: no list changes; while the colour's list is non-empty each round paints one of its cells off |
| GridDraft.OffNonEmpty | grid.py:27 | the draft's off list never empties, so the guard holds exactly when the grid has a cell |
| GridDraft.DraftAddBreaksPartition | grid.py:27-30 | a draft add round on a consistent matrix leaves the chosen cell listed as off and as coloured, which breaks the partition |
| GridDraft.DraftRemoveBreaksPartition | grid.py:33-35 | a draft remove round leaves a cell shown off but still listed under its colour, which breaks the partition |
| GridDraft.OneCellExample | grid.py:10-15 | on a 1 by 1 grid, one draft add of red lists the only cell as both off and red |
| KnobEvents.ButtonEdge | code.py:89-94 | the active-low button reports a press exactly when it was not held and reads low, and a release exactly when it was held and reads high |
| KnobEvents.EdgesAlternate | code.py:89-94 | over any sequence of samples the reported edges alternate between press and release, starting with a press exactly when the button was not held |
| Encoder.Decode | code.py:74-88 | moving forward sets the last position and adds exactly when the move is more than `RESOLUTION` past the last change, which then becomes the position; moving back removes symmetrically; no movement changes nothing |
| Encoder.DecodeKeepsClose | code.py:73-88 | the last position never drifts more than `RESOLUTION` from the last change, and every event makes the two equal |
| Encoder.EventsNeedRotation | code.py:73-88 | `k` grid changes need the knob to turn more than `RESOLUTION` steps for each of them, counted against the total travel |
| Encoder.NoEventWithinResolution | code.py:77-84 | after a change, positions within `RESOLUTION` of it never fire, in any order and number of updates |
| Encoder.RampFiresEveryResolutionPlusOne | code.py:75-81 | turning forward one step at a time fires once every `RESOLUTION + 1` steps, and the last change ends on the last multiple of that step |
| Encoder.StrictThreshold | code.py:77-84 | a difference of exactly 20 fires nothing, and 21 fires, in both directions |
| Encoder.ForwardExample | code.py:75-81 | positions 5, 15, 21 from rest give one add, at 21 |
| Encoder.Reversal | code.py:73-88 | turning 21 steps forward and straight back adds one cell, removes it, and restores the watermarks |
| Encoder.Knob.constructor | code.py:58-71 | a new knob is at rest on its matrix, with both watermarks 0 and the button not held |
| Encoder.Knob.Update | code.py:73-94 | `update` negates the count, moves the watermarks and reports the event as `Decode` does, and reports the button edge; an event calls `add_pxls(1, color)` or `remove_pxls(1, color)` on the matrix, which keeps its partition and changes at most the one cell `moved` picked from the off list (add) or the colour's list (remove): its colour list is the old one followed by `moved` (add) or the off list is (remove), each list's cells kept as a multiset with `moved`, the other colours' lists unchanged, the grid changed exactly at `moved`; with the colour `off`, the grid and the off multiset are kept; without an event nothing in the matrix changes |
| EncoderDraft.ModIsFloorRemainder | knob_code.py:30 | Dafny's `%` by 20 is the floored remainder Python computes, also for negative positions |
| EncoderDraft.Detect | knob_code.py:26-36 | an update adds exactly when the position rose onto a multiple of 20, and removes exactly when it fell onto one |
| EncoderDraft.NegativeExamples | knob_code.py:30-35 | backing up from -19 to -20 removes, from 0 to -5 does nothing, and -21 to -20 adds |
| EncoderDraft.RampAddsPerMultiple | knob_code.py:27-31 | turning forward one step at a time from `a` to `b` adds `b / 20 - a / 20` times, once per multiple passed |
| EncoderDraft.StepQuotient | knob_code.py:30 | one step forward raises the floored quotient by 20 exactly when it lands on a multiple |
| EncoderDraft.SkippedMultiple | knob_code.py:27-31 | a jump from 19 to 21 passes 20 without landing on it and fires nothing |
| EncoderDraft.Knob.constructor | knob_code.py:13-23 | a new knob starts at position 0 with the button not held |
| EncoderDraft.Knob.Update | knob_code.py:25-42 | `update` stores every new position, reports the event `Detect` gives, and reports the button edge |

## Left out

- **The seesaw hardware** (`board`, `seesaw.Seesaw`, `rotaryio`, `digitalio`) and the firmware version check with its messages: the encoder count and the button level are parameters of `update`.
- **Output:** every `print`, `print_grid` (also where code.py's `add_pxls`/`remove_pxls` call it), and the `rich` console of grid.py. This is output only and changes no state.
- **Module-level code:** the instances `mat` and `knobs`, and the endless `while True` loops that update each knob. These are application wiring. One call of `Knob.Update` models one pass of the loop for one knob.
- **Random selection:** the uniform distribution of `random.choice`. The model proves its properties for every possible pick, not for a distribution.
- **code.py's `Mtx`** is not modelled separately. It is the same class as cp_grid.py's, apart from the calls to `print_grid`, so `ColorGrid.Mtx` stands for both.
- **Other modules:** docs/conf.py and the transfer, push, pop and lever features are not part of this model. They do not occur in the core files.
- **Dimensions:** `Mtx(height, width)` takes natural numbers. A negative dimension in Python gives an empty grid, the same result as 0.
- **Unknown colour names:** `Color` has only the four names of the table; any other name raises `KeyError` in the source.
- **The button is sampled once:** `Knob.Update` (both models) reads the button level once per update, while the source reads `button.value` twice. A level that changes between the two reads in the same update is not modelled.
- **Integers:** Python integers are unbounded, as `int` is in the model, so no wrap-around is needed.

## Findings

| source | as written | input that shows it | evidently intended | confidence | as-written member | corrected member |
|---|---|---|---|---|---|---|
| grid.py:27-30 | `add_pxls` paints a cell chosen from the off list and appends it to the colour's list, but never removes it from the off list | `Mtx(1, 1)` then `add_pxls(1, 'red')`: cell (0, 0) is listed under both `off` and `red` | remove the cell from the off list, as cp_grid.py:28 does, so that the lists keep partitioning the grid | not executed | GridDraft.DraftAddBreaksPartition, GridDraft.OneCellExample | GridState.MovePreservesPartition, ColorGrid.Mtx.AddPixels |
| grid.py:33-35 | `remove_pxls` paints a chosen cell off but changes no list, so it stays under its colour and later rounds may pick it again | on a consistent matrix with a red cell, `remove_pxls(1, 'red')`: the cell shows off and is still listed as red | move the cell from the colour's list to the off list, as cp_grid.py:38-39 does | not executed | GridDraft.DraftRemoveBreaksPartition | GridState.MovePreservesPartition, ColorGrid.Mtx.RemovePixels |
