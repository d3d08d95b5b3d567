# Layer-compositing canvas: a Dafny model

This project models the core of a small painting program. Each cell of a 2D
grid holds a layer store, and undo, redo and replay trackers drive changes to
the grid over time. The model is in Dafny 4.11: immutable datatypes and pure
functions, with contracts and lemmas that state what each operation promises.

- **Layer stores** (layer_store.py) come in three strategies behind one interface
  (`add`, `erase`, `get_color`, `special`):
  - `SetStores`: at most one layer, plus an invert flag.
  - `AdditiveStores`: a FIFO of up to 100 layers, applied oldest first.
    `special` reverses the order.
  - `SequenceStores`: up to 20 layers, one per layer type, kept sorted by
    `index`. Erase goes by `name`. `special` removes the layer with the median
    name.
  - `LayerStores`: the sum type that a cell holds, with dispatch.
- **Grid** (grid.py), module `Grids`: an x-by-y array of stores, all of the
  strategy the draw style names. It also holds a brush size kept in [0, 5] and
  a grid-wide `special`.
- **UndoTracker** (undo.py), module `Undo`: two bounded LIFO stacks of
  capacity 100.
- **ReplayTracker** (replay.py), module `Replay`: a bounded FIFO log of
  `(action, is_undo)` entries, played back in recording order.

Supporting modules:
- `Layers`: colours, the `Layer` record (`index`, `name`) and the fold that
  composes layers.
- `LexOrder`: Python's ordering of `str` values, proved to be a strict total order.
- `Median`: the median-name rule. `IsMedian` is the reference definition by
  rank. `Median` computes the median by sorting. The two are proved to agree.
- `Actions`: the three grid transformers of a paint action.

A layer's colour transform `apply(color, t, x, y)` is external to the core. Every
colour function therefore takes it as a `Paint` parameter, which can be any pure
function. A paint action's `apply`, `undo_apply` and `redo_apply` are likewise
parameters (`Actions.Semantics`), and an action is any value of a type parameter.
Lemmas that depend on how an action behaves state that behaviour as a
`requires`, for example "its undo reverses its apply".

Several parts of the source are unfinished. The model follows the documented
intent in each case and says so beside the definition:
- `get_color` passes `start` to every layer (layer_store.py:186, 290). The
  model folds the running colour instead.
- Additive `add` tests `self.layerstore.is_full` without calling it
  (layer_store.py:161). A bound method is always truthy, so as written every
  add returns the string "Maximum layers reached." and no layer is ever
  appended. The model follows the docstring (layer_store.py:135, 152): it
  appends while fewer than 100 layers are held and otherwise reports `false`
  and leaves the store unchanged.
- Additive `erase` on an empty store returns a truthy string
  (layer_store.py:204). The model reports `false` and leaves the store
  unchanged.
- Additive `special` rebuilds the queue as `CircularQueue(self.layerstore.length)`
  (layer_store.py:223), so its capacity drops to the current number of layers
  and later adds would be refused. The model reverses the layers and keeps the
  capacity of 100.
- Additive `erase` passes a stray argument to `serve` (layer_store.py:206). The
  model ignores it.
- Sequence `add` has no duplicate check and always returns True
  (layer_store.py:267-270). The model makes the add a no-op when a layer of the
  same type (`index`) is already present.
- Sequence `special` is `pass` (layer_store.py:319). The model removes the
  layer with the median name.
- Every grid cell is a `SetLayerStore` whatever the draw style (grid.py:55).
  The model uses the store the draw style names.
- The brush size is never written back (grid.py:76-104). The model stores it.
- Grid `special` never reaches a cell (grid.py:117-126). The model applies the
  grid's own strategy to every cell.
- `undo` never pushes onto the redo stack (undo.py:54-56). The model pushes it,
  and `redo` pushes back onto the undo stack. Without both pushes, an undo
  followed by a redo could not restore the stacks.
- `ReplayTracker` has no constructor and loses entries in three places:
  - `start_replay` empties the queue (replay.py:23).
  - `add_action` drops `is_undo` (replay.py:43).
  - `play_next_action` calls `serve(grid)` with a stray argument and never
    applies the served action to the grid (replay.py:59).
  - `play_next_action` returns the grid instead of False (replay.py:60).

  The model provides `NewTracker`, keeps the log across `StartReplay`, stores
  the flag, performs the served entry (its `undo_apply` when it records an
  undo, its `apply` otherwise), and returns false.

`Undo.AddAction` leaves the redo stack alone, as undo.py:35 does. New actions
therefore do not invalidate pending redos.

## Model

| member | source | states |
|---|---|---|
| SetStores.Add | layer_store.py:73-77 | the layer becomes the new one; the result is true iff it differed from the held one, and on false the store is unchanged |
| SetStores.Erase | layer_store.py:114-118 | whatever the argument, the layer is cleared; true iff one was held; the invert flag is kept |
| SetStores.GetColor | layer_store.py:90-99 | an empty store shows the start colour, complemented when inverted |
| SetStores.Special | layer_store.py:130 | toggles the invert flag and keeps the layer |
| SetStores.AddIdempotent | layer_store.py:73-77 | adding the same layer a second time reports no change and leaves the store as it was |
| SetStores.EraseAfterAddOnce | layer_store.py:114-118 | after an add, the first erase reports a change and a second erase reports none and changes nothing |
| SetStores.SpecialInvertsColor | layer_store.py:95-97 | special turns the resolved colour into its channel-wise complement 255-c; two specials restore both the store and the colour |
| SetStores.AddColor | layer_store.py:90-97 | once a layer is added the store shows that layer's output on the start colour, complemented exactly when the store is inverted |
| AdditiveStores.Add | layer_store.py:150-165 | the documented add (not the literal guard, see "Left out"): at capacity 100 the store is unchanged and false is reported; otherwise the layer is appended at the tail (length grows by one) and true is reported |
| AdditiveStores.Erase | layer_store.py:203-207 | an empty store reports false and is unchanged; otherwise exactly the oldest layer is removed, whatever the argument, and the rest keep their order |
| AdditiveStores.GetColor | layer_store.py:179-180 | an empty store shows the start colour |
| AdditiveStores.Reverse | layer_store.py:222-229 | the result has the same length and position i holds the layer from position n-1-i |
| AdditiveStores.Special | layer_store.py:209-231 | reverses the order of the layers: same length, position i holds the old position n-1-i; the layer count stays within the fixed capacity of 100 (the source instead shrinks the capacity, see "Left out") |
| AdditiveStores.ReversePermutes | layer_store.py:225-229 | reversing keeps exactly the same multiset of layers |
| AdditiveStores.SpecialInvolutive | layer_store.py:137 | special applied twice restores the layers in their original order, and special keeps the multiset of layers (capacity is the model's fixed 100) |
| AdditiveStores.AddColor | layer_store.py:134-135 | a newly added layer is applied last, on top of the colour the store resolved before |
| AdditiveStores.AddEraseCommute | layer_store.py:135-136 | FIFO discipline: on a store that is neither empty nor full, adding at the tail and erasing the oldest commute |
| AdditiveStores.AddAllOutcomes | layer_store.py:161-165 | adding layers one by one, the i-th add succeeds iff the store had room; when all fit, they are held after the old contents in the order added |
| AdditiveStores.OverflowReported | layer_store.py:147 | starting empty, the first 100 adds succeed and the 101st is refused |
| SequenceStores.InsertPos | layer_store.py:267-269 | the insertion point lies after every leading entry with a smaller index and before the first entry whose index is not smaller |
| SequenceStores.Add | layer_store.py:256-270 | true iff no layer of the same type (index) is present and fewer than 20 are held; on true the layer is inserted at one position with every other entry kept in order; on false the store is unchanged |
| SequenceStores.FirstNamed | layer_store.py:307-309 | finds the first entry with the given name, or reports that none has it |
| SequenceStores.EraseNamed | layer_store.py:307-311 | true iff some entry has the name; then exactly the first such entry is removed and the others keep their order; otherwise unchanged |
| SequenceStores.Erase | layer_store.py:295-311 | erasing with a layer reports true iff an entry has its name; then exactly the first entry with that name is removed and the others keep their order; false leaves the store unchanged |
| SequenceStores.GetColor | layer_store.py:284-285 | an empty store shows the start colour |
| SequenceStores.Special | layer_store.py:313-319 | an empty store is unchanged; otherwise exactly one entry is removed, and its name meets the rank definition of the median |
| SequenceStores.AddKeepsValid | layer_store.py:254 | add keeps the store within capacity 20 and strictly sorted by index (one entry per type) |
| SequenceStores.EraseKeepsValid | layer_store.py:307-311 | erase keeps the store sorted and within capacity |
| SequenceStores.SpecialKeepsValid | layer_store.py:313-319 | special keeps the store sorted and within capacity |
| SequenceStores.AddThenPresent | layer_store.py:258 | after an add, the type is present iff it was already present or there was room; the size grows by one exactly when the add reports true |
| SequenceStores.AddDuplicateNoOp | layer_store.py:258 | after any add of a layer, adding a layer of the same type (present before or just added) reports no change and leaves the store unchanged |
| SequenceStores.SpecialRemovesMedian | layer_store.py:315-316 | special on a non-empty store removes exactly one layer, the first one whose name is the computed median |
| SequenceStores.SpecialExampleOdd | layer_store.py:315 | with layers named b, a, c, special removes the layer named "b" and keeps a and c in order |
| SequenceStores.SpecialExampleEven | layer_store.py:316 | with layers named d, b, c, a, special removes the layer named "b" (the lexicographically smaller of the two middle names) and keeps d, c, a in order |
| SequenceStores.FirstNamedAt | layer_store.py:307-309 | an entry carrying the name with no earlier entry carrying it is the one the search finds |
| SequenceStores.AddMultiset | layer_store.py:258 | a successful add holds exactly the old layers plus the new one |
| SequenceStores.HasTypeAfterAdd | layer_store.py:258 | after a successful add, a type is applied iff it was before or it is the added layer's |
| SequenceStores.SortedUnique | layer_store.py:236 | two stores ordered by index with one entry per type that hold the same layers are identical |
| SequenceStores.AddTwo | layer_store.py:258 | two adds of new, distinct types both succeed, and the store then holds both layers and stays valid |
| SequenceStores.AddCommutes | layer_store.py:236 | layers are applied in order of index, not in the order added: adding two new types in either order gives the same store |
| SequenceStores.ColorIgnoresAddOrder | layer_store.py:236 | hence the colour shown does not depend on the order in which those layers were added |
| Median.Median | layer_store.py:315-316 | the computed name is a median by rank: at most k names sort below it and at most n-1-k above it, with k = (n-1)/2, which is the lower middle for even n |
| Median.MedianUnique | layer_store.py:315-316 | at most one name meets the rank definition |
| Median.MedianCharacterised | layer_store.py:315-316 | a name meets the rank definition iff it is the computed median |
| Median.MedianOfThree | layer_store.py:315 | "b" is the median of b, a, c |
| Median.MedianOfFour | layer_store.py:316 | of d, b, c, a the tied middle names are b and c; "b" is the median and "c" is not |
| Median.SortCounts | layer_store.py:315 | sorting the names changes no below/above count |
| Median.SortSorted | layer_store.py:315 | the sorted names are in lexicographic order |
| Layers.ComposeAppend | layer_store.py:133-134 | composing over a concatenation feeds the first part's result into the second part |
| Layers.ComposeSnoc | layer_store.py:134 | the newest layer is applied last, to the colour of everything before it |
| Layers.Invert | layer_store.py:96-97 | each channel of the result adds to the original channel to give 255 |
| Layers.InvertInvolutive | layer_store.py:97 | complementing twice gives back the original colour |
| LayerStores.Add | layer_store.py:13-19 | the strategy never changes; the result is true iff the store actually changed; store invariants are kept; a set store then holds exactly the layer, flag kept; an additive store succeeds iff it holds fewer than 100 and then has the layer appended at the tail; a sequence store succeeds iff the type is absent and fewer than 20 are held, and then holds its old layers plus the new one |
| LayerStores.Erase | layer_store.py:28-34 | the strategy never changes; the result is true iff the store actually changed; store invariants are kept; a set store then holds no layer, flag kept; an additive store succeeds iff non-empty and then loses its oldest layer; a sequence store succeeds iff an entry has the layer's name and then loses exactly the first such entry, the others keeping their order |
| LayerStores.GetColor | layer_store.py:21-26 | an empty store of any strategy shows the start colour |
| LayerStores.Special | layer_store.py:36-41 | the strategy never changes and store invariants are kept; a set store flips its invert flag and keeps its layer; an additive store reverses its layers; a non-empty sequence store loses exactly the first entry named by the median, an empty one is unchanged |
| LayerStores.SpecialInvolutive | layer_store.py:120-137 | for the set and additive strategies, special twice restores the store (for additive stores, with the model's fixed capacity) |
| Grids.EmptyStore | grid.py:23-26 | the store for a draw style is empty, valid and of the strategy the style names |
| Grids.NewGrid | grid.py:38-56 | a new grid has x columns of y cells, each an empty store of the style's strategy, with brush size DEFAULT_BRUSH_SIZE = 2, and satisfies the grid invariant |
| Grids.Column | grid.py:59-60 | grid[i] gives column i (y stores, cell by cell) exactly when 0 <= i < x, and nothing otherwise |
| Grids.Cell | grid.py:59-60 | grid[i][j] gives a store exactly when (i, j) is in range, and it is the store of cell (i, j), valid and of the grid's strategy |
| Grids.CellOfNewGrid | grid.py:38-60 | every in-range cell of a new grid is an empty store of the draw style's strategy |
| Grids.CellAfterSpecial | grid.py:107-126 | after the grid-wide special, each in-range cell holds its old store with the strategy's special applied once |
| Grids.IncreaseBrushSize | grid.py:63-82 | at MAX_BRUSH = 5 or above nothing changes; otherwise the brush grows by exactly 1 and nothing else changes; the brush stays within [0, 5] |
| Grids.DecreaseBrushSize | grid.py:85-104 | at MIN_BRUSH = 0 or below nothing changes; otherwise the brush shrinks by exactly 1 and nothing else changes; the brush stays within [0, 5] |
| Grids.ResizeBrush | grid.py:16-18 | under any sequence of brush changes the grid stays valid (brush within [0, 5]), and its cells, dimensions and style are unchanged |
| Grids.BrushRoundTrip | grid.py:63-104 | below MAX_BRUSH, an increase followed by a decrease restores the grid |
| Grids.SpecialColumn | grid.py:107-109 | each store of the column has its special applied once, and the column length is kept |
| Grids.Special | grid.py:107-126 | every cell's special is applied exactly once; style, dimensions and brush size are unchanged; the grid invariant is kept |
| Grids.SpecialTwiceRestores | grid.py:107-109 | for the set and additive styles, the grid-wide special applied twice restores the grid (additive cells with the model's fixed capacity) |
| Undo.NewTracker | undo.py:8-20 | a new tracker has an empty undo stack and an empty redo stack, within capacity 100 |
| Undo.NewTrackerIdle | undo.py:37-77 | on a new tracker, undo and redo both return None and change neither the stacks nor the grid |
| Undo.AddAction | undo.py:22-35 | with 100 actions on the undo stack nothing changes; otherwise the action is pushed on top and the redo stack is untouched; capacities are kept |
| Undo.Undo | undo.py:37-56 | with nothing to undo, it returns None and changes neither stacks nor grid; otherwise it pops the top action, applies its undo_apply to the grid, pushes it onto the redo stack and returns it |
| Undo.Redo | undo.py:58-77 | with nothing to redo, it returns None and changes nothing; otherwise it pops the most recently undone action, applies redo_apply, pushes it back onto the undo stack and returns it |
| Undo.UndoThenRedo | undo.py:10-11 | undo followed by redo returns the same action and puts both stacks back as they were |
| Undo.RedoThenUndo | undo.py:10-11 | redo followed by undo returns the same action and puts both stacks back as they were |
| Undo.AddThenUndoRestores | undo.py:37-56 | when an action's undo reverses its apply, recording it and then undoing returns it, gives back the grid from before it, and leaves it on the redo stack |
| Undo.UndoTimesIsLifo | undo.py:51-56 | undoing n times returns the top n actions of the undo stack as listed by Popped, leaves the rest of the undo stack, and appends them to the redo stack in the order they were undone |
| Undo.PoppedNewestFirst | undo.py:51-56 | the actions popped are the most recent ones, newest first: the i-th one undone is the i-th from the top of the undo stack |
| Replay.NewTracker | replay.py:7-26 | a new tracker's log is empty (the queue the source creates in start_replay, here made at construction) |
| Replay.NewTrackerFinished | replay.py:45-57 | starting a replay on a new tracker, the first play reports true and leaves the grid alone |
| Replay.AddAction | replay.py:30-43 | below 100 entries, (action, is_undo) is appended at the tail; a full log is left unchanged (the source's append fails there, see "Left out") |
| Replay.StartReplay | replay.py:10-26 | the recorded entries survive the start of the replay |
| Replay.PlayNextAction | replay.py:45-60 | an empty log returns true and leaves the grid alone; otherwise the oldest entry is removed, its undo_apply (when it records an undo) or apply is performed, and false is returned |
| Replay.ReplayMatchesLive | replay.py:7 | playing a log of n entries returns false n times, leaves the grid as performing the entries live in order would, and the next call returns true |
| Replay.RecordIsFifo | replay.py:43 | entries that fit are logged in exactly the order they were recorded |
| Replay.RecordThenReplay | replay.py:62-79 | after recording n entries on a new tracker and starting the replay, exactly n calls return false, the grid matches the live run, and the next call returns true |
| Replay.ThreeActionScenario | replay.py:62-79 | recording special, draw and undo-of-draw then playing four times gives false, false, false, true, with the grid as the three actions would leave it |

## Left out

- `Layer.apply` colour arithmetic and `layer_util`: external. Modelled as an arbitrary pure `Paint` function.
- `data_structures` (`CircularQueue`, `ArrayStack`, `ArraySortedList`, `ArrayR`): not part of this model. Each is a bounded `seq` with its capacity, not ring-buffer internals.
- `action.py` / `PaintAction`: not part of this model. `apply`, `undo_apply` and `redo_apply` are arbitrary grid transformers (`Actions.Semantics`). Exact reversal of non-involutive specials is therefore a hypothesis of the lemmas that need it, not a proved fact.
- The `print` messages of the brush-size methods (grid.py:79, 82, 101, 104): console output only.
- Complexity claims in the docstrings: not functional behaviour.
- The unused `is_special` field of `AdditiveLayerStore` (layer_store.py:148): nothing reads it.
- `SequenceStores.Add` on a full store: `ArraySortedList` is not part of this model. The add is modelled as refused (false, unchanged) at 20 entries. Among equal indices the insertion point is irrelevant, because the model keeps one entry per index.
- `AdditiveStores.Add`: follows the docstring, not the literal guard. As written, the uncalled `is_full` (layer_store.py:161) is always truthy, so every add is refused with a truthy string and nothing is ever appended. The model appends while fewer than 100 layers are held.
- `AdditiveStores.Special`: does not model the capacity loss. The source's rebuilt `CircularQueue(length)` (layer_store.py:223) would refuse every later add once it is full. The model keeps the capacity at 100, so `AdditiveStores.SpecialInvolutive`, `LayerStores.SpecialInvolutive` and `Grids.SpecialTwiceRestores` restore the layers but say nothing about the source's shrunken capacity.
- `Replay.AddAction`: an append to a full `CircularQueue(100)` fails in the source's queue class (replay.py:43 has no guard and no documented early exit). The model leaves the log unchanged and reports nothing. `Replay.Record` of more than 100 entries therefore drops the excess silently, and `Replay.RecordThenReplay` covers only logs that fit.
- `LayerStores.GetColor`: its contract states only the empty case. Per strategy, the colour is stated by `SetStores.AddColor`, `SetStores.SpecialInvertsColor`, `Layers.ComposeAppend`, `Layers.ComposeSnoc`, `AdditiveStores.AddColor` and `SequenceStores.ColorIgnoresAddOrder`.
- `Undo.Undo`, `Undo.Redo`: pushing onto a full stack raises in the source's stack class. The model refuses the whole step instead (returns None, nothing changes).
- `Grids.Column`, `Grids.Cell`: Python's negative indexing and the `IndexError` for out-of-range indices are modelled as "no store", not as an exception.
- `AdditiveStores.GetColor`, `SequenceStores.GetColor`: their contracts state only the empty case. The composition order is stated by `Layers.ComposeAppend`, `Layers.ComposeSnoc` and `AdditiveStores.AddColor`.
