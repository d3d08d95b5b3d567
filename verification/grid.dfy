/**
 The canvas: a fixed x-by-y array of layer stores, all of the strategy the
 draw style names, plus a brush size kept within [MIN_BRUSH, MAX_BRUSH]
 (`Grid` in grid.py).
 */
module Grids {
  import opened Wrappers
  import opened LayerStores
  import SetStores
  import AdditiveStores
  import SequenceStores

  datatype DrawStyle = SetStyle | AddStyle | SequenceStyle

  const DEFAULT_BRUSH_SIZE: int := 2
  const MAX_BRUSH: int := 5
  const MIN_BRUSH: int := 0

  /** `cells[i][j]` is the store of column i, row j. */
  datatype Grid = Grid(style: DrawStyle, width: nat, height: nat, brushSize: int, cells: seq<seq<LayerStore>>)

  /** A store of the strategy `style` selects, holding nothing. */
  function EmptyStore(style: DrawStyle): (st: LayerStore)
    ensures IsEmpty(st) && LayerStores.Valid(st)
    ensures HasStyle(st, style)
  {
    match style
    case SetStyle => SetKind(SetStores.Empty)
    case AddStyle => AdditiveKind(AdditiveStores.Empty)
    case SequenceStyle => SequenceKind(SequenceStores.Empty)
  }

  predicate HasStyle(st: LayerStore, style: DrawStyle)
  {
    match style
    case SetStyle => st.SetKind?
    case AddStyle => st.AdditiveKind?
    case SequenceStyle => st.SequenceKind?
  }

  predicate BrushInRange(size: int)
  {
    MIN_BRUSH <= size <= MAX_BRUSH
  }

  /** The shape matches the dimensions and every cell is a valid store of the grid's style. */
  predicate Valid(g: Grid)
  {
    && |g.cells| == g.width
    && (forall i :: 0 <= i < g.width ==> |g.cells[i]| == g.height)
    && (forall i, j :: 0 <= i < g.width && 0 <= j < g.height ==>
          HasStyle(g.cells[i][j], g.style) && LayerStores.Valid(g.cells[i][j]))
    && BrushInRange(g.brushSize)
  }

  /**
   A new grid of x columns of y empty cells. The source fills every cell with
   a `SetLayerStore` whatever the draw style; this model uses the store the
   draw style names, as documented.
   */
  function NewGrid(style: DrawStyle, x: nat, y: nat): (g: Grid)
    ensures Valid(g)
    ensures g.style == style && g.width == x && g.height == y
    ensures g.brushSize == DEFAULT_BRUSH_SIZE
    ensures forall i, j :: 0 <= i < x && 0 <= j < y ==> g.cells[i][j] == EmptyStore(style)
  {
    Grid(style, x, y, DEFAULT_BRUSH_SIZE, seq(x, i => seq(y, j => EmptyStore(style))))
  }

  /** `grid[i]`: the column of stores at i, or nothing when i is out of range. */
  function Column(g: Grid, i: int): (r: Option<seq<LayerStore>>)
    requires Valid(g)
    ensures r.Some? <==> 0 <= i < g.width
    ensures r.Some? ==> |r.value| == g.height
    ensures r.Some? ==> forall j :: 0 <= j < g.height ==> r.value[j] == g.cells[i][j]
  {
    if 0 <= i < |g.cells| then Some(g.cells[i]) else None
  }

  /** `grid[i][j]`: the store of cell (i, j), or nothing when out of range. */
  function Cell(g: Grid, i: int, j: int): (r: Option<LayerStore>)
    requires Valid(g)
    ensures r.Some? <==> 0 <= i < g.width && 0 <= j < g.height
    ensures r.Some? ==> r.value == g.cells[i][j]
    ensures r.Some? ==> HasStyle(r.value, g.style) && LayerStores.Valid(r.value)
  {
    match Column(g, i)
    case None => None
    case Some(col) => if 0 <= j < |col| then Some(col[j]) else None
  }

  /** Every in-range cell of a new grid is an empty store of the draw style's strategy. */
  lemma CellOfNewGrid(style: DrawStyle, x: nat, y: nat, i: int, j: int)
    requires 0 <= i < x && 0 <= j < y
    ensures Cell(NewGrid(style, x, y), i, j) == Some(EmptyStore(style))
  {
  }

  /**
   Grow the brush by one unless it is at MAX_BRUSH. The source computes the new
   size in a local variable and never stores it; this model stores it, as the
   docstring describes. The console message is left out.
   */
  function IncreaseBrushSize(g: Grid): (r: Grid)
    ensures g.brushSize >= MAX_BRUSH ==> r == g
    ensures g.brushSize < MAX_BRUSH ==> r == g.(brushSize := g.brushSize + 1)
    ensures Valid(g) ==> Valid(r)
  {
    if g.brushSize >= MAX_BRUSH then g else g.(brushSize := g.brushSize + 1)
  }

  /** Shrink the brush by one unless it is at MIN_BRUSH (see `IncreaseBrushSize`). */
  function DecreaseBrushSize(g: Grid): (r: Grid)
    ensures g.brushSize <= MIN_BRUSH ==> r == g
    ensures g.brushSize > MIN_BRUSH ==> r == g.(brushSize := g.brushSize - 1)
    ensures Valid(g) ==> Valid(r)
  {
    if g.brushSize <= MIN_BRUSH then g else g.(brushSize := g.brushSize - 1)
  }

  /** The brush stays in range under any sequence of size changes (true = increase). */
  function ResizeBrush(g: Grid, ups: seq<bool>): (r: Grid)
    ensures Valid(g) ==> Valid(r)
    ensures r.cells == g.cells && r.width == g.width && r.height == g.height && r.style == g.style
    decreases |ups|
  {
    if |ups| == 0 then g
    else ResizeBrush(if ups[0] then IncreaseBrushSize(g) else DecreaseBrushSize(g), ups[1..])
  }

  /** Increasing then decreasing restores the brush unless it was already at the top. */
  lemma BrushRoundTrip(g: Grid)
    requires Valid(g) && g.brushSize < MAX_BRUSH
    ensures DecreaseBrushSize(IncreaseBrushSize(g)) == g
  {
  }

  /** Apply `LayerStores.Special` to every store of a column. */
  function SpecialColumn(col: seq<LayerStore>): (r: seq<LayerStore>)
    ensures |r| == |col|
    ensures forall j :: 0 <= j < |col| ==> r[j] == LayerStores.Special(col[j])
  {
    seq(|col|, j requires 0 <= j < |col| => LayerStores.Special(col[j]))
  }

  /**
   Run every cell's special action once. The source compares the class-level
   option tuple with store classes and calls `special` on a class, which never
   reaches a cell; this model applies the grid's own strategy to each cell.
   */
  function Special(g: Grid): (r: Grid)
    ensures r.style == g.style && r.width == g.width && r.height == g.height && r.brushSize == g.brushSize
    ensures |r.cells| == |g.cells|
    ensures forall i :: 0 <= i < |g.cells| ==> |r.cells[i]| == |g.cells[i]|
    ensures forall i, j :: 0 <= i < |g.cells| && 0 <= j < |g.cells[i]| ==>
              r.cells[i][j] == LayerStores.Special(g.cells[i][j])
    ensures Valid(g) ==> Valid(r)
  {
    var cells := seq(|g.cells|, i requires 0 <= i < |g.cells| => SpecialColumn(g.cells[i]));
    assert Valid(g) ==> forall i, j :: 0 <= i < g.width && 0 <= j < g.height ==>
      HasStyle(cells[i][j], g.style);
    g.(cells := cells)
  }

  /** After the grid-wide special, each in-range cell holds its old store with special applied once. */
  lemma CellAfterSpecial(g: Grid, i: int, j: int)
    requires Valid(g)
    ensures Valid(Special(g))
    ensures Cell(Special(g), i, j).Some? <==> Cell(g, i, j).Some?
    ensures Cell(g, i, j).Some? ==> Cell(Special(g), i, j) == Some(LayerStores.Special(Cell(g, i, j).value))
  {
  }

  /** For the set and additive styles the grid-wide special is its own inverse. */
  lemma SpecialTwiceRestores(g: Grid)
    requires Valid(g) && g.style != SequenceStyle
    ensures Special(Special(g)) == g
  {
    var r := Special(Special(g));
    forall i, j | 0 <= i < g.width && 0 <= j < g.height
      ensures r.cells[i][j] == g.cells[i][j]
    {
      LayerStores.SpecialInvolutive(g.cells[i][j]);
    }
    forall i | 0 <= i < g.width
      ensures r.cells[i] == g.cells[i]
    {
    }
  }
}
