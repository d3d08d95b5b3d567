/**
 What the trackers need from a paint action: how it changes a grid when
 applied, undone and redone. action.py is not part of this model, so the three
 transformers are parameters and an action is any value of type `A`.
 */
module Actions {
  import opened Grids

  datatype Semantics<-A> = Semantics(
    apply: (A, Grid) -> Grid,
    undoApply: (A, Grid) -> Grid,
    redoApply: (A, Grid) -> Grid)
}
