/** The shape shared by the simulator and the reader: a grid is a sequence of
    rows, each a sequence of cell values. */
module Grids {
  type Grid = seq<seq<int>>
}
