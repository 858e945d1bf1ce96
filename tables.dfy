/** The tables the pipeline works on. A pandas DataFrame read from a tally sheet is a
    list of column labels and a rectangular grid of cells; a cell holds the text OCR
    read or `None` where nothing was read. */
module Tables {
  import opened Wrappers

  type Cell = Option<string>

  type Grid = seq<seq<Cell>>

  /** Every row has `width` cells, as in any DataFrame. */
  predicate Rectangular(g: Grid, width: nat)
  {
    forall r :: 0 <= r < |g| ==> |g[r]| == width
  }

  /** A DataFrame the pipeline updates in place. */
  class Frame {
    var columns: seq<Cell>
    var rows: Grid

    predicate Valid()
      reads this
    {
      Rectangular(rows, |columns|)
    }

    constructor (columns: seq<Cell>, rows: Grid)
      ensures this.columns == columns && this.rows == rows
    {
      this.columns := columns;
      this.rows := rows;
    }
  }

  /** No frame occurs twice in the list. */
  predicate Distinct(tables: seq<Frame>)
  {
    forall i, j :: 0 <= i < j < |tables| ==> tables[i] != tables[j]
  }
}
