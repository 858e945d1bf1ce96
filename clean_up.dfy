/** `clean_up`: every cell that OCR left empty, either `None` or the text "None", is
    overwritten with the empty string, one cell at a time. */
module CleanUp {
  import opened Wrappers
  import opened Tables

  /** What OCR leaves in a cell where it read nothing. */
  predicate Placeholder(c: Cell)
  {
    c == None || c == Some("None")
  }

  function CleanCell(c: Cell): Cell
  {
    if Placeholder(c) then Some("") else c
  }

  /** The grid `clean_up` leaves behind. */
  function CleanGrid(g: Grid): Grid
  {
    seq(|g|, r requires 0 <= r < |g| => seq(|g[r]|, c requires 0 <= c < |g[r]| => CleanCell(g[r][c])))
  }

  /** The shape is kept, placeholders become "" and every other cell is left alone. */
  lemma CleanGridCells(g: Grid)
    ensures |CleanGrid(g)| == |g|
    ensures forall r :: 0 <= r < |g| ==> |CleanGrid(g)[r]| == |g[r]|
    ensures forall r, c :: 0 <= r < |g| && 0 <= c < |g[r]| && Placeholder(g[r][c]) ==>
      CleanGrid(g)[r][c] == Some("")
    ensures forall r, c :: 0 <= r < |g| && 0 <= c < |g[r]| && !Placeholder(g[r][c]) ==>
      CleanGrid(g)[r][c] == g[r][c]
  {
  }

  /** Afterwards no cell is `None` or "None". */
  lemma CleanGridHasNoPlaceholder(g: Grid)
    ensures forall r, c :: 0 <= r < |g| && 0 <= c < |g[r]| ==> !Placeholder(CleanGrid(g)[r][c])
  {
  }

  /** Cleaning twice is cleaning once. */
  lemma CleanGridIdempotent(g: Grid)
    ensures CleanGrid(CleanGrid(g)) == CleanGrid(g)
  {
    var h := CleanGrid(g);
    assert forall r :: 0 <= r < |h| ==> CleanGrid(h)[r] == h[r];
  }

  /** `clean_up` on one table: the nested loops over rows and columns. */
  method CleanTable(f: Frame)
    requires f.Valid()
    modifies f
    ensures f.Valid() && f.columns == old(f.columns)
    ensures f.rows == CleanGrid(old(f.rows))
  {
    ghost var g := f.rows;
    var width := |f.columns|;
    for r := 0 to |f.rows|
      invariant f.columns == old(f.columns) && |f.rows| == |g|
      invariant forall k :: 0 <= k < r ==> f.rows[k] == CleanGrid(g)[k]
      invariant forall k :: r <= k < |g| ==> f.rows[k] == g[k]
    {
      ghost var before := f.rows;
      for c := 0 to width
        invariant f.columns == old(f.columns) && |f.rows| == |g| && |f.rows[r]| == width
        invariant forall k :: 0 <= k < |g| && k != r ==> f.rows[k] == before[k]
        invariant forall j :: 0 <= j < c ==> f.rows[r][j] == CleanCell(g[r][j])
        invariant forall j :: c <= j < width ==> f.rows[r][j] == g[r][j]
      {
        var cell := f.rows[r][c];
        if cell == None || cell == Some("None") {
          f.rows := f.rows[r := f.rows[r][c := Some("")]];
        }
      }
      assert f.rows[r] == CleanGrid(g)[r];
    }
  }

  /** `clean_up` on the list of tables. A frame listed twice is cleaned twice, which
      leaves it as cleaning it once does. */
  method CleanTables(tables: seq<Frame>)
    requires forall i :: 0 <= i < |tables| ==> tables[i].Valid()
    modifies set i | 0 <= i < |tables| :: tables[i]
    ensures forall i :: 0 <= i < |tables| ==> tables[i].Valid()
    ensures forall i :: 0 <= i < |tables| ==>
      tables[i].rows == CleanGrid(old(tables[i].rows)) && tables[i].columns == old(tables[i].columns)
  {
    for i := 0 to |tables|
      invariant forall k :: 0 <= k < |tables| ==> tables[k].Valid()
      invariant forall k :: 0 <= k < |tables| ==> tables[k].columns == old(tables[k].columns)
      invariant forall k :: 0 <= k < |tables| ==>
        tables[k].rows == old(tables[k].rows) || tables[k].rows == CleanGrid(old(tables[k].rows))
      invariant forall k :: 0 <= k < i ==> tables[k].rows == CleanGrid(old(tables[k].rows))
    {
      CleanGridIdempotent(old(tables[i].rows));
      CleanTable(tables[i]);
    }
  }
}
