/** `set_first_row_as_header`: row 0 of a recognised table becomes its column labels
    and the remaining rows are renumbered from 0. */
module Header {
  import opened Wrappers
  import opened Tables

  /** The labels and body after the promotion; `None` is the IndexError `iloc[0]`
      raises on a table without rows. */
  function Promote(g: Grid): (r: Option<(seq<Cell>, Grid)>)
    ensures r.None? <==> |g| == 0
    ensures r.Some? ==> [r.value.0] + r.value.1 == g
  {
    if |g| == 0 then None else Some((g[0], g[1..]))
  }

  /** The promoted body is a table whose width is the new number of labels, and row i
      of it is row i + 1 of the table before. */
  lemma PromoteShape(g: Grid, width: nat)
    requires Rectangular(g, width) && |g| > 0
    ensures Rectangular(Promote(g).value.1, |Promote(g).value.0|)
    ensures |Promote(g).value.1| == |g| - 1
    ensures forall i :: 0 <= i < |g| - 1 ==> Promote(g).value.1[i] == g[i + 1]
  {
    assert |g[0]| == width;
  }

  /** Promotion is undone by putting the labels back on top: nothing is lost. */
  lemma PromoteInjective(g: Grid, h: Grid)
    requires Promote(g).Some? && Promote(g) == Promote(h)
    ensures g == h
  {
    assert g == [Promote(g).value.0] + Promote(g).value.1;
  }

  /** The source assigns the labels on its argument before slicing, so the argument's
      labels are overwritten too; the slice is a new table. */
  method SetFirstRowAsHeader(f: Frame) returns (r: Option<Frame>)
    requires f.Valid()
    modifies f
    ensures old(f.rows) == [] ==> r.None? && f.columns == old(f.columns)
    ensures r.Some? <==> old(f.rows) != []
    ensures old(f.rows) != [] ==> f.columns == old(f.rows[0])
    ensures f.rows == old(f.rows) && f.Valid()
    ensures r.Some? ==> fresh(r.value) && r.value.Valid()
    ensures r.Some? ==> Promote(old(f.rows)) == Some((r.value.columns, r.value.rows))
  {
    if |f.rows| == 0 {
      return None;
    }
    f.columns := f.rows[0];
    var body := new Frame(f.columns, f.rows[1..]);
    PromoteShape(f.rows, |old(f.columns)|);
    return Some(body);
  }
}
