/** `generate_key_value_pairs`: every body cell worth uploading becomes a DHIS2 data
    value. Its key is the row label, a space and the column header, looked up among the
    labels of the fields of the DHIS2 form; the field supplies the data-element and
    category-option-combo ids. The value-only variant of the older docTR module is
    modelled alongside. */
module KeyValue {
  import opened Wrappers
  import opened Tables

  /** One entry of `form['groups'][*]['fields']`. */
  datatype Field = Field(labelText: string, dataElement: string, categoryOptionCombo: string)

  /** The groups of a form, each a list of fields. */
  type Form = seq<seq<Field>>

  /** One `{'dataElement', 'categoryOptionCombo', 'value'}` record. */
  datatype Record = Record(dataElement: string, categoryOptionCombo: string, value: string)

  /** The exceptions: IndexError for a table without a label column, TypeError when
      the label or header of a kept cell is `None`, and the "Unable to find" exception
      naming the key that no field carries. */
  datatype KeyError = NoLabelColumn | NoneInKey | Unresolved(key: string)

  /** The fields of all groups, group after group. */
  function Fields(form: Form): seq<Field>
  {
    if |form| == 0 then [] else Fields(form[..|form| - 1]) + form[|form| - 1]
  }

  /** The ids of the last field carrying `key` as its label. */
  function Lookup(fields: seq<Field>, key: string): Option<(string, string)>
  {
    if |fields| == 0 then None
    else
      var f := fields[|fields| - 1];
      if f.labelText == key then Some((f.dataElement, f.categoryOptionCombo))
      else Lookup(fields[..|fields| - 1], key)
  }

  /** No ids exactly when no field carries the key; otherwise the ids of a field that
      carries it and that no later field carrying it follows. */
  lemma {:induction false} LookupSpec(fields: seq<Field>, key: string)
    ensures Lookup(fields, key).None? <==> forall i :: 0 <= i < |fields| ==> fields[i].labelText != key
    ensures Lookup(fields, key).Some? ==>
      exists i :: 0 <= i < |fields| && fields[i].labelText == key &&
        Lookup(fields, key).value == (fields[i].dataElement, fields[i].categoryOptionCombo) &&
        forall j :: i < j < |fields| ==> fields[j].labelText != key
  {
    if |fields| > 0 {
      var n := |fields| - 1;
      var prefix := fields[..n];
      LookupSpec(prefix, key);
      assert forall i :: 0 <= i < n ==> fields[i] == prefix[i];
      if fields[n].labelText != key && Lookup(fields, key).Some? {
        var i :| 0 <= i < n && prefix[i].labelText == key &&
          Lookup(prefix, key).value == (prefix[i].dataElement, prefix[i].categoryOptionCombo) &&
          forall j :: i < j < n ==> prefix[j].labelText != key;
        assert fields[i] == prefix[i];
      }
    }
  }

  /** The scan over the groups and their fields, each match overwriting the ids found
      so far. */
  method FindField(form: Form, key: string) returns (ids: Option<(string, string)>)
    ensures ids == Lookup(Fields(form), key)
  {
    ids := None;
    for g := 0 to |form|
      invariant ids == Lookup(Fields(form[..g]), key)
    {
      ghost var before := Fields(form[..g]);
      assert form[..g + 1][..g] == form[..g];
      assert before + form[g][..0] == before;
      for k := 0 to |form[g]|
        invariant ids == Lookup(before + form[g][..k], key)
      {
        var field := form[g][k];
        assert before + form[g][..k + 1] == (before + form[g][..k]) + [field];
        LookupAppend(before + form[g][..k], field, key);
        if field.labelText == key {
          ids := Some((field.dataElement, field.categoryOptionCombo));
        }
      }
      assert form[g][..|form[g]|] == form[g];
    }
    assert form[..|form|] == form;
  }

  /** A field added at the end wins when it carries the key. */
  lemma LookupAppend(fields: seq<Field>, f: Field, key: string)
    ensures Lookup(fields + [f], key) ==
      if f.labelText == key then Some((f.dataElement, f.categoryOptionCombo)) else Lookup(fields, key)
  {
    assert (fields + [f])[..|fields|] == fields;
  }

  /** A body cell with the label of its row and the header of its column. */
  datatype Entry = Entry(rowLabel: Cell, category: Cell, cell: Cell)

  /** The body cells of one row, left to right, skipping the label column. */
  function RowEntries(header: seq<Cell>, row: seq<Cell>): (es: seq<Entry>)
    requires 1 <= |row| <= |header|
    ensures |es| == |row| - 1
  {
    seq(|row| - 1, c requires 0 <= c < |row| - 1 => Entry(row[0], header[c + 1], row[c + 1]))
  }

  /** All body cells in row-major order. */
  function Entries(header: seq<Cell>, g: Grid): (es: seq<Entry>)
    requires Rectangular(g, |header|) && (|g| == 0 || |header| >= 1)
    ensures |es| == |g| * (|header| - 1)
  {
    if |g| == 0 then []
    else Entries(header, g[..|g| - 1]) + RowEntries(header, g[|g| - 1])
  }

  /** The cell in row r and column c is entry `r * (width - 1) + c - 1`. */
  lemma {:induction false} EntriesRowMajor(header: seq<Cell>, g: Grid, r: nat, c: nat)
    requires Rectangular(g, |header|) && r < |g| && 1 <= c < |header|
    ensures r * (|header| - 1) + c - 1 < |Entries(header, g)|
    ensures Entries(header, g)[r * (|header| - 1) + c - 1] == Entry(g[r][0], header[c], g[r][c])
  {
    var w := |header| - 1;
    var n := |g| - 1;
    EntriesLast(header, g);
    var before := Entries(header, g[..n]);
    var last := RowEntries(header, g[n]);
    if r < n {
      EntriesRowMajor(header, g[..n], r, c);
      assert g[..n][r] == g[r];
      EarlierRowFirst(r, n, w, c);
      AppendIndex(before, last, r * w + c - 1);
    } else {
      AppendIndex(before, last, r * w + c - 1);
    }
  }

  /** The entries of a grid are those of all rows but the last, then the last row's. */
  lemma EntriesLast(header: seq<Cell>, g: Grid)
    requires Rectangular(g, |header|) && |g| > 0 && |header| >= 1
    ensures Rectangular(g[..|g| - 1], |header|)
    ensures Entries(header, g) == Entries(header, g[..|g| - 1]) + RowEntries(header, g[|g| - 1])
  {
    var prefix := g[..|g| - 1];
    forall i | 0 <= i < |prefix| ensures |prefix[i]| == |header| {
      assert prefix[i] == g[i];
    }
  }

  lemma AppendIndex<T>(xs: seq<T>, ys: seq<T>, k: nat)
    requires k < |xs| + |ys|
    ensures k < |xs| ==> (xs + ys)[k] == xs[k]
    ensures |xs| <= k ==> (xs + ys)[k] == ys[k - |xs|]
  {
  }

  /** A position in an earlier row comes before every position of row n. */
  lemma {:induction false} EarlierRowFirst(r: nat, n: nat, w: nat, c: nat)
    requires r < n && 1 <= c <= w
    ensures r * w + c - 1 < n * w
    decreases n
  {
    assert n * w == (n - 1) * w + w;
    if r < n - 1 {
      EarlierRowFirst(r, n - 1, w, c);
    }
  }



  /** A cell the function uploads: not `None`, "-", "" or "None". */
  predicate Kept(c: Cell)
  {
    c.Some? && c.value != "-" && c.value != "" && c.value != "None"
  }

  /** The composite key of a kept cell. */
  function Key(rowLabel: string, category: string): string
  {
    rowLabel + " " + category
  }

  /** What one body cell contributes: nothing, a record, or an exception. */
  function Step(e: Entry, form: Form): Result<Option<Record>, KeyError>
  {
    if !Kept(e.cell) then Success(None)
    else if e.rowLabel.None? || e.category.None? then Failure(NoneInKey)
    else
      var key := Key(e.rowLabel.value, e.category.value);
      var ids := Lookup(Fields(form), key);
      if ids.None? then Failure(Unresolved(key))
      else Success(Some(Record(ids.value.0, ids.value.1, e.cell.value)))
  }

  /** The records of the entries in order, or the exception of the first entry that
      raises. */
  function Assemble(es: seq<Entry>, form: Form): Result<seq<Record>, KeyError>
  {
    if |es| == 0 then Success([])
    else
      var prefix := Assemble(es[..|es| - 1], form);
      var step := Step(es[|es| - 1], form);
      if prefix.Failure? then prefix
      else if step.Failure? then Failure(step.error)
      else if step.value.None? then prefix
      else Success(prefix.value + [step.value.value])
  }

  /** `generate_key_value_pairs` of the msfocr doctr module. */
  function KeyValuePairs(header: seq<Cell>, g: Grid, form: Form): Result<seq<Record>, KeyError>
    requires Rectangular(g, |header|)
  {
    if |g| > 0 && |header| == 0 then Failure(NoLabelColumn)
    else Assemble(Entries(header, g), form)
  }

  /** The kept entries, in order. */
  function KeptEntries(es: seq<Entry>): (ks: seq<Entry>)
    ensures |ks| <= |es|
    ensures forall k :: 0 <= k < |ks| ==> Kept(ks[k].cell)
  {
    if |es| == 0 then []
    else KeptEntries(es[..|es| - 1]) + (if Kept(es[|es| - 1].cell) then [es[|es| - 1]] else [])
  }

  lemma AssembleAppend(es: seq<Entry>, e: Entry, form: Form)
    ensures Assemble(es + [e], form) ==
      var prefix := Assemble(es, form);
      var step := Step(e, form);
      if prefix.Failure? then prefix
      else if step.Failure? then Failure(step.error)
      else if step.value.None? then prefix
      else Success(prefix.value + [step.value.value])
  {
    assert (es + [e])[..|es|] == es;
  }

  /** No record is produced unless every kept cell resolves; then there is exactly one
      record per kept cell, in row-major order, carrying the cell as its value and the
      ids of the last field labelled with the cell's key. */
  lemma {:induction false} AssembleRecords(es: seq<Entry>, form: Form)
    ensures Assemble(es, form).Success? <==> forall i :: 0 <= i < |es| ==> Step(es[i], form).Success?
    ensures Assemble(es, form).Success? ==>
      var rs, ks := Assemble(es, form).value, KeptEntries(es);
      |rs| == |ks| &&
      forall k :: 0 <= k < |ks| ==>
        ks[k].rowLabel.Some? && ks[k].category.Some? &&
        Lookup(Fields(form), Key(ks[k].rowLabel.value, ks[k].category.value)) ==
          Some((rs[k].dataElement, rs[k].categoryOptionCombo)) &&
        rs[k].value == ks[k].cell.value
  {
    if |es| > 0 {
      var prefix := es[..|es| - 1];
      AssembleRecords(prefix, form);
      assert es == prefix + [es[|es| - 1]];
      assert forall i :: 0 <= i < |prefix| ==> prefix[i] == es[i];
    }
  }

  /** When some cell raises, the exception is the one of the first cell that raises in
      row-major order. */
  lemma {:induction false} AssembleFirstFailure(es: seq<Entry>, form: Form, i: nat)
    requires i < |es| && Step(es[i], form).Failure?
    requires forall j :: 0 <= j < i ==> Step(es[j], form).Success?
    ensures Assemble(es, form) == Failure(Step(es[i], form).error)
  {
    var prefix := es[..|es| - 1];
    assert forall j :: 0 <= j < |prefix| ==> prefix[j] == es[j];
    if i < |es| - 1 {
      AssembleFirstFailure(prefix, form, i);
    } else {
      AssembleRecords(prefix, form);
    }
  }

  /** Once raised, an exception is what any longer run of entries raises too. */
  lemma {:induction false} AssembleFailureExtends(es: seq<Entry>, ts: seq<Entry>, form: Form)
    requires es <= ts && Assemble(es, form).Failure?
    ensures Assemble(ts, form) == Assemble(es, form)
    decreases |ts|
  {
    if |ts| > |es| {
      AssembleFailureExtends(es, ts[..|ts| - 1], form);
    } else {
      assert es == ts;
    }
  }

  /** A table whose body holds only cells that are skipped yields no record, whatever
      the form. */
  lemma {:induction false} AllSkippedNoRecords(es: seq<Entry>, form: Form)
    requires forall i :: 0 <= i < |es| ==> !Kept(es[i].cell)
    ensures Assemble(es, form) == Success([])
  {
    if |es| > 0 {
      AllSkippedNoRecords(es[..|es| - 1], form);
    }
  }

  /** `generate_key_value_pairs` of the msfocr doctr module, over the table's values
      and column labels. */
  method GenerateKeyValuePairs(f: Frame, form: Form) returns (r: Result<seq<Record>, KeyError>)
    requires f.Valid()
    ensures r == KeyValuePairs(f.columns, f.rows, form)
  {
    var header, g := f.columns, f.rows;
    if |g| > 0 && |header| == 0 {
      return Failure(NoLabelColumn);
    }
    var rs: seq<Record> := [];
    for row := 0 to |g|
      invariant Assemble(Entries(header, g[..row]), form) == Success(rs)
    {
      assert g[..row + 1][..row] == g[..row];
      var done := Entries(header, g[..row]);
      r := AssembleRow(done, rs, header, g[row], form);
      if r.Failure? {
        EntriesPrefix(header, g, row + 1);
        AssembleFailureExtends(Entries(header, g[..row + 1]), Entries(header, g), form);
        return r;
      }
      rs := r.value;
    }
    assert g[..|g|] == g;
    return Success(rs);
  }

  /** The inner loop of `generate_key_value_pairs`: the records of one more row after
      those of the rows before it, or the first exception the row raises. */
  method AssembleRow(done: seq<Entry>, rs: seq<Record>, header: seq<Cell>, row: seq<Cell>, form: Form)
    returns (r: Result<seq<Record>, KeyError>)
    requires 1 <= |row| <= |header|
    requires Assemble(done, form) == Success(rs)
    ensures r == Assemble(done + RowEntries(header, row), form)
  {
    var all := done + RowEntries(header, row);
    var rowLabel := row[0];
    var acc := rs;
    assert done + RowEntries(header, row)[..0] == done;
    for col := 1 to |row|
      invariant Assemble(done + RowEntries(header, row)[..col - 1], form) == Success(acc)
    {
      var category, cell := header[col], row[col];
      ghost var es := done + RowEntries(header, row)[..col - 1];
      ghost var es' := done + RowEntries(header, row)[..col];
      assert es' == es + [Entry(rowLabel, category, cell)];
      AssembleAppend(es, Entry(rowLabel, category, cell), form);
      assert es' <= all;
      if cell.Some? && cell.value != "-" && cell.value != "" && cell.value != "None" {
        if rowLabel.None? || category.None? {
          AssembleFailureExtends(es', all, form);
          return Failure(NoneInKey);
        }
        var key := rowLabel.value + " " + category.value;
        var ids := FindField(form, key);
        if ids.None? {
          AssembleFailureExtends(es', all, form);
          return Failure(Unresolved(key));
        }
        acc := acc + [Record(ids.value.0, ids.value.1, cell.value)];
      }
    }
    assert RowEntries(header, row)[..|row| - 1] == RowEntries(header, row);
    return Success(acc);
  }

  /** The entries of the first n rows come first. */
  lemma {:induction false} EntriesPrefix(header: seq<Cell>, g: Grid, n: nat)
    requires Rectangular(g, |header|) && |header| >= 1 && n <= |g|
    ensures Entries(header, g[..n]) <= Entries(header, g)
    decreases |g| - n
  {
    if n < |g| {
      EntriesPrefix(header, g, n + 1);
      assert g[..n + 1][..n] == g[..n];
    } else {
      assert g[..n] == g;
    }
  }

  // ----- The value-only variant of the older docTR module -----

  /** The values of the non-`None` entries, in order: only `None` is skipped. */
  function PresentValues(es: seq<Entry>): (vs: seq<string>)
    ensures |vs| <= |es|
  {
    if |es| == 0 then []
    else
      var e := es[|es| - 1];
      PresentValues(es[..|es| - 1]) + (if e.cell.Some? then [e.cell.value] else [])
  }

  /** `generate_key_value_pairs` of the older docTR module: the value of every
      non-`None` body cell, in row-major order; `None` is the IndexError of a table with
      rows but no columns. */
  function ValuePairs(header: seq<Cell>, g: Grid): Option<seq<string>>
    requires Rectangular(g, |header|)
  {
    if |g| > 0 && |header| == 0 then None
    else Some(PresentValues(Entries(header, g)))
  }

  /** The value-only variant keeps "-", "" and "None", which the msfocr variant drops. */
  lemma {:induction false} PresentValuesKeepsPlaceholders(es: seq<Entry>, i: nat)
    requires i < |es| && es[i].cell.Some?
    ensures es[i].cell.value in PresentValues(es)
  {
    if i < |es| - 1 {
      PresentValuesKeepsPlaceholders(es[..|es| - 1], i);
    }
  }

  /** The values of two runs of entries, one after the other. */
  lemma {:induction false} PresentValuesAppend(xs: seq<Entry>, ys: seq<Entry>)
    ensures PresentValues(xs + ys) == PresentValues(xs) + PresentValues(ys)
    decreases |ys|
  {
    if |ys| > 0 {
      var zs := ys[..|ys| - 1];
      assert (xs + ys)[..|xs + ys| - 1] == xs + zs;
      PresentValuesAppend(xs, zs);
    } else {
      assert xs + ys == xs;
    }
  }

  /** A body of `None` cells yields no value. */
  lemma {:induction false} PresentValuesOfNone(es: seq<Entry>)
    requires forall i :: 0 <= i < |es| ==> es[i].cell == None
    ensures PresentValues(es) == []
  {
    if |es| > 0 {
      PresentValuesOfNone(es[..|es| - 1]);
    }
  }

  /** The loops of the value-only variant. */
  method GenerateValuePairs(f: Frame) returns (r: Option<seq<string>>)
    requires f.Valid()
    ensures r == ValuePairs(f.columns, f.rows)
  {
    var header, g := f.columns, f.rows;
    var width := |header|;
    var vs: seq<string> := [];
    for row := 0 to |g|
      invariant row == 0 || width >= 1
      invariant PresentValues(Entries(header, g[..row])) == vs
    {
      if width == 0 {
        return None;
      }
      EntriesStep(header, g, row);
      ghost var done := Entries(header, g[..row]);
      ghost var entries := RowEntries(header, g[row]);
      assert done + entries[..0] == done;
      for col := 1 to width
        invariant PresentValues(done + entries[..col - 1]) == vs
      {
        var cell := g[row][col];
        PresentValuesStep(done, header, g[row], col);
        if cell.Some? {
          vs := vs + [cell.value];
        }
      }
      assert entries[..width - 1] == entries;
    }
    assert g[..|g|] == g;
    return Some(vs);
  }

  /** The entries of one more row follow those of the rows before it. */
  lemma EntriesStep(header: seq<Cell>, g: Grid, row: nat)
    requires Rectangular(g, |header|) && |header| >= 1 && row < |g|
    ensures Rectangular(g[..row], |header|)
    ensures Entries(header, g[..row + 1]) == Entries(header, g[..row]) + RowEntries(header, g[row])
  {
    var rows := g[..row + 1];
    forall i | 0 <= i < |rows| ensures |rows[i]| == |header| {
      assert rows[i] == g[i];
    }
    EntriesLast(header, rows);
    assert rows[..row] == g[..row] && rows[row] == g[row];
  }

  /** The cell in column col adds its value, when it has one, after those of the cells
      before it. */
  lemma PresentValuesStep(done: seq<Entry>, header: seq<Cell>, row: seq<Cell>, col: nat)
    requires 1 <= col < |row| <= |header|
    ensures PresentValues(done + RowEntries(header, row)[..col]) ==
      PresentValues(done + RowEntries(header, row)[..col - 1]) + (if row[col].Some? then [row[col].value] else [])
  {
    var es := done + RowEntries(header, row)[..col - 1];
    var e := Entry(row[0], header[col], row[col]);
    assert done + RowEntries(header, row)[..col] == es + [e];
    PresentValuesAppend(es, [e]);
    assert [e][..0] == [];
  }

  /** The values of the non-`None` cells of a list, in order. */
  function PresentCells(cs: seq<Cell>): (vs: seq<string>)
  {
    if |cs| == 0 then []
    else (if cs[0].Some? then [cs[0].value] else []) + PresentCells(cs[1..])
  }

  /** Within one row, the values are those of the row's present cells after the label. */
  lemma {:induction false} RowPresentValues(header: seq<Cell>, row: seq<Cell>)
    requires 1 <= |row| <= |header|
    ensures PresentValues(RowEntries(header, row)) == PresentCells(row[1..])
    decreases |row|
  {
    if |row| > 1 {
      var es := RowEntries(header, row);
      var shorter := row[..|row| - 1];
      RowPresentValues(header, shorter);
      assert es[..|es| - 1] == RowEntries(header, shorter);
      PresentCellsAppend(shorter[1..], row[|row| - 1]);
      assert row[1..] == shorter[1..] + [row[|row| - 1]];
    }
  }

  lemma {:induction false} PresentCellsAppend(cs: seq<Cell>, c: Cell)
    ensures PresentCells(cs + [c]) == PresentCells(cs) + (if c.Some? then [c.value] else [])
  {
    if |cs| > 0 {
      assert (cs + [c])[1..] == cs[1..] + [c];
      PresentCellsAppend(cs[1..], c);
    }
  }

  /** The present cells after the label, row by row. */
  function GridValues(g: Grid): (vs: seq<string>)
  {
    if |g| == 0 then []
    else GridValues(g[..|g| - 1]) + (if |g[|g| - 1]| == 0 then [] else PresentCells(g[|g| - 1][1..]))
  }

  /** The value-only variant gives, row after row, the present cells after the label. */
  lemma {:induction false} ValuePairsRowByRow(header: seq<Cell>, g: Grid)
    requires Rectangular(g, |header|) && |header| >= 1
    ensures ValuePairs(header, g) == Some(GridValues(g))
  {
    if |g| > 0 {
      var n := |g| - 1;
      assert g[..n][..] == g[..n];
      ValuePairsRowByRow(header, g[..n]);
      RowPresentValues(header, g[n]);
      PresentValuesAppend(Entries(header, g[..n]), RowEntries(header, g[n]));
    }
  }

  lemma PresentCellsOfThree(a: Cell, b: Cell, c: Cell)
    ensures PresentCells([a, b, c]) ==
      (if a.Some? then [a.value] else []) + (if b.Some? then [b.value] else []) +
      (if c.Some? then [c.value] else [])
  {
    assert [a, b, c][1..] == [b, c] && [b, c][1..] == [c] && [c][1..] == [];
    assert PresentCells([c]) == (if c.Some? then [c.value] else []);
    assert PresentCells([b, c]) == (if b.Some? then [b.value] else []) + PresentCells([c]);
  }

  lemma GridValuesOfThree(r0: seq<Cell>, r1: seq<Cell>, r2: seq<Cell>)
    requires |r0| >= 1 && |r1| >= 1 && |r2| >= 1
    ensures GridValues([r0, r1, r2]) == PresentCells(r0[1..]) + PresentCells(r1[1..]) + PresentCells(r2[1..])
  {
    var g := [r0, r1, r2];
    assert g[..2][..1] == [r0] && g[..2] == [r0, r1] && [r0][..0] == [];
    assert GridValues([r0]) == PresentCells(r0[1..]);
  }

  /** A three-row table gives the present cells of its rows, one row after the other. */
  lemma ValuePairsOfThree(header: seq<Cell>, r0: seq<Cell>, r1: seq<Cell>, r2: seq<Cell>)
    requires |header| >= 1 && |r0| == |header| && |r1| == |header| && |r2| == |header|
    ensures ValuePairs(header, [r0, r1, r2]) ==
      Some(PresentCells(r0[1..]) + PresentCells(r1[1..]) + PresentCells(r2[1..]))
  {
    ValuePairsRowByRow(header, [r0, r1, r2]);
    GridValuesOfThree(r0, r1, r2);
  }

  /** The first table of the docTR unit test: a single row whose body is all `None`. */
  lemma ValuePairsTestEmpty()
    ensures ValuePairs([Some("0"), Some("0-11m"), Some("12-59m"), Some("5-14y")],
      [[Some("Paed (0-59m) vacc target population"), None, None, None]]) == Some([])
  {
    var header := [Some("0"), Some("0-11m"), Some("12-59m"), Some("5-14y")];
    var g := [[Some("Paed (0-59m) vacc target population"), None, None, None]];
    PresentValuesOfNone(Entries(header, g));
  }

  /** The second table of the docTR unit test ("45+29", then "30+18" and "55+29"): the
      three filled cells come out in row-major order, whatever their texts, the column
      labels and the row labels. */
  lemma ValuePairsTestThreeRows(header: seq<Cell>, bcg: Cell, opv0: Cell, opv1: Cell, x: string, y: string, z: string)
    requires |header| == 4
    ensures ValuePairs(header,
      [[bcg, Some(x), None, None],
       [opv0, None, None, None],
       [opv1, Some(y), Some(z), None]])
      == Some([x, y, z])
  {
    var r0, r1, r2 := [bcg, Some(x), None, None], [opv0, None, None, None], [opv1, Some(y), Some(z), None];
    ValuePairsOfThree(header, r0, r1, r2);
    assert r0[1..] == [Some(x), None, None];
    assert r1[1..] == [None, None, None];
    assert r2[1..] == [Some(y), Some(z), None];
    PresentCellsOfThree(Some(x), None, None);
    PresentCellsOfThree(None, None, None);
    PresentCellsOfThree(Some(y), Some(z), None);
    assert PresentCells(r0[1..]) == [x];
    assert PresentCells(r1[1..]) == [];
    assert PresentCells(r2[1..]) == [y, z];
    assert [x] + [] + [y, z] == [x, y, z];
  }
}
