/** `correct_field_names`: every row label (column 0) is replaced by the closest
    data-element name and then every column header (row 0) by the closest
    category-option name, closeness being `letter_by_letter_similarity`. The two
    vocabularies come from the DHIS2 form and are parameters here. */
module FieldNames {
  import opened Wrappers
  import opened Tables
  import opened Similarity
  import opened BestMatch

  /** The similarity of `text` to each name in turn; defined when no pair of empty
      strings makes the similarity divide by zero. */
  function Scores(text: string, vocab: seq<string>): (s: seq<real>)
    requires text != "" || "" !in vocab
    ensures |s| == |vocab|
    ensures forall i :: 0 <= i < |vocab| ==> LetterByLetterSimilarity(text, vocab[i]) == Some(s[i])
  {
    if |vocab| == 0 then []
    else Scores(text, vocab[..|vocab| - 1]) + [LetterByLetterSimilarity(text, vocab[|vocab| - 1]).value]
  }

  /** The running state of the inner loop after scanning `vocab`: the best similarity
      so far, starting at 0, and the name that reached it, starting at "". `None` is the
      ZeroDivisionError raised when the label and a name are both empty. */
  function Scan(text: string, vocab: seq<string>): Option<(real, string)>
  {
    if |vocab| == 0 then Some((0.0, ""))
    else
      var st := Scan(text, vocab[..|vocab| - 1]);
      var sim := LetterByLetterSimilarity(text, vocab[|vocab| - 1]);
      if st.None? || sim.None? then None
      else if st.value.0 < sim.value then Some((sim.value, vocab[|vocab| - 1]))
      else st
  }

  /** The scan ends on the first strict maximum of the similarities, and raises
      exactly when the label and some name are both empty. */
  lemma {:induction false} ScanIsFirstStrictMax(text: string, vocab: seq<string>)
    ensures Scan(text, vocab).None? <==> text == "" && "" in vocab
    ensures Scan(text, vocab).Some? ==>
      var k := FirstStrictMax(Scores(text, vocab));
      Scan(text, vocab).value == (Best(Scores(text, vocab), k), if k == -1 then "" else vocab[k])
  {
    if |vocab| > 0 {
      var prefix := vocab[..|vocab| - 1];
      ScanIsFirstStrictMax(text, prefix);
      assert vocab == prefix + [vocab[|vocab| - 1]];
      if Scan(text, vocab).Some? {
        assert Scores(text, vocab) == Scores(text, prefix) + [Scores(text, vocab)[|vocab| - 1]];
        FirstStrictMaxAppend(Scores(text, prefix), Scores(text, vocab)[|vocab| - 1]);
      }
    }
  }

  /** The name `correct_field_names` writes for one label. */
  function Reconcile(text: string, vocab: seq<string>): (r: Option<string>)
    ensures r.None? <==> text == "" && "" in vocab
    ensures r.Some? ==> r.value == "" || r.value in vocab
  {
    ScanIsFirstStrictMax(text, vocab);
    var st := Scan(text, vocab);
    if st.None? then None else Some(st.value.1)
  }

  /** The name the scan settles on, through the characterisation of the scan. */
  lemma ReconcileIsScan(text: string, vocab: seq<string>)
    requires text != "" || "" !in vocab
    ensures var k := FirstStrictMax(Scores(text, vocab));
      Reconcile(text, vocab) == Some(if k == -1 then "" else vocab[k])
  {
    ScanIsFirstStrictMax(text, vocab);
  }

  /** The label becomes "" exactly when no name is similar at all. */
  lemma ReconcileToEmpty(text: string, vocab: seq<string>)
    requires text != "" || "" !in vocab
    ensures Reconcile(text, vocab) == Some("") <==>
      forall i :: 0 <= i < |vocab| ==> LetterByLetterSimilarity(text, vocab[i]) == Some(0.0)
  {
    ReconcileIsScan(text, vocab);
    var s := Scores(text, vocab);
    var k := FirstStrictMax(s);
    if k != -1 && vocab[k] == "" {
      SimilarityWithEmpty(text);
    }
    assert forall i :: 0 <= i < |vocab| ==> 0.0 <= s[i];
  }

  /** Otherwise it becomes the first name with the highest similarity. */
  lemma ReconcileIsFirstBest(text: string, vocab: seq<string>, k: nat)
    requires text != "" || "" !in vocab
    requires IsFirstBest(Scores(text, vocab), k)
    ensures Reconcile(text, vocab) == Some(vocab[k])
  {
    FirstStrictMaxUnique(Scores(text, vocab), k);
    ReconcileIsScan(text, vocab);
  }

  /** ... and every non-empty result is such a name. */
  lemma ReconcileChoosesFirstBest(text: string, vocab: seq<string>)
    requires Reconcile(text, vocab).Some? && Reconcile(text, vocab).value != ""
    ensures exists k :: IsFirstBest(Scores(text, vocab), k) && vocab[k] == Reconcile(text, vocab).value
  {
    ReconcileIsScan(text, vocab);
    var k := FirstStrictMax(Scores(text, vocab));
    FirstStrictMaxUnique(Scores(text, vocab), k);
    assert IsFirstBest(Scores(text, vocab), k) && vocab[k] == Reconcile(text, vocab).value;
  }

  /** The first position of x in the list. */
  function IndexOf(vocab: seq<string>, x: string): (k: nat)
    requires x in vocab
    ensures k < |vocab| && vocab[k] == x
    ensures forall i :: 0 <= i < k ==> vocab[i] != x
  {
    if vocab[0] == x then 0 else 1 + IndexOf(vocab[1..], x)
  }

  /** A label that already is one of the names is kept. */
  lemma ReconcileKeepsName(text: string, vocab: seq<string>)
    requires text != "" && text in vocab
    ensures Reconcile(text, vocab) == Some(text)
  {
    var k := IndexOf(vocab, text);
    var s := Scores(text, vocab);
    assert s[k] == 1.0;
    assert forall i :: 0 <= i < k ==> s[i] < 1.0;
    ReconcileIsFirstBest(text, vocab, k);
  }

  /** With no names at all, every label becomes "". */
  lemma ReconcileWithoutNames(text: string)
    ensures Reconcile(text, []) == Some("")
  {
  }

  /** One label cell: `None` is skipped, text is reconciled; the outer `None` is the
      exception. */
  function LabelMatch(c: Cell, vocab: seq<string>): Option<Cell>
  {
    match c
    case None => Some(None)
    case Some(t) =>
      var r := Reconcile(t, vocab);
      if r.None? then None else Some(Some(r.value))
  }

  /** The row pass over one table. A table with rows but no columns raises
      IndexError on its first label. */
  function RowPass(g: Grid, width: nat, vocab: seq<string>): Option<Grid>
    requires Rectangular(g, width)
  {
    if |g| > 0 && width == 0 then None
    else if exists r :: 0 <= r < |g| && LabelMatch(g[r][0], vocab).None? then None
    else Some(seq(|g|, r requires 0 <= r < |g| => g[r][0 := LabelMatch(g[r][0], vocab).value]))
  }

  /** The column pass over one table. A table with columns but no rows raises
      IndexError on its first header. */
  function ColumnPass(g: Grid, width: nat, vocab: seq<string>): Option<Grid>
    requires Rectangular(g, width)
  {
    if width > 0 && |g| == 0 then None
    else if |g| > 0 && exists c :: 0 <= c < width && LabelMatch(g[0][c], vocab).None? then None
    else if |g| == 0 then Some(g)
    else Some(g[0 := seq(width, c requires 0 <= c < width => LabelMatch(g[0][c], vocab).value)])
  }

  /** One table after both passes, when neither raises. */
  function Corrected(g: Grid, width: nat, de: seq<string>, coc: seq<string>): Option<Grid>
    requires Rectangular(g, width)
  {
    var h := RowPass(g, width, de);
    if h.None? then None
    else
      RowPassShape(g, width, de);
      ColumnPass(h.value, width, coc)
  }

  /** h differs from g at most in its header row and its label column. */
  predicate LabelsOnly(g: Grid, h: Grid, width: nat)
  {
    Rectangular(g, width) && Rectangular(h, width) && |h| == |g| &&
    forall r, c :: 1 <= r < |g| && 1 <= c < width ==> h[r][c] == g[r][c]
  }

  /** The row pass rewrites each label cell as `LabelMatch` says and nothing else. */
  lemma RowPassShape(g: Grid, width: nat, vocab: seq<string>)
    requires Rectangular(g, width) && RowPass(g, width, vocab).Some?
    ensures LabelsOnly(g, RowPass(g, width, vocab).value, width)
    ensures forall r :: 0 <= r < |g| ==> RowPass(g, width, vocab).value[r][0] == LabelMatch(g[r][0], vocab).value
    ensures forall r, c :: 0 <= r < |g| && 1 <= c < width ==> RowPass(g, width, vocab).value[r][c] == g[r][c]
  {
  }

  /** The column pass rewrites each header cell as `LabelMatch` says and nothing else. */
  lemma ColumnPassShape(g: Grid, width: nat, vocab: seq<string>)
    requires Rectangular(g, width) && ColumnPass(g, width, vocab).Some?
    ensures LabelsOnly(g, ColumnPass(g, width, vocab).value, width)
    ensures forall c :: 0 <= c < width ==> ColumnPass(g, width, vocab).value[0][c] == LabelMatch(g[0][c], vocab).value
    ensures forall r :: 1 <= r < |g| ==> ColumnPass(g, width, vocab).value[r] == g[r]
  {
  }

  /** After both passes the shape and the body are kept, a row label is a data-element
      name or "" (or still `None`), and the top-left cell, which both passes visit, ends
      as a category-option name or "" when it held text. */
  lemma CorrectedLabels(g: Grid, width: nat, de: seq<string>, coc: seq<string>)
    requires Rectangular(g, width) && Corrected(g, width, de, coc).Some?
    ensures LabelsOnly(g, Corrected(g, width, de, coc).value, width)
    ensures forall r :: 1 <= r < |g| ==>
      var l := Corrected(g, width, de, coc).value[r][0];
      (l == None <==> g[r][0] == None) && (l.Some? ==> l.value == "" || l.value in de)
    ensures |g| > 0 && g[0][0].Some? ==>
      var l := Corrected(g, width, de, coc).value[0][0];
      l.Some? && (l.value == "" || l.value in coc)
  {
    RowPassShape(g, width, de);
    var h := RowPass(g, width, de).value;
    ColumnPassShape(h, width, coc);
  }

  /** Once the scan has raised, scanning further names changes nothing. */
  lemma {:induction false} ScanNoneStays(text: string, vocab: seq<string>, n: nat)
    requires n <= |vocab| && Scan(text, vocab[..n]).None?
    ensures Scan(text, vocab).None?
    decreases |vocab| - n
  {
    if n < |vocab| {
      assert vocab[..n + 1][..n] == vocab[..n];
      ScanNoneStays(text, vocab, n + 1);
    } else {
      assert vocab[..n] == vocab;
    }
  }

  /** The inner loop of either pass: the running maximum starts at 0 with "" as the
      best name and is replaced by every strictly greater similarity. */
  method MatchLabel(text: string, vocab: seq<string>) returns (ok: bool, best: string)
    ensures ok == Reconcile(text, vocab).Some?
    ensures ok ==> best == Reconcile(text, vocab).value
  {
    var maxSim := 0.0;
    best := "";
    for i := 0 to |vocab|
      invariant Scan(text, vocab[..i]) == Some((maxSim, best))
    {
      var sim := LetterByLetterSimilarity(text, vocab[i]);
      assert vocab[..i + 1][..i] == vocab[..i];
      if sim.None? {
        assert Scan(text, vocab[..i + 1]).None?;
        ScanNoneStays(text, vocab, i + 1);
        return false, "";
      }
      if maxSim < sim.value {
        maxSim := sim.value;
        best := vocab[i];
      }
    }
    assert vocab[..|vocab|] == vocab;
    ok := true;
  }

  /** The row pass of `correct_field_names` on one table, in place. `ok` is false when
      it raised, leaving the rows before the failing one rewritten. */
  method RowPassTable(f: Frame, vocab: seq<string>) returns (ok: bool)
    requires f.Valid()
    modifies f
    ensures f.Valid() && f.columns == old(f.columns)
    ensures LabelsOnly(old(f.rows), f.rows, |f.columns|)
    ensures ok == RowPass(old(f.rows), |f.columns|, vocab).Some?
    ensures ok ==> f.rows == RowPass(old(f.rows), |f.columns|, vocab).value
  {
    ghost var g := f.rows;
    var width := |f.columns|;
    for row := 0 to |f.rows|
      invariant f.Valid() && f.columns == old(f.columns) && |f.rows| == |g|
      invariant row > 0 ==> width > 0
      invariant forall k :: 0 <= k < row ==> LabelMatch(g[k][0], vocab).Some?
      invariant forall k :: 0 <= k < row ==> f.rows[k] == g[k][0 := LabelMatch(g[k][0], vocab).value]
      invariant forall k :: row <= k < |g| ==> f.rows[k] == g[k]
    {
      if width == 0 {
        return false;
      }
      var text := f.rows[row][0];
      if text.Some? {
        var matched, best := MatchLabel(text.value, vocab);
        if !matched {
          assert LabelMatch(g[row][0], vocab).None?;
          return false;
        }
        f.rows := f.rows[row := f.rows[row][0 := Some(best)]];
      }
    }
    ok := true;
    assert forall k :: 0 <= k < |g| ==> f.rows[k] == RowPass(g, width, vocab).value[k];
  }

  /** The column pass of `correct_field_names` on one table, in place. */
  method ColumnPassTable(f: Frame, vocab: seq<string>) returns (ok: bool)
    requires f.Valid()
    modifies f
    ensures f.Valid() && f.columns == old(f.columns)
    ensures LabelsOnly(old(f.rows), f.rows, |f.columns|)
    ensures ok == ColumnPass(old(f.rows), |f.columns|, vocab).Some?
    ensures ok ==> f.rows == ColumnPass(old(f.rows), |f.columns|, vocab).value
  {
    ghost var g := f.rows;
    var width := |f.columns|;
    if |f.rows| == 0 {
      // With no rows, the first header lookup raises IndexError.
      return width == 0;
    }
    for col := 0 to width
      invariant f.Valid() && f.columns == old(f.columns) && |f.rows| == |g|
      invariant forall k :: 0 <= k < col ==> LabelMatch(g[0][k], vocab).Some?
      invariant forall k :: 0 <= k < col ==> f.rows[0][k] == LabelMatch(g[0][k], vocab).value
      invariant forall k :: col <= k < width ==> f.rows[0][k] == g[0][k]
      invariant forall r :: 1 <= r < |g| ==> f.rows[r] == g[r]
    {
      var text := f.rows[0][col];
      if text.Some? {
        var matched, best := MatchLabel(text.value, vocab);
        if !matched {
          assert LabelMatch(g[0][col], vocab).None?;
          return false;
        }
        f.rows := f.rows[0 := f.rows[0][col := Some(best)]];
      }
    }
    ok := true;
    assert f.rows[0] == ColumnPass(g, width, vocab).value[0];
    assert forall r :: 0 <= r < |g| ==> f.rows[r] == ColumnPass(g, width, vocab).value[r];
  }

  lemma LabelsOnlyTransitive(g: Grid, h: Grid, k: Grid, width: nat)
    requires LabelsOnly(g, h, width) && LabelsOnly(h, k, width)
    ensures LabelsOnly(g, k, width)
  {
  }

  /** The first loop of `correct_field_names`: the row pass over every table, stopping
      at the first label that raises. */
  method RowPasses(tables: seq<Frame>, de: seq<string>) returns (ok: bool)
    requires Distinct(tables)
    requires forall i :: 0 <= i < |tables| ==> tables[i].Valid()
    modifies set i | 0 <= i < |tables| :: tables[i]
    ensures forall i :: 0 <= i < |tables| ==> tables[i].Valid() && tables[i].columns == old(tables[i].columns)
    ensures forall i :: 0 <= i < |tables| ==> LabelsOnly(old(tables[i].rows), tables[i].rows, |tables[i].columns|)
    ensures ok == forall i :: 0 <= i < |tables| && old(tables[i].Valid()) ==>
      RowPass(old(tables[i].rows), |tables[i].columns|, de).Some?
    ensures ok ==> forall i :: 0 <= i < |tables| && old(tables[i].Valid()) ==>
      tables[i].rows == RowPass(old(tables[i].rows), |tables[i].columns|, de).value
  {
    for i := 0 to |tables|
      invariant forall k :: 0 <= k < |tables| ==> tables[k].Valid() && tables[k].columns == old(tables[k].columns)
      invariant forall k :: 0 <= k < i ==> RowPass(old(tables[k].rows), |tables[k].columns|, de).Some?
      invariant forall k :: 0 <= k < i ==> tables[k].rows == RowPass(old(tables[k].rows), |tables[k].columns|, de).value
      invariant forall k :: i <= k < |tables| ==> tables[k].rows == old(tables[k].rows)
      invariant forall k :: 0 <= k < |tables| ==> LabelsOnly(old(tables[k].rows), tables[k].rows, |tables[k].columns|)
    {
      ok := RowPassTable(tables[i], de);
      if !ok {
        return;
      }
    }
    ok := true;
  }

  /** The second loop of `correct_field_names`: the column pass over every table. */
  method ColumnPasses(tables: seq<Frame>, coc: seq<string>) returns (ok: bool)
    requires Distinct(tables)
    requires forall i :: 0 <= i < |tables| ==> tables[i].Valid()
    modifies set i | 0 <= i < |tables| :: tables[i]
    ensures forall i :: 0 <= i < |tables| ==> tables[i].Valid() && tables[i].columns == old(tables[i].columns)
    ensures forall i :: 0 <= i < |tables| ==> LabelsOnly(old(tables[i].rows), tables[i].rows, |tables[i].columns|)
    ensures ok == forall i :: 0 <= i < |tables| && old(tables[i].Valid()) ==>
      ColumnPass(old(tables[i].rows), |tables[i].columns|, coc).Some?
    ensures ok ==> forall i :: 0 <= i < |tables| && old(tables[i].Valid()) ==>
      tables[i].rows == ColumnPass(old(tables[i].rows), |tables[i].columns|, coc).value
  {
    for i := 0 to |tables|
      invariant forall k :: 0 <= k < |tables| ==> tables[k].Valid() && tables[k].columns == old(tables[k].columns)
      invariant forall k :: 0 <= k < i ==> ColumnPass(old(tables[k].rows), |tables[k].columns|, coc).Some?
      invariant forall k :: 0 <= k < i ==> tables[k].rows == ColumnPass(old(tables[k].rows), |tables[k].columns|, coc).value
      invariant forall k :: i <= k < |tables| ==> tables[k].rows == old(tables[k].rows)
      invariant forall k :: 0 <= k < |tables| ==> LabelsOnly(old(tables[k].rows), tables[k].rows, |tables[k].columns|)
    {
      ok := ColumnPassTable(tables[i], coc);
      if !ok {
        return;
      }
    }
    ok := true;
  }

  /** `correct_field_names`: the row pass over every table, then the column pass over
      every table. `ok` is false when some label raised; the tables then keep their
      shape and bodies but may be partly rewritten. */
  method CorrectFieldNames(tables: seq<Frame>, de: seq<string>, coc: seq<string>) returns (ok: bool)
    requires Distinct(tables)
    requires forall i :: 0 <= i < |tables| ==> tables[i].Valid()
    modifies set i | 0 <= i < |tables| :: tables[i]
    ensures forall i :: 0 <= i < |tables| ==> tables[i].Valid() && tables[i].columns == old(tables[i].columns)
    ensures forall i :: 0 <= i < |tables| ==> LabelsOnly(old(tables[i].rows), tables[i].rows, |tables[i].columns|)
    ensures ok == forall i :: 0 <= i < |tables| && old(tables[i].Valid()) ==>
      Corrected(old(tables[i].rows), |tables[i].columns|, de, coc).Some?
    ensures ok ==> forall i :: 0 <= i < |tables| && old(tables[i].Valid()) ==>
      tables[i].rows == Corrected(old(tables[i].rows), |tables[i].columns|, de, coc).value
  {
    ok := RowPasses(tables, de);
    if !ok {
      return;
    }
    label rowsDone:
    ok := ColumnPasses(tables, coc);
    forall i | 0 <= i < |tables|
      ensures LabelsOnly(old(tables[i].rows), tables[i].rows, |tables[i].columns|)
    {
      LabelsOnlyTransitive(old(tables[i].rows), old@rowsDone(tables[i].rows), tables[i].rows, |tables[i].columns|);
    }
  }
}
