/** `evaluate_cells`: the body of each table (every row but the first, every column but
    the first) is evaluated column by column. Within a column each cell goes through
    `simple_eval` unless it is empty, `None` or a lone dash; the first cell that raises
    abandons its whole column, which then keeps its original text. Otherwise the
    column's results are given one dtype, as pandas infers it, and written back as text
    by `astype("str")`. The grid-level model takes the evaluator as a parameter;
    `EvaluateCells` instantiates it with `simple_eval`'s model, `ArithEval.Eval`. */
module EvaluateCells {
  import opened Wrappers
  import opened Text
  import opened Tables
  import opened ArithEval

  /** An expression evaluator: `None` is an exception. */
  type Evaluator = string -> Option<Value>

  /** What the lambda returns for one body cell: a string passed through, or a value. A
      passed-through `None` cell is Python's `None`, the same object `simple_eval`
      returns for the name `None`. */
  datatype Outcome = Kept(text: string) | Valued(v: Value)

  /** The lambda applied to one body cell; `None` is the exception that abandons the
      column. Falsy cells (`None`, "") and "-" are passed through. */
  function Apply(ev: Evaluator, c: Cell): Option<Outcome>
  {
    match c
    case None => Some(Valued(NoneV))
    case Some(s) =>
      if s == "" || s == "-" then Some(Kept(s))
      else
        var v := ev(s);
        if v.None? then None else Some(Valued(v.value))
  }

  predicate IsInteger(o: Outcome) { o.Valued? && o.v.IntV? }

  predicate IsMissing(o: Outcome) { o == Valued(NoneV) }

  /** The results of `Series.apply` become a float64 column exactly when they are
      integers and `None`s only, with at least one of each: pandas' object conversion
      scans them, remembering whether an integer and a `None` have been seen, turns
      `None` into NaN and the integers into floats. Any string or bool settles on dtype
      object, and integers alone make the column int64. */
  function InferFloat(os: seq<Outcome>, sawInteger: bool, sawNone: bool): bool
    decreases |os|
  {
    if os == [] then sawInteger && sawNone
    else if IsInteger(os[0]) then InferFloat(os[1..], true, sawNone)
    else if IsMissing(os[0]) then InferFloat(os[1..], sawInteger, true)
    else false
  }

  /** The scan decides float64 exactly when every result is an integer or `None`, one
      is an integer and one is `None`. */
  lemma {:induction false} InferFloatSpec(os: seq<Outcome>, sawInteger: bool, sawNone: bool)
    ensures InferFloat(os, sawInteger, sawNone) <==>
      (forall i :: 0 <= i < |os| ==> IsInteger(os[i]) || IsMissing(os[i])) &&
      (sawInteger || exists i :: 0 <= i < |os| && IsInteger(os[i])) &&
      (sawNone || exists i :: 0 <= i < |os| && IsMissing(os[i]))
    decreases |os|
  {
    if os != [] {
      var rest := os[1..];
      InferFloatSpec(rest, sawInteger || IsInteger(os[0]), sawNone || IsMissing(os[0]));
      assert forall i :: 0 <= i < |rest| ==> rest[i] == os[i + 1];
      if exists i :: 0 <= i < |os| && IsInteger(os[i]) {
        var i :| 0 <= i < |os| && IsInteger(os[i]);
        if i > 0 { assert IsInteger(rest[i - 1]); }
      }
      if exists i :: 0 <= i < |os| && IsMissing(os[i]) {
        var i :| 0 <= i < |os| && IsMissing(os[i]);
        if i > 0 { assert IsMissing(rest[i - 1]); }
      }
      if forall i :: 0 <= i < |rest| ==> IsInteger(rest[i]) || IsMissing(rest[i]) {
        if IsInteger(os[0]) || IsMissing(os[0]) {
          forall i | 0 <= i < |os| ensures IsInteger(os[i]) || IsMissing(os[i]) {
            if i > 0 { assert os[i] == rest[i - 1]; }
          }
        }
      }
    }
  }

  /** `str` of the float64 a value becomes: an integer gains ".0" and `None`, which is
      NaN, is written "nan". */
  function FloatText(v: Value): string
  {
    match v
    case IntV(_) => Display(v) + ".0"
    case BoolV(_) => Display(v)
    case NoneV => "nan"
  }

  /** `astype("str")` on one result, in a float64 column or not. */
  function Written(o: Outcome, asFloat: bool): string
  {
    match o
    case Kept(s) => s
    case Valued(v) => if asFloat then FloatText(v) else Display(v)
  }

  /** Every body cell of column c converts without an exception. */
  predicate ColumnConverts(ev: Evaluator, g: Grid, c: nat)
  {
    forall r :: 1 <= r < |g| ==> c < |g[r]| && Apply(ev, g[r][c]).Some?
  }

  /** The results of the lambda down the body of column c. */
  function Outcomes(ev: Evaluator, g: Grid, c: nat): (os: seq<Outcome>)
    requires ColumnConverts(ev, g, c)
  {
    if |g| == 0 then []
    else seq(|g| - 1, i requires 0 <= i < |g| - 1 => Apply(ev, g[i + 1][c]).value)
  }

  /** Column c, once converted, is a float64 column. */
  predicate FloatColumn(ev: Evaluator, g: Grid, c: nat)
    requires ColumnConverts(ev, g, c)
  {
    InferFloat(Outcomes(ev, g, c), false, false)
  }

  /** The cell at (r, c) once `evaluate_cells` has run. */
  function EvaluatedCell(ev: Evaluator, g: Grid, r: nat, c: nat): Cell
    requires r < |g| && c < |g[r]|
  {
    if r == 0 || c == 0 || !ColumnConverts(ev, g, c) then g[r][c]
    else Some(Written(Apply(ev, g[r][c]).value, FloatColumn(ev, g, c)))
  }

  /** The grid `evaluate_cells` leaves behind. */
  function EvaluatedGrid(ev: Evaluator, g: Grid): Grid
  {
    seq(|g|, r requires 0 <= r < |g| => seq(|g[r]|, c requires 0 <= c < |g[r]| => EvaluatedCell(ev, g, r, c)))
  }

  /** The shape is kept and the header row and the label column are never touched. */
  lemma EvaluatedGridKeepsLabels(ev: Evaluator, g: Grid, width: nat)
    requires Rectangular(g, width)
    ensures |EvaluatedGrid(ev, g)| == |g| && Rectangular(EvaluatedGrid(ev, g), width)
    ensures |g| > 0 ==> EvaluatedGrid(ev, g)[0] == g[0]
    ensures forall r :: 0 <= r < |g| && width > 0 ==> EvaluatedGrid(ev, g)[r][0] == g[r][0]
  {
  }

  /** A column in which some body cell fails to evaluate keeps all of its text. */
  lemma {:induction false} FailingColumnUnchanged(ev: Evaluator, g: Grid, width: nat, c: nat, bad: nat)
    requires Rectangular(g, width) && 1 <= c < width
    requires 1 <= bad < |g| && Apply(ev, g[bad][c]).None?
    ensures forall r :: 0 <= r < |g| ==> EvaluatedGrid(ev, g)[r][c] == g[r][c]
  {
    assert !ColumnConverts(ev, g, c);
  }

  /** The cell is a number expression: it is evaluated, to an integer. */
  predicate YieldsInteger(ev: Evaluator, x: Cell)
  {
    x.Some? && x.value != "" && x.value != "-" && ev(x.value).Some? && ev(x.value).value.IntV?
  }

  /** The cell is `None`, or it is evaluated to `None`. */
  predicate YieldsNone(ev: Evaluator, x: Cell)
  {
    x == None || (x.value != "" && x.value != "-" && ev(x.value) == Some(NoneV))
  }

  /** A converting column turns float64 exactly when every body cell yields an integer
      or `None`, some cell an integer and some cell `None`. */
  lemma {:induction false} FloatColumnIff(ev: Evaluator, g: Grid, c: nat)
    requires ColumnConverts(ev, g, c)
    ensures FloatColumn(ev, g, c) <==>
      (forall r :: 1 <= r < |g| ==> YieldsInteger(ev, g[r][c]) || YieldsNone(ev, g[r][c])) &&
      (exists r :: 1 <= r < |g| && YieldsInteger(ev, g[r][c])) &&
      (exists r :: 1 <= r < |g| && YieldsNone(ev, g[r][c]))
  {
    InferFloatSpec(Outcomes(ev, g, c), false, false);
    EveryOutcomeNumeric(ev, g, c);
    SomeOutcomeInteger(ev, g, c);
    SomeOutcomeMissing(ev, g, c);
  }

  lemma {:induction false} EveryOutcomeNumeric(ev: Evaluator, g: Grid, c: nat)
    requires ColumnConverts(ev, g, c)
    ensures (forall i :: 0 <= i < |Outcomes(ev, g, c)| ==> IsInteger(Outcomes(ev, g, c)[i]) || IsMissing(Outcomes(ev, g, c)[i]))
      <==> forall r :: 1 <= r < |g| ==> YieldsInteger(ev, g[r][c]) || YieldsNone(ev, g[r][c])
  {
    var os := Outcomes(ev, g, c);
    OutcomesAt(ev, g, c);
    forall r | 1 <= r < |g|
      ensures IsInteger(os[r - 1]) || IsMissing(os[r - 1]) <==> YieldsInteger(ev, g[r][c]) || YieldsNone(ev, g[r][c])
    {
      OutcomeKinds(ev, g[r][c]);
    }
    if forall r :: 1 <= r < |g| ==> YieldsInteger(ev, g[r][c]) || YieldsNone(ev, g[r][c]) {
      forall i | 0 <= i < |os| ensures IsInteger(os[i]) || IsMissing(os[i]) {
        assert YieldsInteger(ev, g[i + 1][c]) || YieldsNone(ev, g[i + 1][c]);
      }
    }
  }

  lemma {:induction false} SomeOutcomeInteger(ev: Evaluator, g: Grid, c: nat)
    requires ColumnConverts(ev, g, c)
    ensures (exists i :: 0 <= i < |Outcomes(ev, g, c)| && IsInteger(Outcomes(ev, g, c)[i]))
      <==> exists r :: 1 <= r < |g| && YieldsInteger(ev, g[r][c])
  {
    var os := Outcomes(ev, g, c);
    OutcomesAt(ev, g, c);
    if exists r :: 1 <= r < |g| && YieldsInteger(ev, g[r][c]) {
      var r :| 1 <= r < |g| && YieldsInteger(ev, g[r][c]);
      OutcomeKinds(ev, g[r][c]);
      assert IsInteger(os[r - 1]);
    }
    if exists i :: 0 <= i < |os| && IsInteger(os[i]) {
      var i :| 0 <= i < |os| && IsInteger(os[i]);
      OutcomeKinds(ev, g[i + 1][c]);
      assert YieldsInteger(ev, g[i + 1][c]);
    }
  }

  lemma {:induction false} SomeOutcomeMissing(ev: Evaluator, g: Grid, c: nat)
    requires ColumnConverts(ev, g, c)
    ensures (exists i :: 0 <= i < |Outcomes(ev, g, c)| && IsMissing(Outcomes(ev, g, c)[i]))
      <==> exists r :: 1 <= r < |g| && YieldsNone(ev, g[r][c])
  {
    var os := Outcomes(ev, g, c);
    OutcomesAt(ev, g, c);
    if exists r :: 1 <= r < |g| && YieldsNone(ev, g[r][c]) {
      var r :| 1 <= r < |g| && YieldsNone(ev, g[r][c]);
      OutcomeKinds(ev, g[r][c]);
      assert IsMissing(os[r - 1]);
    }
    if exists i :: 0 <= i < |os| && IsMissing(os[i]) {
      var i :| 0 <= i < |os| && IsMissing(os[i]);
      OutcomeKinds(ev, g[i + 1][c]);
      assert YieldsNone(ev, g[i + 1][c]);
    }
  }

  lemma OutcomesAt(ev: Evaluator, g: Grid, c: nat)
    requires ColumnConverts(ev, g, c)
    ensures |Outcomes(ev, g, c)| == if |g| == 0 then 0 else |g| - 1
    ensures forall r :: 1 <= r < |g| ==> Outcomes(ev, g, c)[r - 1] == Apply(ev, g[r][c]).value
  {
  }

  lemma OutcomeKinds(ev: Evaluator, x: Cell)
    requires Apply(ev, x).Some?
    ensures IsInteger(Apply(ev, x).value) <==> YieldsInteger(ev, x)
    ensures IsMissing(Apply(ev, x).value) <==> YieldsNone(ev, x)
  {
  }

  /** In a column whose every body cell evaluates, "" and "-" stay as they are; in a
      float64 column `None` becomes "nan" and an integer gains ".0"; otherwise `None`
      becomes "None" and every other value the text `str` gives it. */
  lemma ConvertingColumnRewritten(ev: Evaluator, g: Grid, width: nat, c: nat, r: nat)
    requires Rectangular(g, width) && 1 <= c < width && 1 <= r < |g| && ColumnConverts(ev, g, c)
    ensures g[r][c] == Some("") || g[r][c] == Some("-") ==>
      !FloatColumn(ev, g, c) && EvaluatedGrid(ev, g)[r][c] == g[r][c]
    ensures g[r][c] == None ==>
      EvaluatedGrid(ev, g)[r][c] == Some(if FloatColumn(ev, g, c) then "nan" else "None")
    ensures g[r][c].Some? && g[r][c].value != "" && g[r][c].value != "-" ==>
      var v := ev(g[r][c].value);
      v.Some? && EvaluatedGrid(ev, g)[r][c] ==
        Some(if !FloatColumn(ev, g, c) then Display(v.value)
          else if v.value.IntV? then Display(v.value) + ".0" else "nan")
  {
    if g[r][c] == Some("") || g[r][c] == Some("-") {
      FloatColumnIff(ev, g, c);
      assert !YieldsInteger(ev, g[r][c]) && !YieldsNone(ev, g[r][c]);
    }
    if g[r][c].Some? && g[r][c].value != "" && g[r][c].value != "-" && FloatColumn(ev, g, c) {
      FloatColumnIff(ev, g, c);
      assert YieldsInteger(ev, g[r][c]) || YieldsNone(ev, g[r][c]);
    }
  }

  /** A column with a passed-through "" or "-" is never float64. */
  lemma TextKeepsObjectColumn(ev: Evaluator, g: Grid, c: nat, r: nat)
    requires ColumnConverts(ev, g, c) && 1 <= r < |g|
    requires g[r][c] == Some("") || g[r][c] == Some("-")
    ensures !FloatColumn(ev, g, c)
  {
    FloatColumnIff(ev, g, c);
    assert !YieldsInteger(ev, g[r][c]) && !YieldsNone(ev, g[r][c]);
  }

  /** A column without a `None` result is never float64. */
  lemma NoNoneKeepsColumn(ev: Evaluator, g: Grid, c: nat)
    requires ColumnConverts(ev, g, c)
    requires forall r :: 1 <= r < |g| ==> !YieldsNone(ev, g[r][c])
    ensures !FloatColumn(ev, g, c)
  {
    FloatColumnIff(ev, g, c);
  }

  /** `str` of a value is never empty and never a lone dash, so it is never passed
      through unevaluated. */
  lemma DisplayIsEvaluated(v: Value)
    ensures Display(v) != "" && Display(v) != "-"
  {
    match v
    case IntV(i) =>
      if i < 0 {
        assert |Display(v)| == 1 + |NatToString(-i)| >= 2;
      } else {
        assert IsDigit(Display(v)[0]);
      }
    case BoolV(b) =>
    case NoneV =>
  }

  /** The evaluator reads the text of every value back as that value, and raises on
      "nan". */
  ghost predicate Reparses(ev: Evaluator)
  {
    (forall v :: ev(Display(v)) == Some(v)) && ev("nan") == None
  }

  /** `simple_eval` reads back what `str` writes, and "nan" names no constant. */
  lemma EvalReparses()
    ensures Reparses(Eval)
  {
    forall v ensures Eval(Display(v)) == Some(v) {
      EvalDisplay(v);
    }
    EvalNan();
  }

  /** Outside a float64 column, a converted cell converts again to the same result. */
  lemma {:induction false} OutcomeFixed(ev: Evaluator, x: Cell)
    requires Reparses(ev) && Apply(ev, x).Some?
    ensures Apply(ev, Some(Written(Apply(ev, x).value, false))) == Apply(ev, x)
  {
    match Apply(ev, x).value
    case Kept(s) =>
    case Valued(v) =>
      DisplayIsEvaluated(v);
      assert ev(Display(v)) == Some(v);
  }

  /** Two columns whose cells give the same results convert alike. */
  lemma {:induction false} SameOutcomes(ev: Evaluator, g: Grid, h: Grid, c: nat)
    requires |g| == |h|
    requires forall r :: 1 <= r < |g| ==> c < |g[r]| && c < |h[r]| && Apply(ev, g[r][c]) == Apply(ev, h[r][c])
    ensures ColumnConverts(ev, g, c) == ColumnConverts(ev, h, c)
    ensures ColumnConverts(ev, g, c) ==> Outcomes(ev, g, c) == Outcomes(ev, h, c)
  {
  }

  /** Evaluating column c a second time changes nothing: a float64 column holds "nan",
      which raises, and any other column reads back to the same results. */
  lemma {:induction false} ColumnIdempotent(ev: Evaluator, g: Grid, width: nat, c: nat)
    requires Reparses(ev) && Rectangular(g, width) && 1 <= c < width
    ensures Rectangular(EvaluatedGrid(ev, g), width)
    ensures forall r :: 0 <= r < |g| ==> EvaluatedCell(ev, EvaluatedGrid(ev, g), r, c) == EvaluatedGrid(ev, g)[r][c]
  {
    EvaluatedGridKeepsLabels(ev, g, width);
    if !ColumnConverts(ev, g, c) {
      FailingColumnFailsAgain(ev, g, width, c);
    } else if FloatColumn(ev, g, c) {
      FloatColumnFailsAgain(ev, g, width, c);
    } else {
      ObjectColumnReadsBack(ev, g, width, c);
    }
  }

  /** A column that raised is left as it was, so it raises again. */
  lemma FailingColumnFailsAgain(ev: Evaluator, g: Grid, width: nat, c: nat)
    requires Rectangular(g, width) && 1 <= c < width && !ColumnConverts(ev, g, c)
    ensures |EvaluatedGrid(ev, g)| == |g| && !ColumnConverts(ev, EvaluatedGrid(ev, g), c)
  {
    var h := EvaluatedGrid(ev, g);
    var bad :| 1 <= bad < |g| && Apply(ev, g[bad][c]).None?;
    assert h[bad][c] == EvaluatedCell(ev, g, bad, c) == g[bad][c];
  }

  /** A float64 column holds "nan" in some row, and "nan" raises. */
  lemma FloatColumnFailsAgain(ev: Evaluator, g: Grid, width: nat, c: nat)
    requires Reparses(ev) && Rectangular(g, width) && 1 <= c < width
    requires ColumnConverts(ev, g, c) && FloatColumn(ev, g, c)
    ensures |EvaluatedGrid(ev, g)| == |g| && !ColumnConverts(ev, EvaluatedGrid(ev, g), c)
  {
    var h := EvaluatedGrid(ev, g);
    var os := Outcomes(ev, g, c);
    InferFloatSpec(os, false, false);
    var i :| 0 <= i < |os| && IsMissing(os[i]);
    assert Apply(ev, g[i + 1][c]).value == os[i];
    assert h[i + 1][c] == EvaluatedCell(ev, g, i + 1, c) == Some("nan");
    assert Apply(ev, h[i + 1][c]).None?;
  }

  /** Any other column reads back to the results it was written from. */
  lemma {:induction false} ObjectColumnReadsBack(ev: Evaluator, g: Grid, width: nat, c: nat)
    requires Reparses(ev) && Rectangular(g, width) && 1 <= c < width
    requires ColumnConverts(ev, g, c) && !FloatColumn(ev, g, c)
    ensures |EvaluatedGrid(ev, g)| == |g| && Rectangular(EvaluatedGrid(ev, g), width)
    ensures forall r :: 0 <= r < |g| ==> EvaluatedCell(ev, EvaluatedGrid(ev, g), r, c) == EvaluatedGrid(ev, g)[r][c]
  {
    var h := EvaluatedGrid(ev, g);
    EvaluatedGridKeepsLabels(ev, g, width);
    forall r | 1 <= r < |g| ensures Apply(ev, h[r][c]) == Apply(ev, g[r][c]) {
      assert h[r][c] == EvaluatedCell(ev, g, r, c);
      OutcomeFixed(ev, g[r][c]);
    }
    SameOutcomes(ev, g, h, c);
  }

  /** Evaluating the cells a second time changes nothing. */
  lemma {:induction false} EvaluatedGridIdempotent(ev: Evaluator, g: Grid, width: nat)
    requires Reparses(ev) && Rectangular(g, width)
    ensures EvaluatedGrid(ev, EvaluatedGrid(ev, g)) == EvaluatedGrid(ev, g)
  {
    var h := EvaluatedGrid(ev, g);
    EvaluatedGridKeepsLabels(ev, g, width);
    forall r, c | 0 <= r < |g| && 0 <= c < width ensures EvaluatedCell(ev, h, r, c) == h[r][c] {
      if c >= 1 {
        ColumnIdempotent(ev, g, width, c);
      }
    }
    assert forall r :: 0 <= r < |g| ==> EvaluatedGrid(ev, h)[r] == h[r];
  }

  /** The lambda applied down the body of column c, as `Series.apply` does, followed by
      `astype("str")`: `ok` is false when some cell raised, and otherwise `converted`
      holds the new text of rows 1 onwards. */
  method ConvertColumn(ev: Evaluator, g: Grid, c: nat) returns (ok: bool, converted: seq<string>)
    requires |g| >= 1 && forall r :: 1 <= r < |g| ==> c < |g[r]|
    ensures ok == ColumnConverts(ev, g, c)
    ensures ok ==> |converted| == |g| - 1
    ensures ok ==> forall r :: 1 <= r < |g| ==>
      converted[r - 1] == Written(Apply(ev, g[r][c]).value, FloatColumn(ev, g, c))
  {
    var n := |g| - 1;
    var results: seq<Outcome> := [];
    converted := [];
    ok := true;
    var i := 0;
    while i < n && ok
      invariant 0 <= i <= n && |results| == i
      invariant forall r :: 1 <= r <= i ==> Apply(ev, g[r][c]) == Some(results[r - 1])
      invariant !ok ==> i < n && Apply(ev, g[i + 1][c]).None?
      decreases n - i, ok
    {
      var o := Apply(ev, g[i + 1][c]);
      if o.None? {
        ok := false;
      } else {
        results := results + [o.value];
        i := i + 1;
      }
    }
    if !ok {
      return;
    }
    assert results == Outcomes(ev, g, c);
    var asFloat := InferFloat(results, false, false);
    converted := seq(n, k requires 0 <= k < n => Written(results[k], asFloat));
  }

  /** Assigning the converted text back to the body of column c. */
  method WriteColumn(f: Frame, c: nat, converted: seq<string>)
    requires f.Valid() && c < |f.columns| && |f.rows| >= 1 && |converted| == |f.rows| - 1
    modifies f
    ensures f.Valid() && f.columns == old(f.columns) && |f.rows| == old(|f.rows|)
    ensures f.rows[0] == old(f.rows[0])
    ensures forall r :: 1 <= r < |f.rows| ==> f.rows[r] == old(f.rows[r])[c := Some(converted[r - 1])]
  {
    for k := 1 to |f.rows|
      invariant f.columns == old(f.columns) && |f.rows| == old(|f.rows|) && f.Valid()
      invariant f.rows[0] == old(f.rows[0])
      invariant forall j :: 1 <= j < |f.rows| ==>
        f.rows[j] == if j < k then old(f.rows[j])[c := Some(converted[j - 1])] else old(f.rows[j])
    {
      f.rows := f.rows[k := f.rows[k][c := Some(converted[k - 1])]];
    }
  }

  /** Columns before c of `rows` hold their evaluated text `e`, the others still hold
      the text of `g`. */
  predicate Progress(e: Grid, g: Grid, rows: Grid, width: nat, c: nat)
  {
    |rows| == |g| && |e| == |g| && Rectangular(g, width) && Rectangular(e, width) && Rectangular(rows, width) &&
    forall r, k :: 0 <= r < |g| && 0 <= k < width ==> rows[r][k] == if k < c then e[r][k] else g[r][k]
  }

  /** Converting column c of the partly evaluated rows, and writing it back when no cell
      raised, extends the progress by one column. */
  lemma ColumnAdvance(ev: Evaluator, g: Grid, width: nat, c: nat, before: Grid, after: Grid,
                      ok: bool, converted: seq<string>)
    requires 1 <= c < width && Progress(EvaluatedGrid(ev, g), g, before, width, c)
    requires ok == ColumnConverts(ev, before, c)
    requires ok ==> |converted| == |g| - 1
    requires ok ==> forall r :: 1 <= r < |g| ==>
      converted[r - 1] == Written(Apply(ev, before[r][c]).value, FloatColumn(ev, before, c))
    requires !ok ==> after == before
    requires ok ==> |after| == |g| && |g| >= 1 && after[0] == before[0]
    requires ok ==> forall r :: 1 <= r < |g| ==> after[r] == before[r][c := Some(converted[r - 1])]
    ensures Progress(EvaluatedGrid(ev, g), g, after, width, c + 1)
  {
    var e := EvaluatedGrid(ev, g);
    assert forall r :: 0 <= r < |g| ==> before[r][c] == g[r][c];
    SameOutcomes(ev, before, g, c);
    if ok {
      WrittenColumn(ev, g, width, c, FloatColumn(ev, g, c));
      assert forall r :: 1 <= r < |g| ==> after[r][c] == e[r][c];
    } else {
      KeptColumn(ev, g, width, c);
    }
    KeptHeader(ev, g, width, c);
    assert forall r, k :: 0 <= r < |g| && 0 <= k < width && k != c ==> after[r][k] == before[r][k];
  }

  /** A column that raised is kept as it was. */
  lemma KeptColumn(ev: Evaluator, g: Grid, width: nat, c: nat)
    requires Rectangular(g, width) && 1 <= c < width && !ColumnConverts(ev, g, c)
    ensures |EvaluatedGrid(ev, g)| == |g|
    ensures forall r :: 0 <= r < |g| ==> |EvaluatedGrid(ev, g)[r]| == width && EvaluatedGrid(ev, g)[r][c] == g[r][c]
  {
    var e := EvaluatedGrid(ev, g);
    forall r | 0 <= r < |g| ensures e[r][c] == g[r][c] {
      assert e[r][c] == EvaluatedCell(ev, g, r, c);
    }
  }

  /** The header cell of a column is kept. */
  lemma KeptHeader(ev: Evaluator, g: Grid, width: nat, c: nat)
    requires Rectangular(g, width) && c < width && |g| >= 1
    ensures |EvaluatedGrid(ev, g)| == |g| && |EvaluatedGrid(ev, g)[0]| == width
    ensures EvaluatedGrid(ev, g)[0][c] == g[0][c]
  {
    assert EvaluatedGrid(ev, g)[0][c] == EvaluatedCell(ev, g, 0, c);
  }

  /** A column that converted holds the text of each result, in the column's dtype. */
  lemma WrittenColumn(ev: Evaluator, g: Grid, width: nat, c: nat, asFloat: bool)
    requires Rectangular(g, width) && 1 <= c < width && ColumnConverts(ev, g, c)
    requires asFloat == FloatColumn(ev, g, c)
    ensures |EvaluatedGrid(ev, g)| == |g|
    ensures forall r :: 1 <= r < |g| ==>
      |EvaluatedGrid(ev, g)[r]| == width && EvaluatedGrid(ev, g)[r][c] == Some(Written(Apply(ev, g[r][c]).value, asFloat))
  {
    var e := EvaluatedGrid(ev, g);
    forall r | 1 <= r < |g| ensures e[r][c] == Some(Written(Apply(ev, g[r][c]).value, asFloat)) {
      assert e[r][c] == EvaluatedCell(ev, g, r, c);
    }
  }

  /** `evaluate_cells` on one table: every column after the first, left to right. */
  method EvaluateTable(ev: Evaluator, f: Frame)
    requires f.Valid()
    modifies f
    ensures f.Valid() && f.columns == old(f.columns)
    ensures f.rows == EvaluatedGrid(ev, old(f.rows))
  {
    ghost var g := f.rows;
    ghost var e := EvaluatedGrid(ev, g);
    var width := |f.columns|;
    EvaluatedGridKeepsLabels(ev, g, width);
    if width <= 1 || |f.rows| <= 1 {
      forall r, k | 0 <= r < |g| && 0 <= k < width ensures e[r][k] == g[r][k] {
        assert e[r][k] == EvaluatedCell(ev, g, r, k);
      }
      assert forall r :: 0 <= r < |g| ==> f.rows[r] == e[r];
      return;
    }
    forall r | 0 <= r < |g| ensures e[r][0] == g[r][0] {
      assert e[r][0] == EvaluatedCell(ev, g, r, 0);
    }
    for c := 1 to width
      invariant f.Valid() && f.columns == old(f.columns)
      invariant Progress(e, g, f.rows, width, c)
    {
      ghost var before := f.rows;
      var ok, converted := ConvertColumn(ev, f.rows, c);
      if ok {
        WriteColumn(f, c, converted);
      }
      ColumnAdvance(ev, g, width, c, before, f.rows, ok, converted);
    }
    assert forall r :: 0 <= r < |g| ==> f.rows[r] == e[r];
  }

  method EvaluateTables(ev: Evaluator, tables: seq<Frame>)
    requires Reparses(ev)
    requires forall i :: 0 <= i < |tables| ==> tables[i].Valid()
    modifies set i | 0 <= i < |tables| :: tables[i]
    ensures forall i :: 0 <= i < |tables| ==> tables[i].Valid()
    ensures forall i :: 0 <= i < |tables| ==>
      tables[i].rows == EvaluatedGrid(ev, old(tables[i].rows)) && tables[i].columns == old(tables[i].columns)
  {
    for i := 0 to |tables|
      invariant forall k :: 0 <= k < |tables| ==> tables[k].Valid()
      invariant forall k :: 0 <= k < |tables| ==> tables[k].columns == old(tables[k].columns)
      invariant forall k :: 0 <= k < |tables| ==>
        tables[k].rows == old(tables[k].rows) || tables[k].rows == EvaluatedGrid(ev, old(tables[k].rows))
      invariant forall k :: 0 <= k < i ==> tables[k].rows == EvaluatedGrid(ev, old(tables[k].rows))
    {
      EvaluatedGridIdempotent(ev, old(tables[i].rows), |tables[i].columns|);
      EvaluateTable(ev, tables[i]);
    }
  }

  /** `evaluate_cells` itself, with `simple_eval` as the evaluator. */
  method EvaluateCells(tables: seq<Frame>)
    requires forall i :: 0 <= i < |tables| ==> tables[i].Valid()
    modifies set i | 0 <= i < |tables| :: tables[i]
    ensures forall i :: 0 <= i < |tables| ==> tables[i].Valid()
    ensures forall i :: 0 <= i < |tables| ==>
      tables[i].rows == EvaluatedGrid(Eval, old(tables[i].rows)) && tables[i].columns == old(tables[i].columns)
  {
    EvalReparses();
    EvaluateTables(Eval, tables);
  }

  /** Passed-through text keeps a column of dtype object, and integers alone make it
      int64: neither is float64. */
  lemma ObjectAndIntegerColumns(j: int, i: int, k: int)
    ensures !InferFloat([Kept(""), Kept("-")], false, false)
    ensures !InferFloat([Kept(""), Valued(IntV(j))], false, false)
    ensures !InferFloat([Valued(IntV(i)), Valued(IntV(k))], false, false)
  {
    var os := [Valued(IntV(i)), Valued(IntV(k))];
    assert os[1..][1..] == [];
    assert !InferFloat(os[1..][1..], true, false);
    assert !InferFloat(os[1..], true, false);
  }

  /** `None` beside an integer makes a column float64. */
  lemma NoneAndIntegerColumn(i: int)
    ensures InferFloat([Valued(NoneV), Valued(IntV(i))], false, false)
  {
    var os := [Valued(NoneV), Valued(IntV(i))];
    assert os[1..] == [Valued(IntV(i))] && os[1..][1..] == [];
  }

  /** The results down a body of two rows. */
  lemma TwoRowColumn(ev: Evaluator, g: Grid, c: nat, x: Cell, y: Cell)
    requires |g| == 3 && c < |g[1]| && c < |g[2]| && g[1][c] == x && g[2][c] == y
    requires Apply(ev, x).Some? && Apply(ev, y).Some?
    ensures ColumnConverts(ev, g, c) && Outcomes(ev, g, c) == [Apply(ev, x).value, Apply(ev, y).value]
  {
  }

  /** An evaluated row of four cells, read off cell by cell. */
  lemma RowOfFour(ev: Evaluator, g: Grid, r: nat, row: seq<Cell>)
    requires r < |g| && |g[r]| == 4 && |row| == 4
    requires EvaluatedCell(ev, g, r, 0) == row[0] && EvaluatedCell(ev, g, r, 1) == row[1]
    requires EvaluatedCell(ev, g, r, 2) == row[2] && EvaluatedCell(ev, g, r, 3) == row[3]
    ensures EvaluatedGrid(ev, g)[r] == row
  {
    var e := EvaluatedGrid(ev, g)[r];
    assert e[0] == row[0] && e[1] == row[1] && e[2] == row[2] && e[3] == row[3];
    SeqOfFour(e);
    SeqOfFour(row);
  }

  lemma SeqOfFour(s: seq<Cell>)
    requires |s| == 4
    ensures s == [s[0], s[1], s[2], s[3]]
  {
  }

  /** An evaluated grid of two cells per row, read off cell by cell. */
  lemma RowOfTwo(ev: Evaluator, g: Grid, r: nat, row: seq<Cell>)
    requires r < |g| && |g[r]| == 2 && |row| == 2
    requires EvaluatedCell(ev, g, r, 0) == row[0] && EvaluatedCell(ev, g, r, 1) == row[1]
    ensures EvaluatedGrid(ev, g)[r] == row
  {
  }

  /** An evaluated grid of three rows, read off row by row. */
  lemma GridOfThree(ev: Evaluator, g: Grid, h: Grid)
    requires |g| == 3 && |h| == 3
    requires EvaluatedGrid(ev, g)[0] == h[0] && EvaluatedGrid(ev, g)[1] == h[1] && EvaluatedGrid(ev, g)[2] == h[2]
    ensures EvaluatedGrid(ev, g) == h
  {
  }

  /** A cell whose text evaluates gives its value. */
  lemma EvaluatedOutcome(s: string, v: Value)
    requires s != "" && s != "-" && Eval(s) == Some(v)
    ensures Apply(Eval, Some(s)) == Some(Valued(v))
  {
  }

  /** A number cell, such as "15", gives its number. */
  lemma NumberCell(i: int)
    ensures Apply(Eval, Some(IntToString(i))) == Some(Valued(IntV(i)))
  {
    NumberText(i);
    EvaluatedOutcome(IntToString(i), IntV(i));
  }

  /** The text of a number is neither "" nor "-", and evaluates to the number. */
  lemma NumberText(i: int)
    ensures IntToString(i) != "" && IntToString(i) != "-" && Eval(IntToString(i)) == Some(IntV(i))
  {
    var s := IntToString(i);
    assert s != "" && s != "-" by {
      if i < 0 { assert |s| >= 2; } else { assert s[0] != '-'; }
    }
    EvalIntToString(i);
  }

  /** An integer value is displayed as its decimal text. */
  lemma DisplayOfInteger(i: int)
    ensures Display(IntV(i)) == IntToString(i)
  {
  }

  /** A sum cell, such as "12+8", gives the sum. */
  lemma SumCell(x: nat, y: nat)
    ensures Apply(Eval, Some(SumText(x, y))) == Some(Valued(IntV(x + y)))
  {
    EvalSumText(x, y);
    EvaluatedOutcome(SumText(x, y), IntV(x + y));
  }

  /** A difference cell, such as "16 - 4", gives the difference. */
  lemma DifferenceCell(x: nat, y: nat)
    ensures Apply(Eval, Some(DifferenceText(x, y))) == Some(Valued(IntV(x - y)))
  {
    EvalDifferenceText(x, y);
    EvaluatedOutcome(DifferenceText(x, y), IntV(x - y));
  }

  /** The shape of the source's unit test table: columns of label, "" and "-" cells,
      and three cells that give integers. No column is float64: the first two hold
      strings and the third integers only. */
  lemma UnitTestTableWith(ev: Evaluator, a: string, b: string, d: string, i: int, j: int, k: int,
                           a': string, b': string, d': string)
    requires Apply(ev, Some(a)) == Some(Valued(IntV(i))) && Apply(ev, Some(b)) == Some(Valued(IntV(j)))
    requires Apply(ev, Some(d)) == Some(Valued(IntV(k)))
    requires a' == Display(IntV(i)) && b' == Display(IntV(j)) && d' == Display(IntV(k))
    ensures EvaluatedGrid(ev, [
      [Some(""), Some("Column 1"), Some("Column 2"), Some("Column 3")],
      [Some("Row 1"), Some(""), Some(""), Some(a)],
      [Some("Row 2"), Some("-"), Some(b), Some(d)]])
      == [
      [Some(""), Some("Column 1"), Some("Column 2"), Some("Column 3")],
      [Some("Row 1"), Some(""), Some(""), Some(a')],
      [Some("Row 2"), Some("-"), Some(b'), Some(d')]]
  {
    var g := [
      [Some(""), Some("Column 1"), Some("Column 2"), Some("Column 3")],
      [Some("Row 1"), Some(""), Some(""), Some(a)],
      [Some("Row 2"), Some("-"), Some(b), Some(d)]];
    var h := [
      [Some(""), Some("Column 1"), Some("Column 2"), Some("Column 3")],
      [Some("Row 1"), Some(""), Some(""), Some(a')],
      [Some("Row 2"), Some("-"), Some(b'), Some(d')]];
    TwoRowColumn(ev, g, 1, Some(""), Some("-"));
    TwoRowColumn(ev, g, 2, Some(""), Some(b));
    TwoRowColumn(ev, g, 3, Some(a), Some(d));
    ObjectAndIntegerColumns(j, i, k);
    RowOfFour(ev, g, 0, h[0]);
    RowOfFour(ev, g, 1, h[1]);
    RowOfFour(ev, g, 2, h[2]);
    GridOfThree(ev, g, h);
  }

  /** The table of the source's unit test, for any numbers in place of 12, 8, 15, 16
      and 4: the sum and the difference are replaced by their values, the number stays,
      and "" and "-" are left alone. */
  lemma UnitTestTable(x: nat, y: nat, n: nat, u: nat, w: nat)
    ensures EvaluatedGrid(Eval, [
      [Some(""), Some("Column 1"), Some("Column 2"), Some("Column 3")],
      [Some("Row 1"), Some(""), Some(""), Some(SumText(x, y))],
      [Some("Row 2"), Some("-"), Some(IntToString(n)), Some(DifferenceText(u, w))]])
      == [
      [Some(""), Some("Column 1"), Some("Column 2"), Some("Column 3")],
      [Some("Row 1"), Some(""), Some(""), Some(IntToString(x + y))],
      [Some("Row 2"), Some("-"), Some(IntToString(n)), Some(IntToString(u - w))]]
  {
    SumCell(x, y);
    DifferenceCell(u, w);
    NumberCell(n);
    DisplayOfInteger(x + y);
    DisplayOfInteger(n);
    DisplayOfInteger(u - w);
    UnitTestTableWith(Eval, SumText(x, y), IntToString(n), DifferenceText(u, w), x + y, n, u - w,
      IntToString(x + y), IntToString(n), IntToString(u - w));
  }

  /** A body column of a `None` cell and a cell giving an integer becomes float64: the
      `None` is written "nan" and the integer gains ".0". */
  lemma FloatColumnWith(ev: Evaluator, a: string, i: int, a': string)
    requires Apply(ev, Some(a)) == Some(Valued(IntV(i))) && a' == Display(IntV(i))
    ensures EvaluatedGrid(ev, [[Some(""), Some("Column 1")], [Some("Row 1"), None], [Some("Row 2"), Some(a)]])
      == [[Some(""), Some("Column 1")], [Some("Row 1"), Some("nan")], [Some("Row 2"), Some(a' + ".0")]]
  {
    var g := [[Some(""), Some("Column 1")], [Some("Row 1"), None], [Some("Row 2"), Some(a)]];
    var h := [[Some(""), Some("Column 1")], [Some("Row 1"), Some("nan")], [Some("Row 2"), Some(a' + ".0")]];
    TwoRowColumn(ev, g, 1, None, Some(a));
    NoneAndIntegerColumn(i);
    RowOfTwo(ev, g, 0, h[0]);
    RowOfTwo(ev, g, 1, h[1]);
    RowOfTwo(ev, g, 2, h[2]);
    GridOfThree(ev, g, h);
  }

  /** The table of the unit test with a `None` cell above a sum: the column becomes
      float64, so the sum is written with ".0" and the `None` as "nan". */
  lemma FloatColumnExample(x: nat, y: nat)
    ensures EvaluatedGrid(Eval, [[Some(""), Some("Column 1")], [Some("Row 1"), None], [Some("Row 2"), Some(SumText(x, y))]])
      == [[Some(""), Some("Column 1")], [Some("Row 1"), Some("nan")], [Some("Row 2"), Some(IntToString(x + y) + ".0")]]
  {
    SumCell(x, y);
    DisplayOfInteger(x + y);
    FloatColumnWith(Eval, SumText(x, y), x + y, IntToString(x + y));
  }
}
