/** Confidence bookkeeping: `get_confidence_values` builds a dictionary from each
    recognised word to the model's confidence, and `get_tabular_content` gives every
    table cell the mean confidence of its words. The three OCR modules of the source
    carry identical copies of both; one definition here stands for all of them. */
module Confidence {
  import opened Wrappers
  import opened Tables
  import opened Text
  import opened Ocr

  // ----- get_confidence_values -----

  /** The dictionary after assigning `d[w.value] = w.confidence` for every word of `ws`
      in order, starting from `m`. */
  function Recorded(m: map<string, real>, ws: seq<Word>): map<string, real>
  {
    if |ws| == 0 then m
    else Recorded(m, ws[..|ws| - 1])[ws[|ws| - 1].value := ws[|ws| - 1].confidence]
  }

  /** The keys are exactly the word values: nothing is dropped and nothing invented. */
  lemma {:induction false} RecordedKeys(ws: seq<Word>, k: string)
    ensures k in Recorded(map[], ws) <==> exists i :: 0 <= i < |ws| && ws[i].value == k
  {
    if |ws| > 0 {
      var prefix := ws[..|ws| - 1];
      RecordedKeys(prefix, k);
      if exists i :: 0 <= i < |prefix| && prefix[i].value == k {
        var i :| 0 <= i < |prefix| && prefix[i].value == k;
        assert ws[i].value == k;
      }
      if exists i :: 0 <= i < |ws| - 1 && ws[i].value == k {
        var i :| 0 <= i < |ws| - 1 && ws[i].value == k;
        assert prefix[i].value == k;
      }
    }
  }

  /** Last write wins: a word value maps to the confidence of its last occurrence. */
  lemma {:induction false} RecordedLastWins(m: map<string, real>, ws: seq<Word>, i: nat)
    requires i < |ws|
    requires forall j :: i < j < |ws| ==> ws[j].value != ws[i].value
    ensures ws[i].value in Recorded(m, ws)
    ensures Recorded(m, ws)[ws[i].value] == ws[i].confidence
  {
    if i < |ws| - 1 {
      RecordedLastWins(m, ws[..|ws| - 1], i);
    }
  }

  /** Assigning the words of one run after those of another. */
  lemma {:induction false} RecordedAppend(m: map<string, real>, xs: seq<Word>, ys: seq<Word>)
    ensures Recorded(m, xs + ys) == Recorded(Recorded(m, xs), ys)
    decreases |ys|
  {
    if |ys| > 0 {
      assert (xs + ys)[..|xs + ys| - 1] == xs + ys[..|ys| - 1];
      RecordedAppend(m, xs, ys[..|ys| - 1]);
    } else {
      assert xs + ys == xs;
    }
  }

  /** The source's four nested loops over pages, blocks, lines and words; the inner
      ones are `RecordBlocks` and `RecordLines`. */
  method GetConfidenceValues(doc: Document) returns (d: map<string, real>)
    ensures d == Recorded(map[], DocWords(doc))
  {
    d := map[];
    var pages := doc.pages;
    for p := 0 to |pages|
      invariant d == Recorded(map[], LineWords(PageLines(pages[..p])))
    {
      ghost var before := PageLines(pages[..p]);
      d := RecordBlocks(d, pages[p].blocks);
      assert pages[..p + 1][..p] == pages[..p];
      LineWordsAppend(before, BlockLines(pages[p].blocks));
      RecordedAppend(map[], LineWords(before), LineWords(BlockLines(pages[p].blocks)));
    }
    assert pages[..|pages|] == pages;
  }

  /** The loop over the blocks of a page. */
  method RecordBlocks(d0: map<string, real>, blocks: seq<Block>) returns (d: map<string, real>)
    ensures d == Recorded(d0, LineWords(BlockLines(blocks)))
  {
    d := d0;
    for b := 0 to |blocks|
      invariant d == Recorded(d0, LineWords(BlockLines(blocks[..b])))
    {
      ghost var before := BlockLines(blocks[..b]);
      d := RecordLines(d, blocks[b].lines);
      assert blocks[..b + 1][..b] == blocks[..b];
      LineWordsAppend(before, blocks[b].lines);
      RecordedAppend(d0, LineWords(before), LineWords(blocks[b].lines));
    }
    assert blocks[..|blocks|] == blocks;
  }

  /** The loops over the lines of a block and the words of a line. */
  method RecordLines(d0: map<string, real>, lines: seq<Line>) returns (d: map<string, real>)
    ensures d == Recorded(d0, LineWords(lines))
  {
    d := d0;
    for l := 0 to |lines|
      invariant d == Recorded(d0, LineWords(lines[..l]))
    {
      var words := lines[l].words;
      ghost var start := d;
      for w := 0 to |words|
        invariant d == Recorded(start, words[..w])
      {
        assert words[..w + 1][..w] == words[..w];
        d := d[words[w].value := words[w].confidence];
      }
      assert words[..|words|] == words;
      assert lines[..l + 1][..l] == lines[..l];
      RecordedAppend(d0, LineWords(lines[..l]), words);
    }
    assert lines[..|lines|] == lines;
  }

  // ----- the confidence loop of get_tabular_content -----

  /** The dictionary values of the words that are keys of the dictionary, in order. */
  function Hits(words: seq<string>, dict: map<string, real>): (hs: seq<real>)
    ensures |hs| <= |words|
  {
    if |words| == 0 then []
    else
      var w := words[|words| - 1];
      Hits(words[..|words| - 1], dict) + (if w in dict then [dict[w]] else [])
  }

  function Sum(xs: seq<real>): real
  {
    if |xs| == 0 then 0.0 else Sum(xs[..|xs| - 1]) + xs[|xs| - 1]
  }

  lemma SumAppend(xs: seq<real>, x: real)
    ensures Sum(xs + [x]) == Sum(xs) + x
  {
    assert (xs + [x])[..|xs|] == xs;
  }

  /** The value a cell gets: 0 for `None` and for a cell none of whose words the
      dictionary knows, the mean of the known words' values otherwise. */
  function CellConfidence(cell: Cell, dict: map<string, real>): real
  {
    if cell.None? then 0.0
    else
      var hs := Hits(SplitWords(cell.value), dict);
      if |hs| == 0 then 0.0 else Sum(hs) / |hs| as real
  }

  /** No value is found exactly when no word is a key. */
  lemma {:induction false} HitsEmpty(words: seq<string>, dict: map<string, real>)
    ensures |Hits(words, dict)| == 0 <==> forall i :: 0 <= i < |words| ==> words[i] !in dict
  {
    if |words| > 0 {
      var prefix := words[..|words| - 1];
      HitsEmpty(prefix, dict);
      assert forall i :: 0 <= i < |prefix| ==> prefix[i] == words[i];
    }
  }

  /** Every value found is a dictionary value of one of the words. */
  lemma {:induction false} HitsFromDict(words: seq<string>, dict: map<string, real>, lo: real, hi: real)
    requires forall k :: k in dict ==> lo <= dict[k] <= hi
    ensures forall i :: 0 <= i < |Hits(words, dict)| ==> lo <= Hits(words, dict)[i] <= hi
  {
    if |words| > 0 {
      HitsFromDict(words[..|words| - 1], dict, lo, hi);
    }
  }

  lemma {:induction false} SumBounds(xs: seq<real>, lo: real, hi: real)
    requires forall i :: 0 <= i < |xs| ==> lo <= xs[i] <= hi
    ensures |xs| as real * lo <= Sum(xs) <= |xs| as real * hi
  {
    if |xs| > 0 {
      SumBounds(xs[..|xs| - 1], lo, hi);
    }
  }

  /** A mean lies between the smallest and the largest confidence in the dictionary. */
  lemma MeanWithinDictionary(cell: Cell, dict: map<string, real>, lo: real, hi: real)
    requires forall k :: k in dict ==> lo <= dict[k] <= hi
    requires cell.Some? && exists i :: 0 <= i < |SplitWords(cell.value)| && SplitWords(cell.value)[i] in dict
    ensures lo <= CellConfidence(cell, dict) <= hi
  {
    var words := SplitWords(cell.value);
    var hs := Hits(words, dict);
    MeanOfHits(words, dict, lo, hi);
    var mean := Sum(hs) / |hs| as real;
    assert lo <= mean <= hi;
    assert CellConfidence(cell, dict) == mean;
  }

  lemma MeanOfHits(words: seq<string>, dict: map<string, real>, lo: real, hi: real)
    requires forall k :: k in dict ==> lo <= dict[k] <= hi
    requires exists i :: 0 <= i < |words| && words[i] in dict
    ensures |Hits(words, dict)| > 0
    ensures lo <= Sum(Hits(words, dict)) / |Hits(words, dict)| as real <= hi
  {
    var hs := Hits(words, dict);
    assert |hs| > 0 by {
      HitsEmpty(words, dict);
    }
    assert |hs| as real * lo <= Sum(hs) <= |hs| as real * hi by {
      HitsFromDict(words, dict, lo, hi);
      SumBounds(hs, lo, hi);
    }
    MeanBetween(Sum(hs), |hs| as real, lo, hi);
  }

  lemma MeanBetween(s: real, n: real, lo: real, hi: real)
    requires 0.0 < n && n * lo <= s <= n * hi
    ensures lo <= s / n <= hi
  {
  }

  /** With confidences between 0 and 1, as the model reports them, every cell value is
      between 0 and 1; it is 0 for `None` and for cells with no known word. */
  lemma ConfidenceInUnit(cell: Cell, dict: map<string, real>)
    requires forall k :: k in dict ==> 0.0 <= dict[k] <= 1.0
    ensures 0.0 <= CellConfidence(cell, dict) <= 1.0
    ensures cell.None? ==> CellConfidence(cell, dict) == 0.0
    ensures cell.Some? && (forall i :: 0 <= i < |SplitWords(cell.value)| ==> SplitWords(cell.value)[i] !in dict)
      ==> CellConfidence(cell, dict) == 0.0
  {
    if cell.Some? {
      HitsEmpty(SplitWords(cell.value), dict);
      if exists i :: 0 <= i < |SplitWords(cell.value)| && SplitWords(cell.value)[i] in dict {
        MeanWithinDictionary(cell, dict, 0.0, 1.0);
      }
    }
  }

  /** The innermost loop: the total and the number of the known words of a cell. */
  method CellTotals(text: string, dict: map<string, real>) returns (confidence: real, count: nat)
    ensures count == |Hits(SplitWords(text), dict)|
    ensures confidence == Sum(Hits(SplitWords(text), dict))
  {
    confidence, count := HitTotals(SplitWords(text), dict);
  }

  /** The loop over the words of one cell. */
  method HitTotals(words: seq<string>, dict: map<string, real>) returns (confidence: real, count: nat)
    ensures count == |Hits(words, dict)|
    ensures confidence == Sum(Hits(words, dict))
  {
    confidence, count := 0.0, 0;
    for i := 0 to |words|
      invariant count == |Hits(words[..i], dict)|
      invariant confidence == Sum(Hits(words[..i], dict))
    {
      HitsStep(words, i, dict);
      if words[i] in dict {
        SumAppend(Hits(words[..i], dict), dict[words[i]]);
        confidence := confidence + dict[words[i]];
        count := count + 1;
      } else {
        assert Hits(words[..i + 1], dict) == Hits(words[..i], dict);
      }
    }
    assert words[..|words|] == words;
  }

  /** One more word adds its value when the dictionary knows it. */
  lemma HitsStep(words: seq<string>, i: nat, dict: map<string, real>)
    requires i < |words|
    ensures Hits(words[..i + 1], dict) ==
      Hits(words[..i], dict) + (if words[i] in dict then [dict[words[i]]] else [])
  {
    assert words[..i + 1][..i] == words[..i];
  }

  /** One table's array of confidences has the table's shape and holds every cell's
      value. */
  ghost predicate Filled(a: array2<real>, f: Frame, dict: map<string, real>)
    reads a, f
  {
    f.Valid() && a.Length0 == |f.rows| && a.Length1 == |f.columns| &&
    forall r, c :: 0 <= r < a.Length0 && 0 <= c < a.Length1 ==> a[r, c] == CellConfidence(f.rows[r][c], dict)
  }

  /** The loops over the rows and columns of one table, writing into its array of zeros. */
  method FillTable(a: array2<real>, g: Grid, dict: map<string, real>)
    requires a.Length0 == |g| && Rectangular(g, a.Length1)
    requires forall r, c :: 0 <= r < a.Length0 && 0 <= c < a.Length1 ==> a[r, c] == 0.0
    modifies a
    ensures forall r, c :: 0 <= r < a.Length0 && 0 <= c < a.Length1 ==> a[r, c] == CellConfidence(g[r][c], dict)
  {
    for row := 0 to a.Length0
      invariant forall r, c :: 0 <= r < row && 0 <= c < a.Length1 ==> a[r, c] == CellConfidence(g[r][c], dict)
      invariant forall r, c :: row <= r < a.Length0 && 0 <= c < a.Length1 ==> a[r, c] == 0.0
    {
      FillRow(a, row, g[row], dict);
    }
  }

  /** The column loop for one row of zeros: a cell is written only when it holds a
      known word, so the others keep their 0. */
  method FillRow(a: array2<real>, row: nat, cells: seq<Cell>, dict: map<string, real>)
    requires row < a.Length0 && |cells| == a.Length1
    requires forall c :: 0 <= c < a.Length1 ==> a[row, c] == 0.0
    modifies a
    ensures forall c :: 0 <= c < a.Length1 ==> a[row, c] == CellConfidence(cells[c], dict)
    ensures forall r, c :: 0 <= r < a.Length0 && r != row && 0 <= c < a.Length1 ==> a[r, c] == old(a[r, c])
  {
    for col := 0 to a.Length1
      invariant forall c :: 0 <= c < col ==> a[row, c] == CellConfidence(cells[c], dict)
      invariant forall c :: col <= c < a.Length1 ==> a[row, c] == 0.0
      invariant forall r, c :: 0 <= r < a.Length0 && r != row && 0 <= c < a.Length1 ==> a[r, c] == old(a[r, c])
    {
      var cell := cells[col];
      if cell.Some? {
        var confidence, count := CellTotals(cell.value, dict);
        if count != 0 {
          a[row, col] := confidence / count as real;
        }
      }
    }
  }

  /** The confidence part of `get_tabular_content`: one array of zeros per table, of the
      table's shape, then filled cell by cell. */
  method TabularConfidence(tables: seq<Frame>, dict: map<string, real>) returns (conf: seq<array2<real>>)
    requires forall i :: 0 <= i < |tables| ==> tables[i].Valid()
    ensures |conf| == |tables|
    ensures forall i, j :: 0 <= i < j < |conf| ==> conf[i] != conf[j]
    ensures forall i :: 0 <= i < |conf| ==> fresh(conf[i])
    ensures forall i :: 0 <= i < |conf| ==> Filled(conf[i], tables[i], dict)
  {
    conf := [];
    for i := 0 to |tables|
      invariant |conf| == i
      invariant forall j, k :: 0 <= j < k < i ==> conf[j] != conf[k]
      invariant forall j :: 0 <= j < i ==> fresh(conf[j])
      invariant forall j :: 0 <= j < i ==>
        conf[j].Length0 == |tables[j].rows| && conf[j].Length1 == |tables[j].columns|
      invariant forall j, r, c :: 0 <= j < i && 0 <= r < conf[j].Length0 && 0 <= c < conf[j].Length1 ==>
        conf[j][r, c] == 0.0
    {
      var zeros := new real[|tables[i].rows|, |tables[i].columns|]((r, c) => 0.0);
      conf := conf + [zeros];
    }
    for i := 0 to |tables|
      invariant forall j :: 0 <= j < i ==> Filled(conf[j], tables[j], dict)
      invariant forall j, r, c :: i <= j < |conf| && 0 <= r < conf[j].Length0 && 0 <= c < conf[j].Length1 ==>
        conf[j][r, c] == 0.0
      invariant forall j :: 0 <= j < |conf| ==>
        conf[j].Length0 == |tables[j].rows| && conf[j].Length1 == |tables[j].columns|
    {
      FillTable(conf[i], tables[i].rows, dict);
    }
  }
}
