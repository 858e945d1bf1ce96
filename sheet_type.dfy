/** `get_sheet_type`: the data set and the organisation unit of a tally sheet are the
    names most similar to some OCR line, and its period is the sorted list of the dates
    found on its lines. The three OCR modules of the source differ only in the list of
    data-set names, which is a parameter here. */
module SheetType {
  import opened Wrappers
  import opened Text
  import opened Similarity
  import opened BestMatch
  import opened Ocr
  import opened Dates

  /** The data sets of the two msfocr OCR modules. */
  const DataSets: seq<string> :=
    ["RHGynobs - outpatient (resident/displaced)", "Vaccination - paediatric", "Vaccination - other preventive"]

  /** The data sets of the older docTR module. */
  const LegacyDataSets: seq<string> :=
    ["RHGynobs - outpatient (resident/displaced)", "Vaccination - paediatric"]

  const OrgUnits: seq<string> := ["W-14"]

  /** `[dataSet, orgUnit, sorted(period)]`. */
  datatype Sheet = Sheet(dataSet: string, orgUnit: string, period: seq<string>)

  predicate NonEmptyNames(names: seq<string>)
  {
    forall j :: 0 <= j < |names| ==> names[j] != ""
  }

  lemma ListsHaveNoEmptyName()
    ensures NonEmptyNames(DataSets) && NonEmptyNames(LegacyDataSets) && NonEmptyNames(OrgUnits)
  {
  }

  /** The similarity of a line to a name; a name is never empty, so it never raises. */
  function Score(text: string, name: string): (s: real)
    requires name != ""
    ensures 0.0 <= s <= 1.0
  {
    LetterByLetterSimilarity(text, name).value
  }

  /** The scores of one line against the names, in list order. */
  function RowScores(text: string, names: seq<string>): (s: seq<real>)
    requires NonEmptyNames(names)
    ensures |s| == |names|
  {
    if |names| == 0 then []
    else RowScores(text, names[..|names| - 1]) + [Score(text, names[|names| - 1])]
  }

  /** The scores of every (line, name) pair in the order the loops visit them. */
  function PairScores(texts: seq<string>, names: seq<string>): seq<real>
    requires NonEmptyNames(names)
  {
    if |texts| == 0 then []
    else PairScores(texts[..|texts| - 1], names) + RowScores(texts[|texts| - 1], names)
  }

  /** The name of every (line, name) pair in the same order. */
  function PairNames(texts: seq<string>, names: seq<string>): seq<string>
  {
    if |texts| == 0 then [] else PairNames(texts[..|texts| - 1], names) + names
  }

  lemma {:induction false} PairsAligned(texts: seq<string>, names: seq<string>)
    requires NonEmptyNames(names)
    ensures |PairScores(texts, names)| == |PairNames(texts, names)|
    ensures forall k :: 0 <= k < |PairNames(texts, names)| ==> PairNames(texts, names)[k] in names
  {
    if |texts| > 0 {
      PairsAligned(texts[..|texts| - 1], names);
    }
  }

  /** The name the scan over all pairs settles on: the first pair with the strictly
      highest positive score, or "" when none is positive. */
  function Choice(texts: seq<string>, names: seq<string>): string
    requires NonEmptyNames(names)
  {
    PairsAligned(texts, names);
    var k := FirstStrictMax(PairScores(texts, names));
    if k == -1 then "" else PairNames(texts, names)[k]
  }

  /** The dates `get_yyyy_mm_dd` finds on the lines, in line order. */
  function FoundDates(texts: seq<string>): (ds: seq<string>)
    ensures |ds| <= |texts|
  {
    Found(NormalizeDate, texts)
  }

  /** The values `find` returns for the lines, in line order, skipping lines it rejects. */
  function Found(find: string -> Option<string>, texts: seq<string>): (ds: seq<string>)
    ensures |ds| <= |texts|
  {
    if |texts| == 0 then []
    else
      var d := find(texts[|texts| - 1]);
      Found(find, texts[..|texts| - 1]) + (if d.Some? then [d.value] else [])
  }

  /** The choice is a listed name or "", it is "" exactly when no pair scores above 0,
      and otherwise it belongs to the first pair with the strictly highest score. */
  lemma ChoiceIsFirstBest(texts: seq<string>, names: seq<string>)
    requires NonEmptyNames(names)
    ensures Choice(texts, names) == "" || Choice(texts, names) in names
    ensures Choice(texts, names) == "" <==>
      forall i :: 0 <= i < |PairScores(texts, names)| ==> PairScores(texts, names)[i] == 0.0
    ensures Choice(texts, names) != "" ==>
      exists k :: IsFirstBest(PairScores(texts, names), k) && k < |PairNames(texts, names)| &&
        PairNames(texts, names)[k] == Choice(texts, names)
  {
    PairsAligned(texts, names);
    var s := PairScores(texts, names);
    var k := FirstStrictMax(s);
    PairScoresInUnit(texts, names);
    if k >= 0 {
      FirstStrictMaxUnique(s, k);
    }
  }

  lemma {:induction false} PairScoresInUnit(texts: seq<string>, names: seq<string>)
    requires NonEmptyNames(names)
    ensures forall i :: 0 <= i < |PairScores(texts, names)| ==> 0.0 <= PairScores(texts, names)[i] <= 1.0
  {
    if |texts| > 0 {
      var prefix := PairScores(texts[..|texts| - 1], names);
      var row := RowScores(texts[|texts| - 1], names);
      PairScoresInUnit(texts[..|texts| - 1], names);
      RowScoresInUnit(texts[|texts| - 1], names);
      assert forall i :: 0 <= i < |prefix| ==> (prefix + row)[i] == prefix[i];
      assert forall i :: |prefix| <= i < |prefix + row| ==> (prefix + row)[i] == row[i - |prefix|];
    }
  }

  lemma {:induction false} RowScoresInUnit(text: string, names: seq<string>)
    requires NonEmptyNames(names)
    ensures forall i :: 0 <= i < |names| ==> 0.0 <= RowScores(text, names)[i] <= 1.0
  {
    if |names| > 0 {
      RowScoresInUnit(text, names[..|names| - 1]);
    }
  }

  /** Every date found is one `get_yyyy_mm_dd` returned for some line, and every line
      it accepts contributes one. */
  lemma DatesFromLines(texts: seq<string>)
    ensures forall i :: 0 <= i < |FoundDates(texts)| ==>
      exists j :: 0 <= j < |texts| && NormalizeDate(texts[j]) == Some(FoundDates(texts)[i])
    ensures forall j :: 0 <= j < |texts| && NormalizeDate(texts[j]).Some? ==>
      NormalizeDate(texts[j]).value in FoundDates(texts)
  {
    FoundFromLines(NormalizeDate, texts);
    var ds := FoundDates(texts);
    forall i | 0 <= i < |ds|
      ensures exists j :: 0 <= j < |texts| && NormalizeDate(texts[j]) == Some(ds[i])
    {
      var j :| 0 <= j < |texts| && NormalizeDate(texts[j]) == Some(ds[i]);
    }
  }

  lemma {:induction false} FoundFromLines(find: string -> Option<string>, texts: seq<string>)
    ensures forall i :: 0 <= i < |Found(find, texts)| ==>
      exists j :: 0 <= j < |texts| && find(texts[j]) == Some(Found(find, texts)[i])
    ensures forall j :: 0 <= j < |texts| && find(texts[j]).Some? ==>
      find(texts[j]).value in Found(find, texts)
  {
    if |texts| > 0 {
      var prefix := texts[..|texts| - 1];
      FoundFromLines(find, prefix);
      var ds := Found(find, texts);
      forall i | 0 <= i < |ds|
        ensures exists j :: 0 <= j < |texts| && find(texts[j]) == Some(ds[i])
      {
        var last := find(texts[|texts| - 1]);
        assert ds == Found(find, prefix) + (if last.Some? then [last.value] else []);
        if i < |Found(find, prefix)| {
          assert ds[i] == Found(find, prefix)[i];
          var j :| 0 <= j < |prefix| && find(prefix[j]) == Some(Found(find, prefix)[i]);
          assert texts[j] == prefix[j];
        } else {
          assert find(texts[|texts| - 1]) == Some(ds[i]);
        }
      }
      forall j | 0 <= j < |texts| && find(texts[j]).Some?
        ensures find(texts[j]).value in ds
      {
        if j < |prefix| {
          assert prefix[j] == texts[j];
        }
      }
    } else {
      assert Found(find, texts) == [];
    }
  }

  // ----- Python's sorted() on strings -----

  /** Python's `<=` on strings: lexicographic by code point. */
  predicate LexLe(a: string, b: string)
    decreases |a|
  {
    |a| == 0 || (|b| > 0 && (a[0] < b[0] || (a[0] == b[0] && LexLe(a[1..], b[1..]))))
  }

  lemma {:induction false} LexLeTotal(a: string, b: string)
    ensures LexLe(a, b) || LexLe(b, a)
    decreases |a|
  {
    if |a| > 0 && |b| > 0 && a[0] == b[0] {
      LexLeTotal(a[1..], b[1..]);
    }
  }

  lemma {:induction false} LexLeTransitive(a: string, b: string, c: string)
    requires LexLe(a, b) && LexLe(b, c)
    ensures LexLe(a, c)
    decreases |a|
  {
    if |a| > 0 && a[0] == b[0] && b[0] == c[0] {
      LexLeTransitive(a[1..], b[1..], c[1..]);
    }
  }

  lemma {:induction false} LexLeAntisymmetric(a: string, b: string)
    requires LexLe(a, b) && LexLe(b, a)
    ensures a == b
    decreases |a|
  {
    if |a| > 0 {
      LexLeAntisymmetric(a[1..], b[1..]);
      assert a == [a[0]] + a[1..] && b == [b[0]] + b[1..];
    }
  }

  /** Each string is at most the next one. */
  predicate SortedLex(xs: seq<string>)
  {
    forall i :: 0 < i < |xs| ==> LexLe(xs[i - 1], xs[i])
  }

  /** In a sorted list every string is at most every later one. */
  lemma {:induction false} SortedPairwise(xs: seq<string>, i: nat, j: nat)
    requires SortedLex(xs) && i <= j < |xs|
    ensures LexLe(xs[i], xs[j])
    decreases j - i
  {
    if i == j {
      LexLeReflexive(xs[i]);
    } else {
      SortedPairwise(xs, i, j - 1);
      LexLeTransitive(xs[i], xs[j - 1], xs[j]);
    }
  }

  lemma {:induction false} LexLeReflexive(a: string)
    ensures LexLe(a, a)
    decreases |a|
  {
    if |a| > 0 {
      LexLeReflexive(a[1..]);
    }
  }

  /** Insertion of one string into a sorted list, as insertion sort does it. */
  function Insert(ys: seq<string>, x: string): (zs: seq<string>)
    ensures multiset(zs) == multiset(ys) + multiset{x}
    ensures |zs| > 0 && (zs[0] == x || (|ys| > 0 && zs[0] == ys[0]))
  {
    if |ys| == 0 then [x]
    else if LexLe(ys[0], x) then (assert ys == [ys[0]] + ys[1..]; [ys[0]] + Insert(ys[1..], x))
    else [x] + ys
  }

  lemma {:induction false} InsertKeepsSorted(ys: seq<string>, x: string)
    requires SortedLex(ys)
    ensures SortedLex(Insert(ys, x))
  {
    if |ys| > 0 {
      if LexLe(ys[0], x) {
        InsertKeepsSorted(ys[1..], x);
        var rest := Insert(ys[1..], x);
        assert |ys| > 1 && rest[0] == ys[1] ==> LexLe(ys[0], rest[0]);
      } else {
        LexLeTotal(ys[0], x);
      }
    }
  }

  /** `sorted(xs)` on strings: the ascending arrangement of the same strings. */
  function SortedStrings(xs: seq<string>): (ys: seq<string>)
    ensures multiset(ys) == multiset(xs)
  {
    if |xs| == 0 then []
    else (assert xs == [xs[0]] + xs[1..]; Insert(SortedStrings(xs[1..]), xs[0]))
  }

  lemma {:induction false} SortedStringsSorted(xs: seq<string>)
    ensures SortedLex(SortedStrings(xs))
  {
    if |xs| > 0 {
      SortedStringsSorted(xs[1..]);
      InsertKeepsSorted(SortedStrings(xs[1..]), xs[0]);
    }
  }

  /** Two sorted arrangements of the same strings are equal: `sorted` has one answer. */
  lemma {:induction false} SortedUnique(xs: seq<string>, ys: seq<string>)
    requires SortedLex(xs) && SortedLex(ys) && multiset(xs) == multiset(ys)
    ensures xs == ys
    decreases |xs|
  {
    if |xs| > 0 {
      assert xs[0] in multiset(ys) && ys[0] in multiset(xs);
      FirstIsLeast(xs, ys[0]);
      FirstIsLeast(ys, xs[0]);
      LexLeAntisymmetric(xs[0], ys[0]);
      assert xs == [xs[0]] + xs[1..] && ys == [ys[0]] + ys[1..];
      assert multiset(xs) == multiset([xs[0]]) + multiset(xs[1..]);
      assert multiset(ys) == multiset([ys[0]]) + multiset(ys[1..]);
      assert multiset(xs[1..]) == multiset(xs) - multiset([xs[0]]);
      assert multiset(ys[1..]) == multiset(ys) - multiset([ys[0]]);
      SortedUnique(xs[1..], ys[1..]);
    }
  }

  lemma FirstIsLeast(xs: seq<string>, v: string)
    requires SortedLex(xs) && v in xs
    ensures LexLe(xs[0], v)
  {
    var j :| 0 <= j < |xs| && xs[j] == v;
    SortedPairwise(xs, 0, j);
  }

  // ----- the scan -----

  /** The running maximum and its label after a scan over scores: replaced only by a
      strictly greater score, starting from 0 and "". */
  function Run(scores: seq<real>, labels: seq<string>): (real, string)
    requires |scores| == |labels|
  {
    if |scores| == 0 then (0.0, "")
    else
      var st := Run(scores[..|scores| - 1], labels[..|labels| - 1]);
      if st.0 < scores[|scores| - 1] then (scores[|scores| - 1], labels[|labels| - 1]) else st
  }

  /** The running scan ends on the first strict maximum. */
  lemma {:induction false} RunIsFirstStrictMax(scores: seq<real>, labels: seq<string>)
    requires |scores| == |labels|
    ensures var k := FirstStrictMax(scores);
      Run(scores, labels) == (Best(scores, k), if k == -1 then "" else labels[k])
  {
    if |scores| > 0 {
      var prefix := scores[..|scores| - 1];
      RunIsFirstStrictMax(prefix, labels[..|labels| - 1]);
      assert scores == prefix + [scores[|scores| - 1]];
      FirstStrictMaxAppend(prefix, scores[|scores| - 1]);
    }
  }

  /** What the source's variables hold after the lines `seen`. */
  datatype State = State(maxDataSet: real, dataSet: string, maxOrgUnit: real, orgUnit: string, period: seq<string>)

  function After(seen: seq<Line>, dataSets: seq<string>, orgUnits: seq<string>): State
    requires NonEmptyNames(dataSets) && NonEmptyNames(orgUnits)
  {
    var ts := LineTexts(seen);
    PairsAligned(ts, dataSets);
    PairsAligned(ts, orgUnits);
    var d := Run(PairScores(ts, dataSets), PairNames(ts, dataSets));
    var o := Run(PairScores(ts, orgUnits), PairNames(ts, orgUnits));
    State(d.0, d.1, o.0, o.1, FoundDates(ts))
  }

  /** The result of `get_sheet_type` on a document. */
  function SheetOf(doc: Document, dataSets: seq<string>, orgUnits: seq<string>): Sheet
    requires NonEmptyNames(dataSets) && NonEmptyNames(orgUnits)
  {
    var st := After(PageLines(doc.pages), dataSets, orgUnits);
    Sheet(st.dataSet, st.orgUnit, SortedStrings(st.period))
  }

  /** The summary of the scan and the sort: each field is the choice over all (line,
      name) pairs, and the period is the found dates, sorted. */
  lemma SheetOfSpec(doc: Document, dataSets: seq<string>, orgUnits: seq<string>)
    requires NonEmptyNames(dataSets) && NonEmptyNames(orgUnits)
    ensures var r, ts := SheetOf(doc, dataSets, orgUnits), LineTexts(PageLines(doc.pages));
      r.dataSet == Choice(ts, dataSets) && r.orgUnit == Choice(ts, orgUnits) &&
      SortedLex(r.period) && multiset(r.period) == multiset(FoundDates(ts))
  {
    var ts := LineTexts(PageLines(doc.pages));
    PairsAligned(ts, dataSets);
    PairsAligned(ts, orgUnits);
    RunIsFirstStrictMax(PairScores(ts, dataSets), PairNames(ts, dataSets));
    RunIsFirstStrictMax(PairScores(ts, orgUnits), PairNames(ts, orgUnits));
    SortedStringsSorted(FoundDates(ts));
  }

  /** The loop over the names for one line, keeping the running best. */
  method ScanNames(text: string, names: seq<string>, ghost prior: seq<real>, ghost priorNames: seq<string>,
                   maxSim0: real, best0: string)
    returns (maxSim: real, best: string)
    requires NonEmptyNames(names) && |prior| == |priorNames|
    requires (maxSim0, best0) == Run(prior, priorNames)
    ensures (maxSim, best) == Run(prior + RowScores(text, names), priorNames + names)
  {
    maxSim, best := maxSim0, best0;
    assert prior + RowScores(text, names[..0]) == prior && priorNames + names[..0] == priorNames;
    for j := 0 to |names|
      invariant (maxSim, best) == Run(prior + RowScores(text, names[..j]), priorNames + names[..j])
    {
      ghost var s, l := prior + RowScores(text, names[..j]), priorNames + names[..j];
      assert names[..j + 1][..j] == names[..j];
      var sim := Score(text, names[j]);
      assert prior + RowScores(text, names[..j + 1]) == s + [sim];
      assert priorNames + names[..j + 1] == l + [names[j]];
      assert (s + [sim])[..|s|] == s && (l + [names[j]])[..|l|] == l;
      if maxSim < sim {
        maxSim := sim;
        best := names[j];
      }
    }
    assert names[..|names|] == names;
  }

  /** The loop body for one line: both name scans and the date. */
  method ScanLine(line: Line, dataSets: seq<string>, orgUnits: seq<string>, ghost seen: seq<Line>, st0: State)
    returns (st: State)
    requires NonEmptyNames(dataSets) && NonEmptyNames(orgUnits)
    requires st0 == After(seen, dataSets, orgUnits)
    ensures st == After(seen + [line], dataSets, orgUnits)
  {
    var text := LineText(line);
    ghost var ts := LineTexts(seen);
    assert (seen + [line])[..|seen|] == seen;
    assert LineTexts(seen + [line]) == ts + [text];
    assert (ts + [text])[..|ts|] == ts;
    PairsAligned(ts, dataSets);
    PairsAligned(ts, orgUnits);
    var maxDataSet, dataSet :=
      ScanNames(text, dataSets, PairScores(ts, dataSets), PairNames(ts, dataSets), st0.maxDataSet, st0.dataSet);
    var maxOrgUnit, orgUnit :=
      ScanNames(text, orgUnits, PairScores(ts, orgUnits), PairNames(ts, orgUnits), st0.maxOrgUnit, st0.orgUnit);
    var period := st0.period;
    var date := GetYyyyMmDd(text);
    if date.Some? {
      period := period + [date.value];
    }
    st := State(maxDataSet, dataSet, maxOrgUnit, orgUnit, period);
  }

  lemma PrefixStep<T>(s: seq<T>, xs: seq<T>, l: nat)
    requires l < |xs|
    ensures s + xs[..l + 1] == (s + xs[..l]) + [xs[l]]
  {
    assert xs[..l + 1] == xs[..l] + [xs[l]];
  }

  lemma BlockLinesStep(s: seq<Line>, blocks: seq<Block>, b: nat)
    requires b < |blocks|
    ensures s + BlockLines(blocks[..b + 1]) == (s + BlockLines(blocks[..b])) + blocks[b].lines
  {
    assert blocks[..b + 1][..b] == blocks[..b];
  }

  /** The loop over the lines of a block. */
  method ScanLines(lines: seq<Line>, dataSets: seq<string>, orgUnits: seq<string>, ghost seen: seq<Line>, st0: State)
    returns (st: State)
    requires NonEmptyNames(dataSets) && NonEmptyNames(orgUnits)
    requires st0 == After(seen, dataSets, orgUnits)
    ensures st == After(seen + lines, dataSets, orgUnits)
  {
    st := st0;
    ghost var cur := seen;
    assert seen + lines[..0] == seen;
    for l := 0 to |lines|
      invariant cur == seen + lines[..l]
      invariant st == After(cur, dataSets, orgUnits)
    {
      st := ScanLine(lines[l], dataSets, orgUnits, cur, st);
      PrefixStep(seen, lines, l);
      cur := cur + [lines[l]];
    }
    assert lines[..|lines|] == lines;
  }

  /** The loop over the blocks of a page. */
  method ScanBlocks(blocks: seq<Block>, dataSets: seq<string>, orgUnits: seq<string>, ghost seen: seq<Line>, st0: State)
    returns (st: State)
    requires NonEmptyNames(dataSets) && NonEmptyNames(orgUnits)
    requires st0 == After(seen, dataSets, orgUnits)
    ensures st == After(seen + BlockLines(blocks), dataSets, orgUnits)
  {
    st := st0;
    ghost var cur := seen;
    assert seen + BlockLines(blocks[..0]) == seen;
    for b := 0 to |blocks|
      invariant cur == seen + BlockLines(blocks[..b])
      invariant st == After(cur, dataSets, orgUnits)
    {
      st := ScanLines(blocks[b].lines, dataSets, orgUnits, cur, st);
      BlockLinesStep(seen, blocks, b);
      cur := cur + blocks[b].lines;
    }
    assert blocks[..|blocks|] == blocks;
  }

  /** `get_sheet_type`, with the module's list of data sets. */
  method GetSheetType(doc: Document, dataSets: seq<string>, orgUnits: seq<string>) returns (r: Sheet)
    requires NonEmptyNames(dataSets) && NonEmptyNames(orgUnits)
    ensures r == SheetOf(doc, dataSets, orgUnits)
  {
    var st := State(0.0, "", 0.0, "", []);
    ghost var cur: seq<Line> := [];
    var pages := doc.pages;
    for p := 0 to |pages|
      invariant cur == PageLines(pages[..p])
      invariant st == After(cur, dataSets, orgUnits)
    {
      st := ScanBlocks(pages[p].blocks, dataSets, orgUnits, cur, st);
      cur := cur + BlockLines(pages[p].blocks);
      assert pages[..p + 1][..p] == pages[..p];
    }
    assert pages[..|pages|] == pages;
    r := Sheet(st.dataSet, st.orgUnit, SortedStrings(st.period));
  }
}
