/** The GPT-4o path of the recogniser: the tables of the model's JSON answer become
    DataFrames, and every image is scaled down before it is sent. The request to the model,
    the base64 encoding and the pixels themselves are outside this model. */
module LlmOcr {
  import opened Wrappers
  import opened Text
  import opened Tables

  // ---- tables of the answer ----

  /** One dictionary of the answer's `tables` list. Its `data` list is updated in place. */
  class AnswerTable {
    /** The `table_name` entry, `None` when the dictionary has none. */
    const name: Option<string>
    const headers: seq<Cell>
    var data: Grid

    constructor (name: Option<string>, headers: seq<Cell>, data: Grid)
      ensures this.name == name && this.headers == headers && this.data == data
    {
      this.name := name;
      this.headers := headers;
      this.data := data;
    }
  }

  /** No dictionary occurs twice in the list, as in any list the JSON decoder builds. */
  predicate DistinctTables(tables: seq<AnswerTable>)
  {
    forall i, j :: 0 <= i < j < |tables| ==> tables[i] != tables[j]
  }

  /** `f"Table {k}"`: the name of the k-th table when the model gave none. */
  function DefaultName(k: nat): (s: string)
    ensures |s| > 6 && s[..6] == "Table " && AllDigits(s[6..])
    ensures DigitsValue(s[6..]) == k
  {
    var digits := NatToString(k);
    NatToStringRoundTrip(k);
    assert ("Table " + digits)[6..] == digits;
    "Table " + digits
  }

  /** The name of the table at 1-based position k. */
  function TableName(name: Option<string>, k: nat): string
  {
    match name
    case Some(n) => n
    case None => DefaultName(k)
  }

  /** Default names tell the positions apart. */
  lemma DefaultNamesDiffer(j: nat, k: nat)
    ensures DefaultName(j) == DefaultName(k) <==> j == k
  {
    if DefaultName(j) == DefaultName(k) {
      assert DefaultName(j)[6..] == DefaultName(k)[6..];
    }
  }

  /** The number of columns of the DataFrame built from some rows. */
  function Widest(rows: Grid): nat
  {
    if |rows| == 0 then 0
    else
      var w := Widest(rows[..|rows| - 1]);
      var last := |rows[|rows| - 1]|;
      if last <= w then w else last
  }

  /** The width is the length of the longest row. */
  lemma {:induction false} WidestIsLongest(rows: Grid)
    ensures forall i :: 0 <= i < |rows| ==> |rows[i]| <= Widest(rows)
    ensures Widest(rows) == 0 || exists i :: 0 <= i < |rows| && |rows[i]| == Widest(rows)
  {
    if |rows| > 0 {
      var prefix := rows[..|rows| - 1];
      WidestIsLongest(prefix);
      assert forall i :: 0 <= i < |prefix| ==> rows[i] == prefix[i];
      if Widest(rows) != 0 && Widest(rows) == Widest(prefix) && Widest(rows) != |rows[|rows| - 1]| {
        var i :| 0 <= i < |prefix| && |prefix[i]| == Widest(prefix);
        assert rows[i] == prefix[i];
      }
    }
  }

  /** A row padded with missing cells up to the given width. */
  function PadRow(row: seq<Cell>, width: nat): (r: seq<Cell>)
    requires |row| <= width
    ensures |r| == width && r[..|row|] == row
    ensures forall c :: |row| <= c < width ==> r[c] == None
  {
    row + seq(width - |row|, _ => None)
  }

  /** `pd.DataFrame(rows)`: one row per list, shorter lists filled with missing cells. */
  function DataFrame(rows: Grid): Grid
  {
    WidestIsLongest(rows);
    seq(|rows|, i requires 0 <= i < |rows| => PadRow(rows[i], Widest(rows)))
  }

  /** The DataFrame is a rectangle as wide as the longest list; every row starts with its
      list and is filled with missing cells after it. */
  lemma DataFrameShape(rows: Grid)
    ensures |DataFrame(rows)| == |rows| && Rectangular(DataFrame(rows), Widest(rows))
    ensures forall i :: 0 <= i < |rows| ==> DataFrame(rows)[i][..|rows[i]|] == rows[i]
    ensures forall i, c :: 0 <= i < |rows| && |rows[i]| <= c < |DataFrame(rows)[i]| ==> DataFrame(rows)[i][c] == None
  {
    WidestIsLongest(rows);
  }

  /** Rows of one width are taken over unchanged. */
  lemma DataFrameRectangular(rows: Grid, width: nat)
    requires |rows| > 0 && Rectangular(rows, width)
    ensures DataFrame(rows) == rows
  {
    var g := DataFrame(rows);
    DataFrameShape(rows);
    WidestIsLongest(rows);
    assert Widest(rows) == width;
    forall i | 0 <= i < |rows| ensures g[i] == rows[i] {
      assert g[i] == g[i][..|rows[i]|];
    }
  }

  /** `parse_table_data`: names and DataFrames of the answer's tables, in order; every
      dictionary's `data` list gains its headers as the first row. */
  method ParseTableData(tables: seq<AnswerTable>) returns (names: seq<string>, frames: seq<Grid>)
    requires DistinctTables(tables)
    modifies set t | t in tables
    ensures |names| == |tables| && |frames| == |tables|
    ensures forall k :: 0 <= k < |tables| ==> names[k] == TableName(tables[k].name, k + 1)
    ensures forall k :: 0 <= k < |tables| ==> tables[k].data == [tables[k].headers] + old(tables[k].data)
    ensures forall k :: 0 <= k < |tables| ==> frames[k] == DataFrame(tables[k].data)
  {
    names, frames := [], [];
    var k := 0;
    while k < |tables|
      invariant 0 <= k <= |tables| && |names| == k && |frames| == k
      invariant forall j :: 0 <= j < k ==> names[j] == TableName(tables[j].name, j + 1)
      invariant forall j :: 0 <= j < k ==> tables[j].data == [tables[j].headers] + old(tables[j].data)
      invariant forall j :: k <= j < |tables| ==> tables[j].data == old(tables[j].data)
      invariant forall j :: 0 <= j < k ==> frames[j] == DataFrame(tables[j].data)
    {
      var table := tables[k];
      var tableName := TableName(table.name, |frames| + 1);
      table.data := [table.headers] + table.data;
      names := names + [tableName];
      frames := frames + [DataFrame(table.data)];
      k := k + 1;
    }
  }

  // ---- image sizes ----

  /** The size of an image in pixels. */
  datatype Size = Size(width: nat, height: nat)

  function Larger(s: Size): nat
  {
    if s.width >= s.height then s.width else s.height
  }

  function Smaller(s: Size): nat
  {
    if s.width <= s.height then s.width else s.height
  }

  /** The dimension `rescale_image` compares with its limit. */
  function Selected(s: Size, maxi: bool): nat
  {
    if maxi then Larger(s) else Smaller(s)
  }

  /** `int(n * (limit / d))`, in exact arithmetic. */
  function Scaled(n: nat, limit: nat, d: nat): nat
    requires d > 0
  {
    n * limit / d
  }

  /** `rescale_image`: when the selected dimension exceeds the limit both dimensions are
      scaled by limit over it and truncated; otherwise the size is kept. */
  function Rescale(s: Size, limit: nat, maxi: bool): Size
  {
    var d := Selected(s, maxi);
    if d > limit then Size(Scaled(s.width, limit, d), Scaled(s.height, limit, d)) else s
  }

  /** Scaling down never grows a dimension and keeps the order of two dimensions. */
  lemma ScaledBounds(n: nat, m: nat, limit: nat, d: nat)
    requires limit < d
    ensures Scaled(n, limit, d) <= n
    ensures Scaled(d, limit, d) == limit
    ensures n <= m ==> Scaled(n, limit, d) <= Scaled(m, limit, d)
  {
    assert n * limit <= n * d by {
      MulMono(limit, d, n);
    }
    DivMono(n * limit, n * d, d);
    DivExact(n, d);
    assert d * limit == limit * d;
    DivExact(limit, d);
    if n <= m {
      assert n * limit <= m * limit by {
        MulMono(n, m, limit);
      }
      DivMono(n * limit, m * limit, d);
    }
  }

  lemma MulMono(a: nat, b: nat, c: nat)
    requires a <= b
    ensures c * a <= c * b && a * c <= b * c
  {
    assert c * b == c * a + c * (b - a);
    assert a * c == c * a && b * c == c * b;
  }

  /** The quotient is the one number whose multiples bracket the dividend. */
  lemma DivUnique(x: nat, d: nat, q: nat)
    requires d > 0 && q * d <= x < (q + 1) * d
    ensures x / d == q
  {
    FloorBounds(x, d);
    var p := x / d;
    if p < q {
      MulMono(p + 1, q, d);
    } else if p > q {
      MulMono(q + 1, p, d);
    }
  }

  lemma DivExact(n: nat, d: nat)
    requires d > 0
    ensures n * d / d == n
  {
    DivUnique(n * d, d, n);
  }

  lemma DivMono(a: nat, b: nat, d: nat)
    requires d > 0 && a <= b
    ensures a / d <= b / d
  {
    FloorBounds(a, d);
    FloorBounds(b, d);
    if a / d > b / d {
      MulMono(b / d + 1, a / d, d);
    }
  }

  /** The size is kept when it is within the limit; otherwise the selected dimension
      becomes the limit, no dimension grows, and each is the truncated proportional one. */
  lemma RescaleSpec(s: Size, limit: nat, maxi: bool)
    ensures var d := Selected(s, maxi); d <= limit ==> Rescale(s, limit, maxi) == s
    ensures var d := Selected(s, maxi); var r := Rescale(s, limit, maxi);
      d > limit ==>
        Selected(r, maxi) == limit &&
        r.width * d <= s.width * limit < (r.width + 1) * d &&
        r.height * d <= s.height * limit < (r.height + 1) * d
    ensures var r := Rescale(s, limit, maxi); r.width <= s.width && r.height <= s.height
  {
    var d := Selected(s, maxi);
    if d > limit {
      var r := Rescale(s, limit, maxi);
      ScaledBounds(s.width, s.height, limit, d);
      ScaledBounds(s.height, s.width, limit, d);
      FloorBounds(s.width * limit, d);
      FloorBounds(s.height * limit, d);
      if d == s.width {
        assert r.width == limit;
      } else {
        assert r.height == limit;
      }
    }
  }

  /** Truncating division lies within one divisor of the dividend. */
  lemma FloorBounds(x: nat, d: nat)
    requires d > 0
    ensures (x / d) * d <= x < (x / d + 1) * d
  {
  }

  /** The two rescales of `encode_image`: at most 2048 pixels on the longer side, then at
      most 768 on the shorter one. */
  function EncodedSize(s: Size): Size
  {
    Rescale(Rescale(s, 2048, true), 768, false)
  }

  /** The size sent to the model stays within both limits; it is the original size, or its
      longer side is 2048, or its shorter side is 768. */
  lemma EncodedSizeBounds(s: Size)
    ensures Larger(EncodedSize(s)) <= 2048 && Smaller(EncodedSize(s)) <= 768
    ensures EncodedSize(s) == s || Larger(EncodedSize(s)) == 2048 || Smaller(EncodedSize(s)) == 768
  {
    var first := Rescale(s, 2048, true);
    RescaleSpec(s, 2048, true);
    RescaleSpec(first, 768, false);
  }

  /** A 3000 by 1500 image: 2048 by 1024 under the longer-side limit 2048, 1536 by 768 under
      the shorter-side limit 768, and 1536 by 768 once encoded. */
  lemma RescaleExamples(s: Size)
    requires s == Size(3000, 1500)
    ensures Rescale(s, 2048, true) == Size(2048, 1024)
    ensures Rescale(s, 768, false) == Size(1536, 768)
    ensures EncodedSize(s) == Size(1536, 768)
  {
  }
}
