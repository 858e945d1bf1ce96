/** `get_yyyy_mm_dd`: try a fixed list of `datetime.strptime` formats in order and
    re-emit the first that parses as `%Y-%m-%d`.

    `strptime` is modelled as Python's `_strptime` does it: the format is compiled to a
    regular expression (`%Y` four digits, `%m` `1[0-2]|0[1-9]|[1-9]`, `%d`
    `3[01]|[12]\d|0[1-9]|[1-9]| [1-9]`, `%B` a full English month name, case-insensitive,
    a whitespace run `\s+`), the expression is matched at the start of the text with
    backtracking, the match must reach the end of the text, and the captured fields must
    form a valid date. */
module Dates {
  import opened Wrappers
  import opened Text
  import opened Calendar

  datatype Directive = Year | Month | Day | MonthName | Space | Lit(c: char)

  /** The formats of the source, in the order it tries them. */
  const Formats: seq<string> :=
    ["%Y-%m-%d", "%d-%m-%Y", "%m/%d/%Y", "%d/%m/%Y", "%B %d, %Y", "%d %B %Y", "%Y/%m/%d"]

  const OutputFormat: string := "%Y-%m-%d"

  /** `_strptime`'s pattern builder: a run of whitespace becomes one `\s+`, each supported
      `%` directive its group, any other character a literal. `None` stands for the
      ValueError of a directive this model does not support or a trailing `%`. */
  function CompileFormat(f: string): Option<seq<Directive>>
    decreases |f|
  {
    if f == [] then Some([])
    else if IsSpace(f[0]) then
      var rest := StripLeft(f);
      Prepend(Space, CompileFormat(rest))
    else if f[0] == '%' then
      if |f| < 2 then None
      else
        var d :=
          if f[1] == 'Y' then Some(Year)
          else if f[1] == 'm' then Some(Month)
          else if f[1] == 'd' then Some(Day)
          else if f[1] == 'B' then Some(MonthName)
          else None;
        if d.None? then None else Prepend(d.value, CompileFormat(f[2..]))
    else Prepend(Lit(f[0]), CompileFormat(f[1..]))
  }

  function Prepend(d: Directive, r: Option<seq<Directive>>): Option<seq<Directive>>
  {
    if r.None? then None else Some([d] + r.value)
  }

  /** The twelve month names of the C locale, lower case, January first. */
  const MonthNames: seq<string> :=
    ["january", "february", "march", "april", "may", "june", "july", "august",
     "september", "october", "november", "december"]

  /** `_strptime` lists the names in its regex longest first (a stable sort by length):
      the month numbers, less one, in that order. */
  const MonthNameOrder: seq<nat> := [8, 1, 10, 11, 0, 9, 7, 2, 3, 5, 6, 4]

  /** An alternative of a directive's regex: how many characters it consumes and the
      number it captures. */
  datatype Alternative = Alternative(width: nat, value: int)

  predicate InRange(c: char, lo: char, hi: char) { lo <= c <= hi }

  /** The alternatives of `%m` that match at position i, in regex priority order. */
  function MonthAlternatives(s: string, i: nat): seq<Alternative>
    requires i <= |s|
  {
    (if i + 2 <= |s| && s[i] == '1' && InRange(s[i + 1], '0', '2')
     then [Alternative(2, 10 + DigitValue(s[i + 1]))] else [])
    + (if i + 2 <= |s| && s[i] == '0' && InRange(s[i + 1], '1', '9')
       then [Alternative(2, DigitValue(s[i + 1]))] else [])
    + (if i + 1 <= |s| && InRange(s[i], '1', '9') then [Alternative(1, DigitValue(s[i]))] else [])
  }

  /** The alternatives of `%d` that match at position i, in regex priority order. */
  function DayAlternatives(s: string, i: nat): seq<Alternative>
    requires i <= |s|
  {
    (if i + 2 <= |s| && s[i] == '3' && InRange(s[i + 1], '0', '1')
     then [Alternative(2, 30 + DigitValue(s[i + 1]))] else [])
    + (if i + 2 <= |s| && InRange(s[i], '1', '2') && IsDigit(s[i + 1])
       then [Alternative(2, 10 * DigitValue(s[i]) + DigitValue(s[i + 1]))] else [])
    + (if i + 2 <= |s| && s[i] == '0' && InRange(s[i + 1], '1', '9')
       then [Alternative(2, DigitValue(s[i + 1]))] else [])
    + (if i + 1 <= |s| && InRange(s[i], '1', '9') then [Alternative(1, DigitValue(s[i]))] else [])
    + (if i + 2 <= |s| && s[i] == ' ' && InRange(s[i + 1], '1', '9')
       then [Alternative(2, DigitValue(s[i + 1]))] else [])
  }

  /** `%Y`: exactly four digits. */
  function YearAlternatives(s: string, i: nat): seq<Alternative>
    requires i <= |s|
  {
    if i + 4 <= |s| && AllDigits(s[i..i + 4]) then [Alternative(4, DigitsValue(s[i..i + 4]))] else []
  }

  /** `%B`: a month name compared case-insensitively, tried longest name first. */
  function MonthNameAlternatives(s: string, i: nat, k: nat): (alts: seq<Alternative>)
    requires i <= |s| && k <= |MonthNameOrder|
    ensures forall j :: 0 <= j < |alts| ==> i + alts[j].width <= |s|
    decreases |MonthNameOrder| - k
  {
    if k == |MonthNameOrder| then []
    else
      var month := MonthNameOrder[k];
      var name := MonthNames[month];
      (if i + |name| <= |s| && LowerString(s[i..i + |name|]) == name
       then [Alternative(|name|, month + 1)] else [])
      + MonthNameAlternatives(s, i, k + 1)
  }

  /** Length of the whitespace run at position i. */
  function SpaceRun(s: string, i: nat): (n: nat)
    requires i <= |s|
    ensures i + n <= |s|
    decreases |s| - i
  {
    if i < |s| && IsSpace(s[i]) then 1 + SpaceRun(s, i + 1) else 0
  }

  /** `\s+` is greedy: the longest run first, then each shorter one. */
  function SpaceAlternatives(s: string, i: nat): seq<Alternative>
    requires i <= |s|
  {
    var n := SpaceRun(s, i);
    seq(n, k requires 0 <= k < n => Alternative(n - k, 0))
  }

  function Alternatives(d: Directive, s: string, i: nat): (alts: seq<Alternative>)
    requires i <= |s|
    ensures forall k :: 0 <= k < |alts| ==> i + alts[k].width <= |s|
  {
    match d
    case Year => YearAlternatives(s, i)
    case Month => MonthAlternatives(s, i)
    case Day => DayAlternatives(s, i)
    case MonthName => MonthNameAlternatives(s, i, 0)
    case Space => SpaceAlternatives(s, i)
    case Lit(c) => if i < |s| && ToLower(s[i]) == ToLower(c) then [Alternative(1, 0)] else []
  }

  /** Records a captured number in the date being built. */
  function Capture(acc: Date, d: Directive, v: int): Date
  {
    match d
    case Year => acc.(year := v)
    case Month => acc.(month := v)
    case MonthName => acc.(month := v)
    case Day => acc.(day := v)
    case _ => acc
  }

  /** Backtracking match of the directives at position i: the first success in regex
      priority order, giving the captured date and the position where the match ends. */
  function Match(ds: seq<Directive>, s: string, i: nat, acc: Date): (r: Option<(Date, nat)>)
    requires i <= |s|
    ensures r.Some? ==> i <= r.value.1 <= |s|
    decreases |ds|, 1, 0
  {
    if ds == [] then Some((acc, i)) else TryAlternatives(ds, s, i, acc, Alternatives(ds[0], s, i))
  }

  function TryAlternatives(ds: seq<Directive>, s: string, i: nat, acc: Date, alts: seq<Alternative>)
    : (r: Option<(Date, nat)>)
    requires ds != [] && i <= |s|
    requires forall k :: 0 <= k < |alts| ==> i + alts[k].width <= |s|
    ensures r.Some? ==> i <= r.value.1 <= |s|
    decreases |ds|, 0, |alts|
  {
    if alts == [] then None
    else
      var first := Match(ds[1..], s, i + alts[0].width, Capture(acc, ds[0], alts[0].value));
      if first.Some? then first else TryAlternatives(ds, s, i, acc, alts[1..])
  }

  /** `_strptime`'s defaults for the fields a format leaves out. */
  const Unset: Date := Date(1900, 1, 1)

  /** `datetime.strptime(text, fmt)`; `None` is its ValueError: no match at the start,
      unconverted data after the match, or an invalid date. */
  function Strptime(text: string, fmt: string): Option<Date>
  {
    var compiled := CompileFormat(fmt);
    if compiled.None? then None
    else
      var m := Match(compiled.value, text, 0, Unset);
      if m.Some? && m.value.1 == |text| && ValidDate(m.value.0) then Some(m.value.0) else None
  }

  /** `date.strftime("%Y-%m-%d")` as the C library of Linux writes it: month and day in
      two digits, the year without padding, so a year below 1000 has fewer than four. */
  function Render(d: Date): (s: string)
    requires ValidDate(d)
    ensures |s| == 10 <==> d.year >= 1000
  {
    NatToStringLengthFour(d.year);
    NatToString(d.year) + "-" + PadTwo(d.month) + "-" + PadTwo(d.day)
  }

  /** The first of `fmts` that parses, re-emitted; `None` when none does. */
  function FirstParse(text: string, fmts: seq<string>): (r: Option<string>)
  {
    if fmts == [] then None
    else
      var d := Strptime(text, fmts[0]);
      if d.Some? then (assert ValidDate(d.value); Some(Render(d.value)))
      else FirstParse(text, fmts[1..])
  }

  function NormalizeDate(text: string): Option<string>
  {
    FirstParse(text, Formats)
  }

  /** The source's loop with its early return. */
  method GetYyyyMmDd(text: string) returns (r: Option<string>)
    ensures r == NormalizeDate(text)
  {
    for k := 0 to |Formats|
      invariant NormalizeDate(text) == FirstParse(text, Formats[k..])
    {
      assert Formats[k..][1..] == Formats[k + 1..];
      var d := Strptime(text, Formats[k]);
      if d.Some? {
        return Some(Render(d.value));
      }
    }
    r := None;
  }

  /** The result is the rendering of the first format, in list order, that parses. */
  lemma {:induction false} FirstParseIsFirstSuccess(text: string, fmts: seq<string>)
    ensures FirstParse(text, fmts).None? <==> forall k :: 0 <= k < |fmts| ==> Strptime(text, fmts[k]).None?
    ensures FirstParse(text, fmts).Some? ==>
      exists k :: 0 <= k < |fmts| && Strptime(text, fmts[k]).Some?
        && (forall j :: 0 <= j < k ==> Strptime(text, fmts[j]).None?)
        && FirstParse(text, fmts).value == Render(Strptime(text, fmts[k]).value)
  {
    if fmts != [] && Strptime(text, fmts[0]).None? {
      FirstParseIsFirstSuccess(text, fmts[1..]);
      var r := FirstParse(text, fmts);
      if r.Some? {
        var k :| 0 <= k < |fmts[1..]| && Strptime(text, fmts[1..][k]).Some?
          && (forall j :: 0 <= j < k ==> Strptime(text, fmts[1..][j]).None?)
          && r.value == Render(Strptime(text, fmts[1..][k]).value);
        assert forall j :: 0 <= j < k + 1 ==> Strptime(text, fmts[j]).None? by {
          forall j | 0 <= j < k + 1 ensures Strptime(text, fmts[j]).None? {
            if j > 0 { assert fmts[j] == fmts[1..][j - 1]; }
          }
        }
        assert fmts[k + 1] == fmts[1..][k];
      } else {
        forall k | 0 <= k < |fmts| ensures Strptime(text, fmts[k]).None? {
          if k > 0 { assert fmts[k] == fmts[1..][k - 1]; }
        }
      }
    }
  }

  /** Every result is the `%Y-%m-%d` rendering of a valid date. */
  lemma {:induction false} FirstParseRendersValidDate(text: string, fmts: seq<string>)
    ensures FirstParse(text, fmts).Some? ==>
      exists d :: ValidDate(d) && FirstParse(text, fmts).value == Render(d)
  {
    if fmts != [] && Strptime(text, fmts[0]).None? {
      FirstParseRendersValidDate(text, fmts[1..]);
    }
  }

  /** `%Y-%m-%d` compiles to a year, a dash, a month, a dash and a day. */
  lemma CompileOutputFormat()
    ensures CompileFormat(OutputFormat) == Some([Year, Lit('-'), Month, Lit('-'), Day])
  {
    var f := OutputFormat;
    assert |f| == 8 && f[0] == '%' && f[1] == 'Y' && f[2] == '-' && f[3] == '%' && f[4] == 'm'
      && f[5] == '-' && f[6] == '%' && f[7] == 'd';
    CompileDashed(f);
  }

  /** Any text spelled `%Y-%m-%d` compiles so. */
  lemma CompileDashed(f: string)
    requires |f| == 8 && f[0] == '%' && f[1] == 'Y' && f[2] == '-' && f[3] == '%' && f[4] == 'm'
    requires f[5] == '-' && f[6] == '%' && f[7] == 'd'
    ensures CompileFormat(f) == Some([Year, Lit('-'), Month, Lit('-'), Day])
  {
    CompileMonthDay(f);
    CompileLiteralAt(f, 2);
    assert [Lit('-')] + [Month, Lit('-'), Day] == [Lit('-'), Month, Lit('-'), Day];
    assert CompileFormat(f[2..]) == Some([Lit('-'), Month, Lit('-'), Day]);
    CompileDirectiveAt(f, 0, Year);
    assert [Year] + [Lit('-'), Month, Lit('-'), Day] == [Year, Lit('-'), Month, Lit('-'), Day];
    assert f[0..] == f;
  }

  /** The `%m-%d` that ends such a text. */
  lemma CompileMonthDay(f: string)
    requires |f| == 8 && f[3] == '%' && f[4] == 'm' && f[5] == '-' && f[6] == '%' && f[7] == 'd'
    ensures CompileFormat(f[3..]) == Some([Month, Lit('-'), Day])
  {
    var none: seq<Directive> := [];
    assert f[8..] == [] && CompileFormat(f[8..]) == Some(none);
    CompileDirectiveAt(f, 6, Day);
    assert [Day] + none == [Day];
    CompileLiteralAt(f, 5);
    assert [Lit('-')] + [Day] == [Lit('-'), Day];
    assert CompileFormat(f[5..]) == Some([Lit('-'), Day]);
    CompileDirectiveAt(f, 3, Month);
    assert [Month] + [Lit('-'), Day] == [Month, Lit('-'), Day];
  }

  /** A supported directive at position i compiles to its group, then the rest. */
  lemma CompileDirectiveAt(f: string, i: nat, d: Directive)
    requires i + 2 <= |f| && f[i] == '%'
    requires (d == Year && f[i + 1] == 'Y') || (d == Month && f[i + 1] == 'm')
      || (d == Day && f[i + 1] == 'd') || (d == MonthName && f[i + 1] == 'B')
    ensures CompileFormat(f[i..]) == Prepend(d, CompileFormat(f[i + 2..]))
  {
    assert f[i..][2..] == f[i + 2..];
  }

  /** Any other non-space character at position i is a literal, then the rest. */
  lemma CompileLiteralAt(f: string, i: nat)
    requires i < |f| && !IsSpace(f[i]) && f[i] != '%'
    ensures CompileFormat(f[i..]) == Prepend(Lit(f[i]), CompileFormat(f[i + 1..]))
  {
    assert f[i..][1..] == f[i + 1..];
  }

  /** A two-digit month is taken whole by the first alternative of `%m` that fits it. */
  lemma MonthAlternativesOfPadded(s: string, i: nat, m: int)
    requires i + 2 <= |s| && 1 <= m <= 12 && s[i..i + 2] == PadTwo(m)
    ensures MonthAlternatives(s, i) != [] && MonthAlternatives(s, i)[0] == Alternative(2, m)
  {
    assert s[i] == DigitChar(m / 10) && s[i + 1] == DigitChar(m % 10);
  }

  /** A two-digit day is taken whole by the first alternative of `%d` that fits it. */
  lemma DayAlternativesOfPadded(s: string, i: nat, d: int)
    requires i + 2 <= |s| && 1 <= d <= 31 && s[i..i + 2] == PadTwo(d)
    ensures DayAlternatives(s, i) != [] && DayAlternatives(s, i)[0] == Alternative(2, d)
  {
    assert s[i] == DigitChar(d / 10) && s[i + 1] == DigitChar(d % 10);
  }

  /** The output of the normaliser is parsed back, by its own output format, into the
      same date, once the year has four digits. */
  lemma {:induction false} RenderParses(d: Date)
    requires ValidDate(d) && d.year >= 1000
    ensures Strptime(Render(d), OutputFormat) == Some(d)
  {
    CompileOutputFormat();
    MatchRendered(d, Render(d));
  }

  /** The directives of the output format match a rendered date whole, capturing it. */
  lemma MatchRendered(d: Date, s: string)
    requires ValidDate(d) && d.year >= 1000 && s == Render(d)
    ensures Match([Year, Lit('-'), Month, Lit('-'), Day], s, 0, Unset) == Some((d, 10))
  {
    RenderLayout(d, s);
    var ds := [Year, Lit('-'), Month, Lit('-'), Day];
    var acc1 := Unset.(year := d.year);
    assert ds[1..] == [Lit('-'), Month, Lit('-'), Day];
    MatchAfterYear(s, d.month, d.day, acc1);
    assert acc1.(month := d.month, day := d.day) == d;
    YearAlternativesOfPadded(s, d.year);
    assert Capture(Unset, Year, d.year) == acc1;
    MatchFirstAlternative(ds, s, 0, Unset, Alternative(4, d.year));
  }

  /** Where the year, the month and the day sit in a rendered date of a four-digit year. */
  lemma RenderLayout(d: Date, s: string)
    requires ValidDate(d) && d.year >= 1000 && s == Render(d)
    ensures |s| == 10 && s[0..4] == PadFour(d.year) && s[4] == '-'
    ensures s[5..7] == PadTwo(d.month) && s[7] == '-' && s[8..10] == PadTwo(d.day)
  {
    NatToStringFourDigits(d.year);
    var y := NatToString(d.year);
    assert s == y + "-" + PadTwo(d.month) + "-" + PadTwo(d.day);
  }

  /** Four digits at the start are taken whole by `%Y`. */
  lemma YearAlternativesOfPadded(s: string, year: nat)
    requires year <= 9999 && |s| >= 4 && s[0..4] == PadFour(year)
    ensures YearAlternatives(s, 0) == [Alternative(4, year)]
  {
  }

  /** The dash after the year, then the month, the dash and the day. */
  lemma MatchAfterYear(s: string, month: int, day: int, acc: Date)
    requires |s| == 10 && 1 <= month <= 12 && 1 <= day <= 31 && s[4] == '-'
    requires s[5..7] == PadTwo(month) && s[7] == '-' && s[8..10] == PadTwo(day)
    ensures Match([Lit('-'), Month, Lit('-'), Day], s, 4, acc) == Some((acc.(month := month, day := day), 10))
  {
    var ds := [Lit('-'), Month, Lit('-'), Day];
    assert ds[1..] == [Month, Lit('-'), Day];
    MatchMonthDay(s, month, day, acc);
    MatchLiteral(ds, s, 4, acc);
  }

  /** After the year and its dash, a padded month, a dash and a padded day are matched
      whole. */
  lemma MatchMonthDay(s: string, month: int, day: int, acc: Date)
    requires |s| == 10 && 1 <= month <= 12 && 1 <= day <= 31
    requires s[5..7] == PadTwo(month) && s[7] == '-' && s[8..10] == PadTwo(day)
    ensures Match([Month, Lit('-'), Day], s, 5, acc) == Some((acc.(month := month, day := day), 10))
  {
    var acc2 := acc.(month := month);
    var ds: seq<Directive> := [Month, Lit('-'), Day];
    assert ds[2..] == [Day] && ds[2..][1..] == [] && ds[1..][1..] == ds[2..];
    DayAlternativesOfPadded(s, 8, day);
    MatchFirstAlternative(ds[2..], s, 8, acc2, Alternative(2, day));
    MatchLiteral(ds[1..], s, 7, acc2);
    MonthAlternativesOfPadded(s, 5, month);
    MatchFirstAlternative(ds, s, 5, acc, Alternative(2, month));
  }

  /** When the first alternative of the first directive leads to a match, that match is
      the result. */
  lemma MatchFirstAlternative(ds: seq<Directive>, s: string, i: nat, acc: Date, a: Alternative)
    requires ds != [] && i <= |s|
    requires Alternatives(ds[0], s, i) != [] && Alternatives(ds[0], s, i)[0] == a
    requires Match(ds[1..], s, i + a.width, Capture(acc, ds[0], a.value)).Some?
    ensures Match(ds, s, i, acc) == Match(ds[1..], s, i + a.width, Capture(acc, ds[0], a.value))
  {
  }

  /** A literal directive consumes its own character and captures nothing. */
  lemma MatchLiteral(ds: seq<Directive>, s: string, i: nat, acc: Date)
    requires ds != [] && ds[0].Lit? && i < |s| && s[i] == ds[0].c
    ensures Match(ds, s, i, acc) == Match(ds[1..], s, i + 1, acc)
  {
    var alts := [Alternative(1, 0)];
    assert Alternatives(ds[0], s, i) == alts;
    assert Capture(acc, ds[0], 0) == acc;
    assert alts[1..] == [];
    assert TryAlternatives(ds, s, i, acc, alts[1..]) == None;
  }

  /** The normaliser returns its own output unchanged whenever that output has the full
      ten characters, that is whenever the year is 1000 or later. */
  lemma NormalizeDateIdempotent(text: string)
    ensures NormalizeDate(text).Some? && |NormalizeDate(text).value| == 10 ==>
      NormalizeDate(NormalizeDate(text).value) == NormalizeDate(text)
  {
    FirstParseRendersValidDate(text, Formats);
    if NormalizeDate(text).Some? && |NormalizeDate(text).value| == 10 {
      var d :| ValidDate(d) && NormalizeDate(text).value == Render(d);
      RenderParses(d);
      assert Formats[0] == OutputFormat;
    }
  }
}
