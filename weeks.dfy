/** Week numbers and DHIS2 period identifiers of the app. A week starts on Sunday; week 1
    of a year starts on the Sunday on or before its 1 January, and a date in the last days
    of December that already lies in next year's week 1 is counted there. The period
    identifier is one of the `PERIOD_TYPES` templates filled by `str.format`. */
module Weeks {
  import opened Wrappers
  import opened Text
  import opened Calendar

  /** The ordinal of 1 January of y. */
  function NewYear(y: int): int
    requires 1 <= y <= 9999
  {
    ToOrdinal(Date(y, 1, 1))
  }

  /** The weekday of a day ordinal as `date.weekday()` numbers it (Sunday is 6). */
  function OrdinalWeekday(n: int): int
  {
    (n + 6) % 7
  }

  /** The Sunday on or before day ordinal n, whose weekday is w. */
  function SundayOnOrBefore(n: int, w: int): (r: int)
    requires w == OrdinalWeekday(n)
    ensures r <= n < r + 7 && r % 7 == 0 && OrdinalWeekday(r) == 6
  {
    n - (w + 1) % 7
  }

  /** `week1_start_ordinal`: the ordinal of the Sunday on or before 1 January of y. */
  function Week1StartOrdinal(y: int): (r: int)
    requires 1 <= y <= 9999
    ensures r <= NewYear(y) < r + 7
    ensures r % 7 == 0 && OrdinalWeekday(r) == 6
  {
    SundayOnOrBefore(NewYear(y), Weekday(Date(y, 1, 1)))
  }

  /** Two Sundays that open the weeks of two New Year's Days a year apart. */
  lemma SundaysAYearApart(r1: int, n1: int, r2: int, n2: int)
    requires r1 % 7 == 0 && r2 % 7 == 0 && r1 <= n1 < r1 + 7 && r2 <= n2 < r2 + 7
    requires 365 <= n2 - n1 <= 366
    ensures r2 - r1 in {364, 371}
  {
    var k := r2 / 7 - r1 / 7;
    assert r2 - r1 == 7 * k;
    assert 52 <= k <= 53;
  }

  /** Week 1 of consecutive years starts 52 or 53 whole weeks apart. */
  lemma Week1Gap(y: int)
    requires 1 <= y < 9999
    ensures Week1StartOrdinal(y + 1) - Week1StartOrdinal(y) in {364, 371}
  {
    NextNewYear(y);
    assert NewYear(y) == DaysBeforeYear(y) + 1;
    assert NewYear(y + 1) == DaysBeforeYear(y + 1) + 1;
    assert NewYear(y + 1) - NewYear(y) == YearLength(y);
    SundaysAYearApart(Week1StartOrdinal(y), NewYear(y), Week1StartOrdinal(y + 1), NewYear(y + 1));
  }

  /** Week w of year y (counted from 1) holds day ordinal n. */
  predicate InWeek(y: int, w: int, n: int)
  {
    1 <= y <= 9999 && 1 <= w && Week1StartOrdinal(y) + 7 * (w - 1) <= n < Week1StartOrdinal(y) + 7 * w
  }

  /** `week_from_date`; `None` is the ValueError of `date(10000, 1, 1)`, which the source
      only evaluates for a date of 9999 whose week number reaches 52. */
  function WeekFromDate(d: Date): (r: Option<(int, int)>)
    requires ValidDate(d)
  {
    var n := ToOrdinal(d);
    var week := (n - Week1StartOrdinal(d.year)) / 7 + 1;
    if week >= 52 then
      if d.year == 9999 then None
      else if n >= Week1StartOrdinal(d.year + 1) then Some((d.year + 1, 1))
      else Some((d.year, week))
    else Some((d.year, week))
  }

  /** The week found is the one holding the date, numbered from 1 to 53, in the date's
      year unless the date already lies in next year's week 1; only late December of
      9999 fails. */
  lemma WeekFromDateSpec(d: Date)
    requires ValidDate(d)
    ensures WeekFromDate(d).None? <==> d.year == 9999 && ToOrdinal(d) >= Week1StartOrdinal(9999) + 7 * 51
    ensures WeekFromDate(d).Some? ==>
      var (y, w) := WeekFromDate(d).value;
      1 <= w <= 53 && InWeek(y, w, ToOrdinal(d)) && (y == d.year || (y == d.year + 1 && w == 1))
    ensures d.year < 9999 ==>
      WeekFromDate(d).Some? && (WeekFromDate(d).value.0 == d.year + 1 <==> ToOrdinal(d) >= Week1StartOrdinal(d.year + 1))
  {
    var n := ToOrdinal(d);
    var start := Week1StartOrdinal(d.year);
    OrdinalAfterWeek1(d);
    WeekOfOffset(n, start);
    if d.year < 9999 {
      OrdinalBeforeNextWeek1(d);
      WeekBeforeNextYear(n, start, Week1StartOrdinal(d.year + 1));
    }
  }

  /** A date is never before week 1 of its own year. */
  lemma OrdinalAfterWeek1(d: Date)
    requires ValidDate(d)
    ensures Week1StartOrdinal(d.year) <= ToOrdinal(d)
  {
    OrdinalWithinYear(d);
  }

  /** A date lies before the first Saturday of next year's week 1, and week 1 of next
      year starts 52 or 53 weeks after this year's. */
  lemma OrdinalBeforeNextWeek1(d: Date)
    requires ValidDate(d) && d.year < 9999
    ensures ToOrdinal(d) < Week1StartOrdinal(d.year + 1) + 7
    ensures Week1StartOrdinal(d.year + 1) - Week1StartOrdinal(d.year) in {364, 371}
  {
    OrdinalWithinYear(d);
    Week1Gap(d.year);
    NextNewYear(d.year);
  }

  /** The week number `(n - start) / 7 + 1` is the week holding n, counted from 1. */
  lemma WeekOfOffset(n: int, start: int)
    requires start <= n
    ensures var w := (n - start) / 7 + 1;
      1 <= w && start + 7 * (w - 1) <= n < start + 7 * w && (w >= 52 <==> n >= start + 7 * 51)
  {
  }

  /** Before next year's week 1 the week number is at most 53, and below 52 the day is
      before next year's week 1. */
  lemma WeekBeforeNextYear(n: int, start: int, next: int)
    requires start <= n && (next - start == 364 || next - start == 371)
    ensures var w := (n - start) / 7 + 1; (n < next ==> w <= 53) && (w < 52 ==> n < next)
  {
  }

  // ---- `str.format` on the period templates ----

  /** `r` with `s` put in front, failure kept. */
  function Prefixed(s: string, r: Option<string>): Option<string>
  {
    match r
    case None => None
    case Some(v) => Some(s + v)
  }

  /** The index of the first `}` at or after i, or |t| when there is none. */
  function CloseAt(t: string, i: nat): (j: nat)
    requires i <= |t|
    ensures i <= j <= |t| && (j < |t| ==> t[j] == '}')
    ensures forall k :: i <= k < j ==> t[k] != '}'
    decreases |t| - i
  {
    if i == |t| || t[i] == '}' then i else CloseAt(t, i + 1)
  }

  /** `t.format(**args)` for templates of literal text, `{{` and `}}` escapes and plain
      `{name}` fields. `None` is the KeyError of a field not in `args` and the ValueError
      of an unmatched brace. */
  function Format(t: string, args: map<string, string>): Option<string>
    decreases |t|
  {
    if |t| == 0 then Some("")
    else if t[0] == '{' && |t| > 1 && t[1] == '{' then Prefixed("{", Format(t[2..], args))
    else if t[0] == '{' then
      var j := CloseAt(t, 1);
      if j == |t| || t[1..j] !in args then None
      else Prefixed(args[t[1..j]], Format(t[j + 1..], args))
    else if t[0] == '}' then
      if |t| > 1 && t[1] == '}' then Prefixed("}", Format(t[2..], args)) else None
    else Prefixed(t[..1], Format(t[1..], args))
  }

  predicate NoBraces(s: string)
  {
    forall i :: 0 <= i < |s| ==> s[i] != '{' && s[i] != '}'
  }

  lemma PrefixedTwice(a: string, b: string, r: Option<string>)
    ensures Prefixed(a, Prefixed(b, r)) == Prefixed(a + b, r)
  {
    if r.Some? {
      assert a + (b + r.value) == (a + b) + r.value;
    }
  }

  /** Literal text is copied through unchanged. */
  lemma {:induction false} FormatLiteral(lit: string, rest: string, args: map<string, string>)
    requires NoBraces(lit)
    ensures Format(lit + rest, args) == Prefixed(lit, Format(rest, args))
    decreases |lit|
  {
    if |lit| == 0 {
      assert lit + rest == rest;
      if Format(rest, args).Some? {
        assert lit + Format(rest, args).value == Format(rest, args).value;
      }
    } else {
      var t := lit + rest;
      assert t[0] == lit[0] && t[..1] == lit[..1] && t[1..] == lit[1..] + rest;
      FormatLiteral(lit[1..], rest, args);
      PrefixedTwice(lit[..1], lit[1..], Format(rest, args));
      assert lit[..1] + lit[1..] == lit;
    }
  }

  /** A `{name}` field is replaced by the argument of that name, and fails without one. */
  lemma FormatField(name: string, rest: string, args: map<string, string>)
    requires NoBraces(name)
    ensures Format("{" + name + "}" + rest, args)
         == if name in args then Prefixed(args[name], Format(rest, args)) else None
  {
    var t := "{" + name + "}" + rest;
    var j := CloseAt(t, 1);
    assert t[|name| + 1] == '}';
    assert forall k :: 1 <= k < |name| + 1 ==> t[k] == name[k - 1];
    assert j == |name| + 1;
    assert t[1..j] == name;
    assert t[j + 1..] == rest;
  }

  // ---- the period templates ----

  /** The replacement fields the period templates name. */
  datatype Key = Year | Month | Day | Week | QuarterNumber | SemiyearNumber

  function KeyName(k: Key): (s: string)
    ensures NoBraces(s)
  {
    match k
    case Year => "year"
    case Month => "month"
    case Day => "day"
    case Week => "week"
    case QuarterNumber => "quarter_number"
    case SemiyearNumber => "semiyear_number"
  }

  /** A template read as literal text and replacement fields. */
  datatype Piece = Text(text: string) | Field(key: Key)

  /** The template text a piece is written as. */
  function PieceText(x: Piece): string
  {
    match x
    case Text(s) => s
    case Field(k) => "{" + KeyName(k) + "}"
  }

  function Render(t: seq<Piece>): string
  {
    if |t| == 0 then "" else PieceText(t[0]) + Render(t[1..])
  }

  predicate LiteralsPlain(t: seq<Piece>)
  {
    forall i :: 0 <= i < |t| && t[i].Text? ==> NoBraces(t[i].text)
  }

  /** The values `get_period` passes for `year`, `month`, `day` and `week`. */
  datatype Values = Values(year: string, month: string, day: string, week: string)

  /** The keyword arguments of the `format` call. */
  function Arguments(v: Values): map<string, string>
  {
    map["year" := v.year, "day" := v.day, "month" := v.month, "week" := v.week]
  }

  /** The argument a field is replaced by; `None` for the keys that are never passed. */
  function Arg(k: Key, v: Values): Option<string>
  {
    match k
    case Year => Some(v.year)
    case Month => Some(v.month)
    case Day => Some(v.day)
    case Week => Some(v.week)
    case _ => None
  }

  /** The keyword arguments hold exactly the fields `Arg` replaces. */
  lemma ArgumentsAgree(k: Key, v: Values)
    ensures KeyName(k) in Arguments(v) <==> Arg(k, v).Some?
    ensures Arg(k, v).Some? ==> Arguments(v)[KeyName(k)] == Arg(k, v).value
  {
  }

  /** The template with each field replaced by its argument, failing at a missing one. */
  function Fill(t: seq<Piece>, v: Values): Option<string>
  {
    if |t| == 0 then Some("")
    else match t[0]
      case Text(s) => Prefixed(s, Fill(t[1..], v))
      case Field(k) => if Arg(k, v).None? then None else Prefixed(Arg(k, v).value, Fill(t[1..], v))
  }

  /** `str.format` on the written template fills it field by field. */
  lemma {:induction false} FormatRender(t: seq<Piece>, v: Values)
    requires LiteralsPlain(t)
    ensures Format(Render(t), Arguments(v)) == Fill(t, v)
  {
    if |t| > 0 {
      assert LiteralsPlain(t[1..]) by {
        forall i | 0 <= i < |t[1..]| && t[1..][i].Text? ensures NoBraces(t[1..][i].text) {
          assert t[1..][i] == t[i + 1];
        }
      }
      FormatRender(t[1..], v);
      match t[0]
      case Text(s) =>
        FormatLiteral(s, Render(t[1..]), Arguments(v));
      case Field(k) =>
        ArgumentsAgree(k, v);
        FormatField(KeyName(k), Render(t[1..]), Arguments(v));
    }
  }

  /** Filling a template that starts with a field. */
  lemma FillField(k: Key, rest: seq<Piece>, v: Values)
    ensures Fill([Field(k)] + rest, v)
         == if Arg(k, v).None? then None else Prefixed(Arg(k, v).value, Fill(rest, v))
  {
    assert ([Field(k)] + rest)[1..] == rest;
  }

  /** Filling a template that starts with literal text. */
  lemma FillText(s: string, rest: seq<Piece>, v: Values)
    ensures Fill([Text(s)] + rest, v) == Prefixed(s, Fill(rest, v))
  {
    assert ([Text(s)] + rest)[1..] == rest;
  }

  // ---- `get_period` ----

  /** The keys of `PERIOD_TYPES`. */
  datatype PeriodType =
    | Daily | Weekly | WeeklyWednesday | WeeklyThursday | WeeklySaturday | WeeklySunday | BiWeekly
    | Monthly | BiMonthly | Quarterly | SixMonthly | SixMonthlyApril | SixMonthlyNovember
    | Yearly | FinancialApril | FinancialJuly | FinancialOct | FinancialNov

  function Name(p: PeriodType): string
  {
    match p
    case Daily => "Daily"
    case Weekly => "Weekly"
    case WeeklyWednesday => "WeeklyWednesday"
    case WeeklyThursday => "WeeklyThursday"
    case WeeklySaturday => "WeeklySaturday"
    case WeeklySunday => "WeeklySunday"
    case BiWeekly => "BiWeekly"
    case Monthly => "Monthly"
    case BiMonthly => "BiMonthly"
    case Quarterly => "Quarterly"
    case SixMonthly => "SixMonthly"
    case SixMonthlyApril => "SixMonthlyApril"
    case SixMonthlyNovember => "SixMonthlyNovember"
    case Yearly => "Yearly"
    case FinancialApril => "FinancialApril"
    case FinancialJuly => "FinancialJuly"
    case FinancialOct => "FinancialOct"
    case FinancialNov => "FinancialNov"
  }

  /** The lookup `PERIOD_TYPES[name]`; `None` is the KeyError of a name that is not a key. */
  function PeriodTypeNamed(name: string): (r: Option<PeriodType>)
    ensures r.Some? ==> Name(r.value) == name
  {
    if name == "Daily" then Some(Daily)
    else if name == "Weekly" then Some(Weekly)
    else if name == "WeeklyWednesday" then Some(WeeklyWednesday)
    else if name == "WeeklyThursday" then Some(WeeklyThursday)
    else if name == "WeeklySaturday" then Some(WeeklySaturday)
    else if name == "WeeklySunday" then Some(WeeklySunday)
    else if name == "BiWeekly" then Some(BiWeekly)
    else if name == "Monthly" then Some(Monthly)
    else if name == "BiMonthly" then Some(BiMonthly)
    else if name == "Quarterly" then Some(Quarterly)
    else if name == "SixMonthly" then Some(SixMonthly)
    else if name == "SixMonthlyApril" then Some(SixMonthlyApril)
    else if name == "SixMonthlyNovember" then Some(SixMonthlyNovember)
    else if name == "Yearly" then Some(Yearly)
    else if name == "FinancialApril" then Some(FinancialApril)
    else if name == "FinancialJuly" then Some(FinancialJuly)
    else if name == "FinancialOct" then Some(FinancialOct)
    else if name == "FinancialNov" then Some(FinancialNov)
    else None
  }

  /** Every key finds its own entry: the keys are distinct. */
  lemma PeriodTypeNamedName(p: PeriodType)
    ensures PeriodTypeNamed(Name(p)) == Some(p)
  {
    if p.Daily? || p.Weekly? || p.WeeklyWednesday? || p.WeeklyThursday? || p.WeeklySaturday? || p.WeeklySunday? {
      NamedDailyAndWeekly(p);
    } else if p.BiWeekly? || p.Monthly? || p.BiMonthly? || p.Quarterly? || p.SixMonthly? || p.SixMonthlyApril? {
      NamedMonthly(p);
    } else {
      NamedYearly(p);
    }
  }

  lemma NamedDailyAndWeekly(p: PeriodType)
    requires p.Daily? || p.Weekly? || p.WeeklyWednesday? || p.WeeklyThursday? || p.WeeklySaturday? || p.WeeklySunday?
    ensures PeriodTypeNamed(Name(p)) == Some(p)
  {
  }

  lemma NamedMonthly(p: PeriodType)
    requires p.BiWeekly? || p.Monthly? || p.BiMonthly? || p.Quarterly? || p.SixMonthly? || p.SixMonthlyApril?
    ensures PeriodTypeNamed(Name(p)) == Some(p)
  {
  }

  lemma NamedYearly(p: PeriodType)
    requires p.SixMonthlyNovember? || p.Yearly? || p.FinancialApril? || p.FinancialJuly? || p.FinancialOct? || p.FinancialNov?
    ensures PeriodTypeNamed(Name(p)) == Some(p)
  {
  }

  /** The template of each period type; `Render` gives the text it is written as. */
  function Template(p: PeriodType): (t: seq<Piece>)
    ensures LiteralsPlain(t)
  {
    match p
    case Daily => [Field(Year), Field(Month), Field(Day)]
    case Weekly => [Field(Year), Text("W"), Field(Week)]
    case WeeklyWednesday => [Field(Year), Text("WedW"), Field(Week)]
    case WeeklyThursday => [Field(Year), Text("ThuW"), Field(Week)]
    case WeeklySaturday => [Field(Year), Text("SatW"), Field(Week)]
    case WeeklySunday => [Field(Year), Text("SunW"), Field(Week)]
    case BiWeekly => [Field(Year), Text("Bi"), Field(Week)]
    case Monthly => [Field(Year), Field(Month)]
    case BiMonthly => [Field(Year), Field(Month), Text("B")]
    case Quarterly => [Field(Year), Field(QuarterNumber)]
    case SixMonthly => [Field(Year), Field(SemiyearNumber)]
    case SixMonthlyApril => [Field(Year), Text("April"), Field(SemiyearNumber)]
    case SixMonthlyNovember => [Field(Year), Text("Nov"), Field(SemiyearNumber)]
    case Yearly => [Field(Year)]
    case FinancialApril => [Field(Year), Text("April")]
    case FinancialJuly => [Field(Year), Text("July")]
    case FinancialOct => [Field(Year), Text("Oct")]
    case FinancialNov => [Field(Year), Text("Nov")]
  }

  predicate IsWeekly(p: PeriodType)
  {
    p.Weekly? || p.WeeklyWednesday? || p.WeeklyThursday? || p.WeeklySaturday? || p.WeeklySunday? || p.BiWeekly?
  }

  /** The period types whose templates name a key `get_period` never supplies. */
  predicate IsUnsupplied(p: PeriodType)
  {
    p.Quarterly? || p.SixMonthly? || p.SixMonthlyApril? || p.SixMonthlyNovember?
  }

  /** The text after the year in a weekly or yearly template. */
  function Infix(p: PeriodType): string
    requires IsWeekly(p) || p.Yearly? || p.FinancialApril? || p.FinancialJuly? || p.FinancialOct? || p.FinancialNov?
  {
    if p.Yearly? then "" else Template(p)[1].text
  }

  /** The values of a period: the week-based year and week number, the start date's
      month and day, all written by `str` without padding. */
  function PeriodValues(year: int, week: int, start: Date): Values
  {
    Values(IntToString(year), IntToString(start.month), IntToString(start.day), IntToString(week))
  }

  /** `get_period`, with the selected period type and start date as parameters. */
  function GetPeriod(periodType: string, start: Date): Option<string>
    requires ValidDate(start)
  {
    match WeekFromDate(start)
    case None => None
    case Some((year, week)) =>
      match PeriodTypeNamed(periodType)
      case None => None
      case Some(p) => Format(Render(Template(p)), Arguments(PeriodValues(year, week, start)))
  }

  // The shapes of template the period types use, filled.

  lemma FillF(a: Key, v: Values)
    ensures Fill([Field(a)], v) == if Arg(a, v).None? then None else Some(Arg(a, v).value)
  {
    assert [Field(a)] == [Field(a)] + [];
    FillField(a, [], v);
    if Arg(a, v).Some? {
      assert Arg(a, v).value + "" == Arg(a, v).value;
    }
  }

  lemma FillFT(a: Key, x: string, v: Values)
    ensures Fill([Field(a), Text(x)], v) == if Arg(a, v).None? then None else Some(Arg(a, v).value + x)
  {
    assert [Field(a), Text(x)] == [Field(a)] + [Text(x)];
    assert [Text(x)] == [Text(x)] + [];
    FillField(a, [Text(x)], v);
    FillText(x, [], v);
    assert x + "" == x;
  }

  lemma FillFF(a: Key, b: Key, v: Values)
    ensures Fill([Field(a), Field(b)], v)
         == if Arg(a, v).None? || Arg(b, v).None? then None else Some(Arg(a, v).value + Arg(b, v).value)
  {
    assert [Field(a), Field(b)] == [Field(a)] + [Field(b)];
    FillField(a, [Field(b)], v);
    FillF(b, v);
  }

  lemma FillFFT(a: Key, b: Key, x: string, v: Values)
    ensures Fill([Field(a), Field(b), Text(x)], v)
         == if Arg(a, v).None? || Arg(b, v).None? then None else Some(Arg(a, v).value + Arg(b, v).value + x)
  {
    assert [Field(a), Field(b), Text(x)] == [Field(a)] + [Field(b), Text(x)];
    FillField(a, [Field(b), Text(x)], v);
    FillFT(b, x, v);
    if Arg(a, v).Some? && Arg(b, v).Some? {
      assert Arg(a, v).value + (Arg(b, v).value + x) == Arg(a, v).value + Arg(b, v).value + x;
    }
  }

  lemma FillFTF(a: Key, x: string, b: Key, v: Values)
    ensures Fill([Field(a), Text(x), Field(b)], v)
         == if Arg(a, v).None? || Arg(b, v).None? then None else Some(Arg(a, v).value + x + Arg(b, v).value)
  {
    assert [Field(a), Text(x), Field(b)] == [Field(a)] + [Text(x), Field(b)];
    assert [Text(x), Field(b)] == [Text(x)] + [Field(b)];
    FillField(a, [Text(x), Field(b)], v);
    FillText(x, [Field(b)], v);
    FillF(b, v);
    if Arg(a, v).Some? && Arg(b, v).Some? {
      assert Arg(a, v).value + (x + Arg(b, v).value) == Arg(a, v).value + x + Arg(b, v).value;
    }
  }

  lemma FillFFF(a: Key, b: Key, c: Key, v: Values)
    ensures Fill([Field(a), Field(b), Field(c)], v)
         == if Arg(a, v).None? || Arg(b, v).None? || Arg(c, v).None? then None
            else Some(Arg(a, v).value + Arg(b, v).value + Arg(c, v).value)
  {
    assert [Field(a), Field(b), Field(c)] == [Field(a)] + [Field(b), Field(c)];
    FillField(a, [Field(b), Field(c)], v);
    FillFF(b, c, v);
    if Arg(a, v).Some? && Arg(b, v).Some? && Arg(c, v).Some? {
      assert Arg(a, v).value + (Arg(b, v).value + Arg(c, v).value)
          == Arg(a, v).value + Arg(b, v).value + Arg(c, v).value;
    }
  }

  /** What each period type's template yields for given values: the year followed by the
      type's text and fields, or `None` where the template names a key never passed. */
  lemma FillTemplate(p: PeriodType, v: Values)
    ensures IsUnsupplied(p) ==> Fill(Template(p), v).None?
    ensures IsWeekly(p) ==> Fill(Template(p), v) == Some(v.year + Infix(p) + v.week)
    ensures p.Daily? ==> Fill(Template(p), v) == Some(v.year + v.month + v.day)
    ensures p.Monthly? ==> Fill(Template(p), v) == Some(v.year + v.month)
    ensures p.BiMonthly? ==> Fill(Template(p), v) == Some(v.year + v.month + "B")
    ensures p.Yearly? || p.FinancialApril? || p.FinancialJuly? || p.FinancialOct? || p.FinancialNov? ==>
      Fill(Template(p), v) == Some(v.year + Infix(p))
  {
    match p
    case Daily => FillFFF(Year, Month, Day, v);
    case Monthly => FillFF(Year, Month, v);
    case BiMonthly => FillFFT(Year, Month, "B", v);
    case Quarterly => FillFF(Year, QuarterNumber, v);
    case SixMonthly => FillFF(Year, SemiyearNumber, v);
    case SixMonthlyApril => FillFTF(Year, "April", SemiyearNumber, v);
    case SixMonthlyNovember => FillFTF(Year, "Nov", SemiyearNumber, v);
    case Yearly =>
      FillF(Year, v);
      assert v.year + "" == v.year;
    case FinancialApril => FillFT(Year, "April", v);
    case FinancialJuly => FillFT(Year, "July", v);
    case FinancialOct => FillFT(Year, "Oct", v);
    case FinancialNov => FillFT(Year, "Nov", v);
    case Weekly => FillFTF(Year, "W", Week, v);
    case WeeklyWednesday => FillFTF(Year, "WedW", Week, v);
    case WeeklyThursday => FillFTF(Year, "ThuW", Week, v);
    case WeeklySaturday => FillFTF(Year, "SatW", Week, v);
    case WeeklySunday => FillFTF(Year, "SunW", Week, v);
    case BiWeekly => FillFTF(Year, "Bi", Week, v);
  }

  /** `get_period` fills the selected type's template with the week-based year, the week
      number and the start date's month and day. */
  lemma GetPeriodFills(periodType: string, start: Date)
    requires ValidDate(start)
    ensures GetPeriod(periodType, start)
         == match (WeekFromDate(start), PeriodTypeNamed(periodType))
            case (Some((y, w)), Some(p)) => Fill(Template(p), PeriodValues(y, w, start))
            case _ => None
  {
    if WeekFromDate(start).Some? && PeriodTypeNamed(periodType).Some? {
      var (y, w) := WeekFromDate(start).value;
      FormatRender(Template(PeriodTypeNamed(periodType).value), PeriodValues(y, w, start));
    }
  }

  /** `get_period` yields an identifier exactly for a key of `PERIOD_TYPES` other than the
      quarterly and six-monthly ones, on a date whose week can be numbered. */
  lemma GetPeriodDefined(periodType: string, start: Date)
    requires ValidDate(start)
    ensures GetPeriod(periodType, start).Some?
        <==> PeriodTypeNamed(periodType).Some? && !IsUnsupplied(PeriodTypeNamed(periodType).value)
             && WeekFromDate(start).Some?
  {
    GetPeriodFills(periodType, start);
    if WeekFromDate(start).Some? && PeriodTypeNamed(periodType).Some? {
      var (y, w) := WeekFromDate(start).value;
      FillTemplate(PeriodTypeNamed(periodType).value, PeriodValues(y, w, start));
    }
  }

  // ---- identifiers as DHIS2 reads them ----

  /** `get_period` with calendar-year, zero-padded dates: a non-weekly period is named
      after the calendar year of its start date with two-digit month and day, and only a
      weekly one is numbered by weeks (no other template reads the week). */
  function IntendedPeriod(periodType: string, start: Date): Option<string>
    requires ValidDate(start)
  {
    match PeriodTypeNamed(periodType)
    case None => None
    case Some(p) =>
      if IsWeekly(p) then GetPeriod(periodType, start)
      else Format(Render(Template(p)), Arguments(Values(IntToString(start.year), PadTwo(start.month), PadTwo(start.day), "")))
  }

  /** The intended daily identifier is `yyyyMMdd` of the start date itself. */
  lemma IntendedDaily(start: Date)
    requires ValidDate(start) && start.year >= 1000
    ensures IntendedPeriod("Daily", start) == Some(PadFour(start.year) + PadTwo(start.month) + PadTwo(start.day))
  {
    var v := Values(IntToString(start.year), PadTwo(start.month), PadTwo(start.day), "");
    FormatRender(Template(Daily), v);
    FillTemplate(Daily, v);
    NatToStringFourDigits(start.year);
  }

  /** Distinct start dates get distinct intended daily identifiers. */
  lemma IntendedDailyInjective(a: Date, b: Date)
    requires ValidDate(a) && a.year >= 1000 && ValidDate(b) && b.year >= 1000
    requires IntendedPeriod("Daily", a) == IntendedPeriod("Daily", b)
    ensures a == b
  {
    IntendedDaily(a);
    IntendedDaily(b);
    var sa := PadFour(a.year) + PadTwo(a.month) + PadTwo(a.day);
    var sb := PadFour(b.year) + PadTwo(b.month) + PadTwo(b.day);
    assert sa == sb;
    assert sa[..4] == PadFour(a.year) && sb[..4] == PadFour(b.year);
    assert sa[4..6] == PadTwo(a.month) && sb[4..6] == PadTwo(b.month);
    assert sa[6..] == PadTwo(a.day) && sb[6..] == PadTwo(b.day);
  }

  /** A daily identifier is the week-based year, then the month and the day of the start
      date, all three unpadded. */
  lemma DailyPeriod(start: Date, year: int, week: int)
    requires ValidDate(start) && WeekFromDate(start) == Some((year, week))
    ensures GetPeriod("Daily", start) == Some(IntToString(year) + IntToString(start.month) + IntToString(start.day))
  {
    GetPeriodFills("Daily", start);
    FillTemplate(Daily, PeriodValues(year, week, start));
  }

  /** Three dates of 2024 and their weeks; the last already lies in week 1 of 2025. */
  lemma WeeksOf2024()
    ensures WeekFromDate(Date(2024, 1, 15)) == Some((2024, 3))
    ensures WeekFromDate(Date(2024, 11, 5)) == Some((2024, 45))
    ensures WeekFromDate(Date(2024, 12, 31)) == Some((2025, 1))
  {
    assert NewYear(2024) == 738886 && Weekday(Date(2024, 1, 1)) == 0;
    assert Week1StartOrdinal(2024) == 738885;
    assert NewYear(2025) == 739252 && Weekday(Date(2025, 1, 1)) == 2;
    assert Week1StartOrdinal(2025) == 739249;
    assert ToOrdinal(Date(2024, 1, 15)) == 738900;
    assert ToOrdinal(Date(2024, 11, 5)) == 739195;
    assert ToOrdinal(Date(2024, 12, 31)) == 739251;
  }

  /** The unpadded renderings the daily identifiers of those dates are made of. */
  lemma DigitsOfDates()
    ensures IntToString(2024) + IntToString(1) + IntToString(15) == "2024115"
    ensures IntToString(2024) + IntToString(11) + IntToString(5) == "2024115"
    ensures IntToString(2025) + IntToString(12) + IntToString(31) == "20251231"
  {
    DigitsOfYears();
    DigitsOfMonthsAndDays();
    assert "2024" + "1" + "15" == "2024115";
    assert "2024" + "11" + "5" == "2024115";
    assert "2025" + "12" + "31" == "20251231";
  }

  lemma DigitsOfYears()
    ensures IntToString(2024) == "2024" && IntToString(2025) == "2025"
  {
  }

  lemma DigitsOfMonthsAndDays()
    ensures IntToString(1) == "1" && IntToString(5) == "5"
    ensures IntToString(11) == "11" && IntToString(12) == "12"
    ensures IntToString(15) == "15" && IntToString(31) == "31"
  {
  }

  /** As written, 15 January and 5 November of 2024 share a daily identifier. */
  lemma DailyPeriodCollision(a: Date, b: Date)
    requires a == Date(2024, 1, 15) && b == Date(2024, 11, 5)
    ensures ValidDate(a) && ValidDate(b) && a != b
    ensures GetPeriod("Daily", a) == GetPeriod("Daily", b) == Some("2024115")
  {
    WeeksOf2024();
    DailyPeriod(a, 2024, 3);
    DailyPeriod(b, 2024, 45);
    DigitsOfDates();
  }

  /** As written, 31 December 2024 lies in week 1 of 2025 and its daily identifier names
      December 2025. */
  lemma DailyPeriodWrongYear(d: Date)
    requires d == Date(2024, 12, 31)
    ensures ValidDate(d) && GetPeriod("Daily", d) == Some("20251231")
  {
    WeeksOf2024();
    DailyPeriod(d, 2025, 1);
    DigitsOfDates();
  }
}
