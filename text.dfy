/** String helpers shared by the model: decimal digits, Python's whitespace,
    `str(int)`, `str.strip`, `" ".join` and `re.split(r'[ \n]+', ...)`. Only the
    ASCII repertoire of digits and whitespace is modelled. */
module Text {

  predicate IsDigit(c: char) { '0' <= c <= '9' }

  function DigitValue(c: char): (d: nat)
    requires IsDigit(c)
    ensures d < 10
  {
    c as int - '0' as int
  }

  function DigitChar(d: nat): (c: char)
    requires d < 10
    ensures IsDigit(c) && DigitValue(c) == d
  {
    ('0' as int + d) as char
  }

  predicate AllDigits(s: string) { forall i :: 0 <= i < |s| ==> IsDigit(s[i]) }

  /** The value of a string of decimal digits, most significant first. */
  function DigitsValue(s: string): nat
    requires AllDigits(s)
  {
    if s == [] then 0 else DigitsValue(s[..|s| - 1]) * 10 + DigitValue(s[|s| - 1])
  }

  /** Python's `str(n)` for a non-negative integer. */
  function NatToString(n: nat): (s: string)
    ensures |s| >= 1 && AllDigits(s)
    ensures s[0] == '0' ==> n == 0
  {
    if n < 10 then [DigitChar(n)] else NatToString(n / 10) + [DigitChar(n % 10)]
  }

  /** `str(n)` can be read back: the decimal rendering is the inverse of parsing digits. */
  lemma {:induction false} NatToStringRoundTrip(n: nat)
    ensures DigitsValue(NatToString(n)) == n
  {
    var s := NatToString(n);
    if n >= 10 {
      NatToStringRoundTrip(n / 10);
      assert s[..|s| - 1] == NatToString(n / 10);
    }
  }

  /** A number of four digits is written with exactly four characters. */
  lemma NatToStringFourDigits(n: nat)
    requires 1000 <= n <= 9999
    ensures NatToString(n) == PadFour(n)
  {
    assert n / 10 / 10 == n / 100 && n / 100 / 10 == n / 1000;
    assert NatToString(n / 100) == [DigitChar(n / 1000), DigitChar(n / 100 % 10)];
  }

  /** A number below 1000 is written with at most three characters. */
  lemma NatToStringShort(n: nat)
    requires n < 1000
    ensures |NatToString(n)| <= 3
  {
    if n >= 10 {
      assert n / 10 < 100;
      assert |NatToString(n / 10)| <= 2 by {
        if n / 10 >= 10 { assert |NatToString(n / 10 / 10)| == 1; }
      }
    }
  }

  /** Below 10000, `str(n)` has four characters exactly when n is at least 1000. */
  lemma NatToStringLengthFour(n: nat)
    requires n <= 9999
    ensures |NatToString(n)| == 4 <==> n >= 1000
  {
    if n >= 1000 { NatToStringFourDigits(n); } else { NatToStringShort(n); }
  }

  /** Python's `str(i)` for any integer. */
  function IntToString(i: int): (s: string)
    ensures |s| >= 1
  {
    if i < 0 then "-" + NatToString(-i) else NatToString(i)
  }

  /** A number rendered with exactly two digits, as strftime's `%m` and `%d` do. */
  function PadTwo(n: nat): (s: string)
    requires n < 100
    ensures |s| == 2 && AllDigits(s) && DigitsValue(s) == n
  {
    var s := [DigitChar(n / 10), DigitChar(n % 10)];
    assert s[..1] == [DigitChar(n / 10)];
    assert DigitsValue(s[..1]) == n / 10 by { assert s[..1][..0] == []; }
    s
  }

  /** A number rendered with exactly four digits. */
  function PadFour(n: nat): (s: string)
    requires n < 10000
    ensures |s| == 4 && AllDigits(s) && DigitsValue(s) == n
  {
    FourDigitSplit(n);
    FourDigitsValue(n / 1000, n / 100 % 10, n / 10 % 10, n % 10);
    [DigitChar(n / 1000), DigitChar(n / 100 % 10), DigitChar(n / 10 % 10), DigitChar(n % 10)]
  }

  /** A number below 10000 is the sum of its four decimal digits' place values. */
  lemma FourDigitSplit(n: nat)
    requires n < 10000
    ensures n / 1000 < 10
    ensures n == 1000 * (n / 1000) + 100 * (n / 100 % 10) + 10 * (n / 10 % 10) + n % 10
  {
    assert n / 10 / 10 == n / 100;
    assert n / 100 / 10 == n / 1000;
  }

  /** Four digits read back as the number they spell. */
  lemma FourDigitsValue(a: nat, b: nat, c: nat, d: nat)
    requires a < 10 && b < 10 && c < 10 && d < 10
    ensures var s := [DigitChar(a), DigitChar(b), DigitChar(c), DigitChar(d)];
      AllDigits(s) && DigitsValue(s) == 1000 * a + 100 * b + 10 * c + d
  {
    var s := [DigitChar(a), DigitChar(b), DigitChar(c), DigitChar(d)];
    assert s[..3][..2][..1][..0] == [];
    assert s[..3][..2][..1] == s[..1];
    assert s[..3][..2] == s[..2];
    assert DigitsValue(s[..1]) == a;
    assert DigitsValue(s[..2]) == 10 * a + b;
    assert DigitsValue(s[..3]) == 100 * a + 10 * b + c;
  }

  /** The ASCII characters that Python's `str.isspace` and the regex class `\s` accept. */
  predicate IsSpace(c: char)
  {
    c == ' ' || c == '\t' || c == '\n' || c == '\r' || c == '\U{000B}' || c == '\U{000C}' ||
    ('\U{001C}' <= c <= '\U{001F}')
  }

  function StripLeft(s: string): (r: string)
    ensures |r| <= |s| && r == s[|s| - |r|..]
    ensures r != [] ==> !IsSpace(r[0])
    ensures forall i :: 0 <= i < |s| - |r| ==> IsSpace(s[i])
  {
    if s != [] && IsSpace(s[0]) then StripLeft(s[1..]) else s
  }

  function StripRight(s: string): (r: string)
    ensures |r| <= |s| && r == s[..|r|]
    ensures r != [] ==> !IsSpace(r[|r| - 1])
    ensures forall i :: |r| <= i < |s| ==> IsSpace(s[i])
  {
    if s != [] && IsSpace(s[|s| - 1]) then StripRight(s[..|s| - 1]) else s
  }

  /** Python's `str.strip()` with no argument. */
  function Strip(s: string): string
  {
    StripRight(StripLeft(s))
  }

  /** ASCII lower-casing, the part of Python's case-insensitive matching modelled here. */
  function ToLower(c: char): char
  {
    if 'A' <= c <= 'Z' then (c as int - 'A' as int + 'a' as int) as char else c
  }

  function LowerString(s: string): (r: string)
    ensures |r| == |s|
    ensures forall i :: 0 <= i < |s| ==> r[i] == ToLower(s[i])
  {
    if s == [] then [] else [ToLower(s[0])] + LowerString(s[1..])
  }

  predicate EndsWith(s: string, suffix: string)
  {
    |suffix| <= |s| && s[|s| - |suffix|..] == suffix
  }

  /** Python's `sep.join(parts)`. */
  function Join(parts: seq<string>, sep: string): string
  {
    if parts == [] then ""
    else if |parts| == 1 then parts[0]
    else Join(parts[..|parts| - 1], sep) + sep + parts[|parts| - 1]
  }

  predicate IsBlankOrNewline(c: char) { c == ' ' || c == '\n' }

  /** Length of the run of blanks and newlines at the start of `s`. */
  function SeparatorRun(s: string): (n: nat)
    ensures n <= |s|
    ensures forall i :: 0 <= i < n ==> IsBlankOrNewline(s[i])
    ensures n < |s| ==> !IsBlankOrNewline(s[n])
  {
    if s != [] && IsBlankOrNewline(s[0]) then 1 + SeparatorRun(s[1..]) else 0
  }

  /** Index of the first blank or newline in `s`, or |s| when there is none. */
  function FirstSeparator(s: string): (k: nat)
    ensures k <= |s|
    ensures forall i :: 0 <= i < k ==> !IsBlankOrNewline(s[i])
    ensures k < |s| ==> IsBlankOrNewline(s[k])
  {
    if s == [] || IsBlankOrNewline(s[0]) then 0 else 1 + FirstSeparator(s[1..])
  }

  /** Python's `re.split(r'[ \n]+', s)`: the pieces between maximal runs of blanks and
      newlines, including an empty first (last) piece when `s` starts (ends) with one. */
  function SplitWords(s: string): (parts: seq<string>)
    ensures |parts| >= 1
    decreases |s|
  {
    var k := FirstSeparator(s);
    if k == |s| then [s]
    else
      var rest := s[k..];
      var run := SeparatorRun(rest);
      [s[..k]] + SplitWords(rest[run..])
  }

  /** No piece holds a blank or a newline. */
  lemma {:induction false} SplitWordsPieces(s: string)
    ensures forall i, j :: 0 <= i < |SplitWords(s)| && 0 <= j < |SplitWords(s)[i]| ==> !IsBlankOrNewline(SplitWords(s)[i][j])
    decreases |s|
  {
    var k := FirstSeparator(s);
    if k < |s| {
      var rest := s[k..];
      var run := SeparatorRun(rest);
      SplitWordsPieces(rest[run..]);
      var parts := SplitWords(s);
      assert parts == [s[..k]] + SplitWords(rest[run..]);
      forall i, j | 0 <= i < |parts| && 0 <= j < |parts[i]| ensures !IsBlankOrNewline(parts[i][j]) {
        if i > 0 {
          assert parts[i] == SplitWords(rest[run..])[i - 1];
        }
      }
    }
  }

  /** Words without blanks or newlines, joined by single blanks, split back into the same
      words. */
  lemma {:induction false} SplitJoin(ws: seq<string>)
    requires |ws| >= 1
    requires forall i :: 0 <= i < |ws| ==> ws[i] != "" && NoSeparator(ws[i])
    ensures SplitWords(Join(ws, " ")) == ws
    decreases |ws|
  {
    if |ws| == 1 {
      assert Join(ws, " ") == ws[0];
      assert FirstSeparator(ws[0]) == |ws[0]|;
    } else {
      var a, tail := ws[0], ws[1..];
      var j := Join(tail, " ");
      JoinCons(a, tail, " ");
      assert ws == [a] + tail;
      JoinStart(tail, " ");
      var s := a + " " + j;
      assert FirstSeparator(s) == |a| by {
        assert s[|a|] == ' ';
        assert forall i :: 0 <= i < |a| ==> s[i] == a[i];
      }
      var rest := s[|a|..];
      assert rest == " " + j;
      assert SeparatorRun(rest) == 1 by {
        assert rest[1] == j[0] == tail[0][0];
      }
      assert rest[1..] == j;
      assert s[..|a|] == a;
      SplitJoin(tail);
    }
  }

  predicate NoSeparator(w: string)
  {
    forall i :: 0 <= i < |w| ==> !IsBlankOrNewline(w[i])
  }

  /** `sep.join` read from the front. */
  lemma {:induction false} JoinCons(a: string, ws: seq<string>, sep: string)
    requires |ws| >= 1
    ensures Join([a] + ws, sep) == a + sep + Join(ws, sep)
    decreases |ws|
  {
    var all := [a] + ws;
    if |ws| == 1 {
      assert all[..1] == [a];
    } else {
      var init := ws[..|ws| - 1];
      JoinCons(a, init, sep);
      assert all[..|all| - 1] == [a] + init;
      assert all[|all| - 1] == ws[|ws| - 1];
    }
  }

  /** A join starts with its first part. */
  lemma JoinStart(ws: seq<string>, sep: string)
    requires |ws| >= 1
    ensures |ws[0]| <= |Join(ws, sep)| && Join(ws, sep)[..|ws[0]|] == ws[0]
  {
    if |ws| > 1 {
      JoinCons(ws[0], ws[1..], sep);
      assert ws == [ws[0]] + ws[1..];
    }
  }
}
