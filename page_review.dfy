/** The review bookkeeping of the app: every recognised table carries the label of its
    page ("1", "2", ...); confirming a page appends the reviewed mark to the labels of all
    its tables, and key-value generation is enabled once every label carries the mark. */
module PageReview {
  import opened Wrappers
  import opened Text

  /** `PAGE_REVIEWED_INDICATOR`, the check mark U+2713. */
  const Reviewed: char := '\U{2713}'

  /** `label.endswith(PAGE_REVIEWED_INDICATOR)`. */
  predicate EndsReviewed(entry: string)
  {
    |entry| > 0 && entry[|entry| - 1] == Reviewed
  }

  /** The label with the reviewed mark appended after a blank. */
  function Marked(entry: string): string
  {
    entry + " " + [Reviewed]
  }

  // ---- reading a label back as a page number ----

  /** `s.replace(PAGE_REVIEWED_INDICATOR, "")`. */
  function RemoveMarks(s: string): (r: string)
    ensures forall i :: 0 <= i < |r| ==> r[i] != Reviewed
  {
    if |s| == 0 then ""
    else RemoveMarks(s[..|s| - 1]) + (if s[|s| - 1] == Reviewed then "" else [s[|s| - 1]])
  }

  lemma {:induction false} RemoveMarksAppend(s: string, t: string)
    ensures RemoveMarks(s + t) == RemoveMarks(s) + RemoveMarks(t)
    decreases |t|
  {
    if |t| == 0 {
      assert s + t == s;
    } else {
      assert (s + t)[..|s + t| - 1] == s + t[..|t| - 1];
      RemoveMarksAppend(s, t[..|t| - 1]);
    }
  }

  /** `int(s)` on a string of decimal digits; `None` is its ValueError otherwise. */
  function ParseNat(s: string): (r: Option<nat>)
    ensures r.Some? <==> |s| > 0 && AllDigits(s)
  {
    if |s| > 0 && AllDigits(s) then Some(DigitsValue(s)) else None
  }

  /** The page a label names: the label without marks and surrounding blanks, read as a
      number. */
  function PageNumber(entry: string): Option<nat>
  {
    ParseNat(Strip(RemoveMarks(entry)))
  }

  /** A trailing blank survives the left strip only if something else is left. */
  lemma {:induction false} StripLeftSpace(s: string, c: char)
    requires IsSpace(c)
    ensures StripLeft(s + [c]) == if StripLeft(s) == [] then [] else StripLeft(s) + [c]
    decreases |s|
  {
    if s == [] {
      assert [c][1..] == [];
    } else {
      assert (s + [c])[0] == s[0];
      if IsSpace(s[0]) {
        assert (s + [c])[1..] == s[1..] + [c];
        StripLeftSpace(s[1..], c);
      }
    }
  }

  /** Stripping ignores one more trailing blank. */
  lemma StripSpace(s: string, c: char)
    requires IsSpace(c)
    ensures Strip(s + [c]) == Strip(s)
  {
    StripLeftSpace(s, c);
    var l := StripLeft(s);
    if l != [] {
      assert (l + [c])[..|l|] == l;
    }
  }

  /** Marking a label does not change the page it names. */
  lemma MarkedKeepsPage(entry: string)
    ensures PageNumber(Marked(entry)) == PageNumber(entry)
  {
    RemoveMarksAppend(entry + " ", [Reviewed]);
    RemoveMarksAppend(entry, " ");
    assert RemoveMarks([Reviewed]) == "" by {
      assert [Reviewed][..0] == [];
    }
    assert RemoveMarks(" ") == " " by {
      assert " "[..0] == [];
    }
    assert RemoveMarks(Marked(entry)) == RemoveMarks(entry) + " ";
    StripSpace(RemoveMarks(entry), ' ');
  }

  /** The label of page k as the app first writes it, `str(k)`. */
  lemma PageLabelNumber(k: nat)
    ensures PageNumber(NatToString(k)) == Some(k)
  {
    var s := NatToString(k);
    assert RemoveMarks(s) == s by {
      NoMarksUnchanged(s);
    }
    assert !IsSpace(s[0]) && !IsSpace(s[|s| - 1]) by {
      assert IsDigit(s[0]) && IsDigit(s[|s| - 1]);
    }
    assert StripLeft(s) == s;
    assert StripRight(s) == s;
    NatToStringRoundTrip(k);
  }

  lemma {:induction false} NoMarksUnchanged(s: string)
    requires AllDigits(s)
    ensures RemoveMarks(s) == s
    decreases |s|
  {
    if |s| > 0 {
      NoMarksUnchanged(s[..|s| - 1]);
    }
  }

  // ---- the page selector ----

  /** The page a label is sorted by; labels without a number only occur when the whole
      selection fails. */
  function PageKey(entry: string): nat
  {
    match PageNumber(entry)
    case None => 0
    case Some(n) => n
  }

  predicate Numbered(entries: seq<string>)
  {
    forall i :: 0 <= i < |entries| ==> PageNumber(entries[i]).Some?
  }

  predicate SortedByPage(entries: seq<string>)
  {
    Ascending(PageKey, entries)
  }

  /** Every label's key is at most the next one's. */
  predicate Ascending(key: string -> nat, entries: seq<string>)
  {
    forall i :: 0 < i < |entries| ==> key(entries[i - 1]) <= key(entries[i])
  }

  predicate NoDuplicates(entries: seq<string>)
  {
    forall i, j :: 0 <= i < j < |entries| ==> entries[i] != entries[j]
  }

  /** The distinct labels in order of first occurrence. */
  function Distinct(entries: seq<string>): (r: seq<string>)
    ensures NoDuplicates(r)
    ensures forall x :: x in r <==> x in entries
  {
    if |entries| == 0 then []
    else
      var d := Distinct(entries[..|entries| - 1]);
      var last := entries[|entries| - 1];
      assert forall x :: x in entries <==> x in entries[..|entries| - 1] || x == last;
      if last in d then d else d + [last]
  }

  /** Puts a label after every label of a page not above its own. */
  function InsertByPage(sorted: seq<string>, entry: string): (r: seq<string>)
    ensures multiset(r) == multiset(sorted) + multiset{entry}
    ensures |r| > 0 && (r[0] == entry || (|sorted| > 0 && r[0] == sorted[0]))
  {
    if |sorted| == 0 then [entry]
    else if PageKey(sorted[0]) <= PageKey(entry) then
      (assert sorted == [sorted[0]] + sorted[1..]; [sorted[0]] + InsertByPage(sorted[1..], entry))
    else [entry] + sorted
  }

  lemma {:induction false} InsertByPageSorted(sorted: seq<string>, entry: string)
    requires SortedByPage(sorted)
    ensures SortedByPage(InsertByPage(sorted, entry))
  {
    if |sorted| == 0 {
    } else if PageKey(sorted[0]) <= PageKey(entry) {
      SortedTail(sorted);
      InsertByPageSorted(sorted[1..], entry);
      var rest := InsertByPage(sorted[1..], entry);
      assert rest[0] == entry || (|sorted| > 1 && rest[0] == sorted[1]);
      SortedCons(sorted[0], rest);
    } else {
      SortedCons(entry, sorted);
    }
  }

  /** Dropping the first label keeps the order. */
  lemma SortedTail(s: seq<string>)
    requires |s| > 0 && SortedByPage(s)
    ensures SortedByPage(s[1..])
  {
    AscendingTail(PageKey, s);
  }

  lemma AscendingTail(key: string -> nat, s: seq<string>)
    requires |s| > 0 && Ascending(key, s)
    ensures Ascending(key, s[1..])
  {
    forall i | 0 < i < |s[1..]| ensures key(s[1..][i - 1]) <= key(s[1..][i]) {
      assert s[1..][i - 1] == s[i] && s[1..][i] == s[i + 1];
    }
  }

  /** A label not above the first of an ordered list can go in front of it. */
  lemma SortedCons(head: string, s: seq<string>)
    requires SortedByPage(s) && (|s| > 0 ==> PageKey(head) <= PageKey(s[0]))
    ensures SortedByPage([head] + s)
  {
    AscendingCons(PageKey, head, s);
  }

  lemma AscendingCons(key: string -> nat, head: string, s: seq<string>)
    requires Ascending(key, s) && (|s| > 0 ==> key(head) <= key(s[0]))
    ensures Ascending(key, [head] + s)
  {
    forall i | 0 < i < |[head] + s| ensures key(([head] + s)[i - 1]) <= key(([head] + s)[i]) {
      if i > 1 {
        assert ([head] + s)[i - 1] == s[i - 2] && ([head] + s)[i] == s[i - 1];
      }
    }
  }

  /** Python's `sorted` with the page number as key. */
  function SortByPage(entries: seq<string>): (r: seq<string>)
    ensures multiset(r) == multiset(entries)
  {
    if |entries| == 0 then []
    else (assert entries == [entries[0]] + entries[1..]; InsertByPage(SortByPage(entries[1..]), entries[0]))
  }

  lemma {:induction false} SortByPageSorted(entries: seq<string>)
    ensures SortedByPage(SortByPage(entries))
  {
    if |entries| > 0 {
      SortByPageSorted(entries[1..]);
      InsertByPageSorted(SortByPage(entries[1..]), entries[0]);
    }
  }

  /** The options of the page selector: each label once, ordered by page number; `None`
      is the ValueError of a label that does not name a page. */
  function PageOptions(entries: seq<string>): Option<seq<string>>
  {
    if Numbered(entries) then Some(SortByPage(Distinct(entries))) else None
  }

  /** The options hold every label exactly once, in ascending page order. */
  lemma PageOptionsSpec(entries: seq<string>)
    ensures PageOptions(entries).Some? <==> Numbered(entries)
    ensures PageOptions(entries).Some? ==>
      var opts := PageOptions(entries).value;
      SortedByPage(opts) && NoDuplicates(opts) && forall x :: x in opts <==> x in entries
  {
    if Numbered(entries) {
      var d := Distinct(entries);
      SortByPageSorted(d);
      PermutationKeepsDistinct(d, SortByPage(d));
    }
  }

  /** Reordering keeps the members and keeps them free of duplicates. */
  lemma PermutationKeepsDistinct(d: seq<string>, p: seq<string>)
    requires NoDuplicates(d) && multiset(p) == multiset(d)
    ensures NoDuplicates(p)
    ensures forall x :: x in p <==> x in d
  {
    forall x ensures x in p <==> x in d {
      assert x in p <==> x in multiset(p);
      assert x in d <==> x in multiset(d);
    }
    forall i, j | 0 <= i < j < |p| ensures p[i] != p[j] {
      if p[i] == p[j] {
        TwiceCounted(p, i, j);
        DistinctOnce(d, p[i]);
      }
    }
  }

  /** Two positions holding the same label make it count twice. */
  lemma TwiceCounted(p: seq<string>, i: nat, j: nat)
    requires i < j < |p| && p[i] == p[j]
    ensures multiset(p)[p[i]] >= 2
  {
    assert p == p[..j] + p[j..];
    assert p[i] == p[..j][i];
    assert p[j] == p[j..][0];
  }

  /** A label occurs at most once in a sequence without duplicates. */
  lemma {:induction false} DistinctOnce(d: seq<string>, x: string)
    requires NoDuplicates(d)
    ensures multiset(d)[x] <= 1
  {
    if |d| > 0 {
      assert d == [d[0]] + d[1..];
      assert NoDuplicates(d[1..]) by {
        forall i, j | 0 <= i < j < |d[1..]| ensures d[1..][i] != d[1..][j] {
          assert d[1..][i] == d[i + 1] && d[1..][j] == d[j + 1];
        }
      }
      DistinctOnce(d[1..], x);
      if x == d[0] {
        assert x !in d[1..];
      }
    }
  }

  /** The page preselected in the selector: the first option not yet reviewed, or the
      first option when every page is reviewed. */
  function CurrentPage(options: seq<string>): (k: nat)
    ensures k == 0 || k < |options|
    ensures k < |options| && !EndsReviewed(options[k]) ==> forall i :: 0 <= i < k ==> EndsReviewed(options[i])
    ensures (exists i :: 0 <= i < |options| && !EndsReviewed(options[i])) ==> !EndsReviewed(options[k])
    ensures (forall i :: 0 <= i < |options| ==> EndsReviewed(options[i])) ==> k == 0
  {
    if |options| == 0 || !EndsReviewed(options[0]) then 0
    else
      var rest := CurrentPage(options[1..]);
      if rest == 0 && (|options| == 1 || EndsReviewed(options[1])) then
        (assert forall i :: 0 < i < |options| ==> options[i] == options[1..][i - 1]; 0)
      else
        (assert forall i :: 0 < i <= rest ==> options[i] == options[1..][i - 1]; 1 + rest)
  }

  // ---- confirming a page ----

  /** "Confirm data": every label equal to the selected one that is not yet marked gets
      the mark; every other label is kept. */
  function Confirm(entries: seq<string>, selected: string): (r: seq<string>)
    ensures |r| == |entries|
    ensures forall i :: 0 <= i < |entries| && entries[i] == selected ==> EndsReviewed(r[i])
    ensures forall i :: 0 <= i < |entries| && (entries[i] != selected || EndsReviewed(entries[i])) ==> r[i] == entries[i]
  {
    seq(|entries|, i requires 0 <= i < |entries| =>
      if entries[i] == selected && !EndsReviewed(entries[i]) then Marked(entries[i]) else entries[i])
  }

  /** A confirmation leaves the page every label names as it was. */
  lemma ConfirmKeepsPages(entries: seq<string>, selected: string)
    ensures forall i :: 0 <= i < |entries| ==> PageNumber(Confirm(entries, selected)[i]) == PageNumber(entries[i])
  {
    var r := Confirm(entries, selected);
    forall i | 0 <= i < |entries| ensures PageNumber(r[i]) == PageNumber(entries[i]) {
      if r[i] != entries[i] {
        MarkedKeepsPage(entries[i]);
      }
    }
  }

  /** `all(label.endswith(PAGE_REVIEWED_INDICATOR) for label in labels)`. */
  predicate PagesConfirmed(entries: seq<string>)
  {
    forall i :: 0 <= i < |entries| ==> EndsReviewed(entries[i])
  }

  /** After a confirmation every page is reviewed exactly when every label was already
      reviewed or belongs to the selected page. */
  lemma ConfirmCompletes(entries: seq<string>, selected: string)
    ensures PagesConfirmed(Confirm(entries, selected))
        <==> forall i :: 0 <= i < |entries| ==> entries[i] == selected || EndsReviewed(entries[i])
  {
    var r := Confirm(entries, selected);
    if PagesConfirmed(r) {
      forall i | 0 <= i < |entries| ensures entries[i] == selected || EndsReviewed(entries[i]) {
        assert EndsReviewed(r[i]);
      }
    }
  }

  /** Confirming the same page twice changes nothing the second time. */
  lemma ConfirmIdempotent(entries: seq<string>, selected: string)
    ensures Confirm(Confirm(entries, selected), selected) == Confirm(entries, selected)
  {
    var r := Confirm(entries, selected);
    var rr := Confirm(r, selected);
    forall i | 0 <= i < |entries| ensures rr[i] == r[i] {
    }
  }
}
