/** Period discovery (`listar_trimestres_disponiveis`): the working
    directory's sub-directories named like "1T2025" are reporting periods;
    the three most recent ones, newest first, are processed. The directory
    listing itself is an input. */
module Discovery {
  import opened Wrappers
  import opened Text
  import Sorting
  import opened Grouping

  /** A reporting period, year and quarter kept as the strings the
      directory name spells them with. */
  datatype Period = Period(year: string, quarter: string)

  /** One entry of the directory listing. */
  datatype DirEntry = DirEntry(name: string, isDir: bool)

  /** How many periods are kept. */
  const MaxPeriods: nat := 3

  /** A quarter of one digit and a year of four digits. */
  predicate WellFormed(p: Period) {
    |p.quarter| == 1 && |p.year| == 4 && AllDigits(p.quarter) && AllDigits(p.year)
  }

  /** `re.match(r'(\d)T(\d{4})', name)`: anchored at the start of the name,
      any text may follow; group 1 is the quarter, group 2 the year. */
  function MatchPeriod(name: string): Option<Period>
  {
    if |name| >= 6 && IsDigit(name[0]) && name[1] == 'T' && AllDigits(name[2..6])
    then Some(Period(name[2..6], name[..1]))
    else None
  }

  /** The directory naming convention "<quarter>T<year>". */
  function DirName(p: Period): string {
    p.quarter + "T" + p.year
  }

  /** Every name that starts with a well-formed period's directory name
      matches, whatever follows it, and yields that period. */
  lemma MatchDirName(p: Period, suffix: string)
    requires WellFormed(p)
    ensures MatchPeriod(DirName(p) + suffix) == Some(p)
  {
    var name := DirName(p) + suffix;
    assert name[2..6] == p.year;
    assert name[..1] == p.quarter;
  }

  /** Conversely, a match is well-formed and the name starts with its
      directory name. */
  lemma MatchPeriodSound(name: string)
    requires MatchPeriod(name).Some?
    ensures WellFormed(MatchPeriod(name).value)
    ensures name == DirName(MatchPeriod(name).value) + name[6..]
  {
    var p := MatchPeriod(name).value;
    assert name == name[..1] + "T" + name[2..6] + name[6..];
  }

  /** The periods of the matching directories, in listing order. */
  function Matched(entries: seq<DirEntry>): seq<Period>
  {
    if |entries| == 0 then []
    else
      var e := entries[0];
      (if e.isDir && MatchPeriod(e.name).Some? then [MatchPeriod(e.name).value] else [])
        + Matched(entries[1..])
  }

  lemma {:induction false} MatchedSpec(entries: seq<DirEntry>, p: Period)
    ensures p in Matched(entries) <==>
              exists e :: e in entries && e.isDir && MatchPeriod(e.name) == Some(p)
  {
    if |entries| > 0 {
      MatchedSpec(entries[1..], p);
      assert forall e :: e in entries <==> e == entries[0] || e in entries[1..];
    }
  }

  /** Python's tuple order `(year, quarter) <= (year', quarter')` on strings. */
  predicate PeriodLe(p: Period, q: Period) {
    || (LexLe(p.year, q.year) && p.year != q.year)
    || (p.year == q.year && LexLe(p.quarter, q.quarter))
  }

  /** `sorted(..., reverse=True)`: `a` may precede `b` when `a >= b`. */
  predicate NewestFirst(a: Period, b: Period) {
    PeriodLe(b, a)
  }

  lemma NewestFirstTotalPreorder()
    ensures Sorting.TotalPreorder(NewestFirst)
  {
    forall a: Period, b: Period
      ensures NewestFirst(a, b) || NewestFirst(b, a)
    {
      LexLeTotal(a.year, b.year);
      LexLeTotal(a.quarter, b.quarter);
    }
    forall a: Period, b: Period, c: Period | NewestFirst(a, b) && NewestFirst(b, c)
      ensures NewestFirst(a, c)
    {
      if LexLe(c.year, b.year) && LexLe(b.year, a.year) {
        LexLeTransitive(c.year, b.year, a.year);
        if c.year == a.year {
          LexLeAntisymmetric(c.year, b.year);
        }
      }
      if b.year == a.year && c.year == b.year {
        LexLeTransitive(c.quarter, b.quarter, a.quarter);
      }
    }
  }

  /** The periods to process: newest first, at most three. */
  function Discover(entries: seq<DirEntry>): seq<Period>
  {
    var sorted := Sorting.Sort(Matched(entries), NewestFirst);
    sorted[..if |sorted| < MaxPeriods then |sorted| else MaxPeriods]
  }

  /** Discovery returns min(3, #matches) periods, newest first, each taken
      from a matching directory and never more often than it matched, and
      no skipped period is newer than the last one returned. */
  lemma DiscoverSpec(entries: seq<DirEntry>)
    ensures var r := Discover(entries); var m := Matched(entries);
      && |r| == (if |m| < MaxPeriods then |m| else MaxPeriods)
      && (forall i, j :: 0 <= i < j < |r| ==> PeriodLe(r[j], r[i]))
      && (forall i :: 0 <= i < |r| ==>
            WellFormed(r[i]) && exists e :: e in entries && e.isDir && MatchPeriod(e.name) == Some(r[i]))
      && (forall p :: p in m && p !in r ==> |r| == MaxPeriods && PeriodLe(p, r[MaxPeriods - 1]))
      && multiset(r) <= multiset(m)
  {
    var r := Discover(entries);
    DiscoverOrdered(entries);
    DiscoverSubMultiset(entries);
    forall i | 0 <= i < |r|
      ensures WellFormed(r[i]) && exists e :: e in entries && e.isDir && MatchPeriod(e.name) == Some(r[i])
    {
      var e := DiscoverSound(entries, i);
    }
    forall p | p in Matched(entries) && p !in r
      ensures |r| == MaxPeriods && PeriodLe(p, r[MaxPeriods - 1])
    {
      DiscoverSkipped(entries, p);
    }
  }

  lemma DiscoverOrdered(entries: seq<DirEntry>)
    ensures var r := Discover(entries); var m := Matched(entries);
      && |r| == (if |m| < MaxPeriods then |m| else MaxPeriods)
      && (forall i, j :: 0 <= i < j < |r| ==> PeriodLe(r[j], r[i]))
  {
    NewestFirstTotalPreorder();
    Sorting.SortSorted(Matched(entries), NewestFirst);
  }

  /** The periods returned are some of the matches: each one occurs in the
      result at most as often as among the matches. */
  lemma DiscoverSubMultiset(entries: seq<DirEntry>)
    ensures multiset(Discover(entries)) <= multiset(Matched(entries))
  {
    var sorted := Sorting.Sort(Matched(entries), NewestFirst);
    var k := if |sorted| < MaxPeriods then |sorted| else MaxPeriods;
    assert sorted == sorted[..k] + sorted[k..];
    assert multiset(sorted) == multiset(sorted[..k]) + multiset(sorted[k..]);
  }

  /** The directory a returned period comes from. */
  lemma DiscoverSound(entries: seq<DirEntry>, i: nat) returns (e: DirEntry)
    requires i < |Discover(entries)|
    ensures var p := Discover(entries)[i];
      WellFormed(p) && e in entries && e.isDir && MatchPeriod(e.name) == Some(p)
  {
    var m := Matched(entries);
    var sorted := Sorting.Sort(m, NewestFirst);
    var p := Discover(entries)[i];
    assert p == sorted[i];
    assert p in multiset(sorted);
    assert p in m;
    MatchedSpec(entries, p);
    e :| e in entries && e.isDir && MatchPeriod(e.name) == Some(p);
    MatchPeriodSound(e.name);
  }

  /** A matched period left out comes after the three returned ones. */
  lemma DiscoverSkipped(entries: seq<DirEntry>, p: Period)
    requires p in Matched(entries) && p !in Discover(entries)
    ensures |Discover(entries)| == MaxPeriods && PeriodLe(p, Discover(entries)[MaxPeriods - 1])
  {
    var m := Matched(entries);
    var sorted := Sorting.Sort(m, NewestFirst);
    var r := Discover(entries);
    NewestFirstTotalPreorder();
    Sorting.SortSorted(m, NewestFirst);
    assert p in multiset(sorted);
    var k := Position(sorted, p);
    assert k >= |r|;
    assert NewestFirst(sorted[MaxPeriods - 1], sorted[k]);
  }

  /** A period's position on the calendar: year * 10 + quarter. */
  function Chronological(p: Period): nat
    requires WellFormed(p)
  {
    DigitsValue(p.year) * 10 + DigitsValue(p.quarter)
  }

  /** On well-formed periods the string order the program sorts by is the
      calendar order, so "newest first" really is newest first. */
  lemma {:induction false} PeriodLeIsChronological(p: Period, q: Period)
    requires WellFormed(p) && WellFormed(q)
    ensures PeriodLe(p, q) <==> Chronological(p) <= Chronological(q)
  {
    LexLeDigits(p.year, q.year);
    LexLeDigits(q.year, p.year);
    LexLeDigits(p.quarter, q.quarter);
    if LexLe(p.year, q.year) && LexLe(q.year, p.year) {
      LexLeAntisymmetric(p.year, q.year);
    }
    DigitsValueBound(p.quarter);
    DigitsValueBound(q.quarter);
    assert Pow10(1) == 10;
  }

  /** Four quarter directories (one with a suffix), a file and a
      non-matching directory yield the three newest quarters, newest first. */
  lemma DiscoverExample(entries: seq<DirEntry>)
    requires entries == [DirEntry("1T2025", true), DirEntry("4T2024_extra", true),
                         DirEntry("3T2025", true), DirEntry("2T2025.zip", false),
                         DirEntry("output", true), DirEntry("2T2025", true)]
    ensures Discover(entries) == [Period("2025", "3"), Period("2025", "2"), Period("2025", "1")]
  {
    MatchedExample();
    ExampleOrder();
    TopThree(entries, Period("2025", "1"), Period("2024", "4"), Period("2025", "3"), Period("2025", "2"));
  }

  lemma TopThree(entries: seq<DirEntry>, p1: Period, p4: Period, p3: Period, p2: Period)
    requires Matched(entries) == [p1, p4, p3, p2]
    requires NewestFirst(p1, p4) && !NewestFirst(p4, p3) && !NewestFirst(p1, p3)
    requires !NewestFirst(p4, p2) && !NewestFirst(p1, p2) && NewestFirst(p3, p2)
    ensures Discover(entries) == [p3, p2, p1]
  {
    SortExample(Matched(entries), p1, p4, p3, p2);
    FirstThree(entries, p1, p4, p3, p2);
  }

  lemma FirstThree(entries: seq<DirEntry>, p1: Period, p4: Period, p3: Period, p2: Period)
    requires Sorting.Sort(Matched(entries), NewestFirst) == [p3, p2, p1, p4]
    ensures Discover(entries) == [p3, p2, p1]
  {
  }

  lemma ExampleOrder()
    ensures NewestFirst(Period("2025", "1"), Period("2024", "4"))
    ensures !NewestFirst(Period("2024", "4"), Period("2025", "3"))
    ensures !NewestFirst(Period("2024", "4"), Period("2025", "2"))
    ensures !NewestFirst(Period("2025", "1"), Period("2025", "3"))
    ensures !NewestFirst(Period("2025", "1"), Period("2025", "2"))
    ensures NewestFirst(Period("2025", "3"), Period("2025", "2"))
  {
    assert LexLe("2024", "2025") && !LexLe("2025", "2024");
    assert !LexLe("3", "1") && !LexLe("2", "1") && LexLe("2", "3");
  }

  /** The stable sort of four concrete periods, from the order facts alone. */
  lemma SortExample(m: seq<Period>, p1: Period, p4: Period, p3: Period, p2: Period)
    requires m == [p1, p4, p3, p2]
    requires NewestFirst(p1, p4) && !NewestFirst(p4, p3) && !NewestFirst(p1, p3)
    requires !NewestFirst(p4, p2) && !NewestFirst(p1, p2) && NewestFirst(p3, p2)
    ensures Sorting.Sort(m, NewestFirst) == [p3, p2, p1, p4]
  {
    assert [p1, p4][..1] == [p1];
    assert Sorting.Sort([p1, p4], NewestFirst) == [p1, p4];
    assert [p1, p4, p3][..2] == [p1, p4];
    assert [p1][..0] == [];
    assert Sorting.Insert([p1], p3, NewestFirst) == [p3, p1];
    assert Sorting.Insert([p1, p4], p3, NewestFirst) == [p3, p1, p4];
    assert Sorting.Sort([p1, p4, p3], NewestFirst) == [p3, p1, p4];
    assert [p1, p4, p3, p2][..3] == [p1, p4, p3];
    assert [p3, p1, p4][..2] == [p3, p1];
    assert [p3, p1][..1] == [p3];
    assert Sorting.Insert([p3], p2, NewestFirst) == [p3, p2];
    assert Sorting.Insert([p3, p1], p2, NewestFirst) == [p3, p2, p1];
  }

  lemma MatchedExample()
    ensures Matched([DirEntry("1T2025", true), DirEntry("4T2024_extra", true),
                     DirEntry("3T2025", true), DirEntry("2T2025.zip", false),
                     DirEntry("output", true), DirEntry("2T2025", true)])
            == [Period("2025", "1"), Period("2024", "4"), Period("2025", "3"), Period("2025", "2")]
  {
    var e1 := DirEntry("1T2025", true);
    var t1 := [DirEntry("4T2024_extra", true), DirEntry("3T2025", true), DirEntry("2T2025.zip", false),
               DirEntry("output", true), DirEntry("2T2025", true)];
    MatchedLastFive();
    MatchedStep(e1, t1, Period("2025", "1"), "");
    assert [e1] + t1 == [DirEntry("1T2025", true), DirEntry("4T2024_extra", true),
                         DirEntry("3T2025", true), DirEntry("2T2025.zip", false),
                         DirEntry("output", true), DirEntry("2T2025", true)];
  }

  lemma MatchedLastFive()
    ensures Matched([DirEntry("4T2024_extra", true), DirEntry("3T2025", true), DirEntry("2T2025.zip", false),
                     DirEntry("output", true), DirEntry("2T2025", true)])
            == [Period("2024", "4"), Period("2025", "3"), Period("2025", "2")]
  {
    var e2 := DirEntry("4T2024_extra", true);
    var t2 := [DirEntry("3T2025", true), DirEntry("2T2025.zip", false),
               DirEntry("output", true), DirEntry("2T2025", true)];
    MatchedLastFour();
    MatchedStep(e2, t2, Period("2024", "4"), "_extra");
    assert [e2] + t2 == [DirEntry("4T2024_extra", true), DirEntry("3T2025", true), DirEntry("2T2025.zip", false),
                         DirEntry("output", true), DirEntry("2T2025", true)];
  }

  lemma MatchedLastFour()
    ensures Matched([DirEntry("3T2025", true), DirEntry("2T2025.zip", false),
                     DirEntry("output", true), DirEntry("2T2025", true)])
            == [Period("2025", "3"), Period("2025", "2")]
  {
    var e3, e4, e5, e6 := DirEntry("3T2025", true), DirEntry("2T2025.zip", false),
                          DirEntry("output", true), DirEntry("2T2025", true);
    MatchedLastThree();
    MatchedStep(e3, [e4, e5, e6], Period("2025", "3"), "");
    assert [e3] + [e4, e5, e6] == [e3, e4, e5, e6];
  }

  lemma MatchedLastThree()
    ensures Matched([DirEntry("2T2025.zip", false), DirEntry("output", true), DirEntry("2T2025", true)])
            == [Period("2025", "2")]
  {
    var e4, e5, e6 := DirEntry("2T2025.zip", false), DirEntry("output", true), DirEntry("2T2025", true);
    assert Matched([]) == [];
    MatchedStep(e6, [], Period("2025", "2"), "");
    assert [e6] + [] == [e6];
    MatchedSkip(e5, [e6]);
    assert [e5] + [e6] == [e5, e6];
    MatchedSkip(e4, [e5, e6]);
    assert [e4] + [e5, e6] == [e4, e5, e6];
  }

  lemma MatchedStep(e: DirEntry, rest: seq<DirEntry>, p: Period, suffix: string)
    requires WellFormed(p) && e.isDir && e.name == DirName(p) + suffix
    ensures Matched([e] + rest) == [p] + Matched(rest)
  {
    MatchDirName(p, suffix);
    assert ([e] + rest)[1..] == rest;
  }

  lemma MatchedSkip(e: DirEntry, rest: seq<DirEntry>)
    requires !e.isDir || MatchPeriod(e.name).None?
    ensures Matched([e] + rest) == Matched(rest)
  {
    assert ([e] + rest)[1..] == rest;
  }
}
