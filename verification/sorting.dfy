/** A stable sort parameterised by a comparison, used for the period
    selection (newest first) and for the ledger order (year, quarter, CNPJ).
    Both of the original program's sorts (Python `sorted` and a multi-column
    pandas `sort_values`) are stable. */
module Sorting {
  import Grouping

  /** `le` is a total preorder: any two elements compare, and `le` chains. */
  ghost predicate TotalPreorder<T(!new)>(le: (T, T) -> bool) {
    && (forall a, b :: le(a, b) || le(b, a))
    && (forall a, b, c :: le(a, b) && le(b, c) ==> le(a, c))
  }

  ghost predicate SortedBy<T>(s: seq<T>, le: (T, T) -> bool) {
    forall i, j :: 0 <= i < j < |s| ==> le(s[i], s[j])
  }

  /** Inserts `x` after every element of `s` that is not greater than it,
      so an element equal to earlier ones lands after them (stability). */
  function Insert<T>(s: seq<T>, x: T, le: (T, T) -> bool): (r: seq<T>)
    ensures |r| == |s| + 1
    ensures multiset(r) == multiset(s) + multiset{x}
  {
    if |s| == 0 then [x]
    else if le(s[|s| - 1], x) then s + [x]
    else
      assert s == s[..|s| - 1] + [s[|s| - 1]];
      Insert(s[..|s| - 1], x, le) + [s[|s| - 1]]
  }

  /** Insertion sort: inserts the elements of `s` from left to right. */
  function Sort<T>(s: seq<T>, le: (T, T) -> bool): (r: seq<T>)
    ensures |r| == |s|
    ensures multiset(r) == multiset(s)
  {
    if |s| == 0 then []
    else
      assert s == s[..|s| - 1] + [s[|s| - 1]];
      Insert(Sort(s[..|s| - 1], le), s[|s| - 1], le)
  }

  lemma {:induction false} InsertSorted<T(!new)>(s: seq<T>, x: T, le: (T, T) -> bool)
    requires TotalPreorder(le)
    requires SortedBy(s, le)
    ensures SortedBy(Insert(s, x, le), le)
    decreases |s|
  {
    if |s| > 0 && !le(s[|s| - 1], x) {
      var init, last := s[..|s| - 1], s[|s| - 1];
      InsertSorted(init, x, le);
      var ins := Insert(init, x, le);
      assert le(x, last);
      assert multiset(ins) == multiset(init) + multiset{x};
      forall i | 0 <= i < |ins|
        ensures le(ins[i], last)
      {
        assert ins[i] in multiset(ins);
        if ins[i] != x {
          assert ins[i] in multiset(init);
          var k :| 0 <= k < |init| && init[k] == ins[i];
          assert le(s[k], s[|s| - 1]);
        }
      }
    }
  }

  /** The result of Sort is ordered by `le`. */
  lemma {:induction false} SortSorted<T(!new)>(s: seq<T>, le: (T, T) -> bool)
    requires TotalPreorder(le)
    ensures SortedBy(Sort(s, le), le)
    decreases |s|
  {
    if |s| > 0 {
      SortSorted(s[..|s| - 1], le);
      InsertSorted(Sort(s[..|s| - 1], le), s[|s| - 1], le);
    }
  }

  /** Sorting an already ordered sequence changes nothing, so sorting is
      idempotent and a re-run reproduces the same order. */
  lemma {:induction false} SortOfSorted<T>(s: seq<T>, le: (T, T) -> bool)
    requires SortedBy(s, le)
    ensures Sort(s, le) == s
    decreases |s|
  {
    if |s| > 0 {
      var init := s[..|s| - 1];
      assert SortedBy(init, le);
      SortOfSorted(init, le);
      if |init| > 0 {
        assert le(init[|init| - 1], s[|s| - 1]);
      }
    }
  }

  lemma SortIdempotent<T(!new)>(s: seq<T>, le: (T, T) -> bool)
    requires TotalPreorder(le)
    ensures Sort(Sort(s, le), le) == Sort(s, le)
  {
    SortSorted(s, le);
    SortOfSorted(Sort(s, le), le);
  }

  /** The elements that compare equal to `y` both ways. */
  function SameAs<T>(le: (T, T) -> bool, y: T): T -> bool {
    x => le(x, y) && le(y, x)
  }

  /** Inserting `x` never moves it ahead of an element equal to it, so among
      the elements equal to any `y` it comes last. */
  lemma {:induction false} InsertStable<T(!new)>(s: seq<T>, x: T, le: (T, T) -> bool, y: T)
    requires TotalPreorder(le)
    ensures Grouping.Filter(Insert(s, x, le), SameAs(le, y)) ==
              Grouping.Filter(s, SameAs(le, y)) + Grouping.Filter([x], SameAs(le, y))
    decreases |s|
  {
    var p := SameAs(le, y);
    if |s| == 0 {
      assert Insert(s, x, le) == [x];
    } else if le(s[|s| - 1], x) {
      Grouping.FilterAppend(s, [x], p);
    } else {
      var init, last := s[..|s| - 1], s[|s| - 1];
      InsertStable(init, x, le, y);
      NotBothSame(le, x, last, y);
      InsertLast(s, x, le);
      Grouping.FilterAppend(Insert(init, x, le), [last], p);
      Grouping.FilterAppend(init, [last], p);
      SwapEmpty(Grouping.Filter(init, p), Grouping.Filter([x], p), Grouping.Filter([last], p));
    }
  }

  lemma {:induction false} InsertLast<T>(s: seq<T>, x: T, le: (T, T) -> bool)
    requires |s| > 0 && !le(s[|s| - 1], x)
    ensures Insert(s, x, le) == Insert(s[..|s| - 1], x, le) + [s[|s| - 1]]
    ensures s == s[..|s| - 1] + [s[|s| - 1]]
  {
  }

  /** Two elements that do not compare as `last <= x` are not both equal to `y`. */
  lemma NotBothSame<T(!new)>(le: (T, T) -> bool, x: T, last: T, y: T)
    requires TotalPreorder(le)
    requires !le(last, x)
    ensures !(SameAs(le, y)(x) && SameAs(le, y)(last))
  {
  }

  lemma {:induction false} FilterSingle<T>(x: T, p: T -> bool)
    ensures Grouping.Filter([x], p) == if p(x) then [x] else []
  {
    assert [x][..0] == [];
  }

  lemma SwapEmpty<T>(a: seq<T>, b: seq<T>, c: seq<T>)
    requires b == [] || c == []
    ensures a + b + c == a + c + b
  {
  }

  /** The sort is stable: the elements equal to any `y` keep their relative
      order. */
  lemma {:induction false} SortStable<T(!new)>(s: seq<T>, le: (T, T) -> bool, y: T)
    requires TotalPreorder(le)
    ensures Grouping.Filter(Sort(s, le), SameAs(le, y)) == Grouping.Filter(s, SameAs(le, y))
    decreases |s|
  {
    if |s| > 0 {
      var init, last := s[..|s| - 1], s[|s| - 1];
      SortStable(init, le, y);
      InsertStable(Sort(init, le), last, le, y);
      SortStableStep(s, le, SameAs(le, y));
    }
  }

  /** One step of the stability proof, for any selection `p` that inserting
      the last element respects. */
  lemma {:induction false} SortStableStep<T>(s: seq<T>, le: (T, T) -> bool, p: T -> bool)
    requires |s| > 0
    requires Grouping.Filter(Sort(s[..|s| - 1], le), p) == Grouping.Filter(s[..|s| - 1], p)
    requires Grouping.Filter(Insert(Sort(s[..|s| - 1], le), s[|s| - 1], le), p) ==
               Grouping.Filter(Sort(s[..|s| - 1], le), p) + Grouping.Filter([s[|s| - 1]], p)
    ensures Grouping.Filter(Sort(s, le), p) == Grouping.Filter(s, p)
  {
    SortLast(s, le);
    FilterSingle(s[|s| - 1], p);
  }

  lemma {:induction false} SortLast<T>(s: seq<T>, le: (T, T) -> bool)
    requires |s| > 0
    ensures Sort(s, le) == Insert(Sort(s[..|s| - 1], le), s[|s| - 1], le)
  {
  }
}
