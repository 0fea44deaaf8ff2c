/** Group-by machinery shared by the duplicate-name report and the two
    aggregates: the distinct keys of a sequence in order of first
    appearance (the iteration order of a Python dict filled row by row),
    the rows of one group, and sums over all groups. */
module Grouping {

  predicate Distinct<K(==)>(s: seq<K>) {
    forall i, j :: 0 <= i < j < |s| ==> s[i] != s[j]
  }

  /** Some row has key `k`. */
  predicate HasKey<T, K(==)>(rows: seq<T>, key: T -> K, k: K) {
    exists i :: 0 <= i < |rows| && key(rows[i]) == k
  }

  /** The distinct keys of `rows`, each placed where it first occurs. */
  function KeysInOrder<T, K(==)>(rows: seq<T>, key: T -> K): (r: seq<K>)
    ensures Distinct(r)
    ensures |r| <= |rows|
    ensures forall i :: 0 <= i < |rows| ==> key(rows[i]) in r
    ensures forall j :: 0 <= j < |r| ==> HasKey(rows, key, r[j])
  {
    if |rows| == 0 then []
    else
      var init := rows[..|rows| - 1];
      var ks := KeysInOrder(init, key);
      var k := key(rows[|rows| - 1]);
      assert forall j :: 0 <= j < |ks| ==> HasKey(rows, key, ks[j]) by {
        forall j | 0 <= j < |ks| ensures HasKey(rows, key, ks[j]) {
          var i :| 0 <= i < |init| && key(init[i]) == ks[j];
          assert key(rows[i]) == ks[j];
        }
      }
      assert forall i :: 0 <= i < |init| ==> key(rows[i]) in ks by {
        forall i | 0 <= i < |init| ensures key(rows[i]) in ks {
          assert key(init[i]) in ks;
        }
      }
      assert HasKey(rows, key, k) by { assert key(rows[|rows| - 1]) == k; }
      if k in ks then ks else ks + [k]
  }

  /** Wherever a later key of `ks` occurs in `rows`, every earlier key of
      `ks` has already occurred before it. */
  predicate FirstAppearanceOrder<T, K(==)>(rows: seq<T>, key: T -> K, ks: seq<K>) {
    forall i, j, p :: 0 <= i < j < |ks| && 0 <= p < |rows| && key(rows[p]) == ks[j] ==>
      exists q :: 0 <= q < p && key(rows[q]) == ks[i]
  }

  /** Keys come out in order of first appearance. */
  lemma {:induction false} KeysInOrderFirstAppearance<T, K>(rows: seq<T>, key: T -> K)
    ensures FirstAppearanceOrder(rows, key, KeysInOrder(rows, key))
    decreases |rows|
  {
    var r := KeysInOrder(rows, key);
    if |rows| > 0 {
      KeysInOrderFirstAppearance(rows[..|rows| - 1], key);
      forall i, j, p | 0 <= i < j < |r| && 0 <= p < |rows| && key(rows[p]) == r[j]
        ensures exists q :: 0 <= q < p && key(rows[q]) == r[i]
      {
        var q := FirstAppearanceStep(rows, key, i, j, p);
      }
    }
  }

  /** A row that carries a key known to occur. */
  lemma KeyWitness<T, K>(rows: seq<T>, key: T -> K, k: K) returns (q: nat)
    requires HasKey(rows, key, k)
    ensures q < |rows| && key(rows[q]) == k
  {
    q :| 0 <= q < |rows| && key(rows[q]) == k;
  }

  /** An occurrence of a later key is preceded by one of an earlier key. */
  lemma Preceding<T, K>(rows: seq<T>, key: T -> K, ks: seq<K>, i: nat, j: nat, p: nat) returns (q: nat)
    requires FirstAppearanceOrder(rows, key, ks)
    requires i < j < |ks| && p < |rows| && key(rows[p]) == ks[j]
    ensures q < p && key(rows[q]) == ks[i]
  {
    var earlier, later := ks[i], ks[j];
    assert exists q :: 0 <= q < p && key(rows[q]) == earlier;
    q :| 0 <= q < p && key(rows[q]) == earlier;
  }

  /** The inductive step of KeysInOrderFirstAppearance for one pair of keys
      and one occurrence of the later one. */
  lemma {:induction false} FirstAppearanceStep<T, K>(rows: seq<T>, key: T -> K, i: nat, j: nat, p: nat) returns (q: nat)
    requires |rows| > 0
    requires FirstAppearanceOrder(rows[..|rows| - 1], key, KeysInOrder(rows[..|rows| - 1], key))
    requires i < j < |KeysInOrder(rows, key)| && p < |rows| && key(rows[p]) == KeysInOrder(rows, key)[j]
    ensures q < p && key(rows[q]) == KeysInOrder(rows, key)[i]
  {
    var r := KeysInOrder(rows, key);
    var init := rows[..|rows| - 1];
    var ks := KeysInOrder(init, key);
    var k := key(rows[|rows| - 1]);
    assert r == if k in ks then ks else ks + [k];
    assert r[i] == ks[i];
    if j < |ks| {
      assert r[j] == ks[j];
      if p < |init| {
        assert key(init[p]) == ks[j];
        q := Preceding(init, key, ks, i, j, p);
      } else {
        var p' := KeyWitness(init, key, ks[j]);
        q := Preceding(init, key, ks, i, j, p');
      }
    } else {
      assert p == |init|;
      q := KeyWitness(init, key, ks[i]);
    }
    assert rows[q] == init[q];
  }

  /** The rows with key `k`, in their original order. */
  function Group<T, K(==)>(rows: seq<T>, key: T -> K, k: K): (r: seq<T>)
    ensures |r| <= |rows|
    ensures forall i :: 0 <= i < |r| ==> key(r[i]) == k
    ensures multiset(r) <= multiset(rows)
  {
    if |rows| == 0 then []
    else
      var init := rows[..|rows| - 1];
      assert rows == init + [rows[|rows| - 1]];
      if key(rows[|rows| - 1]) == k then Group(init, key, k) + [rows[|rows| - 1]]
      else Group(init, key, k)
  }

  /** Sum of a weight over rows. */
  function Total<T>(rows: seq<T>, w: T -> real): real {
    if |rows| == 0 then 0.0 else Total(rows[..|rows| - 1], w) + w(rows[|rows| - 1])
  }

  /** Sum over the listed keys of each group's total. */
  function SumGroups<T, K(==)>(keys: seq<K>, rows: seq<T>, key: T -> K, w: T -> real): real {
    if |keys| == 0 then 0.0
    else SumGroups(keys[..|keys| - 1], rows, key, w) + Total(Group(rows, key, keys[|keys| - 1]), w)
  }

  lemma {:induction false} SumGroupsNoRows<T, K>(keys: seq<K>, key: T -> K, w: T -> real)
    ensures SumGroups(keys, [], key, w) == 0.0
    decreases |keys|
  {
    if |keys| > 0 {
      SumGroupsNoRows(keys[..|keys| - 1], key, w);
    }
  }

  /** One more row adds its weight to exactly the one group of its key. */
  lemma {:induction false} SumGroupsAppend<T, K>(keys: seq<K>, rows: seq<T>, x: T, key: T -> K, w: T -> real)
    requires Distinct(keys)
    ensures SumGroups(keys, rows + [x], key, w)
         == SumGroups(keys, rows, key, w) + (if key(x) in keys then w(x) else 0.0)
    decreases |keys|
  {
    var rows' := rows + [x];
    assert rows'[..|rows'| - 1] == rows;
    if |keys| > 0 {
      var ks, k := keys[..|keys| - 1], keys[|keys| - 1];
      assert keys == ks + [k];
      SumGroupsAppend(ks, rows, x, key, w);
      var g' := Group(rows', key, k);
      if key(x) == k {
        assert g'[..|g'| - 1] == Group(rows, key, k);
        assert key(x) !in ks;
      }
    }
  }

  /** The groups partition the rows: summing the group totals over keys
      that cover every row's key once gives the total of all rows. */
  lemma {:induction false} SumGroupsCover<T, K>(keys: seq<K>, rows: seq<T>, key: T -> K, w: T -> real)
    requires Distinct(keys)
    requires forall i :: 0 <= i < |rows| ==> key(rows[i]) in keys
    ensures SumGroups(keys, rows, key, w) == Total(rows, w)
    decreases |rows|
  {
    if |rows| == 0 {
      SumGroupsNoRows(keys, key, w);
    } else {
      var init, x := rows[..|rows| - 1], rows[|rows| - 1];
      assert rows == init + [x];
      SumGroupsCover(keys, init, key, w);
      SumGroupsAppend(keys, init, x, key, w);
    }
  }

  /** Grouping by `key` conserves any weighted total. */
  lemma GroupingConserves<T, K>(rows: seq<T>, key: T -> K, w: T -> real)
    ensures SumGroups(KeysInOrder(rows, key), rows, key, w) == Total(rows, w)
  {
    var keys := KeysInOrder(rows, key);
    SumGroupsCover(keys, rows, key, w);
  }

  /** Number of elements satisfying `p`. */
  function Count<T>(s: seq<T>, p: T -> bool): (n: nat)
    ensures n <= |s|
  {
    if |s| == 0 then 0 else Count(s[..|s| - 1], p) + (if p(s[|s| - 1]) then 1 else 0)
  }

  lemma {:induction false} CountAppend<T>(a: seq<T>, b: seq<T>, p: T -> bool)
    ensures Count(a + b, p) == Count(a, p) + Count(b, p)
    decreases |b|
  {
    if |b| == 0 {
      assert a + b == a;
    } else {
      assert (a + b)[..|a + b| - 1] == a + b[..|b| - 1];
      CountAppend(a, b[..|b| - 1], p);
    }
  }

  /** The pieces laid end to end (`pd.concat` of frames, `ignore_index`). */
  function Concat<T>(pieces: seq<seq<T>>): seq<T> {
    if |pieces| == 0 then [] else Concat(pieces[..|pieces| - 1]) + pieces[|pieces| - 1]
  }

  lemma {:induction false} ConcatAppend<T>(a: seq<seq<T>>, b: seq<seq<T>>)
    ensures Concat(a + b) == Concat(a) + Concat(b)
    decreases |b|
  {
    if |b| == 0 {
      assert a + b == a;
    } else {
      assert (a + b)[..|a + b| - 1] == a + b[..|b| - 1];
      ConcatAppend(a, b[..|b| - 1]);
    }
  }

  /** Pieces of one element each concatenate to those elements. */
  lemma {:induction false} ConcatSingletons<T>(pieces: seq<seq<T>>)
    requires forall i :: 0 <= i < |pieces| ==> |pieces[i]| == 1
    ensures |Concat(pieces)| == |pieces|
    ensures forall i :: 0 <= i < |pieces| ==> Concat(pieces)[i] == pieces[i][0]
    decreases |pieces|
  {
    if |pieces| > 0 {
      var init := pieces[..|pieces| - 1];
      ConcatSingletons(init);
      assert Concat(pieces) == Concat(init) + pieces[|pieces| - 1];
    }
  }

  /** `f` of every piece, combined left to right starting from `unit`. */
  function FoldPieces<T, P>(pieces: seq<seq<T>>, f: seq<T> -> P, combine: (P, P) -> P, unit: P): P {
    if |pieces| == 0 then unit
    else combine(FoldPieces(pieces[..|pieces| - 1], f, combine, unit), f(pieces[|pieces| - 1]))
  }

  /** When `combine` turns the results of two pieces into the result of
      their concatenation and `unit` is a left identity, folding the pieces
      gives the result of the whole. */
  lemma {:induction false} FoldPiecesConcat<T, P>(pieces: seq<seq<T>>, f: seq<T> -> P, combine: (P, P) -> P, unit: P)
    requires |pieces| > 0
    requires forall a, b :: combine(f(a), f(b)) == f(a + b)
    requires forall a :: combine(unit, f(a)) == f(a)
    ensures FoldPieces(pieces, f, combine, unit) == f(Concat(pieces))
    decreases |pieces|
  {
    var init, last := pieces[..|pieces| - 1], pieces[|pieces| - 1];
    assert Concat(pieces) == Concat(init) + last;
    if |init| == 0 {
      assert Concat(init) + last == last;
      assert combine(unit, f(last)) == f(last);
    } else {
      FoldPiecesConcat(init, f, combine, unit);
      assert combine(f(Concat(init)), f(last)) == f(Concat(init) + last);
    }
  }

  lemma TakeSnoc<T>(a: seq<T>, s: seq<T>, i: nat)
    requires i < |s|
    ensures a + s[..i + 1] == (a + s[..i]) + [s[i]]
  {
    assert s[..i + 1] == s[..i] + [s[i]];
  }

  /** The elements satisfying `p`, in order (a boolean-mask selection). */
  function Filter<T>(s: seq<T>, p: T -> bool): (r: seq<T>)
    ensures |r| == Count(s, p)
    ensures forall i :: 0 <= i < |r| ==> p(r[i])
    ensures multiset(r) <= multiset(s)
  {
    if |s| == 0 then []
    else
      assert s == s[..|s| - 1] + [s[|s| - 1]];
      Filter(s[..|s| - 1], p) + (if p(s[|s| - 1]) then [s[|s| - 1]] else [])
  }

  /** Selections that agree on the elements select the same. */
  lemma {:induction false} FilterCongruent<T>(s: seq<T>, p: T -> bool, q: T -> bool)
    requires forall i :: 0 <= i < |s| ==> p(s[i]) == q(s[i])
    ensures Filter(s, p) == Filter(s, q)
    decreases |s|
  {
    if |s| > 0 {
      FilterCongruent(s[..|s| - 1], p, q);
    }
  }

  /** Every element satisfying `p` is selected. */
  lemma {:induction false} FilterComplete<T>(s: seq<T>, p: T -> bool, i: nat)
    requires i < |s| && p(s[i])
    ensures s[i] in Filter(s, p)
    decreases |s|
  {
    if i < |s| - 1 {
      FilterComplete(s[..|s| - 1], p, i);
    }
  }

  lemma {:induction false} FilterAppend<T>(a: seq<T>, b: seq<T>, p: T -> bool)
    ensures Filter(a + b, p) == Filter(a, p) + Filter(b, p)
    decreases |b|
  {
    if |b| == 0 {
      assert a + b == a;
    } else {
      assert (a + b)[..|a + b| - 1] == a + b[..|b| - 1];
      FilterAppend(a, b[..|b| - 1], p);
    }
  }

  /** Every row with key `k` belongs to its group. */
  lemma {:induction false} GroupComplete<T, K>(rows: seq<T>, key: T -> K, k: K, i: nat)
    requires i < |rows| && key(rows[i]) == k
    ensures rows[i] in Group(rows, key, k)
    decreases |rows|
  {
    if i < |rows| - 1 {
      GroupComplete(rows[..|rows| - 1], key, k, i);
    }
  }

  /** A group has two or more rows exactly when two rows carry its key. */
  lemma {:induction false} GroupAtLeastTwo<T, K>(rows: seq<T>, key: T -> K, k: K)
    ensures |Group(rows, key, k)| >= 2 <==>
              exists i, j :: 0 <= i < j < |rows| && key(rows[i]) == k && key(rows[j]) == k
  {
    if |Group(rows, key, k)| >= 2 {
      var i, j := GroupTwoWitness(rows, key, k);
    }
    if exists i, j :: 0 <= i < j < |rows| && key(rows[i]) == k && key(rows[j]) == k {
      var i, j :| 0 <= i < j < |rows| && key(rows[i]) == k && key(rows[j]) == k;
      GroupFromTwo(rows, key, k, i, j);
    }
  }

  /** Two rows of a group of two or more. */
  lemma {:induction false} GroupTwoWitness<T, K>(rows: seq<T>, key: T -> K, k: K) returns (i: nat, j: nat)
    requires |Group(rows, key, k)| >= 2
    ensures i < j < |rows| && key(rows[i]) == k && key(rows[j]) == k
    decreases |rows|
  {
    var init, x := rows[..|rows| - 1], rows[|rows| - 1];
    var g := Group(init, key, k);
    if key(x) == k {
      assert g[0] in multiset(init);
      i := Position(init, g[0]);
      j := |rows| - 1;
    } else {
      i, j := GroupTwoWitness(init, key, k);
    }
    assert rows[i] == init[i];
  }

  /** Two rows with the same key make a group of two or more. */
  lemma {:induction false} GroupFromTwo<T, K>(rows: seq<T>, key: T -> K, k: K, i: nat, j: nat)
    requires i < j < |rows| && key(rows[i]) == k && key(rows[j]) == k
    ensures |Group(rows, key, k)| >= 2
    decreases |rows|
  {
    var init := rows[..|rows| - 1];
    assert rows[i] == init[i];
    if j < |rows| - 1 {
      assert rows[j] == init[j];
      GroupFromTwo(init, key, k, i, j);
    } else {
      GroupComplete(init, key, k, i);
    }
  }


  /** `f` applied to every element, in order. */
  function MapSeq<A, B>(s: seq<A>, f: A -> B): (r: seq<B>)
    ensures |r| == |s|
    ensures forall i :: 0 <= i < |s| ==> r[i] == f(s[i])
  {
    if |s| == 0 then [] else MapSeq(s[..|s| - 1], f) + [f(s[|s| - 1])]
  }

  lemma {:induction false} MapSeqAppend<A, B>(a: seq<A>, b: seq<A>, f: A -> B)
    ensures MapSeq(a + b, f) == MapSeq(a, f) + MapSeq(b, f)
  {
  }

  /** The groups of two or more rows (`df[df.duplicated(key, keep=False)]`
      grouped by `key`). */
  function Duplicates<T, K(==)>(rows: seq<T>, key: T -> K): map<K, seq<T>> {
    map k | k in KeysInOrder(rows, key) && |Group(rows, key, k)| >= 2 :: Group(rows, key, k)
  }

  /** A key is recorded exactly when two rows carry it. */
  lemma DuplicatesKeys<T, K>(rows: seq<T>, key: T -> K, k: K)
    ensures k in Duplicates(rows, key) <==>
              exists i, j :: 0 <= i < j < |rows| && key(rows[i]) == k && key(rows[j]) == k
  {
    GroupAtLeastTwo(rows, key, k);
    if exists i, j :: 0 <= i < j < |rows| && key(rows[i]) == k && key(rows[j]) == k {
      var i, j :| 0 <= i < j < |rows| && key(rows[i]) == k && key(rows[j]) == k;
      assert key(rows[i]) in KeysInOrder(rows, key);
    }
  }

  /** A recorded key comes with every row that carries it, and no other. */
  lemma DuplicatesRows<T, K>(rows: seq<T>, key: T -> K, k: K)
    requires k in Duplicates(rows, key)
    ensures forall i :: 0 <= i < |Duplicates(rows, key)[k]| ==> key(Duplicates(rows, key)[k][i]) == k
    ensures forall i :: 0 <= i < |rows| && key(rows[i]) == k ==> rows[i] in Duplicates(rows, key)[k]
  {
    forall i | 0 <= i < |rows| && key(rows[i]) == k
      ensures rows[i] in Duplicates(rows, key)[k]
    {
      GroupComplete(rows, key, k, i);
    }
  }

  lemma {:induction false} DistinctAtMostOnce<K>(s: seq<K>, x: K)
    requires Distinct(s)
    ensures multiset(s)[x] <= 1
    decreases |s|
  {
    if |s| > 0 {
      var init := s[..|s| - 1];
      assert s == init + [s[|s| - 1]];
      DistinctAtMostOnce(init, x);
    }
  }

  lemma TwoCopies<K>(s: seq<K>, i: nat, j: nat)
    requires i < j < |s| && s[i] == s[j]
    ensures multiset(s)[s[i]] >= 2
  {
    assert s == s[..j] + [s[j]] + s[j + 1..];
    assert s[i] in s[..j];
  }

  /** A rearrangement of distinct keys is still distinct. */
  lemma DistinctPermutation<K>(a: seq<K>, b: seq<K>)
    requires Distinct(a) && multiset(a) == multiset(b)
    ensures Distinct(b)
  {
    forall i, j | 0 <= i < j < |b|
      ensures b[i] != b[j]
    {
      DistinctAtMostOnce(a, b[i]);
      if b[i] == b[j] {
        TwoCopies(b, i, j);
      }
    }
  }

  /** No two elements share the value of `f`. */
  predicate DistinctBy<T, V(==)>(s: seq<T>, f: T -> V) {
    forall i, j :: 0 <= i < j < |s| ==> f(s[i]) != f(s[j])
  }

  /** A group of rows that are distinct by `f` is still distinct by `f`. */
  lemma {:induction false} GroupDistinctBy<T, K, V>(rows: seq<T>, key: T -> K, k: K, f: T -> V)
    requires DistinctBy(rows, f)
    ensures DistinctBy(Group(rows, key, k), f)
    decreases |rows|
  {
    if |rows| > 0 {
      var init, x := rows[..|rows| - 1], rows[|rows| - 1];
      GroupDistinctBy(init, key, k, f);
      var g := Group(init, key, k);
      if key(x) == k {
        forall i | 0 <= i < |g|
          ensures f(g[i]) != f(x)
        {
          assert g[i] in multiset(init);
          var q :| 0 <= q < |init| && init[q] == g[i];
          assert rows[q] == g[i];
        }
      }
    }
  }

  /** Summing `h` over the per-key results `g(k)` gives the sum of the group
      totals, when `h(g(k))` is the total of the group of `k`. */
  lemma {:induction false} TotalOfSummaries<T, K, B>(keys: seq<K>, g: K -> B, h: B -> real, rows: seq<T>, key: T -> K, w: T -> real)
    requires forall i :: 0 <= i < |keys| ==> h(g(keys[i])) == Total(Group(rows, key, keys[i]), w)
    ensures Total(MapSeq(keys, g), h) == SumGroups(keys, rows, key, w)
    decreases |keys|
  {
    if |keys| > 0 {
      var init := keys[..|keys| - 1];
      var m := MapSeq(keys, g);
      assert m[..|m| - 1] == MapSeq(init, g);
      TotalOfSummaries(init, g, h, rows, key, w);
    }
  }

  /** An index at which `x` occurs. */
  lemma Position<T>(s: seq<T>, x: T) returns (i: nat)
    requires x in s
    ensures i < |s| && s[i] == x
  {
    i :| 0 <= i < |s| && s[i] == x;
  }
}
