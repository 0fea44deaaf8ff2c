/** The two grouped aggregates of the enrichment pass: totals per
    (RazaoSocial, UF), and the number of quarters per operator, after the
    amounts are summed per (CNPJ, RazaoSocial, UF, period). Group keys come
    out in ascending tuple order, as `groupby` sorts them. Means and
    standard deviations are not modelled. */
module Aggregation {
  import opened Wrappers
  import opened Text
  import opened Grouping
  import Sorting
  import opened Enrichment

  // ---------------------------------------------------------------------------
  // keys in groupby order

  /** Python's tuple order on string tuples is a total preorder. */
  lemma FieldsLeTotalPreorder()
    ensures Sorting.TotalPreorder(FieldsLe)
  {
    forall a, b ensures FieldsLe(a, b) || FieldsLe(b, a) {
      FieldsLeTotal(a, b);
    }
    forall a, b, c | FieldsLe(a, b) && FieldsLe(b, c) ensures FieldsLe(a, c) {
      FieldsLeTransitive(a, b, c);
    }
  }

  /** The sorted distinct keys of `rows` list every key that occurs, once,
      in order, and nothing else. */
  lemma SortedKeys<T, K(!new)>(rows: seq<T>, key: T -> K, le: (K, K) -> bool)
    requires Sorting.TotalPreorder(le)
    ensures var ks := Sorting.Sort(KeysInOrder(rows, key), le);
      && Distinct(ks)
      && Sorting.SortedBy(ks, le)
      && (forall i :: 0 <= i < |rows| ==> key(rows[i]) in ks)
      && (forall j :: 0 <= j < |ks| ==> HasKey(rows, key, ks[j]))
  {
    var us := KeysInOrder(rows, key);
    var ks := Sorting.Sort(us, le);
    DistinctPermutation(us, ks);
    Sorting.SortSorted(us, le);
    forall i | 0 <= i < |rows| ensures key(rows[i]) in ks {
      assert key(rows[i]) in multiset(us);
    }
    forall j | 0 <= j < |ks| ensures HasKey(rows, key, ks[j]) {
      assert ks[j] in multiset(us);
      var q :| 0 <= q < |us| && us[q] == ks[j];
    }
  }

  // ---------------------------------------------------------------------------
  // amounts

  /** `sum` skips empty amounts. */
  function Amount(e: Enriched): real {
    e.flagged.valor.GetOr(0.0)
  }

  /** `count` counts the amounts that are present. */
  predicate Present(e: Enriched) {
    e.flagged.valor.Some?
  }

  function Indicator(e: Enriched): real {
    if Present(e) then 1.0 else 0.0
  }

  lemma {:induction false} TotalIndicator(s: seq<Enriched>)
    ensures Total(s, Indicator) == Count(s, Present) as real
    decreases |s|
  {
    if |s| > 0 {
      TotalIndicator(s[..|s| - 1]);
    }
  }

  // ---------------------------------------------------------------------------
  // totals per (RazaoSocial, UF)

  /** The group key: the name, and the state or "N/A" when there is none. */
  function OperatorKey(e: Enriched): seq<string> {
    [e.flagged.razao, e.uf.GetOr("N/A")]
  }

  /** One line of `aggregados_operadora_uf.csv`, without mean and deviation. */
  datatype OperatorTotal = OperatorTotal(key: seq<string>, total: real, count: nat)

  function SummariseOperator(rows: seq<Enriched>, k: seq<string>): OperatorTotal {
    var g := Group(rows, OperatorKey, k);
    OperatorTotal(k, Total(g, Amount), Count(g, Present))
  }

  function OperatorKeys(rows: seq<Enriched>): seq<seq<string>> {
    Sorting.Sort(KeysInOrder(rows, OperatorKey), FieldsLe)
  }

  function ByOperator(rows: seq<Enriched>): seq<OperatorTotal> {
    MapSeq(OperatorKeys(rows), k => SummariseOperator(rows, k))
  }

  /** The (name, state) pairs that occur, each once, in ascending order. */
  lemma OperatorKeysSpec(rows: seq<Enriched>)
    ensures var ks := OperatorKeys(rows);
      && Distinct(ks)
      && Sorting.SortedBy(ks, FieldsLe)
      && (forall i :: 0 <= i < |rows| ==> OperatorKey(rows[i]) in ks)
      && (forall j :: 0 <= j < |ks| ==> HasKey(rows, OperatorKey, ks[j]))
  {
    FieldsLeTotalPreorder();
    SortedKeys(rows, OperatorKey, FieldsLe);
  }

  lemma ByOperatorKeys(rows: seq<Enriched>)
    ensures |ByOperator(rows)| == |OperatorKeys(rows)|
    ensures forall i :: 0 <= i < |ByOperator(rows)| ==> ByOperator(rows)[i].key == OperatorKeys(rows)[i]
  {
  }

  function TotalOf(o: OperatorTotal): real { o.total }

  function CountOf(o: OperatorTotal): real { o.count as real }

  function OperatorKeyOf(o: OperatorTotal): seq<string> { o.key }

  /** The groups partition the rows: one line per (name, state) pair that
      occurs, in ascending order, and no line for a pair that does not. */
  lemma ByOperatorPartition(rows: seq<Enriched>)
    ensures var out := ByOperator(rows);
      && DistinctBy(out, OperatorKeyOf)
      && (forall i, j :: 0 <= i < j < |out| ==> FieldsLe(out[i].key, out[j].key))
      && (forall r :: 0 <= r < |rows| ==> exists i :: 0 <= i < |out| && out[i].key == OperatorKey(rows[r]))
      && (forall i :: 0 <= i < |out| ==> HasKey(rows, OperatorKey, out[i].key))
  {
    var ks := OperatorKeys(rows);
    var out := ByOperator(rows);
    OperatorKeysSpec(rows);
    ByOperatorKeys(rows);
    forall r | 0 <= r < |rows|
      ensures exists i :: 0 <= i < |out| && out[i].key == OperatorKey(rows[r])
    {
      var i := Position(ks, OperatorKey(rows[r]));
      assert out[i].key == ks[i];
    }
  }

  /** Each line sums exactly the amounts of its group and counts those
      present, so the totals add up to the sum of every amount and the
      counts to the number of amounts present. */
  lemma ByOperatorConserves(rows: seq<Enriched>)
    ensures forall i :: 0 <= i < |ByOperator(rows)| ==>
              var o := ByOperator(rows)[i];
              o.total == Total(Group(rows, OperatorKey, o.key), Amount) &&
              o.count == Count(Group(rows, OperatorKey, o.key), Present)
    ensures Total(ByOperator(rows), TotalOf) == Total(rows, Amount)
    ensures Total(ByOperator(rows), CountOf) == Count(rows, Present) as real
  {
    OperatorKeysSpec(rows);
    var ks := OperatorKeys(rows);
    var g := k => SummariseOperator(rows, k);
    assert ByOperator(rows) == MapSeq(ks, g);
    TotalOfSummaries(ks, g, TotalOf, rows, OperatorKey, Amount);
    SumGroupsCover(ks, rows, OperatorKey, Amount);
    forall i | 0 <= i < |ks|
      ensures CountOf(g(ks[i])) == Total(Group(rows, OperatorKey, ks[i]), Indicator)
    {
      TotalIndicator(Group(rows, OperatorKey, ks[i]));
    }
    TotalOfSummaries(ks, g, CountOf, rows, OperatorKey, Indicator);
    SumGroupsCover(ks, rows, OperatorKey, Indicator);
    TotalIndicator(rows);
  }

  // ---------------------------------------------------------------------------
  // quarters per operator

  /** `astype(str)`: an empty cell reads "nan". */
  function AsText(c: Option<string>): string {
    c.GetOr("nan")
  }

  /** The period key "Ano_Trimestre". */
  function Periodo(e: Enriched): string {
    AsText(e.flagged.row.ano) + "_" + AsText(e.flagged.row.trimestre)
  }

  /** `groupby` drops rows whose key has an empty cell; only the state can
      be empty here. */
  predicate HasUf(e: Enriched) {
    e.uf.Some?
  }

  function EntityKey(e: Enriched): seq<string> {
    [e.flagged.cnpjClean, e.flagged.razao, e.uf.GetOr("")]
  }

  datatype QuarterKey = QuarterKey(entity: seq<string>, periodo: string)

  function QuarterKeyOf(e: Enriched): QuarterKey {
    QuarterKey(EntityKey(e), Periodo(e))
  }

  function QuarterFields(k: QuarterKey): seq<string> {
    k.entity + [k.periodo]
  }

  predicate QuarterLe(a: QuarterKey, b: QuarterKey) {
    FieldsLe(QuarterFields(a), QuarterFields(b))
  }

  lemma QuarterLeTotalPreorder()
    ensures Sorting.TotalPreorder(QuarterLe)
  {
    forall a, b ensures QuarterLe(a, b) || QuarterLe(b, a) {
      FieldsLeTotal(QuarterFields(a), QuarterFields(b));
    }
    forall a, b, c | QuarterLe(a, b) && QuarterLe(b, c) ensures QuarterLe(a, c) {
      FieldsLeTransitive(QuarterFields(a), QuarterFields(b), QuarterFields(c));
    }
  }

  /** One line of the per-quarter sums ("ValorTrimestral"). */
  datatype QuarterSum = QuarterSum(entity: seq<string>, periodo: string, valorTrimestral: real)

  function SummariseQuarter(rows: seq<Enriched>, k: QuarterKey): QuarterSum {
    QuarterSum(k.entity, k.periodo, Total(Group(rows, QuarterKeyOf, k), Amount))
  }

  function QuarterKeys(rows: seq<Enriched>): seq<QuarterKey> {
    Sorting.Sort(KeysInOrder(Filter(rows, HasUf), QuarterKeyOf), QuarterLe)
  }

  function ByQuarter(rows: seq<Enriched>): seq<QuarterSum> {
    var rs := Filter(rows, HasUf);
    MapSeq(QuarterKeys(rows), k => SummariseQuarter(rs, k))
  }

  function SumKey(q: QuarterSum): QuarterKey { QuarterKey(q.entity, q.periodo) }

  function SumEntity(q: QuarterSum): seq<string> { q.entity }

  function SumPeriodo(q: QuarterSum): string { q.periodo }

  function ValorOf(q: QuarterSum): real { q.valorTrimestral }

  /** One line of `media_desvio_por_operadora_uf.csv`, without mean and
      deviation: the operator and its number of quarters. */
  datatype EntityQuarters = EntityQuarters(entity: seq<string>, trimestres: nat)

  /** The entity keys of the second aggregate's output, in output order. */
  function EntityKeys(qs: seq<QuarterSum>): seq<seq<string>> {
    Sorting.Sort(KeysInOrder(qs, SumEntity), FieldsLe)
  }

  function ByEntity(qs: seq<QuarterSum>): seq<EntityQuarters> {
    MapSeq(EntityKeys(qs), k => EntityQuarters(k, |Group(qs, SumEntity, k)|))
  }

  function QuarterStats(rows: seq<Enriched>): seq<EntityQuarters> {
    ByEntity(ByQuarter(rows))
  }

  /** The (operator, period) pairs of the rows with a state, each once. */
  lemma QuarterKeysSpec(rows: seq<Enriched>)
    ensures var rs := Filter(rows, HasUf); var ks := QuarterKeys(rows);
      && Distinct(ks)
      && (forall i :: 0 <= i < |rs| ==> QuarterKeyOf(rs[i]) in ks)
      && (forall j :: 0 <= j < |ks| ==> HasKey(rs, QuarterKeyOf, ks[j]))
  {
    QuarterLeTotalPreorder();
    SortedKeys(Filter(rows, HasUf), QuarterKeyOf, QuarterLe);
  }

  /** The quarter sums are keyed by their (operator, period) and carry each
      key once. */
  lemma ByQuarterKeys(rows: seq<Enriched>)
    ensures |ByQuarter(rows)| == |QuarterKeys(rows)|
    ensures forall i :: 0 <= i < |ByQuarter(rows)| ==> SumKey(ByQuarter(rows)[i]) == QuarterKeys(rows)[i]
    ensures DistinctBy(ByQuarter(rows), SumKey)
  {
    QuarterKeysSpec(rows);
  }

  /** Each quarter sum is the total of the amounts of the rows with a state
      that carry its (operator, period) key. */
  lemma ByQuarterValues(rows: seq<Enriched>)
    ensures forall i :: 0 <= i < |ByQuarter(rows)| ==>
              ByQuarter(rows)[i].valorTrimestral ==
                Total(Group(Filter(rows, HasUf), QuarterKeyOf, SumKey(ByQuarter(rows)[i])), Amount)
  {
    ByQuarterKeys(rows);
  }

  /** Every (operator, period) pair of a row with a state has its quarter
      sum. */
  lemma ByQuarterCovers(rows: seq<Enriched>, r: nat) returns (i: nat)
    requires r < |rows| && HasUf(rows[r])
    ensures i < |ByQuarter(rows)| && SumKey(ByQuarter(rows)[i]) == QuarterKeyOf(rows[r])
  {
    var rs := Filter(rows, HasUf);
    QuarterKeysSpec(rows);
    ByQuarterKeys(rows);
    FilterComplete(rows, HasUf, r);
    var p := Position(rs, rows[r]);
    i := Position(QuarterKeys(rows), QuarterKeyOf(rs[p]));
  }

  /** Every quarter sum comes from a row with a state: rows without a state
      do not count. */
  lemma ByQuarterSound(rows: seq<Enriched>, i: nat) returns (r: nat)
    requires i < |ByQuarter(rows)|
    ensures r < |rows| && HasUf(rows[r]) && QuarterKeyOf(rows[r]) == SumKey(ByQuarter(rows)[i])
  {
    var rs := Filter(rows, HasUf);
    var ks := QuarterKeys(rows);
    QuarterKeysSpec(rows);
    ByQuarterKeys(rows);
    var p :| 0 <= p < |rs| && QuarterKeyOf(rs[p]) == ks[i];
    assert rs[p] in multiset(rows);
    r := Position(rows, rs[p]);
  }

  /** The quarter sums add up to the total of the rows with a state. */
  lemma ByQuarterConserves(rows: seq<Enriched>)
    ensures Total(ByQuarter(rows), ValorOf) == Total(Filter(rows, HasUf), Amount)
  {
    var rs := Filter(rows, HasUf);
    var ks := QuarterKeys(rows);
    QuarterKeysSpec(rows);
    var g := k => SummariseQuarter(rs, k);
    assert ByQuarter(rows) == MapSeq(ks, g);
    TotalOfSummaries(ks, g, ValorOf, rs, QuarterKeyOf, Amount);
    SumGroupsCover(ks, rs, QuarterKeyOf, Amount);
  }

  /** The quarter sums of one operator have pairwise different periods. */
  lemma EntityPeriodsDistinct(qs: seq<QuarterSum>, e: seq<string>)
    requires DistinctBy(qs, SumKey)
    ensures DistinctBy(Group(qs, SumEntity, e), SumPeriodo)
  {
    GroupDistinctBy(qs, SumEntity, e, SumKey);
    var g := Group(qs, SumEntity, e);
    forall i, j | 0 <= i < j < |g| ensures g[i].periodo != g[j].periodo {
      assert SumKey(g[i]) != SumKey(g[j]);
    }
  }

  /** The output's entity keys: distinct, ascending, exactly the keys of the quarter sums. */
  lemma EntityKeysSpec(qs: seq<QuarterSum>)
    ensures var ks := EntityKeys(qs);
      && Distinct(ks)
      && Sorting.SortedBy(ks, FieldsLe)
      && (forall j :: 0 <= j < |qs| ==> SumEntity(qs[j]) in ks)
      && (forall i :: 0 <= i < |ks| ==> HasKey(qs, SumEntity, ks[i]))
  {
    FieldsLeTotalPreorder();
    SortedKeys(qs, SumEntity, FieldsLe);
  }

  lemma ByEntityKeys(qs: seq<QuarterSum>)
    ensures |ByEntity(qs)| == |EntityKeys(qs)|
    ensures forall i :: 0 <= i < |ByEntity(qs)| ==> ByEntity(qs)[i].entity == EntityKeys(qs)[i]
  {
  }

  /** A quarter sum with entity key [k] exists for every output line. */
  lemma EntityWitness(qs: seq<QuarterSum>, i: nat) returns (j: nat)
    requires i < |EntityKeys(qs)|
    ensures j < |qs| && SumEntity(qs[j]) == EntityKeys(qs)[i]
  {
    EntityKeysSpec(qs);
    j :| 0 <= j < |qs| && SumEntity(qs[j]) == EntityKeys(qs)[i];
  }

  /** `trimestres` is the number of distinct periods of the operator: its
      line counts the operator's quarter sums, which have pairwise
      different periods, one for every period seen on the operator's rows
      with a state, and none for any other period. */
  lemma TrimestresCount(rows: seq<Enriched>, i: nat)
    requires i < |QuarterStats(rows)|
    ensures var qs := ByQuarter(rows); var o := QuarterStats(rows)[i];
      o.trimestres == |Group(qs, SumEntity, o.entity)| && DistinctBy(Group(qs, SumEntity, o.entity), SumPeriodo)
  {
    var qs := ByQuarter(rows);
    ByQuarterKeys(rows);
    EntityPeriodsDistinct(qs, QuarterStats(rows)[i].entity);
  }

  lemma TrimestresComplete(rows: seq<Enriched>, e: seq<string>, r: nat) returns (q: QuarterSum)
    requires r < |rows| && HasUf(rows[r]) && EntityKey(rows[r]) == e
    ensures q in Group(ByQuarter(rows), SumEntity, e) && q.periodo == Periodo(rows[r])
  {
    var qs := ByQuarter(rows);
    var j := ByQuarterCovers(rows, r);
    GroupComplete(qs, SumEntity, e, j);
    q := qs[j];
  }

  lemma TrimestresSound(rows: seq<Enriched>, e: seq<string>, q: QuarterSum) returns (r: nat)
    requires q in Group(ByQuarter(rows), SumEntity, e)
    ensures r < |rows| && HasUf(rows[r]) && EntityKey(rows[r]) == e && Periodo(rows[r]) == q.periodo
  {
    var qs := ByQuarter(rows);
    assert q in multiset(qs);
    var j := Position(qs, q);
    r := ByQuarterSound(rows, j);
  }

  /** Every operator with a row that has a state gets one line, in
      ascending order, and no other operator does. */
  lemma QuarterStatsOrdered(rows: seq<Enriched>)
    ensures var out := QuarterStats(rows);
      forall i, j :: 0 <= i < j < |out| ==> out[i].entity != out[j].entity && FieldsLe(out[i].entity, out[j].entity)
  {
    var qs := ByQuarter(rows);
    EntityKeysSpec(qs);
    ByEntityKeys(qs);
  }

  lemma QuarterStatsCovers(rows: seq<Enriched>, r: nat) returns (i: nat)
    requires r < |rows| && HasUf(rows[r])
    ensures i < |QuarterStats(rows)| && QuarterStats(rows)[i].entity == EntityKey(rows[r])
  {
    var qs := ByQuarter(rows);
    var j := ByQuarterCovers(rows, r);
    EntityKeysSpec(qs);
    ByEntityKeys(qs);
    i := Position(EntityKeys(qs), SumEntity(qs[j]));
  }

  lemma QuarterStatsSound(rows: seq<Enriched>, i: nat) returns (r: nat)
    requires i < |QuarterStats(rows)|
    ensures r < |rows| && HasUf(rows[r]) && EntityKey(rows[r]) == QuarterStats(rows)[i].entity
  {
    var qs := ByQuarter(rows);
    ByEntityKeys(qs);
    var j := EntityWitness(qs, i);
    r := ByQuarterSound(rows, j);
  }
}
