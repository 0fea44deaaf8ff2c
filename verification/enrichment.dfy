/** The enrichment pass over the consolidated ledger (`process` in
    transform_validate.py): CNPJ cleaning and validation, the per-row
    validation flags, the side-list of invalid CNPJs, the registry
    conflicts, the keep-first deduplication and the left join, all applied
    chunk by chunk. The ledger is read back with every column as text, so a
    cell is a string, or NaN for an empty cell or one of pandas' default NA
    spellings ("N/A", "NA", "NULL", "None", "nan", ...). */
module Enrichment {
  import opened Wrappers
  import opened Text
  import opened Grouping

  /** One line of the consolidated ledger. */
  datatype LedgerRow = LedgerRow(
    cnpj: Option<string>,
    razaoSocial: Option<string>,
    trimestre: Option<string>,
    ano: Option<string>,
    valorDespesas: Option<string>)

  /** One line of the operator registry (`cadastro`), its CNPJ column
      already resolved by RegistryColumns. */
  datatype RegistryRow = RegistryRow(
    cnpj: Option<string>,
    registroAns: Option<string>,
    modalidade: Option<string>,
    uf: Option<string>)

  // ---------------------------------------------------------------------------
  // CNPJ

  /** `clean_cnpj`: the digits of the cell, in order; an empty cell gives "". */
  function CleanCnpj(cell: Option<string>): (r: string)
    ensures AllDigits(r)
    ensures |r| <= |cell.GetOr("")|
  {
    match cell
    case None => ""
    case Some(s) => KeepDigits(s)
  }

  /** Cleaning keeps exactly the digits, in their order: it distributes over
      concatenation, keeps a digit and drops anything else. */
  lemma CleanCnpjDigitsInOrder(a: string, b: string, c: char)
    ensures CleanCnpj(Some(a + b)) == CleanCnpj(Some(a)) + CleanCnpj(Some(b))
    ensures CleanCnpj(Some([c])) == if IsDigit(c) then [c] else []
  {
    KeepDigitsAppend(a, b);
    assert [c][1..] == [];
  }

  /** Cleaning a cleaned CNPJ changes nothing. */
  lemma CleanCnpjIdempotent(cell: Option<string>)
    ensures CleanCnpj(Some(CleanCnpj(cell))) == CleanCnpj(cell)
  {
    KeepDigitsOfDigits(CleanCnpj(cell));
  }

  /** `validate_cnpj`: the cleaned text has at least 5 characters and is all
      digits. The 14-digit check-digit test is not active in the program. */
  function ValidateCnpj(s: string): bool {
    var c := CleanCnpj(Some(s));
    !(|c| < 5 || !AllDigits(c))
  }

  /** A CNPJ is valid exactly when it has at least 5 digits, whatever else
      it contains and whatever its check digits. */
  lemma ValidateCnpjSpec(s: string)
    ensures ValidateCnpj(s) <==> |KeepDigits(s)| >= 5
    ensures ValidateCnpj(CleanCnpj(Some(s))) == ValidateCnpj(s)
  {
    CleanCnpjIdempotent(Some(s));
  }

  // ---------------------------------------------------------------------------
  // the per-row flags

  /** The amount column as a number: a decimal comma is read as a point;
      text that does not parse, and "nan", give no number (`to_numeric`
      with `errors='coerce'`). */
  function ValorNum(cell: Option<string>): Option<real> {
    match cell
    case None => None
    case Some(s) =>
      match ParseNumber(ReplaceChar(s, ',', '.'))
      case Some(Finite(v)) => Some(v)
      case _ => None
  }

  /** A row of the ledger with the columns the pass adds. */
  datatype Flagged = Flagged(
    row: LedgerRow,
    cnpjClean: string,
    cnpjValid: bool,
    valor: Option<real>,
    razao: string,
    validValor: bool,
    validRazao: bool)

  /** The validation columns of one ledger row. */
  function Flag(row: LedgerRow): Flagged {
    var clean := CleanCnpj(row.cnpj);
    var valor := ValorNum(row.valorDespesas);
    var razao := row.razaoSocial.GetOr("");
    Flagged(row, clean, ValidateCnpj(clean), valor,
            razao, valor.Some? && valor.value >= 0.0, Strip(razao) != "")
  }

  /** The flags mean what the program's validation rules say: the CNPJ is
      valid iff the cell has at least 5 digits; the amount is valid iff it
      parses to a number that is not negative; the name is valid iff it is
      present and not blank (an empty cell counts as ""). */
  lemma FlagSpec(row: LedgerRow)
    ensures Flag(row).row == row
    ensures Flag(row).cnpjClean == CleanCnpj(row.cnpj)
    ensures Flag(row).cnpjValid <==> |CleanCnpj(row.cnpj)| >= 5
    ensures Flag(row).validValor <==> exists v :: ValorNum(row.valorDespesas) == Some(v) && v >= 0.0
    ensures row.razaoSocial.None? ==> Flag(row).razao == "" && !Flag(row).validRazao
    ensures Flag(row).validRazao <==> row.razaoSocial.Some? && Strip(row.razaoSocial.value) != ""
  {
    var clean := CleanCnpj(row.cnpj);
    ValidateCnpjSpec(clean);
    KeepDigitsOfDigits(clean);
  }

  /** A decimal comma reads like a decimal point: "1234,56" is 1234.56. */
  lemma ValorNumDecimalComma(whole: string, frac: string)
    requires AllDigits(whole) && AllDigits(frac) && |whole| > 0
    ensures ValorNum(Some(whole + "," + frac)).Some? && ValorNum(Some(whole + "," + frac)).value == DecimalValue(whole, frac)
    ensures ValorNum(Some(whole + "." + frac)).Some? && ValorNum(Some(whole + "." + frac)).value == DecimalValue(whole, frac)
  {
    var t := whole + "." + frac;
    assert ReplaceChar(whole + "," + frac, ',', '.') == t;
    assert ReplaceChar(t, ',', '.') == t;
    ParseNumberDecimal(whole, frac);
  }

  // ---------------------------------------------------------------------------
  // the registry

  /** The column the registry's CNPJ is read from: the column named "CNPJ"
      if there is one, otherwise the first whose lower-cased name contains
      "cnpj". None: there is no such column and the pass stops with an
      error. */
  function CnpjColumn(header: seq<string>): (r: Option<nat>)
    ensures r.Some? ==> r.value < |header|
    ensures "CNPJ" in header ==> r.Some? && header[r.value] == "CNPJ"
    ensures "CNPJ" !in header && r.Some? ==>
              Contains(Lower(header[r.value]), "cnpj") &&
              forall j :: 0 <= j < r.value ==> !Contains(Lower(header[j]), "cnpj")
    ensures "CNPJ" !in header && r.None? ==> forall j :: 0 <= j < |header| ==> !Contains(Lower(header[j]), "cnpj")
  {
    if "CNPJ" in header then FindFrom(header, c => c == "CNPJ", 0)
    else FindFrom(header, c => Contains(Lower(c), "cnpj"), 0)
  }

  /** The first column from `from` on whose name satisfies `p`. */
  function FindFrom(header: seq<string>, p: string -> bool, from: nat): (r: Option<nat>)
    ensures r.Some? ==> from <= r.value < |header| && p(header[r.value])
    ensures r.Some? ==> forall j :: from <= j < r.value ==> !p(header[j])
    ensures r.None? ==> forall j :: from <= j < |header| ==> !p(header[j])
    decreases |header| - from
  {
    if from >= |header| then None
    else if p(header[from]) then Some(from)
    else FindFrom(header, p, from + 1)
  }

  function CellOf(row: seq<Option<string>>, j: nat): Option<string> {
    if j < |row| then row[j] else None
  }

  /** The registry as the join sees it, read from its header and cells;
      None when the CNPJ column or one of "RegistroANS", "Modalidade", "UF"
      is missing, which stops the pass with an error. */
  function RegistryColumns(header: seq<string>, cells: seq<seq<Option<string>>>): (r: Option<seq<RegistryRow>>)
    ensures r.Some? ==> |r.value| == |cells|
    ensures r.Some? ==> "RegistroANS" in header && "Modalidade" in header && "UF" in header && CnpjColumn(header).Some?
    ensures r.Some? ==> forall i :: 0 <= i < |cells| ==>
              r.value[i].cnpj == CellOf(cells[i], CnpjColumn(header).value)
  {
    var c := CnpjColumn(header);
    var reg := FindFrom(header, h => h == "RegistroANS", 0);
    var mod := FindFrom(header, h => h == "Modalidade", 0);
    var uf := FindFrom(header, h => h == "UF", 0);
    if c.None? || reg.None? || mod.None? || uf.None? then None
    else
      Some(seq(|cells|, i requires 0 <= i < |cells| =>
        RegistryRow(CellOf(cells[i], c.value), CellOf(cells[i], reg.value),
                    CellOf(cells[i], mod.value), CellOf(cells[i], uf.value))))
  }

  function RegKey(r: RegistryRow): string {
    CleanCnpj(r.cnpj)
  }

  /** `cadastro_conflicts`: each cleaned CNPJ found on two or more registry
      rows, with all of those rows in registry order. */
  function Conflicts(reg: seq<RegistryRow>): map<string, seq<RegistryRow>> {
    Duplicates(reg, RegKey)
  }

  /** A key is recorded exactly when two registry rows carry it; keys
      found once are never recorded. */
  lemma ConflictsSpec(reg: seq<RegistryRow>, k: string)
    ensures k in Conflicts(reg) <==>
              exists i, j :: 0 <= i < j < |reg| && RegKey(reg[i]) == k && RegKey(reg[j]) == k
  {
    DuplicatesKeys(reg, RegKey, k);
  }

  /** A recorded key lists every registry row that carries it, and no other. */
  lemma ConflictsRows(reg: seq<RegistryRow>, k: string)
    requires k in Conflicts(reg)
    ensures forall i :: 0 <= i < |Conflicts(reg)[k]| ==> RegKey(Conflicts(reg)[k][i]) == k
    ensures forall i :: 0 <= i < |reg| && RegKey(reg[i]) == k ==> reg[i] in Conflicts(reg)[k]
  {
    DuplicatesRows(reg, RegKey, k);
  }

  /** The first registry row with key `k`. */
  function First(reg: seq<RegistryRow>, k: string): (r: Option<RegistryRow>)
    ensures r.Some? ==> exists i :: 0 <= i < |reg| && reg[i] == r.value && RegKey(reg[i]) == k &&
                          forall j :: 0 <= j < i ==> RegKey(reg[j]) != k
    ensures r.None? ==> forall i :: 0 <= i < |reg| ==> RegKey(reg[i]) != k
  {
    if |reg| == 0 then None
    else
      var init := reg[..|reg| - 1];
      match First(init, k)
      case Some(x) => Some(x)
      case None => if RegKey(reg[|reg| - 1]) == k then Some(reg[|reg| - 1]) else None
  }

  /** `drop_duplicates(keep='first')` on the cleaned CNPJ: a row survives
      when no earlier row has its key. */
  function Dedup(reg: seq<RegistryRow>): seq<RegistryRow> {
    if |reg| == 0 then []
    else
      var init, x := reg[..|reg| - 1], reg[|reg| - 1];
      if First(init, RegKey(x)).Some? then Dedup(init) else Dedup(init) + [x]
  }

  /** After deduplication each key has at most one row, and it is the first
      row of the registry with that key. */
  lemma {:induction false} DedupGroup(reg: seq<RegistryRow>, k: string)
    ensures Group(Dedup(reg), RegKey, k) == match First(reg, k) case None => [] case Some(r) => [r]
    decreases |reg|
  {
    if |reg| > 0 {
      var init, x := reg[..|reg| - 1], reg[|reg| - 1];
      DedupGroup(init, k);
      if First(init, RegKey(x)).None? {
        var d := Dedup(init) + [x];
        assert d[..|d| - 1] == Dedup(init);
      }
    }
  }

  // ---------------------------------------------------------------------------
  // the left join

  /** A ledger row with the registry columns. */
  datatype Enriched = Enriched(
    flagged: Flagged,
    registroAns: Option<string>,
    modalidade: Option<string>,
    uf: Option<string>)

  function Enrich(f: Flagged, m: Option<RegistryRow>): (e: Enriched)
    ensures e.flagged == f
    ensures m.None? ==> e.registroAns.None? && e.modalidade.None? && e.uf.None?
  {
    match m
    case None => Enriched(f, None, None, None)
    case Some(r) => Enriched(f, r.registroAns, r.modalidade, r.uf)
  }

  /** The registry rows with cleaned CNPJ `k`, in registry order. */
  function Matches(reg: seq<RegistryRow>): string -> seq<RegistryRow> {
    k => Group(reg, RegKey, k)
  }

  /** A left merge on the cleaned CNPJ: one output row per matching
      registry row, or one row with empty registry columns when none
      matches. */
  function MergeRow(f: Flagged, matches: string -> seq<RegistryRow>): (r: seq<Enriched>)
    ensures |r| >= 1
  {
    var ms := matches(f.cnpjClean);
    if |ms| == 0 then [Enrich(f, None)]
    else seq(|ms|, i requires 0 <= i < |ms| => Enrich(f, Some(ms[i])))
  }

  /** The left join: every ledger row's merged rows, in ledger order. */
  function Merge(rows: seq<Flagged>, matches: string -> seq<RegistryRow>): seq<Enriched> {
    Concat(MapSeq(rows, MergeWith(matches)))
  }

  function MergeWith(matches: string -> seq<RegistryRow>): Flagged -> seq<Enriched> {
    f => MergeRow(f, matches)
  }

  /** Joined against the deduplicated registry, each ledger row gives
      exactly one row, in ledger order, carrying the registry columns of the
      first registry row with its cleaned CNPJ, or none. */
  lemma MergeOneToOne(rows: seq<Flagged>, reg: seq<RegistryRow>)
    ensures |Merge(rows, Matches(Dedup(reg)))| == |rows|
    ensures forall i :: 0 <= i < |rows| ==>
              Merge(rows, Matches(Dedup(reg)))[i] == Enrich(rows[i], First(reg, rows[i].cnpjClean))
  {
    var pieces := MapSeq(rows, MergeWith(Matches(Dedup(reg))));
    forall i | 0 <= i < |rows|
      ensures |pieces[i]| == 1 && pieces[i][0] == Enrich(rows[i], First(reg, rows[i].cnpjClean))
    {
      DedupGroup(reg, rows[i].cnpjClean);
    }
    ConcatSingletons(pieces);
  }

  lemma MergeAppend(a: seq<Flagged>, b: seq<Flagged>, matches: string -> seq<RegistryRow>)
    ensures Merge(a + b, matches) == Merge(a, matches) + Merge(b, matches)
  {
    var g := MergeWith(matches);
    MapSeqAppend(a, b, g);
    ConcatAppend(MapSeq(a, g), MapSeq(b, g));
  }

  // ---------------------------------------------------------------------------
  // one chunk, and the chunk fold

  /** What one chunk contributes: its joined rows, its invalid-CNPJ rows,
      its count of rows with no "RegistroANS", and the registry conflicts. */
  datatype Part = Part(
    enriched: seq<Enriched>,
    invalid: seq<Flagged>,
    missing: nat,
    conflicts: map<string, seq<RegistryRow>>)

  function FlagAll(rows: seq<LedgerRow>): seq<Flagged> {
    MapSeq(rows, Flag)
  }

  predicate InvalidCnpj(f: Flagged) {
    !f.cnpjValid
  }

  predicate NoRegistroAns(e: Enriched) {
    e.registroAns.None?
  }

  /** The registry rows the join finds for a key: those of the deduplicated
      registry, or none when there is no registry. */
  function Lookup(registry: Option<seq<RegistryRow>>): string -> seq<RegistryRow> {
    match registry
    case None => k => []
    case Some(reg) => Matches(Dedup(reg))
  }

  /** Processes one chunk of the ledger. With no registry every row keeps
      empty registry columns and the missing counter does not move. */
  function ProcessChunk(rows: seq<LedgerRow>, registry: Option<seq<RegistryRow>>): Part {
    ProcessFlagged(FlagAll(rows), registry)
  }

  /** The chunk's work once its rows carry their validation columns. */
  function ProcessFlagged(flagged: seq<Flagged>, registry: Option<seq<RegistryRow>>): Part {
    var left := Merge(flagged, Lookup(registry));
    Part(left, Filter(flagged, InvalidCnpj),
         if registry.Some? then Count(left, NoRegistroAns) else 0,
         if registry.Some? then Conflicts(registry.value) else map[])
  }

  /** Adds one chunk's part to the running totals. */
  function Combine(acc: Part, p: Part): Part {
    Part(acc.enriched + p.enriched, acc.invalid + p.invalid, acc.missing + p.missing,
         acc.conflicts + p.conflicts)
  }

  /** The loop over chunks. */
  function FoldChunks(chunks: seq<seq<LedgerRow>>, registry: Option<seq<RegistryRow>>): Part {
    FoldPieces(chunks, ChunkWith(registry), Combine, NoPart)
  }

  function ChunkWith(registry: Option<seq<RegistryRow>>): seq<LedgerRow> -> Part {
    c => ProcessChunk(c, registry)
  }

  /** The accumulator before the first chunk. */
  const NoPart := Part([], [], 0, map[])

  lemma MapUnionSelf<K, V>(m: map<K, V>)
    ensures m + m == m
  {
  }

  lemma ProcessFlaggedAppend(fa: seq<Flagged>, fb: seq<Flagged>, registry: Option<seq<RegistryRow>>)
    ensures Combine(ProcessFlagged(fa, registry), ProcessFlagged(fb, registry)) == ProcessFlagged(fa + fb, registry)
  {
    var d := Lookup(registry);
    FilterAppend(fa, fb, InvalidCnpj);
    MergeAppend(fa, fb, d);
    if registry.Some? {
      ProcessFlaggedAppendRegistry(fa, fb, registry.value);
    }
  }

  lemma ProcessFlaggedAppendRegistry(fa: seq<Flagged>, fb: seq<Flagged>, reg: seq<RegistryRow>)
    ensures var pa, pb, pab := ProcessFlagged(fa, Some(reg)), ProcessFlagged(fb, Some(reg)), ProcessFlagged(fa + fb, Some(reg));
      pa.missing + pb.missing == pab.missing && pa.conflicts + pb.conflicts == pab.conflicts
  {
    var d := Lookup(Some(reg));
    MergeAppend(fa, fb, d);
    CountAppend(Merge(fa, d), Merge(fb, d), NoRegistroAns);
    MapUnionSelf(Conflicts(reg));
  }

  /** Processing two pieces one after the other is processing them
      together. */
  lemma {:induction false} ProcessChunkAppend(a: seq<LedgerRow>, b: seq<LedgerRow>, registry: Option<seq<RegistryRow>>)
    ensures Combine(ProcessChunk(a, registry), ProcessChunk(b, registry)) == ProcessChunk(a + b, registry)
  {
    MapSeqAppend(a, b, Flag);
    ProcessFlaggedAppend(FlagAll(a), FlagAll(b), registry);
  }

  /** Chunking does not change the result: the fold over any non-empty
      list of chunks equals processing their concatenation at once. */
  lemma FoldChunksWhole(chunks: seq<seq<LedgerRow>>, registry: Option<seq<RegistryRow>>)
    requires |chunks| > 0
    ensures FoldChunks(chunks, registry) == ProcessChunk(Concat(chunks), registry)
  {
    var f := ChunkWith(registry);
    forall a, b ensures Combine(f(a), f(b)) == f(a + b) {
      ProcessChunkAppend(a, b, registry);
    }
    forall a ensures Combine(NoPart, f(a)) == f(a) {
      CombineEmpty(f(a));
    }
    FoldPiecesConcat(chunks, f, Combine, NoPart);
  }

  lemma CombineEmpty(p: Part)
    ensures Combine(NoPart, p) == p
  {
    assert map[] + p.conflicts == p.conflicts;
  }

  // ---------------------------------------------------------------------------
  // reading in chunks

  const ChunkSize: nat := 200000

  /** The chunks `read_csv(chunksize=n)` yields: consecutive pieces of `n`
      rows, the last one possibly shorter. A ledger with a header and no
      rows still yields one empty chunk: the reader returns an empty frame
      on its first read. */
  function Chunks(rows: seq<LedgerRow>, n: nat): (r: seq<seq<LedgerRow>>)
    requires n > 0
    ensures |r| >= 1
    ensures |rows| == 0 ==> r == [[]]
    ensures |rows| > 0 ==> forall i :: 0 <= i < |r| ==> 0 < |r[i]| <= n
    ensures forall i :: 0 <= i < |r| - 1 ==> |r[i]| == n
    decreases |rows|
  {
    if |rows| <= n then [rows]
    else [rows[..n]] + Chunks(rows[n..], n)
  }

  /** The chunks laid end to end are the ledger. */
  lemma {:induction false} ChunksConcat(rows: seq<LedgerRow>, n: nat)
    requires n > 0
    ensures Concat(Chunks(rows, n)) == rows
    decreases |rows|
  {
    if |rows| <= n {
      assert Concat([rows]) == Concat([rows][..0]) + rows;
    } else {
      ChunksConcat(rows[n..], n);
      ConcatAppend([rows[..n]], Chunks(rows[n..], n));
      assert Concat([rows[..n]]) == Concat([rows[..n]][..0]) + rows[..n];
      assert rows[..n] + rows[n..] == rows;
    }
  }

  /** The counters of `relatorio_transformacao.json`. */
  datatype Summary = Summary(rowsRead: nat, invalidCnpj: nat, missingInRegistry: nat, conflicts: nat)

  datatype Output = Output(enriched: seq<Enriched>, invalid: seq<Flagged>, summary: Summary)

  /** The enrichment pass with a given chunk size. The reader always yields
      at least one chunk, so the branch of the program that finds no part
      to concatenate is never taken and every output is written. */
  function EnrichWith(ledger: seq<LedgerRow>, registry: Option<seq<RegistryRow>>, n: nat): Output
    requires n > 0
  {
    var p := FoldChunks(Chunks(ledger, n), registry);
    Output(p.enriched, p.invalid, Summary(|p.enriched|, |p.invalid|, p.missing, |p.conflicts.Keys|))
  }

  function EnrichLedger(ledger: seq<LedgerRow>, registry: Option<seq<RegistryRow>>): Output {
    EnrichWith(ledger, registry, ChunkSize)
  }

  /** The registry row a ledger key is joined with. */
  function Joined(registry: Option<seq<RegistryRow>>, k: string): Option<RegistryRow> {
    match registry
    case None => None
    case Some(reg) => First(reg, k)
  }

  /** With no registry each row gives one row with empty registry columns. */
  lemma MergeNoRegistry(rows: seq<Flagged>)
    ensures |Merge(rows, Lookup(None))| == |rows|
    ensures forall i :: 0 <= i < |rows| ==> Merge(rows, Lookup(None))[i] == Enrich(rows[i], None)
  {
    var pieces := MapSeq(rows, MergeWith(Lookup(None)));
    forall i | 0 <= i < |rows|
      ensures |pieces[i]| == 1 && pieces[i][0] == Enrich(rows[i], None)
    {
    }
    ConcatSingletons(pieces);
  }

  /** The join keeps one row per ledger row, in order, with the registry
      columns of the first registry row that has its cleaned CNPJ. */
  lemma JoinOneToOne(rows: seq<Flagged>, registry: Option<seq<RegistryRow>>)
    ensures |Merge(rows, Lookup(registry))| == |rows|
    ensures forall i :: 0 <= i < |rows| ==>
              Merge(rows, Lookup(registry))[i] == Enrich(rows[i], Joined(registry, rows[i].cnpjClean))
  {
    match registry
    case None => MergeNoRegistry(rows);
    case Some(reg) => MergeOneToOne(rows, reg);
  }

  /** Whatever the chunk size, the pass is the whole ledger processed as one
      chunk; a ledger with no rows gives empty outputs and zero row counters,
      while the conflicts still come from the registry. */
  lemma EnrichWhole(ledger: seq<LedgerRow>, registry: Option<seq<RegistryRow>>, n: nat)
    requires n > 0
    ensures var p := ProcessChunk(ledger, registry);
      EnrichWith(ledger, registry, n) ==
        Output(p.enriched, p.invalid, Summary(|p.enriched|, |p.invalid|, p.missing, |p.conflicts.Keys|))
  {
    ChunksConcat(ledger, n);
    FoldChunksWhole(Chunks(ledger, n), registry);
  }

  /** A ledger with a header and no rows: nothing is enriched or listed as
      invalid and no row is missing from the registry, but the registry's
      conflicts are still counted. */
  lemma EnrichHeaderOnly(registry: Option<seq<RegistryRow>>, n: nat)
    requires n > 0
    ensures var o := EnrichWith([], registry, n);
      && o.enriched == [] && o.invalid == []
      && o.summary.rowsRead == 0 && o.summary.invalidCnpj == 0 && o.summary.missingInRegistry == 0
      && o.summary.conflicts == if registry.Some? then |Conflicts(registry.value).Keys| else 0
  {
    EnrichWhole([], registry, n);
    JoinOneToOne([], registry);
  }

  /** One enriched row per ledger row, in order, each with the first
      registry row of its cleaned CNPJ (or none); `rows_read_approx_chunked`
      is the ledger's length. */
  lemma EnrichRows(ledger: seq<LedgerRow>, registry: Option<seq<RegistryRow>>, n: nat)
    requires n > 0
    ensures var o := EnrichWith(ledger, registry, n);
      && |o.enriched| == |ledger|
      && o.summary.rowsRead == |ledger|
      && forall i :: 0 <= i < |ledger| ==>
           o.enriched[i] == Enrich(Flag(ledger[i]), Joined(registry, CleanCnpj(ledger[i].cnpj)))
  {
    EnrichWhole(ledger, registry, n);
    JoinOneToOne(FlagAll(ledger), registry);
  }

  /** The invalid side-list is exactly the ledger rows whose CNPJ is invalid
      (they also stay in the enriched output), and the missing and conflict
      counters agree with the join and the registry; with no registry both
      stay 0 although no row has a "RegistroANS". */
  lemma EnrichCounters(ledger: seq<LedgerRow>, registry: Option<seq<RegistryRow>>, n: nat)
    requires n > 0
    ensures var o := EnrichWith(ledger, registry, n);
      && o.invalid == Filter(FlagAll(ledger), InvalidCnpj)
      && o.summary.invalidCnpj == Count(FlagAll(ledger), InvalidCnpj)
      && (registry.Some? ==> o.summary.missingInRegistry == Count(o.enriched, NoRegistroAns))
      && (registry.Some? ==> o.summary.conflicts == |Conflicts(registry.value).Keys|)
      && (registry.None? ==> o.summary.missingInRegistry == 0 && o.summary.conflicts == 0)
      && (registry.None? ==> forall i :: 0 <= i < |o.enriched| ==> NoRegistroAns(o.enriched[i]))
  {
    EnrichWhole(ledger, registry, n);
    JoinOneToOne(FlagAll(ledger), registry);
  }
}
