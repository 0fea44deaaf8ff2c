/** Column normalisation (`normalizar_dataframe`) and the period fallback
    applied right after it in `processar_arquivos`. A parsed extract is a
    header plus rows of cells; parsing itself is not modelled. */
module Normalize {
  import opened Wrappers
  import opened Text
  import Discovery

  /** A cell as the parser hands it over: NaN, a string, or an integer. */
  datatype Cell = Missing | Str(s: string) | Int(i: int)

  /** The canonical fields, in the order of the synonym table. */
  datatype Field = Cnpj | RazaoSocial | Valor | Trimestre | Ano

  const Fields: seq<Field> := [Cnpj, RazaoSocial, Valor, Trimestre, Ano]

  lemma FieldsComplete(f: Field)
    ensures f in Fields
  {
    match f
    case Cnpj => assert Fields[0] == f;
    case RazaoSocial => assert Fields[1] == f;
    case Valor => assert Fields[2] == f;
    case Trimestre => assert Fields[3] == f;
    case Ano => assert Fields[4] == f;
  }

  /** The synonym table: accepted column-name fragments per field, in priority order. */
  function Synonyms(f: Field): seq<string> {
    match f
    case Cnpj => ["cnpj", "cnpj_empresa", "cnpj_operadora", "cod_operadora", "codigo", "reg_ans"]
    case RazaoSocial => ["razão social", "razao_social", "nome", "empresa", "operadora", "denominacao", "descricao"]
    case Valor => ["valor despesa", "valor_despesa", "despesa", "valor",
                   "valor_sinistro", "sinistro", "valor_evento", "valor_total",
                   "vl_saldo_final", "vl_saldo_inicial", "valor_", "vl_"]
    case Trimestre => ["trimestre", "mes", "periodo", "quarter", "q", "mes_"]
    case Ano => ["ano", "year"]
  }

  /** Column names lower-cased and stripped. */
  function CleanHeader(header: seq<string>): (r: seq<string>)
    ensures |r| == |header|
    ensures forall j :: 0 <= j < |header| ==> r[j] == Strip(Lower(header[j]))
  {
    seq(|header|, j requires 0 <= j < |header| => Strip(Lower(header[j])))
  }

  /** The column contains one of the synonyms or is contained in one. */
  predicate NameMatches(col: string, synonyms: seq<string>) {
    exists s :: s in synonyms && (Contains(col, s) || Contains(s, col))
  }

  /** A column the search can bind: a non-empty name that matches. An empty
      name does match (it is contained in every synonym) but is falsy, so
      the search neither stops at it nor binds it. */
  predicate Bindable(col: string, synonyms: seq<string>) {
    col != "" && NameMatches(col, synonyms)
  }

  /** The search for one field, from column `from` on. */
  function FindColumn(cols: seq<string>, synonyms: seq<string>, from: nat): (r: Option<nat>)
    ensures r.Some? ==> from <= r.value < |cols| && Bindable(cols[r.value], synonyms)
    ensures r.Some? ==> forall j :: from <= j < r.value ==> !Bindable(cols[j], synonyms)
    ensures r.None? ==> forall j :: from <= j < |cols| ==> !Bindable(cols[j], synonyms)
    decreases |cols| - from
  {
    if from >= |cols| then None
    else if Bindable(cols[from], synonyms) then Some(from)
    else FindColumn(cols, synonyms, from + 1)
  }

  /** The column index each field is bound to under the synonym table
      `syn`; unmatched fields are absent. */
  function BindingsWith(header: seq<string>, syn: Field -> seq<string>): map<Field, nat>
  {
    var cols := CleanHeader(header);
    map f | f in Fields && FindColumn(cols, syn(f), 0).Some? :: FindColumn(cols, syn(f), 0).value
  }

  function Bindings(header: seq<string>): map<Field, nat> {
    BindingsWith(header, Synonyms)
  }

  /** A normalised row: the bound fields and their cells. */
  type NormRow = map<Field, Cell>

  /** Short rows are padded with NaN by the parser. */
  function CellAt(row: seq<Cell>, j: nat): Cell {
    if j < |row| then row[j] else Missing
  }

  /** Column `j` shares its name with another column. */
  predicate NamedTwice(cols: seq<string>, j: int)
    requires 0 <= j < |cols|
  {
    exists k :: 0 <= k < |cols| && k != j && cols[k] == cols[j]
  }

  /** Cleaned column `j` shares its name with another cleaned column. The
      header is the one the reader hands over, whose exact repeats are
      already renamed apart, so this arises only from lower-casing and
      stripping (`CNPJ` next to `cnpj`). */
  predicate CleanedTwice(header: seq<string>, j: int)
    requires 0 <= j < |header|
  {
    NamedTwice(CleanHeader(header), j)
  }

  /** Some field is bound to a name the cleaned header holds twice: selecting
      it yields two columns, and assigning them to one field raises, so the
      file is skipped. */
  predicate BoundTwice(header: seq<string>, syn: Field -> seq<string>) {
    var b := BindingsWith(header, syn);
    exists f :: f in b && b[f] < |header| && CleanedTwice(header, b[f])
  }

  /** `normalizar_dataframe`: one row per input row carrying the bound
      columns; with no field bound the result is the empty frame. None: the
      assignment of a doubly named column raises and the file is skipped. */
  function NormalizeTableWith(header: seq<string>, rows: seq<seq<Cell>>, syn: Field -> seq<string>): Option<seq<NormRow>>
  {
    if BoundTwice(header, syn) then None
    else Some(ProjectAll(rows, BindingsWith(header, syn)))
  }

  /** Every row projected on the bound columns; no row at all when nothing
      is bound. */
  function ProjectAll(rows: seq<seq<Cell>>, b: map<Field, nat>): seq<NormRow> {
    if b == map[] then []
    else seq(|rows|, i requires 0 <= i < |rows| => Project(rows[i], b))
  }

  /** The cells of `row` at the bound columns. */
  function Project(row: seq<Cell>, b: map<Field, nat>): (r: NormRow)
    ensures r.Keys == b.Keys
    ensures forall f :: f in b ==> r[f] == CellAt(row, b[f])
  {
    map f | f in b :: CellAt(row, b[f])
  }

  /** The table of the original program. */
  function NormalizeTable(header: seq<string>, rows: seq<seq<Cell>>): Option<seq<NormRow>> {
    NormalizeTableWith(header, rows, Synonyms)
  }

  /** Field `f` is bound to column `j` of the header: `j` is the first
      column whose cleaned name is non-empty and matches a synonym of `f`. */
  predicate FirstMatch(header: seq<string>, syn: Field -> seq<string>, f: Field, j: int) {
    && 0 <= j < |header|
    && Bindable(Strip(Lower(header[j])), syn(f))
    && forall k :: 0 <= k < j ==> !Bindable(Strip(Lower(header[k])), syn(f))
  }

  /** The binding of each field is its first match, and a field with no
      match is unbound. */
  lemma BindingsSpec(header: seq<string>, syn: Field -> seq<string>)
    ensures forall f :: f in BindingsWith(header, syn) <==> exists j :: FirstMatch(header, syn, f, j)
    ensures forall f, j :: FirstMatch(header, syn, f, j) ==> f in BindingsWith(header, syn) && BindingsWith(header, syn)[f] == j
  {
    var cols := CleanHeader(header);
    var b := BindingsWith(header, syn);
    forall f, j | FirstMatch(header, syn, f, j)
      ensures f in b && b[f] == j
    {
      var found := FindColumn(cols, syn(f), 0);
      FieldsComplete(f);
    }
    forall f | f in b
      ensures FirstMatch(header, syn, f, b[f])
    {
    }
  }

  /** The file is skipped exactly when some field's first match has a
      cleaned name that another column also has. */
  lemma BoundTwiceSpec(header: seq<string>, syn: Field -> seq<string>)
    ensures BoundTwice(header, syn) <==> exists f, j :: FirstMatch(header, syn, f, j) && CleanedTwice(header, j)
  {
    BindingsSpec(header, syn);
    var b := BindingsWith(header, syn);
    if BoundTwice(header, syn) {
      var f :| f in b && b[f] < |header| && CleanedTwice(header, b[f]);
      assert FirstMatch(header, syn, f, b[f]);
    }
    if exists f, j :: FirstMatch(header, syn, f, j) && CleanedTwice(header, j) {
      var f, j :| FirstMatch(header, syn, f, j) && CleanedTwice(header, j);
      assert f in b && b[f] == j;
    }
  }

  /** Normalisation skips the file exactly when a bound name is held by two
      columns; otherwise it keeps exactly the fields that have a matching
      column, each taken from the first such column (no column is reserved
      for one field), and keeps one row per input row unless nothing
      matched. */
  lemma NormalizeSpec(header: seq<string>, rows: seq<seq<Cell>>, syn: Field -> seq<string>)
    ensures var r := NormalizeTableWith(header, rows, syn);
      && (r.None? <==> exists f, j :: FirstMatch(header, syn, f, j) && CleanedTwice(header, j))
      && (r.Some? && (exists f, j :: FirstMatch(header, syn, f, j)) ==> |r.value| == |rows|)
      && ((forall f, j :: !FirstMatch(header, syn, f, j)) ==> r == Some([]))
      && (r.Some? ==> forall i, f :: 0 <= i < |r.value| ==>
           && (f in r.value[i] <==> exists j :: FirstMatch(header, syn, f, j))
           && (forall j :: FirstMatch(header, syn, f, j) ==> f in r.value[i] && r.value[i][f] == CellAt(rows[i], j)))
  {
    NormalizeCount(header, rows, syn);
    var r := NormalizeTableWith(header, rows, syn);
    if r.Some? {
      forall i, f | 0 <= i < |r.value|
        ensures f in r.value[i] <==> exists j :: FirstMatch(header, syn, f, j)
        ensures forall j :: FirstMatch(header, syn, f, j) ==> f in r.value[i] && r.value[i][f] == CellAt(rows[i], j)
      {
        NormalizeRow(header, rows, syn, i, f);
      }
    }
  }

  lemma NormalizeCount(header: seq<string>, rows: seq<seq<Cell>>, syn: Field -> seq<string>)
    ensures var r := NormalizeTableWith(header, rows, syn);
      && (r.None? <==> exists f, j :: FirstMatch(header, syn, f, j) && CleanedTwice(header, j))
      && (r.Some? && (exists f, j :: FirstMatch(header, syn, f, j)) ==> |r.value| == |rows|)
      && ((forall f, j :: !FirstMatch(header, syn, f, j)) ==> r == Some([]))
  {
    BindingsSpec(header, syn);
    BoundTwiceSpec(header, syn);
    var b := BindingsWith(header, syn);
    if exists f, j :: FirstMatch(header, syn, f, j) {
      var f, j :| FirstMatch(header, syn, f, j);
      assert f in b;
    }
  }

  lemma NormalizeRow(header: seq<string>, rows: seq<seq<Cell>>, syn: Field -> seq<string>, i: int, f: Field)
    requires NormalizeTableWith(header, rows, syn).Some?
    requires 0 <= i < |NormalizeTableWith(header, rows, syn).value|
    ensures var row := NormalizeTableWith(header, rows, syn).value[i];
      && (f in row <==> exists j :: FirstMatch(header, syn, f, j))
      && (forall j :: FirstMatch(header, syn, f, j) ==> f in row && row[f] == CellAt(rows[i], j))
  {
    BindingsSpec(header, syn);
    assert NormalizeTableWith(header, rows, syn).value[i] == Project(rows[i], BindingsWith(header, syn));
  }

  /** An extract after normalisation and the period fallback: when the
      frame is non-empty and has no year column, every row takes the year
      and the quarter of the directory the file came from (the quarter
      overwrites any quarter column). None: the file is skipped. */
  function ReadExtractWith(header: seq<string>, rows: seq<seq<Cell>>, period: Discovery.Period, syn: Field -> seq<string>): Option<seq<NormRow>>
  {
    match NormalizeTableWith(header, rows, syn)
    case None => None
    case Some(t) =>
      if |t| > 0 && Ano !in BindingsWith(header, syn) then
        Some(seq(|t|, i requires 0 <= i < |t| => t[i][Ano := Str(period.year)][Trimestre := Str(period.quarter)]))
      else Some(t)
  }

  /** The fallback skips exactly the files normalisation skips, never adds
      or drops rows, never touches the other fields, and leaves every row
      with a year. */
  lemma ReadExtractSpec(header: seq<string>, rows: seq<seq<Cell>>, period: Discovery.Period, syn: Field -> seq<string>)
    ensures var t := NormalizeTableWith(header, rows, syn); var r := ReadExtractWith(header, rows, period, syn);
      && (r.None? <==> t.None?)
      && (r.Some? ==> |r.value| == |t.value|)
      && (r.Some? ==> forall i :: 0 <= i < |r.value| ==>
           && Ano in r.value[i]
           && (forall f :: f != Ano && f != Trimestre ==> (f in r.value[i] <==> f in t.value[i]) && (f in t.value[i] ==> r.value[i][f] == t.value[i][f]))
           && (Ano in t.value[i] ==> r.value[i] == t.value[i])
           && (Ano !in t.value[i] ==> r.value[i][Ano] == Str(period.year) && r.value[i][Trimestre] == Str(period.quarter)))
  {
    var t := NormalizeTableWith(header, rows, syn);
    var r := ReadExtractWith(header, rows, period, syn);
    if r.Some? {
      forall i | 0 <= i < |r.value|
        ensures Ano in r.value[i]
        ensures forall f :: f != Ano && f != Trimestre ==> (f in r.value[i] <==> f in t.value[i]) && (f in t.value[i] ==> r.value[i][f] == t.value[i][f])
        ensures Ano in t.value[i] ==> r.value[i] == t.value[i]
        ensures Ano !in t.value[i] ==> r.value[i][Ano] == Str(period.year) && r.value[i][Trimestre] == Str(period.quarter)
      {
        ReadExtractRow(header, rows, period, syn, i);
      }
    }
  }

  /** Row `i` of an extract: the fallback applies exactly when the
      normalised row has no year. */
  lemma ReadExtractRow(header: seq<string>, rows: seq<seq<Cell>>, period: Discovery.Period, syn: Field -> seq<string>, i: int)
    requires ReadExtractWith(header, rows, period, syn).Some?
    requires 0 <= i < |ReadExtractWith(header, rows, period, syn).value|
    ensures var t := NormalizeTableWith(header, rows, syn); var r := ReadExtractWith(header, rows, period, syn).value;
      && t.Some? && i < |t.value|
      && (Ano in t.value[i] ==> r[i] == t.value[i])
      && (Ano !in t.value[i] ==> r[i] == t.value[i][Ano := Str(period.year)][Trimestre := Str(period.quarter)])
  {
    var t := NormalizeTableWith(header, rows, syn).value;
    var r := ReadExtractWith(header, rows, period, syn).value;
    var b := BindingsWith(header, syn);
    assert t[i] == Project(rows[i], b);
    if Ano in b {
      assert r == t;
    } else {
      assert Ano !in t[i];
    }
  }

  function ReadExtract(header: seq<string>, rows: seq<seq<Cell>>, period: Discovery.Period): Option<seq<NormRow>> {
    ReadExtractWith(header, rows, period, Synonyms)
  }

  /** A header of one column binds every field one of whose synonyms
      the cleaned column name contains. */
  lemma SingleColumnBinds(header: seq<string>, syn: Field -> seq<string>, f: Field, k: nat)
    requires |header| == 1 && Strip(Lower(header[0])) != ""
    requires k < |syn(f)| && Contains(Strip(Lower(header[0])), syn(f)[k])
    ensures f in BindingsWith(header, syn) && BindingsWith(header, syn)[f] == 0
  {
    BindingsSpec(header, syn);
    assert FirstMatch(header, syn, f, 0);
  }

  lemma ValorTrimestreCleaned(header: seq<string>)
    requires header == ["Valor_Trimestre"]
    ensures Strip(Lower(header[0])) == "valor_trimestre"
    ensures Contains("valor_trimestre", "valor") && Contains("valor_trimestre", "trimestre")
  {
    ValorTrimestreLower(header[0]);
    StripUnpadded("valor_trimestre");
    ValorTrimestreParts("valor_trimestre");
  }

  lemma ValorTrimestreLower(name: string)
    requires name == "Valor_Trimestre"
    ensures Lower(name) == "valor_trimestre"
  {
    var r := Lower(name);
    assert |r| == 15;
    forall i | 0 <= i < 15
      ensures r[i] == "valor_trimestre"[i]
    {
      assert r[i] == LowerChar(name[i]);
    }
  }

  lemma ValorTrimestreParts(col: string)
    requires col == "valor_trimestre"
    ensures Contains(col, "valor") && Contains(col, "trimestre")
  {
    assert col[..5] == "valor";
    assert StartsWith(col, "valor");
    assert col[6..15] == "trimestre";
    assert OccursAt(col, "trimestre", 6);
    ContainsAt(col, "trimestre");
  }

  /** One column may serve several fields: "Valor_Trimestre" binds both
      the amount and the quarter. */
  lemma SharedColumnExample(header: seq<string>)
    requires header == ["Valor_Trimestre"]
    ensures Valor in Bindings(header) && Bindings(header)[Valor] == 0
    ensures Trimestre in Bindings(header) && Bindings(header)[Trimestre] == 0
  {
    ValorTrimestreCleaned(header);
    assert Synonyms(Valor)[3] == "valor";
    SingleColumnBinds(header, Synonyms, Valor, 3);
    assert Synonyms(Trimestre)[0] == "trimestre";
    SingleColumnBinds(header, Synonyms, Trimestre, 0);
  }

  lemma CnpjCleaned(name: string)
    requires name == "CNPJ" || name == "cnpj"
    ensures Strip(Lower(name)) == "cnpj"
  {
    var r := Lower(name);
    forall i | 0 <= i < 4
      ensures r[i] == "cnpj"[i]
    {
      assert r[i] == LowerChar(name[i]);
    }
    assert r == "cnpj";
    StripUnpadded("cnpj");
  }

  /** A header `CNPJ;cnpj`: both names clean to `cnpj`, the CNPJ field is
      bound to the first, and the file is skipped. */
  lemma DoublyNamedCnpjSkipped(header: seq<string>, rows: seq<seq<Cell>>)
    requires header == ["CNPJ", "cnpj"]
    ensures NormalizeTable(header, rows).None?
  {
    CnpjCleaned(header[0]);
    CnpjCleaned(header[1]);
    assert Contains("cnpj", "cnpj") by { assert StartsWith("cnpj", "cnpj"); }
    assert Synonyms(Cnpj)[0] == "cnpj";
    assert "cnpj" in Synonyms(Cnpj);
    assert NameMatches("cnpj", Synonyms(Cnpj));
    assert Bindable(Strip(Lower(header[0])), Synonyms(Cnpj));
    assert FirstMatch(header, Synonyms, Cnpj, 0);
    assert CleanHeader(header)[1] == CleanHeader(header)[0];
    assert CleanedTwice(header, 0);
    NormalizeCount(header, rows, Synonyms);
  }
}
