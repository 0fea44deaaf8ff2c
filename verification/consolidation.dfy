/** The consolidator (`consolidar_e_tratar_inconsistencias`): per-row
    validation with its inconsistency log, quarter and year normalisation,
    the duplicate-name post-pass and the final sort by (Ano, Trimestre, CNPJ). */
module Consolidation {
  import opened Wrappers
  import opened Text
  import opened Normalize
  import opened Grouping
  import Sorting

  /** The `status` column: 'OK' or 'ZERADO'. */
  datatype Status = Ok | Zeroed

  /** The `tipo` of a logged value: 'NEGATIVO' or 'ZERADO'. */
  datatype Defect = Negative | Zero

  /** An entry of `valores_invalidos`. */
  datatype InvalidValue = InvalidValue(cnpj: string, kind: Defect, amount: real)

  /** A row of the consolidated ledger. */
  datatype Record = Record(cnpj: string, razaoSocial: string, trimestre: string, ano: string,
                           valor: real, status: Status)

  /** An entry of `cnpj_duplicados_suspeitos`. */
  datatype Suspect = Suspect(cnpj: string, names: set<string>)

  /** The inconsistency report. */
  datatype Report = Report(suspects: seq<Suspect>, invalid: seq<InvalidValue>,
                           removed: nat, processed: nat, finals: nat)

  /** The fate of one row: dropped or kept, with the log entries it wrote. */
  datatype Outcome = Dropped(log: seq<InvalidValue>) | Kept(rec: Record, log: seq<InvalidValue>)

  // ---------------------------------------------------------------------------
  // reading one row

  /** `str(cell)`: NaN renders as "nan". */
  function Render(c: Cell): string {
    match c
    case Missing => "nan"
    case Str(s) => s
    case Int(i) => IntToString(i)
  }

  /** A text field: the stripped rendering, or '' when the column is absent. */
  function FieldText(row: NormRow, f: Field): string {
    if f in row then Strip(Render(row[f])) else ""
  }

  /** `float(row['valor'])` with NaN replaced by 0; an absent column reads
      as 0, and None means `float` raised. */
  function Amount(row: NormRow): Option<real> {
    if Valor !in row then Some(0.0)
    else match row[Valor]
      case Missing => Some(0.0)
      case Int(i) => Some(i as real)
      case Str(s) =>
        match ParseNumber(s)
        case None => None
        case Some(NaN) => Some(0.0)
        case Some(Finite(v)) => Some(v)
  }

  /** The CNPJ check of the consolidator: present and not the text of NaN. */
  predicate UsableCnpj(cnpj: string) {
    cnpj != "" && cnpj != "nan"
  }

  // ---------------------------------------------------------------------------
  // quarter and year

  /** Quarter text with the 'Q' notation removed: when the upper-cased text
      starts with 'Q', every 'Q' of the upper-cased text goes. */
  function QuarterDigits(t: string): string {
    if StartsWith(Upper(t), "Q") then RemoveChar(Upper(t), 'Q') else t
  }

  /** The quarter as written to the ledger: `zfill(2)` of QuarterDigits. */
  function NormalizeQuarter(t: string): string {
    ZFill(QuarterDigits(t), 2)
  }

  /** The year as written to the ledger: a year shorter than 4 characters
      gets the prefix "20" when its integer value is below 100; None when
      `int` raises on it. */
  function NormalizeYear(a: string): Option<string> {
    if |a| < 4 then
      match ParseInt(a)
      case None => None
      case Some(v) => Some(if v < 100 then "20" + a else a)
    else Some(a)
  }

  /** A quarter whose first character does not upper-case to 'Q' is left
      alone by the 'Q' removal. */
  lemma QuarterDigitsPlain(t: string)
    requires |t| > 0 ==> UpperChar(t[0]) != 'Q'
    ensures QuarterDigits(t) == t
  {
    if |t| > 0 {
      assert Upper(t)[..1] != "Q" by { assert Upper(t)[..1][0] == UpperChar(t[0]); }
    }
  }

  /** The ledger quarter has at least two characters; a quarter of two or
      more characters (after the 'Q' removal) is kept as it is, a shorter
      one is left-padded with '0'; no 'Q' survives the 'Q' notation; and
      normalising a normalised quarter changes nothing. */
  lemma NormalizeQuarterSpec(t: string)
    ensures |NormalizeQuarter(t)| >= 2
    ensures |QuarterDigits(t)| >= 2 ==> NormalizeQuarter(t) == QuarterDigits(t)
    ensures |QuarterDigits(t)| < 2 && (|QuarterDigits(t)| == 0 || IsDigit(QuarterDigits(t)[0])) ==>
              NormalizeQuarter(t) == Zeros(2 - |QuarterDigits(t)|) + QuarterDigits(t)
    ensures StartsWith(Upper(t), "Q") ==> 'Q' !in QuarterDigits(t)
    ensures NormalizeQuarter(NormalizeQuarter(t)) == NormalizeQuarter(t)
  {
    var u := QuarterDigits(t);
    var r := NormalizeQuarter(t);
    ZFillShape(u, 2);
    ZFillShape(r, 2);
    if |u| < 2 {
      assert r[0] == '0' || r[0] == '+' || r[0] == '-';
    } else if StartsWith(Upper(t), "Q") {
      assert u[0] in Upper(t);
      var k :| 0 <= k < |t| && Upper(t)[k] == u[0];
      assert UpperChar(u[0]) == u[0] by { assert u[0] == UpperChar(t[k]); }
    } else {
      assert Upper(t)[..1] != "Q";
      assert Upper(t)[..1][0] == UpperChar(t[0]);
    }
    QuarterDigitsPlain(r);
  }

  /** The quarter format is not enforced: a quarter of two or more
      characters that does not start with 'q' or 'Q' ("05", "T1", "2025-1")
      is written unchanged. */
  lemma QuarterFormatNotEnforced(t: string)
    requires |t| >= 2 && UpperChar(t[0]) != 'Q'
    ensures NormalizeQuarter(t) == t
  {
  }

  /** "Q1" is written as "01". */
  lemma QuarterQNotationExample(t: string)
    requires t == "Q1"
    ensures NormalizeQuarter(t) == "01"
  {
    assert Upper(t) == "Q1";
    assert StartsWith(Upper(t), "Q");
    assert RemoveChar("Q1", 'Q') == "1" by {
      assert "Q1"[1..] == "1";
      assert RemoveChar("1"[1..], 'Q') == [];
    }
    assert Zeros(1) == "0";
  }

  /** A bare quarter digit is padded: "4" is written as "04". */
  lemma QuarterDigitExample(t: string)
    requires t == "4"
    ensures NormalizeQuarter(t) == "04"
  {
    QuarterDigitsPlain(t);
    assert Zeros(1) == "0";
  }

  /** `int` of a one-character string succeeds only on a digit. */
  lemma {:induction false} ParseIntSingle(a: string)
    requires |a| == 1 && ParseInt(a).Some?
    ensures IsDigit(a[0]) && ParseInt(a).Some? && ParseInt(a).value == DigitValue(a[0])
  {
    var i, j := StripIsInfix(a);
    assert Strip(a) == a;
    assert a[1..] == [];
    assert AllDigits(a);
    assert a[..0] == [];
    assert DigitsValue(a) == DigitsValue(a[..0]) * 10 + DigitValue(a[0]);
    assert ParseInt(a).value == DigitsValue(a);
  }

  /** A digit string parses to its value. */
  lemma {:induction false} ParseIntDigits(a: string)
    requires |a| > 0 && AllDigits(a)
    ensures ParseInt(a).Some? && ParseInt(a).value == DigitsValue(a)
  {
    StripUnpadded(a);
  }

  lemma {:induction false} DigitsValueAppend(a: string, b: string)
    requires AllDigits(a) && AllDigits(b)
    ensures DigitsValue(a + b) == DigitsValue(a) * Pow10(|b|) + DigitsValue(b)
    decreases |b|
  {
    if |b| == 0 {
      assert a + b == a;
    } else {
      var b' := b[..|b| - 1];
      var d := DigitValue(b[|b| - 1]);
      assert (a + b)[..|a + b| - 1] == a + b';
      assert (a + b)[|a + b| - 1] == b[|b| - 1];
      assert DigitsValue(a + b) == DigitsValue(a + b') * 10 + d;
      assert DigitsValue(b) == DigitsValue(b') * 10 + d;
      DigitsValueAppend(a, b');
      ShiftDigit(DigitsValue(a), Pow10(|b'|), DigitsValue(b'), d);
    }
  }

  lemma {:induction false} TwentyValue(p: string)
    requires p == "20"
    ensures AllDigits(p) && DigitsValue(p) == 20
  {
    var q := p[..1];
    assert q == "2";
    assert q[..0] == "";
    assert DigitsValue(q) == DigitsValue(q[..0]) * 10 + DigitValue(q[0]);
    assert DigitsValue(p) == DigitsValue(q) * 10 + DigitValue(p[1]);
  }

  /** The century prefix puts 20 in front of the year's digits: 2000 is
      added to a two-digit year and 200 to a one-digit year. */
  lemma {:induction false} CenturyPrefixValue(a: string)
    requires 1 <= |a| <= 2 && AllDigits(a)
    ensures ParseInt("20" + a).Some? && ParseInt("20" + a).value == 20 * Pow10(|a|) + DigitsValue(a)
  {
    var p := "20";
    TwentyValue(p);
    PrefixValue(p, a);
  }

  lemma {:induction false} PrefixValue(p: string, a: string)
    requires AllDigits(p) && AllDigits(a) && |a| > 0
    ensures ParseInt(p + a).Some? && ParseInt(p + a).value == DigitsValue(p) * Pow10(|a|) + DigitsValue(a)
  {
    var s := p + a;
    assert AllDigits(s) by {
      forall i | 0 <= i < |s| ensures IsDigit(s[i]) {
        if i < |p| { assert s[i] == p[i]; } else { assert s[i] == a[i - |p|]; }
      }
    }
    DigitsValueAppend(p, a);
    ParseIntDigits(s);
  }

  /** Two-digit years gain the century: "25" becomes "2025", whose value
      is 2000 + 25. */
  lemma {:induction false} YearTwoDigits(a: string)
    requires |a| == 2 && AllDigits(a)
    ensures NormalizeYear(a).Some? && NormalizeYear(a).value == "20" + a
    ensures ParseInt(NormalizeYear(a).value).Some? && ParseInt(NormalizeYear(a).value).value == 2000 + DigitsValue(a)
  {
    ParseIntDigits(a);
    DigitsValueBound(a);
    PowTen(2);
    ShortYearPrefixed(a, DigitsValue(a));
    CenturyPrefixValue(a);
  }

  /** Years of four or more characters are kept verbatim, and a short year
      that `int` rejects drops its row. */
  lemma {:induction false} YearKeptOrRejected(a: string)
    ensures |a| >= 4 ==> NormalizeYear(a) == Some(a)
    ensures |a| < 4 && ParseInt(a).None? ==> NormalizeYear(a).None?
  {
  }

  /** Normalising a normalised year changes nothing. */
  lemma {:induction false} YearIdempotent(a: string)
    requires NormalizeYear(a).Some?
    ensures NormalizeYear(NormalizeYear(a).value) == NormalizeYear(a)
  {
    var y := NormalizeYear(a).value;
    if |a| < 4 {
      var v := ParseInt(a).value;
      if v < 100 {
        assert y == "20" + a;
        if |a| == 1 {
          ParseIntSingle(a);
          assert DigitsValue(a) == DigitsValue(a[..0]) * 10 + DigitValue(a[0]);
          CenturyPrefixValue(a);
          assert Pow10(1) == 10;
          assert |y| == 3 && ParseInt(y).value >= 100;
        } else {
          assert |y| >= 4;
        }
      } else {
        assert y == a;
      }
    }
  }

  /** The rule is literal about short years: a one-digit year d becomes
      "20d", a three-digit year in the two hundreds ("5" becomes "205",
      not "2005"). */
  lemma {:induction false} YearOneDigit(a: string)
    requires |a| == 1 && IsDigit(a[0])
    ensures NormalizeYear(a).Some? && NormalizeYear(a).value == "20" + a
    ensures ParseInt(NormalizeYear(a).value).Some? && ParseInt(NormalizeYear(a).value).value == 200 + DigitValue(a[0])
  {
    assert AllDigits(a);
    DigitsValueSingle(a);
    ParseIntDigits(a);
    ShortYearPrefixed(a, DigitValue(a[0]));
    PowTen(1);
    CenturyPrefixValue(a);
  }

  lemma {:induction false} ShortYearPrefixed(a: string, v: int)
    requires |a| < 4 && ParseInt(a) == Some(v) && v < 100
    ensures NormalizeYear(a).Some? && NormalizeYear(a).value == "20" + a
  {
  }

  lemma {:induction false} DigitsValueSingle(a: string)
    requires |a| == 1 && AllDigits(a)
    ensures DigitsValue(a) == DigitValue(a[0])
  {
    assert a[..0] == "";
  }

  lemma {:induction false} PowTen(n: nat)
    requires n <= 2
    ensures Pow10(n) == if n == 2 then 100 else if n == 1 then 10 else 1
  {
    if n > 0 {
      PowTen(n - 1);
    }
  }

  // ---------------------------------------------------------------------------
  // one row

  function ProcessRow(row: NormRow): Outcome {
    Classify(FieldText(row, Cnpj), FieldText(row, RazaoSocial), Amount(row),
             FieldText(row, Ano), FieldText(row, Trimestre))
  }

  /** The decisions of the row loop, on the row's fields once read. */
  function Classify(cnpj: string, razao: string, amount: Option<real>, ano: string, trimestre: string): Outcome {
    match amount
    case None => Dropped([])
    case Some(v) =>
      if !UsableCnpj(cnpj) then Dropped([])
      else if v < 0.0 then Dropped([InvalidValue(cnpj, Negative, v)])
      else
        var log := if v == 0.0 then [InvalidValue(cnpj, Zero, v)] else [];
        match NormalizeYear(ano)
        case None => Dropped(log)
        case Some(y) =>
          Kept(Record(cnpj, if razao == "" then "N/A" else razao,
                      NormalizeQuarter(trimestre), y, v,
                      if v > 0.0 then Ok else Zeroed),
               log)
  }

  /** What every ledger row satisfies. */
  predicate ValidRecord(r: Record) {
    && UsableCnpj(r.cnpj)
    && r.razaoSocial != ""
    && r.valor >= 0.0
    && (r.status == Ok <==> r.valor > 0.0)
    && |r.trimestre| >= 2
  }

  /** A row that logs a NEGATIVO entry. */
  predicate NegativeRow(row: NormRow) {
    UsableCnpj(FieldText(row, Cnpj)) && Amount(row).Some? && Amount(row).value < 0.0
  }

  /** A row that logs a ZERADO entry. */
  predicate ZeroRow(row: NormRow) {
    UsableCnpj(FieldText(row, Cnpj)) && Amount(row) == Some(0.0)
  }

  predicate IsNegativeEntry(e: InvalidValue) { e.kind == Negative }

  predicate IsZeroEntry(e: InvalidValue) { e.kind == Zero }

  /** The fate of a single row. Kept rows are valid records carrying the
      row's CNPJ and amount; a negative row is dropped with exactly one
      NEGATIVO entry; a zero row logs exactly one ZERADO entry and is kept
      as ZERADO unless its year is unreadable; a row without a usable CNPJ
      or with an unreadable amount is dropped silently. */
  lemma ProcessRowSpec(row: NormRow)
    ensures var o := ProcessRow(row);
      && (o.Kept? ==> ValidRecord(o.rec) && o.rec.cnpj == FieldText(row, Cnpj)
                      && Amount(row) == Some(o.rec.valor))
      && (NegativeRow(row) ==> o.Dropped? && |o.log| == 1 && o.log[0].kind == Negative
                               && o.log[0].amount == Amount(row).value)
      && (ZeroRow(row) ==> |o.log| == 1 && o.log[0].kind == Zero
                           && (o.Kept? <==> NormalizeYear(FieldText(row, Ano)).Some?)
                           && (o.Kept? ==> o.rec.status == Zeroed))
      && (!NegativeRow(row) && !ZeroRow(row) ==> o.log == [])
      && (!UsableCnpj(FieldText(row, Cnpj)) || Amount(row).None? ==> o == Dropped([]))
  {
    var cnpj, ano, trimestre := FieldText(row, Cnpj), FieldText(row, Ano), FieldText(row, Trimestre);
    var razao, amount := FieldText(row, RazaoSocial), Amount(row);
    ClassifyKept(cnpj, razao, amount, ano, trimestre);
    ClassifyLog(cnpj, razao, amount, ano, trimestre);
  }

  lemma ClassifyKept(cnpj: string, razao: string, amount: Option<real>, ano: string, trimestre: string)
    ensures var o := Classify(cnpj, razao, amount, ano, trimestre);
      && (o.Kept? ==> ValidRecord(o.rec) && o.rec.cnpj == cnpj && amount.Some? && amount.value == o.rec.valor)
      && (!UsableCnpj(cnpj) || amount.None? ==> o == Dropped([]))
  {
    var o := Classify(cnpj, razao, amount, ano, trimestre);
    if o.Kept? {
      ZFillShape(QuarterDigits(trimestre), 2);
    }
  }

  lemma ClassifyLog(cnpj: string, razao: string, amount: Option<real>, ano: string, trimestre: string)
    ensures var o := Classify(cnpj, razao, amount, ano, trimestre);
      && (UsableCnpj(cnpj) && amount.Some? && amount.value < 0.0 ==>
            o.Dropped? && |o.log| == 1 && o.log[0].kind == Negative && o.log[0].amount == amount.value)
      && (UsableCnpj(cnpj) && amount == Some(0.0) ==>
            |o.log| == 1 && o.log[0].kind == Zero
            && (o.Kept? <==> NormalizeYear(ano).Some?) && (o.Kept? ==> o.rec.status == Zeroed))
      && (!(UsableCnpj(cnpj) && amount.Some? && amount.value <= 0.0) ==> o.log == [])
  {
  }

  // ---------------------------------------------------------------------------
  // the row loop as a fold

  /** The lists and counters of the row loop: `dados_consolidados`,
      `valores_invalidos`, `linhas_removidas`, `linhas_processadas` and
      `linhas_finais`. */
  datatype Tally = Tally(kept: seq<Record>, log: seq<InvalidValue>, removed: nat, processed: nat, finals: nat)

  /** The loop body: count the row, log its entries, keep or remove it. */
  function Advance(t: Tally, o: Outcome): Tally {
    if o.Kept? then Tally(t.kept + [o.rec], t.log + o.log, t.removed, t.processed + 1, t.finals + 1)
    else Tally(t.kept, t.log + o.log, t.removed + 1, t.processed + 1, t.finals)
  }

  /** The tally after the row loop has seen `rows`. */
  function Run(rows: seq<NormRow>): Tally {
    if |rows| == 0 then Tally([], [], 0, 0, 0)
    else Advance(Run(rows[..|rows| - 1]), ProcessRow(rows[|rows| - 1]))
  }

  lemma RunStep(rows: seq<NormRow>, row: NormRow)
    ensures Run(rows + [row]) == Advance(Run(rows), ProcessRow(row))
  {
    assert (rows + [row])[..|rows|] == rows;
  }

  /** Every processed row is counted once, and either removed or kept:
      processed = removed + finals, and finals counts the ledger rows. */
  lemma {:induction false} RunBalance(rows: seq<NormRow>)
    ensures Run(rows).processed == |rows|
    ensures Run(rows).processed == Run(rows).removed + Run(rows).finals
    ensures Run(rows).finals == |Run(rows).kept|
    decreases |rows|
  {
    if |rows| > 0 {
      RunBalance(rows[..|rows| - 1]);
    }
  }

  /** Every ledger row is a valid record: usable CNPJ, non-negative value,
      status OK exactly when the value is positive. */
  lemma {:induction false} KeptValid(rows: seq<NormRow>)
    ensures forall i :: 0 <= i < |Run(rows).kept| ==> ValidRecord(Run(rows).kept[i])
    decreases |rows|
  {
    if |rows| > 0 {
      var prev, o := Run(rows[..|rows| - 1]), ProcessRow(rows[|rows| - 1]);
      KeptValid(rows[..|rows| - 1]);
      KeptRowValid(rows[|rows| - 1]);
      assert Run(rows) == Advance(prev, o);
    }
  }

  lemma KeptRowValid(row: NormRow)
    ensures ProcessRow(row).Kept? ==> ValidRecord(ProcessRow(row).rec)
  {
    ClassifyKept(FieldText(row, Cnpj), FieldText(row, RazaoSocial), Amount(row), FieldText(row, Ano), FieldText(row, Trimestre));
  }

  /** The log holds one NEGATIVO entry per negative row and one ZERADO
      entry per zero row (including zero rows later dropped by their
      year), and nothing else. */
  lemma {:induction false} LogCounts(rows: seq<NormRow>)
    ensures Count(Run(rows).log, IsNegativeEntry) == Count(rows, NegativeRow)
    ensures Count(Run(rows).log, IsZeroEntry) == Count(rows, ZeroRow)
    ensures |Run(rows).log| == Count(rows, NegativeRow) + Count(rows, ZeroRow)
    decreases |rows|
  {
    if |rows| > 0 {
      var init, row := rows[..|rows| - 1], rows[|rows| - 1];
      LogCounts(init);
      var entries := ProcessRow(row).log;
      assert Run(rows).log == Run(init).log + entries;
      CountAppend(Run(init).log, entries, IsNegativeEntry);
      CountAppend(Run(init).log, entries, IsZeroEntry);
      RowLogCounts(row);
    }
  }

  /** One row's log entries: one NEGATIVO for a negative row, one ZERADO for
      a zero row, none otherwise. */
  lemma RowLogCounts(row: NormRow)
    ensures var entries := ProcessRow(row).log;
      && Count(entries, IsNegativeEntry) == (if NegativeRow(row) then 1 else 0)
      && Count(entries, IsZeroEntry) == (if ZeroRow(row) then 1 else 0)
      && |entries| == (if NegativeRow(row) then 1 else 0) + (if ZeroRow(row) then 1 else 0)
  {
    ProcessRowSpec(row);
    var entries := ProcessRow(row).log;
    if |entries| == 1 {
      assert entries[..0] == [];
    }
  }

  // ---------------------------------------------------------------------------
  // duplicate names

  function CnpjOf(r: Record): string { r.cnpj }

  /** The names the ledger carries for `cnpj`. */
  function NamesOf(ledger: seq<Record>, cnpj: string): set<string> {
    set i | 0 <= i < |ledger| && ledger[i].cnpj == cnpj :: ledger[i].razaoSocial
  }

  function SuspectsAmong(keys: seq<string>, ledger: seq<Record>): seq<Suspect> {
    if |keys| == 0 then []
    else
      var rest := SuspectsAmong(keys[1..], ledger);
      var names := NamesOf(ledger, keys[0]);
      if |names| > 1 then [Suspect(keys[0], names)] + rest else rest
  }

  /** `cnpj_duplicados_suspeitos`, in order of first appearance. */
  function Suspects(ledger: seq<Record>): seq<Suspect> {
    SuspectsAmong(KeysInOrder(ledger, CnpjOf), ledger)
  }

  /** Every entry is one of the keys, with its names, and has two or more. */
  lemma {:induction false} SuspectsAmongSound(keys: seq<string>, ledger: seq<Record>)
    ensures forall k :: 0 <= k < |SuspectsAmong(keys, ledger)| ==>
      var e := SuspectsAmong(keys, ledger)[k];
      e.cnpj in keys && e.names == NamesOf(ledger, e.cnpj) && |e.names| >= 2
    decreases |keys|
  {
    if |keys| > 0 {
      SuspectsAmongSound(keys[1..], ledger);
    }
  }

  /** `cnpj` has an entry in `s`. */
  predicate Reported(s: seq<Suspect>, cnpj: string) {
    exists k :: 0 <= k < |s| && s[k].cnpj == cnpj
  }

  /** Every key with two or more names has an entry. */
  lemma {:induction false} SuspectsAmongComplete(keys: seq<string>, ledger: seq<Record>)
    ensures forall c :: c in keys && |NamesOf(ledger, c)| >= 2 ==> Reported(SuspectsAmong(keys, ledger), c)
    decreases |keys|
  {
    if |keys| > 0 {
      var s := SuspectsAmong(keys, ledger);
      var rest := SuspectsAmong(keys[1..], ledger);
      SuspectsAmongComplete(keys[1..], ledger);
      forall c | c in keys && |NamesOf(ledger, c)| >= 2
        ensures Reported(s, c)
      {
        if c == keys[0] {
          assert s[0].cnpj == c;
        } else {
          assert c in keys[1..];
          assert Reported(rest, c);
          var k :| 0 <= k < |rest| && rest[k].cnpj == c;
          assert s[|s| - |rest| + k] == rest[k];
        }
      }
    }
  }

  /** With distinct keys, no CNPJ has two entries. */
  lemma {:induction false} SuspectsAmongDistinct(keys: seq<string>, ledger: seq<Record>)
    requires Distinct(keys)
    ensures forall k, l :: 0 <= k < l < |SuspectsAmong(keys, ledger)| ==>
      SuspectsAmong(keys, ledger)[k].cnpj != SuspectsAmong(keys, ledger)[l].cnpj
    decreases |keys|
  {
    if |keys| > 0 {
      var rest := SuspectsAmong(keys[1..], ledger);
      SuspectsAmongDistinct(keys[1..], ledger);
      SuspectsAmongSound(keys[1..], ledger);
      forall k | 0 <= k < |rest| ensures rest[k].cnpj != keys[0] {
        assert rest[k].cnpj in keys[1..];
      }
    }
  }

  /** A CNPJ is reported exactly when the ledger carries two or more
      distinct names for it; it is reported once, with exactly those names. */
  lemma SuspectsSpec(ledger: seq<Record>)
    ensures var s := Suspects(ledger);
      && (forall k :: 0 <= k < |s| ==> s[k].names == NamesOf(ledger, s[k].cnpj) && |s[k].names| >= 2)
      && (forall c :: |NamesOf(ledger, c)| >= 2 <==> Reported(s, c))
      && (forall k, l :: 0 <= k < l < |s| ==> s[k].cnpj != s[l].cnpj)
  {
    var keys := KeysInOrder(ledger, CnpjOf);
    SuspectsAmongSound(keys, ledger);
    SuspectsAmongComplete(keys, ledger);
    SuspectsAmongDistinct(keys, ledger);
    forall c | |NamesOf(ledger, c)| >= 2
      ensures c in keys
    {
      var n :| n in NamesOf(ledger, c);
      var i :| 0 <= i < |ledger| && ledger[i].cnpj == c && ledger[i].razaoSocial == n;
      assert CnpjOf(ledger[i]) in keys;
    }
  }

  // ---------------------------------------------------------------------------
  // ordering

  function LedgerKey(r: Record): seq<string> { [r.ano, r.trimestre, r.cnpj] }

  /** `sort_values(['Ano', 'Trimestre', 'CNPJ'])` compares these keys. */
  predicate LedgerLe(a: Record, b: Record) {
    FieldsLe(LedgerKey(a), LedgerKey(b))
  }

  lemma LedgerLeTotalPreorder()
    ensures Sorting.TotalPreorder(LedgerLe)
  {
    forall a, b ensures LedgerLe(a, b) || LedgerLe(b, a) {
      FieldsLeTotal(LedgerKey(a), LedgerKey(b));
    }
    forall a, b, c | LedgerLe(a, b) && LedgerLe(b, c) ensures LedgerLe(a, c) {
      FieldsLeTransitive(LedgerKey(a), LedgerKey(b), LedgerKey(c));
    }
  }

  function SortLedger(ledger: seq<Record>): seq<Record> {
    Sorting.Sort(ledger, LedgerLe)
  }

  /** The rows whose (Ano, Trimestre, CNPJ) equals that of `y`. */
  function SameKey(y: Record): Record -> bool {
    x => LedgerKey(x) == LedgerKey(y)
  }

  /** The sorted ledger is a permutation of the kept rows, ordered by
      (Ano, Trimestre, CNPJ), rows with equal keys keep their kept-row
      order (the sort is stable), and sorting it again changes nothing. */
  lemma SortLedgerSpec(ledger: seq<Record>)
    ensures multiset(SortLedger(ledger)) == multiset(ledger)
    ensures Sorting.SortedBy(SortLedger(ledger), LedgerLe)
    ensures forall y :: Filter(SortLedger(ledger), SameKey(y)) == Filter(ledger, SameKey(y))
    ensures SortLedger(SortLedger(ledger)) == SortLedger(ledger)
  {
    LedgerLeTotalPreorder();
    Sorting.SortSorted(ledger, LedgerLe);
    Sorting.SortIdempotent(ledger, LedgerLe);
    forall y ensures Filter(SortLedger(ledger), SameKey(y)) == Filter(ledger, SameKey(y)) {
      SortLedgerStable(ledger, y);
    }
  }

  /** Stability: among the rows with the key of `y`, the sorted ledger keeps
      the order in which they were kept. */
  lemma SortLedgerStable(ledger: seq<Record>, y: Record)
    ensures Filter(SortLedger(ledger), SameKey(y)) == Filter(ledger, SameKey(y))
  {
    LedgerLeTotalPreorder();
    Sorting.SortStable(ledger, LedgerLe, y);
    SameKeyIsSameAs(ledger, y);
    SameKeyIsSameAs(SortLedger(ledger), y);
  }

  lemma SameKeyIsSameAs(s: seq<Record>, y: Record)
    ensures Filter(s, SameKey(y)) == Filter(s, Sorting.SameAs(LedgerLe, y))
  {
    forall i | 0 <= i < |s|
      ensures SameKey(y)(s[i]) == Sorting.SameAs(LedgerLe, y)(s[i])
    {
      if LedgerLe(s[i], y) && LedgerLe(y, s[i]) {
        FieldsLeAntisymmetric(LedgerKey(s[i]), LedgerKey(y));
      }
      FieldsLeTotal(LedgerKey(y), LedgerKey(y));
    }
    FilterCongruent(s, SameKey(y), Sorting.SameAs(LedgerLe, y));
  }

  // ---------------------------------------------------------------------------
  // the whole consolidation

  /** The inner loop: every row of one extract. */
  method RunTable(tally: Tally, ghost seen: seq<NormRow>, table: seq<NormRow>) returns (next: Tally)
    requires tally == Run(seen)
    ensures next == Run(seen + table)
  {
    next := tally;
    ghost var done := seen;
    for i := 0 to |table|
      invariant done == seen + table[..i]
      invariant next == Run(done)
    {
      RunStep(done, table[i]);
      next := Advance(next, ProcessRow(table[i]));
      TakeSnoc(seen, table, i);
      done := done + [table[i]];
    }
    assert table[..|table|] == table;
  }

  /** `consolidar_e_tratar_inconsistencias` over the normalised extracts. */
  method Consolidate(tables: seq<seq<NormRow>>) returns (ledger: seq<Record>, report: Report)
    ensures report.processed == |Concat(tables)|
    ensures report.processed == report.removed + report.finals
    ensures report.finals == |ledger|
    ensures multiset(ledger) == multiset(Run(Concat(tables)).kept)
    ensures forall i :: 0 <= i < |ledger| ==> ValidRecord(ledger[i])
    ensures Sorting.SortedBy(ledger, LedgerLe)
    ensures forall y :: Filter(ledger, SameKey(y)) == Filter(Run(Concat(tables)).kept, SameKey(y))
    ensures report.invalid == Run(Concat(tables)).log
    ensures report.suspects == Suspects(Run(Concat(tables)).kept)
  {
    var tally := Run([]);
    for t := 0 to |tables|
      invariant tally == Run(Concat(tables[..t]))
    {
      tally := RunTable(tally, Concat(tables[..t]), tables[t]);
      assert tables[..t + 1][..t] == tables[..t];
    }
    assert tables[..|tables|] == tables;
    var rows := Concat(tables);
    RunBalance(rows);
    KeptValid(rows);
    SortLedgerSpec(tally.kept);
    ledger := SortLedger(tally.kept);
    forall i | 0 <= i < |ledger| ensures ValidRecord(ledger[i]) {
      assert ledger[i] in multiset(tally.kept);
    }
    report := Report(Suspects(tally.kept), tally.log, tally.removed, tally.processed, tally.finals);
  }
}
