# ANS expense consolidation and enrichment — a Dafny model

This project models the consolidation and enrichment pipeline of the ANS
(Agência Nacional de Saúde Suplementar) expense scripts. The pipeline is a
chain of pure functions over sequences of rows:

- **Discovery** (`listar_trimestres_disponiveis`). Sub-directories named like
  `1T2025` are reporting periods. The three most recent are kept, newest first.
- **Delimiter** (the separator loops of `processar_arquivos`).
  - For `.csv` and `.txt` extracts, the separator is chosen from a fixed
    candidate list. Each one-row read is modelled as a *probe* that either
    raises or yields a column count. A probe also says whether the full read
    that follows an accepted one-row read would raise; then the loop goes on.
  - The consolidated ledger is re-read with the `;`/`,` rule of `process`.
- **Normalize** (`normalizar_dataframe` and the period fallback that follows it).
  - Header names are lower-cased and stripped.
  - Each canonical field (`cnpj`, `razao_social`, `valor`, `trimestre`,
    `ano`) is bound to the first column that contains one of its synonyms or
    is contained in one.
  - A bound name that two columns share once cleaned (`CNPJ` next to
    `cnpj`) makes the assignment raise, and the file is skipped.
  - A table without `ano` takes the year and quarter of its directory.
- **Consolidation** (`consolidar_e_tratar_inconsistencias`).
  - Each row is validated: an unusable CNPJ drops it. An amount that `float`
    rejects drops it. A negative amount drops it and is logged as NEGATIVO. A
    zero amount is logged as ZERADO and kept.
  - The quarter and the year are normalised.
  - The report counters are kept.
  - A post-pass lists the CNPJs that carry several company names.
  - The ledger is sorted by (Ano, Trimestre, CNPJ).
- **Enrichment** (`process` in `transform_validate.py`).
  - `clean_cnpj` and `validate_cnpj`.
  - The validation flags and the side-list of invalid CNPJs.
  - Conflicts in the operator registry (`cadastro`), which is deduplicated
    keep-first.
  - A left join on the cleaned CNPJ, and the counter of rows with no registry
    match.
  - All of this runs chunk by chunk; `FoldChunks` is the loop over chunks.
    A ledger with a header and no rows still gives one (empty) chunk.
- **Aggregation**: the two grouped aggregates of `process`.
  - Totals and counts per (RazaoSocial, UF).
  - The number of quarters per (CNPJ, RazaoSocial, UF), computed after summing
    per period.

Python semantics the pipeline relies on live in `Text`:

- `strip`, `lower`/`upper`, `in` on strings, `replace`, `zfill`.
- `int()` and `float()` on decimal literals.
- `<=` on `str` and on tuples of `str`.

`Sorting` holds a generic stable sort. `Grouping` holds the generic group-by,
filter, count, concatenation and fold helpers.

Modelling choices:

- A parsed cell is NaN, a string or an integer (`Normalize.Cell`).
- Amounts are exact decimals (`real`). The ledger stores them as decimal text
  such as `100.0`, and `float` is modelled exactly on such literals.
- Character classes are limited to the ASCII/Latin-1 range. These are
  `isdigit`, `\d`, whitespace for `strip`, and case mapping for `lower`/`upper`.
- Group keys come out in ascending order, as `groupby` sorts them.
- Rows whose `UF` is empty are left out of the per-period aggregate, because
  `groupby` drops keys containing NaN.

In several places the code does something other than what its own comments,
messages, docstring or names announce. The model follows the code:

- A `.csv` extract accepts `;` even when it yields a single column, although
  the comment at ans_integration.py:176 says the accepted separator is the
  right one.
- A `.txt` extract where no separator gives more than one column keeps its
  one-row preview. It does not reach the "could not read the file" branch
  (ans_integration.py:186 and :205) that the loop's fallback is meant for.
  Both cases are under "Findings".
- The docstring at ans_integration.py:298 says zero and negative amounts are
  removed with a log entry. The code keeps zero amounts with status ZERADO and
  removes negative ones, as the treatment list printed at ans_integration.py:433
  and :435 says. A zero-amount row is logged as ZERADO before its year is
  checked, so a row whose short year `int` rejects is logged and then dropped.
- With no registry, the counter `missing_in_cadastro` (transform_validate.py:227)
  stays 0 although no row has a `RegistroANS`.
- CNPJs with several company names are announced as marked in the status
  (ans_integration.py:431) and as "marked as suspect" in the docstring
  (ans_integration.py:297). The code only lists them in
  `cnpj_duplicados_suspeitos`: `status` is OK or ZERADO by amount alone
  (ans_integration.py:382), as `Consolidation.KeptValid` states.
- Quarters are announced as normalised to the format `01`-`04`
  (ans_integration.py:437). The code only removes a leading-Q notation and pads
  to two characters, so `05`, `T1` or `2025-1` are written unchanged
  (`Consolidation.QuarterFormatNotEnforced`).

## Model

| member | source | states |
|---|---|---|
| Discovery.MatchDirName | ans_integration.py:55-59 | Any directory name that starts with a one-digit quarter, `T` and a four-digit year matches, whatever follows, and yields that (year, quarter) pair |
| Discovery.MatchPeriodSound | ans_integration.py:55-59 | Conversely, every match is a one-digit quarter and a four-digit year, and the name begins with `<quarter>T<year>` |
| Discovery.MatchedSpec | ans_integration.py:52-59 | A period is collected exactly when some listing entry is a directory whose name matches to it; files never contribute |
| Discovery.DiscoverOrdered | ans_integration.py:72-75 | Discovery returns min(3, number of matches) periods, in descending (year, quarter) order |
| Discovery.DiscoverSound | ans_integration.py:52-75 | Every returned period is well-formed and comes from a matching directory of the listing |
| Discovery.DiscoverSkipped | ans_integration.py:72-75 | A matched period left out means three periods were returned, and it is not newer than the last of them |
| Discovery.DiscoverSpec | ans_integration.py:37-81 | The count, order, origin and cut-off facts above, stated together, and each period is returned at most as often as it matched: the result is a prefix of a permutation of the matches |
| Discovery.DiscoverSubMultiset | ans_integration.py:72-75 | The returned periods, with multiplicity, are contained in the matches |
| Discovery.NewestFirstTotalPreorder | ans_integration.py:72 | The descending (year, quarter) string comparison is a total preorder, so the sort is well defined |
| Discovery.PeriodLeIsChronological | ans_integration.py:72 | On well-formed periods the string-pair order used by the sort is calendar order (year * 10 + quarter) |
| Discovery.MatchedExample | ans_integration.py:52-59 | A concrete listing: `1T2025`, `4T2024_extra`, `3T2025` and `2T2025` match; the file `2T2025.zip` and the directory `output` do not |
| Discovery.DiscoverExample | ans_integration.py:37-81 | On that listing, discovery returns 2025/3, 2025/2, 2025/1 |
| Delimiter.ChooseFromSpec | ans_integration.py:169-183 | The separator loop accepts the first candidate that reads, is accepted and whose full read succeeds. A candidate that is not accepted, or whose full read raises, leaves its one-row preview and the loop goes on. With none accepted, `df` holds the preview of the last candidate that read. With every read raising, `df` is unchanged |
| Delimiter.CsvSemicolonWins | ans_integration.py:171-183 | For `.csv`, `;` is chosen exactly when its one-row read yields at least one column and its full read succeeds. If that full read raises, the loop goes on: the file is read with a later separator or keeps a preview, and is never left unreadable |
| Delimiter.TxtCommaHeader | ans_integration.py:192-200 | A `.txt` file with header `a,b,c` is read with `,` |
| Delimiter.SemicolonHeader | ans_integration.py:171-200 | A header `a;b;c` is read with `;` both as `.csv` and as `.txt` |
| Delimiter.CsvCommaHeaderReadAsOneColumn | ans_integration.py:171-181 | As written, a comma-separated `.csv` header is accepted with `;` as a single column |
| Delimiter.TxtSingleColumnKeepsPreview | ans_integration.py:191-206 | As written, a `.txt` file whose header has no separator keeps the one-row preview read with the pipe separator |
| Delimiter.ChooseSeparatorIntended | ans_integration.py:169-206 | Corrected rule: the choice is never a preview. An accepted separator is a candidate that gives more than one column and whose full read succeeds, and no earlier candidate does. The file is unreadable exactly when no candidate does |
| Delimiter.IntendedCommaHeader | ans_integration.py:171-181 | Under the corrected rule a comma-separated `.csv` header is read with `,` |
| Delimiter.IntendedSingleColumn | ans_integration.py:192-206 | Under the corrected rule a single-column `.txt` file is skipped |
| Delimiter.LedgerDelimiterRoundTrip | transform_validate.py:110-113 | When the ledger header is joined with `;` (two or more columns) or `,`, and no column name contains `;`, the first-line rule recovers that separator |
| Normalize.CleanHeader | ans_integration.py:251 | Every column name is lower-cased and stripped, and no column is added or lost |
| Normalize.FindColumn | ans_integration.py:273-279 | The search returns the first column from its start index whose non-empty name matches a synonym, or none if there is no such column |
| Normalize.BindingsSpec | ans_integration.py:270-283 | A field is bound exactly when some cleaned, non-empty column contains or is contained in one of its synonyms, and it is bound to the first such column |
| Normalize.NormalizeSpec | ans_integration.py:267-285 | The file is skipped exactly when some field's first matching column has a cleaned name another column shares. Otherwise there is one output row per input row when any field is bound, and none when no field is. Each row has exactly the bound fields, each holding the cell of its first matching column |
| Normalize.NormalizeCount | ans_integration.py:267-285 | The table is skipped exactly when a bound cleaned name is shared. Otherwise the output row count is the input row count when any field matches, and 0 when none does |
| Normalize.BoundTwiceSpec | ans_integration.py:281-282 | The assignment raises exactly when some field's first match has a cleaned name that another column also has |
| Normalize.DoublyNamedCnpjSkipped | ans_integration.py:251-282 | Example: with header `CNPJ`, `cnpj` both names clean to `cnpj`, the CNPJ field binds to them, and the file is skipped |
| Normalize.NormalizeRow | ans_integration.py:281-282 | In each output row of a table that is not skipped, a field is present exactly when it has a first match, and it holds that column's cell (NaN for a short row) |
| Normalize.SingleColumnBinds | ans_integration.py:273-282 | A lone column containing a synonym of a field is bound to that field |
| Normalize.SharedColumnExample | ans_integration.py:257-282 | No column is exclusive: `Valor_Trimestre` binds both `valor` and `trimestre` |
| Normalize.ReadExtractSpec | ans_integration.py:209-224 | An extract is skipped exactly when normalisation raises. Otherwise the period fallback keeps the row count and leaves fields other than year and quarter untouched. Every row ends with a year. A row with no year takes the directory's year and quarter |
| Normalize.ReadExtractRow | ans_integration.py:215-217 | A row is changed exactly when its table has no `ano` column, and then only in `ano` and `trimestre` |
| Consolidation.ProcessRowSpec | ans_integration.py:319-387 | Per row: a kept row is a valid record with the row's CNPJ and amount. A negative row is dropped with exactly one NEGATIVO entry. A zero row logs exactly one ZERADO entry, and it is kept (with ZERADO status) exactly when its year normalises. An unusable CNPJ, or an amount `float` rejects, drops the row silently |
| Consolidation.ClassifyKept | ans_integration.py:332-384 | The row decision on the row's fields: a kept record is valid and carries the CNPJ and amount; an unusable CNPJ or unreadable amount gives a silent drop |
| Consolidation.ClassifyLog | ans_integration.py:346-363 | Log entries: one NEGATIVO for a negative amount (and a drop), one ZERADO for a zero amount, none otherwise |
| Consolidation.RunBalance | ans_integration.py:319-387 | Every processed row is counted once: `linhas_processadas` = number of rows = `linhas_removidas` + `linhas_finais`, and `linhas_finais` = ledger length |
| Consolidation.KeptValid | ans_integration.py:356-384 | Every ledger row has a usable CNPJ, a non-empty name, a value ≥ 0, status OK exactly when the value is positive, and a quarter of at least two characters |
| Consolidation.LogCounts | ans_integration.py:346-363 | The log holds one NEGATIVO entry per negative row, one ZERADO entry per zero row, and nothing else |
| Consolidation.RowLogCounts | ans_integration.py:346-363 | A single row contributes 1 or 0 entries of each kind, according to its amount |
| Consolidation.NormalizeQuarterSpec | ans_integration.py:366-369 | The quarter has at least 2 characters. A quarter that is already 2 or more characters is unchanged, and a shorter one is zero-padded on the left. No `Q` survives the Q notation. Normalising twice is normalising once |
| Consolidation.QuarterDigitsPlain | ans_integration.py:366-367 | A quarter that does not start with `q`/`Q` is not touched by the `Q` removal |
| Consolidation.QuarterFormatNotEnforced | ans_integration.py:366-369 | A quarter of two or more characters that does not start with `q`/`Q` is written unchanged, whatever its format |
| Consolidation.QuarterQNotationExample | ans_integration.py:366-369 | Example: `Q1` becomes `01` |
| Consolidation.QuarterDigitExample | ans_integration.py:369 | Example: `4` becomes `04` |
| Consolidation.YearTwoDigits | ans_integration.py:372-373 | A two-digit year gains the prefix `20`, and its value becomes 2000 + the year |
| Consolidation.YearOneDigit | ans_integration.py:372-373 | A one-digit year d becomes `20d`, whose value is 200 + d; the rule is literal |
| Consolidation.YearKeptOrRejected | ans_integration.py:372-373 | Years of four or more characters are kept verbatim; a short year that `int` rejects makes the row fail |
| Consolidation.YearIdempotent | ans_integration.py:372-373 | Normalising a normalised year changes nothing |
| Consolidation.CenturyPrefixValue | ans_integration.py:373 | The `20` prefix adds 20 * 10^len to the value of a one- or two-digit year |
| Consolidation.SuspectsAmongSound | ans_integration.py:394-399 | Every suspect entry is a ledger CNPJ, listed with exactly its names, and has at least two of them |
| Consolidation.SuspectsAmongComplete | ans_integration.py:394-399 | Every CNPJ with two or more names has an entry |
| Consolidation.SuspectsAmongDistinct | ans_integration.py:390-399 | No CNPJ has two entries |
| Consolidation.SuspectsSpec | ans_integration.py:389-399 | A CNPJ is reported exactly when the ledger, which holds kept rows only, carries two or more names for it. It is reported once, with exactly those names |
| Consolidation.LedgerLeTotalPreorder | ans_integration.py:405-406 | The (Ano, Trimestre, CNPJ) comparison is a total preorder |
| Consolidation.SortLedgerSpec | ans_integration.py:404-406 | The sorted ledger is a permutation of the kept rows, in (Ano, Trimestre, CNPJ) order. Rows with equal keys keep their kept-row order. Sorting it again changes nothing |
| Consolidation.SortLedgerStable | ans_integration.py:406 | For any key, the sorted ledger's rows with that (Ano, Trimestre, CNPJ) are the kept rows with it, in kept order |
| Consolidation.RunTable | ans_integration.py:315-387 | The inner loop over one extract extends the tally exactly as the row fold does |
| Consolidation.Consolidate | ans_integration.py:292-440 | The consolidator's ledger is the sorted permutation of the kept rows, with equal-key rows in kept order, and all of them are valid. processed = removed + finals = the total row count of all extracts, and finals = ledger length. The report carries the row log and the duplicate-name entries |
| Enrichment.CleanCnpj | transform_validate.py:14-19 | The cleaned CNPJ is all digits and no longer than the cell; an empty cell gives `""` |
| Enrichment.CleanCnpjDigitsInOrder | transform_validate.py:19 | Cleaning keeps exactly the digits in order: it distributes over concatenation, keeps a digit and drops any other character |
| Enrichment.CleanCnpjIdempotent | transform_validate.py:14-19 | Cleaning a cleaned CNPJ changes nothing |
| Enrichment.ValidateCnpjSpec | transform_validate.py:22-46 | A CNPJ is valid exactly when it contains at least 5 digits, whatever else it contains; validating a cleaned CNPJ gives the same answer; check digits play no part |
| Enrichment.FlagSpec | transform_validate.py:133-149 | `CNPJ_valid` holds iff the cell has ≥ 5 digits. `valid_valor` holds iff the amount parses to a number ≥ 0. `valid_razao` holds iff the name is present and not blank (an empty cell reads as `""`) |
| Enrichment.ValorNumDecimalComma | transform_validate.py:137-138 | A decimal comma reads like a decimal point: `whole,frac` and `whole.frac` both give whole + frac/10^len |
| Enrichment.CnpjColumn | transform_validate.py:160-165 | The registry's CNPJ column is the one named `CNPJ` if present, otherwise the first whose lower-cased name contains `cnpj`; none means no such column |
| Enrichment.RegistryColumns | transform_validate.py:159-173 | The registry can be read only when it has a CNPJ-like column and `RegistroANS`, `Modalidade` and `UF`. It is then read row for row, its CNPJ from the chosen column |
| Enrichment.ConflictsSpec | transform_validate.py:167-170 | A cleaned key is recorded as a conflict exactly when two registry rows carry it |
| Enrichment.ConflictsRows | transform_validate.py:168-170 | A recorded key lists every registry row with that key, and only such rows |
| Enrichment.First | transform_validate.py:172 | The row kept for a key is the first registry row with that key, or none if no row has it |
| Enrichment.DedupGroup | transform_validate.py:172 | After `drop_duplicates(keep='first')` each key has exactly the first registry row with it, or no row |
| Enrichment.Enrich | transform_validate.py:173-179 | A joined row keeps the ledger row and its flags; with no match all three registry columns are null |
| Enrichment.MergeOneToOne | transform_validate.py:172-173 | Joined with the deduplicated registry, each ledger row gives exactly one row, in order, carrying the first registry row of its key or nulls |
| Enrichment.MergeAppend | transform_validate.py:173 | The left join of two pieces is the concatenation of their joins |
| Enrichment.MergeNoRegistry | transform_validate.py:175-179 | With no registry each ledger row gives one row with null `RegistroANS`, `Modalidade` and `UF` |
| Enrichment.JoinOneToOne | transform_validate.py:157-179 | In both branches the join yields one row per ledger row, in order, with the first registry row of its cleaned CNPJ or nulls |
| Enrichment.ProcessFlaggedAppend | transform_validate.py:151-181 | Processing two flagged pieces and adding their results equals processing them together: join, invalid list, missing count and conflicts |
| Enrichment.ProcessChunkAppend | transform_validate.py:128-181 | Processing two chunks one after the other is processing their concatenation |
| Enrichment.FoldChunksWhole | transform_validate.py:116-128 | The fold over any non-empty list of chunks equals processing their concatenation in one go |
| Enrichment.Chunks | transform_validate.py:116-128 | The reader yields at least one chunk. A ledger with rows gives non-empty chunks of at most the chunk size, all full except the last. A header-only ledger gives one empty chunk |
| Enrichment.ChunksConcat | transform_validate.py:116-117 | The chunks laid end to end are the ledger |
| Enrichment.EnrichWhole | transform_validate.py:128-187 | Whatever the chunk size, the output is the whole ledger processed at once, and the report counters are read off it |
| Enrichment.EnrichHeaderOnly | transform_validate.py:128-229 | A header-only ledger gives no enriched or invalid rows and zero row counters, but `cadastro_conflicts_count` is still the registry's number of conflicting keys |
| Enrichment.EnrichRows | transform_validate.py:128-187 | There is one enriched row per ledger row, in order, carrying its flags and the first registry row of its cleaned CNPJ. `rows_read_approx_chunked` equals the ledger length |
| Enrichment.EnrichCounters | transform_validate.py:151-229 | The invalid list is exactly the rows with an invalid CNPJ, and `invalid_cnpj_count` is its size. `missing_in_cadastro` counts the joined rows with no `RegistroANS`. `cadastro_conflicts_count` counts the conflicting keys. With no registry both counters are 0 and every row has null registry columns |
| Aggregation.OperatorKeysSpec | transform_validate.py:202 | The (RazaoSocial, UF or `N/A`) keys are each listed once, ascending, and they are exactly the keys that occur |
| Aggregation.ByOperatorPartition | transform_validate.py:202-203 | The first aggregate has one line per occurring key, ascending, and no line for a key that does not occur |
| Aggregation.ByOperatorConserves | transform_validate.py:202-203 | Each line's total is the sum of its group's present amounts and its count the number of them. The totals add up to the sum of all amounts, and the counts to the number of present amounts |
| Aggregation.QuarterKeysSpec | transform_validate.py:212-214 | The (CNPJ_clean, RazaoSocial, UF, Periodo) keys of the rows with a state are listed once each, and each comes from such a row |
| Aggregation.ByQuarterKeys | transform_validate.py:214 | The per-period sums are keyed by those keys, one sum per key |
| Aggregation.ByQuarterValues | transform_validate.py:210-215 | Each `ValorTrimestral` is the total of the amounts of the rows with a state that carry its (operator, `Ano_Trimestre`) key |
| Aggregation.ByQuarterCovers | transform_validate.py:210-214 | Every row with a state has the per-period sum of its (operator, `Ano_Trimestre`) key |
| Aggregation.ByQuarterSound | transform_validate.py:214 | Every per-period sum comes from a row with a state; rows without a state are not grouped |
| Aggregation.ByQuarterConserves | transform_validate.py:214 | The per-period sums add up to the total amount of the rows with a state |
| Aggregation.EntityPeriodsDistinct | transform_validate.py:214-217 | The per-period sums of one operator have pairwise different periods |
| Aggregation.EntityKeysSpec | transform_validate.py:217 | The operator keys of the second aggregate are each listed once, ascending, and they are exactly those of the per-period sums |
| Aggregation.TrimestresCount | transform_validate.py:217-221 | `trimestres` is the number of the operator's per-period sums, and these have pairwise different periods |
| Aggregation.TrimestresComplete | transform_validate.py:210-221 | Every period seen on one of the operator's rows with a state is among those counted |
| Aggregation.TrimestresSound | transform_validate.py:210-221 | Every counted period is seen on one of the operator's rows with a state |
| Aggregation.QuarterStatsOrdered | transform_validate.py:217-221 | The second aggregate has one line per operator, ascending |
| Aggregation.QuarterStatsCovers | transform_validate.py:214-221 | Every operator with a row that has a state gets a line |
| Aggregation.QuarterStatsSound | transform_validate.py:214-221 | Every line belongs to an operator with a row that has a state |
| Text.StripIsInfix | ans_integration.py:325-328 | `strip` returns an infix of its argument, and everything it cuts off is whitespace |
| Text.StripIdempotent | ans_integration.py:325-328 | Stripping twice is stripping once |
| Text.StripKeepsChar | transform_validate.py:111-113 | `strip` never removes a character that is not whitespace, so `';' in first_line` is unaffected by it |
| Text.RemoveChar | ans_integration.py:367 | `replace('Q', '')` leaves exactly the other characters, no `Q` |
| Text.ZFillShape | ans_integration.py:369 | `zfill(w)` never shortens and reaches `w`. It only inserts `0`s on the left, after a leading sign |
| Text.ParseIntOfString | ans_integration.py:373 | `int(str(i)) == i` |
| Text.ParseNumberExtendsParseInt | ans_integration.py:329 | Wherever `int` accepts a literal, `float` accepts it with the same value |
| Text.ParseNumberDecimal | ans_integration.py:329 | `float` reads `whole.frac` as whole + frac/10^len |
| Text.LexLeDigits | ans_integration.py:72 | For digit strings of equal length, string order is numeric order |
| Text.FieldsLeTransitive | ans_integration.py:406 | The tuple order on string tuples is transitive |
| Text.KeepDigitsAppend | transform_validate.py:19 | Keeping the digits of a concatenation is concatenating the digits kept |
| Sorting.SortSorted | ans_integration.py:72 | The stable sort returns its input ordered by any total preorder |
| Sorting.SortIdempotent | ans_integration.py:405-406 | Sorting a sorted sequence again changes nothing |
| Sorting.SortStable | ans_integration.py:406 | The sort is stable: for any element, the elements that compare equal to it both ways keep their relative order |

## Left out

- File and network I/O are left out: reading files, the `cadastro` download and HTML scraping (`download_cadastro`, `load_cadastro`), directory walks (`preparar_arquivos_locais`), and writing CSV, JSON and ZIP (`salvar_resultado_final`, the `to_csv`/`json.dump` calls). The directory listing, the parsed tables, the ledger and the registry are inputs instead.
- Encoding detection (`detectar_encoding`) and spreadsheet reading (`.xlsx`/`.xls`) are left out. Both are library calls; the model starts from the parsed table.
- The CSV parser itself is not modelled: quoting and `on_bad_lines='skip'`. A read is an abstract probe (raises, or gives a column count and whether the full read raises), and `Delimiter.HeaderProbe` splits an unquoted header line.
- Delimiter.ChooseFromSpec: the `df.empty` test after the loop is not modelled, because whether the table has data rows is a property of the parsed file, not of the separator choice.
- Mean and standard deviation in both aggregates are left out. They are floating-point statistics; the model proves sums, counts and grouping.
- Binary floating point is left out. Amounts are exact decimals, so no rounding happens in sums.
- Text.ParseNumber: exponent notation and `inf`/`infinity` are not accepted, although both Python's `float` (ans_integration.py:329) and `pd.to_numeric` (transform_validate.py:138) accept them. Such an amount counts as unreadable in the model. Digit-group underscores (`1_000`) are accepted only by `float`: `pd.to_numeric` with `errors='coerce'` turns them into NaN, as `Enrichment.ValorNum` does, so the underscore gap concerns `Consolidation.Amount` alone.
- Text.ParseInt: digit-group underscores are not accepted, although Python's `int` accepts them (`int("1_0") == 10`). A short year written that way fails the row in the model (ans_integration.py:373).
- Text.IsDigit: only ASCII digits are digits, whereas Python's `isdigit` and `\d` also accept other Unicode digits.
- Text.LowerChar: only ASCII letters and the Latin-1 capitals `À`-`Þ` (except `×`) are lowered. Letters outside Latin-1 keep their case, and Text.IsSpace covers only ASCII whitespace.
- Text.UpperChar: only ASCII letters and the Latin-1 small letters `à`-`þ` (except `÷`) are raised. `ß`, `ÿ` and `µ` are left unchanged, whereas Python maps them to `SS`, `Ÿ` and `Μ`. This touches `trimestre.upper()` (ans_integration.py:366-367) only for such letters.
- Normalize.Cell: a parsed float cell, such as a CNPJ column pandas reads as floats and `str` renders as `123.0`, is not a separate case. Cells are NaN, text or integers. The frame's column types are not modelled either: `iterrows` (ans_integration.py:319) upcasts every cell of a frame with no text column and some float column to float, so an integer CNPJ, year or quarter then renders as `12345678.0`, `2025.0` or `1.0`. `Consolidation.Render` writes an integer cell as plain digits, which matches the source only when the frame has a text column (such as a bound company name, or the year and quarter taken from the directory name at ans_integration.py:214-216) or no float column.
- How the consolidator's ledger is written and read back as text (`to_csv`, then `read_csv(dtype=str)`) is not modelled. The enrichment pass takes the ledger's text cells as input.
- Enrichment.EnrichWith: a consolidation with no kept rows writes a frame with no columns (ans_integration.py:402), and `process` then raises on the missing `CNPJ` column. The model's ledger always has its columns, so this error path is not modelled.
- Normalize.CleanedTwice: the header is taken as the reader hands it over. The reader's renaming of exactly repeated names (`a`, `a.1`) is part of the CSV parser and not modelled.
- The ledger column fallbacks of `process` are left out: renaming `CNPJ_CPF` and `Razao_Social`, and taking the last column when `ValorDespesas` is missing (transform_validate.py:130-144). The ledger the consolidator writes always has `CNPJ`, `RazaoSocial` and `ValorDespesas`.
- Exceptions the consolidator's `except` could catch other than a rejected `float` or `int` are left out; in the modelled row logic no other operation raises.
- Console output (`print`), timing and the report's pretty-printing are left out.
- The REST backend, its tests, the report script and the frontend are not part of this model.

## Findings

| source | as written | input that shows it | evidently intended | confidence | as-written member | corrected member |
|---|---|---|---|---|---|---|
| ans_integration.py:175 | A `.csv` candidate is accepted when it yields more than one column, or exactly one with a separator other than `,`. So `;` is accepted on any readable file | A `.csv` file with header `a,b,c`: the `;` read yields one column and is accepted, and the whole file is read as one column | Accept the first separator that yields more than one column, as the comment "found the right delimiter" says | medium, not executed | Delimiter.CsvCommaHeaderReadAsOneColumn | Delimiter.ChooseSeparatorIntended |
| ans_integration.py:191-206 | When no `.txt` candidate yields more than one column, `df` still holds the last one-row preview. It is neither `None` nor empty, so it is normalised and consolidated | A `.txt` file with header `abc` and data rows: `df` is the one-row read with the pipe separator, so only the first data row reaches the ledger | Skip the file as unreadable, as the "could not read the file" branch intends | medium, not executed | Delimiter.TxtSingleColumnKeepsPreview | Delimiter.ChooseSeparatorIntended |
