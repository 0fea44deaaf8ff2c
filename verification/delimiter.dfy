/** Separator choice when reading a quarterly extract (`processar_arquivos`)
    and when re-reading the consolidated ledger (`process`).
    Reading a file is abstracted as a probe: for each candidate separator,
    either the one-row read raises, or it yields some number of columns. */
module Delimiter {
  import opened Text

  /** Outcome of the one-row read `pd.read_csv(path, sep=sep, nrows=1)`:
      it raises, or it yields `count` columns; `fullReadRaises` says whether
      the full read that follows an accepted one-row read would raise (a
      decoding error past the part of the file the encoding was guessed
      from, say). */
  datatype Probe = ReadFailed | Columns(count: nat, fullReadRaises: bool)

  /** What the detection loop leaves behind in `df`. */
  datatype Choice =
    | Accepted(sep: char)     // a candidate passed and the whole file is read with it
    | PreviewOnly(sep: char)  // none passed: `df` still holds the one-row read of the last probe that did not raise
    | Unreadable              // every probe raised: `df` is None and the file is skipped

  /** Candidate order for `.csv` files. */
  const CsvCandidates: seq<char> := [';', ',', '\t', '|']

  /** Candidate order for `.txt` files. */
  const TxtCandidates: seq<char> := ['\t', ';', ',', '|']

  /** `.csv` acceptance: more than one column, or exactly one with a separator other than ','. */
  predicate CsvAccepts(sep: char, columns: nat) {
    columns > 1 || (columns == 1 && sep != ',')
  }

  /** `.txt` acceptance: more than one column. */
  predicate TxtAccepts(sep: char, columns: nat) {
    columns > 1
  }

  /** The detection loop: try the candidates in order; a probe that raises
      leaves `df` as it was, a probe that reads but is not accepted leaves
      its one-row preview in `df`, and so does an accepted one whose full
      read raises (the loop goes on); the first accepted candidate whose
      full read succeeds stops it. */
  function ChooseFrom(candidates: seq<char>, probe: char -> Probe, accepts: (char, nat) -> bool, df: Choice): Choice
    decreases |candidates|
  {
    if |candidates| == 0 then df
    else match probe(candidates[0])
      case ReadFailed => ChooseFrom(candidates[1..], probe, accepts, df)
      case Columns(n, fullReadRaises) =>
        if accepts(candidates[0], n) && !fullReadRaises then Accepted(candidates[0])
        else ChooseFrom(candidates[1..], probe, accepts, PreviewOnly(candidates[0]))
  }

  /** Separator detection as written for `.csv` files. */
  function ChooseCsvSeparator(probe: char -> Probe): Choice {
    ChooseFrom(CsvCandidates, probe, CsvAccepts, Unreadable)
  }

  /** Separator detection as written for `.txt` files. */
  function ChooseTxtSeparator(probe: char -> Probe): Choice {
    ChooseFrom(TxtCandidates, probe, TxtAccepts, Unreadable)
  }

  /** Candidate `i` reads, is accepted, and its full read succeeds. */
  predicate AcceptedAt(candidates: seq<char>, probe: char -> Probe, accepts: (char, nat) -> bool, i: int)
    requires 0 <= i < |candidates|
  {
    probe(candidates[i]).Columns? && accepts(candidates[i], probe(candidates[i]).count)
    && !probe(candidates[i]).fullReadRaises
  }

  /** The loop's outcome, characterised: the first candidate accepted and
      fully read wins;
      with none accepted, the last candidate whose probe read is kept as a
      preview; with every probe raising, `df` is untouched. */
  lemma {:induction false} ChooseFromSpec(candidates: seq<char>, probe: char -> Probe, accepts: (char, nat) -> bool, df: Choice)
    requires !df.Accepted?
    ensures var r := ChooseFrom(candidates, probe, accepts, df);
      && (r.Accepted? ==>
            exists i :: 0 <= i < |candidates| && candidates[i] == r.sep && AcceptedAt(candidates, probe, accepts, i)
                        && forall j :: 0 <= j < i ==> !AcceptedAt(candidates, probe, accepts, j))
      && ((exists i :: 0 <= i < |candidates| && AcceptedAt(candidates, probe, accepts, i)) ==> r.Accepted?)
      && ((forall i :: 0 <= i < |candidates| ==> !AcceptedAt(candidates, probe, accepts, i)) ==>
            forall i :: 0 <= i < |candidates| && probe(candidates[i]).Columns?
                        && (forall j :: i < j < |candidates| ==> probe(candidates[j]).ReadFailed?)
                        ==> r == PreviewOnly(candidates[i]))
      && ((forall i :: 0 <= i < |candidates| ==> probe(candidates[i]).ReadFailed?) ==> r == df)
    decreases |candidates|
  {
    if |candidates| > 0 {
      var c := candidates[0];
      var rest := candidates[1..];
      var next := if probe(c).ReadFailed? then df else PreviewOnly(c);
      ChooseFromSpec(rest, probe, accepts, next);
      forall i | 0 < i < |candidates|
        ensures AcceptedAt(candidates, probe, accepts, i) == AcceptedAt(rest, probe, accepts, i - 1)
      {
      }
      var r := ChooseFrom(candidates, probe, accepts, df);
      if AcceptedAt(candidates, probe, accepts, 0) {
        assert r == Accepted(c);
      } else {
        assert r == ChooseFrom(rest, probe, accepts, next);
        if r.Accepted? {
          var k :| 0 <= k < |rest| && rest[k] == r.sep && AcceptedAt(rest, probe, accepts, k)
                   && forall j :: 0 <= j < k ==> !AcceptedAt(rest, probe, accepts, j);
          assert candidates[k + 1] == r.sep && AcceptedAt(candidates, probe, accepts, k + 1);
        }
        if exists i :: 0 <= i < |candidates| && AcceptedAt(candidates, probe, accepts, i) {
          var i :| 0 <= i < |candidates| && AcceptedAt(candidates, probe, accepts, i);
          assert AcceptedAt(rest, probe, accepts, i - 1);
        }
        if forall i :: 0 <= i < |candidates| ==> !AcceptedAt(candidates, probe, accepts, i) {
          assert forall i :: 0 <= i < |rest| ==> !AcceptedAt(rest, probe, accepts, i) by {
            forall i | 0 <= i < |rest| ensures !AcceptedAt(rest, probe, accepts, i) {
              assert AcceptedAt(candidates, probe, accepts, i + 1) == AcceptedAt(rest, probe, accepts, i);
            }
          }
          forall i | 0 <= i < |candidates| && probe(candidates[i]).Columns?
                     && (forall j :: i < j < |candidates| ==> probe(candidates[j]).ReadFailed?)
            ensures r == PreviewOnly(candidates[i])
          {
            if i == 0 {
              assert forall j :: 0 <= j < |rest| ==> probe(rest[j]).ReadFailed? by {
                forall j | 0 <= j < |rest| ensures probe(rest[j]).ReadFailed? {
                  assert rest[j] == candidates[j + 1];
                }
              }
            } else {
              assert rest[i - 1] == candidates[i];
              assert forall j :: i - 1 < j < |rest| ==> probe(rest[j]).ReadFailed? by {
                forall j | i - 1 < j < |rest| ensures probe(rest[j]).ReadFailed? {
                  assert rest[j] == candidates[j + 1];
                }
              }
            }
          }
        }
        if forall i :: 0 <= i < |candidates| ==> probe(candidates[i]).ReadFailed? {
          assert probe(c).ReadFailed?;
          assert forall j :: 0 <= j < |rest| ==> probe(rest[j]).ReadFailed? by {
            forall j | 0 <= j < |rest| ensures probe(rest[j]).ReadFailed? {
              assert rest[j] == candidates[j + 1];
            }
          }
        }
      }
    }
  }

  /** For `.csv` files ';' is chosen whenever its probe reads anything at
      all, unless the full read with ';' raises: then the loop goes on to
      the other candidates with the ';' preview in `df`, so the file is not
      given up as unreadable. */
  lemma CsvSemicolonWins(probe: char -> Probe)
    requires probe(';').Columns? && probe(';').count >= 1
    ensures ChooseCsvSeparator(probe) == Accepted(';') <==> !probe(';').fullReadRaises
    ensures probe(';').fullReadRaises ==>
              var r := ChooseCsvSeparator(probe);
              r.PreviewOnly? || (r.Accepted? && r.sep in [',', '\t', '|'])
  {
    if probe(';').fullReadRaises {
      var rest := CsvCandidates[1..];
      assert rest == [',', '\t', '|'];
      ChooseFromSpec(rest, probe, CsvAccepts, PreviewOnly(';'));
    }
  }

  // ---------------------------------------------------------------------------
  // A concrete probe: the header line split on the separator

  function CountChar(s: string, c: char): nat {
    if |s| == 0 then 0 else (if s[0] == c then 1 else 0) + CountChar(s[1..], c)
  }

  /** Splitting a header line with no quoting: one more column than
      separators, and a full read that succeeds. */
  function HeaderProbe(header: string): char -> Probe {
    c => Columns(CountChar(header, c) + 1, false)
  }

  lemma {:induction false} CountCharZero(s: string, c: char)
    requires c !in s
    ensures CountChar(s, c) == 0
  {
    if |s| > 0 {
      CountCharZero(s[1..], c);
    }
  }

  /** A comma-separated header: `.txt` detection picks ','. */
  lemma TxtCommaHeader()
    ensures ChooseTxtSeparator(HeaderProbe("a,b,c")) == Accepted(',')
  {
    CountCharZero("a,b,c", '\t');
    CountCharZero("a,b,c", ';');
  }

  /** A semicolon-separated header: both detections pick ';'. */
  lemma SemicolonHeader()
    ensures ChooseCsvSeparator(HeaderProbe("a;b;c")) == Accepted(';')
    ensures ChooseTxtSeparator(HeaderProbe("a;b;c")) == Accepted(';')
  {
    CountCharZero("a;b;c", '\t');
  }

  /** As written, a comma-separated `.csv` header is accepted with ';' and
      read as one single column. */
  lemma CsvCommaHeaderReadAsOneColumn()
    ensures ChooseCsvSeparator(HeaderProbe("a,b,c")) == Accepted(';')
  {
    CountCharZero("a,b,c", ';');
  }

  /** As written, a single-column `.txt` file is not skipped: the one-row
      preview read with '|' stays in `df` and is processed. */
  lemma TxtSingleColumnKeepsPreview()
    ensures ChooseTxtSeparator(HeaderProbe("abc")) == PreviewOnly('|')
  {
    CountCharZero("abc", '\t');
    CountCharZero("abc", ';');
    CountCharZero("abc", ',');
    CountCharZero("abc", '|');
  }

  // ---------------------------------------------------------------------------
  // The intended rule

  /** A separator that splits the header into more than one column and with
      which the whole file reads. */
  predicate Splits(p: Probe) {
    p.Columns? && p.count > 1 && !p.fullReadRaises
  }

  /** The first candidate that splits the file; when there is none the file
      is unreadable and skipped. */
  function ChooseSeparatorIntended(candidates: seq<char>, probe: char -> Probe): (r: Choice)
    ensures !r.PreviewOnly?
    ensures r.Accepted? ==> r.sep in candidates && Splits(probe(r.sep))
    ensures r.Unreadable? <==> forall i :: 0 <= i < |candidates| ==> !Splits(probe(candidates[i]))
    ensures r.Accepted? ==>
              exists i :: 0 <= i < |candidates| && candidates[i] == r.sep
                && forall j :: 0 <= j < i ==> !Splits(probe(candidates[j]))
    decreases |candidates|
  {
    if |candidates| == 0 then Unreadable
    else if Splits(probe(candidates[0])) then Accepted(candidates[0])
    else
      var r := ChooseSeparatorIntended(candidates[1..], probe);
      assert forall i :: 0 < i < |candidates| ==> candidates[i] == candidates[1..][i - 1];
      if r.Accepted? then
        var k :| 0 <= k < |candidates[1..]| && candidates[1..][k] == r.sep
                 && forall j :: 0 <= j < k ==> !Splits(probe(candidates[1..][j]));
        assert candidates[k + 1] == r.sep;
        r
      else r
  }

  /** The intended rule picks ',' for a comma-separated `.csv` header. */
  lemma IntendedCommaHeader()
    ensures ChooseSeparatorIntended(CsvCandidates, HeaderProbe("a,b,c")) == Accepted(',')
  {
    var probe := HeaderProbe("a,b,c");
    CountCharZero("a,b,c", ';');
    assert probe(';') == Columns(1, false);
    assert CsvCandidates[1..] == [',', '\t', '|'];
    assert ChooseSeparatorIntended([',', '\t', '|'], probe) == Accepted(',');
  }

  /** The intended rule skips a single-column file. */
  lemma IntendedSingleColumn()
    ensures ChooseSeparatorIntended(TxtCandidates, HeaderProbe("abc")) == Unreadable
  {
    var probe := HeaderProbe("abc");
    forall c | c in TxtCandidates
      ensures probe(c) == Columns(1, false)
    {
      CountCharZero("abc", c);
    }
  }

  /** Whether an extract is read at all, under the intended rule. */
  predicate Readable(candidates: seq<char>, probe: char -> Probe) {
    ChooseSeparatorIntended(candidates, probe).Accepted?
  }

  // ---------------------------------------------------------------------------
  // The consolidated ledger's delimiter

  /** `';' if ';' in first_line else ','`, on the stripped first line. */
  function LedgerDelimiter(firstLine: string): char {
    if ';' in Strip(firstLine) then ';' else ','
  }

  /** Header fields joined with a separator, as the CSV writer emits them. */
  function JoinFields(fields: seq<string>, sep: char): string
    decreases |fields|
  {
    if |fields| == 0 then ""
    else if |fields| == 1 then fields[0]
    else fields[0] + [sep] + JoinFields(fields[1..], sep)
  }

  lemma {:induction false} JoinFieldsChars(fields: seq<string>, sep: char, x: char)
    ensures x in JoinFields(fields, sep) ==> x == sep || exists f :: f in fields && x in f
    ensures |fields| >= 2 ==> sep in JoinFields(fields, sep)
    decreases |fields|
  {
    if |fields| >= 2 {
      JoinFieldsChars(fields[1..], sep, x);
      var j := JoinFields(fields, sep);
      assert j == fields[0] + [sep] + JoinFields(fields[1..], sep);
      assert j[|fields[0]|] == sep;
      if x in j {
        if x in fields[0] {
        } else if x != sep {
          assert x in JoinFields(fields[1..], sep);
          var f :| f in fields[1..] && x in f;
          assert f in fields;
        }
      }
    } else if |fields| == 1 {
      assert fields[0] in fields;
    }
  }

  /** Reading back a header the writer produced recovers its separator,
      provided no column name contains ';' (and, for ';', there are at
      least two columns). */
  lemma LedgerDelimiterRoundTrip(fields: seq<string>, sep: char)
    requires sep == ';' || sep == ','
    requires forall f :: f in fields ==> ';' !in f
    requires sep == ';' ==> |fields| >= 2
    ensures LedgerDelimiter(JoinFields(fields, sep)) == sep
  {
    var line := JoinFields(fields, sep);
    JoinFieldsChars(fields, sep, ';');
    StripKeepsChar(line, ';');
  }
}
