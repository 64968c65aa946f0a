/** The row loop of `process_csv`: the header check, then for every row the
    name stage, the entity-check stage and the number stage in that order,
    each active only when selected, collecting the written rows and the four
    report lists. */
module Pipeline {
  import opened Text
  import opened Phone
  import opened Names

  /** The processing types a run may select. */
  datatype Stage = NameStage | SpacyStage | NumberStage

  /** A CSV record: field name to value. */
  type Row = map<string, string>

  const NameField: string := "Adı Soyadı"
  const PhoneField: string := "Telefon"

  /** The header an input file must have, in this order. */
  const ExpectedFields: seq<string> :=
    ["Adı Soyadı", "Telefon", "Email", "p", "Not", "n", "Lead Olusturulma Tarihi",
     "Lead Olusruran Adı", "ls", "d", "t", "las", "hf", "r"]

  /** The options of a run: the selected stages, whether non-Latin names are
      repaired instead of dropped, the blacklist and the number library. */
  datatype Config = Config(
    stages: set<Stage>,
    replaceNonLatin: bool,
    blacklist: seq<string>,
    lib: PhoneLib)

  /** What happens to one row. A rejection carries the text that goes into
      its report list. */
  datatype Outcome =
    | Written(row: Row)
    | RejectedNonLatin(name: string)
    | RejectedName(name: string)
    | RejectedNumber(phone: string)

  /** The outcome of a row, and the audit entries it appends on the way. */
  datatype RowResult = RowResult(outcome: Outcome, changes: seq<string>)

  /** The rows written to the output file and the four lists reported at
      the end of a run. */
  datatype Report = Report(
    written: seq<Row>,
    invalidNumbers: seq<string>,
    invalidNames: seq<string>,
    nonLatinNames: seq<string>,
    changedNames: seq<string>)

  const EmptyReport: Report := Report([], [], [], [], [])

  /** An audit entry "before -> after". */
  function ChangeEntry(before: string, after: string): string
  {
    before + " -> " + after
  }

  predicate HasKeyFields(row: Row)
  {
    NameField in row && PhoneField in row
  }

  // ---------------------------------------------------------------------------
  // One row

  /** The verdict of the name stage: a rejection, or the name the later
      stages see (the repaired one when repair happened), the cleaned name
      that replaces the field, and the audit entries. */
  datatype NameVerdict =
    | NameRejected(outcome: Outcome, changes: seq<string>)
    | NameAccepted(name: string, cleaned: string, changes: seq<string>)

  /** Cleaning and the two-word check, after the Latin check has passed. */
  function CleanStep(name: string, changes: seq<string>): NameVerdict
  {
    var cleaned := CleanName(name);
    if !IsValidName(cleaned) then NameRejected(RejectedName(name), changes)
    else NameAccepted(name, cleaned, if cleaned != name then changes + [ChangeEntry(name, cleaned)] else changes)
  }

  /** The name stage. */
  function NameCheck(name: string, replaceNonLatin: bool): NameVerdict
  {
    if IsLatinName(name) then CleanStep(name, [])
    else if !replaceNonLatin then NameRejected(RejectedNonLatin(name), [])
    else
      var replaced := ReplaceNonLatinCharacters(name);
      if AllQuestionMarks(replaced) then NameRejected(RejectedNonLatin(name), [])
      else CleanStep(replaced, [ChangeEntry(name, replaced)])
  }

  /** The stages after the name stage, given the name they check, the row
      so far and the audit entries so far. */
  function LaterStages(row: Row, name: string, phone: string, changes: seq<string>, cfg: Config): RowResult
  {
    if SpacyStage in cfg.stages && !IsValidNameSpacy(name, cfg.blacklist) then
      RowResult(RejectedName(name), changes)
    else if NumberStage in cfg.stages then
      var converted := ConvertToInternational(phone, DefaultRegion, cfg.lib);
      if converted.None? || converted.value == "" then RowResult(RejectedNumber(phone), changes)
      else RowResult(Written(row[PhoneField := converted.value]), changes)
    else RowResult(Written(row), changes)
  }

  /** One pass of the loop body over a row. */
  function ProcessRow(row: Row, cfg: Config): RowResult
    requires HasKeyFields(row)
  {
    var name := row[NameField];
    var phone := row[PhoneField];
    if NameStage !in cfg.stages then LaterStages(row, name, phone, [], cfg)
    else
      match NameCheck(name, cfg.replaceNonLatin)
      case NameRejected(outcome, changes) => RowResult(outcome, changes)
      case NameAccepted(checked, cleaned, changes) =>
        LaterStages(row[NameField := cleaned], checked, phone, changes, cfg)
  }

  /** Adds what one row produced to the report. */
  function Record(rep: Report, res: RowResult): Report
  {
    var rep1 := rep.(changedNames := rep.changedNames + res.changes);
    match res.outcome
    case Written(r) => rep1.(written := rep1.written + [r])
    case RejectedNonLatin(n) => rep1.(nonLatinNames := rep1.nonLatinNames + [n])
    case RejectedName(n) => rep1.(invalidNames := rep1.invalidNames + [n])
    case RejectedNumber(p) => rep1.(invalidNumbers := rep1.invalidNumbers + [p])
  }

  /** The report after processing the rows in order. */
  function Run(rows: seq<Row>, cfg: Config): Report
    requires forall k :: 0 <= k < |rows| ==> HasKeyFields(rows[k])
  {
    if rows == [] then EmptyReport
    else Record(Run(rows[..|rows| - 1], cfg), ProcessRow(rows[|rows| - 1], cfg))
  }

  // ---------------------------------------------------------------------------
  // The loop

  lemma RunStep(rows: seq<Row>, i: nat, cfg: Config)
    requires i < |rows| && forall k :: 0 <= k < |rows| ==> HasKeyFields(rows[k])
    ensures Run(rows[..i + 1], cfg) == Record(Run(rows[..i], cfg), ProcessRow(rows[i], cfg))
  {
    assert rows[..i + 1][..i] == rows[..i];
  }

  /** The report after one row, case by case. */
  lemma RecordCases(rep: Report, res: RowResult)
    ensures res.outcome.Written? ==> (Record(rep, res) ==
      Report(rep.written + [res.outcome.row], rep.invalidNumbers, rep.invalidNames, rep.nonLatinNames, rep.changedNames + res.changes))
    ensures res.outcome.RejectedNonLatin? ==> (Record(rep, res) ==
      Report(rep.written, rep.invalidNumbers, rep.invalidNames, rep.nonLatinNames + [res.outcome.name], rep.changedNames + res.changes))
    ensures res.outcome.RejectedName? ==> (Record(rep, res) ==
      Report(rep.written, rep.invalidNumbers, rep.invalidNames + [res.outcome.name], rep.nonLatinNames, rep.changedNames + res.changes))
    ensures res.outcome.RejectedNumber? ==> (Record(rep, res) ==
      Report(rep.written, rep.invalidNumbers + [res.outcome.phone], rep.invalidNames, rep.nonLatinNames, rep.changedNames + res.changes))
  {
  }

  lemma AppendAssoc<T>(a: seq<T>, b: seq<T>, c: seq<T>)
    ensures a + b + c == a + (b + c)
  {
  }

  /** `process_csv` without its file handling: nothing when the header is
      not the expected one, otherwise the report of the row loop. The
      reader gives every row a value for every header field. */
  method ProcessCsv(header: seq<string>, rows: seq<Row>, cfg: Config) returns (report: Option<Report>)
    requires forall k :: 0 <= k < |rows| ==> forall f :: f in header ==> f in rows[k]
    ensures header != ExpectedFields ==> report == None
    ensures header == ExpectedFields ==>
      (forall k :: 0 <= k < |rows| ==> HasKeyFields(rows[k])) && report == Some(Run(rows, cfg))
  {
    if header != ExpectedFields {
      return None;
    }
    assert ExpectedFields[0] == NameField && ExpectedFields[1] == PhoneField;
    var rep := ProcessRows(rows, cfg);
    return Some(rep);
  }

  /** The row loop, appending to the four lists as it goes and skipping to
      the next row at each rejection. */
  method ProcessRows(rows: seq<Row>, cfg: Config) returns (report: Report)
    requires forall k :: 0 <= k < |rows| ==> HasKeyFields(rows[k])
    ensures report == Run(rows, cfg)
  {
    var written: seq<Row> := [];
    var invalidNumbers: seq<string> := [];
    var invalidNames: seq<string> := [];
    var nonLatinNames: seq<string> := [];
    var changedNames: seq<string> := [];
    for i := 0 to |rows|
      invariant Report(written, invalidNumbers, invalidNames, nonLatinNames, changedNames) == Run(rows[..i], cfg)
    {
      RunStep(rows, i, cfg);
      ghost var res := ProcessRow(rows[i], cfg);
      ghost var prev := Report(written, invalidNumbers, invalidNames, nonLatinNames, changedNames);
      ghost var start, changes := changedNames, [];
      RecordCases(prev, res);
      AppendNothing(start);
      var row := rows[i];
      var name := row[NameField];
      var phoneNumber := row[PhoneField];

      if NameStage in cfg.stages {
        if !IsLatinName(name) {
          if cfg.replaceNonLatin {
            var originalName := name;
            name := ReplaceNonLatinCharacters(name);
            if AllQuestionMarks(name) {
              nonLatinNames := nonLatinNames + [originalName];
              assert res == RowResult(RejectedNonLatin(originalName), []);
              continue;
            }
            changedNames := changedNames + [ChangeEntry(originalName, name)];
            changes := [ChangeEntry(originalName, name)];
            assert NameCheck(rows[i][NameField], cfg.replaceNonLatin) == CleanStep(name, changes);
          } else {
            nonLatinNames := nonLatinNames + [name];
            assert res == RowResult(RejectedNonLatin(name), []);
            continue;
          }
        }
        assert NameCheck(rows[i][NameField], cfg.replaceNonLatin) == CleanStep(name, changes);
        var cleanedName := CleanName(name);
        if !IsValidName(cleanedName) {
          invalidNames := invalidNames + [name];
          assert res == RowResult(RejectedName(name), changes);
          continue;
        }
        if cleanedName != name {
          changedNames := changedNames + [ChangeEntry(name, cleanedName)];
          AppendAssoc(start, changes, [ChangeEntry(name, cleanedName)]);
          changes := changes + [ChangeEntry(name, cleanedName)];
        }
        row := row[NameField := cleanedName];
        assert NameCheck(rows[i][NameField], cfg.replaceNonLatin) == NameAccepted(name, cleanedName, changes);
      }
      assert changedNames == start + changes;
      assert res == LaterStages(row, name, phoneNumber, changes, cfg);
      LaterStagesCases(row, name, phoneNumber, changes, cfg);

      if SpacyStage in cfg.stages {
        if !IsValidNameSpacy(name, cfg.blacklist) {
          invalidNames := invalidNames + [name];
          assert res == RowResult(RejectedName(name), changes);
          continue;
        }
      }

      if NumberStage in cfg.stages {
        var convertedNumber := ConvertToInternational(phoneNumber, DefaultRegion, cfg.lib);
        if convertedNumber.None? || convertedNumber.value == "" {
          invalidNumbers := invalidNumbers + [phoneNumber];
          assert res == RowResult(RejectedNumber(phoneNumber), changes);
          continue;
        }
        row := row[PhoneField := convertedNumber.value];
      }
      assert res == RowResult(Written(row), changes);
      written := written + [row];
    }
    assert rows[..|rows|] == rows;
    return Report(written, invalidNumbers, invalidNames, nonLatinNames, changedNames);
  }

  // ---------------------------------------------------------------------------
  // Properties of a run

  /** Every row ends up in exactly one place: written, or in one of the three
      rejection lists. */
  lemma {:induction false} RunCounts(rows: seq<Row>, cfg: Config)
    requires forall k :: 0 <= k < |rows| ==> HasKeyFields(rows[k])
    ensures var r := Run(rows, cfg);
      |r.written| + |r.invalidNumbers| + |r.invalidNames| + |r.nonLatinNames| == |rows|
  {
    if rows != [] {
      var init := rows[..|rows| - 1];
      RunCounts(init, cfg);
      RecordCases(Run(init, cfg), ProcessRow(rows[|rows| - 1], cfg));
    }
  }

  /** The result of every row, in order. */
  function Results(rows: seq<Row>, cfg: Config): (rs: seq<RowResult>)
    requires forall k :: 0 <= k < |rows| ==> HasKeyFields(rows[k])
    ensures |rs| == |rows| && forall j :: 0 <= j < |rows| ==> rs[j] == ProcessRow(rows[j], cfg)
  {
    seq(|rows|, j requires 0 <= j < |rows| => ProcessRow(rows[j], cfg))
  }

  /** The report made of a sequence of row results. */
  function Collect(rs: seq<RowResult>): Report
  {
    if rs == [] then EmptyReport else Record(Collect(rs[..|rs| - 1]), rs[|rs| - 1])
  }

  lemma {:induction false} RunCollect(rows: seq<Row>, cfg: Config)
    requires forall k :: 0 <= k < |rows| ==> HasKeyFields(rows[k])
    ensures Run(rows, cfg) == Collect(Results(rows, cfg))
  {
    if rows != [] {
      var init := rows[..|rows| - 1];
      RunCollect(init, cfg);
      assert Results(rows, cfg)[..|rows| - 1] == Results(init, cfg);
    }
  }

  /** A text is in a list of the report, the audit list included, exactly
      when some row result put it there. */
  lemma CollectListsIff(rs: seq<RowResult>)
    ensures var r := Collect(rs);
      && (forall w :: w in r.written <==> exists j :: 0 <= j < |rs| && rs[j].outcome == Written(w))
      && (forall n :: n in r.nonLatinNames <==> exists j :: 0 <= j < |rs| && rs[j].outcome == RejectedNonLatin(n))
      && (forall n :: n in r.invalidNames <==> exists j :: 0 <= j < |rs| && rs[j].outcome == RejectedName(n))
      && (forall p :: p in r.invalidNumbers <==> exists j :: 0 <= j < |rs| && rs[j].outcome == RejectedNumber(p))
      && (forall e :: e in r.changedNames <==> exists j :: 0 <= j < |rs| && e in rs[j].changes)
  {
    CollectWrittenIff(rs);
    CollectNonLatinIff(rs);
    CollectInvalidNamesIff(rs);
    CollectInvalidNumbersIff(rs);
    CollectChangesIff(rs);
  }

  lemma {:induction false} CollectChangesIff(rs: seq<RowResult>)
    ensures forall e :: e in Collect(rs).changedNames <==>
      exists j :: 0 <= j < |rs| && e in rs[j].changes
  {
    if rs != [] {
      var init := rs[..|rs| - 1];
      CollectChangesIff(init);
      RecordCases(Collect(init), rs[|rs| - 1]);
      assert forall j :: 0 <= j < |init| ==> init[j] == rs[j];
    }
  }

  lemma {:induction false} CollectWrittenIff(rs: seq<RowResult>)
    ensures forall w :: w in Collect(rs).written <==>
      exists j :: 0 <= j < |rs| && rs[j].outcome == Written(w)
  {
    if rs != [] {
      var init := rs[..|rs| - 1];
      CollectWrittenIff(init);
      RecordCases(Collect(init), rs[|rs| - 1]);
      assert forall j :: 0 <= j < |init| ==> init[j] == rs[j];
    }
  }

  lemma {:induction false} CollectNonLatinIff(rs: seq<RowResult>)
    ensures forall n :: n in Collect(rs).nonLatinNames <==>
      exists j :: 0 <= j < |rs| && rs[j].outcome == RejectedNonLatin(n)
  {
    if rs != [] {
      var init := rs[..|rs| - 1];
      CollectNonLatinIff(init);
      RecordCases(Collect(init), rs[|rs| - 1]);
      assert forall j :: 0 <= j < |init| ==> init[j] == rs[j];
    }
  }

  lemma {:induction false} CollectInvalidNamesIff(rs: seq<RowResult>)
    ensures forall n :: n in Collect(rs).invalidNames <==>
      exists j :: 0 <= j < |rs| && rs[j].outcome == RejectedName(n)
  {
    if rs != [] {
      var init := rs[..|rs| - 1];
      CollectInvalidNamesIff(init);
      RecordCases(Collect(init), rs[|rs| - 1]);
      assert forall j :: 0 <= j < |init| ==> init[j] == rs[j];
    }
  }

  lemma {:induction false} CollectInvalidNumbersIff(rs: seq<RowResult>)
    ensures forall p :: p in Collect(rs).invalidNumbers <==>
      exists j :: 0 <= j < |rs| && rs[j].outcome == RejectedNumber(p)
  {
    if rs != [] {
      var init := rs[..|rs| - 1];
      CollectInvalidNumbersIff(init);
      RecordCases(Collect(init), rs[|rs| - 1]);
      assert forall j :: 0 <= j < |init| ==> init[j] == rs[j];
    }
  }

  /** A row is in the output exactly when some input row was written as it;
      a text is in a rejection list exactly when some input row was
      rejected for that reason with it; an audit entry is recorded exactly
      when some input row produced it, written or not. */
  lemma RunListsIff(rows: seq<Row>, cfg: Config)
    requires forall k :: 0 <= k < |rows| ==> HasKeyFields(rows[k])
    ensures var r := Run(rows, cfg);
      && (forall w :: w in r.written <==>
            exists j :: 0 <= j < |rows| && ProcessRow(rows[j], cfg).outcome == Written(w))
      && (forall n :: n in r.nonLatinNames <==>
            exists j :: 0 <= j < |rows| && ProcessRow(rows[j], cfg).outcome == RejectedNonLatin(n))
      && (forall n :: n in r.invalidNames <==>
            exists j :: 0 <= j < |rows| && ProcessRow(rows[j], cfg).outcome == RejectedName(n))
      && (forall p :: p in r.invalidNumbers <==>
            exists j :: 0 <= j < |rows| && ProcessRow(rows[j], cfg).outcome == RejectedNumber(p))
      && (forall e :: e in r.changedNames <==>
            exists j :: 0 <= j < |rows| && e in ProcessRow(rows[j], cfg).changes)
  {
    RunCollect(rows, cfg);
    CollectListsIff(Results(rows, cfg));
  }

  /** The name the entity check sees: the repaired name when the name stage
      repaired it, the field as read otherwise, never the cleaned one. */
  function NameSeenBySpacy(row: Row, cfg: Config): string
    requires HasKeyFields(row)
  {
    if NameStage in cfg.stages && !IsLatinName(row[NameField]) then ReplaceNonLatinCharacters(row[NameField])
    else row[NameField]
  }

  lemma UpdateKeepsOthers(m: Row, key: string, v: string)
    requires key in m
    ensures m[key := v].Keys == m.Keys
    ensures forall k :: k in m && k != key ==> m[key := v][k] == m[k]
  {
  }

  lemma UpdateSame(m: Row, key: string)
    requires key in m
    ensures m[key := m[key]] == m
  {
  }

  /** The verdicts of the name stage, and the audit entries it appends: the
      repair entry as soon as a name is repaired, then the cleaning entry
      when the name survives and cleaning changed it. */
  lemma NameCheckCases(name: string, replaceNonLatin: bool)
    ensures var v := NameCheck(name, replaceNonLatin);
      var seen := if IsLatinName(name) then name else ReplaceNonLatinCharacters(name);
      var repair := if IsLatinName(name) then [] else [ChangeEntry(name, seen)];
      && (v.NameRejected? && v.outcome.RejectedName? ==> v.changes == repair)
      && (v.NameAccepted? ==>
            v.changes == repair + (if CleanName(seen) != seen then [ChangeEntry(seen, CleanName(seen))] else []))
      && (v.NameRejected? && v.outcome.RejectedNonLatin? <==>
            !IsLatinName(name) && (!replaceNonLatin || AllQuestionMarks(ReplaceNonLatinCharacters(name))))
      && (v.NameRejected? && v.outcome.RejectedNonLatin? ==> v.outcome.name == name && v.changes == [])
      && (v.NameRejected? && !v.outcome.RejectedNonLatin? ==>
            v.outcome == RejectedName(seen) && !IsValidName(CleanName(seen)))
      && (v.NameAccepted? ==> v.name == seen && v.cleaned == CleanName(seen) && IsValidName(v.cleaned))
  {
  }

  /** The verdicts of the stages after the name stage; `LaterStagesOrder`
      gives the order in which they decide. */
  lemma LaterStagesCases(row: Row, name: string, phone: string, changes: seq<string>, cfg: Config)
    ensures var r := LaterStages(row, name, phone, changes, cfg);
      && r.changes == changes
      && !r.outcome.RejectedNonLatin?
      && (SpacyStage !in cfg.stages && NumberStage !in cfg.stages ==> r.outcome == Written(row))
      && (r.outcome.RejectedName? ==>
            r.outcome.name == name && SpacyStage in cfg.stages && !IsValidNameSpacy(name, cfg.blacklist))
      && (r.outcome.RejectedNumber? ==>
            r.outcome.phone == phone && NumberStage in cfg.stages &&
            ConvertToInternational(phone, DefaultRegion, cfg.lib).None?)
      && (r.outcome.Written? ==>
            && (SpacyStage in cfg.stages ==> IsValidNameSpacy(name, cfg.blacklist))
            && (NumberStage !in cfg.stages ==> r.outcome.row == row)
            && (NumberStage in cfg.stages ==>
                  ConvertToInternational(phone, DefaultRegion, cfg.lib).Some? &&
                  r.outcome.row == row[PhoneField := ConvertToInternational(phone, DefaultRegion, cfg.lib).value]))
  {
  }

  /** What the stages did to a written row, read off the verdicts. */
  lemma WrittenRowFields(row: Row, cfg: Config)
    requires HasKeyFields(row) && ProcessRow(row, cfg).outcome.Written?
    ensures var out := ProcessRow(row, cfg).outcome.row;
      && out.Keys == row.Keys
      && (forall k :: k in row && k != NameField && k != PhoneField ==> out[k] == row[k])
      && (NameStage !in cfg.stages ==> out[NameField] == row[NameField])
      && (NameStage in cfg.stages ==>
            out[NameField] == CleanName(NameSeenBySpacy(row, cfg)) && IsValidName(out[NameField]))
      && (SpacyStage in cfg.stages ==> IsValidNameSpacy(NameSeenBySpacy(row, cfg), cfg.blacklist))
      && (NumberStage !in cfg.stages ==> out[PhoneField] == row[PhoneField])
      && (NumberStage in cfg.stages ==>
            ConvertToInternational(row[PhoneField], DefaultRegion, cfg.lib) == Some(out[PhoneField]))
  {
    var name, phone := row[NameField], row[PhoneField];
    var seen := NameSeenBySpacy(row, cfg);
    var named := row;
    var changes := [];
    if NameStage in cfg.stages {
      var v := NameCheck(name, cfg.replaceNonLatin);
      NameCheckCases(name, cfg.replaceNonLatin);
      assert v.NameAccepted?;
      named := row[NameField := v.cleaned];
      changes := v.changes;
      UpdateKeepsOthers(row, NameField, named[NameField]);
    }
    assert ProcessRow(row, cfg) == LaterStages(named, seen, phone, changes, cfg);
    LaterStagesCases(named, seen, phone, changes, cfg);
    var out := ProcessRow(row, cfg).outcome.row;
    if NumberStage in cfg.stages {
      assert out == named[PhoneField := out[PhoneField]];
      UpdateKeepsOthers(named, PhoneField, out[PhoneField]);
    } else {
      assert out == named;
    }
  }

  /** What a written row looks like: the same fields, only the name and the
      number touched, a cleaned two-word Latin name when the name stage ran,
      a name the entity check accepts when that stage ran, and the
      canonical digits of a valid number when the number stage ran. */
  lemma WrittenRowShape(row: Row, cfg: Config)
    requires HasKeyFields(row) && ProcessRow(row, cfg).outcome.Written?
    ensures var out := ProcessRow(row, cfg).outcome.row;
      && out.Keys == row.Keys
      && (forall k :: k in row && k != NameField && k != PhoneField ==> out[k] == row[k])
      && (NameStage !in cfg.stages ==> out[NameField] == row[NameField])
      && (NameStage in cfg.stages ==>
            && out[NameField] == CleanName(NameSeenBySpacy(row, cfg))
            && IsValidName(out[NameField])
            && IsLatinName(out[NameField])
            && SingleSpaced(out[NameField])
            && CleanName(out[NameField]) == out[NameField])
      && (SpacyStage in cfg.stages ==> IsValidNameSpacy(NameSeenBySpacy(row, cfg), cfg.blacklist))
      && (NumberStage !in cfg.stages ==> out[PhoneField] == row[PhoneField])
      && (NumberStage in cfg.stages ==>
            && ConvertToInternational(row[PhoneField], DefaultRegion, cfg.lib) == Some(out[PhoneField])
            && |out[PhoneField]| > 0 && AllDigits(out[PhoneField])
            && CleanPhoneNumber(out[PhoneField]) == out[PhoneField])
  {
    WrittenRowFields(row, cfg);
    var seen := NameSeenBySpacy(row, cfg);
    if NameStage in cfg.stages {
      CleanNameShape(seen);
      CleanNameIdempotent(seen);
      ValidCleanedIsLatin(seen);
    }
    if NumberStage in cfg.stages {
      CanonicalIsClean(row[PhoneField], DefaultRegion, cfg.lib);
    }
  }

  /** Why a row is rejected. A non-Latin rejection happens exactly when the
      name stage runs, the name fails `is_latin_name`, and repair is off or
      leaves only '?'; it reports the name as read and records no change. A
      name rejection reports the name the check saw; a number rejection
      reports the number as read, whose conversion failed. */
  lemma RejectionReasons(row: Row, cfg: Config)
    requires HasKeyFields(row)
    ensures var res := ProcessRow(row, cfg);
      && (res.outcome.RejectedNonLatin? <==>
            NameStage in cfg.stages && !IsLatinName(row[NameField]) &&
            (!cfg.replaceNonLatin || AllQuestionMarks(ReplaceNonLatinCharacters(row[NameField]))))
      && (res.outcome.RejectedNonLatin? ==> res.outcome.name == row[NameField] && res.changes == [])
      && (res.outcome.RejectedName? ==>
            res.outcome.name == NameSeenBySpacy(row, cfg) &&
            ((NameStage in cfg.stages && !IsValidName(CleanName(res.outcome.name))) ||
             (SpacyStage in cfg.stages && !IsValidNameSpacy(res.outcome.name, cfg.blacklist))))
      && (res.outcome.RejectedNumber? ==>
            res.outcome.phone == row[PhoneField] && NumberStage in cfg.stages &&
            ConvertToInternational(row[PhoneField], DefaultRegion, cfg.lib).None?)
  {
    var name, phone := row[NameField], row[PhoneField];
    var seen := NameSeenBySpacy(row, cfg);
    if NameStage in cfg.stages {
      var v := NameCheck(name, cfg.replaceNonLatin);
      NameCheckCases(name, cfg.replaceNonLatin);
      if v.NameRejected? {
        assert ProcessRow(row, cfg) == RowResult(v.outcome, v.changes);
      } else {
        assert ProcessRow(row, cfg) == LaterStages(row[NameField := v.cleaned], seen, phone, v.changes, cfg);
        LaterStagesCases(row[NameField := v.cleaned], seen, phone, v.changes, cfg);
      }
    } else {
      assert ProcessRow(row, cfg) == LaterStages(row, name, phone, [], cfg);
      LaterStagesCases(row, name, phone, [], cfg);
    }
  }

  /** The stages run in order and the first that fails decides: a name
      stage rejection wins over everything, an entity check failure over a
      bad number, and a number is rejected only once the active name stages
      have passed. */
  lemma StageOrder(row: Row, cfg: Config)
    requires HasKeyFields(row)
    ensures var res := ProcessRow(row, cfg);
      var v := NameCheck(row[NameField], cfg.replaceNonLatin);
      var seen := NameSeenBySpacy(row, cfg);
      var namePassed := NameStage !in cfg.stages || v.NameAccepted?;
      var spacyPassed := SpacyStage !in cfg.stages || IsValidNameSpacy(seen, cfg.blacklist);
      && (NameStage in cfg.stages && v.NameRejected? ==> res.outcome == v.outcome)
      && (namePassed && !spacyPassed ==> res.outcome == RejectedName(seen))
      && ((namePassed && spacyPassed && NumberStage in cfg.stages &&
           ConvertToInternational(row[PhoneField], DefaultRegion, cfg.lib).None?) ==>
            res.outcome == RejectedNumber(row[PhoneField]))
      && (res.outcome.RejectedName? ==>
            (NameStage in cfg.stages && v.NameRejected?) || (namePassed && !spacyPassed))
      && (res.outcome.RejectedNumber? ==> namePassed && spacyPassed)
  {
    var name, phone := row[NameField], row[PhoneField];
    var seen := NameSeenBySpacy(row, cfg);
    if NameStage in cfg.stages {
      var v := NameCheck(name, cfg.replaceNonLatin);
      if v.NameRejected? {
        assert ProcessRow(row, cfg) == RowResult(v.outcome, v.changes);
      } else {
        NameSeenAfterCheck(name, cfg.replaceNonLatin);
        assert ProcessRow(row, cfg) == LaterStages(row[NameField := v.cleaned], seen, phone, v.changes, cfg);
        LaterStagesOrder(row[NameField := v.cleaned], seen, phone, v.changes, cfg);
      }
    } else {
      assert ProcessRow(row, cfg) == LaterStages(row, name, phone, [], cfg);
      LaterStagesOrder(row, name, phone, [], cfg);
    }
  }

  /** The name an accepted name stage hands on is the name as read, or its
      repair when it was not Latin. */
  lemma NameSeenAfterCheck(name: string, replaceNonLatin: bool)
    ensures var v := NameCheck(name, replaceNonLatin);
      v.NameAccepted? ==> v.name == (if IsLatinName(name) then name else ReplaceNonLatinCharacters(name))
  {
  }

  /** Which of the later stages decides a row: the entity check decides
      before the number stage, and each rejects exactly when it is the first
      to fail. */
  lemma LaterStagesOrder(row: Row, name: string, phone: string, changes: seq<string>, cfg: Config)
    ensures var r := LaterStages(row, name, phone, changes, cfg);
      var spacyPassed := SpacyStage !in cfg.stages || IsValidNameSpacy(name, cfg.blacklist);
      && (!spacyPassed ==> r.outcome == RejectedName(name))
      && ((spacyPassed && NumberStage in cfg.stages &&
           ConvertToInternational(phone, DefaultRegion, cfg.lib).None?) ==> r.outcome == RejectedNumber(phone))
      && (r.outcome.RejectedName? ==> !spacyPassed)
      && (r.outcome.RejectedNumber? ==> spacyPassed)
      && !r.outcome.RejectedNonLatin?
  {
  }

  /** A cleaned two-word Latin name passes the name stage as it is. */
  lemma CleanedNamePasses(n: string, replaceNonLatin: bool)
    requires IsLatinName(n) && IsValidName(n) && CleanName(n) == n
    ensures NameCheck(n, replaceNonLatin) == NameAccepted(n, n, [])
  {
  }

  /** With the name stage alone, a row whose name passes unchanged is
      written as it is. */
  lemma NameOnlyWritesPassingRow(row: Row, cfg: Config)
    requires HasKeyFields(row)
    requires NameStage in cfg.stages && SpacyStage !in cfg.stages && NumberStage !in cfg.stages
    requires NameCheck(row[NameField], cfg.replaceNonLatin) == NameAccepted(row[NameField], row[NameField], [])
    ensures ProcessRow(row, cfg) == RowResult(Written(row), [])
  {
    var name := row[NameField];
    UpdateSame(row, NameField);
    assert ProcessRow(row, cfg) == LaterStages(row, name, row[PhoneField], [], cfg);
    LaterStagesCases(row, name, row[PhoneField], [], cfg);
  }

  /** Running the name stage alone again over a row it wrote writes the row
      unchanged and records no change. */
  lemma NameStageStable(row: Row, cfg: Config)
    requires HasKeyFields(row)
    requires NameStage in cfg.stages && SpacyStage !in cfg.stages && NumberStage !in cfg.stages
    requires ProcessRow(row, cfg).outcome.Written?
    ensures var out := ProcessRow(row, cfg).outcome.row;
      HasKeyFields(out) && ProcessRow(out, cfg) == RowResult(Written(out), [])
  {
    var out := ProcessRow(row, cfg).outcome.row;
    WrittenRowFields(row, cfg);
    var seen := NameSeenBySpacy(row, cfg);
    ValidCleanedIsLatin(seen);
    CleanNameIdempotent(seen);
    CleanedNamePasses(out[NameField], cfg.replaceNonLatin);
    NameOnlyWritesPassingRow(out, cfg);
  }

  /** The audit list keeps the entry of a row whose name the name stage
      cleaned even when the number stage drops the row afterwards. */
  lemma ChangeKeptForDroppedRow(row: Row, cfg: Config)
    requires HasKeyFields(row)
    requires NameStage in cfg.stages && SpacyStage !in cfg.stages && NumberStage in cfg.stages
    requires IsLatinName(row[NameField]) && IsValidName(CleanName(row[NameField]))
    requires CleanName(row[NameField]) != row[NameField]
    requires ConvertToInternational(row[PhoneField], DefaultRegion, cfg.lib).None?
    ensures ProcessRow(row, cfg) ==
      RowResult(RejectedNumber(row[PhoneField]), [ChangeEntry(row[NameField], CleanName(row[NameField]))])
  {
    var name := row[NameField];
    AppendNothing([ChangeEntry(name, CleanName(name))]);
    assert NameCheck(name, cfg.replaceNonLatin) ==
      NameAccepted(name, CleanName(name), [ChangeEntry(name, CleanName(name))]);
    LaterStagesCases(row[NameField := CleanName(name)], name, row[PhoneField],
      [ChangeEntry(name, CleanName(name))], cfg);
  }
}
