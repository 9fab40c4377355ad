/**
  * The form object `PredictApp`: the text of each entry, keyed by column,
  * and the text of the result label, with the operations the two buttons
  * run and the validation they share.
  *
  * The loops of `validate_and_collect` and `reset` run over a table `fs`;
  * the form runs them over `FIELDS`.
  */
module PredictGui {
  import opened PyBuiltins
  import opened Schema
  import opened Validation

  /** The entry texts after reset: every column holds `str(default)`. */
  function DefaultEntries(fs: seq<Field>): map<string, string> {
    if fs == [] then map[]
    else DefaultEntries(fs[..|fs| - 1])[fs[|fs| - 1].column := Str(fs[|fs| - 1].default)]
  }

  /** Reset writes exactly the table's columns. */
  lemma {:induction false} DefaultEntriesKeys(fs: seq<Field>)
    ensures DefaultEntries(fs).Keys == Columns(fs)
  {
    if fs != [] {
      DefaultEntriesKeys(fs[..|fs| - 1]);
      ColumnsSnoc(fs);
    }
  }

  /** With distinct columns, reset leaves every column holding its own row's `str(default)`. */
  lemma {:induction false} DefaultEntriesValues(fs: seq<Field>)
    requires DistinctColumns(fs)
    ensures forall i | 0 <= i < |fs| ::
              fs[i].column in DefaultEntries(fs) && DefaultEntries(fs)[fs[i].column] == Str(fs[i].default)
  {
    if fs != [] {
      var n := |fs| - 1;
      var prefix := fs[..n];
      DistinctPrefix(fs, n);
      DefaultEntriesValues(prefix);
      var m := DefaultEntries(prefix);
      assert DefaultEntries(fs) == m[fs[n].column := Str(fs[n].default)];
      forall i | 0 <= i < |fs|
        ensures fs[i].column in DefaultEntries(fs) && DefaultEntries(fs)[fs[i].column] == Str(fs[i].default)
      {
        if i < n {
          assert prefix[i] == fs[i] && fs[i].column != fs[n].column;
          assert fs[i].column in m && m[fs[i].column] == Str(fs[i].default);
        }
      }
    }
  }

  /** Reset writes exactly the table's columns, each with its own row's `str(default)`. */
  lemma DefaultEntriesLookup(fs: seq<Field>)
    requires DistinctColumns(fs)
    ensures DefaultEntries(fs).Keys == Columns(fs)
    ensures forall i | 0 <= i < |fs| :: DefaultEntries(fs)[fs[i].column] == Str(fs[i].default)
  {
    DefaultEntriesKeys(fs);
    DefaultEntriesValues(fs);
  }

  /** Entry texts for every column of a table whose rows are well formed make it ready to validate. */
  lemma EntriesReady(entries: map<string, string>, fs: seq<Field>)
    requires Columns(fs) <= entries.Keys
    requires forall i | 0 <= i < |fs| :: WellFormed(fs[i])
    ensures Ready(entries, fs)
  {
    assert forall i | 0 <= i < |fs| :: fs[i].column in Columns(fs);
  }

  /** Every default text of a well-formed table passes its own field's check. */
  lemma DefaultOutcomes(fs: seq<Field>)
    requires DistinctColumns(fs)
    requires forall i | 0 <= i < |fs| :: WellFormed(fs[i])
    ensures Ready(DefaultEntries(fs), fs)
    ensures forall i | 0 <= i < |fs| ::
              Outcomes(DefaultEntries(fs), fs)[i] == Accepted(LiteralValue(fs[i].ftype, fs[i].default))
  {
    var entries := DefaultEntries(fs);
    DefaultEntriesLookup(fs);
    EntriesReady(entries, fs);
    forall i | 0 <= i < |fs|
      ensures Outcomes(entries, fs)[i] == Accepted(LiteralValue(fs[i].ftype, fs[i].default))
    {
      assert entries[fs[i].column] == Str(fs[i].default);
      DefaultAccepted(fs[i]);
    }
  }

  /** Validating the defaults of a well-formed table reports no error: the record is complete. */
  lemma DefaultsValidate(fs: seq<Field>)
    requires DistinctColumns(fs)
    requires forall i | 0 <= i < |fs| :: WellFormed(fs[i])
    ensures Ready(DefaultEntries(fs), fs)
    ensures Collect(DefaultEntries(fs), fs).errors == []
    ensures Collect(DefaultEntries(fs), fs).data.Keys == Columns(fs)
    ensures forall i | 0 <= i < |fs| ::
              Collect(DefaultEntries(fs), fs).data[fs[i].column] == LiteralValue(fs[i].ftype, fs[i].default)
  {
    DefaultOutcomes(fs);
    var entries := DefaultEntries(fs);
    var outs := Outcomes(entries, fs);
    NoRejectionNoErrors(fs, outs);
    GatherData(fs, outs);
    CompleteIffNoErrors(entries, fs);
  }

  /** For the form's own table: validating right after reset gives no errors. */
  lemma ResetFormValidates()
    ensures Ready(DefaultEntries(FIELDS), FIELDS)
    ensures Collect(DefaultEntries(FIELDS), FIELDS).errors == []
    ensures |Collect(DefaultEntries(FIELDS), FIELDS).data| == 16
  {
    ColumnsDistinct();
    RowsWellFormed();
    ColumnCount(FIELDS);
    DefaultsValidate(FIELDS);
  }

  /**
    * What validation promises for any entry texts: each field gives exactly
    * one result (its column in `data`, or one error naming its label), and
    * there are no errors exactly when `data` has one value per field.
    */
  lemma {:induction false} FormContract(entries: map<string, string>, fs: seq<Field>)
    requires Columns(fs) <= entries.Keys
    requires forall i | 0 <= i < |fs| :: WellFormed(fs[i])
    requires DistinctColumns(fs) && DistinctCaptions(fs)
    ensures Ready(entries, fs)
    ensures |Collect(entries, fs).data| + |Collect(entries, fs).errors| == |fs|
    ensures forall i | 0 <= i < |fs| ::
              (fs[i].column in Collect(entries, fs).data <==> Check(fs[i], entries[fs[i].column]).Accepted?)
              && CaptionCount(Collect(entries, fs).errors, fs[i].caption)
                 == (if fs[i].column in Collect(entries, fs).data then 0 else 1)
    ensures Collect(entries, fs).errors == [] <==> |Collect(entries, fs).data| == |fs|
  {
    EntriesReady(entries, fs);
    var outs := Outcomes(entries, fs);
    assert Labelled(fs, outs);
    GatherData(fs, outs);
    OneOutcomePerField(fs, outs);
    EveryFieldCounted(fs, outs);
  }

  /**
    * The body of the source's loop for one field, on the stripped entry
    * text: each early return is one of its `continue`s. It is the
    * statement form of `Validation.CheckStripped`, the same chain of tests,
    * and the rules about one field are proved about that function.
    */
  method CheckField(f: Field, raw: string) returns (outcome: Outcome)
    requires Comparable(f)
    ensures outcome == CheckStripped(f, raw)
  {
    if f.ftype == ChoiceType {
      if raw !in GENDER_OPTIONS {
        return Rejected(FieldError(f.caption, InvalidChoice));
      }
      return Accepted(TextValue(raw));
    }

    if raw == "" {
      return Rejected(FieldError(f.caption, EmptyField));
    }

    var converted := Convert(f.ftype, raw);
    if converted.None? {
      return Rejected(FieldError(f.caption, NotANumber(f.ftype == IntType)));
    }

    var value := converted.value;
    if Magnitude(value) < Number(f.min) || Magnitude(value) > Number(f.max) {
      return Rejected(FieldError(f.caption, OutOfRange(Str(f.min), Str(f.max))));
    }
    return Accepted(value);
  }

  /** The source's loop over the table, building `data` and `errors` step by step. */
  method ValidateFields(entries: map<string, string>, fs: seq<Field>) returns (data: Record, errors: seq<FieldError>)
    requires Ready(entries, fs)
    ensures Collected(data, errors) == Collect(entries, fs)
  {
    data, errors := map[], [];
    var i := 0;
    while i < |fs|
      invariant 0 <= i <= |fs|
      invariant Collected(data, errors) == Gather(fs[..i], Outcomes(entries, fs)[..i])
    {
      var f := fs[i];
      var raw := Strip(entries[f.column]);
      var outcome := CheckField(f, raw);
      CollectStep(entries, fs, i, data, errors, outcome);
      if outcome.Accepted? {
        data := data[f.column := outcome.value];
      } else {
        errors := errors + [outcome.error];
      }
      i := i + 1;
    }
    CollectWhole(entries, fs);
  }

  /** The loop of `reset`: every column of the table gets `str(default)`; other entries stay. */
  method RestoreDefaults(entries: map<string, string>, fs: seq<Field>) returns (r: map<string, string>)
    ensures r == entries + DefaultEntries(fs)
  {
    r := entries;
    var i := 0;
    while i < |fs|
      invariant 0 <= i <= |fs|
      invariant r == entries + DefaultEntries(fs[..i])
    {
      var f := fs[i];
      RestoreStep(entries, fs, i);
      r := r[f.column := Str(f.default)];
      i := i + 1;
    }
    assert fs[..i] == fs;
  }

  /** One iteration of reset's loop: writing the next row's default extends the restored prefix by that row. */
  lemma RestoreStep(entries: map<string, string>, fs: seq<Field>, i: nat)
    requires i < |fs|
    ensures (entries + DefaultEntries(fs[..i]))[fs[i].column := Str(fs[i].default)] == entries + DefaultEntries(fs[..i + 1])
  {
    assert fs[..i + 1][..i] == fs[..i];
  }

  /** Restoring every column of the table overwrites every entry the form has. */
  lemma DefaultsOverride(entries: map<string, string>, fs: seq<Field>)
    requires DistinctColumns(fs) && entries.Keys <= Columns(fs)
    ensures entries + DefaultEntries(fs) == DefaultEntries(fs)
  {
    DefaultEntriesLookup(fs);
  }

  const SCORE_PREFIX: string := "Productivity Score: "

  /** What the predict button leads to: the error dialog, or the record given to the model. */
  datatype PredictOutcome = ShowErrors(dialogText: string) | Scored(record: Record)

  class PredictApp {
    /** The field table the form is built from and validates against. */
    const fields: seq<Field>
    /** The text of each entry (a `StringVar` in the source), keyed by column. */
    var entries: map<string, string>
    /** The text of the result label. */
    var resultText: string

    /** The form has exactly one entry per column of a well-formed table. */
    ghost predicate Valid()
      reads this
    {
      entries.Keys == Columns(fields)
      && DistinctColumns(fields) && DistinctCaptions(fields)
      && forall i | 0 <= i < |fields| :: WellFormed(fields[i])
    }

    /** The form is built over `FIELDS`; the entries start at `str(default)` and the result label is empty. */
    constructor ()
      ensures Valid() && fields == FIELDS
      ensures entries == DefaultEntries(FIELDS) && resultText == ""
    {
      fields := FIELDS;
      ColumnsDistinct();
      CaptionsDistinct();
      RowsWellFormed();
      DefaultEntriesLookup(FIELDS);
      entries := DefaultEntries(FIELDS);
      resultText := "";
    }

    /**
      * Returns the record of accepted values and the ordered list of errors:
      * one result per field, and no errors exactly when the record is complete.
      */
    method ValidateAndCollect() returns (data: Record, errors: seq<FieldError>)
      requires Valid()
      ensures Ready(entries, fields)
      ensures Collected(data, errors) == Collect(entries, fields)
      ensures |data| + |errors| == |fields|
      ensures errors == [] <==> data.Keys == Columns(fields)
      ensures errors == [] ==> CompleteRecord(fields, data)
    {
      FormContract(entries, fields);
      CompleteIffNoErrors(entries, fields);
      data, errors := ValidateFields(entries, fields);
    }

    /**
      * Validates; with errors, shows them one per line and leaves the label
      * as it was, without consulting the model; otherwise hands the complete
      * record to the model and shows its score. `scoreText` stands for the
      * model's prediction of a record, formatted with two decimals.
      */
    method Predict(scoreText: Record -> string) returns (outcome: PredictOutcome)
      requires Valid()
      modifies this
      ensures Valid() && entries == old(entries)
      ensures Ready(entries, fields)
      ensures Collect(entries, fields).errors != [] ==>
                outcome == ShowErrors(JoinLines(Messages(Collect(entries, fields).errors)))
                && resultText == old(resultText)
      ensures Collect(entries, fields).errors == [] ==>
                outcome == Scored(Collect(entries, fields).data)
                && resultText == SCORE_PREFIX + scoreText(outcome.record)
                && CompleteRecord(fields, outcome.record)
    {
      var data, errors := ValidateAndCollect();
      if errors != [] {
        outcome := ShowErrors(JoinLines(Messages(errors)));
        return;
      }
      resultText := SCORE_PREFIX + scoreText(data);
      outcome := Scored(data);
    }

    /** Restores every entry to `str(default)` and clears the result label. */
    method Reset()
      requires Valid()
      modifies this
      ensures Valid()
      ensures entries == DefaultEntries(fields) && resultText == ""
    {
      DefaultsOverride(entries, fields);
      DefaultEntriesLookup(fields);
      entries := RestoreDefaults(entries, fields);
      resultText := "";
    }
  }
}
