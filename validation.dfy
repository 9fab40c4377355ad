/**
  * What `validate_and_collect` computes, as pure functions: the outcome of
  * one field (`Check`) and the fold of those outcomes over the table in
  * order (`Collect`), with the lemmas that state what the result means.
  */
module Validation {
  import opened Wrappers
  import opened PyBuiltins
  import opened Schema

  /** A value stored in the collected record: an int, a float or the chosen text. */
  datatype Value = IntValue(i: int) | FloatValue(x: real) | TextValue(s: string)

  /** The `data` dictionary: column name to value. */
  type Record = map<string, Value>

  /** The four kinds of rejection and what their wording depends on. */
  datatype Problem =
    | InvalidChoice
    | EmptyField
    | NotANumber(expectInteger: bool)
    | OutOfRange(low: string, high: string)

  /** One entry of the `errors` list: the field's label and the kind of rejection. */
  datatype FieldError = FieldError(caption: string, problem: Problem)

  /**
    * The text the source appends to `errors` for `e`: the field's label,
    * ": ", and a nonempty description of the problem.
    */
  function Message(e: FieldError): (r: string)
    ensures e.caption + ": " < r
  {
    e.caption + ": " +
    match e.problem
    case InvalidChoice => "selecciona una opción válida"
    case EmptyField => "campo vacío"
    case NotANumber(integer) => "ingresa " + (if integer then "un número entero" else "un número")
    case OutOfRange(low, high) => "debe estar entre " + low + " y " + high
  }

  /** The messages of `errors`, in order: one line per error, each led by its field's label. */
  function Messages(errors: seq<FieldError>): (r: seq<string>)
    ensures |r| == |errors|
    ensures forall k | 0 <= k < |r| :: errors[k].caption + ": " < r[k]
  {
    seq(|errors|, k requires 0 <= k < |errors| => Message(errors[k]))
  }

  /** No line holds a newline. */
  predicate SingleLines(lines: seq<string>) {
    forall k | 0 <= k < |lines| :: '\n' !in lines[k]
  }

  /** Joining two texts with a newline keeps both and adds one newline. */
  lemma JoinTwo(a: string, b: string)
    ensures a <= a + "\n" + b
    ensures multiset(a + "\n" + b)['\n'] == multiset(a)['\n'] + 1 + multiset(b)['\n']
  {
    assert multiset(a + "\n" + b) == multiset(a) + multiset("\n") + multiset(b);
  }

  /**
    * Python's `"\n".join(lines)`: it starts with the first line, and when
    * no line holds a newline it has exactly one newline between each two
    * neighbouring lines.
    */
  function JoinLines(lines: seq<string>): (r: string)
    ensures |lines| > 0 ==> lines[0] <= r
    ensures SingleLines(lines) ==> multiset(r)['\n'] == if lines == [] then 0 else |lines| - 1
  {
    if |lines| == 0 then ""
    else if |lines| == 1 then lines[0]
    else
      var n := |lines| - 1;
      var a := JoinLines(lines[..n]);
      JoinTwo(a, lines[n]);
      assert lines[..n][0] == lines[0];
      assert SingleLines(lines) ==> SingleLines(lines[..n]) && '\n' !in multiset(lines[n]) by {
        if SingleLines(lines) {
          forall k | 0 <= k < n ensures '\n' !in lines[..n][k] { assert lines[..n][k] == lines[k]; }
        }
      }
      a + "\n" + lines[n]
  }

  /** `int(text)` when the type cell is "int", `float(text)` otherwise: the value's kind follows the type. */
  function Convert(t: FieldType, text: string): (r: Option<Value>)
    ensures r.Some? ==> (if t == IntType then r.value.IntValue? else r.value.FloatValue?)
  {
    if t == IntType then
      match ParseInt(text)
      case Some(i) => Some(IntValue(i))
      case None => None
    else
      match ParseFloat(text)
      case Some(x) => Some(FloatValue(x))
      case None => None
  }

  /** The number a converted value stands for in the range comparison. */
  function Magnitude(v: Value): real
    requires !v.TextValue?
  {
    match v
    case IntValue(i) => i as real
    case FloatValue(x) => x
  }

  /** The field's declared domain: one of the options, or a number of its type within [min, max]. */
  predicate InDomain(f: Field, v: Value)
    requires Comparable(f)
  {
    match f.ftype
    case ChoiceType => v.TextValue? && v.s in GENDER_OPTIONS
    case IntType => v.IntValue? && Number(f.min) <= v.i as real <= Number(f.max)
    case FloatType => v.FloatValue? && Number(f.min) <= v.x <= Number(f.max)
  }

  /** One field's result: a value for `data` or one entry for `errors`. */
  datatype Outcome = Accepted(value: Value) | Rejected(error: FieldError)

  /**
    * The body of the source's loop for one field, given the raw entry text:
    * everything is decided on the stripped text, so a numeric entry of
    * nothing but whitespace is an empty field.
    */
  function Check(f: Field, raw: string): (r: Outcome)
    requires Comparable(f)
    ensures r.Rejected? ==> r.error.caption == f.caption
    ensures r.Accepted? ==> InDomain(f, r.value)
    ensures f.ftype != ChoiceType && AllSpace(raw) ==> r == Rejected(FieldError(f.caption, EmptyField))
  {
    CheckStripped(f, Strip(raw))
  }

  /**
    * The branches of the loop body on a stripped text. Every rejection
    * names the field's label; every value accepted lies in the field's
    * domain.
    */
  function CheckStripped(f: Field, text: string): (r: Outcome)
    requires Comparable(f)
    ensures r.Rejected? ==> r.error.caption == f.caption
    ensures r.Accepted? ==> InDomain(f, r.value)
  {
    if f.ftype == ChoiceType then
      if text !in GENDER_OPTIONS then Rejected(FieldError(f.caption, InvalidChoice))
      else Accepted(TextValue(text))
    else if text == "" then
      Rejected(FieldError(f.caption, EmptyField))
    else
      match Convert(f.ftype, text)
      case None => Rejected(FieldError(f.caption, NotANumber(f.ftype == IntType)))
      case Some(v) =>
        if Magnitude(v) < Number(f.min) || Magnitude(v) > Number(f.max) then
          Rejected(FieldError(f.caption, OutOfRange(Str(f.min), Str(f.max))))
        else
          Accepted(v)
  }

  /** Every field of `fs` has an entry and comparable bounds. */
  predicate Ready(entries: map<string, string>, fs: seq<Field>) {
    forall i | 0 <= i < |fs| :: fs[i].column in entries && Comparable(fs[i])
  }

  /** The outcome of each field of `fs`, in table order. */
  function Outcomes(entries: map<string, string>, fs: seq<Field>): (outs: seq<Outcome>)
    requires Ready(entries, fs)
    ensures |outs| == |fs|
    ensures Labelled(fs, outs)
  {
    seq(|fs|, i requires 0 <= i < |fs| && Ready(entries, fs) => Check(fs[i], entries[fs[i].column]))
  }

  /** The pair (data, errors) the source returns. */
  datatype Collected = Collected(data: Record, errors: seq<FieldError>)

  /** Folds the outcomes of `fs` in table order into `data` and `errors`: each field adds at most one error. */
  function Gather(fs: seq<Field>, outs: seq<Outcome>): (r: Collected)
    requires |outs| == |fs|
    ensures |r.errors| <= |fs|
  {
    if fs == [] then Collected(map[], [])
    else
      var n := |fs| - 1;
      var prev := Gather(fs[..n], outs[..n]);
      match outs[n]
      case Accepted(v) => Collected(prev.data[fs[n].column := v], prev.errors)
      case Rejected(e) => Collected(prev.data, prev.errors + [e])
  }

  /** One more field folded in: its value is stored under its column, or its error is appended. */
  lemma GatherStep(fs: seq<Field>, outs: seq<Outcome>, i: nat)
    requires |outs| == |fs| && i < |fs|
    ensures outs[i].Accepted? ==>
              Gather(fs[..i + 1], outs[..i + 1])
              == Collected(Gather(fs[..i], outs[..i]).data[fs[i].column := outs[i].value], Gather(fs[..i], outs[..i]).errors)
    ensures outs[i].Rejected? ==>
              Gather(fs[..i + 1], outs[..i + 1])
              == Collected(Gather(fs[..i], outs[..i]).data, Gather(fs[..i], outs[..i]).errors + [outs[i].error])
  {
    assert fs[..i + 1][..i] == fs[..i] && outs[..i + 1][..i] == outs[..i];
  }

  /**
    * One iteration of the loop: folding in the outcome of the next field's
    * check extends the fold by one field.
    */
  lemma CollectStep(entries: map<string, string>, fs: seq<Field>, i: nat, data: Record, errors: seq<FieldError>, outcome: Outcome)
    requires Ready(entries, fs) && i < |fs|
    requires Collected(data, errors) == Gather(fs[..i], Outcomes(entries, fs)[..i])
    requires outcome == CheckStripped(fs[i], Strip(entries[fs[i].column]))
    ensures outcome.Accepted? ==>
              Collected(data[fs[i].column := outcome.value], errors) == Gather(fs[..i + 1], Outcomes(entries, fs)[..i + 1])
    ensures outcome.Rejected? ==>
              Collected(data, errors + [outcome.error]) == Gather(fs[..i + 1], Outcomes(entries, fs)[..i + 1])
  {
    var outs := Outcomes(entries, fs);
    assert outs[i] == outcome;
    GatherStep(fs, outs, i);
  }

  /** The fold over the whole table is `Collect`. */
  lemma CollectWhole(entries: map<string, string>, fs: seq<Field>)
    requires Ready(entries, fs)
    ensures Gather(fs[..|fs|], Outcomes(entries, fs)[..|fs|]) == Collect(entries, fs)
  {
    var outs := Outcomes(entries, fs);
    assert fs[..|fs|] == fs && outs[..|fs|] == outs;
  }

  /**
    * What `validate_and_collect` returns for the entry texts `entries`.
    * With distinct columns, `data` is keyed by columns of the table and
    * every field ends up either in `data` or in `errors`.
    */
  function Collect(entries: map<string, string>, fs: seq<Field>): (r: Collected)
    requires Ready(entries, fs)
    ensures DistinctColumns(fs) ==> r.data.Keys <= Columns(fs) && |r.data| + |r.errors| == |fs|
  {
    var outs := Outcomes(entries, fs);
    if DistinctColumns(fs) then
      GatherData(fs, outs);
      EveryFieldCounted(fs, outs);
      Gather(fs, outs)
    else
      Gather(fs, outs)
  }

  /** The indices of the rejected outcomes, in ascending order. */
  ghost function RejectedAt(outs: seq<Outcome>): (idx: seq<nat>)
    ensures forall k | 0 <= k < |idx| :: idx[k] < |outs| && outs[idx[k]].Rejected?
    ensures forall j, k | 0 <= j < k < |idx| :: idx[j] < idx[k]
    ensures forall i | 0 <= i < |outs| :: outs[i].Rejected? ==> i in idx
  {
    if outs == [] then []
    else
      var n := |outs| - 1;
      var prev := RejectedAt(outs[..n]);
      if outs[n].Rejected? then prev + [n] else prev
  }

  /** Each rejected outcome names its own field's label. */
  predicate Labelled(fs: seq<Field>, outs: seq<Outcome>)
    requires |outs| == |fs|
  {
    forall i | 0 <= i < |fs| :: outs[i].Rejected? ==> outs[i].error.caption == fs[i].caption
  }

  /** How many errors carry `caption`. */
  function CaptionCount(errors: seq<FieldError>, caption: string): nat {
    if errors == [] then 0
    else CaptionCount(errors[..|errors| - 1], caption) + (if errors[|errors| - 1].caption == caption then 1 else 0)
  }

  // ---------------------------------------------------------------------
  // One field
  // ---------------------------------------------------------------------

  /** A choice field accepts exactly the three options, and stores the stripped text. */
  lemma ChoiceRule(f: Field, raw: string)
    requires Comparable(f) && f.ftype == ChoiceType
    ensures Check(f, raw).Accepted? <==> Strip(raw) in GENDER_OPTIONS
    ensures Check(f, raw).Accepted? ==> Check(f, raw).value == TextValue(Strip(raw))
    ensures Check(f, raw).Rejected? ==> Check(f, raw).error == FieldError(f.caption, InvalidChoice)
  {
  }

  /** Each gender option, selected as it is, is accepted and stored as that text. */
  lemma OptionAccepted(f: Field, option: string)
    requires Comparable(f) && f.ftype == ChoiceType && option in GENDER_OPTIONS
    ensures Check(f, option) == Accepted(TextValue(option))
  {
    StripFixed(option);
  }

  /** An empty numeric entry is reported as empty, never as a failed conversion. */
  lemma EmptyRule(f: Field, raw: string)
    requires Comparable(f) && f.ftype != ChoiceType && AllSpace(raw)
    ensures Check(f, raw) == Rejected(FieldError(f.caption, EmptyField))
    ensures Message(Check(f, raw).error) == f.caption + ": campo vacío"
  {
  }

  /** Text that does not convert gives one error, worded after the field's type. */
  lemma UnparsableRule(f: Field, raw: string)
    requires Comparable(f) && f.ftype != ChoiceType
    requires !AllSpace(raw) && Convert(f.ftype, Strip(raw)) == None
    ensures Check(f, raw) == Rejected(FieldError(f.caption, NotANumber(f.ftype == IntType)))
  {
  }

  /** An int field reports a one-decimal text such as "5.5" as not an integer. */
  lemma DecimalInIntField(f: Field, w: nat, t: nat)
    requires Comparable(f) && f.ftype == IntType && t < 10
    ensures Check(f, ShowNat(w) + "." + [DigitChar(t)]) == Rejected(FieldError(f.caption, NotANumber(true)))
  {
    var s := ShowNat(w) + "." + [DigitChar(t)];
    assert s[|ShowNat(w)|] == '.';
    IntRejectsDecimal(s);
    DecimalNoEdgeSpace(w, t);
    StripFixed(s);
  }

  /** A converted value is accepted if and only if min <= value <= max. */
  lemma RangeRule(f: Field, raw: string, v: Value)
    requires Comparable(f) && f.ftype != ChoiceType
    requires !AllSpace(raw) && Convert(f.ftype, Strip(raw)) == Some(v)
    ensures Check(f, raw).Accepted? <==> Number(f.min) <= Magnitude(v) <= Number(f.max)
    ensures Check(f, raw).Accepted? ==> Check(f, raw).value == v
    ensures Check(f, raw).Rejected? ==>
              Check(f, raw).error == FieldError(f.caption, OutOfRange(Str(f.min), Str(f.max)))
  {
  }

  /** Surrounding whitespace is ignored in every check. */
  lemma WhitespaceIgnored(f: Field, p: string, raw: string, q: string)
    requires Comparable(f) && AllSpace(p) && AllSpace(q)
    ensures Check(f, p + raw + q) == Check(f, raw)
    ensures Check(f, Strip(raw)) == Check(f, raw)
  {
    StripPadding(p, raw, q);
    StripIdempotent(raw);
  }

  // ---------------------------------------------------------------------
  // The whole table
  // ---------------------------------------------------------------------

  lemma ColumnsOfPrefix(fs: seq<Field>, n: nat)
    requires n <= |fs|
    ensures Columns(fs[..n]) <= Columns(fs)
  {
    forall c | c in Columns(fs[..n]) ensures c in Columns(fs) {
      var i :| 0 <= i < n && fs[..n][i].column == c;
      assert fs[i].column == c;
    }
  }

  /**
    * `data` holds exactly the columns of the accepted fields, each with the
    * value its check produced.
    */
  lemma {:induction false} GatherData(fs: seq<Field>, outs: seq<Outcome>)
    requires |outs| == |fs| && DistinctColumns(fs)
    ensures Gather(fs, outs).data.Keys <= Columns(fs)
    ensures forall i | 0 <= i < |fs| :: fs[i].column in Gather(fs, outs).data <==> outs[i].Accepted?
    ensures forall i | 0 <= i < |fs| && outs[i].Accepted? :: Gather(fs, outs).data[fs[i].column] == outs[i].value
  {
    if fs != [] {
      var n := |fs| - 1;
      DistinctPrefix(fs, n);
      GatherData(fs[..n], outs[..n]);
      ColumnsOfPrefix(fs, n);
      assert fs[n].column in Columns(fs);
      forall i | 0 <= i < n ensures fs[..n][i] == fs[i] && outs[..n][i] == outs[i] && fs[i].column != fs[n].column { }
    }
  }

  /**
    * `errors` lists the errors of the rejected fields in table order: its
    * k-th entry is the error of the k-th rejected field.
    */
  lemma {:induction false} GatherErrors(fs: seq<Field>, outs: seq<Outcome>)
    requires |outs| == |fs|
    ensures |Gather(fs, outs).errors| == |RejectedAt(outs)|
    ensures forall k | 0 <= k < |RejectedAt(outs)| :: outs[RejectedAt(outs)[k]] == Rejected(Gather(fs, outs).errors[k])
  {
    if fs != [] {
      var n := |fs| - 1;
      GatherErrors(fs[..n], outs[..n]);
      var prev, errs := RejectedAt(outs[..n]), Gather(fs[..n], outs[..n]).errors;
      assert RejectedAt(outs) == if outs[n].Rejected? then prev + [n] else prev;
      assert Gather(fs, outs).errors == if outs[n].Rejected? then errs + [outs[n].error] else errs;
      forall k | 0 <= k < |prev| ensures outs[..n][prev[k]] == outs[prev[k]] { }
    }
  }

  lemma {:induction false} CaptionAbsent(errors: seq<FieldError>, caption: string)
    requires forall k | 0 <= k < |errors| :: errors[k].caption != caption
    ensures CaptionCount(errors, caption) == 0
  {
    if errors != [] {
      CaptionAbsent(errors[..|errors| - 1], caption);
    }
  }

  /**
    * Each field yields exactly one result: either its column is in `data`
    * and no error names it, or it is missing and exactly one error names it.
    */
  lemma {:induction false} OneOutcomePerField(fs: seq<Field>, outs: seq<Outcome>)
    requires |outs| == |fs| && Labelled(fs, outs)
    requires DistinctColumns(fs) && DistinctCaptions(fs)
    ensures forall i | 0 <= i < |fs| ::
              CaptionCount(Gather(fs, outs).errors, fs[i].caption)
              == if fs[i].column in Gather(fs, outs).data then 0 else 1
  {
    if fs != [] {
      var n := |fs| - 1;
      var c, prev := Gather(fs, outs), Gather(fs[..n], outs[..n]);
      forall i | 0 <= i < n ensures fs[..n][i] == fs[i] && outs[..n][i] == outs[i] { }
      OneOutcomePerField(fs[..n], outs[..n]);
      GatherData(fs[..n], outs[..n]);
      GatherData(fs, outs);
      LastCaptionAbsent(fs, outs);
      forall i | 0 <= i < |fs|
        ensures CaptionCount(c.errors, fs[i].caption) == if fs[i].column in c.data then 0 else 1
      {
        if outs[n].Rejected? {
          CaptionCountAppend(prev.errors, outs[n].error, fs[i].caption);
        }
      }
    }
  }

  /** No error gathered before the last field names the last field. */
  lemma LastCaptionAbsent(fs: seq<Field>, outs: seq<Outcome>)
    requires |outs| == |fs| > 0 && Labelled(fs, outs) && DistinctCaptions(fs)
    ensures CaptionCount(Gather(fs[..|fs| - 1], outs[..|fs| - 1]).errors, fs[|fs| - 1].caption) == 0
  {
    var n := |fs| - 1;
    var prev := Gather(fs[..n], outs[..n]);
    GatherErrors(fs[..n], outs[..n]);
    forall k | 0 <= k < |prev.errors| ensures prev.errors[k].caption != fs[n].caption {
      var i := RejectedAt(outs[..n])[k];
      assert outs[..n][i] == outs[i] && fs[..n][i] == fs[i];
    }
    CaptionAbsent(prev.errors, fs[n].caption);
  }

  lemma CaptionCountAppend(errors: seq<FieldError>, e: FieldError, caption: string)
    ensures CaptionCount(errors + [e], caption) == CaptionCount(errors, caption) + (if e.caption == caption then 1 else 0)
  {
    assert (errors + [e])[..|errors|] == errors;
  }

  /** Every field is accounted for once: |data| + |errors| == |fs|. */
  lemma {:induction false} EveryFieldCounted(fs: seq<Field>, outs: seq<Outcome>)
    requires |outs| == |fs| && DistinctColumns(fs)
    ensures |Gather(fs, outs).data| + |Gather(fs, outs).errors| == |fs|
  {
    if fs != [] {
      var n := |fs| - 1;
      DistinctPrefix(fs, n);
      var prev := Gather(fs[..n], outs[..n]);
      EveryFieldCounted(fs[..n], outs[..n]);
      GatherData(fs[..n], outs[..n]);
      assert fs[n].column !in prev.data;
    }
  }

  /** A record with one value per column of `fs`, each in its field's domain. */
  predicate CompleteRecord(fs: seq<Field>, data: Record) {
    data.Keys == Columns(fs)
    && forall i | 0 <= i < |fs| :: fs[i].column in data && Comparable(fs[i]) && InDomain(fs[i], data[fs[i].column])
  }

  /**
    * No errors if and only if `data` is complete; then every value lies in
    * its field's domain.
    */
  lemma CompleteIffNoErrors(entries: map<string, string>, fs: seq<Field>)
    requires Ready(entries, fs) && DistinctColumns(fs)
    ensures Collect(entries, fs).errors == [] <==> Collect(entries, fs).data.Keys == Columns(fs)
    ensures Collect(entries, fs).errors == [] ==> CompleteRecord(fs, Collect(entries, fs).data)
  {
    var outs := Outcomes(entries, fs);
    var c := Gather(fs, outs);
    GatherData(fs, outs);
    GatherErrors(fs, outs);
    var idx := RejectedAt(outs);
    if c.errors == [] {
      assert forall i | 0 <= i < |fs| :: outs[i].Accepted?;
      assert c.data.Keys == Columns(fs);
      forall i | 0 <= i < |fs| ensures InDomain(fs[i], c.data[fs[i].column]) {
        assert outs[i] == CheckStripped(fs[i], Strip(entries[fs[i].column]));
      }
    } else {
      var i := idx[0];
      assert fs[i].column in Columns(fs);
    }
  }

  /** When every field passes its check, no error is reported. */
  lemma NoRejectionNoErrors(fs: seq<Field>, outs: seq<Outcome>)
    requires |outs| == |fs|
    requires forall i | 0 <= i < |outs| :: outs[i].Accepted?
    ensures Gather(fs, outs).errors == []
  {
    GatherErrors(fs, outs);
  }

  // ---------------------------------------------------------------------
  // The table's own texts
  // ---------------------------------------------------------------------

  /**
    * The value a field of type `t` stores when its text is `str(v)`, for a
    * literal the table may use there: a string as itself, an int as an int
    * in an int field and as a float in a float field, a float as a float.
    */
  function LiteralValue(t: FieldType, v: PyValue): Value {
    match v
    case PyStr(s) => TextValue(s)
    case PyInt(i) => if t == IntType then IntValue(i) else FloatValue(i as real)
    case PyFloat(_, _) => FloatValue(Number(v))
    case PyNone => TextValue(Str(v))
  }

  /** An integer's text converts back to it, as an int or as a float. */
  lemma IntTextConverts(t: FieldType, i: int)
    requires t != ChoiceType
    ensures Convert(t, ShowInt(i)) == Some(if t == IntType then IntValue(i) else FloatValue(i as real))
  {
    if t == IntType {
      IntRoundTrip(i);
    } else {
      FloatOfIntText(i);
    }
  }

  /** The text "w.d" converts back to the float w + d/10. */
  lemma DecimalTextConverts(w: nat, d: nat)
    requires d < 10
    ensures Convert(FloatType, ShowNat(w) + "." + [DigitChar(d)]) == Some(FloatValue(w as real + d as real / 10.0))
  {
    DecimalRoundTrip(w, d);
  }

  /** The text `str(v)` of a numeric literal converts back to its number. */
  lemma LiteralConverts(t: FieldType, v: PyValue)
    requires t != ChoiceType && IsNumber(v) && (t == IntType ==> v.PyInt?)
    ensures Strip(Str(v)) == Str(v) && Str(v) != ""
    ensures Convert(t, Str(v)) == Some(LiteralValue(t, v))
  {
    var text := Str(v);
    if v.PyInt? {
      assert text == ShowInt(v.i);
      ShowIntNoEdgeSpace(v.i);
      StripFixed(text);
      IntTextConverts(t, v.i);
    } else {
      var w, d := v.whole, v.tenth;
      assert text == ShowNat(w) + "." + [DigitChar(d)];
      DecimalNoEdgeSpace(w, d);
      StripFixed(text);
      DecimalTextConverts(w, d);
      assert LiteralValue(t, v) == FloatValue(w as real + d as real / 10.0);
    }
  }

  /** A numeric literal of the field's own kind within its bounds is accepted as its text. */
  lemma LiteralAccepted(f: Field, v: PyValue)
    requires Comparable(f) && f.ftype != ChoiceType
    requires IsNumber(v) && (f.ftype == IntType ==> v.PyInt?)
    requires Number(f.min) <= Number(v) <= Number(f.max)
    ensures Check(f, Str(v)) == Accepted(LiteralValue(f.ftype, v))
  {
    var text, lit := Str(v), LiteralValue(f.ftype, v);
    LiteralConverts(f.ftype, v);
    assert Strip(text) == text && text != "";
    assert Convert(f.ftype, text) == Some(lit);
    assert Magnitude(lit) == Number(v) by {
      if v.PyInt? && f.ftype == IntType { assert lit == IntValue(v.i); }
    }
    assert !AllSpace(text) by { assert Strip(text) != []; }
    RangeRule(f, text, lit);
  }

  /**
    * The text `str(default)` that reset writes passes its own field's check
    * and is stored as the default's value.
    */
  lemma DefaultAccepted(f: Field)
    requires WellFormed(f)
    ensures Check(f, Str(f.default)) == Accepted(LiteralValue(f.ftype, f.default))
  {
    if f.ftype == ChoiceType {
      var option := f.default.s;
      assert f.default == PyStr(option);
      OptionAccepted(f, option);
    } else {
      LiteralAccepted(f, f.default);
    }
  }

  /** The values exactly at min and at max, typed as their own text, are accepted. */
  lemma BoundsAccepted(f: Field)
    requires WellFormed(f) && f.ftype != ChoiceType
    ensures Check(f, Str(f.min)) == Accepted(LiteralValue(f.ftype, f.min))
    ensures Check(f, Str(f.max)) == Accepted(LiteralValue(f.ftype, f.max))
  {
    LiteralAccepted(f, f.min);
    LiteralAccepted(f, f.max);
  }

  /** A numeric literal of the field's own kind outside its bounds is rejected as out of range. */
  lemma LiteralRejected(f: Field, v: PyValue)
    requires Comparable(f) && f.ftype != ChoiceType
    requires IsNumber(v) && (f.ftype == IntType ==> v.PyInt?)
    requires Number(v) < Number(f.min) || Number(f.max) < Number(v)
    ensures Check(f, Str(v)) == Rejected(FieldError(f.caption, OutOfRange(Str(f.min), Str(f.max))))
  {
    var text, lit := Str(v), LiteralValue(f.ftype, v);
    LiteralConverts(f.ftype, v);
    assert Strip(text) == text && text != "";
    assert Convert(f.ftype, text) == Some(lit);
    assert Magnitude(lit) == Number(v) by {
      if v.PyInt? && f.ftype == IntType { assert lit == IntValue(v.i); }
    }
    assert !AllSpace(text) by { assert Strip(text) != []; }
    RangeRule(f, text, lit);
  }

  /** An integer text one below an int min, or one above an int max, is out of range. */
  lemma JustOutsideRejected(f: Field)
    requires WellFormed(f) && f.ftype != ChoiceType
    ensures f.min.PyInt? ==>
              Check(f, ShowInt(f.min.i - 1)) == Rejected(FieldError(f.caption, OutOfRange(Str(f.min), Str(f.max))))
    ensures f.max.PyInt? ==>
              Check(f, ShowInt(f.max.i + 1)) == Rejected(FieldError(f.caption, OutOfRange(Str(f.min), Str(f.max))))
  {
    if f.min.PyInt? {
      LiteralRejected(f, PyInt(f.min.i - 1));
      assert Str(PyInt(f.min.i - 1)) == ShowInt(f.min.i - 1);
    }
    if f.max.PyInt? {
      LiteralRejected(f, PyInt(f.max.i + 1));
      assert Str(PyInt(f.max.i + 1)) == ShowInt(f.max.i + 1);
    }
  }

  /** A text without edge whitespace that `float` reads as x is its own strip and converts to the float x. */
  lemma FloatTextConverts(text: string, x: real)
    requires NoEdgeSpace(text) && ParseFloat(text) == Some(x)
    ensures Strip(text) == text
    ensures Convert(FloatType, text) == Some(FloatValue(x))
  {
    StripFixed(text);
  }

  /**
    * A negative decimal text "-w.d" below a float field's min is out of
    * range. With w = 0 and d = 5 this is "-0.5", one below the 0.5 minimum
    * of the two hour fields whose min is a float literal.
    */
  lemma NegativeRejected(f: Field, w: nat, d: Digit)
    requires Comparable(f) && f.ftype == FloatType
    requires -(w as real + d as real / 10.0) < Number(f.min)
    ensures Check(f, "-" + ShowNat(w) + "." + [DigitChar(d)]) == Rejected(FieldError(f.caption, OutOfRange(Str(f.min), Str(f.max))))
  {
    var text := "-" + ShowNat(w) + "." + [DigitChar(d)];
    var x := -(w as real + d as real / 10.0);
    NegativeDecimalNoEdgeSpace(w, d);
    NegativeDecimalRoundTrip(w, d);
    FloatTextConverts(text, x);
    assert !AllSpace(text) by { assert Strip(text) != []; }
    RangeRule(f, text, FloatValue(x));
  }
}
