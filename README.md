# Student productivity form: a Dafny model of its validation

The desktop form `ModeloML/app/predict_gui.py` asks for sixteen student
attributes and passes them to a trained regression model. This project models
the part of the form that decides what reaches the model:

- the field table `FIELDS`: column, label, type, inclusive bounds and default;
- the gender options `GENDER_OPTIONS`;
- `validate_and_collect`, which checks every entry and returns the record of
  accepted values together with the ordered list of error messages;
- `reset`, which writes `str(default)` back into every entry and clears the
  result label;
- the guard in `predict`: an error dialog when there are errors, and
  otherwise a call to the model followed by the result label.

The model has five files:

- `wrappers.dfy`: the `Option` type.
- `py_builtins.dfy`: the Python built-ins the form relies on. These are
  `str.strip()`, `int(text)`, `float(text)` and `str` of an integer,
  together with the round trips between them.
- `schema.dfy`: the table. Its cells hold Python literals (`PyValue`), so the
  default texts and the bounds quoted in error messages come from the same
  values that the range check compares against. Its `Str` is Python's `str`
  of such a literal, including the one-decimal float printer. The file also
  holds the facts proved about the concrete table.
- `validation.dfy`: a pure specification of one field's check
  (`Check`) and of the fold over the table (`Collect`), with lemmas stating
  what the result means.
- `predict_gui.dfy`: the form object `PredictApp` as a class. Its fields are
  the entry texts keyed by column and the result label text. Two loops
  (`ValidateFields`, `RestoreDefaults`) mirror the source's loops and are
  proved against the specification functions. The class also has `Predict`
  and `Reset`.

At module level the loops and lemmas are stated for any table `fs`. The class
is built over `FIELDS`: its constructor fixes `fields == FIELDS`, and
`Valid()` carries the table's proved properties (well-formed rows, distinct
columns and labels) into every method.

## Model

| member | source | states |
|---|---|---|
| PyBuiltins.Strip | ModeloML/app/predict_gui.py:80 | the stripped text has no whitespace at either end, is no longer than the input, and is empty exactly when the input is all whitespace |
| PyBuiltins.StripPadding | ModeloML/app/predict_gui.py:80 | whitespace added on either side of a text does not change what strip returns |
| PyBuiltins.StripExact | ModeloML/app/predict_gui.py:80 | a text made of leading whitespace, a core without whitespace at either end and trailing whitespace strips to exactly that core, so `strip` removes the edge whitespace and nothing else |
| PyBuiltins.StripIdempotent | ModeloML/app/predict_gui.py:80 | stripping twice is the same as stripping once |
| PyBuiltins.ParseInt | ModeloML/app/predict_gui.py:94-95 | `int(text)` accepts exactly the integer texts: an optional sign followed by one or more ASCII digits; the value is negative only after a minus sign, and never positive after one |
| PyBuiltins.ShowInt | ModeloML/app/predict_gui.py:121 | `str(i)` of an integer is an integer text (an optional sign, then one or more digits) that starts with '-' exactly when i is negative |
| PyBuiltins.ParseFloat | ModeloML/app/predict_gui.py:94-95 | a text `float(text)` accepts is nonempty; the value is negative only after a minus sign, and never positive after one |
| PyBuiltins.ParseFloatAccepts | ModeloML/app/predict_gui.py:94-95 | `float(text)` accepts exactly the float texts: nonempty, digits with at most one decimal point, a sign only in front, and at least one digit |
| PyBuiltins.FracValueDigits | ModeloML/app/predict_gui.py:94 | the digits after a decimal point are worth their integer value over ten to the power of their count: "75" is 75/100 |
| PyBuiltins.DecimalValue | ModeloML/app/predict_gui.py:94 | `float` reads an unsigned text with digits before its point as w + f/10^n, where w is the digits before the point and f the n digits after it: "2.75" is 2 + 75/100 |
| PyBuiltins.IntRoundTrip | ModeloML/app/predict_gui.py:94 | `int(str(i)) == i` for every integer, negative ones included |
| PyBuiltins.IntTextIsFloatText | ModeloML/app/predict_gui.py:94 | every text `int` accepts is accepted by `float` with the same value |
| PyBuiltins.FloatOfIntText | ModeloML/app/predict_gui.py:94 | `float(str(i)) == i` for every integer |
| PyBuiltins.DecimalRoundTrip | ModeloML/app/predict_gui.py:94 | `float` reads the text "w.t" back as w + t/10 |
| PyBuiltins.NegativeDecimalRoundTrip | ModeloML/app/predict_gui.py:94 | `float` reads the text "-w.t" back as -(w + t/10) |
| PyBuiltins.IntRejectsDecimal | ModeloML/app/predict_gui.py:94-95 | `int` refuses every text that contains a decimal point, so "5.5" raises instead of being truncated |
| PyBuiltins.EmptyNeverParses | ModeloML/app/predict_gui.py:89-95 | neither `int` nor `float` accepts the empty text |
| Schema.Str | ModeloML/app/predict_gui.py:100-101 | `str` of a number, as quoted for `{fmin}` and `{fmax}` in the range error (and written as the default text at lines 57 and 121), is never empty and starts with '-' exactly when the number is negative |
| Schema.FIELDS | ModeloML/app/predict_gui.py:12-29 | the sixteen rows in the source's order, each with its column, label, type, bounds and default as written there |
| Schema.GENDER_OPTIONS | ModeloML/app/predict_gui.py:31 | the three options "Male", "Female" and "Other" |
| Schema.RowsWellFormed | ModeloML/app/predict_gui.py:12-31 | every row of `FIELDS` is well formed: int fields have int bounds and an int default, float fields have numeric bounds and a float default, the choice field's default is one of `GENDER_OPTIONS`, and every default lies within its bounds |
| Schema.ColumnsDistinct | ModeloML/app/predict_gui.py:12-29 | no two rows share a column name, so each row has its own entry and its own key in `data` |
| Schema.CaptionsDistinct | ModeloML/app/predict_gui.py:12-29 | no two rows share a label, so each error message names exactly one field |
| Schema.ColumnCount | ModeloML/app/predict_gui.py:12-29 | a table with distinct columns has as many columns as rows |
| Validation.Message | ModeloML/app/predict_gui.py:84-101 | every error text is the field's label, then ": ", then a nonempty description; the four descriptions are the source's "selecciona una opción válida", "campo vacío", "ingresa un número entero" or "ingresa un número", and "debe estar entre <min> y <max>" |
| Validation.Messages | ModeloML/app/predict_gui.py:112 | the dialog's lines are one message per error, in the order of `errors`, each led by its own field's label |
| Validation.JoinLines | ModeloML/app/predict_gui.py:112 | `"\n".join(lines)` starts with the first line, and when no line holds a newline it has exactly one newline fewer than there are lines, so the dialog shows one error per line |
| Validation.Convert | ModeloML/app/predict_gui.py:94 | `int(raw)` in an int field and `float(raw)` in any other numeric field: a converted value is an int exactly in int fields and a float otherwise |
| Validation.Collect | ModeloML/app/predict_gui.py:75-106 | the specification of `validate_and_collect` that `PredictGui.ValidateFields` and `PredictApp.ValidateAndCollect` are proved equal to; with distinct columns its `data` is keyed only by table columns and `len(data) + len(errors)` is the number of fields (the lemmas below state the rest) |
| Validation.Check | ModeloML/app/predict_gui.py:80-104 | on the raw entry text: every rejection names the field's own label, every accepted value lies in the field's domain, and a numeric entry of nothing but whitespace gets the "empty field" error, since the checks run on the stripped text |
| Validation.CheckStripped | ModeloML/app/predict_gui.py:82-104 | every rejection names the field's own label, and every accepted value lies in the field's domain (one of the options, or a number of the field's type within [min, max]) |
| Validation.ChoiceRule | ModeloML/app/predict_gui.py:82-87 | the choice field accepts exactly the stripped texts in `GENDER_OPTIONS` and stores that text; anything else is the "invalid option" error |
| Validation.OptionAccepted | ModeloML/app/predict_gui.py:82-86 | each of the three gender options, selected as it is, is accepted and stored as that text |
| Validation.EmptyRule | ModeloML/app/predict_gui.py:89-91 | an empty or all-whitespace numeric entry gets the "empty field" error, worded `<label>: campo vacío` |
| Validation.UnparsableRule | ModeloML/app/predict_gui.py:93-98 | a nonempty text that does not convert gets one "not a number" error, which asks for an integer exactly when the field is an int field |
| Validation.DecimalInIntField | ModeloML/app/predict_gui.py:93-98 | an int field reports a one-decimal text such as "5.5" as "not an integer" |
| Validation.RangeRule | ModeloML/app/predict_gui.py:100-104 | a converted value is accepted if and only if min <= value <= max; it is then stored unchanged, and otherwise the error quotes `str(min)` and `str(max)` |
| Validation.WhitespaceIgnored | ModeloML/app/predict_gui.py:80 | surrounding whitespace never changes a field's outcome |
| Validation.Gather | ModeloML/app/predict_gui.py:79-104 | folding the outcomes in table order adds at most one error per field, so `errors` is never longer than the table |
| Validation.GatherData | ModeloML/app/predict_gui.py:76-104 | `data` holds only table columns; a column is present exactly when its field was accepted, and it holds the value that field's check produced |
| Validation.GatherErrors | ModeloML/app/predict_gui.py:77-102 | `errors` has one entry per rejected field, in table order: the k-th error is the k-th rejected field's |
| Validation.OneOutcomePerField | ModeloML/app/predict_gui.py:79-104 | for every field, either its column is in `data` and no error names it, or its column is missing and exactly one error names it |
| Validation.EveryFieldCounted | ModeloML/app/predict_gui.py:79-106 | `len(data) + len(errors)` equals the number of fields |
| Validation.CompleteIffNoErrors | ModeloML/app/predict_gui.py:75-106 | there are no errors if and only if `data` has every column; the record is then complete, with each value in its field's domain |
| Validation.NoRejectionNoErrors | ModeloML/app/predict_gui.py:77-106 | when every field passes its check, the error list is empty |
| Validation.LiteralConverts | ModeloML/app/predict_gui.py:57-94 | the text `str(v)` of a table number has no edge whitespace and converts back to that number, as an int in an int field and as a float in a float field |
| Validation.LiteralAccepted | ModeloML/app/predict_gui.py:100-104 | a table number within the bounds, typed as its own text, is accepted as that number |
| Validation.LiteralRejected | ModeloML/app/predict_gui.py:100-102 | a table number outside the bounds, typed as its own text, gets the range error |
| Validation.DefaultAccepted | ModeloML/app/predict_gui.py:57-104 | for a well-formed row, the text `str(default)` passes its own field's check and is stored as the default's value |
| Validation.BoundsAccepted | ModeloML/app/predict_gui.py:100-104 | the bounds are inclusive: `str(min)` and `str(max)` are both accepted |
| Validation.JustOutsideRejected | ModeloML/app/predict_gui.py:100-102 | an integer text one below an int min, or one above an int max, gets the range error; 13 of the 15 numeric minimums and all 15 maximums of `FIELDS` are int literals, and the two float minimums are covered by `Validation.NegativeRejected` |
| Validation.NegativeRejected | ModeloML/app/predict_gui.py:94-102 | a negative one-decimal text "-w.d" below a float field's min gets the range error; "-0.5" in the two hour fields whose min is 0.5 (study_hours_per_day, phone_usage_hours) is the instance one unit below min |
| PredictGui.DefaultEntriesKeys | ModeloML/app/predict_gui.py:119-121 | the entry texts after a reset cover exactly the table's columns |
| PredictGui.DefaultEntriesValues | ModeloML/app/predict_gui.py:119-121 | with distinct columns, after a reset every column of the table is present and holds its own row's `str(default)` |
| PredictGui.DefaultEntriesLookup | ModeloML/app/predict_gui.py:119-121 | with distinct columns, every column holds its own row's `str(default)` after a reset |
| PredictGui.DefaultOutcomes | ModeloML/app/predict_gui.py:119-121 | in a well-formed table, every field's default text is accepted as the default's value |
| PredictGui.DefaultsValidate | ModeloML/app/predict_gui.py:119-121 | validating the defaults of a well-formed table reports no error and yields a complete record of the default values |
| PredictGui.ResetFormValidates | ModeloML/app/predict_gui.py:119-122 | after a reset of the actual form, validation reports no error and collects all 16 values |
| PredictGui.FormContract | ModeloML/app/predict_gui.py:75-106 | for any entry texts: `len(data) + len(errors)` equals the field count; a column is in `data` exactly when its check accepts; its label appears in zero errors or in exactly one; and there are no errors exactly when every field has a value |
| PredictGui.CheckField | ModeloML/app/predict_gui.py:82-104 | one field's checks, in the source's order and with its early exits (choice, empty, conversion, range), give exactly the specified outcome `CheckStripped` of the stripped text |
| PredictGui.ValidateFields | ModeloML/app/predict_gui.py:75-106 | the loop, with its early `continue`s, returns exactly the `(data, errors)` pair of the specification `Collect` |
| PredictGui.RestoreDefaults | ModeloML/app/predict_gui.py:120-121 | the reset loop writes `str(default)` into each column of the table and leaves every other entry unchanged |
| PredictGui.DefaultsOverride | ModeloML/app/predict_gui.py:120-121 | when the entries are keyed by the table's columns, the reset loop replaces every one of them |
| PredictGui.PredictApp.constructor | ModeloML/app/predict_gui.py:45-70 | the form is built over `FIELDS`, with each entry holding `str(default)` and an empty result label |
| PredictGui.PredictApp.ValidateAndCollect | ModeloML/app/predict_gui.py:75-106 | returns the specified `(data, errors)` for the current entries; one result per field; no errors exactly when the record is complete, and then every value is in its domain |
| PredictGui.PredictApp.Predict | ModeloML/app/predict_gui.py:108-117 | with errors, the dialog shows the messages one per line, the model is not consulted and the result label is unchanged; without errors, the complete record (every column present and in its domain) goes to the model and the label shows "Productivity Score: " followed by the model's formatted score; the entries never change |
| PredictGui.PredictApp.Reset | ModeloML/app/predict_gui.py:119-122 | every entry holds its `str(default)` again, the result label is empty, and the form stays valid |

## Left out

- The tkinter window, widgets, layout and fonts (predict_gui.py:35-73), including the gray range hint `({fmin} - {fmax})` beside each entry. These are presentation only. The entries are modelled as a map from column to text.
- The error dialog's title (predict_gui.py:112): `Predict` returns the dialog text as `ShowErrors`, and the window itself is I/O.
- Loading the trained model with joblib (predict_gui.py:8-9), the pandas `DataFrame`, `model.predict` and the two-decimal formatting `:.2f` (predict_gui.py:115-117). These are foreign code and floating point. `Predict` takes one parameter, `scoreText`, for the formatted prediction of a record.
- The `__main__` block (predict_gui.py:125-128), which is I/O.
- `ModeloML/app/predict.py` and `ModeloML/app-node/predict.js` are not part of this model.
- PyBuiltins.ParseInt: the grammar is an optional sign and one or more ASCII digits. Python's `int` also accepts digit underscores ("1_000") and non-ASCII decimal digits; here those are "not an integer".
- PyBuiltins.ParseInt: there is no digit limit. CPython 3.11 and later, and the security releases 3.10.7, 3.9.14 and 3.8.14, refuse `int` of a text longer than 4300 digits with ValueError; leading zeros count towards the limit. The source then reports "ingresa un número entero" (predict_gui.py:95-97). The model accepts such a text: it reports it as out of range, or accepts it when leading zeros put its value inside the bounds (4299 zeros followed by "21" in the age field is accepted as 21).
- PyBuiltins.ParseFloat: the grammar is an optional sign, ASCII digits and at most one decimal point, with at least one digit. Python's `float` also accepts exponents ("1e2"), `inf`, `infinity`, `nan`, digit underscores and non-ASCII digits; here those are "not a number". In the source, `float("nan")` fails both comparisons on line 100, so such an entry would be accepted. That path is outside the modelled grammar.
- PyBuiltins.ParseFloat: it returns exact reals. IEEE-754 rounding near a bound is not modelled, so a text with more digits than a double holds (e.g. "0.49999999999999999") is compared exactly.
- Schema.Str: prints `PyFloat(w, t)` as "w.t" for every w. Python's `str` of a float prints that form at least while w has at most 14 digits; from 1e16 on it switches to exponent notation, and with 16 or more significant digits it may print a different decimal. The table's floats are all below 100, but the lemmas stated for any table (`Validation.LiteralConverts`, `Validation.DefaultAccepted`, `PredictGui.DefaultsValidate`) rely on this printer.
- Validation.JoinLines: the contract does not state that the joined text ends with the last line, nor a split back into the lines.
- Float literals of the table are modelled as `PyFloat(whole, tenth)`, which covers only non-negative floats with one decimal. Those are the only float literals the table uses.
- The gender Combobox is read-only, but the model allows any text in that entry. This is strictly more general, and the choice check still rejects anything that is not an option.
- Integer fields do not truncate a decimal entry: `int("5.5")` raises ValueError at predict_gui.py:94, and the field is reported as `ingresa un número entero` (see `Validation.DecimalInIntField` and `PyBuiltins.IntRejectsDecimal`).
