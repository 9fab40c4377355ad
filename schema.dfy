/**
  * The form's static field table: `FIELDS` and `GENDER_OPTIONS`.
  *
  * Each row is (column, label, type, min, max, default) as in the source.
  * The min, max and default cells hold Python literals (an int, a float,
  * a string or None), so `str(default)` and the bounds shown in the range
  * error are derived from the same values the range check compares with.
  */
module Schema {
  import opened PyBuiltins

  type Digit = d: nat | d < 10

  /**
    * The Python values that occur in the table. Every float literal there
    * has one decimal digit, so `PyFloat(w, t)` stands for w + t/10 and
    * prints as "w.t". Python's `str` prints such a float that way at least
    * while w has at most 14 digits; the table's floats are all below 100.
    */
  datatype PyValue = PyNone | PyInt(i: int) | PyFloat(whole: nat, tenth: Digit) | PyStr(s: string)

  /**
    * Python's `str(v)`. A number's text is never empty, and it starts
    * with '-' exactly when the number is negative.
    */
  function Str(v: PyValue): (r: string)
    ensures IsNumber(v) ==> r != [] && (r[0] == '-' <==> Number(v) < 0.0)
  {
    match v
    case PyNone => "None"
    case PyInt(i) =>
      assert i >= 0 ==> IsDigit(ShowNat(i)[0]);
      ShowInt(i)
    case PyFloat(w, t) =>
      var x := ShowNat(w);
      assert IsDigit(x[0]) && (x + "." + [DigitChar(t)])[0] == x[0];
      x + "." + [DigitChar(t)]
    case PyStr(s) => s
  }

  predicate IsNumber(v: PyValue) {
    v.PyInt? || v.PyFloat?
  }

  /** The numeric value of an int or float literal. */
  function Number(v: PyValue): real
    requires IsNumber(v)
  {
    match v
    case PyInt(i) => i as real
    case PyFloat(w, t) => w as real + t as real / 10.0
  }

  /** The three values of the type cell: "int", "float" and "choice". */
  datatype FieldType = IntType | FloatType | ChoiceType

  datatype Field = Field(column: string, caption: string, ftype: FieldType, min: PyValue, max: PyValue, default: PyValue)

  const GENDER_OPTIONS: seq<string> := ["Male", "Female", "Other"]

  const FIELDS: seq<Field> := [
    Field("age",                   "Edad",                   IntType,    PyInt(17),      PyInt(29),    PyInt(21)),
    Field("gender",                "Género",                 ChoiceType, PyNone,         PyNone,       PyStr("Male")),
    Field("study_hours_per_day",   "Horas de estudio/día",   FloatType,  PyFloat(0, 5),  PyInt(10),    PyFloat(5, 0)),
    Field("sleep_hours",           "Horas de sueño",         FloatType,  PyInt(3),       PyInt(10),    PyFloat(7, 0)),
    Field("phone_usage_hours",     "Horas uso de teléfono",  FloatType,  PyFloat(0, 5),  PyInt(12),    PyFloat(3, 0)),
    Field("social_media_hours",    "Horas redes sociales",   FloatType,  PyInt(0),       PyInt(8),     PyFloat(1, 5)),
    Field("youtube_hours",         "Horas YouTube",          FloatType,  PyInt(0),       PyInt(6),     PyFloat(1, 0)),
    Field("gaming_hours",          "Horas gaming",           FloatType,  PyInt(0),       PyInt(6),     PyFloat(2, 0)),
    Field("breaks_per_day",        "Descansos por día",      IntType,    PyInt(1),       PyInt(14),    PyInt(4)),
    Field("coffee_intake_mg",      "Cafeína (mg)",           IntType,    PyInt(0),       PyInt(500),   PyInt(200)),
    Field("exercise_minutes",      "Minutos de ejercicio",   IntType,    PyInt(0),       PyInt(120),   PyInt(30)),
    Field("assignments_completed", "Tareas completadas",     IntType,    PyInt(0),       PyInt(19),    PyInt(8)),
    Field("attendance_percentage", "Asistencia (%)",         FloatType,  PyInt(40),      PyInt(100),   PyFloat(85, 0)),
    Field("stress_level",          "Nivel de estrés (1-10)", IntType,    PyInt(1),       PyInt(10),    PyInt(5)),
    Field("focus_score",           "Focus score (30-99)",    IntType,    PyInt(30),      PyInt(99),    PyInt(65)),
    Field("final_grade",           "Calificación final",     FloatType,  PyInt(40),      PyInt(100),   PyFloat(78, 0))
  ]

  /** A numeric field has numeric bounds, so its range check can compare. */
  predicate Comparable(f: Field) {
    f.ftype != ChoiceType ==> IsNumber(f.min) && IsNumber(f.max)
  }

  /**
    * What makes a row usable: a choice field offers its default, an int
    * field has int bounds and an int default (an int text is what `int`
    * reads back), a float field has numeric bounds and a float default,
    * and every default lies within its inclusive bounds.
    */
  predicate WellFormed(f: Field) {
    match f.ftype
    case ChoiceType =>
      f.min == PyNone && f.max == PyNone && f.default.PyStr? && f.default.s in GENDER_OPTIONS
    case IntType =>
      f.min.PyInt? && f.max.PyInt? && f.default.PyInt?
      && f.min.i <= f.default.i <= f.max.i
    case FloatType =>
      IsNumber(f.min) && IsNumber(f.max) && f.default.PyFloat?
      && Number(f.min) <= Number(f.default) <= Number(f.max)
  }

  predicate DistinctColumns(fs: seq<Field>) {
    forall i, j | 0 <= i < j < |fs| :: fs[i].column != fs[j].column
  }

  predicate DistinctCaptions(fs: seq<Field>) {
    forall i, j | 0 <= i < j < |fs| :: fs[i].caption != fs[j].caption
  }

  function Columns(fs: seq<Field>): set<string> {
    set i | 0 <= i < |fs| :: fs[i].column
  }

  /** The columns of a table are those of all but its last row, plus the last row's. */
  lemma ColumnsSnoc(fs: seq<Field>)
    requires fs != []
    ensures Columns(fs) == Columns(fs[..|fs| - 1]) + {fs[|fs| - 1].column}
  {
    var n := |fs| - 1;
    var prefix := fs[..n];
    forall c | c in Columns(fs) ensures c in Columns(prefix) + {fs[n].column} {
      var i :| 0 <= i < |fs| && fs[i].column == c;
      if i < n { assert prefix[i] == fs[i]; }
    }
    forall c | c in Columns(prefix) ensures c in Columns(fs) {
      var i :| 0 <= i < n && prefix[i].column == c;
      assert fs[i] == prefix[i];
    }
  }

  lemma DistinctPrefix(fs: seq<Field>, n: nat)
    requires DistinctColumns(fs) && n <= |fs|
    ensures DistinctColumns(fs[..n])
  {
    forall i, j | 0 <= i < j < n ensures fs[..n][i].column != fs[..n][j].column {
      assert fs[..n][i] == fs[i] && fs[..n][j] == fs[j];
    }
  }

  /** Distinct columns make the column set exactly as large as the table. */
  lemma {:induction false} ColumnCount(fs: seq<Field>)
    requires DistinctColumns(fs)
    ensures |Columns(fs)| == |fs|
  {
    if fs != [] {
      var n := |fs| - 1;
      var prefix := fs[..n];
      ColumnsSnoc(fs);
      assert fs[n].column !in Columns(prefix) by {
        forall i | 0 <= i < n ensures prefix[i].column != fs[n].column {
          assert prefix[i] == fs[i];
        }
      }
      ColumnCount(prefix);
    }
  }

  /** Every row of the table is well formed. */
  lemma RowsWellFormed()
    ensures forall i | 0 <= i < |FIELDS| :: WellFormed(FIELDS[i])
  {
  }

  // Distinctness of the sixteen rows is shown in three blocks of pairs,
  // which the solver handles far more cheaply than all pairs at once.

  lemma ColumnsDistinctFirstHalf()
    ensures forall i, j | 0 <= i < j < 8 :: FIELDS[i].column != FIELDS[j].column
  {
  }

  lemma ColumnsDistinctSecondHalf()
    ensures forall i, j | 8 <= i < j < 16 :: FIELDS[i].column != FIELDS[j].column
  {
  }

  lemma ColumnsDistinctAcross()
    ensures forall i, j | 0 <= i < 8 <= j < 16 :: FIELDS[i].column != FIELDS[j].column
  {
  }

  lemma ColumnsDistinct()
    ensures DistinctColumns(FIELDS)
  {
    ColumnsDistinctFirstHalf();
    ColumnsDistinctSecondHalf();
    ColumnsDistinctAcross();
    assert |FIELDS| == 16;
  }

  lemma CaptionsDistinctFirstHalf()
    ensures forall i, j | 0 <= i < j < 8 :: FIELDS[i].caption != FIELDS[j].caption
  {
  }

  lemma CaptionsDistinctSecondHalf()
    ensures forall i, j | 8 <= i < j < 16 :: FIELDS[i].caption != FIELDS[j].caption
  {
  }

  lemma CaptionsDistinctAcross()
    ensures forall i, j | 0 <= i < 8 <= j < 16 :: FIELDS[i].caption != FIELDS[j].caption
  {
  }

  lemma CaptionsDistinct()
    ensures DistinctCaptions(FIELDS)
  {
    CaptionsDistinctFirstHalf();
    CaptionsDistinctSecondHalf();
    CaptionsDistinctAcross();
    assert |FIELDS| == 16;
  }

}
