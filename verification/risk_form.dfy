/** The patient form (components/RiskForm.tsx): its initial state, the
    per-keystroke update, the range validator and the submit gate. */
module RiskForm {
  import opened Wrappers
  import opened Patient
  import opened NumberParsing

  /** The state the form starts in. */
  const InitialData := PatientData(100.0, 1.0, 45.0, Male)

  /** Inclusive lower and upper bounds per field: the reference the
      validator's literal comparisons are checked against. */
  function Low(f: NumericField): real
  {
    match f
    case Glucose => 40.0
    case Creatinine => 0.3
    case Age => 1.0
  }

  function High(f: NumericField): real
  {
    match f
    case Glucose => 500.0
    case Creatinine => 15.0
    case Age => 120.0
  }

  predicate InRange(d: PatientData, f: NumericField) {
    Low(f) <= Get(d, f) <= High(f)
  }

  /** The message shown under an out-of-range field. */
  function Message(f: NumericField): string
  {
    match f
    case Glucose => "Range: 40-500 mg/dL"
    case Creatinine => "Range: 0.3-15 mg/dL"
    case Age => "Range: 1-120 years"
  }

  /** `validate`: the error object, keyed by field name. A key is present
      exactly for the fields outside their inclusive range, each with its own
      message; nothing else (in particular not "gender") is ever a key, and the
      form is accepted exactly when all three fields are in range. */
  function Validate(d: PatientData): (errors: map<string, string>)
    ensures forall f :: FieldName(f) in errors <==> !InRange(d, f)
    ensures forall f :: FieldName(f) in errors ==> errors[FieldName(f)] == Message(f)
    ensures forall k :: k in errors ==> exists f :: k == FieldName(f)
    ensures "gender" !in errors
    ensures errors == map[] <==> forall f :: InRange(d, f)
  {
    var e0: map<string, string> := map[];
    var e1 := if d.glucose < 40.0 || d.glucose > 500.0 then e0["glucose" := "Range: 40-500 mg/dL"] else e0;
    var e2 := if d.creatinine < 0.3 || d.creatinine > 15.0 then e1["creatinine" := "Range: 0.3-15 mg/dL"] else e1;
    var e3 := if d.age < 1.0 || d.age > 120.0 then e2["age" := "Range: 1-120 years"] else e2;
    assert e3.Keys <= {"glucose", "creatinine", "age"};
    assert ("glucose" in e3) == !InRange(d, Glucose);
    assert ("creatinine" in e3) == !InRange(d, Creatinine);
    assert ("age" in e3) == !InRange(d, Age);
    assert InRange(d, Glucose) && InRange(d, Creatinine) && InRange(d, Age) ==> e3 == map[];
    e3
  }

  /** `Object.keys(errors).length === 0`. */
  function Accepts(d: PatientData): (ok: bool)
    ensures ok <==> forall f :: InRange(d, f)
  {
    |Validate(d)| == 0
  }

  /** The accepted inputs are exactly the box of the three inclusive ranges. */
  lemma AcceptsIff(d: PatientData)
    ensures Accepts(d) <==>
      (40.0 <= d.glucose <= 500.0 && 0.3 <= d.creatinine <= 15.0 && 1.0 <= d.age <= 120.0)
  {
    var e := Validate(d);
    if !Accepts(d) {
      assert e != map[];
      var k :| k in e;
      var f :| k == FieldName(f);
      assert !InRange(d, f);
    } else {
      assert e == map[];
      assert InRange(d, Glucose) && InRange(d, Creatinine) && InRange(d, Age);
    }
  }

  /** The end points of every range are accepted. */
  lemma BoundsInclusive(d: PatientData, f: NumericField)
    requires Get(d, f) == Low(f) || Get(d, f) == High(f)
    ensures FieldName(f) !in Validate(d)
  {
  }

  /** Whether a field is flagged, and with which message, depends on that
      field's value alone. */
  lemma FieldsCheckedIndependently(d1: PatientData, d2: PatientData, f: NumericField)
    requires Get(d1, f) == Get(d2, f)
    ensures FieldName(f) in Validate(d1) <==> FieldName(f) in Validate(d2)
    ensures FieldName(f) in Validate(d1) ==> Validate(d1)[FieldName(f)] == Validate(d2)[FieldName(f)]
  {
  }

  /** 0 lies below every lower bound, so a zeroed field is always flagged. */
  lemma ZeroIsRejected(d: PatientData, f: NumericField)
    requires Get(d, f) == 0.0
    ensures FieldName(f) in Validate(d)
    ensures !Accepts(d)
  {
  }

  /** The form's initial state passes validation. */
  lemma InitialAccepted()
    ensures Validate(InitialData) == map[]
  {
    assert forall f :: InRange(InitialData, f);
  }

  /** One `change` event: a keystroke in a numeric input, carrying the input's
      text, or a choice in the gender select, whose two options are the two genders. */
  datatype Change = Typed(field: NumericField, text: string) | Selected(choice: Gender)

  /** `handleChange`: a numeric field becomes `parseFloat(text) || 0`, the
      gender becomes the selected option; all other fields are kept. */
  function HandleChange(d: PatientData, c: Change): (r: PatientData)
    ensures c.Typed? ==> Get(r, c.field) == NumericEntry(c.text)
    ensures c.Typed? ==> r.gender == d.gender && forall g :: g != c.field ==> Get(r, g) == Get(d, g)
    ensures c.Selected? ==> r == d.(gender := c.choice)
  {
    match c
    case Typed(f, text) => Set(d, f, NumericEntry(text))
    case Selected(g) => d.(gender := g)
  }

  /** Text that `parseFloat` cannot read leaves the field at 0, which the
      next validation flags. */
  lemma UnparseableEntryIsRejected(d: PatientData, f: NumericField, text: string)
    requires ParseFloat(text).None?
    ensures FieldName(f) in Validate(HandleChange(d, Typed(f, text)))
  {
    ZeroIsRejected(HandleChange(d, Typed(f, text)), f);
  }

  /** Choosing a gender never changes the validation verdict. */
  lemma GenderNeverValidated(d: PatientData, g: Gender)
    ensures Validate(HandleChange(d, Selected(g))) == Validate(d)
  {
    var d' := HandleChange(d, Selected(g));
    assert forall f :: Get(d', f) == Get(d, f);
  }

  /** The component's state: the data and the errors last shown. */
  datatype FormState = FormState(data: PatientData, errors: map<string, string>)

  const InitialForm := FormState(InitialData, map[])

  /** A change event updates the data; the errors shown stay until the next submit. */
  function ApplyChange(s: FormState, c: Change): (r: FormState)
    ensures r.errors == s.errors
    ensures r.data == HandleChange(s.data, c)
  {
    FormState(HandleChange(s.data, c), s.errors)
  }

  /** What a submit attempt leaves behind: the new form state and the data
      handed to `onPredict`, if any. */
  datatype Submission = Submission(form: FormState, dispatched: Option<PatientData>)

  /** `handleSubmit`. While a prediction is loading the submit button is
      disabled, so nothing happens. Otherwise the errors are recomputed and the
      current data is dispatched exactly when all three fields are in range. */
  function HandleSubmit(s: FormState, isLoading: bool): (r: Submission)
    ensures r.dispatched.Some? <==> !isLoading && forall f :: InRange(s.data, f)
    ensures r.dispatched.Some? ==> r.dispatched.value == s.data
    ensures r.form.data == s.data
    ensures isLoading ==> r.form == s
    ensures !isLoading ==> forall f :: FieldName(f) in r.form.errors <==> !InRange(s.data, f)
    ensures !isLoading ==> r.form.errors == Validate(s.data)
  {
    if isLoading then Submission(s, None)
    else
      var errors := Validate(s.data);
      Submission(FormState(s.data, errors), if |errors| == 0 then Some(s.data) else None)
  }
}
