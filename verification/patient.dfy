/** The records the front end passes around (types.ts): the patient data the
    form collects, the assessment the remote service returns and the entries
    of the session history. */
module Patient {

  datatype Gender = Male | Female

  /** The string the select element and the CSV use for a gender. */
  function GenderText(g: Gender): (s: string)
    ensures s == "Male" || s == "Female"
  {
    match g
    case Male => "Male"
    case Female => "Female"
  }

  /** Glucose and creatinine in mg/dL, age in years. All three are JavaScript
      numbers filled in by `parseFloat`, so they are modelled as reals. */
  datatype PatientData = PatientData(glucose: real, creatinine: real, age: real, gender: Gender)

  /** The three numeric inputs of the form. */
  datatype NumericField = Glucose | Creatinine | Age

  /** The `name` attribute of the input, which is also the key of the error map. */
  function FieldName(f: NumericField): string
  {
    match f
    case Glucose => "glucose"
    case Creatinine => "creatinine"
    case Age => "age"
  }

  function Get(d: PatientData, f: NumericField): real
  {
    match f
    case Glucose => d.glucose
    case Creatinine => d.creatinine
    case Age => d.age
  }

  /** `{...d, [name]: v}` for a numeric field: only that field changes. */
  function Set(d: PatientData, f: NumericField, v: real): (r: PatientData)
    ensures Get(r, f) == v
    ensures forall g :: g != f ==> Get(r, g) == Get(d, g)
    ensures r.gender == d.gender
  {
    match f
    case Glucose => d.(glucose := v)
    case Creatinine => d.(creatinine := v)
    case Age => d.(age := v)
  }

  /** The parsed reply of the remote service plus the local timestamp. The
      service's schema only says "string" for the level, so any text can
      arrive here; the code switches on it without checking. */
  datatype PredictionResult = PredictionResult(
    riskScore: real,
    riskLevel: string,
    glucoseStatus: string,
    creatinineStatus: string,
    recommendation: string,
    explanation: string,
    timestamp: string)

  /** `PredictionHistoryItem`: every field of the result, an id, and the input. */
  datatype HistoryItem = HistoryItem(
    id: string,
    input: PatientData,
    riskScore: real,
    riskLevel: string,
    glucoseStatus: string,
    creatinineStatus: string,
    recommendation: string,
    explanation: string,
    timestamp: string)

  /** The result part of a history entry. */
  function ResultOf(item: HistoryItem): PredictionResult
  {
    PredictionResult(item.riskScore, item.riskLevel, item.glucoseStatus, item.creatinineStatus,
                     item.recommendation, item.explanation, item.timestamp)
  }

  /** `{...result, id, input: data}`: the entry carries the result unchanged,
      the generated id and exactly the submitted data. */
  function MakeItem(result: PredictionResult, id: string, data: PatientData): (item: HistoryItem)
    ensures ResultOf(item) == result
    ensures item.id == id && item.input == data
  {
    HistoryItem(id, data, result.riskScore, result.riskLevel, result.glucoseStatus,
                result.creatinineStatus, result.recommendation, result.explanation, result.timestamp)
  }
}
