/** The application state of App.tsx and the one transition that changes it,
    `handlePredict`: the awaited service call is replaced by its outcome,
    given as a parameter, and the call is modelled from start to finish. */
module Session {
  import opened Wrappers
  import opened Patient

  /** How many entries the session history keeps. */
  const HistoryLimit: nat := 10

  /** Shown when the thrown value carries no message. */
  const DefaultError := "An error occurred during prediction."

  /** What the awaited `predictRisk` call produced: a result (with the id
      `Math.random` gave the new entry), or a thrown error whose `message` may
      be empty or missing, both written "". */
  datatype Outcome = Succeeded(result: PredictionResult, id: string) | Failed(message: string)

  datatype AppState = AppState(
    loading: bool,
    currentResult: Option<PredictionResult>,
    lastInput: Option<PatientData>,
    history: seq<HistoryItem>,
    error: Option<string>)

  const InitialApp := AppState(false, None, None, [], None)

  function Min(a: int, b: int): int {
    if a <= b then a else b
  }

  /** `[item, ...history].slice(0, 10)`: the new entry first, then the newest
      old entries in their order, dropping only what falls beyond the limit. */
  function Push(history: seq<HistoryItem>, item: HistoryItem): (r: seq<HistoryItem>)
    ensures |r| == Min(|history| + 1, HistoryLimit)
    ensures r[0] == item
    ensures r[1..] == history[..Min(|history|, HistoryLimit - 1)]
  {
    ([item] + history)[..Min(|history| + 1, HistoryLimit)]
  }

  /** A full history loses exactly its oldest entry. */
  lemma PushFullDropsOldest(history: seq<HistoryItem>, item: HistoryItem)
    requires |history| == HistoryLimit
    ensures Push(history, item) == [item] + history[..HistoryLimit - 1]
  {
    var r := Push(history, item);
    assert r == [r[0]] + r[1..];
  }

  /** `err.message || "An error occurred during prediction."` */
  function ErrorText(message: string): (t: string)
    ensures t != ""
    ensures message != "" ==> t == message
    ensures message == "" ==> t == DefaultError
  {
    if message == "" then DefaultError else message
  }

  /** The state once `setLoading(true)`, `setError(null)` and
      `setLastInput(data)` have run, while the call is pending. */
  function Start(s: AppState, data: PatientData): (r: AppState)
    ensures r.loading && r.error == None && r.lastInput == Some(data)
    ensures r.currentResult == s.currentResult && r.history == s.history
  {
    s.(loading := true, error := None, lastInput := Some(data))
  }

  /** `handlePredict(data)` from its first statement to its `finally`. On
      success the result becomes current and its entry is pushed onto the
      history; on failure only the error is set; loading ends either way. */
  function HandlePredict(s: AppState, data: PatientData, outcome: Outcome): (r: AppState)
    ensures !r.loading
    ensures r.lastInput == Some(data)
    ensures outcome.Succeeded? ==>
      && r.currentResult == Some(outcome.result)
      && r.error == None
      && |r.history| == Min(|s.history| + 1, HistoryLimit)
      && r.history[0] == MakeItem(outcome.result, outcome.id, data)
      && r.history[1..] == s.history[..Min(|s.history|, HistoryLimit - 1)]
    ensures outcome.Failed? ==>
      && r.history == s.history
      && r.currentResult == s.currentResult
      && r.error == Some(ErrorText(outcome.message))
  {
    var pending := Start(s, data);
    var finished :=
      match outcome
      case Succeeded(result, id) =>
        pending.(currentResult := Some(result), history := Push(pending.history, MakeItem(result, id, data)))
      case Failed(message) =>
        pending.(error := Some(ErrorText(message)));
    finished.(loading := false)
  }

  /** The history never exceeds its limit. */
  lemma HistoryBounded(s: AppState, data: PatientData, outcome: Outcome)
    requires |s.history| <= HistoryLimit
    ensures |HandlePredict(s, data, outcome).history| <= HistoryLimit
  {
  }

  /** One submitted prediction: the data and the outcome of its call. */
  datatype Call = Call(data: PatientData, outcome: Outcome)

  /** The state after a session's calls, in the order they were made. */
  function Replay(s: AppState, calls: seq<Call>): AppState
  {
    if |calls| == 0 then s
    else
      var last := calls[|calls| - 1];
      HandlePredict(Replay(s, calls[..|calls| - 1]), last.data, last.outcome)
  }

  /** The entries of the successful calls, oldest first. */
  function SuccessItems(calls: seq<Call>): seq<HistoryItem>
  {
    if |calls| == 0 then []
    else
      var last := calls[|calls| - 1];
      var earlier := SuccessItems(calls[..|calls| - 1]);
      match last.outcome
      case Succeeded(result, id) => earlier + [MakeItem(result, id, last.data)]
      case Failed(_) => earlier
  }

  function Reverse<T>(xs: seq<T>): (r: seq<T>)
    ensures |r| == |xs|
    ensures forall i :: 0 <= i < |xs| ==> r[i] == xs[|xs| - 1 - i]
  {
    if |xs| == 0 then [] else [xs[|xs| - 1]] + Reverse(xs[..|xs| - 1])
  }

  /** The `n` newest of `items` (given oldest first), newest first. */
  function Newest<T>(items: seq<T>, n: nat): (r: seq<T>)
    ensures |r| == Min(|items|, n)
  {
    Reverse(items)[..Min(|items|, n)]
  }

  lemma PushNewest(items: seq<HistoryItem>, item: HistoryItem)
    ensures Push(Newest(items, HistoryLimit), item) == Newest(items + [item], HistoryLimit)
  {
    var a := Push(Newest(items, HistoryLimit), item);
    var b := Newest(items + [item], HistoryLimit);
    assert |a| == |b|;
    forall i | 0 <= i < |a|
      ensures a[i] == b[i]
    {
      if i > 0 {
        assert a[i] == a[1..][i - 1];
      }
    }
  }

  /** Whatever happened during a session that began with an empty history,
      the history holds the entries of the ten most recent successful calls,
      newest first, and failed calls leave no trace in it. */
  lemma {:induction false} ReplayHistory(s: AppState, calls: seq<Call>)
    requires s.history == []
    ensures Replay(s, calls).history == Newest(SuccessItems(calls), HistoryLimit)
  {
    if |calls| == 0 {
    } else {
      var earlier := calls[..|calls| - 1];
      var last := calls[|calls| - 1];
      ReplayHistory(s, earlier);
      match last.outcome
      case Succeeded(result, id) =>
        PushNewest(SuccessItems(earlier), MakeItem(result, id, last.data));
      case Failed(_) =>
    }
  }

  /** What the results panel shows: `currentResult && lastInput`, drawn together. */
  function Displayed(s: AppState): (r: Option<(PredictionResult, PatientData)>)
    ensures r.Some? <==> s.currentResult.Some? && s.lastInput.Some?
    ensures r.Some? ==> r.value.0 == s.currentResult.value && r.value.1 == s.lastInput.value
  {
    if s.currentResult.Some? && s.lastInput.Some? then Some((s.currentResult.value, s.lastInput.value)) else None
  }

  /** The displayed report pairs a result with the very input it was computed
      for: the newest history entry holds both. */
  predicate ReportConsistent(s: AppState) {
    match Displayed(s)
    case None => true
    case Some((result, input)) =>
      |s.history| > 0 && ResultOf(s.history[0]) == result && s.history[0].input == input
  }

  /** As written, `lastInput` is replaced before the call is awaited, so a
      failed call leaves the previous result on screen next to the new,
      unassessed input (glucose marker and value included). */
  lemma FailureMismatchesReport(s: AppState, data: PatientData, message: string)
    requires ReportConsistent(s) && s.currentResult.Some?
    requires s.lastInput.Some? && s.lastInput.value != data
    ensures !ReportConsistent(HandlePredict(s, data, Failed(message)))
  {
  }

  /** A concrete session that shows it: one successful call for glucose 100,
      then a failed call for glucose 300. */
  lemma FailureMismatchExample()
    ensures
      var ok := PredictionResult(10.0, "Low", "Normal", "Normal", "", "", "t");
      var s1 := HandlePredict(InitialApp, PatientData(100.0, 1.0, 45.0, Male), Succeeded(ok, "a"));
      var s2 := HandlePredict(s1, PatientData(300.0, 1.0, 45.0, Male), Failed(""));
      ReportConsistent(s1) && !ReportConsistent(s2)
  {
  }

  /** `handlePredict` with the input recorded together with the result, only
      when the call succeeds; everything else as written. */
  function HandlePredictPaired(s: AppState, data: PatientData, outcome: Outcome): (r: AppState)
    ensures !r.loading
    ensures outcome.Succeeded? ==> r == HandlePredict(s, data, outcome)
    ensures outcome.Failed? ==> r == HandlePredict(s, data, outcome).(lastInput := s.lastInput)
    ensures outcome.Failed? ==> r.currentResult == s.currentResult && r.lastInput == s.lastInput
  {
    var pending := s.(loading := true, error := None);
    var finished :=
      match outcome
      case Succeeded(result, id) =>
        pending.(currentResult := Some(result), lastInput := Some(data),
                 history := Push(pending.history, MakeItem(result, id, data)))
      case Failed(message) =>
        pending.(error := Some(ErrorText(message)));
    finished.(loading := false)
  }

  /** With the input recorded on success only, every call keeps the report
      consistent, whatever its outcome. */
  lemma PairedKeepsReportConsistent(s: AppState, data: PatientData, outcome: Outcome)
    requires ReportConsistent(s)
    ensures ReportConsistent(HandlePredictPaired(s, data, outcome))
  {
    var r := HandlePredictPaired(s, data, outcome);
    if outcome.Succeeded? {
      assert r.history[0] == MakeItem(outcome.result, outcome.id, data);
    }
  }

  /** So does a whole session started from the initial state. */
  lemma {:induction false} PairedSessionConsistent(calls: seq<Call>)
    ensures ReportConsistent(ReplayPaired(InitialApp, calls))
  {
    if |calls| > 0 {
      var last := calls[|calls| - 1];
      PairedSessionConsistent(calls[..|calls| - 1]);
      PairedKeepsReportConsistent(ReplayPaired(InitialApp, calls[..|calls| - 1]), last.data, last.outcome);
    }
  }

  function ReplayPaired(s: AppState, calls: seq<Call>): AppState
  {
    if |calls| == 0 then s
    else
      var last := calls[|calls| - 1];
      HandlePredictPaired(ReplayPaired(s, calls[..|calls| - 1]), last.data, last.outcome)
  }
}
