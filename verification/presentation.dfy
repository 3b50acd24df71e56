/** The deterministic presentation logic of the results panel
    (components/ResultsDisplay.tsx) and the history sidebar (App.tsx): gauge
    marker positions, the style chosen for a risk level, the badge and trend
    bar colours, and the highlighting of status texts. */
module Presentation {
  import opened Wrappers
  import opened Patient

  /** `Math.min(Math.max(pos, 0), 100)` for a finite `pos`. */
  function Clamp(pos: real): (r: real)
    ensures 0.0 <= r <= 100.0
    ensures 0.0 <= pos <= 100.0 ==> r == pos
    ensures pos < 0.0 ==> r == 0.0
    ensures pos > 100.0 ==> r == 100.0
  {
    if pos < 0.0 then 0.0 else if pos > 100.0 then 100.0 else pos
  }

  /** A share of a positive whole lies between nothing and all of it. */
  lemma UnitQuotient(a: real, b: real)
    requires 0.0 <= a <= b && 0.0 < b
    ensures 0.0 <= a / b <= 1.0
  {
    var q := a / b;
    assert q * b == a;
  }

  /** `getMarkerPos(val, min, max)`, as a percentage of the gauge's width.
      With `max == min` the division is by zero: a value above `min` gives
      +Infinity and clamps to 100, one below gives -Infinity and clamps to 0,
      and `val == min` gives NaN, which survives the clamp and is `None` here. */
  function MarkerPos(val: real, min: real, max: real): (r: Option<real>)
    ensures r.Some? ==> 0.0 <= r.value <= 100.0
    ensures r.None? <==> max == min && val == min
    ensures max == min && val > min ==> r == Some(100.0)
    ensures max == min && val < min ==> r == Some(0.0)
    ensures min < max && min <= val <= max ==> r.Some? && r.value * (max - min) == (val - min) * 100.0
  {
    if max == min then
      if val > min then Some(100.0) else if val < min then Some(0.0) else None
    else
      var q := (val - min) / (max - min);
      assert q * (max - min) == val - min;
      if min < max && min <= val <= max then
        UnitQuotient(val - min, max - min);
        Some(Clamp(q * 100.0))
      else Some(Clamp(q * 100.0))
  }

  /** The scale's ends sit at the gauge's ends. */
  lemma MarkerAtEnds(min: real, max: real)
    requires min < max
    ensures MarkerPos(min, min, max) == Some(0.0)
    ensures MarkerPos(max, min, max) == Some(100.0)
  {
    assert (min - min) / (max - min) == 0.0;
    assert (max - min) / (max - min) == 1.0;
  }

  /** Values off the scale are pinned to the nearer end. */
  lemma MarkerClampsOutside(val: real, min: real, max: real)
    requires min < max
    ensures val <= min ==> MarkerPos(val, min, max) == Some(0.0)
    ensures val >= max ==> MarkerPos(val, min, max) == Some(100.0)
  {
    var q := (val - min) / (max - min);
    if val <= min {
      assert q <= 0.0 by { DivSign(val - min, max - min); }
    } else if val >= max {
      assert q >= 1.0 by { assert val - min >= max - min; DivAtLeastOne(val - min, max - min); }
    }
  }

  lemma DivSign(a: real, b: real)
    requires a <= 0.0 && b > 0.0
    ensures a / b <= 0.0
  {
    assert a / b * b == a;
  }

  lemma DivAtLeastOne(a: real, b: real)
    requires a >= b > 0.0
    ensures a / b >= 1.0
  {
    assert a / b * b == a;
  }

  lemma DivMonotone(a1: real, a2: real, b: real)
    requires a1 <= a2 && b > 0.0
    ensures a1 / b <= a2 / b
  {
    assert a1 / b * b == a1 && a2 / b * b == a2;
  }

  /** On an increasing scale, a larger value never moves the marker left. */
  lemma MarkerMonotone(v1: real, v2: real, min: real, max: real)
    requires min < max && v1 <= v2
    ensures MarkerPos(v1, min, max).value <= MarkerPos(v2, min, max).value
  {
    DivMonotone(v1 - min, v2 - min, max - min);
  }

  /** The glucose gauge runs from 40 to 500 mg/dL. */
  function GlucoseMarker(d: PatientData): (r: real)
    ensures 0.0 <= r <= 100.0
    ensures d.glucose <= 40.0 ==> r == 0.0
    ensures d.glucose >= 500.0 ==> r == 100.0
    ensures MarkerPos(d.glucose, 40.0, 500.0) == Some(r)
  {
    MarkerClampsOutside(d.glucose, 40.0, 500.0);
    MarkerPos(d.glucose, 40.0, 500.0).value
  }

  /** The creatinine gauge runs from 0.3 to 3.0 mg/dL, although the form
      accepts up to 15: every accepted value from 3.0 up shows at the right end. */
  function CreatinineMarker(d: PatientData): (r: real)
    ensures 0.0 <= r <= 100.0
    ensures d.creatinine <= 0.3 ==> r == 0.0
    ensures d.creatinine >= 3.0 ==> r == 100.0
    ensures MarkerPos(d.creatinine, 0.3, 3.0) == Some(r)
  {
    MarkerClampsOutside(d.creatinine, 0.3, 3.0);
    MarkerPos(d.creatinine, 0.3, 3.0).value
  }

  /** The three levels of the `RiskLevel` enumeration and their wire text. */
  datatype RiskLevel = Low | Moderate | High

  function LevelText(l: RiskLevel): string
  {
    match l
    case Low => "Low"
    case Moderate => "Moderate"
    case High => "High"
  }

  /** The enumeration member whose text is `s`, if any. */
  function ParseLevel(s: string): (r: Option<RiskLevel>)
    ensures r.Some? ==> LevelText(r.value) == s
    ensures r.None? ==> forall l :: LevelText(l) != s
  {
    if s == "Low" then Some(Low)
    else if s == "Moderate" then Some(Moderate)
    else if s == "High" then Some(High)
    else None
  }

  /** The class names, icon and banner label of the results panel. The
      source's `label` field is `statusLabel` here, because `label` is a
      Dafny keyword. */
  datatype RiskStyle = RiskStyle(
    bg: string, border: string, text: string, accent: string, secondaryBg: string,
    icon: string, glow: string, statusLabel: string, banner: string, gradient: string)

  const LowStyle := RiskStyle("bg-emerald-50", "border-emerald-200", "text-emerald-800", "bg-emerald-600",
    "bg-emerald-100", "fa-circle-check", "shadow-emerald-100", "Safe / Low Risk", "bg-emerald-600",
    "from-emerald-500 to-teal-600")
  const ModerateStyle := RiskStyle("bg-amber-50", "border-amber-200", "text-amber-800", "bg-amber-600",
    "bg-amber-100", "fa-triangle-exclamation", "shadow-amber-100", "Caution / Moderate Risk", "bg-amber-500",
    "from-amber-400 to-orange-500")
  const HighStyle := RiskStyle("bg-rose-50", "border-rose-200", "text-rose-800", "bg-rose-600",
    "bg-rose-100", "fa-circle-exclamation", "shadow-rose-100", "Critical / High Risk", "bg-rose-600",
    "from-rose-500 to-red-700")
  const UnknownStyle := RiskStyle("bg-slate-50", "border-slate-200", "text-slate-800", "bg-slate-600",
    "bg-slate-100", "fa-circle-info", "shadow-slate-100", "Unknown Status", "bg-slate-600",
    "from-slate-500 to-slate-700")

  function StyleOf(l: RiskLevel): RiskStyle
  {
    match l
    case Low => LowStyle
    case Moderate => ModerateStyle
    case High => HighStyle
  }

  /** `getRiskStyles(level)`: the exact text of one of the three levels selects
      that level's style; any other text, including other capitalisations,
      gets the neutral style labelled "Unknown Status". */
  function RiskStyles(level: string): (r: RiskStyle)
    ensures forall l :: LevelText(l) == level ==> r == StyleOf(l)
    ensures r.statusLabel == "Unknown Status" <==> ParseLevel(level).None?
    ensures ParseLevel(level).None? ==> r == UnknownStyle
  {
    match ParseLevel(level)
    case Some(l) => StyleOf(l)
    case None => UnknownStyle
  }

  /** The three known levels carry three different labels. */
  lemma LevelLabelsDistinct(a: RiskLevel, b: RiskLevel)
    requires a != b
    ensures RiskStyles(LevelText(a)).statusLabel != RiskStyles(LevelText(b)).statusLabel
  {
  }

  /** The colour family of the sidebar badge and the trend bar. */
  datatype Tone = Red | Amber | Emerald

  /** `riskLevel === 'High' ? … : riskLevel === 'Moderate' ? … : …` */
  function ToneOf(level: string): (t: Tone)
    ensures t == Red <==> level == "High"
    ensures t == Amber <==> level == "Moderate"
  {
    if level == "High" then Red else if level == "Moderate" then Amber else Emerald
  }

  /** The sidebar badge's classes. */
  function BadgeClass(level: string): (c: string)
    ensures level == "High" ==> c == "bg-red-100 text-red-600"
    ensures level == "Moderate" ==> c == "bg-amber-100 text-amber-600"
    ensures level != "High" && level != "Moderate" ==> c == "bg-emerald-100 text-emerald-600"
  {
    match ToneOf(level)
    case Red => "bg-red-100 text-red-600"
    case Amber => "bg-amber-100 text-amber-600"
    case Emerald => "bg-emerald-100 text-emerald-600"
  }

  /** The trend chart bar's class. */
  function TrendBarClass(level: string): (c: string)
    ensures level == "High" ==> c == "bg-rose-400"
    ensures level == "Moderate" ==> c == "bg-amber-400"
    ensures level != "High" && level != "Moderate" ==> c == "bg-emerald-400"
  {
    match ToneOf(level)
    case Red => "bg-rose-400"
    case Amber => "bg-amber-400"
    case Emerald => "bg-emerald-400"
  }

  /** A level text the enumeration does not know is shown in the sidebar
      exactly like "Low", while the results panel labels it "Unknown Status". */
  lemma UnknownLevelLooksLow(level: string)
    requires ParseLevel(level).None?
    ensures BadgeClass(level) == BadgeClass("Low") && TrendBarClass(level) == TrendBarClass("Low")
    ensures RiskStyles(level).statusLabel == "Unknown Status" && RiskStyles("Low").statusLabel != "Unknown Status"
  {
    assert LevelText(Low) == "Low";
  }

  /** The trend chart's bars: `history.slice().reverse()`, oldest first, each a
      height (the score, in percent) and a bar class. */
  function TrendBars(history: seq<HistoryItem>): (bars: seq<(real, string)>)
    ensures |bars| == |history|
    ensures forall i :: 0 <= i < |history| ==>
      bars[i] == (history[|history| - 1 - i].riskScore, TrendBarClass(history[|history| - 1 - i].riskLevel))
  {
    if |history| == 0 then []
    else TrendBars(history[1..]) + [(history[0].riskScore, TrendBarClass(history[0].riskLevel))]
  }

  /** What the "Risk Trends (Session)" card shows: a placeholder text, or the
      bars of the chart. */
  datatype TrendView = Placeholder(message: string) | Chart(bars: seq<(real, string)>)

  /** The trend card: the chart is drawn only once the history holds more
      than one screening (`history.length > 1`); before that the card shows
      a fixed placeholder text. */
  function TrendCard(history: seq<HistoryItem>): (v: TrendView)
    ensures v.Placeholder? <==> |history| <= 1
    ensures v.Placeholder? ==> v.message == "Graph will appear after multiple screenings."
    ensures v.Chart? ==> |v.bars| == |history| >= 2
    ensures v.Chart? ==> forall i :: 0 <= i < |history| ==>
      v.bars[i] == (history[|history| - 1 - i].riskScore, TrendBarClass(history[|history| - 1 - i].riskLevel))
  {
    if |history| > 1 then Chart(TrendBars(history))
    else Placeholder("Graph will appear after multiple screenings.")
  }

  /** `String.prototype.toLowerCase` on ASCII letters; other characters are kept. */
  function LowerChar(c: char): char
  {
    if 'A' <= c <= 'Z' then (c as int - 'A' as int + 'a' as int) as char else c
  }

  function UpperChar(c: char): char
  {
    if 'a' <= c <= 'z' then (c as int - 'a' as int + 'A' as int) as char else c
  }

  function Lower(s: string): (r: string)
    ensures |r| == |s|
    ensures forall i :: 0 <= i < |s| ==> r[i] == LowerChar(s[i])
  {
    if |s| == 0 then [] else [LowerChar(s[0])] + Lower(s[1..])
  }

  function Upper(s: string): (r: string)
    ensures |r| == |s|
    ensures forall i :: 0 <= i < |s| ==> r[i] == UpperChar(s[i])
  {
    if |s| == 0 then [] else [UpperChar(s[0])] + Upper(s[1..])
  }

  /** `p` occurs in `s` starting at index `i`. */
  predicate OccursAt(s: string, p: string, i: int) {
    0 <= i <= |s| - |p| && s[i..i + |p|] == p
  }

  /** `s.includes(p)`: `p` occurs in `s` at some position. */
  function Contains(s: string, p: string): (r: bool)
    ensures r <==> exists i :: OccursAt(s, p, i)
    decreases |s|
  {
    if |s| < |p| then false
    else if s[..|p|] == p then
      assert OccursAt(s, p, 0);
      true
    else
      var r := Contains(s[1..], p);
      assert r ==> exists i :: OccursAt(s, p, i) by {
        if r {
          var j :| OccursAt(s[1..], p, j);
          assert s[j + 1..j + 1 + |p|] == s[1..][j..j + |p|];
          assert OccursAt(s, p, j + 1);
        }
      }
      assert (exists i :: OccursAt(s, p, i)) ==> r by {
        if exists i :: OccursAt(s, p, i) {
          var i :| OccursAt(s, p, i);
          assert i != 0;
          assert s[1..][i - 1..i - 1 + |p|] == s[i..i + |p|];
          assert OccursAt(s[1..], p, i - 1);
        }
      }
      r
  }

  /** Lower-casing works character by character, so it commutes with slicing. */
  lemma LowerWindow(s: string, i: nat, j: nat)
    requires i <= j <= |s|
    ensures Lower(s)[i..j] == Lower(s[i..j])
  {
    assert forall k :: 0 <= k < j - i ==> Lower(s)[i..j][k] == Lower(s[i..j])[k];
  }

  /** The window of `s` starting at `i` reads `word` once lower-cased. */
  predicate WindowReads(s: string, word: string, i: int) {
    0 <= i <= |s| - |word| && Lower(s[i..i + |word|]) == word
  }

  /** `Lower(s).includes(word)`, stated on `s` itself. */
  lemma ContainsLowerWindow(s: string, word: string)
    ensures Contains(Lower(s), word) <==> exists i :: WindowReads(s, word, i)
  {
    if Contains(Lower(s), word) {
      var i :| OccursAt(Lower(s), word, i);
      OccursThenReads(s, word, i);
    }
    if exists i :: WindowReads(s, word, i) {
      var i :| WindowReads(s, word, i);
      ReadsThenOccurs(s, word, i);
    }
  }

  lemma OccursThenReads(s: string, word: string, i: int)
    requires OccursAt(Lower(s), word, i)
    ensures WindowReads(s, word, i)
  {
    LowerWindow(s, i, i + |word|);
  }

  lemma ReadsThenOccurs(s: string, word: string, i: int)
    requires WindowReads(s, word, i)
    ensures OccursAt(Lower(s), word, i)
  {
    LowerWindow(s, i, i + |word|);
  }

  /** The glucose status is drawn in green when its lower-case form contains
      "normal", that is, when some six-character window of it reads "normal"
      in any mix of cases. */
  function GlucoseHighlighted(status: string): (r: bool)
    ensures r <==> exists i :: WindowReads(status, "normal", i)
  {
    ContainsLowerWindow(status, "normal");
    Contains(Lower(status), "normal")
  }

  /** The creatinine status is drawn in red when its lower-case form contains
      "elevated", that is, when some eight-character window of it reads
      "elevated" in any mix of cases. */
  function CreatinineHighlighted(status: string): (r: bool)
    ensures r <==> exists i :: WindowReads(status, "elevated", i)
  {
    ContainsLowerWindow(status, "elevated");
    Contains(Lower(status), "elevated")
  }

  lemma LowerIdempotent(s: string)
    ensures Lower(Lower(s)) == Lower(s)
  {
  }

  lemma LowerOfUpper(s: string)
    ensures Lower(Upper(s)) == Lower(s)
  {
  }

  /** Highlighting ignores case: a status and its upper- and lower-case
      spellings are highlighted alike. */
  lemma HighlightIgnoresCase(status: string)
    ensures GlucoseHighlighted(Upper(status)) == GlucoseHighlighted(status) == GlucoseHighlighted(Lower(status))
    ensures CreatinineHighlighted(Upper(status)) == CreatinineHighlighted(status) == CreatinineHighlighted(Lower(status))
  {
    LowerIdempotent(status);
    LowerOfUpper(status);
  }

  /** A substring test, not a word test: "Abnormal" is highlighted like "Normal". */
  lemma AbnormalIsHighlighted()
    ensures GlucoseHighlighted("Abnormal") && GlucoseHighlighted("Normal")
  {
    AbnormalReadsNormal();
    NormalReadsNormal();
  }

  lemma AbnormalReadsNormal()
    ensures WindowReads("Abnormal", "normal", 2)
  {
    var s := "Abnormal";
    assert s[2..8] == "normal";
    assert Lower("normal") == "normal";
  }

  lemma NormalReadsNormal()
    ensures WindowReads("Normal", "normal", 0)
  {
    var s := "Normal";
    assert s[0..6] == s;
    assert Lower(s) == "normal";
  }

  /** A status that contains the lower-case word verbatim is highlighted,
      whatever surrounds it. */
  lemma ContainsLowerWord(s: string, p: string)
    requires Lower(p) == p && Contains(s, p)
    ensures Contains(Lower(s), p)
  {
    var i :| OccursAt(s, p, i);
    var l := Lower(s);
    forall k | 0 <= k < |p|
      ensures l[i + k] == p[k]
    {
      assert s[i + k] == s[i..i + |p|][k];
      assert Lower(p)[k] == LowerChar(p[k]);
    }
    assert l[i..i + |p|] == p;
    assert OccursAt(l, p, i);
  }

  /** "Not elevated" is highlighted like "Elevated". */
  lemma NotElevatedIsHighlighted()
    ensures CreatinineHighlighted("Not elevated")
  {
    var s := "Not elevated";
    assert s[4..12] == "elevated";
    assert Lower("elevated") == "elevated";
    assert WindowReads(s, "elevated", 4);
  }

  /** A status without the word is not highlighted. */
  lemma DiabeticIsNotHighlighted()
    ensures !GlucoseHighlighted("Diabetic")
  {
    var d := Lower("Diabetic");
    assert d == "diabetic";
    assert forall k :: 0 <= k < |d| ==> d[k] != 'n';
  }
}
