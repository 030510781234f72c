/**
 * The Prediction page of the FocusMania dashboard: the fixed priority and mood
 * encodings, the category encoding learned from the task history, the
 * candidate feature vector handed to the classifier, the additive risk score
 * and the recommendation chosen from it.
 *
 * The risk score is kept in integer hundredths (0.4 is 40), so the source's
 * rounding to two decimal places changes nothing here. The trained classifier
 * is an opaque function from a feature vector to a class label.
 */
module Prediction {
  import opened Wrappers
  import opened Sequences

  /** The choices offered by the priority and mood select boxes. */
  const PriorityOptions: seq<string> := ["Low", "Medium", "High"]
  const MoodOptions: seq<string> := ["Focused", "Calm", "Tired", "Stressed"]

  /** Moods that add to the risk score. */
  const LowEnergyMoods: seq<string> := ["Tired", "Stressed"]

  /** Column order of the training frame, which the candidate row reuses. */
  const TrainingColumns: seq<string> := ["Time_Spent_Min", "Category", "Priority", "Mood"]

  /** Range and default of the time-spent slider, in minutes. */
  const MinTime: int := 10
  const MaxTime: int := 180
  const DefaultTime: int := 60

  /** Risk thresholds, in hundredths. */
  const BreakThreshold: int := 70
  const RescheduleThreshold: int := 40

  /** Distinct keys receive distinct codes. */
  predicate Injective<K>(m: map<K, int>)
  {
    forall a, b :: a in m && b in m && a != b ==> m[a] != m[b]
  }

  /**
   * The fixed priority encoding: exactly the select-box choices have a code,
   * and each code is the choice's position in the select box.
   */
  function PriorityMap(): (m: map<string, int>)
    ensures m.Keys == set p | p in PriorityOptions
    ensures forall i :: 0 <= i < |PriorityOptions| ==> m[PriorityOptions[i]] == i
    ensures Injective(m)
  {
    map["Low" := 0, "Medium" := 1, "High" := 2]
  }

  /**
   * The fixed mood encoding: exactly the select-box choices have a code,
   * and each code is the choice's position in the select box.
   */
  function MoodMap(): (m: map<string, int>)
    ensures m.Keys == set x | x in MoodOptions
    ensures forall i :: 0 <= i < |MoodOptions| ==> m[MoodOptions[i]] == i
    ensures Injective(m)
  {
    map["Focused" := 0, "Calm" := 1, "Tired" := 2, "Stressed" := 3]
  }

  /**
   * The dictionary comprehension `{x: i for i, x in enumerate(u)}`: entries
   * are added left to right, a later key overwriting an earlier equal one.
   */
  function Enumerate<T(==)>(u: seq<T>): (m: map<T, int>)
    ensures m.Keys == set x | x in u
  {
    if u == [] then map[] else Enumerate(u[..|u| - 1])[u[|u| - 1] := |u| - 1]
  }

  /** Over distinct values, every value is mapped to its own position. */
  lemma {:induction false} EnumerateDistinct<T>(u: seq<T>)
    requires Distinct(u)
    ensures forall i :: 0 <= i < |u| ==> u[i] in Enumerate(u) && Enumerate(u)[u[i]] == i
  {
    if u != [] {
      var init := u[..|u| - 1];
      assert Distinct(init);
      EnumerateDistinct(init);
      forall i | 0 <= i < |u|
        ensures u[i] in Enumerate(u) && Enumerate(u)[u[i]] == i
      {
        if i < |u| - 1 {
          assert u[i] == init[i] && u[i] != u[|u| - 1];
        }
      }
    }
  }

  /** The category encoding: each distinct category numbered in order of first appearance. */
  function CategoryMap(categories: seq<string>): (m: map<string, int>)
    ensures forall c :: c in m <==> c in categories
  {
    UniqueElements(categories);
    Enumerate(Unique(categories))
  }

  /**
   * The category encoding is defined on exactly the categories of the history,
   * is injective, uses exactly the codes 0 .. n-1 for n distinct categories,
   * and gives each category its rank in order of first appearance.
   */
  lemma CategoryMapCodes(categories: seq<string>)
    ensures forall c :: c in CategoryMap(categories) <==> c in categories
    ensures Injective(CategoryMap(categories))
    ensures forall k :: k in CategoryMap(categories).Values <==> 0 <= k < |Unique(categories)|
    ensures forall c :: c in categories ==>
      c in Unique(categories) && CategoryMap(categories)[c] == IndexOf(Unique(categories), c)
  {
    var u := Unique(categories);
    var m := CategoryMap(categories);
    UniqueElements(categories);
    EnumerateDistinct(u);
    forall c | c in categories
      ensures c in u && m[c] == IndexOf(u, c)
    {
      var i := IndexOf(u, c);
    }
    forall a, b | a in m && b in m && a != b
      ensures m[a] != m[b]
    {
      var i, j := IndexOf(u, a), IndexOf(u, b);
    }
    forall k | 0 <= k < |u|
      ensures k in m.Values
    {
      assert m[u[k]] == k;
    }
  }

  /** A category seen earlier in the history gets the smaller code. */
  lemma CategoryCodesFollowFirstAppearance(categories: seq<string>, x: string, y: string)
    requires x in categories && y in categories
    ensures x in CategoryMap(categories) && y in CategoryMap(categories)
    ensures CategoryMap(categories)[x] < CategoryMap(categories)[y]
            <==> IndexOf(categories, x) < IndexOf(categories, y)
  {
    CategoryMapCodes(categories);
    UniqueKeepsFirstAppearanceOrder(categories, x, y);
  }

  /** A history ["Work", "Study", "Work"] encodes Work as 0 and Study as 1, and nothing else. */
  lemma CategoryMapExample()
    ensures CategoryMap(["Work", "Study", "Work"]) == map["Work" := 0, "Study" := 1]
    ensures "Unknown" !in CategoryMap(["Work", "Study", "Work"])
  {
    var h := ["Work", "Study", "Work"];
    assert h[..2] == ["Work", "Study"] && h[..2][..1] == ["Work"] && ["Work"][..0] == [];
    assert Unique(["Work"]) == ["Work"];
    assert Unique(h[..2]) == ["Work", "Study"];
    assert Unique(h) == ["Work", "Study"];
    var u := ["Work", "Study"];
    assert u[..1] == ["Work"] && u[..1][..0] == [];
    assert Enumerate(u) == map["Work" := 0, "Study" := 1];
  }

  /** Every choice the select boxes offer can be looked up, so no lookup fails. */
  lemma SelectableInputsAreEncoded(categories: seq<string>, category: string, priority: string, mood: string)
    requires category in Unique(categories)
    requires priority in PriorityOptions && mood in MoodOptions
    ensures category in CategoryMap(categories)
    ensures priority in PriorityMap() && mood in MoodMap()
  {
    UniqueElements(categories);
    CategoryMapCodes(categories);
  }

  /** The value a training column holds for the candidate task, by column name. */
  function FeatureByName(column: string, time: int, categoryCode: int, priorityCode: int, moodCode: int): int
  {
    match column
    case "Time_Spent_Min" => time
    case "Category" => categoryCode
    case "Priority" => priorityCode
    case "Mood" => moodCode
    case _ => 0
  }

  /**
   * The candidate row, as a positional list. It has one entry per training
   * column, and entry i holds the value of the i-th training column.
   */
  function CandidateVector(time: int, categoryCode: int, priorityCode: int, moodCode: int): (v: seq<int>)
    ensures |v| == |TrainingColumns|
    ensures forall i :: 0 <= i < |v| ==>
      v[i] == FeatureByName(TrainingColumns[i], time, categoryCode, priorityCode, moodCode)
  {
    [time, categoryCode, priorityCode, moodCode]
  }

  /** The moods that add to the risk are exactly the selectable moods with the two highest codes. */
  function LowEnergy(mood: string): (b: bool)
    ensures b <==> mood in MoodOptions && MoodMap()[mood] >= 2
  {
    mood in LowEnergyMoods
  }

  /**
   * The risk score in hundredths: 40 for High priority, 40 for a Tired or
   * Stressed mood, 20 for more than 120 minutes spent.
   */
  function Risk(priority: string, mood: string, time: int): (r: int)
    ensures 0 <= r <= 100 && r % 20 == 0
  {
    (if priority == "High" then 40 else 0)
    + (if LowEnergy(mood) then 40 else 0)
    + (if time > 120 then 20 else 0)
  }

  /** The risk accumulator, built up one condition at a time. */
  method RiskScore(priority: string, mood: string, time: int) returns (risk: int)
    ensures risk == Risk(priority, mood, time)
  {
    risk := 0;
    if priority == "High" {
      risk := risk + 40;
    }
    if mood in LowEnergyMoods {
      risk := risk + 40;
    }
    if time > 120 {
      risk := risk + 20;
    }
  }

  /** The time term is strict: 120 minutes adds nothing, 121 adds 20; more time never lowers the risk. */
  lemma RiskTimeThreshold(priority: string, mood: string, t1: int, t2: int)
    ensures Risk(priority, mood, 121) == Risk(priority, mood, 120) + 20
    ensures t1 <= 120 ==> Risk(priority, mood, t1) == Risk(priority, mood, 120)
    ensures t1 <= t2 ==> Risk(priority, mood, t1) <= Risk(priority, mood, t2)
  {
  }

  /**
   * On the slider's range, time only matters past 120 minutes: the risk is
   * the risk at the default time, plus 20 past 120; the top of the range
   * always reaches that term and the bottom never does.
   */
  lemma SliderTimeTerm(priority: string, mood: string, time: int)
    requires MinTime <= time <= MaxTime
    ensures Risk(priority, mood, time) == Risk(priority, mood, DefaultTime) + (if time > 120 then 20 else 0)
    ensures Risk(priority, mood, MaxTime) == Risk(priority, mood, MinTime) + 20
  {
  }

  datatype Recommendation = BreakIntoParts | ChangeEnvironment | LooksSafe

  /** Thresholds tried from the highest down; the first that the risk reaches wins. */
  function Recommend(risk: int): (rec: Recommendation)
    ensures rec == BreakIntoParts <==> risk >= BreakThreshold
    ensures rec == ChangeEnvironment <==> RescheduleThreshold <= risk < BreakThreshold
    ensures rec == LooksSafe <==> risk < RescheduleThreshold
  {
    if risk >= BreakThreshold then BreakIntoParts
    else if risk >= RescheduleThreshold then ChangeEnvironment
    else LooksSafe
  }

  /** Every recommendation is shown under the same heading. */
  const MessagePrefix: string := "\U{1F4A1} Recommendation: "

  /** The text shown for each recommendation. */
  function Message(rec: Recommendation): (m: string)
    ensures |m| > |MessagePrefix| && m[..|MessagePrefix|] == MessagePrefix
  {
    match rec
    case BreakIntoParts => MessagePrefix + "Break the task into smaller parts and take short breaks."
    case ChangeEnvironment => MessagePrefix + "Try changing environment or rescheduling the task."
    case LooksSafe => MessagePrefix + "Task looks safe. Maintain current approach."
  }

  /** Each recommendation is shown with its own text. */
  lemma MessagesDistinct(r1: Recommendation, r2: Recommendation)
    ensures Message(r1) == Message(r2) <==> r1 == r2
  {
  }

  /**
   * On the scores the policy can reach, the advice is to break the task up
   * exactly when priority is High and the mood is Tired or Stressed, and the
   * task is safe exactly when neither holds. Time spent never changes the advice.
   */
  lemma RecommendationByFactors(priority: string, mood: string, t1: int, t2: int)
    ensures Recommend(Risk(priority, mood, t1)) == BreakIntoParts
            <==> priority == "High" && LowEnergy(mood)
    ensures Recommend(Risk(priority, mood, t1)) == LooksSafe
            <==> priority != "High" && !LowEnergy(mood)
    ensures Recommend(Risk(priority, mood, t1)) == Recommend(Risk(priority, mood, t2))
  {
  }

  /** What the page reports after the button is pressed. */
  datatype Outcome = Outcome(willComplete: bool, risk: int, recommendation: Recommendation)

  /**
   * One press of "Predict Completion". The three lookups run first; a key
   * that is missing stops the page (None) before anything is computed.
   * Otherwise the classifier labels the candidate row, and the risk score and
   * recommendation are computed from priority, mood and time alone.
   */
  method Predict(categories: seq<string>, model: seq<int> -> int,
                 time: int, category: string, priority: string, mood: string)
    returns (result: Option<Outcome>)
    ensures result.None? <==>
      category !in CategoryMap(categories) || priority !in PriorityMap() || mood !in MoodMap()
    ensures result.Some? ==>
      result.value.willComplete ==
        (model(CandidateVector(time, CategoryMap(categories)[category], PriorityMap()[priority], MoodMap()[mood])) == 1)
    ensures result.Some? ==>
      result.value.risk == Risk(priority, mood, time)
      && result.value.recommendation == Recommend(Risk(priority, mood, time))
  {
    var priorityMap := PriorityMap();
    var moodMap := MoodMap();
    var categoryMap := CategoryMap(categories);
    if category !in categoryMap || priority !in priorityMap || mood !in moodMap {
      return None;
    }
    var input := CandidateVector(time, categoryMap[category], priorityMap[priority], moodMap[mood]);
    var prediction := model(input);
    var risk := RiskScore(priority, mood, time);
    return Some(Outcome(prediction == 1, risk, Recommend(risk)));
  }
}
