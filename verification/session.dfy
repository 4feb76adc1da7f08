/** `main` in main.py: the greeting questions and the age gate, the
    customer's profile and preferences, and the plan they lead to. The
    catalog, the clock and the random streams are parameters; printing,
    saving and the document are not modelled. */
module Session {
  import opened Base
  import opened Dicts
  import opened Config
  import opened Calendar
  import opened Questionnaire
  import opened Customer
  import opened Schedule
  import opened MealPlan

  /** How a run of `main` ends. */
  datatype Ending =
    | InputEnded                   // a question met the end of the input (EOFError)
    | Underage(age: int)           // the age gate returned early
    | ProfileRejected(error: ProfileError)
    | EmptyCatalog                 // the dataset assertion of `MealPlan.__init__`
    | PlanMissing                  // `generate_meal_plan` returned None; printing it fails
    | PlanAborted                  // `_add_calories` raised on an empty schedule
    | Planned(prefs: Preferences, plan: Plan)

  /** The profile `main` builds from the three answers. */
  function ProfileOf(name: string, age: int, gender: string): Dict<string, PyValue> {
    [("name", StrValue(name)), ("age", IntValue(age)), ("gender", StrValue(gender))]
  }

  /** From the preferences on: confirm them, load the catalog, generate. */
  function AfterQuestions(prefs: Preferences, lines: seq<string>, at: nat, now: Clock,
                catalog: seq<Meal>, pick: nat -> nat, draw: nat -> nat): (e: Ending)
    ensures !e.Underage? && !e.ProfileRejected?
  {
    match ConfirmPreferences(prefs, lines, at, now)
    case None => InputEnded
    case Some(c) =>
      if |catalog| == 0 then EmptyCatalog
      else match GeneratePlan(catalog, c.value, pick, draw)
        case NoPlan => PlanMissing
        case Aborted => PlanAborted
        case Produced(plan) => Planned(c.value, plan)
  }

  /** `main` from the gender question on, for an adult. */
  function AfterAge(name: string, age: int, lines: seq<string>, at: nat, now: Clock,
                    catalog: seq<Meal>, pick: nat -> nat, draw: nat -> nat): Ending
  {
    match AskChoice(GenderDict(), lines, at)
    case None => InputEnded
    case Some(gender) =>
      match CheckProfile(ProfileOf(name, age, gender.value.value))
      case Some(error) => ProfileRejected(error)
      case None =>
        match AskAllQuestions(lines, gender.next, now)
        case None => InputEnded
        case Some(prefs) => AfterQuestions(prefs.value, lines, prefs.next, now, catalog, pick, draw)
  }

  /** `main`, reading its answers from `lines`. */
  function Main(lines: seq<string>, now: Clock, catalog: seq<Meal>, pick: nat -> nat, draw: nat -> nat): Ending {
    match AskText(lines, 0)
    case None => InputEnded
    case Some(name) =>
      match AskInt(lines, name.next)
      case None => InputEnded
      case Some(age) =>
        if age.value < 18 then Underage(age.value)
        else AfterAge(name.value, age.value, lines, age.next, now, catalog, pick, draw)
  }

  /** The gender question only returns member names. */
  lemma GenderAnswerIsName(lines: seq<string>, at: nat, a: Answer<Chosen<string>>)
    requires AskChoice(GenderDict(), lines, at) == Some(a)
    ensures a.value.value in GenderNames()
  {
    AskChoiceSpec(GenderDict(), lines, at);
    GenderDictValues();
    GenderEnum();
    assert a.value.value == GenderName(Genders[a.value.number - 1]);
  }

  /** The profile `main` builds from a member name passes the constructor's
      checks. */
  lemma ProfileAccepted(name: string, age: int, gender: string)
    requires gender in GenderNames()
    ensures CheckProfile(ProfileOf(name, age, gender)).None?
  {
  }

  /** Past the age gate, no profile is rejected and no one is turned away
      for their age. */
  lemma AfterAgeAccepts(name: string, age: int, lines: seq<string>, at: nat, now: Clock,
                        catalog: seq<Meal>, pick: nat -> nat, draw: nat -> nat)
    ensures !AfterAge(name, age, lines, at, now, catalog, pick, draw).ProfileRejected?
    ensures !AfterAge(name, age, lines, at, now, catalog, pick, draw).Underage?
  {
    var gender := AskChoice(GenderDict(), lines, at);
    if gender.Some? {
      var g := gender.value;
      GenderAnswerIsName(lines, at, g);
      ProfileAccepted(name, age, g.value.value);
    }
  }

  /** Anyone whose first integer answer is under 18 is turned away before
      any other question, and no one else is. */
  lemma MainAgeGate(lines: seq<string>, now: Clock, catalog: seq<Meal>, pick: nat -> nat, draw: nat -> nat)
    ensures Main(lines, now, catalog, pick, draw).Underage? <==>
              1 <= |lines| && AskInt(lines, 1).Some? && AskInt(lines, 1).value.value < 18
    ensures Main(lines, now, catalog, pick, draw).Underage? ==>
              Main(lines, now, catalog, pick, draw).age == AskInt(lines, 1).value.value
  {
    var name := AskText(lines, 0);
    if name.Some? {
      var age := AskInt(lines, 1);
      if age.Some? {
        AfterAgeAccepts(name.value.value, age.value.value, lines, age.value.next, now, catalog, pick, draw);
      }
    }
  }

  /** Every produced plan belongs to an adult. */
  lemma PlannedIsAdult(lines: seq<string>, now: Clock, catalog: seq<Meal>, pick: nat -> nat, draw: nat -> nat)
    requires Main(lines, now, catalog, pick, draw).Planned?
    ensures AskInt(lines, 1).Some? && AskInt(lines, 1).value.value >= 18
  {
    MainAgeGate(lines, now, catalog, pick, draw);
  }

  /** The profile is never rejected. */
  lemma MainNeverRejectsProfile(lines: seq<string>, now: Clock, catalog: seq<Meal>, pick: nat -> nat, draw: nat -> nat)
    ensures !Main(lines, now, catalog, pick, draw).ProfileRejected?
  {
    var name := AskText(lines, 0);
    if name.Some? {
      var age := AskInt(lines, 1);
      if age.Some? {
        AfterAgeAccepts(name.value.value, age.value.value, lines, age.value.next, now, catalog, pick, draw);
      }
    }
  }

  /** A valid subscription spans at least one full week, so it covers at
      least five business days. */
  lemma ValidSpanHasFiveBusinessDays(start: int, end: int, now: Clock)
    requires ValidSpan(start, end, now)
    ensures |BusinessDays(start, end)| >= 5
  {
    var k: nat := if end - start == 7 then 1 else if end - start == 14 then 2 else 4;
    assert end == start + 7 * k;
    BusinessDaysOverWeeks(start, k);
  }

  /** Valid preferences always have slots to fill. */
  lemma ValidPreferencesHaveSlots(p: Preferences, now: Clock)
    requires ValidPreferences(p, now)
    ensures SlotCount(p) >= 5
  {
    ValidSpanHasFiveBusinessDays(p.start, p.end, now);
    GetMealScheduleCount(p.frequency, p.start, p.end);
  }

  /** The confirmed preferences are valid, so the plan is never aborted for
      lack of slots; the plan is missing exactly when no catalog meal is
      safe for the customer. */
  lemma PlanOutcomes(prefs: Preferences, lines: seq<string>, at: nat, now: Clock,
                     catalog: seq<Meal>, pick: nat -> nat, draw: nat -> nat)
    requires ValidPreferences(prefs, now)
    ensures !AfterQuestions(prefs, lines, at, now, catalog, pick, draw).PlanAborted?
    ensures AfterQuestions(prefs, lines, at, now, catalog, pick, draw).PlanMissing? <==>
              && ConfirmPreferences(prefs, lines, at, now).Some?
              && |catalog| > 0
              && |Pool(catalog, ConfirmPreferences(prefs, lines, at, now).value.value)| == 0
  {
    var c := ConfirmPreferences(prefs, lines, at, now);
    ConfirmKeepsValid(prefs, lines, at, now);
    if c.Some? {
      var p := c.value.value;
      ValidPreferencesHaveSlots(p, now);
      GeneratePlanOutcome(catalog, p, pick, draw);
    }
  }

  /** A plan made after the questions is generated for the confirmed
      preferences, which are still valid. */
  lemma AfterQuestionsPlanned(prefs: Preferences, lines: seq<string>, at: nat, now: Clock,
                              catalog: seq<Meal>, pick: nat -> nat, draw: nat -> nat, chosen: Preferences, plan: Plan)
    requires ValidPreferences(prefs, now)
    requires AfterQuestions(prefs, lines, at, now, catalog, pick, draw) == Planned(chosen, plan)
    ensures GeneratePlan(catalog, chosen, pick, draw) == Produced(plan) && ValidPreferences(chosen, now)
  {
    var c := ConfirmPreferences(prefs, lines, at, now);
    ConfirmKeepsValid(prefs, lines, at, now);
    assert c.Some?;
    var a := c.value;
    assert a.value == chosen && GeneratePlan(catalog, a.value, pick, draw) == Produced(plan);
  }

  /** Past the age gate, the run never aborts for lack of slots. */
  lemma AfterAgeNeverAborts(name: string, age: int, lines: seq<string>, at: nat, now: Clock,
                            catalog: seq<Meal>, pick: nat -> nat, draw: nat -> nat)
    ensures !AfterAge(name, age, lines, at, now, catalog, pick, draw).PlanAborted?
  {
    var gender := AskChoice(GenderDict(), lines, at);
    if gender.Some? {
      var g := gender.value;
      var prefs := AskAllQuestions(lines, g.next, now);
      AskAllQuestionsValid(lines, g.next, now);
      if prefs.Some? {
        PlanOutcomes(prefs.value.value, lines, prefs.value.next, now, catalog, pick, draw);
      }
    }
  }

  /** Past the age gate, a plan is generated for valid preferences. */
  lemma AfterAgePlanned(name: string, age: int, lines: seq<string>, at: nat, now: Clock,
                        catalog: seq<Meal>, pick: nat -> nat, draw: nat -> nat, chosen: Preferences, plan: Plan)
    requires AfterAge(name, age, lines, at, now, catalog, pick, draw) == Planned(chosen, plan)
    ensures GeneratePlan(catalog, chosen, pick, draw) == Produced(plan) && ValidPreferences(chosen, now)
  {
    var g := AskChoice(GenderDict(), lines, at).value;
    var prefs := AskAllQuestions(lines, g.next, now);
    AskAllQuestionsValid(lines, g.next, now);
    AfterQuestionsPlanned(prefs.value.value, lines, prefs.value.next, now, catalog, pick, draw, chosen, plan);
  }

  /** `main` never ends in the empty-schedule error. */
  lemma MainNeverAborts(lines: seq<string>, now: Clock, catalog: seq<Meal>, pick: nat -> nat, draw: nat -> nat)
    ensures !Main(lines, now, catalog, pick, draw).PlanAborted?
  {
    var name := AskText(lines, 0);
    if name.Some? {
      var age := AskInt(lines, 1);
      if age.Some? {
        AfterAgeNeverAborts(name.value.value, age.value.value, lines, age.value.next, now, catalog, pick, draw);
      }
    }
  }

  /** A planned ending comes from generating a plan for valid preferences. */
  lemma PlannedFrom(lines: seq<string>, now: Clock, catalog: seq<Meal>, pick: nat -> nat, draw: nat -> nat,
                    chosen: Preferences, plan: Plan)
    requires Main(lines, now, catalog, pick, draw) == Planned(chosen, plan)
    ensures GeneratePlan(catalog, chosen, pick, draw) == Produced(plan) && ValidPreferences(chosen, now)
  {
    var name := AskText(lines, 0).value;
    var age := AskInt(lines, 1).value;
    AfterAgePlanned(name.value, age.value, lines, age.next, now, catalog, pick, draw, chosen, plan);
  }

  /** A plan `main` produces covers every business day of the confirmed
      subscription, at least five, with one meal per slot, every meal safe
      for the customer. */
  lemma PlannedCoversSubscription(lines: seq<string>, now: Clock, catalog: seq<Meal>, pick: nat -> nat, draw: nat -> nat)
    requires Main(lines, now, catalog, pick, draw).Planned?
    ensures var e := Main(lines, now, catalog, pick, draw);
            && |e.plan.rows| == |BusinessDays(e.prefs.start, e.prefs.end)| * MealsPerDay(e.prefs.frequency)
            && |e.plan.rows| >= 5
            && forall i :: 0 <= i < |e.plan.rows| ==> SafeFor(e.plan.rows[i].meal, e.prefs.mealType, e.prefs.allergies)
  {
    var e := Main(lines, now, catalog, pick, draw);
    PlannedFrom(lines, now, catalog, pick, draw, e.prefs, e.plan);
    GeneratePlanSlots(catalog, e.prefs, pick, draw, e.plan);
    GeneratePlanMeals(catalog, e.prefs, pick, draw, e.plan);
    MealTimesAreDayPlan(e.prefs.frequency);
    ValidPreferencesHaveSlots(e.prefs, now);
  }

  /** Row `k` of a plan `main` produces, `k` being `i * m + j` with `m` the
      meals per day, is the `j`-th meal time of the `i`-th business day of the
      confirmed subscription: the rows walk the days in order and each day's
      times in order. */
  lemma PlannedSlotsAt(lines: seq<string>, now: Clock, catalog: seq<Meal>, pick: nat -> nat, draw: nat -> nat,
                       chosen: Preferences, plan: Plan, i: nat, j: nat, k: nat)
    requires Main(lines, now, catalog, pick, draw) == Planned(chosen, plan)
    requires i < |BusinessDays(chosen.start, chosen.end)| && j < MealsPerDay(chosen.frequency)
    requires k == i * MealsPerDay(chosen.frequency) + j
    ensures j < |MealTimes(chosen.frequency)|
    ensures k < |plan.rows|
    ensures plan.rows[k].slot == Slot(BusinessDays(chosen.start, chosen.end)[i], MealTimes(chosen.frequency)[j])
  {
    PlannedFrom(lines, now, catalog, pick, draw, chosen, plan);
    GeneratePlanSlotAt(catalog, chosen, pick, draw, plan, i, j, k);
  }
}
