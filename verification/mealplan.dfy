/** `MealPlan.generate_meal_plan` in main.py and its helper
    `_add_calories`: filter the catalog by meal type and allergies, draw one
    meal per slot of the schedule (with replacement), count repeated meals,
    give every meal a calorie value from the objective's band, and price the
    plan. The random draws of numpy and pandas are oracles `pick` and `draw`:
    the i-th draw of a call is `pick(i)` (or `draw(i)`); the lemmas
    `SampleReachesEveryChoice` and `CalorieReachesBand` show that every
    outcome the random calls allow is reachable. */
module MealPlan {
  import opened Base
  import opened Config
  import opened Calendar
  import opened Schedule
  import opened Customer

  /** A row of the meal catalog (the "Meals with SKUs" sheet). */
  datatype Meal = Meal(
    sku: string,
    name: string,
    mealType: string,
    mainIngredient: string,
    carbPercent: real,
    proteinPercent: real,
    fatPercent: real)

  // ---------------------------------------------------------------------------
  // Filtering
  // ---------------------------------------------------------------------------

  /** One of the row selections the filter applies: by Type, or dropping
      one main ingredient, or dropping several. */
  datatype Rule = TypeIs(typeLabel: string) | IngredientIsNot(ingredient: string) | IngredientNotIn(ingredients: seq<string>)

  predicate Passes(m: Meal, rule: Rule) {
    match rule
    case TypeIs(typeLabel) => m.mealType == typeLabel
    case IngredientIsNot(ingredient) => m.mainIngredient != ingredient
    case IngredientNotIn(ingredients) => m.mainIngredient !in ingredients
  }

  /** `rows[mask]`: the rows that pass, in their order. */
  function Keep(rows: seq<Meal>, rule: Rule): seq<Meal>
    decreases |rows|
  {
    if |rows| == 0 then []
    else (if Passes(rows[0], rule) then [rows[0]] else []) + Keep(rows[1..], rule)
  }

  /** A selection keeps every passing row as often as it occurs and drops
      every other row. */
  lemma {:induction false} KeepCounts(rows: seq<Meal>, rule: Rule, m: Meal)
    ensures multiset(Keep(rows, rule))[m] == if Passes(m, rule) then multiset(rows)[m] else 0
    decreases |rows|
  {
    if |rows| > 0 {
      KeepCounts(rows[1..], rule, m);
      assert rows == [rows[0]] + rows[1..];
    }
  }

  lemma KeepMembers(rows: seq<Meal>, rule: Rule, m: Meal)
    ensures m in Keep(rows, rule) <==> m in rows && Passes(m, rule)
  {
    KeepCounts(rows, rule, m);
  }

  /** The ingredients of the rule for Meat. */
  const MeatIngredients: seq<string> := ["Chicken", "Beef", "Pork"]

  /** The selection one allergy makes, following its label: "Meat" drops
      Chicken, Beef and Pork; any other label drops that ingredient. */
  function AllergyRule(a: Allergen): Rule {
    var ingredient := AllergenLabel(a);
    if ingredient == "Meat" then IngredientNotIn(MeatIngredients) else IngredientIsNot(ingredient)
  }

  /** The filter as intended: keep the rows of the customer's type, then
      apply each allergy in turn. */
  function FilterMeals(rows: seq<Meal>, t: MealType, allergies: seq<Allergen>): seq<Meal>
    decreases |allergies|
  {
    if |allergies| == 0 then Keep(rows, TypeIs(MealTypeLabel(t)))
    else
      var n := |allergies| - 1;
      Keep(FilterMeals(rows, t, allergies[..n]), AllergyRule(allergies[n]))
  }

  /** The filter as written: the Meat branch calls `isin` with three
      arguments, which raises `TypeError` (`None` here) before any row is
      looked at. */
  function FilterAsWritten(rows: seq<Meal>, t: MealType, allergies: seq<Allergen>): Option<seq<Meal>>
    decreases |allergies|
  {
    if |allergies| == 0 then Some(Keep(rows, TypeIs(MealTypeLabel(t))))
    else
      var n := |allergies| - 1;
      match FilterAsWritten(rows, t, allergies[..n])
      case None => None
      case Some(meals) =>
        if AllergenLabel(allergies[n]) == "Meat" then None
        else Some(Keep(meals, IngredientIsNot(AllergenLabel(allergies[n]))))
  }

  /** The filter as written fails exactly when Meat is among the allergies,
      whatever the catalog; otherwise it agrees with the intended one. */
  lemma {:induction false} FilterAsWrittenFailsOnMeat(rows: seq<Meal>, t: MealType, allergies: seq<Allergen>)
    ensures FilterAsWritten(rows, t, allergies).None? <==> Meat in allergies
    ensures FilterAsWritten(rows, t, allergies).Some? ==> FilterAsWritten(rows, t, allergies).value == FilterMeals(rows, t, allergies)
    decreases |allergies|
  {
    if |allergies| > 0 {
      var n := |allergies| - 1;
      FilterAsWrittenFailsOnMeat(rows, t, allergies[..n]);
      assert allergies == allergies[..n] + [allergies[n]];
      assert Meat in allergies <==> Meat in allergies[..n] || allergies[n] == Meat;
    }
  }

  /** A customer allergic to meat gets an error instead of a plan. */
  lemma FilterAsWrittenRejectsMeatAllergy(rows: seq<Meal>, t: MealType)
    ensures FilterAsWritten(rows, t, [Meat]).None?
  {
    FilterAsWrittenFailsOnMeat(rows, t, [Meat]);
  }

  /** The main ingredients an allergy rules out. */
  function Excluded(a: Allergen): set<string> {
    if a == Meat then {"Chicken", "Beef", "Pork"} else {AllergenLabel(a)}
  }

  /** A meal the customer may get: of their type, and with a main
      ingredient none of their allergies rules out. */
  predicate SafeFor(m: Meal, t: MealType, allergies: seq<Allergen>) {
    && m.mealType == MealTypeLabel(t)
    && forall i :: 0 <= i < |allergies| ==> m.mainIngredient !in Excluded(allergies[i])
  }

  lemma AllergyRuleExcludes(a: Allergen, m: Meal)
    ensures Passes(m, AllergyRule(a)) <==> m.mainIngredient !in Excluded(a)
  {
  }

  /** The last allergy narrows the safe meals of the others by what it
      excludes. */
  lemma SafeForLast(m: Meal, t: MealType, allergies: seq<Allergen>)
    requires |allergies| > 0
    ensures var n := |allergies| - 1;
            SafeFor(m, t, allergies) <==> SafeFor(m, t, allergies[..n]) && m.mainIngredient !in Excluded(allergies[n])
  {
    var n := |allergies| - 1;
    assert forall i :: 0 <= i < n ==> allergies[..n][i] == allergies[i];
  }

  /** The filter keeps each safe row as often as the catalog holds it and
      nothing else. */
  lemma {:induction false} FilterMealsCounts(rows: seq<Meal>, t: MealType, allergies: seq<Allergen>, m: Meal)
    ensures multiset(FilterMeals(rows, t, allergies))[m] == if SafeFor(m, t, allergies) then multiset(rows)[m] else 0
    decreases |allergies|
  {
    if |allergies| == 0 {
      KeepCounts(rows, TypeIs(MealTypeLabel(t)), m);
    } else {
      var n := |allergies| - 1;
      var earlier := FilterMeals(rows, t, allergies[..n]);
      FilterMealsCounts(rows, t, allergies[..n], m);
      KeepCounts(earlier, AllergyRule(allergies[n]), m);
      AllergyRuleExcludes(allergies[n], m);
      SafeForLast(m, t, allergies);
    }
  }

  /** Every meal left after filtering is safe for the customer, and every
      safe catalog meal is left; in particular each has the Type label of
      the customer's meal type ("Vegetarian" for VEGAN). */
  lemma FilterMealsMembers(rows: seq<Meal>, t: MealType, allergies: seq<Allergen>, m: Meal)
    ensures m in FilterMeals(rows, t, allergies) <==> m in rows && SafeFor(m, t, allergies)
  {
    FilterMealsCounts(rows, t, allergies, m);
  }

  /** An allergy other than Meat removes exactly the rows whose main
      ingredient is its label; Meat removes exactly the Chicken, Beef and
      Pork rows. */
  lemma AllergyRemoves(rows: seq<Meal>, a: Allergen, m: Meal)
    ensures a != Meat ==>
              multiset(Keep(rows, AllergyRule(a)))[m] == if m.mainIngredient == AllergenLabel(a) then 0 else multiset(rows)[m]
    ensures a == Meat ==>
              multiset(Keep(rows, AllergyRule(a)))[m] ==
                if m.mainIngredient in {"Chicken", "Beef", "Pork"} then 0 else multiset(rows)[m]
  {
    KeepCounts(rows, AllergyRule(a), m);
  }

  // ---------------------------------------------------------------------------
  // Sampling
  // ---------------------------------------------------------------------------

  /** The first `n` draws from the pool; draw `i` takes the row `pick(i)`
      names, wrapped around the pool. */
  function Draws(pool: seq<Meal>, n: nat, pick: nat -> nat): (s: seq<Meal>)
    requires |pool| > 0
    ensures |s| == n
    decreases n
  {
    if n == 0 then [] else Draws(pool, n - 1, pick) + [pool[pick(n - 1) % |pool|]]
  }

  lemma {:induction false} DrawsAt(pool: seq<Meal>, n: nat, pick: nat -> nat)
    requires |pool| > 0
    ensures forall i :: 0 <= i < n ==> Draws(pool, n, pick)[i] == pool[pick(i) % |pool|]
    decreases n
  {
    if n > 0 {
      DrawsAt(pool, n - 1, pick);
    }
  }

  /** `meals.sample(n=n, replace=True)`: `None` where it raises
      `ValueError`, which happens exactly when rows are asked of an empty
      pool. */
  function Sample(pool: seq<Meal>, n: nat, pick: nat -> nat): Option<seq<Meal>> {
    if |pool| == 0 then (if n == 0 then Some([]) else None)
    else Some(Draws(pool, n, pick))
  }

  /** The sample has `n` rows, each from the pool, and fails only for an
      empty pool. */
  lemma SampleSpec(pool: seq<Meal>, n: nat, pick: nat -> nat)
    ensures Sample(pool, n, pick).None? <==> |pool| == 0 && n > 0
    ensures Sample(pool, n, pick).Some? ==>
              |Sample(pool, n, pick).value| == n && forall i :: 0 <= i < n ==> Sample(pool, n, pick).value[i] in pool
  {
    if |pool| > 0 {
      DrawsAt(pool, n, pick);
    }
  }

  /** The position of an element in a sequence. */
  function IndexIn(pool: seq<Meal>, m: Meal): (i: nat)
    requires m in pool
    ensures i < |pool| && pool[i] == m
  {
    if pool[0] == m then 0 else 1 + IndexIn(pool[1..], m)
  }

  lemma ModOfSmaller(k: nat, m: nat)
    requires k < m
    ensures k % m == k
  {
  }

  /** Draws that name the rows of `s` reproduce `s`. */
  lemma DrawsFollowPicks(pool: seq<Meal>, s: seq<Meal>, pick: nat -> nat)
    requires |pool| > 0
    requires forall i :: 0 <= i < |s| ==> pick(i) < |pool| && pool[pick(i)] == s[i]
    ensures Draws(pool, |s|, pick) == s
  {
    var d := Draws(pool, |s|, pick);
    DrawsAt(pool, |s|, pick);
    forall i | 0 <= i < |s| ensures d[i] == s[i] {
      ModOfSmaller(pick(i), |pool|);
    }
  }

  /** Any `n` rows of the pool, repetitions allowed, are a possible sample. */
  lemma SampleReachesEveryChoice(pool: seq<Meal>, s: seq<Meal>)
    requires forall i :: 0 <= i < |s| ==> s[i] in pool
    ensures exists pick: nat -> nat :: Sample(pool, |s|, pick) == Some(s)
  {
    if |s| == 0 {
      assert Sample(pool, 0, n => n) == Some(s);
    } else {
      assert s[0] in pool;
      var pick := (i: nat) => if i < |s| && s[i] in pool then IndexIn(pool, s[i]) else 0;
      assert forall i :: 0 <= i < |s| ==> pick(i) == IndexIn(pool, s[i]);
      DrawsFollowPicks(pool, s, pick);
      assert Sample(pool, |s|, pick) == Some(s);
    }
  }

  // ---------------------------------------------------------------------------
  // Repeated meals
  // ---------------------------------------------------------------------------

  /** `meals_list['SKU']`. */
  function Skus(rows: seq<Meal>): (skus: seq<string>)
    ensures |skus| == |rows|
    ensures forall i :: 0 <= i < |rows| ==> skus[i] == rows[i].sku
  {
    if |rows| == 0 then [] else [rows[0].sku] + Skus(rows[1..])
  }

  /** The count of the warning: rows minus distinct SKUs. */
  function RepeatCount(rows: seq<Meal>): int {
    |Skus(rows)| - |ToSet(Skus(rows))|
  }

  /** The repeated-meals warning: shown, with its count, when the SKU column
      and its unique values differ in length. */
  function RepeatWarning(rows: seq<Meal>): Option<int> {
    if |Skus(rows)| != |ToSet(Skus(rows))| then Some(RepeatCount(rows)) else None
  }

  /** The warning appears exactly when two rows share a SKU, and its count
      is then positive. */
  lemma RepeatWarningSpec(rows: seq<Meal>)
    ensures RepeatWarning(rows).Some? <==> exists i, j :: 0 <= i < j < |rows| && rows[i].sku == rows[j].sku
    ensures RepeatCount(rows) >= 0
    ensures RepeatWarning(rows).Some? <==> RepeatCount(rows) > 0
  {
    var skus := Skus(rows);
    DistinctCardinality(skus);
    if !Distinct(skus) {
      var i, j :| 0 <= i < j < |skus| && skus[i] == skus[j];
      assert rows[i].sku == rows[j].sku;
    }
  }

  // ---------------------------------------------------------------------------
  // Calories
  // ---------------------------------------------------------------------------

  /** The daily calorie limits the if-chain on the objective's name sets:
      weight loss and muscle gain have their own, every other name the
      else branch. */
  function DailyCaloriesOf(name: string): (int, int) {
    if name == "WEIGHT_LOSS" then (1500, 1800)
    else if name == "MUSCLE_GAIN" then (2000, 2300)
    else (1800, 2000)
  }

  /** The half-open range `np.random.randint(min // 3, max // 3)` draws one
      meal's calories from. */
  datatype Band = Band(lo: int, hi: int)

  function CalorieBand(o: MealObjective): (b: Band)
    ensures b.lo < b.hi
  {
    var (low, high) := DailyCaloriesOf(MealObjectiveName(o));
    Band(low / 3, high / 3)
  }

  /** The bands of the three objectives: [500, 600) for weight loss,
      [666, 766) for muscle gain, [600, 666) for maintenance. Three meals
      from the band stay below the daily maximum; the floor division lets
      them fall short of the daily minimum by up to two calories. */
  lemma CalorieBands(o: MealObjective)
    ensures o == WeightLoss ==> CalorieBand(o) == Band(500, 600)
    ensures o == MuscleGain ==> CalorieBand(o) == Band(666, 766)
    ensures o == Maintain ==> CalorieBand(o) == Band(600, 666)
    ensures var (low, high) := DailyCaloriesOf(MealObjectiveName(o));
            low - 3 < 3 * CalorieBand(o).lo <= low && 3 * (CalorieBand(o).hi - 1) < high
  {
  }

  /** The calories one draw gives. */
  function Calorie(b: Band, x: nat): (c: int)
    requires b.lo < b.hi
    ensures b.lo <= c < b.hi
  {
    b.lo + x % (b.hi - b.lo)
  }

  /** Every value of the band can be drawn. */
  lemma CalorieReachesBand(b: Band, c: int)
    requires b.lo <= c < b.hi
    ensures Calorie(b, (c - b.lo) as nat) == c
  {
  }

  /** `(calories * (percent / 100)) * 0.129598`: grams of a macronutrient. */
  function Grams(calories: int, percent: real): real {
    calories as real * (percent / 100.0) * 0.129598
  }

  /** When the three percentages add up to 100, the grams of the three
      macronutrients add up to `calories * 0.129598`, and no macronutrient
      with a share has zero grams for a positive calorie value. */
  lemma GramsShareCalories(calories: int, carb: real, protein: real, fat: real)
    requires carb + protein + fat == 100.0
    ensures Grams(calories, carb) + Grams(calories, protein) + Grams(calories, fat) == calories as real * 0.129598
    ensures calories > 0 && carb > 0.0 ==> Grams(calories, carb) > 0.0
  {
    var c := calories as real;
    assert c * (carb / 100.0) + c * (protein / 100.0) + c * (fat / 100.0) == c * ((carb + protein + fat) / 100.0);
  }

  /** A row of `meals_list` once the schedule is attached. */
  datatype Scheduled = Scheduled(meal: Meal, slot: Slot)

  /** A row of the finished plan. */
  datatype PlanRow = PlanRow(meal: Meal, slot: Slot, calories: int, carbs: real, protein: real, fat: real)

  function WithCalories(s: Scheduled, calories: int): PlanRow {
    PlanRow(s.meal, s.slot, calories, Grams(calories, s.meal.carbPercent),
            Grams(calories, s.meal.proteinPercent), Grams(calories, s.meal.fatPercent))
  }

  /** `meals_list['Date'] = meal_schedule`: the i-th meal gets the i-th
      slot; `None` where pandas rejects a column of another length. */
  function AttachSlots(meals: seq<Meal>, slots: seq<Slot>): Option<seq<Scheduled>> {
    if |meals| != |slots| then None else Some(Pair(meals, slots))
  }

  function Pair(meals: seq<Meal>, slots: seq<Slot>): (rows: seq<Scheduled>)
    requires |meals| == |slots|
    ensures |rows| == |meals|
  {
    if |meals| == 0 then [] else [Scheduled(meals[0], slots[0])] + Pair(meals[1..], slots[1..])
  }

  /** Row `i` is meal `i` at slot `i`. */
  lemma {:induction false} PairAt(meals: seq<Meal>, slots: seq<Slot>)
    requires |meals| == |slots|
    ensures forall i :: 0 <= i < |meals| ==> Pair(meals, slots)[i] == Scheduled(meals[i], slots[i])
    decreases |meals|
  {
    if |meals| > 0 {
      PairAt(meals[1..], slots[1..]);
    }
  }

  /** The length of the run of rows at the front that are on `day`. */
  function SameDayRun(rows: seq<Scheduled>, day: int): (k: nat)
    ensures k <= |rows|
    ensures |rows| > 0 && rows[0].slot.day == day ==> k >= 1
    decreases |rows|
  {
    if |rows| == 0 || rows[0].slot.day != day then 0 else 1 + SameDayRun(rows[1..], day)
  }

  lemma {:induction false} SameDayRunSpec(rows: seq<Scheduled>, day: int)
    ensures forall i :: 0 <= i < SameDayRun(rows, day) ==> rows[i].slot.day == day
    ensures SameDayRun(rows, day) < |rows| ==> rows[SameDayRun(rows, day)].slot.day != day
    decreases |rows|
  {
    if |rows| > 0 && rows[0].slot.day == day {
      SameDayRunSpec(rows[1..], day);
      forall i | 0 < i < SameDayRun(rows, day) ensures rows[i].slot.day == day {
        assert rows[i] == rows[1..][i - 1];
      }
    }
  }

  /** `df.groupby(df['Date'].dt.date)` on rows in schedule order: one group
      per day, each holding that day's rows in order. */
  function DayGroups(rows: seq<Scheduled>): seq<seq<Scheduled>>
    decreases |rows|
  {
    if |rows| == 0 then []
    else
      var k := SameDayRun(rows, rows[0].slot.day);
      [rows[..k]] + DayGroups(rows[k..])
  }

  /** `pd.concat` of a list of groups. */
  function Concat(groups: seq<seq<Scheduled>>): seq<Scheduled>
    decreases |groups|
  {
    if |groups| == 0 then [] else groups[0] + Concat(groups[1..])
  }

  /** Grouping keeps every row, in order, and makes no empty group. */
  lemma {:induction false} DayGroupsConcat(rows: seq<Scheduled>)
    ensures Concat(DayGroups(rows)) == rows
    ensures |DayGroups(rows)| == 0 <==> |rows| == 0
    decreases |rows|
  {
    if |rows| > 0 {
      var k := SameDayRun(rows, rows[0].slot.day);
      DayGroupsConcat(rows[k..]);
      assert rows[..k] + rows[k..] == rows;
    }
  }

  /** Every group holds at least one row. */
  lemma {:induction false} DayGroupsNonEmpty(rows: seq<Scheduled>)
    ensures forall g :: 0 <= g < |DayGroups(rows)| ==> |DayGroups(rows)[g]| > 0
    decreases |rows|
  {
    if |rows| > 0 {
      var k := SameDayRun(rows, rows[0].slot.day);
      DayGroupsNonEmpty(rows[k..]);
    }
  }

  /** Within a group all rows are on the same day. */
  lemma {:induction false} DayGroupsSameDay(rows: seq<Scheduled>)
    ensures forall g, i :: 0 <= g < |DayGroups(rows)| && 0 <= i < |DayGroups(rows)[g]| ==>
              DayGroups(rows)[g][i].slot.day == DayGroups(rows)[g][0].slot.day
    decreases |rows|
  {
    if |rows| > 0 {
      var k := SameDayRun(rows, rows[0].slot.day);
      SameDayRunSpec(rows, rows[0].slot.day);
      DayGroupsSameDay(rows[k..]);
    }
  }

  /** The rows' days never decrease. */
  predicate DaysInOrder(rows: seq<Scheduled>) {
    forall p, q :: 0 <= p < q < |rows| ==> rows[p].slot.day <= rows[q].slot.day
  }

  /** When every row is after day `d`, so is every group's first row. */
  lemma {:induction false} DayGroupsAfter(rows: seq<Scheduled>, d: int)
    requires forall p :: 0 <= p < |rows| ==> d < rows[p].slot.day
    ensures forall g :: 0 <= g < |DayGroups(rows)| ==> |DayGroups(rows)[g]| > 0 && d < DayGroups(rows)[g][0].slot.day
    decreases |rows|
  {
    if |rows| > 0 {
      var k := SameDayRun(rows, rows[0].slot.day);
      var rest := rows[k..];
      assert forall p :: 0 <= p < |rest| ==> rest[p] == rows[k + p];
      DayGroupsAfter(rest, d);
    }
  }

  /** For rows in schedule order the groups' days strictly increase, so each
      day has exactly one group, as with `groupby`. */
  lemma {:induction false} DayGroupsIncrease(rows: seq<Scheduled>)
    requires DaysInOrder(rows)
    ensures forall g :: 0 <= g < |DayGroups(rows)| ==> |DayGroups(rows)[g]| > 0
    ensures forall g, h :: 0 <= g < h < |DayGroups(rows)| ==> DayGroups(rows)[g][0].slot.day < DayGroups(rows)[h][0].slot.day
    decreases |rows|
  {
    DayGroupsNonEmpty(rows);
    if |rows| > 0 {
      var day := rows[0].slot.day;
      var k := SameDayRun(rows, day);
      var rest := rows[k..];
      SameDayRunSpec(rows, day);
      assert forall p :: 0 <= p < |rest| ==> rest[p] == rows[k + p];
      DayGroupsIncrease(rest);
      if k < |rows| {
        assert forall p :: 0 <= p < |rest| ==> day < rest[p].slot.day by {
          assert day <= rows[k].slot.day && rows[k].slot.day != day;
        }
        DayGroupsAfter(rest, day);
      }
      var groups := DayGroups(rows);
      assert groups == [rows[..k]] + DayGroups(rest);
    }
  }

  /** The calories of consecutive rows, from consecutive draws starting at
      draw `offset`. */
  function CaloriesForRows(rows: seq<Scheduled>, b: Band, draw: nat -> nat, offset: nat): (out: seq<PlanRow>)
    requires b.lo < b.hi
    ensures |out| == |rows|
    decreases |rows|
  {
    if |rows| == 0 then [] else [WithCalories(rows[0], Calorie(b, draw(offset)))] + CaloriesForRows(rows[1..], b, draw, offset + 1)
  }

  /** Row `k` gets the draw `offset + k`. */
  lemma {:induction false} CaloriesForRowsAt(rows: seq<Scheduled>, b: Band, draw: nat -> nat, offset: nat)
    requires b.lo < b.hi
    ensures forall k :: 0 <= k < |rows| ==> CaloriesForRows(rows, b, draw, offset)[k] == WithCalories(rows[k], Calorie(b, draw(offset + k)))
    decreases |rows|
  {
    if |rows| > 0 {
      CaloriesForRowsAt(rows[1..], b, draw, offset + 1);
    }
  }

  /** Two frames in a row draw like one frame. */
  lemma {:induction false} CaloriesForRowsAppend(xs: seq<Scheduled>, ys: seq<Scheduled>, b: Band, draw: nat -> nat, offset: nat)
    requires b.lo < b.hi
    ensures CaloriesForRows(xs + ys, b, draw, offset) == CaloriesForRows(xs, b, draw, offset) + CaloriesForRows(ys, b, draw, offset + |xs|)
    decreases |xs|
  {
    if |xs| > 0 {
      var first := [WithCalories(xs[0], Calorie(b, draw(offset)))];
      assert (xs + ys)[0] == xs[0];
      assert (xs + ys)[1..] == xs[1..] + ys;
      assert CaloriesForRows(xs + ys, b, draw, offset) == first + CaloriesForRows(xs[1..] + ys, b, draw, offset + 1);
      assert CaloriesForRows(xs, b, draw, offset) == first + CaloriesForRows(xs[1..], b, draw, offset + 1);
      CaloriesForRowsAppend(xs[1..], ys, b, draw, offset + 1);
      assert offset + 1 + |xs[1..]| == offset + |xs|;
    } else {
      assert xs + ys == ys;
    }
  }

  /** The loop over the groups: each group draws as many values as it has
      rows, continuing the stream where the previous group stopped. */
  function CaloriesForGroups(groups: seq<seq<Scheduled>>, b: Band, draw: nat -> nat, offset: nat): seq<PlanRow>
    requires b.lo < b.hi
    decreases |groups|
  {
    if |groups| == 0 then []
    else CaloriesForRows(groups[0], b, draw, offset) + CaloriesForGroups(groups[1..], b, draw, offset + |groups[0]|)
  }

  lemma {:induction false} CaloriesForGroupsConcat(groups: seq<seq<Scheduled>>, b: Band, draw: nat -> nat, offset: nat)
    requires b.lo < b.hi
    ensures CaloriesForGroups(groups, b, draw, offset) == CaloriesForRows(Concat(groups), b, draw, offset)
    decreases |groups|
  {
    if |groups| > 0 {
      CaloriesForGroupsConcat(groups[1..], b, draw, offset + |groups[0]|);
      CaloriesForRowsAppend(groups[0], Concat(groups[1..]), b, draw, offset);
    }
  }

  /** `_add_calories`: `None` where `pd.concat` of no groups raises
      `ValueError`, that is for an empty frame. */
  function AddCalories(rows: seq<Scheduled>, o: MealObjective, draw: nat -> nat): Option<seq<PlanRow>> {
    var groups := DayGroups(rows);
    if |groups| == 0 then None else Some(CaloriesForGroups(groups, CalorieBand(o), draw, 0))
  }

  /** Adding calories fails only on an empty frame. Otherwise it keeps every
      row in schedule order, gives row `k` the `k`-th draw mapped into the
      objective's band, and computes its grams from its calories. */
  lemma AddCaloriesSpec(rows: seq<Scheduled>, o: MealObjective, draw: nat -> nat)
    ensures AddCalories(rows, o, draw).None? <==> |rows| == 0
    ensures AddCalories(rows, o, draw).Some? ==>
              var out := AddCalories(rows, o, draw).value;
              && |out| == |rows|
              && forall k :: 0 <= k < |rows| ==>
                   && out[k] == WithCalories(rows[k], Calorie(CalorieBand(o), draw(k)))
                   && CalorieBand(o).lo <= out[k].calories < CalorieBand(o).hi
  {
    DayGroupsConcat(rows);
    CaloriesForRowsAt(rows, CalorieBand(o), draw, 0);
    if |rows| > 0 {
      CaloriesForGroupsConcat(DayGroups(rows), CalorieBand(o), draw, 0);
    }
  }

  // ---------------------------------------------------------------------------
  // Price and the whole plan
  // ---------------------------------------------------------------------------

  /** The price per meal the if-chain on the meal type's name sets; `None`
      where no branch matches and `cost_per_meal` would be left unbound. */
  function CostPerMealOf(name: string): Option<nat> {
    if name == "VEGAN" then Some(500)
    else if name == "ORGANIC" then Some(800)
    else if name == "NON_ORGANIC" then Some(600)
    else if name == "KETO" then Some(1000)
    else None
  }

  /** Every meal type takes one of the branches. */
  lemma CostPerMealCoversTypes(t: MealType)
    ensures CostPerMealOf(MealTypeName(t)).Some?
    ensures 500 <= CostPerMealOf(MealTypeName(t)).value <= 1000
  {
  }

  function CostPerMeal(t: MealType): nat {
    CostPerMealCoversTypes(t);
    CostPerMealOf(MealTypeName(t)).value
  }

  /** A generated plan: its rows, its total cost, and the repeated-meals
      warning if one was shown. */
  datatype Plan = Plan(rows: seq<PlanRow>, totalCost: int, repeatWarning: Option<int>)

  /** What `generate_meal_plan` ends in: `None` returned after the sampling
      error, an uncaught exception, or a plan. */
  datatype PlanOutcome = NoPlan | Aborted | Produced(plan: Plan)

  /** The meals the customer may get. */
  function Pool(catalog: seq<Meal>, order: Preferences): seq<Meal> {
    FilterMeals(catalog, order.mealType, order.allergies)
  }

  function ScheduleFor(order: Preferences): MealSchedule {
    GetMealSchedule(order.frequency, order.start, order.end)
  }

  /** `num_days * meals_per_day`: the number of meals to sample. */
  function SlotCount(order: Preferences): nat {
    ScheduleFor(order).numDays * ScheduleFor(order).mealsPerDay
  }

  /** The rest of `generate_meal_plan` once the meals are sampled: attach
      the slots, add calories, price the plan. */
  function Assemble(meals: seq<Meal>, slots: seq<Slot>, order: Preferences, draw: nat -> nat): PlanOutcome {
    match AttachSlots(meals, slots)
    case None => Aborted
    case Some(rows) =>
      match AddCalories(rows, order.objective, draw)
      case None => Aborted
      case Some(planned) => Produced(Plan(planned, |planned| * CostPerMeal(order.mealType), RepeatWarning(meals)))
  }

  /** `generate_meal_plan` with the intended filter. */
  function GeneratePlan(catalog: seq<Meal>, order: Preferences, pick: nat -> nat, draw: nat -> nat): PlanOutcome {
    match Sample(Pool(catalog, order), SlotCount(order), pick)
    case None => NoPlan
    case Some(meals) => Assemble(meals, ScheduleFor(order).slots, order, draw)
  }

  /** Assembling fails only for an empty sample or one whose length is not
      the number of slots. */
  lemma AssembleOutcome(meals: seq<Meal>, slots: seq<Slot>, order: Preferences, draw: nat -> nat)
    ensures Assemble(meals, slots, order, draw).Aborted? <==> |meals| != |slots| || |meals| == 0
    ensures Assemble(meals, slots, order, draw).Produced? ==>
              var plan := Assemble(meals, slots, order, draw).plan;
              && |meals| == |slots|
              && AddCalories(Pair(meals, slots), order.objective, draw) == Some(plan.rows)
              && plan.totalCost == |plan.rows| * CostPerMeal(order.mealType)
              && plan.repeatWarning == RepeatWarning(meals)
  {
    if |meals| == |slots| {
      AddCaloriesSpec(Pair(meals, slots), order.objective, draw);
    }
  }

  /** No plan is produced exactly when the filtered catalog is empty and
      there are slots to fill; the run aborts exactly when there are no
      slots (no business day in the dates). */
  lemma GeneratePlanOutcome(catalog: seq<Meal>, order: Preferences, pick: nat -> nat, draw: nat -> nat)
    ensures GeneratePlan(catalog, order, pick, draw).NoPlan? <==> SlotCount(order) > 0 && |Pool(catalog, order)| == 0
    ensures GeneratePlan(catalog, order, pick, draw).Aborted? <==> SlotCount(order) == 0
  {
    var n := SlotCount(order);
    var slots := ScheduleFor(order).slots;
    GetMealScheduleCount(order.frequency, order.start, order.end);
    assert |slots| == n;
    SampleSpec(Pool(catalog, order), n, pick);
    var sampled := Sample(Pool(catalog, order), n, pick);
    if sampled.Some? {
      AssembleOutcome(sampled.value, slots, order, draw);
    }
  }

  /** A produced plan is built from a sample of `num_days * meals_per_day`
      meals, one per slot. */
  lemma ProducedFrom(catalog: seq<Meal>, order: Preferences, pick: nat -> nat, draw: nat -> nat, plan: Plan)
    requires GeneratePlan(catalog, order, pick, draw) == Produced(plan)
    ensures Sample(Pool(catalog, order), SlotCount(order), pick).Some?
    ensures var meals := Sample(Pool(catalog, order), SlotCount(order), pick).value;
            && |meals| == |ScheduleFor(order).slots| == SlotCount(order)
            && AddCalories(Pair(meals, ScheduleFor(order).slots), order.objective, draw) == Some(plan.rows)
            && plan.totalCost == |plan.rows| * CostPerMeal(order.mealType)
            && plan.repeatWarning == RepeatWarning(meals)
  {
    var sampled := Sample(Pool(catalog, order), SlotCount(order), pick);
    SampleSpec(Pool(catalog, order), SlotCount(order), pick);
    GetMealScheduleCount(order.frequency, order.start, order.end);
    AssembleOutcome(sampled.value, ScheduleFor(order).slots, order, draw);
  }

  /** A produced plan has one row per slot, at least one; row `i` is at the
      `i`-th slot, and the cost is the row count times the type's price. */
  lemma GeneratePlanSlots(catalog: seq<Meal>, order: Preferences, pick: nat -> nat, draw: nat -> nat, plan: Plan)
    requires GeneratePlan(catalog, order, pick, draw) == Produced(plan)
    ensures |plan.rows| == |ScheduleFor(order).slots| == SlotCount(order) > 0
    ensures forall i :: 0 <= i < |plan.rows| ==> plan.rows[i].slot == ScheduleFor(order).slots[i]
    ensures plan.totalCost == SlotCount(order) * CostPerMeal(order.mealType)
  {
    ProducedFrom(catalog, order, pick, draw, plan);
    var meals := Sample(Pool(catalog, order), SlotCount(order), pick).value;
    var slots := ScheduleFor(order).slots;
    AddCaloriesSpec(Pair(meals, slots), order.objective, draw);
    PairAt(meals, slots);
  }

  /** Slot `i * m + j` of a customer's schedule, `m` being the meals per day,
      is the `j`-th meal time of the `i`-th business day. */
  lemma ScheduleForAt(order: Preferences, i: nat, j: nat)
    requires i < |BusinessDays(order.start, order.end)| && j < MealsPerDay(order.frequency)
    ensures j < |MealTimes(order.frequency)|
    ensures i * MealsPerDay(order.frequency) + j < |ScheduleFor(order).slots|
    ensures ScheduleFor(order).slots[i * MealsPerDay(order.frequency) + j]
            == Slot(BusinessDays(order.start, order.end)[i], MealTimes(order.frequency)[j])
  {
    MealTimesAreDayPlan(order.frequency);
    GetMealScheduleAt(order.frequency, order.start, order.end, i, j);
  }

  /** Row `k` of a produced plan, `k` being `i * m + j` with `m` the meals per
      day, is the `j`-th meal time of the `i`-th business day. */
  lemma GeneratePlanSlotAt(catalog: seq<Meal>, order: Preferences, pick: nat -> nat, draw: nat -> nat, plan: Plan,
                           i: nat, j: nat, k: nat)
    requires GeneratePlan(catalog, order, pick, draw) == Produced(plan)
    requires i < |BusinessDays(order.start, order.end)| && j < MealsPerDay(order.frequency)
    requires k == i * MealsPerDay(order.frequency) + j
    ensures j < |MealTimes(order.frequency)|
    ensures k < |plan.rows|
    ensures plan.rows[k].slot == Slot(BusinessDays(order.start, order.end)[i], MealTimes(order.frequency)[j])
  {
    ScheduleForAt(order, i, j);
    GeneratePlanSlots(catalog, order, pick, draw, plan);
    assert plan.rows[k].slot == ScheduleFor(order).slots[k];
  }

  /** Every meal of a produced plan is a catalog meal safe for the customer,
      with calories from the objective's band. */
  lemma GeneratePlanMeals(catalog: seq<Meal>, order: Preferences, pick: nat -> nat, draw: nat -> nat, plan: Plan)
    requires GeneratePlan(catalog, order, pick, draw) == Produced(plan)
    ensures forall i :: 0 <= i < |plan.rows| ==>
              && plan.rows[i].meal in catalog
              && SafeFor(plan.rows[i].meal, order.mealType, order.allergies)
              && CalorieBand(order.objective).lo <= plan.rows[i].calories < CalorieBand(order.objective).hi
  {
    ProducedFrom(catalog, order, pick, draw, plan);
    var pool := Pool(catalog, order);
    var meals := Sample(pool, SlotCount(order), pick).value;
    var slots := ScheduleFor(order).slots;
    SampleSpec(pool, SlotCount(order), pick);
    AddCaloriesSpec(Pair(meals, slots), order.objective, draw);
    PairAt(meals, slots);
    forall i | 0 <= i < |plan.rows|
      ensures plan.rows[i].meal in catalog && SafeFor(plan.rows[i].meal, order.mealType, order.allergies)
    {
      assert plan.rows[i].meal == meals[i];
      FilterMealsMembers(catalog, order.mealType, order.allergies, meals[i]);
    }
  }

  /** The repeated-meals warning of a produced plan appears exactly when two
      of its rows share a SKU. */
  lemma GeneratePlanWarning(catalog: seq<Meal>, order: Preferences, pick: nat -> nat, draw: nat -> nat, plan: Plan)
    requires GeneratePlan(catalog, order, pick, draw) == Produced(plan)
    ensures plan.repeatWarning.Some? <==> exists i, j :: 0 <= i < j < |plan.rows| && plan.rows[i].meal.sku == plan.rows[j].meal.sku
  {
    ProducedFrom(catalog, order, pick, draw, plan);
    var meals := Sample(Pool(catalog, order), SlotCount(order), pick).value;
    var slots := ScheduleFor(order).slots;
    AddCaloriesSpec(Pair(meals, slots), order.objective, draw);
    PairAt(meals, slots);
    assert forall i :: 0 <= i < |plan.rows| ==> plan.rows[i].meal.sku == meals[i].sku;
    RepeatWarningSpec(meals);
  }
}
