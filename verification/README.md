# Meal plan generator — a Dafny model

This project models the core of the meal plan generator, a console program that:

1. asks a customer's name, age and gender;
2. turns away anyone under 18;
3. asks their meal preferences (objective, meal type, starting date and length of the subscription, meals per day, allergies) and lets them revise the answers;
4. builds a plan from a catalog of meals.

To build the plan, it:

- keeps the catalog rows of the customer's meal type;
- drops the rows their allergies rule out;
- lays out one slot per business day and meal time between the starting and ending dates;
- draws one meal per slot with replacement;
- warns when a meal repeats;
- gives each meal a calorie value from a band set by the objective;
- prices the plan at a flat rate per meal of the chosen type.

The model is functional throughout:

- Console input is a sequence of lines read from a position. Running out of lines is the end-of-input error.
- The clock is a parameter.
- Each random call is an oracle stream (`pick`, `draw`): the `i`-th value the program draws is the stream's `i`-th value. The lemmas `MealPlan.SampleReachesEveryChoice` and `MealPlan.CalorieReachesBand` show that every outcome the random calls allow is reachable.
- Days are proleptic Gregorian ordinals (day 1 is Monday, 1 January of year 1), as Python's `date.toordinal` numbers them.

Modules, following the program's files:

| module | models |
|---|---|
| `Base` | `Option`, distinctness, first-occurrence de-duplication (what `set` keeps of a list) |
| `Text` | `str(n)`, `int(s)`, `str.strip`, `str.split` |
| `Dicts` | insertion-ordered Python dicts as sequences of pairs |
| `Config` | the five enums of config.py and `to_dict` |
| `Calendar` | ordinals, weekdays, and the business days `pd.date_range(..., freq='B')` yields |
| `Questionnaire` | questionnaire_utils.py: free text and integer questions, multiple choice, the two-column layout, list questions, the date question |
| `Customer` | customer.py: the profile check, the questions, the modify loop |
| `Schedule` | `MealPlan._get_meal_schedule` |
| `MealPlan` | `MealPlan.generate_meal_plan` and `_add_calories` |
| `Session` | `main` |

## Model

| member | source | states |
|---|---|---|
| `Base.DistinctCardinality` | main.py:58-59 | a list has as many distinct values as elements exactly when no value repeats, and never more |
| `Base.DedupSpec` | questionnaire_utils.py:122 | turning the tokens into a set keeps exactly the same tokens, each once |
| `Text.DecimalRoundTrip` | questionnaire_utils.py:64 | reading back the digits `str(n)` writes gives `n` |
| `Text.DecimalInjective` | questionnaire_utils.py:64 | two numbers have the same `str` exactly when they are equal, so a reply names at most one choice |
| `Text.TrimSpec` | questionnaire_utils.py:128 | `strip` removes exactly the leading and trailing whitespace and leaves the middle untouched; the same holds for the smaller set of whitespace `int()` skips |
| `Text.TrimIdempotent` | questionnaire_utils.py:128 | stripping twice is stripping once, for either set of whitespace |
| `Text.PyIntStrip` | questionnaire_utils.py:31 | `int()` ignores the surrounding whitespace it skips: space, `\t \n \v \f \r` and the whitespace beyond ASCII, but not the separators U+001C to U+001F |
| `Text.PyIntOfStripped` | questionnaire_utils.py:128 | a token `int()` accepts has the same value after `strip()`, so stripping list tokens first changes no accepted number |
| `Text.PyIntRefusesSeparator` | questionnaire_utils.py:30-33 | the converse fails: `strip()` turns `"\x1c20"` into `"20"`, but `int()` refuses it, so the integer question asks again |
| `Text.PyIntDecimal` | questionnaire_utils.py:31 | `int(str(n)) == n` for every natural `n` |
| `Text.PyIntNegDecimal` | questionnaire_utils.py:128 | `int("-" + str(n)) == -n`, the negative tokens of a list reply |
| `Text.PyIntBlank` | questionnaire_utils.py:31 | a line made only of whitespace, the separators U+001C to U+001F included, is not an integer, so the integer question asks again |
| `Text.JoinSplit` | questionnaire_utils.py:122 | joining the pieces of `split(',')` with commas gives back the line |
| `Text.SplitJoin` | questionnaire_utils.py:122 | splitting comma-joined comma-free pieces gives back the pieces |
| `Text.SplitAllEmpty` | questionnaire_utils.py:122-123 | every piece of `split(',')` is empty exactly when the line holds only commas |
| `Dicts.GetAt` | questionnaire_utils.py:76 | in a dict, `choices[list(choices.keys())[i]]` is the value stored at position `i` |
| `Dicts.ComprehensionOfDistinctKeys` | config.py:11 | a dict comprehension over distinct keys keeps every pair in order |
| `Config.MealTypeEnum` | config.py:13-17 | `MealType.to_dict()` has one entry per member, label to name, in declaration order |
| `Config.MealTypeLookup` | config.py:11-17 | looking up a member's label in `to_dict()` gives its name; VEGAN's label is "Vegetarian" |
| `Config.MealTypeFromName` | main.py:41 | `MealType[name]` finds the member with that name and only it |
| `Config.MealObjectiveEnum` | config.py:19-22 | `MealObjective.to_dict()` has one entry per member, label to name |
| `Config.MealObjectiveLookup` | config.py:11 | a label looks up its member's name |
| `Config.MealFrequencyEnum` | config.py:24-27 | `MealFrequency.to_dict()` has one entry per member, label to name |
| `Config.MealFrequencyLookup` | config.py:11 | a label looks up its member's name |
| `Config.GenderEnum` | config.py:29-31 | `Gender.to_dict()` has one entry per member, label to name |
| `Config.GenderLookup` | config.py:11 | a label looks up its member's name |
| `Config.GenderNames` | customer.py:32 | `list(Gender.__members__)` holds every member name and only names of members |
| `Config.AllergenEnum` | config.py:33-38 | `Allergen.to_dict()` has one entry per member, label to name |
| `Config.AllergenLookup` | config.py:11 | a label looks up its member's name |
| `Config.AllergenLabel` | main.py:43-44 | the label is "Meat" exactly for the MEAT member, the one that triggers the multi-ingredient rule |
| `Config.AllergenDictValues` | customer.py:91 | every value of `Allergen.to_dict()` is a name in the Allergen namespace |
| `Calendar.DaysInMonth` | questionnaire_utils.py:97 | `datetime` accepts 28 to 31 days a month, 29 in February exactly in leap years |
| `Calendar.WeekdayAnchors` | main.py:151-154 | the weekday rule agrees with the calendar on the dates' ordinals: day 1 and 1 January 2024 are Mondays, 1 June 2024 is a Saturday |
| `Calendar.BusinessDays` | main.py:151-154 | the business days are exactly the Monday-to-Friday days from start to end, both included, in increasing order |
| `Calendar.BusinessDaysSplit` | main.py:151-154 | the business days of a range are those of its first part followed by those of the rest |
| `Calendar.WeekHasFiveBusinessDays` | main.py:151-154 | any seven consecutive days hold five business days |
| `Calendar.BusinessDaysOverWeeks` | customer.py:44-52 | a subscription of `k` weeks covers `5k` business days, one more when it starts on one |
| `Questionnaire.AskTextIsAsk` | questionnaire_utils.py:26-34 | the text question is the shared retry loop with a reader that accepts every line unchanged, so it stops at the first line read |
| `Questionnaire.AskSpec` | questionnaire_utils.py:28-34 | the retry loop gives up only when no line is accepted, and otherwise stops at the first accepted line with its value |
| `Questionnaire.AskIntSpec` | questionnaire_utils.py:28-34 | the integer question returns the value of the first line `int()` accepts, having skipped only lines it refuses |
| `Questionnaire.ChoiceNumber` | questionnaire_utils.py:64-65 | an accepted reply is the decimal string of a number from 1 to the number of choices |
| `Questionnaire.ChoiceNumberRefuses` | questionnaire_utils.py:64-65 | a reply is refused exactly when it spells no number from 1 to n |
| `Questionnaire.ChoiceNumberAccepts` | questionnaire_utils.py:64-65 | a reply is accepted exactly when it is in `[str(i+1) for i in range(n)]`, and `int()` of it is the choice |
| `Questionnaire.ChoiceNumberOf` | questionnaire_utils.py:64-65 | the reply `str(i)` selects choice `i` |
| `Questionnaire.ChoiceNumberIsExact` | questionnaire_utils.py:64-65 | a leading zero, a plus sign or a leading space is refused, although `int()` would accept them |
| `Questionnaire.ReadChoice` | questionnaire_utils.py:64-65 | a line yields a choice exactly when it spells a choice number |
| `Questionnaire.AskChoiceSpec` | questionnaire_utils.py:58-76 | the question gives up only when no line spells a choice number; otherwise the first one decides and the value is the one stored at that position |
| `Questionnaire.AskChoiceLooksUpKey` | questionnaire_utils.py:75-76 | the value returned is `choices[key]` for the key shown next to the chosen number |
| `Questionnaire.LayoutShowsEachChoiceOnce` | questionnaire_utils.py:50-56 | with `(n+1)//2` rows, every choice appears in exactly one cell of exactly one row |
| `Questionnaire.LayoutCellsAreChoices` | questionnaire_utils.py:50-56 | every cell shows a valid choice, and only the last row of an odd count has an empty right cell |
| `Questionnaire.PyIndex` | questionnaire_utils.py:128 | a Python index `k` is valid exactly when `-n <= k < n`, and negative ones count from the end |
| `Questionnaire.TokenIndexOf` | questionnaire_utils.py:128 | token `str(i)` selects choice `i`; token "0" selects the last choice |
| `Questionnaire.ResolveTokensSpec` | questionnaire_utils.py:127-131 | a reply is resolved exactly when every token is a valid index, and then token by token |
| `Questionnaire.TokensSpec` | questionnaire_utils.py:122 | the tokens are the comma-separated pieces, each once |
| `Questionnaire.NothingSelectedIffOnlyCommas` | questionnaire_utils.py:122-125 | the reply selects nothing exactly when it consists of commas only (the empty line included) |
| `Questionnaire.SelectionIsTyped` | questionnaire_utils.py:122-131 | a reply is accepted exactly when every piece is a valid index; the selection is then exactly the indices the pieces name |
| `Questionnaire.Accepted` | questionnaire_utils.py:121-131 | only a rejected reply asks again |
| `Questionnaire.AskListSpec` | questionnaire_utils.py:120-134 | the list question gives up only when every line is rejected, and otherwise returns the values of the first accepted line |
| `Questionnaire.AskListAnswer` | questionnaire_utils.py:120-134 | the answer is what the last line read yields |
| `Questionnaire.MonthTableEntries` | questionnaire_utils.py:91 | the month dict maps the twelve month names, in order, to consecutive numbers |
| `Questionnaire.MonthsLookUp` | questionnaire_utils.py:91 | the corrected month dict maps the i-th month name to `i + 1` |
| `Questionnaire.AskDate` | questionnaire_utils.py:79-103 | the corrected date question returns a valid date of the current year and, when asked for a future date, never a past one |
| `Questionnaire.AsWrittenJanuaryIsInvalid` | questionnaire_utils.py:91-97 | as written, January is month 0, which `datetime` refuses |
| `Questionnaire.AsWrittenDecemberIsNovember` | questionnaire_utils.py:91-97 | as written, choosing December yields November's number |
| `Questionnaire.AsWrittenNeverDecember` | questionnaire_utils.py:91-102 | as written, the date question never returns a December date |
| `Questionnaire.AsWrittenAcceptsPastDate` | questionnaire_utils.py:98-102 | as written, after one refused date the retry accepts a date in the past although a future one was asked for |
| `Customer.ProfileKeysAt` | customer.py:26 | the keys are `['name', 'age', 'gender']` exactly when the three entries carry them in that order |
| `Customer.CheckProfile` | customer.py:25-32 | a profile is accepted exactly when its keys are name, age, gender in that order, name is a string, age an int (not a bool), and gender a Gender member name; the key check fails first |
| `Customer.AskMemberSpec` | customer.py:62-63 | typing choice number `k` sets the k-th member in declaration order; the membership assertion never fails |
| `Customer.ToMembers` | customer.py:90-91 | every returned name is turned into the member it names |
| `Customer.AskMembersSpec` | customer.py:90-91 | the allergies are exactly the members the accepted line's tokens select |
| `Customer.AskMembersGivesUp` | customer.py:90-91 | the allergy question gives up only when every line is rejected |
| `Customer.ReadMembers` | customer.py:90-91 | every stored allergy is a name in the Allergen namespace, and the line selects exactly those |
| `Customer.OnlyBlankTokens` | questionnaire_utils.py:123-125 | an empty reply selects no allergy |
| `Customer.AskDurationSpec` | customer.py:41-53 | with the corrected date question, the ending date is the start plus 7, 14 or 28 days, so strictly after it, and the start is not before today |
| `Customer.AskDurationAsWrittenSpec` | customer.py:41-53 | with the date question as written, the ending date is still 7, 14 or 28 days after the start, and the start lies in January to November of the current year |
| `Customer.AsWrittenDurationStartsAMonthEarly` | customer.py:41-52 | on 1 May 2024 the replies "6", "15", "1" start the program's subscription on 15 May, one month before the 15 June the customer chose |
| `Customer.AskAllQuestionsValid` | customer.py:100-110 | the preferences the questions fill in always have a valid span: 7, 14 or 28 days, starting no earlier than today (with the corrected date question) |
| `Customer.ApplyEditChangesOneField` | customer.py:122-133 | each setter changes its own preference and leaves every other unchanged; add-ons change nothing |
| `Customer.ConfirmNoKeeps` | customer.py:119-121 | answering "No" keeps the preferences as they are |
| `Customer.ModifyLoopKeepsValid` | customer.py:131-135 | however many rounds the modify loop runs, valid preferences stay valid |
| `Customer.ConfirmKeepsValid` | customer.py:119-135 | confirming the preferences keeps them valid |
| `Schedule.ClockMinutes` | main.py:159 | an "HH:MM" time is a minute within the day |
| `Schedule.MealTimes` | main.py:141-149 | the times are 17:00 for OMAD, 11:00 and 18:00 for TMAD, 08:00, 12:00 and 19:00 for THMAD, and each parses to the listed minute |
| `Schedule.MealTimesAreDayPlan` | main.py:141-149 | a frequency has `meals_per_day` times, at least one, strictly increasing within the day |
| `Schedule.ScheduleLength` | main.py:156-162 | the nested loop makes one slot per day and time |
| `Schedule.ScheduleAt` | main.py:156-160 | slot `i * m + j` is day `i` at time `j` |
| `Schedule.ScheduleChronological` | main.py:156-160 | with increasing days and increasing times, the slots strictly increase |
| `Schedule.GetMealSchedule` | main.py:151-154 | `num_days` is the number of business days and `meals_per_day` the number of times |
| `Schedule.GetMealScheduleCount` | main.py:162 | the schedule has `meals_per_day * num_days` slots, so its assertion never fails |
| `Schedule.GetMealScheduleAt` | main.py:156-160 | slot `i * meals_per_day + j` is the i-th business day at the j-th time |
| `Schedule.GetMealScheduleDays` | main.py:151-160 | every slot is a business day within the dates at one of the frequency's times |
| `Schedule.GetMealScheduleOrder` | main.py:156-160 | the slots strictly increase, date first, then time |
| `MealPlan.KeepCounts` | main.py:41-47 | a row selection keeps every passing row as often as it occurs and drops every other row |
| `MealPlan.KeepMembers` | main.py:41-47 | a row survives a selection exactly when it passes it |
| `MealPlan.FilterAsWrittenFailsOnMeat` | main.py:42-47 | as written, the filter raises exactly when Meat is among the allergies, whatever the catalog, and otherwise agrees with the intended filter |
| `MealPlan.FilterAsWrittenRejectsMeatAllergy` | main.py:45 | a customer allergic to meat gets an error as written |
| `MealPlan.SafeForLast` | main.py:42-47 | each further allergy narrows the safe meals by the ingredients it excludes |
| `MealPlan.FilterMealsCounts` | main.py:41-47 | the filter keeps each catalog row safe for the customer as often as it occurs, and nothing else |
| `MealPlan.FilterMealsMembers` | main.py:41-47 | a meal survives the filter exactly when it has the customer's type label and no main ingredient an allergy excludes |
| `MealPlan.AllergyRemoves` | main.py:44-47 | a non-Meat allergy removes exactly the rows whose main ingredient is its label; Meat removes exactly the Chicken, Beef and Pork rows |
| `MealPlan.SampleSpec` | main.py:51-55 | sampling fails exactly when rows are asked of an empty pool; otherwise it returns `n` rows, each from the pool |
| `MealPlan.DrawsFollowPicks` | main.py:52 | draws naming the rows of a sequence reproduce that sequence |
| `MealPlan.SampleReachesEveryChoice` | main.py:52 | any sequence of pool rows, repetitions allowed, is a possible sample |
| `MealPlan.Skus` | main.py:58 | the SKU column has one entry per row, the row's SKU |
| `MealPlan.RepeatWarningSpec` | main.py:58-59 | the warning appears exactly when two rows share a SKU, and its count (rows minus distinct SKUs) is then positive |
| `MealPlan.CalorieBand` | main.py:183-198 | the band `randint` draws from is never empty |
| `MealPlan.CalorieBands` | main.py:183-198 | the bands are [500, 600) for weight loss, [666, 766) for muscle gain, [600, 666) otherwise; three meals stay below the daily maximum and at most two calories under the minimum |
| `MealPlan.Calorie` | main.py:198 | every drawn calorie value lies in the band |
| `MealPlan.CalorieReachesBand` | main.py:198 | every value of the band can be drawn |
| `MealPlan.GramsShareCalories` | main.py:200-202 | when the percentages add up to 100 the grams add up to `calories * 0.129598`, and a positive share gets positive grams |
| `MealPlan.PairAt` | main.py:57 | the i-th meal gets the i-th slot |
| `MealPlan.SameDayRunSpec` | main.py:193 | the run at the front is on one day and stops at the first other day |
| `MealPlan.DayGroupsConcat` | main.py:193-206 | grouping by date and concatenating keeps every row in schedule order, and no group is empty |
| `MealPlan.DayGroupsSameDay` | main.py:193 | all rows of a group share one date |
| `MealPlan.DayGroupsIncrease` | main.py:193 | for rows in schedule order the groups' dates strictly increase, one group per date |
| `MealPlan.CaloriesForRowsAt` | main.py:195-202 | row `k` gets the `k`-th draw after the offset |
| `MealPlan.CaloriesForRowsAppend` | main.py:195-203 | two groups in a row draw like one |
| `MealPlan.CaloriesForGroupsConcat` | main.py:195-206 | the loop over groups draws as if the frame were one group |
| `MealPlan.AddCaloriesSpec` | main.py:183-206 | adding calories fails exactly on an empty frame; otherwise row `k` keeps its meal and slot and gets the `k`-th draw in the band |
| `MealPlan.CostPerMealCoversTypes` | main.py:64-71 | every meal type takes a branch of the price chain, so the price is always bound |
| `MealPlan.AssembleOutcome` | main.py:57-73 | assembling aborts exactly on a mismatched or empty sample; otherwise the plan carries the calories, the price and the warning |
| `MealPlan.GeneratePlanOutcome` | main.py:49-61 | no plan exactly when there are slots but the filtered catalog is empty; an abort exactly when there are no slots |
| `MealPlan.ProducedFrom` | main.py:49-74 | a produced plan is built from a sample with one meal per slot |
| `MealPlan.GeneratePlanSlots` | main.py:57-77 | a produced plan has one row per slot, at least one, the i-th row at the i-th slot, and costs the row count times the price |
| `MealPlan.GeneratePlanSlotAt` | main.py:49-57 | row `i * meals_per_day + j` of a produced plan is dated the i-th business day at the j-th meal time |
| `MealPlan.GeneratePlanMeals` | main.py:41-61 | every meal of a produced plan is a catalog meal safe for the customer, with calories from the objective's band |
| `MealPlan.GeneratePlanWarning` | main.py:58-59 | a produced plan warns exactly when two of its rows share a SKU |
| `Session.AfterQuestions` | main.py:223-229 | after the questions, the run never stops at the age gate or the profile check |
| `Session.GenderAnswerIsName` | main.py:216 | the gender question returns a Gender member name |
| `Session.ProfileAccepted` | main.py:217-222 | the profile `main` builds from a member name passes every assertion of the constructor |
| `Session.AfterAgeAccepts` | main.py:216-222 | past the age gate, no profile is rejected |
| `Session.MainAgeGate` | main.py:212-215 | a run ends at the age gate exactly when the age answered is under 18 |
| `Session.PlannedIsAdult` | main.py:212-215 | every produced plan belongs to someone 18 or older |
| `Session.MainNeverRejectsProfile` | main.py:217-222 | `main` never fails the profile assertions |
| `Session.ValidSpanHasFiveBusinessDays` | customer.py:44-52 | a subscription of 1, 2 or 4 weeks covers at least five business days |
| `Session.ValidPreferencesHaveSlots` | main.py:151-162 | valid preferences have at least five slots |
| `Session.PlanOutcomes` | main.py:223-229 | confirmed preferences never reach the empty-schedule error; the plan is missing exactly when no catalog meal is safe for the customer |
| `Session.AfterQuestionsPlanned` | main.py:224-228 | a plan made after the questions is generated for the confirmed preferences, which are valid |
| `Session.AfterAgeNeverAborts` | main.py:216-228 | past the age gate the run never reaches the empty-schedule error |
| `Session.AfterAgePlanned` | main.py:216-228 | past the age gate a plan is generated for valid preferences |
| `Session.MainNeverAborts` | main.py:208-229 | `main` never ends in the empty-schedule error of `_add_calories` |
| `Session.PlannedFrom` | main.py:208-228 | a plan `main` produces is generated for valid confirmed preferences |
| `Session.PlannedCoversSubscription` | main.py:208-229 | a plan `main` produces has as many rows as business days of the subscription times `meals_per_day`, at least five, every meal safe for the customer |
| `Session.PlannedSlotsAt` | main.py:208-229 | in a plan `main` produces, row `i * meals_per_day + j` is dated the i-th business day of the confirmed subscription at the j-th meal time, so every business day gets `meals_per_day` meals at that day's times |

## Left out

- Reading the catalog from the Excel sheet (main.py:29) is not modelled. The catalog is a parameter. Its non-emptiness assertion (main.py:31) is the `EmptyCatalog` ending.
- Printing is not modelled: colour codes, `print_meal_plan`, `print_preferences` and `save_meal_plan`. `ask_to_generate_document` is not modelled either: its yes/no question comes after the plan is made, and its only effect is the PDF document and opening it with `xdg-open`. All of these are output. document_generator.py is not part of this model.
- `ask_add_ons` is not modelled beyond reading no input: it only prints.
- numpy's and pandas' random number generators are not modelled. They are replaced by the `pick` and `draw` streams.
- `datetime.now()` is not modelled. It is replaced by a `Clock` parameter holding the year, today's ordinal and the time of day.
- Rounding of the gram values is not modelled: they are exact reals, while the program computes them in floating point.
- `int()` is modelled without the decimal digits of scripts other than ASCII (Arabic-Indic, fullwidth and so on), which Python reads as digits and the model refuses. Its whitespace is modelled in full.
- `Questionnaire.Tokens` leaves out the order of the set. Python's set iteration order is unspecified, so the model keeps first occurrences. Every contract about it is independent of order.
- `MealPlan.DayGroups` models grouping as runs of consecutive rows on the same date. pandas `groupby` sorts by date instead. The two agree whenever the dates never decrease (`MealPlan.DayGroupsIncrease`), and the schedule always has increasing dates (`Schedule.GetMealScheduleOrder`).
- `MealPlan.AttachSlots` treats a sample whose length differs from the schedule's as the error pandas raises. This cannot happen (`Schedule.GetMealScheduleCount`).
- Unbounded recursion of `ask_datetime_question` is not modelled separately. The model has a finite input, so every retry loop ends when the lines run out.
- The documentation says business days lie strictly within the dates. The code includes both ends (`pd.date_range`), and the model follows the code.
- The documentation says allergies are unique. The code deduplicates raw tokens, not the choices they select, so "1, 1" (or "1" and " 1") selects Chicken twice. The model follows the code.
- `main` ignores the `None` that `generate_meal_plan` returns when no meal is safe, and then reads `total_cost` in `print_meal_plan`, which raises `AttributeError` (main.py:228-229). The model ends such runs in `PlanMissing`.
- The two-column layout (questionnaire_utils.py:56) prints the label `[i+1+num_rows]` even when the right cell is empty, which happens in the last row of an odd count. `Questionnaire.LayoutCellsAreChoices` records when the cell is empty; the printed label itself is output and is not modelled.

- Customer.AskDuration uses the corrected date question (`Questionnaire.AskDate`), as the rest of the plan pipeline does. The program's `ask_duration` (customer.py:41) calls the date question as written, modelled as `Customer.AskDurationAsWritten`. There the months are one off, December cannot be chosen, and after a refused date the start may lie in the past (`Questionnaire.AsWrittenAcceptsPastDate`). On 1 May 2024, for instance, the replies "6", "15", "1" start the program's plan on 15 May, but the model's on 15 June (`Customer.AsWrittenDurationStartsAMonthEarly`).
- Customer.AskDurationSpec: the promise that the start is not before today holds for the corrected date question only. As written, only the 7, 14 or 28 days hold (`Customer.AskDurationAsWrittenSpec`).
- Customer.AskAllQuestionsValid: the start-not-before-today half of a valid span rests on the corrected date question, as for `Customer.AskDuration`.
- Customer.ModifyLoopKeepsValid: editing the duration asks the corrected date question, so the start-not-before-today half of validity is kept only for it.
- Customer.ConfirmKeepsValid: validity includes a start not before today, which rests on the corrected date question.
- Session.AfterQuestionsPlanned: the plan's preferences come from the corrected date question. Their start is therefore not before today and in the month the customer chose; as written, neither holds.
- Session.AfterAgePlanned: the same corrected date question underlies "valid preferences".
- Session.PlannedFrom: the same corrected date question underlies "valid confirmed preferences".
- Session.Main uses the intended allergy filter (`MealPlan.Pool` builds on `MealPlan.FilterMeals`). As written, every run by a customer allergic to meat stops with `TypeError` at main.py:45 (`MealPlan.FilterAsWrittenFailsOnMeat`), and no `Ending` stands for that crash. `Session.PlanOutcomes` and `Session.PlannedCoversSubscription` describe `main` with the filter corrected.
- MealPlan.Pool: the intended filter, as for `Session.Main`.
- Questionnaire.AskDateWith does not model `OverflowError`. A day outside a C `int` (such as "3000000000") makes `datetime` raise it at questionnaire_utils.py:97, and `except ValueError` does not catch it, so the program stops. The model asks again, as for any invalid day.
- Text.PyInt does not model the 4300-digit limit of `int()` in current Python. A line of more than 4300 digits is refused there with `ValueError`; the model reads it. So a 4301-digit age or list token is accepted by the model, though the program asks again.

## Findings

| source | as written | input that shows it | evidently intended | confidence | as-written member | corrected member |
|---|---|---|---|---|---|---|
| main.py:45 | `isin('Chicken','Beef','Pork')` passes three positional arguments; `Series.isin` takes one list, so the call raises `TypeError` | any customer whose allergies include Meat, whatever the catalog | drop the rows whose main ingredient is Chicken, Beef or Pork | high, not executed | `MealPlan.FilterAsWrittenFailsOnMeat` | `MealPlan.FilterMealsMembers` |
| questionnaire_utils.py:91 | the month dict numbers the months from 0 and the number goes straight to `datetime` as the month | choosing January (reply "1") gives month 0, which is refused; choosing December gives November | January is 1 and December is 12 | high, not executed | `Questionnaire.AsWrittenJanuaryIsInvalid` | `Questionnaire.MonthsLookUp` |
| questionnaire_utils.py:102 | the retry after a refused date calls the question again without `future_only` | on 1 June 2024 the replies "1", "5", then "2", "1": January 5 is refused, then 1 January 2024 is accepted although it is past | the retry keeps asking for a future date | medium, not executed | `Questionnaire.AsWrittenAcceptsPastDate` | `Questionnaire.AskDate` |
