# Meal-plan assembly, modelled in Dafny

This project models how the `/generate-diet/` endpoint of `main.py` builds a diet plan, and
proves properties of that model.

- **Candidate filter.** The endpoint reads the `meals` catalog and keeps the rows that qualify.
  A row qualifies when its comma-split ingredient list contains one of the preferred
  ingredients and its calories do not exceed the ceiling. A row without a meal type gets
  `default_type`.
- **Failure.** If no row qualifies, the request fails with the 404 "No suitable meals found".
- **Date loop.** Otherwise the endpoint walks the dates from start to end inclusive and builds
  one daily plan per date.
- **Daily plan.** A daily plan follows a fixed slot layout chosen by `meals_per_day`. Each slot
  is a meal type and a share of the calorie ceiling. The candidates are grouped by meal type,
  keeping the order in which each type first appears.
- **Slot loop.** For each slot in layout order, the plan repeatedly takes a meal of the slot's
  type and removes it from that type's list. It stops when the list is empty or the day's
  running total has reached the ceiling. Each meal is chosen at random among the three meals
  closest to the slot's calorie target, after a stable sort by distance.

The modules follow that structure:

- `Text`: Python's `str.split(',')`.
- `Catalog`: rows, meals and the filter.
- `Grouping`: `group_meals_by_type` and the dictionary operations `get` and the in-place
  `remove`.
- `Selection`: `select_meal_close_to_calorie_target`.
- `DailyPlanning`: `generate_daily_plan`.
- `Diet`: `generate_diet`.
- `Scenarios`: two worked days.

Two properties of the code are worth knowing.

- **The ceiling is checked, not enforced.** A meal is added whenever the running total is still
  below `max_calories`, whatever that meal's calories are. So a day's total can exceed the
  ceiling, though never by as much as its last meal's calories. `DailyPlanCeiling` proves the
  bound. `PlentifulDay` shows a day of 600 calories under a ceiling of 500.
- **Early slots can starve later ones.** The first slot's loop keeps taking meals of its type
  until its list is empty or the ceiling is reached. Once the ceiling is reached, no later slot
  takes anything (`AllocateAfterCeiling`). `PlentifulDay` shows a dinner slot left empty after
  two breakfasts.

## Model

| member | source | states |
|---|---|---|
| Text.Split | main.py:48 | `split(',')` yields at least one piece, even for the empty string; no piece contains a comma; joining the pieces with commas gives back the column. |
| Text.SplitJoin | main.py:48 | Round trip: comma-free pieces joined with commas split back into the same pieces. |
| Catalog.AnyPreferred | main.py:50 | The `any(...)` test holds exactly when some preferred ingredient is an element of the ingredient list. |
| Catalog.ToMealFields | main.py:48-57 | A candidate's record keeps the row's id, name and calories. Its ingredients are the comma-free pieces of the column, which join back into the column. Its type is the row's meal type, or `default_type` when that column is NULL. |
| Catalog.SuitableIff | main.py:48-51 | A row qualifies exactly when some preferred ingredient is an element of its split ingredient list and its calories are within the ceiling. |
| Catalog.FilterSuitableContents | main.py:46-57 | Every suitable row's meal is a candidate, and every candidate is the meal of a suitable row. Candidates are never over the ceiling and never outnumber the rows. The list is empty exactly when no row is suitable. |
| Catalog.FilterSuitableOrder | main.py:46-57 | There are exactly as many candidates as suitable rows. The suitable row at index `i` gives the candidate at position "number of suitable rows before `i`". So candidates follow catalog order, one per suitable row, duplicates included. |
| Catalog.OfTypeContents | main.py:105-111 | The reference "meals of type t" keeps each meal of type t as often as the catalog holds it, and nothing of another type. |
| Grouping.GroupByType | main.py:105-111 | The dictionary keys are distinct, and every catalog meal's type is a key. |
| Grouping.GroupedLists | main.py:105-111 | The list under each key is the catalog restricted to that type, in catalog order. |
| Grouping.GroupedOrder | main.py:106-110 | Every key is the type of some catalog meal, and keys are ordered by the type's first appearance in the catalog. |
| Grouping.GroupedPermutation | main.py:105-111 | The lists together hold exactly the catalog's meals, each as often as it occurs. |
| Grouping.GroupedSizes | main.py:105-111 | The lengths of the lists add up to the catalog's length. |
| Grouping.LookupGrouped | main.py:89 | `meals_by_type.get(t, [])` is the catalog's meals of type `t` in catalog order, or empty for a type no meal has. |
| Grouping.UpdateFlatten | main.py:89-100 | Shrinking the list under one key trades exactly the removed meals out of the dictionary's contents. |
| Grouping.LookupUpdateOther | main.py:89-100 | Changing the list under one key leaves every other key's list as it was. |
| Selection.SortByDistance | main.py:118 | The sort orders meals by distance from the target. It is a permutation of its input. It is stable: the meals at any one distance keep their input order. |
| Selection.SortCounts | main.py:118 | Sorting changes neither how many meals lie strictly closer than a distance nor how many lie no farther. |
| Selection.SortedRank | main.py:118-122 | The meal at position `k` of the sorted list comes from the input. At most `k` input meals are strictly closer than it, and more than `k` are no farther. Among the input meals at its distance, taken in input order, it is the one at index `k` minus the number strictly closer. |
| Selection.Select | main.py:113-125 | Returns nothing exactly when the input is empty. Otherwise it returns the meal at index `k` of the top `min(3, n)`: an input meal with at most `k` input meals strictly closer and more than `k` no farther. Among the meals tied at its distance, in input order, it is the one that follows the strictly closer meals up to position `k`, as the stable sort places it. |
| Selection.AllTiedSelect | main.py:118-125 | When every meal lies equally far from the target, the choice with index `k` is the `k`-th input meal, because the stable sort keeps tied meals in input order. A tied meal after the first three is never chosen. |
| Selection.InsertSorted | main.py:118 | One insertion step of the sort keeps a sorted list sorted. |
| DailyPlanning.SlotTable | main.py:73-81 | Values 1 to 5 have that many slots, and any other value has none. Slot types are distinct, and every share lies in (0, 1]. |
| DailyPlanning.RemoveFirst | main.py:100 | `list.remove` shortens the list by one and takes out exactly one copy of the meal. |
| DailyPlanning.RemoveFirstAt | main.py:100 | The copy removed is the first: the meals before and after it stay in order. |
| DailyPlanning.FillSlot | main.py:92-100 | One slot's loop. Taken and left meals together make up the list. The total grows by the calories taken. Each meal was taken while the total was below the ceiling. The loop stops only with an empty list or the total at the ceiling. One random draw is used per meal. Every meal taken was among the first three of the stably sorted meals still in the list when it was taken: fewer than three lay strictly closer, and, with c that number, fewer than 3 − c of the meals tied with it came before it in list order. |
| DailyPlanning.AllocateSlots | main.py:88-100 | Each slot serves its type at `max_calories * share`, draws from the list stored under its type, and ends with that list empty or the total at the ceiling. Each slot starts from the total the previous slot ended with and adds exactly the calories it took. Every meal a slot takes was among the first three of the stably sorted meals left at that moment. The total is the sum of everything taken, and every meal was taken below the ceiling. Taken meals plus the lists left behind are the lists started with. |
| DailyPlanning.AllocateAfterCeiling | main.py:88-94 | Once the running total has reached the ceiling, the remaining slots take nothing and change nothing. |
| DailyPlanning.DailyAllocation | main.py:81-100 | Each slot draws on exactly the catalog's meals of its type. The day's meals come from the catalog, none more often than it occurs. The slots run one after another from a total of 0, each adding exactly its own meals' calories. The other per-slot facts of `AllocateSlots` hold, including that each pick was among the first three of the stably sorted remaining meals. |
| DailyPlanning.GenerateDailyPlan | main.py:84-102 | The reported total is the sum of the calories of the returned meals. |
| DailyPlanning.DailyPlanMeals | main.py:81-102 | The day's meals come from the candidates, none more often than it occurs, and each has a type the layout serves. A `meals_per_day` outside 1 to 5 gives no meals and a total of 0. |
| DailyPlanning.DailyPlanCeiling | main.py:93-99 | Every meal was added while the total was below the ceiling, so the total minus the last meal's calories is below the ceiling. |
| DailyPlanning.DailyPlanPrefixes | main.py:93-99 | Before each meal of the day was added, the running total was below the ceiling. |
| Diet.PlanFor | main.py:66-67 | A date's plan carries that date and totals its meals. It uses only candidates, none more often than it occurs, and is empty without a layout. |
| Diet.PlanDays | main.py:63-68 | The loop yields one plan per date from start to end inclusive, and none when start > end. The `i`-th plan is the one for start + `i`. |
| Diet.GenerateDiet | main.py:45-70 | Fails with "No suitable meals" exactly when no catalog row is suitable. Otherwise it yields one plan per date of the range, each built from the candidates. |
| Diet.GenerateDietPlan | main.py:59-68 | In a successful answer, plan `i` is dated start + `i`. It totals its own meals, draws only on the candidates, none more often than it occurs, and is empty when `meals_per_day` has no layout. |
| Scenarios.UnderCeilingDay | main.py:71-102 | Two meals a day, ceiling 1000, one 300-calorie breakfast and one 600-calorie dinner: whatever the draws, the day is the breakfast then the dinner, 900 calories. |
| Scenarios.PlentifulGroups | main.py:105-111 | Two breakfasts then a dinner group into a breakfast list, in catalog order, followed by a dinner list. |
| Scenarios.TiedBreakfastsSorted | main.py:118 | Two breakfasts at the same distance from the target keep their catalog order after sorting. |
| Scenarios.BreakfastOvershoots | main.py:92-100 | The breakfast slot of a 500-calorie day, with target 150 and two 300-calorie breakfasts, takes both. Its total reaches 600 whichever breakfast is drawn first. |
| Scenarios.PlentifulDay | main.py:71-102 | Two meals a day, ceiling 500, two 300-calorie breakfasts and a 200-calorie dinner: the day totals 600, above the ceiling, and the dinner is never served. |

## Left out

- The web layer (FastAPI routing, pydantic models, `HTTPException`) is not modelled. The 404
  answer is the `NoSuitableMeals` error of a `Result`.
- Reading the catalog from SQLite (main.py:11-14, 41-43) is I/O. The catalog is an input
  sequence of rows.
- `random.choice` is replaced by an oracle.
  - A day receives `pick: nat -> nat`.
  - Its `d`-th draw takes position `pick(d) % min(3, n)` of the slot's `n` remaining meals,
    stably sorted by distance.
  - The date loop hands each date `d` the oracle `pick(d)`.
  - Any sequence of random choices is some oracle, so every property holds for every outcome of
    the random choices.
- Dates are integer day numbers, and the next date is the day number plus one. Calendar
  arithmetic is not modelled, and neither is the upper end of Python's dates. At 9999-12-31,
  `current_date += timedelta(days=1)` (main.py:68) raises `OverflowError` after that date's
  plan is built, so a range reaching that date fails as a whole. The model instead answers with
  every plan of the range.
- Two computations convert an integer to a float, and the model does neither.
  - `max_calories * calorie_ratio` (main.py:90) converts `max_calories`. A ceiling beyond
    about 1.8e308 raises `OverflowError`. The model's exact product accepts any integer ceiling.
  - `abs(meal.calories - calorie_target)` (main.py:118) converts a meal's calories. A meal
    with calories below about -1.8e308 passes the filter (it is under any ceiling). Once its
    type's slot sorts its list, the sort key raises `OverflowError`. The model's exact
    distance accepts any calories.
- Only the meal type column may be NULL in the model. The other columns are assumed present.
  - A NULL `ingredients` raises `AttributeError` at main.py:48.
  - A NULL `calories` raises `TypeError` at main.py:50-51, once the ingredient test has passed.
  - A NULL `id` or `name` in a suitable row fails the `Meal` validation at main.py:52-57.
- The shares `0.3`, `0.25`, and so on are exact `real` numbers. So are the targets
  `max_calories * share` and the distances `abs(calories - target)`. Python computes these in
  binary floating point. Where rounding makes two distances compare differently than exact
  arithmetic would, the sort order, and so the choice, can differ from the model's.
- `if meal:` (main.py:97) is always true for a model instance, so the model always keeps the
  pick.
- Python integers are unbounded, so no wrap-around is modelled.
- Each date's plan is built independently: `group_meals_by_type` builds fresh lists every day,
  so one day's removals never reach the candidates. The model accordingly gives every date the
  same candidate list.
