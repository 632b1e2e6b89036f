/** The `/generate-diet/` request: filter the catalog, fail when nothing is suitable, otherwise
    build one daily plan per date of the inclusive range. */
module Diet {
  import opened Wrappers
  import opened Catalog
  import opened DailyPlanning

  /** The request body; dates are day numbers. */
  datatype Request = Request(startDate: int, endDate: int, mealsPerDay: int,
                             preferred: seq<string>, maxCalories: int)

  /** One element of the response: a date, its meals and their calorie total. */
  datatype DietPlan = DietPlan(date: int, meals: seq<Meal>, totalCalories: int)

  /** The 404 "No suitable meals found" answer. */
  datatype DietError = NoSuitableMeals

  /** How many dates lie in the inclusive range from `first` to `last`. */
  function DayCount(first: int, last: int): nat
  {
    if first <= last then last - first + 1 else 0
  }

  /** The plan appended for one date, built with that date's random draws `pick(date)`. */
  function PlanFor(meals: seq<Meal>, mealsPerDay: int, maxCalories: int, pick: int -> nat -> nat,
                   date: int): (plan: DietPlan)
    ensures plan.date == date
    ensures plan.totalCalories == Sum(plan.meals)
    ensures multiset(plan.meals) <= multiset(meals)
    ensures !(1 <= mealsPerDay <= 5) ==> plan.meals == [] && plan.totalCalories == 0
  {
    var p := GenerateDailyPlan(meals, mealsPerDay, maxCalories, pick(date));
    DailyPlanMeals(meals, mealsPerDay, maxCalories, pick(date));
    DietPlan(date, p.meals, p.totalCalories)
  }

  /** The per-date planner handed to the date loop. */
  function DayPlanner(meals: seq<Meal>, mealsPerDay: int, maxCalories: int, pick: int -> nat -> nat): int -> DietPlan
  {
    date => PlanFor(meals, mealsPerDay, maxCalories, pick, date)
  }

  /** The planner applied to a date is that date's plan. */
  lemma {:induction false} DayPlannerAt(meals: seq<Meal>, mealsPerDay: int, maxCalories: int,
                                        pick: int -> nat -> nat, date: int)
    ensures DayPlanner(meals, mealsPerDay, maxCalories, pick)(date)
         == PlanFor(meals, mealsPerDay, maxCalories, pick, date)
  {
  }

  /** The date loop `while current_date <= end_date`: one plan per date from `date` to `endDate`
      inclusive, in date order, the plan for each date made by `planFor`. */
  function PlanDays(planFor: int -> DietPlan, date: int, endDate: int): (plans: seq<DietPlan>)
    ensures |plans| == DayCount(date, endDate)
    ensures forall i :: 0 <= i < |plans| ==> plans[i] == planFor(date + i)
    decreases DayCount(date, endDate)
  {
    if date > endDate then []
    else
      var rest := PlanDays(planFor, date + 1, endDate);
      var plans := [planFor(date)] + rest;
      assert forall i :: 1 <= i < |plans| ==> plans[i] == rest[i - 1] && date + i == (date + 1) + (i - 1);
      plans
  }

  /** `generate_diet`: fails with `NoSuitableMeals` exactly when no catalog row is suitable;
      otherwise one plan per date of the range, made by the date loop over the suitable meals. */
  function GenerateDiet(request: Request, catalog: seq<Row>, pick: int -> nat -> nat): (r: Result<seq<DietPlan>, DietError>)
    ensures r.Failure? <==> forall row :: row in catalog ==> !Suitable(row, request.preferred, request.maxCalories)
    ensures r.Failure? ==> r.error == NoSuitableMeals
    ensures r.Success? ==> |r.value| == DayCount(request.startDate, request.endDate)
    ensures r.Success? ==>
      r.value == PlanDays(DayPlanner(FilterSuitable(catalog, request.preferred, request.maxCalories),
                                     request.mealsPerDay, request.maxCalories, pick),
                          request.startDate, request.endDate)
  {
    var suitable := FilterSuitable(catalog, request.preferred, request.maxCalories);
    FilterSuitableContents(catalog, request.preferred, request.maxCalories);
    if suitable == [] then Failure(NoSuitableMeals)
    else
      Success(PlanDays(DayPlanner(suitable, request.mealsPerDay, request.maxCalories, pick),
                       request.startDate, request.endDate))
  }

  /** The i-th plan of a successful answer is dated i days after the start, draws only on the
      suitable meals (none more often than it occurs), totals its meals' calories, and is empty
      when the meals-per-day value has no layout. */
  lemma {:induction false} GenerateDietPlan(request: Request, catalog: seq<Row>, pick: int -> nat -> nat, i: int)
    requires GenerateDiet(request, catalog, pick).Success?
    requires 0 <= i < |GenerateDiet(request, catalog, pick).value|
    ensures var plan := GenerateDiet(request, catalog, pick).value[i];
      && plan.date == request.startDate + i
      && plan.totalCalories == Sum(plan.meals)
      && multiset(plan.meals) <= multiset(FilterSuitable(catalog, request.preferred, request.maxCalories))
      && (!(1 <= request.mealsPerDay <= 5) ==> plan.meals == [] && plan.totalCalories == 0)
  {
    var suitable := FilterSuitable(catalog, request.preferred, request.maxCalories);
    DayPlannerAt(suitable, request.mealsPerDay, request.maxCalories, pick, request.startDate + i);
  }
}
