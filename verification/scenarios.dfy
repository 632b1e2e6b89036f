/** Two worked days, whatever the random draws. On the first, each type has one meal and the
    total stays under the ceiling, so both slots are filled. On the second, breakfasts are
    plentiful: the first slot keeps taking meals while the running total is below the ceiling,
    ends above it, and leaves nothing for the dinner slot. */
module Scenarios {
  import opened Wrappers
  import opened Catalog
  import opened Grouping
  import opened Selection
  import opened DailyPlanning

  const Eggs: Meal := Meal(1, "eggs", ["egg"], 300, "breakfast")
  const Stew: Meal := Meal(2, "stew", ["beef", "carrot"], 600, "dinner")
  const Oats: Meal := Meal(3, "oats", ["oats"], 300, "breakfast")
  const Toast: Meal := Meal(4, "toast", ["bread"], 300, "breakfast")
  const Soup: Meal := Meal(5, "soup", ["carrot"], 200, "dinner")

  /** Two singletons appended are the pair. */
  lemma {:induction false} Pair(x: Meal, y: Meal)
    ensures [x] + [y] == [x, y]
  {
  }

  /** A slot whose list holds a single meal, reached below the ceiling, takes that meal. */
  lemma {:induction false} FillSingleMeal(x: Meal, target: real, maxCalories: int, total: int,
                                          pick: nat -> nat, draw: nat)
    requires total < maxCalories
    ensures FillSlot([x], target, maxCalories, total, pick, draw) == Fill([x], [], total + x.calories, draw + 1)
  {
    assert SortByDistance([x], target) == [x];
    assert Select([x], target, pick(draw) % Min(TopN, 1)) == Some(x);
    assert RemoveFirst([x], x) == [];
  }

  /** One step of the slot loop: the first slot's meals, then those of the remaining slots run
      against the lists the first slot left. */
  lemma {:induction false} AllocateFirstSlot(slots: seq<Slot>, g: seq<Bucket>, maxCalories: int, total: int,
                                             pick: nat -> nat, draw: nat, f: Fill)
    requires |slots| > 0
    requires f == FillSlot(Lookup(g, slots[0].mealType), Allotted(maxCalories, slots[0].share), maxCalories, total, pick, draw)
    ensures var rest := AllocateSlots(slots[1..], Update(g, slots[0].mealType, f.left), maxCalories, f.total, pick, f.draws);
      var a := AllocateSlots(slots, g, maxCalories, total, pick, draw);
      Picks(a.outcomes) == f.picked + Picks(rest.outcomes) && a.total == rest.total
  {
  }

  /** After the first of two types is used up, the second is still found under its key. */
  lemma {:induction false} SecondLookup(g: seq<Bucket>, t: string, u: string, l: seq<Meal>)
    requires t != u && |g| == 2 && g[0].mealType == t && g[1] == Bucket(u, l)
    ensures Lookup(Update(g, t, []), u) == l
  {
    assert Update(g, t, []) == [Bucket(t, [])] + g[1..];
  }

  /** A last slot whose list holds a single meal, reached below the ceiling, adds that meal. */
  lemma {:induction false} LastSlotSingle(slots: seq<Slot>, g: seq<Bucket>, y: Meal, maxCalories: int,
                                          total: int, pick: nat -> nat)
    requires |slots| == 1 && slots[0].mealType == y.mealType
    requires Lookup(g, y.mealType) == [y]
    requires total < maxCalories
    ensures var a := AllocateSlots(slots, g, maxCalories, total, pick, 1);
      Picks(a.outcomes) == [y] && a.total == total + y.calories
  {
    var f := Fill([y], [], total + y.calories, 2);
    FillSingleMeal(y, Allotted(maxCalories, slots[0].share), maxCalories, total, pick, 1);
    AllocateFirstSlot(slots, g, maxCalories, total, pick, 1, f);
    assert slots[1..] == [];
    assert [y] + [] == [y];
  }

  /** Two slots of different types, each type with one meal, the first below the ceiling: the
      day is both meals in slot order. */
  lemma {:induction false} TwoSingleSlots(slots: seq<Slot>, g: seq<Bucket>, x: Meal, y: Meal, maxCalories: int,
                                          pick: nat -> nat)
    requires |slots| == 2 && slots[0].mealType == x.mealType && slots[1].mealType == y.mealType
    requires x.mealType != y.mealType
    requires g == [Bucket(x.mealType, [x]), Bucket(y.mealType, [y])]
    requires 0 < maxCalories && x.calories < maxCalories
    ensures var a := AllocateSlots(slots, g, maxCalories, 0, pick, 0);
      Picks(a.outcomes) == [x, y] && a.total == x.calories + y.calories
  {
    var f := Fill([x], [], x.calories, 1);
    FillSingleMeal(x, Allotted(maxCalories, slots[0].share), maxCalories, 0, pick, 0);
    AllocateFirstSlot(slots, g, maxCalories, 0, pick, 0, f);
    var g' := Update(g, x.mealType, []);
    SecondLookup(g, x.mealType, y.mealType, [y]);
    LastSlotSingle(slots[1..], g', y, maxCalories, x.calories, pick);
    Pair(x, y);
  }

  /** The grouped catalog of the first day. */
  lemma {:induction false} UnderCeilingGroups()
    ensures GroupByType([Eggs, Stew]) == [Bucket("breakfast", [Eggs]), Bucket("dinner", [Stew])]
  {
    assert "breakfast"[0] != "dinner"[0];
    assert [Eggs][..0] == [];
    assert GroupByType([Eggs]) == [Bucket("breakfast", [Eggs])];
    var g1 := [Bucket("breakfast", [Eggs])];
    assert AddToGroups(g1[1..], Stew) == [Bucket("dinner", [Stew])];
    assert AddToGroups(g1, Stew) == [g1[0]] + AddToGroups(g1[1..], Stew);
    assert [Eggs, Stew][..1] == [Eggs];
  }

  /** Two meals per day under a ceiling of 1000 with a 300-calorie breakfast and a 600-calorie
      dinner: the day is the breakfast then the dinner, 900 calories in all. */
  lemma {:induction false} UnderCeilingDay(pick: nat -> nat)
    ensures var p := GenerateDailyPlan([Eggs, Stew], 2, 1000, pick);
      p.meals == [Eggs, Stew] && p.totalCalories == 900
  {
    UnderCeilingGroups();
    assert "breakfast"[0] != "dinner"[0];
    TwoSingleSlots(SlotTable(2), GroupByType([Eggs, Stew]), Eggs, Stew, 1000, pick);
  }

  /** The grouped catalog of the second day: breakfasts first, in catalog order. */
  lemma {:induction false} PlentifulGroups()
    ensures GroupByType([Oats, Toast, Soup]) == [Bucket("breakfast", [Oats, Toast]), Bucket("dinner", [Soup])]
  {
    assert "breakfast"[0] != "dinner"[0];
    assert [Oats][..0] == [];
    assert GroupByType([Oats]) == [Bucket("breakfast", [Oats])];
    var g1 := [Bucket("breakfast", [Oats])];
    assert AddToGroups(g1, Toast) == [Bucket("breakfast", [Oats] + [Toast])] + g1[1..];
    assert [Oats] + [Toast] == [Oats, Toast] && g1[1..] == [];
    assert [Oats, Toast][..1] == [Oats];
    assert GroupByType([Oats, Toast]) == [Bucket("breakfast", [Oats, Toast])];
    var g2 := [Bucket("breakfast", [Oats, Toast])];
    assert AddToGroups(g2[1..], Soup) == [Bucket("dinner", [Soup])];
    assert AddToGroups(g2, Soup) == [g2[0]] + AddToGroups(g2[1..], Soup);
    assert [Oats, Toast, Soup][..2] == [Oats, Toast];
  }

  /** Two breakfasts equally far from a target keep their catalog order when sorted. */
  lemma {:induction false} TiedBreakfastsSorted()
    ensures SortByDistance([Oats, Toast], 150.0) == [Oats, Toast]
  {
    assert [Oats, Toast][1..] == [Toast];
    assert SortByDistance([Toast], 150.0) == [Toast];
  }

  /** The breakfast slot with a target of 150 and a ceiling of 500 takes one breakfast (300,
      still below the ceiling) and then the other (600), whichever the draws choose first. */
  lemma {:induction false} BreakfastOvershoots(pick: nat -> nat)
    ensures var f := FillSlot([Oats, Toast], 150.0, 500, 0, pick, 0);
      && f.total == 600 && f.left == [] && f.draws == 2
      && (f.picked == [Oats, Toast] || f.picked == [Toast, Oats])
  {
    TiedBreakfastsSorted();
    var k := pick(0) % Min(TopN, 2);
    var m := if k == 0 then Oats else Toast;
    var other := if k == 0 then Toast else Oats;
    assert Select([Oats, Toast], 150.0, k) == Some(m);
    assert RemoveFirst([Oats, Toast], m) == [other];
    FillSingleMeal(other, 150.0, 500, 300, pick, 1);
    Pair(m, other);
  }

  /** When the first slot already reaches the ceiling, the day is exactly that slot's meals. */
  lemma {:induction false} FirstSlotTakesDay(slots: seq<Slot>, g: seq<Bucket>, maxCalories: int, pick: nat -> nat, f: Fill)
    requires |slots| > 0
    requires f == FillSlot(Lookup(g, slots[0].mealType), Allotted(maxCalories, slots[0].share), maxCalories, 0, pick, 0)
    requires f.total >= maxCalories
    ensures var a := AllocateSlots(slots, g, maxCalories, 0, pick, 0);
      a.total == f.total && Picks(a.outcomes) == f.picked
  {
    AllocateFirstSlot(slots, g, maxCalories, 0, pick, 0, f);
    AllocateAfterCeiling(slots[1..], Update(g, slots[0].mealType, f.left), maxCalories, f.total, pick, f.draws);
    assert f.picked + [] == f.picked;
  }

  /** The same at the level of a whole day: the day's meals and total are the first slot's. */
  lemma {:induction false} FirstSlotTakesWholeDay(meals: seq<Meal>, mealsPerDay: int, maxCalories: int,
                                                 pick: nat -> nat, f: Fill)
    requires |SlotTable(mealsPerDay)| > 0
    requires var slot := SlotTable(mealsPerDay)[0];
      f == FillSlot(Lookup(GroupByType(meals), slot.mealType), Allotted(maxCalories, slot.share), maxCalories, 0, pick, 0)
    requires f.total >= maxCalories
    ensures var p := GenerateDailyPlan(meals, mealsPerDay, maxCalories, pick);
      p.meals == f.picked && p.totalCalories == f.total
  {
    FirstSlotTakesDay(SlotTable(mealsPerDay), GroupByType(meals), maxCalories, pick, f);
  }

  /** The plentiful day's breakfasts are not its dinner. */
  lemma {:induction false} SoupNotPicked(picked: seq<Meal>)
    requires picked == [Oats, Toast] || picked == [Toast, Oats]
    ensures Soup !in picked
  {
    assert Soup.calories != Oats.calories && Soup.calories != Toast.calories;
  }

  /** Two meals per day under a ceiling of 500 with two 300-calorie breakfasts and a
      200-calorie dinner: the day ends at 600 calories, above the ceiling, and the dinner is
      never served. */
  lemma {:induction false} PlentifulDay(pick: nat -> nat)
    ensures var p := GenerateDailyPlan([Oats, Toast, Soup], 2, 500, pick);
      p.totalCalories == 600 && p.totalCalories > 500 && Soup !in p.meals
  {
    PlentifulGroups();
    assert SlotTable(2)[0] == Slot("breakfast", 0.3);
    BreakfastOvershoots(pick);
    assert Lookup([Bucket("breakfast", [Oats, Toast]), Bucket("dinner", [Soup])], "breakfast") == [Oats, Toast];
    assert Allotted(500, 0.3) == 150.0;
    var f := FillSlot([Oats, Toast], 150.0, 500, 0, pick, 0);
    FirstSlotTakesWholeDay([Oats, Toast, Soup], 2, 500, pick, f);
    SoupNotPicked(f.picked);
  }

}
