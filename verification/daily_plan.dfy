/** `generate_daily_plan`: the fixed slot table, the greedy per-slot allocation loop, and the
    resulting day's meals and calorie total. */
module DailyPlanning {
  import opened Wrappers
  import opened Catalog
  import opened Grouping
  import opened Selection

  /** One entry of a slot layout: the meal type served and its share of the calorie ceiling. */
  datatype Slot = Slot(mealType: string, share: real)

  /** What one slot did: the type and calorie target it used, the list of meals it drew from,
      the meals it took (in order), the meals it left, and the day's running total afterwards. */
  datatype SlotOutcome = SlotOutcome(mealType: string, target: real, bucket: seq<Meal>,
                                     picked: seq<Meal>, left: seq<Meal>, totalAfter: int)

  /** The day's slot outcomes, the grouped catalog as the loop left it, the running total and
      the number of random draws made so far. */
  datatype Allocation = Allocation(outcomes: seq<SlotOutcome>, groups: seq<Bucket>, total: int, draws: nat)

  /** The result of one slot's loop. */
  datatype Fill = Fill(picked: seq<Meal>, left: seq<Meal>, total: int, draws: nat)

  /** The `meals` and `total_calories` returned for one day. */
  datatype DailyPlan = DailyPlan(meals: seq<Meal>, totalCalories: int)

  predicate DistinctSlotTypes(slots: seq<Slot>)
  {
    forall i, j :: 0 <= i < j < |slots| ==> slots[i].mealType != slots[j].mealType
  }

  /** The meal types a layout serves. */
  function SlotTypes(slots: seq<Slot>): set<string>
  {
    set i | 0 <= i < |slots| :: slots[i].mealType
  }

  /** `meal_types_calorie_distribution.get(meals_per_day, {})`: one slot per meal for 1 to 5
      meals a day, each type at most once, each share in (0, 1]; no slot at all otherwise. */
  function SlotTable(mealsPerDay: int): (slots: seq<Slot>)
    ensures |slots| == (if 1 <= mealsPerDay <= 5 then mealsPerDay else 0)
    ensures DistinctSlotTypes(slots)
    ensures forall i :: 0 <= i < |slots| ==> 0.0 < slots[i].share <= 1.0
  {
    match mealsPerDay
    case 1 => [Slot("dinner", 1.0)]
    case 2 => [Slot("breakfast", 0.3), Slot("dinner", 0.7)]
    case 3 => [Slot("breakfast", 0.25), Slot("lunch", 0.35), Slot("afternoon_snack", 0.4)]
    case 4 => [Slot("breakfast", 0.2), Slot("lunch", 0.25), Slot("dinner", 0.35), Slot("afternoon_snack", 0.2)]
    case 5 => [Slot("breakfast", 0.2), Slot("lunch", 0.2), Slot("dinner", 0.3),
               Slot("afternoon_snack", 0.15), Slot("evening_snack", 0.15)]
    case _ => []
  }

  /** `allocated_calories`: a slot's share of the ceiling, the target its picks aim at. */
  function Allotted(maxCalories: int, share: real): real
  {
    maxCalories as real * share
  }

  /** `list.remove(x)`: the list without the first element equal to `x`. */
  function RemoveFirst(s: seq<Meal>, x: Meal): (r: seq<Meal>)
    requires x in s
    ensures |r| == |s| - 1
    ensures multiset(r) + multiset{x} == multiset(s)
    decreases |s|
  {
    if s[0] == x then
      assert s == [s[0]] + s[1..];
      s[1..]
    else
      assert s == [s[0]] + s[1..];
      [s[0]] + RemoveFirst(s[1..], x)
  }

  /** The element removed is the first occurrence: everything before it and after it stays in
      order. */
  lemma {:induction false} RemoveFirstAt(s: seq<Meal>, x: Meal, i: nat)
    requires i < |s| && s[i] == x && x !in s[..i]
    ensures RemoveFirst(s, x) == s[..i] + s[i + 1..]
    decreases i
  {
    if i > 0 {
      assert s[0] in s[..i];
      assert s[1..][..i - 1] == s[1..i];
      assert x !in s[1..][..i - 1];
      RemoveFirstAt(s[1..], x, i - 1);
      assert s[..i] == [s[0]] + s[1..][..i - 1];
      assert s[1..][i..] == s[i + 1..];
    }
  }

  /** Every meal of `picked` was taken while the running total, starting at `base`, was still
      below `maxCalories`, the check at the head of each loop iteration. */
  predicate AddedBelow(base: int, picked: seq<Meal>, maxCalories: int)
    decreases |picked|
  {
    |picked| == 0 || (base < maxCalories && AddedBelow(base + picked[0].calories, picked[1..], maxCalories))
  }

  /** `AddedBelow` said with prefix sums: before the i-th pick the total was below the ceiling. */
  lemma {:induction false} AddedBelowPrefixes(base: int, picked: seq<Meal>, maxCalories: int)
    ensures AddedBelow(base, picked, maxCalories) <==>
      forall i :: 0 <= i < |picked| ==> base + Sum(picked[..i]) < maxCalories
    decreases |picked|
  {
    if |picked| > 0 {
      AddedBelowPrefixes(base + picked[0].calories, picked[1..], maxCalories);
      assert picked[..0] == [];
      forall i | 0 < i < |picked|
        ensures Sum(picked[..i]) == picked[0].calories + Sum(picked[1..][..i - 1])
      {
        assert picked[..i][1..] == picked[1..][..i - 1];
      }
      if forall i :: 0 <= i < |picked| ==> base + Sum(picked[..i]) < maxCalories {
        forall i | 0 <= i < |picked| - 1
          ensures base + picked[0].calories + Sum(picked[1..][..i]) < maxCalories
        {
          assert base + Sum(picked[..i + 1]) < maxCalories;
        }
      }
    }
  }

  lemma {:induction false} AddedBelowAppend(base: int, p: seq<Meal>, q: seq<Meal>, maxCalories: int)
    requires AddedBelow(base, p, maxCalories)
    requires AddedBelow(base + Sum(p), q, maxCalories)
    ensures AddedBelow(base, p + q, maxCalories)
    decreases |p|
  {
    if |p| == 0 {
      assert p + q == q;
    } else {
      AddedBelowAppend(base + p[0].calories, p[1..], q, maxCalories);
      assert (p + q)[1..] == p[1..] + q;
    }
  }

  /** `m` is one of the first `TopN` meals of `s` once stably sorted by distance: fewer than
      `TopN` meals lie strictly closer, and among the meals tied with `m` it comes early enough
      in `s` to fill one of the remaining places. */
  predicate AmongClosest(s: seq<Meal>, target: real, m: Meal)
  {
    var c := CloserCount(s, target, Distance(m, target));
    c < TopN && exists j :: 0 <= j < TopN - c && TiedAt(s, target, m, j)
  }

  /** Each meal of `picked` was chosen, in turn, from what was left of `bucket` after the earlier
      picks were removed, among the three meals of that remainder closest to `target` in the
      stable sort. */
  predicate PicksClose(bucket: seq<Meal>, picked: seq<Meal>, target: real)
    decreases |picked|
  {
    |picked| == 0
    || (&& picked[0] in bucket
        && AmongClosest(bucket, target, picked[0])
        && PicksClose(RemoveFirst(bucket, picked[0]), picked[1..], target))
  }

  /** The inner loop of `generate_daily_plan` for one slot: while the slot's list is non-empty
      and the day's total is below the ceiling, pick a meal close to the slot's target (the
      random choice made by `pick` from the draw counter), add it, and remove it from the list.
      Taken and left meals together are the list; the total grows by what was taken; each meal
      was taken while the total was below the ceiling; the loop stops only with an empty list or
      a total at the ceiling; every pick is among the closest three of the meals left then. */
  function FillSlot(bucket: seq<Meal>, target: real, maxCalories: int, total: int,
                    pick: nat -> nat, draw: nat): (f: Fill)
    ensures multiset(f.picked) + multiset(f.left) == multiset(bucket)
    ensures f.total == total + Sum(f.picked)
    ensures AddedBelow(total, f.picked, maxCalories)
    ensures |f.left| == 0 || f.total >= maxCalories
    ensures f.picked == [] ==> f.left == bucket
    ensures f.draws == draw + |f.picked|
    ensures PicksClose(bucket, f.picked, target)
    decreases |bucket|
  {
    if |bucket| == 0 || total >= maxCalories then Fill([], bucket, total, draw)
    else
      var k := pick(draw) % Min(TopN, |bucket|);
      var m := Select(bucket, target, k).value;
      var rest := FillSlot(RemoveFirst(bucket, m), target, maxCalories, total + m.calories, pick, draw + 1);
      var f := Fill([m] + rest.picked, rest.left, rest.total, rest.draws);
      FillStep(bucket, total, maxCalories, m, RemoveFirst(bucket, m), rest, f);
      SelectAmongClosest(bucket, target, k);
      PicksCloseStep(bucket, target, m, rest.picked);
      assert f.picked[1..] == rest.picked;
      f
  }

  /** The inductive step of `FillSlot`. */
  lemma {:induction false} FillStep(bucket: seq<Meal>, total: int, maxCalories: int, m: Meal,
                                    remaining: seq<Meal>, rest: Fill, f: Fill)
    requires total < maxCalories
    requires multiset(remaining) + multiset{m} == multiset(bucket)
    requires multiset(rest.picked) + multiset(rest.left) == multiset(remaining)
    requires rest.total == total + m.calories + Sum(rest.picked)
    requires AddedBelow(total + m.calories, rest.picked, maxCalories)
    requires f == Fill([m] + rest.picked, rest.left, rest.total, rest.draws)
    ensures multiset(f.picked) + multiset(f.left) == multiset(bucket)
    ensures f.total == total + Sum(f.picked)
    ensures AddedBelow(total, f.picked, maxCalories)
  {
    assert f.picked[1..] == rest.picked;
    assert multiset(f.picked) == multiset{m} + multiset(rest.picked);
  }

  /** Choosing a close meal and then close meals from what is left is choosing close meals. */
  lemma {:induction false} PicksCloseStep(bucket: seq<Meal>, target: real, m: Meal, later: seq<Meal>)
    requires m in bucket && AmongClosest(bucket, target, m)
    requires PicksClose(RemoveFirst(bucket, m), later, target)
    ensures PicksClose(bucket, [m] + later, target)
  {
    assert ([m] + later)[1..] == later;
  }

  /** The selector's choice with index `k` is one of the three closest meals of the list. */
  lemma {:induction false} SelectAmongClosest(bucket: seq<Meal>, target: real, k: nat)
    requires |bucket| > 0 && k < Min(TopN, |bucket|)
    ensures Select(bucket, target, k).Some?
    ensures AmongClosest(bucket, target, Select(bucket, target, k).value)
  {
    var m := Select(bucket, target, k).value;
    var c := CloserCount(bucket, target, Distance(m, target));
    assert 0 <= k - c < TopN - c && TiedAt(bucket, target, m, k - c);
  }

  /** What one slot's loop leaves behind: it served the slot's type at the slot's target, its
      taken and left meals together are its list, each meal it took was among the first three of
      the meals still left, stably sorted by distance from the target, and it stopped with its list empty or the
      day's total at the ceiling. */
  predicate SlotDone(slot: Slot, o: SlotOutcome, maxCalories: int)
  {
    && o.mealType == slot.mealType
    && o.target == Allotted(maxCalories, slot.share)
    && multiset(o.picked) + multiset(o.left) == multiset(o.bucket)
    && PicksClose(o.bucket, o.picked, o.target)
    && (|o.left| == 0 || o.totalAfter >= maxCalories)
  }

  /** The slots ran one after the other from the running total `total`: each slot's total
      afterwards is the total it started from plus the calories it took, and the next slot
      starts from there. */
  predicate Chained(total: int, outcomes: seq<SlotOutcome>)
    decreases |outcomes|
  {
    |outcomes| == 0
    || (&& outcomes[0].totalAfter == total + Sum(outcomes[0].picked)
        && Chained(outcomes[0].totalAfter, outcomes[1..]))
  }

  /** All meals taken by the given slots, slot by slot. */
  function Picks(outcomes: seq<SlotOutcome>): seq<Meal>
    decreases |outcomes|
  {
    if |outcomes| == 0 then [] else outcomes[0].picked + Picks(outcomes[1..])
  }

  /** The outer loop of `generate_daily_plan`: run each slot in layout order against the grouped
      catalog, storing what the slot left back under its type. */
  function AllocateSlots(slots: seq<Slot>, groups: seq<Bucket>, maxCalories: int, total: int,
                         pick: nat -> nat, draw: nat): (a: Allocation)
    ensures |a.outcomes| == |slots|
    ensures forall i :: 0 <= i < |slots| ==> SlotDone(slots[i], a.outcomes[i], maxCalories)
    ensures a.total == total + Sum(Picks(a.outcomes))
    ensures AddedBelow(total, Picks(a.outcomes), maxCalories)
    ensures Chained(total, a.outcomes)
    ensures multiset(Picks(a.outcomes)) + multiset(Flatten(a.groups)) == multiset(Flatten(groups))
    ensures DistinctSlotTypes(slots) ==>
      forall i :: 0 <= i < |slots| ==> a.outcomes[i].bucket == Lookup(groups, slots[i].mealType)
    decreases |slots|
  {
    if |slots| == 0 then Allocation([], groups, total, draw)
    else
      var slot := slots[0];
      var target := Allotted(maxCalories, slot.share);
      var bucket := Lookup(groups, slot.mealType);
      var f := FillSlot(bucket, target, maxCalories, total, pick, draw);
      var groups' := Update(groups, slot.mealType, f.left);
      var rest := AllocateSlots(slots[1..], groups', maxCalories, f.total, pick, f.draws);
      var o := SlotOutcome(slot.mealType, target, bucket, f.picked, f.left, f.total);
      var a := Allocation([o] + rest.outcomes, rest.groups, rest.total, rest.draws);
      AllocateStepTotals(total, maxCalories, o, rest, a);
      AllocateStepMeals(groups, slot.mealType, o, groups', rest, a);
      AllocateStepBuckets(slots, groups, o, groups', rest, a);
      AllocateStepOutcomes(slots, maxCalories, o, rest, a);
      a
  }

  /** Once the running total has reached the ceiling, no later slot takes a meal: the slots
      still to come are starved, however their types are stocked. */
  lemma {:induction false} AllocateAfterCeiling(slots: seq<Slot>, groups: seq<Bucket>, maxCalories: int, total: int,
                                                pick: nat -> nat, draw: nat)
    requires total >= maxCalories
    ensures var a := AllocateSlots(slots, groups, maxCalories, total, pick, draw);
      Picks(a.outcomes) == [] && a.total == total && a.groups == groups
    decreases |slots|
  {
    if |slots| > 0 {
      var slot := slots[0];
      var bucket := Lookup(groups, slot.mealType);
      var f := FillSlot(bucket, Allotted(maxCalories, slot.share), maxCalories, total, pick, draw);
      assert f.picked == [] && f.left == bucket;
      UpdateLookup(groups, slot.mealType);
      AllocateAfterCeiling(slots[1..], groups, maxCalories, total, pick, draw);
    }
  }

  /** The inductive step of `AllocateSlots` for the per-slot facts. */
  lemma {:induction false} AllocateStepOutcomes(slots: seq<Slot>, maxCalories: int, o: SlotOutcome,
                                                rest: Allocation, a: Allocation)
    requires |slots| > 0 && SlotDone(slots[0], o, maxCalories)
    requires |rest.outcomes| == |slots| - 1
    requires forall i :: 0 <= i < |slots| - 1 ==> SlotDone(slots[1..][i], rest.outcomes[i], maxCalories)
    requires a.outcomes == [o] + rest.outcomes
    ensures |a.outcomes| == |slots|
    ensures forall i :: 0 <= i < |slots| ==> SlotDone(slots[i], a.outcomes[i], maxCalories)
  {
    ConsPairwise(slots, o, rest.outcomes, (slot, out) => SlotDone(slot, out, maxCalories));
  }

  /** A relation that holds between the heads and, position by position, between the tails
      holds position by position between the whole sequences. */
  lemma {:induction false} ConsPairwise<A, B>(xs: seq<A>, y: B, ys: seq<B>, rel: (A, B) -> bool)
    requires |xs| == |ys| + 1 && rel(xs[0], y)
    requires forall i :: 0 <= i < |ys| ==> rel(xs[1..][i], ys[i])
    ensures forall i :: 0 <= i < |xs| ==> rel(xs[i], ([y] + ys)[i])
  {
    forall i | 1 <= i < |xs|
      ensures rel(xs[i], ([y] + ys)[i])
    {
      assert xs[i] == xs[1..][i - 1] && ([y] + ys)[i] == ys[i - 1];
    }
  }

  /** The inductive step of `AllocateSlots` for the running total and the ceiling check. */
  lemma {:induction false} AllocateStepTotals(total: int, maxCalories: int, o: SlotOutcome,
                                              rest: Allocation, a: Allocation)
    requires o.totalAfter == total + Sum(o.picked)
    requires AddedBelow(total, o.picked, maxCalories)
    requires rest.total == o.totalAfter + Sum(Picks(rest.outcomes))
    requires AddedBelow(o.totalAfter, Picks(rest.outcomes), maxCalories)
    requires Chained(o.totalAfter, rest.outcomes)
    requires a == Allocation([o] + rest.outcomes, rest.groups, rest.total, rest.draws)
    ensures Picks(a.outcomes) == o.picked + Picks(rest.outcomes)
    ensures a.total == total + Sum(Picks(a.outcomes))
    ensures AddedBelow(total, Picks(a.outcomes), maxCalories)
    ensures Chained(total, a.outcomes)
  {
    assert a.outcomes[1..] == rest.outcomes;
    SumAppend(o.picked, Picks(rest.outcomes));
    AddedBelowAppend(total, o.picked, Picks(rest.outcomes), maxCalories);
  }

  /** The inductive step of `AllocateSlots` for the meals: taken plus still grouped stays the
      grouped catalog. */
  lemma {:induction false} AllocateStepMeals(groups: seq<Bucket>, t: string, o: SlotOutcome,
                                             groups': seq<Bucket>, rest: Allocation, a: Allocation)
    requires o.bucket == Lookup(groups, t)
    requires multiset(o.picked) + multiset(o.left) == multiset(o.bucket)
    requires groups' == Update(groups, t, o.left)
    requires multiset(Picks(rest.outcomes)) + multiset(Flatten(rest.groups)) == multiset(Flatten(groups'))
    requires Picks(a.outcomes) == o.picked + Picks(rest.outcomes)
    requires a.groups == rest.groups
    ensures multiset(Picks(a.outcomes)) + multiset(Flatten(a.groups)) == multiset(Flatten(groups))
  {
    UpdateFlatten(groups, t, o.left);
    assert multiset(Picks(a.outcomes)) == multiset(o.picked) + multiset(Picks(rest.outcomes));
    Exchange(multiset(Flatten(groups)), multiset(Flatten(groups')), multiset(o.picked), multiset(o.left),
             multiset(Picks(rest.outcomes)), multiset(Flatten(rest.groups)));
  }

  /** Multiset bookkeeping for one slot: the slot's list `p + l` was traded for `l` in `g`,
      giving `g'`; whatever `g'` later splits into, together with `p`, is `g`. */
  lemma {:induction false} Exchange(g: multiset<Meal>, g': multiset<Meal>, p: multiset<Meal>, l: multiset<Meal>,
                                    r: multiset<Meal>, f: multiset<Meal>)
    requires g' + (p + l) == g + l
    requires r + f == g'
    ensures (p + r) + f == g
  {
    forall x
      ensures ((p + r) + f)[x] == g[x]
    {
      assert (g' + (p + l))[x] == (g + l)[x];
    }
  }

  /** The inductive step of `AllocateSlots` for the lists: with distinct slot types, later slots
      see the lists of their own types untouched by earlier slots. */
  lemma {:induction false} AllocateStepBuckets(slots: seq<Slot>, groups: seq<Bucket>, o: SlotOutcome,
                                               groups': seq<Bucket>, rest: Allocation, a: Allocation)
    requires |slots| > 0
    requires o.bucket == Lookup(groups, slots[0].mealType)
    requires groups' == Update(groups, slots[0].mealType, o.left)
    requires |rest.outcomes| == |slots| - 1
    requires DistinctSlotTypes(slots[1..]) ==>
      forall i :: 0 <= i < |slots| - 1 ==> rest.outcomes[i].bucket == Lookup(groups', slots[1..][i].mealType)
    requires a.outcomes == [o] + rest.outcomes
    ensures DistinctSlotTypes(slots) ==>
      forall i :: 0 <= i < |slots| ==> a.outcomes[i].bucket == Lookup(groups, slots[i].mealType)
  {
    if DistinctSlotTypes(slots) {
      assert DistinctSlotTypes(slots[1..]);
      forall i | 0 <= i < |slots|
        ensures a.outcomes[i].bucket == Lookup(groups, slots[i].mealType)
      {
        if i > 0 {
          assert slots[1..][i - 1] == slots[i];
          assert a.outcomes[i] == rest.outcomes[i - 1];
          LookupUpdateOther(groups, slots[i].mealType, slots[0].mealType, o.left);
        }
      }
    }
  }

  /** A meal taken by the slots was taken by one of them. */
  lemma {:induction false} PicksMember(outcomes: seq<SlotOutcome>, m: Meal)
    requires m in Picks(outcomes)
    ensures exists i :: 0 <= i < |outcomes| && m in outcomes[i].picked
    decreases |outcomes|
  {
    if m !in outcomes[0].picked {
      PicksMember(outcomes[1..], m);
      var i :| 0 <= i < |outcomes[1..]| && m in outcomes[1..][i].picked;
      assert outcomes[i + 1] == outcomes[1..][i];
    }
  }

  /** One day's allocation over the slot layout for `mealsPerDay`: one outcome per slot in
      layout order; each slot draws from exactly the catalog's meals of its type, in catalog
      order; no catalog entry is taken more often than it occurs; each meal was taken while the
      day's total was below the ceiling; each slot ends with its list empty or the ceiling
      reached. */
  function DailyAllocation(meals: seq<Meal>, mealsPerDay: int, maxCalories: int, pick: nat -> nat): (a: Allocation)
    ensures |a.outcomes| == |SlotTable(mealsPerDay)|
    ensures forall i :: 0 <= i < |a.outcomes| ==> SlotDone(SlotTable(mealsPerDay)[i], a.outcomes[i], maxCalories)
    ensures forall i :: 0 <= i < |a.outcomes| ==> a.outcomes[i].bucket == OfType(meals, a.outcomes[i].mealType)
    ensures multiset(Picks(a.outcomes)) <= multiset(meals)
    ensures a.total == Sum(Picks(a.outcomes))
    ensures AddedBelow(0, Picks(a.outcomes), maxCalories)
    ensures Chained(0, a.outcomes)
  {
    var slots := SlotTable(mealsPerDay);
    var groups := GroupByType(meals);
    var a := AllocateSlots(slots, groups, maxCalories, 0, pick, 0);
    GroupedPermutation(meals);
    GroupedBuckets(meals, slots, a.outcomes);
    a
  }

  lemma {:induction false} GroupedBuckets(meals: seq<Meal>, slots: seq<Slot>, outcomes: seq<SlotOutcome>)
    requires |outcomes| == |slots|
    requires forall i :: 0 <= i < |slots| ==> outcomes[i].bucket == Lookup(GroupByType(meals), slots[i].mealType)
    ensures forall i :: 0 <= i < |slots| ==> outcomes[i].bucket == OfType(meals, slots[i].mealType)
  {
    forall i | 0 <= i < |slots|
      ensures outcomes[i].bucket == OfType(meals, slots[i].mealType)
    {
      LookupGrouped(meals, slots[i].mealType);
    }
  }

  /** `generate_daily_plan`: the meals taken, slot by slot, and their calorie total. */
  function GenerateDailyPlan(meals: seq<Meal>, mealsPerDay: int, maxCalories: int, pick: nat -> nat): (p: DailyPlan)
    ensures p.totalCalories == Sum(p.meals)
  {
    var a := DailyAllocation(meals, mealsPerDay, maxCalories, pick);
    DailyPlan(Picks(a.outcomes), a.total)
  }

  /** A day's meals come from the catalog, no entry more often than it occurs, each of a type
      the layout serves; a meals-per-day value without a layout gives an empty day. */
  lemma {:induction false} DailyPlanMeals(meals: seq<Meal>, mealsPerDay: int, maxCalories: int, pick: nat -> nat)
    ensures var p := GenerateDailyPlan(meals, mealsPerDay, maxCalories, pick);
      && multiset(p.meals) <= multiset(meals)
      && (forall m :: m in p.meals ==> m.mealType in SlotTypes(SlotTable(mealsPerDay)))
      && (!(1 <= mealsPerDay <= 5) ==> p.meals == [] && p.totalCalories == 0)
  {
    var a := DailyAllocation(meals, mealsPerDay, maxCalories, pick);
    PickedTypes(meals, mealsPerDay, maxCalories, a.outcomes);
  }

  /** Every meal of the day was added while the running total was below the ceiling, so the
      total exceeds the ceiling by less than the last meal's calories. */
  lemma {:induction false} DailyPlanCeiling(meals: seq<Meal>, mealsPerDay: int, maxCalories: int, pick: nat -> nat)
    ensures var p := GenerateDailyPlan(meals, mealsPerDay, maxCalories, pick);
      && AddedBelow(0, p.meals, maxCalories)
      && (|p.meals| > 0 ==> p.totalCalories - p.meals[|p.meals| - 1].calories < maxCalories)
  {
    var a := DailyAllocation(meals, mealsPerDay, maxCalories, pick);
    LastPickBound(0, Picks(a.outcomes), maxCalories);
  }

  /** The day's running total before each of its meals was below the ceiling. */
  lemma {:induction false} DailyPlanPrefixes(meals: seq<Meal>, mealsPerDay: int, maxCalories: int, pick: nat -> nat)
    ensures var p := GenerateDailyPlan(meals, mealsPerDay, maxCalories, pick);
      forall i :: 0 <= i < |p.meals| ==> Sum(p.meals[..i]) < maxCalories
  {
    var p := GenerateDailyPlan(meals, mealsPerDay, maxCalories, pick);
    DailyPlanCeiling(meals, mealsPerDay, maxCalories, pick);
    AddedBelowPrefixes(0, p.meals, maxCalories);
  }

  /** Every meal the slots took has the type of one of the layout's slots. */
  lemma {:induction false} PickedTypes(meals: seq<Meal>, mealsPerDay: int, maxCalories: int, outcomes: seq<SlotOutcome>)
    requires |outcomes| == |SlotTable(mealsPerDay)|
    requires forall i :: 0 <= i < |outcomes| ==> SlotDone(SlotTable(mealsPerDay)[i], outcomes[i], maxCalories)
    requires forall i :: 0 <= i < |outcomes| ==> outcomes[i].bucket == OfType(meals, outcomes[i].mealType)
    ensures forall m :: m in Picks(outcomes) ==> m.mealType in SlotTypes(SlotTable(mealsPerDay))
  {
    forall m | m in Picks(outcomes)
      ensures m.mealType in SlotTypes(SlotTable(mealsPerDay))
    {
      PicksMember(outcomes, m);
      var i :| 0 <= i < |outcomes| && m in outcomes[i].picked;
      assert SlotDone(SlotTable(mealsPerDay)[i], outcomes[i], maxCalories);
      OfTypeContents(meals, outcomes[i].mealType);
      assert m in multiset(outcomes[i].bucket);
      assert m in OfType(meals, outcomes[i].mealType);
    }
  }

  /** Each meal was taken below the ceiling, so the total minus the last meal is below it. */
  lemma {:induction false} LastPickBound(base: int, picked: seq<Meal>, maxCalories: int)
    requires AddedBelow(base, picked, maxCalories)
    ensures |picked| > 0 ==> base + Sum(picked) - picked[|picked| - 1].calories < maxCalories
    decreases |picked|
  {
    if |picked| > 1 {
      LastPickBound(base + picked[0].calories, picked[1..], maxCalories);
    }
  }
}
