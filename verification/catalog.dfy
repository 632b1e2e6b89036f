/** Catalog rows as stored, the meal records built from them, and the candidate filter of
    `generate_diet`. */
module Catalog {
  import opened Wrappers
  import Text

  /** A row of the `meals` table: the ingredient column is one comma-separated string and the
      meal type may be NULL. */
  datatype Row = Row(id: int, name: string, ingredients: string, calories: int, mealType: Option<string>)

  /** A candidate meal: the ingredient list is already split and the meal type is always set. */
  datatype Meal = Meal(id: int, name: string, ingredients: seq<string>, calories: int, mealType: string)

  /** The meal type given to rows whose type column is NULL. */
  const DefaultType: string := "default_type"

  const IngredientSeparator: char := ','

  /** The meal record built for a catalog row. */
  function ToMeal(row: Row): Meal
  {
    Meal(row.id, row.name, Text.Split(row.ingredients, IngredientSeparator), row.calories,
         if row.mealType.Some? then row.mealType.value else DefaultType)
  }

  /** A row's meal record keeps the row's id, name and calories; cuts its ingredient column at
      the commas into comma-free pieces that join back into the column; and takes its meal type,
      or `default_type` when the column is NULL. */
  lemma {:induction false} ToMealFields(row: Row)
    ensures var m := ToMeal(row);
      && m.id == row.id && m.name == row.name && m.calories == row.calories
      && |m.ingredients| >= 1 && Text.Join(m.ingredients, IngredientSeparator) == row.ingredients
      && (forall i :: 0 <= i < |m.ingredients| ==> IngredientSeparator !in m.ingredients[i])
      && (row.mealType.None? ==> m.mealType == DefaultType)
      && (row.mealType.Some? ==> m.mealType == row.mealType.value)
  {
  }

  /** Whether some preferred ingredient occurs in `ingredients`, scanning the preferences in
      order and stopping at the first hit. */
  function AnyPreferred(preferred: seq<string>, ingredients: seq<string>): (b: bool)
    ensures b <==> exists i :: 0 <= i < |preferred| && preferred[i] in ingredients
    decreases |preferred|
  {
    if |preferred| == 0 then false
    else if preferred[0] in ingredients then true
    else
      var b := AnyPreferred(preferred[1..], ingredients);
      assert forall i :: 1 <= i < |preferred| ==> preferred[i] == preferred[1..][i - 1];
      b
  }

  /** A row is a candidate when it shares an ingredient with the preferences and does not exceed
      the calorie ceiling on its own. */
  predicate Suitable(row: Row, preferred: seq<string>, maxCalories: int)
  {
    AnyPreferred(preferred, Text.Split(row.ingredients, IngredientSeparator)) && row.calories <= maxCalories
  }

  /** A row is suitable exactly when one of the preferences is an ingredient of its meal record
      and its calories are within the ceiling. */
  lemma {:induction false} SuitableIff(row: Row, preferred: seq<string>, maxCalories: int)
    ensures Suitable(row, preferred, maxCalories)
        <==> (exists i :: 0 <= i < |preferred| && preferred[i] in ToMeal(row).ingredients)
             && row.calories <= maxCalories
  {
  }

  /** The candidate meals, in catalog order. */
  function FilterSuitable(rows: seq<Row>, preferred: seq<string>, maxCalories: int): seq<Meal>
    decreases |rows|
  {
    if |rows| == 0 then []
    else
      var rest := FilterSuitable(rows[1..], preferred, maxCalories);
      if Suitable(rows[0], preferred, maxCalories) then [ToMeal(rows[0])] + rest else rest
  }

  /** The candidates are the suitable rows' meals: every suitable row's meal is a candidate and
      every candidate is some suitable row's meal, none above the ceiling, no more candidates
      than rows, and none at all exactly when no row is suitable. */
  lemma {:induction false} FilterSuitableContents(rows: seq<Row>, preferred: seq<string>, maxCalories: int)
    ensures var r := FilterSuitable(rows, preferred, maxCalories);
      && |r| <= |rows|
      && (forall row :: row in rows && Suitable(row, preferred, maxCalories) ==> ToMeal(row) in r)
      && (forall m :: m in r ==> exists row :: row in rows && Suitable(row, preferred, maxCalories) && m == ToMeal(row))
      && (forall m :: m in r ==> m.calories <= maxCalories)
      && (r == [] <==> forall row :: row in rows ==> !Suitable(row, preferred, maxCalories))
    decreases |rows|
  {
    if |rows| > 0 {
      FilterSuitableContents(rows[1..], preferred, maxCalories);
      FilterStep(rows, preferred, maxCalories, FilterSuitable(rows[1..], preferred, maxCalories),
                 FilterSuitable(rows, preferred, maxCalories));
    }
  }

  /** The inductive step of `FilterSuitable`: keeping or dropping the first row. */
  lemma {:induction false} FilterStep(rows: seq<Row>, preferred: seq<string>, maxCalories: int,
                                      rest: seq<Meal>, r: seq<Meal>)
    requires |rows| > 0 && |rest| <= |rows| - 1
    requires forall row :: row in rows[1..] && Suitable(row, preferred, maxCalories) ==> ToMeal(row) in rest
    requires forall m :: m in rest ==> exists row :: row in rows[1..] && Suitable(row, preferred, maxCalories) && m == ToMeal(row)
    requires forall m :: m in rest ==> m.calories <= maxCalories
    requires rest == [] <==> forall row :: row in rows[1..] ==> !Suitable(row, preferred, maxCalories)
    requires r == if Suitable(rows[0], preferred, maxCalories) then [ToMeal(rows[0])] + rest else rest
    ensures |r| <= |rows|
    ensures forall row :: row in rows && Suitable(row, preferred, maxCalories) ==> ToMeal(row) in r
    ensures forall m :: m in r ==> exists row :: row in rows && Suitable(row, preferred, maxCalories) && m == ToMeal(row)
    ensures forall m :: m in r ==> m.calories <= maxCalories
    ensures r == [] <==> forall row :: row in rows ==> !Suitable(row, preferred, maxCalories)
  {
    assert forall row :: row in rows[1..] ==> row in rows;
    assert forall row :: row in rows ==> row == rows[0] || row in rows[1..];
  }

  /** How many rows of `rows` are suitable. */
  function SuitableCount(rows: seq<Row>, preferred: seq<string>, maxCalories: int): nat
    decreases |rows|
  {
    if |rows| == 0 then 0
    else (if Suitable(rows[0], preferred, maxCalories) then 1 else 0) + SuitableCount(rows[1..], preferred, maxCalories)
  }

  /** The candidates are exactly the suitable rows' meals, one per suitable row, in catalog
      order: there are as many candidates as suitable rows, and the meal of the suitable row at
      index `i` is the candidate at position "number of suitable rows before `i`". */
  lemma {:induction false} FilterSuitableOrder(rows: seq<Row>, preferred: seq<string>, maxCalories: int)
    ensures |FilterSuitable(rows, preferred, maxCalories)| == SuitableCount(rows, preferred, maxCalories)
    ensures forall i :: 0 <= i < |rows| && Suitable(rows[i], preferred, maxCalories) ==>
      && SuitableCount(rows[..i], preferred, maxCalories) < |FilterSuitable(rows, preferred, maxCalories)|
      && FilterSuitable(rows, preferred, maxCalories)[SuitableCount(rows[..i], preferred, maxCalories)] == ToMeal(rows[i])
  {
    FilterSuitableLength(rows, preferred, maxCalories);
    forall i | 0 <= i < |rows| && Suitable(rows[i], preferred, maxCalories)
      ensures SuitableCount(rows[..i], preferred, maxCalories) < |FilterSuitable(rows, preferred, maxCalories)|
      ensures FilterSuitable(rows, preferred, maxCalories)[SuitableCount(rows[..i], preferred, maxCalories)] == ToMeal(rows[i])
    {
      FilterSuitableAt(rows, preferred, maxCalories, i);
    }
  }

  /** There are as many candidates as suitable rows. */
  lemma {:induction false} FilterSuitableLength(rows: seq<Row>, preferred: seq<string>, maxCalories: int)
    ensures |FilterSuitable(rows, preferred, maxCalories)| == SuitableCount(rows, preferred, maxCalories)
    decreases |rows|
  {
    if |rows| > 0 {
      FilterSuitableLength(rows[1..], preferred, maxCalories);
    }
  }

  /** The suitable row at index `i` gives the candidate after those of the suitable rows before it. */
  lemma {:induction false} FilterSuitableAt(rows: seq<Row>, preferred: seq<string>, maxCalories: int, i: nat)
    requires i < |rows| && Suitable(rows[i], preferred, maxCalories)
    ensures SuitableCount(rows[..i], preferred, maxCalories) < |FilterSuitable(rows, preferred, maxCalories)|
    ensures FilterSuitable(rows, preferred, maxCalories)[SuitableCount(rows[..i], preferred, maxCalories)] == ToMeal(rows[i])
    decreases i
  {
    var keep := Suitable(rows[0], preferred, maxCalories);
    var rest := FilterSuitable(rows[1..], preferred, maxCalories);
    if i == 0 {
      assert rows[..0] == [];
    } else {
      FilterSuitableAt(rows[1..], preferred, maxCalories, i - 1);
      SuitableCountPrefix(rows, preferred, maxCalories, i);
      assert rows[1..][i - 1] == rows[i];
      ShiftIndex(FilterSuitable(rows, preferred, maxCalories), rest, keep, ToMeal(rows[0]),
                 SuitableCount(rows[..i], preferred, maxCalories),
                 SuitableCount(rows[1..][..i - 1], preferred, maxCalories), ToMeal(rows[i]));
    }
  }

  /** Putting at most one meal in front of a list moves its positions up by that many. */
  lemma {:induction false} ShiftIndex(r: seq<Meal>, rest: seq<Meal>, keep: bool, first: Meal, n: nat, c: nat, m: Meal)
    requires r == (if keep then [first] + rest else rest)
    requires n == (if keep then 1 else 0) + c
    requires c < |rest| && rest[c] == m
    ensures n < |r| && r[n] == m
  {
  }

  /** Counting the suitable rows before index `i` counts the first row, then those of the rest
      before index `i - 1`. */
  lemma {:induction false} SuitableCountPrefix(rows: seq<Row>, preferred: seq<string>, maxCalories: int, i: nat)
    requires 0 < i <= |rows|
    ensures SuitableCount(rows[..i], preferred, maxCalories)
         == (if Suitable(rows[0], preferred, maxCalories) then 1 else 0)
            + SuitableCount(rows[1..][..i - 1], preferred, maxCalories)
  {
    DropTake(rows, i);
  }

  /** Dropping the head of a prefix is taking a prefix of the tail. */
  lemma {:induction false} DropTake(rows: seq<Row>, i: nat)
    requires 0 < i <= |rows|
    ensures rows[..i][1..] == rows[1..][..i - 1]
  {
  }

  /** The meals of `meals` whose type is `t`, in their original order. */
  function OfType(meals: seq<Meal>, t: string): seq<Meal>
    decreases |meals|
  {
    if |meals| == 0 then []
    else OfType(meals[..|meals| - 1], t) + (if meals[|meals| - 1].mealType == t then [meals[|meals| - 1]] else [])
  }

  /** Total calories of a sequence of meals. */
  function Sum(meals: seq<Meal>): int
    decreases |meals|
  {
    if |meals| == 0 then 0 else meals[0].calories + Sum(meals[1..])
  }

  /** `OfType` keeps exactly the meals of type `t`, each as often as it occurs. */
  lemma {:induction false} OfTypeContents(meals: seq<Meal>, t: string)
    ensures forall m :: m in OfType(meals, t) ==> m.mealType == t
    ensures forall m: Meal :: m.mealType == t ==> multiset(OfType(meals, t))[m] == multiset(meals)[m]
    ensures multiset(OfType(meals, t)) <= multiset(meals)
    decreases |meals|
  {
    if |meals| > 0 {
      var init, x := meals[..|meals| - 1], meals[|meals| - 1];
      var o := OfType(init, t);
      OfTypeContents(init, t);
      SplitLast(meals);
      assert multiset(meals) == multiset(init) + multiset{x};
      if x.mealType == t {
        assert OfType(meals, t) == o + [x];
        assert multiset(OfType(meals, t)) == multiset(o) + multiset{x};
      } else {
        assert OfType(meals, t) == o;
      }
    }
  }

  /** A non-empty sequence is its prefix followed by its last element. */
  lemma {:induction false} SplitLast(meals: seq<Meal>)
    requires |meals| > 0
    ensures meals == meals[..|meals| - 1] + [meals[|meals| - 1]]
  {
  }

  lemma {:induction false} SumAppend(a: seq<Meal>, b: seq<Meal>)
    ensures Sum(a + b) == Sum(a) + Sum(b)
    decreases |a|
  {
    if |a| > 0 {
      assert (a + b)[1..] == a[1..] + b;
      SumAppend(a[1..], b);
    } else {
      assert a + b == b;
    }
  }
}
