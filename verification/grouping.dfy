/** The catalog partitioner `group_meals_by_type`: an insertion-ordered dictionary from meal
    type to the meals of that type, written as a list of buckets. */
module Grouping {
  import opened Catalog

  /** One dictionary entry: a meal type and its list of meals. */
  datatype Bucket = Bucket(mealType: string, meals: seq<Meal>)

  /** The keys of the dictionary, in insertion order. */
  function Types(g: seq<Bucket>): seq<string>
    decreases |g|
  {
    if |g| == 0 then [] else [g[0].mealType] + Types(g[1..])
  }

  predicate DistinctTypes(g: seq<Bucket>)
  {
    forall i, j :: 0 <= i < j < |g| ==> g[i].mealType != g[j].mealType
  }

  /** All meals of all buckets, bucket by bucket. */
  function Flatten(g: seq<Bucket>): seq<Meal>
    decreases |g|
  {
    if |g| == 0 then [] else g[0].meals + Flatten(g[1..])
  }

  predicate HasType(meals: seq<Meal>, t: string)
  {
    exists i :: 0 <= i < |meals| && meals[i].mealType == t
  }

  /** The position of the first meal of type `t`, or the length of `meals` when there is none. */
  function FirstIndex(meals: seq<Meal>, t: string): (k: nat)
    ensures k <= |meals|
    ensures k < |meals| ==> meals[k].mealType == t
    decreases |meals|
  {
    if |meals| == 0 then 0
    else if meals[0].mealType == t then 0
    else 1 + FirstIndex(meals[1..], t)
  }

  /** A meal of type `t` at position `j` bounds the first position of `t` from above. */
  lemma {:induction false} FirstIndexBefore(meals: seq<Meal>, t: string, j: nat)
    requires j < |meals| && meals[j].mealType == t
    ensures FirstIndex(meals, t) <= j
    decreases j
  {
    if meals[0].mealType != t {
      FirstIndexBefore(meals[1..], t, j - 1);
    }
  }

  /** No meal before the first position of `t` has type `t`. */
  lemma {:induction false} FirstIndexMinimal(meals: seq<Meal>, t: string)
    ensures forall j :: 0 <= j < FirstIndex(meals, t) ==> meals[j].mealType != t
  {
    forall j | 0 <= j < FirstIndex(meals, t)
      ensures meals[j].mealType != t
    {
      if meals[j].mealType == t {
        FirstIndexBefore(meals, t, j);
      }
    }
  }

  /** `meals_by_type.get(t, [])`: the meals of the first bucket keyed `t`, or none. */
  function Lookup(g: seq<Bucket>, t: string): seq<Meal>
    decreases |g|
  {
    if |g| == 0 then []
    else if g[0].mealType == t then g[0].meals
    else Lookup(g[1..], t)
  }

  /** The dictionary after the list stored under `t` has become `x`; a missing key stays missing,
      since the default list handed out by `get` is never stored. */
  function Update(g: seq<Bucket>, t: string, x: seq<Meal>): seq<Bucket>
    decreases |g|
  {
    if |g| == 0 then []
    else if g[0].mealType == t then [Bucket(t, x)] + g[1..]
    else [g[0]] + Update(g[1..], t, x)
  }

  /** One iteration of the grouping loop: append `m` to the list of its type, creating the list
      at the end of the dictionary when the type is new. */
  function AddToGroups(g: seq<Bucket>, m: Meal): seq<Bucket>
    decreases |g|
  {
    if |g| == 0 then [Bucket(m.mealType, [m])]
    else if g[0].mealType == m.mealType then [Bucket(g[0].mealType, g[0].meals + [m])] + g[1..]
    else [g[0]] + AddToGroups(g[1..], m)
  }

  lemma {:induction false} TypesIndex(g: seq<Bucket>)
    ensures |Types(g)| == |g|
    ensures forall i :: 0 <= i < |g| ==> Types(g)[i] == g[i].mealType
    decreases |g|
  {
    if |g| > 0 {
      TypesIndex(g[1..]);
    }
  }

  /** Adding a meal keeps every existing key in place, and adds its type as a new last key
      holding just that meal when the type was not a key yet. */
  lemma {:induction false} AddToGroupsShape(g: seq<Bucket>, m: Meal)
    ensures var r := AddToGroups(g, m);
      && (m.mealType in Types(g) ==> |r| == |g|)
      && (m.mealType !in Types(g) ==> |r| == |g| + 1 && r[|g|] == Bucket(m.mealType, [m]))
      && (forall i :: 0 <= i < |g| ==> r[i].mealType == g[i].mealType)
    decreases |g|
  {
    if |g| > 0 && g[0].mealType != m.mealType {
      AddToGroupsShape(g[1..], m);
      TypesIndex(g);
      TypesIndex(g[1..]);
      assert m.mealType in Types(g) <==> m.mealType in Types(g[1..]);
    }
  }

  /** With distinct keys, adding a meal appends it to the list of its own type only. */
  lemma {:induction false} AddToGroupsMeals(g: seq<Bucket>, m: Meal)
    requires DistinctTypes(g)
    ensures |AddToGroups(g, m)| >= |g|
    ensures forall i :: 0 <= i < |g| ==>
      AddToGroups(g, m)[i].meals == g[i].meals + (if g[i].mealType == m.mealType then [m] else [])
    decreases |g|
  {
    if |g| > 0 && g[0].mealType != m.mealType {
      AddToGroupsMeals(g[1..], m);
      var r := AddToGroups(g, m);
      assert r[1..] == AddToGroups(g[1..], m);
      forall i | 1 <= i < |g|
        ensures r[i].meals == g[i].meals + (if g[i].mealType == m.mealType then [m] else [])
      {
        assert r[i] == r[1..][i - 1] && g[i] == g[1..][i - 1];
      }
    }
  }

  /** Adding a meal adds exactly that meal to the flattened dictionary. */
  lemma {:induction false} AddToGroupsFlatten(g: seq<Bucket>, m: Meal)
    ensures multiset(Flatten(AddToGroups(g, m))) == multiset(Flatten(g)) + multiset{m}
    decreases |g|
  {
    var r := AddToGroups(g, m);
    if |g| == 0 {
      assert Flatten(r) == [m] + Flatten([]);
    } else if g[0].mealType == m.mealType {
      assert r[1..] == g[1..];
      assert Flatten(r) == (g[0].meals + [m]) + Flatten(g[1..]);
    } else {
      AddToGroupsFlatten(g[1..], m);
      assert r[1..] == AddToGroups(g[1..], m);
      assert Flatten(r) == g[0].meals + Flatten(r[1..]);
    }
  }

  lemma {:induction false} FirstIndexExtend(meals: seq<Meal>, m: Meal, t: string)
    requires HasType(meals, t)
    ensures FirstIndex(meals, t) < |meals|
    ensures FirstIndex(meals + [m], t) == FirstIndex(meals, t)
    decreases |meals|
  {
    var i :| 0 <= i < |meals| && meals[i].mealType == t;
    FirstIndexBefore(meals, t, i);
    if meals[0].mealType != t {
      assert meals[1..][i - 1] == meals[i];
      FirstIndexExtend(meals[1..], m, t);
      assert (meals + [m])[1..] == meals[1..] + [m];
    }
  }

  /** A list with no meal of type `t` has nothing of that type to keep. */
  lemma {:induction false} OfTypeNone(meals: seq<Meal>, t: string)
    requires forall x :: x in meals ==> x.mealType != t
    ensures OfType(meals, t) == []
    decreases |meals|
  {
    if |meals| > 0 {
      var init := meals[..|meals| - 1];
      assert forall x :: x in init ==> x in meals;
      OfTypeNone(init, t);
      assert meals[|meals| - 1] in meals;
    }
  }

  /** `group_meals_by_type`: the keys are distinct and every meal's type is one of them. */
  function GroupByType(meals: seq<Meal>): (g: seq<Bucket>)
    ensures DistinctTypes(g)
    ensures forall m :: m in meals ==> m.mealType in Types(g)
    decreases |meals|
  {
    if |meals| == 0 then []
    else
      var init := meals[..|meals| - 1];
      var m := meals[|meals| - 1];
      var g0 := GroupByType(init);
      SplitLast(meals);
      StepKeys(init, m, g0);
      AddToGroups(g0, m)
  }

  /** The last meal of a non-empty catalog is added to the grouping of the others. */
  lemma {:induction false} GroupByTypeLast(meals: seq<Meal>)
    requires |meals| > 0
    ensures GroupByType(meals) == AddToGroups(GroupByType(meals[..|meals| - 1]), meals[|meals| - 1])
  {
  }

  /** Each list of the grouping is the catalog restricted to its key, in catalog order. */
  lemma {:induction false} GroupedLists(meals: seq<Meal>)
    ensures forall i :: 0 <= i < |GroupByType(meals)| ==>
      GroupByType(meals)[i].meals == OfType(meals, GroupByType(meals)[i].mealType)
    decreases |meals|
  {
    if |meals| > 0 {
      var init := meals[..|meals| - 1];
      GroupedLists(init);
      GroupByTypeLast(meals);
      StepMeals(meals, meals[|meals| - 1], GroupByType(init));
    }
  }

  /** Every key is the type of some meal, and the keys are ordered by first appearance. */
  lemma {:induction false} GroupedOrder(meals: seq<Meal>)
    ensures forall i :: 0 <= i < |GroupByType(meals)| ==> HasType(meals, GroupByType(meals)[i].mealType)
    ensures forall i, j :: 0 <= i < j < |GroupByType(meals)| ==>
      FirstIndex(meals, GroupByType(meals)[i].mealType) < FirstIndex(meals, GroupByType(meals)[j].mealType)
    decreases |meals|
  {
    if |meals| > 0 {
      var init := meals[..|meals| - 1];
      GroupedOrder(init);
      GroupByTypeLast(meals);
      StepOrder(meals, meals[|meals| - 1], GroupByType(init));
    }
  }

  /** Together the lists hold exactly the catalog's meals. */
  lemma {:induction false} GroupedPermutation(meals: seq<Meal>)
    ensures multiset(Flatten(GroupByType(meals))) == multiset(meals)
    decreases |meals|
  {
    if |meals| > 0 {
      var init := meals[..|meals| - 1];
      GroupedPermutation(init);
      GroupByTypeLast(meals);
      PermutationStep(meals, GroupByType(init));
    }
  }

  /** Inductive step of `GroupedPermutation`. */
  lemma {:induction false} PermutationStep(meals: seq<Meal>, g0: seq<Bucket>)
    requires |meals| > 0
    requires multiset(Flatten(g0)) == multiset(meals[..|meals| - 1])
    ensures multiset(Flatten(AddToGroups(g0, meals[|meals| - 1]))) == multiset(meals)
  {
    AddToGroupsFlatten(g0, meals[|meals| - 1]);
    assert meals == meals[..|meals| - 1] + [meals[|meals| - 1]];
  }

  /** Inductive step of `GroupByType` for the keys: they stay distinct and cover the new meal. */
  lemma {:induction false} StepKeys(init: seq<Meal>, m: Meal, g0: seq<Bucket>)
    requires DistinctTypes(g0)
    requires forall x :: x in init ==> x.mealType in Types(g0)
    ensures DistinctTypes(AddToGroups(g0, m))
    ensures forall x :: x in init + [m] ==> x.mealType in Types(AddToGroups(g0, m))
  {
    StepDistinct(g0, m);
    StepCovers(init, m, g0);
  }

  /** Adding a meal keeps the keys distinct. */
  lemma {:induction false} StepDistinct(g0: seq<Bucket>, m: Meal)
    requires DistinctTypes(g0)
    ensures DistinctTypes(AddToGroups(g0, m))
  {
    var g := AddToGroups(g0, m);
    AddToGroupsShape(g0, m);
    TypesIndex(g0);
    forall i, j | 0 <= i < j < |g|
      ensures g[i].mealType != g[j].mealType
    {
      if j == |g0| {
        assert Types(g0)[i] == g0[i].mealType;
      }
    }
  }

  /** After adding a meal, every meal seen so far has its type among the keys. */
  lemma {:induction false} StepCovers(init: seq<Meal>, m: Meal, g0: seq<Bucket>)
    requires forall x :: x in init ==> x.mealType in Types(g0)
    ensures forall x :: x in init + [m] ==> x.mealType in Types(AddToGroups(g0, m))
  {
    var g := AddToGroups(g0, m);
    AddToGroupsShape(g0, m);
    TypesIndex(g0);
    TypesIndex(g);
    forall x | x in init + [m]
      ensures x.mealType in Types(g)
    {
      if x.mealType in Types(g0) {
        var i :| 0 <= i < |g0| && Types(g0)[i] == x.mealType;
        assert Types(g)[i] == x.mealType;
      } else {
        assert x == m;
        assert Types(g)[|g0|] == x.mealType;
      }
    }
  }

  /** Inductive step of `GroupByType` for the lists: each is the input restricted to its key. */
  lemma {:induction false} StepMeals(meals: seq<Meal>, m: Meal, g0: seq<Bucket>)
    requires |meals| > 0 && m == meals[|meals| - 1]
    requires DistinctTypes(g0)
    requires forall i :: 0 <= i < |g0| ==> g0[i].meals == OfType(meals[..|meals| - 1], g0[i].mealType)
    requires forall x :: x in meals[..|meals| - 1] ==> x.mealType in Types(g0)
    ensures forall i :: 0 <= i < |AddToGroups(g0, m)| ==>
      AddToGroups(g0, m)[i].meals == OfType(meals, AddToGroups(g0, m)[i].mealType)
  {
    var init := meals[..|meals| - 1];
    var g := AddToGroups(g0, m);
    AddToGroupsShape(g0, m);
    AddToGroupsMeals(g0, m);
    if m.mealType !in Types(g0) {
      forall x | x in init
        ensures x.mealType != m.mealType
      {
      }
      OfTypeNone(init, m.mealType);
    }
    forall i | 0 <= i < |g|
      ensures g[i].meals == OfType(meals, g[i].mealType)
    {
      var t := g[i].mealType;
      assert OfType(meals, t) == OfType(init, t) + (if m.mealType == t then [m] else []);
      if i < |g0| {
        assert g[i].meals == g0[i].meals + (if g0[i].mealType == m.mealType then [m] else []);
      } else {
        assert g[i] == Bucket(m.mealType, [m]);
      }
    }
  }

  /** Inductive step of `GroupByType` for the key order: old keys keep their first positions and
      a new key first appears at the last position. */
  lemma {:induction false} StepOrder(meals: seq<Meal>, m: Meal, g0: seq<Bucket>)
    requires |meals| > 0 && m == meals[|meals| - 1]
    requires forall i :: 0 <= i < |g0| ==> HasType(meals[..|meals| - 1], g0[i].mealType)
    requires forall x :: x in meals[..|meals| - 1] ==> x.mealType in Types(g0)
    requires forall i, j :: 0 <= i < j < |g0| ==>
      FirstIndex(meals[..|meals| - 1], g0[i].mealType) < FirstIndex(meals[..|meals| - 1], g0[j].mealType)
    ensures forall i :: 0 <= i < |AddToGroups(g0, m)| ==> HasType(meals, AddToGroups(g0, m)[i].mealType)
    ensures forall i, j :: 0 <= i < j < |AddToGroups(g0, m)| ==>
      FirstIndex(meals, AddToGroups(g0, m)[i].mealType) < FirstIndex(meals, AddToGroups(g0, m)[j].mealType)
  {
    var init := meals[..|meals| - 1];
    var g := AddToGroups(g0, m);
    SplitLast(meals);
    StepOrderOld(init, m, g0);
    StepOrderNew(init, m, g0);
    forall i | 0 <= i < |g|
      ensures HasType(meals, g[i].mealType)
    {
      if i < |g0| {
        assert g[i].mealType == g0[i].mealType;
      }
    }
    forall i, j | 0 <= i < j < |g|
      ensures FirstIndex(meals, g[i].mealType) < FirstIndex(meals, g[j].mealType)
    {
      assert g[i].mealType == g0[i].mealType;
      assert FirstIndex(meals, g[i].mealType) == FirstIndex(init, g0[i].mealType) < |init|;
      if j < |g0| {
        assert g[j].mealType == g0[j].mealType;
        assert FirstIndex(meals, g[j].mealType) == FirstIndex(init, g0[j].mealType);
      } else {
        assert j == |g0| && g[j].mealType == m.mealType;
      }
    }
  }

  /** The keys already present keep their first positions when a meal is appended. */
  lemma {:induction false} StepOrderOld(init: seq<Meal>, m: Meal, g0: seq<Bucket>)
    requires forall i :: 0 <= i < |g0| ==> HasType(init, g0[i].mealType)
    ensures |AddToGroups(g0, m)| >= |g0|
    ensures forall i :: 0 <= i < |g0| ==>
      && AddToGroups(g0, m)[i].mealType == g0[i].mealType
      && HasType(init + [m], g0[i].mealType)
      && FirstIndex(init + [m], g0[i].mealType) == FirstIndex(init, g0[i].mealType) < |init|
  {
    AddToGroupsShape(g0, m);
    forall i | 0 <= i < |g0|
      ensures HasType(init + [m], g0[i].mealType)
      ensures FirstIndex(init + [m], g0[i].mealType) == FirstIndex(init, g0[i].mealType) < |init|
    {
      FirstIndexExtend(init, m, g0[i].mealType);
      var k :| 0 <= k < |init| && init[k].mealType == g0[i].mealType;
      assert (init + [m])[k] == init[k];
    }
  }

  /** A new key is added last, and its first position is the appended meal's. */
  lemma {:induction false} StepOrderNew(init: seq<Meal>, m: Meal, g0: seq<Bucket>)
    requires forall x :: x in init ==> x.mealType in Types(g0)
    ensures |AddToGroups(g0, m)| == |g0| || |AddToGroups(g0, m)| == |g0| + 1
    ensures |AddToGroups(g0, m)| == |g0| + 1 ==>
      && AddToGroups(g0, m)[|g0|].mealType == m.mealType
      && HasType(init + [m], m.mealType)
      && FirstIndex(init + [m], m.mealType) == |init|
  {
    AddToGroupsShape(g0, m);
    var meals := init + [m];
    if m.mealType !in Types(g0) {
      assert meals[|init|] == m;
      FirstIndexBefore(meals, m.mealType, |init|);
    }
  }

  lemma {:induction false} LookupAt(g: seq<Bucket>, i: nat, t: string)
    requires i < |g| && g[i].mealType == t
    requires forall j :: 0 <= j < i ==> g[j].mealType != t
    ensures Lookup(g, t) == g[i].meals
    decreases i
  {
    if i > 0 {
      LookupAt(g[1..], i - 1, t);
    }
  }

  lemma {:induction false} LookupMissing(g: seq<Bucket>, t: string)
    requires t !in Types(g)
    ensures Lookup(g, t) == []
    decreases |g|
  {
    if |g| > 0 {
      LookupMissing(g[1..], t);
    }
  }

  /** Looking a type up in the grouped catalog gives the catalog's meals of that type, in
      catalog order, and nothing for a type no meal has. */
  lemma {:induction false} LookupGrouped(meals: seq<Meal>, t: string)
    ensures Lookup(GroupByType(meals), t) == OfType(meals, t)
  {
    var g := GroupByType(meals);
    GroupedLists(meals);
    TypesIndex(g);
    if t in Types(g) {
      var i :| 0 <= i < |g| && Types(g)[i] == t;
      LookupAt(g, i, t);
    } else {
      LookupMissing(g, t);
      OfTypeNone(meals, t);
    }
  }

  /** The grouped lists together are as long as the catalog. */
  lemma {:induction false} GroupedSizes(meals: seq<Meal>)
    ensures |Flatten(GroupByType(meals))| == |meals|
  {
    var g := GroupByType(meals);
    GroupedPermutation(meals);
    assert |multiset(Flatten(g))| == |multiset(meals)|;
  }

  /** Replacing the list under `t` by `x` trades the old list's meals for those of `x`. */
  lemma {:induction false} UpdateFlatten(g: seq<Bucket>, t: string, x: seq<Meal>)
    requires Lookup(g, t) == [] ==> x == []
    ensures multiset(Flatten(Update(g, t, x))) + multiset(Lookup(g, t)) == multiset(Flatten(g)) + multiset(x)
    decreases |g|
  {
    if |g| > 0 {
      var u := Update(g, t, x);
      if g[0].mealType == t {
        assert u[1..] == g[1..];
        assert Flatten(u) == x + Flatten(g[1..]);
        assert Flatten(g) == g[0].meals + Flatten(g[1..]);
      } else {
        UpdateFlatten(g[1..], t, x);
        assert u[1..] == Update(g[1..], t, x);
        var a, b, c := multiset(g[0].meals), multiset(Flatten(u[1..])), multiset(Flatten(g[1..]));
        assert b + multiset(Lookup(g, t)) == c + multiset(x);
        assert multiset(Flatten(u)) == a + b;
        assert multiset(Flatten(g)) == a + c;
        assert (a + b) + multiset(Lookup(g, t)) == a + (b + multiset(Lookup(g, t)));
        assert a + (c + multiset(x)) == (a + c) + multiset(x);
      }
    }
  }

  /** Replacing the list under one key leaves the lookup of every other key unchanged. */
  lemma {:induction false} LookupUpdateOther(g: seq<Bucket>, t: string, u: string, x: seq<Meal>)
    requires t != u
    ensures Lookup(Update(g, u, x), t) == Lookup(g, t)
    decreases |g|
  {
    if |g| > 0 {
      if g[0].mealType == u {
        assert Update(g, u, x)[1..] == g[1..];
      } else {
        LookupUpdateOther(g[1..], t, u, x);
        assert Update(g, u, x)[1..] == Update(g[1..], u, x);
      }
    }
  }

  /** Storing back the very list found under `t` changes nothing. */
  lemma {:induction false} UpdateLookup(g: seq<Bucket>, t: string)
    ensures Update(g, t, Lookup(g, t)) == g
    decreases |g|
  {
    if |g| > 0 {
      if g[0].mealType == t {
        assert [Bucket(t, g[0].meals)] + g[1..] == g;
      } else {
        UpdateLookup(g[1..], t);
        assert [g[0]] + g[1..] == g;
      }
    }
  }
}
