/** `select_meal_close_to_calorie_target`: a stable sort of the candidates by distance from a
    calorie target, then a choice among the closest few. */
module Selection {
  import opened Wrappers
  import opened Catalog

  /** How many of the closest meals the random choice ranges over. */
  const TopN: nat := 3

  /** The sort key `abs(meal.calories - calorie_target)`. */
  function Distance(m: Meal, target: real): real
  {
    var c := m.calories as real;
    if c >= target then c - target else target - c
  }

  predicate Sorted(s: seq<Meal>, target: real)
  {
    forall i, j :: 0 <= i < j < |s| ==> Distance(s[i], target) <= Distance(s[j], target)
  }

  /** The meals lying exactly `d` away from the target, in their order in `s`. */
  function AtDistance(s: seq<Meal>, target: real, d: real): seq<Meal>
    decreases |s|
  {
    if |s| == 0 then []
    else (if Distance(s[0], target) == d then [s[0]] else []) + AtDistance(s[1..], target, d)
  }

  /** How many meals of `s` lie strictly closer to the target than `d`. */
  function CloserCount(s: seq<Meal>, target: real, d: real): nat
    decreases |s|
  {
    if |s| == 0 then 0
    else (if Distance(s[0], target) < d then 1 else 0) + CloserCount(s[1..], target, d)
  }

  /** How many meals of `s` lie no farther from the target than `d`. */
  function NoFartherCount(s: seq<Meal>, target: real, d: real): nat
    decreases |s|
  {
    if |s| == 0 then 0
    else (if Distance(s[0], target) <= d then 1 else 0) + NoFartherCount(s[1..], target, d)
  }

  /** Places `m` into `s` ahead of the first meal that is at least as far away; in a sorted `s`
      this puts `m` before the meals it ties with. */
  function Insert(m: Meal, s: seq<Meal>, target: real): seq<Meal>
    decreases |s|
  {
    if |s| == 0 then [m]
    else if Distance(m, target) <= Distance(s[0], target) then [m] + s
    else [s[0]] + Insert(m, s[1..], target)
  }

  /** Inserting adds exactly `m`. */
  lemma {:induction false} InsertElements(m: Meal, s: seq<Meal>, target: real)
    ensures |Insert(m, s, target)| == |s| + 1
    ensures multiset(Insert(m, s, target)) == multiset(s) + multiset{m}
    decreases |s|
  {
    if |s| > 0 && Distance(m, target) > Distance(s[0], target) {
      InsertElements(m, s[1..], target);
      assert s == [s[0]] + s[1..];
    }
  }

  /** Inserting a meal at least `d` away among meals at least `d` away keeps them all so. */
  lemma {:induction false} InsertLowerBound(m: Meal, s: seq<Meal>, target: real, d: real)
    requires Distance(m, target) >= d
    requires forall j :: 0 <= j < |s| ==> Distance(s[j], target) >= d
    ensures forall j :: 0 <= j < |Insert(m, s, target)| ==> Distance(Insert(m, s, target)[j], target) >= d
    decreases |s|
  {
    if |s| > 0 && Distance(m, target) > Distance(s[0], target) {
      InsertLowerBound(m, s[1..], target, d);
      var r := Insert(m, s, target);
      forall j | 1 <= j < |r|
        ensures r[j] == Insert(m, s[1..], target)[j - 1]
      {
      }
    }
  }

  /** Inserting into a sorted sequence keeps it sorted. */
  lemma {:induction false} InsertSorted(m: Meal, s: seq<Meal>, target: real)
    requires Sorted(s, target)
    ensures Sorted(Insert(m, s, target), target)
    decreases |s|
  {
    if |s| > 0 && Distance(m, target) > Distance(s[0], target) {
      var rest := Insert(m, s[1..], target);
      InsertSorted(m, s[1..], target);
      forall j | 0 <= j < |s[1..]|
        ensures Distance(s[1..][j], target) >= Distance(s[0], target)
      {
        assert s[1..][j] == s[j + 1];
      }
      InsertLowerBound(m, s[1..], target, Distance(s[0], target));
      var r := [s[0]] + rest;
      forall i, j | 0 <= i < j < |r|
        ensures Distance(r[i], target) <= Distance(r[j], target)
      {
        if i > 0 {
          assert r[i] == rest[i - 1] && r[j] == rest[j - 1];
        } else {
          assert r[j] == rest[j - 1];
        }
      }
    }
  }

  /** `sorted(meals, key=distance)`: ordered by distance, a permutation of the input, and stable,
      i.e. the meals tied at any one distance keep their input order. */
  function SortByDistance(s: seq<Meal>, target: real): (r: seq<Meal>)
    ensures Sorted(r, target)
    ensures |r| == |s|
    ensures multiset(r) == multiset(s)
    ensures forall d :: AtDistance(r, target, d) == AtDistance(s, target, d)
    decreases |s|
  {
    if |s| == 0 then []
    else
      var rest := SortByDistance(s[1..], target);
      SortStep(s, rest, target);
      Insert(s[0], rest, target)
  }

  /** The inductive step of `SortByDistance`: inserting the head into the sorted tail. */
  lemma {:induction false} SortStep(s: seq<Meal>, rest: seq<Meal>, target: real)
    requires |s| > 0 && Sorted(rest, target)
    requires |rest| == |s| - 1 && multiset(rest) == multiset(s[1..])
    requires forall d :: AtDistance(rest, target, d) == AtDistance(s[1..], target, d)
    ensures Sorted(Insert(s[0], rest, target), target)
    ensures |Insert(s[0], rest, target)| == |s|
    ensures multiset(Insert(s[0], rest, target)) == multiset(s)
    ensures forall d :: AtDistance(Insert(s[0], rest, target), target, d) == AtDistance(s, target, d)
  {
    InsertSorted(s[0], rest, target);
    InsertElements(s[0], rest, target);
    SortStepStable(s, rest, target);
    assert s == [s[0]] + s[1..];
  }

  /** Inserting keeps the meals at each distance in the order they have in `[m] + s`. */
  lemma {:induction false} InsertAtDistance(m: Meal, s: seq<Meal>, target: real, d: real)
    ensures AtDistance(Insert(m, s, target), target, d) == AtDistance([m] + s, target, d)
    decreases |s|
  {
    if |s| > 0 && Distance(m, target) > Distance(s[0], target) {
      var rest := Insert(m, s[1..], target);
      var tail := AtDistance(s[1..], target, d);
      InsertAtDistance(m, s[1..], target, d);
      AtDistanceCons(s[0], rest, target, d);
      AtDistanceCons(m, s[1..], target, d);
      AtDistanceCons(m, s, target, d);
      AtDistanceCons(s[0], s[1..], target, d);
      assert s == [s[0]] + s[1..];
      if Distance(s[0], target) == d {
        assert AtDistance(rest, target, d) == tail;
        assert AtDistance(s, target, d) == [s[0]] + tail;
      } else if Distance(m, target) == d {
        assert AtDistance(rest, target, d) == [m] + tail;
        assert AtDistance(s, target, d) == tail;
      } else {
        assert AtDistance(rest, target, d) == tail;
        assert AtDistance(s, target, d) == tail;
      }
    }
  }

  /** The meals at distance `d` of `[x] + s`: `x` if it lies there, then those of `s`. */
  lemma {:induction false} AtDistanceCons(x: Meal, s: seq<Meal>, target: real, d: real)
    ensures AtDistance([x] + s, target, d)
         == (if Distance(x, target) == d then [x] else []) + AtDistance(s, target, d)
  {
    assert ([x] + s)[1..] == s;
  }

  /** One step of the insertion sort is stable when the sorted tail is. */
  lemma {:induction false} SortStepStable(s: seq<Meal>, rest: seq<Meal>, target: real)
    requires |s| > 0
    requires forall d :: AtDistance(rest, target, d) == AtDistance(s[1..], target, d)
    ensures forall d :: AtDistance(Insert(s[0], rest, target), target, d) == AtDistance(s, target, d)
  {
    forall d
      ensures AtDistance(Insert(s[0], rest, target), target, d) == AtDistance(s, target, d)
    {
      InsertAtDistance(s[0], rest, target, d);
      assert ([s[0]] + rest)[1..] == rest;
    }
  }

  /** Inserting does not change how many meals lie within (or strictly within) a distance. */
  lemma {:induction false} InsertCounts(m: Meal, s: seq<Meal>, target: real, d: real)
    ensures CloserCount(Insert(m, s, target), target, d) == CloserCount([m] + s, target, d)
    ensures NoFartherCount(Insert(m, s, target), target, d) == NoFartherCount([m] + s, target, d)
    decreases |s|
  {
    assert ([m] + s)[1..] == s;
    if |s| > 0 && Distance(m, target) > Distance(s[0], target) {
      var rest := Insert(m, s[1..], target);
      InsertCounts(m, s[1..], target, d);
      assert ([s[0]] + rest)[1..] == rest;
      assert ([m] + s[1..])[1..] == s[1..];
    }
  }

  /** Sorting does not change how many meals lie within (or strictly within) a distance. */
  lemma {:induction false} SortCounts(s: seq<Meal>, target: real, d: real)
    ensures CloserCount(SortByDistance(s, target), target, d) == CloserCount(s, target, d)
    ensures NoFartherCount(SortByDistance(s, target), target, d) == NoFartherCount(s, target, d)
    decreases |s|
  {
    if |s| > 0 {
      var rest := SortByDistance(s[1..], target);
      SortCounts(s[1..], target, d);
      InsertCounts(s[0], rest, target, d);
      assert ([s[0]] + rest)[1..] == rest;
    }
  }

  /** If no meal from position `k` on is closer than `d`, at most `k` meals are. */
  lemma {:induction false} CloserBound(s: seq<Meal>, target: real, d: real, k: nat)
    requires k <= |s|
    requires forall j :: k <= j < |s| ==> Distance(s[j], target) >= d
    ensures CloserCount(s, target, d) <= k
    decreases |s|
  {
    if |s| > 0 {
      if k == 0 {
        CloserBound(s[1..], target, d, 0);
      } else {
        CloserBound(s[1..], target, d, k - 1);
      }
    }
  }

  /** If the meals up to position `k` all lie within `d`, more than `k` meals do. */
  lemma {:induction false} NoFartherBound(s: seq<Meal>, target: real, d: real, k: nat)
    requires k < |s|
    requires forall j :: 0 <= j <= k ==> Distance(s[j], target) <= d
    ensures NoFartherCount(s, target, d) > k
    decreases |s|
  {
    if k > 0 {
      NoFartherBound(s[1..], target, d, k - 1);
    }
  }

  /** The selector with the random pick made explicit as `k`, an index into the closest
      `min(3, |meals|)` meals: nothing exactly when there are no meals; otherwise a meal of the
      input such that at most `k` input meals are strictly closer to the target (so fewer than
      three) and more than `k` are at most as far. Among the meals tied at its distance it is
      the one, in input order, that the stable sort puts at position `k`. */
  function Select(meals: seq<Meal>, target: real, k: nat): (r: Option<Meal>)
    requires |meals| > 0 ==> k < Min(TopN, |meals|)
    ensures r.None? <==> |meals| == 0
    ensures r.Some? ==> r.value in meals
    ensures r.Some? ==> CloserCount(meals, target, Distance(r.value, target)) <= k < TopN
    ensures r.Some? ==> NoFartherCount(meals, target, Distance(r.value, target)) > k
    ensures r.Some? ==> TiedAt(meals, target, r.value, k - CloserCount(meals, target, Distance(r.value, target)))
  {
    if |meals| == 0 then None
    else
      var sorted := SortByDistance(meals, target);
      var top := sorted[..Min(TopN, |meals|)];
      SortedRank(meals, target, k);
      Some(top[k])
  }

  /** `m` is the meal at index `j` among the meals of `s` lying as far from the target as `m`. */
  predicate TiedAt(s: seq<Meal>, target: real, m: Meal, j: int)
  {
    0 <= j < |AtDistance(s, target, Distance(m, target))| && AtDistance(s, target, Distance(m, target))[j] == m
  }

  /** The meal at position `k` of the sorted candidates comes from the input, has at most `k`
      input meals strictly closer and more than `k` at most as far, and is the one of its tied
      input meals that follows the strictly closer ones up to position `k`. */
  lemma {:induction false} SortedRank(meals: seq<Meal>, target: real, k: nat)
    requires k < |meals|
    ensures var m := SortByDistance(meals, target)[k];
      && m in meals
      && CloserCount(meals, target, Distance(m, target)) <= k
      && NoFartherCount(meals, target, Distance(m, target)) > k
      && TiedAt(meals, target, m, k - CloserCount(meals, target, Distance(m, target)))
  {
    var sorted := SortByDistance(meals, target);
    var m := sorted[k];
    var d := Distance(m, target);
    assert m in multiset(sorted);
    CloserBound(sorted, target, d, k);
    NoFartherBound(sorted, target, d, k);
    SortCounts(meals, target, d);
    SortedAt(sorted, target, k);
    assert AtDistance(sorted, target, d) == AtDistance(meals, target, d);
  }

  /** In a sorted sequence the meal at position `k` comes after the meals strictly closer than
      it, so it is the tied meal at index `k` minus their number. */
  lemma {:induction false} SortedAt(s: seq<Meal>, target: real, k: nat)
    requires Sorted(s, target) && k < |s|
    ensures CloserCount(s, target, Distance(s[k], target)) <= k
    ensures TiedAt(s, target, s[k], k - CloserCount(s, target, Distance(s[k], target)))
    decreases k
  {
    var d := Distance(s[k], target);
    if k == 0 {
      CloserBound(s, target, d, 0);
    } else {
      var t := s[1..];
      assert t[k - 1] == s[k];
      assert Sorted(t, target) by {
        forall i, j | 0 <= i < j < |t|
          ensures Distance(t[i], target) <= Distance(t[j], target)
        {
          assert t[i] == s[i + 1] && t[j] == s[j + 1];
        }
      }
      SortedAt(t, target, k - 1);
      assert Distance(s[0], target) <= d;
    }
  }

  /** When every meal lies equally far from the target, the stable sort keeps the input order,
      so the choice with index `k` is the input's `k`-th meal: a tied meal beyond the first
      three is never chosen. */
  lemma {:induction false} AllTiedSelect(meals: seq<Meal>, target: real, k: nat)
    requires |meals| > 0 && k < Min(TopN, |meals|)
    requires forall j :: 0 <= j < |meals| ==> Distance(meals[j], target) == Distance(meals[0], target)
    ensures Select(meals, target, k) == Some(meals[k])
  {
    var d := Distance(meals[0], target);
    var m := Select(meals, target, k).value;
    assert m in meals;
    assert Distance(m, target) == d;
    CloserBound(meals, target, d, 0);
    AllAtDistance(meals, target, d);
    assert CloserCount(meals, target, Distance(m, target)) == 0;
    assert TiedAt(meals, target, m, k);
  }

  /** The meals at distance `d` of a sequence whose meals all lie at `d` are the whole sequence. */
  lemma {:induction false} AllAtDistance(s: seq<Meal>, target: real, d: real)
    requires forall j :: 0 <= j < |s| ==> Distance(s[j], target) == d
    ensures AtDistance(s, target, d) == s
    decreases |s|
  {
    if |s| > 0 {
      assert forall j :: 0 <= j < |s[1..]| ==> s[1..][j] == s[j + 1];
      AllAtDistance(s[1..], target, d);
    }
  }
}
