/**
 * The gap pass's greedy balancer: each desired rule that no group holds is
 * handed to the group with the lowest current rule count, whose count then
 * goes up by one before the next rule is placed.
 */
module Balancer {
  import opened Enumerations

  /**
   * Per-group add-sets and rule counts, the two dicts the gap pass updates;
   * `G` is the type of group ids and `R` that of rules.
   */
  datatype Tally<G, R> = Tally(add: map<G, set<R>>, counts: map<G, int>)

  /** Both dicts have an entry for every configured group. */
  predicate Covers<G, R>(ids: seq<G>, t: Tally<G, R>) {
    forall g :: g in ids ==> g in t.add && g in t.counts
  }

  /**
   * Position of the group `min(counts, key = counts.get)` picks. Python 2
   * breaks ties in dict order, which is arbitrary; the model takes the
   * first least-loaded group in configured order.
   */
  function FirstMin<G>(ids: seq<G>, counts: map<G, int>): (k: nat)
    requires |ids| > 0
    requires forall g :: g in ids ==> g in counts
    ensures k < |ids|
    ensures forall j :: 0 <= j < |ids| ==> counts[ids[k]] <= counts[ids[j]]
    ensures forall j :: 0 <= j < k ==> counts[ids[k]] < counts[ids[j]]
  {
    if |ids| == 1 then 0
    else
      var k := FirstMin(ids[1..], counts);
      if counts[ids[0]] <= counts[ids[1..][k]] then 0 else k + 1
  }

  /** One iteration of the gap loop: place `x` in the least-loaded group. */
  function Step<G, R>(ids: seq<G>, t: Tally<G, R>, x: R): Tally<G, R>
    requires |ids| > 0 && Covers(ids, t)
  {
    var g := ids[FirstMin(ids, t.counts)];
    Tally(t.add[g := t.add[g] + {x}], t.counts[g := t.counts[g] + 1])
  }

  /** The gap loop run over the rules of `order`, first to last, from `t`. */
  function Assign<G, R>(ids: seq<G>, t: Tally<G, R>, order: seq<R>): (r: Tally<G, R>)
    requires |ids| > 0 || order == []
    requires Covers(ids, t)
    ensures Covers(ids, r)
    ensures r.add.Keys == t.add.Keys && r.counts.Keys == t.counts.Keys
    decreases |order|
  {
    if order == [] then t
    else Step(ids, Assign(ids, t, order[..|order| - 1]), order[|order| - 1])
  }

  /** A step placing `x` in `g`, the group `FirstMin` picks. */
  lemma StepIs<G, R>(ids: seq<G>, t: Tally<G, R>, x: R, g: G)
    requires |ids| > 0 && Covers(ids, t) && g == ids[FirstMin(ids, t.counts)]
    ensures Step(ids, t, x) == Tally(t.add[g := t.add[g] + {x}], t.counts[g := t.counts[g] + 1])
  {
  }

  /** Placing one more rule is one more step of the fold. */
  lemma AssignSnoc<G, R>(ids: seq<G>, t: Tally<G, R>, order: seq<R>, x: R)
    requires |ids| > 0 && Covers(ids, t)
    ensures Assign(ids, t, order + [x]) == Step(ids, Assign(ids, t, order), x)
  {
    assert (order + [x])[..|order|] == order;
  }

  /**
   * The rule goes to a group whose count is minimal at that moment, that
   * group gains the rule and one count, and no other group changes.
   */
  lemma StepGoesToLeastLoaded<G, R>(ids: seq<G>, t: Tally<G, R>, x: R)
    requires |ids| > 0 && Covers(ids, t)
    ensures var g, r := ids[FirstMin(ids, t.counts)], Step(ids, t, x);
      && g in ids
      && (forall h :: h in ids ==> t.counts[g] <= t.counts[h])
      && r.counts[g] == t.counts[g] + 1
      && r.add[g] == t.add[g] + {x}
      && (forall h :: h in t.counts && h != g ==> h in r.counts && r.counts[h] == t.counts[h])
      && (forall h :: h in t.add && h != g ==> h in r.add && r.add[h] == t.add[h])
  {
    var k := FirstMin(ids, t.counts);
    forall h | h in ids ensures t.counts[ids[k]] <= t.counts[h] {
      var j :| 0 <= j < |ids| && ids[j] == h;
    }
  }

  // ---------------------------------------------------------------------
  // Sums of counts.

  /** Sum of the counts of the configured groups. */
  function Total<G>(ids: seq<G>, counts: map<G, int>): int
    requires forall g :: g in ids ==> g in counts
  {
    if ids == [] then 0 else counts[ids[0]] + Total(ids[1..], counts)
  }

  lemma {:induction false} TotalBump<G>(ids: seq<G>, counts: map<G, int>, g: G)
    requires Distinct(ids)
    requires forall h :: h in ids ==> h in counts
    requires g in counts
    ensures Total(ids, counts[g := counts[g] + 1]) == Total(ids, counts) + (if g in ids then 1 else 0)
  {
    if ids != [] {
      assert Distinct(ids[1..]);
      TotalBump(ids[1..], counts, g);
      assert g in ids[1..] ==> g != ids[0];
      assert g in ids <==> g == ids[0] || g in ids[1..];
    }
  }

  /** The last rule of `order` raises one configured group's count by one. */
  lemma LastBump<G, R>(ids: seq<G>, t: Tally<G, R>, order: seq<R>) returns (g: G)
    requires |ids| > 0 && Covers(ids, t) && order != []
    ensures var prev := Assign(ids, t, order[..|order| - 1]).counts;
      g in ids && Assign(ids, t, order).counts == prev[g := prev[g] + 1]
  {
    var prev := Assign(ids, t, order[..|order| - 1]);
    g := ids[FirstMin(ids, prev.counts)];
    StepIs(ids, prev, order[|order| - 1], g);
  }

  /** After the gap pass the counts add up to those before plus the number of gap rules. */
  lemma {:induction false} AssignTotal<G, R>(ids: seq<G>, t: Tally<G, R>, order: seq<R>)
    requires |ids| > 0 && Distinct(ids) && Covers(ids, t)
    ensures Total(ids, Assign(ids, t, order).counts) == Total(ids, t.counts) + |order|
    decreases |order|
  {
    if order != [] {
      var init := order[..|order| - 1];
      var prev := Assign(ids, t, init).counts;
      AssignTotal(ids, t, init);
      var g := LastBump(ids, t, order);
      TotalBump(ids, prev, g);
      assert Total(ids, prev[g := prev[g] + 1]) == Total(ids, prev) + 1;
    }
  }

  // ---------------------------------------------------------------------
  // Balance.

  /** No two configured groups' counts differ by more than `bound`. */
  predicate WithinSpread<G>(ids: seq<G>, counts: map<G, int>, bound: int)
    requires forall g :: g in ids ==> g in counts
  {
    forall i, j :: 0 <= i < |ids| && 0 <= j < |ids| ==> counts[ids[i]] - counts[ids[j]] <= bound
  }

  /** Placing one rule never widens a spread of at least one. */
  lemma StepKeepsSpread<G, R>(ids: seq<G>, t: Tally<G, R>, x: R, bound: int)
    requires |ids| > 0 && Covers(ids, t) && bound >= 1
    requires WithinSpread(ids, t.counts, bound)
    ensures WithinSpread(ids, Step(ids, t, x).counts, bound)
  {
    var k := FirstMin(ids, t.counts);
    var r := Step(ids, t, x);
    forall i, j | 0 <= i < |ids| && 0 <= j < |ids| ensures r.counts[ids[i]] - r.counts[ids[j]] <= bound {
      assert r.counts[ids[i]] == t.counts[ids[i]] + (if ids[i] == ids[k] then 1 else 0);
      assert r.counts[ids[j]] == t.counts[ids[j]] + (if ids[j] == ids[k] then 1 else 0);
      assert t.counts[ids[k]] <= t.counts[ids[i]] && t.counts[ids[k]] <= t.counts[ids[j]];
    }
  }

  /**
   * The greedy pass keeps counts within any spread of at least one that
   * held before it; from equal counts, max - min <= 1 afterwards.
   */
  lemma {:induction false} AssignKeepsSpread<G, R>(ids: seq<G>, t: Tally<G, R>, order: seq<R>, bound: int)
    requires |ids| > 0 && Covers(ids, t) && bound >= 1
    requires WithinSpread(ids, t.counts, bound)
    ensures WithinSpread(ids, Assign(ids, t, order).counts, bound)
    decreases |order|
  {
    if order != [] {
      AssignKeepsSpread(ids, t, order[..|order| - 1], bound);
      StepKeepsSpread(ids, Assign(ids, t, order[..|order| - 1]), order[|order| - 1], bound);
    }
  }

  /** Equal starting counts end within one of each other. */
  lemma EqualCountsStayBalanced<G, R>(ids: seq<G>, t: Tally<G, R>, order: seq<R>)
    requires |ids| > 0 && Covers(ids, t)
    requires forall g, h :: g in ids && h in ids ==> t.counts[g] == t.counts[h]
    ensures WithinSpread(ids, Assign(ids, t, order).counts, 1)
  {
    AssignKeepsSpread(ids, t, order, 1);
  }

  // ---------------------------------------------------------------------
  // The add-sets.

  /** Every add-set holds only rules of `placed`. */
  ghost predicate AddsWithin<G, R>(ids: seq<G>, add: map<G, set<R>>, placed: set<R>)
    requires forall g :: g in ids ==> g in add
  {
    forall g :: g in ids ==> add[g] <= placed
  }

  /** Every rule of `placed` is in some add-set. */
  ghost predicate AddsCover<G, R>(ids: seq<G>, add: map<G, set<R>>, placed: set<R>)
    requires forall g :: g in ids ==> g in add
  {
    forall x :: x in placed ==> exists g :: g in ids && x in add[g]
  }

  /** No rule is in the add-sets of two groups. */
  ghost predicate AddsDisjoint<G, R>(ids: seq<G>, add: map<G, set<R>>)
    requires forall g :: g in ids ==> g in add
  {
    forall g, h :: g in ids && h in ids && g != h ==> add[g] !! add[h]
  }

  /** Each count has grown from `base` by the size of the group's add-set. */
  ghost predicate CountsMatch<G, R>(ids: seq<G>, base: map<G, int>, r: Tally<G, R>)
    requires Covers(ids, r)
    requires forall g :: g in ids ==> g in base
  {
    forall g :: g in ids ==> r.counts[g] == base[g] + |r.add[g]|
  }

  /**
   * The add-sets of `r` split `placed` among the groups, and each count has
   * grown from `base` by the size of the group's add-set.
   */
  ghost predicate Partitions<G, R>(ids: seq<G>, base: map<G, int>, r: Tally<G, R>, placed: set<R>)
    requires Covers(ids, r)
    requires forall g :: g in ids ==> g in base
  {
    && AddsWithin(ids, r.add, placed)
    && AddsCover(ids, r.add, placed)
    && AddsDisjoint(ids, r.add)
    && CountsMatch(ids, base, r)
  }

  lemma BumpWithin<G, R>(ids: seq<G>, add: map<G, set<R>>, placed: set<R>, x: R, g: G)
    requires (forall h :: h in ids ==> h in add) && g in ids
    requires AddsWithin(ids, add, placed)
    ensures AddsWithin(ids, add[g := add[g] + {x}], placed + {x})
  {
  }

  lemma BumpCover<G, R>(ids: seq<G>, add: map<G, set<R>>, placed: set<R>, x: R, g: G)
    requires (forall h :: h in ids ==> h in add) && g in ids
    requires AddsCover(ids, add, placed)
    ensures AddsCover(ids, add[g := add[g] + {x}], placed + {x})
  {
    var add' := add[g := add[g] + {x}];
    forall y | y in placed + {x} ensures exists h :: h in ids && y in add'[h] {
      if y == x {
        assert x in add'[g];
      } else {
        var h :| h in ids && y in add[h];
        assert y in add'[h];
      }
    }
  }

  lemma BumpDisjoint<G, R>(ids: seq<G>, add: map<G, set<R>>, placed: set<R>, x: R, g: G)
    requires (forall h :: h in ids ==> h in add) && g in ids
    requires AddsWithin(ids, add, placed) && AddsDisjoint(ids, add) && x !in placed
    ensures AddsDisjoint(ids, add[g := add[g] + {x}])
  {
    var add' := add[g := add[g] + {x}];
    forall h1, h2 | h1 in ids && h2 in ids && h1 != h2 ensures add'[h1] !! add'[h2] {
      assert add[h1] !! add[h2];
      assert add[h1] <= placed && add[h2] <= placed;
    }
  }

  lemma BumpCounts<G, R>(ids: seq<G>, base: map<G, int>, prev: Tally<G, R>, placed: set<R>, x: R, g: G)
    requires Covers(ids, prev) && g in ids
    requires forall h :: h in ids ==> h in base
    requires AddsWithin(ids, prev.add, placed) && CountsMatch(ids, base, prev) && x !in placed
    ensures CountsMatch(ids, base, Tally(prev.add[g := prev.add[g] + {x}], prev.counts[g := prev.counts[g] + 1]))
  {
    var r := Tally(prev.add[g := prev.add[g] + {x}], prev.counts[g := prev.counts[g] + 1]);
    forall h | h in ids ensures r.counts[h] == base[h] + |r.add[h]| {
      assert prev.counts[h] == base[h] + |prev.add[h]|;
      if h == g {
        assert prev.add[g] <= placed;
        assert |r.add[g]| == |prev.add[g]| + 1;
      }
    }
  }

  /** Adding a fresh rule to one group's add-set and count extends a partition by that rule. */
  lemma BumpPartitions<G, R>(ids: seq<G>, base: map<G, int>, prev: Tally<G, R>, placed: set<R>, x: R, g: G)
    requires Covers(ids, prev) && g in ids
    requires forall h :: h in ids ==> h in base
    requires Partitions(ids, base, prev, placed) && x !in placed
    ensures Covers(ids, Tally(prev.add[g := prev.add[g] + {x}], prev.counts[g := prev.counts[g] + 1]))
    ensures Partitions(ids, base, Tally(prev.add[g := prev.add[g] + {x}], prev.counts[g := prev.counts[g] + 1]), placed + {x})
  {
    BumpWithin(ids, prev.add, placed, x, g);
    BumpCover(ids, prev.add, placed, x, g);
    BumpDisjoint(ids, prev.add, placed, x, g);
    BumpCounts(ids, base, prev, placed, x, g);
  }

  /**
   * Starting from empty add-sets, the gap pass over an order without
   * repetitions partitions the order's rules among the groups.
   */
  lemma {:induction false} AssignPartitions<G, R>(ids: seq<G>, t: Tally<G, R>, order: seq<R>)
    requires |ids| > 0 && Covers(ids, t) && Distinct(order)
    requires forall g :: g in ids ==> t.add[g] == {}
    ensures Partitions(ids, t.counts, Assign(ids, t, order), Elements(order))
    decreases |order|
  {
    if order == [] {
      assert Elements(order) == {};
      assert AddsWithin(ids, t.add, {});
      assert AddsCover(ids, t.add, {});
      assert AddsDisjoint(ids, t.add);
      assert CountsMatch(ids, t.counts, t);
    } else {
      var init, x := order[..|order| - 1], order[|order| - 1];
      DistinctSnoc(order);
      AssignPartitions(ids, t, init);
      var prev := Assign(ids, t, init);
      var g := ids[FirstMin(ids, prev.counts)];
      assert Assign(ids, t, order) == Tally(prev.add[g := prev.add[g] + {x}], prev.counts[g := prev.counts[g] + 1]);
      BumpPartitions(ids, t.counts, prev, Elements(init), x, g);
    }
  }
}
