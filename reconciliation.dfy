/**
 * What one run of the reconciler decides, as functions of the desired
 * rules, the configured group list and each group's managed rules: the
 * orphans to revoke, the rule counts, the gap, its greedy assignment to
 * groups, and the revoke and authorize calls that follow. `G` is the type
 * of group ids and `R` that of rules.
 */
module Reconciliation {
  import opened Enumerations
  import opened Balancer

  /** A read result for every configured group. */
  predicate HasReads<G, R>(ids: seq<G>, actual: map<G, set<R>>) {
    forall g :: g in ids ==> g in actual
  }

  /** The global set: every rule some configured group holds. */
  function Seen<G, R>(ids: seq<G>, actual: map<G, set<R>>): set<R>
    requires HasReads(ids, actual)
  {
    set g, x | g in ids && x in actual[g] :: x
  }

  /** A rule is in the global set exactly when some configured group holds it. */
  lemma SeenMembers<G, R>(ids: seq<G>, actual: map<G, set<R>>)
    requires HasReads(ids, actual)
    ensures forall x :: x in Seen(ids, actual) <==> exists g :: g in ids && x in actual[g]
  {
  }

  /** Desired rules that no group holds. */
  function Gap<G, R>(ids: seq<G>, actual: map<G, set<R>>, desired: set<R>): set<R>
    requires HasReads(ids, actual)
  {
    desired - Seen(ids, actual)
  }

  /** The remove-sets once the groups of `done` have been read: orphans for those, empty for the rest. */
  function RemovePrefix<G, R>(ids: seq<G>, done: seq<G>, actual: map<G, set<R>>, desired: set<R>): map<G, set<R>>
    requires HasReads(done, actual)
  {
    map g | g in ids :: if g in done then actual[g] - desired else {}
  }

  /** Each group's orphans: managed rules that are not desired. */
  function RemoveSets<G, R>(ids: seq<G>, actual: map<G, set<R>>, desired: set<R>): map<G, set<R>>
    requires HasReads(ids, actual)
  {
    map g | g in ids :: actual[g] - desired
  }

  /** The count recorded for each group read so far: its rules minus its orphans. */
  function StartCounts<G, R>(ids: seq<G>, actual: map<G, set<R>>, desired: set<R>): map<G, int>
    requires HasReads(ids, actual)
  {
    map g | g in ids :: |actual[g]| - |actual[g] - desired|
  }

  /** An empty set of rules for every configured group: the start of the remove-sets and of the add-sets. */
  function EmptySets<G, R>(ids: seq<G>): map<G, set<R>> {
    map g | g in ids :: {}
  }

  /** The state the gap pass starts from. */
  function StartTally<G, R>(ids: seq<G>, actual: map<G, set<R>>, desired: set<R>): (t: Tally<G, R>)
    requires HasReads(ids, actual)
    ensures Covers(ids, t)
  {
    Tally(EmptySets(ids), StartCounts(ids, actual, desired))
  }

  /** A run's decisions: per-group remove-sets and add-sets, and the final counts. */
  datatype Plan<G, R> = Plan(remove: map<G, set<R>>, add: map<G, set<R>>, counts: map<G, int>)

  /** Every configured group has an entry in all three dicts. */
  predicate PlanCovers<G, R>(ids: seq<G>, p: Plan<G, R>) {
    forall g :: g in ids ==> g in p.remove && g in p.add && g in p.counts
  }

  /** The plan of a run whose gap pass visits the gap in `order`. */
  function MakePlan<G, R>(ids: seq<G>, actual: map<G, set<R>>, desired: set<R>, order: seq<R>): (p: Plan<G, R>)
    requires HasReads(ids, actual)
    requires |ids| > 0 || order == []
    ensures PlanCovers(ids, p)
  {
    var t := Assign(ids, StartTally(ids, actual, desired), order);
    Plan(RemoveSets(ids, actual, desired), t.add, t.counts)
  }

  /** Each group's managed rules once the plan is applied: `(actual - orphan) + add`. */
  function Reconciled<G, R>(ids: seq<G>, actual: map<G, set<R>>, p: Plan<G, R>): (m: map<G, set<R>>)
    requires HasReads(ids, actual) && PlanCovers(ids, p)
    ensures HasReads(ids, m)
  {
    map g | g in ids :: (actual[g] - p.remove[g]) + p.add[g]
  }

  /** Some group has something to revoke or to authorize (`update_applied`). */
  predicate UpdateNeeded<G, R>(ids: seq<G>, p: Plan<G, R>)
    requires PlanCovers(ids, p)
  {
    exists g :: g in ids && (p.remove[g] != {} || p.add[g] != {})
  }

  // ---------------------------------------------------------------------
  // The read loop, one group at a time.

  lemma RemovePrefixStart<G, R>(ids: seq<G>, actual: map<G, set<R>>, desired: set<R>)
    ensures RemovePrefix(ids, [], actual, desired) == EmptySets(ids)
  {
  }

  /** Reading one more group sets its remove-set when it has orphans; an empty one stays as it was. */
  lemma RemovePrefixStep<G, R>(ids: seq<G>, done: seq<G>, g: G, actual: map<G, set<R>>, desired: set<R>)
    requires HasReads(done + [g], actual) && g in ids && g !in done
    ensures var before := RemovePrefix(ids, done, actual, desired);
      RemovePrefix(ids, done + [g], actual, desired) ==
        if actual[g] - desired != {} then before[g := actual[g] - desired] else before
  {
    var before := RemovePrefix(ids, done, actual, desired);
    var after := RemovePrefix(ids, done + [g], actual, desired);
    assert forall h :: h in done + [g] <==> h in done || h == g;
    if actual[g] - desired != {} {
      assert after == before[g := actual[g] - desired];
    } else {
      assert after == before;
    }
  }

  lemma RemovePrefixDone<G, R>(ids: seq<G>, actual: map<G, set<R>>, desired: set<R>)
    requires HasReads(ids, actual)
    ensures RemovePrefix(ids, ids, actual, desired) == RemoveSets(ids, actual, desired)
  {
  }

  lemma StartCountsStep<G, R>(done: seq<G>, g: G, actual: map<G, set<R>>, desired: set<R>)
    requires HasReads(done + [g], actual)
    ensures StartCounts(done + [g], actual, desired) ==
      StartCounts(done, actual, desired)[g := |actual[g]| - |actual[g] - desired|]
  {
    assert forall h :: h in done + [g] <==> h in done || h == g;
  }

  lemma SeenStep<G, R>(done: seq<G>, g: G, actual: map<G, set<R>>)
    requires HasReads(done + [g], actual)
    ensures Seen(done + [g], actual) == Seen(done, actual) + actual[g]
  {
    assert forall h :: h in done + [g] <==> h in done || h == g;
  }

  /** Everything one iteration of the read loop changes, for the group at index `i`. */
  lemma ReadStep<G, R>(ids: seq<G>, i: nat, actual: map<G, set<R>>, desired: set<R>)
    requires Distinct(ids) && i < |ids| && HasReads(ids[..i + 1], actual)
    ensures HasReads(ids[..i], actual)
    ensures var g, done, orphan := ids[i], ids[..i], actual[ids[i]] - desired;
      var before := RemovePrefix(ids, done, actual, desired);
      var after := RemovePrefix(ids, ids[..i + 1], actual, desired);
      && after == (if orphan != {} then before[g := orphan] else before)
      && StartCounts(ids[..i + 1], actual, desired) == StartCounts(done, actual, desired)[g := |actual[g]| - |orphan|]
      && Seen(ids[..i + 1], actual) == Seen(done, actual) + actual[g]
      && CallsFor(true, ids[..i + 1], after) ==
           CallsFor(true, done, before) + (if orphan != {} then [Planned(true, g, orphan)] else [])
  {
    var g, done := ids[i], ids[..i];
    assert ids[..i + 1] == done + [g];
    assert forall h :: h in done ==> h in ids[..i + 1];
    assert g !in done by {
      assert forall j :: 0 <= j < i ==> done[j] == ids[j];
    }
    RemovePrefixStep(ids, done, g, actual, desired);
    StartCountsStep(done, g, actual, desired);
    SeenStep(done, g, actual);
    var before := RemovePrefix(ids, done, actual, desired);
    var after := RemovePrefix(ids, done + [g], actual, desired);
    CallsForAgree(true, done, before, after);
    CallsForStep(true, done, g, after);
  }

  /**
   * The read loop's state after the groups `ids[..i]`: the remove-sets,
   * counts and global set so far, the revoke calls made so far, and
   * whether any was made.
   */
  ghost predicate ReadLoop<G, R>(ids: seq<G>, i: nat, actual: map<G, set<R>>, desired: set<R>,
    remove: map<G, set<R>>, counts: map<G, int>, global: set<R>, revoked: bool, planned: seq<Planned<G, R>>)
  {
    && i <= |ids|
    && HasReads(ids[..i], actual)
    && remove == RemovePrefix(ids, ids[..i], actual, desired)
    && counts == StartCounts(ids[..i], actual, desired)
    && global == Seen(ids[..i], actual)
    && planned == CallsFor(true, ids[..i], remove)
    && (revoked <==> planned != [])
  }

  lemma ReadLoopStart<G, R>(ids: seq<G>, actual: map<G, set<R>>, desired: set<R>)
    ensures ReadLoop(ids, 0, actual, desired, EmptySets(ids), map[], {}, false, [])
  {
    assert ids[..0] == [];
  }

  /**
   * One iteration of the read loop: reading group `ids[i]` adds its orphans
   * to the remove-sets and to the revoke calls, its kept count to the
   * counts, and its rules to the global set.
   */
  lemma ReadLoopStep<G, R>(ids: seq<G>, i: nat, actual: map<G, set<R>>, desired: set<R>, read: set<R>, orphan: set<R>,
    remove: map<G, set<R>>, counts: map<G, int>, global: set<R>, revoked: bool, planned: seq<Planned<G, R>>)
    requires Distinct(ids) && i < |ids| && ids[i] in actual && read == actual[ids[i]] && orphan == read - desired
    requires ReadLoop(ids, i, actual, desired, remove, counts, global, revoked, planned)
    ensures ReadLoop(ids, i + 1, actual, desired,
      if orphan != {} then remove[ids[i] := orphan] else remove,
      counts[ids[i] := |read| - |orphan|],
      global + read,
      revoked || orphan != {},
      planned + if orphan != {} then [Planned(true, ids[i], orphan)] else [])
  {
    assert ids[..i + 1] == ids[..i] + [ids[i]];
    ReadStep(ids, i, actual, desired);
  }

  // ---------------------------------------------------------------------
  // Properties of a run.

  /** The recorded count, rules minus orphans, is the number of desired rules the group holds. */
  lemma KeptCount<G, R>(ids: seq<G>, actual: map<G, set<R>>, desired: set<R>, g: G)
    requires HasReads(ids, actual) && g in ids
    ensures StartCounts(ids, actual, desired)[g] == |actual[g] * desired|
  {
    var a := actual[g];
    assert a == (a - desired) + (a * desired);
    assert (a - desired) !! (a * desired);
  }

  /**
   * The add-sets split the gap among the groups: pairwise disjoint, their
   * union exactly the gap, and none holds a rule any group already held.
   */
  lemma AddsPartitionGap<G, R>(ids: seq<G>, actual: map<G, set<R>>, desired: set<R>, order: seq<R>)
    requires HasReads(ids, actual) && |ids| > 0
    requires IsEnumeration(order, Gap(ids, actual, desired))
    ensures var p := MakePlan(ids, actual, desired, order);
      && AddsWithin(ids, p.add, Gap(ids, actual, desired))
      && AddsCover(ids, p.add, Gap(ids, actual, desired))
      && AddsDisjoint(ids, p.add)
      && (forall g, h :: g in ids && h in ids ==> p.add[g] !! actual[h])
  {
    var t := StartTally(ids, actual, desired);
    var r := Assign(ids, t, order);
    AssignPartitions(ids, t, order);
    assert Partitions(ids, t.counts, r, Elements(order));
    var gap := Gap(ids, actual, desired);
    assert AddsWithin(ids, r.add, gap);
    SeenMembers(ids, actual);
    forall g, h | g in ids && h in ids ensures r.add[g] !! actual[h] {
      forall x | x in r.add[g] ensures x !in actual[h] {
        assert x in gap;
      }
    }
  }

  /** One group's size after the plan: what it kept plus what it gained, the two disjoint. */
  lemma FinalSize<R>(held: set<R>, desired: set<R>, added: set<R>, gap: set<R>, start: int, final: int)
    requires added <= gap && gap !! held
    requires start == |held| - |held - desired| && final == start + |added|
    ensures final == |(held - (held - desired)) + added|
  {
    assert held == (held - desired) + (held * desired);
    assert (held - desired) !! (held * desired);
    assert held - (held - desired) == held * desired;
    assert (held * desired) !! added;
  }

  /** No configured group holds a rule of the gap. */
  lemma GapIsUnheld<G, R>(ids: seq<G>, actual: map<G, set<R>>, desired: set<R>)
    requires HasReads(ids, actual)
    ensures forall g :: g in ids ==> Gap(ids, actual, desired) !! actual[g]
  {
    SeenMembers(ids, actual);
  }

  /**
   * After the gap pass each group's count is the number of managed rules
   * it holds once the plan is applied.
   */
  lemma CountsAreFinalSizes<G, R>(ids: seq<G>, actual: map<G, set<R>>, desired: set<R>, order: seq<R>)
    requires HasReads(ids, actual) && |ids| > 0
    requires IsEnumeration(order, Gap(ids, actual, desired))
    ensures var p := MakePlan(ids, actual, desired, order);
      forall g :: g in ids ==> p.counts[g] == |Reconciled(ids, actual, p)[g]|
  {
    var t := StartTally(ids, actual, desired);
    var r := Assign(ids, t, order);
    var gap := Gap(ids, actual, desired);
    AssignPartitions(ids, t, order);
    assert AddsWithin(ids, r.add, gap) && CountsMatch(ids, t.counts, r);
    GapIsUnheld(ids, actual, desired);
    var p := MakePlan(ids, actual, desired, order);
    assert p == Plan(RemoveSets(ids, actual, desired), r.add, r.counts);
    var after := Reconciled(ids, actual, p);
    forall g | g in ids ensures p.counts[g] == |after[g]| {
      FinalSize(actual[g], desired, r.add[g], gap, t.counts[g], r.counts[g]);
    }
  }

  /** Once applied, no group holds a rule that is not desired. */
  lemma OnlyDesiredRemain<G, R>(ids: seq<G>, actual: map<G, set<R>>, desired: set<R>, order: seq<R>)
    requires HasReads(ids, actual) && |ids| > 0
    requires IsEnumeration(order, Gap(ids, actual, desired))
    ensures var after := Reconciled(ids, actual, MakePlan(ids, actual, desired, order));
      forall g :: g in ids ==> after[g] <= desired
  {
    var p := MakePlan(ids, actual, desired, order);
    AddsPartitionGap(ids, actual, desired, order);
    var after := Reconciled(ids, actual, p);
    forall g | g in ids ensures after[g] <= desired {
      assert p.remove[g] == actual[g] - desired;
      assert p.add[g] <= Gap(ids, actual, desired);
    }
  }

  /** Once applied, every desired rule is held by some group. */
  lemma AllDesiredHeld<G, R>(ids: seq<G>, actual: map<G, set<R>>, desired: set<R>, order: seq<R>)
    requires HasReads(ids, actual) && |ids| > 0
    requires IsEnumeration(order, Gap(ids, actual, desired))
    ensures var after := Reconciled(ids, actual, MakePlan(ids, actual, desired, order));
      forall x :: x in desired ==> exists g :: g in ids && x in after[g]
  {
    var t := StartTally(ids, actual, desired);
    var r := Assign(ids, t, order);
    var gap := Gap(ids, actual, desired);
    AssignPartitions(ids, t, order);
    assert AddsCover(ids, r.add, gap);
    var p := MakePlan(ids, actual, desired, order);
    assert p == Plan(RemoveSets(ids, actual, desired), r.add, r.counts);
    var after := Reconciled(ids, actual, p);
    SeenMembers(ids, actual);
    forall x | x in desired ensures exists g :: g in ids && x in after[g] {
      if x in Seen(ids, actual) {
        var g :| g in ids && x in actual[g];
        assert x in after[g];
      } else {
        assert x in gap;
        var g :| g in ids && x in r.add[g];
        assert x in after[g];
      }
    }
  }

  /**
   * Convergence: once applied, no group holds a rule that is not desired,
   * and every desired rule is held by some group.
   */
  lemma Convergence<G, R>(ids: seq<G>, actual: map<G, set<R>>, desired: set<R>, order: seq<R>)
    requires HasReads(ids, actual) && |ids| > 0
    requires IsEnumeration(order, Gap(ids, actual, desired))
    ensures var after := Reconciled(ids, actual, MakePlan(ids, actual, desired, order));
      && (forall g :: g in ids ==> after[g] <= desired)
      && (forall x :: x in desired ==> exists g :: g in ids && x in after[g])
  {
    OnlyDesiredRemain(ids, actual, desired, order);
    AllDesiredHeld(ids, actual, desired, order);
  }

  /** Only the empty sequence enumerates the empty set. */
  lemma EmptyEnumeration<R>(order: seq<R>)
    ensures Elements(order) == {} <==> order == []
  {
    if order != [] {
      assert order[0] in Elements(order);
    }
  }

  /** A second run on the reconciled state finds nothing to revoke and nothing to add. */
  lemma Idempotence<G, R>(ids: seq<G>, actual: map<G, set<R>>, desired: set<R>, order: seq<R>, order2: seq<R>)
    requires HasReads(ids, actual) && |ids| > 0
    requires IsEnumeration(order, Gap(ids, actual, desired))
    requires IsEnumeration(order2, Gap(ids, Reconciled(ids, actual, MakePlan(ids, actual, desired, order)), desired))
    ensures var again := MakePlan(ids, Reconciled(ids, actual, MakePlan(ids, actual, desired, order)), desired, order2);
      forall g :: g in ids ==> again.remove[g] == {} && again.add[g] == {}
  {
    Convergence(ids, actual, desired, order);
    var after := Reconciled(ids, actual, MakePlan(ids, actual, desired, order));
    SeenMembers(ids, after);
    assert Gap(ids, after, desired) == {};
    EmptyEnumeration(order2);
  }

  /**
   * Nothing to do exactly when every group holds only desired rules and
   * every desired rule is held somewhere.
   */
  lemma NothingToDoIff<G, R>(ids: seq<G>, actual: map<G, set<R>>, desired: set<R>, order: seq<R>)
    requires HasReads(ids, actual) && |ids| > 0
    requires IsEnumeration(order, Gap(ids, actual, desired))
    ensures !UpdateNeeded(ids, MakePlan(ids, actual, desired, order)) <==>
      (forall g :: g in ids ==> actual[g] <= desired) && desired <= Seen(ids, actual)
  {
    AddsPartitionGap(ids, actual, desired, order);
    var p := MakePlan(ids, actual, desired, order);
    var gap := Gap(ids, actual, desired);
    if !UpdateNeeded(ids, p) {
      assert p.remove == RemoveSets(ids, actual, desired);
      assert forall g :: g in ids ==> actual[g] - desired == {};
      assert forall g :: g in ids ==> p.add[g] == {};
      assert gap == {};
      forall x | x in desired ensures x in Seen(ids, actual) {
        assert x !in gap;
      }
    }
    if (forall g :: g in ids ==> actual[g] <= desired) && desired <= Seen(ids, actual) {
      assert gap == {};
      EmptyEnumeration(order);
      var t := StartTally(ids, actual, desired);
      assert Assign(ids, t, order) == t;
      assert p == Plan(RemoveSets(ids, actual, desired), EmptySets(ids), t.counts);
      assert forall g :: g in ids ==> p.remove[g] == {} && p.add[g] == {};
    }
  }

  /**
   * An empty desired set (a feed with no qualifying entry) revokes every
   * managed rule of every group and adds nothing.
   */
  lemma EmptyDesiredRevokesAll<G, R>(ids: seq<G>, actual: map<G, set<R>>, order: seq<R>)
    requires HasReads(ids, actual) && |ids| > 0
    requires IsEnumeration(order, Gap(ids, actual, {}))
    ensures var p := MakePlan(ids, actual, {}, order);
      forall g :: g in ids ==> p.remove[g] == actual[g] && p.add[g] == {}
  {
    EmptyEnumeration(order);
  }

  // ---------------------------------------------------------------------
  // The backend calls a run makes.

  /** A revoke (`revoke`) or authorize call for one group with a set of rules. */
  datatype Planned<G, R> = Planned(revoke: bool, groupId: G, rules: set<R>)

  /** One call per group of `ids` whose set in `m` is non-empty, in list order. */
  function CallsFor<G, R>(revoke: bool, ids: seq<G>, m: map<G, set<R>>): (calls: seq<Planned<G, R>>)
    requires forall g :: g in ids ==> g in m
    ensures forall i :: 0 <= i < |calls| ==>
      calls[i].revoke == revoke && calls[i].groupId in ids && calls[i].rules == m[calls[i].groupId] && calls[i].rules != {}
    decreases |ids|
  {
    if ids == [] then []
    else
      var init, last := ids[..|ids| - 1], ids[|ids| - 1];
      assert forall i :: 0 <= i < |init| ==> init[i] == ids[i];
      CallsFor(revoke, init, m) + (if m[last] != {} then [Planned(revoke, last, m[last])] else [])
  }

  lemma CallsForStep<G, R>(revoke: bool, done: seq<G>, g: G, m: map<G, set<R>>)
    requires forall h :: h in done + [g] ==> h in m
    ensures CallsFor(revoke, done + [g], m) ==
      CallsFor(revoke, done, m) + (if m[g] != {} then [Planned(revoke, g, m[g])] else [])
  {
    assert (done + [g])[..|done|] == done;
  }

  /** The calls for the first `i + 1` groups: those for the first `i`, then the call for `ids[i]` if any. */
  lemma CallsForNext<G, R>(revoke: bool, ids: seq<G>, i: nat, m: map<G, set<R>>)
    requires i < |ids| && forall g :: g in ids ==> g in m
    ensures CallsFor(revoke, ids[..i + 1], m) ==
      CallsFor(revoke, ids[..i], m) + (if m[ids[i]] != {} then [Planned(revoke, ids[i], m[ids[i]])] else [])
  {
    assert ids[..i + 1] == ids[..i] + [ids[i]];
    assert forall g :: g in ids[..i + 1] ==> g in ids;
    CallsForStep(revoke, ids[..i], ids[i], m);
  }

  /** The calls for `ids` depend only on the sets of the groups in `ids`. */
  lemma {:induction false} CallsForAgree<G, R>(revoke: bool, ids: seq<G>, m: map<G, set<R>>, m': map<G, set<R>>)
    requires forall g :: g in ids ==> g in m && g in m' && m[g] == m'[g]
    ensures CallsFor(revoke, ids, m) == CallsFor(revoke, ids, m')
    decreases |ids|
  {
    if ids != [] {
      var init := ids[..|ids| - 1];
      assert forall g :: g in init ==> g in ids;
      CallsForAgree(revoke, init, m, m');
    }
  }

  /** No call at all exactly when every set is empty. */
  lemma {:induction false} CallsForEmptyIff<G, R>(revoke: bool, ids: seq<G>, m: map<G, set<R>>)
    requires forall g :: g in ids ==> g in m
    ensures CallsFor(revoke, ids, m) == [] <==> forall g :: g in ids ==> m[g] == {}
    decreases |ids|
  {
    if ids != [] {
      var init, last := ids[..|ids| - 1], ids[|ids| - 1];
      assert ids == init + [last];
      CallsForEmptyIff(revoke, init, m);
    }
  }

  /** The calls of a run: every revoke in list order, then every authorize in list order. */
  function PlannedCalls<G, R>(ids: seq<G>, p: Plan<G, R>): seq<Planned<G, R>>
    requires PlanCovers(ids, p)
  {
    CallsFor(true, ids, p.remove) + CallsFor(false, ids, p.add)
  }

  /** A run makes a backend call exactly when an update is needed. */
  lemma NoCallsIffNoUpdate<G, R>(ids: seq<G>, p: Plan<G, R>)
    requires PlanCovers(ids, p)
    ensures PlannedCalls(ids, p) == [] <==> !UpdateNeeded(ids, p)
  {
    CallsForEmptyIff(true, ids, p.remove);
    CallsForEmptyIff(false, ids, p.add);
  }
}
