/**
 * The reconciliation run itself: the EC2 client as a gateway that answers
 * reads from a snapshot and records every revoke and authorize call, the
 * helpers that read, revoke and authorize one group, and the handler with
 * its three loops.
 */
module SecurityGroupUpdate {
  import opened Wrappers
  import opened Enumerations
  import opened RangeFeed
  import opened RuleSets
  import opened Balancer
  import opened Reconciliation

  /** A mutating EC2 call as sent: group id and permission records. */
  datatype Call<G> =
    | Revoke(groupId: G, permissions: seq<IpPermission>)
    | Authorize(groupId: G, permissions: seq<IpPermission>)

  /**
   * The EC2 client. `groups` is what `describe_security_groups` returns for
   * each existing group id; `calls` records the mutating calls in order.
   * Reads of a group happen before any write to it, so a fixed snapshot
   * answers every read of a run.
   */
  class Ec2Client<G(==)> {
    const groups: map<G, seq<IpPermission>>
    ghost var calls: seq<Call<G>>

    constructor (groups: map<G, seq<IpPermission>>)
      ensures this.groups == groups && calls == []
    {
      this.groups := groups;
      calls := [];
    }

    /** The group's ingress permissions, or `None` for an unknown id (the call raises). */
    method DescribeSecurityGroup(id: G) returns (r: Option<seq<IpPermission>>)
      ensures r.Some? <==> id in groups
      ensures r.Some? ==> r.value == groups[id]
    {
      if id in groups {
        r := Some(groups[id]);
      } else {
        r := None;
      }
    }

    method RevokeSecurityGroupIngress(id: G, permissions: seq<IpPermission>)
      modifies this
      ensures calls == old(calls) + [Revoke(id, permissions)]
    {
      calls := calls + [Revoke(id, permissions)];
    }

    method AuthorizeSecurityGroupIngress(id: G, permissions: seq<IpPermission>)
      modifies this
      ensures calls == old(calls) + [Authorize(id, permissions)]
    {
      calls := calls + [Authorize(id, permissions)];
    }
  }

  /** A sent call carries out a planned one: same kind, same group, permissions encoding its rules. */
  ghost predicate Realizes<G>(c: Call<G>, p: Planned<G, Rule>) {
    match c
    case Revoke(g, perms) => p.revoke && p.groupId == g && Encodes(perms, p.rules)
    case Authorize(g, perms) => !p.revoke && p.groupId == g && Encodes(perms, p.rules)
  }

  /** Each call of `cs` carries out the planned call at the same position. */
  ghost predicate RealizesAll<G>(cs: seq<Call<G>>, ps: seq<Planned<G, Rule>>)
    decreases |cs|
  {
    && |cs| == |ps|
    && (cs != [] ==> Realizes(cs[0], ps[0]) && RealizesAll(cs[1..], ps[1..]))
  }

  /** The positional reading of `RealizesAll`. */
  lemma {:induction false} RealizesAllAt<G>(cs: seq<Call<G>>, ps: seq<Planned<G, Rule>>)
    ensures RealizesAll(cs, ps) <==> |cs| == |ps| && forall i :: 0 <= i < |cs| ==> Realizes(cs[i], ps[i])
    decreases |cs|
  {
    if cs != [] && |cs| == |ps| {
      RealizesAllAt(cs[1..], ps[1..]);
      if forall i :: 0 <= i < |cs| ==> Realizes(cs[i], ps[i]) {
        assert forall i :: 0 <= i < |cs[1..]| ==> cs[1..][i] == cs[i + 1] && ps[1..][i] == ps[i + 1];
      }
      if RealizesAll(cs, ps) {
        forall i | 0 <= i < |cs| ensures Realizes(cs[i], ps[i]) {
          if i > 0 {
            assert cs[i] == cs[1..][i - 1] && ps[i] == ps[1..][i - 1];
          }
        }
      }
    }
  }

  lemma {:induction false} RealizesAllAppend<G>(cs: seq<Call<G>>, ps: seq<Planned<G, Rule>>, cs': seq<Call<G>>, ps': seq<Planned<G, Rule>>)
    requires RealizesAll(cs, ps) && RealizesAll(cs', ps')
    ensures RealizesAll(cs + cs', ps + ps')
    decreases |cs|
  {
    if cs != [] {
      assert (cs + cs')[0] == cs[0] && (ps + ps')[0] == ps[0];
      assert (cs + cs')[1..] == cs[1..] + cs';
      assert (ps + ps')[1..] == ps[1..] + ps';
      RealizesAllAppend(cs[1..], ps[1..], cs', ps');
    } else {
      assert cs + cs' == cs' && ps + ps' == ps';
    }
  }

  /**
   * Going from trace `before` to trace `after` sends exactly the planned
   * calls, in order; in dry-run mode it sends nothing at all.
   */
  ghost predicate Sends<G>(before: seq<Call<G>>, after: seq<Call<G>>, dryRun: bool, planned: seq<Planned<G, Rule>>) {
    if dryRun then after == before
    else |before| <= |after| && after[..|before|] == before && RealizesAll(after[|before|..], planned)
  }

  /** Sending no planned call leaves the trace as it was. */
  lemma SendsNone<G>(before: seq<Call<G>>, after: seq<Call<G>>, dryRun: bool)
    requires Sends(before, after, dryRun, [])
    ensures after == before
  {
    if !dryRun {
      assert |after[|before|..]| == 0;
      assert after == after[..|before|];
    }
  }

  lemma SendsChain<G>(a: seq<Call<G>>, b: seq<Call<G>>, c: seq<Call<G>>, dryRun: bool, p: seq<Planned<G, Rule>>, q: seq<Planned<G, Rule>>)
    requires Sends(a, b, dryRun, p) && Sends(b, c, dryRun, q)
    ensures Sends(a, c, dryRun, p + q)
  {
    if !dryRun {
      assert c[..|a|] == b[..|a|];
      assert c[|a|..] == b[|a|..] + c[|b|..];
      RealizesAllAppend(b[|a|..], p, c[|b|..], q);
    }
  }

  /** Appending to a trace that extends `start` by `sent`. */
  lemma TraceGrows<G>(start: seq<Call<G>>, sent: seq<Call<G>>, more: seq<Call<G>>, before: seq<Call<G>>, after: seq<Call<G>>)
    requires before == start + sent && after == before + more
    ensures after == start + (sent + more)
  {
  }

  /** The calls `sent` carry out `planned`; in dry-run mode nothing is sent. */
  ghost predicate SentAs<G>(sent: seq<Call<G>>, dryRun: bool, planned: seq<Planned<G, Rule>>) {
    if dryRun then sent == [] else RealizesAll(sent, planned)
  }

  lemma SentAsSends<G>(before: seq<Call<G>>, sent: seq<Call<G>>, dryRun: bool, planned: seq<Planned<G, Rule>>)
    requires SentAs(sent, dryRun, planned)
    ensures Sends(before, before + sent, dryRun, planned)
  {
    assert (before + sent)[..|before|] == before;
    assert (before + sent)[|before|..] == sent;
  }

  lemma SentAsAppend<G>(sent: seq<Call<G>>, sent': seq<Call<G>>, dryRun: bool, planned: seq<Planned<G, Rule>>, planned': seq<Planned<G, Rule>>)
    requires SentAs(sent, dryRun, planned) && SentAs(sent', dryRun, planned')
    ensures SentAs(sent + sent', dryRun, planned + planned')
  {
    if !dryRun {
      RealizesAllAppend(sent, planned, sent', planned');
    }
  }

  /** The managed rules each configured, existing group holds. */
  function Reads<G>(ports: seq<Port>, groups: map<G, seq<IpPermission>>, ids: seq<G>): map<G, set<Rule>> {
    map g | g in ids && g in groups :: ManagedRules(ports, groups[g])
  }

  /** The desired rules: every CloudFront CIDR of the feed on every ingress port. */
  function Desired(ports: seq<Port>, doc: FeedDocument): (d: set<Rule>)
    ensures forall r :: r in d <==> r.cidr in LoadCidrSet(doc) && r.port in ports
  {
    DesiredIsCrossProduct(ports, LoadCidrSet(doc));
    MergePorts(ports, LoadCidrSet(doc))
  }

  /** `get_security_group_cidr_port_set`: the group's managed rules, `None` when the id is unknown. */
  method ReadGroupRules<G(==)>(client: Ec2Client<G>, ports: seq<Port>, id: G) returns (r: Option<set<Rule>>)
    ensures r.Some? <==> id in client.groups
    ensures r.Some? ==> r.value == ManagedRules(ports, client.groups[id])
  {
    var group := client.DescribeSecurityGroup(id);
    if group.None? {
      return None;
    }
    r := Some(ManagedRules(ports, group.value));
  }

  /** The permission records for `rules`, one per rule, in the set's iteration order. */
  method PermissionsFor(rules: set<Rule>) returns (perms: seq<IpPermission>)
    ensures Encodes(perms, rules)
    ensures |perms| == |rules|
  {
    var order := IterationOrder(rules);
    perms := PermissionsOf(order);
    DistinctCardinality(order);
  }

  /** `delete_security_group_cidr_port_set`: revoke `rules` from the group unless in dry-run mode. */
  method DeleteRules<G(==)>(client: Ec2Client<G>, dryRun: bool, id: G, rules: set<Rule>) returns (ghost sent: seq<Call<G>>)
    modifies client
    ensures client.calls == old(client.calls) + sent
    ensures SentAs(sent, dryRun, [Planned(true, id, rules)])
  {
    sent := [];
    if !dryRun {
      var perms := PermissionsFor(rules);
      client.RevokeSecurityGroupIngress(id, perms);
      sent := [Revoke(id, perms)];
      assert sent[1..] == [];
    }
  }

  /** `add_security_group_ingress_cidr_port_set`: authorize `rules` on the group unless in dry-run mode. */
  method AddRules<G(==)>(client: Ec2Client<G>, dryRun: bool, id: G, rules: set<Rule>) returns (ghost sent: seq<Call<G>>)
    modifies client
    ensures client.calls == old(client.calls) + sent
    ensures SentAs(sent, dryRun, [Planned(false, id, rules)])
  {
    sent := [];
    if !dryRun {
      var perms := PermissionsFor(rules);
      client.AuthorizeSecurityGroupIngress(id, perms);
      sent := [Authorize(id, perms)];
      assert sent[1..] == [];
    }
  }

  /**
   * The read loop (first `for` of the handler): read each group in list
   * order, revoke its orphans at once, and record the global set and the
   * rule counts. It stops at the first unknown group id, at index `k`,
   * with the revokes of the groups before it already sent.
   */
  method ReadAndRevoke<G(==)>(client: Ec2Client<G>, ports: seq<Port>, ids: seq<G>, desired: set<Rule>, dryRun: bool)
    returns (unknown: Option<G>, remove: map<G, set<Rule>>, counts: map<G, int>, global: set<Rule>,
             revoked: bool, ghost k: nat, ghost planned: seq<Planned<G, Rule>>)
    requires Distinct(ids)
    modifies client
    ensures ReadLoop(ids, k, Reads(ports, client.groups, ids), desired, remove, counts, global, revoked, planned)
    ensures unknown.None? <==> k == |ids|
    ensures unknown.Some? ==> unknown.value == ids[k] && ids[k] !in client.groups
    ensures Sends(old(client.calls), client.calls, dryRun, planned)
  {
    ghost var a := Reads(ports, client.groups, ids);
    remove := EmptySets(ids);
    counts := map[];
    global := {};
    revoked := false;
    planned := [];
    ghost var sent: seq<Call<G>> := [];
    ReadLoopStart(ids, a, desired);
    var i := 0;
    while i < |ids|
      invariant ReadLoop(ids, i, a, desired, remove, counts, global, revoked, planned)
      invariant client.calls == old(client.calls) + sent
      invariant SentAs(sent, dryRun, planned)
    {
      var id := ids[i];
      var read := ReadGroupRules(client, ports, id);
      if read.None? {
        SentAsSends(old(client.calls), sent, dryRun, planned);
        return Some(id), remove, counts, global, revoked, i, planned;
      }
      var cidrPortSet := read.value;
      var orphan := cidrPortSet - desired;
      ReadLoopStep(ids, i, a, desired, cidrPortSet, orphan, remove, counts, global, revoked, planned);
      ghost var step: seq<Planned<G, Rule>> := if orphan != {} then [Planned(true, id, orphan)] else [];
      if orphan != {} {
        ghost var before := client.calls;
        ghost var more := DeleteRules(client, dryRun, id, orphan);
        TraceGrows(old(client.calls), sent, more, before, client.calls);
        SentAsAppend(sent, more, dryRun, planned, step);
        sent := sent + more;
      } else {
        assert planned + step == planned;
      }
      remove := if orphan != {} then remove[id := orphan] else remove;
      counts := counts[id := |cidrPortSet| - |orphan|];
      global := global + cidrPortSet;
      revoked := revoked || orphan != {};
      planned := planned + step;
      i := i + 1;
    }
    assert ids[..i] == ids;
    SentAsSends(old(client.calls), sent, dryRun, planned);
    return None, remove, counts, global, revoked, i, planned;
  }

  /** The gap loop's invariant: `order` lists the rules placed so far, and `t` is the tally they give. */
  ghost predicate GapLoop<G, R>(ids: seq<G>, t0: Tally<G, R>, gap: set<R>, order: seq<R>, remaining: set<R>, t: Tally<G, R>)
    requires Covers(ids, t0)
  {
    && Distinct(order)
    && Elements(order) + remaining == gap
    && Elements(order) !! remaining
    && (|ids| > 0 || order == [])
    && t == Assign(ids, t0, order)
  }

  /** Moving `x` from the rules still to place to the placed ones. */
  lemma TakeNext<R>(gap: set<R>, order: seq<R>, remaining: set<R>, x: R)
    requires Distinct(order) && Elements(order) + remaining == gap && Elements(order) !! remaining
    requires x in remaining
    ensures Distinct(order + [x])
    ensures Elements(order + [x]) + (remaining - {x}) == gap && Elements(order + [x]) !! (remaining - {x})
  {
    AppendFresh(order, x);
  }

  lemma GapLoopStep<G, R>(ids: seq<G>, t0: Tally<G, R>, gap: set<R>, order: seq<R>, remaining: set<R>, t: Tally<G, R>, x: R)
    requires |ids| > 0 && Covers(ids, t0)
    requires GapLoop(ids, t0, gap, order, remaining, t) && x in remaining
    ensures GapLoop(ids, t0, gap, order + [x], remaining - {x}, Step(ids, t, x))
  {
    TakeNext(gap, order, remaining, x);
    AssignSnoc(ids, t0, order, x);
  }

  /**
   * The gap loop (second `for` of the handler): hand each rule of `gap`, in
   * an order the model does not fix, to the least-loaded group. `order`
   * records the order the loop took.
   */
  method AssignGap<G(==), R>(ids: seq<G>, t0: Tally<G, R>, gap: set<R>) returns (t: Tally<G, R>, ghost order: seq<R>)
    requires |ids| > 0 || gap == {}
    requires Covers(ids, t0)
    ensures IsEnumeration(order, gap)
    ensures |ids| > 0 || order == []
    ensures t == Assign(ids, t0, order)
  {
    t := t0;
    order := [];
    var remaining := gap;
    while remaining != {}
      invariant GapLoop(ids, t0, gap, order, remaining, t)
      decreases remaining
    {
      var x :| x in remaining;
      var g := ids[FirstMin(ids, t.counts)];
      GapLoopStep(ids, t0, gap, order, remaining, t, x);
      StepIs(ids, t, x, g);
      t := Tally(t.add[g := t.add[g] + {x}], t.counts[g := t.counts[g] + 1]);
      order := order + [x];
      remaining := remaining - {x};
    }
  }

  /**
   * The authorize loop (third `for` of the handler): authorize each
   * non-empty add-set, in list order.
   */
  method AuthorizeAdds<G(==)>(client: Ec2Client<G>, dryRun: bool, ids: seq<G>, add: map<G, set<Rule>>)
    returns (authorized: bool)
    requires forall g :: g in ids ==> g in add
    modifies client
    ensures authorized <==> CallsFor(false, ids, add) != []
    ensures Sends(old(client.calls), client.calls, dryRun, CallsFor(false, ids, add))
  {
    authorized := false;
    ghost var planned: seq<Planned<G, Rule>> := [];
    ghost var sent: seq<Call<G>> := [];
    var i := 0;
    assert ids[..0] == [];
    while i < |ids|
      invariant 0 <= i <= |ids|
      invariant planned == CallsFor(false, ids[..i], add)
      invariant authorized <==> planned != []
      invariant client.calls == old(client.calls) + sent
      invariant SentAs(sent, dryRun, planned)
    {
      var id := ids[i];
      CallsForNext(false, ids, i, add);
      ghost var step: seq<Planned<G, Rule>> := if add[id] != {} then [Planned(false, id, add[id])] else [];
      if add[id] != {} {
        ghost var before := client.calls;
        ghost var more := AddRules(client, dryRun, id, add[id]);
        TraceGrows(old(client.calls), sent, more, before, client.calls);
        SentAsAppend(sent, more, dryRun, planned, step);
        sent := sent + more;
      } else {
        assert planned + step == planned;
      }
      authorized := authorized || add[id] != {};
      planned := planned + step;
      i := i + 1;
    }
    assert ids[..i] == ids;
    SentAsSends(old(client.calls), sent, dryRun, planned);
  }

  /** Why a run stopped early. */
  datatype Failure<G> =
    | UnknownGroup(groupId: G)  // `describe_security_groups` raises for this id
    | NoGroups                  // `min` over an empty dict raises: rules to place but no group

  /** A run's result: its plan and `update_applied`, or the failure that stopped it. */
  datatype Outcome<G> =
    | Completed(plan: Plan<G, Rule>, updateApplied: bool)
    | Aborted(failure: Failure<G>)

  /**
   * `handler`: reconcile the configured groups with the feed. A run
   * completes exactly when every configured group exists and there is a
   * group to place the gap in; it then sends the planned revokes and
   * authorizes (none in dry-run mode) and reports whether any was needed.
   * `gapOrder` is the order in which the gap loop visited the gap.
   */
  method Handler<G(==)>(client: Ec2Client<G>, ports: seq<Port>, ids: seq<G>, doc: FeedDocument, dryRun: bool)
    returns (outcome: Outcome<G>, ghost gapOrder: seq<Rule>)
    requires Distinct(ids)
    modifies client
    ensures var a, desired := Reads(ports, client.groups, ids), Desired(ports, doc);
      outcome.Completed? <==> HasReads(ids, a) && (|ids| > 0 || Gap(ids, a, desired) == {})
    ensures var a, desired := Reads(ports, client.groups, ids), Desired(ports, doc);
      outcome.Completed? ==>
        && HasReads(ids, a)
        && IsEnumeration(gapOrder, Gap(ids, a, desired))
        && (|ids| > 0 || gapOrder == [])
        && outcome.plan == MakePlan(ids, a, desired, gapOrder)
        && outcome.updateApplied == UpdateNeeded(ids, outcome.plan)
        && Sends(old(client.calls), client.calls, dryRun, PlannedCalls(ids, outcome.plan))
    ensures outcome == Aborted(NoGroups) ==> ids == [] && client.calls == old(client.calls)
    ensures var a, desired := Reads(ports, client.groups, ids), Desired(ports, doc);
      outcome.Aborted? && outcome.failure.UnknownGroup? ==>
        exists k :: 0 <= k < |ids| && ids[k] == outcome.failure.groupId && ids[k] !in client.groups &&
          HasReads(ids[..k], a) &&
          Sends(old(client.calls), client.calls, dryRun, CallsFor(true, ids[..k], RemovePrefix(ids, ids[..k], a, desired)))
  {
    ghost var a := Reads(ports, client.groups, ids);
    var desired := Desired(ports, doc);
    var unknown, remove, counts, global, revoked, k, planned := ReadAndRevoke(client, ports, ids, desired, dryRun);
    if unknown.Some? {
      assert ids[k] in ids && ids[k] !in a;
      assert 0 <= k < |ids| && ids[k] == unknown.value && ids[k] !in client.groups && HasReads(ids[..k], a) &&
        Sends(old(client.calls), client.calls, dryRun, CallsFor(true, ids[..k], RemovePrefix(ids, ids[..k], a, desired)));
      return Aborted(UnknownGroup(unknown.value)), [];
    }
    assert ids[..k] == ids;
    var gap := desired - global;
    if ids == [] && gap != {} {
      SendsNone(old(client.calls), client.calls, dryRun);
      return Aborted(NoGroups), [];
    }
    assert Tally(EmptySets(ids), counts) == StartTally(ids, a, desired);
    var t;
    t, gapOrder := AssignGap(ids, Tally(EmptySets(ids), counts), gap);
    ghost var mid := client.calls;
    var authorized := AuthorizeAdds(client, dryRun, ids, t.add);
    RemovePrefixDone(ids, a, desired);
    outcome := Completed(Plan(remove, t.add, t.counts), revoked || authorized);
    assert outcome.plan == MakePlan(ids, a, desired, gapOrder);
    SendsChain(old(client.calls), mid, client.calls, dryRun, planned, CallsFor(false, ids, t.add));
    NoCallsIffNoUpdate(ids, outcome.plan);
  }
}
