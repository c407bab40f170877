/**
 * Rules as (CIDR, port) pairs, the desired set built from the feed, and the
 * translation between rules and EC2 ingress permission records: reading a
 * group's managed rules out of its permissions, and building the
 * one-CIDR permissions that revoke and authorize calls send.
 */
module RuleSets {
  import opened Wrappers
  import opened Enumerations

  type Port = int

  /** The only protocol the reconciler reads or writes. */
  const IngressProto: string := "tcp"

  /** A (CIDR, port) pair: one permitted inbound TCP source for one port. */
  datatype Rule = Rule(cidr: string, port: Port)

  /**
   * An ingress permission as `describe_security_groups` reports it. EC2
   * leaves out `FromPort` and `ToPort` on permissions that cover every
   * protocol, hence the options.
   */
  datatype IpPermission = IpPermission(
    ipProtocol: string,
    fromPort: Option<Port>,
    toPort: Option<Port>,
    ipRanges: seq<string>)

  function PortSet(ports: seq<Port>): set<Port> {
    set p | p in ports
  }

  // ---------------------------------------------------------------------
  // The desired set: every CIDR paired with every managed port.

  /** All pairs of a CIDR of `cidrs` with a port of `ports`. */
  function Cross(cidrs: set<string>, ports: set<Port>): set<Rule> {
    set c, p | c in cidrs && p in ports :: Rule(c, p)
  }

  /** The rules `get_cidr_set_merge_port` builds: each CIDR with each port of the list. */
  function MergePorts(ports: seq<Port>, cidrs: set<string>): set<Rule> {
    Cross(cidrs, PortSet(ports))
  }

  /** The rules of one CIDR. */
  function Row(c: string, ports: set<Port>): set<Rule> {
    set p | p in ports :: Rule(c, p)
  }

  lemma {:induction false} RowCardinality(c: string, ports: set<Port>)
    ensures |Row(c, ports)| == |ports|
  {
    if ports != {} {
      var p := PickElement(ports);
      var rest := ports - {p};
      RowCardinality(c, rest);
      assert Row(c, ports) == Row(c, rest) + {Rule(c, p)};
      assert Rule(c, p) !in Row(c, rest);
      assert |ports| == |rest| + 1;
    } else {
      assert Row(c, ports) == {};
    }
  }

  lemma MulSucc(n: nat, m: nat)
    ensures (n + 1) * m == n * m + m
  {
  }

  lemma {:induction false} CrossCardinality(cidrs: set<string>, ports: set<Port>)
    ensures |Cross(cidrs, ports)| == |cidrs| * |ports|
  {
    if c :| c in cidrs {
      var rest := cidrs - {c};
      CrossCardinality(rest, ports);
      RowCardinality(c, ports);
      assert Cross(cidrs, ports) == Cross(rest, ports) + Row(c, ports);
      assert Cross(rest, ports) !! Row(c, ports);
      assert |cidrs| == |rest| + 1;
      MulSucc(|rest|, |ports|);
    } else {
      assert cidrs == {};
      assert Cross(cidrs, ports) == {};
    }
  }

  /**
   * The desired set is the cross product of the CIDRs and the distinct
   * managed ports: membership and size.
   */
  lemma DesiredIsCrossProduct(ports: seq<Port>, cidrs: set<string>)
    ensures forall r :: r in MergePorts(ports, cidrs) <==> r.cidr in cidrs && r.port in ports
    ensures |MergePorts(ports, cidrs)| == |cidrs| * |PortSet(ports)|
  {
    CrossCardinality(cidrs, PortSet(ports));
  }

  // ---------------------------------------------------------------------
  // Reading a group's managed rules.

  /** A TCP permission for a single managed port. */
  predicate IsManaged(ports: seq<Port>, perm: IpPermission) {
    && perm.ipProtocol == IngressProto
    && perm.fromPort.Some?
    && perm.toPort == perm.fromPort
    && perm.fromPort.value in ports
  }

  /** `perm` grants the rule `r`. */
  predicate Grants(perm: IpPermission, r: Rule) {
    perm.fromPort == Some(r.port) && r.cidr in perm.ipRanges
  }

  /** The rules of one permission: each of its CIDRs with its port. */
  function PermissionRules(perm: IpPermission): set<Rule>
    requires perm.fromPort.Some?
  {
    set c | c in perm.ipRanges :: Rule(c, perm.fromPort.value)
  }

  /** The left fold of the reducer over `perms`, skipping every permission that is not managed. */
  function CollectManaged(ports: seq<Port>, acc: set<Rule>, perms: seq<IpPermission>): (r: set<Rule>)
    ensures forall x :: x in r <==>
      x in acc || exists i :: 0 <= i < |perms| && IsManaged(ports, perms[i]) && Grants(perms[i], x)
    decreases perms
  {
    if perms == [] then acc
    else
      var perm := perms[0];
      var acc' := if IsManaged(ports, perm) then acc + PermissionRules(perm) else acc;
      var r := CollectManaged(ports, acc', perms[1..]);
      assert forall x :: (exists i :: 0 <= i < |perms| && IsManaged(ports, perms[i]) && Grants(perms[i], x)) ==>
        (IsManaged(ports, perm) && Grants(perm, x)) ||
        (exists i :: 0 <= i < |perms[1..]| && IsManaged(ports, perms[1..][i]) && Grants(perms[1..][i], x)) by {
        forall x | exists i :: 0 <= i < |perms| && IsManaged(ports, perms[i]) && Grants(perms[i], x)
          ensures (IsManaged(ports, perm) && Grants(perm, x)) ||
            (exists i :: 0 <= i < |perms[1..]| && IsManaged(ports, perms[1..][i]) && Grants(perms[1..][i], x))
        {
          var i :| 0 <= i < |perms| && IsManaged(ports, perms[i]) && Grants(perms[i], x);
          if i > 0 {
            assert perms[1..][i - 1] == perms[i];
          }
        }
      }
      r
  }

  /**
   * The managed rules of a group whose permissions are `perms`, as
   * `get_security_group_cidr_port_set` collects them; a permission without
   * port fields is skipped (see `ManagedRulesAsWritten`).
   */
  function ManagedRules(ports: seq<Port>, perms: seq<IpPermission>): (r: set<Rule>)
    ensures forall x :: x in r <==>
      exists i :: 0 <= i < |perms| && IsManaged(ports, perms[i]) && Grants(perms[i], x)
    ensures forall x :: x in r ==> x.port in ports
  {
    CollectManaged(ports, {}, perms)
  }

  /**
   * The reducer as written: `item['FromPort']` is read for every
   * permission, and `item['ToPort']` for every TCP one, so a permission
   * lacking them raises `KeyError` (None here) and aborts the read.
   */
  function ManagedRulesAsWritten(ports: seq<Port>, acc: set<Rule>, perms: seq<IpPermission>): Option<set<Rule>>
    decreases perms
  {
    if perms == [] then Some(acc)
    else
      var perm := perms[0];
      if perm.fromPort.None? then None
      else if perm.ipProtocol == IngressProto && perm.toPort.None? then None
      else
        var acc' := if IsManaged(ports, perm) then acc + PermissionRules(perm) else acc;
        ManagedRulesAsWritten(ports, acc', perms[1..])
  }

  /** Every permission carries the port fields the reducer as written reads. */
  predicate HasPortFields(perm: IpPermission) {
    perm.fromPort.Some? && (perm.ipProtocol == IngressProto ==> perm.toPort.Some?)
  }

  /** Where every permission carries its port fields, the two readings agree. */
  lemma {:induction false} AsWrittenAgrees(ports: seq<Port>, acc: set<Rule>, perms: seq<IpPermission>)
    requires forall i :: 0 <= i < |perms| ==> HasPortFields(perms[i])
    ensures ManagedRulesAsWritten(ports, acc, perms) == Some(CollectManaged(ports, acc, perms))
    decreases perms
  {
    if perms != [] {
      var perm := perms[0];
      var acc' := if IsManaged(ports, perm) then acc + PermissionRules(perm) else acc;
      assert forall i :: 0 <= i < |perms[1..]| ==> HasPortFields(perms[1..][i]) by {
        forall i | 0 <= i < |perms[1..]| ensures HasPortFields(perms[1..][i]) {
          assert perms[1..][i] == perms[i + 1];
        }
      }
      AsWrittenAgrees(ports, acc', perms[1..]);
    }
  }

  /** An all-traffic permission, as EC2 reports it: protocol "-1" and no port fields. */
  function AllTraffic(cidrs: seq<string>): IpPermission {
    IpPermission("-1", None, None, cidrs)
  }

  /**
   * A group holding an all-traffic rule makes the reducer as written fail,
   * while the corrected reading ignores the rule.
   */
  lemma AllTrafficAbortsRead(ports: seq<Port>)
    ensures ManagedRulesAsWritten(ports, {}, [AllTraffic(["0.0.0.0/0"])]) == None
    ensures ManagedRules(ports, [AllTraffic(["0.0.0.0/0"])]) == {}
  {
  }

  /**
   * A permission that is not managed (another protocol, a port range, an
   * unmanaged port, no port fields) contributes nothing wherever it stands.
   */
  lemma UnmanagedIsInvisible(ports: seq<Port>, before: seq<IpPermission>, perm: IpPermission, after: seq<IpPermission>)
    requires !IsManaged(ports, perm)
    ensures ManagedRules(ports, before + [perm] + after) == ManagedRules(ports, before + after)
  {
    var long, short := before + [perm] + after, before + after;
    forall x | x in ManagedRules(ports, long) ensures x in ManagedRules(ports, short) {
      var i :| 0 <= i < |long| && IsManaged(ports, long[i]) && Grants(long[i], x);
      var j := if i < |before| then i else i - 1;
      assert short[j] == long[i];
    }
    forall x | x in ManagedRules(ports, short) ensures x in ManagedRules(ports, long) {
      var j :| 0 <= j < |short| && IsManaged(ports, short[j]) && Grants(short[j], x);
      var i := if j < |before| then j else j + 1;
      assert short[j] == long[i];
    }
  }

  // ---------------------------------------------------------------------
  // Building the permissions that revoke and authorize calls send.

  /** The one-CIDR, one-port TCP permission for a rule. */
  function PermissionOf(r: Rule): IpPermission {
    IpPermission(IngressProto, Some(r.port), Some(r.port), [r.cidr])
  }

  /**
   * `get_ippermissions_from_cidr_port_set`: one permission per rule, in the
   * order the set is iterated (`order`).
   */
  function PermissionsOf(order: seq<Rule>): (perms: seq<IpPermission>)
    ensures |perms| == |order|
  {
    seq(|order|, i requires 0 <= i < |order| => PermissionOf(order[i]))
  }

  /** `perms` sends exactly the rules of `rules`, each once, one CIDR per permission. */
  ghost predicate Encodes(perms: seq<IpPermission>, rules: set<Rule>) {
    exists order :: IsEnumeration(order, rules) && perms == PermissionsOf(order)
  }

  /**
   * Reading back the permissions built from an iteration of a set of
   * managed-port rules yields that set.
   */
  lemma ReadBack(ports: seq<Port>, order: seq<Rule>)
    requires forall r :: r in order ==> r.port in ports
    ensures ManagedRules(ports, PermissionsOf(order)) == Elements(order)
  {
    var perms := PermissionsOf(order);
    forall x | x in Elements(order) ensures x in ManagedRules(ports, perms) {
      var i :| 0 <= i < |order| && order[i] == x;
      assert IsManaged(ports, perms[i]) && Grants(perms[i], x);
    }
    forall x | x in ManagedRules(ports, perms) ensures x in Elements(order) {
      var i :| 0 <= i < |perms| && IsManaged(ports, perms[i]) && Grants(perms[i], x);
      assert perms[i] == PermissionOf(order[i]);
      assert order[i] == x;
    }
  }

  /** Whatever order the set is iterated in, reading back what was sent yields the set. */
  lemma EncodedReadBack(ports: seq<Port>, perms: seq<IpPermission>, rules: set<Rule>)
    requires Encodes(perms, rules)
    requires forall r :: r in rules ==> r.port in ports
    ensures ManagedRules(ports, perms) == rules
    ensures |perms| == |rules|
  {
    var order :| IsEnumeration(order, rules) && perms == PermissionsOf(order);
    ReadBack(ports, order);
    DistinctCardinality(order);
  }
}
