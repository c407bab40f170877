# CloudFront edge security-group update: a verified model

This project models the reconciliation run of `cloudfront-edge-secgroup-update`. The run keeps a list of EC2 security groups in step with the IPv4 ranges that AWS publishes for CloudFront. A run does four things:

- It builds the desired set of (CIDR, port) rules: every CloudFront prefix of the `ip-ranges.json` feed on every managed ingress port.
- It reads each configured group, in list order, and keeps only the managed rules: TCP, a single port, and that port in the managed list. It revokes the group's orphans, the managed rules that are not desired, at once.
- It hands every desired rule that no group holds to the group with the lowest rule count, one rule at a time.
- It authorizes each group's add-set. `update_applied` says whether any revoke or authorize was needed. In dry-run mode the plan is the same, but no mutating call is sent.

The model is split into these modules:

- `Ip4Cidr` is the prefix pattern.
- `RangeFeed` is the feed filter.
- `RuleSets` covers rules, the desired cross product, the permission reader and the permission builder.
- `Balancer` is the greedy least-loaded placement.
- `Reconciliation` holds the plan of a run as functions of the groups' contents, and the convergence and idempotence lemmas.
- `SecurityGroupUpdate` holds the EC2 client and the handler.

The EC2 client is a class. It answers `describe_security_groups` from a fixed snapshot. It appends every revoke and authorize call to a ghost trace `calls`.

The handler is a method with the source's three loops:

- `ReadAndRevoke` is the read loop.
- `AssignGap` is the gap loop.
- `AuthorizeAdds` is the authorize loop.

Each loop is proved against the specification functions of `Reconciliation` and `Balancer`. `Handler` then states the following:

- on the corrected permission reader (see "## Findings"), the run completes exactly when every configured group exists and there is a group to place the gap in;
- its plan is `MakePlan` for the order in which the gap was visited;
- `update_applied` is `UpdateNeeded`;
- the trace grows by exactly the planned calls, and by none in dry-run mode;
- an unknown group id aborts the run after the revokes of the groups before it have been sent.

Group ids and rules are generic (`G`, `R`) in `Balancer` and `Reconciliation`. The handler instantiates `R` with `RuleSets.Rule`.

A failed `describe_security_groups` for a later group does not undo anything. The code revokes orphans inside the read loop (src/index.py:51-57), so the revokes of the earlier groups have already been sent. `Handler`'s `UnknownGroup` postcondition states exactly that.

The handler reads each group with the corrected permission reader, `RuleSets.ManagedRules`, not with the reducer as written. The program as written also stops with `KeyError` at a group holding a permission without `FromPort`, such as an all-traffic rule (src/index.py:148). The handler's model does not stop there. "## Findings" records the defect and "## Left out" names the members this affects.

## Model

| member | source | states |
|---|---|---|
| Ip4Cidr.IsIp4Cidr | src/index.py:11 | the anchored pattern: four dot-separated runs of one to three digits, a slash and a final run of one to three digits (characterised by MatchIffShape) |
| Ip4Cidr.LeadingDigits | src/index.py:11 | the length of the longest digit prefix: the first `n` characters are digits and the next one is not |
| Ip4Cidr.MatchIffShape | src/index.py:11 | the matcher accepts a string exactly when it is `a.b.c.d/e` with five runs of one to three decimal digits |
| Ip4Cidr.MatchBounds | src/index.py:11 | every accepted string is 9 to 19 characters long and starts and ends with a digit |
| Ip4Cidr.AcceptsOutOfRangeNumbers | src/index.py:11 | the pattern does not bound octets or prefix lengths: `999.999.999.999/999` is accepted |
| RangeFeed.Qualifies | src/index.py:124-127 | an entry is kept when its `service` is `CLOUDFRONT` and its `ip_prefix`, read as "" when absent, matches the pattern |
| RangeFeed.EmptyIsNotCidr | src/index.py:126 | an entry without `ip_prefix` reads as the empty string, which never matches |
| RangeFeed.CollectPrefixes | src/index.py:123-133 | the fold's result holds a prefix exactly when it was in the accumulator or some entry is a CloudFront entry carrying that prefix, and the prefix matches |
| RangeFeed.LoadCidrSet | src/index.py:122-133 | the loaded set is exactly the matching prefixes of CloudFront entries; a missing `prefixes` list gives the empty set; every member matches the pattern |
| RangeFeed.NoQualifyingEntries | src/index.py:123-133 | a feed without a qualifying entry yields the empty set, without error |
| RangeFeed.IgnoresNonQualifying | src/index.py:123-133 | appending entries that do not qualify leaves the loaded set unchanged |
| RuleSets.MergePorts | src/index.py:135-143 | the desired rules: the cross product of the loaded CIDRs with the set of managed ports (characterised by DesiredIsCrossProduct) |
| RuleSets.DesiredIsCrossProduct | src/index.py:135-143 | `(c, p)` is desired exactly when `c` is a loaded CIDR and `p` a managed port; the size is the number of CIDRs times the number of distinct ports |
| RuleSets.CrossCardinality | src/index.py:135-143 | the cross product of a CIDR set and a port set has the product of their sizes |
| RuleSets.RowCardinality | src/index.py:138-139 | one CIDR paired with a port set gives as many rules as ports |
| RuleSets.CollectManaged | src/index.py:146-160 | the reducer's fold holds a rule exactly when it was in the accumulator or some managed permission grants it |
| RuleSets.ManagedRules | src/index.py:145-163 | a group's managed rules are exactly the (CIDR, port) pairs granted by TCP single-port permissions on a managed port; every such port is managed |
| RuleSets.UnmanagedIsInvisible | src/index.py:150-154 | a permission that is not managed (other protocol, port range, unmanaged port) contributes nothing, wherever it stands |
| RuleSets.ManagedRulesAsWritten | src/index.py:146-160 | the reducer as written: reading `FromPort` of any permission, or `ToPort` of a TCP one, that lacks it fails the whole read; otherwise it folds in each managed permission's rules (related to the corrected reading by AsWrittenAgrees and AllTrafficAbortsRead) |
| RuleSets.AsWrittenAgrees | src/index.py:146-160 | where every permission carries its port fields, the reducer as written succeeds and returns what the corrected reading returns |
| RuleSets.AllTrafficAbortsRead | src/index.py:148 | a group with an all-traffic permission (no `FromPort`) makes the reducer as written fail, while the corrected reading ignores that permission |
| RuleSets.PermissionsOf | src/index.py:188-197 | one permission record per rule of the iteration order |
| RuleSets.ReadBack | src/index.py:146-197 | reading back the permissions built from any iteration of a managed-port rule set yields that set |
| RuleSets.EncodedReadBack | src/index.py:146-197 | for any permissions encoding a rule set, one record per rule, reading them back yields the set |
| Balancer.FirstMin | src/index.py:66-69 | the chosen group's count is minimal among the configured groups, and every group listed before it has a strictly larger count |
| Balancer.Step | src/index.py:66-73 | one gap rule goes to the group `FirstMin` picks, which gains the rule in its add-set and one count (characterised by StepGoesToLeastLoaded) |
| Balancer.Assign | src/index.py:64-73 | the gap fold keeps an entry for every configured group and adds no key to either dict |
| Balancer.StepGoesToLeastLoaded | src/index.py:66-73 | each gap rule goes to a group whose count is minimal at that moment; that group gains the rule and one count, and no other group changes |
| Balancer.TotalBump | src/index.py:73 | bumping one configured group's count raises the sum of counts by one |
| Balancer.LastBump | src/index.py:72-73 | placing the last rule of an order raises exactly one configured group's count by one |
| Balancer.AssignTotal | src/index.py:64-73 | after the gap pass the sum of counts is the sum before plus the number of placed rules |
| Balancer.StepKeepsSpread | src/index.py:66-73 | placing one rule never widens a count spread of at least one |
| Balancer.AssignKeepsSpread | src/index.py:64-73 | the whole gap pass keeps counts within any spread of at least one that held before it |
| Balancer.EqualCountsStayBalanced | src/index.py:64-73 | from equal counts, max - min <= 1 after the gap pass, whatever the gap order |
| Balancer.AssignPartitions | src/index.py:64-73 | from empty add-sets, the gap pass splits the placed rules among the groups: add-sets disjoint, union exactly the placed rules, each count raised by its add-set's size |
| Reconciliation.MakePlan | src/index.py:43-73 | a run's plan: each group's orphans as its remove-set, and the add-sets and counts of the gap pass from empty add-sets and the kept counts; it covers every configured group (properties in Convergence, Idempotence and CountsAreFinalSizes) |
| Reconciliation.UpdateNeeded | src/index.py:36-85 | `update_applied`: some configured group has a non-empty remove-set or add-set (related to the planned calls by NoCallsIffNoUpdate) |
| Reconciliation.SeenMembers | src/index.py:60 | a rule is in the global set exactly when some configured group holds it |
| Reconciliation.ReadStep | src/index.py:43-61 | reading one more group adds its orphans to the remove-sets, its kept count to the counts, its rules to the global set and one revoke to the calls when its orphans are non-empty |
| Reconciliation.ReadLoopStep | src/index.py:43-61 | one iteration of the read loop takes its state for the first `i` groups to the state for the first `i + 1` |
| Reconciliation.KeptCount | src/index.py:61 | the recorded count `len(actual) - len(orphan)` is the number of desired rules the group holds |
| Reconciliation.GapIsUnheld | src/index.py:64 | no configured group holds a rule of the gap |
| Reconciliation.AddsPartitionGap | src/index.py:64-73 | the add-sets are pairwise disjoint, their union is exactly `desired - global`, and none holds a rule any group already held |
| Reconciliation.CountsAreFinalSizes | src/index.py:61-73 | after the gap pass each group's count is its number of managed rules once the plan is applied |
| Reconciliation.OnlyDesiredRemain | src/index.py:43-85 | once the plan is applied, every group holds only desired rules |
| Reconciliation.AllDesiredHeld | src/index.py:43-85 | once the plan is applied, every desired rule is held by some group |
| Reconciliation.Convergence | src/index.py:43-85 | both halves of convergence, for any gap order |
| Reconciliation.Idempotence | src/index.py:43-85 | a second run on the reconciled state finds nothing to revoke and nothing to add, for any gap orders of both runs |
| Reconciliation.NothingToDoIff | src/index.py:52-85 | no update is needed exactly when every group holds only desired rules and every desired rule is held somewhere |
| Reconciliation.EmptyDesiredRevokesAll | src/index.py:51-64 | an empty desired set revokes every managed rule of every group and adds nothing |
| Reconciliation.CallsFor | src/index.py:52-83 | each planned call is of the given kind, for a configured group, and carries that group's set, which is non-empty |
| Reconciliation.CallsForNext | src/index.py:76-83 | the calls for one more group are the earlier calls followed by that group's call, when its set is non-empty |
| Reconciliation.CallsForEmptyIff | src/index.py:52-78 | no call is planned exactly when every group's set is empty |
| Reconciliation.CallsForAgree | src/index.py:43-85 | the planned calls for a group list depend only on those groups' sets |
| Reconciliation.NoCallsIffNoUpdate | src/index.py:36-85 | a run plans a backend call exactly when `update_applied` is set |
| SecurityGroupUpdate.Ec2Client.constructor | src/index.py:17-20 | a fresh client over a snapshot of the groups, with an empty trace |
| SecurityGroupUpdate.Ec2Client.DescribeSecurityGroup | src/index.py:162-163 | a known id gives its permissions; an unknown id gives none (the call raises) |
| SecurityGroupUpdate.Ec2Client.RevokeSecurityGroupIngress | src/index.py:173-176 | appends exactly one revoke call to the trace |
| SecurityGroupUpdate.Ec2Client.AuthorizeSecurityGroupIngress | src/index.py:183-186 | appends exactly one authorize call to the trace |
| SecurityGroupUpdate.RealizesAllAt | src/index.py:168-186 | the sent calls carry out the planned ones position by position |
| SecurityGroupUpdate.SendsChain | src/index.py:43-85 | sending one list of planned calls and then another sends their concatenation |
| SecurityGroupUpdate.Desired | src/index.py:23-26 | a rule is desired exactly when its CIDR is announced by the feed and its port is managed |
| SecurityGroupUpdate.ReadGroupRules | src/index.py:145-163 | an existing group's managed rules by the corrected reader, or none for an unknown id (the `KeyError` of the reader as written is left out) |
| SecurityGroupUpdate.PermissionsFor | src/index.py:188-197 | permissions encoding the rule set in some iteration order, one record per rule |
| SecurityGroupUpdate.DeleteRules | src/index.py:168-176 | sends one revoke carrying exactly the rules, or nothing in dry-run mode |
| SecurityGroupUpdate.AddRules | src/index.py:178-186 | sends one authorize carrying exactly the rules, or nothing in dry-run mode |
| SecurityGroupUpdate.ReadAndRevoke | src/index.py:43-61 | after the groups read, the remove-sets, counts, global set and `update_applied` are those the specification functions give; it stops at the first unknown id (not at a portless permission, which is left out); exactly the planned revokes were sent, in list order |
| SecurityGroupUpdate.GapLoopStep | src/index.py:64-73 | one iteration of the gap loop keeps the order distinct, the placed and remaining rules partitioning the gap, and the tally equal to the fold over the order |
| SecurityGroupUpdate.AssignGap | src/index.py:64-73 | the loop visits every gap rule once, and its tally is the fold `Assign` over the order it took |
| SecurityGroupUpdate.AuthorizeAdds | src/index.py:76-85 | authorizes each non-empty add-set in list order, or none in dry-run mode; reports whether any was needed |
| SecurityGroupUpdate.Handler | src/index.py:15-101 | on the corrected reader, completes exactly when every group exists and there is a group for the gap; plan and `update_applied` as specified; exactly the planned calls sent, none in dry-run mode; an empty group list with a non-empty gap aborts with an unchanged trace; an unknown id aborts after the earlier groups' revokes |

## Left out

- Fetching and parsing the feed (src/index.py:119-120) is I/O. The model takes the parsed document as a `FeedDocument` value.
- The effect of `revoke_security_group_ingress` and `authorize_security_group_ingress` on the backend is left out. The client records each call in a ghost trace. Convergence and idempotence are stated on the applied plan, `(actual - orphan) + add`.
- Errors the AWS API itself can return (duplicate rule, limits, throttling, network) are foreign behaviour and are not modelled. The unknown-group failure of `describe_security_groups` is modelled.
- Every read answers from one fixed snapshot. This is exact because a group is read before anything writes to it. It would not hold with duplicate group ids, so `Handler` requires distinct ids; the source's dicts would collapse duplicates.
- The Slack report is left out: `report_slack_notification`, `build_message`, `code_block` and `get_cidr_port_friendly` (src/index.py:165-166, 199-258). It is message formatting and network glue that the reconciliation does not depend on.
- Reading configuration from the environment (`get_env_var`, src/index.py:103-115, 263-271) is left out. The port list, the group list and the dry-run flag are parameters.
- The region passed to `boto3.client` (src/index.py:17-20) is configuration of the foreign client and is left out.
- `print` logging throughout is output only and is left out.
- SecurityGroupUpdate.ReadGroupRules: reads a group with the corrected reader `RuleSets.ManagedRules`. The code as written (src/index.py:148) raises `KeyError` for a permission without `FromPort`; that failure is not modelled here and is stated separately by `RuleSets.ManagedRulesAsWritten` and `RuleSets.AllTrafficAbortsRead`.
- SecurityGroupUpdate.ReadAndRevoke: stops only at an unknown group id. The code as written also stops with `KeyError` at the first group holding a permission without `FromPort`, after the earlier groups' revokes; the model reads past it and ignores that permission.
- SecurityGroupUpdate.Handler: `Completed?` holds exactly when every group exists and the gap has a group, which is true of the corrected reader only. The program as written also aborts with `KeyError` when a group holds a permission without `FromPort`; the model completes and ignores that permission.
- Balancer.FirstMin: on a tie it picks the first least-loaded group in list order. Python 2 breaks `min` ties in dict order, which is arbitrary. The balancing, partition and sum lemmas use only that the choice is least loaded.
- The gap's iteration order is not fixed. `AssignGap` picks any remaining rule and returns the order it took as a ghost value. Every property lemma holds for every enumeration of the gap.
- Ip4Cidr.IsIp4Cidr matches the full string exactly. Python's `$` in `re.search` also matches just before a trailing newline, so the source would accept a prefix such as `1.2.3.4/5` followed by a newline; the model rejects it.

## Findings

| source | as written | input that shows it | evidently intended | confidence | as-written member | corrected member |
|---|---|---|---|---|---|---|
| src/index.py:148 | the reducer reads `item['FromPort']` for every permission before checking the protocol | a group holding an all-traffic rule: EC2 reports `IpProtocol` `"-1"` with no `FromPort`, so the read raises `KeyError` and the whole run stops | permissions that are not single-port TCP are ignored, as the comment on line 147 says | not executed; EC2 does omit the port fields for all-traffic rules | RuleSets.AllTrafficAbortsRead | RuleSets.UnmanagedIsInvisible |

The handler's model uses the corrected reading: `RuleSets.ManagedRules` skips a permission without port fields. The reading as written is `RuleSets.ManagedRulesAsWritten`. `RuleSets.AsWrittenAgrees` shows that the two readings coincide whenever every permission carries its port fields.
