/** The functions of pan.go that walk a device group of the policy store:
    getDeviceGrpObjects reads its address objects, removeFromAddrGroups,
    removeFromSecPolicies and removeFromNatPolicies edit every address group and
    rule so that it no longer names an object, and removeAddrObj deletes the
    object itself. A failed fetch ends the walk with that error; a failed edit
    or delete of one entry is printed (or, for address groups, ignored) and the
    walk goes on with the next entry. */
module Pan {
  import opened Wrappers
  import opened Named
  import opened Slices
  import opened Hosts
  import opened Client
  import opened Edits

  datatype PolicyKind = SecurityPolicy | NatPolicy

  /** A line pan.go prints when the store refuses an edit or a delete. */
  datatype Message =
    | PolicyEditError(kind: PolicyKind, deviceGroup: string, rulebase: Rulebase, rule: string)
    | DeleteObjectError(deviceGroup: string, obj: string)

  /** Standard output, as the sequence of messages printed so far. */
  class Console {
    var lines: seq<Message>

    constructor ()
      ensures lines == []
    {
      lines := [];
    }

    method Println(m: Message)
      modifies this`lines
      ensures lines == old(lines) + [m]
    {
      lines := lines + [m];
    }
  }

  /** The rulebases walked by removeFromSecPolicies and removeFromNatPolicies, in order. */
  const Rulebases: seq<Rulebase> := [PreRulebase, PostRulebase]

  /** The rulebases a walk of device group `dg` gets to edit: those before the
      first one whose fetch fails. */
  function Reached(keys: set<(string, Rulebase)>, dg: string): (rbs: seq<Rulebase>)
    ensures rbs <= Rulebases
    ensures forall rb :: rb in rbs ==> (dg, rb) in keys
    ensures |rbs| < |Rulebases| ==> (dg, Rulebases[|rbs|]) !in keys
  {
    if (dg, PreRulebase) !in keys then []
    else if (dg, PostRulebase) !in keys then [PreRulebase]
    else Rulebases
  }

  /** The rules of the store after an edit pass over the rulebases `rbs` of `dg`. */
  function RulebasesAfter<T>(m: map<(string, Rulebase), seq<T>>, nameOf: T -> string,
                             edit: (T, string) -> T, dg: string, rbs: seq<Rulebase>,
                             obj: string, rejected: set<string>): map<(string, Rulebase), seq<T>>
  {
    map key | key in m :: if key.0 == dg && key.1 in rbs then EditAll(m[key], nameOf, edit, obj, rejected) else m[key]
  }

  /** The messages printed by an edit pass over one rulebase: one per refused rule. */
  function EditErrors<T>(s: seq<T>, nameOf: T -> string, kind: PolicyKind, dg: string,
                         rb: Rulebase, rejected: set<string>): seq<Message>
  {
    if s == [] then []
    else
      var last := s[|s| - 1];
      EditErrors(s[..|s| - 1], nameOf, kind, dg, rb, rejected) +
      if nameOf(last) in rejected then [PolicyEditError(kind, dg, rb, nameOf(last))] else []
  }

  /** The messages printed by an edit pass over the rulebases `rbs` of `dg`. */
  function RulebaseErrors<T>(m: map<(string, Rulebase), seq<T>>, nameOf: T -> string, kind: PolicyKind,
                             dg: string, rbs: seq<Rulebase>, rejected: set<string>): seq<Message>
  {
    if rbs == [] then []
    else
      var rb := rbs[|rbs| - 1];
      RulebaseErrors(m, nameOf, kind, dg, rbs[..|rbs| - 1], rejected) +
      if (dg, rb) in m then EditErrors(m[(dg, rb)], nameOf, kind, dg, rb, rejected) else []
  }

  /** After one more edit, the lines printed so far are the start followed by
      the messages of the first i + 1 rules. */
  lemma EditErrorsPrinted<T>(start: seq<Message>, s: seq<T>, nameOf: T -> string, kind: PolicyKind, dg: string,
                             rb: Rulebase, rejected: set<string>, i: nat, lines: seq<Message>)
    requires i < |s|
    requires lines == start + EditErrors(s[..i], nameOf, kind, dg, rb, rejected) +
                      if nameOf(s[i]) in rejected then [PolicyEditError(kind, dg, rb, nameOf(s[i]))] else []
    ensures lines == start + EditErrors(s[..i + 1], nameOf, kind, dg, rb, rejected)
  {
    assert s[..i + 1][..i] == s[..i];
  }

  /** Before the pass nothing is printed; after it, everything. */
  lemma EditErrorsStart<T>(start: seq<Message>, s: seq<T>, nameOf: T -> string, kind: PolicyKind, dg: string,
                           rb: Rulebase, rejected: set<string>)
    ensures start == start + EditErrors(s[..0], nameOf, kind, dg, rb, rejected)
  {
    assert s[..0] == [];
  }

  lemma EditErrorsDone<T>(s: seq<T>, nameOf: T -> string, kind: PolicyKind, dg: string,
                          rb: Rulebase, rejected: set<string>)
    ensures EditErrors(s[..|s|], nameOf, kind, dg, rb, rejected) == EditErrors(s, nameOf, kind, dg, rb, rejected)
  {
    assert s[..|s|] == s;
  }

  /** Appending the messages of one more step to what was printed so far. */
  lemma PrintedStep(start: seq<Message>, printed: seq<Message>, printed': seq<Message>, step: seq<Message>,
                    lines: seq<Message>)
    requires lines == start + printed + step && printed' == printed + step
    ensures lines == start + printed'
  {
  }

  /** What a walk over rulebases leaves behind: the rules of the store, the
      messages printed, and the error that ended the walk, if any. */
  datatype Pass<T> = Pass(rules: map<(string, Rulebase), seq<T>>, printed: seq<Message>, err: Option<Error>)

  /** The walk of removeFromSecPolicies and removeFromNatPolicies over the
      rulebases `rbs` of `dg`, rulebase by rulebase: a rulebase that cannot be
      fetched ends the walk with its error; otherwise all its rules are edited
      and the refused edits printed. */
  function Walk<T>(m: map<(string, Rulebase), seq<T>>, nameOf: T -> string, edit: (T, string) -> T,
                   kind: PolicyKind, dg: string, rbs: seq<Rulebase>, obj: string, rejected: set<string>): Pass<T>
  {
    if rbs == [] then Pass(m, [], None)
    else
      var w := Walk(m, nameOf, edit, kind, dg, rbs[..|rbs| - 1], obj, rejected);
      var rb := rbs[|rbs| - 1];
      if w.err.Some? then w
      else if (dg, rb) !in w.rules then w.(err := Some(NoRulebase(dg, rb)))
      else Pass(w.rules[(dg, rb) := EditAll(w.rules[(dg, rb)], nameOf, edit, obj, rejected)],
                w.printed + EditErrors(w.rules[(dg, rb)], nameOf, kind, dg, rb, rejected),
                None)
  }

  lemma WalkStep<T>(m: map<(string, Rulebase), seq<T>>, nameOf: T -> string, edit: (T, string) -> T,
                    kind: PolicyKind, dg: string, rbs: seq<Rulebase>, j: nat, obj: string, rejected: set<string>)
    requires j < |rbs|
    ensures var w := Walk(m, nameOf, edit, kind, dg, rbs[..j], obj, rejected);
            var rb := rbs[j];
            Walk(m, nameOf, edit, kind, dg, rbs[..j + 1], obj, rejected) ==
              if w.err.Some? then w
              else if (dg, rb) !in w.rules then w.(err := Some(NoRulebase(dg, rb)))
              else Pass(w.rules[(dg, rb) := EditAll(w.rules[(dg, rb)], nameOf, edit, obj, rejected)],
                        w.printed + EditErrors(w.rules[(dg, rb)], nameOf, kind, dg, rb, rejected),
                        None)
  {
    assert rbs[..j + 1][..j] == rbs[..j];
  }

  /** Once a walk has failed, the rulebases after the failure change nothing. */
  lemma {:induction false} WalkStopped<T>(m: map<(string, Rulebase), seq<T>>, nameOf: T -> string, edit: (T, string) -> T,
                                          kind: PolicyKind, dg: string, rbs: seq<Rulebase>, j: nat, obj: string,
                                          rejected: set<string>)
    requires j <= |rbs| && Walk(m, nameOf, edit, kind, dg, rbs[..j], obj, rejected).err.Some?
    ensures Walk(m, nameOf, edit, kind, dg, rbs, obj, rejected) == Walk(m, nameOf, edit, kind, dg, rbs[..j], obj, rejected)
    decreases |rbs| - j
  {
    if j < |rbs| {
      WalkStep(m, nameOf, edit, kind, dg, rbs, j, obj, rejected);
      WalkStopped(m, nameOf, edit, kind, dg, rbs, j + 1, obj, rejected);
    } else {
      assert rbs[..j] == rbs;
    }
  }

  lemma RulebasesAfterNone<T>(m: map<(string, Rulebase), seq<T>>, nameOf: T -> string, edit: (T, string) -> T,
                              dg: string, obj: string, rejected: set<string>)
    ensures RulebasesAfter(m, nameOf, edit, dg, [], obj, rejected) == m
  {
    var b := RulebasesAfter(m, nameOf, edit, dg, [], obj, rejected);
    assert b.Keys == m.Keys;
  }

  /** Passing over one more rulebase edits exactly that rulebase. */
  lemma RulebasesAfterAppend<T>(m: map<(string, Rulebase), seq<T>>, nameOf: T -> string, edit: (T, string) -> T,
                                dg: string, rbs: seq<Rulebase>, rb: Rulebase, obj: string, rejected: set<string>)
    requires (dg, rb) in m
    ensures RulebasesAfter(m, nameOf, edit, dg, rbs + [rb], obj, rejected)
            == RulebasesAfter(m, nameOf, edit, dg, rbs, obj, rejected)[(dg, rb) := EditAll(m[(dg, rb)], nameOf, edit, obj, rejected)]
  {
    var a := RulebasesAfter(m, nameOf, edit, dg, rbs, obj, rejected)[(dg, rb) := EditAll(m[(dg, rb)], nameOf, edit, obj, rejected)];
    var b := RulebasesAfter(m, nameOf, edit, dg, rbs + [rb], obj, rejected);
    assert a.Keys == b.Keys by {
      assert a.Keys == m.Keys == b.Keys;
    }
    forall key | key in a
      ensures a[key] == b[key]
    {
      assert key.1 in rbs + [rb] <==> key.1 in rbs || key.1 == rb;
    }
  }

  lemma RulebaseErrorsAppend<T>(m: map<(string, Rulebase), seq<T>>, nameOf: T -> string, kind: PolicyKind,
                                dg: string, rbs: seq<Rulebase>, rb: Rulebase, rejected: set<string>)
    requires (dg, rb) in m
    ensures RulebaseErrors(m, nameOf, kind, dg, rbs + [rb], rejected)
            == RulebaseErrors(m, nameOf, kind, dg, rbs, rejected) + EditErrors(m[(dg, rb)], nameOf, kind, dg, rb, rejected)
  {
    assert (rbs + [rb])[..|rbs|] == rbs;
  }

  /** The walk over the pre and the post rulebase, described without steps:
      it edits the rulebases it reaches (those before the first one the store
      lacks), prints the refused edits of those in order, and fails exactly
      when it does not reach both, naming the first rulebase it could not
      fetch. */
  lemma WalkCharacterized<T>(m: map<(string, Rulebase), seq<T>>, nameOf: T -> string, edit: (T, string) -> T,
                             kind: PolicyKind, dg: string, obj: string, rejected: set<string>)
    ensures var w := Walk(m, nameOf, edit, kind, dg, Rulebases, obj, rejected);
            var reached := Reached(m.Keys, dg);
            (w.err.None? <==> reached == Rulebases) &&
            (w.err.Some? ==> w.err.value == NoRulebase(dg, Rulebases[|reached|])) &&
            w.rules == RulebasesAfter(m, nameOf, edit, dg, reached, obj, rejected) &&
            w.printed == RulebaseErrors(m, nameOf, kind, dg, reached, rejected)
  {
    WalkStep(m, nameOf, edit, kind, dg, Rulebases, 0, obj, rejected);
    WalkStep(m, nameOf, edit, kind, dg, Rulebases, 1, obj, rejected);
    assert Rulebases[..0] == [] && Rulebases[..1] == [PreRulebase] && Rulebases[..2] == Rulebases;
    if (dg, PreRulebase) !in m {
      RulebasesAfterNone(m, nameOf, edit, dg, obj, rejected);
    } else if (dg, PostRulebase) !in m {
      WalkPreOnly(m, nameOf, edit, kind, dg, obj, rejected);
    } else {
      WalkBoth(m, nameOf, edit, kind, dg, obj, rejected);
    }
  }

  lemma WalkPreOnly<T>(m: map<(string, Rulebase), seq<T>>, nameOf: T -> string, edit: (T, string) -> T,
                       kind: PolicyKind, dg: string, obj: string, rejected: set<string>)
    requires (dg, PreRulebase) in m
    ensures Walk(m, nameOf, edit, kind, dg, [PreRulebase], obj, rejected)
            == Pass(RulebasesAfter(m, nameOf, edit, dg, [PreRulebase], obj, rejected),
                    RulebaseErrors(m, nameOf, kind, dg, [PreRulebase], rejected), None)
  {
    var pre := [PreRulebase];
    assert pre[..0] == [] && pre[..1] == pre && [] + pre == pre;
    assert Walk(m, nameOf, edit, kind, dg, [], obj, rejected) == Pass(m, [], None);
    WalkStep(m, nameOf, edit, kind, dg, pre, 0, obj, rejected);
    RulebasesAfterNone(m, nameOf, edit, dg, obj, rejected);
    RulebasesAfterAppend(m, nameOf, edit, dg, [], PreRulebase, obj, rejected);
    RulebaseErrorsAppend(m, nameOf, kind, dg, [], PreRulebase, rejected);
    assert RulebaseErrors(m, nameOf, kind, dg, [], rejected) == [];
  }

  lemma WalkBoth<T>(m: map<(string, Rulebase), seq<T>>, nameOf: T -> string, edit: (T, string) -> T,
                    kind: PolicyKind, dg: string, obj: string, rejected: set<string>)
    requires (dg, PreRulebase) in m && (dg, PostRulebase) in m
    ensures Walk(m, nameOf, edit, kind, dg, Rulebases, obj, rejected)
            == Pass(RulebasesAfter(m, nameOf, edit, dg, Rulebases, obj, rejected),
                    RulebaseErrors(m, nameOf, kind, dg, Rulebases, rejected), None)
  {
    WalkPreOnly(m, nameOf, edit, kind, dg, obj, rejected);
    RulebasesAfterAppend(m, nameOf, edit, dg, [PreRulebase], PostRulebase, obj, rejected);
    RulebaseErrorsAppend(m, nameOf, kind, dg, [PreRulebase], PostRulebase, rejected);
    assert [PreRulebase] + [PostRulebase] == Rulebases;
    assert Rulebases[..1] == [PreRulebase];
  }

  /** getDeviceGrpObjects: the device group's address objects as (name, value)
      pairs, in store order; a failed fetch is returned as the error. */
  method GetDeviceGrpObjects(p: Panorama, dg: string) returns (r: Result<seq<AddrObj>, Error>)
    ensures r.Success? <==> dg in p.addresses
    ensures r.Failure? ==> r.error == NoDeviceGroup(dg)
    ensures r.Success? ==> |r.value| == |p.addresses[dg]|
    ensures r.Success? ==>
      forall k :: 0 <= k < |r.value| ==> r.value[k] == AddrObj(p.addresses[dg][k].name, p.addresses[dg][k].value)
  {
    var objs: seq<AddrObj> := [];
    var entries := p.AddressGetAll(dg);
    if entries.Failure? {
      return Failure(entries.error);
    }
    for i := 0 to |entries.value|
      invariant |objs| == i
      invariant forall k :: 0 <= k < i ==> objs[k] == AddrObj(entries.value[k].name, entries.value[k].value)
    {
      var entry := entries.value[i];
      objs := objs + [AddrObj(entry.name, entry.value)];
    }
    return Success(objs);
  }

  /** One pass of the loop of removeFromAddrGroups: group i is rebuilt
      without `obj` among its static members and written back. The outcome of
      the edit is not checked, so a refused edit leaves that group as it was
      and prints nothing. With the groups before i already edited (`base` is
      the store before the loop), group i is edited as well. */
  method EditGroupAt(p: Panorama, dg: string, groups: seq<AddressGroup>, obj: string, i: nat,
                     ghost base: map<string, seq<AddressGroup>>)
    requires p.GroupsValid() && i < |groups| && Unique(groups, GroupName)
    requires p.addressGroups == base[dg := EditAll(groups[..i], GroupName, EditedGroup, obj, p.rejected) + groups[i..]]
    modifies p`addressGroups
    ensures p.GroupsValid()
    ensures p.addressGroups == base[dg := EditAll(groups[..i + 1], GroupName, EditedGroup, obj, p.rejected) + groups[i + 1..]]
  {
    var entry := groups[i];
    var newStaticAddresses := RemoveFromSlice(entry.staticAddresses, obj);
    var newEntry := AddressGroup(entry.name, entry.description, newStaticAddresses, entry.dynamicMatch, entry.tags);
    ghost var before := p.addressGroups;
    var unchecked := p.AddressGroupEdit(dg, newEntry);
    EditedGroupKeepsNames(obj);
    EditPassStep(base, dg, groups, GroupName, EditedGroup, obj, p.rejected, i,
                 before, p.addressGroups, unchecked);
  }

  /** The loop of removeFromAddrGroups over the fetched groups of `dg`. */
  method EditAddressGroups(p: Panorama, dg: string, groups: seq<AddressGroup>, obj: string)
    requires p.GroupsValid()
    requires dg in p.addressGroups && p.addressGroups[dg] == groups
    modifies p`addressGroups
    ensures p.GroupsValid()
    ensures p.addressGroups == old(p.addressGroups)[dg := EditAll(groups, GroupName, EditedGroup, obj, p.rejected)]
  {
    EditPassStart(p.addressGroups, dg, groups, GroupName, EditedGroup, obj, p.rejected);
    assert Unique(groups, GroupName);
    for i := 0 to |groups|
      invariant p.GroupsValid()
      invariant p.addressGroups == old(p.addressGroups)[dg := EditAll(groups[..i], GroupName, EditedGroup, obj, p.rejected) + groups[i..]]
    {
      EditGroupAt(p, dg, groups, obj, i, old(p.addressGroups));
    }
    EditPassDone(old(p.addressGroups), dg, groups, GroupName, EditedGroup, obj, p.rejected);
  }

  /** removeFromAddrGroups: every address group of `dg` is edited so that its
      static members no longer name `obj`; a device group the store lacks is
      the error. */
  method RemoveFromAddrGroups(p: Panorama, dg: string, obj: string) returns (err: Option<Error>)
    requires p.Valid()
    modifies p`addressGroups
    ensures p.Valid()
    ensures err.None? <==> dg in old(p.addressGroups)
    ensures err.Some? ==> err.value == NoDeviceGroup(dg)
    ensures p.addressGroups ==
      if dg in old(p.addressGroups)
      then old(p.addressGroups)[dg := EditAll(old(p.addressGroups)[dg], GroupName, EditedGroup, obj, p.rejected)]
      else old(p.addressGroups)
  {
    var entries := p.AddressGroupGetAll(dg);
    if entries.Failure? {
      return Some(entries.error);
    }
    EditAddressGroups(p, dg, entries.value, obj);
    return None;
  }

  /** The edited copy removeFromSecPolicies builds of one security rule: a
      copy of the rule under its own name and uuid, with `obj` taken out of the
      source and destination addresses. */
  method RebuildSecurityRule(policy: SecurityRule, obj: string) returns (newPolicy: SecurityRule)
    ensures newPolicy == EditedSecurityRule(policy, obj)
  {
    newPolicy := CopySecurityRule(ZeroSecurityRule, policy);
    newPolicy := newPolicy.(name := policy.name, uuid := policy.uuid);
    var sources := RemoveFromSlice(newPolicy.sourceAddresses, obj);
    newPolicy := newPolicy.(sourceAddresses := sources);
    var destinations := RemoveFromSlice(newPolicy.destinationAddresses, obj);
    newPolicy := newPolicy.(destinationAddresses := destinations);
  }

  /** One pass of the inner loop of removeFromSecPolicies: rule i is rebuilt
      as a copy without `obj` and submitted, and a refused edit is printed.
      With the rules before i already edited (`base` and `start` are the store
      and the console before the loop), rule i is edited as well. */
  method EditSecurityRuleAt(p: Panorama, out: Console, dg: string, rulebase: Rulebase,
                            rules: seq<SecurityRule>, obj: string, i: nat,
                            ghost base: map<(string, Rulebase), seq<SecurityRule>>, ghost start: seq<Message>)
    requires p.SecurityValid() && i < |rules| && Unique(rules, SecurityName)
    requires p.securityRules == base[(dg, rulebase) := EditAll(rules[..i], SecurityName, EditedSecurityRule, obj, p.rejected) + rules[i..]]
    requires out.lines == start + EditErrors(rules[..i], SecurityName, SecurityPolicy, dg, rulebase, p.rejected)
    modifies p`securityRules, out`lines
    ensures p.SecurityValid()
    ensures p.securityRules == base[(dg, rulebase) := EditAll(rules[..i + 1], SecurityName, EditedSecurityRule, obj, p.rejected) + rules[i + 1..]]
    ensures out.lines == start + EditErrors(rules[..i + 1], SecurityName, SecurityPolicy, dg, rulebase, p.rejected)
  {
    var newPolicy := RebuildSecurityRule(rules[i], obj);
    ghost var before := p.securityRules;
    var ok := p.SecurityEdit(dg, rulebase, newPolicy);
    if !ok {
      out.Println(PolicyEditError(SecurityPolicy, dg, rulebase, newPolicy.name));
    }
    EditedSecurityRuleKeepsNames(obj);
    EditPassStep(base, (dg, rulebase), rules, SecurityName, EditedSecurityRule, obj, p.rejected, i,
                 before, p.securityRules, ok);
    EditErrorsPrinted(start, rules, SecurityName, SecurityPolicy, dg, rulebase, p.rejected, i, out.lines);
  }

  /** The inner loop of removeFromSecPolicies over the fetched rules of one
      rulebase: each rule is rebuilt as a copy without `obj` and written back;
      a refused edit is printed. */
  method EditSecurityRulebase(p: Panorama, out: Console, dg: string, rulebase: Rulebase,
                              rules: seq<SecurityRule>, obj: string)
    requires p.SecurityValid()
    requires (dg, rulebase) in p.securityRules && p.securityRules[(dg, rulebase)] == rules
    modifies p`securityRules, out`lines
    ensures p.SecurityValid()
    ensures p.securityRules == old(p.securityRules)[(dg, rulebase) := EditAll(rules, SecurityName, EditedSecurityRule, obj, p.rejected)]
    ensures out.lines == old(out.lines) + EditErrors(rules, SecurityName, SecurityPolicy, dg, rulebase, p.rejected)
  {
    EditPassStart(p.securityRules, (dg, rulebase), rules, SecurityName, EditedSecurityRule, obj, p.rejected);
    EditErrorsStart(out.lines, rules, SecurityName, SecurityPolicy, dg, rulebase, p.rejected);
    assert Unique(rules, SecurityName);
    for i := 0 to |rules|
      invariant p.SecurityValid()
      invariant p.securityRules == old(p.securityRules)[(dg, rulebase) := EditAll(rules[..i], SecurityName, EditedSecurityRule, obj, p.rejected) + rules[i..]]
      invariant out.lines == old(out.lines) + EditErrors(rules[..i], SecurityName, SecurityPolicy, dg, rulebase, p.rejected)
    {
      EditSecurityRuleAt(p, out, dg, rulebase, rules, obj, i, old(p.securityRules), old(out.lines));
    }
    EditPassDone(old(p.securityRules), (dg, rulebase), rules, SecurityName, EditedSecurityRule, obj, p.rejected);
    EditErrorsDone(rules, SecurityName, SecurityPolicy, dg, rulebase, p.rejected);
  }

  /** removeFromSecPolicies: in the pre and then the post rulebase of `dg`, every
      security rule is edited so that its source and destination addresses no
      longer name `obj`. A failed fetch returns its error at once, so a failure
      on the pre rulebase leaves the post rulebase untouched; a refused edit is
      printed and the walk goes on. */
  method RemoveFromSecPolicies(p: Panorama, out: Console, dg: string, obj: string) returns (err: Option<Error>)
    requires p.Valid()
    modifies p`securityRules, out`lines
    ensures p.Valid()
    ensures var w := Walk(old(p.securityRules), SecurityName, EditedSecurityRule, SecurityPolicy, dg, Rulebases, obj, p.rejected);
            err == w.err && p.securityRules == w.rules && out.lines == old(out.lines) + w.printed
  {
    ghost var start := p.securityRules;
    var rulebases := Rulebases;
    for j := 0 to |rulebases|
      invariant p.Valid()
      invariant var w := Walk(start, SecurityName, EditedSecurityRule, SecurityPolicy, dg, rulebases[..j], obj, p.rejected);
                w.err.None? && p.securityRules == w.rules && out.lines == old(out.lines) + w.printed
    {
      var rulebase := rulebases[j];
      WalkStep(start, SecurityName, EditedSecurityRule, SecurityPolicy, dg, rulebases, j, obj, p.rejected);
      var policies := p.SecurityGetAll(dg, rulebase);
      if policies.Failure? {
        WalkStopped(start, SecurityName, EditedSecurityRule, SecurityPolicy, dg, rulebases, j + 1, obj, p.rejected);
        return Some(policies.error);
      }
      EditSecurityRulebase(p, out, dg, rulebase, policies.value, obj);
      PrintedStep(old(out.lines), Walk(start, SecurityName, EditedSecurityRule, SecurityPolicy, dg, rulebases[..j], obj, p.rejected).printed,
                  Walk(start, SecurityName, EditedSecurityRule, SecurityPolicy, dg, rulebases[..j + 1], obj, p.rejected).printed,
                  EditErrors(policies.value, SecurityName, SecurityPolicy, dg, rulebase, p.rejected), out.lines);
    }
    assert rulebases[..|rulebases|] == rulebases;
    return None;
  }


  /** The edited copy removeFromNatPolicies builds of one NAT rule, field by
      field: the defaults the store requires, then `obj` taken out of the four
      address lists. */
  method RebuildNatRule(policy: NatRule, obj: string) returns (newPolicy: NatRule)
    ensures newPolicy == EditedNatRule(policy, obj)
  {
    newPolicy := CopyNatRule(ZeroNatRule, policy);
    newPolicy := newPolicy.(name := policy.name, uuid := policy.uuid);
    newPolicy := FillNatDefaults(newPolicy);
    var sources := RemoveFromSlice(newPolicy.sourceAddresses, obj);
    newPolicy := newPolicy.(sourceAddresses := sources);
    var destinations := RemoveFromSlice(newPolicy.destinationAddresses, obj);
    newPolicy := newPolicy.(destinationAddresses := destinations);
    var translated := RemoveFromSlice(newPolicy.satTranslatedAddresses, obj);
    newPolicy := newPolicy.(satTranslatedAddresses := translated);
    var fallback := RemoveFromSlice(newPolicy.satFallbackTranslatedAddresses, obj);
    newPolicy := newPolicy.(satFallbackTranslatedAddresses := fallback);
  }

  /** The required fields removeFromNatPolicies fills in, one after the other;
      the last step overwrites the source-translation type whenever the
      destination-translation type is empty. */
  method FillNatDefaults(rule: NatRule) returns (newPolicy: NatRule)
    ensures newPolicy == NatDefaults(rule)
  {
    newPolicy := rule;
    if newPolicy.natType == "" {
      newPolicy := newPolicy.(natType := "ipv4");
    }
    if newPolicy.toInterface == "" {
      newPolicy := newPolicy.(toInterface := "any");
    }
    if newPolicy.service == "" {
      newPolicy := newPolicy.(service := "any");
    }
    if newPolicy.satType == "" {
      newPolicy := newPolicy.(satType := "none");
    }
    if newPolicy.datType == "" {
      newPolicy := newPolicy.(satType := "none");
    }
  }


  /** One pass of the inner loop of removeFromNatPolicies, as
      EditSecurityRuleAt for NAT rules. */
  method EditNatRuleAt(p: Panorama, out: Console, dg: string, rulebase: Rulebase,
                       rules: seq<NatRule>, obj: string, i: nat,
                       ghost base: map<(string, Rulebase), seq<NatRule>>, ghost start: seq<Message>)
    requires p.NatValid() && i < |rules| && Unique(rules, NatName)
    requires p.natRules == base[(dg, rulebase) := EditAll(rules[..i], NatName, EditedNatRule, obj, p.rejected) + rules[i..]]
    requires out.lines == start + EditErrors(rules[..i], NatName, NatPolicy, dg, rulebase, p.rejected)
    modifies p`natRules, out`lines
    ensures p.NatValid()
    ensures p.natRules == base[(dg, rulebase) := EditAll(rules[..i + 1], NatName, EditedNatRule, obj, p.rejected) + rules[i + 1..]]
    ensures out.lines == start + EditErrors(rules[..i + 1], NatName, NatPolicy, dg, rulebase, p.rejected)
  {
    var newPolicy := RebuildNatRule(rules[i], obj);
    ghost var before := p.natRules;
    var ok := p.NatEdit(dg, rulebase, newPolicy);
    if !ok {
      out.Println(PolicyEditError(NatPolicy, dg, rulebase, newPolicy.name));
    }
    EditedNatRuleKeepsNames(obj);
    EditPassStep(base, (dg, rulebase), rules, NatName, EditedNatRule, obj, p.rejected, i,
                 before, p.natRules, ok);
    EditErrorsPrinted(start, rules, NatName, NatPolicy, dg, rulebase, p.rejected, i, out.lines);
  }

  /** The inner loop of removeFromNatPolicies over the fetched rules of one rulebase. */
  method EditNatRulebase(p: Panorama, out: Console, dg: string, rulebase: Rulebase,
                         rules: seq<NatRule>, obj: string)
    requires p.NatValid()
    requires (dg, rulebase) in p.natRules && p.natRules[(dg, rulebase)] == rules
    modifies p`natRules, out`lines
    ensures p.NatValid()
    ensures p.natRules == old(p.natRules)[(dg, rulebase) := EditAll(rules, NatName, EditedNatRule, obj, p.rejected)]
    ensures out.lines == old(out.lines) + EditErrors(rules, NatName, NatPolicy, dg, rulebase, p.rejected)
  {
    EditPassStart(p.natRules, (dg, rulebase), rules, NatName, EditedNatRule, obj, p.rejected);
    EditErrorsStart(out.lines, rules, NatName, NatPolicy, dg, rulebase, p.rejected);
    assert Unique(rules, NatName);
    for i := 0 to |rules|
      invariant p.NatValid()
      invariant p.natRules == old(p.natRules)[(dg, rulebase) := EditAll(rules[..i], NatName, EditedNatRule, obj, p.rejected) + rules[i..]]
      invariant out.lines == old(out.lines) + EditErrors(rules[..i], NatName, NatPolicy, dg, rulebase, p.rejected)
    {
      EditNatRuleAt(p, out, dg, rulebase, rules, obj, i, old(p.natRules), old(out.lines));
    }
    EditPassDone(old(p.natRules), (dg, rulebase), rules, NatName, EditedNatRule, obj, p.rejected);
    EditErrorsDone(rules, NatName, NatPolicy, dg, rulebase, p.rejected);
  }

  /** removeFromNatPolicies: as removeFromSecPolicies, for NAT rules, whose
      edited copy also takes `obj` out of the translated addresses and fills in
      the defaults of EditedNatRule. */
  method RemoveFromNatPolicies(p: Panorama, out: Console, dg: string, obj: string) returns (err: Option<Error>)
    requires p.Valid()
    modifies p`natRules, out`lines
    ensures p.Valid()
    ensures var w := Walk(old(p.natRules), NatName, EditedNatRule, NatPolicy, dg, Rulebases, obj, p.rejected);
            err == w.err && p.natRules == w.rules && out.lines == old(out.lines) + w.printed
  {
    ghost var start := p.natRules;
    var rulebases := Rulebases;
    for j := 0 to |rulebases|
      invariant p.Valid()
      invariant var w := Walk(start, NatName, EditedNatRule, NatPolicy, dg, rulebases[..j], obj, p.rejected);
                w.err.None? && p.natRules == w.rules && out.lines == old(out.lines) + w.printed
    {
      var rulebase := rulebases[j];
      WalkStep(start, NatName, EditedNatRule, NatPolicy, dg, rulebases, j, obj, p.rejected);
      var policies := p.NatGetAll(dg, rulebase);
      if policies.Failure? {
        WalkStopped(start, NatName, EditedNatRule, NatPolicy, dg, rulebases, j + 1, obj, p.rejected);
        return Some(policies.error);
      }
      EditNatRulebase(p, out, dg, rulebase, policies.value, obj);
      PrintedStep(old(out.lines), Walk(start, NatName, EditedNatRule, NatPolicy, dg, rulebases[..j], obj, p.rejected).printed,
                  Walk(start, NatName, EditedNatRule, NatPolicy, dg, rulebases[..j + 1], obj, p.rejected).printed,
                  EditErrors(policies.value, NatName, NatPolicy, dg, rulebase, p.rejected), out.lines);
    }
    assert rulebases[..|rulebases|] == rulebases;
    return None;
  }

  /** The loop of removeAddrObj over the listed names of `dg`: the entry named
      `obj` is deleted when it is listed. Names are unique in a device group,
      so at most one delete is issued; a refused delete is printed once and
      leaves the objects as they were. */
  method DeleteListed(p: Panorama, out: Console, dg: string, names: seq<string>, obj: string)
    requires p.AddressesValid()
    requires dg in p.addresses && names == Names(p.addresses[dg], AddressName)
    modifies p`addresses, out`lines
    ensures p.AddressesValid()
    ensures p.addresses == if obj in names && obj !in p.rejected
                           then old(p.addresses)[dg := Without(old(p.addresses)[dg], AddressName, obj)]
                           else old(p.addresses)
    ensures out.lines == old(out.lines) + if obj in names && obj in p.rejected then [DeleteObjectError(dg, obj)] else []
  {
    ghost var before := p.addresses;
    assert Unique(before[dg], AddressName);
    for i := 0 to |names|
      invariant p.AddressesValid()
      invariant p.addresses == if obj in names[..i] && obj !in p.rejected
                               then before[dg := Without(before[dg], AddressName, obj)]
                               else before
      invariant out.lines == old(out.lines) + if obj in names[..i] && obj in p.rejected then [DeleteObjectError(dg, obj)] else []
    {
      var name := names[i];
      PrefixMembership(names, i, obj);
      if name == obj {
        NamesDistinct(before[dg], AddressName, i);
        var ok := p.AddressDelete(dg, name);
        if !ok {
          out.Println(DeleteObjectError(dg, name));
        }
      }
    }
    assert names[..|names|] == names;
  }

  /** removeAddrObj: the object named `obj` is deleted from `dg` when the device
      group lists it; a device group the store lacks is the error. */
  method RemoveAddrObj(p: Panorama, out: Console, dg: string, obj: string) returns (err: Option<Error>)
    requires p.Valid()
    modifies p`addresses, out`lines
    ensures p.Valid()
    ensures err.None? <==> dg in old(p.addresses)
    ensures err.Some? ==> err.value == NoDeviceGroup(dg)
    ensures var listed := dg in old(p.addresses) && obj in Names(old(p.addresses)[dg], AddressName);
            p.addresses == if listed && obj !in p.rejected
                           then old(p.addresses)[dg := Without(old(p.addresses)[dg], AddressName, obj)]
                           else old(p.addresses)
    ensures var listed := dg in old(p.addresses) && obj in Names(old(p.addresses)[dg], AddressName);
            out.lines == old(out.lines) + if listed && obj in p.rejected then [DeleteObjectError(dg, obj)] else []
  {
    var objects := p.AddressGetList(dg);
    if objects.Failure? {
      return Some(objects.error);
    }
    DeleteListed(p, out, dg, objects.value, obj);
    return None;
  }
}
