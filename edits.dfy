/** The edited copies of address groups, security rules and NAT rules that
    removeFromAddrGroups, removeFromSecPolicies and removeFromNatPolicies (pan.go)
    submit to the store: only the address lists lose the removed object, and NAT
    rules get default values in required fields that are empty. */
module Edits {
  import opened Slices
  import opened Named
  import opened Client

  /** The address group removeFromAddrGroups builds: the same group with `obj`
      taken out of its static members. */
  function EditedGroup(g: AddressGroup, obj: string): (r: AddressGroup)
    ensures r.name == g.name
    ensures forall x :: x in r.staticAddresses <==> x in g.staticAddresses && x != obj
  {
    KeptMembers(g.staticAddresses, obj);
    g.(staticAddresses := Kept(g.staticAddresses, obj))
  }

  /** The security rule removeFromSecPolicies builds: the same rule with `obj`
      taken out of its source and destination addresses. */
  function EditedSecurityRule(rule: SecurityRule, obj: string): (r: SecurityRule)
    ensures r.name == rule.name && r.uuid == rule.uuid
    ensures forall x :: x in r.sourceAddresses <==> x in rule.sourceAddresses && x != obj
    ensures forall x :: x in r.destinationAddresses <==> x in rule.destinationAddresses && x != obj
  {
    KeptMembers(rule.sourceAddresses, obj);
    KeptMembers(rule.destinationAddresses, obj);
    rule.(sourceAddresses := Kept(rule.sourceAddresses, obj),
          destinationAddresses := Kept(rule.destinationAddresses, obj))
  }

  /** `v`, or `default` when `v` is empty. */
  function OrDefault(v: string, default: string): string
  {
    if v == "" then default else v
  }

  /** The NAT rule removeFromNatPolicies builds: `obj` taken out of the four
      address lists, and defaults filled into the empty required fields. As
      written, an empty destination-translation type resets the
      source-translation type to "none" and leaves the destination type empty. */
  function EditedNatRule(rule: NatRule, obj: string): (r: NatRule)
    ensures r.name == rule.name && r.uuid == rule.uuid
    ensures obj !in r.sourceAddresses && obj !in r.destinationAddresses
    ensures obj !in r.satTranslatedAddresses && obj !in r.satFallbackTranslatedAddresses
    ensures r.natType != "" && r.toInterface != "" && r.service != "" && r.satType != ""
  {
    KeptExcludes(rule.sourceAddresses, obj);
    KeptExcludes(rule.destinationAddresses, obj);
    KeptExcludes(rule.satTranslatedAddresses, obj);
    KeptExcludes(rule.satFallbackTranslatedAddresses, obj);
    NatDefaults(rule).(sourceAddresses := Kept(rule.sourceAddresses, obj),
                       destinationAddresses := Kept(rule.destinationAddresses, obj),
                       satTranslatedAddresses := Kept(rule.satTranslatedAddresses, obj),
                       satFallbackTranslatedAddresses := Kept(rule.satFallbackTranslatedAddresses, obj))
  }

  /** The NAT rule with the defaults filled in, as written: afterwards the NAT
      type, destination interface, service and source-translation type are
      never empty; the first three keep a value that was set, the
      source-translation type keeps one only while the destination-translation
      type is set, and nothing else changes. */
  function NatDefaults(rule: NatRule): (r: NatRule)
    ensures r.natType != "" && r.toInterface != "" && r.service != "" && r.satType != ""
    ensures rule.natType != "" ==> r.natType == rule.natType
    ensures rule.toInterface != "" ==> r.toInterface == rule.toInterface
    ensures rule.service != "" ==> r.service == rule.service
    ensures rule.satType != "" && rule.datType != "" ==> r.satType == rule.satType
    ensures rule.datType == "" ==> r.satType == "none"
    ensures r.(natType := rule.natType, toInterface := rule.toInterface, service := rule.service,
               satType := rule.satType) == rule
  {
    rule.(natType := OrDefault(rule.natType, "ipv4"),
          toInterface := OrDefault(rule.toInterface, "any"),
          service := OrDefault(rule.service, "any"),
          satType := if rule.datType == "" then "none" else OrDefault(rule.satType, "none"))
  }

  /** The defaults the NAT edit evidently intends: the comment at pan.go:115
      asks for these fields to be set, and each of the tests before it fills in
      the field it tests, so the last test, on the destination-translation type,
      was meant to default that field. Every empty one of the five fields gets
      its default and no field that is set changes. */
  function IntendedNatDefaults(rule: NatRule): (r: NatRule)
    ensures r.natType != "" && r.toInterface != "" && r.service != ""
    ensures r.satType != "" && r.datType != ""
    ensures rule.natType != "" ==> r.natType == rule.natType
    ensures rule.toInterface != "" ==> r.toInterface == rule.toInterface
    ensures rule.service != "" ==> r.service == rule.service
    ensures rule.satType != "" ==> r.satType == rule.satType
    ensures rule.datType != "" ==> r.datType == rule.datType
    ensures rule.datType == "" ==> r.datType == "none"
    ensures r.(natType := rule.natType, toInterface := rule.toInterface, service := rule.service,
               satType := rule.satType, datType := rule.datType) == rule
  {
    rule.(natType := OrDefault(rule.natType, "ipv4"),
          toInterface := OrDefault(rule.toInterface, "any"),
          service := OrDefault(rule.service, "any"),
          satType := OrDefault(rule.satType, "none"),
          datType := OrDefault(rule.datType, "none"))
  }

  /** The written defaults and the intended ones differ only for rules whose
      destination-translation type is empty. */
  lemma NatDefaultsAgreeWhenDatTypeSet(rule: NatRule)
    ensures rule.datType != "" <==> NatDefaults(rule) == IntendedNatDefaults(rule)
  {
    if rule.datType == "" {
      assert IntendedNatDefaults(rule).datType != NatDefaults(rule).datType;
    }
  }

  /** The edited group differs from the original only in its static members,
      which are exactly the old members other than `obj`, each once, in their
      original order. */
  lemma EditedGroupCharacterized(g: AddressGroup, obj: string)
    ensures EditedGroup(g, obj).(staticAddresses := g.staticAddresses) == g
    ensures IsRemoval(g.staticAddresses, obj, EditedGroup(g, obj).staticAddresses)
  {
    KeptCharacterized(g.staticAddresses, obj, Kept(g.staticAddresses, obj));
  }

  /** The edited security rule differs from the original only in its source and
      destination addresses, each of which is the removal of `obj`. */
  lemma EditedSecurityRuleCharacterized(rule: SecurityRule, obj: string)
    ensures var r := EditedSecurityRule(rule, obj);
            r.(sourceAddresses := rule.sourceAddresses, destinationAddresses := rule.destinationAddresses) == rule
    ensures IsRemoval(rule.sourceAddresses, obj, EditedSecurityRule(rule, obj).sourceAddresses)
    ensures IsRemoval(rule.destinationAddresses, obj, EditedSecurityRule(rule, obj).destinationAddresses)
  {
    KeptCharacterized(rule.sourceAddresses, obj, Kept(rule.sourceAddresses, obj));
    KeptCharacterized(rule.destinationAddresses, obj, Kept(rule.destinationAddresses, obj));
  }

  /** The edited NAT rule differs from the original only in the four address
      lists, each the removal of `obj`, and in the four defaulted fields. */
  lemma EditedNatRuleCharacterized(rule: NatRule, obj: string)
    ensures var r := EditedNatRule(rule, obj);
            r.(natType := rule.natType, toInterface := rule.toInterface, service := rule.service,
               satType := rule.satType,
               sourceAddresses := rule.sourceAddresses, destinationAddresses := rule.destinationAddresses,
               satTranslatedAddresses := rule.satTranslatedAddresses,
               satFallbackTranslatedAddresses := rule.satFallbackTranslatedAddresses) == rule
    ensures IsRemoval(rule.sourceAddresses, obj, EditedNatRule(rule, obj).sourceAddresses)
    ensures IsRemoval(rule.destinationAddresses, obj, EditedNatRule(rule, obj).destinationAddresses)
    ensures IsRemoval(rule.satTranslatedAddresses, obj, EditedNatRule(rule, obj).satTranslatedAddresses)
    ensures IsRemoval(rule.satFallbackTranslatedAddresses, obj, EditedNatRule(rule, obj).satFallbackTranslatedAddresses)
  {
    KeptCharacterized(rule.sourceAddresses, obj, Kept(rule.sourceAddresses, obj));
    KeptCharacterized(rule.destinationAddresses, obj, Kept(rule.destinationAddresses, obj));
    KeptCharacterized(rule.satTranslatedAddresses, obj, Kept(rule.satTranslatedAddresses, obj));
    KeptCharacterized(rule.satFallbackTranslatedAddresses, obj, Kept(rule.satFallbackTranslatedAddresses, obj));
  }

  /** The defaults of the NAT edit: an empty NAT type becomes "ipv4", an empty
      destination interface and service become "any", and the source-translation
      type keeps its value only when both it and the destination-translation type
      are set; otherwise it becomes "none". */
  lemma EditedNatRuleDefaults(rule: NatRule, obj: string)
    ensures var r := EditedNatRule(rule, obj);
            r.natType == (if rule.natType == "" then "ipv4" else rule.natType) &&
            r.toInterface == (if rule.toInterface == "" then "any" else rule.toInterface) &&
            r.service == (if rule.service == "" then "any" else rule.service) &&
            r.satType == (if rule.satType != "" && rule.datType != "" then rule.satType else "none") &&
            r.datType == rule.datType
  {
  }

  /** Editing a group a second time for the same object changes nothing more. */
  lemma EditedGroupIdempotent(g: AddressGroup, obj: string)
    ensures EditedGroup(EditedGroup(g, obj), obj) == EditedGroup(g, obj)
  {
    KeptIdempotent(g.staticAddresses, obj);
  }

  lemma EditedSecurityRuleIdempotent(rule: SecurityRule, obj: string)
    ensures EditedSecurityRule(EditedSecurityRule(rule, obj), obj) == EditedSecurityRule(rule, obj)
  {
    KeptIdempotent(rule.sourceAddresses, obj);
    KeptIdempotent(rule.destinationAddresses, obj);
  }

  /** A second NAT edit for the same object changes nothing more: the lists are
      already clean and every defaulted field is no longer empty. */
  lemma EditedNatRuleIdempotent(rule: NatRule, obj: string)
    ensures EditedNatRule(EditedNatRule(rule, obj), obj) == EditedNatRule(rule, obj)
  {
    KeptIdempotent(rule.sourceAddresses, obj);
    KeptIdempotent(rule.destinationAddresses, obj);
    KeptIdempotent(rule.satTranslatedAddresses, obj);
    KeptIdempotent(rule.satFallbackTranslatedAddresses, obj);
  }

  /** As written, an explicitly set source-translation type is overwritten with
      "none" whenever the destination-translation type is empty, and the empty
      destination-translation type itself is never given a default. */
  lemma NatEmptyDatTypeResetsSatType(rule: NatRule, obj: string)
    requires rule.datType == "" && rule.satType != "" && rule.satType != "none"
    ensures EditedNatRule(rule, obj).satType != rule.satType
    ensures EditedNatRule(rule, obj).datType == ""
  {
  }

  /** None of the three edits renames what it edits, so the store applies
      each one to the entry it was built from. */
  lemma EditedGroupKeepsNames(obj: string)
    ensures KeepsNames(GroupName, EditedGroup, obj)
  {
  }

  lemma EditedSecurityRuleKeepsNames(obj: string)
    ensures KeepsNames(SecurityName, EditedSecurityRule, obj)
  {
  }

  lemma EditedNatRuleKeepsNames(obj: string)
    ensures KeepsNames(NatName, EditedNatRule, obj)
  {
  }
}
