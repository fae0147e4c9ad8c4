/** The part of the Panorama client (the pango library) that pan.go uses, as an
    abstract policy store. The store keeps, per device group, the address objects
    and address groups, and per device group and rulebase the security and NAT
    rules. A fetch fails when the store has no such device group or rulebase; an
    edit or a delete fails when the store refuses the entry's name. */
module Client {
  import opened Wrappers
  import opened Named

  /** util.PreRulebase and util.PostRulebase. */
  datatype Rulebase = PreRulebase | PostRulebase

  datatype Error =
    | NoDeviceGroup(deviceGroup: string)
    | NoRulebase(deviceGroup: string, rulebase: Rulebase)

  /** An address object (objs/addr Entry). */
  datatype AddressEntry = AddressEntry(
    name: string,
    value: string,
    kind: string,
    description: string,
    tags: seq<string>)

  /** An address group (objs/addrgrp Entry): static members by object name. */
  datatype AddressGroup = AddressGroup(
    name: string,
    description: string,
    staticAddresses: seq<string>,
    dynamicMatch: string,
    tags: seq<string>)

  /** A security rule (poli/security Entry), with the fields pan.go touches and
      a representative selection of the others. */
  datatype SecurityRule = SecurityRule(
    name: string,
    uuid: string,
    description: string,
    tags: seq<string>,
    sourceZones: seq<string>,
    sourceAddresses: seq<string>,
    sourceUsers: seq<string>,
    destinationZones: seq<string>,
    destinationAddresses: seq<string>,
    applications: seq<string>,
    services: seq<string>,
    action: string,
    disabled: bool)

  /** A NAT rule (poli/nat Entry), with the fields pan.go touches and a
      representative selection of the others. */
  datatype NatRule = NatRule(
    name: string,
    uuid: string,
    description: string,
    natType: string,
    sourceZones: seq<string>,
    toZone: string,
    toInterface: string,
    service: string,
    sourceAddresses: seq<string>,
    destinationAddresses: seq<string>,
    satType: string,
    satAddressType: string,
    satTranslatedAddresses: seq<string>,
    satInterface: string,
    satFallbackType: string,
    satFallbackTranslatedAddresses: seq<string>,
    datType: string,
    datAddress: string,
    datPort: int,
    disabled: bool,
    tags: seq<string>)

  function AddressName(e: AddressEntry): string { e.name }
  function GroupName(g: AddressGroup): string { g.name }
  function SecurityName(r: SecurityRule): string { r.name }
  function NatName(r: NatRule): string { r.name }

  /** The zero values of Go's `var newPolicy security.Entry` and `nat.Entry`. */
  const ZeroSecurityRule := SecurityRule("", "", "", [], [], [], [], [], [], [], [], "", false)
  const ZeroNatRule := NatRule("", "", "", "", [], "", "", "", [], [], "", "", [], "", "", [], "", "", 0, false, [])

  /** Entry.Copy: every field of `src` is copied into `dst` except the name and
      the uuid, which stay those of `dst`. */
  function CopySecurityRule(dst: SecurityRule, src: SecurityRule): (r: SecurityRule)
    ensures r.name == dst.name && r.uuid == dst.uuid
    ensures r.(name := src.name, uuid := src.uuid) == src
  {
    src.(name := dst.name, uuid := dst.uuid)
  }

  function CopyNatRule(dst: NatRule, src: NatRule): (r: NatRule)
    ensures r.name == dst.name && r.uuid == dst.uuid
    ensures r.(name := src.name, uuid := src.uuid) == src
  {
    src.(name := dst.name, uuid := dst.uuid)
  }

  /** The policy store behind one Panorama session. */
  class Panorama {
    var addresses: map<string, seq<AddressEntry>>
    var addressGroups: map<string, seq<AddressGroup>>
    var securityRules: map<(string, Rulebase), seq<SecurityRule>>
    var natRules: map<(string, Rulebase), seq<NatRule>>
    /** Names of the entries whose edit or delete the store refuses. */
    const rejected: set<string>

    /** Names are unique within each list of the store. */
    ghost predicate Valid()
      reads this
    {
      AddressesValid() && GroupsValid() && SecurityValid() && NatValid()
    }

    ghost predicate AddressesValid()
      reads this`addresses
    {
      forall dg :: dg in addresses ==> Unique(addresses[dg], AddressName)
    }

    ghost predicate GroupsValid()
      reads this`addressGroups
    {
      forall dg :: dg in addressGroups ==> Unique(addressGroups[dg], GroupName)
    }

    ghost predicate SecurityValid()
      reads this`securityRules
    {
      forall key :: key in securityRules ==> Unique(securityRules[key], SecurityName)
    }

    ghost predicate NatValid()
      reads this`natRules
    {
      forall key :: key in natRules ==> Unique(natRules[key], NatName)
    }

    constructor (addresses: map<string, seq<AddressEntry>>,
                 addressGroups: map<string, seq<AddressGroup>>,
                 securityRules: map<(string, Rulebase), seq<SecurityRule>>,
                 natRules: map<(string, Rulebase), seq<NatRule>>,
                 rejected: set<string>)
      requires forall dg :: dg in addresses ==> Unique(addresses[dg], AddressName)
      requires forall dg :: dg in addressGroups ==> Unique(addressGroups[dg], GroupName)
      requires forall key :: key in securityRules ==> Unique(securityRules[key], SecurityName)
      requires forall key :: key in natRules ==> Unique(natRules[key], NatName)
      ensures Valid()
      ensures this.addresses == addresses && this.addressGroups == addressGroups
      ensures this.securityRules == securityRules && this.natRules == natRules && this.rejected == rejected
    {
      this.addresses := addresses;
      this.addressGroups := addressGroups;
      this.securityRules := securityRules;
      this.natRules := natRules;
      this.rejected := rejected;
    }

    /** Objects.Address.GetAll */
    method AddressGetAll(dg: string) returns (r: Result<seq<AddressEntry>, Error>)
      ensures r.Success? <==> dg in addresses
      ensures r.Success? ==> r.value == addresses[dg]
      ensures r.Failure? ==> r.error == NoDeviceGroup(dg)
    {
      if dg in addresses {
        r := Success(addresses[dg]);
      } else {
        r := Failure(NoDeviceGroup(dg));
      }
    }

    /** Objects.Address.GetList: the names of the device group's objects. */
    method AddressGetList(dg: string) returns (r: Result<seq<string>, Error>)
      ensures r.Success? <==> dg in addresses
      ensures r.Success? ==> r.value == Names(addresses[dg], AddressName)
      ensures r.Failure? ==> r.error == NoDeviceGroup(dg)
    {
      if dg in addresses {
        r := Success(Names(addresses[dg], AddressName));
      } else {
        r := Failure(NoDeviceGroup(dg));
      }
    }

    /** Objects.Address.Delete */
    method AddressDelete(dg: string, name: string) returns (ok: bool)
      requires AddressesValid()
      modifies this`addresses
      ensures AddressesValid()
      ensures ok <==> dg in old(addresses) && name !in rejected
      ensures addresses == if ok then old(addresses)[dg := Without(old(addresses)[dg], AddressName, name)]
                           else old(addresses)
    {
      ok := dg in addresses && name !in rejected;
      if ok {
        WithoutUnique(addresses[dg], AddressName, name);
        addresses := addresses[dg := Without(addresses[dg], AddressName, name)];
      }
    }

    /** Objects.AddressGroup.GetAll */
    method AddressGroupGetAll(dg: string) returns (r: Result<seq<AddressGroup>, Error>)
      ensures r.Success? <==> dg in addressGroups
      ensures r.Success? ==> r.value == addressGroups[dg]
      ensures r.Failure? ==> r.error == NoDeviceGroup(dg)
    {
      if dg in addressGroups {
        r := Success(addressGroups[dg]);
      } else {
        r := Failure(NoDeviceGroup(dg));
      }
    }

    /** Objects.AddressGroup.Edit */
    method AddressGroupEdit(dg: string, e: AddressGroup) returns (ok: bool)
      requires GroupsValid()
      modifies this`addressGroups
      ensures GroupsValid()
      ensures ok <==> dg in old(addressGroups) && e.name !in rejected
      ensures addressGroups == if ok then old(addressGroups)[dg := Upsert(old(addressGroups)[dg], GroupName, e)]
                               else old(addressGroups)
    {
      ok := dg in addressGroups && e.name !in rejected;
      if ok {
        UpsertUnique(addressGroups[dg], GroupName, e);
        addressGroups := addressGroups[dg := Upsert(addressGroups[dg], GroupName, e)];
      }
    }

    /** Policies.Security.GetAll */
    method SecurityGetAll(dg: string, rulebase: Rulebase) returns (r: Result<seq<SecurityRule>, Error>)
      ensures r.Success? <==> (dg, rulebase) in securityRules
      ensures r.Success? ==> r.value == securityRules[(dg, rulebase)]
      ensures r.Failure? ==> r.error == NoRulebase(dg, rulebase)
    {
      if (dg, rulebase) in securityRules {
        r := Success(securityRules[(dg, rulebase)]);
      } else {
        r := Failure(NoRulebase(dg, rulebase));
      }
    }

    /** Policies.Security.Edit */
    method SecurityEdit(dg: string, rulebase: Rulebase, e: SecurityRule) returns (ok: bool)
      requires SecurityValid()
      modifies this`securityRules
      ensures SecurityValid()
      ensures ok <==> (dg, rulebase) in old(securityRules) && e.name !in rejected
      ensures securityRules == if ok then old(securityRules)[(dg, rulebase) := Upsert(old(securityRules)[(dg, rulebase)], SecurityName, e)]
                          else old(securityRules)
    {
      ok := (dg, rulebase) in securityRules && e.name !in rejected;
      if ok {
        UpsertUnique(securityRules[(dg, rulebase)], SecurityName, e);
        securityRules := securityRules[(dg, rulebase) := Upsert(securityRules[(dg, rulebase)], SecurityName, e)];
      }
    }

    /** Policies.Nat.GetAll */
    method NatGetAll(dg: string, rulebase: Rulebase) returns (r: Result<seq<NatRule>, Error>)
      ensures r.Success? <==> (dg, rulebase) in natRules
      ensures r.Success? ==> r.value == natRules[(dg, rulebase)]
      ensures r.Failure? ==> r.error == NoRulebase(dg, rulebase)
    {
      if (dg, rulebase) in natRules {
        r := Success(natRules[(dg, rulebase)]);
      } else {
        r := Failure(NoRulebase(dg, rulebase));
      }
    }

    /** Policies.Nat.Edit */
    method NatEdit(dg: string, rulebase: Rulebase, e: NatRule) returns (ok: bool)
      requires NatValid()
      modifies this`natRules
      ensures NatValid()
      ensures ok <==> (dg, rulebase) in old(natRules) && e.name !in rejected
      ensures natRules == if ok then old(natRules)[(dg, rulebase) := Upsert(old(natRules)[(dg, rulebase)], NatName, e)]
                     else old(natRules)
    {
      ok := (dg, rulebase) in natRules && e.name !in rejected;
      if ok {
        UpsertUnique(natRules[(dg, rulebase)], NatName, e);
        natRules := natRules[(dg, rulebase) := Upsert(natRules[(dg, rulebase)], NatName, e)];
      }
    }
  }
}
