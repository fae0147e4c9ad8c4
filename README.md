# pecomm: removing a decommissioned host from Panorama, in Dafny

pecomm finds the address objects of a Panorama that stand for hosts which no
longer answer, and removes them: from every address group, from every security
and NAT rule of the pre and the post rulebase, and finally the address object
itself. This project models the core of that removal, the functions of
`pan.go`, and proves what they do:

- `removeFromSlice` (module `Slices`): drop one name from a list and collapse
  duplicates to their first occurrence;
- `findHost` and the `addrObj` pairs built by `getDeviceGrpObjects` (modules
  `Hosts` and `Pan`): which address objects stand for a host, exactly or as
  `address/prefix-length` (CIDR notation, section 3.1 of RFC 4632);
- the edited copies of address groups, security rules and NAT rules (module
  `Edits`): only the address lists change, and NAT rules get defaults in empty
  required fields;
- the loops of `removeFromAddrGroups`, `removeFromSecPolicies`,
  `removeFromNatPolicies` and `removeAddrObj` (module `Pan`) over an abstract
  policy store (module `Client`, class `Panorama`), with their error
  behaviour: a failed fetch returns its error at once, a refused edit or delete
  is printed (for address groups: ignored) and the loop goes on.

The Panorama client is a class whose fields map a device group (or a device
group and a rulebase) to its list of entries. A fetch fails exactly when the
store has no such key; an edit or a delete fails exactly when the entry's name
is in the store's set `rejected`, one set for all four kinds of entry. An edit
replaces the entry of the same name, or adds it
(module `Named`). Within one list, names are unique (`Panorama.Valid`), and
every operation keeps it so. Printing is modelled as a `Console` whose
`lines` grow by one `Message` per printed line.

Each loop is a method whose contract ties the new store and the printed lines
to a specification function of the old store: `Kept`, `Found`, `EditAll`,
`EditErrors` and `Walk`. Lemmas then prove what those functions mean.
`KeptCharacterized` shows that `Kept` is the only duplicate-free list of the
other values in first-occurrence order. `FoundMembers` shows which pairs
`findHost` returns. `WalkCharacterized` shows which rulebases the rule edits
reach, what they leave in the store, what they print and which error they
return.

In one place `pan.go` evidently does not do what it means to, and the model
follows the code as written. The comment at pan.go:115 says the fields after it
must be set before a NAT rule can be edited, and each of the tests at
pan.go:116-127 fills in the very field it tests. The last test (pan.go:128-129)
checks the destination-translation type but assigns the source-translation
type: an explicitly set source-translation type is replaced by `"none"`, and an
empty destination-translation type stays empty. `Edits.EditedNatRule`,
`Edits.NatDefaults` and `Pan.FillNatDefaults` do what the code does, so that
the store operations describe what the tool actually submits;
`Edits.IntendedNatDefaults` is the corrected rule, stated beside them (see
"## Findings").

## Model

| member | source | states |
|---|---|---|
| Slices.RemoveFromSlice | pan.go:163-175 | the loop with its seen-map returns exactly `Kept(s, r)`, the values of `s` other than `r`, each once, at its first occurrence |
| Slices.KeptMembers | pan.go:166-172 | a value is in the result if and only if it is in `s` and differs from `r` |
| Slices.KeptExcludes | pan.go:167 | `r` never survives the removal |
| Slices.KeptDistinct | pan.go:168-171 | no value occurs twice in the result |
| Slices.KeptOrder | pan.go:166-171 | the kept values come by increasing position of their first occurrence in `s` |
| Slices.KeptCharacterized | pan.go:163-175 | a list is the removal of `r` from `s` (members, no duplicates, first-occurrence order) if and only if it equals `Kept(s, r)` |
| Slices.KeptIdempotent | pan.go:163-175 | removing the same value a second time changes nothing |
| Slices.KeptOfClean | pan.go:163-175 | a duplicate-free list without `r` passes unchanged |
| Slices.KeptLength | pan.go:166-172 | on a duplicate-free list the result is one shorter exactly when `r` was in it |
| Slices.RemoveFromSliceTestLengths | pan_test.go:21-23 | the three cases of TestRemoveFromSlice give lengths 3, 4 and 5 |
| Hosts.Matches | pan.go:37-44 | an object value matches the host exactly when it equals the host, or when the host holds no `/` and the value is the host followed by `/` and more |
| Hosts.AddressPart | pan.go:42 | the address part is a prefix of the value, holds no `/`, and is followed by `/` when shorter than the value |
| Hosts.AddressPartAt | pan.go:42 | with the first `/` at position n, the address part is the first n characters |
| Hosts.FindHost | pan.go:35-48 | the loop with its early `continue` returns exactly `Found(host, objs)`: one pair per matching object, in input order |
| Hosts.FoundMembers | pan.go:37-44 | a pair is returned if and only if its value is the host and some object of that name equals the host or has the host before its first `/` |
| Hosts.ExactAndPrefixExclusive | pan.go:37-45 | an exact match is never also a prefix match, so the `continue` never hides a second hit and each object yields at most one pair |
| Hosts.FoundAppend | pan.go:36-46 | results for a concatenation are the results of the parts, in order |
| Hosts.FoundUniqueNames | pan.go:36-46 | with unique object names, no name is returned twice |
| Hosts.FindHostTestCase | pan_test.go:41-59 | host 8.8.8.8 against the four test objects yields exactly the pair of google-dns-obj |
| Hosts.PrefixedValueMatches | pan.go:41-44 | an object whose value is `host/len` is found, and the pair carries the bare host, not the original value |
| Pan.GetDeviceGrpObjects | pan.go:22-32 | fails with the store's error exactly when the device group is missing; otherwise returns one (name, value) pair per address object, in store order |
| Client.Panorama.AddressGetAll | pan.go:24-27 | returns the device group's address objects, or fails when the store has no such device group |
| Client.Panorama.AddressGetList | pan.go:146-149 | returns the names of the device group's address objects, or fails when it is missing |
| Client.Panorama.AddressDelete | pan.go:153 | succeeds exactly when the device group exists and the name is not refused, and then removes the entries of that name; keeps names unique |
| Client.Panorama.AddressGroupGetAll | pan.go:52-55 | returns the device group's address groups, or fails when it is missing |
| Client.Panorama.AddressGroupEdit | pan.go:65 | succeeds exactly when the device group exists and the name is not refused, and then replaces or adds the group by name; keeps names unique |
| Client.Panorama.SecurityGetAll | pan.go:78-81 | returns the rules of one rulebase, or fails naming that rulebase when it is missing |
| Client.Panorama.SecurityEdit | pan.go:89 | succeeds exactly when the rulebase exists and the name is not refused, and then replaces or adds the rule by name |
| Client.Panorama.NatGetAll | pan.go:106-109 | returns the NAT rules of one rulebase, or fails naming that rulebase when it is missing |
| Client.Panorama.NatEdit | pan.go:135 | succeeds exactly when the rulebase exists and the name is not refused, and then replaces or adds the rule by name |
| Client.CopySecurityRule | pan.go:83-86 | the copy keeps the name and uuid of the zero entry it is copied into and every other field of the source |
| Client.CopyNatRule | pan.go:111-114 | as CopySecurityRule, for NAT rules |
| Named.UpsertUnique | pan.go:65 | an edit by name keeps the names of a list unique |
| Named.WithoutLength | pan.go:151-158 | with unique names, a delete by name removes one entry when the name is listed and none otherwise |
| Named.EditStep | pan.go:56-66 | with the entries before position i edited, editing entry i by name changes exactly position i, since the edits keep names |
| Edits.EditedGroup | pan.go:57-64 | the group edit keeps the group's name, and an address is a static member afterwards exactly when it was one before and is not `obj` |
| Edits.EditedSecurityRule | pan.go:83-88 | the rule edit keeps name and uuid, and an address is a source (destination) address afterwards exactly when it was one before and is not `obj` |
| Edits.EditedNatRule | pan.go:111-134 | the NAT edit keeps name and uuid, leaves `obj` in none of the four address lists, and leaves NAT type, destination interface, service and source-translation type non-empty |
| Edits.NatDefaults | pan.go:115-130 | as written: the four defaulted fields end non-empty, a set NAT type, interface or service is kept, a set source-translation type is kept only while the destination-translation type is set and becomes "none" when it is empty, and no other field changes |
| Edits.IntendedNatDefaults | pan.go:115-130 | as evidently intended: every one of the five fields, the destination-translation type included, ends non-empty, an empty one gets its default, and a set one is never changed |
| Edits.NatDefaultsAgreeWhenDatTypeSet | pan.go:128-129 | the written and the intended defaults agree exactly when the destination-translation type is set |
| Edits.EditedGroupCharacterized | pan.go:56-65 | the edited group differs from the original only in its static members, which are the removal of `obj` from the old ones |
| Edits.EditedSecurityRuleCharacterized | pan.go:82-88 | the edited rule differs from the original only in its source and destination addresses, each the removal of `obj` |
| Edits.EditedNatRuleCharacterized | pan.go:110-134 | the edited NAT rule differs from the original only in the four address lists, each the removal of `obj`, and in the four defaulted fields |
| Edits.EditedNatRuleDefaults | pan.go:115-130 | empty NAT type becomes "ipv4", empty interface and service become "any", the source-translation type is kept only when it and the destination-translation type are both set and is "none" otherwise, and the destination-translation type is unchanged |
| Edits.NatEmptyDatTypeResetsSatType | pan.go:125-130 | as written, an explicit source-translation type is overwritten when the destination-translation type is empty, and the latter stays empty |
| Edits.EditedGroupIdempotent | pan.go:56-65 | editing a group twice for the same object equals editing it once |
| Edits.EditedSecurityRuleIdempotent | pan.go:82-88 | editing a security rule twice for the same object equals editing it once |
| Edits.EditedNatRuleIdempotent | pan.go:110-134 | editing a NAT rule twice for the same object equals editing it once |
| Edits.EditedGroupKeepsNames | pan.go:58-59 | the edited group keeps the group's name, so the edit lands on the group it was built from |
| Edits.EditedSecurityRuleKeepsNames | pan.go:85 | the edited rule keeps the rule's name |
| Edits.EditedNatRuleKeepsNames | pan.go:113 | the edited NAT rule keeps the rule's name |
| Pan.EditGroupAt | pan.go:57-65 | one pass of the group loop: group i is rebuilt and submitted, so the groups up to i are edited; a refused edit changes nothing |
| Pan.EditAddressGroups | pan.go:56-66 | after the loop the device group's groups are `EditAll` of the fetched groups: every group not refused is edited, the refused ones are left as they were, and the other device groups are untouched |
| Pan.RemoveFromAddrGroups | pan.go:51-68 | fails with the fetch error, changing nothing, exactly when the device group is missing; otherwise edits every group of that device group |
| Pan.RebuildSecurityRule | pan.go:83-88 | the copy with name, uuid and filtered address lists equals `EditedSecurityRule` |
| Pan.EditSecurityRuleAt | pan.go:83-92 | one pass of the rule loop: rule i is rebuilt and submitted, and a refused edit prints one message and leaves the rule as it was |
| Pan.EditSecurityRulebase | pan.go:82-93 | the rulebase ends as `EditAll` of the fetched rules, and the lines printed are one message per refused rule, in rule order |
| Pan.RemoveFromSecPolicies | pan.go:71-96 | store, printed lines and returned error are those of `Walk` over the pre and then the post rulebase |
| Pan.WalkStopped | pan.go:78-81 | once a fetch has failed, the rulebases after it change nothing: the walk returns at once |
| Pan.WalkCharacterized | pan.go:72-95 | the walk fails exactly when it does not reach both rulebases, and then names the first missing one; it edits exactly the rulebases before that one and prints their refused edits in order |
| Pan.RebuildNatRule | pan.go:111-134 | the copy with defaults and filtered lists equals `EditedNatRule` |
| Pan.FillNatDefaults | pan.go:115-130 | the five field assignments, in order, give `NatDefaults` |
| Pan.EditNatRuleAt | pan.go:111-138 | one pass of the NAT rule loop, as EditSecurityRuleAt |
| Pan.EditNatRulebase | pan.go:110-139 | the rulebase ends as `EditAll` of the fetched NAT rules, with one message per refused rule |
| Pan.RemoveFromNatPolicies | pan.go:99-142 | store, printed lines and returned error are those of `Walk` over the pre and then the post rulebase |
| Pan.DeleteListed | pan.go:151-158 | the object named `obj` is deleted when listed; a refused delete prints one message and changes nothing; an unlisted name changes nothing |
| Pan.RemoveAddrObj | pan.go:145-160 | fails with the fetch error exactly when the device group is missing; otherwise the store loses exactly the entries named `obj` unless refused, and a refusal is printed once |

## Findings

| source | as written | input that shows it | evidently intended | confidence | as-written member | corrected member |
|---|---|---|---|---|---|---|
| pan.go:128-129 | when `DatType` is empty, `SatType` is set to `"none"` and `DatType` stays empty | a NAT rule with `SatType` `"dynamic-ip-and-port"` and an empty `DatType`: the edit submits `SatType` `"none"`, dropping its source translation | an empty `DatType` becomes `"none"`, like the four fields before it, and a set `SatType` is kept | medium, not executed | Edits.NatEmptyDatTypeResetsSatType | Edits.IntendedNatDefaults |

## Left out

- `main.go` is not part of this model. That covers credential prompting, reading the CSV of hosts, ICMP pinging, the goroutine and channel fan-out over device groups, and the order of the stages across device groups, including the skipped `"shared"` group for address-group edits. These are I/O, concurrency and orchestration around the modelled functions.
- The pango client's wire protocol and its real failure modes are abstracted. A fetch fails only when its key is missing. An edit or delete fails only for names in the store's `rejected` set, which may be any set. One set serves all four kinds of entry, so an object, a group and a rule that share a name are refused together, and a pre and a post rule of the same name likewise; no proved property depends on this.
- Errors are values of the datatype `Client.Error`, not the client's error text. A printed line is a `Pan.Message` that names the device group, the rulebase and the entry, not the exact text written to standard output.
- `Entry.Copy` of the client is taken to copy every field except the name and the uuid. `Client.CopySecurityRule` and `Client.CopyNatRule` state that assumption.
- The entry records hold the fields `pan.go` reads or writes, plus a representative selection of the others. The omitted fields would be copied unchanged like the ones kept.
- Pan.GetDeviceGrpObjects: a device group without objects yields the empty sequence; Go's difference between a nil and an empty slice is not modelled.
