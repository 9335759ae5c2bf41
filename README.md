# netbox-pve-sync, modelled in Dafny

netbox-pve-sync mirrors the virtual machines of a Proxmox VE cluster into a
NetBox inventory. It reads the VMs of every node, with their disks,
interfaces and addresses. It then brings the NetBox records in line in
three stages, run in order by `nb_main`:

1. `populate_vms` looks up each node's hypervisor device and reconciles the
   VM records placed on it.
2. `populate_disks` reconciles each VM record's virtual disks.
3. `populate_interfaces` reconciles each VM record's interfaces and
   upserts their IP addresses.

All three stages work the same way. A generic full outer join,
`full_outer_join`, pairs the downstream records with the Proxmox entities:

- a record with no counterpart is deleted;
- an entity with no record is created;
- a matched pair is overwritten with the entity's prepared fields.

This project models that core:

- `Common`: the join, as an imperative method with its nested loops and
  flag dictionary. It is proved equal to a reference function, `JoinSpec`,
  whose pairs, order, multiplicities and length are characterised by
  lemmas.
- `Text`: the few Python string operations the entity records use (strip,
  join, split, int rendering).
- `PveModels`: the Proxmox entity constructors (`ProxmoxVM`, `PveDisk`,
  `PveInterface`, `OSInfo`) and the two string renderings the core defines
  exactly. Tag normalisation and the disk identifier split are modelled
  with their failure modes.
- `NetboxData`: the downstream record fields and the four `prepare_*`
  builders.
- `Inventory`: the NetBox API the stages call. It is a `Table` class per
  record type, with `filter`, `get`, `create`, update and delete as
  methods, each specified by a pure function on the table's value. Listing
  order is ascending record id. `get` raises ValueError when more than one
  record matches.
- `Reconcile`: the delete/create/update decision for one join pair, and
  what performing the decisions for a whole join does to a table. This
  covers the records kept, deleted and created, that records outside the
  filter are untouched, and that a second run only updates (idempotence).
- `NetboxApi`: the API object bundling the five tables, and the pair
  `(netbox_vm, proxmox_vm)` that the VM stage hands on.
- `VmSync`, `DiskSync`, `InterfaceSync`: the three stages as methods over
  the API object. Each is proved equal to a specification function of the
  old table state. The lemmas then state what those functions do,
  including every exception the Python code raises on its way.
- `Pipeline`: how the stages compose as `nb_main` runs them (`NbMain`): an exception ends the run.

The Python exceptions are modelled as values (`Result`), raised at the
same point as in the code. Effects that happened before the exception are
kept.

## Model

| member | source | states |
|---|---|---|
| Common.FullOuterJoin | utils/common.py:7-25 | the nested loops with the `second_matches` flag dictionary return exactly `JoinSpec(first, second, eq)` |
| Common.JoinBothIff | utils/common.py:15-21 | `(i, j)` is emitted iff i is in first, j is in second and eq(i, j) |
| Common.JoinLeftOnlyIff | utils/common.py:16-23 | `(i, None)` is emitted iff i is in first and matches nothing in second |
| Common.JoinRightOnlyIff | utils/common.py:14-24 | `(None, k)` is emitted iff k is in second and nothing in first matches it |
| Common.JoinPairsWellFormed | utils/common.py:7-25 | no `(None, None)` pair is produced, and every two-sided pair satisfies eq |
| Common.JoinComplete | utils/common.py:15-24 | every element of either input appears in some output pair |
| Common.JoinRightOnlyLast | utils/common.py:24 | every right-only pair comes after every pair with a left side |
| Common.JoinMultiplicity | utils/common.py:15-21 | a matching `(i, j)` occurs (occurrences of i in first) * (occurrences of j in second) times: no deduplication |
| Common.JoinRightOnlyOnce | utils/common.py:14-24 | an unmatched value of second yields exactly one `(None, k)`, however often it occurs, because the dictionary keys by value |
| Common.JoinLength | utils/common.py:12-25 | output length = true comparisons + unmatched elements of first + distinct unmatched values of second |
| Common.JoinEmptySecond | utils/common.py:22-24 | with an empty second, each element of first is paired with None, in order |
| Common.JoinEmptyFirst | utils/common.py:14-24 | with an empty first, each distinct value of second is paired with None, in first-occurrence order |
| Common.DistinctElements | utils/common.py:14 | the dictionary's key order holds each value of second exactly once |
| Text.StripShape | models/pve.py:10 | `str.strip()`: the infix left after removing whitespace at both ends, empty or beginning and ending with a non-space |
| Text.StripIdempotent | models/pve.py:10 | stripping twice is stripping once |
| Text.StripEmptyIff | models/pve.py:11 | a stripped tag is empty exactly when it was all whitespace |
| Text.SplitAtFirst | models/pve.py:48-50 | splitting a separator-free item followed by the separator and more text yields that item first, then the split of the rest |
| Text.SplitJoinRoundTrip | models/pve.py:48-50 | joining separator-free items and splitting again gives the items |
| Text.JoinSplitRoundTrip | models/pve.py:31 | splitting on a character and joining the pieces back with it gives the string again |
| Text.IntToStringRoundTrip | models/pve.py:50 | the decimal rendering of an int reads back as that int |
| PveModels.NewPveDisk | models/pve.py:28-32 | succeeds iff the identifier has a ':', else ValueError; storage is colon-free, and storage + ":" + name is the identifier |
| PveModels.DiskIdRoundTrip | models/pve.py:31 | any colon-free storage and any name come back out of the identifier they form |
| PveModels.DiskIdSplit | models/pve.py:31 | the two-way split is `split(':', 1)`: storage is the first piece of `split(':')`, name the remaining pieces joined by ':' |
| PveModels.InterfaceStr | models/pve.py:47-50 | `PveInterface.__str__`; no ensures of its own, its meaning is stated by `PveModels.InterfaceStrRoundTrip` |
| PveModels.InterfaceStrRoundTrip | models/pve.py:47-50 | for a ';'-free name and plain addresses, the rendering determines name, MTU and both address lists |
| PveModels.NewOSInfo | models/pve.py:54-59 | `id` is the one-element tuple `(os_id,)` made by the trailing comma; the other fields are stored as given |
| PveModels.OSInfoStr | models/pve.py:61-62 | `OSInfo.__str__`; no ensures of its own, its cases are stated by `PveModels.OSInfoStrCases` |
| PveModels.OSInfoStrCases | models/pve.py:61-62 | a missing pretty name renders as "None"; a non-empty one renders as itself; only an empty one falls back to name and version, or version_id when version is empty |
| PveModels.StripAll | models/pve.py:10 | the reference `map(strip)` that `NormaliseTagsMembers` is stated against: each tag is stripped, in order |
| PveModels.NormaliseTags | models/pve.py:10-11 | the tag expression; no ensures of its own, its meaning is stated by `PveModels.NormaliseTagsMembers`, `NormaliseTagsAppend` and `NormaliseTagsIdempotent` |
| PveModels.NormaliseTagsMembers | models/pve.py:10-11 | the tags kept are exactly the non-empty stripped items, never more than were given |
| PveModels.NormaliseTagsAppend | models/pve.py:10-11 | normalisation works item by item, so order is kept |
| PveModels.NormaliseTagsIdempotent | models/pve.py:10-11 | normalised tags are already normal |
| PveModels.NewProxmoxVM | models/pve.py:5-18 | succeeds iff the summary has vmid, cpus and maxmem, else KeyError naming the first one missing; uuid is vmgenid or None; missing tags give [] |
| PveModels.VmTagsNormal | models/pve.py:10-11 | every tag of a constructed VM is non-empty with no surrounding whitespace |
| NetboxData.FloorMiB | utils/netbox.py:19 | `n // 1024**2` is the floor: r * MiB <= n < (r + 1) * MiB |
| NetboxData.PrepareVmData | utils/netbox.py:10-23 | name, serial = uuid, vcpus, vmid copied; status active; site, cluster and device are the hypervisor's; memory is the floor of RAM in MiB |
| NetboxData.PrepareDiskData | utils/netbox.py:26-31 | owned by the VM record, named by the full identifier, size the floor in MiB |
| NetboxData.PrepareInterfaceData | utils/netbox.py:34-40 | owned by the VM record; name, MTU and MAC copied unchanged |
| NetboxData.PrepareIpData | utils/netbox.py:43-49 | the address verbatim, assigned to the interface record, status active |
| NetboxData.DiskNameIsFullId | utils/netbox.py:29 | the disk record's name is storage + ":" + name of the parsed identifier |
| Inventory.Table.Filter | netbox.py:18 | the records the filter selects, in ascending id order: membership iff the record is stored and selected |
| Inventory.Table.GetOne | netbox.py:77 | lookup by filter: NotFound iff nothing matches; Found gives a stored, selected record; Ambiguous when several match |
| Inventory.Table.Create | netbox.py:28 | the new record gets the next id, which was unused; nothing else changes |
| Inventory.Table.Update | netbox.py:30 | the record's fields are replaced; nothing else changes |
| Inventory.Table.Delete | netbox.py:24 | the record is removed; nothing else changes |
| Inventory.ListingShape | netbox.py:40 | a listing holds exactly the stored, selected records, strictly ascending by id |
| Inventory.ListingEmptyIff | netbox.py:15 | the listing is empty iff no stored record is selected |
| Inventory.ListingAtMostOne | netbox.py:77 | a selection that at most one record satisfies lists at most one record |
| Inventory.GetUnique | netbox.py:77 | with at most one candidate, `get` never raises; NotFound iff none matches |
| Inventory.ApplyAllValid | netbox.py:22-31 | any sequence of calls keeps every id below the next id, and the next id only grows |
| Inventory.ApplyAllOld | netbox.py:44-55 | an existing record survives iff no call deletes it; it then holds the fields of its last update (`LastUpdateOf`), or is unchanged when no call updates it |
| Inventory.ApplyAllLastUpdate | netbox.py:44-55 | a record no call deletes ends with the fields of its last update, or its old fields |
| Inventory.ApplyAllCreated | netbox.py:51-52 | every create call leaves a new record with its fields |
| Inventory.ApplyAllNewOnlyCreated | netbox.py:51-52 | every new record holds the fields of some create call |
| Reconcile.ApplyDecide | netbox.py:44-55 | one pair: a record alone is deleted, an entity alone is created, a matched pair is updated |
| Reconcile.PlanMembers | netbox.py:44 | a call is made exactly when some pair decides it |
| Reconcile.PlanCalls | netbox.py:42-55 | every delete targets a selected record no entity matches; every update a matched one; every create an entity with no record |
| Reconcile.PlannedCalls | netbox.py:42-55 | conversely, every unmatched record is deleted, every matched pair updated, every unmatched entity created |
| Reconcile.PlanTargetsBelow | netbox.py:40-46 | updates and deletes touch only records that existed before the run |
| Reconcile.ReconcileExisting | netbox.py:40-55 | records outside the filter are untouched; a selected record is deleted iff no entity matches it, otherwise it holds the fields of a matching entity |
| Reconcile.ReconcileCreated | netbox.py:51-52 | every unmatched entity gets a new record with its fields, and every new record is such an entity's |
| Reconcile.ReconciledAllClaimed | netbox.py:42-55 | with key matching, after one run every selected record is matched by some entity |
| Reconcile.ReconciledNoOrphan | netbox.py:42-55 | with key matching, after one run no entity lacks a record |
| Reconcile.ReconcileIdempotent | netbox.py:42-55 | a second run with the same entities only updates: it creates and deletes nothing |
| VmSync.Hypervisors | netbox.py:15 | one hypervisor lookup per node name, in order |
| VmSync.LookupHypervisors | netbox.py:15 | the list comprehension returns the lookups `Hypervisors` describes |
| VmSync.ProcessSinglePair | netbox.py:22-31 | the table and the returned entry are `VmStep` of the old table: delete and return None, or create/update and return the pair |
| VmSync.ProcessPairs | netbox.py:33-34 | the executor's map, in join order, leaves the table and entries `VmSteps` gives |
| VmSync.PopulateVms | netbox.py:14-35 | the whole stage: the new VM table and the result or exception are `PopulateVmsSpec` of the old state |
| VmSync.VmStepsEntries | netbox.py:22-34 | one entry per join pair, in order; an entry is present iff the Proxmox side is; a present entry pairs the written record with its VM |
| VmSync.VmStepsIsPlan | netbox.py:22-31 | the VM decisions are the generic reconciliation decisions with `prepare_vm_data` as the builder |
| VmSync.HypervisorPassReconciles | netbox.py:17-34 | one hypervisor pass reconciles the VMs on its device against all Proxmox VMs by serial = uuid |
| VmSync.HypervisorPassIdempotent | netbox.py:17-34 | repeating a pass with the same Proxmox VMs only updates |
| VmSync.DeletedVmLeavesNone | netbox.py:23-25 | a VM on the hypervisor whose serial no Proxmox VM carries is deleted, and None appears in the result |
| VmSync.CreateScenario | netbox.py:26-28 | one Proxmox VM and none downstream: exactly one create, with serial = uuid, returned paired with the input VM |
| VmSync.DeletionScenario | netbox.py:23-25 | one downstream VM and no Proxmox VM: exactly that record is deleted, and the result is [None] |
| VmSync.VmPassesStatus | netbox.py:15-35 | the loop returns iff every lookup found its hypervisor; with no node it raises UnboundLocalError |
| VmSync.VmPassesLast | netbox.py:17-35 | a returned list is the last hypervisor's pass only |
| VmSync.VmPassesMissing | netbox.py:17-35 | at the first lookup that found nothing the loop raises AttributeError, keeping the table the passes before it left |
| VmSync.PopulateVmsOutcome | netbox.py:14-35 | ValueError with no change when a lookup is ambiguous; otherwise AttributeError when a node has no hypervisor, with the table the passes over the nodes before the first such node left; UnboundLocalError iff there is no node; a list iff every node's hypervisor is found, namely the last pass's list |
| VmSync.VmCreatedOnEveryHypervisor | netbox.py:17-35 | as written, one Proxmox VM and two empty hypervisors: a record is created on each, and only the second is returned |
| VmSync.OnNode | netbox.py:17-20 | the Proxmox VMs of a node: membership iff listed and on that node |
| VmSync.PopulateVmsPerNode | netbox.py:14-35 | the corrected stage equals `PopulateVmsPerNodeSpec` of the old state |
| VmSync.HypervisorPassCovers | netbox.py:17-34 | each present entry of a pass pairs a Proxmox VM with a record holding its prepared fields; every Proxmox VM gets such an entry |
| VmSync.PerNodeEntries | netbox.py:17-34 | the corrected loop keeps earlier entries and pairs each VM of a listed node with a record on that node's hypervisor |
| VmSync.PopulateVmsPerNodeEntries | netbox.py:14-35 | the corrected stage returns a list iff every hypervisor is found (both directions); each entry is a listed VM on its own node's hypervisor, and every VM of a listed node has one |
| DiskSync.SyncDiskPair | netbox.py:44-55 | one disk pair: the table becomes the generic decision's effect with `prepare_disk_data` |
| DiskSync.SyncVmDisks | netbox.py:40-55 | one VM pair's disks: the table becomes `DisksForVm` of the old one |
| DiskSync.SyncDiskPairs | netbox.py:44-55 | the loop over one VM's disk pairs performs the reconciliation plan's calls in order |
| DiskSync.PopulateDisks | netbox.py:38-55 | the stage as written: table and outcome are `DisksRun` of the old state |
| DiskSync.PopulateDisksSkippingDeleted | netbox.py:38-55 | the corrected stage skips None entries; the table is `DisksRunLive` of the old one |
| DiskSync.DisksForVmEffect | netbox.py:40-55 | a disk record of the VM stays iff a Proxmox disk has its name and then holds that disk's prepared fields; every disk without a record gets a new one |
| DiskSync.DisksRunLiveKeepsOthers | netbox.py:38-40 | disk records of VMs that no entry names are never touched |
| DiskSync.DisksRunOutcome | netbox.py:39 | as written, TypeError exactly when some entry is None; otherwise the same as the corrected run |
| DiskSync.DisksForVmIdempotent | netbox.py:40-55 | a second disk sync of the same pair only updates |
| InterfaceSync.UpsertAddresses | netbox.py:76-83 | the address loop leaves the IP table and outcome `UpsertIps` of the old one |
| InterfaceSync.SyncIfacePair | netbox.py:64-83 | one interface pair: both tables and the outcome are `IfaceStep` of the old ones |
| InterfaceSync.SyncVmInterfaces | netbox.py:60-83 | one VM pair: both tables and the outcome are `IfacesForVm` of the old ones |
| InterfaceSync.PopulateInterfaces | netbox.py:58-83 | the stage as written: tables and outcome are `InterfacesRun` of the old state |
| InterfaceSync.PopulateInterfacesSkippingDeleted | netbox.py:58-83 | the corrected stage skips None entries: tables and outcome are `InterfacesRunLive` |
| InterfaceSync.UpsertIpEffect | netbox.py:77-83 | one upsert deletes nothing, leaves records of other addresses unchanged, writes only the prepared record, and leaves one with that address |
| InterfaceSync.UpsertIpUnique | netbox.py:77 | with unique addresses, `get(address=...)` never raises, and uniqueness is kept |
| InterfaceSync.UpsertIpsEffect | netbox.py:76-83 | the address loop deletes nothing; records of other addresses are unchanged; every written record is the prepared record of one of its addresses |
| InterfaceSync.UpsertIpsCovers | netbox.py:76-83 | a completed loop leaves a record for each address, assigned to the interface |
| InterfaceSync.UpsertIpsUnique | netbox.py:76-83 | with unique addresses the loop raises nothing and keeps them unique |
| InterfaceSync.UpsertIpsKeepsAddress | netbox.py:76-83 | an address that has a record keeps one |
| InterfaceSync.IfaceStepsIfaces | netbox.py:64-74 | a completed pass leaves the interface table the generic reconciliation gives with `prepare_interface_data` |
| InterfaceSync.IfacesForVmReconciles | netbox.py:60-74 | a completed VM pass reconciles the VM's interfaces by name |
| InterfaceSync.IfacesForVmIdempotent | netbox.py:60-74 | a second pass over the same VM only updates interfaces |
| InterfaceSync.IfaceStepIps | netbox.py:64-83 | one interface pair deletes no IP record, keeps addresses and uniqueness, and covers the entity's addresses |
| InterfaceSync.IfaceStepsIps | netbox.py:64-83 | the same over all pairs of a VM |
| InterfaceSync.IfacesForVmAddresses | netbox.py:60-83 | after a completed VM pass every IPv4 and IPv6 address of every interface has a record |
| InterfaceSync.InterfacesRunLiveIps | netbox.py:58-83 | the corrected run deletes no IP record and, with unique addresses, raises nothing |
| InterfaceSync.InterfacesRunOutcome | netbox.py:59 | as written, with unique addresses: TypeError exactly when some entry is None; otherwise the same as the corrected run |
| Pipeline.NbMain | main.py:6-13 | `nb_main`'s composition of the three stages; no ensures of its own, its outcomes are stated by `Pipeline.NbMainOutcome` |
| Pipeline.NbMainOutcome | main.py:11-13 | the run completes iff populate_vms returns a list without None; a None entry makes populate_disks raise TypeError and ends the run with the interface tables untouched; otherwise both later stages act as their None-skipping variants |
| Pipeline.DeletedVmBreaksLaterStages | main.py:11-13 | one node, one stale VM: populate_vms deletes it and returns None in its list; nb_main then stops with populate_disks' TypeError before populate_interfaces runs, and populate_interfaces, called on the same list, would raise TypeError too; skipping None succeeds |

## Left out

- Concurrency: the `ThreadPoolExecutor` in `populate_vms` is modelled as a sequential map in input order. `executor.map` returns results in that order. The order in which calls reach the server is not modelled.
- The Proxmox side is not part of this model: `pve.py` and `utils/proxmox.py` (the node, storage and guest-agent queries and the `get_proxmox_api` constructor), `config.py` and `main.py`'s I/O. `main.py` also calls `utils.common.get_netbox_api` and `utils.common.get_proxmox_api`, which `utils/common.py` does not define; the NetBox API client is a parameter of the model. The stages take the Proxmox VMs, node names and `HYPERVISOR_DEVICE_TYPE` as parameters.
- `ProxmoxVM.__str__` and `PveDisk.__str__` are left out: they render `int(x / 1024 / 1024)` with floating-point division.
- `PveModels.NewProxmoxVM`: the config's tags are taken as an already split sequence of strings. A Proxmox config gives `tags` as one `;`-separated string, which `map(strip, ...)` walks character by character; the model agrees with that only when every item is one character long. Nothing downstream reads the tags.
- `NetboxData.PrepareVmData`: the hypervisor's site and cluster are taken to be present. A device without a site or cluster, where `.id` on None raises AttributeError, is not modelled.
- `VmSync.PopulateVms` and `InterfaceSync.UpsertIp`: a found pynetbox `Record` is taken as truthy (for `if not netbox_ip` too), and `hypervisor.id` raises AttributeError only for a lookup that found nothing.
- `Inventory.Table.Filter`: NetBox's listing order is not visible in the code; the model lists records in ascending id order.
- `Common.FullOuterJoin`: the `second_matches` dictionary is keyed by value equality. On objects without `__eq__`, Python keys it by identity. The two agree when the entities are distinct values, and the model does not distinguish two equal entities.
- `Reconcile.Decide`, `VmSync.VmStep`, `VmSync.ProcessSinglePair`, `InterfaceSync.IfaceStep`, `InterfaceSync.SyncIfacePair` and `DiskSync.SyncDiskPair`: the `(None, None)` pair makes the calls nothing. In the code `None.delete()` would raise, but the join never produces that pair (`Common.JoinPairsWellFormed`).
- Server-side rejections of create, update or delete calls are not modelled: every call succeeds. NetBox turning a deleted VM's disks and interfaces into cascading deletes is not modelled either, nor NetBox deleting the IP addresses assigned to an interface that `netbox_iface.delete()` removes: `InterfaceSync.IfaceStepsIps` and `InterfaceSync.InterfacesRunLiveIps` say the code's calls delete no IP record, not that NetBox keeps every stored one.
- The code writes no "externally managed" marker, makes no primary-IP patch, writes no interface `enabled` field, and runs disks before interfaces. Descriptions of the system mention all four; the model follows the code.

## Findings

| source | as written | input that shows it | evidently intended | confidence | as-written member | corrected member |
|---|---|---|---|---|---|---|
| netbox.py:23-25,39,59 | `_process_single_pair` returns None for a deleted VM, and that None stays in the list. `populate_disks` and `populate_interfaces` unpack every entry as a pair, so a None entry raises TypeError. | one node whose hypervisor has a VM record with serial "S", and no Proxmox VM with uuid "S" | entries of deleted VMs are skipped by the later stages | not executed | Pipeline.DeletedVmBreaksLaterStages, Pipeline.NbMainOutcome, DiskSync.DisksRunOutcome, InterfaceSync.InterfacesRunOutcome | DiskSync.PopulateDisksSkippingDeleted, InterfaceSync.PopulateInterfacesSkippingDeleted, DiskSync.DisksRunLiveKeepsOthers, InterfaceSync.InterfacesRunLiveIps |
| netbox.py:17-20,34-35 | Every hypervisor pass joins its VMs against all Proxmox VMs of the cluster, so each VM is created (or kept) on every hypervisor. `result` is reassigned on every pass, so only the last hypervisor's pairs are returned. | two nodes with empty hypervisors and a single Proxmox VM | each hypervisor's VMs are joined against the Proxmox VMs of its own node, and the pairs of all passes are returned | not executed | VmSync.VmCreatedOnEveryHypervisor | VmSync.PopulateVmsPerNode, VmSync.PopulateVmsPerNodeEntries |
