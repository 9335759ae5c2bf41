/** populate_disks: for every VM pair, the downstream disks of the VM record
    are joined with the Proxmox VM's disks by name and full identifier, and
    each join pair is deleted, created or updated. */
module DiskSync {
  import opened Common
  import opened PveModels
  import opened NetboxData
  import opened Inventory
  import opened Reconcile
  import opened NetboxApi

  /** The `virtual_machine_id` filter on disks. */
  function DiskOfVm(vmId: nat): DiskData -> bool
  {
    (d: DiskData) => d.virtualMachine == vmId
  }

  /** The join predicate: the record's name is the disk's full identifier. */
  predicate DiskMatch(x: Row<DiskData>, y: PveDisk)
  {
    x.fields.name == y.id
  }

  /** prepare_disk_data under the VM record with id vmId. */
  function DiskBuild(vmId: nat): PveDisk -> DiskData
  {
    (d: PveDisk) => PrepareDiskData(d, vmId)
  }

  /** The disk table after the disks of one VM pair are synced. */
  function DisksForVm(t: TableValue<DiskData>, vm: VmPair): TableValue<DiskData>
  {
    Reconciled(t, DiskOfVm(vm.netbox.id), vm.proxmox.disks, DiskMatch, DiskBuild(vm.netbox.id))
  }

  /** populate_disks as written: a None entry (a VM deleted by populate_vms)
      cannot be unpacked, which raises TypeError after the earlier entries
      were synced. */
  function DisksRun(t: TableValue<DiskData>, entries: seq<Option<VmPair>>): (TableValue<DiskData>, Result<()>)
    decreases |entries|
  {
    if entries == [] then (t, Ok(()))
    else if entries[0].None? then (t, Err(CannotUnpackNone))
    else DisksRun(DisksForVm(t, entries[0].value), entries[1..])
  }

  /** populate_disks skipping the None entries of deleted VMs. */
  function DisksRunLive(t: TableValue<DiskData>, entries: seq<Option<VmPair>>): TableValue<DiskData>
    decreases |entries|
  {
    if entries == [] then t
    else DisksRunLive(if entries[0].Some? then DisksForVm(t, entries[0].value) else t, entries[1..])
  }

  /** The calls for one disk pair. */
  method SyncDiskPair(api: Netbox, vmId: nat, pair: JoinPair<Row<DiskData>, PveDisk>)
    requires api.disks.Valid()
    modifies api.disks
    ensures api.disks.Valid()
    ensures api.disks.Value() == ApplyAll(old(api.disks.Value()), Decide(pair, DiskBuild(vmId)))
  {
    ApplyDecide(api.disks.Value(), pair, DiskBuild(vmId));
    var (netboxDisk, proxmoxDisk) := pair;
    if proxmoxDisk.None? {
      if netboxDisk.Some? {
        api.disks.Delete(netboxDisk.value.id);
      }
      return;
    }
    var diskData := PrepareDiskData(proxmoxDisk.value, vmId);
    if netboxDisk.None? {
      var created := api.disks.Create(diskData);
      return;
    }
    api.disks.Update(netboxDisk.value.id, diskData);
  }

  /** The body of the loop over one VM pair. */
  method SyncVmDisks(api: Netbox, vm: VmPair)
    requires api.disks.Valid()
    modifies api.disks
    ensures api.disks.Valid()
    ensures api.disks.Value() == DisksForVm(old(api.disks.Value()), vm)
  {
    var vmId := vm.netbox.id;
    var netboxDisks := api.disks.Filter(DiskOfVm(vmId));
    var diskZip := FullOuterJoin(netboxDisks, vm.proxmox.disks, DiskMatch);
    SyncDiskPairs(api, vmId, diskZip);
  }

  /** The loop over one VM's disk pairs: the calls of the plan, in order. */
  method SyncDiskPairs(api: Netbox, vmId: nat, diskZip: seq<JoinPair<Row<DiskData>, PveDisk>>)
    requires api.disks.Valid()
    modifies api.disks
    ensures api.disks.Valid()
    ensures api.disks.Value() == ApplyAll(old(api.disks.Value()), Plan(diskZip, DiskBuild(vmId)))
  {
    var k := 0;
    assert diskZip[k..] == diskZip;
    while k < |diskZip|
      invariant 0 <= k <= |diskZip|
      invariant api.disks.Valid()
      invariant ApplyAll(api.disks.Value(), Plan(diskZip[k..], DiskBuild(vmId)))
        == ApplyAll(old(api.disks.Value()), Plan(diskZip, DiskBuild(vmId)))
    {
      PlanStep(api.disks.Value(), diskZip, k, DiskBuild(vmId));
      SyncDiskPair(api, vmId, diskZip[k]);
      k := k + 1;
    }
    assert diskZip[k..] == [];
  }

  /** populate_disks. */
  method PopulateDisks(api: Netbox, vmPairList: seq<Option<VmPair>>) returns (r: Result<()>)
    requires api.disks.Valid()
    modifies api.disks
    ensures api.disks.Valid()
    ensures (api.disks.Value(), r) == DisksRun(old(api.disks.Value()), vmPairList)
  {
    var i := 0;
    assert vmPairList[i..] == vmPairList;
    while i < |vmPairList|
      invariant 0 <= i <= |vmPairList|
      invariant api.disks.Valid()
      invariant DisksRun(api.disks.Value(), vmPairList[i..]) == DisksRun(old(api.disks.Value()), vmPairList)
    {
      assert vmPairList[i..][1..] == vmPairList[i + 1..];
      if vmPairList[i].None? {
        return Err(CannotUnpackNone);
      }
      SyncVmDisks(api, vmPairList[i].value);
      i := i + 1;
    }
    assert vmPairList[i..] == [];
    return Ok(());
  }

  /** populate_disks skipping the None entries of deleted VMs. */
  method PopulateDisksSkippingDeleted(api: Netbox, vmPairList: seq<Option<VmPair>>)
    requires api.disks.Valid()
    modifies api.disks
    ensures api.disks.Valid()
    ensures api.disks.Value() == DisksRunLive(old(api.disks.Value()), vmPairList)
  {
    var i := 0;
    assert vmPairList[i..] == vmPairList;
    while i < |vmPairList|
      invariant 0 <= i <= |vmPairList|
      invariant api.disks.Valid()
      invariant DisksRunLive(api.disks.Value(), vmPairList[i..]) == DisksRunLive(old(api.disks.Value()), vmPairList)
    {
      assert vmPairList[i..][1..] == vmPairList[i + 1..];
      if vmPairList[i].Some? {
        SyncVmDisks(api, vmPairList[i].value);
      }
      i := i + 1;
    }
    assert vmPairList[i..] == [];
  }

  /** The effect of one VM pair on the disks of that VM: a disk record stays
      exactly when some Proxmox disk carries its name, and then holds that
      disk's prepared fields; every Proxmox disk without a record gets a new
      one. */
  lemma DisksForVmEffect(t: TableValue<DiskData>, vm: VmPair)
    requires ValidTable(t)
    ensures ValidTable(DisksForVm(t, vm))
    ensures forall id :: id in t.rows && t.rows[id].virtualMachine == vm.netbox.id ==>
      (id in DisksForVm(t, vm).rows <==> exists d :: d in vm.proxmox.disks && d.id == t.rows[id].name)
    ensures forall id :: id in t.rows && t.rows[id].virtualMachine == vm.netbox.id && id in DisksForVm(t, vm).rows ==>
      exists d :: d in vm.proxmox.disks && d.id == t.rows[id].name
        && DisksForVm(t, vm).rows[id] == PrepareDiskData(d, vm.netbox.id)
    ensures forall d ::
      (d in vm.proxmox.disks
       && forall id :: id in t.rows && t.rows[id].virtualMachine == vm.netbox.id ==> t.rows[id].name != d.id) ==>
      exists id :: t.next <= id && id in DisksForVm(t, vm).rows
        && DisksForVm(t, vm).rows[id] == PrepareDiskData(d, vm.netbox.id)
  {
    var sel := DiskOfVm(vm.netbox.id);
    var build := DiskBuild(vm.netbox.id);
    var disks := vm.proxmox.disks;
    var A := DisksForVm(t, vm);
    forall id | id in t.rows && t.rows[id].virtualMachine == vm.netbox.id
      ensures id in A.rows <==> exists d :: d in disks && d.id == t.rows[id].name
      ensures id in A.rows ==>
        exists d :: d in disks && d.id == t.rows[id].name && A.rows[id] == PrepareDiskData(d, vm.netbox.id)
    {
      ReconcileExisting(t, sel, disks, DiskMatch, build, id);
    }
    ApplyAllValid(t, Plan(JoinSpec(Listing(t, sel), disks, DiskMatch), build));
    ReconcileCreated(t, sel, disks, DiskMatch, build);
    forall d | d in disks && (forall id :: id in t.rows && t.rows[id].virtualMachine == vm.netbox.id ==> t.rows[id].name != d.id)
      ensures exists id :: t.next <= id && id in A.rows && A.rows[id] == PrepareDiskData(d, vm.netbox.id)
    {
      assert Orphan(t, sel, DiskMatch, d);
    }
  }

  /** The disks of VMs that no entry names are never touched. */
  lemma {:induction false} DisksRunLiveKeepsOthers(t: TableValue<DiskData>, entries: seq<Option<VmPair>>, id: nat)
    requires ValidTable(t) && id in t.rows
    requires forall k :: 0 <= k < |entries| && entries[k].Some? ==> entries[k].value.netbox.id != t.rows[id].virtualMachine
    ensures ValidTable(DisksRunLive(t, entries))
    ensures id in DisksRunLive(t, entries).rows && DisksRunLive(t, entries).rows[id] == t.rows[id]
    decreases |entries|
  {
    if entries != [] {
      var t1 := if entries[0].Some? then DisksForVm(t, entries[0].value) else t;
      if entries[0].Some? {
        var vm := entries[0].value;
        ReconcileExisting(t, DiskOfVm(vm.netbox.id), vm.proxmox.disks, DiskMatch, DiskBuild(vm.netbox.id), id);
      }
      forall k | 0 <= k < |entries[1..]| && entries[1..][k].Some?
        ensures entries[1..][k].value.netbox.id != t1.rows[id].virtualMachine
      {
        assert entries[1..][k] == entries[k + 1];
      }
      DisksRunLiveKeepsOthers(t1, entries[1..], id);
    }
  }

  /** populate_disks as written raises TypeError exactly when some entry is
      None, and otherwise does what the corrected run does. */
  lemma {:induction false} DisksRunOutcome(t: TableValue<DiskData>, entries: seq<Option<VmPair>>)
    ensures DisksRun(t, entries).1 == if None in entries then Err(CannotUnpackNone) else Ok(())
    ensures None !in entries ==> DisksRun(t, entries).0 == DisksRunLive(t, entries)
    decreases |entries|
  {
    if entries != [] && entries[0].Some? {
      var t1 := DisksForVm(t, entries[0].value);
      DisksRunOutcome(t1, entries[1..]);
      assert entries == [entries[0]] + entries[1..];
      assert None in entries <==> None in entries[1..];
    }
  }

  /** A second disk sync of the same VM pair creates and deletes nothing. */
  lemma DisksForVmIdempotent(t: TableValue<DiskData>, vm: VmPair)
    requires ValidTable(t)
    ensures var t1 := DisksForVm(t, vm);
      var again := JoinSpec(Listing(t1, DiskOfVm(vm.netbox.id)), vm.proxmox.disks, DiskMatch);
      forall a :: a in Plan(again, DiskBuild(vm.netbox.id)) ==> a.Update?
  {
    var recordKey := (d: DiskData) => d.name;
    var itemKey := (p: PveDisk) => p.id;
    assert BuildKeeps(DiskOfVm(vm.netbox.id), vm.proxmox.disks, DiskBuild(vm.netbox.id), recordKey, itemKey);
    ReconcileIdempotent(t, DiskOfVm(vm.netbox.id), vm.proxmox.disks, DiskMatch, DiskBuild(vm.netbox.id),
                        recordKey, itemKey);
  }
}
