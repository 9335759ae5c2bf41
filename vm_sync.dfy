/** populate_vms: for every Proxmox node, the downstream VMs placed on that
    node's hypervisor device are joined with the Proxmox VMs by serial and
    generation UUID, and each join pair is deleted, created or updated. */
module VmSync {
  import opened Common
  import opened PveModels
  import opened NetboxData
  import opened Inventory
  import opened Reconcile
  import opened NetboxApi

  /** The `device_id` filter: VMs placed on the device with this id. */
  function OnDevice(deviceId: nat): VmData -> bool
  {
    (d: VmData) => d.device == deviceId
  }

  /** The join predicate: the record's serial is the VM's generation UUID
      (two absent values are equal, as None == None in Python). */
  predicate VmMatch(x: Row<VmData>, y: ProxmoxVM)
  {
    x.fields.serial == y.uuid
  }

  /** prepare_vm_data under a fixed hypervisor. */
  function VmBuild(hypervisor: Row<DeviceData>): ProxmoxVM -> VmData
  {
    vm => PrepareVmData(vm, hypervisor)
  }

  /** The `get(name=..., type=...)` filter on devices. */
  function NamedDevice(name: string, deviceType: string): DeviceData -> bool
  {
    (d: DeviceData) => d.name == name && d.deviceType == deviceType
  }

  /** `hypervisor.id` on a lookup that found nothing. */
  const NoneHasNoId: Exception := AttributeError("'NoneType' object has no attribute 'id'")

  /** `return result` after a loop that never ran. */
  const ResultUnbound: Exception := UnboundLocalError("result")

  /** _process_single_pair: the change to the VM table and the entry the pair
      contributes to the result list. */
  function VmStep(t: TableValue<VmData>, h: Row<DeviceData>, pair: JoinPair<Row<VmData>, ProxmoxVM>)
    : (TableValue<VmData>, Option<VmPair>)
  {
    match pair
    case (Some(nb), None) => (DeleteV(t, nb.id), None)
    case (None, Some(pv)) =>
      var data := PrepareVmData(pv, h);
      (CreateV(t, data), Some(VmPair(Row(t.next, data), pv)))
    case (Some(nb), Some(pv)) =>
      var data := PrepareVmData(pv, h);
      (UpdateV(t, nb.id, data), Some(VmPair(Row(nb.id, data), pv)))
    case (None, None) => (t, None)
  }

  /** The pairs processed in order (the executor's map keeps order). */
  function VmSteps(t: TableValue<VmData>, h: Row<DeviceData>, pairs: seq<JoinPair<Row<VmData>, ProxmoxVM>>)
    : (TableValue<VmData>, seq<Option<VmPair>>)
    decreases |pairs|
  {
    if pairs == [] then (t, [])
    else
      var (t1, e) := VmStep(t, h, pairs[0]);
      var (t2, es) := VmSteps(t1, h, pairs[1..]);
      (t2, [e] + es)
  }

  /** The join of the VMs on hypervisor h with the Proxmox VMs. */
  function VmPairs(t: TableValue<VmData>, h: Row<DeviceData>, pveVms: seq<ProxmoxVM>)
    : seq<JoinPair<Row<VmData>, ProxmoxVM>>
  {
    JoinSpec(Listing(t, OnDevice(h.id)), pveVms, VmMatch)
  }

  /** One iteration of the loop over hypervisors. */
  function HypervisorPass(t: TableValue<VmData>, h: Row<DeviceData>, pveVms: seq<ProxmoxVM>)
    : (TableValue<VmData>, seq<Option<VmPair>>)
  {
    VmSteps(t, h, VmPairs(t, h, pveVms))
  }

  /** The hypervisor lookup for every node name. */
  function Hypervisors(devices: TableValue<DeviceData>, nodes: seq<string>, deviceType: string)
    : (r: seq<Lookup<DeviceData>>)
    ensures |r| == |nodes|
  {
    seq(|nodes|, k requires 0 <= k < |nodes| => Get(Listing(devices, NamedDevice(nodes[k], deviceType))))
  }

  predicate AnyAmbiguous(hyps: seq<Lookup<DeviceData>>)
  {
    exists k :: 0 <= k < |hyps| && hyps[k].Ambiguous?
  }

  /** The loop over hypervisors: last holds the result of the latest pass;
      a hypervisor that was not found stops the loop with AttributeError. */
  function VmPasses(t: TableValue<VmData>, hyps: seq<Lookup<DeviceData>>, pveVms: seq<ProxmoxVM>,
                    last: Option<seq<Option<VmPair>>>)
    : (TableValue<VmData>, Result<seq<Option<VmPair>>>)
    decreases |hyps|
  {
    if hyps == [] then (t, if last.Some? then Ok(last.value) else Err(ResultUnbound))
    else if hyps[0].Found? then
      var (t1, r) := HypervisorPass(t, hyps[0].row, pveVms);
      VmPasses(t1, hyps[1..], pveVms, Some(r))
    else (t, Err(NoneHasNoId))
  }

  /** populate_vms: the new VM table and what the call returns or raises. */
  function PopulateVmsSpec(devices: TableValue<DeviceData>, t: TableValue<VmData>, pveVms: seq<ProxmoxVM>,
                           nodes: seq<string>, deviceType: string)
    : (TableValue<VmData>, Result<seq<Option<VmPair>>>)
  {
    var hyps := Hypervisors(devices, nodes, deviceType);
    if AnyAmbiguous(hyps) then (t, Err(MoreThanOne)) else VmPasses(t, hyps, pveVms, None)
  }

  /** _process_single_pair. */
  method ProcessSinglePair(api: Netbox, h: Row<DeviceData>, netboxVm: Option<Row<VmData>>, proxmoxVm: Option<ProxmoxVM>)
    returns (entry: Option<VmPair>)
    requires api.vms.Valid()
    modifies api.vms
    ensures api.vms.Valid()
    ensures (api.vms.Value(), entry) == VmStep(old(api.vms.Value()), h, (netboxVm, proxmoxVm))
  {
    if proxmoxVm.None? {
      if netboxVm.Some? {
        api.vms.Delete(netboxVm.value.id);
      }
      return None;
    }
    var vmData := PrepareVmData(proxmoxVm.value, h);
    if netboxVm.None? {
      var created := api.vms.Create(vmData);
      entry := Some(VmPair(created, proxmoxVm.value));
    } else {
      api.vms.Update(netboxVm.value.id, vmData);
      entry := Some(VmPair(Row(netboxVm.value.id, vmData), proxmoxVm.value));
    }
  }

  /** `list(executor.map(...))` over the join pairs, in order. */
  method ProcessPairs(api: Netbox, h: Row<DeviceData>, pairs: seq<JoinPair<Row<VmData>, ProxmoxVM>>)
    returns (entries: seq<Option<VmPair>>)
    requires api.vms.Valid()
    modifies api.vms
    ensures api.vms.Valid()
    ensures (api.vms.Value(), entries) == VmSteps(old(api.vms.Value()), h, pairs)
  {
    entries := [];
    var k := 0;
    assert pairs[k..] == pairs;
    assert api.vms.Value() == old(api.vms.Value());
    assert entries + VmSteps(api.vms.Value(), h, pairs).1 == VmSteps(api.vms.Value(), h, pairs).1;
    while k < |pairs|
      invariant 0 <= k <= |pairs|
      invariant api.vms.Valid()
      invariant VmSteps(old(api.vms.Value()), h, pairs)
        == (VmSteps(api.vms.Value(), h, pairs[k..]).0, entries + VmSteps(api.vms.Value(), h, pairs[k..]).1)
    {
      var e := ProcessSinglePair(api, h, pairs[k].0, pairs[k].1);
      assert pairs[k..][1..] == pairs[k + 1..];
      var rest := VmSteps(api.vms.Value(), h, pairs[k + 1..]).1;
      assert entries + ([e] + rest) == (entries + [e]) + rest;
      entries := entries + [e];
      k := k + 1;
    }
    assert pairs[k..] == [];
    assert entries + VmSteps(api.vms.Value(), h, []).1 == entries;
  }

  /** The list comprehension of hypervisor lookups. */
  method LookupHypervisors(api: Netbox, pveNodes: seq<string>, deviceType: string)
    returns (hyps: seq<Lookup<DeviceData>>)
    requires api.devices.Valid()
    ensures hyps == Hypervisors(api.devices.Value(), pveNodes, deviceType)
  {
    hyps := [];
    var i := 0;
    while i < |pveNodes|
      invariant 0 <= i <= |pveNodes|
      invariant hyps == Hypervisors(api.devices.Value(), pveNodes, deviceType)[..i]
    {
      var found := api.devices.GetOne(NamedDevice(pveNodes[i], deviceType));
      hyps := hyps + [found];
      i := i + 1;
    }
  }

  /** populate_vms. */
  method PopulateVms(api: Netbox, pveVms: seq<ProxmoxVM>, pveNodes: seq<string>, deviceType: string)
    returns (r: Result<seq<Option<VmPair>>>)
    requires api.Valid()
    modifies api.vms
    ensures api.Valid()
    ensures (api.vms.Value(), r) == PopulateVmsSpec(api.devices.Value(), old(api.vms.Value()), pveVms, pveNodes, deviceType)
  {
    var hyps := LookupHypervisors(api, pveNodes, deviceType);
    if AnyAmbiguous(hyps) {
      return Err(MoreThanOne);
    }
    var last: Option<seq<Option<VmPair>>> := None;
    var h := 0;
    while h < |hyps|
      invariant 0 <= h <= |hyps|
      invariant api.Valid()
      invariant VmPasses(api.vms.Value(), hyps[h..], pveVms, last) == VmPasses(old(api.vms.Value()), hyps, pveVms, None)
    {
      if !hyps[h].Found? {
        return Err(NoneHasNoId);
      }
      var hypervisor := hyps[h].row;
      var vms := api.vms.Filter(OnDevice(hypervisor.id));
      var vmZip := FullOuterJoin(vms, pveVms, VmMatch);
      var result := ProcessPairs(api, hypervisor, vmZip);
      assert hyps[h..][1..] == hyps[h + 1..];
      last := Some(result);
      h := h + 1;
    }
    r := if last.Some? then Ok(last.value) else Err(ResultUnbound);
  }

  /** The result has one entry per join pair, in join order: none for a
      deleted record, otherwise the record written (the matched record's id,
      or a fresh id for a created one) with the prepared fields, and the
      Proxmox VM of the pair. */
  lemma {:induction false} VmStepsEntries(t: TableValue<VmData>, h: Row<DeviceData>,
                                          pairs: seq<JoinPair<Row<VmData>, ProxmoxVM>>)
    ensures VmSteps(t, h, pairs).0.next >= t.next
    ensures |VmSteps(t, h, pairs).1| == |pairs|
    ensures forall k :: 0 <= k < |pairs| ==> (VmSteps(t, h, pairs).1[k].Some? <==> pairs[k].1.Some?)
    ensures forall k :: 0 <= k < |pairs| && pairs[k].1.Some? ==>
      && VmSteps(t, h, pairs).1[k].value.proxmox == pairs[k].1.value
      && VmSteps(t, h, pairs).1[k].value.netbox.fields == PrepareVmData(pairs[k].1.value, h)
      && (pairs[k].0.Some? ==> VmSteps(t, h, pairs).1[k].value.netbox.id == pairs[k].0.value.id)
      && (pairs[k].0.None? ==> VmSteps(t, h, pairs).1[k].value.netbox.id >= t.next)
    decreases |pairs|
  {
    if pairs != [] {
      var t1 := VmStep(t, h, pairs[0]).0;
      VmStepsEntries(t1, h, pairs[1..]);
      var es := VmSteps(t, h, pairs).1;
      assert es == [VmStep(t, h, pairs[0]).1] + VmSteps(t1, h, pairs[1..]).1;
      forall k | 1 <= k < |pairs| ensures pairs[k] == pairs[1..][k - 1] && es[k] == VmSteps(t1, h, pairs[1..]).1[k - 1] {
      }
    }
  }

  /** The VM decision is the generic one: its table effect is the plan's. */
  lemma {:induction false} VmStepsIsPlan(t: TableValue<VmData>, h: Row<DeviceData>,
                                         pairs: seq<JoinPair<Row<VmData>, ProxmoxVM>>)
    ensures VmSteps(t, h, pairs).0 == ApplyAll(t, Plan(pairs, VmBuild(h)))
    decreases |pairs|
  {
    if pairs != [] {
      var t1 := VmStep(t, h, pairs[0]).0;
      var d := Decide(pairs[0], VmBuild(h));
      VmStepsIsPlan(t1, h, pairs[1..]);
      assert ApplyAll(t, d) == t1;
      ApplyAllConcat(t, d, Plan(pairs[1..], VmBuild(h)));
    }
  }

  /** A hypervisor pass leaves the VM table as the generic reconciliation of
      the VMs on that hypervisor against the Proxmox VMs. */
  lemma HypervisorPassReconciles(t: TableValue<VmData>, h: Row<DeviceData>, pveVms: seq<ProxmoxVM>)
    ensures HypervisorPass(t, h, pveVms).0 == Reconciled(t, OnDevice(h.id), pveVms, VmMatch, VmBuild(h))
  {
    VmStepsIsPlan(t, h, VmPairs(t, h, pveVms));
  }

  /** Re-running a hypervisor pass with the same Proxmox VMs creates and
      deletes nothing: every planned call is an update. */
  lemma HypervisorPassIdempotent(t: TableValue<VmData>, h: Row<DeviceData>, pveVms: seq<ProxmoxVM>)
    requires ValidTable(t)
    ensures forall a :: a in Plan(VmPairs(HypervisorPass(t, h, pveVms).0, h, pveVms), VmBuild(h)) ==> a.Update?
  {
    HypervisorPassReconciles(t, h, pveVms);
    var recordKey := (d: VmData) => d.serial;
    var itemKey := (p: ProxmoxVM) => p.uuid;
    assert BuildKeeps(OnDevice(h.id), pveVms, VmBuild(h), recordKey, itemKey);
    ReconcileIdempotent(t, OnDevice(h.id), pveVms, VmMatch, VmBuild(h), recordKey, itemKey);
  }

  /** A VM on the hypervisor whose serial no Proxmox VM carries is deleted,
      and its pair puts a None entry into the result list. */
  lemma DeletedVmLeavesNone(t: TableValue<VmData>, h: Row<DeviceData>, pveVms: seq<ProxmoxVM>, id: nat)
    requires ValidTable(t)
    requires Selected(t, OnDevice(h.id), id) && !Claimed(t, pveVms, VmMatch, id)
    ensures id !in HypervisorPass(t, h, pveVms).0.rows
    ensures None in HypervisorPass(t, h, pveVms).1
  {
    var pairs := VmPairs(t, h, pveVms);
    var r := Row(id, t.rows[id]);
    ListingShape(t, OnDevice(h.id));
    JoinLeftOnlyIff(Listing(t, OnDevice(h.id)), pveVms, VmMatch, r);
    var k :| 0 <= k < |pairs| && pairs[k] == (Some(r), None);
    VmStepsEntries(t, h, pairs);
    assert HypervisorPass(t, h, pveVms).1[k] == None;
    HypervisorPassReconciles(t, h, pveVms);
    ReconcileExisting(t, OnDevice(h.id), pveVms, VmMatch, VmBuild(h), id);
  }

  /** One Proxmox VM and no downstream VM on the hypervisor: exactly one
      record is created, with the VM's UUID as serial, and the single result
      entry pairs that record with the VM. */
  lemma CreateScenario(t: TableValue<VmData>, h: Row<DeviceData>, vm: ProxmoxVM)
    requires Listing(t, OnDevice(h.id)) == []
    ensures HypervisorPass(t, h, [vm]).0 == CreateV(t, PrepareVmData(vm, h))
    ensures HypervisorPass(t, h, [vm]).1 == [Some(VmPair(Row(t.next, PrepareVmData(vm, h)), vm))]
    ensures PrepareVmData(vm, h).serial == vm.uuid
  {
    JoinEmptyFirst<Row<VmData>, ProxmoxVM>([vm], VmMatch);
    assert Distinct([vm]) == [vm] by {
      assert [vm][..0] == [];
    }
    var pairs := VmPairs(t, h, [vm]);
    var p: JoinPair<Row<VmData>, ProxmoxVM> := (None, Some(vm));
    assert pairs == [p];
    assert pairs[1..] == [];
    var step := VmStep(t, h, p);
    assert VmSteps(step.0, h, pairs[1..]) == (step.0, []);
    assert [step.1] + [] == [step.1];
    assert VmSteps(t, h, pairs) == (step.0, [step.1]);
  }

  /** One downstream VM on the hypervisor and no Proxmox VM: exactly that
      record is deleted and the result list is [None]. */
  lemma DeletionScenario(t: TableValue<VmData>, h: Row<DeviceData>, r: Row<VmData>)
    requires Listing(t, OnDevice(h.id)) == [r]
    ensures HypervisorPass(t, h, []) == (DeleteV(t, r.id), [None])
  {
    JoinEmptySecond<Row<VmData>, ProxmoxVM>([r], VmMatch);
    var pairs := VmPairs(t, h, []);
    var p: JoinPair<Row<VmData>, ProxmoxVM> := (Some(r), None);
    assert pairs == [p];
    assert pairs[1..] == [];
    var step := VmStep(t, h, p);
    assert VmSteps(step.0, h, pairs[1..]) == (step.0, []);
    assert [step.1] + [] == [step.1];
    assert VmSteps(t, h, pairs) == (step.0, [step.1]);
  }

  /** Whether the loop over hypervisors returns a list, and when it raises
      UnboundLocalError. */
  lemma {:induction false} VmPassesStatus(t: TableValue<VmData>, hyps: seq<Lookup<DeviceData>>,
                                          pveVms: seq<ProxmoxVM>, last: Option<seq<Option<VmPair>>>)
    ensures VmPasses(t, hyps, pveVms, last).1.Ok? <==>
      (forall k :: 0 <= k < |hyps| ==> hyps[k].Found?) && (hyps != [] || last.Some?)
    ensures VmPasses(t, hyps, pveVms, last).1 == Err(ResultUnbound) <==> hyps == [] && last.None?
    decreases |hyps|
  {
    if hyps != [] && hyps[0].Found? {
      var (t1, r) := HypervisorPass(t, hyps[0].row, pveVms);
      var tail := hyps[1..];
      VmPassesStatus(t1, tail, pveVms, Some(r));
      forall k | 1 <= k < |hyps| ensures hyps[k] == tail[k - 1] {
      }
    }
  }

  /** A list the loop over hypervisors returns is the pass over the last
      hypervisor, run on the table the earlier passes left. */
  lemma {:induction false} VmPassesLast(t: TableValue<VmData>, hyps: seq<Lookup<DeviceData>>,
                                        pveVms: seq<ProxmoxVM>, last: Option<seq<Option<VmPair>>>)
    requires VmPasses(t, hyps, pveVms, last).1.Ok?
    ensures forall k :: 0 <= k < |hyps| ==> hyps[k].Found?
    ensures hyps == [] ==> VmPasses(t, hyps, pveVms, last).1.value == last.value
    ensures hyps != [] ==>
      var before := VmPasses(t, hyps[..|hyps| - 1], pveVms, last).0;
      VmPasses(t, hyps, pveVms, last).1.value == HypervisorPass(before, hyps[|hyps| - 1].row, pveVms).1
    decreases |hyps|
  {
    VmPassesStatus(t, hyps, pveVms, last);
    if hyps != [] {
      var (t1, r) := HypervisorPass(t, hyps[0].row, pveVms);
      var tail := hyps[1..];
      VmPassesLast(t1, tail, pveVms, Some(r));
      if |hyps| == 1 {
        assert hyps[..0] == [];
      } else {
        assert hyps[..|hyps| - 1][1..] == tail[..|tail| - 1];
        assert hyps[..|hyps| - 1][0] == hyps[0];
        assert hyps[|hyps| - 1] == tail[|tail| - 1];
      }
    }
  }

  /** At the first hypervisor lookup that found nothing, the loop stops with
      the AttributeError of `None.id`, keeping the table the passes over the
      hypervisors before it left. */
  lemma {:induction false} VmPassesMissing(t: TableValue<VmData>, hyps: seq<Lookup<DeviceData>>,
                                           pveVms: seq<ProxmoxVM>, last: Option<seq<Option<VmPair>>>, k: nat)
    requires k < |hyps| && !hyps[k].Found?
    requires forall j :: 0 <= j < k ==> hyps[j].Found?
    ensures VmPasses(t, hyps, pveVms, last) == (VmPasses(t, hyps[..k], pveVms, last).0, Err(NoneHasNoId))
    decreases k
  {
    if k == 0 {
      assert hyps[..0] == [];
    } else {
      var (t1, r) := HypervisorPass(t, hyps[0].row, pveVms);
      var tail := hyps[1..];
      forall j | 0 <= j < k - 1 ensures tail[j].Found? {
        assert tail[j] == hyps[j + 1];
      }
      VmPassesMissing(t1, tail, pveVms, Some(r), k - 1);
      assert hyps[..k][0] == hyps[0];
      assert hyps[..k][1..] == tail[..k - 1];
    }
  }

  /** populate_vms raises ValueError, with no change, when a node name picks
      several devices; otherwise it returns a list exactly when there is at
      least one node and every node's device was found, that list being the
      pass over the last node's hypervisor; UnboundLocalError comes from an
      empty node list; a node whose device was not found raises the
      AttributeError of `None.id`, after the passes over the nodes before
      it. */
  lemma PopulateVmsOutcome(devices: TableValue<DeviceData>, t: TableValue<VmData>, pveVms: seq<ProxmoxVM>,
                           nodes: seq<string>, deviceType: string)
    ensures var hyps := Hypervisors(devices, nodes, deviceType);
      AnyAmbiguous(hyps) ==> PopulateVmsSpec(devices, t, pveVms, nodes, deviceType) == (t, Err(MoreThanOne))
    ensures var hyps := Hypervisors(devices, nodes, deviceType);
      PopulateVmsSpec(devices, t, pveVms, nodes, deviceType).1.Ok? <==>
        nodes != [] && forall k :: 0 <= k < |hyps| ==> hyps[k].Found?
    ensures PopulateVmsSpec(devices, t, pveVms, nodes, deviceType).1 == Err(ResultUnbound) <==> nodes == []
    ensures var hyps := Hypervisors(devices, nodes, deviceType);
      var r := PopulateVmsSpec(devices, t, pveVms, nodes, deviceType).1;
      r.Ok? ==>
        r.value == HypervisorPass(VmPasses(t, hyps[..|hyps| - 1], pveVms, None).0, hyps[|hyps| - 1].row, pveVms).1
    ensures var hyps := Hypervisors(devices, nodes, deviceType);
      !AnyAmbiguous(hyps) && (exists k :: 0 <= k < |hyps| && !hyps[k].Found?) ==>
        PopulateVmsSpec(devices, t, pveVms, nodes, deviceType).1 == Err(NoneHasNoId)
    ensures var hyps := Hypervisors(devices, nodes, deviceType);
      forall k :: (0 <= k < |hyps| && !AnyAmbiguous(hyps) && !hyps[k].Found? &&
                   (forall j :: 0 <= j < k ==> hyps[j].Found?)) ==>
        PopulateVmsSpec(devices, t, pveVms, nodes, deviceType) == (VmPasses(t, hyps[..k], pveVms, None).0, Err(NoneHasNoId))
  {
    var hyps := Hypervisors(devices, nodes, deviceType);
    VmPassesStatus(t, hyps, pveVms, None);
    if PopulateVmsSpec(devices, t, pveVms, nodes, deviceType).1.Ok? {
      VmPassesLast(t, hyps, pveVms, None);
    }
    forall k | 0 <= k < |hyps| && !hyps[k].Found? && (forall j :: 0 <= j < k ==> hyps[j].Found?)
      ensures VmPasses(t, hyps, pveVms, None) == (VmPasses(t, hyps[..k], pveVms, None).0, Err(NoneHasNoId))
    {
      VmPassesMissing(t, hyps, pveVms, None, k);
    }
    if !AnyAmbiguous(hyps) && exists k :: 0 <= k < |hyps| && !hyps[k].Found? {
      var k := FirstMissing(hyps);
      assert VmPasses(t, hyps, pveVms, None).1 == Err(NoneHasNoId);
    }
  }

  /** The position of the first lookup that found nothing. */
  function FirstMissing(hyps: seq<Lookup<DeviceData>>): (k: nat)
    requires exists k :: 0 <= k < |hyps| && !hyps[k].Found?
    ensures k < |hyps| && !hyps[k].Found?
    ensures forall j :: 0 <= j < k ==> hyps[j].Found?
  {
    if !hyps[0].Found? then 0 else
      assert exists k :: 0 <= k < |hyps[1..]| && !hyps[1..][k].Found? by {
        var k :| 0 <= k < |hyps| && !hyps[k].Found?;
        assert hyps[1..][k - 1] == hyps[k];
      }
      1 + FirstMissing(hyps[1..])
  }

  // ---------------------------------------------------------------------
  // Several nodes
  // ---------------------------------------------------------------------

  /** As written, each hypervisor pass joins against every Proxmox VM: with
      two hypervisors that hold no records, one Proxmox VM gets a record on
      each of them, and only the second record comes back. */
  lemma VmCreatedOnEveryHypervisor(t: TableValue<VmData>, h1: Row<DeviceData>, h2: Row<DeviceData>, vm: ProxmoxVM)
    requires ValidTable(t) && h1.id != h2.id
    requires Listing(t, OnDevice(h1.id)) == [] && Listing(t, OnDevice(h2.id)) == []
    ensures var (t2, r) := VmPasses(t, [Found(h1), Found(h2)], [vm], None);
      && t.next in t2.rows && t.next + 1 in t2.rows
      && t2.rows[t.next] == PrepareVmData(vm, h1) && t2.rows[t.next + 1] == PrepareVmData(vm, h2)
      && t2.rows[t.next].serial == t2.rows[t.next + 1].serial == vm.uuid
      && t2.rows[t.next].device == h1.id && t2.rows[t.next + 1].device == h2.id
      && r == Ok([Some(VmPair(Row(t.next + 1, PrepareVmData(vm, h2)), vm))])
  {
    var d1, d2 := PrepareVmData(vm, h1), PrepareVmData(vm, h2);
    var t1 := CreateV(t, d1);
    CreateScenario(t, h1, vm);
    OtherDeviceStillEmpty(t, d1, h2.id);
    CreateScenario(t1, h2, vm);
    TwoPasses(t, h1, h2, [vm]);
    TwoCreates(t, d1, d2);
  }

  /** Creating a record for another device leaves a device's listing empty. */
  lemma OtherDeviceStillEmpty(t: TableValue<VmData>, d: VmData, device: nat)
    requires ValidTable(t) && Listing(t, OnDevice(device)) == [] && d.device != device
    ensures Listing(CreateV(t, d), OnDevice(device)) == []
  {
    WritesKeepValid(t, 0, d);
    ListingEmptyIff(t, OnDevice(device));
    ListingEmptyIff(CreateV(t, d), OnDevice(device));
  }

  /** Two creates put their fields at the two next ids. */
  lemma TwoCreates<F>(t: TableValue<F>, a: F, b: F)
    ensures var t2 := CreateV(CreateV(t, a), b);
      && t.next in t2.rows && t.next + 1 in t2.rows
      && t2.rows[t.next] == a && t2.rows[t.next + 1] == b
  {
  }

  /** The loop over two found hypervisors runs both passes in order and
      returns the second pass's list. */
  lemma TwoPasses(t: TableValue<VmData>, h1: Row<DeviceData>, h2: Row<DeviceData>, pveVms: seq<ProxmoxVM>)
    ensures var t1 := HypervisorPass(t, h1, pveVms).0;
      VmPasses(t, [Found(h1), Found(h2)], pveVms, None)
        == (HypervisorPass(t1, h2, pveVms).0, Ok(HypervisorPass(t1, h2, pveVms).1))
  {
    var hyps: seq<Lookup<DeviceData>> := [Found(h1), Found(h2)];
    var (ta, ra) := HypervisorPass(t, h1, pveVms);
    var (tb, rb) := HypervisorPass(ta, h2, pveVms);
    assert hyps[1..] == [Found(h2)] && hyps[1..][1..] == [];
    assert VmPasses(tb, [], pveVms, Some(rb)) == (tb, Ok(rb));
    assert VmPasses(ta, [Found(h2)], pveVms, Some(ra)) == (tb, Ok(rb));
  }

  /** The Proxmox VMs that run on the node. */
  function OnNode(pveVms: seq<ProxmoxVM>, node: string): (r: seq<ProxmoxVM>)
    ensures forall v :: v in r <==> v in pveVms && v.node == node
    decreases |pveVms|
  {
    if pveVms == [] then []
    else (if pveVms[0].node == node then [pveVms[0]] else []) + OnNode(pveVms[1..], node)
  }

  /** The loop over hypervisors as evidently intended: each hypervisor is
      reconciled against the Proxmox VMs of its own node, and the entries of
      every pass are appended to done. */
  function VmPassesPerNode(t: TableValue<VmData>, nodes: seq<string>, hyps: seq<Lookup<DeviceData>>,
                           pveVms: seq<ProxmoxVM>, done: seq<Option<VmPair>>)
    : (TableValue<VmData>, Result<seq<Option<VmPair>>>)
    requires |nodes| == |hyps|
    decreases |hyps|
  {
    if hyps == [] then (t, Ok(done))
    else if hyps[0].Found? then
      var (t1, r) := HypervisorPass(t, hyps[0].row, OnNode(pveVms, nodes[0]));
      VmPassesPerNode(t1, nodes[1..], hyps[1..], pveVms, done + r)
    else (t, Err(NoneHasNoId))
  }

  /** populate_vms as evidently intended. */
  function PopulateVmsPerNodeSpec(devices: TableValue<DeviceData>, t: TableValue<VmData>, pveVms: seq<ProxmoxVM>,
                                  nodes: seq<string>, deviceType: string)
    : (TableValue<VmData>, Result<seq<Option<VmPair>>>)
  {
    var hyps := Hypervisors(devices, nodes, deviceType);
    if AnyAmbiguous(hyps) then (t, Err(MoreThanOne)) else VmPassesPerNode(t, nodes, hyps, pveVms, [])
  }

  /** populate_vms as evidently intended. */
  method PopulateVmsPerNode(api: Netbox, pveVms: seq<ProxmoxVM>, pveNodes: seq<string>, deviceType: string)
    returns (r: Result<seq<Option<VmPair>>>)
    requires api.Valid()
    modifies api.vms
    ensures api.Valid()
    ensures (api.vms.Value(), r) == PopulateVmsPerNodeSpec(api.devices.Value(), old(api.vms.Value()), pveVms, pveNodes, deviceType)
  {
    var hyps := LookupHypervisors(api, pveNodes, deviceType);
    if AnyAmbiguous(hyps) {
      return Err(MoreThanOne);
    }
    var done: seq<Option<VmPair>> := [];
    var h := 0;
    while h < |hyps|
      invariant 0 <= h <= |hyps|
      invariant api.Valid()
      invariant VmPassesPerNode(api.vms.Value(), pveNodes[h..], hyps[h..], pveVms, done)
        == VmPassesPerNode(old(api.vms.Value()), pveNodes, hyps, pveVms, [])
    {
      assert hyps[h..][1..] == hyps[h + 1..] && pveNodes[h..][1..] == pveNodes[h + 1..];
      assert hyps[h..][0] == hyps[h] && pveNodes[h..][0] == pveNodes[h];
      if !hyps[h].Found? {
        return Err(NoneHasNoId);
      }
      var hypervisor := hyps[h].row;
      var vms := api.vms.Filter(OnDevice(hypervisor.id));
      var vmZip := FullOuterJoin(vms, OnNode(pveVms, pveNodes[h]), VmMatch);
      var result := ProcessPairs(api, hypervisor, vmZip);
      done := done + result;
      h := h + 1;
    }
    r := Ok(done);
  }

  /** The entries of one pass: each present entry pairs a Proxmox VM of the
      list with its record on h, and every VM of the list has one. */
  lemma HypervisorPassCovers(t: TableValue<VmData>, h: Row<DeviceData>, pveVms: seq<ProxmoxVM>)
    ensures forall e :: e in HypervisorPass(t, h, pveVms).1 && e.Some? ==>
      e.value.proxmox in pveVms && e.value.netbox.fields == PrepareVmData(e.value.proxmox, h)
    ensures forall v :: v in pveVms ==>
      exists e :: e in HypervisorPass(t, h, pveVms).1 && e.Some? && e.value.proxmox == v
  {
    var L := Listing(t, OnDevice(h.id));
    var pairs := VmPairs(t, h, pveVms);
    var es := HypervisorPass(t, h, pveVms).1;
    VmStepsEntries(t, h, pairs);
    forall e | e in es && e.Some?
      ensures e.value.proxmox in pveVms && e.value.netbox.fields == PrepareVmData(e.value.proxmox, h)
    {
      var k :| 0 <= k < |es| && es[k] == e;
      var q := pairs[k];
      if q.0.Some? {
        JoinBothIff(L, pveVms, VmMatch, q.0.value, q.1.value);
      } else {
        JoinRightOnlyIff(L, pveVms, VmMatch, q.1.value);
      }
    }
    JoinComplete(L, pveVms, VmMatch);
    forall v | v in pveVms ensures exists e :: e in es && e.Some? && e.value.proxmox == v {
      var q :| q in pairs && q.1 == Some(v);
      var k :| 0 <= k < |pairs| && pairs[k] == q;
      assert es[k] in es;
    }
  }

  /** A present entry placed on the hypervisor of a listed node of its own VM. */
  ghost predicate OnOwnNode(nodes: seq<string>, hyps: seq<Lookup<DeviceData>>, e: VmPair)
    requires |nodes| == |hyps|
  {
    exists k :: 0 <= k < |hyps| && hyps[k].Found? && nodes[k] == e.proxmox.node
      && e.netbox.fields == PrepareVmData(e.proxmox, hyps[k].row)
  }

  /** The intended property, for the loop: every present entry added pairs a
      Proxmox VM with a record on the hypervisor of that VM's own node, and
      every Proxmox VM whose node is listed has an entry. */
  lemma {:induction false} PerNodeEntries(t: TableValue<VmData>, nodes: seq<string>, hyps: seq<Lookup<DeviceData>>,
                                          pveVms: seq<ProxmoxVM>, done: seq<Option<VmPair>>)
    requires |nodes| == |hyps| && VmPassesPerNode(t, nodes, hyps, pveVms, done).1.Ok?
    ensures forall k :: 0 <= k < |hyps| ==> hyps[k].Found?
    ensures forall e :: e in done ==> e in VmPassesPerNode(t, nodes, hyps, pveVms, done).1.value
    ensures forall e :: e in VmPassesPerNode(t, nodes, hyps, pveVms, done).1.value && e.Some? && e !in done ==>
      e.value.proxmox in pveVms && OnOwnNode(nodes, hyps, e.value)
    ensures forall k, v :: 0 <= k < |hyps| && v in pveVms && v.node == nodes[k] ==>
      exists e :: e in VmPassesPerNode(t, nodes, hyps, pveVms, done).1.value && e.Some? && e.value.proxmox == v
    decreases |hyps|
  {
    if hyps != [] {
      var h := hyps[0].row;
      var mine := OnNode(pveVms, nodes[0]);
      var (t1, r) := HypervisorPass(t, h, mine);
      var done1 := done + r;
      PerNodeEntries(t1, nodes[1..], hyps[1..], pveVms, done1);
      HypervisorPassCovers(t, h, mine);
      var all := VmPassesPerNode(t, nodes, hyps, pveVms, done).1.value;
      assert all == VmPassesPerNode(t1, nodes[1..], hyps[1..], pveVms, done1).1.value;
      forall k | 1 <= k < |hyps| ensures hyps[k] == hyps[1..][k - 1] && nodes[k] == nodes[1..][k - 1] {
      }
      forall e | e in all && e.Some? && e !in done
        ensures e.value.proxmox in pveVms && OnOwnNode(nodes, hyps, e.value)
      {
        if e in r {
          assert nodes[0] == e.value.proxmox.node;
        } else {
          var k :| 0 <= k < |hyps[1..]| && hyps[1..][k].Found? && nodes[1..][k] == e.value.proxmox.node
            && e.value.netbox.fields == PrepareVmData(e.value.proxmox, hyps[1..][k].row);
          assert nodes[k + 1] == e.value.proxmox.node && hyps[k + 1] == hyps[1..][k];
        }
      }
      forall k, v | 0 <= k < |hyps| && v in pveVms && v.node == nodes[k]
        ensures exists e :: e in all && e.Some? && e.value.proxmox == v
      {
        if k == 0 {
          var e :| e in r && e.Some? && e.value.proxmox == v;
          assert e in done1;
        } else {
          assert nodes[1..][k - 1] == v.node;
        }
      }
    }
  }

  /** populate_vms as evidently intended: it returns a list exactly when
      every node's hypervisor was found (an empty node list gives an empty
      list); every present entry pairs a Proxmox VM with a record on the
      hypervisor of its own node, and every Proxmox VM on a listed node has
      an entry. */
  lemma PopulateVmsPerNodeEntries(devices: TableValue<DeviceData>, t: TableValue<VmData>, pveVms: seq<ProxmoxVM>,
                                  nodes: seq<string>, deviceType: string)
    ensures var hyps := Hypervisors(devices, nodes, deviceType);
      PopulateVmsPerNodeSpec(devices, t, pveVms, nodes, deviceType).1.Ok? <==>
        forall k :: 0 <= k < |hyps| ==> hyps[k].Found?
    ensures var hyps := Hypervisors(devices, nodes, deviceType);
      var res := PopulateVmsPerNodeSpec(devices, t, pveVms, nodes, deviceType).1;
      res.Ok? ==>
        && (forall e :: e in res.value && e.Some? ==> e.value.proxmox in pveVms && OnOwnNode(nodes, hyps, e.value))
        && (forall v :: v in pveVms && v.node in nodes ==> exists e :: e in res.value && e.Some? && e.value.proxmox == v)
  {
    var hyps := Hypervisors(devices, nodes, deviceType);
    var res := PopulateVmsPerNodeSpec(devices, t, pveVms, nodes, deviceType).1;
    if forall k :: 0 <= k < |hyps| ==> hyps[k].Found? {
      VmPassesPerNodeOk(t, nodes, hyps, pveVms, []);
    }
    if res.Ok? {
      PerNodeEntries(t, nodes, hyps, pveVms, []);
      forall v | v in pveVms && v.node in nodes
        ensures exists e :: e in res.value && e.Some? && e.value.proxmox == v
      {
        var k :| 0 <= k < |nodes| && nodes[k] == v.node;
      }
    }
  }

  /** The intended loop returns a list whenever every lookup found its
      hypervisor. */
  lemma {:induction false} VmPassesPerNodeOk(t: TableValue<VmData>, nodes: seq<string>, hyps: seq<Lookup<DeviceData>>,
                                             pveVms: seq<ProxmoxVM>, done: seq<Option<VmPair>>)
    requires |nodes| == |hyps|
    requires forall k :: 0 <= k < |hyps| ==> hyps[k].Found?
    ensures VmPassesPerNode(t, nodes, hyps, pveVms, done).1.Ok?
    decreases |hyps|
  {
    if hyps != [] {
      var (t1, r) := HypervisorPass(t, hyps[0].row, OnNode(pveVms, nodes[0]));
      forall k | 0 <= k < |hyps[1..]| ensures hyps[1..][k].Found? {
        assert hyps[1..][k] == hyps[k + 1];
      }
      VmPassesPerNodeOk(t1, nodes[1..], hyps[1..], pveVms, done + r);
    }
  }
}
