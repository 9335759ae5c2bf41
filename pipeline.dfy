/** How the stages connect: populate_vms hands its result list to
    populate_disks and populate_interfaces. */
module Pipeline {
  import opened Common
  import opened PveModels
  import opened NetboxData
  import opened Inventory
  import opened Reconcile
  import opened NetboxApi
  import opened VmSync
  import opened DiskSync
  import opened InterfaceSync

  /** nb_main: populate_vms, then populate_disks and populate_interfaces on
      the list it returned. An exception ends the run, so the stages after
      the one that raised make no calls. Gives the VM, disk and interface
      tables afterwards and how the run ended. */
  function NbMain(devices: TableValue<DeviceData>, t: TableValue<VmData>, pveVms: seq<ProxmoxVM>,
                  nodes: seq<string>, deviceType: string, disks: TableValue<DiskData>, s: IfaceTables)
    : (TableValue<VmData>, TableValue<DiskData>, IfaceTables, Result<()>)
  {
    var (t1, r) := PopulateVmsSpec(devices, t, pveVms, nodes, deviceType);
    if r.Err? then (t1, disks, s, Err(r.error))
    else
      var (d1, rd) := DisksRun(disks, r.value);
      if rd.Err? then (t1, d1, s, rd)
      else
        var (s1, ri) := InterfacesRun(s, r.value);
        (t1, d1, s1, ri)
  }

  /** nb_main completes exactly when populate_vms returns a list without
      None entries, and then both later stages do what their None-skipping
      variants do; a None entry makes populate_disks raise TypeError, which
      ends the run before populate_interfaces touches anything. */
  lemma NbMainOutcome(devices: TableValue<DeviceData>, t: TableValue<VmData>, pveVms: seq<ProxmoxVM>,
                      nodes: seq<string>, deviceType: string, disks: TableValue<DiskData>, s: IfaceTables)
    requires ValidTables(s) && AddressesUnique(s.ips)
    ensures var r := PopulateVmsSpec(devices, t, pveVms, nodes, deviceType).1;
      NbMain(devices, t, pveVms, nodes, deviceType, disks, s).3.Ok? <==> r.Ok? && None !in r.value
    ensures var r := PopulateVmsSpec(devices, t, pveVms, nodes, deviceType).1;
      r.Ok? && None in r.value ==>
        && NbMain(devices, t, pveVms, nodes, deviceType, disks, s).2 == s
        && NbMain(devices, t, pveVms, nodes, deviceType, disks, s).3 == Err(CannotUnpackNone)
    ensures var (t1, r) := PopulateVmsSpec(devices, t, pveVms, nodes, deviceType);
      r.Ok? && None !in r.value ==>
        NbMain(devices, t, pveVms, nodes, deviceType, disks, s)
          == (t1, DisksRunLive(disks, r.value), InterfacesRunLive(s, r.value).0, Ok(()))
  {
    var r := PopulateVmsSpec(devices, t, pveVms, nodes, deviceType).1;
    if r.Ok? {
      DisksRunOutcome(disks, r.value);
      InterfacesRunOutcome(s, r.value);
      InterfacesRunLiveIps(s, r.value);
    }
  }

  /** On a one-node cluster, a downstream VM on the node's hypervisor that
      no Proxmox VM claims is deleted, so the list populate_vms returns holds
      None. nb_main then stops with the TypeError of populate_disks, leaving
      the interface tables as they were; populate_interfaces, called on the
      same list, would raise TypeError too, while the variants that skip
      None entries complete. */
  lemma DeletedVmBreaksLaterStages(devices: TableValue<DeviceData>, t: TableValue<VmData>, pveVms: seq<ProxmoxVM>,
                                   node: string, deviceType: string, id: nat,
                                   disks: TableValue<DiskData>, s: IfaceTables)
    requires ValidTable(t) && ValidTables(s) && AddressesUnique(s.ips)
    requires Hypervisors(devices, [node], deviceType)[0].Found?
    requires var h := Hypervisors(devices, [node], deviceType)[0].row;
      Selected(t, OnDevice(h.id), id) && !Claimed(t, pveVms, VmMatch, id)
    ensures var r := PopulateVmsSpec(devices, t, pveVms, [node], deviceType).1;
      && r.Ok? && None in r.value
      && id !in PopulateVmsSpec(devices, t, pveVms, [node], deviceType).0.rows
      && DisksRun(disks, r.value).1 == Err(CannotUnpackNone)
      && InterfacesRun(s, r.value).1 == Err(CannotUnpackNone)
      && InterfacesRunLive(s, r.value).1 == Ok(())
    ensures NbMain(devices, t, pveVms, [node], deviceType, disks, s).2 == s
    ensures NbMain(devices, t, pveVms, [node], deviceType, disks, s).3 == Err(CannotUnpackNone)
  {
    var hyps := Hypervisors(devices, [node], deviceType);
    var h := hyps[0].row;
    assert !AnyAmbiguous(hyps);
    assert hyps[1..] == [];
    var pass := HypervisorPass(t, h, pveVms);
    assert VmPasses(pass.0, [], pveVms, Some(pass.1)) == (pass.0, Ok(pass.1));
    assert VmPasses(t, hyps, pveVms, None) == VmPasses(pass.0, hyps[1..], pveVms, Some(pass.1));
    assert PopulateVmsSpec(devices, t, pveVms, [node], deviceType) == (pass.0, Ok(pass.1));
    DeletedVmLeavesNone(t, h, pveVms, id);
    DisksRunOutcome(disks, pass.1);
    InterfacesRunOutcome(s, pass.1);
    InterfacesRunLiveIps(s, pass.1);
    NbMainOutcome(devices, t, pveVms, [node], deviceType, disks, s);
  }
}
