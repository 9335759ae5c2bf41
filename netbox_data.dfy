/** The downstream records the engine writes, and the pure builders that
    map a Proxmox entity to the managed fields of its downstream record. */
module NetboxData {
  import opened Common
  import opened PveModels
  import opened Inventory

  /** 1024 ** 2: bytes per MiB. */
  const MiB: nat := 1024 * 1024

  /** A hypervisor device: its name, device type and the ids of its site and
      cluster. */
  datatype DeviceData = DeviceData(name: string, deviceType: string, site: nat, cluster: nat)

  /** The managed fields of a downstream virtual machine; `vmid` is the
      custom field of that name. */
  datatype VmData = VmData(
    name: string,
    status: string,
    serial: Option<string>,
    site: nat,
    cluster: nat,
    device: nat,
    vcpus: int,
    memory: int,
    vmid: int)

  datatype DiskData = DiskData(virtualMachine: nat, name: string, size: int)

  datatype InterfaceData = InterfaceData(virtualMachine: nat, name: string, mtu: int, primaryMacAddress: string)

  datatype IpData = IpData(address: string, assignedObjectType: string, assignedObjectId: nat, status: string)

  /** Python's n // MiB. For a positive divisor Dafny's Euclidean division
      rounds down as floor division does, for negative n as well. */
  function FloorMiB(n: int): (r: int)
    ensures r * MiB <= n < (r + 1) * MiB
  {
    n / MiB
  }

  /** prepare_vm_data: the VM's record under the given hypervisor. */
  function PrepareVmData(vm: ProxmoxVM, hypervisor: Row<DeviceData>): (r: VmData)
    ensures r.name == vm.name && r.serial == vm.uuid && r.vcpus == vm.cpu && r.vmid == vm.vmid
    ensures r.status == "active"
    ensures r.site == hypervisor.fields.site && r.cluster == hypervisor.fields.cluster
    ensures r.device == hypervisor.id
    ensures r.memory * MiB <= vm.ram < (r.memory + 1) * MiB
  {
    VmData(
      name := vm.name,
      status := "active",
      serial := vm.uuid,
      site := hypervisor.fields.site,
      cluster := hypervisor.fields.cluster,
      device := hypervisor.id,
      vcpus := vm.cpu,
      memory := FloorMiB(vm.ram),
      vmid := vm.vmid)
  }

  /** prepare_disk_data: the disk's record under the VM record with id vmId;
      the name is the full storage:name identifier. */
  function PrepareDiskData(disk: PveDisk, vmId: nat): (r: DiskData)
    ensures r.virtualMachine == vmId && r.name == disk.id
    ensures r.size * MiB <= disk.size < (r.size + 1) * MiB
  {
    DiskData(virtualMachine := vmId, name := disk.id, size := FloorMiB(disk.size))
  }

  /** prepare_interface_data: the interface's fields copied unchanged. */
  function PrepareInterfaceData(iface: PveInterface, vmId: nat): (r: InterfaceData)
    ensures r.virtualMachine == vmId && r.name == iface.name
    ensures r.mtu == iface.mtu && r.primaryMacAddress == iface.mac
  {
    InterfaceData(virtualMachine := vmId, name := iface.name, mtu := iface.mtu, primaryMacAddress := iface.mac)
  }

  /** prepare_ip_data: the address, verbatim, assigned to the interface
      record with id ifaceId. */
  function PrepareIpData(address: string, ifaceId: nat): (r: IpData)
    ensures r.address == address && r.assignedObjectId == ifaceId
    ensures r.assignedObjectType == "virtualization.vminterface" && r.status == "active"
  {
    IpData(address := address, assignedObjectType := "virtualization.vminterface",
           assignedObjectId := ifaceId, status := "active")
  }

  /** The disk record keeps the full identifier: splitting it on its first
      ':' gives back the entity's storage and name. */
  lemma DiskNameIsFullId(identifier: string, vmid: int, size: int, vmId: nat)
    requires NewPveDisk(identifier, vmid, size).Ok?
    ensures var d := NewPveDisk(identifier, vmid, size).value;
      PrepareDiskData(d, vmId).name == d.storage + ":" + d.name
  {
  }
}
