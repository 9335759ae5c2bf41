/** The inventory API the engine talks to, as an in-memory store with one
    table per record type, and the value the VM stage hands to the later
    stages. */
module NetboxApi {
  import opened Common
  import opened PveModels
  import opened NetboxData
  import opened Inventory

  /** A downstream VM record paired with the Proxmox VM it mirrors. */
  datatype VmPair = VmPair(netbox: Row<VmData>, proxmox: ProxmoxVM)

  /** What `for netbox_vm, proxmox_vm in vm_pair_list` raises on a None entry. */
  const CannotUnpackNone: Exception := TypeError("cannot unpack non-iterable NoneType object")

  /** dcim.devices, virtualization.virtual_machines, virtualization.virtual_disks,
      virtualization.interfaces and ipam.ip_addresses. */
  class Netbox {
    const devices: Table<DeviceData>
    const vms: Table<VmData>
    const disks: Table<DiskData>
    const interfaces: Table<InterfaceData>
    const ips: Table<IpData>

    ghost predicate Valid()
      reads devices, vms, disks, interfaces, ips
    {
      devices.Valid() && vms.Valid() && disks.Valid() && interfaces.Valid() && ips.Valid()
    }

    constructor (devices: Table<DeviceData>, vms: Table<VmData>, disks: Table<DiskData>,
                 interfaces: Table<InterfaceData>, ips: Table<IpData>)
      ensures this.devices == devices && this.vms == vms && this.disks == disks
      ensures this.interfaces == interfaces && this.ips == ips
    {
      this.devices := devices;
      this.vms := vms;
      this.disks := disks;
      this.interfaces := interfaces;
      this.ips := ips;
    }
  }
}
