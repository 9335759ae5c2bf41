/** populate_interfaces: for every VM pair, the downstream interfaces of the
    VM record are joined with the Proxmox VM's interfaces by name; each join
    pair is deleted, created or updated, and the addresses of every kept
    interface are upserted as IP records assigned to it. */
module InterfaceSync {
  import opened Common
  import opened PveModels
  import opened NetboxData
  import opened Inventory
  import opened Reconcile
  import opened NetboxApi

  /** The two tables this stage writes. */
  datatype IfaceTables = IfaceTables(ifaces: TableValue<InterfaceData>, ips: TableValue<IpData>)

  ghost predicate ValidTables(s: IfaceTables)
  {
    ValidTable(s.ifaces) && ValidTable(s.ips)
  }

  function TablesOf(api: Netbox): IfaceTables
    reads api.interfaces, api.ips
  {
    IfaceTables(api.interfaces.Value(), api.ips.Value())
  }

  /** The `virtual_machine_id` filter on interfaces. */
  function IfaceOfVm(vmId: nat): InterfaceData -> bool
  {
    (d: InterfaceData) => d.virtualMachine == vmId
  }

  /** The join predicate: equal interface names. */
  predicate IfaceMatch(x: Row<InterfaceData>, y: PveInterface)
  {
    x.fields.name == y.name
  }

  /** prepare_interface_data under the VM record with id vmId. */
  function IfaceBuild(vmId: nat): PveInterface -> InterfaceData
  {
    (i: PveInterface) => PrepareInterfaceData(i, vmId)
  }

  /** The `get(address=...)` filter on IP records. */
  function WithAddress(address: string): IpData -> bool
  {
    (d: IpData) => d.address == address
  }

  /** The addresses upserted for an interface: IPv4 first, then IPv6. */
  function Addresses(iface: PveInterface): seq<string>
  {
    iface.ipv4Addresses + iface.ipv6Addresses
  }

  /** One address: its record, when there is exactly one, is overwritten,
      otherwise a record is created; in both cases the record is assigned to
      the interface with id ifaceId. */
  function UpsertIp(ips: TableValue<IpData>, address: string, ifaceId: nat): TableValue<IpData>
  {
    var data := PrepareIpData(address, ifaceId);
    match Get(Listing(ips, WithAddress(address)))
    case Found(r) => UpdateV(ips, r.id, data)
    case _ => CreateV(ips, data)
  }

  /** The loop over one interface's addresses; an address with several
      records raises ValueError and ends the loop. */
  function UpsertIps(ips: TableValue<IpData>, addresses: seq<string>, ifaceId: nat): (TableValue<IpData>, Result<()>)
    decreases |addresses|
  {
    if addresses == [] then (ips, Ok(()))
    else if Get(Listing(ips, WithAddress(addresses[0]))).Ambiguous? then (ips, Err(MoreThanOne))
    else UpsertIps(UpsertIp(ips, addresses[0], ifaceId), addresses[1..], ifaceId)
  }

  /** One pair of the interface join. */
  function IfaceStep(s: IfaceTables, vmId: nat, pair: JoinPair<Row<InterfaceData>, PveInterface>)
    : (IfaceTables, Result<()>)
  {
    match pair
    case (Some(nb), None) => (s.(ifaces := DeleteV(s.ifaces, nb.id)), Ok(()))
    case (None, Some(pv)) =>
      var (ips, r) := UpsertIps(s.ips, Addresses(pv), s.ifaces.next);
      (IfaceTables(CreateV(s.ifaces, PrepareInterfaceData(pv, vmId)), ips), r)
    case (Some(nb), Some(pv)) =>
      var (ips, r) := UpsertIps(s.ips, Addresses(pv), nb.id);
      (IfaceTables(UpdateV(s.ifaces, nb.id, PrepareInterfaceData(pv, vmId)), ips), r)
    case (None, None) => (s, Ok(()))
  }

  /** The pairs in order; an exception ends the loop. */
  function IfaceSteps(s: IfaceTables, vmId: nat, pairs: seq<JoinPair<Row<InterfaceData>, PveInterface>>)
    : (IfaceTables, Result<()>)
    decreases |pairs|
  {
    if pairs == [] then (s, Ok(()))
    else
      var (s1, r) := IfaceStep(s, vmId, pairs[0]);
      if r.Err? then (s1, r) else IfaceSteps(s1, vmId, pairs[1..])
  }

  function IfacePairs(s: IfaceTables, vm: VmPair): seq<JoinPair<Row<InterfaceData>, PveInterface>>
  {
    JoinSpec(Listing(s.ifaces, IfaceOfVm(vm.netbox.id)), vm.proxmox.interfaces, IfaceMatch)
  }

  /** The interfaces and their addresses of one VM pair. */
  function IfacesForVm(s: IfaceTables, vm: VmPair): (IfaceTables, Result<()>)
  {
    IfaceSteps(s, vm.netbox.id, IfacePairs(s, vm))
  }

  /** populate_interfaces as written: a None entry raises TypeError. */
  function InterfacesRun(s: IfaceTables, entries: seq<Option<VmPair>>): (IfaceTables, Result<()>)
    decreases |entries|
  {
    if entries == [] then (s, Ok(()))
    else if entries[0].None? then (s, Err(CannotUnpackNone))
    else
      var (s1, r) := IfacesForVm(s, entries[0].value);
      if r.Err? then (s1, r) else InterfacesRun(s1, entries[1..])
  }

  /** populate_interfaces skipping the None entries of deleted VMs. */
  function InterfacesRunLive(s: IfaceTables, entries: seq<Option<VmPair>>): (IfaceTables, Result<()>)
    decreases |entries|
  {
    if entries == [] then (s, Ok(()))
    else if entries[0].None? then InterfacesRunLive(s, entries[1..])
    else
      var (s1, r) := IfacesForVm(s, entries[0].value);
      if r.Err? then (s1, r) else InterfacesRunLive(s1, entries[1..])
  }

  /** The loop over one interface's addresses. */
  method UpsertAddresses(api: Netbox, addresses: seq<string>, ifaceId: nat) returns (r: Result<()>)
    requires api.ips.Valid()
    modifies api.ips
    ensures api.ips.Valid()
    ensures (api.ips.Value(), r) == UpsertIps(old(api.ips.Value()), addresses, ifaceId)
  {
    var i := 0;
    assert addresses[i..] == addresses;
    while i < |addresses|
      invariant 0 <= i <= |addresses|
      invariant api.ips.Valid()
      invariant UpsertIps(api.ips.Value(), addresses[i..], ifaceId) == UpsertIps(old(api.ips.Value()), addresses, ifaceId)
    {
      assert addresses[i..][0] == addresses[i] && addresses[i..][1..] == addresses[i + 1..];
      var netboxIp := api.ips.GetOne(WithAddress(addresses[i]));
      var ipData := PrepareIpData(addresses[i], ifaceId);
      match netboxIp {
        case Ambiguous =>
          return Err(MoreThanOne);
        case NotFound =>
          var created := api.ips.Create(ipData);
        case Found(row) =>
          api.ips.Update(row.id, ipData);
      }
      i := i + 1;
    }
    assert addresses[i..] == [];
    return Ok(());
  }

  /** The calls for one interface pair. */
  method SyncIfacePair(api: Netbox, vmId: nat, pair: JoinPair<Row<InterfaceData>, PveInterface>)
    returns (r: Result<()>)
    requires api.interfaces.Valid() && api.ips.Valid()
    modifies api.interfaces, api.ips
    ensures api.interfaces.Valid() && api.ips.Valid()
    ensures (TablesOf(api), r) == IfaceStep(old(TablesOf(api)), vmId, pair)
  {
    var (netboxIface, proxmoxIface) := pair;
    if proxmoxIface.None? {
      if netboxIface.Some? {
        api.interfaces.Delete(netboxIface.value.id);
      }
      return Ok(());
    }
    var pv := proxmoxIface.value;
    var interfaceData := PrepareInterfaceData(pv, vmId);
    var iface: Row<InterfaceData>;
    if netboxIface.None? {
      iface := api.interfaces.Create(interfaceData);
    } else {
      api.interfaces.Update(netboxIface.value.id, interfaceData);
      iface := Row(netboxIface.value.id, interfaceData);
    }
    r := UpsertAddresses(api, Addresses(pv), iface.id);
  }

  /** The body of the loop over one VM pair. */
  method SyncVmInterfaces(api: Netbox, vm: VmPair) returns (r: Result<()>)
    requires api.interfaces.Valid() && api.ips.Valid()
    modifies api.interfaces, api.ips
    ensures api.interfaces.Valid() && api.ips.Valid()
    ensures (TablesOf(api), r) == IfacesForVm(old(TablesOf(api)), vm)
  {
    var vmId := vm.netbox.id;
    var netboxIfaces := api.interfaces.Filter(IfaceOfVm(vmId));
    var ifaceZip := FullOuterJoin(netboxIfaces, vm.proxmox.interfaces, IfaceMatch);
    var k := 0;
    assert ifaceZip[k..] == ifaceZip;
    while k < |ifaceZip|
      invariant 0 <= k <= |ifaceZip|
      invariant api.interfaces.Valid() && api.ips.Valid()
      invariant IfaceSteps(TablesOf(api), vmId, ifaceZip[k..]) == IfacesForVm(old(TablesOf(api)), vm)
    {
      assert ifaceZip[k..][0] == ifaceZip[k] && ifaceZip[k..][1..] == ifaceZip[k + 1..];
      r := SyncIfacePair(api, vmId, ifaceZip[k]);
      if r.Err? {
        return;
      }
      k := k + 1;
    }
    assert ifaceZip[k..] == [];
    return Ok(());
  }

  /** populate_interfaces. */
  method PopulateInterfaces(api: Netbox, vmPairList: seq<Option<VmPair>>) returns (r: Result<()>)
    requires api.interfaces.Valid() && api.ips.Valid()
    modifies api.interfaces, api.ips
    ensures api.interfaces.Valid() && api.ips.Valid()
    ensures (TablesOf(api), r) == InterfacesRun(old(TablesOf(api)), vmPairList)
  {
    var i := 0;
    assert vmPairList[i..] == vmPairList;
    while i < |vmPairList|
      invariant 0 <= i <= |vmPairList|
      invariant api.interfaces.Valid() && api.ips.Valid()
      invariant InterfacesRun(TablesOf(api), vmPairList[i..]) == InterfacesRun(old(TablesOf(api)), vmPairList)
    {
      assert vmPairList[i..][1..] == vmPairList[i + 1..];
      if vmPairList[i].None? {
        return Err(CannotUnpackNone);
      }
      r := SyncVmInterfaces(api, vmPairList[i].value);
      if r.Err? {
        return;
      }
      i := i + 1;
    }
    assert vmPairList[i..] == [];
    return Ok(());
  }

  /** populate_interfaces skipping the None entries of deleted VMs. */
  method PopulateInterfacesSkippingDeleted(api: Netbox, vmPairList: seq<Option<VmPair>>) returns (r: Result<()>)
    requires api.interfaces.Valid() && api.ips.Valid()
    modifies api.interfaces, api.ips
    ensures api.interfaces.Valid() && api.ips.Valid()
    ensures (TablesOf(api), r) == InterfacesRunLive(old(TablesOf(api)), vmPairList)
  {
    var i := 0;
    assert vmPairList[i..] == vmPairList;
    while i < |vmPairList|
      invariant 0 <= i <= |vmPairList|
      invariant api.interfaces.Valid() && api.ips.Valid()
      invariant InterfacesRunLive(TablesOf(api), vmPairList[i..]) == InterfacesRunLive(old(TablesOf(api)), vmPairList)
    {
      assert vmPairList[i..][1..] == vmPairList[i + 1..];
      if vmPairList[i].Some? {
        r := SyncVmInterfaces(api, vmPairList[i].value);
        if r.Err? {
          return;
        }
      }
      i := i + 1;
    }
    assert vmPairList[i..] == [];
    return Ok(());
  }

  // ---------------------------------------------------------------------
  // IP records
  // ---------------------------------------------------------------------

  /** No two IP records carry the same address. */
  ghost predicate AddressesUnique(ips: TableValue<IpData>)
  {
    forall i, j :: i in ips.rows && j in ips.rows && ips.rows[i].address == ips.rows[j].address ==> i == j
  }

  /** Some IP record carries the address. */
  ghost predicate HasAddress(ips: TableValue<IpData>, a: string)
  {
    exists id :: id in ips.rows && ips.rows[id].address == a
  }

  /** One address upsert deletes nothing, leaves records of other addresses
      alone, and every record it writes holds the address assigned to
      ifaceId; afterwards such a record exists. */
  lemma UpsertIpEffect(ips: TableValue<IpData>, a: string, k: nat)
    requires ValidTable(ips)
    ensures ValidTable(UpsertIp(ips, a, k)) && UpsertIp(ips, a, k).next >= ips.next
    ensures forall id :: id in ips.rows ==> id in UpsertIp(ips, a, k).rows
    ensures forall id :: id in ips.rows && ips.rows[id].address != a ==> UpsertIp(ips, a, k).rows[id] == ips.rows[id]
    ensures forall id :: id in UpsertIp(ips, a, k).rows && (id !in ips.rows || UpsertIp(ips, a, k).rows[id] != ips.rows[id]) ==>
      UpsertIp(ips, a, k).rows[id] == PrepareIpData(a, k)
    ensures exists id :: id in UpsertIp(ips, a, k).rows && UpsertIp(ips, a, k).rows[id] == PrepareIpData(a, k)
  {
    var L := Listing(ips, WithAddress(a));
    ListingShape(ips, WithAddress(a));
    var data := PrepareIpData(a, k);
    WritesKeepValid(ips, 0, data);
    match Get(L)
    case Found(r) =>
      assert L[0] == r;
      assert r.id in UpsertIp(ips, a, k).rows && UpsertIp(ips, a, k).rows[r.id] == data;
    case _ =>
      assert UpsertIp(ips, a, k).rows[ips.next] == data;
  }

  /** With unique addresses the lookup is never ambiguous, and the upsert
      keeps the addresses unique. */
  lemma UpsertIpUnique(ips: TableValue<IpData>, a: string, k: nat)
    requires ValidTable(ips) && AddressesUnique(ips)
    ensures !Get(Listing(ips, WithAddress(a))).Ambiguous?
    ensures AddressesUnique(UpsertIp(ips, a, k))
  {
    var sel := WithAddress(a);
    GetUnique(ips, sel);
    var ips1 := UpsertIp(ips, a, k);
    match Get(Listing(ips, sel))
    case Found(r) =>
      assert ips1.rows.Keys == ips.rows.Keys;
      assert forall i :: i in ips1.rows ==> ips1.rows[i].address == ips.rows[i].address;
    case NotFound =>
      assert ips.next !in ips.rows;
      assert forall i :: i in ips1.rows && i != ips.next ==> ips1.rows[i] == ips.rows[i];
  }

  /** The address loop deletes no IP record, leaves records of addresses it
      is not given alone, and every record it writes holds one of its
      addresses assigned to ifaceId. */
  lemma {:induction false} UpsertIpsEffect(ips: TableValue<IpData>, addrs: seq<string>, k: nat)
    requires ValidTable(ips)
    ensures ValidTable(UpsertIps(ips, addrs, k).0) && UpsertIps(ips, addrs, k).0.next >= ips.next
    ensures forall id :: id in ips.rows ==> id in UpsertIps(ips, addrs, k).0.rows
    ensures forall id :: id in ips.rows && ips.rows[id].address !in addrs ==>
      UpsertIps(ips, addrs, k).0.rows[id] == ips.rows[id]
    ensures forall id ::
      (id in UpsertIps(ips, addrs, k).0.rows
       && (id !in ips.rows || UpsertIps(ips, addrs, k).0.rows[id] != ips.rows[id])) ==>
      var written := UpsertIps(ips, addrs, k).0.rows[id];
      written.address in addrs && written == PrepareIpData(written.address, k)
    decreases |addrs|
  {
    if addrs != [] && !Get(Listing(ips, WithAddress(addrs[0]))).Ambiguous? {
      var a := addrs[0];
      var rest := addrs[1..];
      assert addrs == [a] + rest;
      var ips1 := UpsertIp(ips, a, k);
      UpsertIpEffect(ips, a, k);
      UpsertIpsEffect(ips1, rest, k);
      var res := UpsertIps(ips, addrs, k).0;
      assert res == UpsertIps(ips1, rest, k).0;
      forall id | id in res.rows && (id !in ips.rows || res.rows[id] != ips.rows[id])
        ensures res.rows[id].address in addrs && res.rows[id] == PrepareIpData(res.rows[id].address, k)
      {
        if id in ips1.rows && res.rows[id] == ips1.rows[id] {
          assert ips1.rows[id] == PrepareIpData(a, k);
        }
      }
    }
  }

  /** A completed address loop leaves a record for each of its addresses,
      assigned to ifaceId. */
  lemma {:induction false} UpsertIpsCovers(ips: TableValue<IpData>, addrs: seq<string>, k: nat)
    requires ValidTable(ips) && UpsertIps(ips, addrs, k).1.Ok?
    ensures forall a :: a in addrs ==>
      exists id :: id in UpsertIps(ips, addrs, k).0.rows && UpsertIps(ips, addrs, k).0.rows[id] == PrepareIpData(a, k)
    decreases |addrs|
  {
    if addrs != [] {
      var a := addrs[0];
      var rest := addrs[1..];
      assert addrs == [a] + rest;
      var ips1 := UpsertIp(ips, a, k);
      UpsertIpEffect(ips, a, k);
      UpsertIpsCovers(ips1, rest, k);
      var res := UpsertIps(ips, addrs, k).0;
      assert res == UpsertIps(ips1, rest, k).0;
      if a !in rest {
        var id :| id in ips1.rows && ips1.rows[id] == PrepareIpData(a, k);
        UpsertIpsEffect(ips1, rest, k);
        assert res.rows[id] == PrepareIpData(a, k);
      }
    }
  }

  /** With unique addresses the address loop raises nothing and keeps the
      addresses unique. */
  lemma {:induction false} UpsertIpsUnique(ips: TableValue<IpData>, addrs: seq<string>, k: nat)
    requires ValidTable(ips) && AddressesUnique(ips)
    ensures UpsertIps(ips, addrs, k).1 == Ok(())
    ensures AddressesUnique(UpsertIps(ips, addrs, k).0)
    decreases |addrs|
  {
    if addrs != [] {
      UpsertIpUnique(ips, addrs[0], k);
      UpsertIpEffect(ips, addrs[0], k);
      UpsertIpsUnique(UpsertIp(ips, addrs[0], k), addrs[1..], k);
    }
  }

  /** An address that has a record keeps one, whatever the address loop
      does. */
  lemma {:induction false} UpsertIpsKeepsAddress(ips: TableValue<IpData>, addrs: seq<string>, k: nat, a: string)
    requires ValidTable(ips) && HasAddress(ips, a)
    ensures HasAddress(UpsertIps(ips, addrs, k).0, a)
    decreases |addrs|
  {
    if addrs != [] && !Get(Listing(ips, WithAddress(addrs[0]))).Ambiguous? {
      var ips1 := UpsertIp(ips, addrs[0], k);
      UpsertIpEffect(ips, addrs[0], k);
      var id :| id in ips.rows && ips.rows[id].address == a;
      if a == addrs[0] {
        var id1 :| id1 in ips1.rows && ips1.rows[id1] == PrepareIpData(addrs[0], k);
        assert ips1.rows[id1].address == a;
      } else {
        assert ips1.rows[id].address == a;
      }
      UpsertIpsKeepsAddress(ips1, addrs[1..], k, a);
    }
  }

  // ---------------------------------------------------------------------
  // Interfaces
  // ---------------------------------------------------------------------

  /** When the pass over the pairs completes, the interface table it leaves
      is the one the generic plan gives. */
  lemma {:induction false} IfaceStepsIfaces(s: IfaceTables, vmId: nat, pairs: seq<JoinPair<Row<InterfaceData>, PveInterface>>)
    ensures IfaceSteps(s, vmId, pairs).1.Ok? ==>
      IfaceSteps(s, vmId, pairs).0.ifaces == ApplyAll(s.ifaces, Plan(pairs, IfaceBuild(vmId)))
    decreases |pairs|
  {
    if pairs != [] {
      var s1 := IfaceStep(s, vmId, pairs[0]).0;
      var d := Decide(pairs[0], IfaceBuild(vmId));
      ApplyDecide(s.ifaces, pairs[0], IfaceBuild(vmId));
      assert s1.ifaces == ApplyAll(s.ifaces, d);
      ApplyAllConcat(s.ifaces, d, Plan(pairs[1..], IfaceBuild(vmId)));
      IfaceStepsIfaces(s1, vmId, pairs[1..]);
    }
  }

  /** A completed interface pass of one VM pair reconciles the VM's
      interface records with its Proxmox interfaces. */
  lemma IfacesForVmReconciles(s: IfaceTables, vm: VmPair)
    ensures IfacesForVm(s, vm).1.Ok? ==>
      IfacesForVm(s, vm).0.ifaces
        == Reconciled(s.ifaces, IfaceOfVm(vm.netbox.id), vm.proxmox.interfaces, IfaceMatch, IfaceBuild(vm.netbox.id))
  {
    IfaceStepsIfaces(s, vm.netbox.id, IfacePairs(s, vm));
  }

  /** After a completed pass, a second pass over the same VM pair creates
      and deletes no interface record. */
  lemma IfacesForVmIdempotent(s: IfaceTables, vm: VmPair)
    requires ValidTable(s.ifaces) && IfacesForVm(s, vm).1.Ok?
    ensures forall a :: a in Plan(IfacePairs(IfacesForVm(s, vm).0, vm), IfaceBuild(vm.netbox.id)) ==> a.Update?
  {
    IfacesForVmReconciles(s, vm);
    var recordKey := (d: InterfaceData) => d.name;
    var itemKey := (p: PveInterface) => p.name;
    assert BuildKeeps(IfaceOfVm(vm.netbox.id), vm.proxmox.interfaces, IfaceBuild(vm.netbox.id), recordKey, itemKey);
    ReconcileIdempotent(s.ifaces, IfaceOfVm(vm.netbox.id), vm.proxmox.interfaces, IfaceMatch, IfaceBuild(vm.netbox.id),
                        recordKey, itemKey);
  }

  /** What one interface pair does to the IP records. */
  lemma IfaceStepIps(s: IfaceTables, vmId: nat, pair: JoinPair<Row<InterfaceData>, PveInterface>)
    requires ValidTables(s)
    ensures ValidTables(IfaceStep(s, vmId, pair).0)
    ensures forall id :: id in s.ips.rows ==> id in IfaceStep(s, vmId, pair).0.ips.rows
    ensures forall a :: HasAddress(s.ips, a) ==> HasAddress(IfaceStep(s, vmId, pair).0.ips, a)
    ensures AddressesUnique(s.ips) ==>
      IfaceStep(s, vmId, pair).1 == Ok(()) && AddressesUnique(IfaceStep(s, vmId, pair).0.ips)
    ensures IfaceStep(s, vmId, pair).1.Ok? && pair.1.Some? ==>
      forall a :: a in Addresses(pair.1.value) ==> HasAddress(IfaceStep(s, vmId, pair).0.ips, a)
  {
    var res := IfaceStep(s, vmId, pair).0;
    if pair.1.Some? {
      var pv := pair.1.value;
      var addrs := Addresses(pv);
      var ifaceId := if pair.0.Some? then pair.0.value.id else s.ifaces.next;
      assert res.ips == UpsertIps(s.ips, addrs, ifaceId).0;
      WritesKeepValid(s.ifaces, ifaceId, PrepareInterfaceData(pv, vmId));
      UpsertIpsEffect(s.ips, addrs, ifaceId);
      forall a | HasAddress(s.ips, a) ensures HasAddress(res.ips, a) {
        UpsertIpsKeepsAddress(s.ips, addrs, ifaceId, a);
      }
      if AddressesUnique(s.ips) {
        UpsertIpsUnique(s.ips, addrs, ifaceId);
      }
      if IfaceStep(s, vmId, pair).1.Ok? {
        UpsertIpsCovers(s.ips, addrs, ifaceId);
        forall a | a in addrs ensures HasAddress(res.ips, a) {
          var id :| id in res.ips.rows && res.ips.rows[id] == PrepareIpData(a, ifaceId);
        }
      }
    } else if pair.0.Some? {
      WritesKeepValid(s.ifaces, pair.0.value.id, InterfaceData(0, "", 0, ""));
    }
  }

  /** The IP records over the pass of one VM pair: none is deleted, every
      address that has a record keeps one, unique addresses stay unique and
      then nothing is raised, and a completed pass leaves a record for every
      address of every Proxmox interface it walked. */
  lemma {:induction false} IfaceStepsIps(s: IfaceTables, vmId: nat, pairs: seq<JoinPair<Row<InterfaceData>, PveInterface>>)
    requires ValidTables(s)
    ensures ValidTables(IfaceSteps(s, vmId, pairs).0)
    ensures forall id :: id in s.ips.rows ==> id in IfaceSteps(s, vmId, pairs).0.ips.rows
    ensures forall a :: HasAddress(s.ips, a) ==> HasAddress(IfaceSteps(s, vmId, pairs).0.ips, a)
    ensures AddressesUnique(s.ips) ==>
      IfaceSteps(s, vmId, pairs).1 == Ok(()) && AddressesUnique(IfaceSteps(s, vmId, pairs).0.ips)
    ensures IfaceSteps(s, vmId, pairs).1.Ok? ==>
      forall k, a :: 0 <= k < |pairs| && pairs[k].1.Some? && a in Addresses(pairs[k].1.value) ==>
        HasAddress(IfaceSteps(s, vmId, pairs).0.ips, a)
    decreases |pairs|
  {
    if pairs != [] {
      var s1 := IfaceStep(s, vmId, pairs[0]).0;
      IfaceStepIps(s, vmId, pairs[0]);
      if IfaceStep(s, vmId, pairs[0]).1.Ok? {
        var rest := pairs[1..];
        IfaceStepsIps(s1, vmId, rest);
        var res := IfaceSteps(s, vmId, pairs).0;
        assert res == IfaceSteps(s1, vmId, rest).0;
        forall k, a | 0 <= k < |pairs| && pairs[k].1.Some? && a in Addresses(pairs[k].1.value)
          && IfaceSteps(s, vmId, pairs).1.Ok?
          ensures HasAddress(res.ips, a)
        {
          if k > 0 {
            assert pairs[k] == rest[k - 1];
          }
        }
      }
    }
  }

  /** A completed pass over one VM pair leaves a record for every address of
      every interface of the Proxmox VM. */
  lemma IfacesForVmAddresses(s: IfaceTables, vm: VmPair)
    requires ValidTables(s) && IfacesForVm(s, vm).1.Ok?
    ensures forall i, a :: 0 <= i < |vm.proxmox.interfaces| && a in Addresses(vm.proxmox.interfaces[i]) ==>
      HasAddress(IfacesForVm(s, vm).0.ips, a)
  {
    var pairs := IfacePairs(s, vm);
    IfaceStepsIps(s, vm.netbox.id, pairs);
    JoinComplete(Listing(s.ifaces, IfaceOfVm(vm.netbox.id)), vm.proxmox.interfaces, IfaceMatch);
    forall i, a | 0 <= i < |vm.proxmox.interfaces| && a in Addresses(vm.proxmox.interfaces[i])
      ensures HasAddress(IfacesForVm(s, vm).0.ips, a)
    {
      var iface := vm.proxmox.interfaces[i];
      var q :| q in pairs && q.1 == Some(iface);
      var k :| 0 <= k < |pairs| && pairs[k] == q;
    }
  }

  /** The corrected run over the VM pairs: no IP record is deleted, and with
      unique addresses nothing is raised and they stay unique. */
  lemma {:induction false} InterfacesRunLiveIps(s: IfaceTables, entries: seq<Option<VmPair>>)
    requires ValidTables(s)
    ensures ValidTables(InterfacesRunLive(s, entries).0)
    ensures forall id :: id in s.ips.rows ==> id in InterfacesRunLive(s, entries).0.ips.rows
    ensures AddressesUnique(s.ips) ==>
      InterfacesRunLive(s, entries).1 == Ok(()) && AddressesUnique(InterfacesRunLive(s, entries).0.ips)
    decreases |entries|
  {
    if entries != [] {
      if entries[0].None? {
        InterfacesRunLiveIps(s, entries[1..]);
      } else {
        var vm := entries[0].value;
        IfaceStepsIps(s, vm.netbox.id, IfacePairs(s, vm));
        if IfacesForVm(s, vm).1.Ok? {
          InterfacesRunLiveIps(IfacesForVm(s, vm).0, entries[1..]);
        }
      }
    }
  }

  /** populate_interfaces as written, with unique addresses: it raises
      TypeError exactly when some entry is None, and otherwise does what
      the corrected run does. */
  lemma {:induction false} InterfacesRunOutcome(s: IfaceTables, entries: seq<Option<VmPair>>)
    requires ValidTables(s) && AddressesUnique(s.ips)
    ensures InterfacesRun(s, entries).1 == if None in entries then Err(CannotUnpackNone) else Ok(())
    ensures None !in entries ==> InterfacesRun(s, entries) == InterfacesRunLive(s, entries)
    decreases |entries|
  {
    if entries != [] && entries[0].Some? {
      var vm := entries[0].value;
      IfaceStepsIps(s, vm.netbox.id, IfacePairs(s, vm));
      InterfacesRunOutcome(IfacesForVm(s, vm).0, entries[1..]);
      assert entries == [entries[0]] + entries[1..];
      assert None in entries <==> None in entries[1..];
    }
  }
}
