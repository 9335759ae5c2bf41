/** The source-side entity records of models/pve.py: a virtual machine as
    the hypervisor reports it, its disks, its network interfaces and its
    operating-system identity. Each Python class is a datatype; each
    __init__ is a function that builds the value (or names the exception
    it raises); each __str__ that the model keeps is a function. */
module PveModels {
  import opened Common
  import opened Text

  // ---------------------------------------------------------------------
  // PveDisk
  // ---------------------------------------------------------------------

  /** A disk volume: its `storage:name` identifier, owning VM id and size in
      bytes, with the identifier split into storage and name. */
  datatype PveDisk = PveDisk(id: string, vmid: int, storage: string, name: string, size: int)

  /** The index of the first occurrence of c in s, if any. */
  function FirstIndexOf(s: string, c: char): (r: Option<nat>)
    ensures r.None? <==> c !in s
    ensures r.Some? ==> r.value < |s| && s[r.value] == c
    ensures r.Some? ==> forall j :: 0 <= j < r.value ==> s[j] != c
  {
    if s == [] then None
    else if s[0] == c then Some(0)
    else match FirstIndexOf(s[1..], c)
      case None => None
      case Some(k) => Some(k + 1)
  }

  /** PveDisk(identifier, vmid, size): `storage, name = id.split(':', 1)`
      splits at the first colon; without a colon the two-way unpack raises
      ValueError. */
  function NewPveDisk(identifier: string, vmid: int, size: int): (r: Result<PveDisk>)
    ensures r.Ok? <==> ':' in identifier
    ensures r.Err? ==> r.error.ValueError?
    ensures r.Ok? ==>
      && r.value.id == identifier && r.value.vmid == vmid && r.value.size == size
      && ':' !in r.value.storage
      && r.value.storage + ":" + r.value.name == identifier
  {
    match FirstIndexOf(identifier, ':')
    case None => Err(ValueError("not enough values to unpack (expected 2, got 1)"))
    case Some(k) =>
      assert identifier == identifier[..k] + ":" + identifier[k + 1..];
      Ok(PveDisk(identifier, vmid, identifier[..k], identifier[k + 1..], size))
  }

  /** Every colon-free storage name and any volume name (colons included)
      come back out of the identifier they form. */
  lemma DiskIdRoundTrip(storage: string, name: string, vmid: int, size: int)
    requires ':' !in storage
    ensures NewPveDisk(storage + ":" + name, vmid, size)
         == Ok(PveDisk(storage + ":" + name, vmid, storage, name, size))
  {
    var id := storage + ":" + name;
    var k := FirstIndexOf(id, ':');
    assert id[|storage|] == ':';
    assert id[..|storage|] == storage;
    assert forall j :: 0 <= j < |storage| ==> id[j] == storage[j] && id[j] != ':';
    assert k == Some(|storage|);
    assert id[|storage| + 1..] == name;
  }

  /** The two-way split agrees with Python's `split(':', 1)`: the storage is
      the text before the first colon and the name is the remaining pieces
      joined back with colons. */
  lemma DiskIdSplit(identifier: string, vmid: int, size: int)
    requires ':' in identifier
    ensures var parts := SplitOn(identifier, ':');
      && |parts| >= 2
      && NewPveDisk(identifier, vmid, size).value.storage == parts[0]
      && NewPveDisk(identifier, vmid, size).value.name == JoinWith(":", parts[1..])
  {
    var d := NewPveDisk(identifier, vmid, size).value;
    assert identifier == d.storage + [':'] + d.name;
    SplitAtFirst(d.storage, ':', d.name);
    var parts := SplitOn(identifier, ':');
    assert parts[1..] == SplitOn(d.name, ':');
    JoinSplitRoundTrip(d.name, ':');
  }

  // ---------------------------------------------------------------------
  // PveInterface
  // ---------------------------------------------------------------------

  /** A guest network interface; the constructor stores its arguments. */
  datatype PveInterface = PveInterface(
    name: string, ipv4Addresses: seq<string>, ipv6Addresses: seq<string>, mtu: int, mac: string)

  /** PveInterface.__str__: `name=N;mtu=M;ipv4=A;ipv6=B`, the address lists
      joined by commas. */
  function InterfaceStr(iface: PveInterface): string
  {
    ("name=" + iface.name) + ";" + ("mtu=" + IntToString(iface.mtu)) + ";"
      + ("ipv4=" + JoinWith(",", iface.ipv4Addresses)) + ";"
      + ("ipv6=" + JoinWith(",", iface.ipv6Addresses))
  }

  /** The value of a `key=value` field, if the field has that key. */
  function FieldValue(field: string, key: string): Option<string>
  {
    if |field| > |key| && field[..|key| + 1] == key + "=" then Some(field[|key| + 1..]) else None
  }

  /** A comma-separated address list; the empty string is the empty list. */
  function ParseAddressList(s: string): seq<string>
  {
    if s == "" then [] else SplitOn(s, ',')
  }

  /** Reads a rendered interface back: the reference parser for InterfaceStr. */
  function ParseInterfaceStr(s: string): Option<(string, int, seq<string>, seq<string>)>
  {
    var parts := SplitOn(s, ';');
    if |parts| != 4 then None
    else match (FieldValue(parts[0], "name"), FieldValue(parts[1], "mtu"),
                FieldValue(parts[2], "ipv4"), FieldValue(parts[3], "ipv6"))
      case (Some(n), Some(m), Some(a), Some(b)) =>
        if IsIntLiteral(m) then Some((n, ParseInt(m), ParseAddressList(a), ParseAddressList(b)))
        else None
      case _ => None
  }

  /** Addresses that survive rendering: non-empty, without ',' or ';'. */
  predicate PlainAddresses(xs: seq<string>)
  {
    forall k :: 0 <= k < |xs| ==> xs[k] != "" && ',' !in xs[k] && ';' !in xs[k]
  }

  /** The four `key=value` fields that InterfaceStr joins with ';'. */
  function InterfaceFields(iface: PveInterface): seq<string>
  {
    [ "name=" + iface.name, "mtu=" + IntToString(iface.mtu),
      "ipv4=" + JoinWith(",", iface.ipv4Addresses), "ipv6=" + JoinWith(",", iface.ipv6Addresses) ]
  }

  lemma RenderedFields(iface: PveInterface)
    ensures InterfaceStr(iface) == JoinWith(";", InterfaceFields(iface))
  {
    var fields := InterfaceFields(iface);
    var f0, f1, f2, f3 := fields[0], fields[1], fields[2], fields[3];
    JoinCons(";", f2, [f3]);
    JoinCons(";", f1, [f2, f3]);
    JoinCons(";", f0, [f1, f2, f3]);
    assert [f2] + [f3] == [f2, f3] && [f1] + [f2, f3] == [f1, f2, f3] && [f0] + [f1, f2, f3] == fields;
  }

  /** Joining a non-empty tail after a first item. */
  lemma JoinCons(sep: string, x: string, rest: seq<string>)
    requires rest != []
    ensures JoinWith(sep, [x] + rest) == x + sep + JoinWith(sep, rest)
  {
    assert ([x] + rest)[1..] == rest;
  }

  lemma FieldValueOf(key: string, v: string)
    ensures FieldValue(key + "=" + v, key) == Some(v)
  {
    var f := key + "=" + v;
    assert f[..|key| + 1] == key + "=";
    assert f[|key| + 1..] == v;
  }

  lemma NoCharInConcat(c: char, a: string, b: string)
    requires c !in a && c !in b
    ensures c !in a + b
  {
  }

  /** When the name has no ';' and the addresses are plain, the rendering
      determines the interface's name, MTU and both address lists. */
  lemma InterfaceStrRoundTrip(iface: PveInterface)
    requires ';' !in iface.name
    requires PlainAddresses(iface.ipv4Addresses) && PlainAddresses(iface.ipv6Addresses)
    ensures ParseInterfaceStr(InterfaceStr(iface))
         == Some((iface.name, iface.mtu, iface.ipv4Addresses, iface.ipv6Addresses))
  {
    var m := IntToString(iface.mtu);
    var a, b := JoinWith(",", iface.ipv4Addresses), JoinWith(",", iface.ipv6Addresses);
    var fields := InterfaceFields(iface);
    IntToStringRoundTrip(iface.mtu);
    assert ';' !in m by { assert forall k :: 0 <= k < |m| ==> m[k] == '-' || IsDigit(m[k]); }
    JoinedAddresses(iface.ipv4Addresses);
    JoinedAddresses(iface.ipv6Addresses);
    NoCharInConcat(';', "name=", iface.name);
    NoCharInConcat(';', "mtu=", m);
    NoCharInConcat(';', "ipv4=", a);
    NoCharInConcat(';', "ipv6=", b);
    RenderedFields(iface);
    SplitJoinRoundTrip(fields, ';');
    FieldValueOf("name", iface.name);
    FieldValueOf("mtu", m);
    FieldValueOf("ipv4", a);
    FieldValueOf("ipv6", b);
  }

  /** Joined plain addresses contain no ';' and split back into the list. */
  lemma JoinedAddresses(xs: seq<string>)
    requires PlainAddresses(xs)
    ensures ';' !in JoinWith(",", xs)
    ensures ParseAddressList(JoinWith(",", xs)) == xs
  {
    NoSemicolonInJoin(xs);
    if xs != [] {
      SplitJoinRoundTrip(xs, ',');
      assert JoinWith(",", xs) != "" by { NonEmptyJoin(xs); }
    }
  }

  lemma {:induction false} NoSemicolonInJoin(xs: seq<string>)
    requires forall k :: 0 <= k < |xs| ==> ';' !in xs[k]
    ensures ';' !in JoinWith(",", xs)
  {
    if |xs| > 1 {
      NoSemicolonInJoin(xs[1..]);
      assert xs[1..][0] == xs[1];
    }
  }

  lemma NonEmptyJoin(xs: seq<string>)
    requires xs != [] && xs[0] != ""
    ensures JoinWith(",", xs) != ""
  {
    if |xs| > 1 {
      assert |JoinWith(",", xs)| >= |xs[0]|;
    }
  }

  // ---------------------------------------------------------------------
  // OSInfo
  // ---------------------------------------------------------------------

  /** The guest agent's operating-system identity. `id` is a one-element
      tuple: `self.id = os_id,` keeps the trailing comma. */
  datatype OSInfo = OSInfo(
    id: seq<Option<string>>, pretty: Option<string>, name: Option<string>,
    version: Option<string>, versionId: Option<string>)

  /** OSInfo(os_id, pretty, name, version, version_id). */
  function NewOSInfo(osId: Option<string>, pretty: Option<string>, name: Option<string>,
                     version: Option<string>, versionId: Option<string>): (r: OSInfo)
    ensures |r.id| == 1 && r.id[0] == osId
    ensures r.pretty == pretty && r.name == name && r.version == version && r.versionId == versionId
  {
    OSInfo([osId], pretty, name, version, versionId)
  }

  /** Python's str() of an optional string: None renders as "None". */
  function PyStr(o: Option<string>): string
  {
    match o
    case None => "None"
    case Some(s) => s
  }

  /** Python truthiness of an optional string. */
  predicate Truthy(o: Option<string>)
  {
    o.Some? && o.value != ""
  }

  /** OSInfo.__str__: `f'{pretty}' or f'{name} {version or version_id}'`. */
  function OSInfoStr(os: OSInfo): string
  {
    var p := PyStr(os.pretty);
    if p != "" then p
    else PyStr(os.name) + " " + PyStr(if Truthy(os.version) then os.version else os.versionId)
  }

  /** The fallback to name and version is taken only for an empty pretty
      name: a missing one renders as "None", which is non-empty. The fallback
      uses version when it is non-empty, version_id otherwise. */
  lemma OSInfoStrCases(os: OSInfo)
    ensures os.pretty.None? ==> OSInfoStr(os) == "None"
    ensures Truthy(os.pretty) ==> OSInfoStr(os) == os.pretty.value
    ensures os.pretty == Some("") && Truthy(os.version) ==>
      OSInfoStr(os) == PyStr(os.name) + " " + os.version.value
    ensures os.pretty == Some("") && !Truthy(os.version) ==>
      OSInfoStr(os) == PyStr(os.name) + " " + PyStr(os.versionId)
  {
  }

  // ---------------------------------------------------------------------
  // ProxmoxVM
  // ---------------------------------------------------------------------

  /** The two configuration keys the VM constructor reads, each None when
      the key is missing from the configuration dictionary. */
  datatype VmConfig = VmConfig(tags: Option<seq<string>>, vmgenid: Option<string>)

  /** A virtual machine as collected from the hypervisor. */
  datatype ProxmoxVM = ProxmoxVM(
    node: string, vmid: int, cpu: int, ram: int, tags: seq<string>, uuid: Option<string>,
    ipv4: Option<string>, ipv6: Option<string>, disks: seq<PveDisk>, osinfo: Option<OSInfo>,
    name: string, interfaces: seq<PveInterface>)

  /** Tag normalisation: each item stripped, empty results dropped, order kept. */
  function NormaliseTags(items: seq<string>): seq<string>
  {
    if items == [] then []
    else var t := Strip(items[|items| - 1]);
      NormaliseTags(items[..|items| - 1]) + (if t == "" then [] else [t])
  }

  /** Every item stripped, in order. */
  function StripAll(items: seq<string>): (r: seq<string>)
    ensures |r| == |items| && forall k :: 0 <= k < |items| ==> r[k] == Strip(items[k])
  {
    seq(|items|, k requires 0 <= k < |items| => Strip(items[k]))
  }

  /** The normalised tags are exactly the non-empty stripped items. */
  lemma {:induction false} NormaliseTagsMembers(items: seq<string>)
    ensures forall t :: t in NormaliseTags(items) <==> t != "" && t in StripAll(items)
    ensures |NormaliseTags(items)| <= |items|
  {
    if items != [] {
      var init, last := items[..|items| - 1], items[|items| - 1];
      NormaliseTagsMembers(init);
      var stripped := Strip(last);
      var tail: seq<string> := if stripped == "" then [] else [stripped];
      var kept, all := NormaliseTags(init), StripAll(init);
      assert NormaliseTags(items) == kept + tail;
      StripAllSnoc(items);
      forall t ensures t in kept + tail <==> t != "" && t in all + [stripped] {
        assert t in kept + tail <==> t in kept || t in tail;
        assert t in all + [stripped] <==> t in all || t == stripped;
      }
    }
  }

  /** The stripped items are those of all but the last, then the last one. */
  lemma StripAllSnoc(items: seq<string>)
    requires items != []
    ensures StripAll(items) == StripAll(items[..|items| - 1]) + [Strip(items[|items| - 1])]
  {
    var init := items[..|items| - 1];
    var a, b := StripAll(items), StripAll(init) + [Strip(items[|items| - 1])];
    assert |a| == |b|;
    forall k | 0 <= k < |a| ensures a[k] == b[k] {
      if k < |init| { assert items[k] == init[k]; }
    }
  }

  /** Normalisation works item by item: it distributes over concatenation,
      which is what "order is preserved" means. */
  lemma {:induction false} NormaliseTagsAppend(a: seq<string>, b: seq<string>)
    ensures NormaliseTags(a + b) == NormaliseTags(a) + NormaliseTags(b)
  {
    if b != [] {
      var binit := b[..|b| - 1];
      assert (a + b)[..|a + b| - 1] == a + binit;
      NormaliseTagsAppend(a, binit);
    } else {
      assert a + b == a;
    }
  }

  /** Normalised tags are already normal. */
  lemma {:induction false} NormaliseTagsIdempotent(items: seq<string>)
    ensures NormaliseTags(NormaliseTags(items)) == NormaliseTags(items)
  {
    if items != [] {
      var init := items[..|items| - 1];
      var t := Strip(items[|items| - 1]);
      NormaliseTagsIdempotent(init);
      var tail: seq<string> := if t == "" then [] else [t];
      NormaliseTagsAppend(NormaliseTags(init), tail);
      if t != "" {
        StripIdempotent(items[|items| - 1]);
        assert NormaliseTags(tail) == NormaliseTags([]) + [Strip(t)];
      }
    }
  }

  /** ProxmoxVM(node, summary, config, ...): vmid, cpus and maxmem are read
      from the summary in that order (a missing key raises KeyError), the
      tags are normalised (missing tags give []), uuid is the config's
      vmgenid or None; the remaining arguments are stored as given. */
  function NewProxmoxVM(node: string, summary: map<string, int>, config: VmConfig,
                        disks: seq<PveDisk>, ipv4: Option<string>, ipv6: Option<string>,
                        osinfo: Option<OSInfo>, name: string, interfaces: seq<PveInterface>)
    : (r: Result<ProxmoxVM>)
    ensures r.Ok? <==> "vmid" in summary && "cpus" in summary && "maxmem" in summary
    ensures r.Err? ==> r.error == KeyError(
      if "vmid" !in summary then "vmid" else if "cpus" !in summary then "cpus" else "maxmem")
    ensures r.Ok? ==>
      && r.value.vmid == summary["vmid"] && r.value.cpu == summary["cpus"]
      && r.value.ram == summary["maxmem"]
      && r.value.tags == NormaliseTags(config.tags.GetOr([]))
      && r.value.uuid == config.vmgenid
      && r.value.node == node && r.value.name == name && r.value.disks == disks
      && r.value.interfaces == interfaces && r.value.osinfo == osinfo
      && r.value.ipv4 == ipv4 && r.value.ipv6 == ipv6
  {
    if "vmid" !in summary then Err(KeyError("vmid"))
    else if "cpus" !in summary then Err(KeyError("cpus"))
    else if "maxmem" !in summary then Err(KeyError("maxmem"))
    else Ok(ProxmoxVM(node, summary["vmid"], summary["cpus"], summary["maxmem"],
                      NormaliseTags(config.tags.GetOr([])), config.vmgenid,
                      ipv4, ipv6, disks, osinfo, name, interfaces))
  }

  /** Every tag of a constructed VM is non-empty and has no surrounding
      whitespace; a configuration without tags gives none. */
  lemma VmTagsNormal(node: string, summary: map<string, int>, config: VmConfig,
                     disks: seq<PveDisk>, ipv4: Option<string>, ipv6: Option<string>,
                     osinfo: Option<OSInfo>, name: string, interfaces: seq<PveInterface>)
    requires NewProxmoxVM(node, summary, config, disks, ipv4, ipv6, osinfo, name, interfaces).Ok?
    ensures var vm := NewProxmoxVM(node, summary, config, disks, ipv4, ipv6, osinfo, name, interfaces).value;
      && (forall t :: t in vm.tags ==> t != "" && Strip(t) == t)
      && (config.tags.None? ==> vm.tags == [])
  {
    var items := config.tags.GetOr([]);
    NormaliseTagsMembers(items);
    forall t | t in NormaliseTags(items)
      ensures Strip(t) == t
    {
      var k :| 0 <= k < |items| && StripAll(items)[k] == t;
      StripIdempotent(items[k]);
    }
  }
}
