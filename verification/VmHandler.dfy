/** The VM controller: it derives network configs from a VirtualMachine and drives the handshake. */
module VmHandler {
  import opened Basics
  import opened Stores
  import opened Handshake

  // ---------------------------------------------------------------- what a VM asks for

  datatype Interface = Interface(name: string, mac: Mac)

  /** A network of the VM; `multus` is the attachment it refers to, if it is of that type. */
  datatype VmNetwork = VmNetwork(name: string, multus: Option<NetName>)

  /** The parts of a VirtualMachine that matter: the NIC-to-MAC annotation (None when it does not
      parse, empty when absent), the interfaces and the networks of the template. */
  datatype Vm = Vm(annotation: Option<map<string, Mac>>, interfaces: seq<Interface>, networks: seq<VmNetwork>)

  const NO_MAC := BadMac("")
  const NO_NET := NetName("")

  /** The MAC of the last interface of that name that has one. */
  function SpecMac(interfaces: seq<Interface>, nic: string): Option<Mac> {
    if interfaces == [] then None
    else if Last(interfaces).name == nic && Last(interfaces).mac != NO_MAC then Some(Last(interfaces).mac)
    else SpecMac(Init(interfaces), nic)
  }

  /** The attachment of the last multus network of that name. */
  function Attachment(networks: seq<VmNetwork>, nic: string): NetName {
    if networks == [] then NO_NET
    else if Last(networks).name == nic && Last(networks).multus.Some? then Last(networks).multus.value
    else Attachment(Init(networks), nic)
  }

  /** The MAC a NIC ends up with: the template wins over the annotation. */
  function MacFor(annotation: map<string, Mac>, interfaces: seq<Interface>, nic: string): Option<Mac> {
    if SpecMac(interfaces, nic).Some? then SpecMac(interfaces, nic)
    else if nic in annotation && annotation[nic] != NO_MAC then Some(annotation[nic])
    else None
  }

  type ConfigMap = map<string, NetworkConfig>

  /** `ncm` holds exactly the NICs that have both a MAC and an attachment. */
  ghost predicate Derived(vm: Vm, ncm: ConfigMap)
    requires vm.annotation.Some?
  {
    && (forall nic :: nic in ncm <==>
          MacFor(vm.annotation.value, vm.interfaces, nic).Some? && Attachment(vm.networks, nic) != NO_NET)
    && (forall nic :: nic in ncm ==>
          ncm[nic] == NetworkConfig(Attachment(vm.networks, nic),
                                    MacFor(vm.annotation.value, vm.interfaces, nic).value, Unset))
  }

  /** `configs` lists the values of `ncm`, one per NIC, in some order. */
  ghost predicate Lists(ncm: ConfigMap, configs: seq<NetworkConfig>) {
    exists nics: seq<string> ::
      && |nics| == |configs| && (forall i, j :: 0 <= i < j < |nics| ==> nics[i] != nics[j])
      && (forall nic :: nic in nics <==> nic in ncm)
      && (forall i :: 0 <= i < |nics| ==> nics[i] in ncm && configs[i] == ncm[nics[i]])
  }

  // ---------------------------------------------------------------- what that means for a VM

  /** The last interface of that name with a MAC. */
  predicate LastMac(interfaces: seq<Interface>, nic: string, i: nat) {
    && i < |interfaces| && interfaces[i].name == nic && interfaces[i].mac != NO_MAC
    && forall j :: i < j < |interfaces| && interfaces[j].name == nic ==> interfaces[j].mac == NO_MAC
  }

  predicate NoMac(interfaces: seq<Interface>, nic: string) {
    forall j :: 0 <= j < |interfaces| && interfaces[j].name == nic ==> interfaces[j].mac == NO_MAC
  }

  /** The last multus network of that name. */
  predicate LastMultus(networks: seq<VmNetwork>, nic: string, i: nat) {
    && i < |networks| && networks[i].name == nic && networks[i].multus.Some?
    && forall j :: i < j < |networks| && networks[j].name == nic ==> networks[j].multus.None?
  }

  predicate NoMultus(networks: seq<VmNetwork>, nic: string) {
    forall j :: 0 <= j < |networks| && networks[j].name == nic ==> networks[j].multus.None?
  }

  lemma {:induction false} SpecMacMeans(interfaces: seq<Interface>, nic: string)
    ensures forall i: nat :: LastMac(interfaces, nic, i) ==> SpecMac(interfaces, nic) == Some(interfaces[i].mac)
    ensures NoMac(interfaces, nic) <==> SpecMac(interfaces, nic).None?
    ensures SpecMac(interfaces, nic).Some? ==> exists i: nat :: LastMac(interfaces, nic, i)
  {
    if interfaces != [] {
      var front := Init(interfaces);
      assert forall j :: 0 <= j < |front| ==> front[j] == interfaces[j];
      SpecMacMeans(front, nic);
      if Last(interfaces).name == nic && Last(interfaces).mac != NO_MAC {
        assert LastMac(interfaces, nic, |interfaces| - 1);
      } else {
        forall i: nat | LastMac(interfaces, nic, i) ensures SpecMac(interfaces, nic) == Some(interfaces[i].mac) {
          assert LastMac(front, nic, i);
        }
        if SpecMac(front, nic).Some? {
          var i: nat :| LastMac(front, nic, i);
          assert LastMac(interfaces, nic, i);
        }
      }
    }
  }

  lemma {:induction false} AttachmentIsLast(networks: seq<VmNetwork>, nic: string, i: nat)
    requires LastMultus(networks, nic, i)
    ensures Attachment(networks, nic) == networks[i].multus.value
  {
    if i < |networks| - 1 {
      var front := Init(networks);
      assert forall j :: 0 <= j < |front| ==> front[j] == networks[j];
      AttachmentIsLast(front, nic, i);
    }
  }

  lemma {:induction false} NoAttachment(networks: seq<VmNetwork>, nic: string)
    requires NoMultus(networks, nic)
    ensures Attachment(networks, nic) == NO_NET
  {
    if networks != [] {
      var front := Init(networks);
      assert forall j :: 0 <= j < |front| ==> front[j] == networks[j];
      NoAttachment(front, nic);
    }
  }

  /** The MAC a NIC has in the configs derived from a VM: that of the last interface of its name with a MAC;
      that of the annotation if no interface of its name has one. */
  lemma DerivedMacMeans(vm: Vm, ncm: ConfigMap, nic: string)
    requires vm.annotation.Some? && Derived(vm, ncm) && nic in ncm
    ensures forall i: nat :: LastMac(vm.interfaces, nic, i) ==> ncm[nic].mac == vm.interfaces[i].mac
    ensures NoMac(vm.interfaces, nic) ==> nic in vm.annotation.value && ncm[nic].mac == vm.annotation.value[nic]
    ensures ncm[nic].mac != NO_MAC && ncm[nic].ip == Unset
  {
    SpecMacMeans(vm.interfaces, nic);
  }

  /** Its network is that of the last multus network of its name; without one it has no config at all. */
  lemma DerivedNetworkMeans(vm: Vm, ncm: ConfigMap, nic: string)
    requires vm.annotation.Some? && Derived(vm, ncm)
    ensures nic in ncm ==>
              forall i: nat :: LastMultus(vm.networks, nic, i) ==> ncm[nic].net == vm.networks[i].multus.value
    ensures NoMultus(vm.networks, nic) ==> nic !in ncm
  {
    hide LastMultus, NoMultus, Attachment;
    if NoMultus(vm.networks, nic) { NoAttachment(vm.networks, nic); }
    forall i: nat | LastMultus(vm.networks, nic, i)
      ensures i < |vm.networks| && vm.networks[i].multus.Some?
      ensures Attachment(vm.networks, nic) == vm.networks[i].multus.value
    {
      InRange(vm.networks, nic, i);
      AttachmentIsLast(vm.networks, nic, i);
    }
  }

  lemma InRange(networks: seq<VmNetwork>, nic: string, i: nat)
    requires LastMultus(networks, nic, i)
    ensures i < |networks| && networks[i].multus.Some?
  {
  }

  /** Which NICs get a config: those with a MAC, in template or annotation, and a multus network that names
      an attachment. */
  lemma DerivedNicsExactly(vm: Vm, ncm: ConfigMap, nic: string, i: nat)
    requires vm.annotation.Some? && Derived(vm, ncm) && LastMultus(vm.networks, nic, i)
    ensures nic in ncm <==>
      && vm.networks[i].multus.value != NO_NET
      && (!NoMac(vm.interfaces, nic) || (nic in vm.annotation.value && vm.annotation.value[nic] != NO_MAC))
  {
    SpecMacMeans(vm.interfaces, nic);
    AttachmentIsLast(vm.networks, nic, i);
  }

  // ---------------------------------------------------------------- deriving it

  /** The first two loops: MACs from the annotation, then from the template. */
  method CollectMacs(annotation: map<string, Mac>, interfaces: seq<Interface>) returns (ncm: ConfigMap)
    ensures forall nic :: nic in ncm <==> MacFor(annotation, interfaces, nic).Some?
    ensures forall nic :: nic in ncm ==>
        ncm[nic] == NetworkConfig(NO_NET, MacFor(annotation, interfaces, nic).value, Unset)
  {
    ncm := map[];
    var rest := annotation.Keys;
    while rest != {}
      invariant rest <= annotation.Keys
      invariant forall nic :: nic in ncm <==> nic in annotation && nic !in rest && annotation[nic] != NO_MAC
      invariant forall nic :: nic in ncm ==> ncm[nic] == NetworkConfig(NO_NET, annotation[nic], Unset)
      decreases rest
    {
      var nic :| nic in rest;
      rest := rest - {nic};
      if annotation[nic] == NO_MAC {
        continue;
      }
      ncm := ncm[nic := NetworkConfig(NO_NET, annotation[nic], Unset)];
    }
    assert interfaces[..0] == [];
    for i := 0 to |interfaces|
      invariant forall nic :: nic in ncm <==> MacFor(annotation, interfaces[..i], nic).Some?
      invariant forall nic :: nic in ncm ==>
          ncm[nic] == NetworkConfig(NO_NET, MacFor(annotation, interfaces[..i], nic).value, Unset)
    {
      assert Init(interfaces[..i + 1]) == interfaces[..i];
      if interfaces[i].mac == NO_MAC {
        continue;
      }
      ncm := ncm[interfaces[i].name := NetworkConfig(NO_NET, interfaces[i].mac, Unset)];
    }
    assert interfaces[..|interfaces|] == interfaces;
  }

  /** The last two loops: attachments, then removal of what has none. */
  method AttachNetworks(macs: ConfigMap, networks: seq<VmNetwork>) returns (ncm: ConfigMap)
    requires forall nic :: nic in macs ==> macs[nic].net == NO_NET
    ensures forall nic :: nic in ncm <==> nic in macs && Attachment(networks, nic) != NO_NET
    ensures forall nic :: nic in ncm ==> ncm[nic] == macs[nic].(net := Attachment(networks, nic))
  {
    ncm := macs;
    for i := 0 to |networks|
      invariant ncm.Keys == macs.Keys
      invariant forall nic :: nic in ncm ==> ncm[nic] == macs[nic].(net := Attachment(networks[..i], nic))
    {
      assert Init(networks[..i + 1]) == networks[..i];
      if networks[i].multus.None? {
        continue;
      }
      if networks[i].name !in ncm {
        continue;
      }
      ncm := ncm[networks[i].name := ncm[networks[i].name].(net := networks[i].multus.value)];
    }
    assert networks[..|networks|] == networks;
    var rest := ncm.Keys;
    ghost var full := ncm;
    while rest != {}
      invariant rest <= full.Keys
      invariant forall nic :: nic in ncm <==> nic in full && (nic in rest || full[nic].net != NO_NET)
      invariant forall nic :: nic in ncm ==> ncm[nic] == full[nic]
      decreases rest
    {
      var nic :| nic in rest;
      rest := rest - {nic};
      if ncm[nic].net == NO_NET {
        ncm := ncm - {nic};
      }
    }
  }

  method Derive(vm: Vm) returns (ncm: ConfigMap)
    requires vm.annotation.Some?
    ensures Derived(vm, ncm)
  {
    ncm := CollectMacs(vm.annotation.value, vm.interfaces);
    ncm := AttachNetworks(ncm, vm.networks);
  }

  /** prepareVmNetCfg: the values of the map, in the order of a Go map iteration. */
  method ListConfigs(ncm: ConfigMap) returns (configs: seq<NetworkConfig>)
    ensures Lists(ncm, configs)
  {
    configs := [];
    var rest := ncm.Keys;
    ghost var nics: seq<string> := [];
    while rest != {}
      invariant rest <= ncm.Keys && |nics| == |configs|
      invariant forall i, j :: 0 <= i < j < |nics| ==> nics[i] != nics[j]
      invariant forall nic :: nic in nics <==> nic in ncm && nic !in rest
      invariant forall i :: 0 <= i < |nics| ==> nics[i] in ncm && configs[i] == ncm[nics[i]]
      decreases rest
    {
      var nic :| nic in rest;
      rest := rest - {nic};
      configs, nics := configs + [ncm[nic]], nics + [nic];
    }
  }

  // ---------------------------------------------------------------- driving the handshake

  /** The versioned store behind the API server. It may refuse a write; otherwise the version decides. */
  class CfgStore {
    const refuses: nat -> bool
    var writes: nat
    var current: Versioned
    ghost var seen: set<Versioned>

    constructor (refuses: nat -> bool, cfg: Cfg)
      ensures View() == Store(Versioned(0, cfg), {Versioned(0, cfg)}) && this.refuses == refuses && writes == 0
    {
      this.refuses, writes := refuses, 0;
      current := Versioned(0, cfg);
      seen := {Versioned(0, cfg)};
    }

    ghost function View(): Store
      reads this
    {
      Store(current, seen)
    }

    method Update(read: Versioned, configs: seq<NetworkConfig>) returns (ok: bool)
      modifies this`writes, this`current, this`seen
      ensures writes == old(writes) + 1 && (ok <==> !refuses(old(writes)) && read.version == old(current).version)
      ensures View() == if ok then WriteConfigs(old(View()), read, configs) else old(View())
    {
      ok, writes := !refuses(writes) && read.version == current.version, writes + 1;
      if ok {
        current := Versioned(current.version + 1, current.cfg.(configs := configs));
        seen := seen + {current};
      }
    }

    method UpdateStatus(read: Versioned, status: CfgStatus) returns (ok: bool)
      modifies this`writes, this`current, this`seen
      ensures writes == old(writes) + 1 && (ok <==> !refuses(old(writes)) && read.version == old(current).version)
      ensures View() == if ok then WriteStatus(old(View()), read, status) else old(View())
    {
      ok, writes := !refuses(writes) && read.version == current.version, writes + 1;
      if ok {
        current := Versioned(current.version + 1, current.cfg.(status := status));
        seen := seen + {current};
      }
    }
  }

  /** OnChange for a VM without an object: one is created with the configs derived from the VM, unless
      there are none or the API server refuses. A run of the handshake starts here. */
  method OnMissing(vm: Vm, refuses: nat -> bool, refused: bool) returns (store: CfgStore?)
    ensures store != null ==> fresh(store) && NewStore(store.View())
    ensures store != null ==>
      exists ncm :: vm.annotation.Some? && Derived(vm, ncm) && ncm != map[] && Lists(ncm, store.current.cfg.configs)
    ensures store == null && !refused && vm.annotation.Some? ==> Derived(vm, map[])
  {
    hide Derived, Lists;
    store := null;
    if vm.annotation.None? {
      return;
    }
    var ncm := Derive(vm);
    if ncm == map[] {
      return;
    }
    var configs := ListConfigs(ncm);
    if !refused {
      store := new CfgStore(refuses, Cfg(configs, false, CfgStatus([], Absent, Absent, Absent)));
    }
  }

  /** OnChange for a VM whose object exists; `read` is what the informer cache returned. `configs` is what the
      VM asks for, None if it asks for nothing; `ok` is how the write fared, None if the spec was as
      desired. A write is the one the handshake prescribes. */
  method OnChange(vm: Vm, store: CfgStore, read: Versioned)
    returns (configs: Option<seq<NetworkConfig>>, ok: Option<bool>)
    requires read in store.seen
    modifies store
    ensures VmStep(old(store.View()), store.View())
    ensures configs.Some? ==>
      exists ncm :: vm.annotation.Some? && Derived(vm, ncm) && ncm != map[] && Lists(ncm, configs.value)
    ensures configs.None? && vm.annotation.Some? ==> Derived(vm, map[])
    ensures ok.Some? <==> configs.Some? && configs.value != read.cfg.configs
    ensures store.View() ==
      if ok == Some(true) then VmWrite(old(store.View()), read, configs.value) else old(store.View())
    ensures ok.Some? ==>
      && store.writes == old(store.writes) + 1
      && (ok.value <==> !store.refuses(old(store.writes)) && read.version == old(store.current).version)
  {
    hide Derived, Lists;
    configs, ok := None, None;
    assert VmWrite(store.View(), read, read.cfg.configs) == store.View();
    if vm.annotation.None? {
      return;
    }
    var ncm := Derive(vm);
    if ncm == map[] {
      return;
    }
    var desired := ListConfigs(ncm);
    configs := Some(desired);
    ghost var write := VmWrite(store.View(), read, desired);
    if desired != read.cfg.configs {
      var written;
      if read.cfg.status.inSynced == False {
        written := store.Update(read, desired);
      } else {
        written := store.UpdateStatus(read, read.cfg.status.(inSynced := False));
      }
      ok := Some(written);
    }
  }
}
