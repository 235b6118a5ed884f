/** `tree` and `summary` of the VM client: VMs sorted into nested buckets. */
module VmInventory {
  import opened Basics

  const UNBOUND := "__unbound__"

  datatype Datacenter = Datacenter(id: string, name: Option<string>)

  datatype Cluster = Cluster(id: string, name: Option<string>, datacenter: Option<string>)

  datatype Host = Host(id: string, name: Option<string>, cluster: Option<string>)

  datatype Vm = Vm(id: string, host: Option<string>, powerState: Option<Option<string>>, cpuCount: Option<int>,
                   memory: Option<int>)

  datatype HostBucket = HostBucket(name: Option<string>, vms: seq<Vm>)

  datatype ClusterBucket = ClusterBucket(name: Option<string>, hosts: map<string, HostBucket>)

  datatype DcBucket = DcBucket(name: Option<string>, clusters: map<Option<string>, ClusterBucket>)

  /** The result: buckets by datacenter, cluster and host; a missing datacenter
      or cluster is a key of its own. */
  type Inventory = map<Option<string>, DcBucket>

  /** A dict built over the hosts: the last entry of an id counts. */
  function ClusterOf(hosts: seq<Host>, host: Option<string>): Option<string> {
    if hosts == [] then None
    else
      var last := hosts[|hosts| - 1];
      if Some(last.id) == host then last.cluster else ClusterOf(hosts[..|hosts| - 1], host)
  }

  function DatacenterOf(clusters: seq<Cluster>, cluster: Option<string>): Option<string> {
    if clusters == [] then None
    else
      var last := clusters[|clusters| - 1];
      if Some(last.id) == cluster then last.datacenter else DatacenterOf(clusters[..|clusters| - 1], cluster)
  }

  /** The one bucket a host or VM belongs in. */
  datatype Slot = Slot(dc: Option<string>, cluster: Option<string>, host: string)

  function HostSlot(clusters: seq<Cluster>, h: Host): Slot {
    Slot(DatacenterOf(clusters, h.cluster), h.cluster, h.id)
  }

  function VmSlot(clusters: seq<Cluster>, hosts: seq<Host>, v: Vm): Slot {
    var cluster := ClusterOf(hosts, v.host);
    Slot(DatacenterOf(clusters, cluster), cluster, if v.host.Or("") == "" then UNBOUND else v.host.value)
  }

  // ----- dict updates -----

  function WithDc(inv: Inventory, dc: Option<string>): (r: Inventory)
    ensures dc in r
  {
    if dc in inv then inv else inv[dc := DcBucket(None, map[])]
  }

  function WithCluster(inv: Inventory, dc: Option<string>, cl: Option<string>, name: Option<string>): (r: Inventory)
    ensures dc in r && cl in r[dc].clusters
  {
    var inv' := WithDc(inv, dc);
    if cl in inv'[dc].clusters then inv'
    else inv'[dc := inv'[dc].(clusters := inv'[dc].clusters[cl := ClusterBucket(name, map[])])]
  }

  function PutHost(inv: Inventory, s: Slot, b: HostBucket): Inventory
    requires s.dc in inv && s.cluster in inv[s.dc].clusters
  {
    var d := inv[s.dc];
    var c := d.clusters[s.cluster];
    inv[s.dc := d.(clusters := d.clusters[s.cluster := c.(hosts := c.hosts[s.host := b])])]
  }

  function WithHost(inv: Inventory, s: Slot, name: Option<string>): (r: Inventory)
    ensures s.dc in r && s.cluster in r[s.dc].clusters && s.host in r[s.dc].clusters[s.cluster].hosts
  {
    var inv' := WithCluster(inv, s.dc, s.cluster, None);
    if s.host in inv'[s.dc].clusters[s.cluster].hosts then inv' else PutHost(inv', s, HostBucket(name, []))
  }

  // ----- what each bucket should be -----

  /** One step of the four passes. */
  datatype Entry =
    | ForDc(dc: Option<string>, name: Option<string>)
    | ForCluster(dc: Option<string>, cluster: Option<string>, name: Option<string>)
    | ForHost(slot: Slot, name: Option<string>)
    | ForVm(slot: Slot, vm: Vm)

  /** Where an entry goes, as far down as it goes. */
  function DcOf(e: Entry): Option<string> {
    if e.ForDc? || e.ForCluster? then e.dc else e.slot.dc
  }

  predicate InCluster(e: Entry, dc: Option<string>, cl: Option<string>) {
    match e
    case ForDc(_, _) => false
    case ForCluster(d, c, _) => d == dc && c == cl
    case _ => e.slot.dc == dc && e.slot.cluster == cl
  }

  predicate InHost(e: Entry, s: Slot) {
    (e.ForHost? || e.ForVm?) && e.slot == s
  }

  function NameIn(e: Entry): Option<string> {
    if e.ForVm? then None else e.name
  }

  /** The name of a datacenter bucket, if there is one: the last listed, else none. */
  function DcNamed(es: seq<Entry>, dc: Option<string>): Option<Option<string>> {
    if es == [] then None
    else
      var before, last := DcNamed(es[..|es| - 1], dc), es[|es| - 1];
      if DcOf(last) != dc then before
      else if last.ForDc? then Some(last.name)
      else Some(before.Or(None))
  }

  /** The name of a cluster bucket: that of the first entry that mentions it. */
  function ClusterNamed(es: seq<Entry>, dc: Option<string>, cl: Option<string>): Option<Option<string>> {
    if es == [] then None
    else
      var before, last := ClusterNamed(es[..|es| - 1], dc, cl), es[|es| - 1];
      if before.Some? || !InCluster(last, dc, cl) then before
      else Some(if last.ForCluster? then last.name else None)
  }

  function HostNamed(es: seq<Entry>, s: Slot): Option<Option<string>> {
    if es == [] then None
    else
      var before, last := HostNamed(es[..|es| - 1], s), es[|es| - 1];
      if before.Some? || !InHost(last, s) then before else Some(NameIn(last))
  }

  /** The VMs placed in a slot, in listing order. */
  function VmsPlaced(es: seq<Entry>, s: Slot): seq<Vm> {
    if es == [] then []
    else
      var last := es[|es| - 1];
      VmsPlaced(es[..|es| - 1], s) + if last.ForVm? && last.slot == s then [last.vm] else []
  }

  function DcAt(inv: Inventory, dc: Option<string>): Option<Option<string>> {
    if dc in inv then Some(inv[dc].name) else None
  }

  function ClusterAt(inv: Inventory, dc: Option<string>, cl: Option<string>): Option<Option<string>> {
    if dc in inv && cl in inv[dc].clusters then Some(inv[dc].clusters[cl].name) else None
  }

  function HostAt(inv: Inventory, s: Slot): Option<HostBucket> {
    if s.dc in inv && s.cluster in inv[s.dc].clusters && s.host in inv[s.dc].clusters[s.cluster].hosts
    then Some(inv[s.dc].clusters[s.cluster].hosts[s.host]) else None
  }

  function HostExpected(es: seq<Entry>, s: Slot): Option<HostBucket> {
    var name := HostNamed(es, s);
    if name.Some? then Some(HostBucket(name.value, VmsPlaced(es, s))) else None
  }

  /** The inventory has exactly the buckets the entries call for, each with the
      right name and the right VMs in the right order. */
  ghost predicate Reflects(inv: Inventory, es: seq<Entry>) {
    && (forall dc :: DcAt(inv, dc) == DcNamed(es, dc))
    && (forall dc, cl :: ClusterAt(inv, dc, cl) == ClusterNamed(es, dc, cl))
    && (forall s :: HostAt(inv, s) == HostExpected(es, s))
  }

  function Apply(inv: Inventory, e: Entry): Inventory {
    match e
    case ForDc(dc, name) => inv[dc := DcBucket(name, map[])]
    case ForCluster(dc, cl, name) => WithCluster(inv, dc, cl, name)
    case ForHost(s, name) => WithHost(inv, s, name)
    case ForVm(s, v) =>
      var inv' := WithHost(inv, s, None);
      var b := inv'[s.dc].clusters[s.cluster].hosts[s.host];
      PutHost(inv', s, b.(vms := b.vms + [v]))
  }

  ghost predicate OnlyDcs(es: seq<Entry>) {
    forall e :: e in es ==> e.ForDc?
  }

  lemma {:induction false} Unplaced(es: seq<Entry>, s: Slot)
    ensures HostNamed(es, s).None? ==> VmsPlaced(es, s) == []
    ensures HostNamed(es, s).Some? ==> ClusterNamed(es, s.dc, s.cluster).Some?
    ensures ClusterNamed(es, s.dc, s.cluster).Some? ==> DcNamed(es, s.dc).Some? && !OnlyDcs(es)
  {
    if es == [] {
    } else {
      Unplaced(es[..|es| - 1], s);
      assert forall e :: e in es[..|es| - 1] ==> e in es;
      assert es[|es| - 1] in es;
    }
  }

  lemma WithClusterEffect(inv: Inventory, dc: Option<string>, cl: Option<string>, name: Option<string>)
    ensures var inv' := WithCluster(inv, dc, cl, name);
      && (forall d :: DcAt(inv', d) == if d == dc then Some(DcAt(inv, d).Or(None)) else DcAt(inv, d))
      && (forall d, c :: ClusterAt(inv', d, c) ==
            if d == dc && c == cl then Some(ClusterAt(inv, d, c).Or(name)) else ClusterAt(inv, d, c))
      && (forall s :: HostAt(inv', s) == HostAt(inv, s))
  {
  }

  lemma PutHostEffect(inv: Inventory, s: Slot, b: HostBucket)
    requires s.dc in inv && s.cluster in inv[s.dc].clusters
    ensures var inv' := PutHost(inv, s, b);
      && (forall d :: DcAt(inv', d) == DcAt(inv, d))
      && (forall d, c :: ClusterAt(inv', d, c) == ClusterAt(inv, d, c))
      && (forall t :: HostAt(inv', t) == if t == s then Some(b) else HostAt(inv, t))
  {
  }

  lemma WithHostEffect(inv: Inventory, s: Slot, name: Option<string>)
    ensures var inv' := WithHost(inv, s, name);
      && (forall d :: DcAt(inv', d) == if d == s.dc then Some(DcAt(inv, d).Or(None)) else DcAt(inv, d))
      && (forall d, c :: ClusterAt(inv', d, c) ==
            if d == s.dc && c == s.cluster then Some(ClusterAt(inv, d, c).Or(None)) else ClusterAt(inv, d, c))
      && (forall t :: HostAt(inv', t) ==
            if t == s then Some(HostAt(inv, t).Or(HostBucket(name, []))) else HostAt(inv, t))
  {
    var inv' := WithCluster(inv, s.dc, s.cluster, None);
    WithClusterEffect(inv, s.dc, s.cluster, None);
    if s.host !in inv'[s.dc].clusters[s.cluster].hosts {
      PutHostEffect(inv', s, HostBucket(name, []));
    }
  }

  lemma DcSnoc(es: seq<Entry>, e: Entry, dc: Option<string>)
    ensures DcNamed(es + [e], dc) ==
      if DcOf(e) != dc then DcNamed(es, dc) else if e.ForDc? then Some(e.name) else Some(DcNamed(es, dc).Or(None))
  {
    assert (es + [e])[..|es|] == es;
  }

  lemma ClusterSnoc(es: seq<Entry>, e: Entry, dc: Option<string>, cl: Option<string>)
    ensures ClusterNamed(es + [e], dc, cl) ==
      if !InCluster(e, dc, cl) then ClusterNamed(es, dc, cl)
      else Some(ClusterNamed(es, dc, cl).Or(if e.ForCluster? then e.name else None))
  {
    assert (es + [e])[..|es|] == es;
  }

  lemma HostSnoc(es: seq<Entry>, e: Entry, s: Slot)
    ensures HostNamed(es + [e], s) == if !InHost(e, s) then HostNamed(es, s) else Some(HostNamed(es, s).Or(NameIn(e)))
    ensures VmsPlaced(es + [e], s) == VmsPlaced(es, s) + if e.ForVm? && e.slot == s then [e.vm] else []
  {
    assert (es + [e])[..|es|] == es;
  }

  /** What one more entry does to the expected buckets. */
  lemma ExpectedSnoc(es: seq<Entry>, e: Entry, s: Slot)
    ensures DcNamed(es + [e], s.dc) ==
      if DcOf(e) != s.dc then DcNamed(es, s.dc) else if e.ForDc? then Some(e.name) else Some(DcNamed(es, s.dc).Or(None))
    ensures ClusterNamed(es + [e], s.dc, s.cluster) ==
      if !InCluster(e, s.dc, s.cluster) then ClusterNamed(es, s.dc, s.cluster)
      else Some(ClusterNamed(es, s.dc, s.cluster).Or(if e.ForCluster? then e.name else None))
    ensures HostExpected(es + [e], s) ==
      if !InHost(e, s) then HostExpected(es, s)
      else
        var b := HostExpected(es, s).Or(HostBucket(NameIn(e), []));
        Some(if e.ForVm? then b.(vms := b.vms + [e.vm]) else b)
  {
    hide DcNamed, ClusterNamed, HostNamed, VmsPlaced;
    DcSnoc(es, e, s.dc);
    ClusterSnoc(es, e, s.dc, s.cluster);
    HostSnoc(es, e, s);
    Unplaced(es, s);
    assert VmsPlaced(es, s) + [] == VmsPlaced(es, s);
  }

  lemma NoneYet(es: seq<Entry>, s: Slot)
    requires OnlyDcs(es)
    ensures ClusterNamed(es, s.dc, s.cluster) == None && HostExpected(es, s) == None
  {
    Unplaced(es, s);
  }

  lemma SlotApplied(inv: Inventory, es: seq<Entry>, e: Entry, s: Slot)
    requires Reflects(inv, es) && (e.ForDc? ==> OnlyDcs(es))
    ensures DcAt(Apply(inv, e), s.dc) == DcNamed(es + [e], s.dc)
    ensures ClusterAt(Apply(inv, e), s.dc, s.cluster) == ClusterNamed(es + [e], s.dc, s.cluster)
    ensures HostAt(Apply(inv, e), s) == HostExpected(es + [e], s)
  {
    hide DcNamed, ClusterNamed, HostExpected, WithHost, WithCluster, PutHost;
    ExpectedSnoc(es, e, s);
    assert HostAt(inv, s) == HostExpected(es, s) &&
      ClusterAt(inv, s.dc, s.cluster) == ClusterNamed(es, s.dc, s.cluster);
    match e
    case ForDc(dc, name) => NoneYet(es, s);
    case ForCluster(dc, cl, name) => WithClusterEffect(inv, dc, cl, name);
    case ForHost(slot, name) => WithHostEffect(inv, slot, name);
    case ForVm(slot, vm) =>
      WithHostEffect(inv, slot, None);
      var inv' := WithHost(inv, slot, None);
      assert HostAt(inv', slot).Some?;
      var b := inv'[slot.dc].clusters[slot.cluster].hosts[slot.host];
      PutHostEffect(inv', slot, b.(vms := b.vms + [vm]));
      assert HostAt(inv', s) == if s == slot then Some(b) else HostAt(inv, s);
  }

  lemma ApplyReflects(inv: Inventory, es: seq<Entry>, e: Entry)
    requires Reflects(inv, es) && (e.ForDc? ==> OnlyDcs(es))
    ensures Reflects(Apply(inv, e), es + [e])
  {
    forall s: Slot
      ensures DcAt(Apply(inv, e), s.dc) == DcNamed(es + [e], s.dc)
      ensures ClusterAt(Apply(inv, e), s.dc, s.cluster) == ClusterNamed(es + [e], s.dc, s.cluster)
      ensures HostAt(Apply(inv, e), s) == HostExpected(es + [e], s)
    {
      SlotApplied(inv, es, e, s);
    }
    forall dc, cl
      ensures DcAt(Apply(inv, e), dc) == DcNamed(es + [e], dc)
      ensures ClusterAt(Apply(inv, e), dc, cl) == ClusterNamed(es + [e], dc, cl)
    {
      SlotApplied(inv, es, e, Slot(dc, cl, ""));
    }
  }

  // ----- the four passes -----

  function DcEntries(dcs: seq<Datacenter>): seq<Entry> {
    seq(|dcs|, i requires 0 <= i < |dcs| => ForDc(Some(dcs[i].id), dcs[i].name))
  }

  function ClusterEntries(clusters: seq<Cluster>): seq<Entry> {
    seq(|clusters|, i requires 0 <= i < |clusters| =>
      ForCluster(clusters[i].datacenter, Some(clusters[i].id), clusters[i].name))
  }

  function HostEntries(clusters: seq<Cluster>, hosts: seq<Host>): seq<Entry> {
    seq(|hosts|, i requires 0 <= i < |hosts| => ForHost(HostSlot(clusters, hosts[i]), hosts[i].name))
  }

  function VmEntries(clusters: seq<Cluster>, hosts: seq<Host>, vms: seq<Vm>): seq<Entry> {
    seq(|vms|, i requires 0 <= i < |vms| => ForVm(VmSlot(clusters, hosts, vms[i]), vms[i]))
  }

  function Entries(dcs: seq<Datacenter>, clusters: seq<Cluster>, hosts: seq<Host>, vms: seq<Vm>): seq<Entry> {
    DcEntries(dcs) + ClusterEntries(clusters) + HostEntries(clusters, hosts) + VmEntries(clusters, hosts, vms)
  }

  lemma StartsEmpty()
    ensures Reflects(map[], [])
  {
  }

  /** The inventory is exactly what the listings call for. */
  method Tree(dcs: seq<Datacenter>, clusters: seq<Cluster>, hosts: seq<Host>, vms: seq<Vm>) returns (result: Inventory)
    ensures Reflects(result, Entries(dcs, clusters, hosts, vms))
  {
    hide Reflects, WithCluster;
    ghost var dcEntries, clusterEntries, hostEntries, vmEntries :=
      DcEntries(dcs), ClusterEntries(clusters), HostEntries(clusters, hosts), VmEntries(clusters, hosts, vms);
    result := map[];
    StartsEmpty();
    for i := 0 to |dcs|
      invariant Reflects(result, dcEntries[..i])
    {
      assert dcEntries[..i + 1] == dcEntries[..i] + [dcEntries[i]];
      ApplyReflects(result, dcEntries[..i], dcEntries[i]);
      result := result[Some(dcs[i].id) := DcBucket(dcs[i].name, map[])];
    }
    assert dcEntries[..|dcs|] == dcEntries && dcEntries + clusterEntries[..0] == dcEntries;
    for i := 0 to |clusters|
      invariant Reflects(result, dcEntries + clusterEntries[..i])
    {
      assert dcEntries + clusterEntries[..i + 1] == dcEntries + clusterEntries[..i] + [clusterEntries[i]];
      ApplyReflects(result, dcEntries + clusterEntries[..i], clusterEntries[i]);
      result := WithCluster(result, clusters[i].datacenter, Some(clusters[i].id), clusters[i].name);
    }
    assert dcEntries + clusterEntries[..|clusters|] == dcEntries + clusterEntries &&
      dcEntries + clusterEntries + hostEntries[..0] == dcEntries + clusterEntries;
    for i := 0 to |hosts|
      invariant Reflects(result, dcEntries + clusterEntries + hostEntries[..i])
    {
      assert dcEntries + clusterEntries + hostEntries[..i + 1] ==
        dcEntries + clusterEntries + hostEntries[..i] + [hostEntries[i]];
      ApplyReflects(result, dcEntries + clusterEntries + hostEntries[..i], hostEntries[i]);
      result := WithHost(result, HostSlot(clusters, hosts[i]), hosts[i].name);
    }
    assert dcEntries + clusterEntries + hostEntries[..|hosts|] == dcEntries + clusterEntries + hostEntries &&
      dcEntries + clusterEntries + hostEntries + vmEntries[..0] == dcEntries + clusterEntries + hostEntries;
    for i := 0 to |vms|
      invariant Reflects(result, dcEntries + clusterEntries + hostEntries + vmEntries[..i])
    {
      assert dcEntries + clusterEntries + hostEntries + vmEntries[..i + 1] ==
        dcEntries + clusterEntries + hostEntries + vmEntries[..i] + [vmEntries[i]];
      ApplyReflects(result, dcEntries + clusterEntries + hostEntries + vmEntries[..i], vmEntries[i]);
      var slot := VmSlot(clusters, hosts, vms[i]);
      result := WithHost(result, slot, None);
      var bucket := result[slot.dc].clusters[slot.cluster].hosts[slot.host];
      result := PutHost(result, slot, bucket.(vms := bucket.vms + [vms[i]]));
    }
    assert vmEntries[..|vms|] == vmEntries;
  }

  // ----- what the inventory holds -----

  /** The VMs that belong in a slot, in listing order. */
  function VmsIn(clusters: seq<Cluster>, hosts: seq<Host>, vms: seq<Vm>, s: Slot): seq<Vm> {
    if vms == [] then []
    else
      var last := vms[|vms| - 1];
      VmsIn(clusters, hosts, vms[..|vms| - 1], s) + if VmSlot(clusters, hosts, last) == s then [last] else []
  }

  lemma {:induction false} NothingPlaced(es: seq<Entry>, s: Slot)
    requires forall e :: e in es ==> !e.ForVm?
    ensures VmsPlaced(es, s) == []
  {
    if es == [] {
    } else {
      assert es[|es| - 1] in es && forall e :: e in es[..|es| - 1] ==> e in es;
      NothingPlaced(es[..|es| - 1], s);
    }
  }

  lemma {:induction false} PlacedIs(es: seq<Entry>, clusters: seq<Cluster>, hosts: seq<Host>, vms: seq<Vm>, s: Slot)
    requires forall e :: e in es ==> !e.ForVm?
    ensures VmsPlaced(es + VmEntries(clusters, hosts, vms), s) == VmsIn(clusters, hosts, vms, s)
  {
    var vmEntries := VmEntries(clusters, hosts, vms);
    if vms == [] {
      assert es + vmEntries == es;
      NothingPlaced(es, s);
    } else {
      var n := |vms| - 1;
      assert vmEntries == VmEntries(clusters, hosts, vms[..n]) + [vmEntries[n]];
      assert es + vmEntries == es + VmEntries(clusters, hosts, vms[..n]) + [vmEntries[n]];
      HostSnoc(es + VmEntries(clusters, hosts, vms[..n]), vmEntries[n], s);
      PlacedIs(es, clusters, hosts, vms[..n], s);
    }
  }

  /** There is a host bucket exactly where an entry asks for one. */
  lemma {:induction false} HostNamedIff(es: seq<Entry>, s: Slot)
    ensures HostNamed(es, s).Some? <==> exists e :: e in es && InHost(e, s)
  {
    if es == [] {
    } else {
      HostNamedIff(es[..|es| - 1], s);
      assert es == es[..|es| - 1] + [es[|es| - 1]];
    }
  }

  lemma {:induction false} ClusterNamedIff(es: seq<Entry>, dc: Option<string>, cl: Option<string>)
    ensures ClusterNamed(es, dc, cl).Some? <==> exists e :: e in es && InCluster(e, dc, cl)
    ensures DcNamed(es, dc).Some? <==> exists e :: e in es && DcOf(e) == dc
  {
    if es == [] {
    } else {
      ClusterNamedIff(es[..|es| - 1], dc, cl);
      assert es == es[..|es| - 1] + [es[|es| - 1]];
    }
  }

  lemma HostBuckets(dcs: seq<Datacenter>, clusters: seq<Cluster>, hosts: seq<Host>, vms: seq<Vm>, s: Slot)
    ensures HostNamed(Entries(dcs, clusters, hosts, vms), s).Some? <==>
      (exists h :: h in hosts && HostSlot(clusters, h) == s) ||
      (exists v :: v in vms && VmSlot(clusters, hosts, v) == s)
  {
    var es, hostEntries, vmEntries :=
      Entries(dcs, clusters, hosts, vms), HostEntries(clusters, hosts), VmEntries(clusters, hosts, vms);
    HostNamedIff(es, s);
    if h :| h in hosts && HostSlot(clusters, h) == s {
      var i :| 0 <= i < |hosts| && hosts[i] == h;
      assert hostEntries[i] in es;
    }
    if v :| v in vms && VmSlot(clusters, hosts, v) == s {
      var i :| 0 <= i < |vms| && vms[i] == v;
      assert vmEntries[i] in es;
    }
    if e :| e in es && InHost(e, s) {
      if e in hostEntries {
        var i :| 0 <= i < |hostEntries| && hostEntries[i] == e;
        assert hosts[i] in hosts;
      } else {
        assert e in vmEntries;
        var i :| 0 <= i < |vmEntries| && vmEntries[i] == e;
        assert vms[i] in vms;
      }
    }
  }

  /** Every listed datacenter, cluster and host has its bucket, and so has every
      VM; a host bucket holds exactly the VMs that belong there, in listing order. */
  lemma BucketsAreExact(dcs: seq<Datacenter>, clusters: seq<Cluster>, hosts: seq<Host>, vms: seq<Vm>, inv: Inventory)
    requires Reflects(inv, Entries(dcs, clusters, hosts, vms))
    ensures forall d :: d in dcs ==> Some(d.id) in inv
    ensures forall c :: c in clusters ==> c.datacenter in inv && Some(c.id) in inv[c.datacenter].clusters
    ensures forall s :: HostAt(inv, s).Some? <==>
      (exists h :: h in hosts && HostSlot(clusters, h) == s) ||
      (exists v :: v in vms && VmSlot(clusters, hosts, v) == s)
    ensures forall s :: HostAt(inv, s).Some? ==> HostAt(inv, s).value.vms == VmsIn(clusters, hosts, vms, s)
  {
    var es := Entries(dcs, clusters, hosts, vms);
    var vmEntries := VmEntries(clusters, hosts, vms);
    var others := DcEntries(dcs) + ClusterEntries(clusters) + HostEntries(clusters, hosts);
    forall d | d in dcs
      ensures Some(d.id) in inv
    {
      var i :| 0 <= i < |dcs| && dcs[i] == d;
      assert DcEntries(dcs)[i] in es;
      ClusterNamedIff(es, Some(d.id), None);
      assert DcAt(inv, Some(d.id)).Some?;
    }
    forall c | c in clusters
      ensures c.datacenter in inv && Some(c.id) in inv[c.datacenter].clusters
    {
      var i :| 0 <= i < |clusters| && clusters[i] == c;
      assert ClusterEntries(clusters)[i] in es;
      ClusterNamedIff(es, c.datacenter, Some(c.id));
      assert ClusterAt(inv, c.datacenter, Some(c.id)).Some?;
    }
    forall s
      ensures HostAt(inv, s).Some? <==>
        (exists h :: h in hosts && HostSlot(clusters, h) == s) ||
        (exists v :: v in vms && VmSlot(clusters, hosts, v) == s)
      ensures HostAt(inv, s).Some? ==> HostAt(inv, s).value.vms == VmsIn(clusters, hosts, vms, s)
    {
      HostBuckets(dcs, clusters, hosts, vms, s);
      PlacedIs(others, clusters, hosts, vms, s);
      assert HostAt(inv, s) == HostExpected(es, s);
    }
  }

  // ----- which bucket a VM is in, in terms of the listings -----

  ghost predicate LastHost(hosts: seq<Host>, host: Option<string>, i: int) {
    0 <= i < |hosts| && Some(hosts[i].id) == host && forall j :: i < j < |hosts| ==> Some(hosts[j].id) != host
  }

  /** The last entry with the host's id names the cluster; without an entry there is none. */
  ghost predicate HostNames(hosts: seq<Host>, host: Option<string>, cluster: Option<string>) {
    if exists i :: LastHost(hosts, host, i) then exists i :: LastHost(hosts, host, i) && hosts[i].cluster == cluster
    else cluster == None
  }

  ghost predicate LastCluster(clusters: seq<Cluster>, cluster: Option<string>, i: int) {
    && 0 <= i < |clusters| && Some(clusters[i].id) == cluster
    && forall j :: i < j < |clusters| ==> Some(clusters[j].id) != cluster
  }

  ghost predicate ClusterNames(clusters: seq<Cluster>, cluster: Option<string>, dc: Option<string>) {
    if exists i :: LastCluster(clusters, cluster, i)
    then exists i :: LastCluster(clusters, cluster, i) && clusters[i].datacenter == dc
    else dc == None
  }

  lemma {:induction false} LastHostExists(hosts: seq<Host>, h: Host)
    requires h in hosts
    ensures exists i :: LastHost(hosts, Some(h.id), i)
  {
    var n := |hosts| - 1;
    if hosts[n].id == h.id {
      assert LastHost(hosts, Some(h.id), n);
    } else {
      LastHostExists(hosts[..n], h);
      var i :| LastHost(hosts[..n], Some(h.id), i);
      assert LastHost(hosts, Some(h.id), i);
    }
  }

  lemma {:induction false} ClusterOfLast(hosts: seq<Host>, host: Option<string>, i: int)
    requires LastHost(hosts, host, i)
    ensures ClusterOf(hosts, host) == hosts[i].cluster
  {
    if i < |hosts| - 1 {
      ClusterOfLast(hosts[..|hosts| - 1], host, i);
    }
  }

  lemma {:induction false} ClusterOfUnlisted(hosts: seq<Host>, host: Option<string>)
    requires forall h :: h in hosts ==> Some(h.id) != host
    ensures ClusterOf(hosts, host) == None
  {
    if hosts == [] {
    } else {
      assert hosts[|hosts| - 1] in hosts;
      ClusterOfUnlisted(hosts[..|hosts| - 1], host);
    }
  }

  lemma ClusterOfIsNamed(hosts: seq<Host>, host: Option<string>)
    ensures forall c :: HostNames(hosts, host, c) <==> c == ClusterOf(hosts, host)
  {
    if i :| LastHost(hosts, host, i) {
      ClusterOfLast(hosts, host, i);
    } else {
      forall h | h in hosts
        ensures Some(h.id) != host
      {
        LastHostExists(hosts, h);
      }
      ClusterOfUnlisted(hosts, host);
    }
  }

  lemma {:induction false} LastClusterExists(clusters: seq<Cluster>, c: Cluster)
    requires c in clusters
    ensures exists i :: LastCluster(clusters, Some(c.id), i)
  {
    var n := |clusters| - 1;
    if clusters[n].id == c.id {
      assert LastCluster(clusters, Some(c.id), n);
    } else {
      LastClusterExists(clusters[..n], c);
      var i :| LastCluster(clusters[..n], Some(c.id), i);
      assert LastCluster(clusters, Some(c.id), i);
    }
  }

  lemma {:induction false} DatacenterOfLast(clusters: seq<Cluster>, cluster: Option<string>, i: int)
    requires LastCluster(clusters, cluster, i)
    ensures DatacenterOf(clusters, cluster) == clusters[i].datacenter
  {
    if i < |clusters| - 1 {
      DatacenterOfLast(clusters[..|clusters| - 1], cluster, i);
    }
  }

  lemma {:induction false} DatacenterOfUnlisted(clusters: seq<Cluster>, cluster: Option<string>)
    requires forall c :: c in clusters ==> Some(c.id) != cluster
    ensures DatacenterOf(clusters, cluster) == None
  {
    if clusters == [] {
    } else {
      assert clusters[|clusters| - 1] in clusters;
      DatacenterOfUnlisted(clusters[..|clusters| - 1], cluster);
    }
  }

  lemma DatacenterOfIsNamed(clusters: seq<Cluster>, cluster: Option<string>)
    ensures forall d :: ClusterNames(clusters, cluster, d) <==> d == DatacenterOf(clusters, cluster)
  {
    if i :| LastCluster(clusters, cluster, i) {
      DatacenterOfLast(clusters, cluster, i);
    } else {
      forall c | c in clusters
        ensures Some(c.id) != cluster
      {
        LastClusterExists(clusters, c);
      }
      DatacenterOfUnlisted(clusters, cluster);
    }
  }

  /** The VM is in cluster `c` of datacenter `d`, as its host's entry and the
      cluster's entry say, under its host, or under a key of its own without one. */
  ghost predicate SitsIn(clusters: seq<Cluster>, hosts: seq<Host>, v: Vm, d: Option<string>, c: Option<string>,
                         key: string) {
    && HostNames(hosts, v.host, c) && ClusterNames(clusters, c, d)
    && (if v.host in {None, Some("")} then key == "__unbound__" else v.host == Some(key))
  }

  lemma SitsInSlot(clusters: seq<Cluster>, hosts: seq<Host>, v: Vm, s: Slot)
    ensures SitsIn(clusters, hosts, v, s.dc, s.cluster, s.host) <==> VmSlot(clusters, hosts, v) == s
  {
    ClusterOfIsNamed(hosts, v.host);
    DatacenterOfIsNamed(clusters, s.cluster);
    DatacenterOfIsNamed(clusters, ClusterOf(hosts, v.host));
  }

  lemma {:induction false} VmsInAreFiltered(clusters: seq<Cluster>, hosts: seq<Host>, vms: seq<Vm>, s: Slot,
                                            sits: Vm -> bool)
    requires forall v :: v in vms ==> sits(v) == (VmSlot(clusters, hosts, v) == s)
    ensures VmsIn(clusters, hosts, vms, s) == Filter(sits, vms)
  {
    if vms == [] {
    } else {
      var front, last := vms[..|vms| - 1], vms[|vms| - 1];
      assert vms == front + [last] && last in vms;
      VmsInAreFiltered(clusters, hosts, front, s, sits);
      FilterAppend(sits, front, [last]);
    }
  }

  /** A host bucket is in the inventory exactly where a listed host's own entry puts
      it or a VM sits, and its VMs are exactly those that sit there, in listing order. */
  lemma VmsSitByListings(dcs: seq<Datacenter>, clusters: seq<Cluster>, hosts: seq<Host>, vms: seq<Vm>, inv: Inventory,
                         d: Option<string>, c: Option<string>, key: string, sits: Vm -> bool)
    requires Reflects(inv, Entries(dcs, clusters, hosts, vms))
    requires forall v :: v in vms ==> sits(v) == SitsIn(clusters, hosts, v, d, c, key)
    ensures (d in inv && c in inv[d].clusters && key in inv[d].clusters[c].hosts) <==>
      || (exists h :: h in hosts && h.id == key && h.cluster == c && ClusterNames(clusters, c, d))
      || (exists v :: v in vms && sits(v))
    ensures d in inv && c in inv[d].clusters && key in inv[d].clusters[c].hosts ==>
      inv[d].clusters[c].hosts[key].vms == Filter(sits, vms)
  {
    var s := Slot(d, c, key);
    BucketsAreExact(dcs, clusters, hosts, vms, inv);
    assert HostAt(inv, s).Some? <==> d in inv && c in inv[d].clusters && key in inv[d].clusters[c].hosts;
    forall v | v in vms
      ensures sits(v) == (VmSlot(clusters, hosts, v) == s)
    {
      SitsInSlot(clusters, hosts, v, s);
    }
    VmsInAreFiltered(clusters, hosts, vms, s, sits);
    DatacenterOfIsNamed(clusters, c);
    assert forall h :: HostSlot(clusters, h) == s <==> h.id == key && h.cluster == c && ClusterNames(clusters, c, d);
  }

  lemma {:induction false} FilterNone<T>(s: seq<T>)
    ensures Filter((x: T) => false, s) == []
  {
    if s == [] {
    } else {
      FilterNone(s[1..]);
    }
  }

  /** The VMs of a host: those that name it, all in the one bucket under the cluster
      its last entry names and the datacenter that cluster's last entry names, or
      under no cluster or no datacenter when there is no such entry. Any other
      bucket of that host, from an earlier entry with its id, is empty. */
  lemma HostHoldsItsVms(dcs: seq<Datacenter>, clusters: seq<Cluster>, hosts: seq<Host>, vms: seq<Vm>, inv: Inventory,
                        host: string, c: Option<string>, d: Option<string>)
    requires Reflects(inv, Entries(dcs, clusters, hosts, vms))
    requires host !in {"", "__unbound__"} && HostNames(hosts, Some(host), c) && ClusterNames(clusters, c, d)
    requires (exists h :: h in hosts && h.id == host) || (exists v :: v in vms && v.host == Some(host))
    ensures d in inv && c in inv[d].clusters && host in inv[d].clusters[c].hosts
    ensures inv[d].clusters[c].hosts[host].vms == Filter((v: Vm) => v.host == Some(host), vms)
    ensures forall d', c' :: (d', c') != (d, c) && d' in inv && c' in inv[d'].clusters ==>
      host in inv[d'].clusters[c'].hosts ==> inv[d'].clusters[c'].hosts[host].vms == []
  {
    var here := (v: Vm) => v.host == Some(host);
    ClusterOfIsNamed(hosts, Some(host));
    DatacenterOfIsNamed(clusters, c);
    VmsSitByListings(dcs, clusters, hosts, vms, inv, d, c, host, here);
    if h :| h in hosts && h.id == host {
      LastHostExists(hosts, h);
    }
    forall d', c' | (d', c') != (d, c) && d' in inv && c' in inv[d'].clusters && host in inv[d'].clusters[c'].hosts
      ensures inv[d'].clusters[c'].hosts[host].vms == []
    {
      VmsSitByListings(dcs, clusters, hosts, vms, inv, d', c', host, v => false);
      FilterNone(vms);
    }
  }

  /** The VMs without a host are under a key of their own, under no datacenter and no cluster. */
  lemma HostlessAreUnbound(dcs: seq<Datacenter>, clusters: seq<Cluster>, hosts: seq<Host>, vms: seq<Vm>,
                           inv: Inventory)
    requires Reflects(inv, Entries(dcs, clusters, hosts, vms))
    requires forall v :: v in vms ==> v.host !in {Some(""), Some("__unbound__")}
    requires exists v :: v in vms && v.host == None
    ensures None in inv && None in inv[None].clusters && "__unbound__" in inv[None].clusters[None].hosts
    ensures inv[None].clusters[None].hosts["__unbound__"].vms == Filter((v: Vm) => v.host == None, vms)
  {
    var hostless := (v: Vm) => v.host == None;
    VmsSitByListings(dcs, clusters, hosts, vms, inv, None, None, "__unbound__", hostless);
  }

  // ----- nothing is lost or counted twice -----

  /** The sum of `f` over a finite set. */
  ghost function SumOver<T>(s: set<T>, f: T -> nat): nat {
    if s == {} then 0
    else
      var x :| x in s;
      f(x) + SumOver(s - {x}, f)
  }

  lemma {:induction false} SumSame<T>(s: set<T>, f: T -> nat, g: T -> nat)
    requires forall x :: x in s ==> f(x) == g(x)
    ensures SumOver(s, f) == SumOver(s, g)
  {
    if s == {} {
    } else {
      var x :| x in s && SumOver(s, f) == f(x) + SumOver(s - {x}, f) && SumOver(s, g) == g(x) + SumOver(s - {x}, g);
      SumSame(s - {x}, f, g);
    }
  }

  lemma {:induction false} SumBumped<T>(s: set<T>, f: T -> nat, g: T -> nat, k: T)
    requires k in s && g(k) == f(k) + 1 && forall x :: x in s && x != k ==> f(x) == g(x)
    ensures SumOver(s, g) == SumOver(s, f) + 1
  {
    var x :| x in s && SumOver(s, f) == f(x) + SumOver(s - {x}, f) && SumOver(s, g) == g(x) + SumOver(s - {x}, g);
    if x == k {
      SumSame(s - {x}, f, g);
    } else {
      SumBumped(s - {x}, f, g, k);
    }
  }

  lemma {:induction false} SumZero<T>(s: set<T>, f: T -> nat)
    requires forall x :: x in s ==> f(x) == 0
    ensures SumOver(s, f) == 0
  {
    if s == {} {
    } else {
      var x :| x in s && SumOver(s, f) == f(x) + SumOver(s - {x}, f);
      SumZero(s - {x}, f);
    }
  }

  /** All host buckets of an inventory. */
  ghost function Slots(inv: Inventory): set<Slot> {
    set dc, cl, h | dc in inv && cl in inv[dc].clusters && h in inv[dc].clusters[cl].hosts :: Slot(dc, cl, h)
  }

  /** How often `v` occurs in the bucket at `s`. */
  function Occurrences(inv: Inventory, s: Slot, v: Vm): nat {
    if HostAt(inv, s).Some? then multiset(HostAt(inv, s).value.vms)[v] else 0
  }

  lemma OneMore(clusters: seq<Cluster>, hosts: seq<Host>, front: seq<Vm>, last: Vm, s: Slot, v: Vm)
    ensures multiset(VmsIn(clusters, hosts, front + [last], s))[v] ==
      multiset(VmsIn(clusters, hosts, front, s))[v] + if last == v && VmSlot(clusters, hosts, last) == s then 1 else 0
  {
    assert (front + [last])[..|front|] == front;
  }

  /** How often `v` is placed in each slot. */
  ghost function Placements(clusters: seq<Cluster>, hosts: seq<Host>, vms: seq<Vm>, v: Vm): Slot -> nat {
    s => multiset(VmsIn(clusters, hosts, vms, s))[v]
  }

  lemma {:induction false} EachPlacedOnce(clusters: seq<Cluster>, hosts: seq<Host>, vms: seq<Vm>, slots: set<Slot>,
                                          v: Vm)
    requires forall x :: x in vms ==> VmSlot(clusters, hosts, x) in slots
    ensures SumOver(slots, Placements(clusters, hosts, vms, v)) == multiset(vms)[v]
  {
    if vms == [] {
      SumZero(slots, Placements(clusters, hosts, vms, v));
    } else {
      hide VmsIn, VmSlot, SumOver;
      var front, last := vms[..|vms| - 1], vms[|vms| - 1];
      assert vms == front + [last] && last in vms;
      EachPlacedOnce(clusters, hosts, front, slots, v);
      forall s
        ensures Placements(clusters, hosts, vms, v)(s) == Placements(clusters, hosts, front, v)(s)
          + if last == v && VmSlot(clusters, hosts, last) == s then 1 else 0
      {
        OneMore(clusters, hosts, front, last, s, v);
      }
      if last == v {
        SumBumped(slots, Placements(clusters, hosts, front, v), Placements(clusters, hosts, vms, v),
                  VmSlot(clusters, hosts, last));
      } else {
        SumSame(slots, Placements(clusters, hosts, front, v), Placements(clusters, hosts, vms, v));
      }
    }
  }

  /** Conservation: over all host buckets together, every VM occurs exactly as
      often as it is listed. */
  lemma VmsAreConserved(dcs: seq<Datacenter>, clusters: seq<Cluster>, hosts: seq<Host>, vms: seq<Vm>, inv: Inventory,
                        v: Vm)
    requires Reflects(inv, Entries(dcs, clusters, hosts, vms))
    ensures SumOver(Slots(inv), s => Occurrences(inv, s, v)) == multiset(vms)[v]
  {
    BucketsAreExact(dcs, clusters, hosts, vms, inv);
    forall x | x in vms
      ensures VmSlot(clusters, hosts, x) in Slots(inv)
    {
      assert HostAt(inv, VmSlot(clusters, hosts, x)).Some?;
    }
    EachPlacedOnce(clusters, hosts, vms, Slots(inv), v);
    forall s | s in Slots(inv)
      ensures Occurrences(inv, s, v) == multiset(VmsIn(clusters, hosts, vms, s))[v]
    {
      assert HostAt(inv, s).Some?;
    }
    SumSame(Slots(inv), s => Occurrences(inv, s, v), Placements(clusters, hosts, vms, v));
  }

  // ----- summary -----

  /** Only a missing key counts as unknown; one that holds nothing is a state of its own. */
  function PowerStates(vms: seq<Vm>): seq<Option<string>> {
    seq(|vms|, i requires 0 <= i < |vms| => vms[i].powerState.Or(Some("UNKNOWN")))
  }

  function CpuCounts(vms: seq<Vm>): seq<int> {
    if vms == [] then []
    else
      var last := vms[|vms| - 1];
      CpuCounts(vms[..|vms| - 1]) + if last.cpuCount.Some? then [last.cpuCount.value] else []
  }

  function MemorySum(vms: seq<Vm>): int {
    if vms == [] then 0 else MemorySum(vms[..|vms| - 1]) + vms[|vms| - 1].memory.Or(0)
  }

  /** A map from keys to how often they occur. */
  ghost predicate Counts<T(!new)>(m: map<T, nat>, keys: seq<T>) {
    forall k :: (k in m <==> k in keys) && (k in m ==> m[k] == multiset(keys)[k])
  }

  function Bump<T>(m: map<T, nat>, k: T): map<T, nat> {
    m[k := (if k in m then m[k] else 0) + 1]
  }

  lemma BumpCounts<T(!new)>(m: map<T, nat>, keys: seq<T>, k: T)
    requires Counts(m, keys)
    ensures Counts(Bump(m, k), keys + [k])
  {
    assert k !in keys ==> multiset(keys)[k] == 0;
  }

  lemma CountsNothing<T(!new)>()
    ensures Counts<T>(map[], [])
  {
  }

  lemma KeysSnoc(vms: seq<Vm>, i: nat)
    ensures PowerStates(vms[..0]) == [] && CpuCounts(vms[..0]) == [] && MemorySum(vms[..0]) == 0
    ensures i < |vms| ==>
      && PowerStates(vms[..i + 1]) == PowerStates(vms[..i]) + [vms[i].powerState.Or(Some("UNKNOWN"))]
      && CpuCounts(vms[..i + 1]) ==
         CpuCounts(vms[..i]) + (if vms[i].cpuCount.Some? then [vms[i].cpuCount.value] else [])
      && MemorySum(vms[..i + 1]) == MemorySum(vms[..i]) + vms[i].memory.Or(0)
  {
    if i < |vms| {
      assert vms[..i + 1][..i] == vms[..i];
    }
  }

  method Summary(vms: seq<Vm>)
    returns (total: nat, byPowerState: map<Option<string>, nat>, byCpu: map<int, nat>, totalMemory: int)
    ensures total == |vms| && totalMemory == MemorySum(vms)
    ensures Counts(byPowerState, PowerStates(vms)) && Counts(byCpu, CpuCounts(vms))
  {
    hide Counts, Bump, PowerStates, CpuCounts;
    byPowerState, byCpu, totalMemory := map[], map[], 0;
    CountsNothing<Option<string>>();
    CountsNothing<int>();
    KeysSnoc(vms, 0);
    for i := 0 to |vms|
      invariant Counts(byPowerState, PowerStates(vms[..i])) && Counts(byCpu, CpuCounts(vms[..i]))
      invariant totalMemory == MemorySum(vms[..i])
    {
      var v := vms[i];
      KeysSnoc(vms, i);
      BumpCounts(byPowerState, PowerStates(vms[..i]), v.powerState.Or(Some("UNKNOWN")));
      byPowerState := Bump(byPowerState, v.powerState.Or(Some("UNKNOWN")));
      if v.cpuCount.Some? {
        BumpCounts(byCpu, CpuCounts(vms[..i]), v.cpuCount.value);
        byCpu := Bump(byCpu, v.cpuCount.value);
      } else {
        assert CpuCounts(vms[..i + 1]) == CpuCounts(vms[..i]);
      }
      totalMemory := totalMemory + v.memory.Or(0);
    }
    assert vms[..|vms|] == vms;
    total := |vms|;
  }

  lemma {:induction false} CountsSum<T(!new)>(keys: seq<T>, s: set<T>)
    requires forall k :: k in keys ==> k in s
    ensures SumOver(s, k => multiset(keys)[k]) == |keys|
  {
    var f := k => multiset(keys)[k];
    if keys == [] {
      SumZero(s, f);
    } else {
      var front, last := keys[..|keys| - 1], keys[|keys| - 1];
      assert keys == front + [last] && last in keys;
      CountsSum(front, s);
      SumBumped(s, k => multiset(front)[k], f, last);
    }
  }

  /** The power-state counts of a summary add up to the number of VMs. */
  lemma SummaryAddsUp(vms: seq<Vm>, byPowerState: map<Option<string>, nat>)
    requires Counts(byPowerState, PowerStates(vms))
    ensures SumOver(byPowerState.Keys, k => if k in byPowerState then byPowerState[k] else 0) == |vms|
  {
    var keys := PowerStates(vms);
    CountsSum(keys, byPowerState.Keys);
    SumSame(byPowerState.Keys, k => multiset(keys)[k], k => if k in byPowerState then byPowerState[k] else 0);
  }
}
