/** Validation of the installer workflow data (`installer_topology.validate`) and
    the deployment that consumes it (`installer_appliance.deploy_installer`). */
module InstallerSpec {
  import opened Basics
  import opened Strings

  /** A key that may be missing, hold nothing, or hold a text. */
  datatype Field = Absent | Null | Text(text: string) {
    /** What `get` finds: missing and nothing are the same to it. */
    function Got(): Option<string> {
      if Text? then Some(text) else None
    }

    /** What `get` with a default finds: only a missing key takes the default. */
    function GotOr(default: string): Option<string> {
      if Absent? then Some(default) else Got()
    }
  }

  datatype HostEntry = HostEntry(fqdn: Field, ip: Field, username: Field, password: Field)

  /** `port` is None when the key is missing, Some(None) when it is no number. */
  datatype Appliance = Appliance(
    host: Field, ovaUrl: Field, vmName: Field, target: Field,
    hosts: seq<HostEntry>, backend: Field, datastore: Field, provisioning: Field,
    port: Option<Option<int>>)

  datatype HostSpec = HostSpec(hostname: Field, username: Field, password: Field)

  /** `present` names the required keys that hold something. */
  datatype Bringup = Bringup(present: set<string>, subdomain: bool, nameservers: bool,
                             hostSpecs: seq<HostSpec>, networkTypes: seq<string>)

  datatype Spec = Spec(appliance: Appliance, bringup: Option<Bringup>)

  datatype Error =
    | MissingApplianceKey(key: string)
    | NoHosts
    | TargetNotListed
    | BadBackend
    | NoBringup
    | MissingBringupKey(key: string)
    | TooFewHosts
    | NoHostname(index: nat)
    | NoCredentials(index: nat)
    | DnsIncomplete
    | MissingNetwork(kind: string)

  datatype Warning = NoDatastore | NotThin | UnknownHostname(index: nat)

  const FIRST_KEYS := ["sddcId", "workflowType", "dnsSpec", "hostSpecs"]

  const LAST_KEYS := ["sddcManagerSpec", "vcenterSpec", "nsxtSpec", "datastoreSpec", "clusterSpec"]

  const NETWORKS := ["MANAGEMENT", "VMOTION", "VSAN"]

  predicate Given(x: Field) {
    x.Text? && x.text != ""
  }

  predicate Matches(h: HostEntry, value: Option<string>) {
    h.fqdn.Got() == value || h.ip.Got() == value
  }

  /** The first host listed under a name or address. */
  function FirstHost(hosts: seq<HostEntry>, value: Option<string>): Option<HostEntry> {
    if hosts == [] then None
    else if Matches(hosts[0], value) then Some(hosts[0])
    else FirstHost(hosts[1..], value)
  }

  lemma {:induction false} FirstHostIs(hosts: seq<HostEntry>, value: Option<string>, i: nat)
    requires i <= |hosts| && forall j :: 0 <= j < i ==> !Matches(hosts[j], value)
    ensures FirstHost(hosts, value) == FirstHost(hosts[i..], value)
    decreases i
  {
    if i == 0 {
      assert hosts[0..] == hosts;
    } else {
      FirstHostIs(hosts, value, i - 1);
      assert hosts[i - 1..][1..] == hosts[i..];
    }
  }

  /** The backend a validator takes: a missing, null or empty one is the default. */
  function ValidatedBackend(f: Field): string {
    Lower(if Given(f) then f.text else "pyvmomi")
  }

  predicate KnownBackend(name: string) {
    name == "pyvmomi" || name == "ovftool"
  }

  // ----- the rules a spec must meet -----

  ghost predicate ApplianceRules(a: Appliance) {
    && Given(a.host) && Given(a.ovaUrl) && Given(a.vmName) && Given(a.target)
    && a.hosts != []
    && (exists h :: h in a.hosts && Matches(h, Some(a.target.text)))
    && KnownBackend(ValidatedBackend(a.backend))
  }

  predicate HostSpecComplete(h: HostSpec) {
    Given(h.hostname) && Given(h.username) && Given(h.password)
  }

  ghost predicate BringupRules(b: Bringup) {
    && (forall k :: k in FIRST_KEYS || k in LAST_KEYS ==> k in b.present)
    && |b.hostSpecs| >= 3
    && (forall i :: 0 <= i < |b.hostSpecs| ==> HostSpecComplete(b.hostSpecs[i]))
    && b.subdomain && b.nameservers
    && (forall n :: n in NETWORKS ==> n in b.networkTypes)
  }

  ghost predicate Rules(s: Spec) {
    ApplianceRules(s.appliance) && s.bringup.Some? && BringupRules(s.bringup.value)
  }

  // ----- the errors, in the order they are reported -----

  function Unless(ok: bool, e: Error): seq<Error> {
    if ok then [] else [e]
  }

  function ApplianceKeyErrors(a: Appliance): seq<Error> {
    Unless(Given(a.host), MissingApplianceKey("installer_host"))
    + Unless(Given(a.ovaUrl), MissingApplianceKey("installer_ova_url"))
    + Unless(Given(a.vmName), MissingApplianceKey("installer_vm_name"))
    + Unless(Given(a.target), MissingApplianceKey("installer_deploy_esxi"))
  }

  function TargetErrors(a: Appliance): seq<Error> {
    Unless(a.hosts != [], NoHosts)
    + Unless(!Given(a.target) || FirstHost(a.hosts, a.target.Got()).Some?, TargetNotListed)
  }

  function ApplianceErrors(a: Appliance): seq<Error> {
    ApplianceKeyErrors(a) + TargetErrors(a) + Unless(KnownBackend(ValidatedBackend(a.backend)), BadBackend)
  }

  function ApplianceWarnings(a: Appliance): seq<Warning> {
    if ValidatedBackend(a.backend) != "ovftool" then []
    else
      (if Given(a.datastore) then [] else [NoDatastore])
      + if a.provisioning == Text("thin") then [] else [NotThin]
  }

  function MissingKeys(keys: seq<string>, present: set<string>): seq<Error> {
    if keys == [] then []
    else
      MissingKeys(keys[..|keys| - 1], present)
      + Unless(keys[|keys| - 1] in present, MissingBringupKey(keys[|keys| - 1]))
  }

  function MissingNetworks(kinds: seq<string>, types: seq<string>): seq<Error> {
    if kinds == [] then []
    else
      MissingNetworks(kinds[..|kinds| - 1], types)
      + Unless(kinds[|kinds| - 1] in types, MissingNetwork(kinds[|kinds| - 1]))
  }

  function HostSpecErrors(hosts: seq<HostSpec>): seq<Error> {
    if hosts == [] then []
    else
      var i, h := |hosts| - 1, hosts[|hosts| - 1];
      HostSpecErrors(hosts[..i])
      + (if !Given(h.hostname) then [NoHostname(i)]
         else Unless(Given(h.username) && Given(h.password), NoCredentials(i)))
  }

  function ShortName(fqdn: string): string {
    Split(fqdn, '.')[0]
  }

  function KnownNames(hosts: seq<HostEntry>): set<string> {
    if hosts == [] then {}
    else
      var h := hosts[|hosts| - 1];
      KnownNames(hosts[..|hosts| - 1])
      + (if Given(h.fqdn) then {h.fqdn.text, ShortName(h.fqdn.text)} else {})
      + if Given(h.ip) then {h.ip.text} else {}
  }

  function HostSpecWarnings(hosts: seq<HostSpec>, known: set<string>): seq<Warning> {
    if hosts == [] then []
    else
      var i, h := |hosts| - 1, hosts[|hosts| - 1];
      HostSpecWarnings(hosts[..i], known)
      + if Given(h.hostname) && known != {} && h.hostname.text !in known then [UnknownHostname(i)] else []
  }

  function HostErrors(b: Bringup): seq<Error> {
    MissingKeys(FIRST_KEYS, b.present) + Unless(|b.hostSpecs| >= 3, TooFewHosts) + HostSpecErrors(b.hostSpecs)
  }

  function ComponentErrors(b: Bringup): seq<Error> {
    Unless("dnsSpec" !in b.present || (b.subdomain && b.nameservers), DnsIncomplete)
    + MissingKeys(LAST_KEYS, b.present)
    + MissingNetworks(NETWORKS, b.networkTypes)
  }

  function BringupErrors(b: Option<Bringup>): seq<Error> {
    if b == None then [NoBringup] else HostErrors(b.value) + ComponentErrors(b.value)
  }

  function BringupWarnings(b: Option<Bringup>, hosts: seq<HostEntry>): seq<Warning> {
    if b == None then [] else HostSpecWarnings(b.value.hostSpecs, KnownNames(hosts))
  }

  lemma HostSpecSnoc(specs: seq<HostSpec>, i: nat, known: set<string>)
    ensures HostSpecErrors(specs[..0]) == [] && HostSpecWarnings(specs[..0], known) == []
    ensures i < |specs| ==>
      var h := specs[i];
      && HostSpecErrors(specs[..i + 1]) == HostSpecErrors(specs[..i])
         + (if !Given(h.hostname) then [NoHostname(i)]
            else Unless(Given(h.username) && Given(h.password), NoCredentials(i)))
      && HostSpecWarnings(specs[..i + 1], known) == HostSpecWarnings(specs[..i], known)
         + if Given(h.hostname) && known != {} && h.hostname.text !in known then [UnknownHostname(i)] else []
  {
    if i < |specs| {
      assert specs[..i + 1][..i] == specs[..i];
    }
  }

  // ----- the validators -----

  /** The host has the text as its name or address, or lacks either when nothing is looked for. */
  ghost predicate Named(h: HostEntry, value: Option<string>) {
    match value
    case Some(text) => h.fqdn == Text(text) || h.ip == Text(text)
    case None => h.fqdn in {Absent, Null} || h.ip in {Absent, Null}
  }

  /** `h` is the first host so named. */
  ghost predicate FirstNamed(hosts: seq<HostEntry>, value: Option<string>, h: HostEntry) {
    exists i :: 0 <= i < |hosts| && hosts[i] == h && Named(h, value)
                && forall j :: 0 <= j < i ==> !Named(hosts[j], value)
  }

  lemma MatchesNamed(h: HostEntry, value: Option<string>)
    ensures Matches(h, value) <==> Named(h, value)
  {
  }

  lemma {:induction false} FirstHostNamed(hosts: seq<HostEntry>, value: Option<string>)
    ensures FirstHost(hosts, value) == None <==> forall h :: h in hosts ==> !Named(h, value)
    ensures FirstHost(hosts, value).Some? ==> FirstNamed(hosts, value, FirstHost(hosts, value).value)
  {
    if hosts == [] {
    } else {
      var first, rest := hosts[0], hosts[1..];
      assert hosts == [first] + rest;
      MatchesNamed(first, value);
      FirstHostNamed(rest, value);
      if !Named(first, value) && FirstHost(rest, value).Some? {
        var h := FirstHost(rest, value).value;
        var i :| 0 <= i < |rest| && rest[i] == h && Named(h, value)
          && forall j :: 0 <= j < i ==> !Named(rest[j], value);
        assert hosts[i + 1] == h && forall j :: 0 < j < i + 1 ==> hosts[j] == rest[j - 1];
      }
    }
  }

  method FindHost(hosts: seq<HostEntry>, value: Option<string>) returns (r: Option<HostEntry>)
    ensures r == FirstHost(hosts, value)
    ensures r == None <==> forall h :: h in hosts ==> !Named(h, value)
    ensures r.Some? ==> FirstNamed(hosts, value, r.value)
  {
    FirstHostNamed(hosts, value);
    for i := 0 to |hosts|
      invariant forall j :: 0 <= j < i ==> !Matches(hosts[j], value)
    {
      FirstHostIs(hosts, value, i);
      if Matches(hosts[i], value) {
        return Some(hosts[i]);
      }
    }
    FirstHostIs(hosts, value, |hosts|);
    r := None;
  }

  ghost predicate GoesBy(h: HostEntry, n: string) {
    (Given(h.fqdn) && (h.fqdn.text == n || ShortName(h.fqdn.text) == n)) || (Given(h.ip) && h.ip.text == n)
  }

  lemma {:induction false} KnownIff(hosts: seq<HostEntry>, n: string)
    ensures n in KnownNames(hosts) <==> exists h :: h in hosts && GoesBy(h, n)
  {
    if hosts == [] {
    } else {
      var front, last := hosts[..|hosts| - 1], hosts[|hosts| - 1];
      assert hosts == front + [last] && last in hosts;
      KnownIff(front, n);
      assert n in KnownNames(hosts) <==> n in KnownNames(front) || GoesBy(last, n);
      if h :| h in front && GoesBy(h, n) {
        assert h in hosts;
      }
    }
  }

  /** A name is known exactly when some listed host has it as its full name, as
      the part of its full name before the first dot, or as its address. */
  method KnownHostNames(hosts: seq<HostEntry>) returns (names: set<string>)
    ensures names == KnownNames(hosts)
    ensures forall n :: n in names <==> exists h :: h in hosts && GoesBy(h, n)
  {
    names := {};
    for i := 0 to |hosts|
      invariant names == KnownNames(hosts[..i])
    {
      assert hosts[..i + 1][..i] == hosts[..i];
      var h := hosts[i];
      if Given(h.fqdn) {
        names := names + {h.fqdn.text, ShortName(h.fqdn.text)};
      }
      if Given(h.ip) {
        names := names + {h.ip.text};
      }
    }
    assert hosts[..|hosts|] == hosts;
    forall n
      ensures n in names <==> exists h :: h in hosts && GoesBy(h, n)
    {
      KnownIff(hosts, n);
    }
  }

  /** The two lists the validators append to. */
  class Report {
    var errors: seq<Error>
    var warnings: seq<Warning>

    constructor ()
      ensures errors == [] && warnings == []
    {
      errors, warnings := [], [];
    }

    method Require(ok: bool, e: Error)
      modifies this
      ensures errors == old(errors) + Unless(ok, e) && warnings == old(warnings)
    {
      if !ok {
        errors := errors + [e];
      }
    }

    method Warn(w: Warning)
      modifies this
      ensures errors == old(errors) && warnings == old(warnings) + [w]
    {
      warnings := warnings + [w];
    }

    method RequireApplianceKeys(a: Appliance)
      modifies this
      ensures errors == old(errors) + ApplianceKeyErrors(a) && warnings == old(warnings)
    {
      Require(Given(a.host), MissingApplianceKey("installer_host"));
      Require(Given(a.ovaUrl), MissingApplianceKey("installer_ova_url"));
      Require(Given(a.vmName), MissingApplianceKey("installer_vm_name"));
      Require(Given(a.target), MissingApplianceKey("installer_deploy_esxi"));
    }

    method RequireTarget(a: Appliance)
      modifies this
      ensures errors == old(errors) + TargetErrors(a) && warnings == old(warnings)
    {
      Require(a.hosts != [], NoHosts);
      if Given(a.target) {
        var entry := FindHost(a.hosts, a.target.Got());
        Require(entry.Some?, TargetNotListed);
      }
    }

    method ValidateAppliance(a: Appliance)
      modifies this
      ensures errors == old(errors) + ApplianceErrors(a)
      ensures warnings == old(warnings) + ApplianceWarnings(a)
    {
      hide ApplianceKeyErrors, TargetErrors, ValidatedBackend;
      RequireApplianceKeys(a);
      RequireTarget(a);
      var backend := ValidatedBackend(a.backend);
      Require(KnownBackend(backend), BadBackend);
      if backend == "ovftool" {
        if !Given(a.datastore) {
          Warn(NoDatastore);
        }
        if a.provisioning != Text("thin") {
          Warn(NotThin);
        }
      }
    }

    method RequireKeys(keys: seq<string>, present: set<string>)
      modifies this
      ensures errors == old(errors) + MissingKeys(keys, present) && warnings == old(warnings)
    {
      for i := 0 to |keys|
        invariant errors == old(errors) + MissingKeys(keys[..i], present) && warnings == old(warnings)
      {
        assert keys[..i + 1][..i] == keys[..i];
        Require(keys[i] in present, MissingBringupKey(keys[i]));
      }
      assert keys[..|keys|] == keys;
    }

    method RequireNetworks(kinds: seq<string>, types: seq<string>)
      modifies this
      ensures errors == old(errors) + MissingNetworks(kinds, types) && warnings == old(warnings)
    {
      for i := 0 to |kinds|
        invariant errors == old(errors) + MissingNetworks(kinds[..i], types) && warnings == old(warnings)
      {
        assert kinds[..i + 1][..i] == kinds[..i];
        Require(kinds[i] in types, MissingNetwork(kinds[i]));
      }
      assert kinds[..|kinds|] == kinds;
    }

    method ValidateHostSpecs(specs: seq<HostSpec>, hosts: seq<HostEntry>)
      modifies this
      ensures errors == old(errors) + HostSpecErrors(specs)
      ensures warnings == old(warnings) + HostSpecWarnings(specs, KnownNames(hosts))
    {
      hide HostSpecErrors, HostSpecWarnings, KnownNames;
      var known := KnownHostNames(hosts);
      HostSpecSnoc(specs, 0, known);
      for i := 0 to |specs|
        invariant errors == old(errors) + HostSpecErrors(specs[..i])
        invariant warnings == old(warnings) + HostSpecWarnings(specs[..i], known)
      {
        HostSpecSnoc(specs, i, known);
        var h := specs[i];
        if !Given(h.hostname) {
          Require(false, NoHostname(i));
        } else {
          if known != {} && h.hostname.text !in known {
            Warn(UnknownHostname(i));
          }
          Require(Given(h.username) && Given(h.password), NoCredentials(i));
        }
      }
      assert specs[..|specs|] == specs;
    }

    method ValidateHosts(b: Bringup, hosts: seq<HostEntry>)
      modifies this
      ensures errors == old(errors) + HostErrors(b)
      ensures warnings == old(warnings) + HostSpecWarnings(b.hostSpecs, KnownNames(hosts))
    {
      hide MissingKeys, HostSpecErrors, HostSpecWarnings;
      RequireKeys(FIRST_KEYS, b.present);
      Require(|b.hostSpecs| >= 3, TooFewHosts);
      ValidateHostSpecs(b.hostSpecs, hosts);
    }

    method ValidateComponents(b: Bringup)
      modifies this
      ensures errors == old(errors) + ComponentErrors(b) && warnings == old(warnings)
    {
      hide MissingKeys, MissingNetworks;
      Require("dnsSpec" !in b.present || (b.subdomain && b.nameservers), DnsIncomplete);
      RequireKeys(LAST_KEYS, b.present);
      RequireNetworks(NETWORKS, b.networkTypes);
    }

    method ValidateBringup(b: Option<Bringup>, hosts: seq<HostEntry>)
      modifies this
      ensures errors == old(errors) + BringupErrors(b)
      ensures warnings == old(warnings) + BringupWarnings(b, hosts)
    {
      if b == None {
        Require(false, NoBringup);
        return;
      }
      hide HostErrors, ComponentErrors;
      ValidateHosts(b.value, hosts);
      ValidateComponents(b.value);
    }
  }

  /** The short name is what comes before the first dot. */
  lemma ShortNameIs(fqdn: string)
    ensures '.' !in ShortName(fqdn) && ShortName(fqdn) <= fqdn
    ensures ShortName(fqdn) == fqdn || fqdn[|ShortName(fqdn)|] == '.'
  {
    JoinSplit(fqdn, '.');
    var parts := Split(fqdn, '.');
    assert parts[0] in parts;
    if |parts| > 1 {
      assert fqdn == parts[0] + ['.'] + Join(parts[1..], '.');
    }
  }

  lemma {:induction false} FirstHostExists(hosts: seq<HostEntry>, value: Option<string>)
    ensures FirstHost(hosts, value).Some? <==> exists h :: h in hosts && Matches(h, value)
  {
    if hosts == [] {
    } else {
      FirstHostExists(hosts[1..], value);
      assert hosts == [hosts[0]] + hosts[1..];
    }
  }

  lemma ApplianceValid(a: Appliance)
    ensures ApplianceErrors(a) == [] <==> ApplianceRules(a)
  {
    hide ValidatedBackend, FirstHost, Matches;
    if Given(a.target) {
      FirstHostExists(a.hosts, a.target.Got());
    }
    assert ApplianceKeyErrors(a) == [] <==> Given(a.host) && Given(a.ovaUrl) && Given(a.vmName) && Given(a.target);
  }

  lemma {:induction false} NoneMissing(keys: seq<string>, present: set<string>, types: seq<string>)
    ensures MissingKeys(keys, present) == [] <==> forall k :: k in keys ==> k in present
    ensures MissingNetworks(keys, types) == [] <==> forall k :: k in keys ==> k in types
  {
    if keys == [] {
    } else {
      NoneMissing(keys[..|keys| - 1], present, types);
      assert keys == keys[..|keys| - 1] + [keys[|keys| - 1]];
    }
  }

  lemma {:induction false} HostSpecsComplete(hosts: seq<HostSpec>)
    ensures HostSpecErrors(hosts) == [] <==> forall i :: 0 <= i < |hosts| ==> HostSpecComplete(hosts[i])
  {
    if hosts == [] {
    } else {
      HostSpecsComplete(hosts[..|hosts| - 1]);
      assert forall i :: 0 <= i < |hosts| - 1 ==> hosts[..|hosts| - 1][i] == hosts[i];
    }
  }

  lemma BringupValid(b: Bringup)
    ensures HostErrors(b) + ComponentErrors(b) == [] <==> BringupRules(b)
  {
    hide MissingKeys, MissingNetworks, HostSpecErrors, HostSpecComplete;
    NoneMissing(FIRST_KEYS, b.present, []);
    NoneMissing(LAST_KEYS, b.present, []);
    NoneMissing(NETWORKS, {}, b.networkTypes);
    HostSpecsComplete(b.hostSpecs);
    assert FIRST_KEYS[2] == "dnsSpec";
    assert HostErrors(b) == [] <==>
      MissingKeys(FIRST_KEYS, b.present) == [] && |b.hostSpecs| >= 3 && HostSpecErrors(b.hostSpecs) == [];
  }

  /** No error is reported exactly when all rules hold. */
  lemma ValidIffRules(s: Spec)
    ensures ApplianceErrors(s.appliance) + BringupErrors(s.bringup) == [] <==> Rules(s)
  {
    hide ApplianceErrors, ApplianceRules, HostErrors, ComponentErrors, BringupRules;
    ApplianceValid(s.appliance);
    if s.bringup.Some? {
      BringupValid(s.bringup.value);
    }
  }

  /** A key that holds a text with something in it. */
  ghost predicate Filled(f: Field) {
    f !in {Absent, Null, Text("")}
  }

  ghost predicate ApplianceFilled(a: Appliance) {
    && Filled(a.host) && Filled(a.ovaUrl) && Filled(a.vmName) && Filled(a.target)
    && (exists h :: h in a.hosts && Named(h, Some(a.target.text)))
    && (!Filled(a.backend) || Spells(a.backend.text, "pyvmomi") || Spells(a.backend.text, "ovftool"))
  }

  ghost predicate BringupFilled(b: Bringup) {
    && {"sddcId", "workflowType", "dnsSpec", "hostSpecs", "sddcManagerSpec", "vcenterSpec", "nsxtSpec",
        "datastoreSpec", "clusterSpec"} <= b.present
    && |b.hostSpecs| >= 3
    && (forall h :: h in b.hostSpecs ==> Filled(h.hostname) && Filled(h.username) && Filled(h.password))
    && b.subdomain && b.nameservers
    && "MANAGEMENT" in b.networkTypes && "VMOTION" in b.networkTypes && "VSAN" in b.networkTypes
  }

  lemma FilledIsGiven(f: Field)
    ensures Filled(f) <==> Given(f)
  {
  }

  lemma BackendRule(f: Field)
    ensures KnownBackend(ValidatedBackend(f)) <==>
      !Filled(f) || Spells(f.text, "pyvmomi") || Spells(f.text, "ovftool")
  {
    hide Lower;
    LowerSpells("pyvmomi", "pyvmomi");
    if Filled(f) {
      LowerSpells(f.text, "pyvmomi");
      LowerSpells(f.text, "ovftool");
    }
  }

  lemma ApplianceRulesAre(a: Appliance)
    ensures ApplianceRules(a) <==> ApplianceFilled(a)
  {
    hide ValidatedBackend, KnownBackend, Spells, Matches, Named, Filled;
    BackendRule(a.backend);
    FilledIsGiven(a.host);
    FilledIsGiven(a.ovaUrl);
    FilledIsGiven(a.vmName);
    FilledIsGiven(a.target);
    if a.target.Text? {
      var target := Some(a.target.text);
      if h :| h in a.hosts && Matches(h, target) {
        MatchesNamed(h, target);
        assert Named(h, target);
      }
      if h :| h in a.hosts && Named(h, target) {
        MatchesNamed(h, target);
        assert Matches(h, target);
      }
    }
  }

  lemma BringupRulesAre(b: Bringup)
    ensures BringupRules(b) <==> BringupFilled(b)
  {
    var first, last, networks := FIRST_KEYS, LAST_KEYS, NETWORKS;
    assert first[0] == "sddcId" && first[1] == "workflowType" && first[2] == "dnsSpec" && first[3] == "hostSpecs";
    assert last[0] == "sddcManagerSpec" && last[1] == "vcenterSpec" && last[2] == "nsxtSpec" &&
      last[3] == "datastoreSpec" && last[4] == "clusterSpec";
    assert networks[0] == "MANAGEMENT" && networks[1] == "VMOTION" && networks[2] == "VSAN";
    assert (forall i :: 0 <= i < |b.hostSpecs| ==> HostSpecComplete(b.hostSpecs[i])) <==>
      forall h :: h in b.hostSpecs ==> HostSpecComplete(h);
  }

  /** The rules in terms of what the spec holds. */
  lemma RulesAre(s: Spec)
    ensures Rules(s) <==> ApplianceFilled(s.appliance) && s.bringup.Some? && BringupFilled(s.bringup.value)
  {
    hide ApplianceRules, BringupRules, ApplianceFilled, BringupFilled;
    ApplianceRulesAre(s.appliance);
    if s.bringup.Some? {
      BringupRulesAre(s.bringup.value);
    }
  }

  lemma {:induction false} KeysMissing(keys: seq<string>)
    ensures MissingKeys(keys, {}) == seq(|keys|, i requires 0 <= i < |keys| => MissingBringupKey(keys[i]))
    ensures MissingNetworks(keys, []) == seq(|keys|, i requires 0 <= i < |keys| => MissingNetwork(keys[i]))
  {
    if keys == [] {
    } else {
      KeysMissing(keys[..|keys| - 1]);
    }
  }

  /** A bringup without anything in it: every error there is for one, in the order reported. */
  lemma EverythingMissing()
    ensures BringupErrors(Some(Bringup({}, false, false, [], []))) ==
      [MissingBringupKey("sddcId"), MissingBringupKey("workflowType"), MissingBringupKey("dnsSpec"),
       MissingBringupKey("hostSpecs"), TooFewHosts, MissingBringupKey("sddcManagerSpec"),
       MissingBringupKey("vcenterSpec"), MissingBringupKey("nsxtSpec"), MissingBringupKey("datastoreSpec"),
       MissingBringupKey("clusterSpec"), MissingNetwork("MANAGEMENT"), MissingNetwork("VMOTION"),
       MissingNetwork("VSAN")]
  {
    hide MissingKeys, MissingNetworks;
    KeysMissing(FIRST_KEYS);
    KeysMissing(LAST_KEYS);
    KeysMissing(NETWORKS);
  }

  method Validate(s: Spec) returns (valid: bool, errors: seq<Error>, warnings: seq<Warning>)
    ensures errors == ApplianceErrors(s.appliance) + BringupErrors(s.bringup)
    ensures warnings == ApplianceWarnings(s.appliance) + BringupWarnings(s.bringup, s.appliance.hosts)
    ensures valid <==> Rules(s)
  {
    hide ApplianceErrors, ApplianceWarnings, BringupErrors, BringupWarnings, Rules;
    var report := new Report();
    report.ValidateAppliance(s.appliance);
    report.ValidateBringup(s.bringup, s.appliance.hosts);
    ValidIffRules(s);
    return report.errors == [], report.errors, report.warnings;
  }

  // ----- the deployment -----

  /** The texts a backend is launched with; None where a key held nothing. */
  datatype Deployment =
    | Launched(backend: string, target: Option<string>, username: Option<string>, password: Option<string>, port: int,
               vmName: Option<string>, ovaUrl: Option<string>)
    | KeyMissing
    | NoMatchingHost
    | NoPassword
    | BackendNotText
    | UnsupportedBackend
    | BadPort

  /** Whether the backend key is there to be lower-cased, and what it says then. */
  function DeployedBackend(f: Field): Option<string> {
    var backend := f.GotOr("pyvmomi");
    if backend.Some? then Some(Lower(backend.value)) else None
  }

  /** `deploy_installer` up to the call of the backend. */
  method DeployInstaller(a: Appliance) returns (r: Deployment)
    ensures a.target == Absent ==> r == KeyMissing
    ensures a.target != Absent ==>
      var entry := FirstHost(a.hosts, a.target.Got());
      var backend := DeployedBackend(a.backend);
      && (r == NoMatchingHost <==> entry == None)
      && (entry.Some? ==>
            && (r == NoPassword <==> entry.value.password == Absent)
            && (entry.value.password != Absent ==>
                  && (r == BackendNotText <==> backend == None)
                  && (backend.Some? ==>
                        && (r == UnsupportedBackend <==> !KnownBackend(backend.value))
                        && (KnownBackend(backend.value) ==>
                              && (r == BadPort <==> a.ovaUrl != Absent && a.port == Some(None))
                              && (r == KeyMissing <==>
                                  a.ovaUrl == Absent || (a.port != Some(None) && a.vmName == Absent))
                              && (r.Launched? ==>
                                    r == Launched(backend.value, a.target.Got(), entry.value.username.GotOr("root"),
                                                  entry.value.password.Got(), a.port.Or(Some(443)).value,
                                                  a.vmName.Got(), a.ovaUrl.Got()))))))
  {
    if a.target == Absent {
      return KeyMissing;
    }
    var target := a.target.Got();
    var entry := FindHost(a.hosts, target);
    if entry == None {
      return NoMatchingHost;
    }
    if entry.value.password == Absent {
      return NoPassword;
    }
    var username, password := entry.value.username.GotOr("root"), entry.value.password.Got();
    if a.backend == Null {
      return BackendNotText;
    }
    var backend := if a.backend == Absent then "pyvmomi" else Lower(a.backend.text);
    if backend != "pyvmomi" && backend != "ovftool" {
      return UnsupportedBackend;
    }
    if a.ovaUrl == Absent {
      return KeyMissing;
    }
    var port := a.port.Or(Some(443));
    if port == None {
      return BadPort;
    }
    if a.vmName == Absent {
      return KeyMissing;
    }
    r := Launched(backend, target, username, password, port.value, a.vmName.Got(), a.ovaUrl.Got());
  }

  /** What a valid spec still needs to be deployed: the backend key must be
      missing or hold a non-empty text, and the first host listed under the
      target must have a password key; the port, if given, must be a number. */
  ghost predicate Deployable(a: Appliance)
    requires Given(a.target)
  {
    && (a.backend == Absent || Given(a.backend))
    && (FirstHost(a.hosts, a.target.Got()).Some? ==> FirstHost(a.hosts, a.target.Got()).value.password != Absent)
    && a.port != Some(None)
  }

  /** What a backend launched for a valid spec is given: the texts of the spec, and the
      credentials of the first host that goes by the target, `root` when it has no
      user name; the port is 443 unless there is another. */
  ghost predicate LaunchedFrom(a: Appliance, r: Deployment)
    requires r.Launched?
  {
    && a.target == Text(r.target.Or("")) && a.vmName == Text(r.vmName.Or("")) && a.ovaUrl == Text(r.ovaUrl.Or(""))
    && None !in {r.target, r.vmName, r.ovaUrl}
    && (if a.backend == Absent then r.backend == "pyvmomi"
        else a.backend.Text? && Spells(a.backend.text, r.backend) && r.backend in {"pyvmomi", "ovftool"})
    && (a.port.None? ==> r.port == 443) && (a.port.Some? ==> a.port.value == Some(r.port))
    && exists h :: FirstNamed(a.hosts, r.target, h)
         && h.password == (if r.password.Some? then Text(r.password.value) else Null)
         && (match h.username
             case Absent => r.username == Some("root")
             case Null => r.username == None
             case Text(user) => r.username == Some(user))
  }

  lemma LaunchIs(a: Appliance, r: Deployment)
    requires Given(a.target) && Given(a.vmName) && Given(a.ovaUrl) && a.port != Some(None)
    requires KnownBackend(ValidatedBackend(a.backend)) && (a.backend == Absent || Given(a.backend))
    requires FirstHost(a.hosts, a.target.Got()).Some?
    requires var h := FirstHost(a.hosts, a.target.Got()).value;
      && h.password != Absent
      && r == Launched(ValidatedBackend(a.backend), a.target.Got(), h.username.GotOr("root"), h.password.Got(),
                       a.port.Or(Some(443)).value, a.vmName.Got(), a.ovaUrl.Got())
    ensures LaunchedFrom(a, r)
  {
    hide Lower, FirstHost, FirstNamed;
    FirstHostNamed(a.hosts, a.target.Got());
    LowerSpells("pyvmomi", "pyvmomi");
    if a.backend.Text? {
      LowerSpells(a.backend.text, r.backend);
    }
    var h := FirstHost(a.hosts, a.target.Got()).value;
    assert FirstNamed(a.hosts, r.target, h);
  }

  /** Validation is sound for the deployment: a valid spec never fails to find its
      host or lacks a required key, and it reaches the backend, with the
      credentials of the host that was validated, exactly when it is deployable. */
  method DeployValidated(s: Spec) returns (r: Deployment)
    requires Rules(s)
    ensures r != NoMatchingHost && r != KeyMissing
    ensures r.Launched? <==> Deployable(s.appliance)
    ensures r == UnsupportedBackend ==> s.appliance.backend == Text("")
    ensures r == BackendNotText ==> s.appliance.backend == Null
    ensures r.Launched? ==>
      var h := FirstHost(s.appliance.hosts, s.appliance.target.Got());
      && h.Some? && r.password == h.value.password.Got() && r.username == h.value.username.GotOr("root")
      && r.backend == ValidatedBackend(s.appliance.backend)
    ensures r.Launched? ==> LaunchedFrom(s.appliance, r)
  {
    FirstHostExists(s.appliance.hosts, s.appliance.target.Got());
    assert Lower("pyvmomi") == "pyvmomi" && Lower("") == "";
    r := DeployInstaller(s.appliance);
    if r.Launched? {
      LaunchIs(s.appliance, r);
    }
  }

  /** A complete spec with the backend and the password key given. */
  function SampleSpec(backend: Field, password: Field): Spec {
    var host := HostSpec(Text("esx1"), Text("root"), Text("secret"));
    var keys := {"sddcId", "workflowType", "dnsSpec", "hostSpecs", "sddcManagerSpec", "vcenterSpec", "nsxtSpec",
                 "datastoreSpec", "clusterSpec"};
    Spec(Appliance(Text("vcf.lab"), Text("vcf.ova"), Text("vcf"), Text("esx1.lab"),
                   [HostEntry(Text("esx1.lab"), Absent, Text("root"), password)], backend, Absent, Absent, None),
         Some(Bringup(keys, true, true, [host, host, host], NETWORKS)))
  }

  lemma SampleIsValid(backend: Field, password: Field)
    requires backend in {Absent, Null, Text("")}
    ensures Rules(SampleSpec(backend, password))
    ensures FirstHost(SampleSpec(backend, password).appliance.hosts, Some("esx1.lab")).Some?
    ensures FirstHost(SampleSpec(backend, password).appliance.hosts, Some("esx1.lab")).value.password == password
  {
    var a := SampleSpec(backend, password).appliance;
    assert a.hosts[0] in a.hosts && Matches(a.hosts[0], Some("esx1.lab"));
    assert Lower("pyvmomi") == "pyvmomi";
  }

  /** Valid specs that cannot be deployed: an empty backend text, a null one, and
      a host without a password key. */
  lemma ValidButNotDeployable()
    ensures var s := SampleSpec(Text(""), Text("secret")); Rules(s) && !Deployable(s.appliance)
    ensures var s := SampleSpec(Null, Text("secret")); Rules(s) && !Deployable(s.appliance)
    ensures var s := SampleSpec(Absent, Absent); Rules(s) && !Deployable(s.appliance)
  {
    SampleIsValid(Text(""), Text("secret"));
    SampleIsValid(Null, Text("secret"));
    SampleIsValid(Absent, Absent);
  }
}
