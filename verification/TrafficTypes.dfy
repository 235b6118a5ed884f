/** `_select_traffic_types`: replacing the traffic types of a VMkernel adapter by
    deselect and select calls against the host's virtual NIC manager. */
module TrafficTypes {
  datatype Selection = Selection(nicType: string, device: string)

  /** One entry of the manager's configuration as it was when it was read. */
  datatype NetConfig = NetConfig(nicType: string, selectedVnic: seq<string>)

  datatype Outcome = Replaced | Rejected(index: nat) | Interrupted(entry: nat) | NoManager

  /** How a deselect ends: done, with a fault the client ignores, or with any other
      exception, which ends its call. */
  datatype Reply = Done | Faulted | Broke

  /** The manager: deselecting faults when the pair is not selected, and may fault
      for the types in `stuck` or break for those in `broken`; selecting raises for
      types that are not supported. */
  class NicManager {
    var selected: set<Selection>
    const stuck: set<string>
    const broken: set<string>
    const supported: set<string>

    constructor (selected: set<Selection>, stuck: set<string>, broken: set<string>, supported: set<string>)
      ensures this.selected == selected && this.stuck == stuck && this.broken == broken && this.supported == supported
    {
      this.selected, this.stuck, this.broken, this.supported := selected, stuck, broken, supported;
    }

    method Deselect(nicType: string, device: string) returns (r: Reply)
      modifies this
      ensures r == Broke <==> nicType in broken
      ensures r == Done <==> nicType !in broken && Selection(nicType, device) in old(selected) && nicType !in stuck
      ensures selected == old(selected) - if r == Done then {Selection(nicType, device)} else {}
    {
      if nicType in broken {
        return Broke;
      }
      if Selection(nicType, device) !in selected || nicType in stuck {
        return Faulted;
      }
      selected := selected - {Selection(nicType, device)};
      r := Done;
    }

    method Select(nicType: string, device: string) returns (ok: bool)
      modifies this
      ensures ok == (nicType in supported)
      ensures selected == old(selected) + if ok then {Selection(nicType, device)} else {}
    {
      ok := nicType in supported;
      if ok {
        selected := selected + {Selection(nicType, device)};
      }
    }
  }

  /** The configuration shows some adapter with this type. */
  ghost predicate Shown(netConfig: seq<NetConfig>, nicType: string) {
    exists i :: 0 <= i < |netConfig| && netConfig[i].nicType == nicType && netConfig[i].selectedVnic != []
  }

  /** Deselecting does not help: the host refuses it, or the type is not in the configuration. */
  ghost predicate Stays(netConfig: seq<NetConfig>, stuck: set<string>, nicType: string) {
    nicType in stuck || !Shown(netConfig, nicType)
  }

  function TypesOn(selected: set<Selection>, device: string): set<string> {
    set s | s in selected && s.device == device :: s.nicType
  }

  /** What is left selected after deselecting on a device whatever can be, and
      selecting `types` on it. */
  ghost function Replacement(selected: set<Selection>, stuck: set<string>, netConfig: seq<NetConfig>, device: string,
                             types: seq<string>): set<Selection> {
    (set s | s in selected && (s.device != device || Stays(netConfig, stuck, s.nicType)))
    + (set t | t in types :: Selection(t, device))
  }

  /** The requested types up to the first one the host rejects. */
  function Accepted(supported: set<string>, types: seq<string>): (r: seq<string>)
    ensures r <= types && (r == types <==> forall t :: t in types ==> t in supported)
    ensures r != types ==> types[|r|] !in supported
    ensures forall t :: t in r ==> t in supported
  {
    if types == [] || types[0] !in supported then []
    else
      assert types == [types[0]] + types[1..];
      [types[0]] + Accepted(supported, types[1..])
  }

  /** The first entry of the configuration whose deselect breaks; its length if none does. */
  function FirstBroken(netConfig: seq<NetConfig>, broken: set<string>): (k: nat)
    ensures k <= |netConfig|
    ensures k < |netConfig| ==> netConfig[k].nicType in broken && netConfig[k].selectedVnic != []
    ensures forall i :: 0 <= i < k ==> netConfig[i].nicType !in broken || netConfig[i].selectedVnic == []
  {
    if netConfig == [] || (netConfig[0].nicType in broken && netConfig[0].selectedVnic != []) then 0
    else 1 + FirstBroken(netConfig[1..], broken)
  }

  lemma ShownOneMore(netConfig: seq<NetConfig>, current: NetConfig)
    ensures forall t :: Shown(netConfig + [current], t) <==>
      Shown(netConfig, t) || (current.nicType == t && current.selectedVnic != [])
  {
    forall t
      ensures Shown(netConfig + [current], t) <==>
        Shown(netConfig, t) || (current.nicType == t && current.selectedVnic != [])
    {
      var more := netConfig + [current];
      assert more[|netConfig|] == current;
      if Shown(netConfig, t) {
        var i :| 0 <= i < |netConfig| && netConfig[i].nicType == t && netConfig[i].selectedVnic != [];
        assert more[i] == netConfig[i];
      }
    }
  }

  /** The nested deselect loops, up to the entry that breaks if there is one. */
  method DeselectAll(manager: NicManager, netConfig: seq<NetConfig>, device: string) returns (k: nat)
    modifies manager
    ensures k == FirstBroken(netConfig, manager.broken)
    ensures manager.selected == Replacement(old(manager.selected), manager.stuck, netConfig[..k], device, [])
  {
    ghost var was := manager.selected;
    ghost var stop := FirstBroken(netConfig, manager.broken);
    for i := 0 to |netConfig|
      invariant i <= stop
      invariant manager.selected == Replacement(was, manager.stuck, netConfig[..i], device, [])
    {
      var current := netConfig[i];
      ShownOneMore(netConfig[..i], current);
      assert netConfig[..i + 1] == netConfig[..i] + [current];
      for v := 0 to |current.selectedVnic|
        invariant v > 0 ==> current.nicType !in manager.broken
        invariant manager.selected ==
          Replacement(was, manager.stuck, netConfig[..if v == 0 then i else i + 1], device, [])
      {
        var reply := manager.Deselect(current.nicType, device);
        if reply == Broke {
          assert i == stop && v == 0;
          return i;
        }
      }
    }
    k := |netConfig|;
  }

  lemma {:induction false} AcceptedUpTo(supported: set<string>, types: seq<string>, i: nat)
    requires i < |types| && types[i] !in supported && forall j :: 0 <= j < i ==> types[j] in supported
    ensures Accepted(supported, types) == types[..i]
  {
    if i == 0 {
    } else {
      AcceptedUpTo(supported, types[1..], i - 1);
      assert types[..i] == [types[0]] + types[1..][..i - 1];
    }
  }

  /** The nested deselect loops and the select loop. Faults of a deselect are
      ignored, any other exception ends the call with the later entries untouched;
      a type that cannot be selected ends it with the earlier ones selected and the
      old ones gone. */
  method SelectTrafficTypes(manager: NicManager?, netConfig: seq<NetConfig>, device: string, nicTypes: seq<string>)
    returns (r: Outcome)
    modifies manager
    ensures r == NoManager <==> manager == null
    ensures manager != null ==>
      var k, accepted := FirstBroken(netConfig, manager.broken), Accepted(manager.supported, nicTypes);
      if k < |netConfig| then
        && r == Interrupted(k)
        && manager.selected == Replacement(old(manager.selected), manager.stuck, netConfig[..k], device, [])
      else
        && r == (if accepted == nicTypes then Replaced else Rejected(|accepted|))
        && manager.selected == Replacement(old(manager.selected), manager.stuck, netConfig, device, accepted)
  {
    if manager == null {
      return NoManager;
    }
    ghost var was := manager.selected;
    var k := DeselectAll(manager, netConfig, device);
    if k < |netConfig| {
      return Interrupted(k);
    }
    assert netConfig[..|netConfig|] == netConfig;
    for i := 0 to |nicTypes|
      invariant manager.selected == Replacement(was, manager.stuck, netConfig, device, nicTypes[..i])
      invariant forall j :: 0 <= j < i ==> nicTypes[j] in manager.supported
    {
      var ok := manager.Select(nicTypes[i], device);
      if !ok {
        AcceptedUpTo(manager.supported, nicTypes, i);
        return Rejected(i);
      }
      assert nicTypes[..i + 1] == nicTypes[..i] + [nicTypes[i]];
    }
    assert nicTypes[..|nicTypes|] == nicTypes;
    r := Replaced;
  }

  /** What the device carries after the call, and every other device. */
  lemma TypesAfter(selected: set<Selection>, stuck: set<string>, netConfig: seq<NetConfig>, device: string,
                   types: seq<string>)
    ensures var after := Replacement(selected, stuck, netConfig, device, types);
      && (forall t :: t in TypesOn(after, device) <==>
            t in types || (t in TypesOn(selected, device) && Stays(netConfig, stuck, t)))
      && (forall d :: d != device ==> TypesOn(after, d) == TypesOn(selected, d))
  {
    var after := Replacement(selected, stuck, netConfig, device, types);
    forall t
      ensures t in TypesOn(after, device) <==>
        t in types || (t in TypesOn(selected, device) && Stays(netConfig, stuck, t))
    {
      if t in types || (t in TypesOn(selected, device) && Stays(netConfig, stuck, t)) {
        assert Selection(t, device) in after;
      }
    }
    forall d | d != device
      ensures TypesOn(after, d) == TypesOn(selected, d)
    {
      forall t
        ensures t in TypesOn(after, d) <==> t in TypesOn(selected, d)
      {
        assert t in TypesOn(selected, d) ==> Selection(t, d) in after;
      }
    }
  }

  /** Replace semantics, rejected types included: the device ends up with exactly
      the requested types if and only if every type it had that stays is
      requested, and every requested type comes before the first unsupported one
      or is one that stays; every other device keeps its types. */
  lemma ReplacesExactly(selected: set<Selection>, stuck: set<string>, supported: set<string>, netConfig: seq<NetConfig>,
                        device: string, types: seq<string>)
    ensures var accepted := Accepted(supported, types);
      var after := Replacement(selected, stuck, netConfig, device, accepted);
      && (TypesOn(after, device) == (set t | t in types) <==>
            && (forall t :: t in TypesOn(selected, device) && Stays(netConfig, stuck, t) ==> t in types)
            && (forall t :: t in types ==>
                  t in accepted || (t in TypesOn(selected, device) && Stays(netConfig, stuck, t))))
      && (forall d :: d != device ==> TypesOn(after, d) == TypesOn(selected, d))
  {
    var accepted := Accepted(supported, types);
    TypesAfter(selected, stuck, netConfig, device, accepted);
    assert forall t :: t in accepted ==> t in types;
  }

  /** A call whose deselect breaks at entry `k` has given up the types shown before
      it and keeps the others. */
  lemma InterruptedKeepsRest(selected: set<Selection>, stuck: set<string>, netConfig: seq<NetConfig>, k: nat,
                             device: string, t: string)
    requires k <= |netConfig|
    ensures t in TypesOn(Replacement(selected, stuck, netConfig[..k], device, []), device)
      <==> t in TypesOn(selected, device) && Stays(netConfig[..k], stuck, t)
  {
    TypesAfter(selected, stuck, netConfig[..k], device, []);
  }

  /** A call that ends at a rejected type has already given up the old types: what
      the device still has of them is only what stays or was selected anew. */
  lemma RejectedLosesOldTypes(selected: set<Selection>, stuck: set<string>, supported: set<string>,
                              netConfig: seq<NetConfig>, device: string, types: seq<string>, t: string)
    requires Accepted(supported, types) != types
    requires t in TypesOn(selected, device)
    ensures t in TypesOn(Replacement(selected, stuck, netConfig, device, Accepted(supported, types)), device)
      <==> Stays(netConfig, stuck, t) || t in Accepted(supported, types)
  {
    TypesAfter(selected, stuck, netConfig, device, Accepted(supported, types));
  }

  /** On a host whose deselect faults only on a pair that is not selected, and
      whose configuration shows what is selected, the device ends up with exactly
      the requested types if and only if the host supports them all. */
  lemma FaithfulHostReplaces(selected: set<Selection>, supported: set<string>, netConfig: seq<NetConfig>,
                             device: string, types: seq<string>)
    requires forall s :: s in selected ==> Shown(netConfig, s.nicType)
    ensures TypesOn(Replacement(selected, {}, netConfig, device, Accepted(supported, types)), device) ==
      (set t | t in types)
      <==> forall t :: t in types ==> t in supported
  {
    ReplacesExactly(selected, {}, supported, netConfig, device, types);
    assert forall t :: t in TypesOn(selected, device) ==> !Stays(netConfig, {}, t);
    var accepted := Accepted(supported, types);
    if accepted != types {
      assert types[|accepted|] in types && types[|accepted|] !in accepted;
    }
  }

  /** A type whose deselect faults stays although it is not requested; and an
      unsupported request leaves the device with nothing. */
  lemma ReplacementsThatFail() returns (selected: set<Selection>, netConfig: seq<NetConfig>)
    ensures TypesOn(Replacement(selected, {"vsan"}, netConfig, "vmk1", Accepted({"vmotion"}, ["vmotion"])), "vmk1")
      == {"vsan", "vmotion"}
    ensures TypesOn(selected, "vmk1") == {"vsan"}
    ensures TypesOn(Replacement(selected, {}, netConfig, "vmk1", Accepted({"vsan"}, ["bogus"])), "vmk1") == {}
  {
    selected, netConfig := {Selection("vsan", "vmk1")}, [NetConfig("vsan", ["vmk1"])];
    assert Shown(netConfig, "vsan") by {
      assert netConfig[0].nicType == "vsan";
    }
    assert Selection("vsan", "vmk1") in selected;
    AcceptedUpTo({"vsan"}, ["bogus"], 0);
    TypesAfter(selected, {"vsan"}, netConfig, "vmk1", Accepted({"vmotion"}, ["vmotion"]));
    TypesAfter(selected, {}, netConfig, "vmk1", []);
  }
}
