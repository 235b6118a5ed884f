/** Disk add and remove of the VM disk client: the choice of unit numbers. */
module VmDisks {
  import opened Basics

  datatype Device =
    | Disk(key: int, controllerKey: int, unitNumber: Option<int>)
    | ScsiController(key: int)
    | OtherDevice(key: int)

  const RESERVED := 7

  /** The unit numbers of the disks on a controller, in device order. Other
      devices on the controller are not looked at. */
  function Units(devices: seq<Device>, controller: int): seq<Option<int>> {
    if devices == [] then []
    else
      var d := devices[|devices| - 1];
      Units(devices[..|devices| - 1], controller)
      + if d.Disk? && d.controllerKey == controller then [d.unitNumber] else []
  }

  predicate Usable(u: int) {
    0 <= u < 16 && u != RESERVED
  }

  /** `u` is the least usable unit number not taken. */
  ghost predicate LeastFree(taken: seq<Option<int>>, u: int) {
    Usable(u) && Some(u) !in taken && forall w :: Usable(w) && w < u ==> Some(w) in taken
  }

  ghost predicate AllTaken(taken: seq<Option<int>>) {
    forall w :: Usable(w) ==> Some(w) in taken
  }

  lemma NoneFree(taken: seq<Option<int>>)
    requires forall u :: !LeastFree(taken, u)
    ensures AllTaken(taken)
  {
    var n := 0;
    while n < 16
      invariant 0 <= n <= 16
      invariant forall w :: Usable(w) && w < n ==> Some(w) in taken
    {
      assert !LeastFree(taken, n);
      n := n + 1;
    }
  }

  ghost function NextUnit(taken: seq<Option<int>>): (r: Option<int>)
    ensures r.Some? ==> LeastFree(taken, r.value)
    ensures r.None? <==> AllTaken(taken)
  {
    if u :| LeastFree(taken, u) then Some(u)
    else
      NoneFree(taken);
      None
  }

  datatype Outcome = Added(unitNumber: int) | Removed | NoScsiController | NoFreeUnit | NoSuchDisk

  function FirstScsi(devices: seq<Device>): Option<int> {
    if devices == [] then None
    else if devices[0].ScsiController? then Some(devices[0].key)
    else FirstScsi(devices[1..])
  }

  /** Position of the first disk with a key. */
  function DiskAt(devices: seq<Device>, key: int): Option<nat> {
    if devices == [] then None
    else if devices[0].Disk? && devices[0].key == key then Some(0)
    else
      match DiskAt(devices[1..], key)
      case None => None
      case Some(i) => Some(i + 1)
  }

  lemma {:induction false} DiskAtFinds(devices: seq<Device>, key: int)
    ensures match DiskAt(devices, key)
      case None => forall i :: 0 <= i < |devices| ==> !(devices[i].Disk? && devices[i].key == key)
      case Some(i) =>
        && i < |devices| && devices[i].Disk? && devices[i].key == key
        && forall j :: 0 <= j < i ==> !(devices[j].Disk? && devices[j].key == key)
  {
    if devices == [] {
    } else {
      DiskAtFinds(devices[1..], key);
    }
  }

  /** The controller a disk is added to, if the machine has one. */
  function Target(devices: seq<Device>, controllerKey: Option<int>): Option<int> {
    if controllerKey.Or(0) != 0 then controllerKey else FirstScsi(devices)
  }

  ghost function AddTo(devices: seq<Device>, nextKey: int, controllerKey: Option<int>, unitNumber: Option<int>)
    : (Outcome, seq<Device>, int)
  {
    var controller := Target(devices, controllerKey);
    if controller == None then (NoScsiController, devices, nextKey)
    else
      var unit := if unitNumber.Some? then unitNumber else NextUnit(Units(devices, controller.value));
      if unit == None then (NoFreeUnit, devices, nextKey)
      else (Added(unit.value), devices + [Disk(nextKey, controller.value, unit)], nextKey + 1)
  }

  ghost function RemoveFrom(devices: seq<Device>, key: int): (Outcome, seq<Device>) {
    DiskAtFinds(devices, key);
    match DiskAt(devices, key)
    case None => (NoSuchDisk, devices)
    case Some(i) => (Removed, devices[..i] + devices[i + 1..])
  }

  // ----- what the two operations do, in terms of the device list -----

  /** Some disk on the controller carries the unit number. */
  ghost predicate Carried(devices: seq<Device>, controller: int, unit: Option<int>) {
    exists i :: 0 <= i < |devices| && devices[i] == Disk(devices[i].key, controller, unit)
  }

  lemma {:induction false} UnitsAreCarried(devices: seq<Device>, controller: int, unit: Option<int>)
    ensures unit in Units(devices, controller) <==> Carried(devices, controller, unit)
  {
    if devices == [] {
    } else {
      var front, last := devices[..|devices| - 1], devices[|devices| - 1];
      UnitsAreCarried(front, controller, unit);
      if Carried(front, controller, unit) {
        var i :| 0 <= i < |front| && front[i] == Disk(front[i].key, controller, unit);
        assert devices[i] == front[i];
      }
      if Carried(devices, controller, unit) && last != Disk(last.key, controller, unit) {
        var i :| 0 <= i < |devices| && devices[i] == Disk(devices[i].key, controller, unit);
        assert front[i] == devices[i];
      }
    }
  }

  /** The controller is the one asked for, unless none or zero is: then it is the
      first SCSI controller of the machine. */
  ghost predicate Chosen(devices: seq<Device>, controllerKey: Option<int>, controller: int) {
    if controllerKey !in {None, Some(0)} then controllerKey == Some(controller)
    else exists i :: 0 <= i < |devices| && devices[i] == ScsiController(controller)
                     && forall j :: 0 <= j < i ==> !devices[j].ScsiController?
  }

  lemma {:induction false} FirstScsiIs(devices: seq<Device>)
    ensures FirstScsi(devices) == None <==> forall d :: d in devices ==> !d.ScsiController?
    ensures FirstScsi(devices).Some? ==> Chosen(devices, None, FirstScsi(devices).value)
  {
    if devices == [] {
    } else if devices[0].ScsiController? {
      assert devices[0] == ScsiController(FirstScsi(devices).value);
    } else {
      FirstScsiIs(devices[1..]);
      assert devices == [devices[0]] + devices[1..];
      if FirstScsi(devices).Some? {
        var i :| 0 <= i < |devices| - 1 && devices[1..][i] == ScsiController(FirstScsi(devices).value)
          && forall j :: 0 <= j < i ==> !devices[1..][j].ScsiController?;
        assert devices[i + 1] == devices[1..][i];
        assert forall j :: 0 < j < i + 1 ==> devices[j] == devices[1..][j - 1];
      }
    }
  }

  /** An add that succeeds appends one disk with the next key to the devices, on the
      chosen controller and with the unit number given, or else with the least
      usable one that no disk there carries. It fails without a controller, or
      when no number is given and every usable one is carried; then nothing changes. */
  ghost predicate Adds(devices: seq<Device>, nextKey: int, controllerKey: Option<int>, unitNumber: Option<int>,
                       o: Outcome, devices': seq<Device>, nextKey': int) {
    match o
    case Added(u) =>
      exists c :: Chosen(devices, controllerKey, c)
        && devices' == devices + [Disk(nextKey, c, Some(u))] && nextKey' == nextKey + 1
        && (unitNumber == Some(u)
            || (unitNumber == None && 0 <= u < 16 && u != 7 && !Carried(devices, c, Some(u))
                && forall w :: 0 <= w < u && w != 7 ==> Carried(devices, c, Some(w))))
    case NoFreeUnit =>
      && devices' == devices && nextKey' == nextKey && unitNumber == None
      && exists c :: Chosen(devices, controllerKey, c)
           && forall w :: 0 <= w < 16 && w != 7 ==> Carried(devices, c, Some(w))
    case NoScsiController =>
      && devices' == devices && nextKey' == nextKey && controllerKey in {None, Some(0)}
      && forall d :: d in devices ==> !d.ScsiController?
    case _ => false
  }

  lemma AddToAdds(devices: seq<Device>, nextKey: int, controllerKey: Option<int>, unitNumber: Option<int>)
    ensures var (o, devices', nextKey') := AddTo(devices, nextKey, controllerKey, unitNumber);
      Adds(devices, nextKey, controllerKey, unitNumber, o, devices', nextKey')
  {
    hide Carried;
    FirstScsiIs(devices);
    var controller := Target(devices, controllerKey);
    if controller.Some? {
      assert Chosen(devices, controllerKey, controller.value);
      forall u
        ensures u in Units(devices, controller.value) <==> Carried(devices, controller.value, u)
      {
        UnitsAreCarried(devices, controller.value, u);
      }
    }
  }

  /** A remove takes out the first disk with the key; without one nothing changes. */
  ghost predicate Removes(devices: seq<Device>, key: int, o: Outcome, devices': seq<Device>) {
    match o
    case Removed =>
      exists a, d, b :: devices == a + [d] + b && d.Disk? && d.key == key
        && (forall x :: x in a && x.Disk? ==> x.key != key) && devices' == a + b
    case NoSuchDisk => devices' == devices && forall x :: x in devices && x.Disk? ==> x.key != key
    case _ => false
  }

  lemma RemoveFromRemoves(devices: seq<Device>, key: int)
    ensures var (o, devices') := RemoveFrom(devices, key);
      Removes(devices, key, o, devices')
  {
    DiskAtFinds(devices, key);
    if DiskAt(devices, key).Some? {
      var i := DiskAt(devices, key).value;
      assert devices == devices[..i] + [devices[i]] + devices[i + 1..];
    }
  }

  class VirtualMachine {
    var devices: seq<Device>
    var nextKey: int

    constructor (devices: seq<Device>, nextKey: int)
      ensures this.devices == devices && this.nextKey == nextKey
    {
      this.devices, this.nextKey := devices, nextKey;
    }

    method NextUnitNumber(controller: int) returns (r: Option<int>)
      ensures r == NextUnit(Units(devices, controller))
    {
      var used := {};
      for i := 0 to |devices|
        invariant forall u :: u in used <==> u in Units(devices[..i], controller)
      {
        assert devices[..i + 1][..i] == devices[..i];
        if devices[i].Disk? && devices[i].controllerKey == controller {
          used := used + {devices[i].unitNumber};
        }
      }
      assert devices[..|devices|] == devices;
      ghost var taken := Units(devices, controller);
      for candidate := 0 to 16
        invariant forall w :: Usable(w) && w < candidate ==> Some(w) in taken
      {
        if candidate != RESERVED && Some(candidate) !in used {
          assert LeastFree(taken, candidate);
          if NextUnit(taken).Some? {
          }
          return Some(candidate);
        }
      }
      assert AllTaken(taken);
      r := None;
    }

    /** A disk added without a unit number takes the least free one on its
        controller; the server gives it a new key. */
    method Add(controllerKey: Option<int>, unitNumber: Option<int>) returns (o: Outcome)
      modifies this
      ensures (o, devices, nextKey) == AddTo(old(devices), old(nextKey), controllerKey, unitNumber)
      ensures Adds(old(devices), old(nextKey), controllerKey, unitNumber, o, devices, nextKey)
    {
      AddToAdds(devices, nextKey, controllerKey, unitNumber);
      var controller: int;
      if controllerKey.Or(0) != 0 {
        controller := controllerKey.value;
      } else {
        var scsi := FirstScsi(devices);
        if scsi == None {
          return NoScsiController;
        }
        controller := scsi.value;
      }
      var unit := unitNumber;
      if unit == None {
        unit := NextUnitNumber(controller);
        if unit == None {
          return NoFreeUnit;
        }
      }
      devices := devices + [Disk(nextKey, controller, unit)];
      nextKey := nextKey + 1;
      o := Added(unit.value);
    }

    method Remove(diskKey: int) returns (o: Outcome)
      modifies this
      ensures nextKey == old(nextKey) && (o, devices) == RemoveFrom(old(devices), diskKey)
      ensures o == Removed <==> exists d :: d in old(devices) && d.Disk? && d.key == diskKey
      ensures o == Removed ==>
        exists a, d, b :: old(devices) == a + [d] + b && d.Disk? && d.key == diskKey
          && (forall x :: x in a && x.Disk? ==> x.key != diskKey) && devices == a + b
      ensures o != Removed ==> o == NoSuchDisk && devices == old(devices)
    {
      RemoveFromRemoves(devices, diskKey);
      DiskAtFinds(devices, diskKey);
      var i := DiskAt(devices, diskKey);
      if i == None {
        return NoSuchDisk;
      }
      devices := devices[..i.value] + devices[i.value + 1..];
      o := Removed;
    }
  }

  // ----- runs -----

  datatype Action = AddDisk(controllerKey: Option<int>, unitNumber: Option<int>) | RemoveDisk(key: int)

  /** The devices and the next key after a run of adds and removes. */
  ghost function After(devices: seq<Device>, nextKey: int, run: seq<Action>): (seq<Device>, int) {
    if run == [] then (devices, nextKey)
    else
      var (before, key) := After(devices, nextKey, run[..|run| - 1]);
      match run[|run| - 1]
      case AddDisk(c, u) => var (_, ds, k) := AddTo(before, key, c, u); (ds, k)
      case RemoveDisk(d) => (RemoveFrom(before, d).1, key)
  }

  ghost predicate ValidOn(taken: seq<Option<int>>) {
    Distinct(taken) && forall i :: 0 <= i < |taken| ==> taken[i].Some? && Usable(taken[i].value)
  }

  /** On each controller the disks have usable unit numbers, no two the same. */
  ghost predicate UnitsValid(devices: seq<Device>) {
    forall c :: ValidOn(Units(devices, c))
  }

  lemma {:induction false} UnitsJoin(a: seq<Device>, b: seq<Device>, c: int)
    ensures Units(a + b, c) == Units(a, c) + Units(b, c)
  {
    if b == [] {
      assert a + b == a;
    } else {
      assert (a + b)[..|a + b| - 1] == a + b[..|b| - 1];
      UnitsJoin(a, b[..|b| - 1], c);
    }
  }

  /** A unit number the caller gives is usable and free on its controller. */
  ghost predicate AddFits(devices: seq<Device>, controllerKey: Option<int>, unitNumber: Option<int>) {
    var controller := Target(devices, controllerKey);
    unitNumber.Some? && controller.Some? ==>
      Usable(unitNumber.value) && unitNumber !in Units(devices, controller.value)
  }

  lemma ValidWithOneMore(taken: seq<Option<int>>, u: Option<int>)
    requires ValidOn(taken)
    ensures ValidOn(taken + [u]) <==> u.Some? && Usable(u.value) && u !in taken
  {
    var more := taken + [u];
    assert more[|taken|] == u;
    if u in taken {
      var i :| 0 <= i < |taken| && taken[i] == u;
      assert more[i] == more[|taken|];
    }
  }

  lemma AutomaticFits(devices: seq<Device>, controller: int)
    ensures var r := NextUnit(Units(devices, controller));
            r.Some? ==> Usable(r.value) && r !in Units(devices, controller)
  {
  }

  /** An add keeps the unit numbers in order exactly when the number given, if any, fits. */
  lemma AddKeepsValidIff(devices: seq<Device>, nextKey: int, controllerKey: Option<int>, unitNumber: Option<int>)
    requires UnitsValid(devices)
    ensures UnitsValid(AddTo(devices, nextKey, controllerKey, unitNumber).1) <==>
      AddFits(devices, controllerKey, unitNumber)
  {
    hide ValidOn, LeastFree;
    var (o, ds, _) := AddTo(devices, nextKey, controllerKey, unitNumber);
    if o.Added? {
      var controller, unit := Target(devices, controllerKey).value, Some(o.unitNumber);
      AutomaticFits(devices, controller);
      forall c
        ensures Units(ds, c) == Units(devices, c) + if c == controller then [unit] else []
      {
        UnitsJoin(devices, [ds[|devices|]], c);
      }
      assert ValidOn(Units(devices, controller));
      ValidWithOneMore(Units(devices, controller), unit);
      forall c | c != controller
        ensures ValidOn(Units(ds, c))
      {
        assert ValidOn(Units(devices, c)) && Units(devices, c) + [] == Units(devices, c);
      }
    }
  }

  lemma DropMiddle(a: seq<Option<int>>, b: seq<Option<int>>, c: seq<Option<int>>)
    requires ValidOn(a + b + c)
    ensures ValidOn(a + c)
  {
    var all, rest := a + b + c, a + c;
    forall i | 0 <= i < |rest|
      ensures rest[i] == all[if i < |a| then i else i + |b|]
    {
    }
  }

  /** Each disk has a usable unit number, and no two disks of one controller have the same. */
  ghost predicate DisksApart(devices: seq<Device>) {
    && (forall d :: d in devices && d.Disk? ==> d.unitNumber.Some? && Usable(d.unitNumber.value))
    && forall i, j :: 0 <= i < j < |devices| && devices[i].Disk? && devices[j].Disk? ==>
         devices[i].controllerKey != devices[j].controllerKey || devices[i].unitNumber != devices[j].unitNumber
  }

  lemma ApartWithOneMore(devices: seq<Device>, d: Device)
    ensures DisksApart(devices + [d]) <==>
      DisksApart(devices) && (d.Disk? ==> d.unitNumber.Some? && Usable(d.unitNumber.value)
                                          && !Carried(devices, d.controllerKey, d.unitNumber))
  {
    var more := devices + [d];
    if DisksApart(more) {
      assert more[|devices|] == d;
      forall x | x in devices
        ensures x in more
      {
      }
      assert forall i, j :: 0 <= i < j < |devices| ==> more[i] == devices[i] && more[j] == devices[j];
    }
  }

  lemma ValidWithOneDevice(devices: seq<Device>, d: Device)
    ensures UnitsValid(devices + [d]) <==>
      UnitsValid(devices) && (d.Disk? ==> d.unitNumber.Some? && Usable(d.unitNumber.value)
                                          && !Carried(devices, d.controllerKey, d.unitNumber))
  {
    hide ValidOn, Carried;
    var more := devices + [d];
    forall c
      ensures Units(more, c) == Units(devices, c) + if d.Disk? && d.controllerKey == c then [d.unitNumber] else []
    {
      assert more[..|devices|] == devices;
    }
    if UnitsValid(more) {
      forall c
        ensures ValidOn(Units(devices, c))
      {
        var here, last := Units(devices, c), if d.Disk? && d.controllerKey == c then [d.unitNumber] else [];
        assert ValidOn(Units(more, c)) && here + last + [] == here + last && here + [] == here;
        DropMiddle(here, last, []);
      }
    }
    if UnitsValid(devices) {
      if d.Disk? {
        assert ValidOn(Units(devices, d.controllerKey));
        ValidWithOneMore(Units(devices, d.controllerKey), d.unitNumber);
        UnitsAreCarried(devices, d.controllerKey, d.unitNumber);
      }
      forall c | !d.Disk? || c != d.controllerKey
        ensures ValidOn(Units(more, c))
      {
        assert ValidOn(Units(devices, c)) && Units(devices, c) + [] == Units(devices, c);
      }
    }
  }

  lemma NoDisksApart()
    ensures UnitsValid([]) && DisksApart([])
  {
  }

  /** What `UnitsValid` says, in terms of the device list. */
  lemma {:induction false} UnitsValidIs(devices: seq<Device>)
    ensures UnitsValid(devices) <==> DisksApart(devices)
  {
    hide UnitsValid, DisksApart, Carried;
    if devices == [] {
      NoDisksApart();
    } else {
      var front, last := devices[..|devices| - 1], devices[|devices| - 1];
      UnitsValidIs(front);
      ValidWithOneDevice(front, last);
      ApartWithOneMore(front, last);
      assert devices == front + [last];
    }
  }

  lemma DropKeepsValid(devices: seq<Device>, i: nat, c: int)
    requires i < |devices| && ValidOn(Units(devices, c))
    ensures ValidOn(Units(devices[..i] + devices[i + 1..], c))
  {
    hide Units, ValidOn;
    UnitsJoin(devices[..i], devices[i + 1..], c);
    UnitsJoin(devices[..i], [devices[i]], c);
    UnitsJoin(devices[..i] + [devices[i]], devices[i + 1..], c);
    assert devices == devices[..i] + [devices[i]] + devices[i + 1..];
    DropMiddle(Units(devices[..i], c), Units([devices[i]], c), Units(devices[i + 1..], c));
  }

  lemma RemoveKeepsValid(devices: seq<Device>, key: int)
    requires UnitsValid(devices)
    ensures UnitsValid(RemoveFrom(devices, key).1)
  {
    DiskAtFinds(devices, key);
    if DiskAt(devices, key).Some? {
      var i := DiskAt(devices, key).value;
      var rest := devices[..i] + devices[i + 1..];
      forall c
        ensures ValidOn(Units(rest, c))
      {
        assert ValidOn(Units(devices, c));
        DropKeepsValid(devices, i, c);
      }
    }
  }

  /** Every unit number given along the run fits when its turn comes. */
  ghost predicate RunFits(devices: seq<Device>, nextKey: int, run: seq<Action>) {
    run == [] ||
    var front, last := run[..|run| - 1], run[|run| - 1];
    && RunFits(devices, nextKey, front)
    && (last.AddDisk? ==> AddFits(After(devices, nextKey, front).0, last.controllerKey, last.unitNumber))
  }

  /** At every moment of a run, on every controller, the unit numbers are usable
      (0 to 15, never 7) and distinct, if and only if the numbers given by hand fit. */
  lemma {:induction false} RunKeepsValidIff(devices: seq<Device>, nextKey: int, run: seq<Action>)
    requires UnitsValid(devices)
    ensures RunFits(devices, nextKey, run) <==>
            forall k :: 0 <= k <= |run| ==> UnitsValid(After(devices, nextKey, run[..k]).0)
  {
    hide UnitsValid, AddFits, AddTo, RemoveFrom;
    if run == [] {
      assert run[..0] == run;
    } else {
      var front, last := run[..|run| - 1], run[|run| - 1];
      assert forall k :: 0 <= k <= |front| ==> front[..k] == run[..k];
      assert run[..|run|] == run && run[..|front|] == front && front[..|front|] == front;
      RunKeepsValidIff(devices, nextKey, front);
      var (before, key) := After(devices, nextKey, front);
      if UnitsValid(before) {
        match last
        case AddDisk(c, u) => AddKeepsValidIff(before, key, c, u);
        case RemoveDisk(d) => RemoveKeepsValid(before, d);
      }
    }
  }

  /** A number given by hand that another disk has: both disks then have it. */
  lemma HandGivenDuplicate() returns (devices: seq<Device>, run: seq<Action>)
    ensures UnitsValid(devices) && !UnitsValid(After(devices, 2001, run).0)
  {
    devices := [ScsiController(1000), Disk(2000, 1000, Some(0))];
    run := [AddDisk(None, Some(0))];
    assert devices == [devices[0]] + [devices[1]];
    forall c
      ensures Units(devices, c) == if c == 1000 then [Some(0)] else []
    {
      UnitsJoin([devices[0]], [devices[1]], c);
    }
    assert run[..0] == [];
    AddKeepsValidIff(devices, 2001, None, Some(0));
  }

  lemma {:induction false} AutomaticRunFits(devices: seq<Device>, nextKey: int, run: seq<Action>)
    requires forall a :: a in run && a.AddDisk? ==> a.unitNumber.None?
    ensures RunFits(devices, nextKey, run)
  {
    if run == [] {
    } else {
      AutomaticRunFits(devices, nextKey, run[..|run| - 1]);
      assert run[|run| - 1] in run;
    }
  }

  /** Over every run of automatic adds and removes they stay so. */
  lemma RunKeepsValid(devices: seq<Device>, nextKey: int, run: seq<Action>)
    requires UnitsValid(devices) && forall a :: a in run && a.AddDisk? ==> a.unitNumber.None?
    ensures UnitsValid(After(devices, nextKey, run).0) && DisksApart(After(devices, nextKey, run).0)
  {
    AutomaticRunFits(devices, nextKey, run);
    RunKeepsValidIff(devices, nextKey, run);
    assert run[..|run|] == run;
    UnitsValidIs(After(devices, nextKey, run).0);
  }

  // ----- when an add fails -----

  function UsableBelow(n: nat): set<Option<int>> {
    if n == 0 then {} else UsableBelow(n - 1) + if n - 1 == RESERVED then {} else {Some(n - 1)}
  }

  lemma {:induction false} UsableCount(n: nat)
    ensures |UsableBelow(n)| == if n > RESERVED then n - 1 else n
    ensures forall u :: u in UsableBelow(n) <==> u.Some? && 0 <= u.value < n && u.value != RESERVED
  {
    if n == 0 {
    } else {
      UsableCount(n - 1);
    }
  }

  lemma {:induction false} SizeOfDistinct(s: seq<Option<int>>)
    requires Distinct(s)
    ensures |set x | x in s| == |s|
  {
    if s == [] {
    } else {
      var front, last := s[..|s| - 1], s[|s| - 1];
      SizeOfDistinct(front);
      assert (set x | x in s) == (set x | x in front) + {last};
      assert last !in front;
    }
  }

  lemma SubsetOfSameSize<T>(a: set<T>, b: set<T>)
    requires a <= b
    ensures |a| <= |b| && (|a| == |b| ==> a == b)
  {
    assert b == a + (b - a) && |b| == |a| + |b - a|;
  }

  /** Pigeonhole: distinct usable numbers are at most 15, and 15 only if all are taken. */
  lemma FullIff(taken: seq<Option<int>>)
    requires ValidOn(taken)
    ensures |taken| <= 15
    ensures AllTaken(taken) <==> |taken| == 15
  {
    hide UsableBelow;
    var s := set x | x in taken;
    var usable := UsableBelow(16);
    SizeOfDistinct(taken);
    UsableCount(16);
    assert s <= usable;
    SubsetOfSameSize(s, usable);
    if AllTaken(taken) {
      assert usable <= s;
    }
    if s == usable {
      forall w | Usable(w)
        ensures Some(w) in taken
      {
        assert Some(w) in usable;
      }
    }
  }

  /** After any run whose given numbers fit, an automatic add, on the controller
      given or on the default one, fails for want of a unit number exactly when
      that controller carries 15 disks, and for want of a controller exactly when
      there is none; more than 15 disks no controller carries. */
  lemma AddFailsIffFull(devices: seq<Device>, nextKey: int, run: seq<Action>, controllerKey: Option<int>)
    requires UnitsValid(devices) && RunFits(devices, nextKey, run)
    ensures var (ds, key) := After(devices, nextKey, run);
      var c := Target(ds, controllerKey);
      var o := AddTo(ds, key, controllerKey, None).0;
      && (o == NoScsiController <==> c == None)
      && (c.Some? ==> |Units(ds, c.value)| <= 15 && (o == NoFreeUnit <==> |Units(ds, c.value)| == 15))
  {
    hide After, Units, AllTaken, RunFits, Target;
    RunKeepsValidIff(devices, nextKey, run);
    assert run[..|run|] == run;
    var ds := After(devices, nextKey, run).0;
    if Target(ds, controllerKey).Some? {
      FullIff(Units(ds, Target(ds, controllerKey).value));
    }
  }
}
