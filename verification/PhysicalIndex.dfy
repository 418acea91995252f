/**
 Input devices and the index that groups them by the physical device they belong to.

 A group remembers the udev tags of every member it ever had; a tablet whose group
 carries a pointer tag counts as a pointer device. `Added` and `Removed` are what
 plugging and unplugging do to the device map and the index together.
 */
module PhysicalIndex {
  import opened Basics

  datatype UdevTag =
    | Input | Keyboard | Mouse | Touchpad | Touchscreen | Tablet | Joystick
    | Accelerometer | TabletPad | PointingStick | Trackball | Switch

  /** What libinput and udev say about a device. The handle is its libinput pointer. */
  datatype RawDevice = RawDevice(
    handle: nat,
    eventId: int32,
    remote: bool,
    pointer: bool,
    pointerProperty: bool,
    tags: set<UdevTag>,
    physicalId: string)

  datatype DeviceInfo = DeviceInfo(
    origin: RawDevice,
    isRemote: bool,
    isPointerDevice: bool,
    enable: bool,
    inputEnable: bool,
    physicalId: string)

  function MakeDeviceInfo(raw: RawDevice, eduInputDisabled: bool): DeviceInfo {
    DeviceInfo(raw, raw.remote, raw.pointer, !raw.remote && !eduInputDisabled, true, raw.physicalId)
  }

  const POINTER_TAGS: set<UdevTag> := {Mouse, Trackball, PointingStick, Touchpad, TabletPad}

  datatype Group = Group(tags: set<UdevTag>, ids: set<int32>) {
    predicate IsPointerDevice() {
      tags * POINTER_TAGS != {}
    }
  }

  type Devices = map<int32, DeviceInfo>
  type Groups = map<string, Group>

  datatype Index = Index(devices: Devices, groups: Groups)

  // ----- Plugging -----

  function Joined(groups: Groups, id: int32, info: DeviceInfo): Groups {
    if info.physicalId == "" then groups
    else
      var group := if info.physicalId in groups then groups[info.physicalId] else Group({}, {});
      groups[info.physicalId := Group(group.tags + info.origin.tags, group.ids + {id})]
  }

  predicate Upgrades(groups: Groups, info: DeviceInfo) {
    && Tablet in info.origin.tags
    && (|| info.origin.pointerProperty
        || (info.physicalId in groups && groups[info.physicalId].IsPointerDevice()))
  }

  function Checked(groups: Groups, info: DeviceInfo): DeviceInfo {
    if !info.isPointerDevice && Upgrades(groups, info) then info.(isPointerDevice := true) else info
  }

  /** The devices whose capabilities are looked at again when `id` has changed. */
  function Affected(groups: Groups, id: int32, physicalId: string): set<int32> {
    {id} + if physicalId in groups then groups[physicalId].ids else {}
  }

  function Rechecked(devices: Devices, groups: Groups, ids: set<int32>): Devices {
    map id | id in devices :: if id in ids then Checked(groups, devices[id]) else devices[id]
  }

  function Added(index: Index, id: int32, info: DeviceInfo): Index {
    var devices := index.devices[id := info];
    var groups := Joined(index.groups, id, info);
    Index(Rechecked(devices, groups, Affected(groups, id, info.physicalId)), groups)
  }

  // ----- Unplugging -----

  function Left(groups: Groups, id: int32, physicalId: string): Groups {
    if physicalId == "" || physicalId !in groups then groups
    else
      var group := groups[physicalId].(ids := groups[physicalId].ids - {id});
      if group.ids == {} then groups - {physicalId} else groups[physicalId := group]
  }

  function Removed(index: Index, id: int32): Index {
    if id !in index.devices then index
    else Index(index.devices - {id}, Left(index.groups, id, index.devices[id].physicalId))
  }

  // ----- Hotplug -----

  ghost predicate HasHandle(devices: Devices, id: int32, handle: nat) {
    id in devices && devices[id].origin.handle == handle
  }

  ghost function FindId(devices: Devices, handle: nat): (found: Option<int32>)
    ensures found.Some? ==> HasHandle(devices, found.value, handle)
    ensures found.None? ==> forall id :: !HasHandle(devices, id, handle)
  {
    if exists id :: HasHandle(devices, id, handle) then
      var id :| HasHandle(devices, id, handle);
      Some(id)
    else
      None
  }

  ghost function Plugged(index: Index, raw: RawDevice, eduInputDisabled: bool): Index {
    if FindId(index.devices, raw.handle).Some? || raw.eventId < 0 then index
    else Added(index, raw.eventId, MakeDeviceInfo(raw, eduInputDisabled))
  }

  ghost function Unplugged(index: Index, handle: nat): Index {
    match FindId(index.devices, handle)
    case None => index
    case Some(id) => Removed(index, id)
  }

  // ----- Agreement of the index with the device map -----

  ghost predicate Member(groups: Groups, p: string, id: int32) {
    p in groups && id in groups[p].ids
  }

  ghost predicate Names(devices: Devices, p: string, id: int32) {
    p != "" && id in devices && devices[id].physicalId == p
  }

  /** Every group is the set of live devices naming it, and no group is empty. */
  ghost predicate GroupsAgree(index: Index) {
    && (forall p, id :: Member(index.groups, p, id) <==> Names(index.devices, p, id))
    && (forall p :: p in index.groups ==> index.groups[p].ids != {})
  }

  ghost predicate IsPointer(index: Index, info: DeviceInfo) {
    info.origin.pointer || Upgrades(index.groups, info)
  }

  /** A device counts as a pointer exactly when it was one at creation or its tags and group make it one. */
  ghost predicate PointersClosed(index: Index) {
    forall id :: id in index.devices ==>
      (index.devices[id].isPointerDevice <==> IsPointer(index, index.devices[id]))
  }

  ghost predicate HandlesDistinct(devices: Devices) {
    forall a, b :: a in devices && b in devices && devices[a].origin.handle == devices[b].origin.handle ==> a == b
  }

  ghost predicate InfosMatchOrigins(devices: Devices) {
    forall id :: id in devices ==>
      && devices[id].physicalId == devices[id].origin.physicalId
      && devices[id].isRemote == devices[id].origin.remote
  }

  ghost predicate IndexInvariant(index: Index) {
    && GroupsAgree(index)
    && PointersClosed(index)
    && HandlesDistinct(index.devices)
    && InfosMatchOrigins(index.devices)
  }

  lemma JoinedMembers(groups: Groups, id: int32, info: DeviceInfo, p: string, x: int32)
    ensures Member(Joined(groups, id, info), p, x)
       <==> Member(groups, p, x) || (x == id && p == info.physicalId && p != "")
  {
  }

  lemma LeftMembers(groups: Groups, id: int32, physicalId: string, p: string, x: int32)
    ensures Member(Left(groups, id, physicalId), p, x)
       <==> Member(groups, p, x) && !(x == id && p == physicalId && p != "")
  {
    if Member(groups, p, x) && x != id {
      assert x in groups[p].ids - {id};
    }
  }

  lemma AddedMembers(index: Index, id: int32, info: DeviceInfo, p: string, x: int32)
    ensures Member(Added(index, id, info).groups, p, x)
       <==> Member(index.groups, p, x) || (x == id && p == info.physicalId && p != "")
    ensures Names(Added(index, id, info).devices, p, x)
       <==> if x == id then p == info.physicalId && p != "" else Names(index.devices, p, x)
  {
    JoinedMembers(index.groups, id, info, p, x);
  }

  /** The id is free, or the device it stands for so far is in no group but the one given. */
  ghost predicate Reusable(index: Index, id: int32, physicalId: string) {
    id in index.devices ==> index.devices[id].physicalId == "" || index.devices[id].physicalId == physicalId
  }

  lemma AddedKeepsGroups(index: Index, id: int32, info: DeviceInfo)
    requires GroupsAgree(index)
    ensures GroupsAgree(Added(index, id, info)) <==> Reusable(index, id, info.physicalId)
  {
    var after := Added(index, id, info);
    if Reusable(index, id, info.physicalId) {
      forall q, x ensures Member(after.groups, q, x) <==> Names(after.devices, q, x) {
        AddedMembers(index, id, info, q, x);
        assert Member(index.groups, q, x) <==> Names(index.devices, q, x);
      }
    } else {
      var p := index.devices[id].physicalId;
      AddedMembers(index, id, info, p, id);
      assert Member(index.groups, p, id) <==> Names(index.devices, p, id);
      assert Member(after.groups, p, id) && !Names(after.devices, p, id);
    }
  }

  lemma RemovedKeepsGroups(index: Index, id: int32)
    requires GroupsAgree(index)
    ensures GroupsAgree(Removed(index, id))
  {
    var after := Removed(index, id);
    if id in index.devices {
      forall p, x ensures Member(after.groups, p, x) <==> Names(after.devices, p, x) {
        LeftMembers(index.groups, id, index.devices[id].physicalId, p, x);
      }
    }
  }

  lemma RecheckedPointers(index: Index, id: int32, info: DeviceInfo, x: int32)
    requires IndexInvariant(index) && Reusable(index, id, info.physicalId)
    requires info.isPointerDevice == info.origin.pointer
    requires x in Added(index, id, info).devices
    ensures var after := Added(index, id, info);
            after.devices[x].isPointerDevice <==> IsPointer(after, after.devices[x])
  {
    assert Member(index.groups, info.physicalId, x) <==> Names(index.devices, info.physicalId, x);
  }

  lemma AddedKeepsOrigins(index: Index, id: int32, info: DeviceInfo)
    requires HandlesDistinct(index.devices) && InfosMatchOrigins(index.devices)
    requires FindId(index.devices, info.origin.handle).None?
    requires info.physicalId == info.origin.physicalId && info.isRemote == info.origin.remote
    ensures HandlesDistinct(Added(index, id, info).devices)
    ensures InfosMatchOrigins(Added(index, id, info).devices)
  {
    var after := Added(index, id, info);
    forall x: int32 | x in after.devices
      ensures after.devices[x].origin == if x == id then info.origin else index.devices[x].origin
      ensures x == id || (x in index.devices && index.devices[x].origin.handle != info.origin.handle)
    {
      AddedKeepsOrigin(index, id, info, x);
      assert !HasHandle(index.devices, x, info.origin.handle);
    }
    forall x: int32 | x in after.devices
      ensures after.devices[x].physicalId == after.devices[x].origin.physicalId
      ensures after.devices[x].isRemote == after.devices[x].origin.remote
    {
      AddedKeepsOrigin(index, id, info, x);
    }
  }

  lemma AddedKeepsOrigin(index: Index, id: int32, info: DeviceInfo, x: int32)
    requires x in Added(index, id, info).devices
    ensures x == id || x in index.devices
    ensures var device, was := Added(index, id, info).devices[x], if x == id then info else index.devices[x];
            device.origin == was.origin && device.physicalId == was.physicalId && device.isRemote == was.isRemote
  {
  }

  /**
   Adding a device keeps everything in agreement exactly when its id is free, or was that of
   a device in no group or the same one.
   */
  lemma AddedKeepsInvariant(index: Index, id: int32, info: DeviceInfo)
    requires IndexInvariant(index)
    requires FindId(index.devices, info.origin.handle).None?
    requires info.isPointerDevice == info.origin.pointer
    requires info.physicalId == info.origin.physicalId && info.isRemote == info.origin.remote
    ensures IndexInvariant(Added(index, id, info)) <==> Reusable(index, id, info.physicalId)
  {
    var after := Added(index, id, info);
    AddedKeepsGroups(index, id, info);
    if Reusable(index, id, info.physicalId) {
      forall x | x in after.devices ensures after.devices[x].isPointerDevice <==> IsPointer(after, after.devices[x]) {
        RecheckedPointers(index, id, info, x);
      }
      AddedKeepsOrigins(index, id, info);
    }
  }

  lemma RemovedKeepsInvariant(index: Index, id: int32)
    requires IndexInvariant(index)
    ensures IndexInvariant(Removed(index, id))
  {
    RemovedKeepsGroups(index, id);
    var after := Removed(index, id);
    forall x | x in after.devices ensures after.devices[x].isPointerDevice <==> IsPointer(after, after.devices[x]) {
      assert Names(index.devices, after.devices[x].physicalId, x) <==> Member(index.groups, after.devices[x].physicalId, x);
      assert Names(after.devices, after.devices[x].physicalId, x) <==> Member(after.groups, after.devices[x].physicalId, x);
    }
  }

  // ----- Runs -----

  datatype Hotplug = Plug(raw: RawDevice, eduInputDisabled: bool) | Unplug(handle: nat)

  ghost function After(index: Index, op: Hotplug): Index {
    match op
    case Plug(raw, edu) => Plugged(index, raw, edu)
    case Unplug(handle) => Unplugged(index, handle)
  }

  ghost function Run(ops: seq<Hotplug>): Index {
    if ops == [] then Index(map[], map[]) else After(Run(ops[..|ops| - 1]), ops[|ops| - 1])
  }

  /** The device is taken in under its event number. */
  ghost predicate Takes(index: Index, op: Hotplug) {
    op.Plug? && FindId(index.devices, op.raw.handle).None? && op.raw.eventId >= 0
  }

  /** An event number is not given to a new device while one in another group has it. */
  ghost predicate Admissible(index: Index, op: Hotplug) {
    Takes(index, op) ==> Reusable(index, op.raw.eventId, op.raw.physicalId)
  }

  ghost predicate Legal(ops: seq<Hotplug>) {
    forall i :: 0 <= i < |ops| ==> Admissible(Run(ops[..i]), ops[i])
  }

  lemma LegalPrefix(ops: seq<Hotplug>)
    requires Legal(ops) && ops != []
    ensures Legal(ops[..|ops| - 1]) && Admissible(Run(ops[..|ops| - 1]), ops[|ops| - 1])
  {
    var before := ops[..|ops| - 1];
    forall i | 0 <= i < |before| ensures Admissible(Run(before[..i]), before[i]) {
      assert before[..i] == ops[..i];
    }
  }

  lemma StepKeepsInvariant(index: Index, op: Hotplug)
    requires IndexInvariant(index)
    ensures IndexInvariant(After(index, op)) <==> Admissible(index, op)
  {
    match op
    case Plug(raw, edu) =>
      if Takes(index, op) {
        AddedKeepsInvariant(index, raw.eventId, MakeDeviceInfo(raw, edu));
      }
    case Unplug(handle) =>
      if id :| FindId(index.devices, handle) == Some(id) {
        RemovedKeepsInvariant(index, id);
      }
  }

  /** The index agrees with the device map after every run of plugging and unplugging. */
  lemma {:induction false} IndexAlwaysAgrees(ops: seq<Hotplug>)
    requires Legal(ops)
    ensures IndexInvariant(Run(ops))
  {
    if ops == [] {
    } else {
      LegalPrefix(ops);
      IndexAlwaysAgrees(ops[..|ops| - 1]);
      StepKeepsInvariant(Run(ops[..|ops| - 1]), ops[|ops| - 1]);
    }
  }

  /** It agrees throughout a run exactly when the event numbers in it are admissible. */
  lemma AgreesThroughoutIffLegal(ops: seq<Hotplug>)
    ensures (forall n :: 0 <= n <= |ops| ==> IndexInvariant(Run(ops[..n]))) <==> Legal(ops)
  {
    if Legal(ops) {
      forall n | 0 <= n <= |ops| ensures IndexInvariant(Run(ops[..n])) {
        forall i | 0 <= i < n ensures Admissible(Run(ops[..n][..i]), ops[..n][i]) {
          assert ops[..n][..i] == ops[..i];
        }
        IndexAlwaysAgrees(ops[..n]);
      }
    }
    if forall n :: 0 <= n <= |ops| ==> IndexInvariant(Run(ops[..n])) {
      forall i | 0 <= i < |ops| ensures Admissible(Run(ops[..i]), ops[i]) {
        assert ops[..i + 1][..i] == ops[..i];
        assert Run(ops[..i + 1]) == After(Run(ops[..i]), ops[i]);
        StepKeepsInvariant(Run(ops[..i]), ops[i]);
      }
    }
  }

  // ----- Which devices are live -----

  ghost predicate PluggedSince(ops: seq<Hotplug>, handle: nat, i: int) {
    && 0 <= i < |ops| && ops[i].Plug? && ops[i].raw.handle == handle && ops[i].raw.eventId >= 0
    && forall j :: i < j < |ops| ==> ops[j] != Unplug(handle)
  }

  /** The device was plugged and has not been unplugged since. */
  ghost predicate Live(ops: seq<Hotplug>, handle: nat) {
    exists i :: PluggedSince(ops, handle, i)
  }

  lemma LiveSnoc(ops: seq<Hotplug>, op: Hotplug, handle: nat)
    ensures Live(ops + [op], handle)
       <==> (op.Plug? && op.raw.handle == handle && op.raw.eventId >= 0) || (Live(ops, handle) && op != Unplug(handle))
  {
    var all := ops + [op];
    if op.Plug? && op.raw.handle == handle && op.raw.eventId >= 0 {
      assert PluggedSince(all, handle, |ops|);
    }
    if Live(ops, handle) && op != Unplug(handle) {
      var i :| PluggedSince(ops, handle, i);
      assert PluggedSince(all, handle, i);
    }
    if Live(all, handle) {
      var i :| PluggedSince(all, handle, i);
      if i < |ops| {
        assert all[|ops|] != Unplug(handle);
        assert PluggedSince(ops, handle, i) by {
          forall j | i < j < |ops| ensures ops[j] != Unplug(handle) {
            assert all[j] == ops[j];
          }
        }
      }
    }
  }

  /** An event number is not given to a new device while an old one has it. */
  ghost predicate Fresh(index: Index, op: Hotplug) {
    Takes(index, op) ==> op.raw.eventId !in index.devices
  }

  ghost predicate NoReuse(ops: seq<Hotplug>) {
    forall i :: 0 <= i < |ops| ==> Fresh(Run(ops[..i]), ops[i])
  }

  lemma NoReusePrefix(ops: seq<Hotplug>)
    requires NoReuse(ops) && ops != []
    ensures NoReuse(ops[..|ops| - 1]) && Fresh(Run(ops[..|ops| - 1]), ops[|ops| - 1]) && Legal(ops)
  {
    var before := ops[..|ops| - 1];
    forall i | 0 <= i < |before| ensures Fresh(Run(before[..i]), before[i]) {
      assert before[..i] == ops[..i];
    }
    forall i | 0 <= i < |ops| ensures Admissible(Run(ops[..i]), ops[i]) {
      assert Fresh(Run(ops[..i]), ops[i]);
    }
  }

  lemma FoundAfter(index: Index, op: Hotplug, handle: nat)
    requires IndexInvariant(index) && Fresh(index, op)
    ensures FindId(After(index, op).devices, handle).Some?
       <==> || (op.Plug? && op.raw.handle == handle && op.raw.eventId >= 0)
            || (FindId(index.devices, handle).Some? && op != Unplug(handle))
  {
    var after := After(index, op).devices;
    forall id | HasHandle(index.devices, id, handle) && op != Unplug(handle) ensures HasHandle(after, id, handle) {
    }
    if op.Plug? && op.raw.handle == handle && op.raw.eventId >= 0 && FindId(index.devices, handle).None? {
      assert HasHandle(after, op.raw.eventId, handle);
    }
    if FindId(after, handle).Some? && !(op.Plug? && op.raw.handle == handle) {
      assert HasHandle(index.devices, FindId(after, handle).value, handle);
    }
  }

  /** The device map holds exactly the devices plugged and not unplugged since. */
  lemma {:induction false} DevicesAreLive(ops: seq<Hotplug>, handle: nat)
    requires NoReuse(ops)
    ensures FindId(Run(ops).devices, handle).Some? <==> Live(ops, handle)
  {
    if ops == [] {
    } else {
      var before, op := ops[..|ops| - 1], ops[|ops| - 1];
      assert ops == before + [op];
      NoReusePrefix(ops);
      LegalPrefix(ops);
      DevicesAreLive(before, handle);
      IndexAlwaysAgrees(before);
      FoundAfter(Run(before), op, handle);
      LiveSnoc(before, op, handle);
    }
  }

  // ----- What a group remembers -----

  ghost predicate Named(index: Index, p: string) {
    exists id :: id in index.devices && index.devices[id].physicalId == p
  }

  /** The op really adds a device of physical device `p` that carries the tag. */
  ghost predicate Contributes(before: Index, op: Hotplug, p: string, tag: UdevTag) {
    && op.Plug? && op.raw.eventId >= 0 && FindId(before.devices, op.raw.handle).None?
    && op.raw.physicalId == p && tag in op.raw.tags
  }

  ghost predicate NamedAt(ops: seq<Hotplug>, p: string, j: int)
    requires 0 <= j <= |ops|
  {
    Named(Run(ops[..j]), p)
  }

  ghost predicate ContributesAt(ops: seq<Hotplug>, p: string, tag: UdevTag, i: int)
    requires 0 <= i < |ops|
  {
    Contributes(Run(ops[..i]), ops[i], p, tag)
  }

  ghost predicate ContributedSince(ops: seq<Hotplug>, p: string, tag: UdevTag, i: int) {
    && 0 <= i < |ops|
    && ContributesAt(ops, p, tag, i)
    && forall j :: i < j <= |ops| ==> NamedAt(ops, p, j)
  }

  /** Some member added since the physical device last had none carried the tag. */
  ghost predicate Remembered(ops: seq<Hotplug>, p: string, tag: UdevTag) {
    exists i :: ContributedSince(ops, p, tag, i)
  }

  lemma GroupsAreNamed(index: Index, p: string)
    requires GroupsAgree(index)
    ensures p in index.groups <==> p != "" && Named(index, p)
  {
    if p in index.groups {
      assert |index.groups[p].ids| > 0;
      var id :| id in index.groups[p].ids;
      assert Member(index.groups, p, id);
    }
    if p != "" && Named(index, p) {
      var id :| id in index.devices && index.devices[id].physicalId == p;
      assert Names(index.devices, p, id);
    }
  }

  lemma NamedAtPrefix(ops: seq<Hotplug>, op: Hotplug, p: string, tag: UdevTag)
    ensures forall j :: 0 <= j <= |ops| ==> (NamedAt(ops + [op], p, j) <==> NamedAt(ops, p, j))
    ensures forall i :: 0 <= i < |ops| ==> (ContributesAt(ops + [op], p, tag, i) <==> ContributesAt(ops, p, tag, i))
  {
    forall j | 0 <= j <= |ops| ensures (ops + [op])[..j] == ops[..j] {
    }
  }

  lemma RememberedSnoc(ops: seq<Hotplug>, op: Hotplug, p: string, tag: UdevTag)
    requires NamedAt(ops + [op], p, |ops| + 1)
    ensures Remembered(ops + [op], p, tag) <==> ContributesAt(ops + [op], p, tag, |ops|) || Remembered(ops, p, tag)
  {
    var all := ops + [op];
    NamedAtPrefix(ops, op, p, tag);
    if ContributesAt(all, p, tag, |ops|) {
      assert ContributedSince(all, p, tag, |ops|);
    }
    if Remembered(ops, p, tag) {
      var i :| ContributedSince(ops, p, tag, i);
      assert ContributedSince(all, p, tag, i);
    }
    if Remembered(all, p, tag) {
      var i :| ContributedSince(all, p, tag, i);
      if i < |ops| {
        ContributedBefore(ops, op, p, tag, i);
      }
    }
  }

  lemma ContributedBefore(ops: seq<Hotplug>, op: Hotplug, p: string, tag: UdevTag, i: int)
    requires 0 <= i < |ops| && ContributedSince(ops + [op], p, tag, i)
    ensures ContributedSince(ops, p, tag, i)
  {
    NamedAtPrefix(ops, op, p, tag);
    forall j | i < j <= |ops| ensures NamedAt(ops, p, j) {
      assert NamedAt(ops + [op], p, j);
    }
  }

  lemma JoinedTags(groups: Groups, id: int32, info: DeviceInfo, p: string, tag: UdevTag)
    requires p in Joined(groups, id, info) && (p in groups ==> p != "")
    ensures tag in Joined(groups, id, info)[p].tags
       <==> (info.physicalId == p && tag in info.origin.tags) || (p in groups && tag in groups[p].tags)
  {
  }

  lemma LeftTags(groups: Groups, id: int32, physicalId: string, p: string, tag: UdevTag)
    requires p in Left(groups, id, physicalId)
    ensures p in groups && (tag in Left(groups, id, physicalId)[p].tags <==> tag in groups[p].tags)
  {
  }

  lemma TagsAfter(index: Index, op: Hotplug, p: string, tag: UdevTag)
    requires IndexInvariant(index) && Admissible(index, op)
    requires p in After(index, op).groups
    ensures tag in After(index, op).groups[p].tags
       <==> Contributes(index, op, p, tag) || (p in index.groups && tag in index.groups[p].tags)
  {
    GroupsAreNamed(index, p);
    match op
    case Plug(raw, edu) =>
      if FindId(index.devices, raw.handle).None? && raw.eventId >= 0 {
        JoinedTags(index.groups, raw.eventId, MakeDeviceInfo(raw, edu), p, tag);
      }
    case Unplug(handle) =>
      match FindId(index.devices, handle) {
      case None =>
      case Some(id) =>
        LeftTags(index.groups, id, index.devices[id].physicalId, p, tag);
      }
  }

  /** A group's tags are the union over the members added since the physical device last had none. */
  lemma {:induction false} GroupTagsAreRemembered(ops: seq<Hotplug>, p: string, tag: UdevTag)
    requires Legal(ops) && p in Run(ops).groups
    ensures tag in Run(ops).groups[p].tags <==> Remembered(ops, p, tag)
  {
    if ops == [] {
    } else {
      var before, op := ops[..|ops| - 1], ops[|ops| - 1];
      assert ops == before + [op];
      LegalPrefix(ops);
      IndexAlwaysAgrees(before);
      IndexAlwaysAgrees(ops);
      GroupsAreNamed(Run(ops), p);
      GroupsAreNamed(Run(before), p);
      TagsAfter(Run(before), op, p, tag);
      assert ops[..|ops|] == ops && before[..|before|] == before;
      RememberedSnoc(before, op, p, tag);
      if p in Run(before).groups {
        GroupTagsAreRemembered(before, p, tag);
      } else {
        assert Remembered(before, p, tag) ==> NamedAt(before, p, |before|);
      }
    }
  }

  // ----- Which devices there are, and which of them are pointers -----

  ghost predicate Present(index: Index, id: int32, raw: RawDevice) {
    id in index.devices && index.devices[id].origin == raw
  }

  /** The op gives the id to a device it takes in. */
  ghost predicate TakesAs(index: Index, op: Hotplug, id: int32) {
    Takes(index, op) && op.raw.eventId == id
  }

  lemma PresentAfter(index: Index, op: Hotplug, id: int32, raw: RawDevice)
    requires IndexInvariant(index)
    ensures Present(After(index, op), id, raw)
       <==> || (TakesAs(index, op, id) && op.raw == raw)
            || (Present(index, id, raw) && !TakesAs(index, op, id) && op != Unplug(raw.handle))
  {
    match op
    case Plug(plugged, edu) =>
      if Takes(index, op) && id in After(index, op).devices {
        AddedKeepsOrigin(index, plugged.eventId, MakeDeviceInfo(plugged, edu), id);
      }
    case Unplug(handle) =>
      assert Present(index, id, raw) ==> HasHandle(index.devices, id, raw.handle);
  }

  ghost predicate TakesAt(ops: seq<Hotplug>, i: nat, id: int32)
    requires i < |ops|
  {
    TakesAs(Run(ops[..i]), ops[i], id)
  }

  /** The device was taken in under the id, and since then neither unplugged nor had its id given to another. */
  ghost predicate InPlace(ops: seq<Hotplug>, n: nat, id: int32, raw: RawDevice)
    requires n <= |ops|
  {
    On(seq(|ops|, i requires 0 <= i < |ops| => TakesAt(ops, i, id) && ops[i].Plug? && ops[i].raw == raw),
       seq(|ops|, i requires 0 <= i < |ops| => TakesAt(ops, i, id) || ops[i] == Unplug(raw.handle)), n)
  }

  lemma InPlaceOneMore(ops: seq<Hotplug>, n: nat, id: int32, raw: RawDevice)
    requires n < |ops|
    ensures InPlace(ops, n + 1, id, raw)
       <==> || (TakesAt(ops, n, id) && ops[n].Plug? && ops[n].raw == raw)
            || (InPlace(ops, n, id, raw) && !(TakesAt(ops, n, id) || ops[n] == Unplug(raw.handle)))
  {
    OnOneMore(seq(|ops|, i requires 0 <= i < |ops| => TakesAt(ops, i, id) && ops[i].Plug? && ops[i].raw == raw),
              seq(|ops|, i requires 0 <= i < |ops| => TakesAt(ops, i, id) || ops[i] == Unplug(raw.handle)), n);
  }

  lemma LegalUpto(ops: seq<Hotplug>, n: nat)
    requires Legal(ops) && n <= |ops|
    ensures Legal(ops[..n])
  {
    forall i | 0 <= i < n ensures Admissible(Run(ops[..n][..i]), ops[..n][i]) {
      assert ops[..n][..i] == ops[..i];
    }
  }

  /** At every point of every legal run, the map has a device under an id exactly if it was put there and is in place still. */
  lemma {:induction false} DevicesAreInPlace(ops: seq<Hotplug>, n: nat, id: int32, raw: RawDevice)
    requires Legal(ops) && n <= |ops|
    ensures Present(Run(ops[..n]), id, raw) <==> InPlace(ops, n, id, raw)
  {
    if n == 0 {
      assert ops[..0] == [];
    } else {
      DevicesAreInPlace(ops, n - 1, id, raw);
      InPlaceOneMore(ops, n - 1, id, raw);
      LegalUpto(ops, n - 1);
      IndexAlwaysAgrees(ops[..n - 1]);
      PresentAfter(Run(ops[..n - 1]), ops[n - 1], id, raw);
      assert ops[..n][..n - 1] == ops[..n - 1];
      assert Run(ops[..n]) == After(Run(ops[..n - 1]), ops[n - 1]);
    }
  }

  lemma PointerTags(group: Group)
    ensures group.IsPointerDevice()
       <==> || Mouse in group.tags || Trackball in group.tags || PointingStick in group.tags
            || Touchpad in group.tags || TabletPad in group.tags
  {
    assert forall tag: UdevTag :: tag in group.tags * POINTER_TAGS <==> tag in group.tags && tag in POINTER_TAGS;
    if group.IsPointerDevice() {
      var common := group.tags * POINTER_TAGS;
      assert |common| > 0;
      var tag :| tag in common;
    }
  }

  /** Some member since the physical device last had none was a pointer, by one of five tags. */
  ghost predicate PointerRemembered(ops: seq<Hotplug>, p: string) {
    || Remembered(ops, p, Mouse) || Remembered(ops, p, Trackball) || Remembered(ops, p, PointingStick)
    || Remembered(ops, p, Touchpad) || Remembered(ops, p, TabletPad)
  }

  lemma GroupPointsIffRemembered(ops: seq<Hotplug>, p: string)
    requires Legal(ops) && p in Run(ops).groups
    ensures Run(ops).groups[p].IsPointerDevice() <==> PointerRemembered(ops, p)
  {
    PointerTags(Run(ops).groups[p]);
    GroupTagsAreRemembered(ops, p, Mouse);
    GroupTagsAreRemembered(ops, p, Trackball);
    GroupTagsAreRemembered(ops, p, PointingStick);
    GroupTagsAreRemembered(ops, p, Touchpad);
    GroupTagsAreRemembered(ops, p, TabletPad);
  }

  /**
   After every legal run a device counts as a pointer exactly if it was one when it came, or
   it is a tablet that has the pointer property or belongs to a physical device of which
   some member carried a pointer tag.
   */
  lemma PointersByHistory(ops: seq<Hotplug>, id: int32)
    requires Legal(ops) && id in Run(ops).devices
    ensures var info := Run(ops).devices[id];
            var raw := info.origin;
            info.isPointerDevice
            <==> || raw.pointer
                 || (Tablet in raw.tags
                     && (raw.pointerProperty || (raw.physicalId != "" && PointerRemembered(ops, raw.physicalId))))
  {
    IndexAlwaysAgrees(ops);
    var index := Run(ops);
    var p := index.devices[id].physicalId;
    GroupsAreNamed(index, p);
    if p != "" {
      assert Named(index, p);
      GroupPointsIffRemembered(ops, p);
    }
  }
}
