/**
 The device manager itself: its maps, its switches and its methods, each proved to take
 the step of `EnableProtocol`, `PhysicalIndex` or `VirtualIds` that it stands for.

 Loops over a map visit its keys in any order. The observers that answer a
 "device disabled" notification by telling the store are the parameter `reacting`.
 */
module InputDeviceManagement {
  import opened Basics
  import PI = PhysicalIndex
  import EP = EnableProtocol
  import DS = DeviceStates
  import VI = VirtualIds

  datatype Status = RetOk | RetErr | DeviceNotExist | EduInputDisabled | InputDeviceDisabled

  // ----- One device at a time is as good as all at once -----

  ghost function Recovering(sys: EP.System, ids: set<int32>): EP.System {
    EP.Requested(EP.WithInputEnable(sys, ids, true), ids)
  }

  /** What recovering these devices does to one id. */
  ghost predicate RecoversAt(before: EP.System, after: EP.System, ids: set<int32>, x: int32) {
    && after.eduInputDisabled == before.eduInputDisabled
    && (x in after.Devices() <==> x in before.Devices())
    && (x in before.Devices() ==>
          after.Devices()[x] == var info := before.Devices()[x];
            if x !in ids then info
            else if EP.HoldsNothing(before.states, x) && !before.eduInputDisabled then info.(inputEnable := true, enable := true)
            else info.(inputEnable := true))
    && (x in after.states <==> x in before.states && !(x in ids && EP.HoldsNothing(before.states, x)))
    && (x in after.states ==>
          after.states[x] == if x in ids
            then before.states[x].(enabled := true, pendingEnableCallback := Some(EP.EnableInputDevice))
            else before.states[x])
  }

  ghost predicate Recovers(before: EP.System, after: EP.System, ids: set<int32>) {
    && after == before.WithDevices(after.Devices()).(states := after.states)
    && forall x :: RecoversAt(before, after, ids, x)
  }

  lemma RecoveringRecovers(sys: EP.System, ids: set<int32>)
    ensures Recovers(sys, Recovering(sys, ids), ids)
  {
  }

  lemma RecoversTwice(before: EP.System, mid: EP.System, one: EP.System, all: EP.System, ids: set<int32>, id: int32)
    requires Recovers(before, mid, ids) && Recovers(mid, one, {id}) && Recovers(before, all, ids + {id})
    ensures one == all
  {
    forall x: int32
      ensures x in one.Devices() <==> x in all.Devices()
      ensures x in all.Devices() ==> one.Devices()[x] == all.Devices()[x]
      ensures x in one.states <==> x in all.states
      ensures x in all.states ==> one.states[x] == all.states[x]
    {
      assert RecoversAt(before, mid, ids, x) && RecoversAt(mid, one, {id}, x) && RecoversAt(before, all, ids + {id}, x);
    }
    assert one.Devices() == all.Devices();
    assert one.states == all.states;
  }

  lemma RecoveringOneMore(sys: EP.System, ids: set<int32>, id: int32)
    ensures Recovering(Recovering(sys, ids), {id}) == Recovering(sys, ids + {id})
  {
    RecoveringRecovers(sys, ids);
    RecoveringRecovers(Recovering(sys, ids), {id});
    RecoveringRecovers(sys, ids + {id});
    RecoversTwice(sys, Recovering(sys, ids), Recovering(Recovering(sys, ids), {id}), Recovering(sys, ids + {id}), ids, id);
  }

  lemma RecoveringNone(sys: EP.System)
    ensures Recovering(sys, {}) == sys
  {
    assert Recovering(sys, {}).index.devices == sys.index.devices;
    assert Recovering(sys, {}).states == sys.states;
  }

  /** The remote ones of the given devices switched. */
  ghost function Switched(devices: PI.Devices, ids: set<int32>, enable: bool): PI.Devices {
    map id | id in devices :: if id in ids && devices[id].isRemote then devices[id].(enable := enable) else devices[id]
  }

  lemma SwitchedNone(devices: PI.Devices, enable: bool)
    ensures Switched(devices, {}, enable) == devices
  {
  }

  lemma SwitchedOneMore(devices: PI.Devices, ids: set<int32>, id: int32, enable: bool)
    requires id in devices && id !in ids
    ensures var info := devices[id];
            && Switched(devices, ids, enable)[id] == info
            && Switched(devices, ids + {id}, enable)
            == if info.isRemote && info.enable != enable
               then Switched(devices, ids, enable)[id := info.(enable := enable)] else Switched(devices, ids, enable)
  {
  }

  lemma SwitchedAll(sys: EP.System, enable: bool)
    ensures EP.RemoteSwitched(sys, enable) == sys.WithDevices(Switched(sys.Devices(), sys.Devices().Keys, enable))
  {
    assert EP.RemoteSwitched(sys, enable).Devices() == Switched(sys.Devices(), sys.Devices().Keys, enable);
  }

  lemma RecheckedOneMore(devices: PI.Devices, groups: PI.Groups, ids: set<int32>, id: int32)
    ensures PI.Rechecked(PI.Rechecked(devices, groups, ids), groups, {id}) == PI.Rechecked(devices, groups, ids + {id})
  {
  }

  class InputDeviceManager {
    var inputDevice: PI.Devices
    var physicalInputDevices: PI.Groups
    var recoverList: map<int32, int32>
    var eduInputDisabled: bool
    var eduInputDisabledPid: int32
    var virtualInputDevices: map<int32, string>
    var virtualDeviceId: int32
    const deviceStateMgr: DS.DeviceStateManager<EP.Callback>

    ghost function System(): EP.System
      reads this, deviceStateMgr
    {
      EP.System(PI.Index(inputDevice, physicalInputDevices), eduInputDisabled, eduInputDisabledPid, recoverList,
                deviceStateMgr.deviceStates)
    }

    ghost predicate Valid()
      reads this, deviceStateMgr
    {
      EP.Coherent(System()) && VI.Safe(Virtuals())
    }

    function Virtuals(): VI.Virtuals
      reads this
    {
      VI.Virtuals(virtualInputDevices, virtualDeviceId)
    }

    constructor (stateMgr: DS.DeviceStateManager<EP.Callback>)
      requires stateMgr.deviceStates == map[]
      ensures System() == EP.INITIAL && Virtuals() == VI.NONE && deviceStateMgr == stateMgr && Valid()
    {
      inputDevice, physicalInputDevices, recoverList := map[], map[], map[];
      eduInputDisabled, eduInputDisabledPid := false, EP.NO_PID;
      virtualInputDevices, virtualDeviceId := map[], VI.MIN_VIRTUAL_INPUT_DEVICE_ID;
      deviceStateMgr := stateMgr;
    }

    // ----- The physical index -----

    method FindInputDeviceId(handle: nat) returns (id: int32)
      requires Valid()
      ensures PI.FindId(inputDevice, handle) == if id == EP.INVALID_DEVICE_ID then None else Some(id)
    {
      var rest := inputDevice.Keys;
      while rest != {}
        invariant rest <= inputDevice.Keys
        invariant forall d :: PI.HasHandle(inputDevice, d, handle) ==> d in rest
        decreases rest
      {
        var d :| d in rest;
        if inputDevice[d].origin.handle == handle {
          assert PI.HasHandle(inputDevice, d, handle);
          assert EP.StoreMatches(System(), d);
          return d;
        }
        rest := rest - {d};
      }
      id := EP.INVALID_DEVICE_ID;
    }

    method UpdatePhysicalInputDevice(deviceId: int32, info: PI.DeviceInfo)
      modifies this`physicalInputDevices
      ensures physicalInputDevices == PI.Joined(old(physicalInputDevices), deviceId, info)
    {
      if info.physicalId == "" {
        return;
      }
      if info.physicalId !in physicalInputDevices {
        physicalInputDevices := physicalInputDevices[info.physicalId := PI.Group({}, {})];
      }
      var group := physicalInputDevices[info.physicalId];
      group := group.(ids := group.ids + {deviceId}, tags := group.tags + info.origin.tags);
      physicalInputDevices := physicalInputDevices[info.physicalId := group];
    }

    method RemoveInputDeviceFromPhysicalDevice(deviceId: int32, physicalId: string)
      modifies this`physicalInputDevices
      ensures physicalInputDevices == PI.Left(old(physicalInputDevices), deviceId, physicalId)
    {
      if physicalId == "" || physicalId !in physicalInputDevices {
        return;
      }
      var group := physicalInputDevices[physicalId];
      group := group.(ids := group.ids - {deviceId});
      physicalInputDevices := physicalInputDevices[physicalId := group];
      if group.ids == {} {
        physicalInputDevices := physicalInputDevices - {physicalId};
        assert physicalInputDevices == old(physicalInputDevices) - {physicalId};
      }
    }

    method CheckInputDeviceCaps(deviceId: int32)
      modifies this`inputDevice
      ensures inputDevice == PI.Rechecked(old(inputDevice), physicalInputDevices, {deviceId})
    {
      if deviceId !in inputDevice {
        return;
      }
      var info := inputDevice[deviceId];
      if info.isPointerDevice || PI.Tablet !in info.origin.tags {
        return;
      }
      if info.origin.pointerProperty {
        inputDevice := inputDevice[deviceId := info.(isPointerDevice := true)];
        return;
      }
      if info.physicalId in physicalInputDevices && physicalInputDevices[info.physicalId].IsPointerDevice() {
        inputDevice := inputDevice[deviceId := info.(isPointerDevice := true)];
      }
    }

    method UpdateInputDeviceCaps(deviceId: int32)
      modifies this`inputDevice
      ensures deviceId !in old(inputDevice) ==> inputDevice == old(inputDevice)
      ensures deviceId in old(inputDevice) ==>
                inputDevice
                == PI.Rechecked(old(inputDevice), physicalInputDevices,
                                PI.Affected(physicalInputDevices, deviceId, old(inputDevice)[deviceId].physicalId))
    {
      if deviceId !in inputDevice {
        return;
      }
      ghost var before := inputDevice;
      var physicalId := inputDevice[deviceId].physicalId;
      CheckInputDeviceCaps(deviceId);
      if physicalId in physicalInputDevices {
        var rest := physicalInputDevices[physicalId].ids;
        ghost var done := {deviceId};
        while rest != {}
          invariant deviceId in done
          invariant done + rest == PI.Affected(physicalInputDevices, deviceId, physicalId)
          invariant inputDevice == PI.Rechecked(before, physicalInputDevices, done)
          decreases rest
        {
          var id :| id in rest;
          if id != deviceId {
            CheckInputDeviceCaps(id);
          }
          RecheckedOneMore(before, physicalInputDevices, done, id);
          assert id == deviceId ==> done + {id} == done;
          rest, done := rest - {id}, done + {id};
        }
      }
    }

    method AddPhysicalInputDeviceInner(deviceId: int32, info: PI.DeviceInfo)
      modifies this`inputDevice, this`physicalInputDevices
      ensures PI.Index(inputDevice, physicalInputDevices)
           == PI.Added(PI.Index(old(inputDevice), old(physicalInputDevices)), deviceId, info)
    {
      inputDevice := inputDevice[deviceId := info];
      UpdatePhysicalInputDevice(deviceId, info);
      UpdateInputDeviceCaps(deviceId);
    }

    method RemovePhysicalInputDeviceInner(handle: nat) returns (deviceId: int32)
      requires Valid()
      modifies this`inputDevice, this`physicalInputDevices
      ensures PI.FindId(old(inputDevice), handle) == if deviceId == EP.INVALID_DEVICE_ID then None else Some(deviceId)
      ensures PI.Index(inputDevice, physicalInputDevices)
           == PI.Unplugged(PI.Index(old(inputDevice), old(physicalInputDevices)), handle)
    {
      deviceId := FindInputDeviceId(handle);
      if deviceId != EP.INVALID_DEVICE_ID {
        RemoveInputDeviceFromPhysicalDevice(deviceId, inputDevice[deviceId].physicalId);
        inputDevice := inputDevice - {deviceId};
      }
    }

    method OnInputDeviceAdded(raw: PI.RawDevice)
      requires Valid()
      modifies this`inputDevice, this`physicalInputDevices
      ensures System() == EP.Next(old(System()), EP.Add(raw))
      ensures Valid() <==> EP.Allowed(old(System()), EP.Add(raw))
    {
      EP.NextKeepsCoherent(System(), EP.Add(raw));
      var duplicate := FindInputDeviceId(raw.handle);
      if duplicate != EP.INVALID_DEVICE_ID {
        return;
      }
      if raw.eventId < 0 {
        return;
      }
      var info := PI.DeviceInfo(raw, raw.remote, raw.pointer, if raw.remote then false else true, true, raw.physicalId);
      if eduInputDisabled {
        info := info.(enable := false);
      }
      AddPhysicalInputDeviceInner(raw.eventId, info);
    }

    method OnInputDeviceRemoved(handle: nat)
      requires Valid()
      modifies this`inputDevice, this`physicalInputDevices, deviceStateMgr
      ensures System() == EP.Next(old(System()), EP.Remove(handle)) && Valid()
    {
      EP.NextKeepsCoherent(System(), EP.Remove(handle));
      var deviceId := RemovePhysicalInputDeviceInner(handle);
      deviceStateMgr.OnDeviceRemoved(deviceId);
    }

    // ----- Enabling and disabling -----

    method NotifyDeviceDisabled(deviceId: int32, reacting: set<int32>)
      modifies deviceStateMgr
      ensures deviceStateMgr.deviceStates
           == if deviceId in reacting
              then DS.Step(old(deviceStateMgr.deviceStates), DS.DisableDevice(deviceId)).states
              else old(deviceStateMgr.deviceStates)
    {
      if deviceId in reacting {
        deviceStateMgr.DisableDevice(deviceId);
      }
    }

    /** Switches one device off and tells the observers. */
    method SwitchOff(deviceId: int32, reacting: set<int32>)
      requires deviceId in inputDevice
      modifies this`inputDevice, deviceStateMgr
      ensures System() == EP.Disabled(old(System()), {deviceId}, reacting)
    {
      inputDevice := inputDevice[deviceId := inputDevice[deviceId].(enable := false)];
      NotifyDeviceDisabled(deviceId, reacting);
      assert System().index.devices == EP.Disabled(old(System()), {deviceId}, reacting).index.devices;
      assert System().states == EP.Disabled(old(System()), {deviceId}, reacting).states;
    }

    method EnableInputDevice(deviceId: int32) returns (status: Status)
      modifies this`inputDevice
      ensures System() == EP.Reenabled(old(System()), deviceId)
      ensures status == DeviceNotExist <==> deviceId !in inputDevice
      ensures status == RetOk <==> deviceId in inputDevice && inputDevice[deviceId].enable
      ensures status == EduInputDisabled <==> deviceId in inputDevice && !inputDevice[deviceId].enable && eduInputDisabled
      ensures status == InputDeviceDisabled
         <==> deviceId in inputDevice && !inputDevice[deviceId].enable && !eduInputDisabled && !inputDevice[deviceId].inputEnable
    {
      if deviceId !in inputDevice {
        return DeviceNotExist;
      }
      var info := inputDevice[deviceId];
      if info.enable {
        assert System().index.devices[deviceId := info] == System().index.devices;
        assert info.(enable := true) == info;
        return RetOk;
      }
      if eduInputDisabled {
        return EduInputDisabled;
      }
      if !info.inputEnable {
        return InputDeviceDisabled;
      }
      inputDevice := inputDevice[deviceId := info.(enable := true)];
      return RetOk;
    }

    /** Hands the enable callback to the store, and runs it if the store says so. */
    method RequestEnable(deviceId: int32)
      requires deviceId in inputDevice
      modifies this`inputDevice, deviceStateMgr
      ensures System() == EP.Requested(old(System()), {deviceId})
    {
      ghost var target := EP.Requested(System(), {deviceId});
      var fired := deviceStateMgr.EnableDevice(deviceId, Some(EP.EnableInputDevice));
      if fired.Some? {
        var _ := EnableInputDevice(deviceId);
      }
      assert System().index.devices == target.index.devices;
      assert System().states == target.states;
    }

    method SetInputEnable(deviceId: int32, enable: bool)
      requires deviceId in inputDevice
      modifies this`inputDevice
      ensures System() == EP.WithInputEnable(old(System()), {deviceId}, enable)
    {
      inputDevice := inputDevice[deviceId := inputDevice[deviceId].(inputEnable := enable)];
      assert System().index.devices == EP.WithInputEnable(old(System()), {deviceId}, enable).index.devices;
    }

    /** `message` is the result sent to the session. */
    method SetInputDeviceEnabled(deviceId: int32, enable: bool, pid: int32, reacting: set<int32>)
      returns (status: Status, message: Status)
      requires Valid()
      modifies this`inputDevice, this`recoverList, deviceStateMgr
      ensures System() == EP.Next(old(System()), EP.SetInputDeviceEnabled(deviceId, enable, pid, reacting)) && Valid()
      ensures (status, message) == if deviceId in old(inputDevice) then (RetOk, RetOk) else (RetErr, DeviceNotExist)
    {
      EP.NextKeepsCoherent(System(), EP.SetInputDeviceEnabled(deviceId, enable, pid, reacting));
      if deviceId !in inputDevice {
        return RetErr, DeviceNotExist;
      }
      SetInputEnable(deviceId, enable);
      if enable {
        RequestEnable(deviceId);
      } else if inputDevice[deviceId].enable {
        SwitchOff(deviceId, reacting);
        if deviceId !in recoverList {
          recoverList := recoverList[deviceId := pid];
        }
      }
      return RetOk, RetOk;
    }

    method EnableInputDeviceForPlugin(deviceId: int32) returns (status: Status)
      requires Valid()
      modifies this`inputDevice, deviceStateMgr
      ensures System() == EP.Next(old(System()), EP.EnableForPlugin(deviceId)) && Valid()
      ensures status == if deviceId in old(inputDevice) then RetOk else RetErr
    {
      EP.NextKeepsCoherent(System(), EP.EnableForPlugin(deviceId));
      if deviceId !in inputDevice {
        return RetErr;
      }
      SetInputEnable(deviceId, true);
      RequestEnable(deviceId);
      return RetOk;
    }

    method DisableInputDeviceForPlugin(deviceId: int32, reacting: set<int32>) returns (status: Status)
      requires Valid()
      modifies this`inputDevice, deviceStateMgr
      ensures System() == EP.Next(old(System()), EP.DisableForPlugin(deviceId, reacting)) && Valid()
      ensures status == if deviceId in old(inputDevice) then RetOk else RetErr
    {
      EP.NextKeepsCoherent(System(), EP.DisableForPlugin(deviceId, reacting));
      if deviceId !in inputDevice {
        return RetErr;
      }
      if !inputDevice[deviceId].inputEnable {
        return RetOk;
      }
      SetInputEnable(deviceId, false);
      SwitchOff(deviceId, reacting);
      return RetOk;
    }

    /** Asks for every device to be enabled. */
    method RequestAll()
      modifies this`inputDevice, deviceStateMgr
      ensures System() == EP.Requested(old(System()), old(inputDevice).Keys)
    {
      ghost var before := System();
      var rest := inputDevice.Keys;
      ghost var done: set<int32> := {};
      EP.RequestedNone(before);
      while rest != {}
        invariant done + rest == before.Devices().Keys && inputDevice.Keys == before.Devices().Keys
        invariant System() == EP.Requested(before, done)
        decreases rest
      {
        var id :| id in rest;
        RequestEnable(id);
        EP.RequestedOneMore(before, done, id);
        rest, done := rest - {id}, done + {id};
      }
      assert done == before.Devices().Keys;
    }

    method DisableInputEventDispatch(disabled: bool, pid: int32, reacting: set<int32>) returns (status: Status)
      requires Valid()
      modifies this`inputDevice, this`eduInputDisabled, this`eduInputDisabledPid, deviceStateMgr
      ensures System() == EP.Next(old(System()), EP.DisableInputEventDispatch(disabled, pid, reacting)) && Valid()
      ensures status == if old(eduInputDisabled) != disabled && EP.HeldByOther(old(System()), pid) then EduInputDisabled else RetOk
    {
      EP.NextKeepsCoherent(System(), EP.DisableInputEventDispatch(disabled, pid, reacting));
      if eduInputDisabled == disabled {
        return RetOk;
      }
      if eduInputDisabled && eduInputDisabledPid != EP.NO_PID && eduInputDisabledPid != pid {
        return EduInputDisabled;
      }
      if disabled {
        eduInputDisabled, eduInputDisabledPid := true, pid;
        DisableEnabled(reacting);
      } else {
        eduInputDisabled, eduInputDisabledPid := false, EP.NO_PID;
        RequestAll();
      }
      return RetOk;
    }

    /** Switches every live device off. */
    method DisableEnabled(reacting: set<int32>)
      modifies this`inputDevice, deviceStateMgr
      ensures System() == EP.Disabled(old(System()), EP.EnabledIds(old(inputDevice)), reacting)
    {
      ghost var before := System();
      ghost var done: set<int32> := {};
      var rest := inputDevice.Keys;
      EP.DisabledNone(before, reacting);
      while rest != {}
        invariant rest <= before.Devices().Keys && inputDevice.Keys == before.Devices().Keys
        invariant done == EP.EnabledIds(before.Devices()) - rest
        invariant System() == EP.Disabled(before, done, reacting)
        decreases rest
      {
        var id :| id in rest;
        if inputDevice[id].enable {
          SwitchOff(id, reacting);
          EP.DisabledOneMore(before, done, id, reacting);
          done := done + {id};
        }
        rest := rest - {id};
      }
      assert done == EP.EnabledIds(before.Devices());
    }

    method RecoverInputEnabled(pid: int32)
      modifies this`inputDevice, this`eduInputDisabled, this`eduInputDisabledPid, deviceStateMgr
      ensures System() == EP.InputRecovered(old(System()), pid)
    {
      if pid != eduInputDisabledPid {
        return;
      }
      eduInputDisabled, eduInputDisabledPid := false, EP.NO_PID;
      RequestAll();
    }

    method RecoverInputDeviceEnabled(pid: int32)
      modifies this`inputDevice, this`recoverList, deviceStateMgr
      ensures System() == EP.DevicesRecovered(old(System()), pid)
    {
      ghost var before := System();
      var recovered: set<int32> := {};
      var rest := recoverList.Keys;
      RecoveringNone(before);
      while rest != {}
        invariant rest <= recoverList.Keys && recoverList == before.recoverList
        invariant inputDevice.Keys == before.Devices().Keys
        invariant recovered == EP.RecoverableIds(before, pid) - rest
        invariant System() == Recovering(before, recovered)
        decreases rest
      {
        var id :| id in rest;
        if recoverList[id] == pid && id in inputDevice {
          SetInputEnable(id, true);
          RequestEnable(id);
          RecoveringOneMore(before, recovered, id);
          recovered := recovered + {id};
        }
        rest := rest - {id};
      }
      assert recovered == EP.RecoverableIds(before, pid);
      recoverList := recoverList - recovered;
    }

    method OnSessionLost(pid: int32)
      requires Valid()
      modifies this`inputDevice, this`recoverList, this`eduInputDisabled, this`eduInputDisabledPid, deviceStateMgr
      ensures System() == EP.Next(old(System()), EP.SessionLost(pid)) && Valid()
    {
      EP.NextKeepsCoherent(System(), EP.SessionLost(pid));
      RecoverInputEnabled(pid);
      RecoverInputDeviceEnabled(pid);
    }

    method SwitchRemote(enable: bool)
      modifies this`inputDevice
      ensures inputDevice == Switched(old(inputDevice), old(inputDevice).Keys, enable)
    {
      ghost var before := inputDevice;
      var rest := inputDevice.Keys;
      SwitchedNone(before, enable);
      while rest != {}
        invariant rest <= before.Keys && inputDevice == Switched(before, before.Keys - rest, enable)
        decreases rest
      {
        var id :| id in rest;
        SwitchedOneMore(before, before.Keys - rest, id, enable);
        if inputDevice[id].isRemote && inputDevice[id].enable != enable {
          inputDevice := inputDevice[id := inputDevice[id].(enable := enable)];
        }
        rest := rest - {id};
        assert before.Keys - rest == (before.Keys - (rest + {id})) + {id};
      }
      assert before.Keys - rest == before.Keys;
    }

    method OnEnableInputDevice(enable: bool)
      requires Valid()
      modifies this`inputDevice
      ensures System() == EP.Next(old(System()), EP.EnableRemote(enable)) && Valid()
    {
      EP.NextKeepsCoherent(System(), EP.EnableRemote(enable));
      SwitchRemote(enable);
      SwitchedAll(old(System()), enable);
    }

    /** A raw event reaches the pending-enable store, which may run the stored callback. */
    method HandleStateEvent(handle: nat, event: DS.RawEvent)
      requires Valid()
      modifies this`inputDevice, deviceStateMgr
      ensures System() == EP.Next(old(System()), EP.Raw(handle, event)) && Valid()
    {
      EP.NextKeepsCoherent(System(), EP.Raw(handle, event));
      var deviceId := FindInputDeviceId(handle);
      assert EP.StoreMatches(System(), deviceId);
      if deviceId < 0 {
        return;
      }
      var fired := deviceStateMgr.HandleEvent(deviceId, event);
      if fired.Some? {
        var _ := EnableInputDevice(deviceId);
      }
    }

    // ----- Virtual devices -----

    method GenerateVirtualDeviceId() returns (id: Option<int32>)
      requires Valid()
      modifies this`virtualDeviceId
      ensures (virtualDeviceId, id) == VI.Generated(old(Virtuals()))
    {
      if |virtualInputDevices| >= VI.MAX_VIRTUAL_INPUT_DEVICE_NUM {
        return None;
      }
      if virtualDeviceId == INT32_MAX {
        virtualDeviceId := VI.MIN_VIRTUAL_INPUT_DEVICE_ID;
      }
      var deviceId := virtualDeviceId;
      virtualDeviceId := virtualDeviceId + 1;
      if deviceId in virtualInputDevices {
        return None;
      }
      return Some(deviceId);
    }

    method CheckDuplicateInputDevice(name: string) returns (duplicate: bool)
      ensures duplicate <==> VI.NameTaken(Virtuals(), name)
    {
      var rest := virtualInputDevices.Keys;
      while rest != {}
        invariant rest <= virtualInputDevices.Keys
        invariant forall id :: id in virtualInputDevices && virtualInputDevices[id] == name ==> id in rest
        decreases rest
      {
        var id :| id in rest;
        if virtualInputDevices[id] == name {
          return true;
        }
        rest := rest - {id};
      }
      return false;
    }

    method AddVirtualInputDevice(name: string) returns (id: Option<int32>)
      requires Valid()
      modifies this`virtualInputDevices, this`virtualDeviceId
      ensures (Virtuals(), id) == VI.Added(old(Virtuals()), name) && Valid()
    {
      VI.AddedKeepsSafe(Virtuals(), name);
      var duplicate := CheckDuplicateInputDevice(name);
      if duplicate {
        return None;
      }
      id := GenerateVirtualDeviceId();
      if id.Some? {
        virtualInputDevices := virtualInputDevices[id.value := name];
      }
    }

    method RemoveVirtualInputDevice(deviceId: int32) returns (status: Status)
      requires Valid()
      modifies this`virtualInputDevices
      ensures Virtuals() == VI.Removed(old(Virtuals()), deviceId) && Valid()
      ensures status == if deviceId in old(virtualInputDevices) then RetOk else RetErr
    {
      VI.RemovedKeepsSafe(Virtuals(), deviceId);
      if deviceId !in virtualInputDevices {
        assert virtualInputDevices == virtualInputDevices - {deviceId};
        return RetErr;
      }
      virtualInputDevices := virtualInputDevices - {deviceId};
      return RetOk;
    }
  }
}
