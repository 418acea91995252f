/**
 The device enable protocol: who decides whether an input device is live.

 A device is switched by the user (`inputEnable`), by the global edu switch and the
 process owning it, by plugins, and by recovery when a session dies. An enable asked for
 while something is still held is stored and looked at again when it is let go. `Next`
 is one step of the device manager together with the pending-enable store.
 */
module EnableProtocol {
  import opened Basics
  import opened PhysicalIndex
  import PI = PhysicalIndex
  import DS = DeviceStates

  /** The only callback the device manager hands to the store: call EnableInputDevice. */
  datatype Callback = EnableInputDevice

  type States = DS.States<Callback>

  const NO_PID: int32 := -1
  const INVALID_DEVICE_ID: int32 := -1

  datatype System = System(
    index: Index,
    eduInputDisabled: bool,
    eduInputDisabledPid: int32,
    recoverList: map<int32, int32>,
    states: States)
  {
    function Devices(): Devices {
      index.devices
    }

    function WithDevices(devices: Devices): System {
      this.(index := index.(devices := devices))
    }
  }

  const INITIAL := System(Index(map[], map[]), false, NO_PID, map[], map[])

  // ----- Building blocks -----

  predicate Enabling(info: DeviceInfo, eduInputDisabled: bool) {
    !eduInputDisabled && info.inputEnable
  }

  /** What the stored callback does: enable the device unless a switch is off by now. */
  function Reenabled(sys: System, id: int32): System {
    if id in sys.Devices() && Enabling(sys.Devices()[id], sys.eduInputDisabled)
    then sys.WithDevices(sys.Devices()[id := sys.Devices()[id].(enable := true)])
    else sys
  }

  predicate HoldsNothing(states: States, id: int32) {
    !DS.StateOf(states, id).HaveActiveOperations()
  }

  /** Enables asked for: at once where nothing is held, stored where something is. */
  function Requested(sys: System, ids: set<int32>): System {
    var devices := map id | id in sys.Devices() ::
      var info := sys.Devices()[id];
      if id in ids && HoldsNothing(sys.states, id) && Enabling(info, sys.eduInputDisabled) then info.(enable := true)
      else info;
    var states := map id | id in sys.states && !(id in ids && HoldsNothing(sys.states, id)) ::
      if id in ids then sys.states[id].(enabled := true, pendingEnableCallback := Some(EnableInputDevice))
      else sys.states[id];
    sys.WithDevices(devices).(states := states)
  }

  /** Devices switched off; the observers of those in `reacting` tell the store. */
  function Disabled(sys: System, ids: set<int32>, reacting: set<int32>): System {
    var devices := map id | id in sys.Devices() ::
      if id in ids then sys.Devices()[id].(enable := false) else sys.Devices()[id];
    var states := map id | id in sys.states ::
      if id in ids && id in reacting then sys.states[id].(enabled := false, pendingEnableCallback := None)
      else sys.states[id];
    sys.WithDevices(devices).(states := states)
  }

  function WithInputEnable(sys: System, ids: set<int32>, on: bool): System {
    sys.WithDevices(map id | id in sys.Devices() ::
      if id in ids then sys.Devices()[id].(inputEnable := on) else sys.Devices()[id])
  }

  function EnabledIds(devices: Devices): set<int32> {
    set id | id in devices && devices[id].enable
  }

  // ----- Steps -----

  function SetEnabled(sys: System, id: int32, enable: bool, pid: int32, reacting: set<int32>): System {
    if id !in sys.Devices() then sys
    else
      var switched := WithInputEnable(sys, {id}, enable);
      if enable then Requested(switched, {id})
      else if !sys.Devices()[id].enable then switched
      else
        var off := Disabled(switched, {id}, reacting);
        off.(recoverList := if id in off.recoverList then off.recoverList else off.recoverList[id := pid])
  }

  function PluginEnabled(sys: System, id: int32): System {
    if id !in sys.Devices() then sys else Requested(WithInputEnable(sys, {id}, true), {id})
  }

  function PluginDisabled(sys: System, id: int32, reacting: set<int32>): System {
    if id !in sys.Devices() || !sys.Devices()[id].inputEnable then sys
    else Disabled(WithInputEnable(sys, {id}, false), {id}, reacting)
  }

  /** The edu switch is held by another process than `pid`. */
  predicate HeldByOther(sys: System, pid: int32) {
    sys.eduInputDisabled && sys.eduInputDisabledPid != NO_PID && sys.eduInputDisabledPid != pid
  }

  function EduDispatched(sys: System, disabled: bool, pid: int32, reacting: set<int32>): System {
    if sys.eduInputDisabled == disabled || HeldByOther(sys, pid) then sys
    else if disabled then
      Disabled(sys.(eduInputDisabled := true, eduInputDisabledPid := pid), EnabledIds(sys.Devices()), reacting)
    else
      Requested(sys.(eduInputDisabled := false, eduInputDisabledPid := NO_PID), sys.Devices().Keys)
  }

  function InputRecovered(sys: System, pid: int32): System {
    if pid != sys.eduInputDisabledPid then sys
    else Requested(sys.(eduInputDisabled := false, eduInputDisabledPid := NO_PID), sys.Devices().Keys)
  }

  function RecoverableIds(sys: System, pid: int32): set<int32> {
    set id | id in sys.recoverList && sys.recoverList[id] == pid && id in sys.Devices()
  }

  function DevicesRecovered(sys: System, pid: int32): System {
    var ids := RecoverableIds(sys, pid);
    Requested(WithInputEnable(sys, ids, true), ids).(recoverList := sys.recoverList - ids)
  }

  function SessionGone(sys: System, pid: int32): System {
    DevicesRecovered(InputRecovered(sys, pid), pid)
  }

  function RemoteSwitched(sys: System, enable: bool): System {
    sys.WithDevices(map id | id in sys.Devices() ::
      if sys.Devices()[id].isRemote then sys.Devices()[id].(enable := enable) else sys.Devices()[id])
  }

  ghost function RawHandled(sys: System, handle: nat, event: DS.RawEvent): System {
    match FindId(sys.Devices(), handle)
    case None => sys
    case Some(id) =>
      var outcome := DS.Step(sys.states, DS.HandleRaw(id, event));
      var handled := sys.(states := outcome.states);
      if outcome.fired.Some? then Reenabled(handled, id) else handled
  }

  ghost function DeviceAdded(sys: System, raw: RawDevice): System {
    sys.(index := Plugged(sys.index, raw, sys.eduInputDisabled))
  }

  ghost function DeviceRemoved(sys: System, handle: nat): System {
    var found := FindId(sys.Devices(), handle);
    var id := if found.Some? then found.value else INVALID_DEVICE_ID;
    sys.(index := Unplugged(sys.index, handle), states := DS.Step(sys.states, DS.DeviceRemoved(id)).states)
  }

  datatype Step =
    | SetInputDeviceEnabled(id: int32, enable: bool, pid: int32, reacting: set<int32>)
    | EnableForPlugin(id: int32)
    | DisableForPlugin(id: int32, reacting: set<int32>)
    | DisableInputEventDispatch(disabled: bool, pid: int32, reacting: set<int32>)
    | SessionLost(pid: int32)
    | EnableRemote(enable: bool)
    | Raw(handle: nat, event: DS.RawEvent)
    | RecordOperations(id: int32, seed: DS.Seed)
    | Add(raw: RawDevice)
    | Remove(handle: nat)

  ghost function Next(sys: System, step: Step): System {
    match step
    case SetInputDeviceEnabled(id, enable, pid, reacting) => SetEnabled(sys, id, enable, pid, reacting)
    case EnableForPlugin(id) => PluginEnabled(sys, id)
    case DisableForPlugin(id, reacting) => PluginDisabled(sys, id, reacting)
    case DisableInputEventDispatch(disabled, pid, reacting) => EduDispatched(sys, disabled, pid, reacting)
    case SessionLost(pid) => SessionGone(sys, pid)
    case EnableRemote(enable) => RemoteSwitched(sys, enable)
    case Raw(handle, event) => RawHandled(sys, handle, event)
    case RecordOperations(id, seed) => sys.(states := DS.Step(sys.states, DS.AddSeed(id, seed)).states)
    case Add(raw) => DeviceAdded(sys, raw)
    case Remove(handle) => DeviceRemoved(sys, handle)
  }

  ghost function Run(steps: seq<Step>): System {
    if steps == [] then INITIAL else Next(Run(steps[..|steps| - 1]), steps[|steps| - 1])
  }

  ghost predicate Allowed(sys: System, step: Step) {
    step.Add? ==> Admissible(sys.index, Plug(step.raw, sys.eduInputDisabled))
  }

  ghost predicate Legal(steps: seq<Step>) {
    forall i :: 0 <= i < |steps| ==> Allowed(Run(steps[..i]), steps[i])
  }

  // ----- The invariant -----

  /** Both switches are on. */
  ghost predicate Wanted(sys: System, id: int32)
    requires id in sys.Devices()
  {
    Enabling(sys.Devices()[id], sys.eduInputDisabled)
  }

  ghost predicate Waiting(sys: System, id: int32) {
    DS.PendingIn(sys.states, id).Some?
  }

  /** Live only if both switches are on; and live if they are and no enable is waiting. */
  ghost predicate Settled(sys: System, id: int32)
    requires id in sys.Devices()
  {
    && (sys.Devices()[id].enable ==> Wanted(sys, id))
    && (!Waiting(sys, id) ==> (sys.Devices()[id].enable <==> Wanted(sys, id)))
  }

  ghost predicate LocalSettled(sys: System, id: int32) {
    id in sys.Devices() && !sys.Devices()[id].isRemote ==> Settled(sys, id)
  }

  /** The store waits only for devices there are, and counts a device as enabled exactly while it waits. */
  ghost predicate StoreMatches(sys: System, id: int32) {
    && (Waiting(sys, id) ==> id in sys.Devices())
    && (DS.StateOf(sys.states, id).enabled <==> Waiting(sys, id))
    && (id in sys.Devices() ==> 0 <= id)
  }

  ghost predicate FramesMatch(sys: System) {
    && IndexInvariant(sys.index)
    && (forall id :: StoreMatches(sys, id))
    && (!sys.eduInputDisabled ==> sys.eduInputDisabledPid == NO_PID)
  }

  ghost predicate Coherent(sys: System) {
    FramesMatch(sys) && forall id :: LocalSettled(sys, id)
  }

  // ----- Every step keeps it -----

  ghost predicate SameHardware(before: Devices, after: Devices) {
    && before.Keys == after.Keys
    && forall id :: id in before ==>
         && before[id].origin == after[id].origin
         && before[id].isRemote == after[id].isRemote
         && before[id].isPointerDevice == after[id].isPointerDevice
         && before[id].physicalId == after[id].physicalId
  }

  lemma SwitchingKeepsIndex(index: Index, devices: Devices)
    requires IndexInvariant(index) && SameHardware(index.devices, devices)
    ensures IndexInvariant(index.(devices := devices))
  {
    var after := index.(devices := devices);
    forall p, id ensures Member(after.groups, p, id) <==> Names(after.devices, p, id) {
      assert Names(index.devices, p, id) <==> Names(after.devices, p, id);
    }
  }

  ghost predicate LocalSafe(sys: System, id: int32) {
    id in sys.Devices() && !sys.Devices()[id].isRemote && sys.Devices()[id].enable ==> Wanted(sys, id)
  }

  ghost predicate LocalUnwanted(sys: System, id: int32) {
    id in sys.Devices() && !sys.Devices()[id].isRemote ==> !Wanted(sys, id)
  }

  lemma RequestedAt(sys: System, ids: set<int32>, id: int32)
    requires StoreMatches(sys, id) && (id in ids ==> id in sys.Devices())
    requires if id in ids then LocalSafe(sys, id) else LocalSettled(sys, id)
    ensures StoreMatches(Requested(sys, ids), id) && LocalSettled(Requested(sys, ids), id)
  {
    var after := Requested(sys, ids);
    if id in ids && !HoldsNothing(sys.states, id) {
      assert DS.StateOf(after.states, id)
          == DS.StateOf(sys.states, id).(enabled := true, pendingEnableCallback := Some(EnableInputDevice));
    } else if id in ids {
      assert DS.StateOf(after.states, id) == DS.Fresh();
    } else {
      assert DS.StateOf(after.states, id) == DS.StateOf(sys.states, id);
    }
  }

  lemma RequestedKeeps(sys: System, ids: set<int32>)
    requires FramesMatch(sys) && ids <= sys.Devices().Keys
    requires forall id :: if id in ids then LocalSafe(sys, id) else LocalSettled(sys, id)
    ensures Coherent(Requested(sys, ids))
  {
    var after := Requested(sys, ids);
    SwitchingKeepsIndex(sys.index, after.Devices());
    forall id ensures StoreMatches(after, id) && LocalSettled(after, id) {
      assert StoreMatches(sys, id);
      assert if id in ids then LocalSafe(sys, id) else LocalSettled(sys, id);
      RequestedAt(sys, ids, id);
    }
  }

  lemma DisabledKeeps(sys: System, ids: set<int32>, reacting: set<int32>)
    requires FramesMatch(sys)
    requires forall id :: if id in ids then LocalUnwanted(sys, id) else LocalSettled(sys, id)
    ensures Coherent(Disabled(sys, ids, reacting))
  {
    var after := Disabled(sys, ids, reacting);
    SwitchingKeepsIndex(sys.index, after.Devices());
    forall id ensures StoreMatches(after, id) && LocalSettled(after, id) {
      assert StoreMatches(sys, id);
      assert if id in ids then LocalUnwanted(sys, id) else LocalSettled(sys, id);
    }
  }

  lemma SwitchedKeeps(sys: System, ids: set<int32>, on: bool)
    requires Coherent(sys)
    ensures var after := WithInputEnable(sys, ids, on);
            && FramesMatch(after)
            && (forall id :: LocalSettled(after, id) || id in ids)
            && (on ==> forall id :: LocalSafe(after, id))
            && (!on ==> forall id :: LocalUnwanted(after, id) || id !in ids)
  {
    var after := WithInputEnable(sys, ids, on);
    SwitchingKeepsIndex(sys.index, after.Devices());
    forall id
      ensures StoreMatches(after, id) && (LocalSettled(after, id) || id in ids)
      ensures on ==> LocalSafe(after, id)
      ensures !on ==> LocalUnwanted(after, id) || id !in ids
    {
      assert StoreMatches(sys, id) && LocalSettled(sys, id);
    }
  }

  /** Lifting the edu switch leaves every device safe to look at again. */
  lemma LiftedIsSafe(sys: System, id: int32)
    requires LocalSettled(sys, id)
    ensures LocalSafe(sys.(eduInputDisabled := false, eduInputDisabledPid := NO_PID), id)
  {
  }

  lemma LiftedKeeps(sys: System)
    requires Coherent(sys)
    ensures Coherent(Requested(sys.(eduInputDisabled := false, eduInputDisabledPid := NO_PID), sys.Devices().Keys))
  {
    var lifted := sys.(eduInputDisabled := false, eduInputDisabledPid := NO_PID);
    forall id
      ensures StoreMatches(lifted, id)
      ensures if id in sys.Devices().Keys then LocalSafe(lifted, id) else LocalSettled(lifted, id)
    {
      assert StoreMatches(sys, id) && LocalSettled(sys, id);
      LiftedIsSafe(sys, id);
    }
    RequestedKeeps(lifted, sys.Devices().Keys);
  }

  lemma SetEnabledKeeps(sys: System, id: int32, enable: bool, pid: int32, reacting: set<int32>)
    requires Coherent(sys)
    ensures Coherent(SetEnabled(sys, id, enable, pid, reacting))
  {
    if id in sys.Devices() {
      var switched := WithInputEnable(sys, {id}, enable);
      SwitchedKeeps(sys, {id}, enable);
      if enable {
        RequestedKeeps(switched, {id});
      } else if sys.Devices()[id].enable {
        DisabledKeeps(switched, {id}, reacting);
        var off := Disabled(switched, {id}, reacting);
        RecoverListIsFree(off, SetEnabled(sys, id, enable, pid, reacting).recoverList);
      } else {
        assert LocalSettled(sys, id) && LocalUnwanted(switched, id);
      }
    }
  }

  lemma RecoverListIsFree(sys: System, recoverList: map<int32, int32>)
    requires Coherent(sys)
    ensures Coherent(sys.(recoverList := recoverList))
  {
    var after := sys.(recoverList := recoverList);
    forall id ensures StoreMatches(after, id) && LocalSettled(after, id) {
      assert StoreMatches(sys, id) && LocalSettled(sys, id);
    }
  }

  lemma PluginEnabledKeeps(sys: System, id: int32)
    requires Coherent(sys)
    ensures Coherent(PluginEnabled(sys, id))
  {
    if id in sys.Devices() {
      SwitchedKeeps(sys, {id}, true);
      RequestedKeeps(WithInputEnable(sys, {id}, true), {id});
    }
  }

  lemma PluginDisabledKeeps(sys: System, id: int32, reacting: set<int32>)
    requires Coherent(sys)
    ensures Coherent(PluginDisabled(sys, id, reacting))
  {
    if id in sys.Devices() {
      SwitchedKeeps(sys, {id}, false);
      DisabledKeeps(WithInputEnable(sys, {id}, false), {id}, reacting);
    }
  }

  lemma EduDispatchedKeeps(sys: System, disabled: bool, pid: int32, reacting: set<int32>)
    requires Coherent(sys)
    ensures Coherent(EduDispatched(sys, disabled, pid, reacting))
  {
    if sys.eduInputDisabled != disabled && !HeldByOther(sys, pid) {
      if disabled {
        var closed := sys.(eduInputDisabled := true, eduInputDisabledPid := pid);
        var ids := EnabledIds(sys.Devices());
        forall id
          ensures StoreMatches(closed, id)
          ensures if id in ids then LocalUnwanted(closed, id) else LocalSettled(closed, id)
        {
          assert StoreMatches(sys, id) && LocalSettled(sys, id);
        }
        DisabledKeeps(closed, ids, reacting);
      } else {
        LiftedKeeps(sys);
      }
    }
  }

  lemma DevicesRecoveredKeeps(sys: System, pid: int32)
    requires Coherent(sys)
    ensures Coherent(DevicesRecovered(sys, pid))
  {
    var ids := RecoverableIds(sys, pid);
    SwitchedKeeps(sys, ids, true);
    RequestedKeeps(WithInputEnable(sys, ids, true), ids);
    RecoverListIsFree(Requested(WithInputEnable(sys, ids, true), ids), sys.recoverList - ids);
  }

  lemma SessionGoneKeeps(sys: System, pid: int32)
    requires Coherent(sys)
    ensures Coherent(SessionGone(sys, pid))
  {
    LiftedKeeps(sys);
    DevicesRecoveredKeeps(InputRecovered(sys, pid), pid);
  }

  lemma RemoteSwitchedKeeps(sys: System, enable: bool)
    requires Coherent(sys)
    ensures Coherent(RemoteSwitched(sys, enable))
  {
    var after := RemoteSwitched(sys, enable);
    SwitchingKeepsIndex(sys.index, after.Devices());
    forall id ensures StoreMatches(after, id) && LocalSettled(after, id) {
      assert StoreMatches(sys, id) && LocalSettled(sys, id);
    }
  }

  lemma ReenabledKeepsIndex(sys: System, id: int32)
    requires IndexInvariant(sys.index)
    ensures IndexInvariant(Reenabled(sys, id).index)
  {
    SwitchingKeepsIndex(sys.index, Reenabled(sys, id).Devices());
  }

  lemma RawHandledAt(sys: System, d: int32, event: DS.RawEvent, id: int32)
    requires StoreMatches(sys, id) && LocalSettled(sys, id) && d in sys.Devices()
    ensures var outcome := DS.Step(sys.states, DS.HandleRaw(d, event));
            var handled := sys.(states := outcome.states);
            var after := if outcome.fired.Some? then Reenabled(handled, d) else handled;
            StoreMatches(after, id) && LocalSettled(after, id)
  {
    DS.EventKeepsPending(DS.StateOf(sys.states, d), event);
  }

  lemma RawHandledKeeps(sys: System, handle: nat, event: DS.RawEvent)
    requires Coherent(sys)
    ensures Coherent(RawHandled(sys, handle, event))
  {
    var after := RawHandled(sys, handle, event);
    if d :| FindId(sys.Devices(), handle) == Some(d) {
      var handled := sys.(states := DS.Step(sys.states, DS.HandleRaw(d, event)).states);
      ReenabledKeepsIndex(handled, d);
      forall id ensures StoreMatches(after, id) && LocalSettled(after, id) {
        assert StoreMatches(sys, id) && LocalSettled(sys, id);
        RawHandledAt(sys, d, event, id);
      }
    }
  }

  lemma RecordedKeeps(sys: System, device: int32, seed: DS.Seed)
    requires Coherent(sys)
    ensures Coherent(sys.(states := DS.Step(sys.states, DS.AddSeed(device, seed)).states))
  {
    var after := sys.(states := DS.Step(sys.states, DS.AddSeed(device, seed)).states);
    forall id ensures StoreMatches(after, id) && LocalSettled(after, id) {
      assert StoreMatches(sys, id) && LocalSettled(sys, id);
    }
  }

  lemma TakenIsSettled(sys: System, raw: RawDevice, id: int32)
    requires Takes(sys.index, Plug(raw, sys.eduInputDisabled)) && StoreMatches(sys, id) && LocalSettled(sys, id)
    ensures StoreMatches(DeviceAdded(sys, raw), id) && LocalSettled(DeviceAdded(sys, raw), id)
  {
  }

  /** An event number given to a new device while another has it does harm only to the groups. */
  lemma DeviceAddedKeeps(sys: System, raw: RawDevice)
    requires Coherent(sys)
    ensures Coherent(DeviceAdded(sys, raw)) <==> Admissible(sys.index, Plug(raw, sys.eduInputDisabled))
  {
    var after := DeviceAdded(sys, raw);
    StepKeepsInvariant(sys.index, Plug(raw, sys.eduInputDisabled));
    if Takes(sys.index, Plug(raw, sys.eduInputDisabled)) {
      forall id ensures StoreMatches(after, id) && LocalSettled(after, id) {
        assert StoreMatches(sys, id) && LocalSettled(sys, id);
        TakenIsSettled(sys, raw, id);
      }
    }
  }

  lemma DeviceRemovedKeeps(sys: System, handle: nat)
    requires Coherent(sys)
    ensures Coherent(DeviceRemoved(sys, handle))
  {
    var after := DeviceRemoved(sys, handle);
    if d :| FindId(sys.Devices(), handle) == Some(d) {
      RemovedKeepsInvariant(sys.index, d);
    }
    forall id ensures StoreMatches(after, id) && LocalSettled(after, id) {
      assert StoreMatches(sys, id) && LocalSettled(sys, id);
    }
  }

  /** A step keeps coherence, except that of adding a device under the event number of one in another group. */
  lemma NextKeepsCoherent(sys: System, step: Step)
    requires Coherent(sys)
    ensures Coherent(Next(sys, step)) <==> Allowed(sys, step)
  {
    match step
    case SetInputDeviceEnabled(id, enable, pid, reacting) => SetEnabledKeeps(sys, id, enable, pid, reacting);
    case EnableForPlugin(id) => PluginEnabledKeeps(sys, id);
    case DisableForPlugin(id, reacting) => PluginDisabledKeeps(sys, id, reacting);
    case DisableInputEventDispatch(disabled, pid, reacting) => EduDispatchedKeeps(sys, disabled, pid, reacting);
    case SessionLost(pid) => SessionGoneKeeps(sys, pid);
    case EnableRemote(enable) => RemoteSwitchedKeeps(sys, enable);
    case Raw(handle, event) => RawHandledKeeps(sys, handle, event);
    case RecordOperations(id, seed) => RecordedKeeps(sys, id, seed);
    case Add(raw) => DeviceAddedKeeps(sys, raw);
    case Remove(handle) => DeviceRemovedKeeps(sys, handle);
  }

  lemma RunSnoc(steps: seq<Step>, step: Step)
    ensures Run(steps + [step]) == Next(Run(steps), step)
  {
    assert (steps + [step])[..|steps|] == steps;
  }

  lemma OneMoreIsCoherent(steps: seq<Step>, step: Step)
    requires Coherent(Run(steps)) && Allowed(Run(steps), step)
    ensures Coherent(Run(steps + [step]))
  {
    NextKeepsCoherent(Run(steps), step);
    RunSnoc(steps, step);
  }

  lemma InitialIsCoherent()
    ensures Coherent(INITIAL)
  {
  }

  lemma LegalPrefix(steps: seq<Step>)
    requires Legal(steps) && steps != []
    ensures Legal(steps[..|steps| - 1]) && Allowed(Run(steps[..|steps| - 1]), steps[|steps| - 1])
  {
    var before := steps[..|steps| - 1];
    forall i | 0 <= i < |before| ensures Allowed(Run(before[..i]), before[i]) {
      assert before[..i] == steps[..i];
    }
  }

  /** Every reachable state is coherent. */
  lemma {:induction false} RunIsCoherent(steps: seq<Step>)
    requires Legal(steps)
    ensures Coherent(Run(steps))
  {
    if steps == [] {
      InitialIsCoherent();
    } else {
      var before := steps[..|steps| - 1];
      LegalPrefix(steps);
      RunIsCoherent(before);
      OneMoreIsCoherent(before, steps[|before|]);
      assert before + [steps[|before|]] == steps;
    }
  }

  /**
   In every reachable state a local device is live only if the user switch is on and the
   edu switch is not closed; and when no enable is stored for it, it is live exactly then.
   */
  lemma {:induction false} LiveExactlyWhenAllowed(steps: seq<Step>, id: int32)
    requires Legal(steps)
    requires id in Run(steps).Devices() && !Run(steps).Devices()[id].isRemote
    ensures var sys := Run(steps);
            var info := sys.Devices()[id];
            && (info.enable ==> info.inputEnable && !sys.eduInputDisabled)
            && (DS.PendingIn(sys.states, id).None? ==> (info.enable <==> info.inputEnable && !sys.eduInputDisabled))
  {
    RunIsCoherent(steps);
    assert LocalSettled(Run(steps), id);
  }

  // ----- One device at a time is as good as all at once -----

  lemma RequestedOneMore(sys: System, ids: set<int32>, id: int32)
    ensures Requested(Requested(sys, ids), {id}) == Requested(sys, ids + {id})
  {
    var one, all := Requested(Requested(sys, ids), {id}), Requested(sys, ids + {id});
    assert one.index.devices == all.index.devices;
    assert one.states == all.states;
  }

  lemma RequestedNone(sys: System)
    ensures Requested(sys, {}) == sys
  {
    assert Requested(sys, {}).index.devices == sys.index.devices;
    assert Requested(sys, {}).states == sys.states;
  }

  lemma DisabledOneMore(sys: System, ids: set<int32>, id: int32, reacting: set<int32>)
    ensures Disabled(Disabled(sys, ids, reacting), {id}, reacting) == Disabled(sys, ids + {id}, reacting)
  {
    var one, all := Disabled(Disabled(sys, ids, reacting), {id}, reacting), Disabled(sys, ids + {id}, reacting);
    assert one.index.devices == all.index.devices;
    assert one.states == all.states;
  }

  lemma DisabledNone(sys: System, reacting: set<int32>)
    ensures Disabled(sys, {}, reacting) == sys
  {
    assert Disabled(sys, {}, reacting).index.devices == sys.index.devices;
    assert Disabled(sys, {}, reacting).states == sys.states;
  }

  lemma DisabledReacting(sys: System, ids: set<int32>, reacting: set<int32>)
    ensures Disabled(sys, ids, reacting).states == Disabled(sys, ids * reacting, reacting).states
  {
  }

  // ----- The calls a run makes to the store -----

  type StoreCall = DS.Call<Callback>

  function SetOf(s: seq<int32>): set<int32> {
    set x | x in s
  }

  /** The ids in some order; which one makes no difference to the store. */
  ghost function SeqOf(ids: set<int32>): (s: seq<int32>)
    ensures SetOf(s) == ids
    decreases |ids|
  {
    if |ids| == 0 then []
    else
      var x :| x in ids;
      var rest := SeqOf(ids - {x});
      assert SetOf(rest + [x]) == SetOf(rest) + {x};
      rest + [x]
  }

  function EnableCalls(s: seq<int32>): seq<StoreCall> {
    seq(|s|, i requires 0 <= i < |s| => DS.EnableDevice(s[i], Some(EnableInputDevice)))
  }

  function DisableCalls(s: seq<int32>): seq<StoreCall> {
    seq(|s|, i requires 0 <= i < |s| => DS.DisableDevice(s[i]))
  }

  /** The calls a step makes to the store. */
  ghost function StepCalls(sys: System, step: Step): seq<StoreCall> {
    match step
    case SetInputDeviceEnabled(id, enable, _, reacting) =>
      if id !in sys.Devices() then []
      else if enable then EnableCalls([id])
      else if sys.Devices()[id].enable && id in reacting then DisableCalls([id])
      else []
    case EnableForPlugin(id) => if id in sys.Devices() then EnableCalls([id]) else []
    case DisableForPlugin(id, reacting) =>
      if id in sys.Devices() && sys.Devices()[id].inputEnable && id in reacting then DisableCalls([id]) else []
    case DisableInputEventDispatch(disabled, pid, reacting) =>
      if sys.eduInputDisabled == disabled || HeldByOther(sys, pid) then []
      else if disabled then DisableCalls(SeqOf(EnabledIds(sys.Devices()) * reacting))
      else EnableCalls(SeqOf(sys.Devices().Keys))
    case SessionLost(pid) =>
      (if pid == sys.eduInputDisabledPid then EnableCalls(SeqOf(sys.Devices().Keys)) else [])
      + EnableCalls(SeqOf(RecoverableIds(InputRecovered(sys, pid), pid)))
    case EnableRemote(_) => []
    case Raw(handle, event) =>
      match FindId(sys.Devices(), handle) {
        case None => []
        case Some(id) => [DS.HandleRaw(id, event)]
      }
    case RecordOperations(id, seed) => [DS.AddSeed(id, seed)]
    case Add(_) => []
    case Remove(handle) =>
      var found := FindId(sys.Devices(), handle);
      [DS.DeviceRemoved(if found.Some? then found.value else INVALID_DEVICE_ID)]
  }

  ghost function Calls(steps: seq<Step>): seq<StoreCall> {
    if steps == [] then []
    else Calls(steps[..|steps| - 1]) + StepCalls(Run(steps[..|steps| - 1]), steps[|steps| - 1])
  }

  ghost function Performed(states: States, calls: seq<StoreCall>): States {
    if calls == [] then states
    else DS.Step(Performed(states, calls[..|calls| - 1]), calls[|calls| - 1]).states
  }

  lemma PerformedSnoc(states: States, calls: seq<StoreCall>, call: StoreCall)
    ensures Performed(states, calls + [call]) == DS.Step(Performed(states, calls), call).states
  {
    assert (calls + [call])[..|calls|] == calls;
  }

  lemma {:induction false} PerformedAppend(states: States, calls: seq<StoreCall>, more: seq<StoreCall>)
    ensures Performed(states, calls + more) == Performed(Performed(states, calls), more)
  {
    if more == [] {
      assert calls + more == calls;
    } else {
      var init, last := more[..|more| - 1], more[|more| - 1];
      PerformedAppend(states, calls, init);
      PerformedSnoc(states, calls + init, last);
      assert calls + more == (calls + init) + [last];
    }
  }

  lemma {:induction false} RunIsPerformed(calls: seq<StoreCall>)
    ensures DS.Run(calls) == Performed(map[], calls)
  {
    if calls != [] {
      RunIsPerformed(calls[..|calls| - 1]);
    }
  }

  lemma EnableOne(sys: System, id: int32)
    ensures Requested(sys, {id}).states == DS.Step(sys.states, DS.EnableDevice(id, Some(EnableInputDevice))).states
  {
  }

  lemma DisableOne(sys: System, id: int32, reacting: set<int32>)
    requires id in reacting
    ensures Disabled(sys, {id}, reacting).states == DS.Step(sys.states, DS.DisableDevice(id)).states
  {
  }

  lemma {:induction false} EnableAll(sys: System, s: seq<int32>)
    ensures Performed(sys.states, EnableCalls(s)) == Requested(sys, SetOf(s)).states
  {
    if s == [] {
      RequestedNone(sys);
    } else {
      var init, last := s[..|s| - 1], s[|s| - 1];
      EnableAll(sys, init);
      RequestedOneMore(sys, SetOf(init), last);
      EnableOne(Requested(sys, SetOf(init)), last);
      PerformedSnoc(sys.states, EnableCalls(init), DS.EnableDevice(last, Some(EnableInputDevice)));
      assert EnableCalls(s) == EnableCalls(init) + [DS.EnableDevice(last, Some(EnableInputDevice))];
      assert SetOf(s) == SetOf(init) + {last};
    }
  }

  lemma {:induction false} DisableAll(sys: System, s: seq<int32>, reacting: set<int32>)
    requires SetOf(s) <= reacting
    ensures Performed(sys.states, DisableCalls(s)) == Disabled(sys, SetOf(s), reacting).states
  {
    if s == [] {
      DisabledNone(sys, reacting);
    } else {
      var init, last := s[..|s| - 1], s[|s| - 1];
      DisableAll(sys, init, reacting);
      DisabledOneMore(sys, SetOf(init), last, reacting);
      DisableOne(Disabled(sys, SetOf(init), reacting), last, reacting);
      PerformedSnoc(sys.states, DisableCalls(init), DS.DisableDevice(last));
      assert DisableCalls(s) == DisableCalls(init) + [DS.DisableDevice(last)];
      assert SetOf(s) == SetOf(init) + {last};
    }
  }

  lemma NoneReacts(sys: System, id: int32, reacting: set<int32>)
    requires id !in reacting
    ensures Disabled(sys, {id}, reacting).states == sys.states
  {
  }

  lemma SwitchPerforms(sys: System, id: int32, reacting: set<int32>)
    ensures Requested(sys, {id}).states == Performed(sys.states, EnableCalls([id]))
    ensures Disabled(sys, {id}, reacting).states
         == Performed(sys.states, if id in reacting then DisableCalls([id]) else [])
  {
    EnableAll(sys, [id]);
    assert SetOf([id]) == {id};
    if id in reacting {
      DisableAll(sys, [id], reacting);
    } else {
      NoneReacts(sys, id, reacting);
    }
  }

  lemma DisabledPerforms(sys: System, ids: set<int32>, reacting: set<int32>)
    ensures Disabled(sys, ids, reacting).states == Performed(sys.states, DisableCalls(SeqOf(ids * reacting)))
  {
    DisabledReacting(sys, ids, reacting);
    DisableAll(sys, SeqOf(ids * reacting), reacting);
  }

  lemma EduPerforms(sys: System, disabled: bool, pid: int32, reacting: set<int32>)
    ensures EduDispatched(sys, disabled, pid, reacting).states
         == Performed(sys.states, StepCalls(sys, DisableInputEventDispatch(disabled, pid, reacting)))
  {
    DisabledPerforms(sys.(eduInputDisabled := true, eduInputDisabledPid := pid), EnabledIds(sys.Devices()), reacting);
    EnableAll(sys.(eduInputDisabled := false, eduInputDisabledPid := NO_PID), SeqOf(sys.Devices().Keys));
  }

  lemma SessionPerforms(sys: System, pid: int32)
    ensures SessionGone(sys, pid).states == Performed(sys.states, StepCalls(sys, SessionLost(pid)))
  {
    var on := sys.(eduInputDisabled := false, eduInputDisabledPid := NO_PID);
    var lifted := InputRecovered(sys, pid);
    var ids := RecoverableIds(lifted, pid);
    var first := if pid == sys.eduInputDisabledPid then EnableCalls(SeqOf(sys.Devices().Keys)) else [];
    EnableAll(on, SeqOf(sys.Devices().Keys));
    assert lifted.states == Performed(sys.states, first);
    EnableAll(WithInputEnable(lifted, ids, true), SeqOf(ids));
    PerformedAppend(sys.states, first, EnableCalls(SeqOf(ids)));
  }

  lemma SinglePerforms(states: States, call: StoreCall)
    ensures Performed(states, [call]) == DS.Step(states, call).states
  {
    PerformedSnoc(states, [], call);
    assert [] + [call] == [call];
  }

  /** A step changes the store exactly by the calls it makes to it. */
  lemma StepPerforms(sys: System, step: Step)
    ensures Next(sys, step).states == Performed(sys.states, StepCalls(sys, step))
  {
    match step {
    case SetInputDeviceEnabled(id, enable, _, reacting) =>
      SwitchPerforms(WithInputEnable(sys, {id}, enable), id, reacting);
    case EnableForPlugin(id) =>
      SwitchPerforms(WithInputEnable(sys, {id}, true), id, {});
    case DisableForPlugin(id, reacting) =>
      SwitchPerforms(WithInputEnable(sys, {id}, false), id, reacting);
    case DisableInputEventDispatch(disabled, pid, reacting) => EduPerforms(sys, disabled, pid, reacting);
    case SessionLost(pid) => SessionPerforms(sys, pid);
    case EnableRemote(_) =>
    case Raw(handle, event) =>
      if id :| FindId(sys.Devices(), handle) == Some(id) {
        SinglePerforms(sys.states, DS.HandleRaw(id, event));
      }
    case RecordOperations(id, seed) => SinglePerforms(sys.states, DS.AddSeed(id, seed));
    case Add(_) =>
    case Remove(handle) =>
      var found := FindId(sys.Devices(), handle);
      SinglePerforms(sys.states, DS.DeviceRemoved(if found.Some? then found.value else INVALID_DEVICE_ID));
    }
  }

  /** The store in a run of the system is the store after the calls the run makes to it, so its history theorems apply. */
  lemma {:induction false} StoreRunsCalls(steps: seq<Step>)
    ensures Run(steps).states == DS.Run(Calls(steps))
  {
    if steps != [] {
      var before, step := steps[..|steps| - 1], steps[|steps| - 1];
      var more := StepCalls(Run(before), step);
      StoreRunsCalls(before);
      StepPerforms(Run(before), step);
      RunIsPerformed(Calls(before));
      RunIsPerformed(Calls(before) + more);
      PerformedAppend(map[], Calls(before), more);
    }
  }

  lemma PendingByHistory(calls: seq<StoreCall>, id: int32)
    ensures DS.PendingIn(DS.Run(calls), id).Some? <==> DS.Pending(calls, id, EnableInputDevice)
  {
    var pending := DS.PendingIn(DS.Run(calls), id);
    DS.StoredIsPending(calls, id, EnableInputDevice);
    assert pending.Some? ==> pending.value == EnableInputDevice;
  }

  /** What waits, and what is held, can be read off the calls of the run. */
  lemma StoreByHistory(steps: seq<Step>, id: int32)
    ensures Waiting(Run(steps), id) <==> DS.Pending(Calls(steps), id, EnableInputDevice)
    ensures HoldsNothing(Run(steps).states, id) <==> DS.NothingOpen(Calls(steps), id)
    ensures forall item :: DS.StateOf(Run(steps).states, id).Holds(item) <==> DS.Open(Calls(steps), id, item)
  {
    StoreRunsCalls(steps);
    PendingByHistory(Calls(steps), id);
    DS.ActiveIffOpen(Calls(steps), id);
    forall item ensures DS.StateOf(Run(steps).states, id).Holds(item) <==> DS.Open(Calls(steps), id, item) {
      DS.StateHoldsOpen(Calls(steps), id, item);
    }
  }

  // ----- No enable is lost -----

  /** The seed clears a flag, and that flag is the one thing held. */
  ghost predicate TakesLast(state: DS.DeviceState<Callback>, seed: DS.Seed) {
    || (seed == DS.ProximityFlag(false) && forall item :: state.Holds(item) <==> item == DS.Proximity)
    || (seed == DS.AxisFlag(false) && forall item :: state.Holds(item) <==> item == DS.Axis)
  }

  /** An enable waits for one last flag, and a seed clears it. */
  ghost predicate Strands(sys: System, step: Step, id: int32) {
    step.RecordOperations? && step.id == id && Waiting(sys, id) && TakesLast(DS.StateOf(sys.states, id), step.seed)
  }

  ghost predicate HeldWhileWaiting(sys: System, id: int32) {
    Waiting(sys, id) ==> !HoldsNothing(sys.states, id)
  }

  lemma SeedKeepsHeld(state: DS.DeviceState<Callback>, seed: DS.Seed)
    requires state.HaveActiveOperations()
    ensures state.Seeded(seed).HaveActiveOperations() <==> !TakesLast(state, seed)
  {
    DS.ActiveIffHolds(state);
    DS.ActiveIffHolds(state.Seeded(seed));
    forall item
      ensures state.Seeded(seed).Holds(item)
         <==> || DS.SeedOpens(seed, item)
              || (state.Holds(item) && !(seed == DS.ProximityFlag(false) && item == DS.Proximity)
                  && !(seed == DS.AxisFlag(false) && item == DS.Axis))
    {
      DS.SeedHolds(state, seed, item);
    }
    if !state.Seeded(seed).HaveActiveOperations() {
      var item :| state.Holds(item);
      assert !state.Seeded(seed).Holds(item);
      assert forall other :: state.Holds(other) ==> !state.Seeded(seed).Holds(other);
    }
  }

  lemma RequestedKeepsHeld(sys: System, ids: set<int32>, id: int32)
    requires HeldWhileWaiting(sys, id)
    ensures HeldWhileWaiting(Requested(sys, ids), id)
  {
  }

  lemma DisabledKeepsHeld(sys: System, ids: set<int32>, reacting: set<int32>, id: int32)
    requires HeldWhileWaiting(sys, id)
    ensures HeldWhileWaiting(Disabled(sys, ids, reacting), id)
  {
  }

  lemma SwitchesKeepHeld(sys: System, device: int32, enable: bool, pid: int32, reacting: set<int32>, id: int32)
    requires HeldWhileWaiting(sys, id)
    ensures HeldWhileWaiting(SetEnabled(sys, device, enable, pid, reacting), id)
    ensures HeldWhileWaiting(PluginEnabled(sys, device), id)
    ensures HeldWhileWaiting(PluginDisabled(sys, device, reacting), id)
  {
    var on, off := WithInputEnable(sys, {device}, true), WithInputEnable(sys, {device}, false);
    RequestedKeepsHeld(on, {device}, id);
    DisabledKeepsHeld(off, {device}, reacting, id);
  }

  lemma SessionKeepsHeld(sys: System, pid: int32, id: int32)
    requires HeldWhileWaiting(sys, id)
    ensures HeldWhileWaiting(SessionGone(sys, pid), id)
  {
    RequestedKeepsHeld(sys.(eduInputDisabled := false, eduInputDisabledPid := NO_PID), sys.Devices().Keys, id);
    var lifted := InputRecovered(sys, pid);
    var ids := RecoverableIds(lifted, pid);
    RequestedKeepsHeld(WithInputEnable(lifted, ids, true), ids, id);
  }

  lemma EduKeepsHeld(sys: System, disabled: bool, pid: int32, reacting: set<int32>, id: int32)
    requires HeldWhileWaiting(sys, id)
    ensures HeldWhileWaiting(EduDispatched(sys, disabled, pid, reacting), id)
  {
    RequestedKeepsHeld(sys.(eduInputDisabled := false, eduInputDisabledPid := NO_PID), sys.Devices().Keys, id);
    DisabledKeepsHeld(sys.(eduInputDisabled := true, eduInputDisabledPid := pid), EnabledIds(sys.Devices()), reacting, id);
  }

  lemma RawKeepsHeld(sys: System, handle: nat, event: DS.RawEvent, id: int32)
    requires Coherent(sys) && HeldWhileWaiting(sys, id)
    ensures HeldWhileWaiting(RawHandled(sys, handle, event), id)
  {
    assert StoreMatches(sys, id);
    DS.EventKeepsPending(DS.StateOf(sys.states, id), event);
  }

  lemma RecordKeepsHeld(sys: System, device: int32, seed: DS.Seed, id: int32)
    requires HeldWhileWaiting(sys, id)
    ensures HeldWhileWaiting(Next(sys, RecordOperations(device, seed)), id)
       <==> !Strands(sys, RecordOperations(device, seed), id)
  {
    if Waiting(sys, id) {
      SeedKeepsHeld(DS.StateOf(sys.states, id), seed);
    }
  }

  /** An enable comes to wait on nothing exactly when a step strands it. */
  lemma NextKeepsHeld(sys: System, step: Step, id: int32)
    requires Coherent(sys) && HeldWhileWaiting(sys, id)
    ensures HeldWhileWaiting(Next(sys, step), id) <==> !Strands(sys, step, id)
  {
    match step {
    case SetInputDeviceEnabled(device, enable, pid, reacting) =>
      SwitchesKeepHeld(sys, device, enable, pid, reacting, id);
    case EnableForPlugin(device) =>
      SwitchesKeepHeld(sys, device, true, NO_PID, {}, id);
    case DisableForPlugin(device, reacting) =>
      SwitchesKeepHeld(sys, device, false, NO_PID, reacting, id);
    case DisableInputEventDispatch(disabled, pid, reacting) =>
      EduKeepsHeld(sys, disabled, pid, reacting, id);
    case SessionLost(pid) =>
      SessionKeepsHeld(sys, pid, id);
    case EnableRemote(_) =>
    case Raw(handle, event) =>
      RawKeepsHeld(sys, handle, event, id);
    case RecordOperations(device, seed) =>
      RecordKeepsHeld(sys, device, seed, id);
    case Add(_) =>
    case Remove(_) =>
    }
  }

  ghost predicate HeldAt(steps: seq<Step>, id: int32, n: nat)
    requires n <= |steps|
  {
    HeldWhileWaiting(Run(steps[..n]), id)
  }

  ghost predicate StrandsAt(steps: seq<Step>, id: int32, i: nat)
    requires i < |steps|
  {
    Strands(Run(steps[..i]), steps[i], id)
  }

  ghost predicate NeverStranded(steps: seq<Step>, id: int32) {
    forall i: nat :: i < |steps| ==> !StrandsAt(steps, id, i)
  }

  lemma LegalUpto(steps: seq<Step>, n: nat)
    requires Legal(steps) && n <= |steps|
    ensures Legal(steps[..n])
  {
    forall i | 0 <= i < n ensures Allowed(Run(steps[..n][..i]), steps[..n][i]) {
      assert steps[..n][..i] == steps[..i];
    }
  }

  lemma OneMoreHeld(steps: seq<Step>, id: int32, n: nat)
    requires Legal(steps) && n < |steps| && HeldAt(steps, id, n)
    ensures HeldAt(steps, id, n + 1) <==> !StrandsAt(steps, id, n)
  {
    LegalUpto(steps, n);
    RunIsCoherent(steps[..n]);
    RunSnoc(steps[..n], steps[n]);
    assert steps[..n] + [steps[n]] == steps[..n + 1];
    NextKeepsHeld(Run(steps[..n]), steps[n], id);
  }

  lemma NothingYetHeld(steps: seq<Step>, id: int32)
    ensures HeldAt(steps, id, 0)
  {
    assert steps[..0] == [];
  }

  lemma {:induction false} HeldUnlessStranded(steps: seq<Step>, id: int32, n: nat)
    requires Legal(steps) && NeverStranded(steps, id) && n <= |steps|
    ensures HeldAt(steps, id, n)
  {
    if n == 0 {
      NothingYetHeld(steps, id);
    } else {
      HeldUnlessStranded(steps, id, n - 1);
      OneMoreHeld(steps, id, n - 1);
    }
  }

  /** In a legal run, an enable of the device never waits on nothing exactly if no step strands one. */
  lemma AlwaysHeldIffNeverStranded(steps: seq<Step>, id: int32)
    requires Legal(steps)
    ensures (forall n: nat :: n <= |steps| ==> HeldAt(steps, id, n)) <==> NeverStranded(steps, id)
  {
    if NeverStranded(steps, id) {
      forall n: nat | n <= |steps| ensures HeldAt(steps, id, n) {
        HeldUnlessStranded(steps, id, n);
      }
    }
    if forall n: nat :: n <= |steps| ==> HeldAt(steps, id, n) {
      forall i: nat | i < |steps| ensures !StrandsAt(steps, id, i) {
        assert HeldAt(steps, id, i) && HeldAt(steps, id, i + 1);
        OneMoreHeld(steps, id, i);
      }
    }
  }

  // ----- Enables stranded and not taken up since -----

  /** An enable waits on nothing. */
  ghost predicate Stranded(sys: System, id: int32) {
    Waiting(sys, id) && HoldsNothing(sys.states, id)
  }

  /** All the step tells the store is about other devices, or that nothing is held. */
  ghost predicate Overlooks(sys: System, step: Step, id: int32) {
    forall call :: call in StepCalls(sys, step) ==> DS.Ignores(call, id)
  }

  lemma {:induction false} CallsStrand(calls: seq<StoreCall>, more: seq<StoreCall>, id: int32)
    requires forall call :: call in more ==> !call.AddSeed?
    ensures DS.Stranded(calls + more, id, EnableInputDevice)
       <==> DS.Stranded(calls, id, EnableInputDevice) && forall call :: call in more ==> DS.Ignores(call, id)
  {
    if more == [] {
      assert calls + more == calls;
    } else {
      var init, last := more[..|more| - 1], more[|more| - 1];
      assert more == init + [last];
      CallsStrand(calls, init, id);
      DS.StrandedSnoc(calls + init, last, id, EnableInputDevice);
      assert calls + more == (calls + init) + [last];
    }
  }

  lemma StrandsByHistory(steps: seq<Step>, device: int32, seed: DS.Seed, id: int32)
    ensures Strands(Run(steps), RecordOperations(device, seed), id)
       <==> DS.Pending(Calls(steps), id, EnableInputDevice) && DS.TakesLast(Calls(steps), DS.AddSeed(device, seed), id)
  {
    StoreByHistory(steps, id);
  }

  lemma StrandedByHistory(steps: seq<Step>, id: int32)
    ensures Stranded(Run(steps), id) <==> DS.Stranded(Calls(steps), id, EnableInputDevice)
  {
    StoreByHistory(steps, id);
  }

  lemma CallsSnoc(steps: seq<Step>, step: Step)
    ensures Calls(steps + [step]) == Calls(steps) + StepCalls(Run(steps), step)
  {
    assert (steps + [step])[..|steps|] == steps;
  }

  lemma OnlyRecordingSeeds(sys: System, step: Step)
    requires !step.RecordOperations?
    ensures forall call :: call in StepCalls(sys, step) ==> !call.AddSeed?
  {
  }

  lemma RecordStrands(steps: seq<Step>, device: int32, seed: DS.Seed, id: int32)
    ensures DS.Stranded(Calls(steps) + [DS.AddSeed(device, seed)], id, EnableInputDevice)
       <==> || Strands(Run(steps), RecordOperations(device, seed), id)
            || (DS.Stranded(Calls(steps), id, EnableInputDevice) && DS.Ignores<Callback>(DS.AddSeed(device, seed), id))
  {
    DS.StrandedSnoc(Calls(steps), DS.AddSeed(device, seed), id, EnableInputDevice);
    StrandsByHistory(steps, device, seed, id);
  }

  /** An enable waits on nothing after a step exactly if the step strands it, or it did so before and the step overlooks it. */
  lemma StrandedAfter(steps: seq<Step>, step: Step, id: int32)
    ensures Stranded(Run(steps + [step]), id)
       <==> Strands(Run(steps), step, id) || (Stranded(Run(steps), id) && Overlooks(Run(steps), step, id))
  {
    CallsSnoc(steps, step);
    StrandedByHistory(steps, id);
    StrandedByHistory(steps + [step], id);
    if step.RecordOperations? {
      RecordStrands(steps, step.id, step.seed, id);
      assert StepCalls(Run(steps), step) == [DS.AddSeed(step.id, step.seed)];
    } else {
      OnlyRecordingSeeds(Run(steps), step);
      CallsStrand(Calls(steps), StepCalls(Run(steps), step), id);
    }
  }

  ghost predicate OverlooksAt(steps: seq<Step>, id: int32, i: nat)
    requires i < |steps|
  {
    Overlooks(Run(steps[..i]), steps[i], id)
  }

  /** A step has stranded an enable of the device, and every step since has overlooked it. */
  ghost predicate LeftStranded(steps: seq<Step>, id: int32, n: nat)
    requires n <= |steps|
  {
    On(seq(|steps|, i requires 0 <= i < |steps| => StrandsAt(steps, id, i)),
       seq(|steps|, i requires 0 <= i < |steps| => !OverlooksAt(steps, id, i)), n)
  }

  lemma LeftStrandedOneMore(steps: seq<Step>, id: int32, n: nat)
    requires n < |steps|
    ensures LeftStranded(steps, id, n + 1)
       <==> StrandsAt(steps, id, n) || (LeftStranded(steps, id, n) && OverlooksAt(steps, id, n))
  {
    OnOneMore(seq(|steps|, i requires 0 <= i < |steps| => StrandsAt(steps, id, i)),
              seq(|steps|, i requires 0 <= i < |steps| => !OverlooksAt(steps, id, i)), n);
  }

  /** At any point of any run an enable waits on nothing exactly if it was stranded and overlooked since. */
  lemma {:induction false} StrandedIffLeftSo(steps: seq<Step>, id: int32, n: nat)
    requires n <= |steps|
    ensures Stranded(Run(steps[..n]), id) <==> LeftStranded(steps, id, n)
  {
    if n == 0 {
      assert steps[..0] == [];
    } else {
      StrandedIffLeftSo(steps, id, n - 1);
      LeftStrandedOneMore(steps, id, n - 1);
      StrandedAfter(steps[..n - 1], steps[n - 1], id);
      assert steps[..n - 1] + [steps[n - 1]] == steps[..n];
    }
  }

  /**
   A local device both switches allow is live, or an enable waits for it. Then something
   opened on it in the run is open still, exactly unless a step has stranded the enable and
   every step since has overlooked it.
   */
  lemma {:induction false} NoEnableIsLost(steps: seq<Step>, id: int32)
    requires Legal(steps)
    requires id in Run(steps).Devices() && !Run(steps).Devices()[id].isRemote
    requires Run(steps).Devices()[id].inputEnable && !Run(steps).eduInputDisabled && !Run(steps).Devices()[id].enable
    ensures DS.Pending(Calls(steps), id, EnableInputDevice)
    ensures (exists item :: DS.Open(Calls(steps), id, item)) <==> !LeftStranded(steps, id, |steps|)
  {
    RunIsCoherent(steps);
    assert LocalSettled(Run(steps), id);
    StoreByHistory(steps, id);
    StrandedIffLeftSo(steps, id, |steps|);
    assert steps[..|steps|] == steps;
  }

  // ----- Who may switch what -----

  lemma RequestedKeepsSwitch(sys: System, ids: set<int32>, id: int32)
    requires id in sys.Devices()
    ensures id in Requested(sys, ids).Devices()
    ensures Requested(sys, ids).Devices()[id].inputEnable == sys.Devices()[id].inputEnable
    ensures Requested(sys, ids).recoverList == sys.recoverList
  {
  }

  lemma DisabledKeepsSwitch(sys: System, ids: set<int32>, reacting: set<int32>, id: int32)
    requires id in sys.Devices()
    ensures id in Disabled(sys, ids, reacting).Devices()
    ensures Disabled(sys, ids, reacting).Devices()[id].inputEnable == sys.Devices()[id].inputEnable
    ensures Disabled(sys, ids, reacting).recoverList == sys.recoverList
  {
  }

  ghost predicate SwitchesOn(sys: System, step: Step, id: int32) {
    || (step.SetInputDeviceEnabled? && step.id == id && step.enable)
    || step == EnableForPlugin(id)
    || (step.SessionLost? && id in sys.recoverList && sys.recoverList[id] == step.pid)
    || (step.Add? && Takes(sys.index, Plug(step.raw, sys.eduInputDisabled)) && step.raw.eventId == id)
  }

  ghost predicate SwitchesOff(step: Step, id: int32) {
    || (step.SetInputDeviceEnabled? && step.id == id && !step.enable)
    || (step.DisableForPlugin? && step.id == id)
  }

  lemma SessionGoneSwitch(sys: System, pid: int32, id: int32)
    requires id in sys.Devices()
    ensures id in SessionGone(sys, pid).Devices()
    ensures SessionGone(sys, pid).Devices()[id].inputEnable
       <==> sys.Devices()[id].inputEnable || (id in sys.recoverList && sys.recoverList[id] == pid)
  {
    RequestedKeepsSwitch(sys.(eduInputDisabled := false, eduInputDisabledPid := NO_PID), sys.Devices().Keys, id);
    var lifted := InputRecovered(sys, pid);
    var ids := RecoverableIds(lifted, pid);
    RequestedKeepsSwitch(WithInputEnable(lifted, ids, true), ids, id);
  }

  lemma EduDispatchedSwitch(sys: System, disabled: bool, pid: int32, reacting: set<int32>, id: int32)
    requires id in sys.Devices()
    ensures id in EduDispatched(sys, disabled, pid, reacting).Devices()
    ensures EduDispatched(sys, disabled, pid, reacting).Devices()[id].inputEnable == sys.Devices()[id].inputEnable
  {
    RequestedKeepsSwitch(sys.(eduInputDisabled := false, eduInputDisabledPid := NO_PID), sys.Devices().Keys, id);
    DisabledKeepsSwitch(sys.(eduInputDisabled := true, eduInputDisabledPid := pid), EnabledIds(sys.Devices()), reacting, id);
  }

  lemma SetEnabledSwitch(sys: System, device: int32, enable: bool, pid: int32, reacting: set<int32>, id: int32)
    requires id in sys.Devices()
    ensures id in SetEnabled(sys, device, enable, pid, reacting).Devices()
    ensures SetEnabled(sys, device, enable, pid, reacting).Devices()[id].inputEnable
            == if id == device then enable else sys.Devices()[id].inputEnable
  {
    RequestedKeepsSwitch(WithInputEnable(sys, {device}, enable), {device}, id);
    DisabledKeepsSwitch(WithInputEnable(sys, {device}, enable), {device}, reacting, id);
  }

  lemma PluginSwitch(sys: System, device: int32, reacting: set<int32>, id: int32)
    requires id in sys.Devices()
    ensures id in PluginEnabled(sys, device).Devices() && id in PluginDisabled(sys, device, reacting).Devices()
    ensures PluginEnabled(sys, device).Devices()[id].inputEnable == (id == device || sys.Devices()[id].inputEnable)
    ensures PluginDisabled(sys, device, reacting).Devices()[id].inputEnable == (id != device && sys.Devices()[id].inputEnable)
  {
    RequestedKeepsSwitch(WithInputEnable(sys, {device}, true), {device}, id);
    DisabledKeepsSwitch(WithInputEnable(sys, {device}, false), {device}, reacting, id);
  }

  lemma HotplugSwitch(sys: System, step: Step, id: int32)
    requires step.Add? || step.Remove? || step.Raw? || step.EnableRemote? || step.RecordOperations?
    requires id in sys.Devices() && id in Next(sys, step).Devices()
    ensures Next(sys, step).Devices()[id].inputEnable <==> SwitchesOn(sys, step, id) || sys.Devices()[id].inputEnable
  {
  }

  /** The steps that turn a device's user switch on, and those that turn it off. */
  lemma WhoSwitchesDevice(sys: System, step: Step, id: int32)
    requires id in sys.Devices() && id in Next(sys, step).Devices()
    ensures Next(sys, step).Devices()[id].inputEnable
       <==> SwitchesOn(sys, step, id) || (sys.Devices()[id].inputEnable && !SwitchesOff(step, id))
  {
    match step {
    case SetInputDeviceEnabled(device, enable, pid, reacting) => SetEnabledSwitch(sys, device, enable, pid, reacting, id);
    case EnableForPlugin(device) => PluginSwitch(sys, device, {}, id);
    case DisableForPlugin(device, reacting) => PluginSwitch(sys, device, reacting, id);
    case DisableInputEventDispatch(disabled, pid, reacting) => EduDispatchedSwitch(sys, disabled, pid, reacting, id);
    case SessionLost(pid) => SessionGoneSwitch(sys, pid, id);
    case _ => HotplugSwitch(sys, step, id);
    }
  }

  /** The edu switch is lifted by its owner, by the owner's death, or by anyone if it has none; never otherwise. */
  lemma WhoLiftsEduSwitch(sys: System, step: Step)
    requires Coherent(sys)
    ensures sys.eduInputDisabled ==>
              (!Next(sys, step).eduInputDisabled
               <==> || (step.DisableInputEventDispatch? && !step.disabled
                        && (sys.eduInputDisabledPid == NO_PID || sys.eduInputDisabledPid == step.pid))
                    || step == SessionLost(sys.eduInputDisabledPid))
    ensures !sys.eduInputDisabled ==>
              (Next(sys, step).eduInputDisabled <==> step.DisableInputEventDispatch? && step.disabled)
    ensures Next(sys, step).eduInputDisabled ==>
              Next(sys, step).eduInputDisabledPid == if sys.eduInputDisabled then sys.eduInputDisabledPid else step.pid
  {
  }

  /** A recovery entry is made by the first effective disable, kept by everything, and used up by its owner's death. */
  lemma RecoveryEntries(sys: System, step: Step, id: int32)
    ensures id !in sys.recoverList ==>
              (id in Next(sys, step).recoverList
               <==> step.SetInputDeviceEnabled? && step.id == id && !step.enable
                    && id in sys.Devices() && sys.Devices()[id].enable)
    ensures id !in sys.recoverList && id in Next(sys, step).recoverList ==> Next(sys, step).recoverList[id] == step.pid
    ensures id in sys.recoverList ==>
              (id !in Next(sys, step).recoverList
               <==> step == SessionLost(sys.recoverList[id]) && id in sys.Devices())
    ensures id in sys.recoverList && id in Next(sys, step).recoverList ==>
              Next(sys, step).recoverList[id] == sys.recoverList[id]
  {
  }

  // ----- One step, device by device -----

  /** The step takes a device in under the id. */
  ghost predicate TakesAs(sys: System, step: Step, id: int32) {
    step.Add? && Takes(sys.index, Plug(step.raw, sys.eduInputDisabled)) && step.raw.eventId == id
  }

  ghost predicate Unplugs(sys: System, step: Step, id: int32) {
    step.Remove? && FindId(sys.Devices(), step.handle) == Some(id)
  }

  /** The same devices in the same groups, but for the switches. */
  ghost predicate Alike(a: Index, b: Index) {
    a.groups == b.groups && SameHardware(a.devices, b.devices)
  }

  lemma AlikeTransitive(a: Index, b: Index, c: Index)
    requires Alike(a, b) && Alike(b, c)
    ensures Alike(a, c)
  {
  }

  lemma SwitchKeepsHardware(sys: System, ids: set<int32>, on: bool)
    ensures Alike(sys.index, WithInputEnable(sys, ids, on).index)
  {
  }

  lemma RequestKeepsHardware(sys: System, ids: set<int32>)
    ensures Alike(sys.index, Requested(sys, ids).index)
  {
  }

  lemma DisableKeepsHardware(sys: System, ids: set<int32>, reacting: set<int32>)
    ensures Alike(sys.index, Disabled(sys, ids, reacting).index)
  {
  }

  lemma SessionKeepsHardware(sys: System, pid: int32)
    ensures Alike(sys.index, SessionGone(sys, pid).index)
  {
    var lifted := InputRecovered(sys, pid);
    var ids := RecoverableIds(lifted, pid);
    RequestKeepsHardware(sys.(eduInputDisabled := false, eduInputDisabledPid := NO_PID), sys.Devices().Keys);
    SwitchKeepsHardware(lifted, ids, true);
    RequestKeepsHardware(WithInputEnable(lifted, ids, true), ids);
    AlikeTransitive(sys.index, lifted.index, WithInputEnable(lifted, ids, true).index);
    AlikeTransitive(sys.index, WithInputEnable(lifted, ids, true).index, SessionGone(sys, pid).index);
  }

  lemma EduKeepsHardware(sys: System, disabled: bool, pid: int32, reacting: set<int32>)
    ensures Alike(sys.index, EduDispatched(sys, disabled, pid, reacting).index)
  {
    RequestKeepsHardware(sys.(eduInputDisabled := false, eduInputDisabledPid := NO_PID), sys.Devices().Keys);
    DisableKeepsHardware(sys.(eduInputDisabled := true, eduInputDisabledPid := pid), EnabledIds(sys.Devices()), reacting);
  }

  lemma RemoteKeepsHardware(sys: System, enable: bool)
    ensures Alike(sys.index, RemoteSwitched(sys, enable).index)
  {
  }

  lemma RawKeepsHardware(sys: System, handle: nat, event: DS.RawEvent)
    ensures Alike(sys.index, RawHandled(sys, handle, event).index)
  {
  }

  lemma UserKeepsHardware(sys: System, id: int32, on: bool, reacting: set<int32>)
    ensures Alike(sys.index, Requested(WithInputEnable(sys, {id}, on), {id}).index)
    ensures Alike(sys.index, Disabled(WithInputEnable(sys, {id}, on), {id}, reacting).index)
  {
    var switched := WithInputEnable(sys, {id}, on);
    SwitchKeepsHardware(sys, {id}, on);
    RequestKeepsHardware(switched, {id});
    DisableKeepsHardware(switched, {id}, reacting);
    AlikeTransitive(sys.index, switched.index, Requested(switched, {id}).index);
    AlikeTransitive(sys.index, switched.index, Disabled(switched, {id}, reacting).index);
  }

  /** Only adding and removing change what devices there are and how they are grouped. */
  lemma OnlyHotplugChangesHardware(sys: System, step: Step)
    ensures match step
            case Add(raw) => Next(sys, step).index == Plugged(sys.index, raw, sys.eduInputDisabled)
            case Remove(handle) => Next(sys, step).index == Unplugged(sys.index, handle)
            case _ => Alike(sys.index, Next(sys, step).index)
  {
    match step {
    case SetInputDeviceEnabled(id, enable, _, reacting) =>
      UserKeepsHardware(sys, id, enable, reacting);
      SwitchKeepsHardware(sys, {id}, enable);
    case EnableForPlugin(id) => UserKeepsHardware(sys, id, true, {});
    case DisableForPlugin(id, reacting) => UserKeepsHardware(sys, id, false, reacting);
    case DisableInputEventDispatch(disabled, pid, reacting) => EduKeepsHardware(sys, disabled, pid, reacting);
    case SessionLost(pid) => SessionKeepsHardware(sys, pid);
    case EnableRemote(enable) => RemoteKeepsHardware(sys, enable);
    case Raw(handle, event) => RawKeepsHardware(sys, handle, event);
    case _ =>
    }
  }

  lemma PresentAfter(sys: System, step: Step, id: int32)
    ensures id in Next(sys, step).Devices() <==> TakesAs(sys, step, id) || (id in sys.Devices() && !Unplugs(sys, step, id))
  {
    OnlyHotplugChangesHardware(sys, step);
  }

  /** The adds and removes of a run. */
  ghost function HotplugsOf(steps: seq<Step>): seq<Hotplug> {
    if steps == [] then []
    else
      var before := steps[..|steps| - 1];
      HotplugsOf(before)
      + match steps[|steps| - 1]
        case Add(raw) => [Plug(raw, Run(before).eduInputDisabled)]
        case Remove(handle) => [Unplug(handle)]
        case _ => []
  }

  lemma AlikeFinds(a: Index, b: Index, handle: nat)
    requires Alike(a, b) && HandlesDistinct(a.devices)
    ensures FindId(a.devices, handle) == FindId(b.devices, handle)
  {
    assert forall id :: HasHandle(a.devices, id, handle) <==> HasHandle(b.devices, id, handle);
  }

  lemma AlikePlugged(a: Index, b: Index, raw: RawDevice, edu: bool)
    requires Alike(a, b) && HandlesDistinct(a.devices)
    ensures Alike(Plugged(a, raw, edu), Plugged(b, raw, edu))
    ensures Admissible(a, Plug(raw, edu)) <==> Admissible(b, Plug(raw, edu))
  {
    AlikeFinds(a, b, raw.handle);
    AlikeAdded(a, b, raw.eventId, MakeDeviceInfo(raw, edu));
  }

  lemma AlikeAddedAt(a: Index, b: Index, id: int32, info: DeviceInfo, x: int32)
    requires Alike(a, b) && x in Added(a, id, info).devices
    ensures x in Added(b, id, info).devices
    ensures var one, other := Added(a, id, info).devices[x], Added(b, id, info).devices[x];
            && one.origin == other.origin && one.isRemote == other.isRemote
            && one.isPointerDevice == other.isPointerDevice && one.physicalId == other.physicalId
  {
  }

  lemma AlikeAdded(a: Index, b: Index, id: int32, info: DeviceInfo)
    requires Alike(a, b)
    ensures Alike(Added(a, id, info), Added(b, id, info))
  {
    assert Added(a, id, info).groups == Added(b, id, info).groups;
    assert Added(a, id, info).devices.Keys == a.devices.Keys + {id};
    assert Added(b, id, info).devices.Keys == b.devices.Keys + {id};
    forall x | x in Added(a, id, info).devices
      ensures var one, other := Added(a, id, info).devices[x], Added(b, id, info).devices[x];
              && one.origin == other.origin && one.isRemote == other.isRemote
              && one.isPointerDevice == other.isPointerDevice && one.physicalId == other.physicalId
    {
      AlikeAddedAt(a, b, id, info, x);
    }
  }

  lemma AlikeUnplugged(a: Index, b: Index, handle: nat)
    requires Alike(a, b) && HandlesDistinct(a.devices)
    ensures Alike(Unplugged(a, handle), Unplugged(b, handle))
  {
    AlikeFinds(a, b, handle);
  }

  lemma LegalOneMore(ops: seq<Hotplug>, op: Hotplug)
    requires PI.Legal(ops) && Admissible(PI.Run(ops), op)
    ensures PI.Legal(ops + [op]) && PI.Run(ops + [op]) == PI.After(PI.Run(ops), op)
  {
    var all := ops + [op];
    assert all[..|ops|] == ops;
    forall i | 0 <= i < |all| ensures Admissible(PI.Run(all[..i]), all[i]) {
      if i < |ops| {
        assert all[..i] == ops[..i] && Admissible(PI.Run(ops[..i]), ops[i]);
      }
    }
  }

  /** The devices and groups of a run of the system are those of its adds and removes alone, so the theorems about these apply. */
  lemma {:induction false} IndexRunsHotplugs(steps: seq<Step>)
    requires Legal(steps)
    ensures PI.Legal(HotplugsOf(steps)) && Alike(PI.Run(HotplugsOf(steps)), Run(steps).index)
  {
    if steps == [] {
    } else {
      var before, step := steps[..|steps| - 1], steps[|steps| - 1];
      LegalPrefix(steps);
      IndexRunsHotplugs(before);
      HotplugStep(before, step);
      assert steps == before + [step];
    }
  }

  lemma HotplugStep(steps: seq<Step>, step: Step)
    requires PI.Legal(HotplugsOf(steps)) && Alike(PI.Run(HotplugsOf(steps)), Run(steps).index)
    requires Allowed(Run(steps), step)
    ensures PI.Legal(HotplugsOf(steps + [step]))
    ensures Alike(PI.Run(HotplugsOf(steps + [step])), Run(steps + [step]).index)
  {
    var ops, sys := HotplugsOf(steps), Run(steps);
    assert (steps + [step])[..|steps|] == steps;
    RunSnoc(steps, step);
    IndexAlwaysAgrees(ops);
    OnlyHotplugChangesHardware(sys, step);
    match step {
    case Add(raw) =>
      AlikePlugged(PI.Run(ops), sys.index, raw, sys.eduInputDisabled);
      LegalOneMore(ops, Plug(raw, sys.eduInputDisabled));
    case Remove(handle) =>
      AlikeUnplugged(PI.Run(ops), sys.index, handle);
      LegalOneMore(ops, Unplug(handle));
    case _ =>
      AlikeTransitive(PI.Run(ops), sys.index, Next(sys, step).index);
      assert ops + [] == ops;
    }
  }

  /** Which devices of a running system count as pointers, read off its adds and removes. */
  lemma WhoPoints(steps: seq<Step>, id: int32)
    requires Legal(steps) && id in Run(steps).Devices()
    ensures var info := Run(steps).Devices()[id];
            var raw := info.origin;
            info.isPointerDevice
            <==> || raw.pointer
                 || (Tablet in raw.tags
                     && (raw.pointerProperty
                         || (raw.physicalId != "" && PI.PointerRemembered(HotplugsOf(steps), raw.physicalId))))
  {
    IndexRunsHotplugs(steps);
    PointersByHistory(HotplugsOf(steps), id);
  }

  lemma NewDevice(sys: System, step: Step, id: int32)
    requires TakesAs(sys, step, id)
    ensures id in Next(sys, step).Devices()
    ensures var info := Next(sys, step).Devices()[id];
            && info.origin == step.raw && info.inputEnable && (info.isRemote <==> step.raw.remote)
            && (info.enable <==> !step.raw.remote && !sys.eduInputDisabled)
  {
  }

  /** The step asks for the device to be enabled: its user, a plugin, the edu switch being lifted, or the end of the session that keeps it off. */
  ghost predicate AsksFor(sys: System, step: Step, id: int32) {
    && id in sys.Devices()
    && (|| (step.SetInputDeviceEnabled? && step.id == id && step.enable)
        || step == EnableForPlugin(id)
        || (step.DisableInputEventDispatch? && !step.disabled && sys.eduInputDisabled
            && (sys.eduInputDisabledPid == NO_PID || sys.eduInputDisabledPid == step.pid))
        || (step.SessionLost? && (sys.eduInputDisabledPid == step.pid || (id in sys.recoverList && sys.recoverList[id] == step.pid))))
  }

  /** The step turns the device off: its user, a plugin, or all input being disabled. */
  ghost predicate TurnsOff(sys: System, step: Step, id: int32) {
    && id in sys.Devices()
    && (|| (step.SetInputDeviceEnabled? && step.id == id && !step.enable)
        || (step.DisableForPlugin? && step.id == id && sys.Devices()[id].inputEnable)
        || (step.DisableInputEventDispatch? && step.disabled && !sys.eduInputDisabled))
  }

  /** The step is a raw event of the device after which nothing on it is held. */
  ghost predicate Releases(sys: System, step: Step, id: int32) {
    && step.Raw? && FindId(sys.Devices(), step.handle) == Some(id)
    && forall item :: !DS.EventOpens(step.event, item)
                      && (DS.StateOf(sys.states, id).Holds(item) ==> DS.EventCloses(step.event, item))
  }

  ghost predicate SomethingHeld(sys: System, id: int32) {
    exists item :: DS.StateOf(sys.states, id).Holds(item)
  }

  lemma HeldIffSomething(sys: System, id: int32)
    ensures HoldsNothing(sys.states, id) <==> !SomethingHeld(sys, id)
  {
    DS.ActiveIffHolds(DS.StateOf(sys.states, id));
  }

  lemma ReleasesIffNothingLeft(sys: System, step: Step, id: int32)
    requires step.Raw? && FindId(sys.Devices(), step.handle) == Some(id)
    ensures Releases(sys, step, id) <==> !DS.StateOf(sys.states, id).HandleEvent(step.event).HaveActiveOperations()
  {
    var state := DS.StateOf(sys.states, id);
    DS.ActiveIffHolds(state.HandleEvent(step.event));
    forall item
      ensures state.HandleEvent(step.event).Holds(item)
         <==> DS.EventOpens(step.event, item) || (state.Holds(item) && !DS.EventCloses(step.event, item))
    {
      DS.EventHolds(state, step.event, item);
    }
  }

  lemma RequestedLives(sys: System, ids: set<int32>, id: int32)
    requires id in sys.Devices()
    ensures id in Requested(sys, ids).Devices()
    ensures var before, after := sys.Devices()[id], Requested(sys, ids).Devices()[id];
            && after.isRemote == before.isRemote && after.inputEnable == before.inputEnable
            && (after.enable <==> before.enable
                                  || (id in ids && HoldsNothing(sys.states, id) && before.inputEnable && !sys.eduInputDisabled))
    ensures HoldsNothing(Requested(sys, ids).states, id) <==> HoldsNothing(sys.states, id)
  {
  }

  lemma DisabledLives(sys: System, ids: set<int32>, reacting: set<int32>, id: int32)
    requires id in sys.Devices()
    ensures id in Disabled(sys, ids, reacting).Devices()
    ensures Disabled(sys, ids, reacting).Devices()[id].enable <==> sys.Devices()[id].enable && id !in ids
  {
  }

  lemma SwitchLives(sys: System, step: Step, id: int32)
    requires step.SetInputDeviceEnabled? || step.EnableForPlugin? || step.DisableForPlugin?
    requires id in sys.Devices() && id in Next(sys, step).Devices()
    ensures Next(sys, step).Devices()[id].enable
       <==> || (AsksFor(sys, step, id) && HoldsNothing(sys.states, id) && !sys.eduInputDisabled)
            || (sys.Devices()[id].enable && !TurnsOff(sys, step, id))
  {
    var device := step.id;
    var on, off := WithInputEnable(sys, {device}, true), WithInputEnable(sys, {device}, false);
    RequestedLives(on, {device}, id);
    DisabledLives(off, {device}, if step.EnableForPlugin? then {} else step.reacting, id);
  }

  lemma EduLives(sys: System, step: Step, id: int32)
    requires step.DisableInputEventDispatch? && id in sys.Devices() && id in Next(sys, step).Devices()
    ensures Next(sys, step).Devices()[id].enable
       <==> || (AsksFor(sys, step, id) && HoldsNothing(sys.states, id) && sys.Devices()[id].inputEnable)
            || (sys.Devices()[id].enable && !TurnsOff(sys, step, id))
  {
    RequestedLives(sys.(eduInputDisabled := false, eduInputDisabledPid := NO_PID), sys.Devices().Keys, id);
    DisabledLives(sys.(eduInputDisabled := true, eduInputDisabledPid := step.pid), EnabledIds(sys.Devices()), step.reacting, id);
  }

  lemma SessionLives(sys: System, step: Step, id: int32)
    requires step.SessionLost? && id in sys.Devices() && id in Next(sys, step).Devices()
    ensures var after := Next(sys, step);
            after.Devices()[id].enable
            <==> || (AsksFor(sys, step, id) && HoldsNothing(sys.states, id)
                     && after.Devices()[id].inputEnable && !after.eduInputDisabled)
                 || sys.Devices()[id].enable
  {
    RequestedLives(sys.(eduInputDisabled := false, eduInputDisabledPid := NO_PID), sys.Devices().Keys, id);
    var lifted := InputRecovered(sys, step.pid);
    var ids := RecoverableIds(lifted, step.pid);
    RequestedLives(WithInputEnable(lifted, ids, true), ids, id);
    assert id in RecoverableIds(lifted, step.pid) <==> id in sys.recoverList && sys.recoverList[id] == step.pid;
  }

  lemma RawLives(sys: System, step: Step, id: int32)
    requires step.Raw? && id in sys.Devices() && id in Next(sys, step).Devices() && StoreMatches(sys, id)
    ensures Next(sys, step).Devices()[id].enable
       <==> || (Waiting(sys, id) && Releases(sys, step, id) && Wanted(sys, id))
            || sys.Devices()[id].enable
  {
    if FindId(sys.Devices(), step.handle) == Some(id) {
      ReleasesIffNothingLeft(sys, step, id);
      DS.EventKeepsPending(DS.StateOf(sys.states, id), step.event);
    }
  }

  /**
   Of a device there before and after a step: it is live after it if the step asks for it,
   or releases it while an enable waits, with nothing held and both switches on by then; or
   if it was live and the step does not turn it off. Remote devices are switched besides,
   whatever the switches say.
   */
  ghost predicate LivesRight(sys: System, step: Step, id: int32)
    requires id in sys.Devices() && id in Next(sys, step).Devices()
  {
    var after := Next(sys, step);
    var allowed := after.Devices()[id].inputEnable && !after.eduInputDisabled;
    var remotely := step.EnableRemote? && sys.Devices()[id].isRemote;
    after.Devices()[id].enable
    <==> if remotely then step.enable
         else || (AsksFor(sys, step, id) && !SomethingHeld(sys, id) && allowed)
              || (Waiting(sys, id) && Releases(sys, step, id) && allowed)
              || (sys.Devices()[id].enable && !TurnsOff(sys, step, id))
  }

  lemma SwitchLivesRight(sys: System, step: Step, id: int32)
    requires step.SetInputDeviceEnabled? || step.EnableForPlugin? || step.DisableForPlugin?
    requires id in sys.Devices() && id in Next(sys, step).Devices()
    ensures LivesRight(sys, step, id)
  {
    HeldIffSomething(sys, id);
    WhoSwitchesDevice(sys, step, id);
    SwitchLives(sys, step, id);
    SwitchKeepsEdu(sys, step);
  }

  lemma EduLivesRight(sys: System, step: Step, id: int32)
    requires Coherent(sys) && step.DisableInputEventDispatch? && id in sys.Devices() && id in Next(sys, step).Devices()
    ensures LivesRight(sys, step, id)
  {
    HeldIffSomething(sys, id);
    WhoSwitchesDevice(sys, step, id);
    EduLives(sys, step, id);
    WhoLiftsEduSwitch(sys, step);
  }

  lemma SessionLivesRight(sys: System, step: Step, id: int32)
    requires step.SessionLost? && id in sys.Devices() && id in Next(sys, step).Devices()
    ensures LivesRight(sys, step, id)
  {
    HeldIffSomething(sys, id);
    SessionLives(sys, step, id);
  }

  lemma RawLivesRight(sys: System, step: Step, id: int32)
    requires step.Raw? && id in sys.Devices() && id in Next(sys, step).Devices() && StoreMatches(sys, id)
    ensures LivesRight(sys, step, id)
  {
    RawLives(sys, step, id);
    WhoSwitchesDevice(sys, step, id);
  }

  /** Every step leaves live just the devices it should, remote ones included. */
  lemma WhoLives(sys: System, step: Step, id: int32)
    requires Coherent(sys)
    requires id in sys.Devices() && id in Next(sys, step).Devices() && !TakesAs(sys, step, id)
    ensures LivesRight(sys, step, id)
  {
    match step {
    case SetInputDeviceEnabled(_, _, _, _) => SwitchLivesRight(sys, step, id);
    case EnableForPlugin(_) => SwitchLivesRight(sys, step, id);
    case DisableForPlugin(_, _) => SwitchLivesRight(sys, step, id);
    case DisableInputEventDispatch(_, _, _) => EduLivesRight(sys, step, id);
    case SessionLost(_) => SessionLivesRight(sys, step, id);
    case Raw(_, _) =>
      assert StoreMatches(sys, id);
      RawLivesRight(sys, step, id);
    case _ =>
    }
  }

  lemma SwitchKeepsEdu(sys: System, step: Step)
    requires step.SetInputDeviceEnabled? || step.EnableForPlugin? || step.DisableForPlugin?
    ensures Next(sys, step).eduInputDisabled == sys.eduInputDisabled
  {
  }

  /** When all input is disabled, no device at all stays live. */
  lemma EduSilencesAll(sys: System, pid: int32, reacting: set<int32>, id: int32)
    requires !sys.eduInputDisabled
    ensures var after := Next(sys, DisableInputEventDispatch(true, pid, reacting));
            && after.eduInputDisabled && after.Devices().Keys == sys.Devices().Keys
            && (id in after.Devices() ==> !after.Devices()[id].enable)
  {
    if id in sys.Devices() {
      DisabledLives(sys.(eduInputDisabled := true, eduInputDisabledPid := pid), EnabledIds(sys.Devices()), reacting, id);
    }
  }

  // ----- One step, enable by waiting enable -----

  /** The observers of the device react to its being switched off by this step. */
  ghost predicate ReactsTo(sys: System, step: Step, id: int32) {
    && TurnsOff(sys, step, id) && id in step.reacting
    && (step.DisableForPlugin? || sys.Devices()[id].enable)
  }

  lemma RequestedWaits(sys: System, ids: set<int32>, id: int32)
    ensures Waiting(Requested(sys, ids), id)
       <==> if id in ids then !HoldsNothing(sys.states, id) else Waiting(sys, id)
  {
  }

  lemma DisabledWaits(sys: System, ids: set<int32>, reacting: set<int32>, id: int32)
    ensures Waiting(Disabled(sys, ids, reacting), id) <==> Waiting(sys, id) && !(id in ids && id in reacting)
  {
  }

  lemma SwitchWaits(sys: System, step: Step, id: int32)
    requires step.SetInputDeviceEnabled? || step.EnableForPlugin? || step.DisableForPlugin?
    ensures Waiting(Next(sys, step), id)
       <==> if AsksFor(sys, step, id) then !HoldsNothing(sys.states, id) else Waiting(sys, id) && !ReactsTo(sys, step, id)
  {
    var device := step.id;
    var on, off := WithInputEnable(sys, {device}, true), WithInputEnable(sys, {device}, false);
    RequestedWaits(on, {device}, id);
    DisabledWaits(off, {device}, if step.EnableForPlugin? then {} else step.reacting, id);
  }

  lemma EduWaits(sys: System, step: Step, id: int32)
    requires step.DisableInputEventDispatch? && StoreMatches(sys, id)
    ensures Waiting(Next(sys, step), id)
       <==> if AsksFor(sys, step, id) then !HoldsNothing(sys.states, id) else Waiting(sys, id) && !ReactsTo(sys, step, id)
  {
    RequestedWaits(sys.(eduInputDisabled := false, eduInputDisabledPid := NO_PID), sys.Devices().Keys, id);
    DisabledWaits(sys.(eduInputDisabled := true, eduInputDisabledPid := step.pid), EnabledIds(sys.Devices()), step.reacting, id);
  }

  lemma SessionWaits(sys: System, step: Step, id: int32)
    requires step.SessionLost? && StoreMatches(sys, id)
    ensures Waiting(Next(sys, step), id)
       <==> if AsksFor(sys, step, id) then !HoldsNothing(sys.states, id) else Waiting(sys, id)
  {
    var on := sys.(eduInputDisabled := false, eduInputDisabledPid := NO_PID);
    RequestedWaits(on, sys.Devices().Keys, id);
    var lifted := InputRecovered(sys, step.pid);
    var ids := RecoverableIds(lifted, step.pid);
    RequestedWaits(WithInputEnable(lifted, ids, true), ids, id);
    if id in sys.Devices() {
      RequestedLives(on, sys.Devices().Keys, id);
    }
    assert id in ids <==> id in sys.Devices() && id in sys.recoverList && sys.recoverList[id] == step.pid;
  }

  lemma RawWaits(sys: System, step: Step, id: int32)
    requires step.Raw? && StoreMatches(sys, id)
    ensures Waiting(Next(sys, step), id) <==> Waiting(sys, id) && !Releases(sys, step, id)
  {
    if FindId(sys.Devices(), step.handle) == Some(id) {
      ReleasesIffNothingLeft(sys, step, id);
      DS.EventKeepsPending(DS.StateOf(sys.states, id), step.event);
    }
  }

  /**
   For which devices an enable waits after a step: those it asks for while something is
   held; and those one waited for, unless it is asked for with nothing held, the device is
   released or unplugged, or it is turned off and an observer reacts.
   */
  lemma WhoWaits(sys: System, step: Step, id: int32)
    requires Coherent(sys)
    ensures Waiting(Next(sys, step), id)
       <==> if AsksFor(sys, step, id) then SomethingHeld(sys, id)
            else Waiting(sys, id) && !ReactsTo(sys, step, id) && !Releases(sys, step, id) && !Unplugs(sys, step, id)
  {
    HeldIffSomething(sys, id);
    assert StoreMatches(sys, id);
    match step {
    case SetInputDeviceEnabled(_, _, _, _) => SwitchWaits(sys, step, id);
    case EnableForPlugin(_) => SwitchWaits(sys, step, id);
    case DisableForPlugin(_, _) => SwitchWaits(sys, step, id);
    case DisableInputEventDispatch(_, _, _) => EduWaits(sys, step, id);
    case SessionLost(_) => SessionWaits(sys, step, id);
    case Raw(_, _) => RawWaits(sys, step, id);
    case _ =>
    }
  }

  /** What a step leaves held: only raw events and seeds open things, and only they and unplugging close them. */
  lemma WhatIsHeld(sys: System, step: Step, id: int32, item: DS.Item)
    requires step.Raw? || step.RecordOperations? || step.Add? || step.EnableRemote? || step.Remove?
    requires 0 <= id
    ensures DS.StateOf(Next(sys, step).states, id).Holds(item)
       <==> || (step.Raw? && FindId(sys.Devices(), step.handle) == Some(id) && DS.EventOpens(step.event, item))
            || (step.RecordOperations? && step.id == id && DS.SeedOpens(step.seed, item))
            || (DS.StateOf(sys.states, id).Holds(item)
                && !(step.Raw? && FindId(sys.Devices(), step.handle) == Some(id) && DS.EventCloses(step.event, item))
                && !(step.RecordOperations? && step.id == id
                     && ((step.seed == DS.ProximityFlag(false) && item == DS.Proximity)
                         || (step.seed == DS.AxisFlag(false) && item == DS.Axis)))
                && !Unplugs(sys, step, id))
  {
    var calls := StepCalls(sys, step);
    if calls != [] {
      DS.StepHolds(sys.states, calls[0], id, item);
    }
  }

  lemma RequestedHolds(sys: System, ids: set<int32>, id: int32, item: DS.Item)
    ensures DS.StateOf(Requested(sys, ids).states, id).Holds(item) <==> DS.StateOf(sys.states, id).Holds(item)
  {
    DS.ActiveIffHolds(DS.StateOf(sys.states, id));
  }

  lemma DisabledHolds(sys: System, ids: set<int32>, reacting: set<int32>, id: int32, item: DS.Item)
    ensures DS.StateOf(Disabled(sys, ids, reacting).states, id).Holds(item) <==> DS.StateOf(sys.states, id).Holds(item)
  {
  }

  /** Switching devices, by anyone, changes nothing of what is held. */
  lemma SwitchingHolds(sys: System, step: Step, id: int32, item: DS.Item)
    requires step.SetInputDeviceEnabled? || step.EnableForPlugin? || step.DisableForPlugin?
             || step.DisableInputEventDispatch? || step.SessionLost?
    ensures DS.StateOf(Next(sys, step).states, id).Holds(item) <==> DS.StateOf(sys.states, id).Holds(item)
  {
    var on := sys.(eduInputDisabled := false, eduInputDisabledPid := NO_PID);
    match step {
    case SetInputDeviceEnabled(device, enable, _, reacting) =>
      RequestedHolds(WithInputEnable(sys, {device}, enable), {device}, id, item);
      DisabledHolds(WithInputEnable(sys, {device}, enable), {device}, reacting, id, item);
    case EnableForPlugin(device) =>
      RequestedHolds(WithInputEnable(sys, {device}, true), {device}, id, item);
    case DisableForPlugin(device, reacting) =>
      DisabledHolds(WithInputEnable(sys, {device}, false), {device}, reacting, id, item);
    case DisableInputEventDispatch(_, pid, reacting) =>
      RequestedHolds(on, sys.Devices().Keys, id, item);
      DisabledHolds(sys.(eduInputDisabled := true, eduInputDisabledPid := pid), EnabledIds(sys.Devices()), reacting, id, item);
    case SessionLost(pid) =>
      RequestedHolds(on, sys.Devices().Keys, id, item);
      var lifted := InputRecovered(sys, pid);
      var ids := RecoverableIds(lifted, pid);
      RequestedHolds(WithInputEnable(lifted, ids, true), ids, id, item);
    }
  }

  // ----- Whom the recovery list names -----

  /** The step takes a live device off for its user. */
  ghost predicate Disables(sys: System, step: Step, id: int32) {
    && step.SetInputDeviceEnabled? && step.id == id && !step.enable
    && id in sys.Devices() && sys.Devices()[id].enable
  }

  /** The process that disabled the device at step `j` lost its session between then and `n`, with the device present. */
  ghost predicate DiedSince(steps: seq<Step>, id: int32, j: int, n: int)
    requires 0 <= j < n <= |steps| && steps[j].SetInputDeviceEnabled?
  {
    exists d :: j < d < n && steps[d] == SessionLost(steps[j].pid) && id in Run(steps[..d]).Devices()
  }

  /** Step `i` disables the device, and every earlier disabler so recorded had died by then. */
  ghost predicate Recorded(steps: seq<Step>, id: int32, i: int)
    requires 0 <= i < |steps|
    decreases i
  {
    && Disables(Run(steps[..i]), steps[i], id)
    && forall j :: 0 <= j < i && Recorded(steps, id, j) ==> DiedSince(steps, id, j, i)
  }

  /** Step `i` is the first disable of the device since it was last recovered, and its process has not died since. */
  ghost predicate FirstDisable(steps: seq<Step>, id: int32, n: int, i: int)
    requires n <= |steps|
  {
    0 <= i < n && Recorded(steps, id, i) && !DiedSince(steps, id, i, n)
  }

  lemma DiedSinceOneMore(steps: seq<Step>, id: int32, j: int, n: int)
    requires 0 <= j < n < |steps| && steps[j].SetInputDeviceEnabled?
    ensures DiedSince(steps, id, j, n + 1)
       <==> DiedSince(steps, id, j, n) || (steps[n] == SessionLost(steps[j].pid) && id in Run(steps[..n]).Devices())
  {
  }

  lemma FirstDisableIsUnique(steps: seq<Step>, id: int32, n: int, i: int, j: int)
    requires n <= |steps| && FirstDisable(steps, id, n, i) && FirstDisable(steps, id, n, j)
    ensures i == j
  {
  }

  ghost predicate EntryMatches(steps: seq<Step>, id: int32, n: int)
    requires 0 <= n <= |steps|
  {
    var list := Run(steps[..n]).recoverList;
    && (id in list <==> exists i :: FirstDisable(steps, id, n, i))
    && (forall i :: FirstDisable(steps, id, n, i) ==> id in list && list[id] == steps[i].pid)
  }

  lemma EntryMatchesOneMore(steps: seq<Step>, id: int32, n: int)
    requires 0 <= n < |steps| && EntryMatches(steps, id, n)
    ensures EntryMatches(steps, id, n + 1)
  {
    var sys, step := Run(steps[..n]), steps[n];
    assert steps[..n + 1][..n] == steps[..n];
    assert Run(steps[..n + 1]) == Next(sys, step);
    RecoveryEntries(sys, step, id);
    forall i | 0 <= i < n && Recorded(steps, id, i)
      ensures FirstDisable(steps, id, n + 1, i)
         <==> FirstDisable(steps, id, n, i) && !(step == SessionLost(steps[i].pid) && id in sys.Devices())
    {
      DiedSinceOneMore(steps, id, i, n);
    }
    if Disables(sys, step, id) && id !in sys.recoverList {
      assert FirstDisable(steps, id, n + 1, n);
    }
    if i :| FirstDisable(steps, id, n, i) {
      assert !Recorded(steps, id, n);
      assert FirstDisable(steps, id, n + 1, i) <==> !(step == SessionLost(steps[i].pid) && id in sys.Devices());
    }
  }

  lemma {:induction false} EntryMatchesUpto(steps: seq<Step>, id: int32, n: nat)
    requires n <= |steps|
    ensures EntryMatches(steps, id, n)
  {
    if n > 0 {
      EntryMatchesUpto(steps, id, n - 1);
      EntryMatchesOneMore(steps, id, n - 1);
    } else {
      assert steps[..0] == [];
    }
  }

  /** The recovery list holds a device exactly if it has a first disable since its last recovery, and then names that disabler. */
  lemma EntryNamesFirstDisabler(steps: seq<Step>, id: int32, n: nat)
    requires n <= |steps|
    ensures EntryMatches(steps, id, n)
    ensures forall i, j :: FirstDisable(steps, id, n, i) && FirstDisable(steps, id, n, j) ==> i == j
  {
    EntryMatchesUpto(steps, id, n);
    forall i, j | FirstDisable(steps, id, n, i) && FirstDisable(steps, id, n, j) ensures i == j {
      FirstDisableIsUnique(steps, id, n, i, j);
    }
  }

  lemma EntryNames(steps: seq<Step>, id: int32, pid: int32)
    ensures id in Run(steps).recoverList && Run(steps).recoverList[id] == pid
       <==> exists i :: FirstDisable(steps, id, |steps|, i) && steps[i].pid == pid
  {
    EntryMatchesUpto(steps, id, |steps|);
    assert steps[..|steps|] == steps;
  }

  /**
   After any run, the end of a session gives a disabled device back to its user exactly if
   the session is that of the first to disable it since its last recovery, whoever
   disabled it last.
   */
  lemma WhoseEndRevives(steps: seq<Step>, id: int32, pid: int32)
    requires id in Run(steps).Devices() && !Run(steps).Devices()[id].inputEnable
    ensures id in Run(steps + [SessionLost(pid)]).Devices()
    ensures Run(steps + [SessionLost(pid)]).Devices()[id].inputEnable
       <==> exists i :: FirstDisable(steps, id, |steps|, i) && steps[i].pid == pid
  {
    RunSnoc(steps, SessionLost(pid));
    SessionGoneSwitch(Run(steps), pid, id);
    EntryNames(steps, id, pid);
  }

  /**
   What a disable promises, that the end of the disabling session undoes it, it keeps
   exactly if the recovery list names that process already, or names none and the device is
   live. More generally, whose end undoes it can be read off before the call.
   */
  lemma DisableIsUndoneBy(sys: System, id: int32, pid: int32, reacting: set<int32>, other: int32)
    requires id in sys.Devices()
    ensures var after := SessionGone(SetEnabled(sys, id, false, pid, reacting), other);
            && id in after.Devices()
            && (after.Devices()[id].inputEnable
                <==> if id in sys.recoverList then sys.recoverList[id] == other else sys.Devices()[id].enable && pid == other)
  {
    var off := SetEnabled(sys, id, false, pid, reacting);
    SetEnabledSwitch(sys, id, false, pid, reacting, id);
    RecoveryEntries(sys, SetInputDeviceEnabled(id, false, pid, reacting), id);
    SessionGoneSwitch(off, other, id);
  }

  // ----- It can be the wrong process -----

  ghost predicate UserDisabled(steps: seq<Step>, id: int32) {
    id in Run(steps).Devices() && !Run(steps).Devices()[id].inputEnable
  }

  ghost predicate Idle(sys: System, id: int32, on: bool, recoverList: map<int32, int32>) {
    && id in sys.Devices() && sys.Devices()[id].enable == on && sys.Devices()[id].inputEnable == on
    && sys.recoverList == recoverList && sys.states == map[] && !sys.eduInputDisabled
  }

  lemma IdleAfterAdd(raw: RawDevice)
    requires 0 <= raw.eventId && !raw.remote
    ensures Idle(DeviceAdded(INITIAL, raw), raw.eventId, true, map[])
  {
  }

  lemma IdleAfterSwitch(sys: System, id: int32, on: bool, pid: int32, recoverList: map<int32, int32>)
    requires Idle(sys, id, !on, recoverList)
    ensures Idle(SetEnabled(sys, id, on, pid, {}), id, on,
                 if on || id in recoverList then recoverList else recoverList[id := pid])
  {
  }

  /** `first` disables a device; `second` enables it and disables it again. */
  ghost function Rivalry(raw: RawDevice, first: int32, second: int32): seq<Step> {
    [Add(raw)]
    + [SetInputDeviceEnabled(raw.eventId, false, first, {})]
    + [SetInputDeviceEnabled(raw.eventId, true, second, {})]
    + [SetInputDeviceEnabled(raw.eventId, false, second, {})]
  }

  lemma AfterRivalry(raw: RawDevice, first: int32, second: int32)
    requires 0 <= raw.eventId && !raw.remote
    ensures Idle(Run(Rivalry(raw, first, second)), raw.eventId, false, map[raw.eventId := first])
  {
    var id := raw.eventId;
    var s1 := [Add(raw)];
    var s2 := s1 + [SetInputDeviceEnabled(id, false, first, {})];
    var s3 := s2 + [SetInputDeviceEnabled(id, true, second, {})];
    assert s1[..0] == [];
    IdleAfterAdd(raw);
    assert Run(s1) == DeviceAdded(INITIAL, raw);
    RunSnoc(s1, SetInputDeviceEnabled(id, false, first, {}));
    IdleAfterSwitch(Run(s1), id, false, first, map[]);
    RunSnoc(s2, SetInputDeviceEnabled(id, true, second, {}));
    IdleAfterSwitch(Run(s2), id, true, second, map[id := first]);
    RunSnoc(s3, SetInputDeviceEnabled(id, false, second, {}));
    IdleAfterSwitch(Run(s3), id, false, second, map[id := first]);
  }

  lemma DeathWhileIdle(sys: System, id: int32, owner: int32, pid: int32)
    requires Idle(sys, id, false, map[id := owner])
    ensures id in SessionGone(sys, pid).Devices()
    ensures SessionGone(sys, pid).Devices()[id].inputEnable <==> pid == owner
  {
    SessionGoneSwitch(sys, pid, id);
  }

  /**
   A recovery entry outlives the enable that undid it. After the rivalry the device is off
   because `second` wants it off; yet the one process whose death revives it is `first`.
   */
  lemma StaleRecoveryOwner(raw: RawDevice, first: int32, second: int32, pid: int32)
    requires 0 <= raw.eventId && !raw.remote
    ensures var steps := Rivalry(raw, first, second);
            && UserDisabled(steps, raw.eventId)
            && (UserDisabled(steps + [SessionLost(pid)], raw.eventId) <==> pid != first)
  {
    var steps := Rivalry(raw, first, second);
    AfterRivalry(raw, first, second);
    RunSnoc(steps, SessionLost(pid));
    DeathWhileIdle(Run(steps), raw.eventId, first, pid);
  }
}
