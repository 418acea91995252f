# Multimodal input: models and proofs

A Dafny model of the stateful core of the OpenHarmony multimodal input service, with
proofs about it. Each component has a specification, written as functions on values; a
class or methods in the form of the C++ or Python code, proved to do what the
specification says; and theorems about every run of the specification.

| file | component |
|---|---|
| `DeviceStateManager.dfy` | the store of pending enables: what is held on each device, and the callback waiting for its release |
| `PhysicalIndex.dfy` | the index of physical devices, their tags, and which tablets count as pointers |
| `EnableProtocol.dfy` | who decides whether a device is live: user, edu switch, plugins, session recovery, pending enables, hotplug |
| `VirtualIds.dfy` | ids of virtual devices |
| `InputDeviceManager.dfy` | the device manager class, refining the three files above |
| `DelegateTasks.dfy` | the task queue between clients and the worker, as atomic steps, and the queue class |
| `HotkeyNames.dfy`, `HotkeyRegistry.dfy` | names of hotkeys, and the client-side registry keyed by them |
| `TouchDispatch.dfy` | the list of windows that saw each pointer go down |
| `GestureFilter.dfy`, `CrownRotation.dfy` | the gesture filter and the crown gesture machine |
| `HandlerAggregation.dfy` | the one registration that stands for all local handlers |
| `UdevBitmap.dfy`, `UdevSymlink.dfy` | sysfs bitmaps and symbolic links |
| `ResourceContainer.dfy` | the resource container, its packer and a decoder for it |
| `Basics.dfy`, `Text.dfy` | 32-bit integers, optional values, decimal numbers, splitting and joining |

`dafny verify dfyconfig.toml` checks the whole project. Most theorems compare the state
with a second definition that does not mention it: what is open, pending, live,
registered or remembered is read off the history of calls alone, and the theorem says
that the code's fields agree.

Results that differ from what one might expect of the code:

- Clearing a proximity or axis flag through its setter can leave an enable pending with
  nothing held (`StrandedEnable`); this is the only way (`OnlyClearedFlagsStrand`), and
  the only way the device manager can lose an enable (`AlwaysHeldIffNeverStranded`,
  `NoEnableIsLost`). It is a failure of the public interface: the service itself calls
  `SetProximity` only with true (tablet_tool_tranform_processor.cpp:136) and never calls
  `SetAxisBegin`, so no seed it sends strands an enable.
- A recovery entry outlives the enable that undid it, so a later disable by another
  process is undone by the death of the wrong one (`StaleRecoveryOwner`). Whose death
  undoes a disable is in `DisableIsUndoneBy` for one call, `WhoseEndRevives` for runs.
- A client told that its task timed out, and was not running, can still have it run
  (`TimeoutRaceHappens`); exactly when is `TimeoutIsFinalUnlessPassed` and, at the moment
  of telling, `TimeoutIsFinalUnlessRacing`.
- A failed pipe read wakes the worker for ever after (`FailedReadWakesForever`).
- Hotkeys with three or four pre-keys are accepted and can never be matched
  (`PressIsRecognised`, `ManyPreKeysNeverMatch`).
- A hotkey subscription that the server does not end stays live without a callback, and
  nobody looks (`RemoveKeepsExactIff`); it is taken up again if the client hands the same
  id out for the next registration (`OrphansWereLeftBehind`). A client that cannot connect
  answers -1, and the registration succeeds without one (`SuccessWithoutSubscription`).
- An up or cancel does not use up the down it needs (`EndsAreNotConsumed`).
- A missing interceptor handler leaves a handler listed but unregistered
  (`AddKeepsSyncIff`), or registered but no longer listed (`RemoveKeepsSyncIff`). Both
  reports carry no session, which `EventInterceptorHandler` refuses: with it, no local
  interceptor with a flag is ever listed (`AllRefused`).
- A link target with ".." or "." after its leading ones is joined, not normalised
  (`ResultIsNormalIff`); an absolute target is read as relative (`ResolvesWhatItDenotes`).

## Model

| member | source | states |
|---|---|---|
| `DeviceStates.HeldIsOpen` | service/device_manager/src/device_state_manager.cpp:79-151 | after every run of calls, the store holds a touch, button, key, tip, proximity or axis exactly when the history shows it opened and not closed since |
| `DeviceStates.ActiveIffOpen` | service/device_manager/src/device_state_manager.cpp:153-161 | the store sees active operations on a device exactly when something is still open in the history |
| `DeviceStates.StoredIsPending` | service/device_manager/src/device_state_manager.cpp:416-487 | the stored callback is exactly the one last given to an enable that had to wait and that no enable, disable, removal or release has settled since |
| `DeviceStates.FiresOnRelease` | service/device_manager/src/device_state_manager.cpp:416-478 | a callback is called by a step exactly when it is given while nothing is open, or when it is pending and this event releases the last open item |
| `DeviceStates.CallbacksAreConserved` | service/device_manager/src/device_state_manager.cpp:416-487 | over every run and device, each callback handed in was called, superseded by a later enable, dropped by a disable or removal, or is still pending: the four counts add up to the number of times it was given |
| `DeviceStates.StepConserves` | service/device_manager/src/device_state_manager.cpp:416-487 | one call conserves callbacks; only an enable supersedes, only a disable or removal drops |
| `DeviceStates.OnlyClearedFlagsStrand` | service/device_manager/src/device_state_manager.cpp:388-414 | after any run of calls, a callback waits with nothing open exactly when a SetProximity(false) or SetAxisBegin(false) found that flag the one open item under a pending callback, and every call since was about another device or a seed holding nothing |
| `DeviceStates.StrandedSnoc` | service/device_manager/src/device_state_manager.cpp:388-414 | the law of one call, without assumption: it leaves a callback waiting on nothing exactly when it takes the last flag, or when one waited so already and the call ignores the device |
| `DeviceStates.StrandedEnable` | service/device_manager/src/device_state_manager.cpp:143-151 | a concrete run that strands an enable: the seed clears the flag, and nothing looks at the pending callback |
| `DeviceStates.DeviceStateManager.EnableDevice` | service/device_manager/src/device_state_manager.cpp:416-438 | calls back at once if nothing is held and forgets the state, stores the callback otherwise; new state as in the specification |
| `DeviceStates.DeviceStateManager.HandleEvent` | service/device_manager/src/device_state_manager.cpp:451-478 | the class method refines the specified step, including which callback is called and when the state is erased |
| `DeviceStates.DeviceStateManager.DisableDevice` | service/device_manager/src/device_state_manager.cpp:440-449 | drops the stored callback and nothing else |
| `DeviceStates.DeviceStateManager.OnDeviceRemoved` | service/device_manager/src/device_state_manager.cpp:480-487 | forgets the device's state and its callback |
| `DeviceStates.DeviceStateManager.AddOperations` | service/device_manager/src/device_state_manager.cpp:346-414 | the five seeding calls merge what is already held into the device's state |
| `PhysicalIndex.IndexAlwaysAgrees` | service/device_manager/src/input_device_manager.cpp:798-884 | over every legal run of adds and removes: each group holds exactly the devices with its non-empty physical id and is never empty, and a device counts as a pointer exactly when it was one when made, or is tagged as a tablet and has the pointer property or a group with pointer tags |
| `PhysicalIndex.AddedKeepsInvariant` | service/device_manager/src/input_device_manager.cpp:1429-1434 | adding a device keeps groups, pointer closure, handles and origins in agreement exactly when its event id is free, or that of a device in no group or in the same one |
| `PhysicalIndex.AgreesThroughoutIffLegal` | service/device_manager/src/input_device_manager.cpp:798-884 | the index agrees after every step of a run exactly when no add in it breaks that condition on event ids |
| `PhysicalIndex.RemovedKeepsInvariant` | service/device_manager/src/input_device_manager.cpp:1448-1471 | removing a device keeps them in agreement, although the other members are not checked again |
| `PhysicalIndex.DevicesAreLive` | service/device_manager/src/input_device_manager.cpp:932-983 | where event ids in use are not given again, a libinput device is in the map exactly when it was added and not removed since |
| `PhysicalIndex.GroupTagsAreRemembered` | service/device_manager/src/input_device_manager.cpp:294-301 | a group's tags are the union over the members added since the physical device last had none, members already gone included |
| `PhysicalIndex.PointersByHistory` | service/device_manager/src/input_device_manager.cpp:860-884 | after every legal run a device counts as a pointer exactly if it was one when it came, or it is a tablet that has the pointer property or belongs to a physical device of which some member since it last had none carried the mouse, trackball, pointing stick, touchpad or tablet pad tag |
| `PhysicalIndex.DevicesAreInPlace` | service/device_manager/src/input_device_manager.cpp:1429-1471 | at every point of every legal run the map has a device under an id, with what is known of it, exactly if it was taken in under that id and since then neither removed nor replaced |
| `InputDeviceManagement.InputDeviceManager.FindInputDeviceId` | service/device_manager/src/input_device_manager.cpp:1175-1189 | the search loop returns the id of the one device with the handle, or -1 |
| `InputDeviceManagement.InputDeviceManager.UpdatePhysicalInputDevice` | service/device_manager/src/input_device_manager.cpp:798-815 | joins the device to its group, making one if needed, and gathers its tags |
| `InputDeviceManagement.InputDeviceManager.RemoveInputDeviceFromPhysicalDevice` | service/device_manager/src/input_device_manager.cpp:817-839 | leaves the group and deletes it when it becomes empty; other groups unchanged |
| `InputDeviceManagement.InputDeviceManager.CheckInputDeviceCaps` | service/device_manager/src/input_device_manager.cpp:860-884 | upgrades one tablet to a pointer device by its property or its group's tags |
| `InputDeviceManagement.InputDeviceManager.UpdateInputDeviceCaps` | service/device_manager/src/input_device_manager.cpp:841-858 | rechecks every member of the device's group, or the device alone; the loop equals one simultaneous recheck |
| `InputDeviceManagement.InputDeviceManager.OnInputDeviceAdded` | service/device_manager/src/input_device_manager.cpp:932-983 | refines the plug step for every event id, used or not: known handles and negative ids are refused, both switches decide whether the new device is live; the invariant survives exactly when the id is admissible |
| `InputDeviceManagement.InputDeviceManager.OnInputDeviceRemoved` | service/device_manager/src/input_device_manager.cpp:1042-1081 | refines the unplug step, and the pending-enable store forgets the device |
| `EnableProtocol.LiveExactlyWhenAllowed` | service/device_manager/src/input_device_manager.cpp:1798-1979 | after every legal run of user, plugin, edu, session, raw-event and hotplug steps, a local device is live only if its user switch is on and the edu switch is not; and whenever no enable is pending for it the two are equivalent |
| `EnableProtocol.WhoLives` | service/device_manager/src/input_device_manager.cpp:1798-1979 | the law of one step for every device, remote ones included: it is live after exactly if the step asks for it, or releases it while an enable waits, with nothing held and both switches on by then, or if it was live and the step does not turn it off; the remote switch besides sets exactly the remote ones |
| `EnableProtocol.EduSilencesAll` | service/device_manager/src/input_device_manager.cpp:1897-1908 | when all input is disabled, no device at all stays live, remote or not |
| `EnableProtocol.WhoWaits` | service/device_manager/src/input_device_manager.cpp:1798-1979 | the law of one step for waiting enables: one waits after exactly if the step asks for the device while something is held, or one waited before and the step neither asks for the device, releases it, unplugs it, nor turns it off with an observer reacting |
| `EnableProtocol.WhatIsHeld` | service/device_manager/src/device_state_manager.cpp:79-151 | what a step leaves held on a device: raw events and seeds open items, raw events, cleared flags and unplugging close them, nothing else |
| `EnableProtocol.SwitchingHolds` | service/device_manager/src/device_state_manager.cpp:416-449 | no user, plugin, edu or session step changes what is held |
| `EnableProtocol.PresentAfter` | service/device_manager/src/input_device_manager.cpp:932-1081 | a step adds and removes exactly the device it plugs or unplugs |
| `EnableProtocol.NewDevice` | service/device_manager/src/input_device_manager.cpp:1019-1040 | a new device has its user switch on, and is live exactly if it is local and the edu switch is not set |
| `EnableProtocol.IndexRunsHotplugs` | service/device_manager/src/input_device_manager.cpp:932-1081 | the devices and groups of a run of the whole system are those of its adds and removes alone, so what is proved of these holds of the system |
| `EnableProtocol.WhoPoints` | service/device_manager/src/input_device_manager.cpp:860-884 | so which devices of a running system count as pointers can be read off its adds and removes |
| `EnableProtocol.NoEnableIsLost` | service/device_manager/src/input_device_manager.cpp:2088-2114 | after every legal run, a local device that both switches allow but that is not live has an enable pending by the history of the run, and something opened on it in the run is open still, exactly unless a step stranded the enable and every step since has overlooked it |
| `EnableProtocol.StrandedIffLeftSo` | service/device_manager/src/input_device_manager.cpp:1798-1979 | at every point of every run, an enable waits on nothing exactly if a seed took the last held flag from under it and every step since has told the store only of other devices or that nothing is held |
| `EnableProtocol.StoreRunsCalls` | service/device_manager/src/input_device_manager.cpp:1798-1979 | the store in a run of the whole system is the store after the calls the run makes to it, in any order within a loop, so what is proved of the store's call history holds of the system |
| `EnableProtocol.StoreByHistory` | service/device_manager/src/device_state_manager.cpp:153-161 | so what waits and what is held in a run can be read off the calls it makes |
| `EnableProtocol.NextKeepsHeld` | service/device_manager/src/input_device_manager.cpp:1798-1979 | a step lets an enable come to wait on nothing exactly if it is a seed for this device that clears the one flag the waiting enable is held up by |
| `EnableProtocol.AlwaysHeldIffNeverStranded` | service/device_manager/src/input_device_manager.cpp:1798-1979 | over a whole legal run, a waiting enable of the device always waits on something exactly if no step of the run strands it so |
| `EnableProtocol.RunIsCoherent` | service/device_manager/src/input_device_manager.cpp:1798-1979 | the whole invariant over runs: index, switches, owner pid, and a store that waits only for devices there are |
| `EnableProtocol.NextKeepsCoherent` | service/device_manager/src/input_device_manager.cpp:1798-1979 | a step of any of the ten kinds keeps that invariant, except exactly an add that puts a device in the place of one in another group |
| `EnableProtocol.WhoSwitchesDevice` | service/device_manager/src/input_device_manager.cpp:1798-1880 | a step leaves a device's user switch on exactly when it is one of the steps that switch it on for this device (a new device under its id included), or it was on and the step does not switch it off |
| `EnableProtocol.WhoLiftsEduSwitch` | service/device_manager/src/input_device_manager.cpp:1882-1946 | the edu switch is lifted exactly by its owner, by anyone if it has none, or by the end of the owner's session; its owner never changes while it is set |
| `EnableProtocol.RecoveryEntries` | service/device_manager/src/input_device_manager.cpp:1948-1979 | when an entry of the recovery list appears and disappears, and that it never changes in between |
| `EnableProtocol.EntryNamesFirstDisabler` | service/device_manager/src/input_device_manager.cpp:1948-1979 | at every point of every run, the recovery list holds a device exactly if a live device was disabled by a process that has not died since, when every earlier disabler so recorded had; there is at most one such disable, and the entry is its process |
| `EnableProtocol.WhoseEndRevives` | service/device_manager/src/input_device_manager.cpp:1948-1979 | after every run, the end of a session switches a disabled device on for its user exactly if the session is that of this first disabler, whoever disabled it last |
| `EnableProtocol.DisableIsUndoneBy` | service/device_manager/src/input_device_manager.cpp:1798-1828 | from any state, whose session loss undoes a disable: the process already listed for the device if there is one, else the caller if the device is live, else nobody |
| `EnableProtocol.StaleRecoveryOwner` | service/device_manager/src/input_device_manager.cpp:1798-1828 | a concrete run in which that is the wrong one: after one pid disables, and another enables and disables again, the one pid whose session loss switches the device back on is the first |
| `InputDeviceManagement.InputDeviceManager.SetInputDeviceEnabled` | service/device_manager/src/input_device_manager.cpp:1798-1828 | refines the user step, with its two status codes, the result sent to the session, and the recovery entry that is not overwritten |
| `InputDeviceManagement.InputDeviceManager.EnableInputDevice` | service/device_manager/src/input_device_manager.cpp:2088-2114 | the deferred enable looks at both switches again and answers which one forbids it |
| `InputDeviceManagement.InputDeviceManager.EnableInputDeviceForPlugin` | service/device_manager/src/input_device_manager.cpp:1847-1862 | refines the plugin enable step |
| `InputDeviceManagement.InputDeviceManager.DisableInputDeviceForPlugin` | service/device_manager/src/input_device_manager.cpp:1864-1880 | refines the plugin disable step |
| `InputDeviceManagement.InputDeviceManager.DisableInputEventDispatch` | service/device_manager/src/input_device_manager.cpp:1882-1924 | refines the edu step: refused to another pid, disables exactly the live devices, asks for all of them when lifted |
| `InputDeviceManagement.InputDeviceManager.RecoverInputEnabled` | service/device_manager/src/input_device_manager.cpp:1926-1946 | lifts the edu switch for its owner's session only |
| `InputDeviceManagement.InputDeviceManager.RecoverInputDeviceEnabled` | service/device_manager/src/input_device_manager.cpp:1948-1979 | switches on exactly the present devices listed under the pid and removes exactly their entries; the loop over the list equals one simultaneous step |
| `InputDeviceManagement.InputDeviceManager.OnSessionLost` | service/device_manager/src/input_device_manager.cpp:1692-1716 | both recoveries in order refine the session step |
| `InputDeviceManagement.InputDeviceManager.OnEnableInputDevice` | service/device_manager/src/input_device_manager.cpp:1316-1346 | switches exactly the remote devices, checking neither switch |
| `InputDeviceManagement.InputDeviceManager.HandleStateEvent` | service/device_manager/src/device_state_manager.cpp:451-478 | a raw event through store and manager together refines the raw step: the stored enable may fire and is checked again |
| `VirtualIds.LiveIdsAreSafe` | service/device_manager/src/input_device_manager.cpp:1348-1393 | over every run, live ids lie in [1000, 2^31-2], there are at most 128, and no two devices share a name; the counter stays in range through its wrap |
| `VirtualIds.GivenIdIsNew` | service/device_manager/src/input_device_manager.cpp:1640-1659 | an id given out is in range and was not live; the other devices stay |
| `VirtualIds.NextAfterSuccess` | service/device_manager/src/input_device_manager.cpp:1640-1659 | the first id is 1000, and an add after a successful one, with room left and a fresh name, gets the next id, or 1000 after 2^31-2, exactly if that is free |
| `VirtualIds.LiveIdsAreGiven` | service/device_manager/src/input_device_manager.cpp:1348-1393 | at every point of every run the live virtual devices are exactly those given an id under their name and not removed since |
| `VirtualIds.RetryingSucceeds` | service/device_manager/src/input_device_manager.cpp:1640-1659 | with room left, calling again succeeds after at most as many failures as there are live devices, hence within 128 calls, from any counter |
| `InputDeviceManagement.InputDeviceManager.GenerateVirtualDeviceId` | service/device_manager/src/input_device_manager.cpp:1640-1659 | the id and the counter after a call, the count limit first, then wrap, then collision |
| `InputDeviceManagement.InputDeviceManager.AddVirtualInputDevice` | service/device_manager/src/input_device_manager.cpp:1348-1393 | refines the specified add and keeps the ids safe: duplicate names and failed generation are refused without a new device |
| `InputDeviceManagement.InputDeviceManager.RemoveVirtualInputDevice` | service/device_manager/src/input_device_manager.cpp:1608-1625 | removes one id, or answers an error for an id not there |
| `DelegateTaskProtocol.HandledInOrder` | service/delegate_task/src/delegate_tasks.cpp:90-111 | under every interleaving, handled ++ popped batch ++ queue is exactly the posted tasks in order; batches hold at most 10 and the queue at most 1001 |
| `DelegateTaskProtocol.IdsFollowOrder` | service/delegate_task/src/delegate_tasks.cpp:172-200 | ids ascend in posting order, for runs of fewer than 2^64 posts |
| `DelegateTaskProtocol.WakeupsAreExact` | service/delegate_task/src/delegate_tasks.cpp:90-111 | unread records equal queued tasks, plus popped tasks whose records are unread, plus what failed reads left; so a non-empty queue always leaves the pipe readable, and an idle worker with an empty queue is woken exactly if a read has failed |
| `DelegateTaskProtocol.FailedReadWakesForever` | service/delegate_task/src/delegate_tasks.cpp:105-110 | once a read has failed, the pipe stays readable in every continuation |
| `DelegateTaskProtocol.ValuesAreFaithful` | service/delegate_task/src/delegate_tasks.cpp:113-143 | a value a client gets is what that task's callback returned on its one run; a timeout while running means that the task was not discarded; a handled task ran exactly if the first check found it not waited for |
| `DelegateTaskProtocol.HandledTasksDeliver` | service/delegate_task/src/delegate_tasks.cpp:36-50 | under every interleaving, a handled task nobody had given up waiting for has run once, and its client, if it has one, is left exactly what the callback returned; asynchronous tasks are always run |
| `DelegateTaskProtocol.ClientGetsItsValue` | service/delegate_task/src/delegate_tasks.cpp:113-143 | a client still waiting when its task has been handled is then told what the callback returned on its one run |
| `DelegateTaskProtocol.HowWaitsEnd` | service/delegate_task/src/delegate_tasks.cpp:124-128 | a wait ends ready exactly if the promise is set by then, and the task is marked as waited for after that, not before |
| `DelegateTaskProtocol.WhatClientsAreTold` | service/delegate_task/src/delegate_tasks.cpp:128-142 | in any run, a client that saw the promise ready is told what the callback returned; one that timed out is told that the task is running exactly if it is marked so by then, and a plain timeout otherwise |
| `DelegateTaskProtocol.ClientsStepInOrder` | service/delegate_task/src/delegate_tasks.cpp:113-143 | a client moves on only by its own steps, in their order, and nothing else marks its task as waited for |
| `DelegateTaskProtocol.ReturnedIsItsResult` | service/delegate_task/src/delegate_tasks.cpp:43-44 | what a callback is said to have returned is the result of the one step of the run that ran it |
| `DelegateTaskProtocol.WhichPostsAreTaken` | service/delegate_task/src/delegate_tasks.cpp:172-200 | at any point of any run a post queues its task, last, exactly if at most 1000 are queued and the pipe takes the record; the id is used up even if it does not |
| `DelegateTaskProtocol.WhatIsPopped` | service/delegate_task/src/delegate_tasks.cpp:155-170 | an idle worker with the lock takes the first ten queued tasks, or all if there are fewer; without it, nothing |
| `DelegateTaskProtocol.WorkerFinishes` | service/delegate_task/src/delegate_tasks.cpp:98-104 | whatever the other threads have done, a popped task is handled within five steps of the worker |
| `DelegateTaskProtocol.PromiseSetOnce` | service/delegate_task/src/delegate_tasks.cpp:36-50 | a promise about to be set is unset, and a set promise never changes |
| `DelegateTaskProtocol.DoomedNeverRuns` | service/delegate_task/src/delegate_tasks.cpp:36-50 | a task waited for before the worker's first look at it never runs, whatever follows |
| `DelegateTaskProtocol.TimeoutIsFinalUnlessPassed` | service/delegate_task/src/delegate_tasks.cpp:127-137 | for a client that was told of a plain timeout, in any run: the callback never runs in any continuation exactly when the worker's first look had not let the task pass |
| `DelegateTaskProtocol.TimeoutIsFinalUnlessRacing` | service/delegate_task/src/delegate_tasks.cpp:127-137 | a client about to be told is then told a plain timeout, and after that the callback never runs exactly when the worker was not between its first look and marking the task as running |
| `DelegateTaskProtocol.TimeoutRaceHappens` | service/delegate_task/src/delegate_tasks.cpp:36-44 | eight steps in which a client is told of a plain timeout and the callback runs after that |
| `DelegateTaskProtocol.RunIsSound` | service/delegate_task/src/delegate_tasks.cpp:36-50 | the invariant over all interleavings behind these: where each task, its client and the worker are |
| `DelegateTaskQueue.DelegateTasks.PostTask` | service/delegate_task/src/delegate_tasks.cpp:172-200 | refines the post step: refused on the worker thread and above 1000 queued tasks, the id used up even if the pipe refuses |
| `DelegateTaskQueue.DelegateTasks.PopPendingTaskList` | service/delegate_task/src/delegate_tasks.cpp:155-170 | takes the first ten tasks or fewer in order, none without the lock |
| `HotkeyNames.NameRoundTrip` | frameworks/native/input/oh_input_manager.cpp:2461-2484 | a hotkey name decodes to its pre-keys, final key and repeat flag |
| `HotkeyNames.DifferentHotkeysDifferentNames` | frameworks/native/input/oh_input_manager.cpp:2461-2484 | two hotkeys have the same name exactly when they are the same |
| `HotkeyNames.WhichAreAccepted` | frameworks/native/input/oh_input_manager.cpp:2486-2527 | a registration is accepted exactly with one to four pre-keys, all of them Alt, Shift or Ctrl, and a final key that is none of these nor Meta and not negative |
| `HotkeyNames.MakeHotkeyInfo` | frameworks/native/input/oh_input_manager.cpp:2486-2527 | the loop over the pre-keys and the checks decide that, and build the name |
| `HotkeyNames.EventNames` | frameworks/native/input/oh_input_manager.cpp:2566-2603 | an event yields a hotkey's name exactly when it is that key going down, with equal repeat flag, at most three items, and the other items are the pre-keys |
| `HotkeyNames.PressIsRecognised` | frameworks/native/input/oh_input_manager.cpp:2486-2527 | pressing an accepted hotkey is recognised exactly when it has at most two pre-keys, although registration accepts four |
| `HotkeyNames.ManyPreKeysNeverMatch` | frameworks/native/input/oh_input_manager.cpp:149-150 | no event that lists its own key matches a hotkey with three or four pre-keys |
| `HotkeyNames.GetHotkeyName` | frameworks/native/input/oh_input_manager.cpp:2461-2484 | the loop over the sorted set builds the comma-separated name |
| `HotkeyNames.CheckHotkey` | frameworks/native/input/oh_input_manager.cpp:2566-2603 | the loop over the key items computes the name of the event, or refuses it |
| `HotkeyRegistry.CoveredThroughoutIffHonest` | frameworks/native/input/oh_input_manager.cpp:2653-2800 | over every run, with removals granted by the server or not: callbacks in a list are distinct and share one live subscription that no other list has, throughout if and only if every answer to a subscribe request is a known refusal or an id that no list has and that is not taken for an error |
| `HotkeyRegistry.SubscriptionsAreExact` | frameworks/native/input/oh_input_manager.cpp:2653-2800 | over every run with such a server, the live subscriptions are those of the non-empty lists, and besides them exactly the ones left behind by a removal that was not granted and not handed out since |
| `HotkeyRegistry.OrphansWereLeftBehind` | frameworks/native/input/oh_input_manager.cpp:2794-2796 | at every point of such a run, a live subscription belongs to no list exactly if a removal of the last callback failed to end it and the server has not handed it out since |
| `HotkeyRegistry.AddIsCoveredIffReplyHonest` | frameworks/native/input/oh_input_manager.cpp:2672-2699 | where the server is asked, registering keeps every list covered exactly when the answer is such a one |
| `HotkeyRegistry.SuccessWithoutSubscription` | frameworks/proxy/event_handler/src/key_event_input_subscribe_manager.cpp:246-249 | any other negative answer, as a client that cannot connect gives, is answered with success, and the callback is listed without a subscription |
| `HotkeyRegistry.AddIsExactIffReplyHonest` | frameworks/native/input/oh_input_manager.cpp:2653-2711 | where lists and live subscriptions match, registering keeps them so exactly when the server is not asked, or answers so |
| `HotkeyRegistry.RemoveKeepsExactIff` | frameworks/native/input/oh_input_manager.cpp:2766-2800 | where they match, unregistering keeps them so exactly unless the last callback leaves and the server does not end the subscription |
| `HotkeyRegistry.RemoveAsks` | frameworks/native/input/oh_input_manager.cpp:2720-2747 | the subscription goes when and only when the last callback does and the request is granted |
| `HotkeyRegistry.ListsHoldTheRegistered` | frameworks/native/input/oh_input_manager.cpp:2544-2564 | a callback is in a hotkey's list exactly when it was registered with success and not unregistered since |
| `HotkeyRegistry.WhatIsAnswered` | frameworks/native/input/oh_input_manager.cpp:2653-2711 | which status a registration gets: a parameter error for unacceptable keys or a callback already there, one of three refusals exactly if the server is asked and answers -2, -3 or -4, success otherwise |
| `HotkeyRegistry.HotkeyMonitors.AddHotkeyMonitor` | frameworks/native/input/oh_input_manager.cpp:2653-2711 | refines the registration step, with its statuses |
| `HotkeyRegistry.HotkeyMonitors.AddHotkeySubscribe` | frameworks/native/input/oh_input_manager.cpp:2544-2564 | appends the callback to its list unless it is there |
| `HotkeyRegistry.HotkeyMonitors.DelHotkeyMonitor` | frameworks/native/input/oh_input_manager.cpp:2713-2751 | deletes the first entry for the callback and reports the subscription only when the list becomes empty |
| `HotkeyRegistry.HotkeyMonitors.RemoveHotkeyMonitor` | frameworks/native/input/oh_input_manager.cpp:2766-2800 | refines the unregistration step, whose answer does not depend on whether the server ended the subscription |
| `HotkeyRegistry.HotkeyMonitors.HandleKeyEvent` | frameworks/native/input/oh_input_manager.cpp:2636-2651 | runs exactly the callbacks listed for the event's hotkey, in order |
| `TouchDispatch.ListIsLastDown` | service/event_dispatch/src/event_dispatch_handler.cpp:212-243 | after every run a pointer's list holds the windows its last down reached, in order |
| `TouchDispatch.OnlyDownChangesOwnList` | service/event_dispatch/src/event_dispatch_handler.cpp:140-173 | an event changes at most its own pointer's list, and only a down changes that |
| `TouchDispatch.EndPassesIffSawDown` | service/event_dispatch/src/event_dispatch_handler.cpp:140-173 | an up or cancel passes for a window exactly when the pointer's last down reached it; a vanished window gets a cancel with the info recorded then |
| `TouchDispatch.NoEndWithoutDown` | service/event_dispatch/src/event_dispatch_handler.cpp:212-284 | every end a whole event lets through, in any run, is for a window that the pointer's last down reached |
| `TouchDispatch.OthersAreDelivered` | service/event_dispatch/src/event_dispatch_handler.cpp:212-284 | in every run, an event that is neither up nor cancel passes for exactly the targets with info, in order, up to the first unknown display, each with that action and its own info; it is sent as it is, except that a pull-up ends as a cancel at a window that shares it with others |
| `TouchDispatch.EndsAreDelivered` | service/event_dispatch/src/event_dispatch_handler.cpp:212-284 | in every run, an up or cancel passes for exactly the targets whose window saw the pointer's last down, in order, up to the first unknown display, with what is sent and the recorded info of windows that vanished |
| `TouchDispatch.EndsAreNotConsumed` | service/event_dispatch/src/event_dispatch_handler.cpp:140-173 | an end changes nothing, so the same end passes again |
| `TouchDispatch.EventDispatchHandler.SearchCancelList` | service/event_dispatch/src/event_dispatch_handler.cpp:124-138 | finds the first recorded info for the window |
| `TouchDispatch.EventDispatchHandler.ReissueEvent` | service/event_dispatch/src/event_dispatch_handler.cpp:140-173 | refines the gate |
| `TouchDispatch.EventDispatchHandler.HandleMultiWindowPointerEvent` | service/event_dispatch/src/event_dispatch_handler.cpp:212-284 | refines the whole event: clearing on down, gate per window, the rewrite of PULL_UP, the early end at an unknown display |
| `GestureFilter.AcceptsWhatFits` | common/event_integrity/src/event_integrity.cpp:32-120 | the accepted events always read (Begin Update* End?)* kind by kind, and an event is let through exactly when it keeps them so |
| `GestureFilter.FilterIsIdempotent` | common/event_integrity/src/event_integrity.cpp:32-120 | a fresh filter passes an accepted stream whole, and passes whole exactly the well-formed streams |
| `GestureFilter.RememberedIsUnderway` | common/event_integrity/src/event_integrity.cpp:66-120 | what the filter remembers is the gesture the accepted stream leaves under way |
| `GestureFilter.EventIntegrity.IsCompleteEvent` | common/event_integrity/src/event_integrity.cpp:32-64 | an event is let through exactly if the stream let through so far stays, with it, one of complete gestures |
| `CrownRotation.GesturesAreWhole` | service/crown_transform_processor/src/crown_transform_processor.cpp:79-184 | events come as (Begin Update* End)*, one gesture open exactly while the timer runs, the last time zero when none is; over every run the sum of velocity times elapsed time is 10^6 times the degrees reported by updates |
| `CrownRotation.RotationsAreReported` | service/crown_transform_processor/src/crown_transform_processor.cpp:155-184 | what a wheel event sends, by what was sent before: its own degree as a begin if no gesture is open, else an update with the degree if time has passed, its velocity making up the degree over that time, and with neither if none has |
| `CrownRotation.TimeoutsEnd` | service/crown_transform_processor/src/crown_transform_processor.cpp:104-117 | the timer sends an end exactly if a gesture is open |
| `CrownRotation.CrownTransformProcessor.NormalizeRotateEvent` | service/crown_transform_processor/src/crown_transform_processor.cpp:79-133 | sends one event for a wheel event of a known device, a begin exactly if no gesture is open, and all events sent keep the grammar and the velocity law |
| `CrownRotation.CrownTransformProcessor.OnTimer` | service/crown_transform_processor/src/crown_transform_processor.cpp:101-114 | sends an end exactly if a gesture is open, and leaves none open |
| `HandlerAggregation.InSyncThroughoutIffHeard` | service/delegate_task/src/delegate_interface.cpp:121-254 | through adds, refused adds and removes, with any answers of the handler, it knows exactly the event types and tags of the local interceptors at every point if and only if every report that changes them reaches it |
| `HandlerAggregation.RegistrationStaysInSync` | service/delegate_task/src/delegate_interface.cpp:121-254 | so in every such run the last accepted registration equals the union over the local interceptors |
| `HandlerAggregation.NamesStayUnique` | service/delegate_task/src/delegate_interface.cpp:121-254 | handler names are unique across both kinds, whatever the answers |
| `HandlerAggregation.ListHoldsTheRegistered` | service/delegate_task/src/delegate_interface.cpp:121-254 | at every point of every run, for both kinds and any answers, a handler is listed exactly if an add of it found its name free and was not refused, and its type and name have not been removed since |
| `HandlerAggregation.ReportsAreNews` | service/delegate_task/src/delegate_interface.cpp:129-132 | an add is reported exactly if it brings an event type, or a tag, that its kind did not have |
| `HandlerAggregation.RemovalsReported` | service/delegate_task/src/delegate_interface.cpp:222-238 | a removal of an interceptor is reported exactly if it takes away an event type no other has, or had any tag |
| `HandlerAggregation.RegistrationAfter` | service/delegate_task/src/delegate_interface.cpp:121-254 | what the interceptor handler knows changes only with an accepted report about an interceptor, and then to just what is listed |
| `HandlerAggregation.AllRefused` | service/interceptor/src/event_interceptor_handler.cpp:93-123 | where every report about an interceptor is refused, as reports without a session are, and whatever is answered about monitors, no interceptor with a flag stays listed and the empty registration stays right |
| `HandlerAggregation.AddKeepsSyncIff` | service/delegate_task/src/delegate_interface.cpp:121-157 | an add keeps that exactly unless an interceptor with something new meets a missing handler object, which leaves it in the local list unreported |
| `HandlerAggregation.RemoveKeepsSyncIff` | service/delegate_task/src/delegate_interface.cpp:222-254 | a removal keeps it exactly if it is accepted, or if the others have every flag it takes away; so also where the code decides that it need not report |
| `HandlerAggregation.AggregateIsHeld` | service/delegate_task/src/delegate_interface.cpp:159-190 | the accumulated flags are those some local interceptor has |
| `HandlerAggregation.DelegateInterface.AddHandler` | service/delegate_task/src/delegate_interface.cpp:121-157 | refines the add step, rolling back a refused one |
| `HandlerAggregation.DelegateInterface.RemoveLocal` | service/delegate_task/src/delegate_interface.cpp:192-210 | removes the first handler of the type and name and returns it |
| `HandlerAggregation.DelegateInterface.RemoveHandler` | service/delegate_task/src/delegate_interface.cpp:222-254 | refines the remove step: the handler goes even if the handler object is missing or refuses |
| `UdevSymlink.ResolvesWhatItDenotes` | libudev/src/udev_device.cpp:50-74 | for every absolute path and readable target: the result stands for the same place as a relative target walked component by component, with any further "..", "." and empty components; a target leading above the root leaves the path unchanged; an absolute target comes out right exactly for a link in the root |
| `UdevSymlink.ResultIsNormalIff` | libudev/src/udev_device.cpp:50-74 | the result is written down from the root without ".", ".." and empty components exactly when the target has none after its leading "../" |
| `UdevSymlink.ResolvedComponents` | libudev/src/udev_device.cpp:50-74 | with n leading "../", the last n+1 components give way to the rest of the target, whatever that is, or the path is unchanged if it has too few |
| `UdevSymlink.UnreadableLinks` | libudev/src/udev_device.cpp:55-58 | a link that cannot be read, is empty or has 1024 characters or more leaves the path as it is |
| `UdevSymlink.EveryTargetSplits` | libudev/src/udev_device.cpp:60-64 | every target is some number of times "../" and a rest that does not start so |
| `UdevSymlink.ChopTail` | libudev/src/udev_device.cpp:40-48 | cuts at the last separator, or leaves the string alone |
| `UdevSymlink.ResolveSymLink` | libudev/src/udev_device.cpp:50-74 | the two loops compute the specified string, with the three unreadable cases |
| `UdevBitmap.CheckBitIsBitOfNumber` | libudev/src/udev_device.cpp:96-123 | a bit of the parsed bitmap is that bit of the number its words denote in base 2^64; past the end there are none |
| `UdevBitmap.BitIsDigit` | libudev/src/udev_device.cpp:111-119 | that bit is the number's digit in base two: an even rest above it, a smaller one below |
| `UdevBitmap.WrittenBits` | libudev/src/udev_device.cpp:96-123 | for words written with up to sixteen hexadecimal digits, high word first, the bits are those of that number |
| `UdevBitmap.ReadsWhatIsWritten` | libudev/src/udev_device.cpp:98-112 | a written list of words reads back as its values, in order |
| `UdevBitmap.BitmapRoundTrip` | libudev/src/udev_device.cpp:96-123 | printing a bitmap and parsing it again gives the same words |
| `UdevBitmap.ReadBitVector` | libudev/src/udev_device.cpp:98-112 | the extraction loop and the reversal compute the specified bitmap |
| `ResourceContainer.UnpackingInvertsPacking` | etc/pack_resources.py:21-27 | bytes decode to a list of files exactly when packing the list gives those bytes, to the last one, for every list and every byte string |
| `ResourceContainer.FileLayout` | etc/pack_resources.py:23-26 | a file is the length of its name in two bytes, low byte first, the name, the length of its data in four, and the data |
| `ResourceContainer.ContainerLayout` | etc/pack_resources.py:21-26 | a container is the number of files in four bytes, low byte first, and the files in order; packing fails exactly if a number does not fit |
| `ResourceContainer.PlainFilesArePacked` | etc/pack_resources.py:36-43 | what is packed are the plain files of the listing, each once, in order, with their own names and data |
| `ResourceContainer.ReadsPackedFiles` | etc/pack_resources.py:46-52 | packed files read back with whatever follows them left over |
| `ResourceContainer.FilesArePacked` | etc/pack_resources.py:21-27 | whatever the decoder reads is the packing of it |
| `ResourceContainer.PackDirectory` | etc/pack_resources.py:35-52 | the loops build the container of the plain files in the listing, or fail where a length does not fit |

## Left out

Weaker than the code, or under an assumption:

- EnableProtocol.LiveExactlyWhenAllowed: covers local devices only, because `OnEnableInputDevice` switches remote ones without looking at either switch.
- EnableProtocol.RunIsCoherent: leaves out runs in which an event id in use is given to a device of another group, which do break it; `NextKeepsCoherent` and `PhysicalIndex.AgreesThroughoutIffLegal` are the exact statements.
- PhysicalIndex.DevicesAreLive: assumes that an event id is not reused before its removal.
- InputDeviceManagement.InputDeviceManager.NotifyDeviceDisabled: of what observers do, only the call to the store's `DisableDevice` is modelled, for a set of reacting devices that each step brings along.
- InputDeviceManagement.InputDeviceManager.OnSessionLost: registering the callback once, and removing the session from the device listeners, are not modelled.
- InputDeviceManagement.InputDeviceManager.AddVirtualInputDevice: a virtual device is its id and name; its capability data and listeners are not modelled, nor is a null device, which is refused at once.
- DelegateTaskProtocol.IdsFollowOrder: ids repeat after 2^64 posts, where the order ends.
- DelegateTaskProtocol.WakeupsAreExact: a read takes all its records or fails; short counts are not modelled. Posting on the worker thread, which runs the callback at once without the queue, appears only as the refusal in `PostTask`.
- HotkeyRegistry.SubscriptionsAreExact: leaves out runs in which the server gives another answer than a known refusal or an id no list has, such as -1; `CoveredThroughoutIffHonest` is the exact statement. Calls are sequential, and a subscription ends only on request.
- TouchDispatch.NoEndWithoutDown: the list handed to the window manager and read back is taken to be the stored one; touches redispatched by it are not modelled.
- CrownRotation.GesturesAreWhole: doubles are reals, adding the timer succeeds, and times are unsigned integers that do not wrap.
- HandlerAggregation.RegistrationStaysInSync: leaves out runs in which a report that matters is not heard, which do break it; `InSyncThroughoutIffHeard` is the exact statement. Priority, gesture type and fingers are not modelled.
- UdevSymlink.ResolvesWhatItDenotes: the path of the link itself is absolute and written without ".", ".." and empty components, and walking is by components, not through further links.
- UdevBitmap.ReadBitVector: signs and "0x" prefixes, which stream extraction would take, are read as the end of input.
- DeviceStates.DeviceStateManager.AddOperations: button and key codes are 32-bit integers, as the store keeps them; the five seeding calls are one method with five kinds of argument.

Form:

- The state of one device is a value in the manager's map, not an object of its own; the move constructor and assignment are not modelled.
- Maps are iterated in arbitrary order; every loop is proved equal to one simultaneous step, so the order does not matter.
- Callbacks of hotkeys are numbers; what they do is not modelled.
- In `PostTask`, `PopPendingTaskList` and the pipe read, locks are the atomicity of a step; waiting for the promise and the task's atomics exist only in the step machine.

Not modelled at all:

- How tags, properties, physical ids and syspaths are read from libinput and udev; they come with a device.
- File and link system calls, directory listing and sorting, gzip: their results are arguments.
- Display, window manager, render, common-event and IPC calls; logging and statistics; configuration parsers; key-name tables.
- Monitors, interceptors and injection in the native interface: thin forwarding.
- Pointer-icon parameters and virtual keyboard or trackpad bookkeeping of the device manager.
