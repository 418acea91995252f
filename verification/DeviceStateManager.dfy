/**
 The pending-enable store: per device, what the user still holds down, and the
 enable callback waiting for it to be let go.

 `Step` is the store's behaviour call by call; the class below refines it. What a
 run of calls means is defined here a second time, from the calls alone (`Open`,
 `Pending`), without mentioning the store; the theorems say that the two agree.
 */
module DeviceStates {
  import opened Basics

  /** What libinput reports, reduced to what the store reads of an event. */
  datatype RawEvent =
    | TouchDown(slot: int32)
    | TouchUp(slot: int32)
    | TouchpadDown(slot: int32)
    | TouchpadUp(slot: int32)
    | ScrollFingerEnd
    | PointerButton(button: int32, pressed: bool)
    | KeyboardKey(key: int32, pressed: bool)
    | TabletAxis
    | TabletProximity(isIn: bool)
    | TabletTip(isDown: bool)
    | TabletButton(button: int32, pressed: bool)
    | JoystickButton(button: int32, pressed: bool)
    | OtherEvent

  /** Something the user can keep held. */
  datatype Item = Touch(slot: int32) | Button(code: int32) | Key(code: int32) | Proximity | Tip | Axis

  datatype DeviceState<C> = DeviceState(
    enabled: bool,
    isProximity: bool,
    isPressed: bool,
    isAxisBegin: bool,
    touches: set<int32>,
    pressedButtons: set<int32>,
    pressedKeys: set<int32>,
    pendingEnableCallback: Option<C>)
  {
    predicate HaveActiveOperations() {
      touches != {} || pressedButtons != {} || pressedKeys != {} || isProximity || isPressed || isAxisBegin
    }

    function Press(button: int32, pressed: bool): DeviceState<C> {
      this.(pressedButtons := if pressed then pressedButtons + {button} else pressedButtons - {button})
    }

    function HandleEvent(event: RawEvent): DeviceState<C> {
      match event
      case TouchDown(slot) => this.(touches := touches + {slot})
      case TouchUp(slot) => this.(touches := touches - {slot})
      case TouchpadDown(slot) => this.(touches := touches + {slot})
      case TouchpadUp(slot) => this.(touches := touches - {slot})
      case ScrollFingerEnd => this.(isAxisBegin := false)
      case PointerButton(button, pressed) => Press(button, pressed)
      case KeyboardKey(key, pressed) =>
        this.(pressedKeys := if pressed then pressedKeys + {key} else pressedKeys - {key})
      case TabletAxis => this
      case TabletProximity(isIn) => this.(isProximity := isIn)
      case TabletTip(isDown) => this.(isPressed := isDown)
      case TabletButton(button, pressed) => Press(button, pressed)
      case JoystickButton(button, pressed) => Press(button, pressed)
      case OtherEvent => this
    }

    function Seeded(seed: Seed): DeviceState<C> {
      match seed
      case Touches(s) => this.(touches := touches + s)
      case PressedButtons(s) => this.(pressedButtons := pressedButtons + s)
      case PressedKeys(s) => this.(pressedKeys := pressedKeys + s)
      case ProximityFlag(b) => this.(isProximity := b)
      case AxisFlag(b) => this.(isAxisBegin := b)
    }

    ghost predicate Holds(item: Item) {
      match item
      case Touch(slot) => slot in touches
      case Button(code) => code in pressedButtons
      case Key(code) => code in pressedKeys
      case Proximity => isProximity
      case Tip => isPressed
      case Axis => isAxisBegin
    }
  }

  function Fresh<C>(): DeviceState<C> {
    DeviceState(false, false, false, false, {}, {}, {}, None)
  }

  /** What an event processor tells the store about operations already under way. */
  datatype Seed =
    | Touches(slots: set<int32>)
    | PressedButtons(buttons: set<int32>)
    | PressedKeys(keys: set<int32>)
    | ProximityFlag(near: bool)
    | AxisFlag(begun: bool)

  datatype Call<C> =
    | AddSeed(id: int32, seed: Seed)
    | EnableDevice(id: int32, callback: Option<C>)
    | DisableDevice(id: int32)
    | HandleRaw(id: int32, event: RawEvent)
    | DeviceRemoved(id: int32)

  type States<C> = map<int32, DeviceState<C>>

  /** The states after a call, and what became of callbacks during it. */
  datatype Outcome<C> = Outcome(states: States<C>, fired: Option<C>, superseded: Option<C>, dropped: Option<C>)

  function StateOf<C>(states: States<C>, id: int32): DeviceState<C> {
    if id in states then states[id] else Fresh()
  }

  function PendingIn<C>(states: States<C>, id: int32): Option<C> {
    StateOf(states, id).pendingEnableCallback
  }

  function Step<C>(states: States<C>, call: Call<C>): Outcome<C> {
    var id := call.id;
    var state := StateOf(states, id);
    match call
    case AddSeed(_, seed) =>
      Outcome(states[id := state.Seeded(seed)], None, None, None)
    case EnableDevice(_, callback) =>
      if id !in states then
        Outcome(states, callback, None, None)
      else if !state.HaveActiveOperations() then
        Outcome(states - {id}, callback, state.pendingEnableCallback, None)
      else
        Outcome(states[id := state.(enabled := true, pendingEnableCallback := callback)],
                None, state.pendingEnableCallback, None)
    case DisableDevice(_) =>
      if id !in states then
        Outcome(states, None, None, None)
      else
        Outcome(states[id := state.(enabled := false, pendingEnableCallback := None)],
                None, None, state.pendingEnableCallback)
    case HandleRaw(_, event) =>
      var next := state.HandleEvent(event);
      if next.enabled && !next.HaveActiveOperations() then
        Outcome(states - {id}, next.pendingEnableCallback, None, None)
      else
        Outcome(states[id := next], None, None, None)
    case DeviceRemoved(_) =>
      Outcome(states - {id}, None, None, state.pendingEnableCallback)
  }

  function Run<C>(calls: seq<Call<C>>): States<C> {
    if calls == [] then map[] else Step(Run(calls[..|calls| - 1]), calls[|calls| - 1]).states
  }

  // ----- What a history of calls means -----

  ghost predicate EventOpens(event: RawEvent, item: Item) {
    match event
    case TouchDown(slot) => item == Touch(slot)
    case TouchpadDown(slot) => item == Touch(slot)
    case PointerButton(button, pressed) => pressed && item == Button(button)
    case TabletButton(button, pressed) => pressed && item == Button(button)
    case JoystickButton(button, pressed) => pressed && item == Button(button)
    case KeyboardKey(key, pressed) => pressed && item == Key(key)
    case TabletProximity(isIn) => isIn && item == Proximity
    case TabletTip(isDown) => isDown && item == Tip
    case _ => false
  }

  ghost predicate EventCloses(event: RawEvent, item: Item) {
    match event
    case TouchUp(slot) => item == Touch(slot)
    case TouchpadUp(slot) => item == Touch(slot)
    case PointerButton(button, pressed) => !pressed && item == Button(button)
    case TabletButton(button, pressed) => !pressed && item == Button(button)
    case JoystickButton(button, pressed) => !pressed && item == Button(button)
    case KeyboardKey(key, pressed) => !pressed && item == Key(key)
    case TabletProximity(isIn) => !isIn && item == Proximity
    case TabletTip(isDown) => !isDown && item == Tip
    case ScrollFingerEnd => item == Axis
    case _ => false
  }

  ghost predicate SeedOpens(seed: Seed, item: Item) {
    match seed
    case Touches(s) => item.Touch? && item.slot in s
    case PressedButtons(s) => item.Button? && item.code in s
    case PressedKeys(s) => item.Key? && item.code in s
    case ProximityFlag(b) => b && item == Proximity
    case AxisFlag(b) => b && item == Axis
  }

  ghost predicate Opens<C>(call: Call<C>, id: int32, item: Item) {
    call.id == id && ((call.AddSeed? && SeedOpens(call.seed, item)) || (call.HandleRaw? && EventOpens(call.event, item)))
  }

  ghost predicate Closes<C>(call: Call<C>, id: int32, item: Item) {
    && call.id == id
    && (|| call.DeviceRemoved?
        || (call.HandleRaw? && EventCloses(call.event, item))
        || (call.AddSeed? && call.seed == ProximityFlag(false) && item == Proximity)
        || (call.AddSeed? && call.seed == AxisFlag(false) && item == Axis))
  }

  ghost predicate OpenSince<C>(calls: seq<Call<C>>, id: int32, item: Item, i: int) {
    0 <= i < |calls| && Opens(calls[i], id, item) && forall j :: i < j < |calls| ==> !Closes(calls[j], id, item)
  }

  /** Some call opened the item and no later call closed it. */
  ghost predicate Open<C>(calls: seq<Call<C>>, id: int32, item: Item) {
    exists i :: OpenSince(calls, id, item, i)
  }

  ghost predicate NothingOpen<C>(calls: seq<Call<C>>, id: int32) {
    forall item :: !Open(calls, id, item)
  }

  /** The call takes the waiting callback of `id`, if any, out of the store; `before` is the history up to it. */
  ghost predicate Settles<C>(before: seq<Call<C>>, call: Call<C>, id: int32) {
    && call.id == id
    && (|| call.EnableDevice? || call.DisableDevice? || call.DeviceRemoved?
        || (call.HandleRaw? && NothingOpen(before + [call], id)))
  }

  ghost predicate PendingSince<C>(calls: seq<Call<C>>, id: int32, callback: C, i: int) {
    && 0 <= i < |calls|
    && calls[i] == EnableDevice(id, Some(callback))
    && !NothingOpen(calls[..i], id)
    && forall j :: i < j < |calls| ==> !Settles(calls[..j], calls[j], id)
  }

  /** An enable was requested while something was held, and nothing since has settled it. */
  ghost predicate Pending<C>(calls: seq<Call<C>>, id: int32, callback: C) {
    exists i :: PendingSince(calls, id, callback, i)
  }

  // ----- The store computes that meaning -----

  lemma OpenSnoc<C>(calls: seq<Call<C>>, call: Call<C>, id: int32, item: Item)
    ensures Open(calls + [call], id, item)
       <==> Opens(call, id, item) || (Open(calls, id, item) && !Closes(call, id, item))
  {
    var all := calls + [call];
    if Opens(call, id, item) {
      assert OpenSince(all, id, item, |calls|);
    }
    if Open(calls, id, item) && !Closes(call, id, item) {
      var i :| OpenSince(calls, id, item, i);
      assert OpenSince(all, id, item, i);
    }
    if Open(all, id, item) && !Opens(call, id, item) {
      var i :| OpenSince(all, id, item, i);
      assert i < |calls|;
      assert !Closes(all[|calls|], id, item);
      assert OpenSince(calls, id, item, i) by {
        forall j | i < j < |calls| ensures !Closes(calls[j], id, item) {
          assert all[j] == calls[j];
        }
      }
    }
  }

  ghost predicate HoldsIn<C>(states: States<C>, id: int32, item: Item) {
    id in states && states[id].Holds(item)
  }

  lemma EmptyOrInhabited(s: set<int32>)
    ensures s != {} ==> exists x :: x in s
  {
    if s != {} {
      assert |s| > 0;
      var x :| x in s;
    }
  }

  lemma ActiveIffHolds<C>(state: DeviceState<C>)
    ensures state.HaveActiveOperations() <==> exists item :: state.Holds(item)
  {
    EmptyOrInhabited(state.touches);
    EmptyOrInhabited(state.pressedButtons);
    EmptyOrInhabited(state.pressedKeys);
    assert forall x :: x in state.touches ==> state.Holds(Touch(x));
    assert forall x :: x in state.pressedButtons ==> state.Holds(Button(x));
    assert forall x :: x in state.pressedKeys ==> state.Holds(Key(x));
    assert state.isProximity ==> state.Holds(Proximity);
    assert state.isPressed ==> state.Holds(Tip);
    assert state.isAxisBegin ==> state.Holds(Axis);
  }

  lemma EventHolds<C>(state: DeviceState<C>, event: RawEvent, item: Item)
    ensures state.HandleEvent(event).Holds(item)
       <==> EventOpens(event, item) || (state.Holds(item) && !EventCloses(event, item))
  {
  }

  lemma SeedHolds<C>(state: DeviceState<C>, seed: Seed, item: Item)
    ensures state.Seeded(seed).Holds(item)
       <==> SeedOpens(seed, item)
            || (state.Holds(item) && !(seed == ProximityFlag(false) && item == Proximity)
                && !(seed == AxisFlag(false) && item == Axis))
  {
  }

  lemma StepHolds<C>(states: States<C>, call: Call<C>, id: int32, item: Item)
    ensures HoldsIn(Step(states, call).states, id, item)
       <==> Opens(call, id, item) || (HoldsIn(states, id, item) && !Closes(call, id, item))
  {
    var state := StateOf(states, call.id);
    match call {
    case AddSeed(_, seed) =>
      SeedHolds(state, seed, item);
    case EnableDevice(_, _) =>
      ActiveIffHolds(state);
    case DisableDevice(_) =>
    case HandleRaw(_, event) =>
      EventHolds(state, event, item);
      ActiveIffHolds(state.HandleEvent(event));
    case DeviceRemoved(_) =>
    }
  }

  /** What the store thinks is held is what the history left open. */
  lemma {:induction false} HeldIsOpen<C>(calls: seq<Call<C>>, id: int32, item: Item)
    ensures HoldsIn(Run(calls), id, item) <==> Open(calls, id, item)
  {
    if calls == [] {
    } else {
      var before, call := calls[..|calls| - 1], calls[|calls| - 1];
      assert calls == before + [call];
      HeldIsOpen(before, id, item);
      StepHolds(Run(before), call, id, item);
      OpenSnoc(before, call, id, item);
    }
  }

  lemma StateHoldsOpen<C>(calls: seq<Call<C>>, id: int32, item: Item)
    ensures StateOf(Run(calls), id).Holds(item) <==> Open(calls, id, item)
  {
    HeldIsOpen(calls, id, item);
  }

  lemma ActiveIffOpen<C>(calls: seq<Call<C>>, id: int32)
    ensures StateOf(Run(calls), id).HaveActiveOperations() <==> !NothingOpen(calls, id)
  {
    ActiveIffHolds(StateOf(Run(calls), id));
    forall item ensures StateOf(Run(calls), id).Holds(item) <==> Open(calls, id, item) {
      HeldIsOpen(calls, id, item);
    }
  }

  lemma PendingSnoc<C>(calls: seq<Call<C>>, call: Call<C>, id: int32, callback: C)
    ensures Pending(calls + [call], id, callback)
       <==> || (call == EnableDevice(id, Some(callback)) && !NothingOpen(calls, id))
            || (Pending(calls, id, callback) && !Settles(calls, call, id))
  {
    var all := calls + [call];
    assert all[..|calls|] == calls;
    if call == EnableDevice(id, Some(callback)) && !NothingOpen(calls, id) {
      assert PendingSince(all, id, callback, |calls|);
    }
    forall j | 0 <= j < |calls| ensures all[..j] == calls[..j] && all[j] == calls[j] {
    }
    if Pending(calls, id, callback) && !Settles(calls, call, id) {
      var i :| PendingSince(calls, id, callback, i);
      assert PendingSince(all, id, callback, i);
    }
    if Pending(all, id, callback) {
      var i :| PendingSince(all, id, callback, i);
      if i < |calls| {
        assert !Settles(all[..|calls|], all[|calls|], id);
        assert PendingSince(calls, id, callback, i) by {
          forall j | i < j < |calls| ensures !Settles(calls[..j], calls[j], id) {
            assert !Settles(all[..j], all[j], id);
          }
        }
      }
    }
  }

  ghost predicate PendingMeansEnabled<C>(states: States<C>, id: int32) {
    PendingIn(states, id).Some? ==> StateOf(states, id).enabled
  }

  lemma EventKeepsPending<C>(state: DeviceState<C>, event: RawEvent)
    ensures state.HandleEvent(event).pendingEnableCallback == state.pendingEnableCallback
    ensures state.HandleEvent(event).enabled == state.enabled
  {
  }

  /** The waiting callback after a call, in terms of what is held before it (or, for a raw event, after it). */
  lemma PendingStep<C>(states: States<C>, call: Call<C>, id: int32)
    requires PendingMeansEnabled(states, id)
    ensures PendingMeansEnabled(Step(states, call).states, id)
    ensures call.id != id || call.AddSeed? ==> PendingIn(Step(states, call).states, id) == PendingIn(states, id)
    ensures call.id == id && call.EnableDevice? ==>
              PendingIn(Step(states, call).states, id)
              == if StateOf(states, id).HaveActiveOperations() then call.callback else None
    ensures call.id == id && call.HandleRaw? ==>
              PendingIn(Step(states, call).states, id)
              == if StateOf(states, id).HandleEvent(call.event).HaveActiveOperations() then PendingIn(states, id) else None
    ensures call.id == id && (call.DisableDevice? || call.DeviceRemoved?) ==> PendingIn(Step(states, call).states, id) == None
  {
    if call.HandleRaw? {
      EventKeepsPending(StateOf(states, call.id), call.event);
    }
  }

  lemma {:induction false} RunPendingMeansEnabled<C>(calls: seq<Call<C>>, id: int32)
    ensures PendingMeansEnabled(Run(calls), id)
  {
    if calls != [] {
      RunPendingMeansEnabled(calls[..|calls| - 1], id);
      PendingStep(Run(calls[..|calls| - 1]), calls[|calls| - 1], id);
    }
  }

  lemma RunSnoc<C>(calls: seq<Call<C>>, call: Call<C>)
    ensures Run(calls + [call]) == Step(Run(calls), call).states
  {
    assert (calls + [call])[..|calls|] == calls;
  }

  lemma SettledByEvent<C>(calls: seq<Call<C>>, call: Call<C>)
    requires call.HandleRaw?
    ensures StateOf(Run(calls), call.id).HandleEvent(call.event).HaveActiveOperations()
       <==> !NothingOpen(calls + [call], call.id)
  {
    ActiveIffOpen(calls + [call], call.id);
    RunSnoc(calls, call);
  }

  /** The stored callback is the one the history leaves waiting. */
  lemma {:induction false} StoredIsPending<C>(calls: seq<Call<C>>, id: int32, callback: C)
    ensures PendingIn(Run(calls), id) == Some(callback) <==> Pending(calls, id, callback)
  {
    if calls == [] {
    } else {
      var before, call := calls[..|calls| - 1], calls[|calls| - 1];
      assert calls == before + [call];
      StoredIsPending(before, id, callback);
      PendingSnoc(before, call, id, callback);
      RunPendingMeansEnabled(before, id);
      PendingStep(Run(before), call, id);
      ActiveIffOpen(before, id);
      if call.HandleRaw? {
        SettledByEvent(before, call);
      }
    }
  }

  lemma FiredByStep<C>(states: States<C>, call: Call<C>)
    requires PendingMeansEnabled(states, call.id)
    ensures call.EnableDevice? ==>
              Step(states, call).fired == if StateOf(states, call.id).HaveActiveOperations() then None else call.callback
    ensures call.HandleRaw? ==>
              Step(states, call).fired
              == if StateOf(states, call.id).HandleEvent(call.event).HaveActiveOperations() then None
                 else PendingIn(states, call.id)
    ensures !call.EnableDevice? && !call.HandleRaw? ==> Step(states, call).fired == None
  {
    if call.HandleRaw? {
      EventKeepsPending(StateOf(states, call.id), call.event);
    }
  }

  /**
   Which callback a call runs. An enable runs its own, at once, exactly when nothing is
   held; a raw event runs the waiting one exactly when it leaves nothing held; no other
   call runs any.
   */
  lemma FiresOnRelease<C>(calls: seq<Call<C>>, call: Call<C>, callback: C)
    ensures Step(Run(calls), call).fired == Some(callback)
       <==> || (call == EnableDevice(call.id, Some(callback)) && NothingOpen(calls, call.id))
            || (call.HandleRaw? && Pending(calls, call.id, callback) && NothingOpen(calls + [call], call.id))
  {
    ActiveIffOpen(calls, call.id);
    StoredIsPending(calls, call.id, callback);
    RunPendingMeansEnabled(calls, call.id);
    FiredByStep(Run(calls), call);
    if call.HandleRaw? {
      SettledByEvent(calls, call);
    }
  }

  // ----- Every callback has one fate -----

  /** How often one callback was given for a device, and how often each fate befell it. */
  datatype Ledger = Ledger(given: nat, fired: nat, superseded: nat, dropped: nat)

  ghost function Once<C>(outcome: Option<C>, callback: C): nat {
    if outcome == Some(callback) then 1 else 0
  }

  ghost function Given<C>(call: Call<C>, callback: C): nat {
    if call.EnableDevice? then Once(call.callback, callback) else 0
  }

  ghost function Books<C>(calls: seq<Call<C>>, id: int32, callback: C): Ledger {
    if calls == [] then
      Ledger(0, 0, 0, 0)
    else
      var before, call := calls[..|calls| - 1], calls[|calls| - 1];
      var books, outcome := Books(before, id, callback), Step(Run(before), call);
      if call.id != id then
        books
      else
        Ledger(
          books.given + Given(call, callback),
          books.fired + Once(outcome.fired, callback),
          books.superseded + Once(outcome.superseded, callback),
          books.dropped + Once(outcome.dropped, callback))
  }

  lemma StepConserves<C>(states: States<C>, call: Call<C>, callback: C)
    requires PendingMeansEnabled(states, call.id)
    ensures var outcome := Step(states, call);
            Once(PendingIn(states, call.id), callback) + Given(call, callback)
            == Once(PendingIn(outcome.states, call.id), callback) + Once(outcome.fired, callback)
               + Once(outcome.superseded, callback) + Once(outcome.dropped, callback)
    ensures Step(states, call).superseded.Some? ==> call.EnableDevice?
    ensures Step(states, call).dropped.Some? ==> call.DisableDevice? || call.DeviceRemoved?
  {
    PendingStep(states, call, call.id);
    FiredByStep(states, call);
  }

  /** A callback given for a device was run, was superseded, was dropped, or still waits: no more and no less. */
  lemma {:induction false} CallbacksAreConserved<C>(calls: seq<Call<C>>, id: int32, callback: C)
    ensures var books := Books(calls, id, callback);
            books.given == books.fired + books.superseded + books.dropped
                           + (if Pending(calls, id, callback) then 1 else 0)
  {
    StoredIsPending(calls, id, callback);
    if calls == [] {
    } else {
      var before, call := calls[..|calls| - 1], calls[|calls| - 1];
      CallbacksAreConserved(before, id, callback);
      StoredIsPending(before, id, callback);
      RunPendingMeansEnabled(before, id);
      if call.id == id {
        StepConserves(Run(before), call, callback);
      } else {
        PendingStep(Run(before), call, id);
      }
    }
  }

  // ----- A seed can release without anyone noticing -----

  ghost predicate OnlyOpen<C>(calls: seq<Call<C>>, id: int32, item: Item) {
    forall other :: Open(calls, id, other) <==> other == item
  }

  /** The call is a seed clearing a flag, and that flag is the one thing open. */
  ghost predicate TakesLast<C>(calls: seq<Call<C>>, call: Call<C>, id: int32) {
    && call.id == id && call.AddSeed?
    && (|| (call.seed == ProximityFlag(false) && OnlyOpen(calls, id, Proximity))
        || (call.seed == AxisFlag(false) && OnlyOpen(calls, id, Axis)))
  }

  /** The call is about another device, or a seed that says nothing is held. */
  ghost predicate Ignores<C>(call: Call<C>, id: int32) {
    call.id != id || (call.AddSeed? && forall item :: !SeedOpens(call.seed, item))
  }

  /** The callback waits although nothing is open. */
  ghost predicate Stranded<C>(calls: seq<Call<C>>, id: int32, callback: C) {
    Pending(calls, id, callback) && NothingOpen(calls, id)
  }

  lemma NothingOpenSnoc<C>(calls: seq<Call<C>>, call: Call<C>, id: int32)
    ensures NothingOpen(calls + [call], id)
       <==> forall item :: !Opens(call, id, item) && (Open(calls, id, item) ==> Closes(call, id, item))
  {
    forall item ensures Open(calls + [call], id, item)
                   <==> Opens(call, id, item) || (Open(calls, id, item) && !Closes(call, id, item)) {
      OpenSnoc(calls, call, id, item);
    }
  }

  lemma SeedStrands<C>(calls: seq<Call<C>>, call: Call<C>, id: int32)
    requires call.AddSeed? && call.id == id && !NothingOpen(calls, id)
    ensures NothingOpen(calls + [call], id) <==> TakesLast(calls, call, id)
  {
    NothingOpenSnoc(calls, call, id);
    var open :| Open(calls, id, open);
    assert call.seed == ProximityFlag(false) ==> forall item :: !Opens(call, id, item);
    assert call.seed == AxisFlag(false) ==> forall item :: !Opens(call, id, item);
  }

  lemma StrandedSnoc<C>(calls: seq<Call<C>>, call: Call<C>, id: int32, callback: C)
    ensures Stranded(calls + [call], id, callback)
       <==> || (Pending(calls, id, callback) && TakesLast(calls, call, id))
            || (Stranded(calls, id, callback) && Ignores(call, id))
  {
    PendingSnoc(calls, call, id, callback);
    NothingOpenSnoc(calls, call, id);
    if call.id == id && call.AddSeed? && !NothingOpen(calls, id) {
      SeedStrands(calls, call, id);
    }
    assert TakesLast(calls, call, id) ==> Open(calls, id, Proximity) || Open(calls, id, Axis);
    assert call.AddSeed? && call.id == id ==> forall item :: Opens(call, id, item) <==> SeedOpens(call.seed, item);
  }

  /** At call `i` a seed took the last open item from under the waiting callback, and everything since has ignored the device. */
  ghost predicate StrandedSince<C>(calls: seq<Call<C>>, id: int32, callback: C, n: int, i: int)
    requires 0 <= n <= |calls|
  {
    && 0 <= i < n && Pending(calls[..i], id, callback) && TakesLast(calls[..i], calls[i], id)
    && forall j :: i < j < n ==> Ignores(calls[j], id)
  }

  /** A callback waits on nothing exactly when such a seed put it there: no other call ever leaves it so. */
  lemma {:induction false} OnlyClearedFlagsStrand<C>(calls: seq<Call<C>>, id: int32, callback: C, n: nat)
    requires n <= |calls|
    ensures Stranded(calls[..n], id, callback) <==> exists i :: StrandedSince(calls, id, callback, n, i)
  {
    if n > 0 {
      OnlyClearedFlagsStrand(calls, id, callback, n - 1);
      StrandedSnoc(calls[..n - 1], calls[n - 1], id, callback);
      assert calls[..n - 1] + [calls[n - 1]] == calls[..n];
      forall i ensures StrandedSince(calls, id, callback, n, i)
                  <==> || (i == n - 1 && Pending(calls[..i], id, callback) && TakesLast(calls[..i], calls[i], id))
                       || (StrandedSince(calls, id, callback, n - 1, i) && Ignores(calls[n - 1], id)) {
      }
      assert Pending(calls[..n - 1], id, callback) && TakesLast(calls[..n - 1], calls[n - 1], id)
        ==> StrandedSince(calls, id, callback, n, n - 1);
    }
  }

  /** It does happen: a pen in range, an enable, and the pen declared out of range by a seed. */
  lemma StrandedEnable<C>(id: int32, callback: C)
    ensures var calls := [AddSeed(id, ProximityFlag(true)), EnableDevice(id, Some(callback)), AddSeed(id, ProximityFlag(false))];
            Pending(calls, id, callback) && NothingOpen(calls, id)
  {
    var near: Call<C> := AddSeed(id, ProximityFlag(true));
    var enable, far := EnableDevice(id, Some(callback)), AddSeed(id, ProximityFlag(false));
    var calls := [near, enable, far];
    assert calls[..1] == [near];
    assert OpenSince(calls[..1], id, Proximity, 0);
    assert Open(calls[..1], id, Proximity);
    assert !Settles(calls[..2], calls[2], id);
    assert PendingSince(calls, id, callback, 1);
    forall item ensures !Open(calls, id, item) {
      assert Closes(calls[2], id, Proximity);
    }
  }

  // ----- The store itself -----

  class DeviceStateManager<C> {
    var deviceStates: States<C>

    constructor ()
      ensures deviceStates == map[]
    {
      deviceStates := map[];
    }

    method AddOperations(deviceId: int32, seed: Seed)
      modifies this
      ensures deviceStates == Step(old(deviceStates), AddSeed(deviceId, seed)).states
    {
      if deviceId in deviceStates {
        deviceStates := deviceStates[deviceId := deviceStates[deviceId].Seeded(seed)];
      } else {
        var state: DeviceState<C> := Fresh();
        state := state.Seeded(seed);
        deviceStates := deviceStates[deviceId := state];
      }
    }

    /** Returns the callback to run now, if any. */
    method EnableDevice(deviceId: int32, callback: Option<C>) returns (fired: Option<C>)
      modifies this
      ensures var outcome := Step(old(deviceStates), Call.EnableDevice(deviceId, callback));
              deviceStates == outcome.states && fired == outcome.fired
    {
      if deviceId !in deviceStates {
        return callback;
      }
      var state := deviceStates[deviceId];
      if !state.HaveActiveOperations() {
        deviceStates := deviceStates - {deviceId};
        return callback;
      }
      deviceStates := deviceStates[deviceId := state.(enabled := true, pendingEnableCallback := callback)];
      fired := None;
    }

    method DisableDevice(deviceId: int32)
      modifies this
      ensures deviceStates == Step(old(deviceStates), Call.DisableDevice(deviceId)).states
    {
      if deviceId !in deviceStates {
        return;
      }
      var state := deviceStates[deviceId];
      deviceStates := deviceStates[deviceId := state.(enabled := false, pendingEnableCallback := None)];
    }

    /** Returns the callback to run now, if any. */
    method HandleEvent(deviceId: int32, event: RawEvent) returns (fired: Option<C>)
      modifies this
      ensures var outcome := Step(old(deviceStates), HandleRaw(deviceId, event));
              deviceStates == outcome.states && fired == outcome.fired
    {
      if deviceId !in deviceStates {
        deviceStates := deviceStates[deviceId := Fresh()];
      }
      var state := deviceStates[deviceId].HandleEvent(event);
      deviceStates := deviceStates[deviceId := state];
      fired := None;
      if state.enabled && !state.HaveActiveOperations() {
        fired := state.pendingEnableCallback;
        deviceStates := deviceStates - {deviceId};
        assert deviceStates == old(deviceStates) - {deviceId};
      }
    }

    method OnDeviceRemoved(deviceId: int32)
      modifies this
      ensures deviceStates == Step(old(deviceStates), DeviceRemoved(deviceId)).states
    {
      if deviceId in deviceStates {
        deviceStates := deviceStates - {deviceId};
      }
    }
  }
}
