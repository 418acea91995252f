/**
 Which windows a pointer event is sent to, and the list of windows that saw each pointer
 go down. What the window manager answers about a target window comes with the event.
 */
module TouchDispatch {
  import opened Basics

  datatype Action = Down | Up | Cancel | Move | PullUp | OtherAction

  datatype WindowInfo = WindowInfo(id: int32, transmitAll: bool, agentWindowId: int32)

  /** A target window: its id, its current info if it has any, and whether its display is known. */
  datatype Target = Target(windowId: int32, info: Option<WindowInfo>, displayKnown: bool)

  datatype PointerEvent = PointerEvent(pointerId: int32, action: Action, targets: seq<Target>)

  type CancelList = map<int32, seq<WindowInfo>>

  /** A window let through the gate: the action it passed with, and the action sent to it, if any was. */
  datatype Passed = Passed(windowId: int32, action: Action, info: WindowInfo, sent: Option<Action>)

  /** The first recorded info with the id. */
  function Search(list: seq<WindowInfo>, id: int32): Option<WindowInfo> {
    if list == [] then None
    else if list[0].id == id then Some(list[0])
    else Search(list[1..], id)
  }

  function ListOf(cancels: CancelList, pointerId: int32): seq<WindowInfo> {
    if pointerId in cancels then cancels[pointerId] else []
  }

  predicate Ends(action: Action) {
    action == Up || action == Cancel
  }

  /** The gate for one target: the action and info it passes with, if it does, and the lists afterwards. */
  function Gate(cancels: CancelList, pointerId: int32, action: Action, target: Target)
    : (CancelList, Option<(Action, WindowInfo)>)
  {
    var list := ListOf(cancels, pointerId);
    match target.info
    case None =>
      if Ends(action) && Search(list, target.windowId).Some?
      then (cancels, Some((Cancel, Search(list, target.windowId).value)))
      else (cancels, None)
    case Some(info) =>
      if action == Down then (cancels[pointerId := list + [info]], Some((Down, info)))
      else if Ends(action) && Search(list, info.id).None? then (cancels, None)
      else (cancels, Some((action, info)))
  }

  function SentAs(action: Action, info: WindowInfo, targetCount: nat): Action {
    if action == PullUp && info.transmitAll && targetCount > 1 then Cancel else action
  }

  /** The loop over target windows. It ends early at a window whose display is not known. */
  function Targets(cancels: CancelList, pointerId: int32, action: Action, targets: seq<Target>, targetCount: nat)
    : (CancelList, seq<Passed>)
    decreases targets
  {
    if targets == [] then (cancels, [])
    else
      var t := targets[0];
      var (next, gate) := Gate(cancels, pointerId, action, t);
      match gate
      case None => Targets(next, pointerId, action, targets[1..], targetCount)
      case Some((passedAs, info)) =>
        if !t.displayKnown then (next, [Passed(t.windowId, passedAs, info, None)])
        else
          var (last, rest) := Targets(next, pointerId, action, targets[1..], targetCount);
          (last, [Passed(t.windowId, passedAs, info, Some(SentAs(passedAs, info, targetCount)))] + rest)
  }

  function Handled(cancels: CancelList, event: PointerEvent): (CancelList, seq<Passed>) {
    var cleared := if event.action == Down then cancels - {event.pointerId} else cancels;
    Targets(cleared, event.pointerId, event.action, event.targets, |event.targets|)
  }

  function Run(events: seq<PointerEvent>): CancelList {
    if events == [] then map[] else Handled(Run(events[..|events| - 1]), events[|events| - 1]).0
  }

  // ----- What the lists mean -----

  /** The windows with info that a down event reaches, in order. */
  function ReachedBy(targets: seq<Target>): seq<WindowInfo> {
    if targets == [] then []
    else
      match targets[0].info
      case None => ReachedBy(targets[1..])
      case Some(info) => [info] + if targets[0].displayKnown then ReachedBy(targets[1..]) else []
  }

  ghost predicate IsDown(event: PointerEvent, pointerId: int32) {
    event.action == Down && event.pointerId == pointerId
  }

  /** The event at `i` is the pointer's last going down. */
  ghost predicate LastDown(events: seq<PointerEvent>, pointerId: int32, i: int) {
    && 0 <= i < |events| && IsDown(events[i], pointerId)
    && forall j :: i < j < |events| ==> !IsDown(events[j], pointerId)
  }

  lemma {:induction false} DownRecords(cancels: CancelList, pointerId: int32, targets: seq<Target>, targetCount: nat)
    ensures ListOf(Targets(cancels, pointerId, Down, targets, targetCount).0, pointerId)
         == ListOf(cancels, pointerId) + ReachedBy(targets)
    decreases targets
  {
    if targets != [] {
      var (next, gate) := Gate(cancels, pointerId, Down, targets[0]);
      DownRecords(next, pointerId, targets[1..], targetCount);
    }
  }

  lemma GateUntouched(cancels: CancelList, pointerId: int32, action: Action, target: Target, p: int32)
    ensures var next := Gate(cancels, pointerId, action, target).0;
            && (p != pointerId ==> (p in next <==> p in cancels))
            && (p != pointerId && p in cancels ==> next[p] == cancels[p])
            && (action != Down ==> next == cancels)
  {
  }

  lemma {:induction false} OtherUntouched(cancels: CancelList, pointerId: int32, action: Action, targets: seq<Target>, targetCount: nat, p: int32)
    ensures var after := Targets(cancels, pointerId, action, targets, targetCount).0;
            && (p != pointerId ==> (p in after <==> p in cancels))
            && (p != pointerId && p in cancels ==> after[p] == cancels[p])
            && (action != Down ==> after == cancels)
    decreases targets
  {
    if targets != [] {
      GateUntouched(cancels, pointerId, action, targets[0], p);
      OtherUntouched(Gate(cancels, pointerId, action, targets[0]).0, pointerId, action, targets[1..], targetCount, p);
    }
  }

  lemma OthersUntouched(cancels: CancelList, pointerId: int32, action: Action, targets: seq<Target>, targetCount: nat)
    ensures var after := Targets(cancels, pointerId, action, targets, targetCount).0;
            && (forall p :: p != pointerId ==> (p in after <==> p in cancels))
            && (forall p :: p != pointerId && p in cancels ==> after[p] == cancels[p])
            && (action != Down ==> after == cancels)
  {
    var after := Targets(cancels, pointerId, action, targets, targetCount).0;
    OtherUntouched(cancels, pointerId, action, targets, targetCount, pointerId);
    forall p: int32
      ensures p != pointerId ==> (p in after <==> p in cancels)
      ensures p != pointerId && p in cancels ==> after[p] == cancels[p]
    {
      OtherUntouched(cancels, pointerId, action, targets, targetCount, p);
    }
  }

  /** An event changes at most its own pointer's list, and only a down changes that. */
  lemma OnlyDownChangesOwnList(cancels: CancelList, event: PointerEvent, pointerId: int32)
    ensures !IsDown(event, pointerId) ==> ListOf(Handled(cancels, event).0, pointerId) == ListOf(cancels, pointerId)
    ensures IsDown(event, pointerId) ==> ListOf(Handled(cancels, event).0, pointerId) == ReachedBy(event.targets)
  {
    var cleared := if event.action == Down then cancels - {event.pointerId} else cancels;
    OthersUntouched(cleared, event.pointerId, event.action, event.targets, |event.targets|);
    if event.action == Down {
      DownRecords(cleared, event.pointerId, event.targets, |event.targets|);
    }
  }

  /** A pointer's list holds the windows its last down reached; before any down it is empty. */
  lemma {:induction false} ListIsLastDown(events: seq<PointerEvent>, pointerId: int32)
    ensures forall i :: LastDown(events, pointerId, i) ==> ListOf(Run(events), pointerId) == ReachedBy(events[i].targets)
    ensures (forall i :: !LastDown(events, pointerId, i)) ==> ListOf(Run(events), pointerId) == []
  {
    if events == [] {
    } else {
      var n := |events| - 1;
      var before := events[..n];
      ListIsLastDown(before, pointerId);
      OnlyDownChangesOwnList(Run(before), events[n], pointerId);
      if IsDown(events[n], pointerId) {
        assert LastDown(events, pointerId, n);
        forall i | LastDown(events, pointerId, i) ensures i == n {
        }
      } else {
        forall i ensures LastDown(events, pointerId, i) <==> LastDown(before, pointerId, i) {
          if LastDown(before, pointerId, i) {
            forall j | i < j < |events| ensures !IsDown(events[j], pointerId) {
              assert j < n ==> events[j] == before[j];
            }
          }
          if LastDown(events, pointerId, i) {
            assert i != n;
            forall j | i < j < n ensures !IsDown(before[j], pointerId) {
              assert events[j] == before[j];
            }
          }
        }
        if forall i :: !LastDown(events, pointerId, i) {
          assert forall i :: !LastDown(before, pointerId, i);
        }
      }
    }
  }

  // ----- Who gets the end of a touch -----

  ghost predicate SawDown(events: seq<PointerEvent>, pointerId: int32, windowId: int32) {
    exists i :: LastDown(events, pointerId, i) && Search(ReachedBy(events[i].targets), windowId).Some?
  }

  lemma SearchedIsSawDown(events: seq<PointerEvent>, pointerId: int32, windowId: int32)
    ensures Search(ListOf(Run(events), pointerId), windowId).Some? <==> SawDown(events, pointerId, windowId)
  {
    ListIsLastDown(events, pointerId);
    if i :| LastDown(events, pointerId, i) {
    } else {
      assert ListOf(Run(events), pointerId) == [];
    }
  }

  /**
   An end passes the gate for a target exactly when the pointer's last down reached that
   window. A window that has vanished since gets a cancel with the info recorded then.
   */
  lemma EndPassesIffSawDown(events: seq<PointerEvent>, pointerId: int32, action: Action, target: Target)
    requires Ends(action)
    ensures var (cancels, gate) := Gate(Run(events), pointerId, action, target);
            && cancels == Run(events)
            && (gate.Some? <==> SawDown(events, pointerId, if target.info.Some? then target.info.value.id else target.windowId))
            && (gate.Some? ==> gate.value == if target.info.Some? then (action, target.info.value)
                               else (Cancel, Search(ListOf(Run(events), pointerId), target.windowId).value))
  {
    SearchedIsSawDown(events, pointerId, if target.info.Some? then target.info.value.id else target.windowId);
  }

  lemma {:induction false} SearchFinds(list: seq<WindowInfo>, id: int32)
    ensures Search(list, id).Some? ==> Search(list, id).value in list && Search(list, id).value.id == id
    ensures Search(list, id).None? ==> forall info :: info in list ==> info.id != id
  {
    if list != [] {
      SearchFinds(list[1..], id);
    }
  }

  lemma {:induction false} PassedEndsSawDown(events: seq<PointerEvent>, pointerId: int32, action: Action, targets: seq<Target>, count: nat, k: nat)
    requires Ends(action) && k < |Targets(Run(events), pointerId, action, targets, count).1|
    ensures var passed := Targets(Run(events), pointerId, action, targets, count).1[k];
            Ends(passed.action) && SawDown(events, pointerId, passed.info.id)
  {
    var t := targets[0];
    EndPassesIffSawDown(events, pointerId, action, t);
    SearchFinds(ListOf(Run(events), pointerId), t.windowId);
    var (next, gate) := Gate(Run(events), pointerId, action, t);
    if gate.None? {
      PassedEndsSawDown(events, pointerId, action, targets[1..], count, k);
    } else if k > 0 {
      PassedEndsSawDown(events, pointerId, action, targets[1..], count, k - 1);
    }
  }

  /** Every end let through in any run is for a window that saw the pointer's last down. */
  lemma NoEndWithoutDown(events: seq<PointerEvent>, event: PointerEvent, k: nat)
    requires Ends(event.action) && k < |Handled(Run(events), event).1|
    ensures SawDown(events, event.pointerId, Handled(Run(events), event).1[k].info.id)
  {
    PassedEndsSawDown(events, event.pointerId, event.action, event.targets, |event.targets|, k);
  }

  /** But an end does not use up the down: the same end passes again, any number of times. */
  lemma EndsAreNotConsumed(events: seq<PointerEvent>, event: PointerEvent)
    requires Ends(event.action)
    ensures Run(events + [event]) == Run(events)
    ensures Handled(Run(events + [event]), event) == Handled(Run(events), event)
  {
    assert (events + [event])[..|events|] == events;
    OthersUntouched(Run(events), event.pointerId, event.action, event.targets, |event.targets|);
  }

  // ----- Who is sent what -----

  /** The targets with info, up to and with the first of them whose display is not known. */
  function Shown(targets: seq<Target>): seq<Target> {
    if targets == [] then []
    else if targets[0].info == None then Shown(targets[1..])
    else if !targets[0].displayKnown then [targets[0]]
    else [targets[0]] + Shown(targets[1..])
  }

  /** The window of a target by its info if it has one, else by the id it was looked up with. */
  function WindowOf(target: Target): int32 {
    if target.info.Some? then target.info.value.id else target.windowId
  }

  /** The targets whose window saw the pointer's last down, up to and with the first of them whose display is not known. */
  ghost function SeenDown(events: seq<PointerEvent>, pointerId: int32, targets: seq<Target>): seq<Target> {
    if targets == [] then []
    else if !SawDown(events, pointerId, WindowOf(targets[0])) then SeenDown(events, pointerId, targets[1..])
    else if !targets[0].displayKnown then [targets[0]]
    else [targets[0]] + SeenDown(events, pointerId, targets[1..])
  }

  /** The pull-up of a drag ends as a cancel at a window that shares it with others; everything else is sent as it is. */
  ghost predicate SentRight(passed: Passed, target: Target, targetCount: nat) {
    && (passed.sent == None <==> !target.displayKnown)
    && (passed.sent.Some? && passed.action == PullUp && passed.info.transmitAll && 2 <= targetCount ==> passed.sent.value == Cancel)
    && (passed.sent.Some? && !(passed.action == PullUp && passed.info.transmitAll && 2 <= targetCount)
        ==> passed.sent.value == passed.action)
  }

  /** The target with info got the event as it came. */
  ghost predicate PassedOn(passed: Passed, target: Target, action: Action, targetCount: nat) {
    && target.info == Some(passed.info) && passed.windowId == target.windowId && passed.action == action
    && SentRight(passed, target, targetCount)
  }

  lemma {:induction false} OthersPassOn(cancels: CancelList, pointerId: int32, action: Action, targets: seq<Target>, count: nat)
    requires action != Up && action != Cancel
    ensures var passed, shown := Targets(cancels, pointerId, action, targets, count).1, Shown(targets);
            |passed| == |shown| && forall k :: 0 <= k < |shown| ==> PassedOn(passed[k], shown[k], action, count)
    decreases targets
  {
    if targets != [] {
      var t := targets[0];
      var (next, gate) := Gate(cancels, pointerId, action, t);
      OthersPassOn(next, pointerId, action, targets[1..], count);
      if t.info.Some? && t.displayKnown {
        var rest, shown := Targets(next, pointerId, action, targets[1..], count).1, Shown(targets[1..]);
        var passed := Targets(cancels, pointerId, action, targets, count).1;
        assert forall k :: 0 < k < |passed| ==> passed[k] == rest[k - 1] && Shown(targets)[k] == shown[k - 1];
      }
    }
  }

  /**
   In any run, an event that is neither up nor cancel passes for exactly the targets with
   info, in order, up to the first unknown display, with its own action and their info.
   */
  lemma OthersAreDelivered(events: seq<PointerEvent>, event: PointerEvent)
    requires event.action != Up && event.action != Cancel
    ensures var passed, shown := Handled(Run(events), event).1, Shown(event.targets);
            && |passed| == |shown|
            && forall k :: 0 <= k < |shown| ==> PassedOn(passed[k], shown[k], event.action, |event.targets|)
  {
    var cleared := if event.action == Down then Run(events) - {event.pointerId} else Run(events);
    OthersPassOn(cleared, event.pointerId, event.action, event.targets, |event.targets|);
  }

  /** The target got the end of the touch: as it came with its own info, or as a cancel with the info recorded at the down. */
  ghost predicate EndedFor(events: seq<PointerEvent>, pointerId: int32, passed: Passed, target: Target, action: Action, targetCount: nat) {
    && passed.windowId == target.windowId && SentRight(passed, target, targetCount)
    && (target.info.Some? ==> passed.info == target.info.value && passed.action == action)
    && (target.info.None? ==>
          passed.action == Cancel && passed.info.id == target.windowId
          && exists i :: LastDown(events, pointerId, i) && passed.info in ReachedBy(events[i].targets))
  }

  lemma RecordedAtDown(events: seq<PointerEvent>, pointerId: int32, windowId: int32)
    requires Search(ListOf(Run(events), pointerId), windowId).Some?
    ensures var info := Search(ListOf(Run(events), pointerId), windowId).value;
            info.id == windowId && exists i :: LastDown(events, pointerId, i) && info in ReachedBy(events[i].targets)
  {
    SearchedIsSawDown(events, pointerId, windowId);
    SearchFinds(ListOf(Run(events), pointerId), windowId);
    ListIsLastDown(events, pointerId);
    var i :| LastDown(events, pointerId, i) && Search(ReachedBy(events[i].targets), windowId).Some?;
  }

  lemma EndGate(events: seq<PointerEvent>, pointerId: int32, action: Action, target: Target, count: nat)
    requires action == Up || action == Cancel
    ensures var (next, gate) := Gate(Run(events), pointerId, action, target);
            && next == Run(events)
            && (gate.Some? <==> SawDown(events, pointerId, WindowOf(target)))
            && (gate.Some? ==>
                  EndedFor(events, pointerId,
                           Passed(target.windowId, gate.value.0, gate.value.1,
                                  if target.displayKnown then Some(SentAs(gate.value.0, gate.value.1, count)) else None),
                           target, action, count))
  {
    EndPassesIffSawDown(events, pointerId, action, target);
    if target.info.None? && Gate(Run(events), pointerId, action, target).1.Some? {
      RecordedAtDown(events, pointerId, target.windowId);
    }
  }

  lemma {:induction false} EndsPassOn(events: seq<PointerEvent>, pointerId: int32, action: Action, targets: seq<Target>, count: nat)
    requires action == Up || action == Cancel
    ensures var passed, seen := Targets(Run(events), pointerId, action, targets, count).1, SeenDown(events, pointerId, targets);
            |passed| == |seen| && forall k :: 0 <= k < |seen| ==> EndedFor(events, pointerId, passed[k], seen[k], action, count)
    decreases targets
  {
    if targets != [] {
      var t := targets[0];
      EndGate(events, pointerId, action, t, count);
      EndsPassOn(events, pointerId, action, targets[1..], count);
      if SawDown(events, pointerId, WindowOf(t)) && t.displayKnown {
        var rest, seen := Targets(Run(events), pointerId, action, targets[1..], count).1, SeenDown(events, pointerId, targets[1..]);
        var passed := Targets(Run(events), pointerId, action, targets, count).1;
        assert forall k :: 0 < k < |passed| ==> passed[k] == rest[k - 1] && SeenDown(events, pointerId, targets)[k] == seen[k - 1];
      }
    }
  }

  /**
   In any run, an up or cancel passes for exactly the targets whose window saw the pointer's
   last down, in order, up to the first unknown display.
   */
  lemma EndsAreDelivered(events: seq<PointerEvent>, event: PointerEvent)
    requires event.action == Up || event.action == Cancel
    ensures var passed, seen := Handled(Run(events), event).1, SeenDown(events, event.pointerId, event.targets);
            && |passed| == |seen|
            && forall k :: 0 <= k < |seen| ==>
                 EndedFor(events, event.pointerId, passed[k], seen[k], event.action, |event.targets|)
  {
    EndsPassOn(events, event.pointerId, event.action, event.targets, |event.targets|);
  }

  // ----- The handler itself -----

  class EventDispatchHandler {
    var cancelEventList: CancelList

    constructor ()
      ensures cancelEventList == map[]
    {
      cancelEventList := map[];
    }

    method SearchCancelList(pointerId: int32, windowId: int32) returns (found: Option<WindowInfo>)
      ensures found == Search(ListOf(cancelEventList, pointerId), windowId)
    {
      if pointerId !in cancelEventList {
        return None;
      }
      var list := cancelEventList[pointerId];
      var i := 0;
      while i < |list|
        invariant 0 <= i <= |list|
        invariant Search(list, windowId) == Search(list[i..], windowId)
      {
        if list[i].id == windowId {
          return Some(list[i]);
        }
        assert list[i..][1..] == list[i + 1..];
        i := i + 1;
      }
      return None;
    }

    method ReissueEvent(pointerId: int32, action: Action, target: Target) returns (passed: Option<(Action, WindowInfo)>)
      modifies this
      ensures (cancelEventList, passed) == Gate(old(cancelEventList), pointerId, action, target)
    {
      var now := action;
      var info := target.info;
      if info.None? {
        var recorded := SearchCancelList(pointerId, target.windowId);
        if recorded.None? || !Ends(action) {
          return None;
        }
        now, info := Cancel, recorded;
      }
      if now == Down {
        if pointerId !in cancelEventList {
          cancelEventList := cancelEventList[pointerId := []];
        }
        cancelEventList := cancelEventList[pointerId := cancelEventList[pointerId] + [info.value]];
        assert cancelEventList == old(cancelEventList)[pointerId := ListOf(old(cancelEventList), pointerId) + [info.value]];
      } else if Ends(now) {
        var recorded := SearchCancelList(pointerId, info.value.id);
        SearchFinds(ListOf(cancelEventList, pointerId), target.windowId);
        if recorded.None? {
          return None;
        }
      }
      return Some((now, info.value));
    }

    method HandleMultiWindowPointerEvent(event: PointerEvent) returns (passed: seq<Passed>)
      modifies this
      ensures (cancelEventList, passed) == Handled(old(cancelEventList), event)
    {
      if event.action == Down && event.pointerId in cancelEventList {
        cancelEventList := cancelEventList - {event.pointerId};
      }
      assert event.action == Down ==> cancelEventList == old(cancelEventList) - {event.pointerId};
      passed := [];
      ghost var whole := Handled(old(cancelEventList), event);
      var count, i := |event.targets|, 0;
      assert event.targets[0..] == event.targets;
      while i < count
        invariant 0 <= i <= count
        invariant whole.0 == Targets(cancelEventList, event.pointerId, event.action, event.targets[i..], count).0
        invariant whole.1 == passed + Targets(cancelEventList, event.pointerId, event.action, event.targets[i..], count).1
      {
        var target := event.targets[i];
        assert event.targets[i..][0] == target && event.targets[i..][1..] == event.targets[i + 1..];
        var gate := ReissueEvent(event.pointerId, event.action, target);
        if gate.Some? {
          var (action, info) := gate.value;
          if !target.displayKnown {
            passed := passed + [Passed(target.windowId, action, info, None)];
            assert whole.1 == passed;
            return;
          }
          passed := passed + [Passed(target.windowId, action, info, Some(SentAs(action, info, count)))];
        }
        i := i + 1;
      }
      assert whole.1 == passed;
    }
  }
}
