/**
 The client-side hotkey registry: for each hotkey name the callbacks registered for it,
 all sharing one subscription at the server. The server's answer to a subscribe request
 is a parameter.
 */
module HotkeyRegistry {
  import opened Basics
  import opened HotkeyNames

  const INPUT_PARAMETER_ERROR: int32 := 401
  const ERROR_UNSUPPORT: int32 := -2
  const OCCUPIED_BY_SYSTEM: int32 := -3
  const OCCUPIED_BY_OTHER: int32 := -4

  datatype Status = Success | ParameterError | NotSupported | OccupiedBySystem | OccupiedByOther

  datatype HotkeyInfo = HotkeyInfo(subscribeId: int32, callback: nat)

  /** The callback lists by hotkey name, and the subscriptions the server holds. */
  datatype Registry = Registry(callbacks: map<string, seq<HotkeyInfo>>, live: set<int32>)

  const EMPTY := Registry(map[], {})

  function ListOf(reg: Registry, name: string): seq<HotkeyInfo> {
    if name in reg.callbacks then reg.callbacks[name] else []
  }

  predicate Refused(reply: int32) {
    reply == ERROR_UNSUPPORT || reply == OCCUPIED_BY_SYSTEM || reply == OCCUPIED_BY_OTHER
  }

  function RefusalStatus(reply: int32): Status {
    if reply == ERROR_UNSUPPORT then NotSupported
    else if reply == OCCUPIED_BY_SYSTEM then OccupiedBySystem
    else OccupiedByOther
  }

  predicate HasCallback(list: seq<HotkeyInfo>, callback: nat) {
    exists i :: 0 <= i < |list| && list[i].callback == callback
  }

  /** The id a registration for `name` would share, or the error value if there is none. */
  function SharedId(reg: Registry, name: string): int32 {
    if ListOf(reg, name) == [] then INPUT_PARAMETER_ERROR else ListOf(reg, name)[0].subscribeId
  }

  /** What the server holds after answering a subscribe request. */
  function Subscribed(live: set<int32>, reply: int32): set<int32> {
    if reply >= 0 then live + {reply} else live
  }

  function AddedAt(reg: Registry, name: string, callback: nat, reply: int32): (Registry, Status) {
    var asks := SharedId(reg, name) == INPUT_PARAMETER_ERROR;
    if asks && Refused(reply) then (reg, RefusalStatus(reply))
    else
      var live := if asks then Subscribed(reg.live, reply) else reg.live;
      var id := if asks then reply else SharedId(reg, name);
      var list := ListOf(reg, name);
      if HasCallback(list, callback) then (reg.(live := live), ParameterError)
      else (Registry(reg.callbacks[name := list + [HotkeyInfo(id, callback)]], live), Success)
  }

  /** The list without the first entry for the callback. */
  function Without(list: seq<HotkeyInfo>, callback: nat): seq<HotkeyInfo> {
    if list == [] then []
    else if list[0].callback == callback then list[1..]
    else [list[0]] + Without(list[1..], callback)
  }

  /** The entry goes whether or not the server grants the request to unsubscribe. */
  function RemovedAt(reg: Registry, name: string, callback: nat, unsubscribed: bool): Registry {
    if name !in reg.callbacks then reg
    else
      var list := reg.callbacks[name];
      var rest := Without(list, callback);
      var asks := list != [] && rest == [] && list[0].subscribeId >= 0;
      Registry(reg.callbacks[name := rest], if asks && unsubscribed then reg.live - {list[0].subscribeId} else reg.live)
  }

  /** Delivering an event looks its name up with operator[], which leaves an empty list for an unknown name. */
  function LookedUp(reg: Registry, name: string): Registry {
    if name in reg.callbacks then reg else reg.(callbacks := reg.callbacks[name := []])
  }

  // ----- The invariant -----

  ghost predicate DistinctCallbacks(list: seq<HotkeyInfo>) {
    forall i, j :: 0 <= i < j < |list| ==> list[i].callback != list[j].callback
  }

  ghost predicate OneSubscription(list: seq<HotkeyInfo>) {
    forall i :: 0 <= i < |list| ==> list[i].subscribeId == list[0].subscribeId
  }

  ghost predicate Uses(reg: Registry, name: string, id: int32) {
    ListOf(reg, name) != [] && ListOf(reg, name)[0].subscribeId == id
  }

  ghost predicate ListSound(reg: Registry, name: string) {
    && DistinctCallbacks(ListOf(reg, name))
    && OneSubscription(ListOf(reg, name))
    && (forall id :: Uses(reg, name, id) ==> 0 <= id && id != INPUT_PARAMETER_ERROR && id in reg.live)
  }

  /** Every non-empty list has a live subscription of its own. */
  ghost predicate Covered(reg: Registry) {
    && (forall name :: ListSound(reg, name))
    && (forall a, b, id :: Uses(reg, a, id) && Uses(reg, b, id) ==> a == b)
  }

  /** The subscription is live, and no list has it. */
  ghost predicate Orphan(reg: Registry, id: int32) {
    id in reg.live && forall name :: !Uses(reg, name, id)
  }

  /** The live subscriptions are exactly the ids of the non-empty lists, one id to a list. */
  ghost predicate Exact(reg: Registry) {
    Covered(reg) && forall id :: !Orphan(reg, id)
  }

  /** A refusal, or an id that no list has and that is not taken for an error. */
  ghost predicate HonestReply(reg: Registry, reply: int32) {
    Refused(reply) || (0 <= reply && reply != INPUT_PARAMETER_ERROR && forall name :: !Uses(reg, name, reply))
  }

  lemma UsesAfterAdd(reg: Registry, name: string, callback: nat, reply: int32, other: string, id: int32)
    requires ListSound(reg, name)
    ensures var (after, status) := AddedAt(reg, name, callback, reply);
            Uses(after, other, id)
            <==> Uses(reg, other, id)
                 || (other == name && ListOf(reg, name) == [] && status == Success && id == reply)
  {
    assert ListOf(reg, name) != [] ==> Uses(reg, name, ListOf(reg, name)[0].subscribeId);
  }

  lemma AddKeepsLists(reg: Registry, name: string, callback: nat, reply: int32, other: string)
    requires Covered(reg) && (ListOf(reg, name) == [] ==> HonestReply(reg, reply))
    ensures ListSound(AddedAt(reg, name, callback, reply).0, other)
  {
    var (after, status) := AddedAt(reg, name, callback, reply);
    assert ListSound(reg, name) && ListSound(reg, other);
    assert ListOf(reg, name) != [] ==> Uses(reg, name, ListOf(reg, name)[0].subscribeId);
    forall id | Uses(after, other, id) ensures 0 <= id && id != INPUT_PARAMETER_ERROR && id in after.live {
      UsesAfterAdd(reg, name, callback, reply, other, id);
    }
  }

  lemma AddKeepsCovered(reg: Registry, name: string, callback: nat, reply: int32)
    requires Covered(reg) && (ListOf(reg, name) == [] ==> HonestReply(reg, reply))
    ensures Covered(AddedAt(reg, name, callback, reply).0)
  {
    var (after, status) := AddedAt(reg, name, callback, reply);
    assert ListSound(reg, name);
    forall other ensures ListSound(after, other) {
      AddKeepsLists(reg, name, callback, reply, other);
    }
    forall a, b, id | Uses(after, a, id) && Uses(after, b, id) ensures a == b {
      UsesAfterAdd(reg, name, callback, reply, a, id);
      UsesAfterAdd(reg, name, callback, reply, b, id);
    }
  }

  /** For a name without callbacks, every list stays covered precisely when the server's reply is honest. */
  lemma AddIsCoveredIffReplyHonest(reg: Registry, name: string, callback: nat, reply: int32)
    requires Covered(reg) && ListOf(reg, name) == []
    ensures Covered(AddedAt(reg, name, callback, reply).0) <==> HonestReply(reg, reply)
  {
    if HonestReply(reg, reply) {
      AddKeepsCovered(reg, name, callback, reply);
    } else {
      var after := AddedAt(reg, name, callback, reply).0;
      assert ListSound(reg, name);
      UsesAfterAdd(reg, name, callback, reply, name, reply);
      assert Uses(after, name, reply);
      if other :| Uses(reg, other, reply) {
        UsesAfterAdd(reg, name, callback, reply, other, reply);
      } else {
        assert !ListSound(after, name);
      }
    }
  }

  /** A negative reply that is no known refusal, as from a client that cannot connect, is answered with success and no subscription. */
  lemma SuccessWithoutSubscription(reg: Registry, name: string, callback: nat, reply: int32)
    requires Covered(reg) && ListOf(reg, name) == [] && reply < 0 && !Refused(reply)
    ensures var (after, status) := AddedAt(reg, name, callback, reply);
            status == Success && after.live == reg.live && HasCallback(ListOf(after, name), callback) && !Covered(after)
  {
    var after := AddedAt(reg, name, callback, reply).0;
    assert ListOf(after, name)[0].callback == callback;
    AddIsCoveredIffReplyHonest(reg, name, callback, reply);
  }

  /** Registering for a name without callbacks makes good use of an orphan if the server hands it out again. */
  lemma OrphanAfterAdd(reg: Registry, name: string, callback: nat, reply: int32, id: int32)
    requires Covered(reg) && (ListOf(reg, name) == [] ==> HonestReply(reg, reply))
    ensures Orphan(AddedAt(reg, name, callback, reply).0, id)
       <==> Orphan(reg, id) && !(ListOf(reg, name) == [] && reply == id && !Refused(reply))
  {
    var (after, status) := AddedAt(reg, name, callback, reply);
    assert ListSound(reg, name);
    assert ListOf(reg, name) != [] ==> Uses(reg, name, ListOf(reg, name)[0].subscribeId);
    if ListOf(reg, name) == [] && !Refused(reply) {
      assert status == Success && after.live == reg.live + {reply} && Uses(after, name, reply);
    } else {
      assert after.live == reg.live;
    }
    forall other
      ensures Uses(after, other, id)
         <==> Uses(reg, other, id) || (other == name && ListOf(reg, name) == [] && status == Success && id == reply)
    {
      UsesAfterAdd(reg, name, callback, reply, other, id);
    }
  }

  /** A registry that is exact stays so precisely when the server, if asked, replies honestly. */
  lemma AddIsExactIffReplyHonest(reg: Registry, name: string, callback: nat, reply: int32)
    requires Exact(reg)
    ensures Exact(AddedAt(reg, name, callback, reply).0) <==> ListOf(reg, name) != [] || HonestReply(reg, reply)
  {
    if ListOf(reg, name) == [] {
      AddIsCoveredIffReplyHonest(reg, name, callback, reply);
    } else {
      AddKeepsCovered(reg, name, callback, reply);
    }
    if ListOf(reg, name) != [] || HonestReply(reg, reply) {
      forall id ensures !Orphan(AddedAt(reg, name, callback, reply).0, id) {
        OrphanAfterAdd(reg, name, callback, reply, id);
      }
    }
  }

  lemma HasCallbackCons(list: seq<HotkeyInfo>, callback: nat)
    requires list != []
    ensures HasCallback(list, callback) <==> list[0].callback == callback || HasCallback(list[1..], callback)
  {
    var rest := list[1..];
    if HasCallback(list, callback) {
      var i :| 0 <= i < |list| && list[i].callback == callback;
      assert i == 0 || rest[i - 1].callback == callback;
    }
    if HasCallback(rest, callback) {
      var i :| 0 <= i < |rest| && rest[i].callback == callback;
      assert list[i + 1].callback == callback;
    }
  }

  lemma {:induction false} WithoutElements(list: seq<HotkeyInfo>, callback: nat)
    requires DistinctCallbacks(list) && OneSubscription(list)
    ensures DistinctCallbacks(Without(list, callback)) && OneSubscription(Without(list, callback))
    ensures forall info :: info in Without(list, callback) <==> info in list && info.callback != callback
    ensures |Without(list, callback)| == if HasCallback(list, callback) then |list| - 1 else |list|
  {
    if list == [] {
    } else if list[0].callback == callback {
    } else {
      var rest := list[1..];
      WithoutElements(rest, callback);
      HasCallbackCons(list, callback);
      var kept := Without(rest, callback);
      forall i | 0 <= i < |kept| ensures kept[i].callback != list[0].callback && kept[i].subscribeId == list[0].subscribeId {
        assert kept[i] in rest;
      }
    }
  }

  /** The callback is the last one in its list. */
  predicate LastLeaves(reg: Registry, name: string, callback: nat) {
    |ListOf(reg, name)| == 1 && ListOf(reg, name)[0].callback == callback
  }

  lemma UsesAfterRemove(reg: Registry, name: string, callback: nat, unsubscribed: bool, other: string, id: int32)
    requires ListSound(reg, name)
    ensures Uses(RemovedAt(reg, name, callback, unsubscribed), other, id)
       <==> Uses(reg, other, id) && !(other == name && LastLeaves(reg, name, callback))
  {
    var list := ListOf(reg, name);
    var rest := Without(list, callback);
    WithoutElements(list, callback);
    assert rest != [] ==> rest[0] in rest;
    assert list != [] ==> list[0] in list;
  }

  /** The server loses a subscription when the last callback leaves and the request is granted, and only then. */
  lemma RemoveAsks(reg: Registry, name: string, callback: nat, unsubscribed: bool)
    requires Covered(reg)
    ensures var list := ListOf(reg, name);
            if LastLeaves(reg, name, callback) && unsubscribed
            then list[0].subscribeId in reg.live
                 && RemovedAt(reg, name, callback, unsubscribed).live == reg.live - {list[0].subscribeId}
            else RemovedAt(reg, name, callback, unsubscribed).live == reg.live
  {
    var list := ListOf(reg, name);
    assert ListSound(reg, name);
    WithoutElements(list, callback);
    assert list != [] ==> Uses(reg, name, list[0].subscribeId);
  }

  /** Removing keeps every list covered, whatever becomes of the request to unsubscribe. */
  lemma RemoveKeepsCovered(reg: Registry, name: string, callback: nat, unsubscribed: bool)
    requires Covered(reg)
    ensures Covered(RemovedAt(reg, name, callback, unsubscribed))
  {
    var after, list := RemovedAt(reg, name, callback, unsubscribed), ListOf(reg, name);
    assert ListSound(reg, name);
    RemoveAsks(reg, name, callback, unsubscribed);
    WithoutElements(list, callback);
    assert list != [] ==> Uses(reg, name, list[0].subscribeId);
    forall other ensures ListSound(after, other) {
      assert ListSound(reg, other);
      forall id | Uses(after, other, id) ensures 0 <= id && id != INPUT_PARAMETER_ERROR && id in after.live {
        UsesAfterRemove(reg, name, callback, unsubscribed, other, id);
      }
    }
    forall a, b, id | Uses(after, a, id) && Uses(after, b, id) ensures a == b {
      UsesAfterRemove(reg, name, callback, unsubscribed, a, id);
      UsesAfterRemove(reg, name, callback, unsubscribed, b, id);
    }
  }

  lemma OrphanAfterRemove(reg: Registry, name: string, callback: nat, unsubscribed: bool, id: int32)
    requires Covered(reg)
    ensures Orphan(RemovedAt(reg, name, callback, unsubscribed), id)
       <==> Orphan(reg, id)
            || (LastLeaves(reg, name, callback) && !unsubscribed && ListOf(reg, name)[0].subscribeId == id)
  {
    var after, list := RemovedAt(reg, name, callback, unsubscribed), ListOf(reg, name);
    assert ListSound(reg, name);
    RemoveAsks(reg, name, callback, unsubscribed);
    assert list != [] ==> Uses(reg, name, list[0].subscribeId);
    forall other ensures Uses(after, other, id) <==> Uses(reg, other, id) && !(other == name && LastLeaves(reg, name, callback)) {
      UsesAfterRemove(reg, name, callback, unsubscribed, other, id);
    }
  }

  /** Removing keeps the registry exact, except precisely when the last callback leaves and the server does not unsubscribe it. */
  lemma RemoveKeepsExactIff(reg: Registry, name: string, callback: nat, unsubscribed: bool)
    requires Exact(reg)
    ensures Exact(RemovedAt(reg, name, callback, unsubscribed)) <==> unsubscribed || !LastLeaves(reg, name, callback)
  {
    var after := RemovedAt(reg, name, callback, unsubscribed);
    RemoveKeepsCovered(reg, name, callback, unsubscribed);
    if LastLeaves(reg, name, callback) && !unsubscribed {
      OrphanAfterRemove(reg, name, callback, unsubscribed, ListOf(reg, name)[0].subscribeId);
    } else {
      forall id ensures !Orphan(after, id) {
        OrphanAfterRemove(reg, name, callback, unsubscribed, id);
      }
    }
  }

  lemma LookUpChangesNothing(reg: Registry, name: string)
    requires Covered(reg)
    ensures Covered(LookedUp(reg, name))
    ensures forall id :: Orphan(LookedUp(reg, name), id) <==> Orphan(reg, id)
  {
    var after := LookedUp(reg, name);
    forall other ensures ListOf(after, other) == ListOf(reg, other) {
    }
    forall other, id ensures Uses(after, other, id) <==> Uses(reg, other, id) {
    }
    forall other ensures ListSound(after, other) {
      assert ListSound(reg, other);
    }
  }

  // ----- Runs -----

  datatype Op =
    | Register(hotkey: Hotkey, callback: nat, reply: int32)
    | Unregister(hotkey: Hotkey, callback: nat, unsubscribed: bool)
    | Deliver(event: KeyEvent)

  ghost function Registered(reg: Registry, hotkey: Hotkey, callback: nat, reply: int32): (Registry, Status) {
    if !Acceptable(hotkey) then (reg, ParameterError) else AddedAt(reg, Name(hotkey), callback, reply)
  }

  ghost function Unregistered(reg: Registry, hotkey: Hotkey, callback: nat, unsubscribed: bool): Registry {
    if !Acceptable(hotkey) then reg else RemovedAt(reg, Name(hotkey), callback, unsubscribed)
  }

  /**
   The answer to a registration: wrong keys or a callback already there are parameter
   errors; a server that is asked can refuse for three reasons; everything else succeeds.
   */
  lemma WhatIsAnswered(reg: Registry, hotkey: Hotkey, callback: nat, reply: int32)
    requires Covered(reg)
    ensures var list, status := ListOf(reg, Name(hotkey)), Registered(reg, hotkey, callback, reply).1;
            && (status == ParameterError <==> !Acceptable(hotkey) || HasCallback(list, callback))
            && (status == NotSupported <==> Acceptable(hotkey) && list == [] && reply == -2)
            && (status == OccupiedBySystem <==> Acceptable(hotkey) && list == [] && reply == -3)
            && (status == OccupiedByOther <==> Acceptable(hotkey) && list == [] && reply == -4)
  {
    var list := ListOf(reg, Name(hotkey));
    assert ListSound(reg, Name(hotkey));
    assert list != [] ==> Uses(reg, Name(hotkey), list[0].subscribeId);
  }

  ghost function Delivered(reg: Registry, event: KeyEvent): Registry {
    match EventName(event)
    case None => reg
    case Some(name) => LookedUp(reg, name)
  }

  /** Delivering an event changes no list and no subscription; it leaves an entry for the name it looked up. */
  lemma DeliveringOnlyLooks(reg: Registry, event: KeyEvent)
    ensures var after := Delivered(reg, event);
            && after.live == reg.live
            && (forall name :: ListOf(after, name) == ListOf(reg, name))
            && (forall name :: name in after.callbacks <==> name in reg.callbacks || EventName(event) == Some(name))
  {
  }

  ghost function After(reg: Registry, op: Op): Registry {
    match op
    case Register(hotkey, callback, reply) => Registered(reg, hotkey, callback, reply).0
    case Unregister(hotkey, callback, unsubscribed) => Unregistered(reg, hotkey, callback, unsubscribed)
    case Deliver(event) => Delivered(reg, event)
  }

  ghost function Run(ops: seq<Op>): Registry {
    if ops == [] then EMPTY else After(Run(ops[..|ops| - 1]), ops[|ops| - 1])
  }

  /** The op is a registration that has to ask the server. */
  ghost predicate Asks(reg: Registry, op: Op) {
    op.Register? && Acceptable(op.hotkey) && ListOf(reg, Name(op.hotkey)) == []
  }

  ghost predicate Honest(reg: Registry, op: Op) {
    Asks(reg, op) ==> HonestReply(reg, op.reply)
  }

  ghost predicate HonestAt(ops: seq<Op>, i: nat)
    requires i < |ops|
  {
    Honest(Run(ops[..i]), ops[i])
  }

  ghost predicate HonestServer(ops: seq<Op>) {
    forall i: nat :: i < |ops| ==> HonestAt(ops, i)
  }

  ghost predicate CoveredAt(ops: seq<Op>, n: nat)
    requires n <= |ops|
  {
    Covered(Run(ops[..n]))
  }

  lemma StepKeepsCovered(reg: Registry, op: Op)
    requires Covered(reg)
    ensures Covered(After(reg, op)) <==> Honest(reg, op)
  {
    match op {
    case Register(hotkey, callback, reply) =>
      if Asks(reg, op) {
        AddIsCoveredIffReplyHonest(reg, Name(hotkey), callback, reply);
      } else if Acceptable(hotkey) {
        AddKeepsCovered(reg, Name(hotkey), callback, reply);
      }
    case Unregister(hotkey, callback, unsubscribed) =>
      if Acceptable(hotkey) {
        RemoveKeepsCovered(reg, Name(hotkey), callback, unsubscribed);
      }
    case Deliver(event) =>
      if name :| EventName(event) == Some(name) {
        LookUpChangesNothing(reg, name);
      }
    }
  }

  lemma OneMore(ops: seq<Op>, n: nat)
    requires n < |ops|
    ensures Run(ops[..n + 1]) == After(Run(ops[..n]), ops[n])
  {
    assert ops[..n + 1][..n] == ops[..n];
  }

  lemma OneMoreCovered(ops: seq<Op>, n: nat)
    requires n < |ops| && CoveredAt(ops, n)
    ensures CoveredAt(ops, n + 1) <==> HonestAt(ops, n)
  {
    OneMore(ops, n);
    StepKeepsCovered(Run(ops[..n]), ops[n]);
  }

  lemma {:induction false} CoveredIfHonest(ops: seq<Op>, n: nat)
    requires n <= |ops| && HonestServer(ops)
    ensures CoveredAt(ops, n)
  {
    if n == 0 {
      assert ops[..0] == [];
    } else {
      CoveredIfHonest(ops, n - 1);
      OneMoreCovered(ops, n - 1);
    }
  }

  /** Through registrations, removals granted or not, and events, every list has a live subscription of its own, if and only if the server is honest. */
  lemma CoveredThroughoutIffHonest(ops: seq<Op>)
    ensures (forall n: nat :: n <= |ops| ==> CoveredAt(ops, n)) <==> HonestServer(ops)
  {
    if HonestServer(ops) {
      forall n: nat | n <= |ops| ensures CoveredAt(ops, n) {
        CoveredIfHonest(ops, n);
      }
    }
    if forall n: nat :: n <= |ops| ==> CoveredAt(ops, n) {
      forall i: nat | i < |ops| ensures HonestAt(ops, i) {
        assert CoveredAt(ops, i) && CoveredAt(ops, i + 1);
        OneMoreCovered(ops, i);
      }
    }
  }

  // ----- Subscriptions left behind -----

  /** The last callback with this subscription leaves, and the server does not unsubscribe it. */
  ghost predicate LeavesBehind(reg: Registry, op: Op, id: int32) {
    && op.Unregister? && !op.unsubscribed && Acceptable(op.hotkey)
    && LastLeaves(reg, Name(op.hotkey), op.callback) && ListOf(reg, Name(op.hotkey))[0].subscribeId == id
  }

  /** The server hands the subscription out. */
  ghost predicate HandsOut(reg: Registry, op: Op, id: int32) {
    Asks(reg, op) && op.reply == id && !Refused(id)
  }

  lemma OrphanAfter(reg: Registry, op: Op, id: int32)
    requires Covered(reg) && Honest(reg, op)
    ensures Orphan(After(reg, op), id) <==> LeavesBehind(reg, op, id) || (Orphan(reg, id) && !HandsOut(reg, op, id))
  {
    match op {
    case Register(hotkey, callback, reply) =>
      if Acceptable(hotkey) {
        OrphanAfterAdd(reg, Name(hotkey), callback, reply, id);
      }
    case Unregister(hotkey, callback, unsubscribed) =>
      if Acceptable(hotkey) {
        OrphanAfterRemove(reg, Name(hotkey), callback, unsubscribed, id);
      }
    case Deliver(event) =>
      if name :| EventName(event) == Some(name) {
        LookUpChangesNothing(reg, name);
      }
    }
  }

  ghost predicate LeavesBehindAt(ops: seq<Op>, i: nat, id: int32)
    requires i < |ops|
  {
    LeavesBehind(Run(ops[..i]), ops[i], id)
  }

  ghost predicate HandsOutAt(ops: seq<Op>, i: nat, id: int32)
    requires i < |ops|
  {
    HandsOut(Run(ops[..i]), ops[i], id)
  }

  /** Some op left the subscription behind, and it has not been handed out since. */
  ghost predicate LeftBehind(ops: seq<Op>, n: nat, id: int32)
    requires n <= |ops|
  {
    On(seq(|ops|, i requires 0 <= i < |ops| => LeavesBehindAt(ops, i, id)),
       seq(|ops|, i requires 0 <= i < |ops| => HandsOutAt(ops, i, id)), n)
  }

  lemma LeftBehindOneMore(ops: seq<Op>, n: nat, id: int32)
    requires n < |ops|
    ensures LeftBehind(ops, n + 1, id)
       <==> LeavesBehindAt(ops, n, id) || (LeftBehind(ops, n, id) && !HandsOutAt(ops, n, id))
  {
    OnOneMore(seq(|ops|, i requires 0 <= i < |ops| => LeavesBehindAt(ops, i, id)),
              seq(|ops|, i requires 0 <= i < |ops| => HandsOutAt(ops, i, id)), n);
  }

  /** A subscription no list has is one that a removal left behind and that has not been handed out since. */
  lemma {:induction false} OrphansWereLeftBehind(ops: seq<Op>, n: nat, id: int32)
    requires n <= |ops| && HonestServer(ops)
    ensures Orphan(Run(ops[..n]), id) <==> LeftBehind(ops, n, id)
  {
    if n == 0 {
      assert ops[..0] == [];
    } else {
      OrphansWereLeftBehind(ops, n - 1, id);
      OrphanOneMore(ops, n - 1, id);
      LeftBehindOneMore(ops, n - 1, id);
    }
  }

  lemma OrphanOneMore(ops: seq<Op>, n: nat, id: int32)
    requires n < |ops| && HonestServer(ops)
    ensures Orphan(Run(ops[..n + 1]), id)
       <==> LeavesBehindAt(ops, n, id) || (Orphan(Run(ops[..n]), id) && !HandsOutAt(ops, n, id))
  {
    CoveredIfHonest(ops, n);
    OneMore(ops, n);
    assert HonestAt(ops, n);
    OrphanAfter(Run(ops[..n]), ops[n], id);
  }

  /**
   With an honest server, the live subscriptions are those of the non-empty lists, and
   besides them exactly the ones left behind by a removal and not handed out since.
   */
  lemma SubscriptionsAreExact(ops: seq<Op>)
    requires HonestServer(ops)
    ensures Covered(Run(ops))
    ensures forall id :: id in Run(ops).live
                    <==> (exists name :: Uses(Run(ops), name, id)) || LeftBehind(ops, |ops|, id)
  {
    assert ops[..|ops|] == ops;
    CoveredIfHonest(ops, |ops|);
    forall id
      ensures id in Run(ops).live
         <==> (exists name :: Uses(Run(ops), name, id)) || LeftBehind(ops, |ops|, id)
    {
      OrphansWereLeftBehind(ops, |ops|, id);
      assert forall name :: Uses(Run(ops), name, id) ==> ListSound(Run(ops), name);
    }
  }

  // ----- Who is registered -----

  ghost predicate Succeeds(reg: Registry, op: Op, hotkey: Hotkey, callback: nat) {
    op.Register? && op.hotkey == hotkey && op.callback == callback && Registered(reg, hotkey, callback, op.reply).1 == Success
  }

  ghost predicate SucceedsAt(ops: seq<Op>, hotkey: Hotkey, callback: nat, i: int)
    requires 0 <= i < |ops|
  {
    Succeeds(Run(ops[..i]), ops[i], hotkey, callback)
  }

  ghost predicate IsUnregister(op: Op, hotkey: Hotkey, callback: nat) {
    op.Unregister? && op.hotkey == hotkey && op.callback == callback
  }

  ghost predicate RegisteredSince(ops: seq<Op>, hotkey: Hotkey, callback: nat, i: int) {
    && 0 <= i < |ops| && SucceedsAt(ops, hotkey, callback, i)
    && forall j :: i < j < |ops| ==> !IsUnregister(ops[j], hotkey, callback)
  }

  /** The callback was registered for the hotkey with success, and not unregistered since. */
  ghost predicate IsRegistered(ops: seq<Op>, hotkey: Hotkey, callback: nat) {
    exists i :: RegisteredSince(ops, hotkey, callback, i)
  }

  lemma IsRegisteredSnoc(ops: seq<Op>, op: Op, hotkey: Hotkey, callback: nat)
    ensures IsRegistered(ops + [op], hotkey, callback)
       <==> Succeeds(Run(ops), op, hotkey, callback) || (IsRegistered(ops, hotkey, callback) && !IsUnregister(op, hotkey, callback))
  {
    var all := ops + [op];
    assert all[..|ops|] == ops;
    forall i | 0 <= i < |ops| ensures all[..i] == ops[..i] && all[i] == ops[i] {
    }
    if Succeeds(Run(ops), op, hotkey, callback) {
      assert SucceedsAt(all, hotkey, callback, |ops|);
      assert RegisteredSince(all, hotkey, callback, |ops|);
    }
    if IsRegistered(ops, hotkey, callback) && !IsUnregister(op, hotkey, callback) {
      var i :| RegisteredSince(ops, hotkey, callback, i);
      assert SucceedsAt(all, hotkey, callback, i);
      assert RegisteredSince(all, hotkey, callback, i);
    }
    if IsRegistered(all, hotkey, callback) {
      var i :| RegisteredSince(all, hotkey, callback, i);
      if i < |ops| {
        assert SucceedsAt(ops, hotkey, callback, i);
        assert !IsUnregister(all[|ops|], hotkey, callback);
        assert RegisteredSince(ops, hotkey, callback, i) by {
          forall j | i < j < |ops| ensures !IsUnregister(ops[j], hotkey, callback) {
            assert all[j] == ops[j];
          }
        }
      }
    }
  }

  lemma ListAfter(reg: Registry, op: Op, hotkey: Hotkey, callback: nat)
    requires Covered(reg) && Acceptable(hotkey)
    ensures HasCallback(ListOf(After(reg, op), Name(hotkey)), callback)
       <==> || Succeeds(reg, op, hotkey, callback)
            || (HasCallback(ListOf(reg, Name(hotkey)), callback) && !IsUnregister(op, hotkey, callback))
  {
    var list := ListOf(reg, Name(hotkey));
    assert ListSound(reg, Name(hotkey));
    match op {
    case Register(h, c, reply) =>
      DifferentHotkeysDifferentNames(h, hotkey);
      var info := HotkeyInfo(if list == [] then reply else list[0].subscribeId, c);
      HasCallbackSnoc(list, info, callback);
      assert list != [] ==> Uses(reg, Name(hotkey), list[0].subscribeId);
    case Unregister(h, c, _) =>
      DifferentHotkeysDifferentNames(h, hotkey);
      WithoutElements(list, c);
      HasCallbackIn(list, callback);
      HasCallbackIn(Without(list, c), callback);
    case Deliver(_) =>
    }
  }

  lemma HasCallbackSnoc(list: seq<HotkeyInfo>, info: HotkeyInfo, callback: nat)
    ensures HasCallback(list + [info], callback) <==> HasCallback(list, callback) || info.callback == callback
  {
    if HasCallback(list, callback) {
      var i :| 0 <= i < |list| && list[i].callback == callback;
      assert (list + [info])[i].callback == callback;
    }
    assert (list + [info])[|list|] == info;
  }

  lemma HasCallbackIn(list: seq<HotkeyInfo>, callback: nat)
    ensures HasCallback(list, callback) <==> exists info :: info in list && info.callback == callback
  {
    if info :| info in list && info.callback == callback {
      var i :| 0 <= i < |list| && list[i] == info;
      assert list[i].callback == callback;
    }
  }

  /** A callback is in its hotkey's list exactly while it is registered. */
  lemma {:induction false} ListsHoldTheRegistered(ops: seq<Op>, hotkey: Hotkey, callback: nat)
    requires HonestServer(ops) && Acceptable(hotkey)
    ensures HasCallback(ListOf(Run(ops), Name(hotkey)), callback) <==> IsRegistered(ops, hotkey, callback)
  {
    if ops == [] {
    } else {
      var before, op := ops[..|ops| - 1], ops[|ops| - 1];
      assert ops == before + [op];
      forall i: nat | i < |before| ensures HonestAt(before, i) {
        assert HonestAt(ops, i) && before[..i] == ops[..i];
      }
      ListsHoldTheRegistered(before, hotkey, callback);
      CoveredIfHonest(ops, |before|);
      ListAfter(Run(before), op, hotkey, callback);
      IsRegisteredSnoc(before, op, hotkey, callback);
    }
  }

  // ----- The registry itself -----

  class HotkeyMonitors {
    var callbacks: map<string, seq<HotkeyInfo>>
    var live: set<int32>

    ghost function Shown(): Registry
      reads this
    {
      Registry(callbacks, live)
    }

    constructor ()
      ensures Shown() == EMPTY
    {
      callbacks, live := map[], {};
    }

    function GetSubscribeId(name: string): int32
      reads this
    {
      if name !in callbacks || callbacks[name] == [] then INPUT_PARAMETER_ERROR else callbacks[name][0].subscribeId
    }

    method AddHotkeySubscribe(name: string, info: HotkeyInfo) returns (status: Status)
      modifies this`callbacks
      ensures var list := ListOf(old(Shown()), name);
              if HasCallback(list, info.callback)
              then status == ParameterError && callbacks == old(callbacks)
              else status == Success && callbacks == old(callbacks)[name := list + [info]]
    {
      ghost var list := ListOf(Shown(), name);
      if name !in callbacks {
        callbacks := callbacks[name := []];
      }
      for i := 0 to |callbacks[name]|
        invariant name in callbacks && callbacks[name] == list
        invariant forall j :: 0 <= j < i ==> list[j].callback != info.callback
      {
        if callbacks[name][i].callback == info.callback {
          return ParameterError;
        }
      }
      callbacks := callbacks[name := callbacks[name] + [info]];
      return Success;
    }

    /** `reply` is what the server would answer to a subscribe request. */
    method AddHotkeyMonitor(hotkey: Hotkey, callback: nat, reply: int32) returns (status: Status)
      modifies this
      ensures (Shown(), status) == Registered(old(Shown()), hotkey, callback, reply)
    {
      var made := MakeHotkeyInfo(hotkey);
      if made == None {
        return ParameterError;
      }
      var name := made.value;
      var subscribeId := GetSubscribeId(name);
      if subscribeId == INPUT_PARAMETER_ERROR {
        if reply == ERROR_UNSUPPORT {
          return NotSupported;
        }
        if reply == OCCUPIED_BY_SYSTEM {
          return OccupiedBySystem;
        }
        if reply == OCCUPIED_BY_OTHER {
          return OccupiedByOther;
        }
        live := if reply >= 0 then live + {reply} else live;
        subscribeId := reply;
      }
      status := AddHotkeySubscribe(name, HotkeyInfo(subscribeId, callback));
    }

    /** Deletes the first entry for the callback; reports the subscription to cancel, or -1. */
    method DelHotkeyMonitor(list: seq<HotkeyInfo>, callback: nat) returns (rest: seq<HotkeyInfo>, subscribeId: int32)
      ensures rest == Without(list, callback)
      ensures subscribeId == if list != [] && rest == [] then list[0].subscribeId else -1
    {
      subscribeId := -1;
      var i := 0;
      while i < |list|
        invariant 0 <= i <= |list|
        invariant list[..i] + Without(list[i..], callback) == Without(list, callback)
      {
        if list[i].callback == callback {
          rest := list[..i] + list[i + 1..];
          assert list[i..][1..] == list[i + 1..];
          if rest == [] {
            subscribeId := list[i].subscribeId;
          }
          return;
        }
        assert list[..i + 1] == list[..i] + [list[i]] && list[i..][1..] == list[i + 1..];
        i := i + 1;
      }
      rest := list;
      assert list[..i] == list && list[i..] == [];
    }

    /** `unsubscribed` is whether the server would grant a request to unsubscribe; nobody looks. */
    method RemoveHotkeyMonitor(hotkey: Hotkey, callback: nat, unsubscribed: bool) returns (status: Status)
      modifies this
      ensures Shown() == Unregistered(old(Shown()), hotkey, callback, unsubscribed)
      ensures status == if Acceptable(hotkey) then Success else ParameterError
    {
      var made := MakeHotkeyInfo(hotkey);
      if made == None {
        return ParameterError;
      }
      var name := made.value;
      if name !in callbacks {
        return Success;
      }
      var rest, subscribeId := DelHotkeyMonitor(callbacks[name], callback);
      callbacks := callbacks[name := rest];
      if subscribeId >= 0 && unsubscribed {
        live := live - {subscribeId};
      }
      return Success;
    }

    /** The callbacks to run for an event. */
    method HandleKeyEvent(event: KeyEvent) returns (called: seq<nat>)
      modifies this`callbacks
      ensures Shown() == Delivered(old(Shown()), event)
      ensures match EventHotkey(event)
              case None => called == []
              case Some(hotkey) =>
                var list := ListOf(old(Shown()), Name(hotkey));
                |called| == |list| && forall i :: 0 <= i < |list| ==> called[i] == list[i].callback
    {
      called := [];
      var name := CheckHotkey(event);
      if name.None? {
        return;
      }
      if name.value !in callbacks {
        callbacks := callbacks[name.value := []];
      }
      var list := callbacks[name.value];
      for i := 0 to |list|
        invariant |called| == i && forall j :: 0 <= j < i ==> called[j] == list[j].callback
      {
        called := called + [list[i].callback];
      }
    }
  }
}
