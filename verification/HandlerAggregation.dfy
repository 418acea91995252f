/**
 Local event handlers and the one registration that stands for all of them at the
 interceptor handler. Event types and device tags are sets of flags; the answer of the
 handler to a registration is a parameter.
 */
module HandlerAggregation {
  import opened Basics

  datatype HandlerType = Monitor | Interceptor

  datatype Summary = Summary(name: string, eventType: set<nat>, deviceTags: set<nat>)

  datatype Handler = Handler(handlerType: HandlerType, summary: Summary)

  /** The handler object is there and takes the registration, or refuses it; or there is none. */
  datatype Reply = Accepted | Rejected | NoHandler

  /** The local handlers, and what the interceptor handler last accepted. */
  datatype State = State(handlers: seq<Handler>, eventType: set<nat>, deviceTags: set<nat>)

  const INITIAL := State([], {}, {})

  function GetEventType(handlers: seq<Handler>, handlerType: HandlerType): set<nat> {
    if handlers == [] then {}
    else GetEventType(handlers[..|handlers| - 1], handlerType)
         + if handlers[|handlers| - 1].handlerType == handlerType then handlers[|handlers| - 1].summary.eventType else {}
  }

  function AllTags(handlers: seq<Handler>, handlerType: HandlerType): set<nat> {
    if handlers == [] then {}
    else AllTags(handlers[..|handlers| - 1], handlerType)
         + if handlers[|handlers| - 1].handlerType == handlerType then handlers[|handlers| - 1].summary.deviceTags else {}
  }

  /** Monitors have no device tags. */
  function GetDeviceTags(handlers: seq<Handler>, handlerType: HandlerType): set<nat> {
    if handlerType == Monitor then {} else AllTags(handlers, handlerType)
  }

  predicate HasHandler(handlers: seq<Handler>, name: string) {
    exists i :: 0 <= i < |handlers| && handlers[i].summary.name == name
  }

  /** The position of the first handler of this type and name. */
  function Find(handlers: seq<Handler>, handlerType: HandlerType, name: string): (i: nat)
    ensures i <= |handlers|
    ensures i < |handlers| ==> handlers[i].handlerType == handlerType && handlers[i].summary.name == name
    ensures forall j :: 0 <= j < i ==> !(handlers[j].handlerType == handlerType && handlers[j].summary.name == name)
  {
    if handlers == [] || (handlers[0].handlerType == handlerType && handlers[0].summary.name == name) then 0
    else 1 + Find(handlers[1..], handlerType, name)
  }

  function Dropped(handlers: seq<Handler>, i: nat): seq<Handler>
    requires i < |handlers|
  {
    handlers[..i] + handlers[i + 1..]
  }

  /** Adding this handler changes the aggregate, as far as the code can see. */
  predicate NeedsReport(handlers: seq<Handler>, handler: Handler) {
    || GetEventType(handlers, handler.handlerType) != GetEventType(handlers + [handler], handler.handlerType)
    || !(handler.summary.deviceTags <= GetDeviceTags(handlers, handler.handlerType))
  }

  function Added(s: State, handler: Handler, reply: Reply): State {
    var handlers := s.handlers + [handler];
    if HasHandler(s.handlers, handler.summary.name) then s
    else if !NeedsReport(s.handlers, handler) || reply == NoHandler then s.(handlers := handlers)
    else if reply == Rejected then s
    else if handler.handlerType == Interceptor then
      State(handlers, GetEventType(handlers, Interceptor), GetDeviceTags(handlers, Interceptor))
    else s.(handlers := handlers)
  }

  /** Dropping the i-th handler is reported to the interceptor handler. */
  predicate ReportsRemoval(handlers: seq<Handler>, i: nat)
    requires i < |handlers|
  {
    && handlers[i].handlerType == Interceptor
    && (|| GetEventType(handlers, Interceptor) != GetEventType(Dropped(handlers, i), Interceptor)
        || GetDeviceTags(handlers, Interceptor) * handlers[i].summary.deviceTags != {})
  }

  /** The handler goes whatever the answer; the registration follows only if the report is accepted. */
  function Removed(s: State, handlerType: HandlerType, name: string, reply: Reply): State {
    var i := Find(s.handlers, handlerType, name);
    if i == |s.handlers| then s
    else
      var handlers := Dropped(s.handlers, i);
      if ReportsRemoval(s.handlers, i) && reply == Accepted
      then State(handlers, GetEventType(handlers, Interceptor), GetDeviceTags(handlers, Interceptor))
      else s.(handlers := handlers)
  }

  // ----- What the aggregate means -----

  ghost predicate HeldFlag(handlers: seq<Handler>, flag: nat, tags: bool) {
    exists i :: 0 <= i < |handlers| && handlers[i].handlerType == Interceptor
                && flag in if tags then handlers[i].summary.deviceTags else handlers[i].summary.eventType
  }

  /** The accepted registration has exactly the flags some local interceptor handler has. */
  ghost predicate InSync(s: State) {
    && (forall flag :: flag in s.eventType <==> HeldFlag(s.handlers, flag, false))
    && (forall flag :: flag in s.deviceTags <==> HeldFlag(s.handlers, flag, true))
  }

  ghost predicate NamesUnique(handlers: seq<Handler>) {
    forall i, j :: 0 <= i < j < |handlers| ==> handlers[i].summary.name != handlers[j].summary.name
  }

  lemma {:induction false} AggregateIsHeld(handlers: seq<Handler>, flag: nat)
    ensures flag in GetEventType(handlers, Interceptor) <==> HeldFlag(handlers, flag, false)
    ensures flag in GetDeviceTags(handlers, Interceptor) <==> HeldFlag(handlers, flag, true)
  {
    if handlers != [] {
      var init, last := handlers[..|handlers| - 1], handlers[|handlers| - 1];
      AggregateIsHeld(init, flag);
      HeldSnoc(init, last, flag, false);
      HeldSnoc(init, last, flag, true);
      assert handlers == init + [last];
    }
  }

  lemma HeldSnoc(handlers: seq<Handler>, handler: Handler, flag: nat, tags: bool)
    ensures HeldFlag(handlers + [handler], flag, tags)
       <==> HeldFlag(handlers, flag, tags)
            || (handler.handlerType == Interceptor && flag in if tags then handler.summary.deviceTags else handler.summary.eventType)
  {
    var all := handlers + [handler];
    if HeldFlag(handlers, flag, tags) {
      var i :| 0 <= i < |handlers| && handlers[i].handlerType == Interceptor
               && flag in if tags then handlers[i].summary.deviceTags else handlers[i].summary.eventType;
      assert all[i] == handlers[i];
    }
    assert all[|handlers|] == handler;
  }

  ghost predicate AggregatesMatch(s: State) {
    s.eventType == GetEventType(s.handlers, Interceptor) && s.deviceTags == GetDeviceTags(s.handlers, Interceptor)
  }

  lemma MatchIsSync(s: State)
    ensures AggregatesMatch(s) <==> InSync(s)
  {
    forall flag: nat
      ensures flag in GetEventType(s.handlers, Interceptor) <==> HeldFlag(s.handlers, flag, false)
      ensures flag in GetDeviceTags(s.handlers, Interceptor) <==> HeldFlag(s.handlers, flag, true)
    {
      AggregateIsHeld(s.handlers, flag);
    }
  }

  lemma SnocAggregates(handlers: seq<Handler>, handler: Handler, handlerType: HandlerType)
    ensures GetEventType(handlers + [handler], handlerType)
         == GetEventType(handlers, handlerType) + if handler.handlerType == handlerType then handler.summary.eventType else {}
    ensures AllTags(handlers + [handler], handlerType)
         == AllTags(handlers, handlerType) + if handler.handlerType == handlerType then handler.summary.deviceTags else {}
  {
    assert (handlers + [handler])[..|handlers|] == handlers;
  }

  /** A handler object that is missing leaves the registration behind exactly when the new handler had something to report. */
  lemma AddKeepsSyncIff(s: State, handler: Handler, reply: Reply)
    requires InSync(s)
    ensures InSync(Added(s, handler, reply))
       <==> || reply != NoHandler || handler.handlerType == Monitor
            || HasHandler(s.handlers, handler.summary.name) || !NeedsReport(s.handlers, handler)
  {
    MatchIsSync(s);
    MatchIsSync(Added(s, handler, reply));
    SnocAggregates(s.handlers, handler, Interceptor);
    SnocAggregates(s.handlers, handler, Monitor);
  }

  /** This one handler has the flag, as an interceptor. */
  predicate Holds(handler: Handler, flag: nat, tags: bool) {
    handler.handlerType == Interceptor && flag in if tags then handler.summary.deviceTags else handler.summary.eventType
  }

  lemma DroppedHeld(handlers: seq<Handler>, i: nat, flag: nat, tags: bool)
    requires i < |handlers|
    ensures HeldFlag(handlers, flag, tags) <==> HeldFlag(Dropped(handlers, i), flag, tags) || Holds(handlers[i], flag, tags)
  {
    var rest := Dropped(handlers, i);
    assert forall j :: 0 <= j < i ==> rest[j] == handlers[j];
    assert forall j :: i < j < |handlers| ==> rest[j - 1] == handlers[j];
    if HeldFlag(handlers, flag, tags) {
      var j :| 0 <= j < |handlers| && Holds(handlers[j], flag, tags);
      if j < i {
        assert Holds(rest[j], flag, tags);
      } else if j > i {
        assert Holds(rest[j - 1], flag, tags);
      }
    }
    if HeldFlag(rest, flag, tags) {
      var j :| 0 <= j < |rest| && Holds(rest[j], flag, tags);
      assert Holds(handlers[if j < i then j else j + 1], flag, tags);
    }
  }

  /** Where no report is made, nothing the interceptor handler knows has changed. */
  lemma SilentRemoval(handlers: seq<Handler>, i: nat, flag: nat, tags: bool)
    requires i < |handlers|
    requires !ReportsRemoval(handlers, i)
    ensures HeldFlag(handlers, flag, tags) <==> HeldFlag(Dropped(handlers, i), flag, tags)
  {
    DroppedHeld(handlers, i, flag, tags);
    AggregateIsHeld(handlers, flag);
    AggregateIsHeld(Dropped(handlers, i), flag);
    assert flag in GetDeviceTags(handlers, Interceptor) && flag in handlers[i].summary.deviceTags
        <==> flag in GetDeviceTags(handlers, Interceptor) * handlers[i].summary.deviceTags;
  }

  /** Everything the handler has, some other interceptor has too. */
  ghost predicate Redundant(handlers: seq<Handler>, i: nat)
    requires i < |handlers|
  {
    forall flag, tags :: Holds(handlers[i], flag, tags) ==> HeldFlag(Dropped(handlers, i), flag, tags)
  }

  /** A removal keeps the registration right exactly if it is accepted, or takes away nothing the others do not have. */
  lemma RemoveKeepsSyncIff(s: State, handlerType: HandlerType, name: string, reply: Reply)
    requires InSync(s)
    ensures var i := Find(s.handlers, handlerType, name);
            InSync(Removed(s, handlerType, name, reply))
            <==> reply == Accepted || i == |s.handlers| || Redundant(s.handlers, i)
  {
    var i := Find(s.handlers, handlerType, name);
    var after := Removed(s, handlerType, name, reply);
    if i < |s.handlers| {
      forall flag: nat, tags: bool
        ensures HeldFlag(s.handlers, flag, tags)
           <==> HeldFlag(Dropped(s.handlers, i), flag, tags) || Holds(s.handlers[i], flag, tags)
        ensures !ReportsRemoval(s.handlers, i)
            ==> (HeldFlag(s.handlers, flag, tags) <==> HeldFlag(Dropped(s.handlers, i), flag, tags))
      {
        DroppedHeld(s.handlers, i, flag, tags);
        if !ReportsRemoval(s.handlers, i) {
          SilentRemoval(s.handlers, i, flag, tags);
        }
      }
      if ReportsRemoval(s.handlers, i) && reply == Accepted {
        MatchIsSync(after);
      } else {
        LeftBehindIff(s, i);
      }
    }
  }

  lemma LeftBehindIff(s: State, i: nat)
    requires InSync(s) && i < |s.handlers|
    ensures InSync(s.(handlers := Dropped(s.handlers, i))) <==> Redundant(s.handlers, i)
  {
    var after := s.(handlers := Dropped(s.handlers, i));
    forall flag: nat, tags: bool
      ensures HeldFlag(s.handlers, flag, tags) <==> HeldFlag(after.handlers, flag, tags) || Holds(s.handlers[i], flag, tags)
    {
      DroppedHeld(s.handlers, i, flag, tags);
    }
    if InSync(after) {
      forall flag: nat, tags: bool | Holds(s.handlers[i], flag, tags) ensures HeldFlag(after.handlers, flag, tags) {
        assert HeldFlag(s.handlers, flag, tags);
        assert tags || flag in s.eventType;
        assert !tags || flag in s.deviceTags;
      }
    }
  }

  datatype Op = Add(handler: Handler, reply: Reply) | Remove(handlerType: HandlerType, name: string, reply: Reply)

  function After(s: State, op: Op): State {
    match op
    case Add(handler, reply) => Added(s, handler, reply)
    case Remove(handlerType, name, reply) => Removed(s, handlerType, name, reply)
  }

  function Run(ops: seq<Op>): State {
    if ops == [] then INITIAL else After(Run(ops[..|ops| - 1]), ops[|ops| - 1])
  }

  /** No report of the step is lost that changes what the local interceptors add up to. */
  ghost predicate Heard(s: State, op: Op) {
    match op
    case Add(handler, reply) =>
      || reply != NoHandler || handler.handlerType == Monitor
      || HasHandler(s.handlers, handler.summary.name) || !NeedsReport(s.handlers, handler)
    case Remove(handlerType, name, reply) =>
      var i := Find(s.handlers, handlerType, name);
      reply == Accepted || i == |s.handlers| || Redundant(s.handlers, i)
  }

  ghost predicate HeardAt(ops: seq<Op>, i: nat)
    requires i < |ops|
  {
    Heard(Run(ops[..i]), ops[i])
  }

  ghost predicate InSyncAt(ops: seq<Op>, n: nat)
    requires n <= |ops|
  {
    InSync(Run(ops[..n]))
  }

  lemma StepKeepsSyncIff(s: State, op: Op)
    requires InSync(s)
    ensures InSync(After(s, op)) <==> Heard(s, op)
  {
    match op
    case Add(handler, reply) => AddKeepsSyncIff(s, handler, reply);
    case Remove(handlerType, name, reply) => RemoveKeepsSyncIff(s, handlerType, name, reply);
  }

  lemma OneMoreInSync(ops: seq<Op>, n: nat)
    requires n < |ops| && InSyncAt(ops, n)
    ensures InSyncAt(ops, n + 1) <==> HeardAt(ops, n)
  {
    assert ops[..n + 1][..n] == ops[..n];
    assert Run(ops[..n + 1]) == After(Run(ops[..n]), ops[n]);
    StepKeepsSyncIff(Run(ops[..n]), ops[n]);
  }

  lemma NothingYetInSync(ops: seq<Op>)
    ensures InSyncAt(ops, 0)
  {
    assert ops[..0] == [];
  }

  lemma {:induction false} InSyncIfHeard(ops: seq<Op>, n: nat)
    requires n <= |ops| && forall i: nat :: i < |ops| ==> HeardAt(ops, i)
    ensures InSyncAt(ops, n)
  {
    if n == 0 {
      NothingYetInSync(ops);
    } else {
      InSyncIfHeard(ops, n - 1);
      OneMoreInSync(ops, n - 1);
    }
  }

  /**
   Through adds, refused adds and removes, the interceptor handler always knows exactly the
   local interceptors' flags, if and only if every report that matters is heard.
   */
  lemma InSyncThroughoutIffHeard(ops: seq<Op>)
    ensures (forall n: nat :: n <= |ops| ==> InSyncAt(ops, n)) <==> (forall i: nat :: i < |ops| ==> HeardAt(ops, i))
  {
    if forall i: nat :: i < |ops| ==> HeardAt(ops, i) {
      forall n: nat | n <= |ops| ensures InSyncAt(ops, n) {
        InSyncIfHeard(ops, n);
      }
    }
    if forall n: nat :: n <= |ops| ==> InSyncAt(ops, n) {
      forall i: nat | i < |ops| ensures HeardAt(ops, i) {
        assert InSyncAt(ops, i) && InSyncAt(ops, i + 1);
        OneMoreInSync(ops, i);
      }
    }
  }

  lemma RegistrationStaysInSync(ops: seq<Op>)
    requires forall i: nat :: i < |ops| ==> HeardAt(ops, i)
    ensures InSync(Run(ops))
  {
    InSyncIfHeard(ops, |ops|);
    assert ops[..|ops|] == ops;
  }

  lemma DroppedKeepsUnique(handlers: seq<Handler>, i: nat)
    requires NamesUnique(handlers) && i < |handlers|
    ensures NamesUnique(Dropped(handlers, i))
  {
    var rest := Dropped(handlers, i);
    forall j, k | 0 <= j < k < |rest| ensures rest[j].summary.name != rest[k].summary.name {
      assert rest[j] == handlers[if j < i then j else j + 1] && rest[k] == handlers[if k < i then k else k + 1];
    }
  }

  /** Names stay unique across both kinds of handler, whatever the answers. */
  lemma {:induction false} NamesStayUnique(ops: seq<Op>)
    ensures NamesUnique(Run(ops).handlers)
  {
    if ops != [] {
      var s, op := Run(ops[..|ops| - 1]), ops[|ops| - 1];
      NamesStayUnique(ops[..|ops| - 1]);
      if op.Remove? && Find(s.handlers, op.handlerType, op.name) < |s.handlers| {
        DroppedKeepsUnique(s.handlers, Find(s.handlers, op.handlerType, op.name));
      }
    }
  }

  // ----- Which handlers are listed -----

  /** Some listed handler of the kind has the event type or, with `tags`, the device tag. */
  ghost predicate KindHas(handlers: seq<Handler>, handlerType: HandlerType, flag: nat, tags: bool) {
    exists i :: 0 <= i < |handlers| && handlers[i].handlerType == handlerType
                && flag in if tags then handlers[i].summary.deviceTags else handlers[i].summary.eventType
  }

  /** The handler brings an event type or a tag that its kind did not have; any tag of a monitor counts as new. */
  ghost predicate News(handlers: seq<Handler>, handler: Handler) {
    || (exists flag :: flag in handler.summary.eventType && !KindHas(handlers, handler.handlerType, flag, false))
    || (exists flag :: flag in handler.summary.deviceTags
                       && (handler.handlerType == Monitor || !KindHas(handlers, Interceptor, flag, true)))
  }

  lemma KindHasSnoc(handlers: seq<Handler>, handler: Handler, handlerType: HandlerType, flag: nat, tags: bool)
    ensures KindHas(handlers + [handler], handlerType, flag, tags)
       <==> KindHas(handlers, handlerType, flag, tags)
            || (handler.handlerType == handlerType && flag in if tags then handler.summary.deviceTags else handler.summary.eventType)
  {
    var all := handlers + [handler];
    if KindHas(handlers, handlerType, flag, tags) {
      var i :| 0 <= i < |handlers| && handlers[i].handlerType == handlerType
               && flag in if tags then handlers[i].summary.deviceTags else handlers[i].summary.eventType;
      assert all[i] == handlers[i];
    }
    assert all[|handlers|] == handler;
  }

  lemma {:induction false} AggregateHas(handlers: seq<Handler>, handlerType: HandlerType, flag: nat)
    ensures flag in GetEventType(handlers, handlerType) <==> KindHas(handlers, handlerType, flag, false)
    ensures flag in AllTags(handlers, handlerType) <==> KindHas(handlers, handlerType, flag, true)
  {
    if handlers != [] {
      var init, last := handlers[..|handlers| - 1], handlers[|handlers| - 1];
      AggregateHas(init, handlerType, flag);
      KindHasSnoc(init, last, handlerType, flag, false);
      KindHasSnoc(init, last, handlerType, flag, true);
      assert handlers == init + [last];
    }
  }

  lemma ReportsAreNews(handlers: seq<Handler>, handler: Handler)
    ensures NeedsReport(handlers, handler) <==> News(handlers, handler)
  {
    var kind := handler.handlerType;
    SnocAggregates(handlers, handler, kind);
    forall flag: nat
      ensures flag in GetEventType(handlers, kind) <==> KindHas(handlers, kind, flag, false)
      ensures flag in AllTags(handlers, kind) <==> KindHas(handlers, kind, flag, true)
    {
      AggregateHas(handlers, kind, flag);
    }
    var all := GetEventType(handlers + [handler], kind);
    if all != GetEventType(handlers, kind) {
      EventTypesDiffer(handlers, handler);
    }
    if !(handler.summary.deviceTags <= GetDeviceTags(handlers, kind)) {
      var flag :| flag in handler.summary.deviceTags && flag !in GetDeviceTags(handlers, kind);
    }
  }

  lemma EventTypesDiffer(handlers: seq<Handler>, handler: Handler)
    requires GetEventType(handlers + [handler], handler.handlerType) != GetEventType(handlers, handler.handlerType)
    ensures exists flag :: flag in handler.summary.eventType && flag !in GetEventType(handlers, handler.handlerType)
  {
    SnocAggregates(handlers, handler, handler.handlerType);
    assert !(handler.summary.eventType <= GetEventType(handlers, handler.handlerType));
  }

  /** A removal of an interceptor is reported exactly if it takes away an event type no other has, or had any tag. */
  lemma RemovalsReported(handlers: seq<Handler>, i: nat)
    requires i < |handlers|
    ensures ReportsRemoval(handlers, i)
       <==> && handlers[i].handlerType == Interceptor
            && (|| handlers[i].summary.deviceTags != {}
                || exists flag :: flag in handlers[i].summary.eventType && !KindHas(Dropped(handlers, i), Interceptor, flag, false))
  {
    var rest := Dropped(handlers, i);
    forall flag: nat
      ensures flag in GetEventType(handlers, Interceptor)
         <==> flag in GetEventType(rest, Interceptor) || Holds(handlers[i], flag, false)
      ensures flag in GetEventType(rest, Interceptor) <==> KindHas(rest, Interceptor, flag, false)
      ensures Holds(handlers[i], flag, true) ==> flag in GetDeviceTags(handlers, Interceptor)
    {
      DroppedHeld(handlers, i, flag, false);
      DroppedHeld(handlers, i, flag, true);
      AggregateIsHeld(handlers, flag);
      AggregateIsHeld(rest, flag);
      AggregateHas(rest, Interceptor, flag);
    }
    if handlers[i].handlerType == Interceptor {
      assert handlers[i].summary.deviceTags <= GetDeviceTags(handlers, Interceptor) by {
        forall flag: nat | flag in handlers[i].summary.deviceTags ensures flag in GetDeviceTags(handlers, Interceptor) {
          assert Holds(handlers[i], flag, true);
        }
      }
      assert GetDeviceTags(handlers, Interceptor) * handlers[i].summary.deviceTags == handlers[i].summary.deviceTags;
    }
  }

  /** The add puts the handler on the list: its name is free, and no report is refused. */
  ghost predicate Takes(s: State, op: Op, handler: Handler) {
    && op.Add? && op.handler == handler
    && (forall other :: other in s.handlers ==> other.summary.name != handler.summary.name)
    && (op.reply != Rejected || !News(s.handlers, handler))
  }

  ghost predicate Removes(op: Op, handler: Handler) {
    op.Remove? && op.handlerType == handler.handlerType && op.name == handler.summary.name
  }

  lemma DroppedElements(handlers: seq<Handler>, i: nat)
    requires NamesUnique(handlers) && i < |handlers|
    ensures forall handler :: handler in Dropped(handlers, i) <==> handler in handlers && handler != handlers[i]
  {
    var rest := Dropped(handlers, i);
    forall handler ensures handler in rest <==> handler in handlers && handler != handlers[i] {
      if handler in rest {
        var j :| 0 <= j < |rest| && rest[j] == handler;
        assert handler == handlers[if j < i then j else j + 1];
      }
      if handler in handlers && handler != handlers[i] {
        var j :| 0 <= j < |handlers| && handlers[j] == handler;
        assert handler == rest[if j < i then j else j - 1];
      }
    }
  }

  lemma FindsTheOne(handlers: seq<Handler>, handler: Handler)
    requires NamesUnique(handlers) && handler in handlers
    ensures var i := Find(handlers, handler.handlerType, handler.summary.name);
            i < |handlers| && handlers[i] == handler
  {
    var j :| 0 <= j < |handlers| && handlers[j] == handler;
    var i := Find(handlers, handler.handlerType, handler.summary.name);
  }

  /** One op: a handler is listed after it exactly if the op takes it, or it was listed and the op does not remove it. */
  lemma ListedAfter(s: State, op: Op, handler: Handler)
    requires NamesUnique(s.handlers)
    ensures handler in After(s, op).handlers <==> Takes(s, op, handler) || (handler in s.handlers && !Removes(op, handler))
  {
    match op
    case Add(added, reply) =>
      ReportsAreNews(s.handlers, added);
      assert HasHandler(s.handlers, added.summary.name) <==> exists other :: other in s.handlers && other.summary.name == added.summary.name;
    case Remove(handlerType, name, reply) =>
      var i := Find(s.handlers, handlerType, name);
      if i < |s.handlers| {
        DroppedElements(s.handlers, i);
      }
      if handler in s.handlers && Removes(op, handler) {
        FindsTheOne(s.handlers, handler);
      }
  }

  ghost predicate TakesAt(ops: seq<Op>, i: nat, handler: Handler)
    requires i < |ops|
  {
    Takes(Run(ops[..i]), ops[i], handler)
  }

  /** Some add took the handler, and no op since has removed its type and name. */
  ghost predicate Registered(ops: seq<Op>, n: nat, handler: Handler)
    requires n <= |ops|
  {
    On(seq(|ops|, i requires 0 <= i < |ops| => TakesAt(ops, i, handler)),
       seq(|ops|, i requires 0 <= i < |ops| => Removes(ops[i], handler)), n)
  }

  lemma RegisteredOneMore(ops: seq<Op>, n: nat, handler: Handler)
    requires n < |ops|
    ensures Registered(ops, n + 1, handler)
       <==> TakesAt(ops, n, handler) || (Registered(ops, n, handler) && !Removes(ops[n], handler))
  {
    OnOneMore(seq(|ops|, i requires 0 <= i < |ops| => TakesAt(ops, i, handler)),
              seq(|ops|, i requires 0 <= i < |ops| => Removes(ops[i], handler)), n);
  }

  /**
   At every point of every run, for both kinds and any answers, the handlers listed are
   exactly those an add took and no remove has taken off since.
   */
  lemma {:induction false} ListHoldsTheRegistered(ops: seq<Op>, n: nat, handler: Handler)
    requires n <= |ops|
    ensures handler in Run(ops[..n]).handlers <==> Registered(ops, n, handler)
  {
    if n == 0 {
      assert ops[..0] == [];
    } else {
      ListHoldsTheRegistered(ops, n - 1, handler);
      RegisteredOneMore(ops, n - 1, handler);
      NamesStayUnique(ops[..n - 1]);
      ListedAfter(Run(ops[..n - 1]), ops[n - 1], handler);
      assert ops[..n][..n - 1] == ops[..n - 1];
      assert Run(ops[..n]) == After(Run(ops[..n - 1]), ops[n - 1]);
    }
  }

  /** What the interceptor handler knows changes only with an accepted report about an interceptor, and then to just what is listed. */
  lemma RegistrationAfter(s: State, op: Op)
    ensures var after := After(s, op);
            || (after.eventType == s.eventType && after.deviceTags == s.deviceTags)
            || (IsInterceptorOp(op) && op.reply == Accepted && InSync(after))
  {
    MatchIsSync(After(s, op));
  }

  /** The op is about an interceptor. */
  predicate IsInterceptorOp(op: Op) {
    match op
    case Add(handler, _) => handler.handlerType == Interceptor
    case Remove(handlerType, _, _) => handlerType == Interceptor
  }

  /**
   Where every report about an interceptor is refused, as one without a session is, no
   interceptor with a flag ever stays listed, and the empty registration stays right.
   */
  lemma {:induction false} AllRefused(ops: seq<Op>)
    requires forall i :: 0 <= i < |ops| && IsInterceptorOp(ops[i]) ==> ops[i].reply == Rejected
    ensures InSync(Run(ops)) && Run(ops).eventType == {} && Run(ops).deviceTags == {}
  {
    if ops != [] {
      var s, op := Run(ops[..|ops| - 1]), ops[|ops| - 1];
      AllRefused(ops[..|ops| - 1]);
      StepKeepsSyncIff(s, op);
      if op.Remove? {
        var i := Find(s.handlers, op.handlerType, op.name);
        if i < |s.handlers| {
          NothingHeld(s, i);
        }
      }
    }
  }

  lemma NothingHeld(s: State, i: nat)
    requires InSync(s) && s.eventType == {} && s.deviceTags == {} && i < |s.handlers|
    ensures Redundant(s.handlers, i)
  {
    forall flag: nat, tags: bool ensures !Holds(s.handlers[i], flag, tags) {
      assert Holds(s.handlers[i], flag, tags) ==> HeldFlag(s.handlers, flag, tags);
      assert HeldFlag(s.handlers, flag, true) <==> flag in s.deviceTags;
      assert HeldFlag(s.handlers, flag, false) <==> flag in s.eventType;
    }
  }

  class DelegateInterface {
    var handlers: seq<Handler>
    /** What the interceptor handler last accepted. */
    var eventType: set<nat>
    var deviceTags: set<nat>

    ghost function Shown(): State
      reads this
    {
      State(handlers, eventType, deviceTags)
    }

    constructor ()
      ensures Shown() == INITIAL
    {
      handlers, eventType, deviceTags := [], {}, {};
    }

    /** Registers an aggregate; the interceptor handler remembers it if it takes it. */
    method AddInputHandler(handlerType: HandlerType, newType: set<nat>, tags: set<nat>, reply: Reply) returns (ok: bool)
      modifies this`eventType, this`deviceTags
      ensures ok == (reply == Accepted)
      ensures ok && handlerType == Interceptor ==> eventType == newType && deviceTags == tags
      ensures !ok || handlerType == Monitor ==> eventType == old(eventType) && deviceTags == old(deviceTags)
    {
      ok := reply == Accepted;
      if ok && handlerType == Interceptor {
        eventType, deviceTags := newType, tags;
      }
    }

    /** Registers the smaller aggregate; the interceptor handler says nothing of whether it took it. */
    method RemoveInputHandler(handlerType: HandlerType, newType: set<nat>, tags: set<nat>, reply: Reply)
      modifies this`eventType, this`deviceTags
      ensures if reply == Accepted && handlerType == Interceptor then eventType == newType && deviceTags == tags
              else eventType == old(eventType) && deviceTags == old(deviceTags)
    {
      if reply == Accepted && handlerType == Interceptor {
        eventType, deviceTags := newType, tags;
      }
    }

    method AddHandler(handler: Handler, reply: Reply) returns (ok: bool)
      modifies this
      ensures Shown() == Added(old(Shown()), handler, reply)
      ensures ok <==> || HasHandler(old(handlers), handler.summary.name)
                      || !NeedsReport(old(handlers), handler) || reply == Accepted
    {
      var handlerType := handler.handlerType;
      if HasHandler(handlers, handler.summary.name) {
        return true;
      }
      ghost var before := handlers;
      var currentType, currentTags := GetEventType(handlers, handlerType), GetDeviceTags(handlers, handlerType);
      handlers := handlers + [handler];
      var newType := GetEventType(handlers, handlerType);
      ok := true;
      if currentType != newType || !(handler.summary.deviceTags <= currentTags) {
        if reply == NoHandler {
          return false;
        }
        ok := AddInputHandler(handlerType, newType, GetDeviceTags(handlers, handlerType), reply);
      }
      if !ok {
        var removed := RemoveLocal(handlerType, handler.summary.name);
        assert handlers == before;
      }
    }

    method RemoveLocal(handlerType: HandlerType, name: string) returns (removed: Option<Summary>)
      modifies this`handlers
      ensures var i := Find(old(handlers), handlerType, name);
              if i == |old(handlers)| then removed == None && handlers == old(handlers)
              else removed == Some(old(handlers)[i].summary) && handlers == Dropped(old(handlers), i)
    {
      var i := 0;
      while i < |handlers|
        invariant 0 <= i <= |handlers|
        invariant forall j :: 0 <= j < i ==> !(handlers[j].handlerType == handlerType && handlers[j].summary.name == name)
      {
        if handlers[i].handlerType == handlerType && handlers[i].summary.name == name {
          removed := Some(handlers[i].summary);
          handlers := handlers[..i] + handlers[i + 1..];
          return;
        }
        i := i + 1;
      }
      removed := None;
    }

    method RemoveHandler(handlerType: HandlerType, name: string, reply: Reply)
      modifies this
      ensures Shown() == Removed(old(Shown()), handlerType, name, reply)
    {
      var currentType, currentTags := GetEventType(handlers, handlerType), GetDeviceTags(handlers, handlerType);
      var removed := RemoveLocal(handlerType, name);
      if removed.None? {
        return;
      }
      var tags := if handlerType == Interceptor then removed.value.deviceTags else {};
      var newType, newTags := GetEventType(handlers, handlerType), GetDeviceTags(handlers, handlerType);
      if currentType != newType || currentTags * tags != {} {
        if reply == NoHandler {
          return;
        }
        RemoveInputHandler(handlerType, newType, newTags, reply);
      }
    }
  }
}
