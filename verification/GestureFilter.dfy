/** The filter that lets only complete swipe and axis gestures through. */
module GestureFilter {
  import opened Basics

  datatype Kind = Swipe | Axis

  /** A pointer action: a gesture's begin, update or end, or anything else. */
  datatype Action = Begin(kind: Kind) | Update(kind: Kind) | End(kind: Kind) | Unknown | Other(code: int32)

  /** One event: whether it is let through, and the remembered action afterwards. */
  function Filtered(last: Action, action: Action): (Action, bool) {
    match action
    case Begin(_) => (action, true)
    case Update(k) => if last == Begin(k) || last == Update(k) then (action, true) else (last, false)
    case End(k) => if last == Begin(k) || last == Update(k) then (Unknown, true) else (last, false)
    case _ => (last, true)
  }

  function Remembered(actions: seq<Action>): Action {
    if actions == [] then Unknown else Filtered(Remembered(actions[..|actions| - 1]), actions[|actions| - 1]).0
  }

  /** The events let through, in order. */
  function Accepted(actions: seq<Action>): seq<Action> {
    if actions == [] then []
    else
      var before, action := actions[..|actions| - 1], actions[|actions| - 1];
      Accepted(before) + if Filtered(Remembered(before), action).1 then [action] else []
  }

  // ----- Complete streams -----

  predicate IsGesture(action: Action) {
    action.Begin? || action.Update? || action.End?
  }

  ghost predicate PreviousGesture(stream: seq<Action>, i: int, j: int) {
    && 0 <= j < i <= |stream| && IsGesture(stream[j])
    && forall k :: j < k < i ==> !IsGesture(stream[k])
  }

  /** The last gesture event before position `i` begins or updates a gesture of this kind. */
  ghost predicate Underway(stream: seq<Action>, i: int, kind: Kind) {
    exists j :: PreviousGesture(stream, i, j) && (stream[j] == Begin(kind) || stream[j] == Update(kind))
  }

  ghost predicate FitsAt(stream: seq<Action>, i: int)
    requires 0 <= i < |stream|
  {
    stream[i].Update? || stream[i].End? ==> Underway(stream, i, stream[i].kind)
  }

  /** Every update and end continues a gesture of its kind: the gesture events read (Begin Update* End?)*, kind by kind. */
  ghost predicate WellFormed(stream: seq<Action>) {
    forall i :: 0 <= i < |stream| ==> FitsAt(stream, i)
  }

  lemma UnderwayPrefix(stream: seq<Action>, action: Action, i: int, kind: Kind)
    requires 0 <= i <= |stream|
    ensures Underway(stream + [action], i, kind) <==> Underway(stream, i, kind)
  {
    var all := stream + [action];
    forall j ensures PreviousGesture(all, i, j) <==> PreviousGesture(stream, i, j) {
      if 0 <= j < i {
        assert all[j] == stream[j];
        assert forall k :: j < k < i ==> all[k] == stream[k];
      }
    }
    if j :| PreviousGesture(stream, i, j) && (stream[j] == Begin(kind) || stream[j] == Update(kind)) {
      assert PreviousGesture(all, i, j) && all[j] == stream[j];
    }
    if j :| PreviousGesture(all, i, j) && (all[j] == Begin(kind) || all[j] == Update(kind)) {
      assert PreviousGesture(stream, i, j) && all[j] == stream[j];
    }
  }

  lemma WellFormedSnoc(stream: seq<Action>, action: Action)
    ensures WellFormed(stream + [action])
       <==> WellFormed(stream) && (action.Update? || action.End? ==> Underway(stream, |stream|, action.kind))
  {
    var all := stream + [action];
    assert all[|stream|] == action;
    forall i | 0 <= i < |stream| ensures FitsAt(all, i) <==> FitsAt(stream, i) {
      assert all[i] == stream[i];
      if stream[i].Update? || stream[i].End? {
        UnderwayPrefix(stream, action, i, stream[i].kind);
      }
    }
    if action.Update? || action.End? {
      UnderwayPrefix(stream, action, |stream|, action.kind);
    }
    if WellFormed(all) {
      forall i | 0 <= i < |stream| ensures FitsAt(stream, i) {
        assert FitsAt(all, i);
      }
      assert FitsAt(all, |stream|);
    }
  }

  lemma UnderwaySnoc(stream: seq<Action>, action: Action, kind: Kind)
    ensures Underway(stream + [action], |stream| + 1, kind)
       <==> if IsGesture(action) then action == Begin(kind) || action == Update(kind) else Underway(stream, |stream|, kind)
  {
    var all, n := stream + [action], |stream|;
    assert all[n] == action;
    if IsGesture(action) {
      assert PreviousGesture(all, n + 1, n);
    } else {
      UnderwayPrefix(stream, action, n, kind);
      forall j ensures PreviousGesture(all, n + 1, j) <==> PreviousGesture(all, n, j) {
      }
      if j :| PreviousGesture(all, n, j) && (all[j] == Begin(kind) || all[j] == Update(kind)) {
        assert PreviousGesture(all, n + 1, j);
      }
    }
  }

  /** What is remembered says which gesture the accepted stream leaves under way. */
  lemma {:induction false} RememberedIsUnderway(actions: seq<Action>, kind: Kind)
    ensures Remembered(actions) == Begin(kind) || Remembered(actions) == Update(kind)
       <==> Underway(Accepted(actions), |Accepted(actions)|, kind)
  {
    if actions != [] {
      var before, action := actions[..|actions| - 1], actions[|actions| - 1];
      RememberedIsUnderway(before, kind);
      if Filtered(Remembered(before), action).1 {
        assert Accepted(actions) == Accepted(before) + [action];
        UnderwaySnoc(Accepted(before), action, kind);
        if action.Update? || action.End? {
          RememberedIsUnderway(before, action.kind);
        }
      } else {
        assert Accepted(actions) == Accepted(before);
      }
    }
  }

  /** The accepted stream is well formed; and an event is let through exactly when it keeps it so. */
  lemma {:induction false} AcceptsWhatFits(actions: seq<Action>, action: Action)
    ensures WellFormed(Accepted(actions))
    ensures Filtered(Remembered(actions), action).1 <==> WellFormed(Accepted(actions) + [action])
  {
    if actions != [] {
      var before, last := actions[..|actions| - 1], actions[|actions| - 1];
      AcceptsWhatFits(before, last);
      assert Accepted(actions) == Accepted(before) || Accepted(actions) == Accepted(before) + [last];
    }
    WellFormedSnoc(Accepted(actions), action);
    if action.Update? || action.End? {
      RememberedIsUnderway(actions, action.kind);
    }
  }

  lemma {:induction false} WellFormedPassesWhole(stream: seq<Action>)
    requires WellFormed(stream)
    ensures Accepted(stream) == stream
  {
    if stream != [] {
      var before, last := stream[..|stream| - 1], stream[|stream| - 1];
      assert stream == before + [last];
      WellFormedSnoc(before, last);
      WellFormedPassesWhole(before);
      AcceptsWhatFits(before, last);
    }
  }

  /** A fresh filter lets all of an accepted stream through, and exactly the well-formed streams pass whole. */
  lemma FilterIsIdempotent(actions: seq<Action>)
    ensures Accepted(Accepted(actions)) == Accepted(actions)
    ensures Accepted(actions) == actions <==> WellFormed(actions)
  {
    AcceptsWhatFits(actions, Unknown);
    WellFormedPassesWhole(Accepted(actions));
    if WellFormed(actions) {
      WellFormedPassesWhole(actions);
    }
  }

  // ----- The filter itself -----

  class EventIntegrity {
    var eventAction: Action
    /** The events seen so far. */
    ghost var seen: seq<Action>

    ghost predicate Valid()
      reads this
    {
      eventAction == Remembered(seen)
    }

    constructor ()
      ensures Valid() && seen == []
    {
      eventAction, seen := Unknown, [];
    }

    /** Lets an event through exactly if the stream let through stays one of complete gestures. */
    method IsCompleteEvent(action: Action) returns (complete: bool)
      requires Valid()
      modifies this
      ensures Valid() && seen == old(seen) + [action]
      ensures complete <==> WellFormed(Accepted(old(seen)) + [action])
      ensures Accepted(seen) == if complete then Accepted(old(seen)) + [action] else Accepted(old(seen))
    {
      AcceptsWhatFits(seen, action);
      seen := seen + [action];
      assert seen[..|seen| - 1] == old(seen);
      match action {
      case Begin(_) =>
        eventAction := action;
        complete := true;
      case Update(kind) =>
        complete := eventAction == Begin(kind) || eventAction == Update(kind);
        if complete {
          eventAction := action;
        }
      case End(kind) =>
        complete := eventAction == Begin(kind) || eventAction == Update(kind);
        if complete {
          eventAction := Unknown;
        }
      case _ =>
        complete := true;
      }
    }
  }
}
