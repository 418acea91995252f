/**
 The rotary crown: wheel events become a gesture that opens with the first, updates with
 the ones after it, and ends when a timer runs out. Degrees and velocities are reals.
 */
module CrownRotation {
  import opened Basics

  const MICROSECONDS_PER_SECOND: real := 1000000.0

  datatype Input =
    | Rotate(knownDevice: bool, wheel: bool, time: nat, degree: real)
    | TimerExpired

  /** A pointer event sent on; `time` is the time of the wheel event it came from. */
  datatype Output =
    | AxisBegin(time: nat, degree: real)
    | AxisUpdate(time: nat, velocity: real, degree: real)
    | AxisEnd

  datatype State = State(timerRunning: bool, lastTime: nat)

  const INITIAL := State(false, 0)

  function Update(lastTime: nat, time: nat, degree: real): Output {
    if time > lastTime then
      AxisUpdate(time, degree * MICROSECONDS_PER_SECOND / (time - lastTime) as real, degree)
    else
      AxisUpdate(time, 0.0, 0.0)
  }

  function Stepped(s: State, input: Input): (State, Option<Output>) {
    match input
    case Rotate(known, wheel, time, degree) =>
      if !known || !wheel then (s, None)
      else if s.timerRunning then (State(true, time), Some(Update(s.lastTime, time, degree)))
      else (State(true, time), Some(AxisBegin(time, degree)))
    case TimerExpired =>
      if s.timerRunning then (State(false, 0), Some(AxisEnd)) else (s, None)
  }

  function Run(inputs: seq<Input>): State {
    if inputs == [] then INITIAL else Stepped(Run(inputs[..|inputs| - 1]), inputs[|inputs| - 1]).0
  }

  function Emitted(inputs: seq<Input>): seq<Output> {
    if inputs == [] then []
    else
      var before := inputs[..|inputs| - 1];
      match Stepped(Run(before), inputs[|inputs| - 1]).1
      case None => Emitted(before)
      case Some(output) => Emitted(before) + [output]
  }

  /** Reading (Begin Update* End)*, the last gesture possibly still open. */
  ghost predicate Gestures(outputs: seq<Output>) {
    forall i :: 0 <= i < |outputs| ==> (outputs[i].AxisBegin? <==> i == 0 || outputs[i - 1].AxisEnd?)
  }

  ghost predicate Open(outputs: seq<Output>) {
    outputs != [] && !outputs[|outputs| - 1].AxisEnd?
  }

  /** Velocity times the time since the event before, summed over the updates. */
  function Travelled(outputs: seq<Output>): real {
    if |outputs| < 2 then 0.0
    else
      var last, prior := outputs[|outputs| - 1], outputs[|outputs| - 2];
      Travelled(outputs[..|outputs| - 1])
      + if last.AxisUpdate? && !prior.AxisEnd? && last.time > prior.time
        then last.velocity * (last.time - prior.time) as real
        else 0.0
  }

  /** The degrees reported by the updates. */
  function Turned(outputs: seq<Output>): real {
    if outputs == [] then 0.0
    else Turned(outputs[..|outputs| - 1])
         + if outputs[|outputs| - 1].AxisUpdate? then outputs[|outputs| - 1].degree else 0.0
  }

  ghost predicate InStep(s: State, outputs: seq<Output>) {
    && Gestures(outputs)
    && (s.timerRunning <==> Open(outputs))
    && s.lastTime == if Open(outputs) then outputs[|outputs| - 1].time else 0
  }

  /** The velocities over the times they stand for amount to a million times the degrees. */
  ghost predicate VelocityLaw(outputs: seq<Output>) {
    Travelled(outputs) == 1000000.0 * Turned(outputs)
  }

  lemma EmittedSnoc(inputs: seq<Input>, input: Input)
    ensures Run(inputs + [input]) == Stepped(Run(inputs), input).0
    ensures Emitted(inputs + [input])
         == match Stepped(Run(inputs), input).1
            case None => Emitted(inputs)
            case Some(output) => Emitted(inputs) + [output]
  {
    assert (inputs + [input])[..|inputs|] == inputs;
  }

  /**
   Whole gestures come out, one open exactly while the timer runs, and the last time is zero
   when none is. What the velocities amount to over time is a million times the degrees.
   */
  lemma {:induction false} GesturesAreWhole(inputs: seq<Input>)
    ensures InStep(Run(inputs), Emitted(inputs))
    ensures VelocityLaw(Emitted(inputs))
  {
    if inputs == [] {
    } else {
      var before, input := inputs[..|inputs| - 1], inputs[|inputs| - 1];
      assert inputs == before + [input];
      GesturesAreWhole(before);
      RunsInStep(inputs);
      EmittedSnoc(before, input);
      match Stepped(Run(before), input).1
      case None =>
      case Some(output) =>
        AppendKeepsLaw(Emitted(before), Run(before), output);
    }
  }

  lemma {:induction false} RunsInStep(inputs: seq<Input>)
    ensures InStep(Run(inputs), Emitted(inputs))
  {
    if inputs == [] {
    } else {
      var before, input := inputs[..|inputs| - 1], inputs[|inputs| - 1];
      assert inputs == before + [input];
      RunsInStep(before);
      EmittedSnoc(before, input);
      StepKeepsInStep(Run(before), Emitted(before), input);
    }
  }

  lemma StepKeepsInStep(s: State, outputs: seq<Output>, input: Input)
    requires InStep(s, outputs)
    ensures match Stepped(s, input)
            case (after, None) => InStep(after, outputs)
            case (after, Some(output)) => InStep(after, outputs + [output])
  {
    var step := Stepped(s, input);
    if step.1.Some? {
      var output := step.1.value;
      assert output.AxisBegin? <==> !s.timerRunning;
      var all := outputs + [output];
      assert Gestures(all) by {
        forall i | 0 <= i < |all| ensures all[i].AxisBegin? <==> i == 0 || all[i - 1].AxisEnd? {
          if i < |outputs| {
            assert outputs[i].AxisBegin? <==> i == 0 || outputs[i - 1].AxisEnd?;
          } else {
            assert i == |outputs| && (output.AxisBegin? <==> !Open(outputs));
            assert Open(outputs) <==> i > 0 && !outputs[i - 1].AxisEnd?;
          }
        }
      }
    }
  }

  lemma AppendKeepsLaw(outputs: seq<Output>, s: State, output: Output)
    requires InStep(s, outputs) && VelocityLaw(outputs)
    requires output.AxisUpdate? ==> s.timerRunning && exists degree :: output == Update(s.lastTime, output.time, degree)
    ensures VelocityLaw(outputs + [output])
  {
    var all := outputs + [output];
    assert all[..|outputs|] == outputs;
    if output.AxisUpdate? {
      var degree :| output == Update(s.lastTime, output.time, degree);
      if output.time > s.lastTime {
        var elapsed := (output.time - s.lastTime) as real;
        assert output.velocity * elapsed == degree * MICROSECONDS_PER_SECOND;
      }
    }
  }

  /** The time of the last event sent. */
  function LastTime(outputs: seq<Output>): nat
    requires outputs != [] && !outputs[|outputs| - 1].AxisEnd?
  {
    outputs[|outputs| - 1].time
  }

  /** An update with the degree if time has passed, whose velocity makes up the degree over that time; without time, no degree and no velocity. */
  ghost predicate Updates(sent: Output, last: nat, time: nat, degree: real) {
    && sent.AxisUpdate? && sent.time == time
    && (time > last ==> sent.degree == degree && sent.velocity * (time - last) as real == 1000000.0 * degree)
    && (time <= last ==> sent.degree == 0.0 && sent.velocity == 0.0)
  }

  lemma UpdateUpdates(last: nat, time: nat, degree: real)
    ensures Updates(Update(last, time, degree), last, time, degree)
  {
    if time > last {
      var elapsed := (time - last) as real;
      assert degree * MICROSECONDS_PER_SECOND / elapsed * elapsed == degree * MICROSECONDS_PER_SECOND;
    }
  }

  /**
   What a wheel event of a known device sends, by what was sent before: its degree as a
   begin if no gesture is open, and as an update otherwise. Nothing else sends anything.
   */
  lemma RotationsAreReported(inputs: seq<Input>, known: bool, wheel: bool, time: nat, degree: real)
    ensures var before, after := Emitted(inputs), Emitted(inputs + [Rotate(known, wheel, time, degree)]);
            if !known || !wheel then after == before
            else
              && |after| == |before| + 1 && after[..|before|] == before
              && (!Open(before) ==> after[|before|] == AxisBegin(time, degree))
              && (Open(before) ==> Updates(after[|before|], LastTime(before), time, degree))
  {
    var input := Rotate(known, wheel, time, degree);
    RunsInStep(inputs);
    EmittedSnoc(inputs, input);
    UpdateUpdates(Run(inputs).lastTime, time, degree);
  }

  /** The timer sends an end if a gesture is open, and nothing otherwise. */
  lemma TimeoutsEnd(inputs: seq<Input>)
    ensures Emitted(inputs + [TimerExpired])
         == if Open(Emitted(inputs)) then Emitted(inputs) + [AxisEnd] else Emitted(inputs)
  {
    RunsInStep(inputs);
    EmittedSnoc(inputs, TimerExpired);
  }

  class CrownTransformProcessor {
    var timerRunning: bool
    var lastTime: nat
    /** What has happened so far. */
    ghost var inputs: seq<Input>

    ghost predicate Valid()
      reads this
    {
      State(timerRunning, lastTime) == Run(inputs)
    }

    /** What has been sent so far. */
    ghost function Sent(): seq<Output>
      reads this
    {
      Emitted(inputs)
    }

    constructor ()
      ensures Valid() && inputs == []
    {
      timerRunning, lastTime, inputs := false, 0, [];
    }

    method NormalizeRotateEvent(knownDevice: bool, wheel: bool, time: nat, degree: real) returns (output: Option<Output>)
      requires Valid()
      modifies this
      ensures Valid() && inputs == old(inputs) + [Rotate(knownDevice, wheel, time, degree)]
      ensures Sent() == if output.Some? then old(Sent()) + [output.value] else old(Sent())
      ensures output.Some? <==> knownDevice && wheel
      ensures output.Some? ==> !output.value.AxisEnd? && output.value.time == time && (output.value.AxisBegin? <==> !Open(old(Sent())))
      ensures Gestures(Sent()) && VelocityLaw(Sent())
    {
      RunsInStep(inputs);
      EmittedSnoc(inputs, Rotate(knownDevice, wheel, time, degree));
      inputs := inputs + [Rotate(knownDevice, wheel, time, degree)];
      GesturesAreWhole(inputs);
      if !knownDevice || !wheel {
        return None;
      }
      var begins := !timerRunning;
      timerRunning := true;
      var made := HandleCrownRotateBeginAndUpdate(time, degree, begins);
      return Some(made);
    }

    method HandleCrownRotateBeginAndUpdate(time: nat, degree: real, begins: bool) returns (output: Output)
      modifies this`lastTime
      ensures lastTime == time
      ensures output == if begins then AxisBegin(time, degree) else Update(old(lastTime), time, degree)
    {
      var velocity, reported := 0.0, degree;
      if begins {
        output := AxisBegin(time, degree);
      } else {
        if time > lastTime {
          velocity := degree * MICROSECONDS_PER_SECOND / (time - lastTime) as real;
        } else {
          reported := 0.0;
        }
        output := AxisUpdate(time, velocity, reported);
      }
      lastTime := time;
    }

    method OnTimer() returns (output: Option<Output>)
      requires Valid()
      modifies this
      ensures Valid() && inputs == old(inputs) + [TimerExpired]
      ensures Sent() == if output.Some? then old(Sent()) + [output.value] else old(Sent())
      ensures output == if Open(old(Sent())) then Some(AxisEnd) else None
      ensures Gestures(Sent()) && !Open(Sent())
    {
      RunsInStep(inputs);
      EmittedSnoc(inputs, TimerExpired);
      inputs := inputs + [TimerExpired];
      RunsInStep(inputs);
      if !timerRunning {
        return None;
      }
      timerRunning, lastTime := false, 0;
      return Some(AxisEnd);
    }
  }
}
