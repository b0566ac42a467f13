/** The rotary encoder's event logic: rotations are reported as the step difference since
    the last report, a held button reports a long press and resets the step counters, and the
    release that ends a held press is swallowed. The GPIO wiring is left out: the encoder's
    current step counter arrives as a parameter. */
module Rotary {
  import opened Wrappers
  import opened Items
  import Seqs
  import Ui

  /** `steps` is the encoder's counter, `lastSteps` the counter at the last report, `held`
      whether the press in progress was reported as a long press. `subscribers` are the
      event handlers in subscription order. */
  datatype Encoder = Encoder(steps: int, lastSteps: int, held: bool, subscribers: seq<CallbackId>)

  /** What an encoder callback did: the new encoder, and the event delivered to every
      subscriber in order, if any. */
  datatype Report = Report(enc: Encoder, event: Option<Ui.Event>, calls: seq<CallbackId>)

  function Initial(): (e: Encoder)
    ensures e.steps == 0 && e.lastSteps == 0 && !e.held && e.subscribers == []
  {
    Encoder(0, 0, false, [])
  }

  function Subscribe(e: Encoder, cb: CallbackId): (r: Encoder)
    ensures r.subscribers == e.subscribers + [cb]
    ensures r == e.(subscribers := r.subscribers)
  {
    e.(subscribers := e.subscribers + [cb])
  }

  /** `list.remove`: the first occurrence goes; an absent handler is an error. */
  function Unsubscribe(e: Encoder, cb: CallbackId): (r: Result<Encoder, Error>)
    ensures cb !in e.subscribers <==> r == Err(ValueError)
    ensures r.Ok? ==> multiset(r.value.subscribers) == multiset(e.subscribers) - multiset{cb}
    ensures r.Ok? ==> r.value == e.(subscribers := r.value.subscribers)
  {
    if cb in e.subscribers then Ok(e.(subscribers := Seqs.RemoveFirst(e.subscribers, cb)))
    else Err(ValueError)
  }

  /** The encoder turned, so that its counter now reads `steps`: the difference since the
      last report is broadcast, then remembered. */
  function Rotated(e: Encoder, steps: int): (r: Report)
    ensures r.event == Some(Ui.Rotate(steps - e.lastSteps))
    ensures r.enc.steps == steps && r.enc.lastSteps == steps
    ensures r.enc.held == e.held && r.calls == e.subscribers
  {
    Report(e.(steps := steps, lastSteps := steps), Some(Ui.Rotate(steps - e.lastSteps)), e.subscribers)
  }

  /** The button was held: remember it, reset both counters, broadcast a long press. */
  function Held(e: Encoder): (r: Report)
    ensures r.enc.held && r.enc.steps == 0 && r.enc.lastSteps == 0
    ensures r.event == Some(Ui.LongPress) && r.calls == e.subscribers
  {
    Report(e.(held := true, steps := 0, lastSteps := 0), Some(Ui.LongPress), e.subscribers)
  }

  /** The button was released: the release ending a held press is swallowed and clears the
      flag; any other release broadcasts a press. */
  function Released(e: Encoder): (r: Report)
    ensures e.held ==> r == Report(e.(held := false), None, [])
    ensures !e.held ==> r == Report(e, Some(Ui.Press), e.subscribers)
  {
    if e.held then Report(e.(held := false), None, [])
    else Report(e, Some(Ui.Press), e.subscribers)
  }

  // ---------------------------------------------------------------------------------------
  // Properties

  /** The rotation deltas reported over a run of counter readings. */
  function Deltas(e: Encoder, readings: seq<int>): (ds: seq<int>)
    ensures |ds| == |readings|
    decreases |readings|
  {
    if |readings| == 0 then []
    else
      var r := Rotated(e, readings[0]);
      [r.event.value.value] + Deltas(r.enc, readings[1..])
  }

  function Sum(s: seq<int>): int {
    if |s| == 0 then 0 else s[0] + Sum(s[1..])
  }

  /** No step is lost or counted twice: the reported deltas of any run of rotations add up
      to the distance from the last reported counter to the final reading. */
  lemma {:induction false} DeltasTelescope(e: Encoder, readings: seq<int>)
    requires |readings| > 0
    ensures Sum(Deltas(e, readings)) == readings[|readings| - 1] - e.lastSteps
    decreases |readings|
  {
    var r := Rotated(e, readings[0]);
    if |readings| > 1 {
      DeltasTelescope(r.enc, readings[1..]);
      assert readings[1..][|readings[1..]| - 1] == readings[|readings| - 1];
    }
  }

  /** A hold followed by its release yields exactly one long press and no press, and leaves
      the encoder ready for the next press. */
  lemma HoldThenReleaseIsOneLongPress(e: Encoder)
    ensures Held(e).event == Some(Ui.LongPress)
    ensures Released(Held(e).enc).event.None?
    ensures !Released(Held(e).enc).enc.held
    ensures Released(Released(Held(e).enc).enc).event == Some(Ui.Press)
  {
  }

  /** After a long press, rotations are measured from zero again. */
  lemma RotationAfterHoldCountsFromZero(e: Encoder, steps: int)
    ensures Rotated(Held(e).enc, steps).event == Some(Ui.Rotate(steps))
  {
  }
}
