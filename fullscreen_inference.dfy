/**
 * Inference of the browser's own F11 full-screen mode from window geometry,
 * as `checkF11` and `handleKeydown` do it.  No event tells page script that
 * F11 was pressed, so every animation frame compares the viewport with the
 * screen; the Escape key forces the synthetic overlay down on its own.
 *
 * The state is the triple `isF11Active`, `waitingForF11Toggle`,
 * `lastF11Check`; a transition yields the new triple and the one call it
 * makes on the relocation engine, if any.
 */
module FullscreenInference {
  import opened Wrappers

  /** `CONFIG.F11_TOLERANCE`: device pixels of slack for scroll bars and rounding. */
  const Tolerance: int := 2

  /** One reading of `window.innerWidth/innerHeight` and `screen.width/height`. */
  datatype Sample = Sample(innerWidth: int, innerHeight: int, screenWidth: int, screenHeight: int)

  function Abs(x: int): (r: nat)
    ensures r == x || r == -x
  {
    if x < 0 then -x else x
  }

  /** `nowF11`: the viewport covers the screen up to the tolerance in both directions. */
  predicate Matches(g: Sample): (b: bool)
    ensures b <==>
      g.screenWidth - Tolerance <= g.innerWidth <= g.screenWidth + Tolerance &&
      g.screenHeight - Tolerance <= g.innerHeight <= g.screenHeight + Tolerance
  {
    Abs(g.innerWidth - g.screenWidth) <= Tolerance && Abs(g.innerHeight - g.screenHeight) <= Tolerance
  }

  /** `isF11Active`, `waitingForF11Toggle` and `lastF11Check` (`None` is the initial `null`). */
  datatype Inference = Inference(active: bool, waiting: bool, last: Option<bool>)

  const Initial: Inference := Inference(false, false, None)

  /** What a transition asks of the relocation engine. */
  datatype Effect = Stay | Activate | Deactivate

  /** A sample is ignored when it repeats the last one and no Escape is pending. */
  predicate Skipped(s: Inference, g: Sample): (b: bool)
    ensures b ==> s.last.Some? && !s.waiting
    ensures s.last.Some? && !s.waiting ==> (b <==> s.last.value == Matches(g))
  {
    s.last == Some(Matches(g)) && !s.waiting
  }

  /** `checkF11` on sample `g`. */
  function Step(s: Inference, g: Sample): (r: (Inference, Effect))
    ensures Skipped(s, g) ==> r == (s, Stay)
    ensures !Skipped(s, g) ==> r.0.last == Some(Matches(g)) && !r.0.waiting
    ensures !Skipped(s, g) ==> (r.1 != Stay <==> Matches(g) != s.active || s.waiting)
    ensures r.1 != Stay ==> r.0.active == Matches(g) && r.1 == (if Matches(g) then Activate else Deactivate)
    ensures r.1 == Stay ==> r.0.active == s.active
  {
    var now := Matches(g);
    if s.last == Some(now) && !s.waiting then (s, Stay)
    else if now != s.active || s.waiting then
      (Inference(now, false, Some(now)), if now then Activate else Deactivate)
    else (s.(last := Some(now)), Stay)
  }

  /** `handleKeydown` for a key named `key`. */
  function KeyStep(s: Inference, key: string): (r: (Inference, Effect))
    ensures key == "Escape" && s.active ==>
      r.1 == Deactivate && !r.0.active && r.0.waiting && r.0.last == s.last
    ensures key != "Escape" || !s.active ==> r == (s, Stay)
  {
    if key == "Escape" && s.active then (s.(active := false, waiting := true), Deactivate)
    else (s, Stay)
  }

  /**
   * The states reachable from `Initial`: while an Escape is pending the
   * overlay was torn down from a full-screen reading; otherwise the state is
   * active exactly when the last reading was full-screen.
   */
  ghost predicate Reachable(s: Inference) {
    if s.waiting then !s.active && s.last == Some(true)
    else s.active == (s.last == Some(true))
  }

  lemma InitialReachable()
    ensures Reachable(Initial)
  {
  }

  lemma StepReachable(s: Inference, g: Sample)
    requires Reachable(s)
    ensures Reachable(Step(s, g).0)
    ensures Step(s, g).1 == Activate ==> !s.active
  {
  }

  lemma KeyStepReachable(s: Inference, key: string)
    requires Reachable(s)
    ensures Reachable(KeyStep(s, key).0)
  {
  }

  /** Once a reading has been taken, a sample is acted on exactly when it is not skipped. */
  lemma WorkOnlyOnChange(s: Inference, g: Sample)
    requires Reachable(s) && s.last.Some?
    ensures Step(s, g).1 != Stay <==> !Skipped(s, g)
  {
    if !s.waiting {
      assert s.active == s.last.value;
    }
  }

  /** A second identical sample changes nothing and calls nothing. */
  lemma RepeatIsQuiet(s: Inference, g: Sample)
    ensures Step(Step(s, g).0, g) == (Step(s, g).0, Stay)
  {
  }

  /**
   * Escape, then a sample that still reads as full screen: the overlay is
   * requested again at once, not on the next change of the reading.
   */
  lemma EscapeThenFullReactivates(s: Inference, g: Sample)
    requires Reachable(s) && s.active && Matches(g)
    ensures KeyStep(s, "Escape").1 == Deactivate
    ensures Step(KeyStep(s, "Escape").0, g) == (Inference(true, false, Some(true)), Activate)
  {
  }

  /** Escape, then leaving F11: the engine is asked to deactivate a second time. */
  lemma EscapeThenExitDeactivatesAgain(s: Inference, g: Sample)
    requires Reachable(s) && s.active && !Matches(g)
    ensures Step(KeyStep(s, "Escape").0, g) == (Inference(false, false, Some(false)), Deactivate)
  {
  }

  /** What reaches the script: an animation frame with its geometry, or a key press. */
  datatype Event = Frame(g: Sample) | KeyDown(key: string)

  function Apply(s: Inference, e: Event): (Inference, Effect) {
    match e
    case Frame(g) => Step(s, g)
    case KeyDown(k) => KeyStep(s, k)
  }

  /** The final state after `evs` and the calls made on the engine, in order. */
  function Run(s: Inference, evs: seq<Event>): (Inference, seq<Effect>)
    decreases |evs|
  {
    if evs == [] then (s, [])
    else
      var (s1, e) := Apply(s, evs[0]);
      var (s2, rest) := Run(s1, evs[1..]);
      (s2, (if e == Stay then [] else [e]) + rest)
  }

  /**
   * Along any run from a reachable state, every activation request is
   * followed by a deactivation before the next activation: the state machine
   * never asks for the overlay twice in a row.
   */
  lemma {:induction false} NoDoubleActivation(s: Inference, evs: seq<Event>)
    requires Reachable(s)
    ensures Reachable(Run(s, evs).0)
    ensures var calls := Run(s, evs).1;
      forall i :: 0 <= i < |calls| - 1 && calls[i] == Activate ==> calls[i + 1] == Deactivate
    ensures var calls := Run(s, evs).1;
      s.active && |calls| > 0 ==> calls[0] == Deactivate
    ensures var calls := Run(s, evs).1;
      Run(s, evs).0.active == if calls == [] then s.active else calls[|calls| - 1] == Activate
    decreases |evs|
  {
    if evs != [] {
      var (s1, e) := Apply(s, evs[0]);
      match evs[0] {
        case Frame(g) => StepReachable(s, g);
        case KeyDown(k) => KeyStepReachable(s, k);
      }
      NoDoubleActivation(s1, evs[1..]);
      var rest := Run(s1, evs[1..]).1;
      var calls := Run(s, evs).1;
      assert calls == (if e == Stay then [] else [e]) + rest;
      if e != Stay {
        assert calls[1..] == rest;
      }
    }
  }
}
