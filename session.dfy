/**
 * The script's shared `state` object and the handlers that update it in
 * place: `checkF11` on every animation frame, `handleKeydown`, the resize
 * handler, `detectUrlChange` with its reactivation retries, and the
 * relocation engine with its readiness check.
 */
module Sessions {
  import opened Wrappers
  import opened FullscreenInference
  import opened PageTree
  import opened Readiness
  import opened Relocation
  import opened OrderedMaps
  import opened ElementCaching

  /** `attemptReactivation` gives up once its attempt number exceeds this. */
  const MaxReactivationAttempt: nat := 20

  /** The number of attempts a reactivation chain starting at `attempts` makes when none succeeds. */
  function FailingAttempts(attempts: nat): (n: nat)
    ensures n == if attempts <= MaxReactivationAttempt then MaxReactivationAttempt + 1 - attempts else 0
    decreases if attempts <= MaxReactivationAttempt then MaxReactivationAttempt + 1 - attempts else 0
  {
    if attempts > MaxReactivationAttempt then 0 else 1 + FailingAttempts(attempts + 1)
  }

  /** Within one reading the second verdict repeats the first: the memo is at most 0 ms old by then. */
  lemma CheckRepeats(memo: Memo, now: int, video: Option<Media>)
    ensures var (ready, memo') := Check(memo, now, video); Check(memo', now, video).0 == ready
  {
  }

  /**
   * One run of `attemptReactivation(attempts)` against the reading `env`:
   * the engine afterwards, and the attempt number it schedules next, if any.
   */
  function Attempt(e: Engine, attempts: nat, env: Env, width: int, height: int): (r: (Engine, Option<nat>))
    requires Consistent(e) && Plausible(e, env)
    ensures Consistent(r.0)
    ensures attempts > MaxReactivationAttempt ==> r == (e, None)
    ensures r.1.None? <==>
      attempts > MaxReactivationAttempt || (env.player.Some? && Check(e.memo, env.now, env.video).0)
    ensures r.1.Some? ==>
      r.1.value == attempts + 1 <= MaxReactivationAttempt + 1 &&
      r.0.page == e.page && r.0.record == e.record
    ensures r.1.None? && attempts <= MaxReactivationAttempt && e.page.overlay.None? ==>
      r.0.page.overlay.Some? && e.page.nextId in r.0.page.children &&
      r.0.page.children[e.page.nextId] == [env.player.value]
  {
    if attempts > MaxReactivationAttempt then (e, None)
    else if env.player.None? then (e, Some(attempts + 1))
    else
      var (ready, memo) := Check(e.memo, env.now, env.video);
      CheckRepeats(e.memo, env.now, env.video);
      ActivationConsistent(e.(memo := memo), env, width, height);
      if ready then (Activation(e.(memo := memo), env, width, height), None)
      else (e.(memo := memo), Some(attempts + 1))
  }

  /** Every reading of a chain is plausible for the page `e` has. */
  ghost predicate AllPlausible(e: Engine, envs: seq<Env>) {
    forall i | 0 <= i < |envs| :: Plausible(e, envs[i])
  }

  /** The readings after the first stay plausible for an engine with the same page. */
  lemma AllPlausibleTail(e: Engine, e': Engine, envs: seq<Env>)
    requires AllPlausible(e, envs) && |envs| > 0 && e'.page == e.page
    ensures AllPlausible(e', envs[1..])
  {
    forall i | 0 <= i < |envs| - 1 ensures Plausible(e', envs[1..][i]) {
      assert envs[1..][i] == envs[i + 1];
    }
  }

  /** So do the first `k` readings. */
  lemma AllPlausiblePrefix(e: Engine, envs: seq<Env>, k: nat)
    requires AllPlausible(e, envs) && k <= |envs|
    ensures AllPlausible(e, envs[..k])
  {
    forall i | 0 <= i < k ensures Plausible(e, envs[..k][i]) {
      assert envs[..k][i] == envs[i];
    }
  }

  /**
   * The chain `detectUrlChange` starts with attempt `attempts`, run
   * against the readings `envs` taken 500 ms apart: the engine at the end,
   * the number of attempts that looked for the player, and whether one of
   * them activated.
   */
  function Chain(e: Engine, attempts: nat, envs: seq<Env>, width: int, height: int): (r: (Engine, nat, bool))
    requires Consistent(e) && AllPlausible(e, envs)
    ensures Consistent(r.0)
    ensures r.1 <= |envs| && r.1 <= FailingAttempts(attempts)
    ensures r.2 ==> 1 <= r.1
    ensures !r.2 ==> r.0.page == e.page && r.0.record == e.record
    decreases |envs|
  {
    if |envs| == 0 || attempts > MaxReactivationAttempt then (e, 0, false)
    else
      var step := Attempt(e, attempts, envs[0], width, height);
      if step.1.None? then (step.0, 1, true)
      else
        AllPlausibleTail(e, step.0, envs);
        var rest := Chain(step.0, step.1.value, envs[1..], width, height);
        (rest.0, rest.1 + 1, rest.2)
  }

  /**
   * With the player never found, the chain makes one attempt per reading
   * until attempt `MaxReactivationAttempt` and leaves the engine as it was.
   */
  lemma {:induction false} ChainGivesUp(e: Engine, attempts: nat, envs: seq<Env>, width: int, height: int)
    requires Consistent(e) && AllPlausible(e, envs)
    requires forall i | 0 <= i < |envs| :: envs[i].player.None?
    ensures var n := FailingAttempts(attempts);
      Chain(e, attempts, envs, width, height) == (e, if |envs| < n then |envs| else n, false)
    decreases |envs|
  {
    if |envs| > 0 && attempts <= MaxReactivationAttempt {
      AllPlausibleTail(e, e, envs);
      assert forall i | 0 <= i < |envs[1..]| :: envs[1..][i].player.None? by {
        forall i | 0 <= i < |envs[1..]| ensures envs[1..][i].player.None? {
          assert envs[1..][i] == envs[i + 1];
        }
      }
      ChainGivesUp(e, attempts + 1, envs[1..], width, height);
    }
  }

  /**
   * A chain that activates stops at the first ready reading: the readings
   * before it each made a failing attempt, and the attempt on it is the
   * one that activated.
   */
  lemma {:induction false} ChainStopsAtFirstReady(e: Engine, attempts: nat, envs: seq<Env>, width: int, height: int)
    requires Consistent(e) && AllPlausible(e, envs)
    requires Chain(e, attempts, envs, width, height).2
    ensures var r := Chain(e, attempts, envs, width, height);
      var k := r.1 - 1;
      AllPlausible(e, envs[..k]) &&
      var before := Chain(e, attempts, envs[..k], width, height);
      before.1 == k && !before.2 && before.0.page == e.page &&
      Attempt(before.0, attempts + k, envs[k], width, height) == (r.0, None)
    decreases |envs|
  {
    var r := Chain(e, attempts, envs, width, height);
    AllPlausiblePrefix(e, envs, r.1 - 1);
    var step := Attempt(e, attempts, envs[0], width, height);
    if step.1.Some? {
      var e1, rest := step.0, envs[1..];
      AllPlausibleTail(e, e1, envs);
      ChainStopsAtFirstReady(e1, step.1.value, rest, width, height);
      var k := r.1 - 1;
      assert Chain(e1, step.1.value, rest, width, height).1 == k;
      var pre := envs[..k];
      assert pre[0] == envs[0] && pre[1..] == rest[..k - 1];
      AllPlausibleTail(e, e1, pre);
      assert Chain(e, attempts, pre, width, height).1 == Chain(e1, step.1.value, rest[..k - 1], width, height).1 + 1;
      assert envs[k] == rest[k - 1];
    } else {
      assert envs[..0] == [];
    }
  }

  /** A chain that activates with no overlay up leaves the player inside a new overlay. */
  lemma {:induction false} ChainActivates(e: Engine, attempts: nat, envs: seq<Env>, width: int, height: int)
    requires Consistent(e) && AllPlausible(e, envs)
    requires e.page.overlay.None? && Chain(e, attempts, envs, width, height).2
    ensures Chain(e, attempts, envs, width, height).0.page.overlay.Some?
    decreases |envs|
  {
    var step := Attempt(e, attempts, envs[0], width, height);
    if step.1.Some? {
      AllPlausibleTail(e, step.0, envs);
      ChainActivates(step.0, step.1.value, envs[1..], width, height);
    }
  }

  /** What the engine looks like after the state machine's request `eff`. */
  function Perform(e: Engine, eff: Effect, env: Env, width: int, height: int): (r: Engine)
    requires Consistent(e) && Plausible(e, env)
    ensures Consistent(r)
  {
    ActivationConsistent(e, env, width, height);
    DeactivationConsistent(e, env);
    match eff
    case Stay => e
    case Activate => Activation(e, env, width, height)
    case Deactivate => Deactivation(e, env)
  }

  /**
   * The state machine can be active with no overlay on the page: a
   * full-screen reading while the video is not yet ready sets `isF11Active`
   * although `activateFullscreen` did nothing, and the same reading on the
   * next frames is skipped. Before the reading changes, `activateFullscreen`
   * runs again only from the resize handler, from a reactivation chain, or
   * from the first frame after an Escape.
   */
  lemma ActiveWithoutOverlay(e: Engine, env: Env, g: Sample)
    requires Consistent(e) && Plausible(e, env) && e.page.overlay.None?
    requires Matches(g) && !Check(e.memo, env.now, env.video).0
    ensures var (s1, eff) := Step(Initial, g);
      var e1 := Perform(e, eff, env, g.innerWidth, g.innerHeight);
      s1.active && e1.page.overlay.None? && Step(s1, g) == (s1, Stay)
  {
  }

  /**
   * The overlay can come back while the state machine is inactive. After a
   * navigation while active, `detectUrlChange` takes the overlay down and
   * schedules reactivation; a windowed frame in the meantime makes the state
   * machine inactive (its deactivation finds nothing to undo); then an attempt
   * on a ready player puts the overlay up again. From there the same
   * windowed frame is skipped and Escape is ignored, so neither removes it.
   */
  lemma StrayReactivation(e: Engine, s: Inference, env: Env, g: Sample, env2: Env, attempts: nat, width: int, height: int)
    requires Consistent(e) && Plausible(e, env) && e.page.overlay.Some?
    requires Reachable(s) && s.active && !s.waiting && !Matches(g)
    requires attempts <= MaxReactivationAttempt && env2.player.Some? && Plausible(e, env2)
    requires Check(e.memo, env2.now, env2.video).0
    ensures var e1 := Perform(e, Deactivate, env, width, height);
      var (s1, eff) := Step(s, g);
      eff == Deactivate && Perform(e1, eff, env, g.innerWidth, g.innerHeight) == e1 &&
      var e2 := Attempt(e1, attempts, env2, width, height).0;
      !s1.active && e2.page.overlay.Some? &&
      Step(s1, g) == (s1, Stay) && KeyStep(s1, "Escape") == (s1, Stay)
  {
    var e1 := Perform(e, Deactivate, env, width, height);
    assert e1 == Deactivation(e, env) && e1.page.overlay.None? && e1.memo == e.memo;
  }

  class Session {
    /** `state.currentUrl`. */
    var currentUrl: string
    /** `state.isF11Active`, `state.waitingForF11Toggle`, `state.lastF11Check`. */
    var inference: Inference
    /** The document. */
    var page: Page
    /** `state.originalParent`, `state.originalNextSibling`. */
    var record: Record
    /** `state.videoReadyCache`. */
    var readyMemo: Memo
    /** `state.lastButtonCount`. */
    var lastButtonCount: nat
    /** `state.lastVideoElement`. */
    var lastVideoElement: Option<Node>
    /** `state.cachedElements`. */
    var elements: ElementCache

    function EngineState(): Engine
      reads this
    {
      Engine(page, record, readyMemo)
    }

    ghost predicate Valid()
      reads this, elements
    {
      elements.Valid() && Consistent(EngineState()) && Reachable(inference)
    }

    constructor (url: string, pg: Page)
      requires WellFormed(pg) && pg.overlay.None?
      ensures Valid() && fresh(elements) && elements.entries == Empty()
      ensures currentUrl == url && inference == Initial
      ensures EngineState() == Engine(pg, NoRecord, InitialMemo)
      ensures lastButtonCount == 0 && lastVideoElement == None
    {
      currentUrl := url;
      inference := Initial;
      page := pg;
      record := NoRecord;
      readyMemo := InitialMemo;
      lastButtonCount := 0;
      lastVideoElement := None;
      elements := new ElementCache();
    }

    /** `isVideoReady()`. */
    method IsVideoReady(now: int, video: Option<Media>) returns (r: bool)
      requires Valid()
      modifies this
      ensures Valid()
      ensures (r, readyMemo) == Check(old(readyMemo), now, video)
      ensures page == old(page) && record == old(record) && inference == old(inference)
      ensures currentUrl == old(currentUrl) && elements == old(elements)
      ensures lastButtonCount == old(lastButtonCount) && lastVideoElement == old(lastVideoElement)
    {
      var verdict := Check(readyMemo, now, video);
      r, readyMemo := verdict.0, verdict.1;
    }

    /**
     * Lines 290-316 of `activateFullscreen` for a ready player `x`: record
     * where it sits, then move it into a fresh overlay.
     */
    method Relocate(x: Node, width: int, height: int)
      requires Allocated(page) && x < page.nextId
      modifies this
      ensures var parent := ParentOf(old(page), x);
        record == Record(parent, if parent.Some? then NextSibling(old(page).children, parent.value, x) else None)
      ensures page == Enter(old(page), x, width, height)
      ensures readyMemo == old(readyMemo) && inference == old(inference) && currentUrl == old(currentUrl)
      ensures elements == old(elements)
      ensures lastButtonCount == old(lastButtonCount) && lastVideoElement == old(lastVideoElement)
    {
      var parent := ParentOf(page, x);
      record := Record(parent, if parent.Some? then NextSibling(page.children, parent.value, x) else None);
      page := Enter(page, x, width, height);
    }

    /** `activateFullscreen()` with the viewport `width` by `height`. */
    method Activate(env: Env, width: int, height: int)
      requires Valid() && Plausible(EngineState(), env)
      modifies this
      ensures Valid()
      ensures EngineState() == Activation(old(EngineState()), env, width, height)
      ensures inference == old(inference) && currentUrl == old(currentUrl) && elements == old(elements)
      ensures lastButtonCount == old(lastButtonCount) && lastVideoElement == old(lastVideoElement)
    {
      ghost var e0 := EngineState();
      ActivationSteps(e0, env, width, height);
      ActivationConsistent(e0, env, width, height);
      if page.overlay.Some? || env.player.None? {
        return;
      }
      var ready := IsVideoReady(env.now, env.video);
      if ready {
        Relocate(env.player.value, width, height);
      }
      assert EngineState() == Activation(e0, env, width, height);
    }

    /** `deactivateFullscreen()`. */
    method Deactivate(env: Env)
      requires Valid() && Plausible(EngineState(), env)
      modifies this
      ensures Valid()
      ensures EngineState() == Deactivation(old(EngineState()), env)
      ensures inference == old(inference) && currentUrl == old(currentUrl) && elements == old(elements)
      ensures lastButtonCount == old(lastButtonCount) && lastVideoElement == old(lastVideoElement)
    {
      DeactivationConsistent(EngineState(), env);
      if page.overlay.None? {
        return;
      }
      page := Exit(page, env.found, record);
      record := NoRecord;
    }

    /** `checkF11()` on the geometry sample `g`. */
    method CheckF11(g: Sample, env: Env)
      requires Valid() && Plausible(EngineState(), env)
      modifies this
      ensures Valid()
      ensures inference == Step(old(inference), g).0
      ensures EngineState() == Perform(old(EngineState()), Step(old(inference), g).1, env, g.innerWidth, g.innerHeight)
      ensures currentUrl == old(currentUrl) && elements == old(elements)
      ensures lastButtonCount == old(lastButtonCount) && lastVideoElement == old(lastVideoElement)
    {
      StepReachable(inference, g);
      var nowF11 := Matches(g);
      if inference.last == Some(nowF11) && !inference.waiting {
        return;
      }
      inference := inference.(last := Some(nowF11));
      if nowF11 != inference.active || inference.waiting {
        inference := inference.(active := nowF11, waiting := false);
        if nowF11 {
          Activate(env, g.innerWidth, g.innerHeight);
        } else {
          Deactivate(env);
        }
      }
    }

    /** `handleKeydown` for the key named `key`. */
    method HandleKeydown(key: string, env: Env)
      requires Valid() && Plausible(EngineState(), env)
      modifies this
      ensures Valid()
      ensures inference == KeyStep(old(inference), key).0
      ensures EngineState() == Perform(old(EngineState()), KeyStep(old(inference), key).1, env, 0, 0)
      ensures key == "Escape" && old(inference.active) ==>
        !inference.active && inference.waiting && page.overlay.None? && record == NoRecord
      ensures currentUrl == old(currentUrl) && elements == old(elements)
      ensures lastButtonCount == old(lastButtonCount) && lastVideoElement == old(lastVideoElement)
    {
      KeyStepReachable(inference, key);
      if key == "Escape" && inference.active {
        Deactivate(env);
        inference := inference.(active := false, waiting := true);
      }
    }

    /**
     * The debounced resize handler: activation again while active, which is
     * a no-op as long as the overlay is up.
     */
    method HandleResize(env: Env, width: int, height: int)
      requires Valid() && Plausible(EngineState(), env)
      modifies this
      ensures Valid()
      ensures inference.active ==> EngineState() == Activation(old(EngineState()), env, width, height)
      ensures !inference.active ==> EngineState() == old(EngineState())
      ensures old(page.overlay.Some?) ==> EngineState() == old(EngineState())
      ensures inference == old(inference) && currentUrl == old(currentUrl) && elements == old(elements)
      ensures lastButtonCount == old(lastButtonCount) && lastVideoElement == old(lastVideoElement)
    {
      if inference.active {
        Activate(env, width, height);
      }
    }

    /**
     * `detectUrlChange()` when the location is `url`: on a new URL the
     * element cache and the listener bookkeeping are reset and an active
     * overlay is taken down; `scheduled` tells whether the reactivation
     * chain starts.
     */
    method DetectUrlChange(url: string, env: Env) returns (scheduled: bool)
      requires Valid() && Plausible(EngineState(), env)
      modifies this, elements
      ensures Valid() && elements == old(elements) && inference == old(inference)
      ensures url == old(currentUrl) ==>
        !scheduled && currentUrl == old(currentUrl) && elements.entries == old(elements.entries) &&
        EngineState() == old(EngineState()) &&
        lastButtonCount == old(lastButtonCount) && lastVideoElement == old(lastVideoElement)
      ensures url != old(currentUrl) ==>
        currentUrl == url && elements.entries == Empty() &&
        lastButtonCount == 0 && lastVideoElement == None &&
        scheduled == old(inference.active) &&
        EngineState() == if old(inference.active) then Deactivation(old(EngineState()), env) else old(EngineState())
    {
      scheduled := false;
      if url != currentUrl {
        currentUrl := url;
        elements.Clear(None);
        lastButtonCount := 0;
        lastVideoElement := None;
        if inference.active {
          Deactivate(env);
          scheduled := true;
        }
      }
    }

    /**
     * One run of `attemptReactivation(attempts)`: activate once the player
     * is found and ready, otherwise ask for attempt `attempts + 1`, giving
     * up past `MaxReactivationAttempt`.
     */
    method AttemptReactivation(attempts: nat, env: Env, width: int, height: int) returns (next: Option<nat>)
      requires Valid() && Plausible(EngineState(), env)
      modifies this
      ensures Valid()
      ensures (EngineState(), next) == Attempt(old(EngineState()), attempts, env, width, height)
      ensures inference == old(inference) && currentUrl == old(currentUrl) && elements == old(elements)
      ensures lastButtonCount == old(lastButtonCount) && lastVideoElement == old(lastVideoElement)
    {
      if attempts > MaxReactivationAttempt {
        return None;
      }
      var ready := false;
      if env.player.Some? {
        ready := IsVideoReady(env.now, env.video);
      }
      if ready {
        Activate(env, width, height);
        next := None;
      } else {
        next := Some(attempts + 1);
      }
    }
  }
}
