/**
 * The relocation engine, `activateFullscreen` and `deactivateFullscreen`,
 * over the state they touch: the page, the relocation record and the
 * readiness memo.  `Env` carries what the selector lookups and the clock
 * return during one call.
 */
module Relocation {
  import opened Wrappers
  import opened PageTree
  import opened Readiness

  datatype Engine = Engine(page: Page, record: Record, memo: Memo)

  /**
   * The readings of one call: the player the player selectors find, the
   * media element the video selectors find, the player found inside the
   * overlay, and `performance.now()`.
   */
  datatype Env = Env(player: Option<Node>, video: Option<Media>, found: Option<Node>, now: int)

  const NoRecord: Record := Record(None, None)

  /**
   * The page is a tree allocated below `nextId`; the relocation record is set only
   * while the overlay exists, and the recorded parent is older than the
   * overlay.
   */
  ghost predicate Consistent(e: Engine) {
    WellFormed(e.page) &&
    (e.page.overlay.None? ==> e.record == NoRecord) &&
    (e.page.overlay.Some? ==>
      e.page.body < e.page.overlay.value.node < e.page.nextId &&
      (e.record.parent.Some? ==> e.record.parent.value < e.page.overlay.value.node))
  }

  /** The lookups return elements of the page, and never the overlay for the player inside it. */
  ghost predicate Plausible(e: Engine, env: Env) {
    (env.player.Some? ==> env.player.value < e.page.nextId) &&
    (env.found.Some? ==>
      env.found.value < e.page.nextId &&
      (e.page.overlay.Some? ==> env.found.value != e.page.overlay.value.node))
  }

  /** `activateFullscreen()`, sizing the overlay to a `width` by `height` viewport. */
  function Activation(e: Engine, env: Env, width: int, height: int): (r: Engine)
    requires Consistent(e) && Plausible(e, env)
    ensures e.page.overlay.Some? || env.player.None? ==> r == e
    ensures e.page.overlay.None? && env.player.Some? ==>
      (r.memo == Check(e.memo, env.now, env.video).1) &&
      (r.page.overlay.Some? <==> Check(e.memo, env.now, env.video).0)
    ensures r.page.overlay.Some? && e.page.overlay.None? ==>
      var x := env.player.value;
      r.page.overlay.value == Overlay(e.page.nextId, width, height) &&
      e.page.nextId in r.page.children && r.page.children[e.page.nextId] == [x] &&
      r.record.parent == ParentOf(e.page, x) &&
      (r.record.parent.Some? ==> r.record.next == NextSibling(e.page.children, r.record.parent.value, x)) &&
      (r.record.parent.None? ==> r.record.next.None?)
    ensures r.page.overlay.None? ==> r.page == e.page && r.record == e.record
  {
    if e.page.overlay.Some? || env.player.None? then e
    else
      var (ready, memo) := Check(e.memo, env.now, env.video);
      if !ready then e.(memo := memo)
      else
        var x := env.player.value;
        var parent := ParentOf(e.page, x);
        var next := if parent.Some? then NextSibling(e.page.children, parent.value, x) else None;
        Engine(Enter(e.page, x, width, height), Record(parent, next), memo)
  }

  /** `deactivateFullscreen()`. */
  function Deactivation(e: Engine, env: Env): (r: Engine)
    requires Consistent(e) && Plausible(e, env)
    ensures e.page.overlay.None? ==> r == e
    ensures e.page.overlay.Some? ==> r.page.overlay.None? && !r.page.scrollLocked
    ensures e.page.overlay.Some? ==>
      r.record == NoRecord && r.memo == e.memo &&
      r.page == Exit(e.page, env.found, e.record)
  {
    if e.page.overlay.None? then e
    else Engine(Exit(e.page, env.found, e.record), NoRecord, e.memo)
  }

  /** The three outcomes of `Activation`, one per exit of `activateFullscreen`. */
  lemma ActivationSteps(e: Engine, env: Env, width: int, height: int)
    requires Consistent(e) && Plausible(e, env)
    ensures e.page.overlay.Some? || env.player.None? ==> Activation(e, env, width, height) == e
    ensures e.page.overlay.None? && env.player.Some? && !Check(e.memo, env.now, env.video).0 ==>
      Activation(e, env, width, height) == e.(memo := Check(e.memo, env.now, env.video).1)
    ensures e.page.overlay.None? && env.player.Some? && Check(e.memo, env.now, env.video).0 ==>
      var x := env.player.value;
      var parent := ParentOf(e.page, x);
      Activation(e, env, width, height) ==
        Engine(Enter(e.page, x, width, height),
               Record(parent, if parent.Some? then NextSibling(e.page.children, parent.value, x) else None),
               Check(e.memo, env.now, env.video).1)
  {
  }

  lemma ActivationConsistent(e: Engine, env: Env, width: int, height: int)
    requires Consistent(e) && Plausible(e, env)
    ensures Consistent(Activation(e, env, width, height))
  {
    var r := Activation(e, env, width, height);
    if r.page.overlay.Some? && e.page.overlay.None? {
      EnterAllocated(e.page, env.player.value, width, height);
      EnterTree(e.page, env.player.value, width, height);
    }
  }

  lemma DeactivationConsistent(e: Engine, env: Env)
    requires Consistent(e) && Plausible(e, env)
    ensures Consistent(Deactivation(e, env))
  {
    if e.page.overlay.Some? {
      ExitAllocated(e.page, env.found, e.record);
      ExitTree(e.page, env.found, e.record);
    }
  }

  /**
   * At most one overlay: activating while one exists changes nothing, so a
   * second activation, from a resize or from the state machine, never adds
   * another.
   */
  lemma ActivateTwice(e: Engine, env: Env, env': Env, width: int, height: int, width': int, height': int)
    requires Consistent(e) && Plausible(e, env)
    requires var r := Activation(e, env, width, height); Consistent(r) && Plausible(r, env')
    ensures var r := Activation(e, env, width, height);
      r.page.overlay.Some? ==> Activation(r, env', width', height') == r
  {
  }

  /** Activating a ready player listed at index `i` under `p` records exactly that position. */
  lemma ActivationRecords(e: Engine, p: Node, i: nat, env: Env, width: int, height: int)
    requires Consistent(e) && e.page.overlay.None? && Plausible(e, env)
    requires p in e.page.children && i < |e.page.children[p]|
    requires env.player == Some(e.page.children[p][i]) && Check(e.memo, env.now, env.video).0
    ensures var x := e.page.children[p][i];
      Activation(e, env, width, height) ==
        Engine(Enter(e.page, x, width, height), Record(Some(p), NextSibling(e.page.children, p, x)),
               Check(e.memo, env.now, env.video).1)
  {
    ParentOfUnique(e.page, p, i);
  }

  /**
   * Entering with the player at index `i` under `p` and leaving again with
   * nothing changed in between puts the player back at index `i` under `p`,
   * leaves the whole tree as it was and clears the record.
   */
  lemma EngineRoundTrip(e: Engine, p: Node, i: nat, env: Env, env': Env, width: int, height: int)
    requires Consistent(e) && e.page.overlay.None?
    requires p in e.page.children && i < |e.page.children[p]|
    requires env.player == Some(e.page.children[p][i]) && Check(e.memo, env.now, env.video).0
    requires Plausible(e, env) && Plausible(e, env') && env'.found == env.player
    ensures var inside := Activation(e, env, width, height);
      Consistent(inside) && Plausible(inside, env') &&
      var back := Deactivation(inside, env');
      back.page.children == e.page.children && back.page.children[p][i] == e.page.children[p][i] &&
      back.page.overlay.None? && back.record == NoRecord
  {
    var x := e.page.children[p][i];
    ActivationRecords(e, p, i, env, width, height);
    ActivationConsistent(e, env, width, height);
    var inside := Activation(e, env, width, height);
    RoundTrip(e.page, p, i, width, height);
    assert Plausible(inside, env');
    assert Deactivation(inside, env').page == Exit(inside.page, Some(x), inside.record);
  }
}
