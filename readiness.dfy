/**
 * `isVideoReady`: whether the media element is far enough into playback for
 * the overlay to be worth showing, memoised for 100 ms against the clock.
 * The clock reading (`performance.now()`, in milliseconds) and the media
 * element found by the video selectors are parameters.
 */
module Readiness {
  import opened Wrappers

  /** Milliseconds a verdict is served from the memo. */
  const CacheTtl: int := 100

  /** `HTMLMediaElement.HAVE_FUTURE_DATA`. */
  const HaveFutureData: int := 3

  /** The fields of the media element the verdict reads. */
  datatype Media = Media(readyState: int, currentTime: real, paused: bool, duration: real, seeking: bool)

  /** Buffered ahead, started, running, of known length and not seeking. */
  predicate Playing(m: Media): (b: bool)
    ensures b ==> m.readyState >= HaveFutureData && m.currentTime > 0.0 && m.duration > 0.0
    ensures m.paused || m.seeking ==> !b
  {
    m.readyState >= HaveFutureData && m.currentTime > 0.0 && !m.paused && m.duration > 0.0 && !m.seeking
  }

  /** `state.videoReadyCache`. */
  datatype Memo = Memo(result: bool, timestamp: int)

  const InitialMemo: Memo := Memo(false, 0)

  /** One call of `isVideoReady` at time `now`: the verdict and the memo left behind. */
  function Check(memo: Memo, now: int, video: Option<Media>): (r: (bool, Memo))
    ensures now - memo.timestamp < CacheTtl ==> r == (memo.result, memo)
    ensures now - memo.timestamp >= CacheTtl ==> r.1 == Memo(r.0, now)
    ensures now - memo.timestamp >= CacheTtl && r.0 ==>
      video.Some? && video.value.readyState >= HaveFutureData && video.value.currentTime > 0.0 &&
      !video.value.paused && video.value.duration > 0.0 && !video.value.seeking
    ensures now - memo.timestamp >= CacheTtl && video.Some? && Playing(video.value) ==> r.0
    ensures now - memo.timestamp >= CacheTtl && video.None? ==> r == (false, Memo(false, now))
  {
    if now - memo.timestamp < CacheTtl then (memo.result, memo)
    else if video.None? then (false, Memo(false, now))
    else
      var result := Playing(video.value);
      (result, Memo(result, now))
  }

  /**
   * A verdict reached by querying is the one every call in the next 100 ms
   * returns, whatever the media element does meanwhile.
   */
  lemma VerdictHeld(memo: Memo, now: int, video: Option<Media>, later: int, video': Option<Media>)
    requires now - memo.timestamp >= CacheTtl && now <= later < now + CacheTtl
    ensures var (first, memo') := Check(memo, now, video);
      Check(memo', later, video') == (first, memo')
  {
  }

  /** A queried verdict is negative whenever the position or the duration is not positive. */
  lemma NotStartedIsNotReady(memo: Memo, now: int, m: Media)
    requires now - memo.timestamp >= CacheTtl
    requires m.duration <= 0.0 || m.currentTime <= 0.0
    ensures !Check(memo, now, Some(m)).0
  {
  }
}
