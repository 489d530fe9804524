/**
  The playback half of the player: whether a video is playing, which one, and
  whether it is paused. Each operation is a function from the state before to
  the state after together with the notices it prints; the player class is
  proved to follow these functions.
 */
module Playback {
  import opened Wrappers
  import opened Catalog
  import opened Events

  datatype PlayState = PlayState(playing: bool, current: Option<Video>, paused: bool)

  /** Nothing playing, nothing paused: the state of a fresh player. */
  const Idle := PlayState(false, None, false)

  /**
    The invariant of the playback state: a video is current exactly while
    something plays, and only a playing video can be paused.
   */
  predicate Consistent(s: PlayState)
  {
    (s.playing <==> s.current.Some?) && (s.paused ==> s.playing)
  }

  /** The state an operation leaves and the notices it prints, in order. */
  datatype PlayStep = PlayStep(state: PlayState, out: seq<Event>)

  /**
    Play the video with the given id. A known id starts that video unpaused,
    whatever was going on before, and a video that was playing is announced
    as stopped first; an unknown id changes nothing.
   */
  function Play(s: PlayState, catalog: seq<Video>, id: string): (r: PlayStep)
    requires Consistent(s)
    ensures Consistent(r.state)
    ensures !HasId(catalog, id) ==> r.state == s && r.out == [PlayNoVideo]
    ensures HasId(catalog, id) ==>
      r.state.playing && !r.state.paused
      && r.state.current.Some? && r.state.current.value.id == id && r.state.current.value in catalog
    ensures HasId(catalog, id) ==>
      r.out == (if s.playing then [Stopping(s.current.value)] else []) + [Playing(r.state.current.value)]
  {
    match Lookup(catalog, id)
    case None => PlayStep(s, [PlayNoVideo])
    case Some(v) =>
      var stop := if s.playing then [Stopping(s.current.value)] else [];
      PlayStep(PlayState(true, Some(v), false), stop + [Playing(v)])
  }

  /**
    Stop the current video. Whatever the state before, nothing plays and
    nothing is paused afterwards; the notice names the stopped video, or
    says there was none.
   */
  function Stop(s: PlayState): (r: PlayStep)
    requires Consistent(s)
    ensures r.state == Idle
    ensures s.playing ==> r.out == [Stopping(s.current.value)]
    ensures !s.playing ==> s == Idle && r.out == [StopNoVideo]
  {
    if s.playing then PlayStep(PlayState(false, None, false), [Stopping(s.current.value)])
    else PlayStep(s, [StopNoVideo])
  }

  /**
    Play the library video at position `choice`, the one a uniform random
    pick chose. As the player is written, this only announces the video and
    clears the paused flag: the video recorded as current is not replaced.
   */
  function PlayRandom(s: PlayState, catalog: seq<Video>, choice: nat): (r: PlayStep)
    requires Consistent(s)
    requires choice < |catalog|
    ensures Consistent(r.state)
    ensures r.state.playing == s.playing && r.state.current == s.current && !r.state.paused
    ensures |r.out| == if s.playing then 2 else 1
    ensures r.out[|r.out| - 1] == Playing(catalog[choice])
    ensures s.playing ==> r.out[0] == Stopping(s.current.value)
  {
    var stop := if s.playing then [Stopping(s.current.value)] else [];
    PlayStep(PlayState(s.playing, s.current, false), stop + [Playing(catalog[choice])])
  }

  /**
    Pause the current video. Afterwards the video is paused exactly when one
    is playing; a second pause changes nothing and only says so.
   */
  function Pause(s: PlayState): (r: PlayStep)
    requires Consistent(s)
    ensures Consistent(r.state)
    ensures r.state.playing == s.playing && r.state.current == s.current
    ensures r.state.paused == s.playing
    ensures |r.out| == 1
    ensures !s.playing ==> r.out[0] == PauseNoVideo
    ensures s.playing && s.paused ==> r.out[0] == AlreadyPaused(s.current.value)
    ensures s.playing && !s.paused ==> r.out[0] == Pausing(s.current.value)
  {
    if s.playing && !s.paused then
      PlayStep(s.(paused := true), [Pausing(s.current.value)])
    else if s.paused then
      PlayStep(s, [AlreadyPaused(s.current.value)])
    else
      PlayStep(s, [PauseNoVideo])
  }

  /**
    Resume a paused video. Afterwards nothing is paused and the current video
    is the same; a video that was not paused is reported, not changed.
   */
  function Continue(s: PlayState): (r: PlayStep)
    requires Consistent(s)
    ensures Consistent(r.state)
    ensures r.state.playing == s.playing && r.state.current == s.current && !r.state.paused
    ensures !s.paused ==> r.state == s
    ensures |r.out| == 1
    ensures s.paused ==> r.out[0] == Continuing(s.current.value)
    ensures s.playing && !s.paused ==> r.out[0] == ContinueNotPaused
    ensures !s.playing ==> r.out[0] == ContinueNoVideo
  {
    if s.paused then PlayStep(s.(paused := false), [Continuing(s.current.value)])
    else if s.playing then PlayStep(s, [ContinueNotPaused])
    else PlayStep(s, [ContinueNoVideo])
  }

  /** What `show_playing` reports: the current video and whether it is paused, or nothing. */
  function NowPlaying(s: PlayState): (r: Option<(Video, bool)>)
    requires Consistent(s)
    ensures r.Some? <==> s.playing
    ensures r.Some? ==> s.current == Some(r.value.0) && r.value.1 == s.paused
  {
    if s.playing then Some((s.current.value, s.paused)) else None
  }

  /** Pausing twice leaves the state of pausing once; the second call only reports. */
  lemma PauseIdempotent(s: PlayState)
    requires Consistent(s)
    ensures Pause(Pause(s).state).state == Pause(s).state
    ensures s.playing ==> Pause(Pause(s).state).out == [AlreadyPaused(s.current.value)]
  {
  }

  /** Pausing a playing video and resuming it gives back the state before. */
  lemma PauseThenContinue(s: PlayState)
    requires Consistent(s) && s.playing && !s.paused
    ensures Continue(Pause(s).state).state == s
    ensures Continue(Pause(s).state).out == [Continuing(s.current.value)]
  {
  }

  /**
    Playing the video that is already playing restarts it: the stop notice
    for it comes first, then the play notice, and the state is the same.
   */
  lemma PlayAgainRestarts(s: PlayState, catalog: seq<Video>, id: string)
    requires Consistent(s) && HasId(catalog, id)
    ensures Play(Play(s, catalog, id).state, catalog, id).state == Play(s, catalog, id).state
    ensures Play(Play(s, catalog, id).state, catalog, id).out ==
      [Stopping(Play(s, catalog, id).state.current.value), Playing(Play(s, catalog, id).state.current.value)]
  {
  }

  /** Playing a known video gives the same state from any two starting states. */
  lemma PlayForgetsPriorState(s1: PlayState, s2: PlayState, catalog: seq<Video>, id: string)
    requires Consistent(s1) && Consistent(s2) && HasId(catalog, id)
    ensures Play(s1, catalog, id).state == Play(s2, catalog, id).state
  {
  }
}
