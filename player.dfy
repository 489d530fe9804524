/**
  The video player: one object holding what the original keeps in module
  globals (`playing`, `video_playing`, `paused` and the `playlists`
  dictionary) together with the log of notices it has printed. Every command
  does what the original's method does, including its scans over the
  library and the playlists, and is proved to follow the step function of
  `Playback` or `Playlists` for that command.
 */
module Player {
  import opened Wrappers
  import opened Catalog
  import opened Events
  import opened Playback
  import opened Playlists

  class VideoPlayer {
    const catalog: seq<Video>
    var playing: bool
    var current: Option<Video>  // `video_playing`
    var paused: bool
    var playlists: seq<Playlist>
    var log: seq<Event>

    /** The playback flags as one value. */
    function State(): PlayState
      reads this
    {
      PlayState(playing, current, paused)
    }

    /** The object invariant: consistent playback, a current video from the library, a well-formed store. */
    predicate Valid()
      reads this
    {
      UniqueIds(catalog)
      && Consistent(State())
      && (current.Some? ==> current.value in catalog)
      && Invariant(playlists, catalog)
    }

    constructor (catalog: seq<Video>)
      requires UniqueIds(catalog)
      ensures Valid()
      ensures this.catalog == catalog && State() == Idle && playlists == [] && log == []
    {
      this.catalog := catalog;
      playing, current, paused := false, None, false;
      playlists, log := [], [];
    }

    /** `play_video` */
    method PlayVideo(id: string)
      requires Valid()
      modifies this
      ensures Valid()
      ensures State() == Play(old(State()), catalog, id).state
      ensures log == old(log) + Play(old(State()), catalog, id).out
      ensures playlists == old(playlists)
    {
      var ids := VideoIds(catalog);
      if id in ids {
        if playing {
          log := log + [Stopping(current.value)];
        }
        playing := true;
        current := Lookup(catalog, id);
        log := log + [Playing(current.value)];
        paused := false;
      } else {
        log := log + [PlayNoVideo];
      }
    }

    /** `stop_video`, with the paused flag cleared as well */
    method StopVideo()
      requires Valid()
      modifies this
      ensures Valid()
      ensures State() == Stop(old(State())).state
      ensures log == old(log) + Stop(old(State())).out
      ensures playlists == old(playlists)
    {
      if playing {
        log := log + [Stopping(current.value)];
        playing := false;
        current := None;
        paused := false;
      } else {
        log := log + [StopNoVideo];
      }
    }

    /** `play_random_video`, where `choice` is the position the random pick chose */
    method PlayRandomVideo(choice: nat)
      requires Valid()
      requires choice < |catalog|
      modifies this
      ensures Valid()
      ensures State() == PlayRandom(old(State()), catalog, choice).state
      ensures log == old(log) + PlayRandom(old(State()), catalog, choice).out
      ensures playlists == old(playlists)
    {
      if playing {
        log := log + [Stopping(current.value)];
      }
      log := log + [Playing(catalog[choice])];
      paused := false;
    }

    /** `pause_video` */
    method PauseVideo()
      requires Valid()
      modifies this
      ensures Valid()
      ensures State() == Pause(old(State())).state
      ensures log == old(log) + Pause(old(State())).out
      ensures playlists == old(playlists)
    {
      if playing && !paused {
        log := log + [Pausing(current.value)];
        paused := true;
      } else if paused {
        log := log + [AlreadyPaused(current.value)];
      } else if !playing {
        log := log + [PauseNoVideo];
      }
    }

    /** `continue_video` */
    method ContinueVideo()
      requires Valid()
      modifies this
      ensures Valid()
      ensures State() == Continue(old(State())).state
      ensures log == old(log) + Continue(old(State())).out
      ensures playlists == old(playlists)
    {
      if paused {
        log := log + [Continuing(current.value)];
        paused := false;
      } else if playing && !paused {
        log := log + [ContinueNotPaused];
      } else if !playing {
        log := log + [ContinueNoVideo];
      }
    }

    /** `show_playing`: the current video and whether it is paused, or nothing */
    method ShowPlaying() returns (r: Option<(Video, bool)>)
      requires Valid()
      ensures r == NowPlaying(State())
    {
      r := None;
      if playing {
        r := Some((current.value, paused));
      }
    }

    /** `create_playlist`, checking every existing name */
    method CreatePlaylist(name: string)
      requires Valid()
      modifies this
      ensures Valid()
      ensures playlists == Create(old(playlists), name).playlists
      ensures log == old(log) + [Create(old(playlists), name).event]
      ensures State() == old(State())
    {
      var found := Scan(playlists, name);
      if found.Some? {
        log := log + [CreateNameTaken];
      } else {
        playlists := playlists + [Playlist(name, [])];
        log := log + [Created(name)];
      }
    }

    /** `add_to_playlist`, with a video already there reported once */
    method AddToPlaylist(name: string, id: string)
      requires Valid()
      modifies this
      ensures Valid()
      ensures playlists == AddVideo(old(playlists), catalog, name, id).playlists
      ensures log == old(log) + [AddVideo(old(playlists), catalog, name, id).event]
      ensures State() == old(State())
    {
      var ids := VideoIds(catalog);
      if id in ids {
        var video := Lookup(catalog, id).value;
        var found := Scan(playlists, name);
        match found
        case None =>
          log := log + [AddNoPlaylist(name)];
        case Some(k) =>
          if video in playlists[k].videos {
            log := log + [AddAlreadyAdded(playlists[k].name)];
          } else {
            playlists := playlists[k := Playlist(playlists[k].name, playlists[k].videos + [video])];
            log := log + [Added(playlists[k].name, video)];
          }
      } else {
        log := log + [AddNoVideo(name)];
      }
    }

    /** `show_all_playlists`: the names of all playlists in the order they were created */
    method ShowAllPlaylists() returns (names: seq<string>)
      requires Valid()
      ensures |names| == |playlists|
      ensures forall i :: 0 <= i < |names| ==> names[i] == playlists[i].name
    {
      names := [];
      for k := 0 to |playlists|
        invariant |names| == k
        invariant forall i :: 0 <= i < k ==> names[i] == playlists[i].name
      {
        names := names + [playlists[k].name];
      }
    }

    /** `show_playlist`: the playlist answering to `name`, if any */
    method ShowPlaylist(name: string) returns (r: Option<Playlist>)
      requires Valid()
      ensures r == Show(playlists, name)
    {
      var found := Scan(playlists, name);
      match found
      case None => r := None;
      case Some(k) => r := Some(playlists[k]);
    }

    /** `remove_from_playlist` */
    method RemoveFromPlaylist(name: string, id: string)
      requires Valid()
      modifies this
      ensures Valid()
      ensures playlists == RemoveVideo(old(playlists), catalog, name, id).playlists
      ensures log == old(log) + [RemoveVideo(old(playlists), catalog, name, id).event]
      ensures State() == old(State())
    {
      var ids := VideoIds(catalog);
      if id in ids {
        var video := Lookup(catalog, id).value;
        var found := Scan(playlists, name);
        match found
        case None =>
          log := log + [RemoveNoPlaylist(name)];
        case Some(k) =>
          if video in playlists[k].videos {
            playlists := playlists[k := Playlist(playlists[k].name, RemoveFirst(playlists[k].videos, video))];
            log := log + [Removed(playlists[k].name, video)];
          } else {
            log := log + [RemoveNotInPlaylist(playlists[k].name)];
          }
      } else {
        log := log + [RemoveNoVideo(name)];
      }
    }

    /** `clear_playlist`, reporting a missing playlist */
    method ClearPlaylist(name: string)
      requires Valid()
      modifies this
      ensures Valid()
      ensures playlists == Clear(old(playlists), name).playlists
      ensures log == old(log) + [Clear(old(playlists), name).event]
      ensures State() == old(State())
    {
      var found := Scan(playlists, name);
      match found
      case None =>
        log := log + [ClearNoPlaylist(name)];
      case Some(k) =>
        playlists := playlists[k := Playlist(playlists[k].name, [])];
        log := log + [Cleared(playlists[k].name)];
    }

    /** `delete_playlist`, reporting a missing playlist */
    method DeletePlaylist(name: string)
      requires Valid()
      modifies this
      ensures Valid()
      ensures playlists == Delete(old(playlists), name).playlists
      ensures log == old(log) + [Delete(old(playlists), name).event]
      ensures State() == old(State())
    {
      var found := Scan(playlists, name);
      match found
      case None =>
        log := log + [DeleteNoPlaylist(name)];
      case Some(k) =>
        log := log + [Deleted(playlists[k].name)];
        playlists := playlists[..k] + playlists[k + 1..];
    }
  }
}
