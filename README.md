# Video player: playback state machine and playlist store

This project models the core of the `VideoPlayer` of `python/src/video_player.py`.
The player plays one video at a time from a fixed video library, can pause,
resume and stop it, and keeps named playlists of library videos.

- **Playback.** The original keeps three module globals: `playing`,
  `video_playing` and `paused`. Here they are the `PlayState` value (module
  `Playback`) and the fields `playing`, `current` and `paused` of the
  `Player.VideoPlayer` class. The invariant is that a video is current exactly
  while something plays, and that only a playing video can be paused.
- **Playlists.** The original keeps a module-level dictionary from playlist
  name to a list of videos. A Python dictionary keeps insertion order, so the
  store here is a sequence of `Playlist(name, videos)` in creation order
  (module `Playlists`, field `playlists` of the class). Names are compared
  with `Names.SameName`, which lowers ASCII capitals and tests equality. The
  store invariant says three things:
  - no two playlists answer to one name;
  - no playlist holds a video twice;
  - every video in a playlist comes from the library.
- **Notices.** Every message the player prints is an `Events.Event` value,
  appended to the `log` field of the class. This lets the model state the
  order of notices, for example the stop notice of the previous video before
  the play notice of the next one.
- **Reference definitions and the class.** Each command is a function from
  the state before to the state after, together with the notices it prints
  (`Playback.Play`, `Playlists.AddVideo`, …). The properties of each command
  are stated and proved on these functions. Each method of
  `Player.VideoPlayer` does what the original method does, including its
  scans over the library ids and over the playlists. Each method is proved
  to leave exactly the state and log its function gives, and to keep the
  object invariant `Valid()`.
- **The library.** The library (`VideoLibrary`) is a separate module of the
  repository and is not part of this model. It is a fixed `seq<Video>` with
  unique ids, and `Catalog.Lookup` stands for its `get_video`.

Where the code does not do what its messages evidently intend, the model
follows the intent, and `findings.dfy` models the code as written next to
it (see "## Findings"). Two more choices need a word:

- **Name comparison.** The original compares `playlist_name.lower ==
  playlist.lower`. That compares bound method objects, not lowered strings,
  so its outcome depends on object identity. The model uses the
  case-insensitive comparison `SameName` everywhere.
- **`play_random_video`.** The original only announces the random video and
  clears `paused`. It does not record the video as playing. The model keeps
  this as written (`Playback.PlayRandom`), so after a random play, stop and
  show-playing still refer to the previously recorded video.

## Model

| member | source | states |
|---|---|---|
| `Catalog.Lookup` | python/src/video_player.py:46 | the library lookup finds a video exactly when some library video has the id, and what it finds is a library video with that id |
| `Catalog.LookupFindsVideo` | python/src/video_player.py:167 | in a library with unique ids, looking up the id of any library video yields that very video |
| `Catalog.VideoIds` | python/src/video_player.py:31-34 | the id list built before each lookup has one id per library video, in library order, and an id is in it exactly when the lookup finds a video |
| `Names.SameNameCharwise` | python/src/video_player.py:144 | two names denote the same playlist exactly when they have equal length and agree letter by letter after lowering |
| `Names.CaseVariantsMatch` | python/src/video_player.py:144 | spellings that differ only in letter case match ("My List", "my list", "MY LIST", "my LIST"), and a different name does not |
| `Playback.Play` | python/src/video_player.py:29-53 | a known id leaves that video playing and unpaused, whatever the state before; the notices are the stop of the previous video, if one was playing, then the play of the new one; an unknown id changes nothing and reports the missing video; consistency is kept |
| `Playback.Stop` | python/src/video_player.py:56-68 | from any state, afterwards nothing plays and nothing is paused; the notice names the stopped video, or reports that none was playing, in which case the state was already idle |
| `Playback.PlayRandom` | python/src/video_player.py:71-90 | the chosen library video is announced after a stop notice for the recorded video, if one was playing; only the paused flag changes, and it is cleared |
| `Playback.Pause` | python/src/video_player.py:92-105 | the playing flag and the current video never change; afterwards the video is paused exactly when one is playing; the single notice is pausing, already paused or no video |
| `Playback.Continue` | python/src/video_player.py:107-120 | the current video never changes and nothing is paused afterwards; a video that was not paused leaves the state unchanged and is reported as not paused or as no video |
| `Playback.NowPlaying` | python/src/video_player.py:122-134 | shows something exactly when a video is playing, and then shows the current video and its paused flag |
| `Playback.PauseIdempotent` | python/src/video_player.py:99-103 | pausing twice leaves the state of pausing once, and the second pause only reports "already paused" for the current video |
| `Playback.PauseThenContinue` | python/src/video_player.py:99-116 | pausing a playing video and resuming it gives back the state before, with a "continuing" notice for the same video |
| `Playback.PlayAgainRestarts` | python/src/video_player.py:42-48 | playing the video that is already playing restarts it: a stop notice for it, then a play notice, and the same state |
| `Playback.PlayForgetsPriorState` | python/src/video_player.py:36-50 | playing a known video gives the same state from any two consistent starting states |
| `Playlists.Find` | python/src/video_player.py:257-258 | the scan finds a playlist exactly when some playlist answers to the name, and what it finds is the first playlist that answers to it |
| `Playlists.FindUnique` | python/src/video_player.py:257-261 | in a store with distinct names, the playlist that answers to a name is the one found |
| `Playlists.Scan` | python/src/video_player.py:235-236 | the playlist scan loop returns what `Find` specifies |
| `Playlists.IndexOf` | python/src/video_player.py:238 | the position found holds the video, and no earlier position does |
| `Playlists.DropCounts` | python/src/video_player.py:238 | removing one position takes exactly one copy of its video out of the list's multiset |
| `Playlists.DropKeepsNoDup` | python/src/video_player.py:238 | removing a position from a list without duplicates leaves a list without duplicates that no longer holds that video |
| `Playlists.RemoveFirst` | python/src/video_player.py:238 | removing a video from a list (Python's `list.remove`) takes out its first occurrence and keeps every other video in its order; the list shortens by one and loses one copy of the video from its multiset; without duplicates, the video is gone afterwards and there are still no duplicates |
| `Playlists.Create` | python/src/video_player.py:136-151 | a name already taken up to case is refused and nothing changes; otherwise exactly one empty playlist is added, at the end, and the existing playlists are untouched; distinct names and the store invariant are kept |
| `Playlists.AddVideo` | python/src/video_player.py:153-184 | an unknown video or playlist changes nothing and is reported; otherwise the video is appended to the matched playlist only if it is not already there, and a duplicate is reported once; names, length and every other playlist are unchanged; the store invariant, including no duplicates, is kept |
| `Playlists.RemoveVideo` | python/src/video_player.py:221-250 | an unknown video or playlist changes nothing and is reported; otherwise the video is removed from the matched playlist only if it is there, and otherwise reported as not in the playlist; names, length and every other playlist are unchanged; the store invariant is kept |
| `Playlists.Clear` | python/src/video_player.py:252-264 | the matched playlist is emptied but keeps its name and its place; every other playlist is unchanged; a missing playlist is reported and nothing changes |
| `Playlists.DropPlaylist` | python/src/video_player.py:272-274 | dropping the matched playlist from a store with distinct names keeps exactly the playlists that do not answer to the name |
| `Playlists.DropKeepsInvariant` | python/src/video_player.py:272-274 | dropping any one playlist keeps distinct names and the per-playlist invariant |
| `Playlists.Delete` | python/src/video_player.py:267-279 | exactly the matched playlist is removed and the others keep their order: with distinct names, a playlist remains exactly when it was there and does not answer to the name; a missing playlist is reported and nothing changes |
| `Playlists.Show` | python/src/video_player.py:199-218 | shows a playlist exactly when one answers to the name, and then a stored playlist that answers to it |
| `Playlists.CreateIgnoresCase` | python/src/video_player.py:141-150 | after creating a name, creating any case variant of it is refused and changes nothing |
| `Playlists.AddTwice` | python/src/video_player.py:172-176 | adding the same video twice to an existing playlist: the second add is reported as already added and changes nothing |
| `Playlists.RemoveTwice` | python/src/video_player.py:237-241 | removing the same video twice: the second removal reports that the video is not in the playlist and changes nothing |
| `Playlists.DeleteForgets` | python/src/video_player.py:272-276 | after a playlist is deleted, no playlist answers to its name or any case variant; show, clear, delete, add and remove all report it missing |
| `Playlists.DistinctVideosDistinctIds` | python/src/video_player.py:172 | two different library videos have different ids |
| `Playlists.NoDuplicateIds` | python/src/video_player.py:172-176 | in a library with unique ids, no playlist holds two videos with the same id |
| `Player.VideoPlayer.constructor` | python/src/video_player.py:6-16 | a new player has nothing playing, nothing paused, no playlists and an empty log |
| `Player.VideoPlayer.PlayVideo` | python/src/video_player.py:29-53 | the playback state and log become what `Playback.Play` gives; the playlists are unchanged; the invariant is kept |
| `Player.VideoPlayer.StopVideo` | python/src/video_player.py:56-68 | the playback state and log become what `Playback.Stop` gives; the playlists are unchanged; the invariant is kept |
| `Player.VideoPlayer.PlayRandomVideo` | python/src/video_player.py:71-90 | the playback state and log become what `Playback.PlayRandom` gives for the chosen position; the playlists are unchanged |
| `Player.VideoPlayer.PauseVideo` | python/src/video_player.py:92-105 | the playback state and log become what `Playback.Pause` gives; the playlists are unchanged |
| `Player.VideoPlayer.ContinueVideo` | python/src/video_player.py:107-120 | the playback state and log become what `Playback.Continue` gives; the playlists are unchanged |
| `Player.VideoPlayer.ShowPlaying` | python/src/video_player.py:122-134 | returns what `Playback.NowPlaying` gives for the current playback state |
| `Player.VideoPlayer.CreatePlaylist` | python/src/video_player.py:136-151 | the playlists and log become what `Playlists.Create` gives; playback is unchanged |
| `Player.VideoPlayer.AddToPlaylist` | python/src/video_player.py:153-184 | the playlists and log become what `Playlists.AddVideo` gives; playback is unchanged |
| `Player.VideoPlayer.ShowAllPlaylists` | python/src/video_player.py:187-197 | lists the name of every playlist, in creation order, and nothing else |
| `Player.VideoPlayer.ShowPlaylist` | python/src/video_player.py:199-218 | returns what `Playlists.Show` gives |
| `Player.VideoPlayer.RemoveFromPlaylist` | python/src/video_player.py:221-250 | the playlists and log become what `Playlists.RemoveVideo` gives; playback is unchanged |
| `Player.VideoPlayer.ClearPlaylist` | python/src/video_player.py:252-264 | the playlists and log become what `Playlists.Clear` gives; playback is unchanged |
| `Player.VideoPlayer.DeletePlaylist` | python/src/video_player.py:267-279 | the playlists and log become what `Playlists.Delete` gives; playback is unchanged |
| `Findings.StopAsWritten` | python/src/video_player.py:63-66 | stopping, as written, clears the playing flag and the current video but leaves the paused flag as it was |
| `Findings.PausedStopKeepsPaused` | python/src/video_player.py:63-103 | play, pause, then stop as written leaves the player paused with no current video, which breaks the invariant that a later pause relies on |
| `Findings.PausedStopResets` | python/src/video_player.py:63-66 | the same play, pause and stop with the corrected stop leaves the player idle |
| `Findings.KeyIndex` | python/src/video_player.py:150 | finds the playlist whose name equals the given name exactly (the dictionary key the assignment overwrites) exactly when there is one |
| `Findings.CreateAsWritten` | python/src/video_player.py:143-150 | create as written refuses a name exactly when it matches the first playlist's name; an accepted name is announced and ends up as an empty playlist; a new key is added at the end, a key equal to the name is emptied in its place, and every playlist with another name is untouched |
| `Findings.CreateAsWrittenDuplicates` | python/src/video_player.py:143-150 | as written, a new case variant of the second playlist's name (equal to no existing name) is accepted, and the store then holds two playlists answering to one name |
| `Findings.CreateAsWrittenEmpties` | python/src/video_player.py:143-151 | as written, re-creating the second playlist under its own name is announced as a new playlist, keeps the store's size and empties that playlist |
| `Findings.CreateRefusesVariant` | python/src/video_player.py:141-150 | the corrected create refuses that input and leaves the store unchanged |
| `Findings.FirstLacking` | python/src/video_player.py:169-178 | finds the first playlist answering to the name that does not hold the video, exactly when there is one; every earlier matching playlist holds it |
| `Findings.AddLoop` | python/src/video_player.py:169-178 | the add loop, which visits every playlist: it adds the video exactly when some matching playlist lacks it, and then appends it to the first such playlist only; otherwise the playlists are unchanged |
| `Findings.Passed` | python/src/video_player.py:171-173 | the "already added" notices for a run of playlists: exactly one per matching playlist, each naming its playlist, in store order |
| `Findings.AddLoopNotices` | python/src/video_player.py:169-178 | the add loop prints exactly one "already added" notice, naming the playlist, for each matching playlist before the first one that lacks the video, in store order; when it adds the video, one "Added" notice for that playlist follows; when it adds nothing, the notices are the "already added" ones for all matching playlists |
| `Findings.AddLoopNoMatch` | python/src/video_player.py:169-178 | with no playlist answering to the name, the add loop changes nothing and prints nothing |
| `Findings.AddLoopUnique` | python/src/video_player.py:169-178 | in a store with distinct names, the add loop either appends the video to the one matching playlist with an "Added" notice, or leaves it unchanged with one "already added" notice |
| `Findings.AddAsWritten` | python/src/video_player.py:158-184 | add as written: an unknown video changes nothing and is reported; "Playlist does not exist" is printed exactly when the video is known and nothing was added, which happens exactly when every matching playlist already holds the video |
| `Findings.AddAsWrittenDistinct` | python/src/video_player.py:169-181 | in a store with distinct names, add as written changes the playlists as the corrected add does and prints its notice first; when the video was already there, and only then, a second notice "Playlist does not exist" follows |
| `Findings.AddAsWrittenKeepsDistinctNames` | python/src/video_player.py:169-178 | add as written keeps the playlist names distinct |
| `Findings.AddPresentAsWritten` | python/src/video_player.py:172-181 | in a store with distinct names, adding a video that the matching playlist holds changes nothing and prints "already added", then "Playlist does not exist" |
| `Findings.AddTwiceAsWritten` | python/src/video_player.py:172-181 | in a store with distinct names, adding a video a second time, as written, also reports "Playlist does not exist" for a playlist that exists |
| `Findings.AddAsWrittenReachesLaterMatch` | python/src/video_player.py:169-178 | when two playlists answer to the name and only the second lacks the video, the add loop passes the first with "already added" and appends the video to the second, with no "does not exist" notice |
| `Findings.ClearLoop` | python/src/video_player.py:257-261 | the clear loop empties every playlist answering to the name, in its place, and leaves every other playlist as it was |
| `Findings.Announced` | python/src/video_player.py:258-260 | the clear notices for a run of playlists: a notice names a playlist exactly when that playlist answers to the name, and there are none exactly when no playlist answers |
| `Findings.ClearLoopNotices` | python/src/video_player.py:257-261 | the clear loop prints exactly one notice per matching playlist, naming it, in store order |
| `Findings.ClearLoopDistinct` | python/src/video_player.py:257-261 | in a store with distinct names, the clear loop leaves the playlists the corrected clear leaves |
| `Findings.ClearAsWritten` | python/src/video_player.py:257-264 | clear as written empties every playlist answering to the name and announces each one; it prints the "does not exist" notice exactly when the name is empty; with distinct names it leaves the playlists the corrected clear leaves |
| `Findings.ClearMissingSilent` | python/src/video_player.py:257-264 | as written, clearing a missing playlist with a non-empty name prints nothing; the corrected clear reports it |
| `Findings.DeleteAsWritten` | python/src/video_player.py:272-279 | delete as written changes the playlists as the corrected delete does, but prints the "does not exist" notice exactly when the name is empty and no playlist matched |
| `Findings.DeleteMissingSilent` | python/src/video_player.py:272-279 | as written, deleting a missing playlist with a non-empty name prints nothing; the corrected delete reports it |

## Left out

- Printed text: every message is an `Event` value. The wording, the tag formatting `str(video.tags).strip("()")` and the listings printed by `show_playing`, `show_playlist` and `show_all_playlists` are not modelled. These three are queries that return the data they would print.
- `show_all_videos` and `number_of_videos`: pure display of the library.
- `VideoLibrary` is not part of this model. The library is a fixed sequence with unique ids, and `get_video` is `Catalog.Lookup`. Loading the library from its file is not modelled.
- `Names.SameName`: lowers ASCII capitals only. Python's `str.lower` also lowers other Unicode letters.
- `Names.SameName`: the comparison as written (`playlist_name.lower == playlist.lower`) compares bound method objects, so it depends on object identity. That comparison is not modelled; the intended case-insensitive comparison is used throughout.
- `Playback.PlayRandom`: the random pick is the parameter `choice`. The precondition `choice < |catalog|` stands for the exception that `random.choice` raises on an empty library, which the player does not handle. The list of titles built at lines 74-77 is not modelled; the pick is a position in the library.
- `Playlists.Scan`: stops at the first matching playlist. The clear, remove, show and delete loops of the original go on scanning. Because no two playlists share a name, at most one playlist matches, so the outcome is the same. The as-written add and clear (`Findings.AddLoop`, `Findings.ClearLoop`) do visit every matching playlist, because the as-written create can leave two playlists answering to one name.
- Deleting from the dictionary while iterating over it (line 274): every successful delete raises after its notice, because the loop goes on over a dictionary that changed size. The exception is not modelled; the model removes the matched playlist and ends the command there.
- `Findings.DeleteAsWritten`: the exception raised after a successful delete is not modelled; the command ends after its "Deleted playlist" notice, which is why the error test at line 278 is never reached once a playlist matched.
- `search_videos`, `search_videos_tag`, `flag_video` and `allow_video`: unimplemented stubs that only print.
- Process-wide globals: the playback flags and the playlists are fields of one `VideoPlayer` object. In the original, every `VideoPlayer` instance shares them. There is no concurrency.

## Findings

| source | as written | input that shows it | evidently intended | confidence | as-written member | corrected member |
|---|---|---|---|---|---|---|
| python/src/video_player.py:63-66 | `stop_video` clears `playing` and `video_playing` but not `paused` | play a video, pause it, stop it, then pause again: `paused` is still set, so line 103 reads the title of `None` | stopping also clears `paused`, so a paused player always has a current video | high; not executed | `Findings.StopAsWritten`, `Findings.PausedStopKeepsPaused` | `Playback.Stop`, `Findings.PausedStopResets` |
| python/src/video_player.py:143-147 | the `break` is outside the `if`, so only the first playlist is compared with the new name | playlists "First" and "Second" exist; create "SECOND": it is accepted and a second playlist answers to "second" | refuse a name that matches any existing playlist | high; not executed | `Findings.CreateAsWritten`, `Findings.CreateAsWrittenDuplicates` | `Playlists.Create`, `Findings.CreateRefusesVariant` |
| python/src/video_player.py:147-150 | a name that passes the first-playlist check is stored with `playlists[playlist_name] = []`, which overwrites a key equal to the name | playlists "First" (empty) and "Second" (one video) exist; create "Second": "Successfully created" is printed and "Second" is now empty | refuse the name; never empty an existing playlist on create | high; not executed | `Findings.CreateAsWritten`, `Findings.CreateAsWrittenEmpties` | `Playlists.Create` |
| python/src/video_player.py:172-181 | when the video is already in the playlist, `playlist_exists` stays false | add a video to an existing playlist twice: the second add prints "Video already added" and then "Playlist does not exist" | one "already added" notice | high; not executed | `Findings.AddAsWritten`, `Findings.AddTwiceAsWritten` | `Playlists.AddVideo`, `Playlists.AddTwice` |
| python/src/video_player.py:263 | the error test is `if not playlist_name`, not `if not playlist_exists` | clear "x" when no playlist is named "x": nothing is printed | report that the playlist does not exist | high; not executed | `Findings.ClearAsWritten`, `Findings.ClearMissingSilent` | `Playlists.Clear` |
| python/src/video_player.py:278 | the error test is `if not playlist_name`, not `if not playlist_exists` | delete "x" when no playlist is named "x": nothing is printed | report that the playlist does not exist | high; not executed | `Findings.DeleteAsWritten`, `Findings.DeleteMissingSilent` | `Playlists.Delete` |
