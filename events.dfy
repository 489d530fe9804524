/**
  The notices the player prints, one constructor per message. The log of a
  session is the sequence of these, in the order they were printed.
 */
module Events {
  import opened Catalog

  datatype Event =
    // playback
    | Stopping(video: Video)               // "Stopping video: <title>"
    | Playing(video: Video)                // "Playing Video: <title>" ("Playing video: <title>" for a random pick)
    | PlayNoVideo                          // "Cannot play video: video does not exist"
    | StopNoVideo                          // "Cannot stop video: No video is currently playing"
    | Pausing(video: Video)                // "Pausing video: <title>"
    | AlreadyPaused(video: Video)          // "Video already paused: <title>"
    | PauseNoVideo                         // "Cannot pause video: No video is currently playing"
    | Continuing(video: Video)             // "Continuing video: <title>"
    | ContinueNotPaused                    // "Cannot continue video: Video is not paused"
    | ContinueNoVideo                      // "Cannot continue video: No video is currently playing"
    // playlists
    | Created(name: string)                // "Successfully created new playlist: <name>"
    | CreateNameTaken                      // "Cannot create playlist: A playlist with the same name already exists"
    | Added(playlist: string, video: Video)    // "Added video to <playlist>: <title>"
    | AddAlreadyAdded(playlist: string)        // "Cannot add video to <playlist>: Video already added"
    | AddNoPlaylist(name: string)              // "Cannot add video to <name>: Playlist does not exist"
    | AddNoVideo(name: string)                 // "Cannot add video to <name>: Video does not exist"
    | Removed(playlist: string, video: Video)  // "Removed video from <playlist>: <title>"
    | RemoveNotInPlaylist(playlist: string)    // "Cannot remove video from <playlist>: Video does not exist"
    | RemoveNoPlaylist(name: string)           // "Cannot remove video from <name>: Playlist does not exist"
    | RemoveNoVideo(name: string)              // "Cannot remove video from <name>: Video does not exist"
    | Cleared(playlist: string)                // "Successfully removed all videos from <playlist>"
    | ClearNoPlaylist(name: string)            // "Cannot clear playlist <name>: Playlist does not exist"
    | Deleted(playlist: string)                // "Deleted playlist: ... <playlist>"
    | DeleteNoPlaylist(name: string)           // "Cannot delete playlist <name>: Playlist does not exist"
}
