/**
  The places where the player, as written, does not do what its messages
  and its other code evidently intend. Each is modelled here as written,
  with a lemma showing the input that exposes it; the rest of the model uses
  the corrected behaviour (`Playback.Stop`, `Playlists.Create`,
  `Playlists.AddVideo`, `Playlists.Clear`, `Playlists.Delete`).
 */
module Findings {
  import opened Wrappers
  import opened Catalog
  import opened Names
  import opened Events
  import opened Playback
  import opened Playlists

  /** `stop_video` as written: the paused flag is left as it was. */
  function StopAsWritten(s: PlayState): (r: PlayStep)
    requires Consistent(s)
    ensures !r.state.playing && r.state.current.None? && r.state.paused == s.paused
  {
    if s.playing then PlayStep(PlayState(false, None, s.paused), [Stopping(s.current.value)])
    else PlayStep(s, [StopNoVideo])
  }

  /**
    Play a video, pause it, stop it: as written, the player is left paused
    with no current video, so the next `pause_video` takes its "already
    paused" branch and reads the title of a video that is not there.
   */
  lemma PausedStopKeepsPaused(catalog: seq<Video>, id: string)
    requires HasId(catalog, id)
    ensures var s := StopAsWritten(Pause(Play(Idle, catalog, id).state).state).state;
      s.paused && s.current.None? && !Consistent(s)
  {
  }

  /** The same sequence with the corrected stop leaves a consistent, idle player. */
  lemma PausedStopResets(catalog: seq<Video>, id: string)
    requires HasId(catalog, id)
    ensures Stop(Pause(Play(Idle, catalog, id).state).state).state == Idle
  {
  }

  /** The position of the first playlist whose name equals `name` exactly: the dictionary key it is stored under. */
  function KeyIndex(ps: seq<Playlist>, name: string): (r: Option<nat>)
    ensures r.None? <==> forall j :: 0 <= j < |ps| ==> ps[j].name != name
    ensures r.Some? ==> r.value < |ps| && ps[r.value].name == name
  {
    if ps == [] then None
    else if ps[0].name == name then Some(0)
    else
      match KeyIndex(ps[1..], name)
      case None =>
        assert forall j :: 1 <= j < |ps| ==> ps[j] == ps[1..][j - 1];
        None
      case Some(k) =>
        assert ps[k + 1] == ps[1..][k];
        Some(k + 1)
  }

  /**
    `create_playlist` as written: the loop leaves after its first turn, so
    only the first playlist is compared. A name that passes is stored with
    `playlists[name] = []`: a new key goes at the end, while a key equal to
    the name is given an empty list in its place.
   */
  function CreateAsWritten(ps: seq<Playlist>, name: string): (r: StoreStep)
    ensures r.event == CreateNameTaken <==> |ps| > 0 && SameName(ps[0].name, name)
    ensures r.event != CreateNameTaken ==> r.event == Created(name)
    ensures r.event == CreateNameTaken ==> r.playlists == ps
    ensures r.event != CreateNameTaken ==>
      exists j :: 0 <= j < |r.playlists| && r.playlists[j] == Playlist(name, [])
    ensures |r.playlists| == if r.event.Created? && KeyIndex(ps, name).None? then |ps| + 1 else |ps|
    ensures forall j :: 0 <= j < |ps| && ps[j].name != name ==> r.playlists[j] == ps[j]
  {
    if |ps| > 0 && SameName(ps[0].name, name) then StoreStep(ps, CreateNameTaken)
    else
      match KeyIndex(ps, name)
      case Some(j) =>
        var qs := ps[j := Playlist(name, [])];
        assert qs[j] == Playlist(name, []);
        StoreStep(qs, Created(name))
      case None =>
        var qs := ps + [Playlist(name, [])];
        assert qs[|ps|] == Playlist(name, []);
        StoreStep(qs, Created(name))
  }

  /**
    With two playlists, creating a new case variant of the second one's name
    is accepted as written, and the store then holds two playlists
    answering to one name.
   */
  lemma CreateAsWrittenDuplicates(ps: seq<Playlist>, name: string)
    requires |ps| >= 2 && !SameName(ps[0].name, name) && SameName(ps[1].name, name)
    requires forall j :: 0 <= j < |ps| ==> ps[j].name != name
    ensures CreateAsWritten(ps, name).event == Created(name)
    ensures !DistinctNames(CreateAsWritten(ps, name).playlists)
  {
    var qs := CreateAsWritten(ps, name).playlists;
    assert qs[1] == ps[1] && qs[|ps|].name == name;
  }

  /**
    Re-creating the second playlist under its own name is accepted as
    written and silently empties it: it is announced as a new playlist, the
    store keeps its size, and the videos the playlist held are gone.
   */
  lemma CreateAsWrittenEmpties(ps: seq<Playlist>)
    requires |ps| >= 2 && DistinctNames(ps)
    ensures var r := CreateAsWritten(ps, ps[1].name);
      r.event == Created(ps[1].name)
      && |r.playlists| == |ps|
      && r.playlists[1] == Playlist(ps[1].name, [])
  {
    assert !SameName(ps[0].name, ps[1].name);
    assert KeyIndex(ps, ps[1].name) == Some(1);
  }

  /** The corrected create refuses that same input and keeps the store unchanged. */
  lemma CreateRefusesVariant(ps: seq<Playlist>, name: string)
    requires |ps| >= 2 && SameName(ps[1].name, name)
    ensures Create(ps, name) == StoreStep(ps, CreateNameTaken)
  {
  }

  /** The playlists an operation leaves and every notice it prints, in order. */
  datatype NoticeStep = NoticeStep(playlists: seq<Playlist>, out: seq<Event>)

  /** What the add loop leaves: the playlists, its notices, and whether it added the video. */
  datatype AddPass = AddPass(playlists: seq<Playlist>, out: seq<Event>, added: bool)

  /** The position of the first playlist answering to `name` that does not hold `v`, if any. */
  function FirstLacking(ps: seq<Playlist>, name: string, v: Video): (r: Option<nat>)
    ensures r.None? <==> forall k :: 0 <= k < |ps| && SameName(ps[k].name, name) ==> v in ps[k].videos
    ensures r.Some? ==> r.value < |ps| && SameName(ps[r.value].name, name) && v !in ps[r.value].videos
    ensures r.Some? ==> forall j :: 0 <= j < r.value && SameName(ps[j].name, name) ==> v in ps[j].videos
  {
    if ps == [] then None
    else if SameName(ps[0].name, name) && v !in ps[0].videos then Some(0)
    else
      assert forall j :: 1 <= j < |ps| ==> ps[j] == ps[1..][j - 1];
      match FirstLacking(ps[1..], name, v)
      case None => None
      case Some(k) => Some(k + 1)
  }

  /**
    The playlist loop of `add_to_playlist` as written. It visits the
    playlists in order. A matching playlist that already holds the video
    gets an "already added" notice, and the loop goes on. The first matching
    playlist that lacks the video gets it, and the loop ends there.
   */
  function AddLoop(ps: seq<Playlist>, name: string, v: Video): (r: AddPass)
    ensures r.added <==> FirstLacking(ps, name, v).Some?
    ensures !r.added ==> r.playlists == ps
    ensures r.added ==>
      var k := FirstLacking(ps, name, v).value;
      r.playlists == ps[k := Playlist(ps[k].name, ps[k].videos + [v])]
  {
    if ps == [] then AddPass([], [], false)
    else if SameName(ps[0].name, name) && v !in ps[0].videos then
      assert [Playlist(ps[0].name, ps[0].videos + [v])] + ps[1..] == ps[0 := Playlist(ps[0].name, ps[0].videos + [v])];
      AddPass([Playlist(ps[0].name, ps[0].videos + [v])] + ps[1..], [Added(ps[0].name, v)], true)
    else
      var rest := AddLoop(ps[1..], name, v);
      var out := if SameName(ps[0].name, name) then [AddAlreadyAdded(ps[0].name)] + rest.out else rest.out;
      if rest.added then
        var k := FirstLacking(ps[1..], name, v).value;
        assert ps[1..][k] == ps[k + 1];
        assert [ps[0]] + rest.playlists == ps[k + 1 := Playlist(ps[k + 1].name, ps[k + 1].videos + [v])];
        AddPass([ps[0]] + rest.playlists, out, true)
      else
        assert [ps[0]] + ps[1..] == ps;
        AddPass(ps, out, false)
  }

  /** One "already added" notice for each playlist answering to `name`, in store order. */
  function Passed(ps: seq<Playlist>, name: string): (r: seq<Event>)
    ensures forall e :: e in r <==> exists j :: 0 <= j < |ps| && SameName(ps[j].name, name) && e == AddAlreadyAdded(ps[j].name)
  {
    if ps == [] then []
    else
      assert forall j :: 1 <= j < |ps| ==> ps[j] == ps[1..][j - 1];
      if SameName(ps[0].name, name) then [AddAlreadyAdded(ps[0].name)] + Passed(ps[1..], name)
      else Passed(ps[1..], name)
  }

  /**
    The notices of an add pass over `ps`: one "already added" notice for
    each matching playlist the loop goes past, in store order, then, when
    the video was added, one "Added" notice for the first matching playlist
    that lacked it.
   */
  predicate AddNotices(ps: seq<Playlist>, name: string, v: Video, r: AddPass)
  {
    match FirstLacking(ps, name, v)
    case None => !r.added && r.out == Passed(ps, name)
    case Some(k) => r.added && r.out == Passed(ps[..k], name) + [Added(ps[k].name, v)]
  }

  /** The add loop prints exactly the notices `AddNotices` describes. */
  lemma {:induction false} AddLoopNotices(ps: seq<Playlist>, name: string, v: Video)
    ensures AddNotices(ps, name, v, AddLoop(ps, name, v))
  {
    if ps != [] {
      if SameName(ps[0].name, name) && v !in ps[0].videos {
        assert ps[..0] == [];
      } else {
        AddLoopNotices(ps[1..], name, v);
        var rest := AddLoop(ps[1..], name, v);
        var r := AddLoop(ps, name, v);
        assert r.out == if SameName(ps[0].name, name) then [AddAlreadyAdded(ps[0].name)] + rest.out else rest.out;
        match FirstLacking(ps[1..], name, v)
        case None =>
        case Some(k) =>
          assert FirstLacking(ps, name, v) == Some(k + 1);
          assert ps[..k + 1][1..] == ps[1..][..k];
          assert ps[..k + 1][0] == ps[0] && ps[1..][k] == ps[k + 1];
          assert Passed(ps[..k + 1], name)
            == if SameName(ps[0].name, name) then [AddAlreadyAdded(ps[0].name)] + Passed(ps[1..][..k], name)
               else Passed(ps[1..][..k], name);
      }
    }
  }

  /** Dropping the first playlist keeps the rest's names distinct. */
  lemma DistinctTail(ps: seq<Playlist>)
    requires DistinctNames(ps) && ps != []
    ensures DistinctNames(ps[1..])
  {
    forall i, j | 0 <= i < j < |ps[1..]| ensures !SameName(ps[1..][i].name, ps[1..][j].name) {
      assert ps[1..][i] == ps[i + 1] && ps[1..][j] == ps[j + 1];
    }
  }

  /** In a store with distinct names, no later playlist answers to the first one's name. */
  lemma FirstOnly(ps: seq<Playlist>, name: string)
    requires DistinctNames(ps) && ps != [] && SameName(ps[0].name, name)
    ensures !Named(ps[1..], name)
  {
    forall j | 0 <= j < |ps[1..]| ensures !SameName(ps[1..][j].name, name) {
      assert ps[1..][j] == ps[j + 1];
      assert !SameName(ps[0].name, ps[j + 1].name);
    }
  }

  /** With no playlist answering to the name, the add loop changes nothing and prints nothing. */
  lemma {:induction false} AddLoopNoMatch(ps: seq<Playlist>, name: string, v: Video)
    requires !Named(ps, name)
    ensures AddLoop(ps, name, v) == AddPass(ps, [], false)
  {
    if ps != [] {
      assert !Named(ps[1..], name) by {
        forall j | 0 <= j < |ps[1..]| ensures !SameName(ps[1..][j].name, name) {
          assert ps[1..][j] == ps[j + 1];
        }
      }
      AddLoopNoMatch(ps[1..], name, v);
      assert [ps[0]] + ps[1..] == ps;
    }
  }

  /**
    What adding `v` to the playlist at `k` alone gives: the video appended,
    or "already added". This is the matched branch of `Playlists.AddVideo`
    with the video already looked up, as an add pass.
   */
  function AddAt(ps: seq<Playlist>, k: nat, v: Video): AddPass
    requires k < |ps|
  {
    if v in ps[k].videos then AddPass(ps, [AddAlreadyAdded(ps[k].name)], false)
    else AddPass(ps[k := Playlist(ps[k].name, ps[k].videos + [v])], [Added(ps[k].name, v)], true)
  }

  /** The add loop passes over a first playlist that does not answer to the name. */
  lemma AddLoopSkip(ps: seq<Playlist>, name: string, v: Video)
    requires ps != [] && !SameName(ps[0].name, name)
    ensures var rest := AddLoop(ps[1..], name, v);
      AddLoop(ps, name, v) == AddPass([ps[0]] + rest.playlists, rest.out, rest.added)
  {
    var rest := AddLoop(ps[1..], name, v);
    if !rest.added {
      assert [ps[0]] + ps[1..] == ps;
    }
  }

  /** Adding at a later position commutes with putting the first playlist back in front. */
  lemma AddAtShift(ps: seq<Playlist>, k: nat, v: Video)
    requires 0 < k < |ps|
    ensures var rest := AddAt(ps[1..], k - 1, v);
      AddAt(ps, k, v) == AddPass([ps[0]] + rest.playlists, rest.out, rest.added)
  {
    assert ps[1..][k - 1] == ps[k];
    assert [ps[0]] + ps[1..] == ps;
    assert [ps[0]] + ps[1..][k - 1 := Playlist(ps[k].name, ps[k].videos + [v])]
      == ps[k := Playlist(ps[k].name, ps[k].videos + [v])];
  }

  /**
    In a store with distinct names, the add loop visits the one playlist
    answering to the name: it either adds the video there or reports that
    the video is already there.
   */
  lemma {:induction false} AddLoopUnique(ps: seq<Playlist>, name: string, v: Video)
    requires DistinctNames(ps) && Named(ps, name)
    ensures AddLoop(ps, name, v) == AddAt(ps, Find(ps, name).value, v)
  {
    DistinctTail(ps);
    if SameName(ps[0].name, name) {
      FirstOnly(ps, name);
      AddLoopNoMatch(ps[1..], name, v);
      assert [ps[0]] + ps[1..] == ps;
      assert [Playlist(ps[0].name, ps[0].videos + [v])] + ps[1..] == ps[0 := Playlist(ps[0].name, ps[0].videos + [v])];
    } else {
      var k := Find(ps, name).value;
      assert Find(ps[1..], name) == Some(k - 1) by {
        assert ps[1..][k - 1] == ps[k];
        FindUnique(ps[1..], name, k - 1);
      }
      AddLoopUnique(ps[1..], name, v);
      AddLoopSkip(ps, name, v);
      AddAtShift(ps, k, v);
    }
  }

  /** In a store with distinct names, the add loop does what the corrected add does. */
  lemma AddLoopDistinct(ps: seq<Playlist>, name: string, v: Video)
    ensures !Named(ps, name) ==> AddLoop(ps, name, v) == AddPass(ps, [], false)
    ensures DistinctNames(ps) && Named(ps, name) ==> AddLoop(ps, name, v) == AddAt(ps, Find(ps, name).value, v)
  {
    if !Named(ps, name) {
      AddLoopNoMatch(ps, name, v);
    } else if DistinctNames(ps) {
      AddLoopUnique(ps, name, v);
    }
  }

  /**
    `add_to_playlist` as written. A matching playlist that already holds
    the video does not set `playlist_exists`, so when no matching playlist
    lacks the video, the "already added" notices are followed by "Playlist
    does not exist".
   */
  function AddAsWritten(ps: seq<Playlist>, catalog: seq<Video>, name: string, id: string): (r: NoticeStep)
    ensures !HasId(catalog, id) ==> r == NoticeStep(ps, [AddNoVideo(name)])
    ensures AddNoPlaylist(name) in r.out <==> HasId(catalog, id) && r.playlists == ps
    ensures HasId(catalog, id) ==>
      (r.playlists == ps <==>
        forall k :: 0 <= k < |ps| && SameName(ps[k].name, name) ==> Lookup(catalog, id).value in ps[k].videos)
  {
    match Lookup(catalog, id)
    case None => NoticeStep(ps, [AddNoVideo(name)])
    case Some(v) =>
      var pass := AddLoop(ps, name, v);
      AddLoopNotices(ps, name, v);
      assert AddNoPlaylist(name) !in pass.out;
      if pass.added then
        NoticeStep(pass.playlists, pass.out)
      else
        NoticeStep(ps, pass.out + [AddNoPlaylist(name)])
  }

  /**
    In a store with distinct names, add as written changes the playlists as
    the corrected add does and prints the corrected notice first; a video
    already there, and only that, adds a second notice, "Playlist does not
    exist".
   */
  lemma AddAsWrittenDistinct(ps: seq<Playlist>, catalog: seq<Video>, name: string, id: string)
    requires DistinctNames(ps)
    ensures var r, step := AddAsWritten(ps, catalog, name, id), AddVideo(ps, catalog, name, id);
      r.playlists == step.playlists
      && |r.out| == (if step.event.AddAlreadyAdded? then 2 else 1)
      && r.out[0] == step.event
      && (|r.out| == 2 ==> r.out[1] == AddNoPlaylist(name))
  {
    if HasId(catalog, id) {
      AddLoopDistinct(ps, name, Lookup(catalog, id).value);
    }
  }

  /** Adding as written keeps the playlists' names, so it keeps them distinct. */
  lemma AddAsWrittenKeepsDistinctNames(ps: seq<Playlist>, catalog: seq<Video>, name: string, id: string)
    requires DistinctNames(ps)
    ensures DistinctNames(AddAsWritten(ps, catalog, name, id).playlists)
  {
    var qs := AddAsWritten(ps, catalog, name, id).playlists;
    AddAsWrittenDistinct(ps, catalog, name, id);
    assert forall j :: 0 <= j < |qs| ==> qs[j].name == ps[j].name;
  }

  /**
    In a store with distinct names, adding a video that the matching
    playlist already holds, as written: "already added", then "Playlist
    does not exist".
   */
  lemma AddPresentAsWritten(ps: seq<Playlist>, catalog: seq<Video>, name: string, id: string, k: nat)
    requires DistinctNames(ps) && HasId(catalog, id)
    requires k < |ps| && SameName(ps[k].name, name) && Lookup(catalog, id).value in ps[k].videos
    ensures AddAsWritten(ps, catalog, name, id) == NoticeStep(ps, [AddAlreadyAdded(ps[k].name), AddNoPlaylist(name)])
  {
    FindUnique(ps, name, k);
    AddLoopUnique(ps, name, Lookup(catalog, id).value);
  }

  /**
    In a store with distinct names, adding a video twice, as written: the
    second add also claims that the existing playlist does not exist.
   */
  lemma AddTwiceAsWritten(ps: seq<Playlist>, catalog: seq<Video>, name: string, id: string)
    requires HasId(catalog, id) && Named(ps, name) && DistinctNames(ps)
    ensures var qs := AddAsWritten(ps, catalog, name, id).playlists;
      Named(qs, name)
      && AddAsWritten(qs, catalog, name, id).out
         == [AddAlreadyAdded(ps[Find(ps, name).value].name), AddNoPlaylist(name)]
  {
    var k := Find(ps, name).value;
    var qs := AddAsWritten(ps, catalog, name, id).playlists;
    AddAsWrittenDistinct(ps, catalog, name, id);
    AddTwice(ps, catalog, name, id);
    AddAsWrittenKeepsDistinctNames(ps, catalog, name, id);
    assert qs[k].name == ps[k].name && SameName(qs[k].name, name);
    assert Lookup(catalog, id).value in qs[k].videos;
    AddPresentAsWritten(qs, catalog, name, id, k);
  }

  /**
    When two playlists answer to the name (as the create as written allows),
    the add loop goes past a playlist that already holds the video and adds
    it to the next one, with no "does not exist" notice.
   */
  lemma AddAsWrittenReachesLaterMatch(ps: seq<Playlist>, catalog: seq<Video>, name: string, id: string)
    requires HasId(catalog, id) && |ps| == 2
    requires SameName(ps[0].name, name) && SameName(ps[1].name, name)
    requires Lookup(catalog, id).value in ps[0].videos && Lookup(catalog, id).value !in ps[1].videos
    ensures var v := Lookup(catalog, id).value;
      AddAsWritten(ps, catalog, name, id)
        == NoticeStep([ps[0], Playlist(ps[1].name, ps[1].videos + [v])], [AddAlreadyAdded(ps[0].name), Added(ps[1].name, v)])
  {
    var v := Lookup(catalog, id).value;
    var moved := Playlist(ps[1].name, ps[1].videos + [v]);
    assert ps[1..][0] == ps[1] && ps[1..][1..] == [];
    assert AddLoop(ps[1..], name, v) == AddPass([moved], [Added(ps[1].name, v)], true);
    assert AddLoop(ps, name, v) == AddPass([ps[0], moved], [AddAlreadyAdded(ps[0].name), Added(ps[1].name, v)], true);
  }

  /** The playlist loop of `clear_playlist` as written: it empties every playlist answering to the name. */
  function ClearLoop(ps: seq<Playlist>, name: string): (r: NoticeStep)
    ensures |r.playlists| == |ps|
    ensures forall j :: 0 <= j < |ps| ==>
      r.playlists[j] == if SameName(ps[j].name, name) then Playlist(ps[j].name, []) else ps[j]
  {
    if ps == [] then NoticeStep([], [])
    else
      var rest := ClearLoop(ps[1..], name);
      assert forall j :: 1 <= j < |ps| ==> ps[j] == ps[1..][j - 1];
      if SameName(ps[0].name, name) then
        NoticeStep([Playlist(ps[0].name, [])] + rest.playlists, [Cleared(ps[0].name)] + rest.out)
      else
        NoticeStep([ps[0]] + rest.playlists, rest.out)
  }

  /**
    One "Successfully removed all videos" notice for each playlist answering
    to `name`, in store order: exactly the matching playlists are announced,
    and nothing when there is none.
   */
  function Announced(ps: seq<Playlist>, name: string): (r: seq<Event>)
    ensures forall e :: e in r <==> exists j :: 0 <= j < |ps| && SameName(ps[j].name, name) && e == Cleared(ps[j].name)
    ensures r == [] <==> !Named(ps, name)
  {
    if ps == [] then []
    else
      assert forall j :: 1 <= j < |ps| ==> ps[j] == ps[1..][j - 1];
      assert Named(ps, name) <==> SameName(ps[0].name, name) || Named(ps[1..], name);
      if SameName(ps[0].name, name) then [Cleared(ps[0].name)] + Announced(ps[1..], name)
      else Announced(ps[1..], name)
  }

  /** The clear loop prints one notice per matching playlist, in store order. */
  lemma {:induction false} ClearLoopNotices(ps: seq<Playlist>, name: string)
    ensures ClearLoop(ps, name).out == Announced(ps, name)
  {
    if ps != [] {
      ClearLoopNotices(ps[1..], name);
    }
  }

  /** In a store with distinct names, the clear loop empties only the playlist the corrected clear empties. */
  lemma ClearLoopDistinct(ps: seq<Playlist>, name: string)
    ensures DistinctNames(ps) ==> ClearLoop(ps, name).playlists == Clear(ps, name).playlists
  {
    if DistinctNames(ps) && Named(ps, name) {
      var k := Find(ps, name).value;
      forall j | 0 <= j < |ps| && SameName(ps[j].name, name) ensures j == k {
        FindUnique(ps, name, j);
      }
    }
  }

  /**
    `clear_playlist` as written: every playlist answering to the name is
    emptied and announced, and the error test is on the name being empty,
    not on a playlist being found.
   */
  function ClearAsWritten(ps: seq<Playlist>, name: string): (r: NoticeStep)
    ensures |r.playlists| == |ps|
    ensures forall j :: 0 <= j < |ps| ==>
      r.playlists[j] == if SameName(ps[j].name, name) then Playlist(ps[j].name, []) else ps[j]
    ensures ClearNoPlaylist(name) in r.out <==> name == []
    ensures forall j :: 0 <= j < |ps| && SameName(ps[j].name, name) ==> Cleared(ps[j].name) in r.out
    ensures DistinctNames(ps) ==> r.playlists == Clear(ps, name).playlists
  {
    var pass := ClearLoop(ps, name);
    ClearLoopDistinct(ps, name);
    ClearLoopNotices(ps, name);
    NoticeStep(pass.playlists, pass.out + if name == [] then [ClearNoPlaylist(name)] else [])
  }

  /** Clearing a playlist that does not exist, as written, prints nothing at all. */
  lemma ClearMissingSilent(ps: seq<Playlist>, name: string)
    requires !Named(ps, name) && name != []
    ensures ClearAsWritten(ps, name) == NoticeStep(ps, [])
    ensures Clear(ps, name).event == ClearNoPlaylist(name)
  {
    ClearLoopNotices(ps, name);
    assert ClearLoop(ps, name).playlists == ps;
  }

  /**
    `delete_playlist` as written: the same error test as in `clear_playlist`.
    A matched playlist is popped inside the loop over the dictionary, so the
    loop ends there (by the exception Python raises) and the error test is
    not reached.
   */
  function DeleteAsWritten(ps: seq<Playlist>, name: string): (r: NoticeStep)
    ensures r.playlists == Delete(ps, name).playlists
    ensures DeleteNoPlaylist(name) in r.out <==> name == [] && !Named(ps, name)
  {
    match Find(ps, name)
    case None => NoticeStep(ps, if name == [] then [DeleteNoPlaylist(name)] else [])
    case Some(k) => NoticeStep(ps[..k] + ps[k + 1..], [Deleted(ps[k].name)])
  }

  /** Deleting a playlist that does not exist, as written, prints nothing at all. */
  lemma DeleteMissingSilent(ps: seq<Playlist>, name: string)
    requires !Named(ps, name) && name != []
    ensures DeleteAsWritten(ps, name) == NoticeStep(ps, [])
    ensures Delete(ps, name).event == DeleteNoPlaylist(name)
  {
  }
}
