/**
  The playlist half of the player: named playlists in the order they were
  created (the player keeps them in an insertion-ordered dictionary), each an
  ordered list of library videos. Names are matched with `SameName`. Each
  operation is a function from the playlists before to the playlists after
  together with the one notice it prints; the player class is proved to
  follow these functions.
 */
module Playlists {
  import opened Wrappers
  import opened Catalog
  import opened Names
  import opened Events

  datatype Playlist = Playlist(name: string, videos: seq<Video>)

  /** The playlists an operation leaves and the notice it prints. */
  datatype StoreStep = StoreStep(playlists: seq<Playlist>, event: Event)

  /** No video occurs twice. */
  predicate NoDup(s: seq<Video>)
  {
    forall i, j :: 0 <= i < j < |s| ==> s[i] != s[j]
  }

  /** No two playlists have the same name up to case. */
  predicate DistinctNames(ps: seq<Playlist>)
  {
    forall i, j :: 0 <= i < j < |ps| ==> !SameName(ps[i].name, ps[j].name)
  }

  /** Every playlist holds library videos, none of them twice. */
  predicate Stored(ps: seq<Playlist>, catalog: seq<Video>)
  {
    forall i :: 0 <= i < |ps| ==> NoDup(ps[i].videos) && forall v :: v in ps[i].videos ==> v in catalog
  }

  /** The invariant of the playlist store. */
  predicate Invariant(ps: seq<Playlist>, catalog: seq<Video>)
  {
    DistinctNames(ps) && Stored(ps, catalog)
  }

  /** Some playlist answers to this name. */
  predicate Named(ps: seq<Playlist>, name: string)
  {
    exists i :: 0 <= i < |ps| && SameName(ps[i].name, name)
  }

  /** The position of the first playlist answering to `name`, if any. */
  function Find(ps: seq<Playlist>, name: string): (r: Option<nat>)
    ensures r.None? <==> !Named(ps, name)
    ensures r.Some? ==> r.value < |ps| && SameName(ps[r.value].name, name)
    ensures r.Some? ==> forall j :: 0 <= j < r.value ==> !SameName(ps[j].name, name)
  {
    if ps == [] then None
    else if SameName(ps[0].name, name) then Some(0)
    else
      match Find(ps[1..], name)
      case None =>
        assert !Named(ps, name) by {
          forall i | 0 <= i < |ps| ensures !SameName(ps[i].name, name) {
            if i > 0 { assert ps[1..][i - 1] == ps[i]; }
          }
        }
        None
      case Some(k) =>
        assert ps[1..][k] == ps[k + 1];
        assert forall j :: 1 <= j < k + 1 ==> ps[1..][j - 1] == ps[j];
        Some(k + 1)
  }

  /** In a store with distinct names, the playlist at `i` is the one found for any name it answers to. */
  lemma FindUnique(ps: seq<Playlist>, name: string, i: nat)
    requires DistinctNames(ps)
    requires i < |ps| && SameName(ps[i].name, name)
    ensures Find(ps, name) == Some(i)
  {
  }

  /**
    The playlist scan the player runs for every playlist operation: walk the
    playlists in order and stop at the one whose name matches.
   */
  method Scan(ps: seq<Playlist>, name: string) returns (r: Option<nat>)
    ensures r == Find(ps, name)
  {
    var k := 0;
    while k < |ps|
      invariant 0 <= k <= |ps|
      invariant forall j :: 0 <= j < k ==> !SameName(ps[j].name, name)
    {
      if SameName(ps[k].name, name) {
        return Some(k);
      }
      k := k + 1;
    }
    return None;
  }

  /** The position of the first occurrence of `v` in `s`. */
  function IndexOf(s: seq<Video>, v: Video): (k: nat)
    requires v in s
    ensures k < |s| && s[k] == v && v !in s[..k]
  {
    if s[0] == v then 0
    else
      var k := IndexOf(s[1..], v);
      assert s[..k + 1] == [s[0]] + s[1..][..k];
      k + 1
  }

  /** Dropping position `k` takes exactly one copy of `s[k]` out of the multiset of `s`. */
  lemma DropCounts(s: seq<Video>, k: nat)
    requires k < |s|
    ensures multiset(s[..k] + s[k + 1..]) == multiset(s) - multiset{s[k]}
  {
    assert s == s[..k] + [s[k]] + s[k + 1..];
    assert multiset(s) == multiset(s[..k]) + multiset{s[k]} + multiset(s[k + 1..]);
  }

  /** Dropping position `k` of a list without duplicates leaves one without duplicates and without `s[k]`. */
  lemma DropKeepsNoDup(s: seq<Video>, k: nat)
    requires k < |s| && NoDup(s)
    ensures NoDup(s[..k] + s[k + 1..]) && s[k] !in s[..k] + s[k + 1..]
  {
  }

  /** `s` without the first occurrence of `v`, as Python's `list.remove` leaves it. */
  function RemoveFirst(s: seq<Video>, v: Video): (r: seq<Video>)
    requires v in s
    ensures |r| == |s| - 1
    ensures multiset(r) == multiset(s) - multiset{v}
    ensures forall x :: x in r ==> x in s
    ensures NoDup(s) ==> NoDup(r) && v !in r
    ensures exists k :: 0 <= k < |s| && s[k] == v && v !in s[..k] && r == s[..k] + s[k + 1..]
  {
    var k := IndexOf(s, v);
    DropCounts(s, k);
    if NoDup(s) then
      DropKeepsNoDup(s, k);
      s[..k] + s[k + 1..]
    else
      s[..k] + s[k + 1..]
  }

  /**
    Create an empty playlist. A name already taken up to case is refused and
    changes nothing; otherwise exactly one playlist is added, at the end,
    and the others are untouched.
   */
  function Create(ps: seq<Playlist>, name: string): (r: StoreStep)
    ensures Named(ps, name) ==> r == StoreStep(ps, CreateNameTaken)
    ensures !Named(ps, name) ==>
      |r.playlists| == |ps| + 1 && r.playlists[..|ps|] == ps
      && r.playlists[|ps|] == Playlist(name, []) && r.event == Created(name)
    ensures DistinctNames(ps) ==> DistinctNames(r.playlists)
    ensures forall catalog :: Stored(ps, catalog) ==> Stored(r.playlists, catalog)
  {
    match Find(ps, name)
    case Some(_) => StoreStep(ps, CreateNameTaken)
    case None =>
      var qs := ps + [Playlist(name, [])];
      assert forall i :: 0 <= i < |ps| ==> qs[i] == ps[i];
      StoreStep(qs, Created(name))
  }

  /**
    Add the library video `id` to the playlist answering to `name`. The video
    is appended at the end only when it is not there already; an unknown
    video or playlist changes nothing, and no other playlist changes.
   */
  function AddVideo(ps: seq<Playlist>, catalog: seq<Video>, name: string, id: string): (r: StoreStep)
    ensures !HasId(catalog, id) ==> r == StoreStep(ps, AddNoVideo(name))
    ensures HasId(catalog, id) && !Named(ps, name) ==> r == StoreStep(ps, AddNoPlaylist(name))
    ensures |r.playlists| == |ps|
    ensures forall k :: 0 <= k < |ps| ==> r.playlists[k].name == ps[k].name
    ensures forall k :: 0 <= k < |ps| && Find(ps, name) != Some(k) ==> r.playlists[k] == ps[k]
    ensures HasId(catalog, id) && Named(ps, name) ==>
      var k, v := Find(ps, name).value, Lookup(catalog, id).value;
      if v in ps[k].videos then
        r.playlists[k] == ps[k] && r.event == AddAlreadyAdded(ps[k].name)
      else
        r.playlists[k].videos == ps[k].videos + [v] && r.event == Added(ps[k].name, v)
    ensures Invariant(ps, catalog) ==> Invariant(r.playlists, catalog)
  {
    match Lookup(catalog, id)
    case None => StoreStep(ps, AddNoVideo(name))
    case Some(v) =>
      match Find(ps, name)
      case None => StoreStep(ps, AddNoPlaylist(name))
      case Some(k) =>
        if v in ps[k].videos then StoreStep(ps, AddAlreadyAdded(ps[k].name))
        else
          var qs := ps[k := Playlist(ps[k].name, ps[k].videos + [v])];
          assert Invariant(ps, catalog) ==> NoDup(qs[k].videos) by {
            var s := ps[k].videos + [v];
            assert forall i :: 0 <= i < |ps[k].videos| ==> s[i] == ps[k].videos[i];
          }
          StoreStep(qs, Added(ps[k].name, v))
  }

  /**
    Remove the library video `id` from the playlist answering to `name`. The
    video is removed only when it is in the playlist; an unknown video or
    playlist changes nothing, and no other playlist changes.
   */
  function RemoveVideo(ps: seq<Playlist>, catalog: seq<Video>, name: string, id: string): (r: StoreStep)
    ensures !HasId(catalog, id) ==> r == StoreStep(ps, RemoveNoVideo(name))
    ensures HasId(catalog, id) && !Named(ps, name) ==> r == StoreStep(ps, RemoveNoPlaylist(name))
    ensures |r.playlists| == |ps|
    ensures forall k :: 0 <= k < |ps| ==> r.playlists[k].name == ps[k].name
    ensures forall k :: 0 <= k < |ps| && Find(ps, name) != Some(k) ==> r.playlists[k] == ps[k]
    ensures HasId(catalog, id) && Named(ps, name) ==>
      var k, v := Find(ps, name).value, Lookup(catalog, id).value;
      if v in ps[k].videos then
        r.playlists[k].videos == RemoveFirst(ps[k].videos, v) && r.event == Removed(ps[k].name, v)
      else
        r.playlists[k] == ps[k] && r.event == RemoveNotInPlaylist(ps[k].name)
    ensures Invariant(ps, catalog) ==> Invariant(r.playlists, catalog)
  {
    match Lookup(catalog, id)
    case None => StoreStep(ps, RemoveNoVideo(name))
    case Some(v) =>
      match Find(ps, name)
      case None => StoreStep(ps, RemoveNoPlaylist(name))
      case Some(k) =>
        if v in ps[k].videos then
          StoreStep(ps[k := Playlist(ps[k].name, RemoveFirst(ps[k].videos, v))], Removed(ps[k].name, v))
        else StoreStep(ps, RemoveNotInPlaylist(ps[k].name))
  }

  /**
    Empty the playlist answering to `name`. The playlist stays, under its
    name and at its place; every other playlist is untouched.
   */
  function Clear(ps: seq<Playlist>, name: string): (r: StoreStep)
    ensures !Named(ps, name) ==> r == StoreStep(ps, ClearNoPlaylist(name))
    ensures |r.playlists| == |ps|
    ensures forall k :: 0 <= k < |ps| ==> r.playlists[k].name == ps[k].name
    ensures forall k :: 0 <= k < |ps| && Find(ps, name) != Some(k) ==> r.playlists[k] == ps[k]
    ensures Named(ps, name) ==>
      var k := Find(ps, name).value;
      r.playlists[k].videos == [] && r.event == Cleared(ps[k].name)
    ensures forall catalog :: Invariant(ps, catalog) ==> Invariant(r.playlists, catalog)
  {
    match Find(ps, name)
    case None => StoreStep(ps, ClearNoPlaylist(name))
    case Some(k) => StoreStep(ps[k := Playlist(ps[k].name, [])], Cleared(ps[k].name))
  }

  /** Dropping the playlist at `k` keeps exactly the playlists that do not answer to its name. */
  lemma DropPlaylist(ps: seq<Playlist>, name: string, k: nat)
    requires DistinctNames(ps) && k < |ps| && SameName(ps[k].name, name)
    ensures forall p :: p in ps[..k] + ps[k + 1..] <==> p in ps && !SameName(p.name, name)
  {
  }

  /** Dropping any one playlist keeps the store invariant. */
  lemma DropKeepsInvariant(ps: seq<Playlist>, k: nat)
    requires k < |ps|
    ensures DistinctNames(ps) ==> DistinctNames(ps[..k] + ps[k + 1..])
    ensures forall catalog :: Stored(ps, catalog) ==> Stored(ps[..k] + ps[k + 1..], catalog)
  {
  }

  /**
    Delete the playlist answering to `name`. Exactly that playlist goes; the
    others keep their contents and their order.
   */
  function Delete(ps: seq<Playlist>, name: string): (r: StoreStep)
    ensures !Named(ps, name) ==> r == StoreStep(ps, DeleteNoPlaylist(name))
    ensures Named(ps, name) ==>
      var k := Find(ps, name).value;
      r.playlists == ps[..k] + ps[k + 1..] && r.event == Deleted(ps[k].name)
    ensures DistinctNames(ps) ==>
      forall p :: p in r.playlists <==> p in ps && !SameName(p.name, name)
    ensures forall catalog :: Invariant(ps, catalog) ==> Invariant(r.playlists, catalog)
  {
    match Find(ps, name)
    case None => StoreStep(ps, DeleteNoPlaylist(name))
    case Some(k) =>
      DropKeepsInvariant(ps, k);
      if DistinctNames(ps) then
        DropPlaylist(ps, name, k);
        StoreStep(ps[..k] + ps[k + 1..], Deleted(ps[k].name))
      else
        StoreStep(ps[..k] + ps[k + 1..], Deleted(ps[k].name))
  }

  /** What `show_playlist` reports: the playlist answering to `name`, if there is one. */
  function Show(ps: seq<Playlist>, name: string): (r: Option<Playlist>)
    ensures r.Some? <==> Named(ps, name)
    ensures r.Some? ==> r.value in ps && SameName(r.value.name, name)
  {
    match Find(ps, name)
    case None => None
    case Some(k) => Some(ps[k])
  }

  /** Creating two names that differ only in case: the second is refused. */
  lemma CreateIgnoresCase(ps: seq<Playlist>, first: string, second: string)
    requires SameName(first, second)
    ensures var qs := Create(ps, first).playlists;
      Create(qs, second) == StoreStep(qs, CreateNameTaken)
  {
  }

  /** Adding the same video twice: the second add is refused and changes nothing. */
  lemma AddTwice(ps: seq<Playlist>, catalog: seq<Video>, name: string, id: string)
    requires HasId(catalog, id) && Named(ps, name)
    ensures var qs := AddVideo(ps, catalog, name, id).playlists;
      AddVideo(qs, catalog, name, id) == StoreStep(qs, AddAlreadyAdded(ps[Find(ps, name).value].name))
  {
  }

  /** Removing the same video twice: the second removal finds it gone and changes nothing. */
  lemma RemoveTwice(ps: seq<Playlist>, catalog: seq<Video>, name: string, id: string)
    requires Invariant(ps, catalog) && HasId(catalog, id) && Named(ps, name)
    ensures var qs := RemoveVideo(ps, catalog, name, id).playlists;
      RemoveVideo(qs, catalog, name, id) == StoreStep(qs, RemoveNotInPlaylist(ps[Find(ps, name).value].name))
  {
  }

  /** After a playlist is deleted, every operation that names it finds no such playlist. */
  lemma DeleteForgets(ps: seq<Playlist>, catalog: seq<Video>, name: string, other: string, id: string)
    requires DistinctNames(ps) && SameName(name, other)
    ensures var qs := Delete(ps, name).playlists;
      !Named(qs, other)
      && Show(qs, other) == None
      && Clear(qs, other) == StoreStep(qs, ClearNoPlaylist(other))
      && Delete(qs, other) == StoreStep(qs, DeleteNoPlaylist(other))
      && (HasId(catalog, id) ==> AddVideo(qs, catalog, other, id) == StoreStep(qs, AddNoPlaylist(other)))
      && (HasId(catalog, id) ==> RemoveVideo(qs, catalog, other, id) == StoreStep(qs, RemoveNoPlaylist(other)))
  {
  }

  /** Two different library videos have different ids. */
  lemma DistinctVideosDistinctIds(catalog: seq<Video>, v: Video, w: Video)
    requires UniqueIds(catalog) && v in catalog && w in catalog && v != w
    ensures v.id != w.id
  {
  }

  /** In a library with unique ids, no playlist holds two videos with the same id. */
  lemma NoDuplicateIds(ps: seq<Playlist>, catalog: seq<Video>, i: nat, a: nat, b: nat)
    requires Stored(ps, catalog) && UniqueIds(catalog)
    requires i < |ps| && a < b < |ps[i].videos|
    ensures ps[i].videos[a].id != ps[i].videos[b].id
  {
    var s := ps[i].videos;
    assert s[a] in s && s[b] in s;
    DistinctVideosDistinctIds(catalog, s[a], s[b]);
  }
}
