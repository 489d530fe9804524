/**
  The video library the player reads from. The library itself is a separate
  module of the repository that loads its videos once; here it is a fixed
  sequence of videos, and `Lookup` stands for its `get_video`.
 */
module Catalog {
  import opened Wrappers

  datatype Video = Video(id: string, title: string, tags: seq<string>)

  /** No two videos of the library share an id. */
  predicate UniqueIds(catalog: seq<Video>)
  {
    forall i, j :: 0 <= i < j < |catalog| ==> catalog[i].id != catalog[j].id
  }

  /** Some video of the library carries this id. */
  predicate HasId(catalog: seq<Video>, id: string)
  {
    exists i :: 0 <= i < |catalog| && catalog[i].id == id
  }

  /** The video with the given id (the first one, should ids repeat), if any. */
  function Lookup(catalog: seq<Video>, id: string): (r: Option<Video>)
    ensures r.Some? <==> HasId(catalog, id)
    ensures r.Some? ==> r.value in catalog && r.value.id == id
  {
    if catalog == [] then None
    else if catalog[0].id == id then Some(catalog[0])
    else
      var r := Lookup(catalog[1..], id);
      assert HasId(catalog, id) ==> HasId(catalog[1..], id) by {
        if HasId(catalog, id) {
          var i :| 0 <= i < |catalog| && catalog[i].id == id;
          assert catalog[1..][i - 1].id == id;
        }
      }
      assert HasId(catalog[1..], id) ==> HasId(catalog, id) by {
        if HasId(catalog[1..], id) {
          var i :| 0 <= i < |catalog[1..]| && catalog[1..][i].id == id;
          assert catalog[i + 1].id == id;
        }
      }
      r
  }

  /** With unique ids, looking up the id of any video of the library finds that very video. */
  lemma LookupFindsVideo(catalog: seq<Video>, i: nat)
    requires UniqueIds(catalog)
    requires i < |catalog|
    ensures Lookup(catalog, catalog[i].id) == Some(catalog[i])
  {
  }

  /**
    The list of ids the player builds from the library before every lookup,
    in library order.
   */
  method VideoIds(catalog: seq<Video>) returns (ids: seq<string>)
    ensures |ids| == |catalog|
    ensures forall i :: 0 <= i < |ids| ==> ids[i] == catalog[i].id
    ensures forall id :: id in ids <==> Lookup(catalog, id).Some?
  {
    ids := [];
    for k := 0 to |catalog|
      invariant |ids| == k
      invariant forall i :: 0 <= i < k ==> ids[i] == catalog[i].id
    {
      ids := ids + [catalog[k].id];
    }
    forall id
      ensures id in ids <==> HasId(catalog, id)
    {
      if id in ids {
        var i :| 0 <= i < |ids| && ids[i] == id;
        assert catalog[i].id == id;
      }
      if HasId(catalog, id) {
        var i :| 0 <= i < |catalog| && catalog[i].id == id;
        assert ids[i] == id;
      }
    }
  }
}
