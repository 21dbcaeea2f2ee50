/**
 * `VideoService`: the catalog of accepted videos, a dictionary from id to video
 * that it owns and updates in place.
 */
module Catalog {
  import opened Wrappers
  import opened Text
  import opened Ordered
  import opened Models
  import Config
  import Validation

  /** `list_videos`'s owner filter: `None` and `""` select every video. */
  predicate OwnerMatches(v: Video, ownerId: Option<string>) {
    ownerId.None? || ownerId.value == [] || v.ownerId == ownerId.value
  }

  /** `search_videos`'s test, with the query already lower-cased. */
  predicate MatchesQuery(v: Video, queryLower: string) {
    Contains(Lower(v.title), queryLower) || Contains(Lower(v.description), queryLower)
  }

  function OwnerTest(ownerId: Option<string>): Video -> bool {
    (v: Video) => OwnerMatches(v, ownerId)
  }

  function QueryTest(queryLower: string): Video -> bool {
    (v: Video) => MatchesQuery(v, queryLower)
  }

  /** Most recent first: no video is older than the one after it. */
  predicate NewestFirst(vs: seq<Video>) {
    forall i :: 0 < i < |vs| ==> vs[i - 1].createdAt >= vs[i].createdAt
  }

  /** Newest-first order compares every pair, not only neighbours. */
  lemma {:induction false} NewestFirstAllPairs(vs: seq<Video>, i: int, j: int)
    requires NewestFirst(vs) && 0 <= i <= j < |vs|
    ensures vs[i].createdAt >= vs[j].createdAt
    decreases j - i
  {
    if i < j {
      NewestFirstAllPairs(vs, i + 1, j);
    }
  }

  /** Puts `x` into newest-first `vs` before the first video that is not newer
      than it, so that it stays ahead of videos with the same time. */
  function InsertNewest(x: Video, vs: seq<Video>): (r: seq<Video>)
    requires NewestFirst(vs)
    ensures NewestFirst(r)
    ensures |r| == |vs| + 1 && (r[0] == x || (vs != [] && r[0] == vs[0]))
    ensures multiset(r) == multiset(vs) + multiset{x}
  {
    if vs == [] || vs[0].createdAt <= x.createdAt then
      [x] + vs
    else
      var rest := InsertNewest(x, vs[1..]);
      assert vs == [vs[0]] + vs[1..];
      [vs[0]] + rest
  }

  /** Inserting a new video into distinct videos keeps them distinct. */
  lemma {:induction false} InsertNewestNoDup(x: Video, vs: seq<Video>)
    requires NewestFirst(vs) && x !in vs && NoDup(vs)
    ensures NoDup(InsertNewest(x, vs))
  {
    if vs == [] || vs[0].createdAt <= x.createdAt {
      PrependNoDup(x, vs);
    } else {
      var rest := InsertNewest(x, vs[1..]);
      assert vs == [vs[0]] + vs[1..];
      InsertNewestNoDup(x, vs[1..]);
      assert vs[0] !in multiset(rest);
      PrependNoDup(vs[0], rest);
    }
  }

  /** `sorted(vs, key=created_at, reverse=True)`: a stable insertion sort. The
      result holds the same videos, as often as `vs` does, newest first. */
  function SortNewestFirst(vs: seq<Video>): (r: seq<Video>)
    ensures NewestFirst(r)
    ensures multiset(r) == multiset(vs)
  {
    if vs == [] then []
    else
      assert vs == [vs[0]] + vs[1..];
      InsertNewest(vs[0], SortNewestFirst(vs[1..]))
  }

  /** Sorting keeps a property every video has. */
  lemma SortKeepsTest(vs: seq<Video>, p: Video -> bool)
    requires forall i :: 0 <= i < |vs| ==> p(vs[i])
    ensures forall i :: 0 <= i < |SortNewestFirst(vs)| ==> p(SortNewestFirst(vs)[i])
  {
    var r := SortNewestFirst(vs);
    forall i | 0 <= i < |r| ensures p(r[i]) {
      assert r[i] in multiset(vs);
    }
  }

  /** Sorting loses no video. */
  lemma SortKeepsMember(vs: seq<Video>, x: Video)
    requires x in vs
    ensures x in SortNewestFirst(vs)
  {
    assert x in multiset(SortNewestFirst(vs));
  }

  /** Sorting distinct videos gives distinct videos. */
  lemma {:induction false} SortNewestFirstNoDup(vs: seq<Video>)
    requires NoDup(vs)
    ensures NoDup(SortNewestFirst(vs))
  {
    if vs != [] {
      var rest := SortNewestFirst(vs[1..]);
      assert vs == [vs[0]] + vs[1..];
      SortNewestFirstNoDup(vs[1..]);
      assert vs[0] !in multiset(rest);
      InsertNewestNoDup(vs[0], rest);
    }
  }

  /** An extension-valid file name is one whose `extension` is allowed, since a
      name without a dot has the empty extension and that is not allowed. */
  lemma ExtensionCheckAgrees(v: Video)
    ensures Validation.ValidateFileExtension(v.filename) <==> v.Extension() in Config.AllowedExtensions
  {
    var f, e := v.filename, v.Extension();
    if '.' in f {
      var i :| IsLastDot(f, i) && e == Lower(f[i + 1..]);
    }
  }

  /** The body of `list_videos` on the stored videos: those of the owner, newest
      first. */
  function OwnedNewestFirst(stored: seq<Video>, ownerId: Option<string>): (r: seq<Video>)
    ensures multiset(r) <= multiset(stored)
    ensures forall i :: 0 <= i < |r| ==> OwnerMatches(r[i], ownerId)
    ensures forall i :: 0 <= i < |stored| && OwnerMatches(stored[i], ownerId) ==> stored[i] in r
    ensures NewestFirst(r)
  {
    var p := OwnerTest(ownerId);
    var selected := Filter(stored, p);
    var r := SortNewestFirst(selected);
    SortKeepsTest(selected, p);
    assert forall i :: 0 <= i < |stored| && p(stored[i]) ==> stored[i] in r by {
      forall i | 0 <= i < |stored| && p(stored[i]) ensures stored[i] in r {
        SortKeepsMember(selected, stored[i]);
      }
    }
    r
  }

  /** Listing distinct videos gives distinct videos. */
  lemma OwnedNewestFirstNoDup(stored: seq<Video>, ownerId: Option<string>)
    requires NoDup(stored)
    ensures NoDup(OwnedNewestFirst(stored, ownerId))
  {
    var p := OwnerTest(ownerId);
    FilterNoDup(stored, p);
    SortNewestFirstNoDup(Filter(stored, p));
  }

  /** The body of `search_videos` on the stored videos: those whose lower-cased
      title or description contains the lower-cased query, in stored order. */
  function Matching(stored: seq<Video>, query: string): (r: seq<Video>)
    ensures multiset(r) <= multiset(stored)
    ensures forall i :: 0 <= i < |r| ==>
              Occurs(Lower(query), Lower(r[i].title)) || Occurs(Lower(query), Lower(r[i].description))
    ensures forall i :: 0 <= i < |stored| ==>
              (Occurs(Lower(query), Lower(stored[i].title)) || Occurs(Lower(query), Lower(stored[i].description))
               ==> stored[i] in r)
  {
    Filter(stored, QueryTest(Lower(query)))
  }

  /** Searching distinct videos gives distinct videos. */
  lemma MatchingNoDup(stored: seq<Video>, query: string)
    requires NoDup(stored)
    ensures NoDup(Matching(stored, query))
  {
    FilterNoDup(stored, QueryTest(Lower(query)));
  }

  /** Every video is stored under its own id and has an accepted file name. */
  predicate WellKeyed(videos: map<string, Video>) {
    forall id :: id in videos ==>
      videos[id].id == id && Validation.ValidateFileExtension(videos[id].filename)
  }

  /** Storing an accepted video under its own id keeps the catalog well keyed. */
  lemma StoringKeepsWellKeyed(videos: map<string, Video>, v: Video)
    requires WellKeyed(videos) && Validation.ValidateFileExtension(v.filename)
    ensures WellKeyed(videos[v.id := v])
  {
    var videos' := videos[v.id := v];
    forall id | id in videos'
      ensures videos'[id].id == id && Validation.ValidateFileExtension(videos'[id].filename)
    {
      if id != v.id {
        assert videos'[id] == videos[id];
      }
    }
  }

  class VideoService {
    /** `_videos` */
    var videos: map<string, Video>
    /** The keys of `_videos` in insertion order. */
    var order: seq<string>

    /** Every video is stored under its own id and passed the extension check. */
    ghost predicate Valid()
      reads this
    {
      && KeysInOrder(order, videos)
      && WellKeyed(videos)
    }

    constructor ()
      ensures Valid() && videos == map[] && order == []
    {
      videos := map[];
      order := [];
    }

    /** `self._videos.values()`: every stored video once, in insertion order. */
    function Stored(): (vs: seq<Video>)
      reads this
      requires Valid()
      ensures forall i :: 0 <= i < |vs| ==> vs[i] in videos.Values
      ensures forall id :: id in videos ==> videos[id] in vs
      ensures NoDup(vs)
    {
      ValuesInOrderAreValues(order, videos);
      ValuesInOrder(order, videos)
    }

    /** `add_video`: refuses a file name that fails the extension check and then
        changes nothing; otherwise stores the video under its id, replacing an
        entry with that id in place or adding a new one at the end. */
    method AddVideo(v: Video) returns (r: Result<Video, Error>)
      requires Valid()
      modifies this
      ensures Valid()
      ensures !Validation.ValidateFileExtension(v.filename) ==>
                r == Failure(UnsupportedExtension(v.Extension()))
                && videos == old(videos) && order == old(order)
      ensures Validation.ValidateFileExtension(v.filename) ==>
                r == Success(v) && videos == old(videos)[v.id := v]
                && order == (if v.id in old(videos) then old(order) else old(order) + [v.id])
      ensures Validation.ValidateFileExtension(v.filename) ==> GetVideo(v.id) == Some(v)
    {
      if !Validation.ValidateFileExtension(v.filename) {
        return Failure(UnsupportedExtension(v.Extension()));
      }
      StoringKeepsWellKeyed(videos, v);
      PutKeepsKeysInOrder(order, videos, v.id, v);
      if v.id !in videos {
        order := order + [v.id];
      }
      videos := videos[v.id := v];
      r := Success(v);
    }

    /** `get_video`: the video stored under `id`, if any; what it returns carries
        that id and an accepted extension. */
    function GetVideo(id: string): (r: Option<Video>)
      reads this
      requires Valid()
      ensures r.Some? <==> id in videos
      ensures r.Some? ==> r.value == videos[id] && r.value.id == id
                          && Validation.ValidateFileExtension(r.value.filename)
    {
      if id in videos then Some(videos[id]) else None
    }

    /** `list_videos`: exactly the stored videos of the owner (all of them when
        no owner is given), each once, newest first. */
    function ListVideos(ownerId: Option<string>): (r: seq<Video>)
      reads this
      requires Valid()
      ensures forall i :: 0 <= i < |r| ==> r[i] in videos.Values && OwnerMatches(r[i], ownerId)
      ensures forall id :: id in videos && OwnerMatches(videos[id], ownerId) ==> videos[id] in r
      ensures NoDup(r)
      ensures NewestFirst(r)
    {
      var stored := Stored();
      var r := OwnedNewestFirst(stored, ownerId);
      OwnedNewestFirstNoDup(stored, ownerId);
      InStored(stored, r);
      assert forall id :: id in videos && OwnerMatches(videos[id], ownerId) ==> videos[id] in r by {
        forall id | id in videos && OwnerMatches(videos[id], ownerId) ensures videos[id] in r {
          var i :| 0 <= i < |stored| && stored[i] == videos[id];
        }
      }
      r
    }

    /** `delete_video`: reports whether `id` was present and removes it; every
        other entry stays as it was. */
    method DeleteVideo(id: string) returns (removed: bool)
      requires Valid()
      modifies this
      ensures Valid()
      ensures removed == (id in old(videos))
      ensures videos == old(videos) - {id} && id !in videos
      ensures order == RemoveKey(old(order), id)
    {
      removed := id in videos;
      if removed {
        videos := videos - {id};
      }
      order := RemoveKey(order, id);
    }

    /** `search_videos`: exactly the stored videos whose lower-cased title or
        description contains the lower-cased query, each once, in insertion
        order. */
    function SearchVideos(query: string): (r: seq<Video>)
      reads this
      requires Valid()
      ensures forall i :: 0 <= i < |r| ==>
                r[i] in videos.Values
                && (Occurs(Lower(query), Lower(r[i].title)) || Occurs(Lower(query), Lower(r[i].description)))
      ensures forall id :: id in videos ==>
                (Occurs(Lower(query), Lower(videos[id].title)) || Occurs(Lower(query), Lower(videos[id].description))
                 ==> videos[id] in r)
      ensures NoDup(r)
    {
      var stored := Stored();
      var r := Matching(stored, query);
      MatchingNoDup(stored, query);
      InStored(stored, r);
      assert forall id :: id in videos ==>
               (Occurs(Lower(query), Lower(videos[id].title)) || Occurs(Lower(query), Lower(videos[id].description))
                ==> videos[id] in r) by {
        forall id | id in videos ensures
          Occurs(Lower(query), Lower(videos[id].title)) || Occurs(Lower(query), Lower(videos[id].description))
          ==> videos[id] in r
        {
          var i :| 0 <= i < |stored| && stored[i] == videos[id];
        }
      }
      r
    }

    /** What is drawn from the stored videos is stored. */
    lemma InStored(stored: seq<Video>, r: seq<Video>)
      requires forall i :: 0 <= i < |stored| ==> stored[i] in videos.Values
      requires multiset(r) <= multiset(stored)
      ensures forall i :: 0 <= i < |r| ==> r[i] in videos.Values
    {
      forall i | 0 <= i < |r| ensures r[i] in videos.Values {
        assert r[i] in multiset(stored);
      }
    }

    /** `watch_video`: for a stored id, adds one view to that very video object
        and returns it; other videos and the catalog do not change. For an
        unknown id it returns nothing and changes nothing. */
    method WatchVideo(id: string) returns (r: Option<Video>)
      requires Valid()
      modifies if id in videos then {videos[id]} else {}
      ensures Valid()
      ensures r == GetVideo(id)
      ensures r.Some? ==> r.value.views == old(r.value.views) + 1
      ensures forall k :: k in videos && k != id ==> videos[k].views == old(videos[k].views)
    {
      r := GetVideo(id);
      if r.Some? {
        r.value.IncrementViews();
      }
    }
  }
}
