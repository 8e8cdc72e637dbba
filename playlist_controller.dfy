/** The playlist handlers of backend/src/controllers/playlist.controller.js.
    None of them checks that the caller owns the playlist it changes, and
    none checks that a video id names an existing video. */
module PlaylistController {
  import opened Common
  import opened Records
  import opened Pipeline
  import opened Pagination
  import Store
  import Database


  function PlaylistWithId(playlistId: Id): Playlist -> bool {
    (pl: Playlist) => pl.id == playlistId
  }

  // ------------------------------------------------------------ createPlaylist

  /** `createPlaylist`: a new, empty playlist owned by the caller. Its
      empty `videos` array is the index key `undefined`, so the insert fails
      with a duplicate key while another playlist is empty. */
  method CreatePlaylist(db: Database.Db, caller: Id, name: Option<string>, description: Option<string>,
                        newId: Id, now: nat) returns (r: Result<Playlist>)
    requires db.Valid() && !Store.HasId(db.playlists, PlaylistIdOf, newId)
    modifies db`playlists
    ensures db.Valid()
    ensures r.Err? <==> !Truthy(name) || !Truthy(description) || exists pl :: pl in old(db.playlists) && pl.videos == []
    ensures !Truthy(name) || !Truthy(description) ==> r == Err(ApiError(400, "all fields are required"))
    ensures Truthy(name) && Truthy(description) && r.Err? ==> r == Err(Crash(DuplicateKey))
    ensures r.Err? ==> db.playlists == old(db.playlists)
    ensures r.Ok? ==> r.value == Playlist(newId, name.value, description.value, [], caller, now) &&
                      db.playlists == old(db.playlists) + [r.value]
  {
    if !Truthy(name) || !Truthy(description) {
      return Err(ApiError(400, "all fields are required"));
    }
    var playlist := Playlist(newId, name.value, description.value, [], caller, now);
    InsertEmptyRefusedMeans(db.playlists);
    if InsertRefused(db.playlists, playlist.videos) {
      return Err(Crash(DuplicateKey));
    }
    Store.UniqueAppend(db.playlists, PlaylistIdOf, playlist);
    InsertKeepsUnique(db.playlists, playlist);
    db.playlists := db.playlists + [playlist];
    return Ok(playlist);
  }

  // ----------------------------------------------------------- getPlaylistById

  /** `getPlaylistById`. */
  function GetPlaylistById(playlists: seq<Playlist>, playlistId: Id): (r: Result<Playlist>)
    ensures !IsValidObjectId(playlistId) ==> r == Err(ApiError(400, "playlistId is wrong"))
    ensures r.Ok? <==> IsValidObjectId(playlistId) && exists j :: 0 <= j < |playlists| && playlists[j].id == playlistId
    ensures r.Ok? ==> r.value in playlists && r.value.id == playlistId
    ensures r.Err? && IsValidObjectId(playlistId) ==> r == Err(ApiError(400, "Playlist does not exists"))
  {
    if !IsValidObjectId(playlistId) then Err(ApiError(400, "playlistId is wrong"))
    else
      match Store.FindById(playlists, PlaylistIdOf, playlistId)
      case Some(pl) => Ok(pl)
      case None => Err(ApiError(400, "Playlist does not exists"))
  }

  // ---------------------------------------------------------- getUserPlaylists

  /** One row: `name`, `description`, `createdAt` and `totalVideos`, the
      size of the `videos` array. */
  datatype PlaylistRow = PlaylistRow(id: Id, name: string, description: string, createdAt: nat, totalVideos: nat)

  datatype PlaylistList = PlaylistList(playlists: seq<PlaylistRow>, pagination: PageInfo)

  function RowOf(pl: Playlist): (row: PlaylistRow)
    ensures row.id == pl.id && row.totalVideos == |pl.videos| && row.createdAt == pl.createdAt
    ensures row.name == pl.name && row.description == pl.description
  {
    PlaylistRow(pl.id, pl.name, pl.description, pl.createdAt, |pl.videos|)
  }

  function OwnedBy(playlists: seq<Playlist>, owner: Id): (r: seq<Playlist>)
    ensures forall pl :: pl in r <==> pl in playlists && pl.owner == owner
  {
    Filter(playlists, (pl: Playlist) => pl.owner == owner)
  }

  function RowCreatedAt(): PlaylistRow -> int {
    (row: PlaylistRow) => row.createdAt
  }

  /** The caller's playlists as rows, newest first. */
  function UserListing(playlists: seq<Playlist>, owner: Id): (s: seq<PlaylistRow>)
    ensures |s| == |OwnedBy(playlists, owner)|
    ensures forall pl :: pl in playlists && pl.owner == owner ==> RowOf(pl) in s
    ensures forall row :: row in s ==> exists pl :: pl in playlists && pl.owner == owner && row == RowOf(pl)
    ensures SortedDesc(s, RowCreatedAt())
  {
    var owned := OwnedBy(playlists, owner);
    var rows := Map(owned, RowOf);
    assert forall pl :: pl in owned ==> RowOf(pl) in rows by {
      forall pl | pl in owned ensures RowOf(pl) in rows {
        var k :| 0 <= k < |owned| && owned[k] == pl;
        assert rows[k] == RowOf(pl);
      }
    }
    SortDesc(rows, RowCreatedAt())
  }

  /** `getUserPlaylists`: one page of the caller's playlists, newest first,
      and the count of all of them. */
  function GetUserPlaylists(playlists: seq<Playlist>, caller: Id, page: Option<int>, limit: Option<int>): (r: Result<PlaylistList>)
    ensures !IsValidObjectId(caller) ==> r == Err(ApiError(400, "userId not available"))
    ensures r.Ok? <==> IsValidObjectId(caller) && Paginate(page, limit).limitNumber >= 1
    ensures r.Ok? ==>
              var p := Paginate(page, limit);
              var rows := r.value.playlists;
              |rows| <= p.limitNumber &&
              (forall row :: row in rows ==> exists pl :: pl in playlists && pl.owner == caller && row == RowOf(pl)) &&
              SortedDesc(rows, RowCreatedAt()) &&
              r.value.pagination == Envelope(|OwnedBy(playlists, caller)|, p)
    ensures r.Ok? ==>
              var p := Paginate(page, limit);
              r.value.playlists == Window(UserListing(playlists, caller), p.skip, p.limitNumber)
  {
    if !IsValidObjectId(caller) then Err(ApiError(400, "userId not available"))
    else
      var p := Paginate(page, limit);
      if !Accepted(p) then Err(Crash(Rejection(p)))
      else
        var s := UserListing(playlists, caller);
        WindowSortedDesc(s, p.skip, p.limitNumber, RowCreatedAt());
        Ok(PlaylistList(Window(s, p.skip, p.limitNumber), Envelope(|OwnedBy(playlists, caller)|, p)))
  }

  /** Every playlist of the caller is on one of the pages 1..totalPages,
      and its row counts exactly its videos, provided no two rows share a
      `createdAt` (the listing is then the only order `$sort` can give). */
  lemma EveryPlaylistOnSomePage(playlists: seq<Playlist>, caller: Id, page: Option<int>, limit: Option<int>, pl: Playlist)
    requires GetUserPlaylists(playlists, caller, page, limit).Ok?
    requires pl in playlists && pl.owner == caller
    requires DistinctKeys(UserListing(playlists, caller), RowCreatedAt())
    ensures forall other :: SortedDesc(other, RowCreatedAt()) && multiset(other) == multiset(UserListing(playlists, caller)) ==>
              other == UserListing(playlists, caller)
    ensures exists n: int ::
              1 <= n <= GetUserPlaylists(playlists, caller, page, limit).value.pagination.totalPages &&
              RowOf(pl) in GetUserPlaylists(playlists, caller, Some(n), limit).value.playlists &&
              RowOf(pl).totalVideos == |pl.videos|
  {
    var s := UserListing(playlists, caller);
    forall other | SortedDesc(other, RowCreatedAt()) && multiset(other) == multiset(s) ensures other == s {
      SortedDescUnique(s, other, RowCreatedAt());
    }
    OnSomeRequestedPage(s, |OwnedBy(playlists, caller)|, page, limit, RowOf(pl));
    var n: int :| 1 <= n <= TotalPages(|OwnedBy(playlists, caller)|, Paginate(page, limit).limitNumber) &&
                  RowOf(pl) in Window(s, Paginate(Some(n), limit).skip, Paginate(Some(n), limit).limitNumber);
    PaginateAtPage(n, limit, page);
  }

  // ------------------------------------------------------------ deletePlaylist

  /** The response of `deletePlaylist` as written, from what
      `findByIdAndDelete` returned: the check is inverted, so a deleted
      playlist raises "not deleted yet", and a missing one gets the success
      body with HTTP status 400. The result is the HTTP status sent. */
  function DeleteReplyAsWritten(removed: Option<Playlist>): (r: Result<nat>)
    ensures r != Ok(200)
    ensures r.Err? <==> removed.Some?
    ensures r.Ok? ==> r.value == 400
    ensures r.Err? ==> r.error.ApiError? && r.error.status == 400
  {
    if removed.Some? then Err(ApiError(400, "playlist not deleted yet")) else Ok(400)
  }

  /** The evidently intended response: success (200) exactly when a
      playlist was deleted. */
  function DeleteReply(removed: Option<Playlist>): (r: Result<nat>)
    ensures r == Ok(200) <==> removed.Some?
    ensures removed.None? ==> r == Err(ApiError(400, "playlist not deleted yet"))
  {
    if removed.Some? then Ok(200) else Err(ApiError(400, "playlist not deleted yet"))
  }

  /** The written handler never reports success: it answers 400 whether or
      not the playlist existed, and an error exactly when it was deleted. */
  lemma DeleteAsWrittenNeverSucceeds(removed: Option<Playlist>)
    ensures DeleteReplyAsWritten(removed) != Ok(200)
    ensures DeleteReplyAsWritten(removed).Err? <==> DeleteReply(removed).Ok?
  {
  }

  method DeletePlaylistAsWritten(db: Database.Db, playlistId: Id) returns (r: Result<nat>)
    requires db.Valid()
    modifies db`playlists
    ensures db.Valid()
    ensures !IsValidObjectId(playlistId) ==> r == Err(ApiError(400, "playlistId is not available")) && db.playlists == old(db.playlists)
    ensures IsValidObjectId(playlistId) ==>
              var d := Store.DeleteById(old(db.playlists), PlaylistIdOf, playlistId);
              db.playlists == d.rows && r == DeleteReplyAsWritten(d.removed)
    ensures IsValidObjectId(playlistId) && Store.HasId(old(db.playlists), PlaylistIdOf, playlistId) ==> r.Err?
  {
    if !IsValidObjectId(playlistId) {
      return Err(ApiError(400, "playlistId is not available"));
    }
    var d := Store.DeleteById(db.playlists, PlaylistIdOf, playlistId);
    Store.DeleteByIdRemovesAll(db.playlists, PlaylistIdOf, playlistId);
    db.playlists := d.rows;
    if d.removed.Some? {
      return Err(ApiError(400, "playlist not deleted yet"));
    }
    return Ok(400);
  }

  /** `deletePlaylist` with the check the other handlers use: 200 when the
      playlist was deleted, 400 when there was none. */
  method DeletePlaylist(db: Database.Db, playlistId: Id) returns (r: Result<nat>)
    requires db.Valid()
    modifies db`playlists
    ensures db.Valid()
    ensures !IsValidObjectId(playlistId) ==> r == Err(ApiError(400, "playlistId is not available")) && db.playlists == old(db.playlists)
    ensures IsValidObjectId(playlistId) ==>
              db.playlists == Store.DeleteById(old(db.playlists), PlaylistIdOf, playlistId).rows &&
              !Store.HasId(db.playlists, PlaylistIdOf, playlistId)
    ensures r == Ok(200) <==> IsValidObjectId(playlistId) && Store.HasId(old(db.playlists), PlaylistIdOf, playlistId)
  {
    if !IsValidObjectId(playlistId) {
      return Err(ApiError(400, "playlistId is not available"));
    }
    var d := Store.DeleteById(db.playlists, PlaylistIdOf, playlistId);
    Store.DeleteByIdRemovesAll(db.playlists, PlaylistIdOf, playlistId);
    db.playlists := d.rows;
    return DeleteReply(d.removed);
  }

  // ------------------------------------------------- $addToSet and $pull

  /** `$addToSet`: appends `x` unless it is already there. */
  function AddToSet(s: seq<Id>, x: Id): (r: seq<Id>)
    ensures x in r
    ensures forall y :: y in r <==> y in s || y == x
    ensures x in s ==> r == s
    ensures x !in s ==> r == s + [x]
  {
    if x in s then s else s + [x]
  }

  /** Adding an id twice is adding it once. */
  lemma AddToSetIdempotent(s: seq<Id>, x: Id)
    ensures AddToSet(AddToSet(s, x), x) == AddToSet(s, x)
  {
  }

  ghost predicate NoDuplicates(s: seq<Id>) {
    forall i, j :: 0 <= i < j < |s| ==> s[i] != s[j]
  }

  /** `$addToSet` never creates a duplicate. */
  lemma AddToSetKeepsNoDuplicates(s: seq<Id>, x: Id)
    requires NoDuplicates(s)
    ensures NoDuplicates(AddToSet(s, x))
  {
  }

  /** `a` is `b` with some elements left out, the rest in their order. */
  ghost predicate Subsequence(a: seq<Id>, b: seq<Id>)
    decreases |b|
  {
    if a == [] then true
    else if b == [] then false
    else (a[0] == b[0] && Subsequence(a[1..], b[1..])) || Subsequence(a, b[1..])
  }

  /** `$pull`: removes every occurrence of `x`. */
  function Pull(s: seq<Id>, x: Id): (r: seq<Id>)
    ensures x !in r
    ensures forall y :: y in r <==> y in s && y != x
    ensures forall y :: y != x ==> multiset(r)[y] == multiset(s)[y]
    ensures Subsequence(r, s)
    ensures x !in s ==> r == s
  {
    if s == [] then []
    else
      assert s == [s[0]] + s[1..];
      var rest := Pull(s[1..], x);
      if s[0] == x then
        assert rest == [] || Subsequence(rest, s[1..]);
        rest
      else
        var r := [s[0]] + rest;
        assert r[1..] == rest;
        r
  }

  /** Removing an id undoes adding it, whether or not it was there before. */
  lemma PullAfterAddToSet(s: seq<Id>, x: Id)
    ensures Pull(AddToSet(s, x), x) == Pull(s, x)
  {
    if x !in s {
      PullAppend(s, x);
    }
  }

  lemma {:induction false} PullAppend(s: seq<Id>, x: Id)
    ensures Pull(s + [x], x) == Pull(s, x)
  {
    if s == [] {
      assert s + [x] == [x];
      assert [x][1..] == [];
    } else {
      assert (s + [x])[0] == s[0] && (s + [x])[1..] == s[1..] + [x];
      PullAppend(s[1..], x);
    }
  }

  // ------------------------------------------- the unique index on `videos`

  const DuplicateKey := "MongoServerError: E11000 duplicate key error collection: playlists index: videos_1"

  /** Inserting a playlist with `videos` adds its keys to the index, which
      refuses the insert when another playlist holds one of them. */
  predicate InsertRefused(playlists: seq<Playlist>, videos: seq<Id>) {
    exists j :: 0 <= j < |playlists| && IndexKeys(videos) * IndexKeys(playlists[j].videos) != {}
  }

  /** Writing `videos` over the playlist at index `i` adds the keys it did
      not hold before, and the index refuses the write when another
      playlist holds one of them. */
  predicate UpdateRefused(playlists: seq<Playlist>, i: nat, videos: seq<Id>)
    requires i < |playlists|
  {
    exists j :: 0 <= j < |playlists| && j != i &&
      (IndexKeys(videos) - IndexKeys(playlists[i].videos)) * IndexKeys(playlists[j].videos) != {}
  }

  /** An insert the index accepts keeps it unique. */
  lemma InsertKeepsUnique(playlists: seq<Playlist>, x: Playlist)
    requires VideoKeysUnique(playlists) && !InsertRefused(playlists, x.videos)
    ensures VideoKeysUnique(playlists + [x])
  {
    var s := playlists + [x];
    forall i, j | 0 <= i < |s| && 0 <= j < |s| && i != j
      ensures IndexKeys(s[i].videos) * IndexKeys(s[j].videos) == {}
    {
      if i == |playlists| {
        assert IndexKeys(x.videos) * IndexKeys(playlists[j].videos) == {};
      } else if j == |playlists| {
        assert IndexKeys(x.videos) * IndexKeys(playlists[i].videos) == {};
      }
    }
  }

  /** An update the index accepts keeps it unique. */
  lemma ReplaceKeepsUnique(playlists: seq<Playlist>, i: nat, x: Playlist)
    requires VideoKeysUnique(playlists) && i < |playlists| && !UpdateRefused(playlists, i, x.videos)
    ensures VideoKeysUnique(playlists[i := x])
  {
    var s := playlists[i := x];
    forall a, b | 0 <= a < |s| && 0 <= b < |s| && a != b
      ensures IndexKeys(s[a].videos) * IndexKeys(s[b].videos) == {}
    {
      if a == i || b == i {
        var j := if a == i then b else a;
        assert (IndexKeys(x.videos) - IndexKeys(playlists[i].videos)) * IndexKeys(playlists[j].videos) == {};
        assert IndexKeys(playlists[i].videos) * IndexKeys(playlists[j].videos) == {};
      }
    }
  }

  /** While the index holds, a video is in at most one playlist, and at
      most one playlist is empty. */
  lemma OnePlaylistPerKey(playlists: seq<Playlist>, i: nat, j: nat, v: Id)
    requires VideoKeysUnique(playlists) && i < |playlists| && j < |playlists|
    ensures v in playlists[i].videos && v in playlists[j].videos ==> i == j
    ensures playlists[i].videos == [] && playlists[j].videos == [] ==> i == j
  {
    if i != j {
      var keys := IndexKeys(playlists[i].videos) * IndexKeys(playlists[j].videos);
      assert keys == {};
      assert Some(v) !in keys && None !in keys;
    }
  }

  /** A new, empty playlist is refused exactly when one is already empty. */
  lemma InsertEmptyRefusedMeans(playlists: seq<Playlist>)
    ensures InsertRefused(playlists, []) <==> exists pl :: pl in playlists && pl.videos == []
  {
    if exists pl :: pl in playlists && pl.videos == [] {
      var pl :| pl in playlists && pl.videos == [];
      var j :| 0 <= j < |playlists| && playlists[j] == pl;
      assert None in IndexKeys([]) * IndexKeys(playlists[j].videos);
    }
    if InsertRefused(playlists, []) {
      var j :| 0 <= j < |playlists| && IndexKeys([]) * IndexKeys(playlists[j].videos) != {};
      assert playlists[j] in playlists;
    }
  }

  /** `$addToSet` of `videoId` into playlist `playlistId` meets another
      playlist's key: the video is not in that playlist yet and is in
      another one. */
  ghost predicate AddClash(playlists: seq<Playlist>, playlistId: Id, videoId: Id) {
    exists pl, other :: pl in playlists && other in playlists && pl.id == playlistId && other.id != playlistId &&
                        videoId !in pl.videos && videoId in other.videos
  }

  /** `$pull` of `videoId` from playlist `playlistId` meets another
      playlist's key: it empties that playlist while another is empty. */
  ghost predicate PullClash(playlists: seq<Playlist>, playlistId: Id, videoId: Id) {
    exists pl, other :: pl in playlists && other in playlists && pl.id == playlistId && other.id != playlistId &&
                        pl.videos != [] && Pull(pl.videos, videoId) == [] && other.videos == []
  }

  lemma AddRefusedMeans(playlists: seq<Playlist>, i: nat, videoId: Id)
    requires Store.UniqueIds(playlists, PlaylistIdOf) && i < |playlists|
    ensures UpdateRefused(playlists, i, AddToSet(playlists[i].videos, videoId)) <==> AddClash(playlists, playlists[i].id, videoId)
  {
    var pl := playlists[i];
    var added := AddToSet(pl.videos, videoId);
    if videoId in pl.videos {
      assert IndexKeys(added) - IndexKeys(pl.videos) == {};
      forall p | p in playlists && p.id == pl.id ensures videoId in p.videos {
        var k :| 0 <= k < |playlists| && playlists[k] == p;
        assert k == i;
      }
    } else {
      assert IndexKeys(added) - IndexKeys(pl.videos) == {Some(videoId)};
      if AddClash(playlists, pl.id, videoId) {
        var p, other :| p in playlists && other in playlists && p.id == pl.id && other.id != pl.id &&
                        videoId !in p.videos && videoId in other.videos;
        var j :| 0 <= j < |playlists| && playlists[j] == other;
        assert Some(videoId) in (IndexKeys(added) - IndexKeys(pl.videos)) * IndexKeys(playlists[j].videos);
      }
      if UpdateRefused(playlists, i, added) {
        var j :| 0 <= j < |playlists| && j != i &&
                 (IndexKeys(added) - IndexKeys(pl.videos)) * IndexKeys(playlists[j].videos) != {};
        assert videoId in playlists[j].videos;
        assert playlists[j].id != pl.id;
        assert pl in playlists && playlists[j] in playlists;
      }
    }
  }

  lemma PullRefusedMeans(playlists: seq<Playlist>, i: nat, videoId: Id)
    requires Store.UniqueIds(playlists, PlaylistIdOf) && i < |playlists|
    ensures UpdateRefused(playlists, i, Pull(playlists[i].videos, videoId)) <==> PullClash(playlists, playlists[i].id, videoId)
  {
    var pl := playlists[i];
    var pulled := Pull(pl.videos, videoId);
    if pl.videos != [] && pulled == [] {
      assert IndexKeys(pulled) - IndexKeys(pl.videos) == {None};
      if PullClash(playlists, pl.id, videoId) {
        var p, other :| p in playlists && other in playlists && p.id == pl.id && other.id != pl.id &&
                        p.videos != [] && Pull(p.videos, videoId) == [] && other.videos == [];
        var j :| 0 <= j < |playlists| && playlists[j] == other;
        assert None in (IndexKeys(pulled) - IndexKeys(pl.videos)) * IndexKeys(playlists[j].videos);
      }
      if UpdateRefused(playlists, i, pulled) {
        var j :| 0 <= j < |playlists| && j != i &&
                 (IndexKeys(pulled) - IndexKeys(pl.videos)) * IndexKeys(playlists[j].videos) != {};
        assert playlists[j].videos == [];
        assert playlists[j].id != pl.id;
        assert pl in playlists && playlists[j] in playlists;
      }
    } else {
      assert IndexKeys(pulled) - IndexKeys(pl.videos) == {} by {
        forall k | k in IndexKeys(pulled) ensures k in IndexKeys(pl.videos) {
          if pulled == [] {
            assert pl.videos == [];
          } else {
            assert k != None;
          }
        }
      }
      forall p | p in playlists && p.id == pl.id ensures !(p.videos != [] && Pull(p.videos, videoId) == []) {
        var k :| 0 <= k < |playlists| && playlists[k] == p;
        assert k == i;
      }
    }
  }

  function AddingVideo(videoId: Id): Playlist -> Playlist {
    (pl: Playlist) => pl.(videos := AddToSet(pl.videos, videoId))
  }

  function RemovingVideo(videoId: Id): Playlist -> Playlist {
    (pl: Playlist) => pl.(videos := Pull(pl.videos, videoId))
  }

  /** `addVideoToPlaylist`: the playlist after `$addToSet`. */
  method AddVideoToPlaylist(db: Database.Db, playlistId: Id, videoId: Id) returns (r: Result<Playlist>)
    requires db.Valid()
    modifies db`playlists
    ensures db.Valid()
    ensures !IsValidObjectId(playlistId) ==> r == Err(ApiError(400, "playlistId is not available"))
    ensures IsValidObjectId(playlistId) && !IsValidObjectId(videoId) ==> r == Err(ApiError(400, "videoId is not available"))
    ensures r.Err? ==> db.playlists == old(db.playlists)
    ensures r.Ok? <==> IsValidObjectId(playlistId) && IsValidObjectId(videoId) && Store.HasId(old(db.playlists), PlaylistIdOf, playlistId) &&
                       !AddClash(old(db.playlists), playlistId, videoId)
    ensures IsValidObjectId(playlistId) && IsValidObjectId(videoId) && !Store.HasId(old(db.playlists), PlaylistIdOf, playlistId) ==>
              r == Err(ApiError(400, "video not added yet"))
    ensures IsValidObjectId(playlistId) && IsValidObjectId(videoId) && Store.HasId(old(db.playlists), PlaylistIdOf, playlistId) && r.Err? ==>
              r == Err(Crash(DuplicateKey))
    ensures r.Ok? ==>
              db.playlists == Store.UpdateFirst(old(db.playlists), PlaylistWithId(playlistId), AddingVideo(videoId)).rows &&
              r.value.id == playlistId && r.value in db.playlists && videoId in r.value.videos &&
              (forall y :: y in r.value.videos <==> y == videoId || exists pl :: pl in old(db.playlists) && pl.id == playlistId && r.value == AddingVideo(videoId)(pl) && y in pl.videos)
  {
    if !IsValidObjectId(playlistId) {
      return Err(ApiError(400, "playlistId is not available"));
    }
    if !IsValidObjectId(videoId) {
      return Err(ApiError(400, "videoId is not available"));
    }
    Store.HasIdMeans(db.playlists, PlaylistIdOf, playlistId);
    var u := Store.UpdateFirst(db.playlists, PlaylistWithId(playlistId), AddingVideo(videoId));
    Store.UniqueUpdateFirst(db.playlists, PlaylistIdOf, PlaylistWithId(playlistId), AddingVideo(videoId));
    if u.result.None? {
      return Err(ApiError(400, "video not added yet"));
    }
    var i := Store.IndexWhere(db.playlists, PlaylistWithId(playlistId)).value;
    AddRefusedMeans(db.playlists, i, videoId);
    if UpdateRefused(db.playlists, i, AddToSet(db.playlists[i].videos, videoId)) {
      return Err(Crash(DuplicateKey));
    }
    ReplaceKeepsUnique(db.playlists, i, u.result.value);
    assert u.rows[i] == u.result.value;
    db.playlists := u.rows;
    return Ok(u.result.value);
  }

  /** `removeVideoFromPlaylist`: the playlist after `$pull`. */
  method RemoveVideoFromPlaylist(db: Database.Db, playlistId: Id, videoId: Id) returns (r: Result<Playlist>)
    requires db.Valid()
    modifies db`playlists
    ensures db.Valid()
    ensures !IsValidObjectId(playlistId) ==> r == Err(ApiError(400, "playlistId is not available"))
    ensures IsValidObjectId(playlistId) && !IsValidObjectId(videoId) ==> r == Err(ApiError(400, "videoId is not available"))
    ensures r.Err? ==> db.playlists == old(db.playlists)
    ensures r.Ok? <==> IsValidObjectId(playlistId) && IsValidObjectId(videoId) && Store.HasId(old(db.playlists), PlaylistIdOf, playlistId) &&
                       !PullClash(old(db.playlists), playlistId, videoId)
    ensures IsValidObjectId(playlistId) && IsValidObjectId(videoId) && !Store.HasId(old(db.playlists), PlaylistIdOf, playlistId) ==>
              r == Err(ApiError(400, "video not removed yet"))
    ensures IsValidObjectId(playlistId) && IsValidObjectId(videoId) && Store.HasId(old(db.playlists), PlaylistIdOf, playlistId) && r.Err? ==>
              r == Err(Crash(DuplicateKey))
    ensures r.Ok? ==>
              db.playlists == Store.UpdateFirst(old(db.playlists), PlaylistWithId(playlistId), RemovingVideo(videoId)).rows &&
              r.value.id == playlistId && r.value in db.playlists && videoId !in r.value.videos &&
              exists pl :: pl in old(db.playlists) && pl.id == playlistId && r.value == pl.(videos := Pull(pl.videos, videoId)) &&
                           Subsequence(r.value.videos, pl.videos)
  {
    if !IsValidObjectId(playlistId) {
      return Err(ApiError(400, "playlistId is not available"));
    }
    if !IsValidObjectId(videoId) {
      return Err(ApiError(400, "videoId is not available"));
    }
    Store.HasIdMeans(db.playlists, PlaylistIdOf, playlistId);
    var u := Store.UpdateFirst(db.playlists, PlaylistWithId(playlistId), RemovingVideo(videoId));
    Store.UniqueUpdateFirst(db.playlists, PlaylistIdOf, PlaylistWithId(playlistId), RemovingVideo(videoId));
    if u.result.None? {
      return Err(ApiError(400, "video not removed yet"));
    }
    var i := Store.IndexWhere(db.playlists, PlaylistWithId(playlistId)).value;
    PullRefusedMeans(db.playlists, i, videoId);
    if UpdateRefused(db.playlists, i, Pull(db.playlists[i].videos, videoId)) {
      return Err(Crash(DuplicateKey));
    }
    ReplaceKeepsUnique(db.playlists, i, u.result.value);
    assert u.rows[i] == u.result.value;
    assert db.playlists[i] in db.playlists;
    db.playlists := u.rows;
    return Ok(u.result.value);
  }

  // ------------------------------------------------------------ updatePlaylist

  /** The `updates` object: `title` and `description`, each present only
      when supplied. */
  datatype PlaylistFields = PlaylistFields(title: Option<string>, description: Option<string>)

  /** `$set: updates` as the store applies it: `title` is not a playlist
      field, so strict mode drops it and only `description` changes. */
  function ApplyAsWritten(pl: Playlist, f: PlaylistFields): (q: Playlist)
    ensures q.name == pl.name
    ensures q.description == (if f.description.Some? then f.description.value else pl.description)
    ensures q.(description := pl.description) == pl
  {
    if f.description.Some? then pl.(description := f.description.value) else pl
  }

  /** The evidently intended update: the request's `title` renames the
      playlist. */
  function ApplyFields(pl: Playlist, f: PlaylistFields): (q: Playlist)
    ensures q.name == (if f.title.Some? then f.title.value else pl.name)
    ensures q.description == (if f.description.Some? then f.description.value else pl.description)
    ensures q.(name := pl.name, description := pl.description) == pl
  {
    pl.(name := if f.title.Some? then f.title.value else pl.name,
        description := if f.description.Some? then f.description.value else pl.description)
  }

  function Setting(f: PlaylistFields): Playlist -> Playlist {
    (pl: Playlist) => ApplyFields(pl, f)
  }

  function SettingAsWritten(f: PlaylistFields): Playlist -> Playlist {
    (pl: Playlist) => ApplyAsWritten(pl, f)
  }

  /** As written, a request with a title only leaves the playlist exactly
      as it was. */
  lemma TitleIgnoredAsWritten(pl: Playlist, title: string)
    requires title != pl.name
    ensures ApplyAsWritten(pl, PlaylistFields(Some(title), None)) == pl
    ensures ApplyFields(pl, PlaylistFields(Some(title), None)).name == title
  {
  }

  /** `updatePlaylist` as written. `updates.length` is undefined on an object,
      so the "at least one field" check never rejects, and an empty update
      answers with the unchanged playlist. */
  method UpdatePlaylistAsWritten(db: Database.Db, playlistId: Id, title: Option<string>, description: Option<string>)
    returns (r: Result<Playlist>)
    requires db.Valid()
    modifies db`playlists
    ensures db.Valid()
    ensures !IsValidObjectId(playlistId) ==> r == Err(ApiError(400, "playlistId not available"))
    ensures r.Err? ==> db.playlists == old(db.playlists)
    ensures r.Ok? <==> IsValidObjectId(playlistId) && Store.HasId(old(db.playlists), PlaylistIdOf, playlistId)
    ensures IsValidObjectId(playlistId) && r.Err? ==> r == Err(ApiError(400, "playlist not updated yet"))
    ensures r.Ok? ==>
              var f := PlaylistFields(if Truthy(title) then title else None, if Truthy(description) then description else None);
              db.playlists == Store.UpdateFirst(old(db.playlists), PlaylistWithId(playlistId), SettingAsWritten(f)).rows &&
              r.value.id == playlistId && r.value in db.playlists
    ensures r.Ok? && !Truthy(description) ==> db.playlists == old(db.playlists)
  {
    if !IsValidObjectId(playlistId) {
      return Err(ApiError(400, "playlistId not available"));
    }
    var updates := PlaylistFields(None, None);
    if Truthy(title) {
      updates := updates.(title := title);
    }
    if Truthy(description) {
      updates := updates.(description := description);
    }
    // `updates.length == 0` compares undefined with 0: never true.
    Store.HasIdMeans(db.playlists, PlaylistIdOf, playlistId);
    var u := Store.UpdateFirst(db.playlists, PlaylistWithId(playlistId), SettingAsWritten(updates));
    Store.UniqueUpdateFirst(db.playlists, PlaylistIdOf, PlaylistWithId(playlistId), SettingAsWritten(updates));
    if u.result.None? {
      return Err(ApiError(400, "playlist not updated yet"));
    }
    var i := Store.IndexWhere(db.playlists, PlaylistWithId(playlistId)).value;
    assert u.rows[i] == u.result.value;
    if !Truthy(description) {
      assert u.rows == db.playlists;
    }
    db.playlists := u.rows;
    return Ok(u.result.value);
  }

  /** `updatePlaylist` as evidently intended: rejects a request with neither
      field, and sets `name` from `title`. */
  method UpdatePlaylist(db: Database.Db, playlistId: Id, title: Option<string>, description: Option<string>)
    returns (r: Result<Playlist>)
    requires db.Valid()
    modifies db`playlists
    ensures db.Valid()
    ensures !IsValidObjectId(playlistId) ==> r == Err(ApiError(400, "playlistId not available"))
    ensures IsValidObjectId(playlistId) && !Truthy(title) && !Truthy(description) ==> r == Err(ApiError(400, "Atleast one is required"))
    ensures r.Err? ==> db.playlists == old(db.playlists)
    ensures r.Ok? <==> IsValidObjectId(playlistId) && (Truthy(title) || Truthy(description)) &&
                       Store.HasId(old(db.playlists), PlaylistIdOf, playlistId)
    ensures r.Ok? ==>
              var f := PlaylistFields(if Truthy(title) then title else None, if Truthy(description) then description else None);
              db.playlists == Store.UpdateFirst(old(db.playlists), PlaylistWithId(playlistId), Setting(f)).rows &&
              r.value.id == playlistId && r.value in db.playlists &&
              (Truthy(title) ==> r.value.name == title.value) &&
              (Truthy(description) ==> r.value.description == description.value)
  {
    if !IsValidObjectId(playlistId) {
      return Err(ApiError(400, "playlistId not available"));
    }
    var updates := PlaylistFields(None, None);
    if Truthy(title) {
      updates := updates.(title := title);
    }
    if Truthy(description) {
      updates := updates.(description := description);
    }
    if updates.title.None? && updates.description.None? {
      return Err(ApiError(400, "Atleast one is required"));
    }
    Store.HasIdMeans(db.playlists, PlaylistIdOf, playlistId);
    var u := Store.UpdateFirst(db.playlists, PlaylistWithId(playlistId), Setting(updates));
    Store.UniqueUpdateFirst(db.playlists, PlaylistIdOf, PlaylistWithId(playlistId), Setting(updates));
    if u.result.None? {
      return Err(ApiError(400, "playlist not updated yet"));
    }
    var i := Store.IndexWhere(db.playlists, PlaylistWithId(playlistId)).value;
    assert u.rows[i] == u.result.value;
    db.playlists := u.rows;
    return Ok(u.result.value);
  }
}
