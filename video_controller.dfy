/** The video handlers. backend/src/controllers/video.controller.js and
    src/controllers/video.controller.js hold the same code for every handler
    except `getVideos`, whose src/ body is empty; both are modelled here. */
module VideoController {
  import opened Common
  import opened Records
  import opened Pipeline
  import opened Pagination
  import Text
  import Store
  import Database

  /** The upload service: the URL of the stored file, or `None` when the
      upload yields nothing. */
  type Uploader = string -> Option<string>


  // ---------------------------------------------------------------- getVideos

  datatype Paging = Paging(page: Option<int>, limit: Option<int>)

  /** `query` (title/description search) and `userId` (owner) of the request. */
  datatype VideoFilter = VideoFilter(query: Option<string>, userId: Option<string>)

  /** `sortBy` (default `createdAt`) and `sortType` (default `desc`). */
  datatype Order = Order(sortBy: Option<string>, sortType: Option<string>)

  datatype VideoQuery = VideoQuery(paging: Paging, filter: VideoFilter, order: Order)

  /** One row of the listing: the projection of a video joined to its owner. */
  datatype VideoCard = VideoCard(id: Id, title: string, description: string, thumbnail: string,
                                 views: nat, duration: nat, createdAt: nat, owner: Profile)

  datatype VideoList = VideoList(videos: seq<VideoCard>, pagination: PageInfo)

  /** The `$match` document: published, and matching the search and the
      owner when those are given. */
  predicate MatchesFilter(v: Video, f: VideoFilter) {
    v.isPublished &&
    (Truthy(f.query) ==>
       Text.ContainsIgnoringCase(v.title, f.query.value) ||
       Text.ContainsIgnoringCase(v.description, f.query.value)) &&
    (Truthy(f.userId) ==> v.owner == f.userId.value)
  }

  function Selected(videos: seq<Video>, f: VideoFilter): (r: seq<Video>)
    ensures forall v :: v in r <==> v in videos && MatchesFilter(v, f)
  {
    Filter(videos, (v: Video) => MatchesFilter(v, f))
  }

  /** The owner `$lookup`. */
  function OwnerOf(users: seq<User>): Video -> Option<User> {
    (v: Video) => Store.FindById(users, UserIdOf, v.owner)
  }

  function CardOf(v: Video, u: User): VideoCard {
    VideoCard(v.id, v.title, v.description, v.thumbnail, v.views, v.duration, v.createdAt, ProfileOf(u))
  }

  function SortField(o: Order): string {
    if o.sortBy.Some? then o.sortBy.value else "createdAt"
  }

  const SortRejected := "MongoServerError: the $sort key is not a valid field path"

  predicate Ascending(o: Order) {
    (if o.sortType.Some? then o.sortType.value else "desc") == "asc"
  }

  /** The sort key of a row. A field that is not numeric, or not in the
      projection, gives every row the same key, so no order is promised. */
  function SortKey(field: string): VideoCard -> int {
    if field == "createdAt" then (c: VideoCard) => c.createdAt
    else if field == "views" then (c: VideoCard) => c.views
    else if field == "duration" then (c: VideoCard) => c.duration
    else (c: VideoCard) => 0
  }

  predicate OwnerFilterRejected(f: VideoFilter) {
    Truthy(f.userId) && !IsValidObjectId(f.userId.value)
  }

  /** `c` is the card of a matched video and its owner. */
  ghost predicate FromMatch(c: VideoCard, videos: seq<Video>, users: seq<User>, f: VideoFilter) {
    exists v, u :: v in videos && MatchesFilter(v, f) && u in users && u.id == v.owner && c == CardOf(v, u)
  }

  /** The whole listing before pagination: the matched videos joined to
      their owners, in the requested order. */
  function Listing(videos: seq<Video>, users: seq<User>, f: VideoFilter, o: Order): (s: seq<VideoCard>)
    ensures |s| <= |Selected(videos, f)|
    ensures forall c :: c in s ==> FromMatch(c, videos, users, f)
    ensures forall v :: v in videos && MatchesFilter(v, f) && Store.FindById(users, UserIdOf, v.owner).Some? ==>
              CardOf(v, Store.FindById(users, UserIdOf, v.owner).value) in s
    ensures Ascending(o) ==> SortedAsc(s, SortKey(SortField(o)))
    ensures !Ascending(o) ==> SortedDesc(s, SortKey(SortField(o)))
  {
    var joined := Join(Selected(videos, f), OwnerOf(users), CardOf);
    var key := SortKey(SortField(o));
    if Ascending(o) then SortAsc(joined, key) else SortDesc(joined, key)
  }

  /** `s` is in the order the request asks for. */
  ghost predicate InRequestedOrder(s: seq<VideoCard>, o: Order) {
    if Ascending(o) then SortedAsc(s, SortKey(SortField(o))) else SortedDesc(s, SortKey(SortField(o)))
  }

  /** `getVideos`: published videos matching the search and owner filter,
      joined to their owners, sorted, one page of them, and the count of all
      videos the filter matches. The owner id is cast before the aggregate
      is sent; MongoDB then parses its stages in order, so a `sortBy` that
      is not a field path fails before a negative skip or a bad limit. */
  function GetVideos(videos: seq<Video>, users: seq<User>, q: VideoQuery): (r: Result<VideoList>)
    ensures r.Err? <==>
              OwnerFilterRejected(q.filter) || !ValidFieldPath(SortField(q.order)) ||
              Paginate(q.paging.page, q.paging.limit).limitNumber < 1
    ensures OwnerFilterRejected(q.filter) ==> r == Err(Crash(BsonError))
    ensures !OwnerFilterRejected(q.filter) && !ValidFieldPath(SortField(q.order)) ==> r == Err(Crash(SortRejected))
    ensures r.Ok? ==>
              var p := Paginate(q.paging.page, q.paging.limit);
              var rows := r.value.videos;
              |rows| <= p.limitNumber &&
              |rows| <= r.value.pagination.total &&
              (forall c :: c in rows ==> FromMatch(c, videos, users, q.filter)) &&
              (Ascending(q.order) ==> SortedAsc(rows, SortKey(SortField(q.order)))) &&
              (!Ascending(q.order) ==> SortedDesc(rows, SortKey(SortField(q.order)))) &&
              r.value.pagination == Envelope(|Selected(videos, q.filter)|, p)
    ensures r.Ok? ==>
              var p := Paginate(q.paging.page, q.paging.limit);
              r.value.videos == Window(Listing(videos, users, q.filter, q.order), p.skip, p.limitNumber)
  {
    if OwnerFilterRejected(q.filter) then Err(Crash(BsonError))
    else if !ValidFieldPath(SortField(q.order)) then Err(Crash(SortRejected))
    else
      var p := Paginate(q.paging.page, q.paging.limit);
      if !Accepted(p) then Err(Crash(Rejection(p)))
      else
        PaginateAccepted(q.paging.page, q.paging.limit);
        var sorted := Listing(videos, users, q.filter, q.order);
        var key := SortKey(SortField(q.order));
        var rows := Window(sorted, p.skip, p.limitNumber);
        assert Ascending(q.order) ==> SortedAsc(rows, key) by {
          if Ascending(q.order) { WindowSortedAsc(sorted, p.skip, p.limitNumber, key); }
        }
        assert !Ascending(q.order) ==> SortedDesc(rows, key) by {
          if !Ascending(q.order) { WindowSortedDesc(sorted, p.skip, p.limitNumber, key); }
        }
        Ok(VideoList(rows, Envelope(|Selected(videos, q.filter)|, p)))
  }

  /** A numeric `sortBy` orders the rows by that field. */
  lemma SortKeyReadsField(c: VideoCard)
    ensures SortKey("createdAt")(c) == c.createdAt
    ensures SortKey("views")(c) == c.views
    ensures SortKey("duration")(c) == c.duration
  {
  }

  /** No matching video is lost to pagination: each one whose owner exists
      is on one of the pages 1..totalPages the first response reports,
      provided no two rows share the sort key. The listing is then the only
      order `$sort` can give, so separate page requests see the same order.
      (A `sortBy` that is not one of the numeric fields gives every row the
      same key, so this holds only of a listing with a single row.) */
  lemma EveryMatchOnSomePage(videos: seq<Video>, users: seq<User>, q: VideoQuery, v: Video)
    requires GetVideos(videos, users, q).Ok?
    requires v in videos && MatchesFilter(v, q.filter) && Store.FindById(users, UserIdOf, v.owner).Some?
    requires DistinctKeys(Listing(videos, users, q.filter, q.order), SortKey(SortField(q.order)))
    ensures forall other :: InRequestedOrder(other, q.order) && multiset(other) == multiset(Listing(videos, users, q.filter, q.order)) ==>
              other == Listing(videos, users, q.filter, q.order)
    ensures exists page: int ::
              1 <= page <= GetVideos(videos, users, q).value.pagination.totalPages &&
              CardOf(v, Store.FindById(users, UserIdOf, v.owner).value)
                in GetVideos(videos, users, q.(paging := q.paging.(page := Some(page)))).value.videos
  {
    var p := Paginate(q.paging.page, q.paging.limit);
    var L := p.limitNumber;
    assert L >= 1;
    var total := |Selected(videos, q.filter)|;
    var sorted := Listing(videos, users, q.filter, q.order);
    OnlyRequestedOrder(sorted, q.order);
    var c := CardOf(v, Store.FindById(users, UserIdOf, v.owner).value);
    assert c in sorted;
    var i :| 0 <= i < |sorted| && sorted[i] == c;
    OnSomePage(sorted, L, total, i);
    var page: int :| page <= TotalPages(total, L) && OnPage(sorted, L, page, c);
    var q' := q.(paging := q.paging.(page := Some(page)));
    var p' := Paginate(q'.paging.page, q'.paging.limit);
    PaginateAtPage(page, q.paging.limit, q.paging.page);
    var r' := GetVideos(videos, users, q');
    assert r'.Ok?;
    assert r'.value.videos == Window(sorted, p'.skip, L);
    assert p'.skip == (page - 1) * L;
    assert c in r'.value.videos;
    assert 1 <= page <= GetVideos(videos, users, q).value.pagination.totalPages;
  }

  /** With pairwise distinct sort keys, a listing in the requested order is
      the only such ordering of its rows. */
  lemma OnlyRequestedOrder(s: seq<VideoCard>, o: Order)
    requires InRequestedOrder(s, o) && DistinctKeys(s, SortKey(SortField(o)))
    ensures forall other :: InRequestedOrder(other, o) && multiset(other) == multiset(s) ==> other == s
  {
    forall other | InRequestedOrder(other, o) && multiset(other) == multiset(s) ensures other == s {
      if Ascending(o) {
        SortedAscUnique(s, other, SortKey(SortField(o)));
      } else {
        SortedDescUnique(s, other, SortKey(SortField(o)));
      }
    }
  }

  /** Search is case-insensitive: a video whose title holds the query in
      any letter case is matched by it. */
  lemma SearchIgnoresCase(v: Video, query: string)
    requires v.isPublished && query != ""
    requires Text.Contains(Text.LowerStr(v.title), Text.LowerStr(query))
    ensures MatchesFilter(v, VideoFilter(Some(query), None))
  {
  }

  // ------------------------------------------------------------- publishAVideo

  // The handler's error messages, named once.
  const FieldsRequired := "All fields are required"
  const FilesRequired := "video and thumbnail file is required"
  const UploadFailed := "something went wrong while uploading video and thumbnail on cloudinary"

  /** `publishAVideo`. Both uploads run once the four inputs are present. */
  method PublishAVideo(db: Database.Db, caller: Id, title: Option<string>, description: Option<string>,
                       videoPath: Option<string>, thumbnailPath: Option<string>, upload: Uploader,
                       newId: Id, now: nat) returns (r: Result<Video>)
    requires db.Valid() && !Store.HasId(db.videos, VideoIdOf, newId)
    modifies db`videos
    ensures db.Valid()
    ensures !Truthy(title) || !Truthy(description) ==> r == Err(ApiError(400, FieldsRequired))
    ensures Truthy(title) && Truthy(description) && (!Truthy(videoPath) || !Truthy(thumbnailPath)) ==>
              r == Err(ApiError(400, FilesRequired))
    ensures Truthy(title) && Truthy(description) && Truthy(videoPath) && Truthy(thumbnailPath) &&
            (upload(videoPath.value).None? || upload(thumbnailPath.value).None?) ==>
              r == Err(ApiError(500, UploadFailed))
    ensures r.Ok? <==> Truthy(title) && Truthy(description) && Truthy(videoPath) && Truthy(thumbnailPath) &&
                       upload(videoPath.value).Some? && upload(thumbnailPath.value).Some?
    ensures r.Ok? ==>
              r.value == Video(newId, upload(videoPath.value).value, upload(thumbnailPath.value).value,
                               caller, title.value, description.value, 0, 0, true, now) &&
              db.videos == old(db.videos) + [r.value]
    ensures r.Err? ==> db.videos == old(db.videos)
  {
    if !Truthy(title) || !Truthy(description) {
      return Err(ApiError(400, FieldsRequired));
    }
    if !Truthy(videoPath) || !Truthy(thumbnailPath) {
      return Err(ApiError(400, FilesRequired));
    }
    var videoUrl := upload(videoPath.value);
    var thumbnailUrl := upload(thumbnailPath.value);
    if videoUrl.None? || thumbnailUrl.None? {
      return Err(ApiError(500, UploadFailed));
    }
    var video := Video(newId, videoUrl.value, thumbnailUrl.value, caller, title.value, description.value, 0, 0, true, now);
    Store.UniqueAppend(db.videos, VideoIdOf, video);
    db.videos := db.videos + [video];
    // The `findById` re-read always finds the document just created.
    assert Store.FindById(db.videos, VideoIdOf, newId).Some? by {
      assert db.videos[|db.videos| - 1] == video;
    }
    return Ok(video);
  }

  // -------------------------------------------------------------- getVideoById

  /** `getVideoById`. */
  function GetVideoById(videos: seq<Video>, videoId: Id): (r: Result<Video>)
    ensures videoId == "" ==> r == Err(ApiError(400, "Video Id is required"))
    ensures videoId != "" && !IsValidObjectId(videoId) ==> r == Err(Crash(CastError))
    ensures r.Ok? <==> IsValidObjectId(videoId) && exists j :: 0 <= j < |videos| && videos[j].id == videoId
    ensures r.Ok? ==> r.value in videos && r.value.id == videoId
    ensures r.Err? && IsValidObjectId(videoId) ==> r == Err(ApiError(400, "Video not found / Video Id is wrong "))
  {
    if videoId == "" then Err(ApiError(400, "Video Id is required"))
    else if !IsValidObjectId(videoId) then Err(Crash(CastError))
    else
      match Store.FindById(videos, VideoIdOf, videoId)
      case Some(v) => Ok(v)
      case None => Err(ApiError(400, "Video not found / Video Id is wrong "))
  }

  // --------------------------------------------------------------- updateVideo

  const IdMissing := "Video Id not found"
  const ThumbnailUploadFailed := "thumbnail cloudinary upload failed"
  const NoField := "Aleast one field is required"

  /** The `updateFields` object: a field is present only when supplied. */
  datatype VideoFields = VideoFields(title: Option<string>, description: Option<string>, thumbnail: Option<string>)

  predicate NoFields(f: VideoFields) {
    f.title.None? && f.description.None? && f.thumbnail.None?
  }

  /** What the builder collects from the request: the truthy title and
      description and the uploaded thumbnail URL. */
  function RequestedFields(title: Option<string>, description: Option<string>, thumbnailUrl: Option<string>): (f: VideoFields)
    ensures f.title.Some? <==> Truthy(title)
    ensures f.description.Some? <==> Truthy(description)
    ensures f.thumbnail == thumbnailUrl
    ensures f.title.Some? ==> f.title == title
    ensures f.description.Some? ==> f.description == description
    ensures NoFields(f) <==> !Truthy(title) && !Truthy(description) && thumbnailUrl.None?
  {
    VideoFields(if Truthy(title) then title else None,
                if Truthy(description) then description else None,
                thumbnailUrl)
  }

  /** `$set: updateFields`: the supplied fields change, nothing else does. */
  function ApplyVideoFields(v: Video, f: VideoFields): (w: Video)
    ensures w.title == (if f.title.Some? then f.title.value else v.title)
    ensures w.description == (if f.description.Some? then f.description.value else v.description)
    ensures w.thumbnail == (if f.thumbnail.Some? then f.thumbnail.value else v.thumbnail)
    ensures w.(title := v.title, description := v.description, thumbnail := v.thumbnail) == v
  {
    v.(title := if f.title.Some? then f.title.value else v.title,
       description := if f.description.Some? then f.description.value else v.description,
       thumbnail := if f.thumbnail.Some? then f.thumbnail.value else v.thumbnail)
  }

  /** Setting the same fields twice is setting them once. */
  lemma ApplyVideoFieldsIdempotent(v: Video, f: VideoFields)
    ensures ApplyVideoFields(ApplyVideoFields(v, f), f) == ApplyVideoFields(v, f)
  {
  }

  function Applying(f: VideoFields): Video -> Video {
    (v: Video) => ApplyVideoFields(v, f)
  }

  /** The `{ _id: videoId, owner: caller }` filter the handler evidently
      means: the caller's video with that id. */
  function OwnedVideo(videoId: Id, caller: Id): Video -> bool {
    (v: Video) => v.id == videoId && v.owner == caller
  }

  /** The filter `findByIdAndUpdate` applies as written. The object
      `{ _id: videoId, owner: caller }` is passed as the id, and an id object
      is cast to the ObjectId of its `_id`, so the owner plays no part. */
  function CastIdFilter(videoId: Id, caller: Id): Video -> bool {
    (v: Video) => v.id == videoId
  }

  /** As written, a caller who does not own the video still changes it;
      with the owner filter nothing changes. */
  lemma NonOwnerUpdatesAsWritten(videos: seq<Video>, videoId: Id, caller: Id, fields: VideoFields, v: Video)
    requires Store.UniqueIds(videos, VideoIdOf)
    requires v in videos && v.id == videoId && v.owner != caller
    ensures var u := Store.UpdateFirst(videos, CastIdFilter(videoId, caller), Applying(fields));
            u.result == Some(ApplyVideoFields(v, fields)) && u.result.value.owner != caller
    ensures Store.UpdateFirst(videos, OwnedVideo(videoId, caller), Applying(fields)) == Store.Updated(videos, None)
  {
    OnlyVideoWithId(videos, videoId, v);
  }

  /** The same for `togglePublishStatus`. */
  lemma NonOwnerTogglesAsWritten(videos: seq<Video>, videoId: Id, caller: Id, v: Video)
    requires Store.UniqueIds(videos, VideoIdOf)
    requires v in videos && v.id == videoId && v.owner != caller
    ensures var u := Store.UpdateFirst(videos, CastIdFilter(videoId, caller), Flipping());
            u.result == Some(FlipPublished(v)) && u.result.value.isPublished != v.isPublished
    ensures Store.UpdateFirst(videos, OwnedVideo(videoId, caller), Flipping()) == Store.Updated(videos, None)
  {
    OnlyVideoWithId(videos, videoId, v);
  }

  /** With unique ids, `v` is the one video with its id. */
  lemma OnlyVideoWithId(videos: seq<Video>, videoId: Id, v: Video)
    requires Store.UniqueIds(videos, VideoIdOf)
    requires v in videos && v.id == videoId
    ensures forall j :: 0 <= j < |videos| && videos[j].id == videoId ==> videos[j] == v
  {
    var k :| 0 <= k < |videos| && videos[k] == v;
    forall j | 0 <= j < |videos| && videos[j].id == videoId ensures videos[j] == v {
      assert VideoIdOf(videos[j]) == VideoIdOf(videos[k]);
    }
  }

  /** `updateVideo`, corrected to the owner filter `OwnedVideo` (see
      `NonOwnerUpdatesAsWritten` for the code as written). The response
      carries the updated video, or `None` when the caller owns no video with
      that id. */
  method UpdateVideo(db: Database.Db, caller: Id, videoId: Id, title: Option<string>, description: Option<string>,
                     thumbnailPath: Option<string>, upload: Uploader) returns (r: Result<Option<Video>>)
    requires db.Valid()
    modifies db`videos
    ensures db.Valid()
    ensures videoId == "" ==> r == Err(ApiError(400, IdMissing))
    ensures videoId != "" && Truthy(thumbnailPath) && upload(thumbnailPath.value).None? ==>
              r == Err(ApiError(400, ThumbnailUploadFailed))
    ensures videoId != "" && !Truthy(title) && !Truthy(description) && !Truthy(thumbnailPath) ==>
              r == Err(ApiError(400, NoField))
    ensures var url := if Truthy(thumbnailPath) then upload(thumbnailPath.value) else None;
            r.Ok? <==> videoId != "" && (Truthy(thumbnailPath) ==> url.Some?) &&
                       !NoFields(RequestedFields(title, description, url)) && IsValidObjectId(videoId)
    ensures r.Err? ==> db.videos == old(db.videos)
    ensures r.Ok? ==>
              var url := if Truthy(thumbnailPath) then upload(thumbnailPath.value) else None;
              var u := Store.UpdateFirst(old(db.videos), OwnedVideo(videoId, caller), Applying(RequestedFields(title, description, url)));
              db.videos == u.rows && r.value == u.result
    ensures r.Ok? ==>
              var url := if Truthy(thumbnailPath) then upload(thumbnailPath.value) else None;
              |db.videos| == |old(db.videos)| &&
              forall j :: 0 <= j < |db.videos| ==>
                db.videos[j] == old(db.videos)[j] ||
                (old(db.videos)[j].id == videoId && old(db.videos)[j].owner == caller &&
                 db.videos[j] == ApplyVideoFields(old(db.videos)[j], RequestedFields(title, description, url)))
  {
    if videoId == "" {
      return Err(ApiError(400, IdMissing));
    }
    var fields := VideoFields(None, None, None);
    if Truthy(title) {
      fields := fields.(title := title);
    }
    if Truthy(description) {
      fields := fields.(description := description);
    }
    if Truthy(thumbnailPath) {
      var thumbnailUrl := upload(thumbnailPath.value);
      if thumbnailUrl.None? {
        return Err(ApiError(400, ThumbnailUploadFailed));
      }
      fields := fields.(thumbnail := thumbnailUrl);
    }
    ghost var url := if Truthy(thumbnailPath) then upload(thumbnailPath.value) else None;
    assert fields == RequestedFields(title, description, url);
    if NoFields(fields) {
      return Err(ApiError(400, NoField));
    }
    if !IsValidObjectId(videoId) {
      return Err(Crash(CastError));
    }
    var u := Store.UpdateFirst(db.videos, OwnedVideo(videoId, caller), Applying(fields));
    Store.UniqueUpdateFirst(db.videos, VideoIdOf, OwnedVideo(videoId, caller), Applying(fields));
    db.videos := u.rows;
    return Ok(u.result);
  }

  // --------------------------------------------------------------- deleteVideo

  /** `deleteVideo`. Any caller may delete any video: the handler does not
      look at the owner. */
  method DeleteVideo(db: Database.Db, videoId: Id) returns (r: Result<()>)
    requires db.Valid()
    modifies db`videos
    ensures db.Valid()
    ensures !IsValidObjectId(videoId) ==> r == Err(Crash(CastError)) && db.videos == old(db.videos)
    ensures IsValidObjectId(videoId) ==> r == Ok(())
    ensures IsValidObjectId(videoId) ==> db.videos == Store.DeleteById(old(db.videos), VideoIdOf, videoId).rows
    ensures IsValidObjectId(videoId) ==> !Store.HasId(db.videos, VideoIdOf, videoId)
  {
    if !IsValidObjectId(videoId) {
      return Err(Crash(CastError));
    }
    Store.DeleteByIdRemovesAll(db.videos, VideoIdOf, videoId);
    db.videos := Store.DeleteById(db.videos, VideoIdOf, videoId).rows;
    // The re-read of the deleted id finds nothing, so "video not deleted yet" is never sent.
    if Store.FindById(db.videos, VideoIdOf, videoId).Some? {
      assert false;
    }
    return Ok(());
  }

  // ------------------------------------------------------- togglePublishStatus

  function FlipPublished(v: Video): (w: Video)
    ensures w.isPublished == !v.isPublished && w.(isPublished := v.isPublished) == v
  {
    v.(isPublished := !v.isPublished)
  }

  function Flipping(): Video -> Video {
    (v: Video) => FlipPublished(v)
  }

  /** `togglePublishStatus`, corrected to the owner filter `OwnedVideo` (see
      `NonOwnerTogglesAsWritten` for the code as written): `isPublished` of
      the caller's video negated; the response is the updated video, or
      `None` when the caller owns no video with that id. */
  method TogglePublishStatus(db: Database.Db, caller: Id, videoId: Id) returns (r: Result<Option<Video>>)
    requires db.Valid()
    modifies db`videos
    ensures db.Valid()
    ensures !IsValidObjectId(videoId) ==> r == Err(Crash(CastError)) && db.videos == old(db.videos)
    ensures IsValidObjectId(videoId) ==>
              var u := Store.UpdateFirst(old(db.videos), OwnedVideo(videoId, caller), Flipping());
              r == Ok(u.result) && db.videos == u.rows
    ensures r.Ok? && r.value.Some? ==>
              r.value.value in db.videos && r.value.value.id == videoId && r.value.value.owner == caller &&
              exists j :: 0 <= j < |old(db.videos)| && db.videos[j] == r.value.value &&
                          r.value.value == FlipPublished(old(db.videos)[j])
  {
    if !IsValidObjectId(videoId) {
      return Err(Crash(CastError));
    }
    var u := Store.UpdateFirst(db.videos, OwnedVideo(videoId, caller), Flipping());
    if u.result.Some? {
      var i := Store.IndexWhere(db.videos, OwnedVideo(videoId, caller)).value;
      Store.UniqueReplace(db.videos, VideoIdOf, i, FlipPublished(db.videos[i]));
      assert u.rows[i] == u.result.value;
    }
    db.videos := u.rows;
    return Ok(u.result);
  }

  /** Two toggles of the same video by the same caller restore the table. */
  lemma TogglePublishTwice(videos: seq<Video>, videoId: Id, caller: Id)
    ensures var once := Store.UpdateFirst(videos, OwnedVideo(videoId, caller), Flipping()).rows;
            Store.UpdateFirst(once, OwnedVideo(videoId, caller), Flipping()).rows == videos
  {
    Store.UpdateFirstTwice(videos, OwnedVideo(videoId, caller), Flipping());
  }
}
