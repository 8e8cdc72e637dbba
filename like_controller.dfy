/** The like handlers. The three toggles are the same code in
    backend/src/controllers/like.controller.js and
    src/controllers/like.controller.js; `getLikedVideos` has a body only in
    the backend/ copy. */
module LikeController {
  import opened Common
  import opened Records
  import opened Pipeline
  import opened Pagination
  import Store
  import Toggle
  import Database


  // ------------------------------------------------------------------ toggles

  /** What `findOneAndDelete` filters on: the liker and the target field. */
  datatype LikeKey = LikeKey(likedBy: Id, target: LikeTarget)

  function KeyOf(l: Like): LikeKey { LikeKey(l.likedBy, l.target) }

  function KeyOfLike(): Like -> LikeKey { (l: Like) => KeyOf(l) }

  /** The response: "like deleted" (no data) or the created like. */
  datatype LikeReply = LikeDeleted | LikeCreated(like: Like)

  /** How many likes the caller has on the target. */
  function LikesOn(likes: seq<Like>, caller: Id, target: LikeTarget): nat {
    Toggle.CountKey(likes, KeyOfLike(), LikeKey(caller, target))
  }

  /** No one likes the same target twice: the state every sequence of
      toggles starting from an empty table keeps. */
  ghost predicate SingleLikes(likes: seq<Like>) {
    Toggle.AtMostOnePerKey(likes, KeyOfLike())
  }

  /** The delete-else-create rule of the three toggles. */
  method ToggleLike(db: Database.Db, caller: Id, target: LikeTarget, newId: Id, now: nat) returns (reply: LikeReply)
    requires db.Valid() && !Store.HasId(db.likes, LikeIdOf, newId)
    modifies db`likes
    ensures db.Valid()
    ensures var t := Toggle.ToggleRows(old(db.likes), KeyOfLike(), LikeKey(caller, target), Like(newId, target, caller, now));
            db.likes == t.rows
    ensures reply == LikeDeleted <==> LikesOn(old(db.likes), caller, target) > 0
    ensures reply.LikeCreated? ==> reply.like == Like(newId, target, caller, now) && db.likes == old(db.likes) + [reply.like]
    ensures LikesOn(db.likes, caller, target) ==
              if LikesOn(old(db.likes), caller, target) > 0 then LikesOn(old(db.likes), caller, target) - 1 else 1
    ensures Toggle.Others(db.likes, KeyOfLike(), LikeKey(caller, target)) ==
            Toggle.Others(old(db.likes), KeyOfLike(), LikeKey(caller, target))
    ensures SingleLikes(old(db.likes)) ==> SingleLikes(db.likes)
  {
    var key := LikeKey(caller, target);
    var created := Like(newId, target, caller, now);
    var t := Toggle.ToggleRows(db.likes, KeyOfLike(), key, created);
    match Toggle.KeyIndex(db.likes, KeyOfLike(), key) {
      case Some(i) => Store.UniqueRemoveAt(db.likes, LikeIdOf, i);
      case None => Store.UniqueAppend(db.likes, LikeIdOf, created);
    }
    if SingleLikes(db.likes) {
      Toggle.ToggleKeepsAtMostOne(db.likes, KeyOfLike(), key, created);
    }
    db.likes := t.rows;
    if t.deleted.Some? {
      return LikeDeleted;
    }
    return LikeCreated(created);
  }

  /** `toggleVideoLike`. */
  method ToggleVideoLike(db: Database.Db, caller: Id, videoId: Id, newId: Id, now: nat) returns (r: Result<LikeReply>)
    requires db.Valid() && !Store.HasId(db.likes, LikeIdOf, newId)
    modifies db`likes
    ensures db.Valid()
    ensures !IsValidObjectId(videoId) ==> r == Err(ApiError(400, "videoId is wrong")) && db.likes == old(db.likes)
    ensures IsValidObjectId(videoId) ==>
              r.Ok? &&
              db.likes == Toggle.ToggleRows(old(db.likes), KeyOfLike(), LikeKey(caller, OnVideo(videoId)),
                                            Like(newId, OnVideo(videoId), caller, now)).rows &&
              (r.value == LikeDeleted <==> LikesOn(old(db.likes), caller, OnVideo(videoId)) > 0)
    ensures SingleLikes(old(db.likes)) ==> SingleLikes(db.likes)
  {
    if !IsValidObjectId(videoId) {
      return Err(ApiError(400, "videoId is wrong"));
    }
    var reply := ToggleLike(db, caller, OnVideo(videoId), newId, now);
    return Ok(reply);
  }

  /** `toggleCommentike` (the name is the source's). */
  method ToggleCommentLike(db: Database.Db, caller: Id, commentId: Id, newId: Id, now: nat) returns (r: Result<LikeReply>)
    requires db.Valid() && !Store.HasId(db.likes, LikeIdOf, newId)
    modifies db`likes
    ensures db.Valid()
    ensures !IsValidObjectId(commentId) ==> r == Err(ApiError(400, "commentId is wrong")) && db.likes == old(db.likes)
    ensures IsValidObjectId(commentId) ==>
              r.Ok? &&
              db.likes == Toggle.ToggleRows(old(db.likes), KeyOfLike(), LikeKey(caller, OnComment(commentId)),
                                            Like(newId, OnComment(commentId), caller, now)).rows &&
              (r.value == LikeDeleted <==> LikesOn(old(db.likes), caller, OnComment(commentId)) > 0)
    ensures SingleLikes(old(db.likes)) ==> SingleLikes(db.likes)
  {
    if !IsValidObjectId(commentId) {
      return Err(ApiError(400, "commentId is wrong"));
    }
    var reply := ToggleLike(db, caller, OnComment(commentId), newId, now);
    return Ok(reply);
  }

  /** `toggleTweetLike`. */
  method ToggleTweetLike(db: Database.Db, caller: Id, tweetId: Id, newId: Id, now: nat) returns (r: Result<LikeReply>)
    requires db.Valid() && !Store.HasId(db.likes, LikeIdOf, newId)
    modifies db`likes
    ensures db.Valid()
    ensures !IsValidObjectId(tweetId) ==> r == Err(ApiError(400, "tweetId is wrong")) && db.likes == old(db.likes)
    ensures IsValidObjectId(tweetId) ==>
              r.Ok? &&
              db.likes == Toggle.ToggleRows(old(db.likes), KeyOfLike(), LikeKey(caller, OnTweet(tweetId)),
                                            Like(newId, OnTweet(tweetId), caller, now)).rows &&
              (r.value == LikeDeleted <==> LikesOn(old(db.likes), caller, OnTweet(tweetId)) > 0)
    ensures SingleLikes(old(db.likes)) ==> SingleLikes(db.likes)
  {
    if !IsValidObjectId(tweetId) {
      return Err(ApiError(400, "tweetId is wrong"));
    }
    var reply := ToggleLike(db, caller, OnTweet(tweetId), newId, now);
    return Ok(reply);
  }

  /** Liking, then unliking, restores the table; a like on one target never
      disturbs the likes on another, nor another user's. */
  lemma LikeThenUnlike(likes: seq<Like>, caller: Id, target: LikeTarget, first: Like, second: Like, other: LikeKey)
    requires LikesOn(likes, caller, target) == 0
    requires KeyOf(first) == LikeKey(caller, target) && KeyOf(second) == LikeKey(caller, target)
    requires other != LikeKey(caller, target)
    ensures var once := Toggle.ToggleRows(likes, KeyOfLike(), LikeKey(caller, target), first);
            Toggle.ToggleRows(once.rows, KeyOfLike(), LikeKey(caller, target), second) == Toggle.Toggled(likes, Some(first))
    ensures Toggle.CountKey(Toggle.ToggleRows(likes, KeyOfLike(), LikeKey(caller, target), first).rows, KeyOfLike(), other)
         == Toggle.CountKey(likes, KeyOfLike(), other)
  {
    Toggle.ToggleTwiceFromAbsent(likes, KeyOfLike(), LikeKey(caller, target), first, second);
    Toggle.ToggleKeepsOtherCounts(likes, KeyOfLike(), LikeKey(caller, target), first, other);
  }

  /** Starting from no likes: like video A, like video B, like A again (an
      unlike). What is left is the like on B. */
  lemma LikeScenario(caller: Id, a: Id, b: Id, la: Like, lb: Like, la2: Like)
    requires a != b
    requires la == Like("l1", OnVideo(a), caller, 1) && lb == Like("l2", OnVideo(b), caller, 2)
    requires la2 == Like("l3", OnVideo(a), caller, 3)
    ensures var s1 := Toggle.ToggleRows([], KeyOfLike(), LikeKey(caller, OnVideo(a)), la).rows;
            var s2 := Toggle.ToggleRows(s1, KeyOfLike(), LikeKey(caller, OnVideo(b)), lb).rows;
            var s3 := Toggle.ToggleRows(s2, KeyOfLike(), LikeKey(caller, OnVideo(a)), la2);
            s3.deleted == Some(la) && s3.rows == [lb]
  {
    var ka := LikeKey(caller, OnVideo(a));
    var kb := LikeKey(caller, OnVideo(b));
    var s1 := Toggle.ToggleRows([], KeyOfLike(), ka, la).rows;
    assert s1 == [la];
    assert Toggle.CountKey(s1, KeyOfLike(), kb) == 0 by {
      assert s1[1..] == [];
    }
    var s2 := Toggle.ToggleRows(s1, KeyOfLike(), kb, lb).rows;
    assert s2 == [la, lb];
    assert Toggle.KeyIndex(s2, KeyOfLike(), ka) == Some(0);
    assert Store.RemoveAt(s2, 0) == [lb];
  }

  // ----------------------------------------------------------- getLikedVideos

  /** The `owner` of a row: absent when the video's owner does not exist
      (the owner `$unwind` keeps such rows). */
  datatype LikedVideoCard = LikedVideoCard(id: Id, title: string, description: string, thumbnail: string,
                                           views: nat, duration: nat, createdAt: nat, owner: Option<Profile>)

  datatype LikedVideo = LikedVideo(likedAt: nat, video: LikedVideoCard)

  datatype LikedVideoList = LikedVideoList(videos: seq<LikedVideo>, pagination: PageInfo)

  function OwnerProfile(users: seq<User>, v: Video): (p: Option<Profile>)
    ensures p.Some? <==> exists j :: 0 <= j < |users| && users[j].id == v.owner
    ensures p.Some? ==> exists u :: u in users && u.id == v.owner && p.value == ProfileOf(u)
  {
    match Store.FindById(users, UserIdOf, v.owner)
    case Some(u) => Some(ProfileOf(u))
    case None => None
  }

  function LikedRow(users: seq<User>): (Like, Video) -> LikedVideo {
    (l: Like, v: Video) =>
      LikedVideo(l.createdAt, LikedVideoCard(v.id, v.title, v.description, v.thumbnail, v.views, v.duration,
                                             v.createdAt, OwnerProfile(users, v)))
  }

  /** The liked video `$lookup`: none for a like without a video. */
  function LikedVideoOf(videos: seq<Video>): Like -> Option<Video> {
    (l: Like) => if l.target.OnVideo? then Store.FindById(videos, VideoIdOf, l.target.video) else None
  }

  /** `{ likedBy: caller, video: { $ne: null } }`. */
  function CallerVideoLikes(likes: seq<Like>, caller: Id): (r: seq<Like>)
    ensures forall l :: l in r <==> l in likes && l.likedBy == caller && l.target.OnVideo?
  {
    Filter(likes, (l: Like) => l.likedBy == caller && l.target.OnVideo?)
  }

  function LikeCreatedAt(): Like -> int { (l: Like) => l.createdAt }

  function RowLikedAt(): LikedVideo -> int { (row: LikedVideo) => row.likedAt }

  /** The caller's video likes, newest first. */
  function NewestLikes(likes: seq<Like>, caller: Id): (s: seq<Like>)
    ensures SortedDesc(s, LikeCreatedAt())
    ensures forall l :: l in s <==> l in likes && l.likedBy == caller && l.target.OnVideo?
    ensures |s| == |CallerVideoLikes(likes, caller)|
  {
    SortDesc(CallerVideoLikes(likes, caller), LikeCreatedAt())
  }

  /** `getLikedVideos`: the caller's video likes, newest first, paginated
      BEFORE the joins; a like whose video is gone is then dropped, so a
      page can be short. */
  function GetLikedVideos(likes: seq<Like>, videos: seq<Video>, users: seq<User>, caller: Id,
                          page: Option<int>, limit: Option<int>): (r: Result<LikedVideoList>)
    ensures !IsValidObjectId(caller) ==> r == Err(ApiError(400, "Invalid userId"))
    ensures r.Ok? <==> IsValidObjectId(caller) && Paginate(page, limit).limitNumber >= 1
    ensures r.Ok? ==>
              var p := Paginate(page, limit);
              var rows := r.value.videos;
              |rows| <= p.limitNumber &&
              SortedDesc(rows, RowLikedAt()) &&
              (forall row :: row in rows ==>
                 exists l :: l in likes && l.likedBy == caller && l.target.OnVideo? &&
                             LikedVideoOf(videos)(l).Some? && row == LikedRow(users)(l, LikedVideoOf(videos)(l).value)) &&
              r.value.pagination == Envelope(|CallerVideoLikes(likes, caller)|, p)
    ensures r.Ok? ==>
              var p := Paginate(page, limit);
              r.value.videos == Join(Window(NewestLikes(likes, caller), p.skip, p.limitNumber), LikedVideoOf(videos), LikedRow(users))
  {
    if !IsValidObjectId(caller) then Err(ApiError(400, "Invalid userId"))
    else
      var p := Paginate(page, limit);
      if !Accepted(p) then Err(Crash(Rejection(p)))
      else
        var sorted := NewestLikes(likes, caller);
        var window := Window(sorted, p.skip, p.limitNumber);
        WindowSortedDesc(sorted, p.skip, p.limitNumber, LikeCreatedAt());
        JoinSortedDesc(window, LikedVideoOf(videos), LikedRow(users), LikeCreatedAt(), RowLikedAt());
        var rows := Join(window, LikedVideoOf(videos), LikedRow(users));
        Ok(LikedVideoList(rows, Envelope(|CallerVideoLikes(likes, caller)|, p)))
  }

  /** Each row carries the like's time as `likedAt`, the liked video's
      fields, and the owner's profile when the owner exists. */
  lemma LikedRowFields(users: seq<User>, l: Like, v: Video)
    ensures var row := LikedRow(users)(l, v);
            row.likedAt == l.createdAt && row.video.id == v.id && row.video.title == v.title &&
            row.video.views == v.views && row.video.createdAt == v.createdAt &&
            (row.video.owner.Some? <==> Store.HasId(users, UserIdOf, v.owner))
  {
  }

  /** No liked video is lost to pagination: a like of the caller whose video
      exists yields a row on one of the pages 1..totalPages, provided no two
      of the caller's video likes share a `createdAt` (their newest-first
      order is then the only one `$sort` can give). */
  lemma EveryLikedVideoOnSomePage(likes: seq<Like>, videos: seq<Video>, users: seq<User>, caller: Id,
                                  page: Option<int>, limit: Option<int>, l: Like)
    requires GetLikedVideos(likes, videos, users, caller, page, limit).Ok?
    requires l in likes && l.likedBy == caller && l.target.OnVideo? && Store.HasId(videos, VideoIdOf, l.target.video)
    requires DistinctKeys(NewestLikes(likes, caller), LikeCreatedAt())
    ensures forall other :: SortedDesc(other, LikeCreatedAt()) && multiset(other) == multiset(NewestLikes(likes, caller)) ==>
              other == NewestLikes(likes, caller)
    ensures exists n: int ::
              1 <= n <= GetLikedVideos(likes, videos, users, caller, page, limit).value.pagination.totalPages &&
              LikedRow(users)(l, LikedVideoOf(videos)(l).value) in GetLikedVideos(likes, videos, users, caller, Some(n), limit).value.videos
  {
    var sorted := NewestLikes(likes, caller);
    forall other | SortedDesc(other, LikeCreatedAt()) && multiset(other) == multiset(sorted) ensures other == sorted {
      SortedDescUnique(sorted, other, LikeCreatedAt());
    }
    var total := |CallerVideoLikes(likes, caller)|;
    OnSomeRequestedPage(sorted, total, page, limit, l);
    var n: int :| 1 <= n <= TotalPages(total, Paginate(page, limit).limitNumber) &&
                  l in Window(sorted, Paginate(Some(n), limit).skip, Paginate(Some(n), limit).limitNumber);
    PaginateAtPage(n, limit, page);
    var p := Paginate(Some(n), limit);
    var first := GetLikedVideos(likes, videos, users, caller, page, limit);
    assert first.value.pagination.totalPages == TotalPages(total, Paginate(page, limit).limitNumber);
    var other := GetLikedVideos(likes, videos, users, caller, Some(n), limit);
    assert other.value.videos == Join(Window(sorted, p.skip, p.limitNumber), LikedVideoOf(videos), LikedRow(users));
    assert LikedVideoOf(videos)(l).Some?;
  }
}
