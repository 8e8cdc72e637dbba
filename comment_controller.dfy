/** The comment handlers of src/controllers/comment.controller.js: the paged
    comments of a video, and adding, editing and deleting a comment. */
module CommentController {
  import opened Common
  import opened Records
  import opened Pipeline
  import opened Pagination
  import Store
  import Database


  // ---------------------------------------------------------- getVideoComments

  /** One row: `_id`, `content`, `createdAt` and the author's profile. */
  datatype CommentRow = CommentRow(id: Id, content: string, createdAt: nat, owner: Profile)

  datatype CommentList = CommentList(comments: seq<CommentRow>, pagination: PageInfo)

  function OnVideo(comments: seq<Comment>, videoId: Id): (r: seq<Comment>)
    ensures forall c :: c in r <==> c in comments && c.video == videoId
  {
    Filter(comments, (c: Comment) => c.video == videoId)
  }

  function AuthorOf(users: seq<User>): Comment -> Option<User> {
    (c: Comment) => Store.FindById(users, UserIdOf, c.owner)
  }

  function RowOf(c: Comment, u: User): CommentRow {
    CommentRow(c.id, c.content, c.createdAt, ProfileOf(u))
  }

  function RowCreatedAt(): CommentRow -> int { (row: CommentRow) => row.createdAt }

  /** The video's comments whose author exists, newest first. */
  function Thread(comments: seq<Comment>, users: seq<User>, videoId: Id): (s: seq<CommentRow>)
    ensures SortedDesc(s, RowCreatedAt())
    ensures forall row :: row in s ==>
              exists c, u :: c in comments && c.video == videoId && u in users && u.id == c.owner && row == RowOf(c, u)
    ensures forall c :: c in comments && c.video == videoId && AuthorOf(users)(c).Some? ==>
              RowOf(c, AuthorOf(users)(c).value) in s
  {
    SortDesc(Join(OnVideo(comments, videoId), AuthorOf(users), RowOf), RowCreatedAt())
  }

  /** `getVideoComments`. */
  function GetVideoComments(comments: seq<Comment>, users: seq<User>, videoId: Id,
                            page: Option<int>, limit: Option<int>): (r: Result<CommentList>)
    ensures videoId == "" ==> r == Err(ApiError(400, "video id not available"))
    ensures videoId != "" && !IsValidObjectId(videoId) ==> r == Err(ApiError(400, "videoId is wrong"))
    ensures r.Ok? <==> IsValidObjectId(videoId) && Paginate(page, limit).limitNumber >= 1
    ensures r.Ok? ==>
              var p := Paginate(page, limit);
              var rows := r.value.comments;
              |rows| <= p.limitNumber &&
              SortedDesc(rows, RowCreatedAt()) &&
              (forall row :: row in rows ==>
                 exists c, u :: c in comments && c.video == videoId && u in users && u.id == c.owner && row == RowOf(c, u)) &&
              r.value.pagination == Envelope(|OnVideo(comments, videoId)|, p)
    ensures r.Ok? ==>
              var p := Paginate(page, limit);
              r.value.comments == Window(Thread(comments, users, videoId), p.skip, p.limitNumber)
  {
    if videoId == "" then Err(ApiError(400, "video id not available"))
    else if !IsValidObjectId(videoId) then Err(ApiError(400, "videoId is wrong"))
    else
      var p := Paginate(page, limit);
      if !Accepted(p) then Err(Crash(Rejection(p)))
      else
        var s := Thread(comments, users, videoId);
        WindowSortedDesc(s, p.skip, p.limitNumber, RowCreatedAt());
        Ok(CommentList(Window(s, p.skip, p.limitNumber), Envelope(|OnVideo(comments, videoId)|, p)))
  }

  /** Every comment on the video whose author exists is on one of the pages
      1..totalPages, provided no two rows share a `createdAt`: then the
      thread is the only order `$sort` can give, so separate page requests
      see the same order. */
  lemma EveryCommentOnSomePage(comments: seq<Comment>, users: seq<User>, videoId: Id,
                               page: Option<int>, limit: Option<int>, c: Comment)
    requires GetVideoComments(comments, users, videoId, page, limit).Ok?
    requires c in comments && c.video == videoId && Store.HasId(users, UserIdOf, c.owner)
    requires DistinctKeys(Thread(comments, users, videoId), RowCreatedAt())
    ensures forall other :: SortedDesc(other, RowCreatedAt()) && multiset(other) == multiset(Thread(comments, users, videoId)) ==>
              other == Thread(comments, users, videoId)
    ensures exists n: int ::
              1 <= n <= GetVideoComments(comments, users, videoId, page, limit).value.pagination.totalPages &&
              RowOf(c, AuthorOf(users)(c).value) in GetVideoComments(comments, users, videoId, Some(n), limit).value.comments
  {
    var s := Thread(comments, users, videoId);
    forall other | SortedDesc(other, RowCreatedAt()) && multiset(other) == multiset(s) ensures other == s {
      SortedDescUnique(s, other, RowCreatedAt());
    }
    var row := RowOf(c, AuthorOf(users)(c).value);
    OnSomeRequestedPage(s, |OnVideo(comments, videoId)|, page, limit, row);
    var n: int :| 1 <= n <= TotalPages(|OnVideo(comments, videoId)|, Paginate(page, limit).limitNumber) &&
                  row in Window(s, Paginate(Some(n), limit).skip, Paginate(Some(n), limit).limitNumber);
    PaginateAtPage(n, limit, page);
    var r := GetVideoComments(comments, users, videoId, Some(n), limit);
    assert r.Ok? && r.value.comments == Window(s, Paginate(Some(n), limit).skip, Paginate(Some(n), limit).limitNumber);
  }

  // ---------------------------------------------------------------- addComment

  /** `addComment`: a comment by the caller on the video. The re-read of the
      new comment always finds it, so "comment not added" is never sent. */
  method AddComment(db: Database.Db, caller: Id, videoId: Id, content: Option<string>, newId: Id, now: nat)
    returns (r: Result<Comment>)
    requires db.Valid() && !Store.HasId(db.comments, CommentIdOf, newId)
    modifies db`comments
    ensures db.Valid()
    ensures videoId == "" ==> r == Err(ApiError(400, "video Id not available"))
    ensures videoId != "" && !Truthy(content) ==> r == Err(ApiError(400, "Comment cannot be empty"))
    ensures r.Ok? <==> videoId != "" && Truthy(content)
    ensures r.Ok? ==> r.value == Comment(newId, content.value, videoId, caller, now) &&
                      db.comments == old(db.comments) + [r.value]
    ensures r.Err? ==> db.comments == old(db.comments)
  {
    if videoId == "" {
      return Err(ApiError(400, "video Id not available"));
    }
    if !Truthy(content) {
      return Err(ApiError(400, "Comment cannot be empty"));
    }
    var comment := Comment(newId, content.value, videoId, caller, now);
    Store.UniqueAppend(db.comments, CommentIdOf, comment);
    db.comments := db.comments + [comment];
    assert db.comments[|db.comments| - 1] == comment;
    if Store.FindById(db.comments, CommentIdOf, newId).None? {
      assert false;
    }
    return Ok(comment);
  }

  // ------------------------------------------------------------- updateComment

  function HasCommentId(commentId: Id): Comment -> bool {
    (c: Comment) => c.id == commentId
  }

  function SetContent(content: string): Comment -> Comment {
    (c: Comment) => c.(content := content)
  }

  /** `updateComment`: `$set` of `content` on the comment with that id. No
      owner check is made, and when no comment matches the handler still
      answers 200 with `null`. */
  method UpdateComment(db: Database.Db, commentId: Id, newContent: Option<string>) returns (r: Result<Option<Comment>>)
    requires db.Valid()
    modifies db`comments
    ensures db.Valid()
    ensures commentId == "" ==> r == Err(ApiError(400, "commentId not available"))
    ensures commentId != "" && !Truthy(newContent) ==> r == Err(ApiError(400, "new content is required"))
    ensures commentId != "" && Truthy(newContent) && !IsValidObjectId(commentId) ==> r == Err(Crash(CastError))
    ensures r.Ok? <==> IsValidObjectId(commentId) && Truthy(newContent)
    ensures r.Err? ==> db.comments == old(db.comments)
    ensures r.Ok? ==>
              var u := Store.UpdateFirst(old(db.comments), HasCommentId(commentId), SetContent(newContent.value));
              db.comments == u.rows && r.value == u.result
    ensures r.Ok? ==> (r.value.None? <==> !Store.HasId(old(db.comments), CommentIdOf, commentId))
    ensures r.Ok? && r.value.Some? ==> r.value.value.id == commentId && r.value.value.content == newContent.value
    ensures |db.comments| == |old(db.comments)|
    ensures forall j :: 0 <= j < |db.comments| ==> db.comments[j].(content := old(db.comments)[j].content) == old(db.comments)[j]
  {
    if commentId == "" {
      return Err(ApiError(400, "commentId not available"));
    }
    if !Truthy(newContent) {
      return Err(ApiError(400, "new content is required"));
    }
    if !IsValidObjectId(commentId) {
      return Err(Crash(CastError));
    }
    var u := Store.UpdateFirst(db.comments, HasCommentId(commentId), SetContent(newContent.value));
    Store.UniqueUpdateFirst(db.comments, CommentIdOf, HasCommentId(commentId), SetContent(newContent.value));
    db.comments := u.rows;
    return Ok(u.result);
  }

  /** Sending the same edit twice leaves the comments as one edit did. */
  lemma UpdateCommentTwice(comments: seq<Comment>, commentId: Id, content: string)
    ensures var once := Store.UpdateFirst(comments, HasCommentId(commentId), SetContent(content));
            Store.UpdateFirst(once.rows, HasCommentId(commentId), SetContent(content)) == once
  {
    Store.UpdateFirstIdempotent(comments, HasCommentId(commentId), SetContent(content));
  }

  // ------------------------------------------------------------- deleteComment

  /** `deleteComment`: removes the comment with that id, whoever wrote it.
      The re-read finds nothing, so "comment not deleted yet" is never sent. */
  method DeleteComment(db: Database.Db, commentId: Id) returns (r: Result<()>)
    requires db.Valid()
    modifies db`comments
    ensures db.Valid()
    ensures commentId == "" ==> r == Err(ApiError(400, "comment Id not available"))
    ensures commentId != "" && !IsValidObjectId(commentId) ==> r == Err(Crash(CastError))
    ensures r.Ok? <==> IsValidObjectId(commentId)
    ensures r.Err? ==> db.comments == old(db.comments)
    ensures r.Ok? ==> db.comments == Store.DeleteById(old(db.comments), CommentIdOf, commentId).rows
    ensures r.Ok? ==> !Store.HasId(db.comments, CommentIdOf, commentId)
  {
    if commentId == "" {
      return Err(ApiError(400, "comment Id not available"));
    }
    if !IsValidObjectId(commentId) {
      return Err(Crash(CastError));
    }
    Store.DeleteByIdRemovesAll(db.comments, CommentIdOf, commentId);
    db.comments := Store.DeleteById(db.comments, CommentIdOf, commentId).rows;
    if Store.FindById(db.comments, CommentIdOf, commentId).Some? {
      assert false;
    }
    return Ok(());
  }

  /** Deleting the comment just added restores the comments. */
  lemma AddThenDelete(comments: seq<Comment>, added: Comment)
    requires !Store.HasId(comments, CommentIdOf, added.id)
    ensures Store.DeleteById(comments + [added], CommentIdOf, added.id).rows == comments
  {
    Store.DeleteAppended(comments, CommentIdOf, added);
  }
}
