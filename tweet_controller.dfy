/** The tweet handlers of src/controllers/tweet.controller.js: creating,
    deleting and editing a tweet, and the caller's paged tweets. */
module TweetController {
  import opened Common
  import opened Records
  import opened Pipeline
  import opened Pagination
  import Store
  import Database


  // --------------------------------------------------------------- createTweet

  /** `createTweet`: a tweet owned by the caller. The re-read of the new tweet
      always finds it, so "tweet not created yet" is never sent. */
  method CreateTweet(db: Database.Db, caller: Id, content: Option<string>, newId: Id, now: nat) returns (r: Result<Tweet>)
    requires db.Valid() && !Store.HasId(db.tweets, TweetIdOf, newId)
    modifies db`tweets
    ensures db.Valid()
    ensures !Truthy(content) ==> r == Err(ApiError(400, "content is required"))
    ensures r.Ok? <==> Truthy(content)
    ensures r.Ok? ==> r.value == Tweet(newId, content.value, caller, now) && db.tweets == old(db.tweets) + [r.value]
    ensures r.Err? ==> db.tweets == old(db.tweets)
  {
    if !Truthy(content) {
      return Err(ApiError(400, "content is required"));
    }
    var tweet := Tweet(newId, content.value, caller, now);
    Store.UniqueAppend(db.tweets, TweetIdOf, tweet);
    db.tweets := db.tweets + [tweet];
    assert db.tweets[|db.tweets| - 1] == tweet;
    if Store.FindById(db.tweets, TweetIdOf, newId).None? {
      assert false;
    }
    return Ok(tweet);
  }

  // --------------------------------------------------------------- deleteTweet

  /** `deleteTweet`: removes the tweet with that id, whoever owns it. The
      re-read finds nothing, so "tweet not deleted yet" is never sent. */
  method DeleteTweet(db: Database.Db, tweetId: Id) returns (r: Result<()>)
    requires db.Valid()
    modifies db`tweets
    ensures db.Valid()
    ensures tweetId == "" ==> r == Err(ApiError(400, "tweet id not available"))
    ensures tweetId != "" && !IsValidObjectId(tweetId) ==> r == Err(Crash(CastError))
    ensures r.Ok? <==> IsValidObjectId(tweetId)
    ensures r.Err? ==> db.tweets == old(db.tweets)
    ensures r.Ok? ==> db.tweets == Store.DeleteById(old(db.tweets), TweetIdOf, tweetId).rows
    ensures r.Ok? ==> !Store.HasId(db.tweets, TweetIdOf, tweetId)
  {
    if tweetId == "" {
      return Err(ApiError(400, "tweet id not available"));
    }
    if !IsValidObjectId(tweetId) {
      return Err(Crash(CastError));
    }
    Store.DeleteByIdRemovesAll(db.tweets, TweetIdOf, tweetId);
    db.tweets := Store.DeleteById(db.tweets, TweetIdOf, tweetId).rows;
    if Store.FindById(db.tweets, TweetIdOf, tweetId).Some? {
      assert false;
    }
    return Ok(());
  }

  /** Deleting the tweet just created restores the tweets. */
  lemma CreateThenDelete(tweets: seq<Tweet>, created: Tweet)
    requires !Store.HasId(tweets, TweetIdOf, created.id)
    ensures Store.DeleteById(tweets + [created], TweetIdOf, created.id).rows == tweets
  {
    Store.DeleteAppended(tweets, TweetIdOf, created);
  }

  // --------------------------------------------------------------- updateTweet

  function HasTweetId(tweetId: Id): Tweet -> bool {
    (t: Tweet) => t.id == tweetId
  }

  function SetContent(content: string): Tweet -> Tweet {
    (t: Tweet) => t.(content := content)
  }

  /** `updateTweet`: `$set` of `content` on the tweet with that id (no owner
      check); 400 when no tweet has that id. */
  method UpdateTweet(db: Database.Db, tweetId: Id, newContent: Option<string>) returns (r: Result<Tweet>)
    requires db.Valid()
    modifies db`tweets
    ensures db.Valid()
    ensures tweetId == "" ==> r == Err(ApiError(400, "tweet id not available"))
    ensures tweetId != "" && !Truthy(newContent) ==> r == Err(ApiError(400, "new content is required"))
    ensures tweetId != "" && Truthy(newContent) && !IsValidObjectId(tweetId) ==> r == Err(Crash(CastError))
    ensures IsValidObjectId(tweetId) && Truthy(newContent) && !Store.HasId(old(db.tweets), TweetIdOf, tweetId) ==>
              r == Err(ApiError(400, "tweet not updated yet"))
    ensures r.Ok? <==> IsValidObjectId(tweetId) && Truthy(newContent) && Store.HasId(old(db.tweets), TweetIdOf, tweetId)
    ensures r.Err? ==> db.tweets == old(db.tweets)
    ensures r.Ok? ==>
              var u := Store.UpdateFirst(old(db.tweets), HasTweetId(tweetId), SetContent(newContent.value));
              db.tweets == u.rows && u.result == Some(r.value)
    ensures r.Ok? ==> r.value.id == tweetId && r.value.content == newContent.value
    ensures |db.tweets| == |old(db.tweets)|
    ensures forall j :: 0 <= j < |db.tweets| ==> db.tweets[j].(content := old(db.tweets)[j].content) == old(db.tweets)[j]
  {
    if tweetId == "" {
      return Err(ApiError(400, "tweet id not available"));
    }
    if !Truthy(newContent) {
      return Err(ApiError(400, "new content is required"));
    }
    if !IsValidObjectId(tweetId) {
      return Err(Crash(CastError));
    }
    var u := Store.UpdateFirst(db.tweets, HasTweetId(tweetId), SetContent(newContent.value));
    if u.result.None? {
      return Err(ApiError(400, "tweet not updated yet"));
    }
    Store.UniqueUpdateFirst(db.tweets, TweetIdOf, HasTweetId(tweetId), SetContent(newContent.value));
    db.tweets := u.rows;
    return Ok(u.result.value);
  }

  /** Sending the same edit twice leaves the tweets as one edit did. */
  lemma UpdateTweetTwice(tweets: seq<Tweet>, tweetId: Id, content: string)
    ensures var once := Store.UpdateFirst(tweets, HasTweetId(tweetId), SetContent(content));
            Store.UpdateFirst(once.rows, HasTweetId(tweetId), SetContent(content)) == once
  {
    Store.UpdateFirstIdempotent(tweets, HasTweetId(tweetId), SetContent(content));
  }

  // ------------------------------------------------------------- getUserTweets

  /** One row: `_id`, `content` and the author's profile; no `createdAt`. */
  datatype TweetRow = TweetRow(id: Id, content: string, owner: Profile)

  datatype TweetList = TweetList(tweets: seq<TweetRow>, pagination: PageInfo)

  function OwnedBy(tweets: seq<Tweet>, owner: Id): (r: seq<Tweet>)
    ensures forall t :: t in r <==> t in tweets && t.owner == owner
  {
    Filter(tweets, (t: Tweet) => t.owner == owner)
  }

  function AuthorOf(users: seq<User>): Tweet -> Option<User> {
    (t: Tweet) => Store.FindById(users, UserIdOf, t.owner)
  }

  function RowOf(t: Tweet, u: User): TweetRow {
    TweetRow(t.id, t.content, ProfileOf(u))
  }

  /** `getUserTweets`: the caller's tweets. The projection drops `createdAt`
      before the `createdAt` sort, so no order is promised: the rows are taken
      in table order. */
  function GetUserTweets(tweets: seq<Tweet>, users: seq<User>, caller: Id,
                         page: Option<int>, limit: Option<int>): (r: Result<TweetList>)
    ensures caller == "" ==> r == Err(ApiError(400, "userId is not available"))
    ensures caller != "" && !IsValidObjectId(caller) ==> r == Err(Crash(BsonError))
    ensures r.Ok? <==> IsValidObjectId(caller) && Paginate(page, limit).limitNumber >= 1
    ensures r.Ok? ==>
              var p := Paginate(page, limit);
              var rows := r.value.tweets;
              |rows| <= p.limitNumber &&
              (forall row :: row in rows ==>
                 exists t, u :: t in tweets && t.owner == caller && u in users && u.id == caller && row == RowOf(t, u)) &&
              r.value.pagination == Envelope(|OwnedBy(tweets, caller)|, p)
    ensures r.Ok? ==>
              var p := Paginate(page, limit);
              r.value.tweets == Window(Join(OwnedBy(tweets, caller), AuthorOf(users), RowOf), p.skip, p.limitNumber)
  {
    if caller == "" then Err(ApiError(400, "userId is not available"))
    else if !IsValidObjectId(caller) then Err(Crash(BsonError))
    else
      var p := Paginate(page, limit);
      if !Accepted(p) then Err(Crash(Rejection(p)))
      else
        var joined := Join(OwnedBy(tweets, caller), AuthorOf(users), RowOf);
        Ok(TweetList(Window(joined, p.skip, p.limitNumber), Envelope(|OwnedBy(tweets, caller)|, p)))
  }

  /** When the caller's user document exists, every one of the caller's
      tweets is on one of the pages 1..totalPages, and the pages together
      hold exactly `total` rows. */
  lemma EveryTweetOnSomePage(tweets: seq<Tweet>, users: seq<User>, caller: Id,
                             page: Option<int>, limit: Option<int>, t: Tweet)
    requires GetUserTweets(tweets, users, caller, page, limit).Ok?
    requires Store.HasId(users, UserIdOf, caller)
    requires t in tweets && t.owner == caller
    ensures |Join(OwnedBy(tweets, caller), AuthorOf(users), RowOf)| ==
            GetUserTweets(tweets, users, caller, page, limit).value.pagination.total
    ensures exists n: int ::
              1 <= n <= GetUserTweets(tweets, users, caller, page, limit).value.pagination.totalPages &&
              RowOf(t, AuthorOf(users)(t).value) in GetUserTweets(tweets, users, caller, Some(n), limit).value.tweets
  {
    var owned := OwnedBy(tweets, caller);
    JoinKeepsAll(owned, AuthorOf(users), RowOf);
    var joined := Join(owned, AuthorOf(users), RowOf);
    var row := RowOf(t, AuthorOf(users)(t).value);
    OnSomeRequestedPage(joined, |owned|, page, limit, row);
    var n: int :| 1 <= n <= TotalPages(|owned|, Paginate(page, limit).limitNumber) &&
                  row in Window(joined, Paginate(Some(n), limit).skip, Paginate(Some(n), limit).limitNumber);
    PaginateAtPage(n, limit, page);
  }
}
