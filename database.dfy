/** The MongoDB database as one object whose collections the handlers
    update in place. Each collection is a sequence in insertion order. */
module Database {
  import opened Common
  import opened Records
  import Store

  class Db {
    var users: seq<User>
    var videos: seq<Video>
    var comments: seq<Comment>
    var likes: seq<Like>
    var tweets: seq<Tweet>
    var playlists: seq<Playlist>
    var subscriptions: seq<Subscription>

    /** What the store itself guarantees: `_id` is unique in every
        collection, and no video id (nor the empty-array key) is in two
        playlists, by the unique index on `videos`. */
    ghost predicate Valid()
      reads this
    {
      VideoKeysUnique(playlists) &&
      Store.UniqueIds(users, UserIdOf) &&
      Store.UniqueIds(videos, VideoIdOf) &&
      Store.UniqueIds(comments, CommentIdOf) &&
      Store.UniqueIds(likes, LikeIdOf) &&
      Store.UniqueIds(tweets, TweetIdOf) &&
      Store.UniqueIds(playlists, PlaylistIdOf) &&
      Store.UniqueIds(subscriptions, SubscriptionIdOf)
    }

    constructor ()
      ensures Valid()
      ensures users == [] && videos == [] && comments == [] && likes == []
      ensures tweets == [] && playlists == [] && subscriptions == []
    {
      users := [];
      videos := [];
      comments := [];
      likes := [];
      tweets := [];
      playlists := [];
      subscriptions := [];
    }
  }
}
