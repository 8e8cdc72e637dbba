/** The documents of the seven collections the controllers touch, with the
    field names the controllers use. `createdAt` is the store's insertion
    timestamp, supplied by the caller of each inserting operation. */
module Records {
  import opened Common

  datatype User = User(
    id: Id,
    userName: string,
    email: string,
    fullName: string,
    avatar: string,
    coverImage: string,
    password: string,
    refreshToken: Option<string>,
    watchHistory: seq<Id>,
    createdAt: nat)

  datatype Video = Video(
    id: Id,
    file: string,
    thumbnail: string,
    owner: Id,
    title: string,
    description: string,
    duration: nat,
    views: nat,
    isPublished: bool,
    createdAt: nat)

  datatype Comment = Comment(id: Id, content: string, video: Id, owner: Id, createdAt: nat)

  /** The one target a like document carries: its `video`, `comment` or
      `tweet` field. */
  datatype LikeTarget = OnVideo(video: Id) | OnComment(comment: Id) | OnTweet(tweet: Id)

  datatype Like = Like(id: Id, target: LikeTarget, likedBy: Id, createdAt: nat)

  datatype Tweet = Tweet(id: Id, content: string, owner: Id, createdAt: nat)

  datatype Playlist = Playlist(id: Id, name: string, description: string, videos: seq<Id>, owner: Id, createdAt: nat)

  /** The keys the unique multikey index on `videos` holds for one
      playlist: one per video id, and for an empty array the single key
      `undefined`, written `None`. */
  function IndexKeys(videos: seq<Id>): (keys: set<Option<Id>>)
    ensures None in keys <==> videos == []
    ensures forall v :: Some(v) in keys <==> v in videos
  {
    if videos == [] then {None} else set v | v in videos :: Some(v)
  }

  /** The unique index holds: no key belongs to two playlists. */
  ghost predicate VideoKeysUnique(playlists: seq<Playlist>) {
    forall i, j :: 0 <= i < |playlists| && 0 <= j < |playlists| && i != j ==>
      IndexKeys(playlists[i].videos) * IndexKeys(playlists[j].videos) == {}
  }

  /** A subscription edge: `subscriber` follows `channel` (both users). */
  datatype Subscription = Subscription(id: Id, subscriber: Id, channel: Id, createdAt: nat)

  /** The `{ _id, userName, fullName, avatar }` projection of a joined user. */
  datatype Profile = Profile(id: Id, userName: string, fullName: string, avatar: string)

  function ProfileOf(u: User): (p: Profile)
    ensures p.id == u.id && p.userName == u.userName && p.fullName == u.fullName && p.avatar == u.avatar
  {
    Profile(u.id, u.userName, u.fullName, u.avatar)
  }

  function UserIdOf(u: User): Id { u.id }
  function VideoIdOf(v: Video): Id { v.id }
  function CommentIdOf(c: Comment): Id { c.id }
  function LikeIdOf(l: Like): Id { l.id }
  function TweetIdOf(t: Tweet): Id { t.id }
  function PlaylistIdOf(p: Playlist): Id { p.id }
  function SubscriptionIdOf(s: Subscription): Id { s.id }
}
