/** The channel dashboard of backend/src/controllers/dashboard.controller.js:
    aggregate statistics of a channel and the list of its published videos. */
module DashboardController {
  import opened Common
  import opened Records
  import opened Pipeline
  import opened Pagination
  import Store
  import SubscriptionController

  const NoVideoGroup := "TypeError: Cannot read properties of undefined (reading 'totalVideos')"
  const NoLikeGroup := "TypeError: Cannot read properties of undefined (reading 'totalLikes')"

  // ----------------------------------------------------------- getChannelStats

  datatype ChannelStats = ChannelStats(totalVideos: nat, totalViews: nat, totalSubscribers: nat, totalLikes: nat)

  function PublishedByChannel(channel: Id): Video -> bool {
    (v: Video) => v.owner == channel && v.isPublished
  }

  /** The `$match` of both video pipelines: the channel's published videos. */
  function Published(videos: seq<Video>, channel: Id): (r: seq<Video>)
    ensures forall v :: v in r <==> v in videos && v.owner == channel && v.isPublished
  {
    Filter(videos, PublishedByChannel(channel))
  }

  /** `$sum: "$views"` over a group. */
  function SumViews(vs: seq<Video>): nat {
    if vs == [] then 0 else vs[0].views + SumViews(vs[1..])
  }

  lemma {:induction false} SumViewsAppend(a: seq<Video>, b: seq<Video>)
    ensures SumViews(a + b) == SumViews(a) + SumViews(b)
  {
    if a == [] {
      assert a + b == b;
    } else {
      assert (a + b)[0] == a[0];
      assert (a + b)[1..] == a[1..] + b;
      SumViewsAppend(a[1..], b);
    }
  }

  /** No video contributes more views than the group's total. */
  lemma {:induction false} SumViewsBound(vs: seq<Video>, v: Video)
    requires v in vs
    ensures v.views <= SumViews(vs)
  {
    if vs[0] != v {
      SumViewsBound(vs[1..], v);
    }
  }

  /** The like's video, after `$lookup` on `video` and `$unwind`: likes on a
      comment or a tweet, or on a deleted video, have none. */
  function LikedVideo(videos: seq<Video>, l: Like): Option<Video> {
    if l.target.OnVideo? then Store.FindById(videos, VideoIdOf, l.target.video) else None
  }

  function OnChannel(videos: seq<Video>, channel: Id): Like -> bool {
    (l: Like) => LikedVideo(videos, l).Some? && LikedVideo(videos, l).value.owner == channel
  }

  /** The likes counted by the like pipeline: those on an existing video the
      channel owns, published or not. */
  function LikesOnChannel(likes: seq<Like>, videos: seq<Video>, channel: Id): (r: seq<Like>)
    ensures forall l :: l in r <==>
              l in likes && l.target.OnVideo? &&
              exists v :: v in videos && v.id == l.target.video && v.owner == channel && Store.FindById(videos, VideoIdOf, v.id) == Some(v)
  {
    var r := Filter(likes, OnChannel(videos, channel));
    assert forall l :: l in r ==> l.target.OnVideo? && var v := LikedVideo(videos, l).value;
                                  v in videos && v.id == l.target.video && Store.FindById(videos, VideoIdOf, v.id) == Some(v);
    r
  }

  /** `getChannelStats` as written. The handler reads element 0 of each
      `$group` result, which is missing when nothing was grouped, and reads
      `totalViews` from the group's nonexistent `totalLikes` field, so the
      views default to 0. */
  function GetChannelStatsAsWritten(users: seq<User>, videos: seq<Video>, subs: seq<Subscription>, likes: seq<Like>,
                                    channelId: Id): (r: Result<ChannelStats>)
    ensures !IsValidObjectId(channelId) ==> r == Err(ApiError(400, "Invalid channelId"))
    ensures IsValidObjectId(channelId) && !Store.HasId(users, UserIdOf, channelId) ==> r == Err(ApiError(404, "Channel not found"))
    ensures r.Ok? <==> IsValidObjectId(channelId) && Store.HasId(users, UserIdOf, channelId) &&
                       Published(videos, channelId) != [] && LikesOnChannel(likes, videos, channelId) != []
    ensures r.Ok? ==> r.value.totalViews == 0
    ensures r.Ok? ==> r.value.totalVideos == |Published(videos, channelId)| &&
                      r.value.totalSubscribers == |SubscriptionController.EdgesAt(subs, SubscriptionController.ByChannel, channelId)| &&
                      r.value.totalLikes == |LikesOnChannel(likes, videos, channelId)|
  {
    if !IsValidObjectId(channelId) then Err(ApiError(400, "Invalid channelId"))
    else if !Store.HasId(users, UserIdOf, channelId) then Err(ApiError(404, "Channel not found"))
    else
      var published := Published(videos, channelId);
      var liked := LikesOnChannel(likes, videos, channelId);
      if published == [] then Err(Crash(NoVideoGroup))
      else if liked == [] then Err(Crash(NoLikeGroup))
      else Ok(ChannelStats(|published|, 0, |SubscriptionController.EdgesAt(subs, SubscriptionController.ByChannel, channelId)|, |liked|))
  }

  /** `getChannelStats` with each missing group counted as 0 and the views
      summed from the video group. */
  function GetChannelStats(users: seq<User>, videos: seq<Video>, subs: seq<Subscription>, likes: seq<Like>,
                           channelId: Id): (r: Result<ChannelStats>)
    ensures !IsValidObjectId(channelId) ==> r == Err(ApiError(400, "Invalid channelId"))
    ensures IsValidObjectId(channelId) && !Store.HasId(users, UserIdOf, channelId) ==> r == Err(ApiError(404, "Channel not found"))
    ensures r.Ok? <==> IsValidObjectId(channelId) && Store.HasId(users, UserIdOf, channelId)
    ensures r.Ok? ==> r.value.totalVideos == |Published(videos, channelId)| &&
                      r.value.totalViews == SumViews(Published(videos, channelId)) &&
                      r.value.totalSubscribers == |SubscriptionController.EdgesAt(subs, SubscriptionController.ByChannel, channelId)| &&
                      r.value.totalLikes == |LikesOnChannel(likes, videos, channelId)|
    ensures r.Ok? ==> r.value.totalVideos <= |videos| && r.value.totalSubscribers <= |subs| && r.value.totalLikes <= |likes|
    ensures r.Ok? ==> forall v :: v in videos && v.owner == channelId && v.isPublished ==> v.views <= r.value.totalViews
    ensures r.Ok? && r.value.totalVideos == 0 ==> r.value.totalViews == 0
  {
    if !IsValidObjectId(channelId) then Err(ApiError(400, "Invalid channelId"))
    else if !Store.HasId(users, UserIdOf, channelId) then Err(ApiError(404, "Channel not found"))
    else
      var published := Published(videos, channelId);
      assert forall v :: v in videos && v.owner == channelId && v.isPublished ==> v.views <= SumViews(published) by {
        forall v | v in videos && v.owner == channelId && v.isPublished ensures v.views <= SumViews(published) {
          SumViewsBound(published, v);
        }
      }
      Ok(ChannelStats(|published|, SumViews(published), |SubscriptionController.EdgesAt(subs, SubscriptionController.ByChannel, channelId)|, |LikesOnChannel(likes, videos, channelId)|))
  }

  /** Where the written handler answers at all, it agrees with the corrected
      one on everything but the views. */
  lemma StatsAsWrittenAgree(users: seq<User>, videos: seq<Video>, subs: seq<Subscription>, likes: seq<Like>, channelId: Id)
    requires GetChannelStatsAsWritten(users, videos, subs, likes, channelId).Ok?
    ensures var w := GetChannelStatsAsWritten(users, videos, subs, likes, channelId).value;
            var c := GetChannelStats(users, videos, subs, likes, channelId).value;
            w == c.(totalViews := 0)
  {
  }

  /** A channel with no published video makes the written handler fail,
      while the corrected one reports zeros. */
  lemma EmptyChannelAsWritten(users: seq<User>, subs: seq<Subscription>, likes: seq<Like>, channelId: Id)
    requires IsValidObjectId(channelId) && Store.HasId(users, UserIdOf, channelId)
    ensures GetChannelStatsAsWritten(users, [], subs, likes, channelId) == Err(Crash(NoVideoGroup))
    ensures GetChannelStats(users, [], subs, likes, channelId) == Ok(ChannelStats(0, 0, |SubscriptionController.EdgesAt(subs, SubscriptionController.ByChannel, channelId)|, 0))
  {
    assert Published([], channelId) == [];
    FilterNone(likes, OnChannel([], channelId));
  }

  /** Two published videos of 10 and 5 views and an unpublished one of 100. */
  function SampleVideos(channel: Id): seq<Video> {
    [Video("v1", "f1", "t1", channel, "one", "d", 3, 10, true, 1),
     Video("v2", "f2", "t2", channel, "two", "d", 4, 5, true, 2),
     Video("v3", "f3", "t3", channel, "draft", "d", 5, 100, false, 3)]
  }

  lemma SamplePublished(channel: Id)
    ensures |Published(SampleVideos(channel), channel)| == 2
    ensures SumViews(Published(SampleVideos(channel), channel)) == 15
  {
    var videos := SampleVideos(channel);
    var p := PublishedByChannel(channel);
    assert videos[1..][1..] == [videos[2]] && [videos[2]][1..] == [];
    assert Filter([videos[2]], p) == [];
    assert Filter(videos[1..], p) == [videos[1]];
    var published := [videos[0], videos[1]];
    assert Published(videos, channel) == published;
    assert published[1..] == [videos[1]] && [videos[1]][1..] == [];
    assert SumViews([videos[1]]) == 5;
  }

  /** On a channel with those videos and one like on the first, the corrected
      handler reports 15 views and the written one 0. */
  lemma ViewsScenario(users: seq<User>, channel: Id)
    requires IsValidObjectId(channel) && Store.HasId(users, UserIdOf, channel)
    ensures var likes := [Like("l1", OnVideo("v1"), "u1", 4)];
            GetChannelStats(users, SampleVideos(channel), [], likes, channel) == Ok(ChannelStats(2, 15, 0, 1)) &&
            GetChannelStatsAsWritten(users, SampleVideos(channel), [], likes, channel) == Ok(ChannelStats(2, 0, 0, 1))
  {
    var videos := SampleVideos(channel);
    SamplePublished(channel);
    var likes := [Like("l1", OnVideo("v1"), "u1", 4)];
    assert LikedVideo(videos, likes[0]) == Some(videos[0]);
    assert LikesOnChannel(likes, videos, channel) == likes;
    assert SubscriptionController.EdgesAt([], SubscriptionController.ByChannel, channel) == [];
  }

  /** Inserting a video changes the channel's video and view totals exactly
      when it is a published video of that channel, by one and by its views. */
  lemma StatsAfterInsert(users: seq<User>, videos: seq<Video>, subs: seq<Subscription>, likes: seq<Like>, channelId: Id, v: Video)
    requires GetChannelStats(users, videos, subs, likes, channelId).Ok?
    ensures var before := GetChannelStats(users, videos, subs, likes, channelId).value;
            var after := GetChannelStats(users, videos + [v], subs, likes, channelId).value;
            if v.owner == channelId && v.isPublished
            then after.totalVideos == before.totalVideos + 1 && after.totalViews == before.totalViews + v.views
            else after.totalVideos == before.totalVideos && after.totalViews == before.totalViews
  {
    FilterAppend(videos, v, PublishedByChannel(channelId));
    if v.owner == channelId && v.isPublished {
      SumViewsAppend(Published(videos, channelId), [v]);
    } else {
      assert Published(videos, channelId) + [] == Published(videos, channelId);
    }
  }

  // ---------------------------------------------------------- getChannelVideos

  /** The `$project` of `getChannelVideos`: no `_id`, no owner, no dates. */
  datatype ChannelVideo = ChannelVideo(file: string, thumbnail: string, title: string, description: string,
                                       duration: nat, views: nat)

  datatype ChannelVideoList = ChannelVideoList(channelVideos: seq<ChannelVideo>, pagination: PageInfo)

  function Summary(v: Video): ChannelVideo {
    ChannelVideo(v.file, v.thumbnail, v.title, v.description, v.duration, v.views)
  }

  function Summaries(vs: seq<Video>): (r: seq<ChannelVideo>)
    ensures |r| == |vs| && forall i :: 0 <= i < |vs| ==> r[i] == Summary(vs[i])
  {
    Map(vs, Summary)
  }

  /** `getChannelVideos`. The `createdAt` sort comes after the projection has
      dropped `createdAt`, so it orders nothing: the rows are in table order. */
  function GetChannelVideos(users: seq<User>, videos: seq<Video>, channelId: Id,
                            page: Option<int>, limit: Option<int>): (r: Result<ChannelVideoList>)
    ensures !IsValidObjectId(channelId) ==> r == Err(ApiError(400, "channelId not available"))
    ensures IsValidObjectId(channelId) && !Store.HasId(users, UserIdOf, channelId) ==> r == Err(ApiError(400, "chanel not exist"))
    ensures r.Ok? <==> IsValidObjectId(channelId) && Store.HasId(users, UserIdOf, channelId) &&
                       Paginate(page, limit).limitNumber >= 1
    ensures r.Ok? ==>
              var p := Paginate(page, limit);
              var rows := r.value.channelVideos;
              |rows| <= p.limitNumber &&
              (forall row :: row in rows ==> exists v :: v in videos && v.owner == channelId && v.isPublished && row == Summary(v)) &&
              r.value.pagination == Envelope(|Published(videos, channelId)|, p)
    ensures r.Ok? ==>
              var p := Paginate(page, limit);
              r.value.channelVideos == Window(Summaries(Published(videos, channelId)), p.skip, p.limitNumber)
  {
    if !IsValidObjectId(channelId) then Err(ApiError(400, "channelId not available"))
    else if !Store.HasId(users, UserIdOf, channelId) then Err(ApiError(400, "chanel not exist"))
    else
      var p := Paginate(page, limit);
      if !Accepted(p) then Err(Crash(Rejection(p)))
      else
        var all := Summaries(Published(videos, channelId));
        assert forall row :: row in all ==> exists v :: v in videos && v.owner == channelId && v.isPublished && row == Summary(v) by {
          forall row | row in all
            ensures exists v :: v in videos && v.owner == channelId && v.isPublished && row == Summary(v)
          {
            var i :| 0 <= i < |all| && all[i] == row;
            assert Published(videos, channelId)[i] in Published(videos, channelId);
          }
        }
        Ok(ChannelVideoList(Window(all, p.skip, p.limitNumber), Envelope(|Published(videos, channelId)|, p)))
  }

  /** Every published video of the channel is on one of the pages
      1..totalPages. */
  lemma EveryChannelVideoOnSomePage(users: seq<User>, videos: seq<Video>, channelId: Id,
                                    page: Option<int>, limit: Option<int>, v: Video)
    requires GetChannelVideos(users, videos, channelId, page, limit).Ok?
    requires v in videos && v.owner == channelId && v.isPublished
    ensures exists n: int ::
              1 <= n <= GetChannelVideos(users, videos, channelId, page, limit).value.pagination.totalPages &&
              Summary(v) in GetChannelVideos(users, videos, channelId, Some(n), limit).value.channelVideos
  {
    var published := Published(videos, channelId);
    var all := Summaries(published);
    var i :| 0 <= i < |published| && published[i] == v;
    assert all[i] == Summary(v);
    OnSomeRequestedPage(all, |published|, page, limit, Summary(v));
    var n: int :| 1 <= n <= TotalPages(|published|, Paginate(page, limit).limitNumber) &&
                  Summary(v) in Window(all, Paginate(Some(n), limit).skip, Paginate(Some(n), limit).limitNumber);
    PaginateAtPage(n, limit, page);
  }
}
