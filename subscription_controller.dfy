/** The subscription handlers of
    backend/src/controllers/subscription.controller.js. A subscription is an
    edge from a subscriber to a channel, both users. */
module SubscriptionController {
  import opened Common
  import opened Records
  import opened Pipeline
  import opened Pagination
  import Store
  import Toggle
  import Database

  const LimitNotNumber := "MongoServerError: the limit must be specified as a number"

  // --------------------------------------------------------- toggleSubscription

  datatype Edge = Edge(subscriber: Id, channel: Id)

  function EdgeOf(s: Subscription): Edge { Edge(s.subscriber, s.channel) }

  function EdgeOfSubscription(): Subscription -> Edge { (s: Subscription) => EdgeOf(s) }

  /** How many subscriptions `subscriber` holds to `channel`. */
  function Holds(subs: seq<Subscription>, subscriber: Id, channel: Id): nat {
    Toggle.CountKey(subs, EdgeOfSubscription(), Edge(subscriber, channel))
  }

  datatype SubscribeReply = Unsubscribed | Subscribed(subscription: Subscription)

  /** `toggleSubscription`: removes the caller's subscription to the channel,
      or adds one when there is none. */
  method ToggleSubscription(db: Database.Db, caller: Id, channelId: Id, newId: Id, now: nat) returns (r: Result<SubscribeReply>)
    requires db.Valid() && !Store.HasId(db.subscriptions, SubscriptionIdOf, newId)
    modifies db`subscriptions
    ensures db.Valid()
    ensures !IsValidObjectId(channelId) ==> r == Err(ApiError(400, "channelId is not avialable "))
    ensures IsValidObjectId(channelId) && !Store.HasId(db.users, UserIdOf, channelId) ==>
              r == Err(ApiError(400, "channel does not exists"))
    ensures r.Err? ==> db.subscriptions == old(db.subscriptions)
    ensures r.Ok? <==> IsValidObjectId(channelId) && Store.HasId(db.users, UserIdOf, channelId)
    ensures r.Ok? ==>
              db.subscriptions == Toggle.ToggleRows(old(db.subscriptions), EdgeOfSubscription(), Edge(caller, channelId),
                                                    Subscription(newId, caller, channelId, now)).rows &&
              (r.value == Unsubscribed <==> Holds(old(db.subscriptions), caller, channelId) > 0) &&
              (r.value.Subscribed? ==> r.value.subscription == Subscription(newId, caller, channelId, now) &&
                                       db.subscriptions == old(db.subscriptions) + [r.value.subscription])
    ensures r.Ok? ==>
              Toggle.Others(db.subscriptions, EdgeOfSubscription(), Edge(caller, channelId)) ==
              Toggle.Others(old(db.subscriptions), EdgeOfSubscription(), Edge(caller, channelId))
    ensures Toggle.AtMostOnePerKey(old(db.subscriptions), EdgeOfSubscription()) ==>
            Toggle.AtMostOnePerKey(db.subscriptions, EdgeOfSubscription())
  {
    if !IsValidObjectId(channelId) {
      return Err(ApiError(400, "channelId is not avialable "));
    }
    if Store.FindById(db.users, UserIdOf, channelId).None? {
      return Err(ApiError(400, "channel does not exists"));
    }
    var key := Edge(caller, channelId);
    var created := Subscription(newId, caller, channelId, now);
    var t := Toggle.ToggleRows(db.subscriptions, EdgeOfSubscription(), key, created);
    match Toggle.KeyIndex(db.subscriptions, EdgeOfSubscription(), key) {
      case Some(i) => Store.UniqueRemoveAt(db.subscriptions, SubscriptionIdOf, i);
      case None => Store.UniqueAppend(db.subscriptions, SubscriptionIdOf, created);
    }
    if Toggle.AtMostOnePerKey(db.subscriptions, EdgeOfSubscription()) {
      Toggle.ToggleKeepsAtMostOne(db.subscriptions, EdgeOfSubscription(), key, created);
    }
    db.subscriptions := t.rows;
    if t.deleted.Some? {
      return Ok(Unsubscribed);
    }
    return Ok(Subscribed(created));
  }

  /** Subscribing and then unsubscribing restores the table. */
  lemma SubscribeThenUnsubscribe(subs: seq<Subscription>, caller: Id, channel: Id, first: Subscription, second: Subscription)
    requires Holds(subs, caller, channel) == 0
    requires EdgeOf(first) == Edge(caller, channel) && EdgeOf(second) == Edge(caller, channel)
    ensures var once := Toggle.ToggleRows(subs, EdgeOfSubscription(), Edge(caller, channel), first);
            once.deleted.None? &&
            Toggle.ToggleRows(once.rows, EdgeOfSubscription(), Edge(caller, channel), second) == Toggle.Toggled(subs, Some(first))
  {
    Toggle.ToggleTwiceFromAbsent(subs, EdgeOfSubscription(), Edge(caller, channel), first, second);
  }

  // ---------------------------------------------------- getUserChannelSubcribers

  /** One row: the subscription's `_id` and the subscriber's profile. */
  datatype SubscriberRow = SubscriberRow(id: Id, subscriber: Profile)

  datatype SubscriberList = SubscriberList(subscribers: seq<SubscriberRow>, pagination: PageInfo)

  /** The end of a subscription edge a filter reads. */
  datatype End = BySubscriber | ByChannel

  function EndOf(s: Subscription, e: End): Id {
    match e
    case BySubscriber => s.subscriber
    case ByChannel => s.channel
  }

  /** The edges whose given end is `id`: `{ channel }` (a channel's
      subscribers) or `{ subscriber }` (a user's subscriptions), as a
      `$match` or a `countDocuments` filter. */
  function EdgesAt(subs: seq<Subscription>, e: End, id: Id): (r: seq<Subscription>)
    ensures forall s :: s in r <==> s in subs && EndOf(s, e) == id
  {
    Filter(subs, (s: Subscription) => EndOf(s, e) == id)
  }

  function SubscriberOf(users: seq<User>): Subscription -> Option<User> {
    (s: Subscription) => Store.FindById(users, UserIdOf, s.subscriber)
  }

  function SubscriberRowOf(s: Subscription, u: User): SubscriberRow {
    SubscriberRow(s.id, ProfileOf(u))
  }

  /** `getUserChannelSubcribers`. The projection keeps no `createdAt`, so the
      `createdAt` sort has nothing to order by: no row order is promised and
      the rows are taken in table order. */
  function GetUserChannelSubscribers(subs: seq<Subscription>, users: seq<User>, caller: Id, channelId: Id,
                                     page: Option<int>, limit: Option<int>): (r: Result<SubscriberList>)
    ensures !IsValidObjectId(channelId) ==> r == Err(ApiError(400, "channelId is not available "))
    ensures IsValidObjectId(channelId) && !IsValidObjectId(caller) ==> r == Err(ApiError(400, "userId is not available "))
    ensures IsValidObjectId(channelId) && IsValidObjectId(caller) && !Store.HasId(users, UserIdOf, channelId) ==>
              r == Err(ApiError(400, "channel does not exists"))
    ensures IsValidObjectId(channelId) && IsValidObjectId(caller) && Store.HasId(users, UserIdOf, channelId) &&
            !Accepted(Paginate(page, limit)) ==>
              r == Err(Crash(Rejection(Paginate(page, limit))))
    ensures r.Ok? <==> IsValidObjectId(channelId) && IsValidObjectId(caller) && Store.HasId(users, UserIdOf, channelId) &&
                       Paginate(page, limit).limitNumber >= 1
    ensures r.Ok? ==>
              var p := Paginate(page, limit);
              var rows := r.value.subscribers;
              |rows| <= p.limitNumber &&
              (forall row :: row in rows ==>
                 exists s, u :: s in subs && s.channel == channelId && u in users && u.id == s.subscriber &&
                                row == SubscriberRowOf(s, u)) &&
              r.value.pagination == Envelope(|EdgesAt(subs, ByChannel, channelId)|, p)
    ensures r.Ok? ==>
              var p := Paginate(page, limit);
              r.value.subscribers ==
                Window(Join(EdgesAt(subs, ByChannel, channelId), SubscriberOf(users), SubscriberRowOf), p.skip, p.limitNumber)
  {
    if !IsValidObjectId(channelId) then Err(ApiError(400, "channelId is not available "))
    else if !IsValidObjectId(caller) then Err(ApiError(400, "userId is not available "))
    else
      var p := Paginate(page, limit);
      if Store.FindById(users, UserIdOf, channelId).None? then Err(ApiError(400, "channel does not exists"))
      else if !Accepted(p) then Err(Crash(Rejection(p)))
      else
        var joined := Join(EdgesAt(subs, ByChannel, channelId), SubscriberOf(users), SubscriberRowOf);
        Ok(SubscriberList(Window(joined, p.skip, p.limitNumber), Envelope(|EdgesAt(subs, ByChannel, channelId)|, p)))
  }

  /** Every subscriber of the channel who still exists is on one of the
      pages 1..totalPages, when every page request sees the edges in the
      same (table) order. */
  lemma EverySubscriberOnSomePage(subs: seq<Subscription>, users: seq<User>, caller: Id, channelId: Id,
                                  page: Option<int>, limit: Option<int>, s: Subscription)
    requires GetUserChannelSubscribers(subs, users, caller, channelId, page, limit).Ok?
    requires s in subs && s.channel == channelId && Store.HasId(users, UserIdOf, s.subscriber)
    ensures exists n: int ::
              1 <= n <= GetUserChannelSubscribers(subs, users, caller, channelId, page, limit).value.pagination.totalPages &&
              SubscriberRowOf(s, SubscriberOf(users)(s).value)
                in GetUserChannelSubscribers(subs, users, caller, channelId, Some(n), limit).value.subscribers
  {
    var edges := EdgesAt(subs, ByChannel, channelId);
    var joined := Join(edges, SubscriberOf(users), SubscriberRowOf);
    var row := SubscriberRowOf(s, SubscriberOf(users)(s).value);
    assert row in joined;
    OnSomeRequestedPage(joined, |edges|, page, limit, row);
    var n: int :| 1 <= n <= TotalPages(|edges|, Paginate(page, limit).limitNumber) &&
                  row in Window(joined, Paginate(Some(n), limit).skip, Paginate(Some(n), limit).limitNumber);
    PaginateAtPage(n, limit, page);
    var r := GetUserChannelSubscribers(subs, users, caller, channelId, Some(n), limit);
    assert r.Ok? && r.value.subscribers == Window(joined, Paginate(Some(n), limit).skip, Paginate(Some(n), limit).limitNumber);
  }

  /** One row: the channel's profile and when the subscription was made. */
  datatype ChannelRow = ChannelRow(channel: Profile, createdAt: nat)

  datatype ChannelList = ChannelList(subscribedChannels: seq<ChannelRow>, pagination: PageInfo)

  function ChannelOf(users: seq<User>): Subscription -> Option<User> {
    (s: Subscription) => Store.FindById(users, UserIdOf, s.channel)
  }

  function ChannelRowOf(s: Subscription, u: User): ChannelRow {
    ChannelRow(ProfileOf(u), s.createdAt)
  }

  function RowCreatedAt(): ChannelRow -> int { (row: ChannelRow) => row.createdAt }

  /** The caller's channels, newest subscription first. */
  function ChannelListing(subs: seq<Subscription>, users: seq<User>, caller: Id): (s: seq<ChannelRow>)
    ensures SortedDesc(s, RowCreatedAt())
    ensures forall row :: row in s ==>
              exists sub, u :: sub in subs && sub.subscriber == caller && u in users && u.id == sub.channel &&
                               row == ChannelRowOf(sub, u)
    ensures forall sub :: sub in subs && sub.subscriber == caller && ChannelOf(users)(sub).Some? ==>
              ChannelRowOf(sub, ChannelOf(users)(sub).value) in s
    ensures |s| <= |EdgesAt(subs, BySubscriber, caller)|
  {
    SortDesc(Join(EdgesAt(subs, BySubscriber, caller), ChannelOf(users), ChannelRowOf), RowCreatedAt())
  }

  /** `getSubscribedChannels` as written. The `$limit` stage receives the raw
      `limit` of the query string: the number 10 when absent, but the string
      the client sent when present, which MongoDB refuses (unless the
      `$skip` stage before it has already refused a negative skip). */
  function GetSubscribedChannelsAsWritten(subs: seq<Subscription>, users: seq<User>, caller: Id,
                                          page: Option<int>, limit: Option<int>): (r: Result<ChannelList>)
    ensures !IsValidObjectId(caller) ==> r == Err(ApiError(400, "userId is not available "))
    ensures IsValidObjectId(caller) && limit.Some? ==>
              r == Err(Crash(if Paginate(page, limit).skip < 0 then SkipRejected else LimitNotNumber))
    ensures r.Ok? <==> IsValidObjectId(caller) && limit.None?
    ensures r.Ok? ==>
              var p := Paginate(page, None);
              r.value.subscribedChannels == Window(ChannelListing(subs, users, caller), p.skip, DefaultLimit) &&
              r.value.pagination == Envelope(|EdgesAt(subs, BySubscriber, caller)|, p)
  {
    if !IsValidObjectId(caller) then Err(ApiError(400, "userId is not available "))
    else if limit.Some? then
      Err(Crash(if Paginate(page, limit).skip < 0 then SkipRejected else LimitNotNumber))
    else
      var p := Paginate(page, limit);
      Ok(ChannelList(Window(ChannelListing(subs, users, caller), p.skip, DefaultLimit),
                     Envelope(|EdgesAt(subs, BySubscriber, caller)|, p)))
  }

  /** Asking for any page size at all makes the written handler fail. */
  lemma SubscribedChannelsLimitFails(subs: seq<Subscription>, users: seq<User>, caller: Id, page: Option<int>)
    requires IsValidObjectId(caller)
    ensures GetSubscribedChannelsAsWritten(subs, users, caller, page, Some(5)).Err?
    ensures GetSubscribedChannels(subs, users, caller, page, Some(5)).Ok?
  {
  }

  /** `getSubscribedChannels` with `$limit: limitNumber`, as the envelope and
      the other list handlers have it. */
  function GetSubscribedChannels(subs: seq<Subscription>, users: seq<User>, caller: Id,
                                 page: Option<int>, limit: Option<int>): (r: Result<ChannelList>)
    ensures !IsValidObjectId(caller) ==> r == Err(ApiError(400, "userId is not available "))
    ensures r.Ok? <==> IsValidObjectId(caller) && Paginate(page, limit).limitNumber >= 1
    ensures r.Ok? ==>
              var p := Paginate(page, limit);
              var rows := r.value.subscribedChannels;
              |rows| <= p.limitNumber &&
              SortedDesc(rows, RowCreatedAt()) &&
              (forall row :: row in rows ==>
                 exists sub, u :: sub in subs && sub.subscriber == caller && u in users && u.id == sub.channel &&
                                  row == ChannelRowOf(sub, u)) &&
              r.value.pagination == Envelope(|EdgesAt(subs, BySubscriber, caller)|, p)
    ensures r.Ok? ==>
              var p := Paginate(page, limit);
              r.value.subscribedChannels == Window(ChannelListing(subs, users, caller), p.skip, p.limitNumber)
  {
    if !IsValidObjectId(caller) then Err(ApiError(400, "userId is not available "))
    else
      var p := Paginate(page, limit);
      if !Accepted(p) then Err(Crash(Rejection(p)))
      else
        var s := ChannelListing(subs, users, caller);
        WindowSortedDesc(s, p.skip, p.limitNumber, RowCreatedAt());
        Ok(ChannelList(Window(s, p.skip, p.limitNumber), Envelope(|EdgesAt(subs, BySubscriber, caller)|, p)))
  }

  /** Every channel the caller follows (and that still exists) is on one of
      the pages 1..totalPages of the corrected handler, provided no two rows
      share a `createdAt` (the listing is then the only order `$sort` can
      give). */
  lemma EveryChannelOnSomePage(subs: seq<Subscription>, users: seq<User>, caller: Id,
                               page: Option<int>, limit: Option<int>, sub: Subscription)
    requires GetSubscribedChannels(subs, users, caller, page, limit).Ok?
    requires sub in subs && sub.subscriber == caller && Store.HasId(users, UserIdOf, sub.channel)
    requires DistinctKeys(ChannelListing(subs, users, caller), RowCreatedAt())
    ensures forall other :: SortedDesc(other, RowCreatedAt()) && multiset(other) == multiset(ChannelListing(subs, users, caller)) ==>
              other == ChannelListing(subs, users, caller)
    ensures exists n: int ::
              1 <= n <= GetSubscribedChannels(subs, users, caller, page, limit).value.pagination.totalPages &&
              ChannelRowOf(sub, ChannelOf(users)(sub).value) in GetSubscribedChannels(subs, users, caller, Some(n), limit).value.subscribedChannels
  {
    var s := ChannelListing(subs, users, caller);
    forall other | SortedDesc(other, RowCreatedAt()) && multiset(other) == multiset(s) ensures other == s {
      SortedDescUnique(s, other, RowCreatedAt());
    }
    var row := ChannelRowOf(sub, ChannelOf(users)(sub).value);
    OnSomeRequestedPage(s, |EdgesAt(subs, BySubscriber, caller)|, page, limit, row);
    var n: int :| 1 <= n <= TotalPages(|EdgesAt(subs, BySubscriber, caller)|, Paginate(page, limit).limitNumber) &&
                  row in Window(s, Paginate(Some(n), limit).skip, Paginate(Some(n), limit).limitNumber);
    PaginateAtPage(n, limit, page);
  }
}
