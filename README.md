# Video platform controllers in Dafny

This project models the request handlers of a video-sharing backend, written in JavaScript over MongoDB. The handlers cover videos, comments, likes, tweets, playlists, subscriptions, the channel dashboard and user registration.

Each collection is a sequence of documents in insertion order. The seven collections are fields of one `Database.Db` object, and the handlers that write update those fields in place:

- `create` appends a document;
- `findByIdAndUpdate` rewrites the first matching document;
- `findByIdAndDelete` removes a document.

The read endpoints are aggregation pipelines, modelled as pure functions built from the stages in `Pipeline`:

- `$match` is a filter;
- `$lookup` followed by `$unwind` is an inner join;
- `$sort` is a permutation into key order;
- `$skip`/`$limit` is a window.

Each list endpoint also reports a `pagination` object computed by `Pagination`.

A handler's outcome is a `Result`. `ApiError(status, message)` is an error the handler throws itself, with the source's status and message text. `Crash(reason)` is a failure below the handler: a TypeError, a Mongoose or BSON cast error, or a query MongoDB rejects.

Where a handler's code evidently does not do what was meant, the code is modelled as written (`...AsWritten`), next to a corrected version with the intended property proved (see "## Findings").

The same-named handlers in `backend/src/controllers/video.controller.js` and `src/controllers/video.controller.js`, and in the two `like.controller.js` files, are the same code. The exceptions are `getVideos` and `getLikedVideos`, whose `src/` bodies are empty. Each handler is modelled once, and each is cited for both files.

Modules:

- `Common`: ids, `Result`, `Option`, truthiness;
- `Records`: the documents;
- `Database`: the collections;
- `Store`: the single-document operations;
- `Pipeline`, `Pagination`, `Text` (case-insensitive search) and `Toggle` (delete-else-create);
- one module per controller.

## Model

| member | source | states |
|---|---|---|
| Pipeline.Filter | backend/src/controllers/video.controller.js:45 | `$match` keeps exactly the documents that satisfy the condition, in order |
| Pipeline.FilterAppend | backend/src/controllers/dashboard.controller.js:28-41 | a document inserted last is matched last, when it satisfies the condition |
| Pipeline.Join | backend/src/controllers/video.controller.js:46-56 | `$lookup`+`$unwind` yields a shaped row for every document whose partner exists, and only such rows |
| Pipeline.JoinKeepsAll | src/controllers/tweet.controller.js:116-124 | when every document has its partner, the join drops none |
| Pipeline.SortDesc | backend/src/controllers/like.controller.js:158 | `$sort: -1` gives a permutation of its input in descending key order |
| Pipeline.SortAsc | backend/src/controllers/video.controller.js:40-42 | `sortType: "asc"` gives a permutation of its input in ascending key order |
| Pipeline.Window | backend/src/controllers/video.controller.js:75-76 | `$skip`+`$limit` returns the rows from position `skip` on, at most `limit` of them, in order |
| Pipeline.SortedDescUnique | backend/src/controllers/like.controller.js:158 | with pairwise distinct keys, two descending permutations of the same rows are equal, so `$sort: -1` has exactly one result |
| Pipeline.SortedAscUnique | backend/src/controllers/video.controller.js:40-42 | the same for an ascending sort |
| Pipeline.JoinSortedDesc | backend/src/controllers/like.controller.js:158-186 | lookups after a sort keep the sorted order |
| Pipeline.Components | backend/src/controllers/video.controller.js:40-42 | a `$sort` key splits at its dots into one or more components, none holding a dot |
| Pipeline.JoinComponents | backend/src/controllers/video.controller.js:40-42 | joining the components with dots gives the key back, so the split loses nothing |
| Pipeline.ValidFieldPath | backend/src/controllers/video.controller.js:40-42 | the keys `$sort` accepts: not empty, not starting with `$`, and no empty component |
| Pipeline.NoEmptyComponentMeans | backend/src/controllers/video.controller.js:40-42 | no component is empty exactly when the key neither starts nor ends with a dot and has no two dots in a row |
| Pipeline.ValidFieldPathMeans | backend/src/controllers/video.controller.js:40-42 | the same acceptance rule read off the characters: non-empty, first character neither `$` nor a dot, last not a dot, no two dots in a row |
| Pipeline.PlainFieldAccepted | backend/src/controllers/video.controller.js:40-42 | every dot-free key not starting with `$` is accepted |
| Pipeline.NestedFieldAccepted | backend/src/controllers/video.controller.js:40-42 | two such keys joined by one dot, like `owner.userName`, are accepted |
| Pipeline.DefaultSortFieldAccepted | backend/src/controllers/video.controller.js:16 | the default `sortBy`, `createdAt`, is accepted |
| Pipeline.FieldPathsRefused | backend/src/controllers/video.controller.js:40-42 | `""`, `$views` and `a..b` are refused |
| Store.FindById | backend/src/controllers/video.controller.js:163 | `findById` returns a document with that id, or none exists |
| Store.HasId | backend/src/controllers/playlist.controller.js:147-157 | some document has that id: the condition under which `findByIdAndUpdate` returns a document rather than `null` |
| Store.HasIdMeans | backend/src/controllers/playlist.controller.js:147-157 | a document has that id exactly when some position of the collection holds one |
| Store.DeleteById | backend/src/controllers/video.controller.js:243 | `findByIdAndDelete` removes the first document with that id and returns it; the remaining rows are the others, in order (together with the removed one, the old rows as a multiset); nothing changes when no document has that id |
| Store.UpdateFirst | backend/src/controllers/video.controller.js:214-226 | `findOneAndUpdate` with `new: true` rewrites exactly the first match and returns it, or changes nothing when no document matches |
| Store.UpdateFirstTwice | backend/src/controllers/video.controller.js:265-278 | a self-inverse update applied twice restores the collection |
| Store.UpdateFirstIdempotent | src/controllers/comment.controller.js:126-136 | a `$set` of fixed values applied twice equals applying it once |
| Store.DeleteAppended | src/controllers/tweet.controller.js:14-17 | deleting the document just created under a fresh id restores the collection |
| Store.UniqueUpdateFirst | src/controllers/tweet.controller.js:74-82 | an update that keeps `_id` keeps ids unique |
| Store.DeleteByIdRemovesAll | backend/src/controllers/video.controller.js:243-249 | after deleting by id, no document with that id is left |
| Toggle.ToggleRows | backend/src/controllers/like.controller.js:15-38 | delete-else-create: removes the first record with the key if there is one, otherwise appends the new record; other keys are untouched |
| Toggle.ToggleFlips | backend/src/controllers/like.controller.js:15-38 | with at most one record per key, a toggle flips presence |
| Toggle.ToggleKeepsOtherCounts | backend/src/controllers/like.controller.js:15-38 | a toggle changes no other key's count |
| Toggle.ToggleKeepsAtMostOne | backend/src/controllers/like.controller.js:15-38 | toggles preserve "at most one record per key" |
| Toggle.ToggleTwiceFromAbsent | backend/src/controllers/like.controller.js:15-38 | toggling an absent key twice restores the table |
| Toggle.ToggleTwiceFromPresent | backend/src/controllers/like.controller.js:15-38 | toggling a present key twice deletes it and then appends a fresh record |
| Pagination.Paginate | backend/src/controllers/video.controller.js:21-23 | page is max(page,1), limit is min(limit,50), with defaults 1 and 10, and skip is (page-1)·limit |
| Pagination.PaginateAtPage | backend/src/controllers/video.controller.js:21-23 | changing only `page` (to a page of 1 or more) keeps the limit and moves skip to match |
| Pagination.PaginateAccepted | backend/src/controllers/video.controller.js:22-23 | a positive requested limit gives a non-negative skip and a limit between 1 and 50 |
| Pagination.TotalPages | backend/src/controllers/video.controller.js:92 | `Math.ceil(total/limit)` is the least page count whose pages hold `total` rows |
| Pagination.TotalPagesZero | backend/src/controllers/video.controller.js:92 | there are no pages exactly when there are no rows |
| Pagination.Envelope | backend/src/controllers/video.controller.js:88-93 | the `pagination` object reports total, page, limit and a sufficient, minimal page count |
| Pagination.FirstPagesArePrefix | backend/src/controllers/video.controller.js:75-76 | consecutive pages neither overlap nor leave gaps |
| Pagination.AllPagesCover | backend/src/controllers/video.controller.js:92 | pages 1..totalPages together are the whole listing |
| Pagination.OnSomePage | backend/src/controllers/video.controller.js:75-92 | every row is on a page no greater than totalPages |
| Pagination.OnSomeRequestedPage | backend/src/controllers/video.controller.js:21-23 | the same, for the page a request names |
| Pagination.ThirdPageOfTwentyFive | backend/src/controllers/video.controller.js:21-23 | page 3 with limit 10 of 25 rows is rows 21-25, and there are 3 pages |
| Pagination.RejectionStage | backend/src/controllers/video.controller.js:21-23 | when MongoDB refuses the paging stages, the reason is the negative skip exactly when the limit is negative and the page is 2 or more (`$skip` is parsed first), and the non-positive limit otherwise |
| Pagination.LimitCapped | backend/src/controllers/video.controller.js:22 | a limit above 50 is clamped to 50 |
| Text.Lower | backend/src/controllers/video.controller.js:31 | the `i` option folds A-Z to a-z and leaves other characters alone |
| Text.LowerStr | backend/src/controllers/video.controller.js:31 | case folding character by character |
| Text.Contains | backend/src/controllers/video.controller.js:31-32 | the query occurs in the text as a contiguous substring, found by a scan from each position |
| Text.ContainsIgnoringCase | backend/src/controllers/video.controller.js:31-32 | the `$regex` with option `i`: the query occurs in the text once both are folded to lower case |
| Text.ContainsMeans | backend/src/controllers/video.controller.js:31-32 | the substring scan succeeds exactly when the query occurs at some position |
| Text.ContainsIgnoringCaseOfFolded | backend/src/controllers/video.controller.js:31-32 | folding the title or the query to lower case beforehand changes no answer of the case-insensitive search |
| Records.ProfileOf | backend/src/controllers/video.controller.js:66-71 | the owner projection keeps `_id`, `userName`, `fullName` and `avatar` |
| Records.IndexKeys | backend/src/models/playlists.model.js:17-24 | the unique multikey index on `videos` holds one key per video id of a playlist, and the single key `undefined` for an empty array |
| Common.IsValidObjectId | backend/src/controllers/playlist.controller.js:38 | `ObjectId.isValid` accepts exactly the strings of 24 hexadecimal digits |
| VideoController.MatchesFilter | backend/src/controllers/video.controller.js:25-38 | a video matches when it is published, holds a given query in its title or description ignoring case, and belongs to a given `userId` |
| VideoController.Listing | backend/src/controllers/video.controller.js:44-74 | the sorted join holds only cards of matched videos, every matched video whose owner exists, in the requested order |
| VideoController.GetVideos | backend/src/controllers/video.controller.js:11-100 | fails exactly for a malformed owner id (a cast error), a `sortBy` that is not a valid field path (MongoDB refuses the `$sort`, checked before the paging stages), or a non-positive limit; otherwise one window of the sorted listing, at most `limit` rows, ordered, with the count of all matches |
| VideoController.SortKeyReadsField | backend/src/controllers/video.controller.js:40-42 | `sortBy` createdAt/views/duration orders by that field |
| VideoController.EveryMatchOnSomePage | backend/src/controllers/video.controller.js:75-92 | when the sort keys of the listing are pairwise distinct, the listing is the only ordering MongoDB's sort can return, and every matching video whose owner exists is on one of the pages 1..totalPages |
| VideoController.SearchIgnoresCase | backend/src/controllers/video.controller.js:29-34 | a title holding the query in any letter case is matched |
| VideoController.PublishAVideo | backend/src/controllers/video.controller.js:102-154 | field, file and upload checks in source order; on success the appended video is the caller's, published, with zero views (the same code is at src/controllers/video.controller.js:14-66) |
| VideoController.GetVideoById | backend/src/controllers/video.controller.js:156-178 | the video with that id, the "not found" error when none exists, a cast failure for a malformed id (the same code is at src/controllers/video.controller.js:68-90) |
| VideoController.RequestedFields | backend/src/controllers/video.controller.js:190-206 | only a truthy title, a truthy description and an uploaded thumbnail enter the update |
| VideoController.ApplyVideoFields | backend/src/controllers/video.controller.js:214-226 | `$set` changes the supplied fields only |
| VideoController.ApplyVideoFieldsIdempotent | backend/src/controllers/video.controller.js:214-226 | the same update twice is the update once |
| VideoController.UpdateVideo | backend/src/controllers/video.controller.js:181-237 | corrected (see Findings): checks in source order; only the caller's video with that id gets the new fields, every other video is untouched (the same code is at src/controllers/video.controller.js:93-149) |
| VideoController.DeleteVideo | backend/src/controllers/video.controller.js:240-259 | afterwards no video has that id, whoever owned it (the same code is at src/controllers/video.controller.js:152-171) |
| VideoController.FlipPublished | backend/src/controllers/video.controller.js:268-272 | negates `isPublished` and nothing else |
| VideoController.TogglePublishStatus | backend/src/controllers/video.controller.js:262-290 | corrected (see Findings): only the caller's video with that id has `isPublished` negated (the same code is at src/controllers/video.controller.js:174-202) |
| VideoController.CastIdFilter | backend/src/controllers/video.controller.js:214-218 | the filter `findByIdAndUpdate({ _id, owner })` applies: the id alone, whoever the caller is |
| VideoController.NonOwnerUpdatesAsWritten | backend/src/controllers/video.controller.js:214-218 | as written, the `{ _id, owner }` id is cast to its `_id`, so a caller who does not own the video still gets it updated; the owner filter changes nothing |
| VideoController.NonOwnerTogglesAsWritten | backend/src/controllers/video.controller.js:265-266 | as written, a non-owner's toggle negates `isPublished` of someone else's video; the owner filter changes nothing |
| VideoController.TogglePublishTwice | backend/src/controllers/video.controller.js:265-278 | two toggles restore the videos |
| PlaylistController.CreatePlaylist | backend/src/controllers/playlist.controller.js:7-33 | both fields required; the new playlist is empty and the caller's; the insert fails with a duplicate key exactly when another playlist is already empty (the unique index on `videos`, backend/src/models/playlists.model.js:17-24); the index stays unique |
| PlaylistController.GetPlaylistById | backend/src/controllers/playlist.controller.js:35-57 | the playlist with that id, or the source's errors |
| PlaylistController.RowOf | backend/src/controllers/playlist.controller.js:72-89 | a row carries the playlist's name, description, createdAt and its video count |
| PlaylistController.UserListing | backend/src/controllers/playlist.controller.js:72-89 | exactly the caller's playlists, newest first |
| PlaylistController.GetUserPlaylists | backend/src/controllers/playlist.controller.js:59-109 | malformed caller rejected; one page of the caller's playlists, newest first, with their count |
| PlaylistController.EveryPlaylistOnSomePage | backend/src/controllers/playlist.controller.js:66-105 | when creation times are pairwise distinct, the listing is the only newest-first ordering, and each of the caller's playlists is on one of the pages 1..totalPages |
| PlaylistController.DeleteReplyAsWritten | backend/src/controllers/playlist.controller.js:118-131 | as written: never a 200 success; an error exactly when a playlist was removed, and HTTP status 400 on both paths |
| PlaylistController.DeleteReply | backend/src/controllers/playlist.controller.js:118-131 | corrected: success exactly when a playlist was removed |
| PlaylistController.DeleteAsWrittenNeverSucceeds | backend/src/controllers/playlist.controller.js:118-131 | the written reply is never a success, and it errs exactly when the corrected one succeeds |
| PlaylistController.DeletePlaylistAsWritten | backend/src/controllers/playlist.controller.js:111-132 | removes the playlist and replies with an error |
| PlaylistController.DeletePlaylist | backend/src/controllers/playlist.controller.js:111-132 | removes the playlist; 200 exactly when it existed |
| PlaylistController.AddToSet | backend/src/controllers/playlist.controller.js:147-153 | `$addToSet` appends the id unless present |
| PlaylistController.AddToSetIdempotent | backend/src/controllers/playlist.controller.js:147-153 | adding twice is adding once |
| PlaylistController.AddToSetKeepsNoDuplicates | backend/src/controllers/playlist.controller.js:147-153 | `$addToSet` never creates a duplicate |
| PlaylistController.Pull | backend/src/controllers/playlist.controller.js:183-189 | `$pull` removes every occurrence and keeps the rest, in order |
| PlaylistController.PullAfterAddToSet | backend/src/controllers/playlist.controller.js:147-189 | removing undoes adding |
| PlaylistController.PullAppend | backend/src/controllers/playlist.controller.js:183-189 | pulling an id appended last removes exactly that id |
| PlaylistController.AddVideoToPlaylist | backend/src/controllers/playlist.controller.js:134-168 | id checks; 400 when no playlist matched; a duplicate-key failure exactly when the video is not in that playlist but is in another; otherwise the playlist's videos become `AddToSet(videos, videoId)`; the index stays unique |
| PlaylistController.RemoveVideoFromPlaylist | backend/src/controllers/playlist.controller.js:170-204 | id checks; 400 when no playlist matched; a duplicate-key failure exactly when the pull empties the playlist while another is empty; otherwise the playlist's videos become `Pull(videos, videoId)`; the index stays unique |
| PlaylistController.InsertKeepsUnique | backend/src/models/playlists.model.js:17-24 | an insert the unique index accepts keeps every key in at most one playlist |
| PlaylistController.ReplaceKeepsUnique | backend/src/models/playlists.model.js:17-24 | an update the unique index accepts, one that adds no key another playlist holds, keeps every key in at most one playlist |
| PlaylistController.OnePlaylistPerKey | backend/src/models/playlists.model.js:17-24 | while the index holds, a video is in at most one playlist and at most one playlist is empty |
| PlaylistController.InsertEmptyRefusedMeans | backend/src/controllers/playlist.controller.js:14-18 | a new playlist, whose `videos` is empty, is refused exactly when some playlist is already empty |
| PlaylistController.AddRefusedMeans | backend/src/controllers/playlist.controller.js:147-153 | `$addToSet` is refused exactly when the video is new to the playlist and another playlist holds it |
| PlaylistController.PullRefusedMeans | backend/src/controllers/playlist.controller.js:183-189 | `$pull` is refused exactly when it empties a non-empty playlist while another playlist is empty |
| PlaylistController.ApplyAsWritten | backend/src/controllers/playlist.controller.js:224-228 | as written, `title` is not a playlist field, so only `description` changes |
| PlaylistController.ApplyFields | backend/src/controllers/playlist.controller.js:215-218 | corrected: `title` renames the playlist and `description` replaces it |
| PlaylistController.TitleIgnoredAsWritten | backend/src/controllers/playlist.controller.js:215-228 | a title-only update leaves the playlist unchanged as written, but renames it when corrected |
| PlaylistController.UpdatePlaylistAsWritten | backend/src/controllers/playlist.controller.js:206-243 | the empty-update check never fires; only `description` is stored |
| PlaylistController.UpdatePlaylist | backend/src/controllers/playlist.controller.js:206-243 | corrected: rejects an empty update and stores both fields |
| LikeController.ToggleLike | backend/src/controllers/like.controller.js:15-38 | delete-else-create on (liker, target): the reply is "deleted" exactly when a like existed; no other like changes; at most one like per key is preserved |
| LikeController.ToggleVideoLike | backend/src/controllers/like.controller.js:8-49 | malformed id rejected with "videoId is wrong"; otherwise the toggle on the video (the same code is at src/controllers/like.controller.js:8-49) |
| LikeController.ToggleCommentLike | backend/src/controllers/like.controller.js:51-92 | the same rule on the comment field (the same code is at src/controllers/like.controller.js:51-92) |
| LikeController.ToggleTweetLike | backend/src/controllers/like.controller.js:94-135 | the same rule on the tweet field (the same code is at src/controllers/like.controller.js:94-135) |
| LikeController.LikeThenUnlike | backend/src/controllers/like.controller.js:15-38 | like then unlike restores the likes; other targets' counts are unaffected |
| LikeController.LikeScenario | backend/src/controllers/like.controller.js:15-38 | like A, like B, like A again leaves only the like on B |
| LikeController.OwnerProfile | backend/src/controllers/like.controller.js:174-186 | the owner lookup keeps the row without an owner (`preserveNullAndEmptyArrays`) |
| LikeController.CallerVideoLikes | backend/src/controllers/like.controller.js:151-156 | exactly the caller's likes that have a video |
| LikeController.NewestLikes | backend/src/controllers/like.controller.js:151-158 | those likes, newest first |
| LikeController.GetLikedVideos | backend/src/controllers/like.controller.js:137-232 | malformed caller rejected; one page of the caller's liked videos, newest like first, paginated before the joins, with the count of video likes |
| LikeController.LikedRowFields | backend/src/controllers/like.controller.js:188-209 | a row carries the like's time and the video's projected fields |
| LikeController.EveryLikedVideoOnSomePage | backend/src/controllers/like.controller.js:144-231 | when like times are pairwise distinct, the newest-first order is the only one, and each video like whose video exists is on one of the pages 1..totalPages |
| SubscriptionController.ToggleSubscription | backend/src/controllers/subscription.controller.js:8-54 | id and channel checks; delete-else-create on (subscriber, channel), with at most one edge per pair preserved |
| SubscriptionController.SubscribeThenUnsubscribe | backend/src/controllers/subscription.controller.js:21-43 | subscribe then unsubscribe restores the table |
| SubscriptionController.EdgesAt | backend/src/controllers/subscription.controller.js:81-85 | exactly the edges whose chosen end, channel or subscriber, is the given user: the channel match here, the subscriber match at backend/src/controllers/subscription.controller.js:146-150, and the dashboard's subscriber count at backend/src/controllers/dashboard.controller.js:44-46 |
| SubscriptionController.GetUserChannelSubscribers | backend/src/controllers/subscription.controller.js:56-132 | checks in source order; one page of the channel's subscribers with their profiles, with no promised order, and the channel's edge count |
| SubscriptionController.EverySubscriberOnSomePage | backend/src/controllers/subscription.controller.js:68-126 | when every page request sees the edges in table order, every existing subscriber is on one of the pages 1..totalPages |
| SubscriptionController.ChannelListing | backend/src/controllers/subscription.controller.js:147-171 | the caller's channels, newest subscription first |
| SubscriptionController.GetSubscribedChannelsAsWritten | backend/src/controllers/subscription.controller.js:134-197 | as written: any supplied `limit` fails, at `$skip` when the skip comes out negative and otherwise at `$limit`, which receives the string; without one, 10 rows |
| SubscriptionController.GetSubscribedChannels | backend/src/controllers/subscription.controller.js:134-197 | corrected: one page of `limitNumber` rows, newest first, with the caller's subscription count |
| SubscriptionController.SubscribedChannelsLimitFails | backend/src/controllers/subscription.controller.js:140-173 | `limit=5` fails as written, but not when corrected |
| SubscriptionController.EveryChannelOnSomePage | backend/src/controllers/subscription.controller.js:140-191 | corrected: when subscription times are pairwise distinct, the listing is the only newest-first ordering, and every existing followed channel is on one of the pages 1..totalPages |
| DashboardController.Published | backend/src/controllers/dashboard.controller.js:30-33 | exactly the channel's published videos |
| DashboardController.SumViews | backend/src/controllers/dashboard.controller.js:38 | `$sum: "$views"` over a group: the views of its videos added up |
| DashboardController.SumViewsAppend | backend/src/controllers/dashboard.controller.js:38 | `$sum` of views is additive over concatenation |
| DashboardController.SumViewsBound | backend/src/controllers/dashboard.controller.js:38 | no video has more views than the group's total |
| DashboardController.LikesOnChannel | backend/src/controllers/dashboard.controller.js:49-69 | exactly the likes on an existing video the channel owns; comment and tweet likes drop out |
| DashboardController.GetChannelStatsAsWritten | backend/src/controllers/dashboard.controller.js:10-86 | as written: fails when the channel has no published video or no like; `totalViews` is always 0 |
| DashboardController.GetChannelStats | backend/src/controllers/dashboard.controller.js:10-86 | corrected: counts default to 0 and `totalViews` sums the published views; each total is bounded by its collection |
| DashboardController.StatsAsWrittenAgree | backend/src/controllers/dashboard.controller.js:78-81 | where the written handler answers, it differs from the corrected one only in `totalViews` |
| DashboardController.EmptyChannelAsWritten | backend/src/controllers/dashboard.controller.js:78 | a channel without videos fails as written and gets zeros when corrected |
| DashboardController.SamplePublished | backend/src/controllers/dashboard.controller.js:28-41 | the published group of the sample is 2 videos with 15 views |
| DashboardController.ViewsScenario | backend/src/controllers/dashboard.controller.js:79 | on the sample, 15 views corrected and 0 as written |
| DashboardController.StatsAfterInsert | backend/src/controllers/dashboard.controller.js:28-41 | a new video changes the video and view totals exactly when it is a published video of the channel |
| DashboardController.Summaries | backend/src/controllers/dashboard.controller.js:115-123 | the projection applied to every video, in order |
| DashboardController.GetChannelVideos | backend/src/controllers/dashboard.controller.js:88-152 | checks in source order; one page of the channel's published videos, with no promised order, and their count |
| DashboardController.EveryChannelVideoOnSomePage | backend/src/controllers/dashboard.controller.js:101-146 | when every page request sees the videos in table order, every published video of the channel is on one of the pages 1..totalPages |
| CommentController.OnVideo | src/controllers/comment.controller.js:25-27 | exactly the video's comments |
| CommentController.Thread | src/controllers/comment.controller.js:23-49 | the video's comments whose author exists, newest first |
| CommentController.GetVideoComments | src/controllers/comment.controller.js:7-76 | missing or malformed id rejected; one page of the thread, newest first, and the comment count |
| CommentController.EveryCommentOnSomePage | src/controllers/comment.controller.js:19-69 | when creation times are pairwise distinct, the thread is the only newest-first ordering, and every comment whose author exists is on one of the pages 1..totalPages |
| CommentController.AddComment | src/controllers/comment.controller.js:78-112 | id and content checks; the appended comment is the caller's, on that video |
| CommentController.UpdateComment | src/controllers/comment.controller.js:114-147 | checks in source order; only `content` of the comment with that id changes, and the reply is `null` when none matched |
| CommentController.UpdateCommentTwice | src/controllers/comment.controller.js:126-136 | the same edit twice is the edit once |
| CommentController.DeleteComment | src/controllers/comment.controller.js:149-172 | afterwards no comment has that id |
| CommentController.AddThenDelete | src/controllers/comment.controller.js:91-95 | deleting the comment just added restores the comments |
| TweetController.CreateTweet | src/controllers/tweet.controller.js:7-34 | content required; the appended tweet is the caller's |
| TweetController.DeleteTweet | src/controllers/tweet.controller.js:36-59 | afterwards no tweet has that id |
| TweetController.CreateThenDelete | src/controllers/tweet.controller.js:14-17 | deleting the tweet just created restores the tweets |
| TweetController.UpdateTweet | src/controllers/tweet.controller.js:61-97 | checks in source order; only `content` of the tweet with that id changes; 400 when none matched |
| TweetController.UpdateTweetTwice | src/controllers/tweet.controller.js:74-82 | the same edit twice is the edit once |
| TweetController.OwnedBy | src/controllers/tweet.controller.js:112-115 | exactly the caller's tweets |
| TweetController.GetUserTweets | src/controllers/tweet.controller.js:99-159 | one page of the caller's tweets with the author's profile, with no promised order, and their count |
| TweetController.EveryTweetOnSomePage | src/controllers/tweet.controller.js:107-154 | when every page request sees the tweets in table order and the caller's user is present, the join drops nothing and each tweet is on one of the pages 1..totalPages |
| UserController.AnyThenMeans | src/controllers/user.controller.js:31 | the lookahead `(?=.*[C])` holds iff a character of class C comes before any line break |
| UserController.DotsThenEndMeans | src/controllers/user.controller.js:31 | `.{n,}$` holds iff the string is at least n UTF-16 code units long and no character is a line break |
| UserController.PasswordMatches | src/controllers/user.controller.js:31 | the regular expression as written: two lookaheads, for a capital and for a special character, then `.{8,}$` |
| UserController.PasswordPolicy | src/controllers/user.controller.js:31-35 | the rule in words: 8 or more UTF-16 code units, a capital, a special character, no line break |
| UserController.PasswordMatchesPolicy | src/controllers/user.controller.js:31-35 | the regular expression accepts exactly the passwords of 8 or more UTF-16 code units with a capital, a special character and no line break |
| UserController.Utf16LengthOfBmp | src/controllers/user.controller.js:31 | the code-unit length equals the character count exactly when no character lies outside the Basic Multilingual Plane |
| UserController.PasswordCountsCodeUnits | src/controllers/user.controller.js:31-35 | a five-character password of "A#" and three emoji (eight code units) is accepted |
| UserController.PasswordAccepted | src/controllers/user.controller.js:31-35 | "Secret#12" is accepted |
| UserController.PasswordNeedsCapital | src/controllers/user.controller.js:31-35 | a password without a capital is refused |
| UserController.PasswordNeedsSpecial | src/controllers/user.controller.js:31-35 | a password without a special character is refused |
| UserController.PasswordNeedsLength | src/controllers/user.controller.js:31-35 | a password shorter than 8 code units is refused |
| UserController.PasswordRefusesLineBreak | src/controllers/user.controller.js:31-35 | a password containing a line break is refused |
| UserController.Taken | src/controllers/user.controller.js:22-29 | `findOne({ $or: [{ userName }, { email }] })` finds a user |
| UserController.TakenMeans | src/controllers/user.controller.js:23-29 | the `$or` lookup finds a user exactly when one has the user name or the email |
| UserController.AvatarPath | src/controllers/user.controller.js:37 | `req.files?.avatar[0]?.path` is undefined without files or without a first avatar, and a TypeError with files but no avatar field |
| UserController.CoverUrl | src/controllers/user.controller.js:39-44 | the first cover file's URL, or "" when there is none or the upload fails |
| UserController.PublicViewDropsSecrets | src/controllers/user.controller.js:65 | the returned view omits exactly `password` and `refreshToken` |
| UserController.RegisterUser | src/controllers/user.controller.js:7-74 | checks in source order (fields, uniqueness, password, avatar path, avatar, upload); the stored user carries the supplied fields and URLs; user names and emails stay distinct |

## Left out

- Authentication, JWT and the `verifyJWT` middleware: the caller's id is a parameter.
- Cloudinary uploads: an oracle `Uploader` from a local path to an optional URL. Local file clean-up is not modelled.
- Time: `createdAt` is a parameter of every inserting handler. `updatedAt` is not modelled.
- New `_id` values: parameters, required to be fresh.
- Concurrency and `Promise.all`: handlers run one at a time; parallel queries read the same state.
- bcrypt hashing and the `pre("save")` hook: the password is stored as given.
- Mongoose schema validation (required fields, `trim`, `lowerCase`, strict mode dropping unknown paths):
  - the schema in src/models/users.model.js uses `user_`-prefixed field names and requires `user_id` and `user_refreshToken`, none of which `registerUser` supplies;
  - the model stores the fields under the controller's names;
  - the comment and tweet schemas are not part of this model.
- The `$regex` engine in `getVideos`: the query is read as a literal substring, and `$options: "i"` as ASCII case folding.
- `ObjectId.isValid` is read as "24 hexadecimal digits". The 12-byte-string case is not modelled.
- `parseInt` of a non-numeric `page` or `limit` (NaN) is not modelled: `page` and `limit` arrive as an optional integer or absent. A `limit` of 0 or less passes the code unclamped and is modelled as MongoDB rejecting the paging stages: the `$skip` stage when the skip comes out negative (a negative limit on page 2 or later), the `$limit` stage otherwise.
- Floating point: `Math.ceil(total / limit)` is exact integer ceiling division.
- `getVideos` and `getLikedVideos` in the src tree have empty bodies: those requests never get a response, which has no counterpart here.
- `VideoController.GetVideos`: of MongoDB's field-path rules for a `$sort` key, the model checks an empty key, a leading `$` and an empty dotted component. A later component starting with `$` (other than the DBRef names), and a NUL character, are refused by MongoDB too, but are accepted here.
- `VideoController.GetVideos`: `videoFile` in the projection names no stored field and adds nothing to a row. A `sortBy` other than the three numeric fields (a string field, or an unknown one) is modelled as promising no order.
- `VideoController.UpdateVideo` and `VideoController.TogglePublishStatus` model the owner filter the code evidently means; the code as written casts `{ _id, owner }` to its `_id` and is modelled by `CastIdFilter` (see Findings).
- `SubscriptionController.GetUserChannelSubscribers`, `TweetController.GetUserTweets` and `DashboardController.GetChannelVideos` promise no row order, because their `createdAt` sort runs after the projection has dropped `createdAt`. The model takes table order.
- EverySubscriberOnSomePage (`SubscriptionController`) holds under the hypothesis that every page request sees the edges in one order, the table order; MongoDB does not promise that for a sort on a field the projection has dropped.
- EveryTweetOnSomePage (`TweetController`) holds under the same one-order hypothesis.
- EveryChannelVideoOnSomePage (`DashboardController`) holds under the same one-order hypothesis.
- EveryMatchOnSomePage (`VideoController`) assumes pairwise distinct sort keys; with ties, MongoDB may order the tied rows differently from one page request to the next, and the lemma says nothing about that case.
- EveryPlaylistOnSomePage (`PlaylistController`) assumes pairwise distinct `createdAt` values, for the same reason.
- EveryLikedVideoOnSomePage (`LikeController`) assumes pairwise distinct like times, for the same reason.
- EveryChannelOnSomePage (`SubscriptionController`) assumes pairwise distinct subscription times, for the same reason.
- EveryCommentOnSomePage (`CommentController`) assumes pairwise distinct comment times, for the same reason.
- Ids are assumed to be written in lower-case hexadecimal, as `ObjectId.toString` gives them. Ids compare as strings, so an upper-case spelling of a stored id (in `findById`, a filter or `$addToSet`) is not recognised as the same id, although MongoDB would cast both to one ObjectId.
- The password rule's `.{8,}` counts UTF-16 code units, as a JavaScript regular expression without the `u` flag does, so a character outside the Basic Multilingual Plane counts twice. Dafny strings hold no lone surrogate halves, so passwords containing one are not modelled.
- src/controllers/user.controller.js defines and exports only `registerUser` (line 76). The further handlers src/routes/user.routes.js imports (login, logout, tokens, profile changes, channel profile, watch history) exist nowhere in that file, and are not part of this model.
- src/utils/asyncHandler.js:1 is itself `async`, so every handler the src tree exports is a Promise, which Express refuses as a route callback. The model takes the inner handler function.
- The video schema in src/models/videos.model.js requires `id` and `duration` with no default (lines 5-9 and 31-34) and makes `owner` unique (lines 18-23), so `Video.create` in `publishAVideo` is refused as written, and a second video of one owner too. The model stores the video anyway; its `duration` of 0 is the model's choice, since nothing in the handler supplies one.
- The unique index on playlist `videos` (backend/src/models/playlists.model.js:17-24) is assumed built, as Mongoose's automatic index creation does at start-up; `Database.Db.Valid` requires it to hold. The index does not stop a playlist from holding one video twice: `$addToSet` alone keeps that from happening.
- The frontend under frontend/ (React pages, forms, HTTP calls) is not modelled.

## Findings

| source | as written | input that shows it | evidently intended | confidence | as-written member | corrected member |
|---|---|---|---|---|---|---|
| backend/src/controllers/playlist.controller.js:120-125 | throws "playlist not deleted yet" when a playlist WAS deleted, and answers status 400 when none was | delete an existing playlist | 200 when the playlist was removed, 400 otherwise | high, not executed | PlaylistController.DeleteAsWrittenNeverSucceeds | PlaylistController.DeleteReply |
| backend/src/controllers/playlist.controller.js:220 | `updates.length == 0` is never true for an object, so an empty update is not rejected | a body with neither title nor description | reject with "Atleast one is required" | high, not executed | PlaylistController.UpdatePlaylistAsWritten | PlaylistController.UpdatePlaylist |
| backend/src/controllers/playlist.controller.js:217 | `title` is set, but the playlist field is `name`, so a title change is dropped | a body with only a title | the title renames the playlist | medium, not executed | PlaylistController.TitleIgnoredAsWritten | PlaylistController.ApplyFields |
| backend/src/controllers/dashboard.controller.js:79 | `totalViews` reads the group's nonexistent `totalLikes`, so it is always 0 | a channel with published videos of 10 and 5 views and one like | the sum of the published videos' views (15) | high, not executed | DashboardController.ViewsScenario | DashboardController.GetChannelStats |
| backend/src/controllers/dashboard.controller.js:78-81 | `videoStats[0]` / `likeStats[0]` are undefined when nothing was grouped, so the handler throws a TypeError | an existing channel with no published video | report 0 for the missing group | high, not executed | DashboardController.EmptyChannelAsWritten | DashboardController.GetChannelStats |
| backend/src/controllers/video.controller.js:214-218 | `findByIdAndUpdate({ _id, owner }, ...)` casts the object to its `_id`, so the owner condition is dropped | a logged-in caller updating someone else's video by its id | update only when the caller owns the video | high, not executed | VideoController.NonOwnerUpdatesAsWritten | VideoController.UpdateVideo |
| backend/src/controllers/video.controller.js:265-266 | the same cast in `togglePublishStatus` | a caller toggling someone else's video | toggle only the caller's own video | high, not executed | VideoController.NonOwnerTogglesAsWritten | VideoController.TogglePublishStatus |
| backend/src/controllers/subscription.controller.js:173 | `$limit: limit` receives the raw query string, which MongoDB refuses | `GET /subscriptions?limit=5` | `$limit: limitNumber`, as the other handlers have it | medium, not executed | SubscriptionController.SubscribedChannelsLimitFails | SubscriptionController.GetSubscribedChannels |

