# Proofs about a Mastodon server

This project models the parts of a Mastodon server whose
correctness does not show in any single function, and proves what they are for:

- **Feeds** (`FeedState`, `FeedSteps`, `FeedInvariants`, `FeedExactness`, `FeedRemoval`,
  `FeedComebacks`, `FeedQueries`, `FeedManager`): the sorted set of entries, the index of tracked reblogs
  and the sets of suppressed reblogs that `FeedManager` keeps in Redis. The deduplication
  of the top of a feed is an invariant over ranks that holds over all runs of additions
  and trims; it is exactly what a feed needs to stay deduplicated, and exactly the safe
  removals keep it.
- **Feed migration** (`FeedMigration`): the rewriting of the old feed representation into
  that one.
- **Online schema changes** (`ColumnBatches`, `ConcurrentBackfill`, `ConcurrentRename`,
  `ConcurrentDefault`): batched updates of a column, alone and with writers at work
  between any two statements.
- **Conversations** (`Conversations`, `ConversationWorkers`): workers that read a
  versioned row, change it and save or destroy it under a version check.
- **Custom emojis** (`EmojiTokens`, `EmojiScanner`): the scan that rewrites HTML under its
  own cursor, against a pure left-to-right reading.
- **Quirks** (`Quirks`, `QuirksRoundTrip`): holding protected text back behind a sentinel
  while the rest is rewritten, and exactly when it comes back.
- **Account merging** (`AccountMerge`), **ids** (`Snowflake`), the **streaming server**
  (`Streaming`) and the **direct timeline** (`DirectTimeline`).

`SortedSets`, `Lists` and `Wrappers` hold what they share: ranks, ordered lists, sorting,
`LIMIT` and `WHERE`, `Option`.

Each class method is proved to leave its object in the state a function on values
gives, and the lemmas are about those functions; protocols with several sessions are
step relations over values, and their results are about every interleaving.

To verify: `dafny verify dfyconfig.toml` (Dafny 4.11).

## How the model reads the code

- Redis scores are exact integers. In the current feed representation the score of an
  entry is its id; `FeedMigration` has scores of its own.
- Every public feed operation is one atomic step. `filter?`, the visibility tests and the
  database queries that choose statuses are parameters, and so are the two sets of
  statuses the direct timeline merges.
- `MAX_ITEMS` and `REBLOG_FALLOFF` are the two fields of `Limits`. The comment on the
  constants demands `REBLOG_FALLOFF <= MAX_ITEMS`. Deduplication does not need it; that
  the index is exact and bounded does, and `IndexBoundedIff` says that it needs just that.
- Whether a feed stays deduplicated depends on the posts that come later.
  `StaysDeduplicated` over `OnFeed` fixes the rows of its entries and leaves all other rows
  open; over the whole table it fixes every row there is. `Flat` says that no reblog is of
  a reblog, which `Status#set_reblog` sees to.
- A conversation row has a primary key of its own, so that a row that was destroyed and
  created again is another row. A save without changes sends nothing.
- The batch size is computed over the reals. Floats could round it up by one; every result
  about batches holds for any size from 1 on.
- A regular expression is a language with a matcher that gives the length of the match
  at a position; the expression of the protected text has no look-around, so whether a
  match starts at a position depends on the text from there on only.
- `String#sub` is modelled with the escapes of its replacement string for patterns
  without groups.
- Random draws, clocks and the answers of the unique index to an insertion are
  parameters.

## Model

| member | source | states |
|---|---|---|
| SortedSets.DescAt | app/lib/feed_manager.rb:241 | the reverse rank of the k-th entry of the descending list is k: `zrevrank` counts the higher entries |
| SortedSets.RemLowestBeyondIsTop | app/lib/feed_manager.rb:64-65 | removing ascending ranks 0 to -(n+1) keeps exactly the n highest entries |
| FeedSteps.OriginalIsAddedIff | app/lib/feed_manager.rb:261-274 | in any state an original is turned away, and nothing changes, if and only if a reblog of it is tracked, however far that has sunk; otherwise its id joins the entries and nothing else changes |
| FeedSteps.ReblogIsAddedIff | app/lib/feed_manager.rb:237-260 | in any state: with its original near the top a reblog changes nothing at all, tracked or not; otherwise it is put aside if another one is tracked, and added and tracked if not; all other originals keep score and suppressed set |
| FeedSteps.RemovalMeans | app/lib/feed_manager.rb:280-308 | in any state a removal says whether the status was an entry, takes it off, puts on at most the least suppressed reblog of its original, and leaves the index and the suppressed sets of all other originals alone |
| FeedSteps.RemovalOfOwnSet | app/lib/feed_manager.rb:283-305 | an original takes its suppressed set with it, a reblog on the feed leaves the set, a reblog that is not on the feed changes nothing |
| FeedSteps.TrimKeepsHighest | app/lib/feed_manager.rb:64-65 | a trim keeps exactly the entries with fewer than `MAX_ITEMS` above them |
| FeedSteps.TrimMeans | app/lib/feed_manager.rb:67-82 | in any state an original stays tracked if and only if fewer than `REBLOG_FALLOFF` entries are at or above its reblog (or the feed is too short for the falloff); it then keeps its score and its suppressed set, and the sets of untracked originals alone are dropped |
| FeedSteps.RunEndsInLastStage | app/lib/feed_manager.rb:91-99 | a run takes every step, each on what the one before it left |
| FeedInvariants.TopNeverRepeats | app/lib/feed_manager.rb:60-83 | in every run of additions and trims from an empty feed, in any order and for any limits, no two of the top `REBLOG_FALLOFF` entries show the same post, as itself or as a reblog |
| FeedInvariants.TrimMakesIndexExact | app/lib/feed_manager.rb:8-11 | after a trim the index is exactly the reblogs at rank below `REBLOG_FALLOFF - 1`, it has fewer than `REBLOG_FALLOFF` entries and the feed at most `MAX_ITEMS` |
| FeedInvariants.AddKeepsNoRepeat | app/lib/feed_manager.rb:233-274 | an addition keeps: no repeats on top, and every reblog near the top tracked under a score that keeps it tracked while it is there |
| FeedInvariants.TrimKeepsNoRepeat | app/lib/feed_manager.rb:60-83 | a trim keeps the same two facts, for any limits |
| FeedInvariants.AddKeepsIndex | app/lib/feed_manager.rb:233-274 | an addition also keeps: every reblog near the top tracked under itself, every tracked reblog shown |
| FeedInvariants.TrimKeepsIndex | app/lib/feed_manager.rb:60-83 | a trim keeps these too, and makes the index exact |
| FeedInvariants.AdditionIsExact | app/lib/feed_manager.rb:233-274 | on a feed just trimmed a reblog is added if and only if neither its original is among the top `REBLOG_FALLOFF` entries nor another reblog of it above the last of these; an original if and only if there is no such reblog |
| FeedInvariants.IndexBoundedIff | app/lib/feed_manager.rb:8-11 | over all runs the index stays bounded if and only if `REBLOG_FALLOFF <= MAX_ITEMS`; otherwise it outgrows every bound |
| FeedExactness.ReachableStaysDeduplicatedIff | app/lib/feed_manager.rb:233-274 | a feed reached by any additions, removals and trims stays deduplicated whatever is added and trimmed later if and only if its top does not repeat and every reblog near the top is covered by the index |
| FeedExactness.StaysDeduplicatedIff | app/lib/feed_manager.rb:233-274 | the same when every row of the table is fixed, as long as there is an id left between an uncovered reblog and the score its original is tracked under |
| FeedExactness.RemovalKeepsNoRepeatIff | app/lib/feed_manager.rb:280-308 | a removal keeps that if and only if the entry that comes up above the falloff entry is covered, the one that comes up to it shows a post of its own, and both hold of the uncovered reblog as far as it gets up there |
| FeedExactness.SafeIsExact | app/lib/feed_manager.rb:280-308 | so the feed after a removal stays deduplicated whatever is added later if and only if that condition held before it |
| FeedExactness.SafeRunKeepsNoRepeat | app/lib/feed_manager.rb:233-308 | runs with removals that meet it never repeat a post on top |
| FeedManager.OperationsKeepNoRepeat | app/lib/feed_manager.rb:85-141 | pushing, merging and populating all keep the deduplication invariant, for any limits |
| FeedRemoval.CleaningLeavesNothing | app/models/list.rb:33-46 | after any run of additions, removals and trims, deleting the feed, the index and the sets of the indexed originals leaves no key |
| FeedRemoval.CleaningLeavesUnlisted | app/models/list.rb:33-46 | of any feed exactly the suppressed sets the index does not list are left |
| FeedRemoval.FurtherReblogsArePutAside | app/lib/feed_manager.rb:252-259 | further reblogs of a tracked original all go to its suppressed set and change nothing else |
| FeedRemoval.ComebacksInOrder | app/lib/feed_manager.rb:280-308 | from any feed, removing one visible reblog of an original and then whichever takes its place shows the suppressed ones one at a time, oldest first, each once, beside the other visible reblogs of it, which alone are left; no other original is touched |
| FeedRemoval.ComebackOrderMeans | app/lib/feed_manager.rb:293-298 | that order is the visible one, then every other suppressed reblog once, ascending |
| FeedComebacks.RemovalForgetsIff | app/lib/feed_manager.rb:285-300 | after its removal a reblog is neither on the feed nor set aside if and only if it was on the feed or not set aside |
| FeedComebacks.RemovalIsFinalIff | app/lib/feed_manager.rb:280-308 | a removed status gets onto the feed again in no run without a new addition of it, if and only if it was on the feed, or not set aside, or no reblog of its original was on the feed |
| FeedComebacks.RemovalShowsTheTrackedIff | app/lib/feed_manager.rb:280-308 | a removal leaves every tracked original with a reblog on the feed if and only if it does not take the last one with none set aside |
| FeedComebacks.InsertionsShowTheTracked | app/lib/feed_manager.rb:233-274 | without removals every tracked original always has a reblog on the feed |
| FeedRemoval.NothingComesBackForDeletedOriginal | app/lib/feed_manager.rb:302-305 | once an original is removed, removing a reblog of it brings no suppressed one back |
| FeedRemoval.ClearingIsExact | app/lib/feed_manager.rb:111-119 | no entry by the cleared account is left, every other entry stays, and what is new was a suppressed reblog |
| FeedQueries.UnmergingSparesTheOldest | app/lib/feed_manager.rb:102-109 | unmerging, with the statuses of the account listed in any order, removes every entry by the account but the oldest entry of the feed, which stays, because the comparison is strict; nobody else's entry goes |
| FeedQueries.NewerIsExact | app/lib/feed_manager.rb:104-106 | what is selected for it are the listed statuses above the lowest entry, all of them and no others, in the order listed; all of them if the feed is empty |
| FeedQueries.MergedPartIsExact | app/lib/feed_manager.rb:87-92 | what is merged is the first quarter of `MAX_ITEMS`, and no less of it, of the listed statuses, above the lowest entry once the feed is a quarter full |
| FeedQueries.InsertionsAreExact | app/lib/feed_manager.rb:94-97 | the loop adds every status that is not hidden, in order, and no other |
| FeedQueries.OlderIsExact | app/lib/feed_manager.rb:127-128 | a page starts from all posts below the last id, in order |
| FeedQueries.ListHidesIff | app/lib/feed_manager.rb:42-47 | a list hides exactly the replies to nobody known, or to somebody who is neither their author, nor the owner, nor on the list |
| FeedManager.Feed.AddToFeed | app/lib/feed_manager.rb:233-274 | changes timeline, index and suppressed sets as the value function says, and returns whether a post was added |
| FeedManager.Feed.RemoveFromFeed | app/lib/feed_manager.rb:280-308 | likewise for a removal, with the comeback of the oldest suppressed reblog |
| FeedManager.Feed.Trim | app/lib/feed_manager.rb:60-83 | likewise for a trim, deleting the indexed entries one by one |
| FeedManager.Feed.PushToHome | app/lib/feed_manager.rb:29-34 | is the run of an addition, followed by a trim when something was added |
| FeedManager.Feed.PushToList | app/lib/feed_manager.rb:42-52 | the same when the list shows the reply, and nothing otherwise |
| FeedManager.Feed.MergeIntoTimeline | app/lib/feed_manager.rb:85-100 | is the run of the additions of the newest visible statuses, above the oldest entry when the feed is a quarter full, and a trim |
| FeedManager.MergingIsBounded | app/lib/feed_manager.rb:85-100 | merging adds at most a quarter of `MAX_ITEMS`, and to a feed a quarter full nothing at or below its oldest entry |
| FeedManager.Feed.UnmergeFromTimeline | app/lib/feed_manager.rb:102-109 | is the run of the removals of the statuses above the oldest entry |
| FeedManager.Feed.ClearFromTimeline | app/lib/feed_manager.rb:111-119 | is the run of the removals of exactly the entries by the target, in some order |
| FeedManager.Feed.PopulateFeed | app/lib/feed_manager.rb:121-141 | terminates, and adds from whole pages up to the first page that puts something on the feed, paging by the last id |
| FeedManager.ExaminedIsExact | app/lib/feed_manager.rb:121-141 | it stops at the first end of a page of half of `MAX_ITEMS` up to which something was added, or at the end of the home timeline if there is none |
| FeedManager.PopulatingIsBounded | app/lib/feed_manager.rb:121-141 | populating adds at most half of `MAX_ITEMS` |
| FeedManager.PopulatingFindsSomething | app/lib/feed_manager.rb:121-141 | an empty feed gets an entry if and only if some status of the home timeline passes the filter |
| FeedManager.Feed.CleanFeedManager | app/models/list.rb:33-46 | deletes the feed, the index and the sets of the indexed originals |
| FeedMigration.OldTimeline.Migrate | db/migrate/20170920032311_fix_reblogs_in_feeds.rb:25-51 | the Lua loop leaves the scores of the old feed as entries and exactly its reblogs in the index |
| FeedMigration.MigrationKeepsDisplay | db/migrate/20170920032311_fix_reblogs_in_feeds.rb:25-51 | readers see the same posts in the same order before and after |
| FeedMigration.MigrationEstablishesInvariant | db/migrate/20170920032311_fix_reblogs_in_feeds.rb:12-21 | the migrated feed satisfies the deduplication invariant and its index is exactly the reblogs present |
| ColumnBatches.BatchSize | lib/mastodon/migration_helpers.rb:327-334 | 5% of the rows rounded up, between 1 and 1000 |
| ColumnBatches.BatchSplits | lib/mastodon/migration_helpers.rb:352-370 | the rows before the stop row are exactly one batch, and without a stop row the rest is at most one |
| ColumnBatches.Table.UpdateColumnInBatches | lib/mastodon/migration_helpers.rb:308-406 | every row the block selected at the start gets the value once, every other row stays as it was, and the batches cut the selection, even when the block looks at the updated column |
| ColumnBatches.CutIsExact | lib/mastodon/migration_helpers.rb:327-405 | every selected row is in exactly one batch, and there are as many batches as rows over batch size, rounded up |
| ConcurrentBackfill.StepKeepsBackfill | lib/mastodon/migration_helpers.rb:348-405 | every query and update keeps the rows below the cursor good and moves the cursor up |
| ConcurrentBackfill.UndisturbedPassIsExact | lib/mastodon/migration_helpers.rb:308-406 | with nobody in between the steps get to the end, and whenever they do they have left what the method of one session leaves |
| ConcurrentRename.StepKeepsInv | lib/mastodon/migration_helpers.rb:698-719 | no step of the migration, of a writer under the trigger or of a rerun breaks the copying invariant |
| ConcurrentRename.CopyIsComplete | lib/mastodon/migration_helpers.rb:479-538 | in every interleaving, once the copying is done both columns are equal in every row, from then on |
| ConcurrentRename.CopiesTheOldColumn | lib/mastodon/migration_helpers.rb:479-538 | when nobody writes, both columns end up with what the old one had at the start, reruns included |
| ConcurrentRename.MigrationKeepsOldColumn | lib/mastodon/migration_helpers.rb:698-719 | the migration never changes the old column, and the trigger stores in it what was written |
| ConcurrentRename.NoNullAfterCopy | lib/mastodon/migration_helpers.rb:534 | the NOT NULL constraint of the old column can be set on the new one |
| ConcurrentDefault.NoNullAfterFilling | lib/mastodon/migration_helpers.rb:432-464 | with the default set first, in every interleaving, once the filling is done a row has NULL if and only if the last to set the column was a writer who set it to NULL; so there is none if writers never do |
| ConcurrentDefault.WrittenMeans | lib/mastodon/migration_helpers.rb:441-451 | a write touches one row; a row inserted without the column has the default once there is one |
| ConcurrentDefault.FillsInTheDefault | lib/mastodon/migration_helpers.rb:432-464 | when nobody writes, every row ends up with the default, and with everything else as it was |
| Conversations.ParticipantsAreCanonical | app/models/account_conversation.rb:92-94 | the key lists everybody but the recipient, once and in order |
| Conversations.ApplyMeans | app/models/account_conversation.rb:59-90 | an operation touches its own conversation only: a new status joins and decides whether it is unread, one that is there changes nothing, a removed one leaves, and the conversation goes with the last |
| Conversations.ConversationTable.AddStatusTo | app/models/account_conversation.rb:59-70 | a try with nobody in between adds the status to the conversation and keeps the row invariant |
| Conversations.ConversationTable.RemoveStatusFrom | app/models/account_conversation.rb:72-88 | likewise removes it, and the row with its last status |
| Conversations.ConversationTable.UpdateRow | app/models/account_conversation.rb:59-102 | saves only changes and only under the version read, with ids sorted and the last status set |
| Conversations.SavedWriteApplies | app/models/account_conversation.rb:59-102 | planning on the row as it is and writing at once does what the operation means |
| ConversationWorkers.WriteKeepsSeen | app/models/account_conversation.rb:59-90 | a saved write can never pass for the row an earlier reader saw |
| ConversationWorkers.WorkersAreLinearizable | app/models/account_conversation.rb:59-102 | in every interleaving the table is the finished operations applied one at a time in the order they took effect; ids are ordered and unique, the last status is the greatest, no row is empty; each operation took effect once if it finished and never otherwise |
| ConversationWorkers.HistoryGrows | app/models/account_conversation.rb:59-90 | that order never changes afterwards |
| ConversationWorkers.OnlyLostCreationFails | app/models/account_conversation.rb:59-70 | an operation fails exactly when it was to create a row that has appeared since, and then the table is untouched |
| EmojiTokens.SourcesAreInput | app/lib/formatter.rb:132-182 | putting the shortcodes back in place of the images gives the input |
| EmojiTokens.ImagesOnlyInText | app/lib/formatter.rb:164-172 | images stand only for text outside tags and outside invisible spans |
| EmojiTokens.TextIsKept | app/lib/formatter.rb:148-182 | text up to a colon or a tag comes out as it is |
| EmojiTokens.ShortcodeIsReplaced | app/lib/formatter.rb:150-163 | a known shortcode in visible text becomes its image; at an unknown one the closing colon is read again and may open another |
| EmojiTokens.ImageIsTag | app/lib/formatter.rb:155 | the image has the encoded shortcode in `alt` and `title` and the encoded address in `src` |
| EmojiTokens.EncodeIsRead | app/lib/formatter.rb:155 | what is encoded is read by a browser as it was |
| EmojiTokens.DepthAfterMeans | app/lib/formatter.rb:125-130 | outside invisible spans only their opening tag counts; inside, a tag counts by the slash it begins or ends with |
| EmojiTokens.TagIsKept | app/lib/formatter.rb:164-175 | a tag comes out as it is, colons in it included |
| EmojiTokens.InvisibleSpanIsKept | app/lib/formatter.rb:125-130 | an invisible span comes out as it is, whatever elements, shortcodes and loose brackets are in it, up to where the depth gets back to 0, and visible text resumes there |
| EmojiTokens.SecondPassChangesNothing | app/lib/formatter.rb:132-182 | rewriting twice is rewriting once |
| EmojiScanner.EncodeCustomEmojis | app/lib/formatter.rb:132-182 | the scan terminates, though the cursor may stand still, and computes the pure rewriting |
| EmojiScanner.CompleteShortname | app/lib/formatter.rb:150-163 | hit and miss both leave the unread suffix as long as it was and the result the same |
| EmojiScanner.LeaveTag | app/lib/formatter.rb:164-171 | the end of a tag updates the invisible depth as the pure reading does |
| Quirks.SafeHold | app/services/post_status_service.rb:97-103 | folds first-occurrence substitution by the sentinel over the list |
| Quirks.SafeReturn | app/services/post_status_service.rb:105-111 | folds first-occurrence substitution of the sentinel over the list |
| Quirks.ScanIsLeftmost | app/services/post_status_service.rb:120 | scanning cuts the text into spans that match and gaps in which no match starts |
| Quirks.HoldHitsTheMatches | app/services/post_status_service.rb:97-103 | the k-th substitution hits the k-th match, so holding leaves the gaps with sentinels in between, gaps with sentinels of their own included |
| Quirks.HoldThenReturn | app/services/post_status_service.rb:97-111 | hold, then return, is the identity on texts without a sentinel and spans without escapes |
| QuirksRoundTrip.RoundTripIff | app/services/post_status_service.rb:97-111 | it is the identity if and only if no sentinel stands before the last span and no span has a backslash that makes an escape |
| QuirksRoundTrip.DoubledBackslashComesBackSingle | app/services/post_status_service.rb:105-111 | a doubled backslash of a span always comes back single |
| QuirksRoundTrip.EscapeIsExpanded | app/services/post_status_service.rb:105-111 | the first escape of a span, wherever it is, becomes what it stands for, and the rest is read on |
| Quirks.SpansSurvive | app/services/post_status_service.rb:113-127 | when the rewriting keeps the number of sentinels every span is back verbatim and in order; with fewer the last spans are lost, and a sentinel is left if and only if there are more |
| Quirks.QuirkRewritesOnlyGaps | app/services/post_status_service.rb:119-124 | one quirk rewrites the gaps of the text and leaves its spans |
| Quirks.QuirkifiedIsLastStage | app/services/post_status_service.rb:118-125 | all quirks are applied, each by hold, rewriting and return to what the one before it left |
| Quirks.QuirksRewriteOnlyGaps | app/services/post_status_service.rb:118-125 | all quirks together rewrite gaps only, as long as each keeps the number of sentinels |
| Quirks.QuirksThatMatchNothing | app/services/post_status_service.rb:113-127 | quirks that match nothing change nothing |
| Quirks.QuirkifyText | app/services/post_status_service.rb:113-127 | applies the quirks one after the other when there are as many as expressions, and nothing otherwise |
| AccountMerge.Relationships.MoveAccounts | db/migrate/20180528141303_fix_accounts_unique_index.rb:85-93 | in whatever order the rows come, moves exactly those the unique index does not refuse |
| AccountMerge.Relationships.MoveTargets | db/migrate/20180528141303_fix_accounts_unique_index.rb:95-103 | the same for target accounts |
| AccountMerge.MergeIsQuotient | db/migrate/20180528141303_fix_accounts_unique_index.rb:74-104 | after merging and destroying the duplicate each relation is exactly its image under duplicate to main, self-pairs included |
| AccountMerge.Relationships.Deduplicate | db/migrate/20180528141303_fix_accounts_unique_index.rb:50-72 | treats the duplicates one after the other and keeps the rows unique |
| AccountMerge.DeduplicationIsQuotient | db/migrate/20180528141303_fix_accounts_unique_index.rb:56-70 | for a whole group: the relationships between accounts that are not lost, carried over to those that represent them, and nothing else |
| AccountMerge.RepresentativeMeans | db/migrate/20180528141303_fix_accounts_unique_index.rb:56-70 | an account is represented by the reference exactly if it is a duplicate with its key, and lost exactly if it is one with another key |
| Snowflake.BitsAreArithmetic | lib/mastodon/snowflake.rb:75-107 | on 64-bit words the OR of time part and tail is their sum |
| Snowflake.SameMillisecondIds | lib/mastodon/snowflake.rb:96-100 | ids of one millisecond repeat exactly when the serials are a multiple of 65536 apart |
| Snowflake.SameIdsIff | lib/mastodon/snowflake.rb:75-107 | two ids are equal if and only if both the milliseconds and the tails are |
| Snowflake.AroundCreate | lib/mastodon/snowflake.rb:7-27 | a record created in the past, updated since and not overriding its timestamps gets the id of the first attempt not refused, at most 102 attempts, and an error exactly after 102; any other keeps the id of the database, with one attempt |
| Snowflake.IdTellsItsTime | lib/mastodon/snowflake.rb:141-146 | second, millisecond and tail can be read off the id |
| Snowflake.DriftBound | lib/mastodon/snowflake.rb:18-24 | k retries add at most 99 k to the id |
| Snowflake.PossibleIffReachable | lib/mastodon/snowflake.rb:13-24 | the ids a backdated record can end up with, for some draws and refusals, are exactly those up to 9999 past a drawn one |
| Snowflake.OrderedFromTwoSeconds | lib/mastodon/snowflake.rb:141-146 | backdated records with different ids are always in the order of their seconds if and only if these are at least two apart |
| Streaming.RegistryMeans | streaming/index.js:153-170 | both operations change the list and the subscription of their channel only |
| Lists.WithoutOne | streaming/index.js:165 | of one listener, nothing is left if it is the one and it is left otherwise |
| Lists.WithoutConcat | streaming/index.js:165 | the listener is taken off wherever it is and the others keep their places; likewise a status of a conversation |
| Streaming.Registry.Subscribe | streaming/index.js:153-161 | adds the listener, and subscribes to the channel when it is the first |
| Streaming.Registry.Unsubscribe | streaming/index.js:163-170 | takes every occurrence of the listener off, and unsubscribes when none is left |
| Streaming.Registry.Dispatch | streaming/index.js:129-139 | every listener of the channel gets the message, each in its place, and nobody else gets anything |
| Streaming.DeliveryIsExact | streaming/index.js:127-170 | in every run the server is subscribed to exactly the channels with a live stream, and every stream got the messages published on its channel while it was live, in order, each once, and no others |
| Streaming.SecondEndIsHarmless | streaming/index.js:433-451 | a second report of the end of a stream changes nothing, the heartbeats included |
| Streaming.LeaseHoldsIff | streaming/index.js:141-151 | in every run of these streams the `subscribed:` key of a channel is there while a stream with a heartbeat is live on it, if and only if timers are less than 720 seconds late |
| Streaming.HeartbeatLasts | streaming/index.js:142-144 | a heartbeat lasts 1080 seconds |
| SortedSets.TopOfUnion | app/models/status.rb:262-301 | the top n of a union needs only the top n of its parts |
| DirectTimeline.MergeIsTopOfBoth | app/models/status.rb:262-301 | two limited queries, made unique, sorted, reversed and cut, list the newest statuses of both unlimited ones strictly between `since_id` and `max_id`, newest first, up to the limit and no fewer |

## Left out

- Interleaving inside one feed operation, double-precision Redis scores, and the push notifications that follow a feed operation.
- `filter_from_home?`, `filter_from_mentions?` and phrase filters: the feed results hold for any filter.
- `FeedManager.Feed.ClearFromTimeline` takes the uniqueness of a reblog per account from the validation in `app/models/status.rb`; two racing reblogs that both pass it are not modelled.
- What a trim after a removal makes of tracked originals without a reblog on the feed: `RemovalShowsTheTrackedIff` is about one removal.
- Spans that hold a sentinel, and spans with a backslash before a backquote or an apostrophe, which `String#sub` replaces by the text around the match: `RoundTripIff` is not about these.
- The time until Redis has confirmed a subscription: a subscription is in force at once. Other workers appear as heartbeats only.
- `add_column_with_default` with a block: rows the block leaves out keep NULL and the constraint then fails, which takes the rescue branch.
- `copy_indexes`, `copy_foreign_keys`, `change_column_type_concurrently`, the MySQL triggers, and the progress messages.
- The retry loops of `add_status` and `remove_status` appear as steps of a worker; that a worker is stale only finitely often depends on the others and is not claimed.
- The streaming notification after a commit, and `paginate_by_id`.
- Sanitizing, bbcode, link and mention rewriting in `app/lib/formatter.rb`.
- `\k<name>` in a replacement string, and regular expressions as such.
- Favourites, statuses, mentions and pins in `merge_accounts!`: one-column reassignments.
- The hash and the salt of `timestamp_id` are an arbitrary base, and its clock an arbitrary millisecond.
- The filters of a stream (blocks, mutes, languages), authentication, and the ping of WebSockets.
