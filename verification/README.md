# Client-side state machines of Multica, verified

This project models the parts of the Multica clients that keep data consistent without a server round trip, and
proves what they are for. Every part is written in the form its source has: pure reducers are functions, loops are
methods with invariants, and objects whose handlers change their fields are classes. Each method is proved equal to
a specification function, and the theorems are about those functions and about all runs of them.

| Part | Files | What is proved |
|---|---|---|
| Chat pending queue | PendingQueue, PendingRuns, PendingFields, PendingConvergence, PendingEchoes, PendingHiding | no task is ever listed twice; each event moves and drops exactly what it should; when follow-up sends converge in any order, and when they can overtake a removal or a start; hiding agrees with the queue |
| Chat message caches | MessageCache, MessageCacheProofs, MessageConvergence, MessageOrder | the flat and the paged cache never drift when both are there; exactly when writes converge in either one alone, there or absent, and when the order of its rows is fixed; a write is idempotent and never changes a defined field |
| Mention composer | MentionText, MentionProofs, MentionComposer, MentionHandlers, MentionLinks | serialization is all or nothing and loses no text, and its links read back as the parties selected; the suggestion bar is open exactly on the token at the cursor; which edits keep every mention linked |
| Issue timeline | TimelineThread, TimelinePartition, TimelineCoalesce | threading terminates and shows every entry once exactly when replies have no cycle; coalescing conserves counts, and the exact inputs on which it is maximal and idempotent |
| Builder replies | JsonRepair, JsonRoundTrip, DraftStrip | the string repair is the missing half of a JSON printer; stripping is complete and idempotent, and which cuts of a streamed reply show only the prose |
| Image sequence | CodeMask, ImageSequence, ImageFields, StableSort | text inside code fences has no influence; the sequence is the first-occurrence list of what is rendered, and grows only at its end |
| Exception fuse | ExceptionFuse | nothing is dropped early whatever storage does; with working storage, the exact decision |
| Inbox | InboxDedup, InboxIssues, StableSort | one row per issue, its newest; idempotent; independent of arrival order when times differ |
| Recency stores | Recency, ViewedIssues, RecentContext, RecentContextClock | bounded lists are prefixes of the history read backwards; eviction takes the workspace visited longest ago |
| Plugin bridge | PluginBridge | fresh ids, every request settled at most once and by the first event that can settle it |
| WebSocket client | ReconnectMachine | backoff bounds; a live socket and an armed timer never coexist, and one of them is there until disconnect; nothing stirs after it |

Dates are a partial map from strings to integers, and `localeCompare` is a parameter that the theorems require to be a
total order telling distinct ids apart. Timers, sockets, the message port and storage belong to an environment that
chooses the next event. Regular expressions for images and inline code, the image test and the test for a body that
mentions an attachment are function parameters. The language's sort is modelled as a stable insertion sort;
`StableSort.StableSortUnique` and `PendingConvergence.SortedUnique` show that any correct sort gives the same list.

Where the code falls short of its own comments the model follows the code. A lemma names the exact condition and
another one shows a failing case: a queued send without a head replaces the queue (`HeadlessEnqueueConserves`,
`HeadlessSendsOverwrite`), events on an entry without a head hide or reveal the wrong messages (`PromoteRevealsExactly`,
`RemoveRevealsExactly`, `PrioritizeRevealsNothingExactly`, `HeadlessEventsMisreveal`), send-now lasts until the next
follow-up unless the task leads anyway (`PriorityLastsExactly`, `SendNowUndone`), a follow-up that arrives late brings a
removed task back (`RemoveCommutesExactly`, `EchoBringsBack`), writes that fill one gap differently depend on their order
(`WritesConvergeExactly`, `MessageConvergence.DisputeShows`), into a session never fetched an echo that arrives before its
send loses what only the echo says (`SendAndEchoExactly`, `EchoIsLost`), past fifty fingerprints a further one is not
throttled (`IndependentExactly`, `CrowdedOut`), two rows sent with one message hide only the later one's
(`HiddenExactly`, `SharedMessageShows`), a second pass can coalesce further when timestamps go back
(`IdempotentExactly`, `OutOfOrderMergesAgain`), an empty comment anchor on the newest inbox row hides a real one
(`NewestAnchorExactly`, `EmptyAnchorHides`), a link inside a code fence takes an attached image out of the sequence
(`ImageListedExactly`, `FencedLinkHidesImage`), replies on a parent cycle are shown in no row (`CountsAgreeExactly`,
`CycleShowsNothing`), and notifications are queued but never sent when the plugin port is
missing at creation (`NotificationsSentExactly`, `NothingWithoutPort`).

## Model

| member | source | states |
|---|---|---|
| `PendingQueue.UniqueQueueLoop` | packages/core/chat/pending.ts:14-22 | the loop that fills the insertion-ordered map computes the specification: first sight fixes the place, a rich row replaces, a sparse one does not |
| `PendingQueue.UniqueQueueKeeps` | packages/core/chat/pending.ts:14-22 | the result has one row per task id that occurs, and each row is the last rich observation, or the first one when none is rich |
| `PendingRuns.RunKeepsInv` | packages/core/chat/pending.ts:37-172 | over every run of the four reducers, ids in head plus queue stay pairwise distinct and a wait reason is held only by a head that waits for a local directory |
| `PendingRuns.RemoveDeletesExactly` | packages/core/chat/pending.ts:138-158 | removing leaves every other task with its data and place, exactly when there is a head or nothing else is listed |
| `PendingRuns.PrioritizePermutes` | packages/core/chat/pending.ts:160-172 | send-now permutes the queue exactly when there is a head or nothing is queued, since an entry without a head is emptied; behind a head the chosen row comes first and all else keeps its order and data |
| `PendingRuns.EnqueueAddsAtMostItself` | packages/core/chat/pending.ts:76-86 | a queued enqueue behind a head changes only the queue, and there only the row of its own id |
| `PendingRuns.PromoteConserves` | packages/core/chat/pending.ts:103-136 | promotion of a queued task drops nothing but a former head that was no longer queued; the rest keeps its order |
| `PendingRuns.PromoteHeadInPlace` | packages/core/chat/pending.ts:111-118 | a lifecycle event for the head changes its status and hold and moves no task |
| `PendingRuns.PromoteInertExactly` | packages/core/chat/pending.ts:120-123 | any other lifecycle event leaves the entry as it is exactly when there is no head or the task is not queued |
| `PendingRuns.SendsNeverDowngrade` | packages/core/chat/pending.ts:61-75 | late send responses, however many, never turn a started head back into a queued one |
| `PendingRuns.HeadlessEnqueueConserves` | packages/core/chat/pending.ts:42-60 | a queued send keeps the ids listed before it exactly when there is a head or they are all its own |
| `PendingRuns.EnqueueKeepsRowsExactly` | packages/core/chat/pending.ts:42-86 | a queued send leaves every queued row with its data exactly when it is not a rich row replacing another of its id behind a head, nor any other row without a head |
| `PendingRuns.HeadlessSendsOverwrite` | packages/core/chat/pending.ts:42-60 | from an empty cache a second queued send wipes out the first, so a sparse account of a task wipes out the rich one |
| `PendingFields.IdleSendBecomesHead` | packages/core/chat/pending.ts:46-60 | an idle send into an entry without a head becomes the head with all its details, no hold and the support flag kept; behind it stand exactly the rows queued before under other ids, in order |
| `PendingFields.SendReplacesHead` | packages/core/chat/pending.ts:76-82 | a send that is not queued replaces another head, with nothing queued behind it |
| `PendingFields.SendByDefault` | packages/core/chat/pending.ts:37-41 | when nothing is said, a send is queued exactly behind another head |
| `PendingFields.QueuedSendWaits` | packages/core/chat/pending.ts:46-51 | a queued send before the head is known leaves an entry of one row without a head |
| `PendingFields.SendCompletesHead` | packages/core/chat/pending.ts:61-75 | a send about the head fills in what the head lacks: a known time and a status beyond queued stay, the message it tells of holds, nothing else moves |
| `PendingFields.QueueInOrder` | packages/core/chat/pending.ts:5-12 | after a follow-up times never go back along the queue, and rows of one time, or without two valid times, stand in the order of their ids |
| `PendingFields.PreviewStays` | packages/core/chat/pending.ts:14-22 | whatever follow-ups arrive, a task once seen with a message is queued with one |
| `PendingFields.SparseNeverReplaces` | packages/core/chat/pending.ts:14-22 | a follow-up without a message id takes no row away |
| `PendingFields.WaitReasonExactly` | packages/core/chat/pending.ts:93-101 | a hold is explained exactly while the task waits for a local directory: by the event when it says why, else by what the head had |
| `PendingFields.StartShowsRow` | packages/core/chat/pending.ts:120-136 | a started task shows its own row with the status of the event, and the time of the event only when the row has none |
| `PendingFields.FormerHeadIsBare` | packages/core/chat/pending.ts:28-35 | a head that goes back into the queue, which it does when it was queued or had no status, is a bare queued row in front of the others |
| `PendingFields.NextTakesOver` | packages/core/chat/pending.ts:149-157 | when the head is removed the first row queued takes its place with all its details, or else the entry is empty |
| `PendingFields.HeadUntouched` | packages/core/chat/pending.ts:143-172 | removing a queued task and sending one to the front leave the head as it is |
| `PendingFields.SupportStays` | packages/core/chat/pending.ts:37-172 | no event changes the support flag, unless it empties the entry |
| `PendingConvergence.ComparatorTransitiveExactly` | packages/core/chat/pending.ts:5-12 | the comparator is transitive, whatever the ids, exactly when all dates parse or no two parseable ones differ |
| `PendingConvergence.SortedUnique` | packages/core/chat/pending.ts:24-26 | two strictly sorted lists of the same tasks are equal, so the choice of sort is immaterial |
| `PendingConvergence.UniqueQueueIsWinners` | packages/core/chat/pending.ts:14-22 | when equally rich observations agree, the surviving rows are determined by the set of observations alone |
| `PendingConvergence.EnqueueAllMeans` | packages/core/chat/pending.ts:83-86 | after any follow-ups behind a head the queue is sorted and holds, for each task, the last rich account sent, or else the row queued for it, or else the first account sent; the rest of the entry is unchanged |
| `PendingConvergence.EnqueueConverges` | packages/core/chat/pending.ts:5-26 | undisputed follow-ups, reordered and redelivered in any way behind the same head, leave the identical entry |
| `PendingConvergence.EnqueueConvergesExactly` | packages/core/chat/pending.ts:5-26 | their order is immaterial exactly when different, equally rich accounts of one task are sparse, and the queue lists that task or a rich account of it is sent too |
| `PendingConvergence.EnqueueForgetsPriority` | packages/core/chat/pending.ts:83-86 | a follow-up after a send-now gives the same entry as without the send-now |
| `PendingConvergence.SendNowUndone` | packages/core/chat/pending.ts:83-86 | of two queued tasks the later one, moved to the front, is behind the earlier one again after the next follow-up |
| `PendingConvergence.PriorityLastsExactly` | packages/core/chat/pending.ts:83-86 | the task moved to the front is still first after the next follow-up exactly when its row compares before all others anyway |
| `PendingConvergence.TwoSendsCommuteExactly` | packages/core/chat/pending.ts:83-86 | two sends commute exactly unless they are different, equally rich accounts of one task that the queue does not settle |
| `PendingEchoes.RemoveCommutesExactly` | packages/core/chat/pending.ts:138-144 | removing a queued task and a follow-up can be exchanged exactly when they are about different tasks |
| `PendingEchoes.EchoBringsBack` | packages/core/chat/pending.ts:138-144 | a follow-up delivered after its removal queues its task again, and before it does not |
| `PendingEchoes.RemoveHeadCommutesExactly` | packages/core/chat/pending.ts:145-158 | removing the head and a follow-up can be exchanged exactly when somebody is next in line and still leads once the follow-up is sorted in; for a follow-up of the next in line itself, when merging it field by field is what the queue keeps of it and the row so obtained and the others are in order |
| `PendingEchoes.PromoteCommutesExactly` | packages/core/chat/pending.ts:103-136 | a lifecycle event and a follow-up can be exchanged exactly when the event is for the head, or the tasks differ and the event finds its task unqueued, or the queued task starts alike: the former head does not go back or compares before all it goes in front of; for a second account of the started task, merging it is what starting the kept one gives and the others are in order |
| `PendingEchoes.StartIsForgotten` | packages/core/chat/pending.ts:120-123 | a task that starts before its follow-up is delivered ends up queued behind the old head, which it would otherwise have replaced |
| `PendingHiding.LastRowDecides` | packages/core/chat/pending.ts:178-182 | a message is in the map exactly when a rich row names it, and the last such row gives the task |
| `PendingHiding.HiddenExactly` | packages/core/chat/pending.ts:174-185 | hiding means "its own task is queued with it" for every message exactly when no two rows share a message |
| `PendingHiding.VisiblePositions` | packages/core/chat/pending.ts:184-184 | what stays visible is exactly the messages not hidden, at increasing places of the input |
| `PendingHiding.HideMeansVisible` | packages/core/chat/pending.ts:183-184 | the early return for an empty map gives the same messages as filtering |
| `PendingHiding.PromoteRevealsExactly` | packages/core/chat/pending.ts:103-136 | promoting a task reveals its message and no other exactly when there is a head or the task has no queued message |
| `PendingHiding.RemoveRevealsExactly` | packages/core/chat/pending.ts:138-158 | removing reveals one message, the target's or the successor's, exactly when there is a head or no other task has a queued message |
| `PendingHiding.PrioritizeRevealsNothingExactly` | packages/core/chat/pending.ts:160-172 | send-now reveals nothing exactly when there is a head or no message is queued |
| `PendingHiding.HeadlessEventsMisreveal` | packages/core/chat/pending.ts:123-164 | a prompt queued into an empty cache: starting its task leaves its message hidden, while removing or sending another task shows it |
| `MessageCache.MergeChatMessageLoop` | packages/core/chat/message-cache.ts:30-40 | the key loop, in any key order, fills exactly the gaps, and says whether the row changed |
| `MessageCache.MergePagesLoop` | packages/core/chat/message-cache.ts:66-77 | every page is merged, and the change flag is set exactly when some page changed |
| `MessageCache.SessionCache.UpsertChatMessageToCaches` | packages/core/chat/message-cache.ts:118-135 | the two cache writes are one step of the specification |
| `MessageCacheProofs.PagesAreAList` | packages/core/chat/message-cache.ts:61-86 | upserting into pages with distinct ids is upserting into the list they make up, oldest page first |
| `MessageCacheProofs.IdsStayUnique` | packages/core/chat/message-cache.ts:55-86 | in either cache, whatever the other holds, unique ids stay unique over every run, across all pages |
| `MessageCacheProofs.NeverDriftExactly` | packages/core/chat/message-cache.ts:47-86 | caches that agree stay in agreement over every run exactly when both are there or neither is |
| `MessageCacheProofs.WindowKeptExactly` | packages/core/chat/message-cache.ts:47-86 | pages that hold the end of the list still do, with the same unloaded rows, exactly when the message is not one of those |
| `MessageCacheProofs.WindowRunExactly` | packages/core/chat/message-cache.ts:118-135 | over a run the pages stay such a window throughout exactly when no write is about an unloaded row |
| `MessageCacheProofs.OnlyNewestPageGrows` | packages/core/chat/message-cache.ts:61-86 | an upsert adds, drops and reorders no page, and only page 0 gains a row, which it does exactly when the id is new |
| `MessageCacheProofs.RunKeepsClaims` | packages/core/chat/message-cache.ts:61-86 | over every run pages that are there keep their size, their cursors and what they claim of older rows |
| `MessageCacheProofs.SeededClaimsNothing` | packages/core/chat/message-cache.ts:88-93 | from a paged cache without pages, every run leaves it as it is or, once a write may seed it, with one page of limit 50 that claims no older rows and has no cursor |
| `MessageCacheProofs.PagesStaySincere` | packages/core/chat/message-cache.ts:61-93 | a page claims older rows exactly when it has a cursor, and there are as many page params as pages, after every run from such a cache or an absent one |
| `MessageConvergence.RunFills` | packages/core/chat/message-cache.ts:55-86 | for either cache, whatever the other holds, a run of upserts is a run of gap-filling writes on its rows by id, of all writes when it is there, and of those from the first that may seed it when it is absent |
| `MessageConvergence.FirstWins` | packages/core/chat/message-cache.ts:30-40 | for any rows and writes, the ids are those cached and those written, and a field has the value the cache held, or else the first value any write gives it |
| `MessageConvergence.FirstGivenExactly` | packages/core/chat/message-cache.ts:30-40 | that value is the one of the first write of the id that defines the field |
| `MessageConvergence.WritesConverge` | packages/core/chat/message-cache.ts:118-135 | steady writes lead either cache, there or absent and whatever the other holds, to the same rows by id in every order and with any redelivery |
| `MessageConvergence.WritesConvergeExactly` | packages/core/chat/message-cache.ts:118-135 | the order of writes is immaterial to either cache exactly when they are steady: for a cache that is there, any two that define a field of one row differently find it held already; for an absent one, none may seed, or those that may agree and no other adds a row or a field to them that could be lost |
| `MessageConvergence.ListConvergesExactly` | packages/core/chat/message-cache.ts:55-86 | for any list, there or not, order and redelivery are both immaterial exactly under that condition |
| `MessageConvergence.DisputeShows` | packages/core/chat/message-cache.ts:23-26 | of two writes in dispute, putting one or the other first gives different rows |
| `MessageConvergence.PairedWritesConverge` | packages/core/chat/message-cache.ts:118-135 | two caches in step stay in step, and converge together under reordering and redelivery exactly when the writes are steady |
| `MessageConvergence.TwoFillsCommuteExactly` | packages/core/chat/message-cache.ts:30-40 | two writes commute exactly when they agree, or the cache has already decided, on every field both define |
| `MessageConvergence.DefinedFieldsStay` | packages/core/chat/message-cache.ts:34-34 | in either cache, whatever the other holds, a defined field keeps its value over every run of writes |
| `MessageCacheProofs.UpsertIdempotent` | packages/core/chat/message-cache.ts:118-135 | delivering a write twice equals delivering it once, whatever the caches held |
| `MessageConvergence.MixedSeedsDiverge` | packages/core/chat/message-cache.ts:125-131 | when no write that may seed has the id of one that may not, one order loses its row and another keeps it |
| `MessageConvergence.AbsentConvergesExactly` | packages/core/chat/message-cache.ts:125-131 | into absent caches, the order of distinct writes is immaterial exactly when all may seed or none may |
| `MessageConvergence.SendAndEchoExactly` | packages/core/chat/message-cache.ts:118-135 | a send that may seed and its echo that may not converge into absent caches, in every order and with redelivery, exactly when the echo defines no field that the send lacks |
| `MessageConvergence.EchoIsLost` | packages/core/chat/message-cache.ts:125-131 | a field only the echo defines is there when the send comes first, and missing when the echo does |
| `MessageOrder.RunIds` | packages/core/chat/message-cache.ts:55-86 | after any run the ids stand as they did, and behind them those that are new among the writes the cache takes |
| `MessageOrder.NewIdsInOrder` | packages/core/chat/message-cache.ts:55-59 | of two new ids the one written first stands first |
| `MessageOrder.TranscriptOrderExactly` | packages/core/chat/message-cache.ts:118-135 | the rows stand in the same order in every order of the writes exactly when at most one message is new to the cache, or it is absent and no write may seed it |
| `MentionText.TokenAtCursorLoop` | apps/mobile/lib/mention-serialize.ts:47-78 | the backward scan returns the unique token that ends at the cursor, or none when there is none |
| `MentionText.TokenAtCursor` | apps/mobile/lib/mention-serialize.ts:47-78 | a token starts at an `@` behind whitespace or at the start, with neither `@` nor whitespace up to the cursor; none means no position qualifies |
| `MentionText.SerializeTurn` | apps/mobile/lib/mention-serialize.ts:135-167 | one turn of the loop pushes what the reading of the rest of the text says, and moves on to the rest of that reading, stops or aborts |
| `MentionText.SerializeMentionsLoop` | apps/mobile/lib/mention-serialize.ts:122-175 | the loop with its chunks, marker index and abort renders the reading of the text, or strips the sentinels |
| `Common.SpacesExactly` | apps/mobile/lib/mention-serialize.ts:58-58 | the whitespace class, by code points |
| `MentionText.EndOfWord` | apps/mobile/lib/mention-serialize.ts:150-152 | the inner loop stops at the first whitespace or the end |
| `MentionProofs.ReadIsSound` | apps/mobile/lib/mention-serialize.ts:134-168 | the reading is a sound account of the text: its pieces, put together, are the text |
| `MentionProofs.ReadingUnique` | apps/mobile/lib/mention-serialize.ts:134-168 | any sound account of a text is the one the serializer computes |
| `MentionProofs.AllOrNothing` | apps/mobile/lib/mention-serialize.ts:170-174 | either the markers' names are exactly the marked words in order and each becomes a link at its run, or the result is the text without sentinels |
| `MentionProofs.NothingLostExactly` | apps/mobile/lib/mention-serialize.ts:122-175 | writing `@name` for each link gives the input without sentinels, exactly when no linked name contains one |
| `MentionProofs.WordsConcat` | apps/mobile/lib/mention-serialize.ts:134-168 | the marked runs of two texts joined are the runs of each when nothing is open at the seam or whitespace closes it |
| `MentionProofs.PlainEditKeepsRuns` | apps/mobile/lib/mention-serialize.ts:134-168 | replacing plain text by plain text where nothing is open, or between whitespace, keeps every marked run |
| `MentionLinks.ReadOpens` | apps/mobile/lib/mention-serialize.ts:163-165 | a reader of links reads a text that opens with a bracket by itself, whatever stands in front of it |
| `MentionLinks.LinkReads` | apps/mobile/lib/mention-serialize.ts:158-165 | the link of a marker without brackets reads back as its kind, its id, and its name, with an `@` unless it is an issue |
| `MentionLinks.SerializedLinksRead` | apps/mobile/lib/mention-serialize.ts:122-175 | from the serialized text the reader gets the links of the plain stretches and, between them, exactly the markers in order |
| `MentionLinks.PlainTextReads` | apps/mobile/lib/mention-serialize.ts:122-175 | in a text without brackets of its own the links are exactly the markers |
| `MentionLinks.FreshComposerMentions` | apps/mobile/lib/mention-serialize.ts:122-175 | after every careful run of a fresh composer the text sent mentions exactly the parties selected, in order |
| `MentionComposer.MentionInput.OnChangeText` | apps/mobile/lib/use-mention-input.ts:115-124 | the handler's new state: the text, and the token at the old cursor in it |
| `MentionComposer.MentionInput.OnSelectionChange` | apps/mobile/lib/use-mention-input.ts:126-135 | the handler's new state: the selection, and the token at its end |
| `MentionComposer.MentionInput.OnAtButtonPress` | apps/mobile/lib/use-mention-input.ts:137-154 | the handler's new state, with the pad when the caret is not at a word boundary |
| `MentionComposer.MentionInput.OnSelectMention` | apps/mobile/lib/use-mention-input.ts:156-172 | the handler's new state: text, cursor, one more marker, bar closed; nothing when no bar is open |
| `MentionComposer.MentionInput.DoInsertAtCursor` | apps/mobile/lib/use-mention-input.ts:174-191 | the new state of inserting at the caret |
| `MentionComposer.MentionInput.DoInsertAtLineStart` | apps/mobile/lib/use-mention-input.ts:193-213 | the new state of prefixing the caret's line |
| `MentionComposer.MentionInput.Serialize` | apps/mobile/lib/use-mention-input.ts:215-218 | the serialization of the current text and markers |
| `MentionComposer.SnapshotBringsBack` | apps/mobile/lib/use-mention-input.ts:220-232 | restoring a snapshot after any further run brings back text, markers and selection as they were, and with them whether all mentions are linked |
| `MentionComposer.MentionInput.DoRestore` | apps/mobile/lib/use-mention-input.ts:225-232 | restoring a snapshot brings back all it holds and closes the bar |
| `MentionComposer.MentionInput.DoReset` | apps/mobile/lib/use-mention-input.ts:234-241 | reset is the initial state |
| `MentionComposer.RunKeepsInv` | apps/mobile/lib/use-mention-input.ts:105-241 | over every run of the handlers, an open bar is about the token at the cursor in the current text |
| `MentionHandlers.BarFollowsToken` | apps/mobile/lib/use-mention-input.ts:105-154 | after typing, a move of the cursor or the button, in any state, the bar is open exactly when a token ends at the cursor, and then on it |
| `MentionHandlers.BarCloses` | apps/mobile/lib/use-mention-input.ts:156-241 | every other handler closes the bar |
| `MentionHandlers.TypingOpensBar` | apps/mobile/lib/use-mention-input.ts:115-124 | an `@` typed into an empty composer opens it on an empty query |
| `MentionHandlers.TypingKeeps` | apps/mobile/lib/use-mention-input.ts:115-135 | typing changes the text only, a move of the cursor the selection only |
| `MentionHandlers.InsertReplacesSelection` | apps/mobile/lib/use-mention-input.ts:174-191 | an insertion replaces the selection, and the caret stands behind it less the offset |
| `MentionHandlers.PressReplacesSelection` | apps/mobile/lib/use-mention-input.ts:137-154 | the button replaces the selection by an `@`, padded exactly behind a word |
| `MentionHandlers.PrefixGoesToLineStart` | apps/mobile/lib/use-mention-input.ts:193-213 | a prefix goes behind the last line break before the caret, and the caret moves along |
| `MentionHandlers.SelectionWritesRun` | apps/mobile/lib/mention-serialize.ts:94-106 | a selection writes an invisible separator, `@`, the name and a space in place of the token |
| `MentionHandlers.InertWithoutBar` | apps/mobile/lib/use-mention-input.ts:156-172 | a selection adds its marker, and does nothing with the bar closed |
| `MentionHandlers.ResetEmpties` | apps/mobile/lib/use-mention-input.ts:234-241 | a reset composer is empty, with nothing marked and the bar closed |
| `MentionHandlers.SliceMeans` | apps/mobile/lib/mention-serialize.ts:96-97 | the two slices at an index make up the text; a negative index counts from its end |
| `MentionComposer.PressAtOpens` | apps/mobile/lib/use-mention-input.ts:137-154 | pressing the button always opens the bar on an empty query at the new cursor |
| `MentionComposer.SelectReplacesToken` | apps/mobile/lib/use-mention-input.ts:156-172 | selecting replaces exactly the `@query` that ends at the cursor by the marked run and a space |
| `MentionComposer.SelectClosesToken` | apps/mobile/lib/use-mention-input.ts:156-172 | after selecting, the cursor stands behind the run, one marker is added, the bar is closed and no token is active |
| `MentionComposer.SelectLinksExactly` | apps/mobile/lib/use-mention-input.ts:156-172 | selecting keeps all mentions linked exactly when the name has no whitespace, the cursor is not between the sentinel and the `@` of another run, and every mention after the cursor bears the same name |
| `MentionComposer.CarefulIsPlain` | apps/mobile/lib/use-mention-input.ts:115-213 | a button press, an insertion or a typed change that touches no sentinel and is not made inside an open run edits plain text only |
| `MentionComposer.CarefulRunLinksAll` | apps/mobile/lib/use-mention-input.ts:105-241 | every run that selects whitespace-free names after all earlier mentions, edits with care and restores only its own snapshots ends with every mention linked |
| `MentionComposer.FreshComposerLinksAll` | apps/mobile/lib/use-mention-input.ts:84-241 | from a fresh composer, every careful run serializes with every marker linked at its run |
| `TimelineThread.BuildTimelineRows` | apps/mobile/lib/timeline-thread.ts:37-87 | the three loops and the final map compute the rows of the specification |
| `TimelineThread.CollectDescendants` | apps/mobile/lib/timeline-thread.ts:63-80 | the queue loop terminates and returns the levels below the root, nearest first |
| `TimelineThread.Partition` | apps/mobile/lib/timeline-thread.ts:45-61 | every entry is filed under its parent when that is a comment here, and is top-level otherwise |
| `TimelineThread.LevelMeans` | apps/mobile/lib/timeline-thread.ts:63-80 | level d holds exactly the entries whose d-th ancestor is the root, each once |
| `TimelineThread.DepthUnique` | apps/mobile/lib/timeline-thread.ts:63-80 | an entry stands at one depth and under one root only |
| `TimelineThread.DepthBounded` | apps/mobile/lib/timeline-thread.ts:70-78 | no level is left beyond the number of entries, so the search ends and misses no one |
| `TimelinePartition.DescendantsMeans` | apps/mobile/lib/timeline-thread.ts:63-80 | a thread holds exactly the replies whose chain of parents ends at its root, each once |
| `TimelinePartition.DepthNeverDecreases` | apps/mobile/lib/timeline-thread.ts:63-80 | within a row no reply stands before one that is closer to the root |
| `TimelinePartition.SiblingsKeepOrder` | apps/mobile/lib/timeline-thread.ts:54-56 | replies to one comment keep their input order |
| `TimelinePartition.ShownExactly` | apps/mobile/lib/timeline-thread.ts:82-86 | the rows show every top-level entry as often as the input, and besides exactly the rooted replies, once each |
| `TimelinePartition.RowsHeadedExactly` | apps/mobile/lib/timeline-thread.ts:45-61 | an entry heads a row exactly when it answers no comment of the timeline, and rows keep the input order |
| `TimelinePartition.CountsAgreeExactly` | apps/mobile/lib/timeline-thread.ts:37-87 | the rows show exactly the input, entry for entry, if and only if no reply chain is a cycle |
| `TimelinePartition.AcyclicIsRooted` | apps/mobile/lib/timeline-thread.ts:49-52 | there are no cycles exactly when every reply's chain of parents ends at a top-level comment |
| `TimelinePartition.CycleShowsNothing` | apps/mobile/lib/timeline-thread.ts:49-60 | two comments that answer each other are shown in no row |
| `TimelineCoalesce.CoalesceTimeline` | apps/mobile/lib/timeline-coalesce.ts:29-58 | the loop that pushes or overwrites its last element computes the left fold |
| `TimelineCoalesce.CountsConserved` | apps/mobile/lib/timeline-coalesce.ts:48-51 | the counts in the output add up to the entries that continue a run, once each, plus the counts of the others |
| `TimelineCoalesce.EntriesConserved` | apps/mobile/lib/timeline-coalesce.ts:48-51 | for entries without counts of their own, the counts in the output add up to the number of entries read |
| `TimelineCoalesce.TotalConservedExactly` | apps/mobile/lib/timeline-coalesce.ts:48-51 | counts that are there already are kept in total exactly when every entry that continues a run stands for itself only |
| `TimelineCoalesce.CommentsSurvive` | apps/mobile/lib/timeline-coalesce.ts:33-56 | comments come through unchanged and in order |
| `TimelineCoalesce.PutTogetherExactly` | apps/mobile/lib/timeline-coalesce.ts:33-56 | of two neighbours the newer replaces the older exactly when they are the same activity of the same actor, not an evaluation, and at most two minutes apart unless a task ended |
| `TimelineCoalesce.EvaluationsSurvive` | apps/mobile/lib/timeline-coalesce.ts:15-17 | evaluations come through unchanged and in order |
| `TimelineCoalesce.MaximalExactly` | apps/mobile/lib/timeline-coalesce.ts:36-51 | no two neighbours of the output can merge exactly when no run of the input ends close enough to the end of the run before it |
| `TimelineCoalesce.IdempotentExactly` | apps/mobile/lib/timeline-coalesce.ts:29-58 | coalescing twice is coalescing once exactly when no run of the input ends close enough to the end of the run before it to continue that one |
| `TimelineCoalesce.AscendingIsMaximal` | apps/mobile/lib/timeline-coalesce.ts:36-47 | on ascending timestamps no two neighbours of the output can merge, and a second pass changes nothing |
| `TimelineCoalesce.OutOfOrderMergesAgain` | apps/mobile/lib/timeline-coalesce.ts:36-47 | out of order there are inputs on which a second pass merges again |
| `JsonRepair.EscapeJsonStringControlCharacters` | packages/core/agents/builder-protocol.ts:61-99 | the loop over result, string flag and escape flag computes the repair automaton |
| `JsonRepair.ModesAligned` | packages/core/agents/builder-protocol.ts:66-96 | the repair of a prefix leaves the scanner in the mode the prefix does: the same positions are inside strings |
| `JsonRepair.RepairIdempotent` | packages/core/agents/builder-protocol.ts:61-99 | repairing twice equals repairing once |
| `JsonRepair.IdentityExactly` | packages/core/agents/builder-protocol.ts:87-95 | repair changes a text exactly when some string in it holds a raw newline, carriage return or tab |
| `JsonRepair.RepairClean` | packages/core/agents/builder-protocol.ts:87-95 | the repaired text has no such character left to repair |
| `JsonRepair.ControlLeftExactly` | packages/core/agents/builder-protocol.ts:72-76 | a control character survives in some string of the output exactly when the input has one right after a backslash |
| `JsonRoundTrip.RepairDocument` | packages/core/agents/builder-protocol.ts:61-99 | repairing a document whose strings were printed with raw newlines, carriage returns and tabs gives the strictly printed document |
| `JsonRoundTrip.RoundTripExactly` | packages/core/agents/builder-protocol.ts:61-99 | decoding the repair of a loosely printed string by section 7 of RFC 8259 gives it back exactly when its only control characters are those three |
| `DraftStrip.ResultHasNoTag` | packages/core/agents/builder-protocol.ts:115-120 | no opening tag is left, even when removing a block splices a new one together |
| `DraftStrip.StripTwice` | packages/core/agents/builder-protocol.ts:115-120 | stripping a stripped reply changes nothing |
| `DraftStrip.StreamStable` | packages/core/agents/builder-protocol.ts:115-120 | from a complete opening tag until its close, the result is that of the prose before it |
| `DraftStrip.EveryCutShowsProse` | packages/core/agents/builder-protocol.ts:115-120 | in a finished reply every cut between the opening tag and the end of its closing tag shows the same |
| `DraftStrip.FragmentHiddenExactly` | packages/core/agents/builder-protocol.ts:115-120 | a fragment of the opening tag shows, exactly unless removing closed blocks from the prose before splices a tag together |
| `DraftStrip.CutShowsProseExactly` | packages/core/agents/builder-protocol.ts:115-120 | of all cuts up to the end of the block, exactly those show the prose that leave off only whitespace of it or lie behind the complete opening tag |
| `CodeMask.FenceOfExactly` | packages/core/attachments/image-sequence.ts:179-179 | a line has a fence exactly when it starts with at most three blanks and a maximal run of three or more backticks or tildes |
| `CodeMask.OpenFenceExactly` | packages/core/attachments/image-sequence.ts:176-193 | the scanner is inside a fence exactly when an earlier line opened one that no line since closes |
| `CodeMask.ClosesExactly` | packages/core/attachments/image-sequence.ts:180-187 | a line closes a fence exactly when it has one of the same character that is at least as long |
| `CodeMask.MaskCodeLoop` | packages/core/attachments/image-sequence.ts:174-197 | the loop over the lines with its fence variable computes the masked body |
| `CodeMask.SplitJoin` | packages/core/attachments/image-sequence.ts:175-196 | splitting undoes joining for lines without newlines |
| `CodeMask.JoinSplit` | packages/core/attachments/image-sequence.ts:175-196 | joining undoes splitting for every body |
| `CodeMask.MaskKeepsOffsets` | packages/core/attachments/image-sequence.ts:158-161 | the masked body has the length and the newlines of the body, and every character is the original or a space |
| `CodeMask.MaskedExactly` | packages/core/attachments/image-sequence.ts:174-197 | line by line, everything in or at a fence is blanked, and elsewhere exactly what the inline pattern blanks |
| `CodeMask.FencedTextDoesNotMatter` | packages/core/attachments/image-sequence.ts:174-197 | replacing lines inside fences by others of the same length that do not close them gives the identical mask, hence identical findings |
| `ImageSequence.RefsInTextOrder` | packages/core/attachments/image-sequence.ts:233-274 | the inline references are the usable matches in the masked body, in text order |
| `ImageSequence.StandaloneUpto` | packages/core/attachments/image-sequence.ts:134-152 | an attachment is a card exactly when the body is empty or mentions neither it nor a re-upload of it |
| `ImageSequence.Push` | packages/core/attachments/image-sequence.ts:315-319 | the seen set is the set of keys listed, before and after |
| `ImageSequence.CollectImageSequence` | packages/core/attachments/image-sequence.ts:309-361 | the nested loops with the seen set compute the fold of everything rendered |
| `ImageSequence.CollectedExactly` | packages/core/attachments/image-sequence.ts:309-361 | the sequence is exactly the candidates whose key is not empty and has not occurred before, in render order |
| `ImageSequence.CollectExtends` | packages/core/attachments/image-sequence.ts:309-361 | keys are unique, and the sequence of a block list is a prefix of that of every extension |
| `ImageSequence.IndexExactly` | packages/core/attachments/image-sequence.ts:364-370 | looking up a key is the inverse of reading the list, and fails exactly for keys that nothing rendered has |
| `ImageSequence.ClickedImageKeepsItsPlace` | packages/core/attachments/image-sequence.ts:364-370 | a rendered image is found at its own place, and stays there while blocks arrive below |
| `ImageSequence.ImageOfferedExactly` | packages/core/attachments/image-sequence.ts:326-357 | an attached image is among the candidates of its block exactly when it is a card or an inline reference shows it |
| `ImageSequence.ImageListedExactly` | packages/core/attachments/image-sequence.ts:309-361 | a key is in the sequence exactly when it is not empty and some block shows it, by a rendered reference or a card |
| `ImageSequence.FencedLinkHidesImage` | packages/core/attachments/image-sequence.ts:134-152 | an image that is in the sequence of a block without text is not in that of a block whose text mentions it inside a code fence only |
| `ImageSequence.FencedTextDoesNotRender` | packages/core/attachments/image-sequence.ts:326-357 | rewriting the inside of fences changes nothing rendered, if the raw body mentions the same attachments |
| `ImageFields.ReferencesExactly` | packages/core/attachments/image-sequence.ts:233-274 | a reference is a match of one of the three patterns in the masked body that has a URL |
| `ImageFields.RecordExactly` | packages/core/attachments/image-sequence.ts:106-124 | a URL stands for the first record whose id it holds, or else the first one of whose three URLs it is, query aside |
| `ImageFields.ShownExactly` | packages/core/attachments/image-sequence.ts:326-333 | a file card in the text is shown exactly when its record, or else its name, or else its URL is an image's |
| `ImageFields.InlineItemExactly` | packages/core/attachments/image-sequence.ts:334-344 | an inline image goes by the id of its record and shows the best of its URLs and its name, or by the URL as written |
| `ImageFields.CardItemExactly` | packages/core/attachments/image-sequence.ts:347-357 | a card goes by its id and shows the best of its URLs |
| `ImageFields.CardExactly` | packages/core/attachments/image-sequence.ts:134-152 | an attachment is a card exactly when the body is empty, or mentions neither it nor another upload of the same file |
| `ImageFields.RenderOrder` | packages/core/attachments/image-sequence.ts:326-357 | a block renders exactly the references shown, in text order, and below them exactly the image cards, in order |
| `ExceptionFuse.SessionFuse.ShouldDropException` | packages/core/analytics/exception-dedupe.ts:40-78 | decision and stored counts after one event, for every way storage can behave |
| `ExceptionFuse.DropsOnlyAfterThree` | packages/core/analytics/exception-dedupe.ts:52-77 | over every run from empty storage, whatever fails, an event is dropped only after three kept ones of its kind |
| `ExceptionFuse.StoredStaysSmall` | packages/core/analytics/exception-dedupe.ts:59-65 | whatever fails, at most fifty fingerprints are stored, with counts from one to three |
| `ExceptionFuse.DropsOnlyOnCounts` | packages/core/analytics/exception-dedupe.ts:46-57 | an event is dropped exactly when readable counts hold three of its fingerprint; nothing is written then |
| `ExceptionFuse.KeptIsCounted` | packages/core/analytics/exception-dedupe.ts:59-77 | a kept event raises its count by one on top of what could be read, unless writing fails or there is no room |
| `ExceptionFuse.UnreadIsUntouched` | packages/core/analytics/exception-dedupe.ts:40-52 | without a fingerprint, without storage, or when reading throws, the event is kept and storage left alone |
| `ExceptionFuse.DroppedExactly` | packages/core/analytics/exception-dedupe.ts:52-77 | with working storage an event is dropped exactly when three of its kind came before and its fingerprint is among the session's first fifty |
| `ExceptionFuse.KeptExactly` | packages/core/analytics/exception-dedupe.ts:52-77 | with working storage a tracked fingerprint keeps its first three events and any other keeps all |
| `ExceptionFuse.IndependentExactly` | packages/core/analytics/exception-dedupe.ts:59-65 | a decision is the one of a run of its fingerprint's events alone, except exactly for untracked fingerprints past three; with fifty or fewer there is no exception |
| `ExceptionFuse.CrowdedOut` | packages/core/analytics/exception-dedupe.ts:59-65 | after fifty other fingerprints the fourth event of the fifty-first is kept, though on its own it would be dropped |
| `InboxDedup.GroupItems` | apps/mobile/lib/inbox-display.ts:74-80 | the grouping loop files every item under its key, keys in order of first occurrence |
| `InboxDedup.DeduplicateInboxItems` | apps/mobile/lib/inbox-display.ts:72-108 | the two loops and the sorts compute the specification |
| `InboxDedup.MergeGroupExactly` | apps/mobile/lib/inbox-display.ts:83-102 | the row of a group is its earliest newest item, with the anchor of the newest item that has one when it has none itself |
| `InboxDedup.NewestAnchorExactly` | apps/mobile/lib/inbox-display.ts:90-94 | the row carries the anchor of the newest item that has one, except exactly when the newest item's anchor is empty and another has a real one |
| `InboxDedup.EmptyAnchorHides` | apps/mobile/lib/inbox-display.ts:90-94 | an item with an empty anchor over an older one with a real anchor: the row has the empty one |
| `InboxDedup.OneRowPerIssue` | apps/mobile/lib/inbox-display.ts:104-107 | keys of the result are distinct, no row is archived, and rows come newest first |
| `InboxDedup.RowForKey` | apps/mobile/lib/inbox-display.ts:73-80 | a key has a row exactly when an unarchived item has it |
| `InboxDedup.RowsStandForTheirGroups` | apps/mobile/lib/inbox-display.ts:82-103 | every row stands for all unarchived items of its key |
| `InboxDedup.NothingNewerIsHidden` | apps/mobile/lib/inbox-display.ts:82-103 | no unarchived item is newer than the row of its key |
| `InboxIssues.IssueHasOneRow` | apps/mobile/lib/inbox-display.ts:73-80 | an issue id, or the id of an item without an issue, has exactly one row when an unarchived item is about it, and none otherwise |
| `InboxIssues.RowCarriesIssue` | apps/mobile/lib/inbox-display.ts:73-80 | the row of an issue carries that issue, unless an item without one bears its id |
| `InboxIssues.RowShows` | apps/mobile/lib/inbox-display.ts:82-103 | a row is the newest unarchived item about its issue, details included, but for the anchor: its own when it has one, else that of the newest with a real one |
| `InboxDedup.DedupIdempotent` | apps/mobile/lib/inbox-display.ts:72-108 | deduplicating twice is deduplicating once |
| `InboxDedup.DedupIgnoresOrder` | apps/mobile/lib/inbox-display.ts:72-108 | when no two unarchived items have the same time, the result does not depend on their order |
| `StableSort.FindSorted` | apps/mobile/lib/inbox-display.ts:83-92 | the first match in the sorted list is the earliest best match of a single pass over the unsorted one |
| `StableSort.StableSortUnique` | apps/mobile/lib/inbox-display.ts:83-107 | a sorted list that keeps the order of the rows of each key is determined by them |
| `StableSort.SortIsStable` | packages/core/attachments/image-sequence.ts:273-273 | rows of equal key keep their order |
| `Recency.BoundedIsPrefix` | apps/mobile/data/viewed-issues-store.ts:36-52 | after any pushes and removals the bounded list is a prefix of the unbounded one |
| `Recency.PushesFillTheBound` | apps/mobile/data/viewed-issues-store.ts:36-41 | after pushes alone it is exactly its first rows |
| `Recency.UnboundedIsStanding` | apps/mobile/data/viewed-issues-store.ts:36-52 | the unbounded list is the history read backwards without superseded pushes |
| `Recency.StandingExactly` | apps/mobile/data/viewed-issues-store.ts:36-52 | a row is listed exactly when its push still stands |
| `Recency.StandingInOrder` | apps/mobile/data/viewed-issues-store.ts:36-41 | rows pushed later come first |
| `ViewedIssues.ViewedIssuesStore.PushId` | apps/mobile/data/viewed-issues-store.ts:36-41 | the store after a push |
| `ViewedIssues.ViewedIssuesStore.Remove` | apps/mobile/data/viewed-issues-store.ts:42-52 | the store after a removal |
| `ViewedIssues.ViewedIsRecentHistory` | apps/mobile/data/viewed-issues-store.ts:34-53 | after any run each workspace's list is a prefix of its own history read backwards, and with pushes alone the first ten of it |
| `RecentContext.ContextKeyInjective` | packages/core/chat/recent-context-store.ts:32-34 | the key tells contexts apart, whatever characters their ids hold |
| `RecentContext.FindOldest` | packages/core/chat/recent-context-store.ts:64-68 | the reduction over the keys as a loop |
| `RecentContext.RecentContextStore.RecordVisit` | packages/core/chat/recent-context-store.ts:40-74 | the store after a visit, eviction included |
| `RecentContext.RecentContextStore.ForgetContext` | packages/core/chat/recent-context-store.ts:75-89 | the store after forgetting a context; an emptied bucket goes |
| `RecentContext.RecentContextStore.PruneWorkspaces` | packages/core/chat/recent-context-store.ts:90-100 | the store after pruning keeps exactly the allowed workspaces |
| `RecentContext.PruneExactly` | packages/core/chat/recent-context-store.ts:90-100 | pruning keeps exactly the allowed workspaces, each with its bucket |
| `RecentContext.ForgetExactly` | packages/core/chat/recent-context-store.ts:75-89 | forgetting takes out exactly the one context of the one workspace |
| `RecentContext.BucketIsRecentHistory` | packages/core/chat/recent-context-store.ts:40-100 | after any run, evictions included, a bucket is a prefix of its workspace's whole history read backwards, of at most twenty distinct contexts |
| `RecentContext.BucketIsRunSinceEntry` | packages/core/chat/recent-context-store.ts:40-100 | after any run, a bucket is what the operations since its workspace last entered the store make of an empty list |
| `RecentContext.BucketExactly` | packages/core/chat/recent-context-store.ts:40-74 | when those operations, which are the last ones of its whole history, are visits, the bucket is the first twenty of them read backwards, whatever was evicted or pruned |
| `RecentContext.BucketsAreIndependent` | packages/core/chat/recent-context-store.ts:40-74 | while at most fifty workspaces are visited and none pruned, workspaces do not affect each other, and with visits alone a bucket is the first twenty of its history |
| `RecentContextClock.RunKeepsInv` | packages/core/chat/recent-context-store.ts:40-100 | with an advancing clock, buckets are distinct, newest first and never empty, and at most fifty workspaces remain |
| `RecentContextClock.EvictionExactly` | packages/core/chat/recent-context-store.ts:62-71 | whatever the clock says, a visit evicts nothing while there is room, and otherwise exactly the first workspace in key order whose latest visit has the smallest time |
| `RecentContextClock.VisitedEvictedExactly` | packages/core/chat/recent-context-store.ts:62-71 | a new workspace that finds the store full is itself evicted exactly when its time is smaller than that of every workspace before it in key order and no greater than that of every one after it |
| `RecentContextClock.WorkspacesBounded` | packages/core/chat/recent-context-store.ts:40-100 | at most fifty workspaces remain after any run, whatever the clock says |
| `RecentContextClock.OldestVisitEvicted` | packages/core/chat/recent-context-store.ts:62-71 | with an advancing clock the workspace evicted is the one visited longest ago, never the one just visited |
| `RecentContextClock.KeyOrderDoesNotMatter` | packages/core/chat/recent-context-store.ts:62-68 | the order in which keys are enumerated makes no difference |
| `RecentContextClock.WorkspacesAreTheLatest` | packages/core/chat/recent-context-store.ts:57-71 | with visits alone the workspaces kept are the first fifty of the visited ones read backwards |
| `PluginBridge.Bridge.Request` | packages/plugin-sdk/index.ts:155-167 | the state after a call: id, pending entry, armed timer, posted request |
| `PluginBridge.Bridge.OnPortMessage` | packages/plugin-sdk/index.ts:118-131 | the state after a message: theme, settlement, or nothing |
| `PluginBridge.Bridge.OnTimeout` | packages/plugin-sdk/index.ts:160-163 | the state after a timer fires: the request is rejected with 408 |
| `PluginBridge.Bridge.NotifyHost` | packages/plugin-sdk/index.ts:150-153 | the state after a notification |
| `PluginBridge.IdsAreFresh` | packages/plugin-sdk/index.ts:157-157 | different sequence numbers print as different ids |
| `PluginBridge.RunKeepsInv` | packages/plugin-sdk/index.ts:118-167 | over every interleaving, issued requests are partitioned into pending and settled, each settled once, and armed timers match pending requests one to one |
| `PluginBridge.OutcomeExactly` | packages/plugin-sdk/index.ts:118-167 | a request stays pending until the first reply naming it or its own timeout; that event decides the outcome for good |
| `PluginBridge.SettledOnce` | packages/plugin-sdk/index.ts:118-167 | a request has at most one settlement in any run |
| `PluginBridge.TimeoutRejects` | packages/plugin-sdk/index.ts:159-163 | a timer that fires rejects its own request with status 408 and the method and path asked for |
| `PluginBridge.FirstRequestIsOne` | packages/plugin-sdk/index.ts:155-157 | requests are numbered from one |
| `PluginBridge.ThemeIsLatest` | packages/plugin-sdk/index.ts:118-140 | with a port the theme is the last one received |
| `PluginBridge.NothingWithoutPort` | packages/plugin-sdk/index.ts:100-116 | without a port at creation no request is ever issued, nothing is posted, and the notifications pile up in order |
| `PluginBridge.AllSentWithPort` | packages/plugin-sdk/index.ts:150-167 | with a port every request and every notification is posted, in order, and nothing is queued |
| `PluginBridge.NotificationsSentExactly` | packages/plugin-sdk/index.ts:150-153 | every notification of a run reaches the host exactly when the port was there at creation, or there is none |
| `ReconnectMachine.DelayBounds` | packages/core/api/ws-client.ts:163-173 | for every attempt count and jitter the delay lies in 800 to 30000 ms, and from the sixth attempt in 24000 to 30000 |
| `ReconnectMachine.ShortestDelay` | packages/core/api/ws-client.ts:163-173 | the lower bound is attained by the first attempt |
| `ReconnectMachine.DelayDoubles` | packages/core/api/ws-client.ts:163-173 | without jitter the delays are 1, 2, 4, 8 and 16 seconds, and from then on 30 |
| `ReconnectMachine.JitterExactly` | packages/core/api/ws-client.ts:163-173 | jitter moves the delay in proportion by up to a fifth, to the nearest millisecond, and never past 30 seconds |
| `ReconnectMachine.WSClient.ConnectSocket` | packages/core/api/ws-client.ts:73-89 | the state after connect |
| `ReconnectMachine.WSClient.OnOpen` | packages/core/api/ws-client.ts:91-100 | opening counts as authenticated unless a token has to be sent first |
| `ReconnectMachine.WSClient.OnAuthenticated` | packages/core/api/ws-client.ts:182-196 | the state after authentication |
| `ReconnectMachine.WSClient.ScheduleReconnect` | packages/core/api/ws-client.ts:163-180 | the state after scheduling an attempt |
| `ReconnectMachine.WSClient.OnClose` | packages/core/api/ws-client.ts:148-150 | a close schedules an attempt only while its handler is attached |
| `ReconnectMachine.WSClient.DisconnectClient` | packages/core/api/ws-client.ts:198-215 | the state after disconnect |
| `ReconnectMachine.ConnectExactly` | packages/core/api/ws-client.ts:73-89 | connect keeps the invariant exactly when there is neither a live socket nor an armed timer |
| `ReconnectMachine.RunKeepsInv` | packages/core/api/ws-client.ts:148-215 | over every orderly run there is at most one live socket or one armed timer, never both |
| `ReconnectMachine.ThroughoutExactly` | packages/core/api/ws-client.ts:73-215 | the invariant holds at every moment of a possible run exactly when every connect finds the client idle |
| `ReconnectMachine.NeverGivesUp` | packages/core/api/ws-client.ts:73-180 | once connected to, and until a disconnect, the client always has a socket or a timer; a lost socket arms a timer, a timer opens a socket |
| `ReconnectMachine.DisconnectForgets` | packages/core/api/ws-client.ts:182-215 | a disconnected client has no socket, timer or attempt left, and its next connection is no recovery |
| `ReconnectMachine.DetachedCloseIsSilent` | packages/core/api/ws-client.ts:148-150 | a socket whose close handler is detached closes without a new attempt |
| `ReconnectMachine.SilentAfterDisconnect` | packages/core/api/ws-client.ts:198-215 | after disconnect nothing is live or armed, and nothing but further disconnects can happen until the owner connects again |
| `ReconnectMachine.SecondConnectLeaks` | packages/core/api/ws-client.ts:73-89 | connecting twice leaks a socket whose close arms a timer beside the live one, and even after disconnect |
| `ReconnectMachine.AttemptExactly` | packages/core/api/ws-client.ts:164-185 | the backoff exponent is the number of closes since the last success or disconnect |
| `ReconnectMachine.RecoveryExactly` | packages/core/api/ws-client.ts:182-196 | subscribers are told of a recovery exactly when a connection succeeds after an earlier success or loss since the last disconnect |

## Left out

- HTTP clients, response schemas, React hooks and queries, pages, label tables and formatters: plumbing, or true but easy.
- Regular-expression engines: image, inline-code and file-card patterns are function parameters; only the line scanner, the fallbacks and the folding are modelled.
- ImageSequence.RefsInTextOrder: offsets, URLs and labels of single matches come from the patterns and are not described further.
- Extension and content-type parsing of the image test, and the query-stripping of URLs: parameters.
- `JSON.parse` beyond string literals, and the draft payload it yields: not modelled.
- JsonRoundTrip.RoundTripExactly: an escape for a surrogate pair is not decoded; the printer it is about never writes one.
- Strings are sequences of characters, one per UTF-16 unit of the original; pairs of surrogates are not treated as one.
- `Date.parse` and `localeCompare`: parameters. InboxDedup and TimelineCoalesce.AscendingIsMaximal speak of valid dates only, since the language leaves a sort with an inconsistent comparison undefined.
- TimelineThread.BuildTimelineRows: requires comments with distinct ids, which the server guarantees; with repeated ids the search of the original repeats rows and may not end.
- MentionComposer.RunKeepsInv: the raw setters for text and selection are excluded, because they leave the bar's state as it was; batching of state updates by the UI library is not modelled.
- MessageCache.SessionCache.UpsertChatMessageToCaches: object identity of unchanged rows and pages, which only decides whether the UI re-renders, is modelled by equality.
- The hash and the stack-frame selection of the exception fingerprint: fingerprints are opaque. ExceptionFuse assumes that stored text is either what the fuse wrote or unusable.
- Persistence and migration of the recent-context store, and theme listeners and style properties of the plugin bridge: easy or outside the model.
- PluginBridge.RunKeepsInv: assumes that a cleared timer does not fire and that handles of armed timers differ.
- ReconnectMachine.SilentAfterDisconnect: a message that arrives on a socket after disconnect has closed it, such as a late acknowledgement, is outside the environment; its handler would still run in the original.
- ReconnectMachine.DelayBounds: over real numbers, so rounding inside floating-point products is not modelled.
- Frame validation and dispatch of the WebSocket client: a frame without a string type is dropped before any state changes.
