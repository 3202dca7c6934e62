# WireChat conversation core in Dafny

This project models the conversation core of WireChat, a Laravel/Livewire chat package. It covers two parts:

- **The `Conversation` model.** This holds the membership rules (`addParticipant`, `participant`, `getReceiver`, `isSelfConversation`) and read tracking (`markAsRead`, `getUnreadCountFor`, `readBy`). It also holds deletion readiness (`hasBeenDeletedBy`, `scopeWithoutCleared`) and the two-stage teardown: `deleteFor`, then the cascade in the `deleted` hook.
- **The `ChatBox` Livewire component.** This is the per-viewer state machine. It holds the loaded page of messages, the page size, the reply target and the composer inputs. Its actions update that state and the store: `loadMessages`/`loadMore`, `sendMessage`, `sendLike`, `deleteForMe`, `deleteForEveryone`, `appendNewMessage`, `setReply`/`removeReply`, `deleteConversation`, the `rateLimit` gate and the checks in `mount`.

Every actor reference is a polymorphic pair of a model class name and an id (`Records.Actor`). Wherever the code looks for "the other" actor, it takes a participant or sender with the **same class and a different id** (`Conversations.SameTypeOther`). The model keeps that quirk: a partner of another class is never "the other".

Layout:

- `common.dfy` (`Common`): `Option`, plus an order-preserving `Filter` and `First`, which stand for a query's `where` and `->first()`. It also has lemmas about `Filter`.
- `records.dfy` (`Records`): the rows of the store as values (conversations, participant rows, messages, read marks, DELETE actions), the `Db` snapshot of all relations, and the failure codes.
- `conversation_rules.dfy` (`Conversations`): the read-only rules as functions over the rows, and the teardown transitions (`Cascade`, `AfterDeleteFor`) as functions from one snapshot to the next.
- `store.dfy` (`Stores`): class `Store`, updated in place. It holds the relations, the id counters and a clock that only moves forward. Its methods are the Eloquent writes the conversation performs. `Valid()` keeps five facts:
  - conversation and message ids are below their counters (attachment ids are not tied to theirs);
  - no message is newer than the clock;
  - no two messages share an id (`Conversations.UniqueIds`);
  - participant rows point at stored conversations;
  - a private conversation has at most two rows.

  `Destroy`, `DeleteEachFor` and `DeleteFor` are proved equal to the snapshot functions `Cascade`, `Marked` and `AfterDeleteFor`.
- `chat_box.dfy` (`ChatBoxes`): class `RateLimiter` (the attempt counters), class `ChatBox` (the component's fields; its methods are the actions), `Mount`, and the pagination and message-composition functions the actions are specified by.

Each action states four things:

- its outcome as the guard sequence of the source, in the source's order;
- that a failed guard changes nothing, except the rate-limit counter once the 429 check has passed (`SendMessage` and `SendLike` count the attempt before their later guards);
- the exact new state of the component and the store;
- which store fields it leaves alone (through its `modifies` frame).

When the locked conversation no longer exists, every public action fails with 404 before it does anything else (`ChatBox.Hydrated`). The exceptions are `RemoveReply`, which touches only the component, and `LoadMessages`. The other actions call `LoadMessages` after their own check. A client may also call `loadMessages` directly, since it is public, and the model leaves out the 404 such a direct call would give.

## Model

| member | source | states |
|---|---|---|
| Conversations.IsGroup | src/Models/Conversation.php:522-530 | a conversation is a group exactly when it is not private |
| Conversations.ParticipantOf | src/Models/Conversation.php:98-119 | `participant($u)` finds a row exactly when `u` (same class and id) has a row in the conversation; the row it returns is the first such row in storage order |
| Conversations.AppendRowEffect | src/Models/Conversation.php:153-159 | appending a participant row adds it at the end of its own conversation's rows, changes no other conversation's rows, and is the actor's only row there when the actor had none |
| Conversations.OtherParticipant | src/Models/Conversation.php:211-213 | the first row whose actor has the viewer's class and a different id; none exactly when no row qualifies |
| Conversations.GetReceiver | src/Models/Conversation.php:195-226 | null unless private with exactly two rows; otherwise the first row's actor of the viewer's class with another id, when one exists; otherwise the viewer if the viewer has a row; otherwise null |
| Conversations.IsSelfConversation | src/Models/Conversation.php:463-487 | holds iff private, exactly two rows, and both rows are the actor; then no other participant exists and the receiver is the actor |
| Conversations.ReceiverIsTheOtherParticipant | src/Models/Conversation.php:211-217 | with the viewer and one actor of the same class, the receiver is that actor |
| Conversations.ReceiverSkipsOtherActorTypes | src/Models/Conversation.php:211-225 | with a partner of another model class, the receiver is the viewer |
| Conversations.BelongsTo | src/Livewire/Chat/ChatBox.php:542-547 | an actor belongs to a conversation exactly when it holds a participant row there with the same class and id |
| Conversations.SoftDeleteHides | src/Livewire/Chat/ChatBox.php:402-406 | after a soft delete, the conversation's visible messages are the old ones without the id, in the same order; `Message::find` no longer finds the id; the conversation keeps all its stored rows |
| Conversations.Without | src/Livewire/Chat/ChatBox.php:360-362 | rejecting an id keeps exactly the rows with other ids, and strictly shortens a sequence that held one |
| Conversations.WithoutKeepsOrder | src/Livewire/Chat/ChatBox.php:393-395 | rejecting an id works piecewise on concatenations and leaves a sequence without the id unchanged, so the rest keep their order |
| Conversations.FindMessage | src/Livewire/Chat/ChatBox.php:143 | `Message::find` yields a row with that id that is not soft-deleted, and nothing exactly when there is none |
| Conversations.ReadMarkUpsert | src/Models/Conversation.php:286-297 | after a read mark, the reader's last read time is the new time; every other (conversation, reader) pair keeps its own; a second mark replaces the first, so one row remains |
| Conversations.UnreadCount | src/Models/Conversation.php:369-397 | the unread count never exceeds the number of the conversation's messages |
| Conversations.UnreadCountMeaning | src/Models/Conversation.php:385-396 | with no read row, it counts messages from same-class actors with another id; with one, only those created after the read time |
| Conversations.ReadBy | src/Models/Conversation.php:308-312 | `readBy` holds iff no message of the conversation is unread for the user |
| Conversations.MarkAsReadClearsUnread | src/Models/Conversation.php:289-297 | right after a read mark at a time no earlier than any message, the unread count is 0 and `readBy` holds |
| Conversations.LaterReadFewerUnread | src/Models/Conversation.php:389-396 | a later read mark never leaves more unread messages than an earlier one, and any read mark leaves no more than none |
| Conversations.UnreadIgnoresNonOthers | src/Models/Conversation.php:385-386 | a new message from the reader, or from an actor of another class, never raises the unread count |
| Conversations.UnreadCountLoaded | src/Models/Conversation.php:378-386 | the relation-loaded path as written counts at least as many messages as the query path |
| Conversations.OwnMessageCountedWhenLoaded | src/Models/Conversation.php:378-386 | a reader's own message counts as unread on the loaded path and not on the query path |
| Conversations.WithoutCleared | src/Models/Conversation.php:177-192 | with no user, no filter is applied; otherwise a conversation is kept iff the user has not deleted all its messages, which implies it holds a message |
| Conversations.HasBeenDeletedBy | src/Models/Conversation.php:493-505 | holds exactly when no visible message of the conversation lacks the user's DELETE action, so the `withoutCleared` scope drops exactly these (in the source that match needs `excludeDeleted` to hide nothing, see "## Left out"); it holds for a conversation without messages |
| Conversations.MarkingClearsForOneActor | src/Models/Conversation.php:425-427 | recording `p`'s DELETE action on every message makes `hasBeenDeletedBy(p)` hold, leaves it unchanged for every other actor, and changes no message row |
| Conversations.Cascade | src/Models/Conversation.php:45-71 | the conversation row, its participants, reads, messages (soft-deleted ones too), actions and group are gone; no read row is added; nothing of any other conversation changes |
| Conversations.AfterDeleteFor | src/Models/Conversation.php:419-458 | a group is only marked; a self-conversation is destroyed; a private one with no other participant is kept; otherwise it is destroyed iff the other participant had already deleted every message; what remains carries `p`'s deletes |
| Conversations.OtherOfTwo | src/Models/Conversation.php:211-213 | of two rows held by `a` and a same-class `b`, in either order, "the other" of `b` is `a` |
| Conversations.SecondPartyCompletesTeardown | src/Models/Conversation.php:430-455 | in a private conversation of two same-class actors, whichever holds the first row, if the first `deleteFor` leaves it standing, the second removes it with its participant rows, messages, read rows, actions and group |
| Stores.Store.AddParticipant | src/Models/Conversation.php:131-160 | 422 with no change when the actor already has a row, or when the conversation is private with two rows. Otherwise it appends one PARTICIPANT row with no exit time, which is the actor's only row. Other conversations are unchanged, and a private conversation never gets a third row |
| Stores.Store.MarkAsRead | src/Models/Conversation.php:279-298 | with no user and no authenticated user nothing changes; otherwise the one read mark of (conversation, user) is set to now |
| Stores.Store.Touch | src/Livewire/Chat/ChatBox.php:288-289 | only the conversation's `updated_at` becomes now |
| Stores.Store.NewAttachment | src/Livewire/Chat/ChatBox.php:264-270 | a new attachment id is handed out |
| Stores.Store.CreateMessage | src/Livewire/Chat/ChatBox.php:273-280 | appends one message with a fresh id, stamped now, and keeps the store valid |
| Stores.Store.RecordDelete | src/Livewire/Chat/ChatBox.php:369 | `Message::deleteFor` adds exactly the actor's DELETE action on the message |
| Stores.Store.SoftDelete | src/Livewire/Chat/ChatBox.php:405 | the stored messages become their soft-deleted form |
| Stores.Store.ForceDeleteMessage | src/Livewire/Chat/ChatBox.php:410 | the rows of the id are removed, the rest keep their order |
| Stores.Store.Destroy | src/Models/Conversation.php:45-71 | the store becomes `Cascade` of its old snapshot; counters and clock are unchanged |
| Stores.Store.DeleteEachFor | src/Models/Conversation.php:425-427 | the loop adds `p`'s DELETE action on every message of the conversation and changes nothing else |
| Stores.Store.DeleteFor | src/Models/Conversation.php:419-458 | 403 with no change unless `p` is a member; otherwise the store becomes `AfterDeleteFor` of its old snapshot |
| ChatBoxes.Page | src/Livewire/Chat/ChatBox.php:500-504 | offset `n − p` clamped at 0, limit `p`: for `p ≥ 0`, exactly the newest `min(n, p)` messages in stored order |
| ChatBoxes.CanLoadMoreMeaning | src/Livewire/Chat/ChatBox.php:508 | `canLoadMore` holds iff there are more messages than the page size |
| ChatBoxes.PaginationOfTwentyFive | src/Livewire/Chat/ChatBox.php:488-513 | 25 messages with page sizes 10, 20 and 30 give messages 16–25, 6–25 and 1–25 |
| ChatBoxes.FilledIsPresent | src/Livewire/Chat/ChatBox.php:216-218 | a body that passes `required` is also non-null for `$this->body != null` |
| ChatBoxes.Outgoing | src/Livewire/Chat/ChatBox.php:254-330 | one message per attachment (its attachment, no body), then the body message when the body is non-null; consecutive fresh ids, all with the sender, the reply id and the time |
| ChatBoxes.SendPassesOnlyWithContent | src/Livewire/Chat/ChatBox.php:212-218 | a send passes only when authenticated, under the limit, and with an attachment or a non-blank body, so it creates at least one message |
| ChatBoxes.RateLimiter.Increment | src/Livewire/Chat/ChatBox.php:196 | the key's count goes up by one and no other key changes |
| ChatBoxes.ChatBox.constructor | src/Livewire/Chat/ChatBox.php:27-47 | the component's initial fields: page size 10, no body, no uploads, no reply |
| ChatBoxes.ChatBox.LoadMessages | src/Livewire/Chat/ChatBox.php:488-513 | the loaded messages are the page of the conversation's messages, and `canLoadMore` says whether more exist |
| ChatBoxes.ChatBox.LoadMore | src/Livewire/Chat/ChatBox.php:474-485 | the page size grows by exactly 10, then the page is reloaded |
| ChatBoxes.ChatBox.SetReply | src/Livewire/Chat/ChatBox.php:65-79 | 404 for a missing message, 403 for a non-member or a message of another conversation, each without change; otherwise the reply target is the message |
| ChatBoxes.ChatBox.RemoveReply | src/Livewire/Chat/ChatBox.php:81-85 | the reply target becomes null |
| ChatBoxes.ChatBox.RateLimit | src/Livewire/Chat/ChatBox.php:188-197 | 429 with no change at 60 attempts or more; otherwise the count goes up by one |
| ChatBoxes.ChatBox.SendGuards | src/Livewire/Chat/ChatBox.php:201-248 | the outcome is the guard sequence (404, 401, 429, blank body without attachments, invalid attachments); the attempt counter goes up exactly when the 429 check is reached and passed |
| ChatBoxes.ChatBox.DeliverAttachments | src/Livewire/Chat/ChatBox.php:254-296 | the loop stores one message per attachment, in order, each with a fresh attachment id and no body, and touches the conversation on each pass |
| ChatBoxes.ChatBox.Compose | src/Livewire/Chat/ChatBox.php:254-339 | the outgoing messages are appended to the store and to the loaded list in the same order; body, media, files and the reply are reset |
| ChatBoxes.ChatBox.Deliver | src/Livewire/Chat/ChatBox.php:254-330 | the store gains exactly the outgoing messages in order, and the conversation's `updated_at` becomes now when any was created |
| ChatBoxes.ChatBox.SendMessage | src/Livewire/Chat/ChatBox.php:201-340 | the guards fire in order: 401, 429, empty body without attachments, invalid attachments. A guard that fires leaves the component and the store as they were. A pass appends the outgoing messages to the store and the loaded list in order, carrying the reply id. It touches the conversation, resets body, media and files, and clears the reply |
| ChatBoxes.ChatBox.SendLike | src/Livewire/Chat/ChatBox.php:439-471 | 429 with no change; without a user it fails after counting the attempt; otherwise one ❤️ message without reply is stored and loaded, and the conversation is touched |
| ChatBoxes.ChatBox.DeleteForMe | src/Livewire/Chat/ChatBox.php:346-371 | 401/403 without change unless authenticated and a member of the message's conversation; otherwise only that id is removed from the loaded list, the message row stays, and only the actor's DELETE action is recorded |
| ChatBoxes.ChatBox.DeleteForEveryone | src/Livewire/Chat/ChatBox.php:379-417 | 401/403 without change unless the actor sent the message and is a member; otherwise the id leaves the loaded list; with a reply the row is soft-deleted (row count kept), otherwise removed (row count drops) |
| ChatBoxes.ChatBox.Withdraw | src/Livewire/Chat/ChatBox.php:393-411 | the id leaves the loaded list; a message with a reply is soft-deleted and the row count is kept, any other is removed and the row count drops |
| ChatBoxes.ChatBox.AppendNewMessage | src/Livewire/Chat/ChatBox.php:134-159 | an event of another conversation or from the viewer changes nothing; otherwise exactly that message is appended and its conversation is then read by the viewer |
| ChatBoxes.ChatBox.DeleteConversation | src/Livewire/Chat/ChatBox.php:163-173 | 401 without change; otherwise the store becomes `AfterDeleteFor` for the user, or stays unchanged with 403 for a non-member; counters and clock never change |
| ChatBoxes.Mount | src/Livewire/Chat/ChatBox.php:524-554 | 401, then 404, then 403 unless the user has a participant row; otherwise a fresh component with the receiver and the first page loaded |

## Left out

- `scopeWhereNotDeleted`: it queries legacy `sender_id` and `*_deleted_at` columns that nothing else in the model uses.
- `ChatList.php`: a UI list with a text search and no state of its own.
- The `excludeDeleted` global scope of messages and the `withoutExited` scope of participants: they are defined in `Message.php` and `Participant.php`, which are not part of this model. Queries see every participant row, and every message that is not soft-deleted. `hasBeenDeletedBy` drops `excludeDeleted` (src/Models/Conversation.php:497) while the `whereHas` of `scopeWithoutCleared` (:184) keeps it. The two agree in the model only because the model gives that scope no effect.
- `Message.php` and `Participant.php` are not part of this model. Where the core calls into them, the model assumes five things:
  - `belongsToConversation` means the actor has a participant row;
  - `ownedBy` means the actor is the sender;
  - `hasReply` means a message that is not soft-deleted replies to it;
  - `Message::markAsRead` sets the viewer's read mark on the message's conversation;
  - `Message::deleteFor` adds exactly the actor's DELETE action on the message (`Stores.Store.RecordDelete`).
- File storage, attachment URLs and the mime/size rules of the validator: I/O and framework code. Whether the attachments pass validation is an input of `SendMessage`.
- Broadcasting (`dispatchMessageCreatedEvent`, the `BroadcastMessage` job): a foreign transport. It rethrows its exceptions (src/Livewire/Chat/ChatBox.php:433-435), so the model claims no isolation from broadcast failures.
- Livewire plumbing: `_finishUpload`, `getListeners`, `render`, the `dispatch` UI events, `getAuthMessageBodyColor`, and the unwired `listenBroadcastedMessage`.
- The RateLimiter's time-window decay: only the 60-attempt threshold and the counter are modelled.
- Transactions and concurrency: the cascade is one atomic step (`Cascade`, `Store.Destroy`).
- Time: `now()` is the store's `clock`, and it moves only through `Store.Advance`. All messages created by one action carry the same time.
- Stores.Store.Destroy: the cascade removes the actions targeting the conversation (its `actions` relation); DELETE actions on its messages stay, as the code's `morphMany` implies.
- ChatBoxes.ChatBox.SetReply takes a non-null user. The source calls a method on `auth()->user()` (src/Livewire/Chat/ChatBox.php:68), which fails when there is none; that failure path is not modelled.
- ChatBoxes.ChatBox.AppendNewMessage takes a non-null user. With no user the source does not fail at src/Livewire/Chat/ChatBox.php:147: the id comparison with null is false, so the `&&` never reaches `get_class(auth()->user())`. It then pushes the message (:152) and calls the message's `markAsRead()` (:155), whose behaviour without a user lies in `Message.php`. That path is not modelled.
- ChatBoxes.ChatBox.AppendNewMessage gives `Fail(NotFound)` for a message that `find` does not return. The source reads a property of null at src/Livewire/Chat/ChatBox.php:147, which surfaces as a server error, not a 404.
- ChatBoxes.ChatBox.SendMessage does not check membership, as in the code: the only membership check is at mount.
- ChatBoxes.RateLimiter.Increment: the key is the user id alone, as in `'send-message:'.auth()->id()`. Actors of different classes with the same id share a counter.
- Read rows are a map keyed by (conversation, reader), so marking as read twice leaves one row (`Conversations.ReadMarkUpsert`).
- Conversations.ParticipantOf models only the query branch of `participant()` (src/Models/Conversation.php:110-115). When the `participants` relation is already loaded (:103-108), the code calls `withoutGlobalScope` on a Collection. A Collection has no such method, so that branch throws instead of returning a row. The model does not contain that failure.
- Conversations.AfterDeleteFor and Conversations.GetReceiver assume every participant row's `participantable` resolves to a stored actor. In the source, a row whose actor model is gone yields null. `getReceiver` then returns that null (src/Models/Conversation.php:217) with no fallback. `deleteFor` returns early when the other participant does not resolve (:441-449), so the conversation stays even when the model would cascade it. That null branch is not modelled.
- Conversations.IsSelfConversation takes the actor as a required argument. The source defaults it to `auth()->user()` (src/Models/Conversation.php:466); no modelled caller relies on the default.
- ChatBoxes.Page: `loadMessages` (src/Livewire/Chat/ChatBox.php:498-505) gives no `orderBy`. The model takes the database's order to be the storage (insertion) order, which SQL does not guarantee.

## Findings

| source | as written | input that shows it | evidently intended | confidence | as-written member | corrected member |
|---|---|---|---|---|---|---|
| src/Models/Conversation.php:378-386 | when the `messages` relation is loaded, `$messages->where(...)` returns a new collection that is dropped, so the sender filter is lost | a conversation whose only message was sent by the reader, with no read row: the loaded path counts 1, the query path 0 | count only messages from "the other" actors on both paths | high, derived from collection semantics; not executed | Conversations.UnreadCountLoaded (shown by Conversations.OwnMessageCountedWhenLoaded) | Conversations.UnreadCount (used by Conversations.ReadBy) |
