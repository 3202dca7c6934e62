/** The conversation store, updated in place: the relations that
    `Conversation` reads and writes, the ids the database hands out, and the
    clock that `now()` reads. The Eloquent calls the conversation makes on its
    relations become the methods below. */
module Stores {
  import opened Common
  import opened Records
  import opened Conversations

  class Store {
    var conversations: map<ConversationId, ConversationRow>
    var participants: seq<ParticipantRow>
    var messages: seq<Message>
    var readMarks: map<ReadKey, Time>
    var actions: set<Action>
    var groups: set<ConversationId>

    /** What `now()` returns; it only moves forward. */
    var clock: Time
    var nextConversationId: nat
    var nextMessageId: nat
    var nextAttachmentId: nat

    function Snapshot(): Db
      reads this
    {
      Db(conversations, participants, messages, readMarks, actions, groups)
    }

    /** Ids below the counters are taken, no message is newer than the clock,
        no two messages share an id, every participant row belongs to a stored conversation, and no private
        conversation has more than two participant rows. */
    ghost predicate Valid()
      reads this
    {
      && (forall c :: c in conversations ==> c < nextConversationId)
      && (forall m :: m in messages ==> m.id < nextMessageId && m.createdAt <= clock)
      && UniqueIds(messages)
      && (forall r :: r in participants ==> r.conversation in conversations)
      && (forall c :: c in conversations && IsPrivate(conversations[c]) ==> |RowsOf(participants, c)| <= 2)
    }

    ghost predicate SameCountersAndClock(clock0: Time, nc: nat, nm: nat, na: nat)
      reads this
    {
      clock == clock0 && nextConversationId == nc && nextMessageId == nm && nextAttachmentId == na
    }

    constructor (start: Time)
      ensures Valid() && Snapshot() == Db(map[], [], [], map[], {}, {})
      ensures clock == start && nextConversationId == 0 && nextMessageId == 0 && nextAttachmentId == 0
    {
      conversations, participants, messages := map[], [], [];
      readMarks, actions, groups := map[], {}, {};
      clock := start;
      nextConversationId, nextMessageId, nextAttachmentId := 0, 0, 0;
    }

    /** Time passes. */
    method Advance(t: Time)
      requires Valid() && t >= clock
      modifies this`clock
      ensures Valid() && clock == t
    {
      clock := t;
    }

    /** `Conversation::create(['type' => kind])`. */
    method CreateConversation(kind: ConversationType) returns (c: ConversationId)
      requires Valid()
      modifies this`conversations, this`nextConversationId
      ensures Valid()
      ensures c == old(nextConversationId) && c !in old(conversations) && nextConversationId == c + 1
      ensures conversations == old(conversations)[c := ConversationRow(kind, clock)]
      ensures RowsOf(participants, c) == []
    {
      c := nextConversationId;
      FilterNone(participants, (r: ParticipantRow) => r.conversation == c);
      conversations := conversations[c := ConversationRow(kind, clock)];
      nextConversationId := c + 1;
    }

    /** `addParticipant($a)`. */
    method AddParticipant(c: ConversationId, a: Actor) returns (r: Result<ParticipantRow>)
      requires Valid() && c in conversations
      modifies this`participants
      ensures Valid()
      ensures BelongsTo(old(participants), c, a) ==> r == Err(AlreadyMember)
      ensures !BelongsTo(old(participants), c, a) && IsPrivate(conversations[c]) && |RowsOf(old(participants), c)| >= 2
              ==> r == Err(CapacityExceeded)
      ensures r == if BelongsTo(old(participants), c, a) then Err(AlreadyMember)
                   else if IsPrivate(conversations[c]) && |RowsOf(old(participants), c)| >= 2 then Err(CapacityExceeded)
                   else Ok(ParticipantRow(c, a, Participant, None))
      ensures r.Err? ==> participants == old(participants)
      ensures r.Ok? ==> r.value == ParticipantRow(c, a, Participant, None) && participants == old(participants) + [r.value]
      ensures r.Ok? ==> ActorRows(participants, c, a) == [r.value]
      ensures forall d :: d != c ==> RowsOf(participants, d) == RowsOf(old(participants), d)
      ensures IsPrivate(conversations[c]) ==> |RowsOf(participants, c)| <= 2
    {
      if BelongsTo(participants, c, a) {
        return Err(AlreadyMember);
      }
      if IsPrivate(conversations[c]) && |RowsOf(participants, c)| >= 2 {
        return Err(CapacityExceeded);
      }
      // updateOrCreate keyed on (actor, role PARTICIPANT): the guard above
      // rules out an existing row of the actor, so it always creates.
      var row := ParticipantRow(c, a, Participant, None);
      AppendRowEffect(participants, row);
      participants := participants + [row];
      r := Ok(row);
    }

    /** `markAsRead($user)`: upsert the read row of `$user ?? auth()->user()`. */
    method MarkAsRead(c: ConversationId, user: Option<Actor>, auth: Option<Actor>)
      requires Valid()
      modifies this`readMarks
      ensures Valid()
      ensures user.Some? ==> readMarks == old(readMarks)[ReadKey(c, user.value) := clock]
      ensures user.None? && auth.Some? ==> readMarks == old(readMarks)[ReadKey(c, auth.value) := clock]
      ensures user.None? && auth.None? ==> readMarks == old(readMarks)
    {
      var who := if user.Some? then user else auth;
      if who.None? {
        return;
      }
      readMarks := readMarks[ReadKey(c, who.value) := clock];
    }

    /** `$conversation->updated_at = now(); $conversation->save();` */
    method Touch(c: ConversationId)
      requires Valid()
      modifies this`conversations
      ensures Valid()
      ensures c in old(conversations) ==> conversations == old(conversations)[c := old(conversations)[c].(updatedAt := clock)]
      ensures c !in old(conversations) ==> conversations == old(conversations)
    {
      if c in conversations {
        conversations := conversations[c := conversations[c].(updatedAt := clock)];
      }
    }

    /** The id of a new attachment row (`Attachment::create`; the file itself is not modelled). */
    method NewAttachment() returns (id: AttachmentId)
      requires Valid()
      modifies this`nextAttachmentId
      ensures Valid()
      ensures id == old(nextAttachmentId) && nextAttachmentId == id + 1
    {
      id := nextAttachmentId;
      nextAttachmentId := id + 1;
    }

    /** `Message::create([...])`, stamped with `now()`. */
    method CreateMessage(c: ConversationId, sender: Actor, body: Option<string>,
                         attachment: Option<AttachmentId>, reply: Option<MessageId>) returns (m: Message)
      requires Valid()
      modifies this`messages, this`nextMessageId
      ensures Valid()
      ensures m == Message(old(nextMessageId), c, sender, body, attachment, reply, clock, false)
      ensures messages == old(messages) + [m] && nextMessageId == old(nextMessageId) + 1
      ensures forall x :: x in old(messages) ==> x.id != m.id
    {
      m := Message(nextMessageId, c, sender, body, attachment, reply, clock, false);
      messages := messages + [m];
      nextMessageId := nextMessageId + 1;
    }

    /** `$message->deleteFor($a)`: record `a`'s DELETE action on the message. */
    method RecordDelete(a: Actor, id: MessageId)
      requires Valid()
      modifies this`actions
      ensures Valid()
      ensures actions == old(actions) + {Delete(a, OnMessage(id))}
    {
      actions := actions + {Delete(a, OnMessage(id))};
    }

    /** `$message->delete()`: soft delete. */
    method SoftDelete(id: MessageId)
      requires Valid()
      modifies this`messages
      ensures Valid() && messages == SoftDeleted(old(messages), id)
    {
      messages := SoftDeleted(messages, id);
    }

    /** `$message->forceDelete()`: the row is removed. */
    method ForceDeleteMessage(id: MessageId)
      requires Valid()
      modifies this`messages
      ensures Valid() && messages == Without(old(messages), id)
    {
      messages := Without(messages, id);
    }

    /** `forceDelete()` of conversation `c` and its `deleted` hook, in one step. */
    method Destroy(c: ConversationId)
      requires Valid()
      modifies this
      ensures Valid() && Snapshot() == Cascade(old(Snapshot()), c)
      ensures SameCountersAndClock(old(clock), old(nextConversationId), old(nextMessageId), old(nextAttachmentId))
    {
      ghost var after := Cascade(Snapshot(), c);
      conversations := conversations - {c};
      participants := ParticipantsOutside(participants, c);
      readMarks := ReadsOutside(readMarks, c);
      messages := MessagesOutside(messages, c);
      actions := ActionsOutside(actions, c);
      groups := groups - {c};
      assert Snapshot() == after;
    }

    /** The `each` loop of `deleteFor($p)`: `$message->deleteFor($p)` on every message of `c`. */
    method DeleteEachFor(c: ConversationId, p: Actor)
      requires Valid()
      modifies this`actions
      ensures Valid()
      ensures Snapshot() == Marked(old(Snapshot()), c, p)
    {
      var live := MessagesOf(messages, c);
      var i := 0;
      while i < |live|
        invariant 0 <= i <= |live|
        invariant actions == old(actions) + DeletesOf(p, live[..i])
      {
        assert live[..i + 1] == live[..i] + [live[i]];
        assert DeletesOf(p, live[..i + 1]) == DeletesOf(p, live[..i]) + {Delete(p, OnMessage(live[i].id))};
        RecordDelete(p, live[i].id);
        i := i + 1;
      }
      assert live[..i] == live;
    }

    /** `deleteFor($p)`. */
    method DeleteFor(c: ConversationId, p: Actor) returns (o: Outcome)
      requires Valid() && c in conversations
      modifies this
      ensures Valid()
      ensures o == if BelongsTo(old(participants), c, p) then Pass else Fail(NotAMember)
      ensures o.Fail? ==> Snapshot() == old(Snapshot())
      ensures o.Pass? ==> Snapshot() == AfterDeleteFor(old(Snapshot()), c, p)
      ensures SameCountersAndClock(old(clock), old(nextConversationId), old(nextMessageId), old(nextAttachmentId))
    {
      if !BelongsTo(participants, c, p) {
        return Fail(NotAMember);
      }
      DeleteEachFor(c, p);
      o := Pass;
      var row := conversations[c];
      if IsPrivate(row) {
        var rows := RowsOf(participants, c);
        if IsSelfConversation(row, rows, p) {
          Destroy(c);
        } else {
          var other := OtherParticipant(rows, p);
          if other.None? {
            return;
          }
          var db := Snapshot();
          if HasBeenDeletedBy(db, c, p) && HasBeenDeletedBy(db, c, other.value) {
            Destroy(c);
          }
        }
      }
    }
  }
}
