/** The read-only rules of a conversation, and the store transitions that
    `deleteFor` and the `deleted` hook perform, as functions over a store
    snapshot (`Db`). The class `Stores.Store` runs these transitions in place. */
module Conversations {
  import opened Common
  import opened Records

  // ---------------------------------------------------------------- kinds

  predicate IsPrivate(row: ConversationRow)
  {
    row.kind == Private
  }

  function IsGroup(row: ConversationRow): (r: bool)
    ensures r <==> !IsPrivate(row)
  {
    row.kind == Group
  }

  // --------------------------------------------------------- participants

  /** The participant rows of conversation `c`, in storage order. */
  function RowsOf(ps: seq<ParticipantRow>, c: ConversationId): seq<ParticipantRow>
  {
    Filter(ps, (r: ParticipantRow) => r.conversation == c)
  }

  /** The rows of `c` held by exactly the actor `a` (same type, same id). */
  function ActorRows(ps: seq<ParticipantRow>, c: ConversationId, a: Actor): seq<ParticipantRow>
  {
    Filter(ps, (r: ParticipantRow) => r.conversation == c && r.actor == a)
  }

  /** `belongsToConversation`: the actor has a participant row in `c`. */
  function BelongsTo(ps: seq<ParticipantRow>, c: ConversationId, a: Actor): (r: bool)
    ensures r <==> ActorRows(ps, c, a) != []
  {
    var own := ActorRows(ps, c, a);
    assert own != [] ==> own[0] in own;
    exists row | row in ps :: row.conversation == c && row.actor == a
  }

  /** `participant($user)`: the first row of `c` held by `a`, if any. */
  function ParticipantOf(ps: seq<ParticipantRow>, c: ConversationId, a: Actor): (r: Option<ParticipantRow>)
    ensures r.Some? <==> BelongsTo(ps, c, a)
    ensures r.Some? ==> r.value in ps && r.value.conversation == c && r.value.actor == a
    ensures r.Some? ==> exists i :: 0 <= i < |ps| && ps[i] == r.value
                                    && forall j :: 0 <= j < i ==> !(ps[j].conversation == c && ps[j].actor == a)
  {
    First(ps, (row: ParticipantRow) => row.conversation == c && row.actor == a)
  }

  /** Appending a row to `ps` adds it to its own conversation only, and when
      its actor had no row there it becomes that actor's only row. */
  lemma AppendRowEffect(ps: seq<ParticipantRow>, row: ParticipantRow)
    ensures RowsOf(ps + [row], row.conversation) == RowsOf(ps, row.conversation) + [row]
    ensures forall d :: d != row.conversation ==> RowsOf(ps + [row], d) == RowsOf(ps, d)
    ensures !BelongsTo(ps, row.conversation, row.actor) ==>
              ActorRows(ps + [row], row.conversation, row.actor) == [row]
  {
    var c := row.conversation;
    FilterAppend(ps, [row], (r: ParticipantRow) => r.conversation == c);
    forall d | d != c ensures RowsOf(ps + [row], d) == RowsOf(ps, d) {
      FilterAppend(ps, [row], (r: ParticipantRow) => r.conversation == d);
    }
    if !BelongsTo(ps, c, row.actor) {
      FilterAppend(ps, [row], (r: ParticipantRow) => r.conversation == c && r.actor == row.actor);
      FilterNone(ps, (r: ParticipantRow) => r.conversation == c && r.actor == row.actor);
    }
  }

  /** The source's test for "the other actor": the same model class and a
      different id. An actor of another class is never "the other". */
  predicate SameTypeOther(a: Actor, viewer: Actor)
  {
    a.kind == viewer.kind && a.id != viewer.id
  }

  /** The actor of the first row that is "the other" of `viewer`. */
  function OtherParticipant(rows: seq<ParticipantRow>, viewer: Actor): (r: Option<Actor>)
    ensures r.None? <==> forall row :: row in rows ==> !SameTypeOther(row.actor, viewer)
    ensures r.Some? ==> SameTypeOther(r.value, viewer)
    ensures r.Some? ==> exists i :: 0 <= i < |rows| && rows[i].actor == r.value
                                    && forall j :: 0 <= j < i ==> !SameTypeOther(rows[j].actor, viewer)
  {
    match First(rows, (row: ParticipantRow) => SameTypeOther(row.actor, viewer))
    case None => None
    case Some(row) => Some(row.actor)
  }

  /** `getReceiver()`, for the authenticated `viewer` and the conversation's rows. */
  function GetReceiver(conv: ConversationRow, rows: seq<ParticipantRow>, viewer: Actor): (r: Option<Actor>)
    ensures r.Some? ==> IsPrivate(conv) && |rows| == 2
    ensures r.Some? ==> exists row :: row in rows && row.actor == r.value
    ensures r.Some? ==> SameTypeOther(r.value, viewer) || r.value == viewer
    ensures IsPrivate(conv) && |rows| == 2 && (exists row :: row in rows && SameTypeOther(row.actor, viewer))
            ==> r.Some? && SameTypeOther(r.value, viewer)
    ensures IsPrivate(conv) && |rows| == 2 && (forall row :: row in rows ==> !SameTypeOther(row.actor, viewer))
            ==> (r == Some(viewer) <==> exists row :: row in rows && row.actor == viewer)
    ensures IsPrivate(conv) && |rows| == 2 && OtherParticipant(rows, viewer).Some? ==> r == OtherParticipant(rows, viewer)
    ensures r.None? ==> !IsPrivate(conv) || |rows| != 2
                        || forall row :: row in rows ==> !SameTypeOther(row.actor, viewer) && row.actor != viewer
  {
    if !IsPrivate(conv) || |rows| != 2 then None
    else match OtherParticipant(rows, viewer)
      case Some(o) => Some(o)
      case None => if exists row | row in rows :: row.actor == viewer then Some(viewer) else None
  }

  /** `isSelfConversation($a)`: a private conversation whose two rows are both `a`. */
  function IsSelfConversation(conv: ConversationRow, rows: seq<ParticipantRow>, a: Actor): (r: bool)
    ensures r ==> OtherParticipant(rows, a).None?
    ensures r ==> GetReceiver(conv, rows, a) == Some(a)
    ensures r <==> IsPrivate(conv) && |rows| == 2 && rows[0].actor == a && rows[1].actor == a
  {
    IsPrivate(conv) && |rows| == 2 && forall row | row in rows :: row.actor == a
  }

  /** With a participant of the viewer's type beside the viewer, the receiver is that participant. */
  lemma ReceiverIsTheOtherParticipant(conv: ConversationRow, rows: seq<ParticipantRow>, viewer: Actor)
    requires IsPrivate(conv) && |rows| == 2
    requires rows[0].actor == viewer && SameTypeOther(rows[1].actor, viewer)
    ensures GetReceiver(conv, rows, viewer) == Some(rows[1].actor)
  {
    assert !SameTypeOther(rows[0].actor, viewer);
    var o := OtherParticipant(rows, viewer);
    var i :| 0 <= i < |rows| && rows[i].actor == o.value
             && forall j :: 0 <= j < i ==> !SameTypeOther(rows[j].actor, viewer);
  }

  /** A partner of another model class is never found: the viewer is returned instead. */
  lemma ReceiverSkipsOtherActorTypes(conv: ConversationRow, rows: seq<ParticipantRow>, viewer: Actor)
    requires IsPrivate(conv) && |rows| == 2
    requires rows[0].actor == viewer && rows[1].actor.kind != viewer.kind
    ensures GetReceiver(conv, rows, viewer) == Some(viewer)
  {
    assert forall row :: row in rows ==> row == rows[0] || row == rows[1];
    assert rows[0] in rows;
  }

  // ------------------------------------------------------------- messages

  /** The messages of `c` that queries see: every row of `c` that is not soft-deleted. */
  function MessagesOf(ms: seq<Message>, c: ConversationId): seq<Message>
  {
    Filter(ms, (m: Message) => m.conversation == c && !m.trashed)
  }

  /** Every row of `c`, soft-deleted or not (what a force delete reaches). */
  function AllMessagesOf(ms: seq<Message>, c: ConversationId): seq<Message>
  {
    Filter(ms, (m: Message) => m.conversation == c)
  }

  /** `$message->delete()` under soft deletes: the rows of `id` stay, marked
      deleted; every other row is untouched. */
  function SoftDeleted(ms: seq<Message>, id: MessageId): (r: seq<Message>)
    ensures |r| == |ms|
    ensures forall i :: 0 <= i < |ms| && ms[i].id != id ==> r[i] == ms[i]
    ensures forall i :: 0 <= i < |ms| && ms[i].id == id ==> r[i] == ms[i].(trashed := true)
    ensures forall m :: m in r && m.id == id ==> m.trashed
  {
    seq(|ms|, i requires 0 <= i < |ms| => if ms[i].id == id then ms[i].(trashed := true) else ms[i])
  }

  /** A soft delete hides the message from every query of messages and from
      `Message::find`, keeps the other visible messages in their order, and
      keeps every row of the conversation in storage. */
  lemma {:induction false} SoftDeleteHides(ms: seq<Message>, id: MessageId, c: ConversationId)
    ensures MessagesOf(SoftDeleted(ms, id), c) == Without(MessagesOf(ms, c), id)
    ensures FindMessage(SoftDeleted(ms, id), id).None?
    ensures |AllMessagesOf(SoftDeleted(ms, id), c)| == |AllMessagesOf(ms, c)|
    decreases |ms|
  {
    if ms != [] {
      var r := SoftDeleted(ms, id);
      assert r == [r[0]] + SoftDeleted(ms[1..], id);
      SoftDeleteHides(ms[1..], id, c);
    }
  }

  /** Message ids are a primary key: no two rows share one. */
  predicate UniqueIds(ms: seq<Message>)
  {
    forall i, j :: 0 <= i < j < |ms| ==> ms[i].id != ms[j].id
  }

  /** Deleting rows never makes two of the remaining rows share an id. */
  lemma {:induction false} FilterKeepsUniqueIds(ms: seq<Message>, p: Message -> bool)
    requires UniqueIds(ms)
    ensures UniqueIds(Filter(ms, p))
    decreases |ms|
  {
    if ms != [] {
      var rest := Filter(ms[1..], p);
      FilterKeepsUniqueIds(ms[1..], p);
      if p(ms[0]) {
        var r := [ms[0]] + rest;
        forall x | x in rest ensures x.id != ms[0].id {
          var k :| 0 <= k < |ms[1..]| && ms[1..][k] == x;
          assert ms[k + 1] == x;
        }
        forall i, j | 0 <= i < j < |r| ensures r[i].id != r[j].id {
          assert r[j] == rest[j - 1];
          if i > 0 {
            assert r[i] == rest[i - 1];
          }
        }
      }
    }
  }

  /** The rows whose id is not `id`, in order: `forceDelete()` of a message,
      and `reject` of it from a loaded collection. */
  function Without(ms: seq<Message>, id: MessageId): (r: seq<Message>)
    ensures forall m :: m in r <==> m in ms && m.id != id
    ensures (exists m :: m in ms && m.id == id) ==> |r| < |ms|
    ensures UniqueIds(ms) ==> UniqueIds(r)
  {
    var r := Filter(ms, (m: Message) => m.id != id);
    assert (exists m :: m in ms && m.id == id) ==> |r| < |ms| by {
      if exists m :: m in ms && m.id == id {
        FilterShorter(ms, (m: Message) => m.id != id);
      }
    }
    assert UniqueIds(ms) ==> UniqueIds(r) by {
      if UniqueIds(ms) {
        FilterKeepsUniqueIds(ms, (m: Message) => m.id != id);
      }
    }
    r
  }

  /** Removing `id` keeps the order of what remains: it works piecewise on a
      concatenation and leaves a sequence without `id` as it is. */
  lemma {:induction false} WithoutKeepsOrder(a: seq<Message>, b: seq<Message>, id: MessageId)
    ensures Without(a + b, id) == Without(a, id) + Without(b, id)
    ensures (forall m :: m in a ==> m.id != id) ==> Without(a, id) == a
  {
    FilterAppend(a, b, (m: Message) => m.id != id);
    if forall m :: m in a ==> m.id != id {
      FilterAll(a, (m: Message) => m.id != id);
    }
  }

  /** `hasReply()`: some message that is not soft-deleted replies to `id`. */
  predicate HasReply(ms: seq<Message>, id: MessageId)
  {
    exists m | m in ms :: m.replyId == Some(id) && !m.trashed
  }

  /** `Message::find($id)`: the first row with that id that is not soft-deleted. */
  function FindMessage(ms: seq<Message>, id: MessageId): (r: Option<Message>)
    ensures r.Some? ==> r.value in ms && r.value.id == id && !r.value.trashed
    ensures r.None? <==> forall m :: m in ms ==> m.id != id || m.trashed
  {
    First(ms, (m: Message) => m.id == id && !m.trashed)
  }

  // ---------------------------------------------------------------- reads

  /** `read_at` of the read row of `u` in `c`, if there is one. */
  function LastRead(marks: map<ReadKey, Time>, c: ConversationId, u: Actor): (r: Option<Time>)
    ensures r.Some? <==> ReadKey(c, u) in marks
    ensures r.Some? ==> r.value == marks[ReadKey(c, u)]
  {
    if ReadKey(c, u) in marks then Some(marks[ReadKey(c, u)]) else None
  }

  /** `markAsRead` is an upsert on (conversation, reader): afterwards the
      reader's read time is the new one, every other reader and conversation
      keeps its own, and a second mark replaces the first. */
  lemma ReadMarkUpsert(marks: map<ReadKey, Time>, c: ConversationId, u: Actor, t1: Time, t2: Time, d: ConversationId, v: Actor)
    ensures LastRead(marks[ReadKey(c, u) := t1], c, u) == Some(t1)
    ensures (d, v) != (c, u) ==> LastRead(marks[ReadKey(c, u) := t1], d, v) == LastRead(marks, d, v)
    ensures marks[ReadKey(c, u) := t1][ReadKey(c, u) := t2] == marks[ReadKey(c, u) := t2]
  {
  }

  /** A message counts as unread for `u`: sent by "the other" of `u`, and
      newer than `u`'s read mark when there is one. */
  predicate IsUnread(m: Message, u: Actor, lastRead: Option<Time>)
  {
    SameTypeOther(m.sender, u) && (lastRead.None? || m.createdAt > lastRead.value)
  }

  function UnreadIn(live: seq<Message>, u: Actor, lastRead: Option<Time>): seq<Message>
  {
    Filter(live, (m: Message) => IsUnread(m, u, lastRead))
  }

  /** `getUnreadCountFor($u)` on the query path. */
  function UnreadCount(db: Db, c: ConversationId, u: Actor): (n: nat)
    ensures n <= |MessagesOf(db.messages, c)|
  {
    |UnreadIn(MessagesOf(db.messages, c), u, LastRead(db.readMarks, c, u))|
  }

  /** `getUnreadCountFor($u)` when the `messages` relation is already loaded,
      as written: a collection's `where` returns a new collection, which is
      discarded, so only the read-mark filter takes effect. It never counts
      fewer messages than the query path. */
  function UnreadCountLoaded(db: Db, c: ConversationId, u: Actor): (n: nat)
    ensures n >= UnreadCount(db, c, u)
    ensures n <= |MessagesOf(db.messages, c)|
  {
    var last := LastRead(db.readMarks, c, u);
    var live := MessagesOf(db.messages, c);
    FilterMonotone(live, (m: Message) => IsUnread(m, u, last),
                   (m: Message) => last.None? || m.createdAt > last.value);
    |Filter(live, (m: Message) => last.None? || m.createdAt > last.value)|
  }

  /** On the loaded path the viewer's own unread-looking message is counted;
      the query path does not count it. */
  lemma OwnMessageCountedWhenLoaded(u: Actor)
    ensures var db := Db(map[0 := ConversationRow(Private, 0)], [],
                         [Message(0, 0, u, Some("hi"), None, None, 1, false)], map[], {}, {});
            UnreadCountLoaded(db, 0, u) == 1 && UnreadCount(db, 0, u) == 0 && ReadBy(db, 0, u)
  {
    var m := Message(0, 0, u, Some("hi"), None, None, 1, false);
    var db := Db(map[0 := ConversationRow(Private, 0)], [], [m], map[], {}, {});
    assert MessagesOf(db.messages, 0) == [m];
    assert LastRead(db.readMarks, 0, u) == None;
  }

  /** `readBy($u)`: the unread count is at most zero. */
  function ReadBy(db: Db, c: ConversationId, u: Actor): (r: bool)
    ensures r <==> forall m :: m in MessagesOf(db.messages, c) ==> !IsUnread(m, u, LastRead(db.readMarks, c, u))
  {
    var unread := UnreadIn(MessagesOf(db.messages, c), u, LastRead(db.readMarks, c, u));
    assert unread != [] ==> unread[0] in unread;
    UnreadCount(db, c, u) <= 0
  }

  /** Without a read row every message from "the other" counts; with one,
      only those created after it. */
  lemma UnreadCountMeaning(db: Db, c: ConversationId, u: Actor)
    ensures LastRead(db.readMarks, c, u).None? ==>
      UnreadCount(db, c, u) == |Filter(MessagesOf(db.messages, c), (m: Message) => SameTypeOther(m.sender, u))|
    ensures LastRead(db.readMarks, c, u).Some? ==>
      UnreadCount(db, c, u)
      == |Filter(MessagesOf(db.messages, c),
                 (m: Message) => SameTypeOther(m.sender, u) && m.createdAt > db.readMarks[ReadKey(c, u)])|
  {
    var live := MessagesOf(db.messages, c);
    var last := LastRead(db.readMarks, c, u);
    if last.None? {
      FilterCongruent(live, (m: Message) => IsUnread(m, u, last), (m: Message) => SameTypeOther(m.sender, u));
    } else {
      FilterCongruent(live, (m: Message) => IsUnread(m, u, last),
                      (m: Message) => SameTypeOther(m.sender, u) && m.createdAt > db.readMarks[ReadKey(c, u)]);
    }
  }

  /** Right after `markAsRead` at a time no earlier than any message, nothing is unread. */
  lemma MarkAsReadClearsUnread(db: Db, c: ConversationId, u: Actor, t: Time)
    requires forall m :: m in db.messages ==> m.createdAt <= t
    ensures UnreadCount(db.(readMarks := db.readMarks[ReadKey(c, u) := t]), c, u) == 0
    ensures ReadBy(db.(readMarks := db.readMarks[ReadKey(c, u) := t]), c, u)
  {
    var db' := db.(readMarks := db.readMarks[ReadKey(c, u) := t]);
    var unread := UnreadIn(MessagesOf(db'.messages, c), u, Some(t));
    assert LastRead(db'.readMarks, c, u) == Some(t);
    FilterNone(MessagesOf(db'.messages, c), (m: Message) => IsUnread(m, u, Some(t)));
  }

  /** A later read mark never leaves more unread than an earlier one, and any
      read mark leaves no more than none at all. */
  lemma {:induction false} LaterReadFewerUnread(live: seq<Message>, u: Actor, t1: Time, t2: Time)
    requires t1 <= t2
    ensures |UnreadIn(live, u, Some(t2))| <= |UnreadIn(live, u, Some(t1))| <= |UnreadIn(live, u, None)|
  {
    FilterMonotone(live, (m: Message) => IsUnread(m, u, Some(t2)), (m: Message) => IsUnread(m, u, Some(t1)));
    FilterMonotone(live, (m: Message) => IsUnread(m, u, Some(t1)), (m: Message) => IsUnread(m, u, None));
  }

  /** A new message from the reader, or from an actor of another model class,
      never raises the reader's unread count. */
  lemma {:induction false} UnreadIgnoresNonOthers(live: seq<Message>, m: Message, u: Actor, lastRead: Option<Time>)
    requires !SameTypeOther(m.sender, u)
    ensures |UnreadIn(live + [m], u, lastRead)| == |UnreadIn(live, u, lastRead)|
  {
    FilterAppend(live, [m], (x: Message) => IsUnread(x, u, lastRead));
    assert Filter([m], (x: Message) => IsUnread(x, u, lastRead)) == [];
  }

  // ---------------------------------------------------- deletion tracking

  /** `hasBeenDeletedBy($u)`: every message of `c` carries `u`'s DELETE action. */
  function HasBeenDeletedBy(db: Db, c: ConversationId, u: Actor): (r: bool)
    ensures r <==> !Uncleared(db, c, u)
    ensures MessagesOf(db.messages, c) == [] ==> r
  {
    forall m | m in MessagesOf(db.messages, c) :: Delete(u, OnMessage(m.id)) in db.actions
  }

  /** Some message of `c` lacks `u`'s DELETE action (the `whereHas` of the scope). */
  predicate Uncleared(db: Db, c: ConversationId, u: Actor)
  {
    exists m | m in MessagesOf(db.messages, c) :: Delete(u, OnMessage(m.id)) !in db.actions
  }

  /** `scopeWithoutCleared` over the conversations `ids` of a query. */
  function WithoutCleared(db: Db, ids: seq<ConversationId>, user: Option<Actor>): (r: seq<ConversationId>)
    ensures user.None? ==> r == ids
    ensures user.Some? ==> forall c :: c in r <==> c in ids && !HasBeenDeletedBy(db, c, user.value)
    ensures user.Some? ==> forall c :: c in r ==> |MessagesOf(db.messages, c)| > 0
  {
    if user.None? then ids
    else Filter(ids, (c: ConversationId) => Uncleared(db, c, user.value))
  }

  /** The DELETE actions of `p` for every message in `ms` (`Message::deleteFor` each). */
  function DeletesOf(p: Actor, ms: seq<Message>): (r: set<Action>)
    ensures forall m :: m in ms ==> Delete(p, OnMessage(m.id)) in r
    ensures forall a :: a in r ==> a.actor == p && a.target.OnMessage?
                                   && exists m :: m in ms && a.target.message == m.id
  {
    set m | m in ms :: Delete(p, OnMessage(m.id))
  }

  /** Recording `p`'s deletes on `c` makes `hasBeenDeletedBy(p)` hold there and
      leaves it as it was for every other actor; no message row changes. */
  lemma MarkingClearsForOneActor(db: Db, c: ConversationId, p: Actor, q: Actor)
    ensures Marked(db, c, p).messages == db.messages
    ensures HasBeenDeletedBy(Marked(db, c, p), c, p)
    ensures q != p ==> (HasBeenDeletedBy(Marked(db, c, p), c, q) <==> HasBeenDeletedBy(db, c, q))
  {
    if q != p {
      var m := Marked(db, c, p);
      assert forall x :: x in MessagesOf(m.messages, c) ==>
        (Delete(q, OnMessage(x.id)) in m.actions <==> Delete(q, OnMessage(x.id)) in db.actions);
    }
  }

  // --------------------------------------------------- the `deleted` hook

  function ParticipantsOutside(ps: seq<ParticipantRow>, c: ConversationId): seq<ParticipantRow>
  {
    Filter(ps, (r: ParticipantRow) => r.conversation != c)
  }

  function MessagesOutside(ms: seq<Message>, c: ConversationId): (r: seq<Message>)
    ensures UniqueIds(ms) ==> UniqueIds(r)
  {
    assert UniqueIds(ms) ==> UniqueIds(Filter(ms, (m: Message) => m.conversation != c)) by {
      if UniqueIds(ms) {
        FilterKeepsUniqueIds(ms, (m: Message) => m.conversation != c);
      }
    }
    Filter(ms, (m: Message) => m.conversation != c)
  }

  function ReadsOutside(marks: map<ReadKey, Time>, c: ConversationId): map<ReadKey, Time>
  {
    map k | k in marks && k.conversation != c :: marks[k]
  }

  function ActionsOutside(actions: set<Action>, c: ConversationId): set<Action>
  {
    set a | a in actions && a.target != OnConversation(c)
  }

  lemma OutsideKeepsOthers(db: Db, c: ConversationId)
    ensures forall d :: d != c ==> RowsOf(ParticipantsOutside(db.participants, c), d) == RowsOf(db.participants, d)
    ensures forall d :: d != c ==> AllMessagesOf(MessagesOutside(db.messages, c), d) == AllMessagesOf(db.messages, d)
    ensures forall d :: d != c ==> MessagesOf(MessagesOutside(db.messages, c), d) == MessagesOf(db.messages, d)
  {
    forall d | d != c
      ensures RowsOf(ParticipantsOutside(db.participants, c), d) == RowsOf(db.participants, d)
      ensures AllMessagesOf(MessagesOutside(db.messages, c), d) == AllMessagesOf(db.messages, d)
      ensures MessagesOf(MessagesOutside(db.messages, c), d) == MessagesOf(db.messages, d)
    {
      FilterCompose(db.participants, (r: ParticipantRow) => r.conversation != c,
                    (r: ParticipantRow) => r.conversation == d);
      FilterCompose(db.messages, (m: Message) => m.conversation != c, (m: Message) => m.conversation == d);
      FilterCompose(db.messages, (m: Message) => m.conversation != c,
                    (m: Message) => m.conversation == d && !m.trashed);
    }
  }

  /** `forceDelete()` of conversation `c` followed by its `deleted` hook, as
      one atomic step: the row, its participants, reads, messages (soft-deleted
      ones too), the actions on the conversation and its group go; nothing of
      another conversation changes. */
  function Cascade(db: Db, c: ConversationId): (r: Db)
    ensures c !in r.conversations && c !in r.groups
    ensures r.readMarks.Keys <= db.readMarks.Keys
    ensures RowsOf(r.participants, c) == [] && AllMessagesOf(r.messages, c) == []
    ensures forall k :: k in r.readMarks ==> k.conversation != c
    ensures forall a :: a in r.actions ==> a.target != OnConversation(c)
    ensures forall d :: d != c ==> RowsOf(r.participants, d) == RowsOf(db.participants, d)
    ensures forall d :: d != c ==> AllMessagesOf(r.messages, d) == AllMessagesOf(db.messages, d)
    ensures forall d :: d != c ==> MessagesOf(r.messages, d) == MessagesOf(db.messages, d)
    ensures forall d :: d in db.conversations && d != c ==> d in r.conversations && r.conversations[d] == db.conversations[d]
    ensures r.conversations.Keys == db.conversations.Keys - {c}
    ensures forall k :: k in db.readMarks && k.conversation != c ==> k in r.readMarks && r.readMarks[k] == db.readMarks[k]
    ensures forall a :: a in db.actions && a.target != OnConversation(c) ==> a in r.actions
    ensures r.actions <= db.actions && r.groups == db.groups - {c}
  {
    OutsideKeepsOthers(db, c);
    var r := Db(db.conversations - {c},
                ParticipantsOutside(db.participants, c),
                MessagesOutside(db.messages, c),
                ReadsOutside(db.readMarks, c),
                ActionsOutside(db.actions, c),
                db.groups - {c});
    FilterNone(r.participants, (x: ParticipantRow) => x.conversation == c);
    FilterNone(r.messages, (m: Message) => m.conversation == c);
    r
  }

  // ------------------------------------------------------------ deleteFor

  /** The store after `deleteFor(p)` recorded `p`'s DELETE action on every message of `c`. */
  function Marked(db: Db, c: ConversationId, p: Actor): Db
  {
    db.(actions := db.actions + DeletesOf(p, MessagesOf(db.messages, c)))
  }

  /** The teardown decision of `deleteFor(p)`, taken on the marked store. */
  predicate TearsDown(db: Db, c: ConversationId, p: Actor)
    requires c in db.conversations
  {
    var rows := RowsOf(db.participants, c);
    IsPrivate(db.conversations[c])
    && (IsSelfConversation(db.conversations[c], rows, p)
        || match OtherParticipant(rows, p)
           case None => false
           case Some(o) => HasBeenDeletedBy(db, c, p) && HasBeenDeletedBy(db, c, o))
  }

  /** `deleteFor(p)` on `c` once its membership check has passed. */
  function AfterDeleteFor(db: Db, c: ConversationId, p: Actor): (r: Db)
    requires c in db.conversations
    ensures IsGroup(db.conversations[c]) ==> r == Marked(db, c, p)
    ensures IsSelfConversation(db.conversations[c], RowsOf(db.participants, c), p) ==> r == Cascade(Marked(db, c, p), c)
    ensures IsPrivate(db.conversations[c]) && OtherParticipant(RowsOf(db.participants, c), p).None?
            && !IsSelfConversation(db.conversations[c], RowsOf(db.participants, c), p)
            ==> r == Marked(db, c, p)
    ensures IsPrivate(db.conversations[c]) && OtherParticipant(RowsOf(db.participants, c), p).Some?
            ==> ((r == Cascade(Marked(db, c, p), c))
                 <==> HasBeenDeletedBy(db, c, OtherParticipant(RowsOf(db.participants, c), p).value))
    ensures r == Marked(db, c, p) || r == Cascade(Marked(db, c, p), c)
    ensures c in r.conversations ==> r == Marked(db, c, p) && HasBeenDeletedBy(r, c, p)
  {
    var m := Marked(db, c, p);
    var rows := RowsOf(db.participants, c);
    var o := OtherParticipant(rows, p);
    MarkingClearsForOneActor(db, c, p, if o.Some? then o.value else p);
    if TearsDown(m, c, p) then Cascade(m, c) else m
  }

  /** Of two rows held by `a` and `b`, "the other" of `b` is `a`. */
  lemma OtherOfTwo(rows: seq<ParticipantRow>, a: Actor, b: Actor)
    requires |rows| == 2 && {rows[0].actor, rows[1].actor} == {a, b}
    requires SameTypeOther(b, a)
    ensures OtherParticipant(rows, b) == Some(a)
  {
    assert forall row :: row in rows ==> row == rows[0] || row == rows[1];
    assert rows[0] in rows && rows[1] in rows;
  }

  /** In a private conversation between `a` and another actor `b` of the same
      model class, if `a`'s `deleteFor` leaves the conversation standing,
      `b`'s `deleteFor` tears it down completely. */
  lemma SecondPartyCompletesTeardown(db: Db, c: ConversationId, a: Actor, b: Actor)
    requires c in db.conversations && IsPrivate(db.conversations[c])
    requires |RowsOf(db.participants, c)| == 2
    requires {RowsOf(db.participants, c)[0].actor, RowsOf(db.participants, c)[1].actor} == {a, b}
    requires SameTypeOther(b, a)
    ensures var db1 := AfterDeleteFor(db, c, a);
            c in db1.conversations ==>
              var db2 := AfterDeleteFor(db1, c, b);
              c !in db2.conversations && RowsOf(db2.participants, c) == [] && AllMessagesOf(db2.messages, c) == []
              && (forall k :: k in db2.readMarks ==> k.conversation != c)
              && (forall x :: x in db2.actions ==> x.target != OnConversation(c))
              && c !in db2.groups
  {
    var db1 := AfterDeleteFor(db, c, a);
    if c in db1.conversations {
      var rows := RowsOf(db.participants, c);
      var m2 := Marked(db1, c, b);
      assert db1 == Marked(db, c, a);
      assert RowsOf(m2.participants, c) == rows;
      MarkingClearsForOneActor(db1, c, b, a);
      OtherOfTwo(rows, a, b);
      assert TearsDown(m2, c, b);
      assert AfterDeleteFor(db1, c, b) == Cascade(m2, c);
    }
  }
}
