/** The chat box of one viewer on one conversation: the loaded page of
    messages, the reply target, the composer inputs, and the actions that
    change them and the store. */
module ChatBoxes {
  import opened Common
  import opened Records
  import opened Conversations
  import opened Stores

  /** How far `loadMore` grows the page, and the page size `mount` starts with. */
  const PageStep: int := 10

  /** `RateLimiter::tooManyAttempts(..., 60)`. */
  const MaxAttempts: nat := 60

  /** The body of a like. */
  const LikeBody: string := "\U{2764}\U{FE0F}"

  /** The rate limiter key `'send-message:'.auth()->id()`: the actor id only
      (no id without an authenticated user); the actor's type is not part of it. */
  type RateKey = Option<int>

  function KeyOf(auth: Option<Actor>): RateKey
  {
    if auth.Some? then Some(auth.value.id) else None
  }

  /** An uploaded file waiting in `media` or `files`. */
  datatype Upload = Upload(originalName: string)

  // ------------------------------------------------------------ pagination

  function Min(a: int, b: int): int
  {
    if a <= b then a else b
  }

  /** `->skip($k)`: a negative offset counts as 0; an offset past the end yields nothing. */
  function Skip<T>(s: seq<T>, k: int): seq<T>
  {
    if k <= 0 then s else if k >= |s| then [] else s[k..]
  }

  /** `->take($k)`: a negative limit is ignored. */
  function Take<T>(s: seq<T>, k: int): seq<T>
  {
    if k < 0 || k >= |s| then s else s[..k]
  }

  /** The page `loadMessages` reads from `s`, the conversation's messages in
      stored order, with page size `p`: `skip(count - p)->take(p)`. For a
      non-negative size it is the newest `min(|s|, p)` messages. */
  function Page<T>(s: seq<T>, p: int): (r: seq<T>)
    ensures p >= 0 ==> |r| == Min(|s|, p) && r == s[|s| - Min(|s|, p)..]
    ensures p < 0 ==> r == []
    ensures p >= 0 ==> s == s[..|s| - |r|] + r
  {
    Take(Skip(s, |s| - p), p)
  }

  /** `canLoadMore`: more messages exist than the page shows. */
  lemma CanLoadMoreMeaning<T>(s: seq<T>, p: int)
    requires p >= 0
    ensures |s| > |Page(s, p)| <==> |s| > p
  {
  }

  /** Twenty-five messages with page sizes 10, 20 and 30. */
  lemma PaginationOfTwentyFive<T>(s: seq<T>)
    requires |s| == 25
    ensures Page(s, 10) == s[15..] && |s| > |Page(s, 10)|
    ensures Page(s, 20) == s[5..] && |s| > |Page(s, 20)|
    ensures Page(s, 30) == s && !(|s| > |Page(s, 30)|)
  {
  }

  // ------------------------------------------------------------ composing

  /** PHP's `trim` characters: space, tab, newline, carriage return, NUL, vertical tab. */
  predicate IsTrimmed(ch: char)
  {
    ch == ' ' || ch == '\t' || ch == '\n' || ch == '\r' || ch == '\0' || ch == '\U{000B}'
  }

  /** `['body' => 'required|string']` passes: a string that is not blank after trimming. */
  predicate BodyFilled(body: Option<string>)
  {
    body.Some? && exists i :: 0 <= i < |body.value| && !IsTrimmed(body.value[i])
  }

  /** `$this->body != null`: PHP's loose comparison treats "" like null. */
  predicate BodyPresent(body: Option<string>)
  {
    body.Some? && body.value != ""
  }

  lemma FilledIsPresent(body: Option<string>)
    requires BodyFilled(body)
    ensures BodyPresent(body)
  {
    var i :| 0 <= i < |body.value| && !IsTrimmed(body.value[i]);
  }

  function ReplyIdOf(reply: Option<Message>): Option<MessageId>
  {
    if reply.Some? then Some(reply.value.id) else None
  }

  /** The attachment messages of `sendMessage`: one per attachment, carrying
      the attachment and no body. */
  function AttachmentMessages(firstId: MessageId, firstAttachment: AttachmentId, k: nat, c: ConversationId,
                              sender: Actor, reply: Option<MessageId>, t: Time): seq<Message>
  {
    seq(k, i requires 0 <= i < k => Message(firstId + i, c, sender, None, Some(firstAttachment + i), reply, t, false))
  }

  /** Everything a valid `sendMessage` creates, in order: the attachment
      messages, then the body message when the body is not null. */
  function Outgoing(firstId: MessageId, firstAttachment: AttachmentId, k: nat, c: ConversationId,
                    sender: Actor, body: Option<string>, reply: Option<MessageId>, t: Time): (r: seq<Message>)
    ensures |r| == k + (if BodyPresent(body) then 1 else 0)
    ensures forall i :: 0 <= i < |r| ==>
      r[i].id == firstId + i && r[i].conversation == c && r[i].sender == sender
      && r[i].replyId == reply && r[i].createdAt == t && !r[i].trashed
    ensures forall i :: 0 <= i < k ==> r[i].attachment == Some(firstAttachment + i) && r[i].body.None?
    ensures BodyPresent(body) ==> r[k].body == body && r[k].attachment.None?
  {
    AttachmentMessages(firstId, firstAttachment, k, c, sender, reply, t)
    + (if BodyPresent(body) then [Message(firstId + k, c, sender, body, None, reply, t, false)] else [])
  }

  /** The guards of `sendMessage`, in the order the source checks them. */
  function SendMessageOutcome(hydrated: bool, auth: Option<Actor>, attempts: nat, k: nat,
                              body: Option<string>, attachmentsValid: bool): Outcome
  {
    if !hydrated then Fail(NotFound)
    else if auth.None? then Fail(Unauthenticated)
    else if attempts >= MaxAttempts then Fail(RateLimited)
    else if k == 0 && !BodyFilled(body) then Fail(EmptyMessage)
    else if k != 0 && !attachmentsValid then Fail(ValidationFailed)
    else Pass
  }

  /** The guards of `sendLike`: it checks no authentication itself, and fails
      only when it reaches `get_class(auth()->user())`. */
  function SendLikeOutcome(hydrated: bool, auth: Option<Actor>, attempts: nat): Outcome
  {
    if !hydrated then Fail(NotFound)
    else if attempts >= MaxAttempts then Fail(RateLimited)
    else if auth.None? then Fail(Unauthenticated)
    else Pass
  }

  /** The guards of `deleteForMe` (the message is bound from its id first). */
  function DeleteForMeOutcome(hydrated: bool, found: Option<Message>, auth: Option<Actor>,
                              ps: seq<ParticipantRow>): Outcome
  {
    if !hydrated || found.None? then Fail(NotFound)
    else if auth.None? then Fail(Unauthenticated)
    else if !BelongsTo(ps, found.value.conversation, auth.value) then Fail(NotAMember)
    else Pass
  }

  /** The guards of `deleteForEveryone`. */
  function DeleteForEveryoneOutcome(hydrated: bool, found: Option<Message>, auth: Option<Actor>,
                                    ps: seq<ParticipantRow>): Outcome
  {
    if !hydrated || found.None? then Fail(NotFound)
    else if auth.None? then Fail(Unauthenticated)
    else if found.value.sender != auth.value then Fail(NotOwner)
    else if !BelongsTo(ps, found.value.conversation, auth.value) then Fail(NotAMember)
    else Pass
  }

  /** A send passes only with something to send: an attachment or a body that is not blank. */
  lemma SendPassesOnlyWithContent(hydrated: bool, auth: Option<Actor>, attempts: nat, k: nat,
                                  body: Option<string>, valid: bool)
    requires SendMessageOutcome(hydrated, auth, attempts, k, body, valid) == Pass
    ensures hydrated && auth.Some? && attempts < MaxAttempts
    ensures k > 0 || BodyFilled(body)
    ensures |Outgoing(0, 0, k, 0, auth.value, body, None, 0)| > 0
  {
    if k == 0 {
      FilledIsPresent(body);
    }
  }

  // ---------------------------------------------------------- rate limiter

  /** The attempt counters of the `RateLimiter` facade (the decay window is not modelled). */
  class RateLimiter {
    var hits: map<RateKey, nat>

    constructor ()
      ensures hits == map[]
    {
      hits := map[];
    }

    function Attempts(key: RateKey): nat
      reads this
    {
      if key in hits then hits[key] else 0
    }

    method Increment(key: RateKey)
      modifies this
      ensures hits == old(hits)[key := old(Attempts(key)) + 1]
    {
      hits := hits[key := Attempts(key) + 1];
    }
  }

  // -------------------------------------------------------------- chat box

  class ChatBox {
    const store: Store
    const limiter: RateLimiter
    /** The id of the `#[Locked]` conversation. */
    const conversation: ConversationId

    var receiver: Option<Actor>
    var body: Option<string>
    var loaded: seq<Message>
    var paginate: int
    var canLoadMore: bool
    var media: seq<Upload>
    var files: seq<Upload>
    var replyMessage: Option<Message>

    constructor (store: Store, limiter: RateLimiter, conversation: ConversationId, receiver: Option<Actor>)
      ensures this.store == store && this.limiter == limiter && this.conversation == conversation
      ensures this.receiver == receiver && body == None && loaded == [] && paginate == PageStep
      ensures !canLoadMore && media == [] && files == [] && replyMessage == None
    {
      this.store := store;
      this.limiter := limiter;
      this.conversation := conversation;
      this.receiver := receiver;
      body := None;
      loaded := [];
      paginate := PageStep;
      canLoadMore := false;
      media, files := [], [];
      replyMessage := None;
    }

    /** The locked conversation still exists, so the request hydrates. */
    predicate Hydrated()
      reads this, store
    {
      conversation in store.conversations
    }

    /** `loadMessages()`. */
    method LoadMessages()
      modifies this`loaded, this`canLoadMore
      ensures loaded == Page(MessagesOf(store.messages, conversation), paginate)
      ensures canLoadMore == (|MessagesOf(store.messages, conversation)| > |loaded|)
    {
      var all := MessagesOf(store.messages, conversation);
      loaded := Page(all, paginate);
      canLoadMore := |all| > |loaded|;
    }

    /** `loadMore()`. */
    method LoadMore() returns (o: Outcome)
      modifies this`loaded, this`canLoadMore, this`paginate
      ensures o == if old(Hydrated()) then Pass else Fail(NotFound)
      ensures o.Fail? ==> unchanged(this)
      ensures o.Pass? ==> paginate == old(paginate) + PageStep
      ensures o.Pass? ==> loaded == Page(MessagesOf(store.messages, conversation), paginate)
      ensures o.Pass? ==> canLoadMore == (|MessagesOf(store.messages, conversation)| > |loaded|)
    {
      if !Hydrated() {
        return Fail(NotFound);
      }
      paginate := paginate + PageStep;
      LoadMessages();
      o := Pass;
    }

    /** `setReply($message)`. */
    method SetReply(auth: Actor, id: MessageId) returns (o: Outcome)
      modifies this`replyMessage
      ensures var found := FindMessage(old(store.messages), id);
              o == if !old(Hydrated()) || found.None? then Fail(NotFound)
                   else if !BelongsTo(store.participants, conversation, auth) then Fail(NotAMember)
                   else if found.value.conversation != conversation then Fail(WrongConversation)
                   else Pass
      ensures o.Fail? ==> replyMessage == old(replyMessage)
      ensures o.Pass? ==> replyMessage == FindMessage(store.messages, id)
      ensures o.Pass? ==> replyMessage.value.conversation == conversation && replyMessage.value.id == id
    {
      if !Hydrated() {
        return Fail(NotFound);
      }
      var found := FindMessage(store.messages, id);
      if found.None? {
        return Fail(NotFound);
      }
      if !BelongsTo(store.participants, conversation, auth) {
        return Fail(NotAMember);
      }
      if found.value.conversation != conversation {
        return Fail(WrongConversation);
      }
      replyMessage := found;
      o := Pass;
    }

    /** `removeReply()`. */
    method RemoveReply()
      modifies this`replyMessage
      ensures replyMessage == None
    {
      replyMessage := None;
    }

    /** `rateLimit()` for the key of the current user. */
    method RateLimit(key: RateKey) returns (allowed: bool)
      modifies limiter
      ensures allowed == (old(limiter.Attempts(key)) < MaxAttempts)
      ensures limiter.hits == if allowed then old(limiter.hits)[key := old(limiter.Attempts(key)) + 1]
                              else old(limiter.hits)
    {
      if limiter.Attempts(key) >= MaxAttempts {
        return false;
      }
      limiter.Increment(key);
      allowed := true;
    }

    /** The `foreach` over the attachments of `sendMessage`: per attachment,
        an attachment row, a message carrying it, and a touch of the conversation. */
    method DeliverAttachments(sender: Actor, k: nat, reply: Option<MessageId>) returns (created: seq<Message>)
      requires store.Valid() && Hydrated()
      modifies store`messages, store`nextMessageId, store`nextAttachmentId, store`conversations
      ensures store.Valid()
      ensures created == AttachmentMessages(old(store.nextMessageId), old(store.nextAttachmentId), k, conversation,
                                            sender, reply, store.clock)
      ensures store.messages == old(store.messages) + created
      ensures store.nextMessageId == old(store.nextMessageId) + k
      ensures store.nextAttachmentId == old(store.nextAttachmentId) + k
      ensures store.conversations == if k == 0 then old(store.conversations)
              else old(store.conversations)[conversation := old(store.conversations)[conversation].(updatedAt := store.clock)]
    {
      ghost var firstId, firstAttachment := store.nextMessageId, store.nextAttachmentId;
      ghost var touched := store.conversations[conversation := store.conversations[conversation].(updatedAt := store.clock)];
      created := [];
      for i := 0 to k
        invariant store.Valid()
        invariant created == AttachmentMessages(firstId, firstAttachment, i, conversation, sender, reply, store.clock)
        invariant store.messages == old(store.messages) + created
        invariant store.nextMessageId == firstId + i && store.nextAttachmentId == firstAttachment + i
        invariant store.conversations == if i == 0 then old(store.conversations) else touched
      {
        var attachment := store.NewAttachment();
        var m := store.CreateMessage(conversation, sender, None, Some(attachment), reply);
        assert AttachmentMessages(firstId, firstAttachment, i + 1, conversation, sender, reply, store.clock)
               == AttachmentMessages(firstId, firstAttachment, i, conversation, sender, reply, store.clock) + [m];
        created := created + [m];
        store.Touch(conversation);
      }
    }

    /** The messages of a valid `sendMessage`, stored: the attachment
        messages, then the body message and a touch when `text` is not null. */
    method Deliver(sender: Actor, k: nat, text: Option<string>, reply: Option<MessageId>) returns (out: seq<Message>)
      requires store.Valid() && Hydrated()
      modifies store`messages, store`nextMessageId, store`nextAttachmentId, store`conversations
      ensures store.Valid()
      ensures out == Outgoing(old(store.nextMessageId), old(store.nextAttachmentId), k, conversation,
                              sender, text, reply, store.clock)
      ensures store.messages == old(store.messages) + out
      ensures store.nextMessageId == old(store.nextMessageId) + |out|
      ensures store.nextAttachmentId == old(store.nextAttachmentId) + k
      ensures store.conversations == if out == [] then old(store.conversations)
              else old(store.conversations)[conversation := old(store.conversations)[conversation].(updatedAt := store.clock)]
    {
      out := DeliverAttachments(sender, k, reply);
      if BodyPresent(text) {
        var m := store.CreateMessage(conversation, sender, text, None, reply);
        out := out + [m];
        store.Touch(conversation);
      }
    }

    /** The sending half of `sendMessage`, once every guard has passed: the
        messages are stored and loaded, then the inputs and the reply reset. */
    method Compose(sender: Actor) returns (out: seq<Message>)
      requires store.Valid() && Hydrated()
      requires |media| + |files| > 0 || BodyPresent(body)
      modifies this`loaded, this`body, this`media, this`files, this`replyMessage
      modifies store`messages, store`nextMessageId, store`nextAttachmentId, store`conversations
      ensures store.Valid()
      ensures out == Outgoing(old(store.nextMessageId), old(store.nextAttachmentId), |old(media)| + |old(files)|,
                              conversation, sender, old(body), ReplyIdOf(old(replyMessage)), store.clock)
      ensures |out| > 0
      ensures store.messages == old(store.messages) + out && loaded == old(loaded) + out
      ensures store.conversations == old(store.conversations)[conversation :=
                old(store.conversations)[conversation].(updatedAt := store.clock)]
      ensures store.nextMessageId == old(store.nextMessageId) + |out|
      ensures store.nextAttachmentId == old(store.nextAttachmentId) + |old(media)| + |old(files)|
      ensures body == None && media == [] && files == [] && replyMessage == None
    {
      out := Deliver(sender, |media + files|, body, ReplyIdOf(replyMessage));
      loaded := loaded + out;
      media, files, body := [], [], None;
      RemoveReply();
    }

    /** The guards of `sendMessage`, in the source's order; only the counter
        hit of `rateLimit` changes anything. */
    method SendGuards(auth: Option<Actor>, attachmentsValid: bool) returns (o: Outcome)
      modifies limiter
      ensures o == SendMessageOutcome(Hydrated(), auth, old(limiter.Attempts(KeyOf(auth))),
                                      |media| + |files|, body, attachmentsValid)
      ensures limiter.hits == if Hydrated() && auth.Some? && old(limiter.Attempts(KeyOf(auth))) < MaxAttempts
                              then old(limiter.hits)[KeyOf(auth) := old(limiter.Attempts(KeyOf(auth))) + 1]
                              else old(limiter.hits)
    {
      if !Hydrated() {
        return Fail(NotFound);
      }
      if auth.None? {
        return Fail(Unauthenticated);
      }
      var allowed := RateLimit(KeyOf(auth));
      if !allowed {
        return Fail(RateLimited);
      }
      if |media + files| == 0 && !BodyFilled(body) {
        return Fail(EmptyMessage);
      }
      if |media + files| != 0 && !attachmentsValid {
        return Fail(ValidationFailed);
      }
      o := Pass;
    }

    /** `sendMessage()`; whether the attachments pass validation is an input. */
    method SendMessage(auth: Option<Actor>, attachmentsValid: bool) returns (o: Outcome)
      requires store.Valid()
      modifies this`loaded, this`body, this`media, this`files, this`replyMessage
      modifies store`messages, store`nextMessageId, store`nextAttachmentId, store`conversations, limiter
      ensures store.Valid()
      ensures o == SendMessageOutcome(old(Hydrated()), auth, old(limiter.Attempts(KeyOf(auth))),
                                      |old(media)| + |old(files)|, old(body), attachmentsValid)
      ensures limiter.hits == if old(Hydrated()) && auth.Some? && old(limiter.Attempts(KeyOf(auth))) < MaxAttempts
                              then old(limiter.hits)[KeyOf(auth) := old(limiter.Attempts(KeyOf(auth))) + 1]
                              else old(limiter.hits)
      ensures o.Fail? ==> unchanged(this) && unchanged(store)
      ensures o.Pass? ==>
        var k := |old(media)| + |old(files)|;
        var out := Outgoing(old(store.nextMessageId), old(store.nextAttachmentId), k, conversation,
                            auth.value, old(body), ReplyIdOf(old(replyMessage)), store.clock);
        && |out| > 0
        && store.messages == old(store.messages) + out
        && loaded == old(loaded) + out
        && store.conversations == old(store.conversations)[conversation :=
             old(store.conversations)[conversation].(updatedAt := store.clock)]
        && store.nextMessageId == old(store.nextMessageId) + |out|
        && store.nextAttachmentId == old(store.nextAttachmentId) + k
        && body == None && media == [] && files == [] && replyMessage == None
    {
      o := SendGuards(auth, attachmentsValid);
      if o.Pass? {
        if |media| + |files| == 0 {
          FilledIsPresent(body);
        }
        var out := Compose(auth.value);
      }
    }

    /** `sendLike()`. */
    method SendLike(auth: Option<Actor>) returns (o: Outcome)
      requires store.Valid()
      modifies this`loaded, store`messages, store`nextMessageId, store`conversations, limiter
      ensures store.Valid()
      ensures o == SendLikeOutcome(old(Hydrated()), auth, old(limiter.Attempts(KeyOf(auth))))
      ensures o in {Fail(NotFound), Fail(RateLimited)} ==> limiter.hits == old(limiter.hits)
      ensures o !in {Fail(NotFound), Fail(RateLimited)} ==>
                limiter.hits == old(limiter.hits)[KeyOf(auth) := old(limiter.Attempts(KeyOf(auth))) + 1]
      ensures o.Fail? ==> unchanged(this) && unchanged(store)
      ensures o.Pass? ==>
        var like := Message(old(store.nextMessageId), conversation, auth.value, Some(LikeBody), None, None,
                            old(store.clock), false);
        && store.messages == old(store.messages) + [like]
        && loaded == old(loaded) + [like]
        && store.conversations == old(store.conversations)[conversation :=
             old(store.conversations)[conversation].(updatedAt := old(store.clock))]
        && store.nextMessageId == old(store.nextMessageId) + 1
    {
      if !Hydrated() {
        return Fail(NotFound);
      }
      var allowed := RateLimit(KeyOf(auth));
      if !allowed {
        return Fail(RateLimited);
      }
      if auth.None? {
        return Fail(Unauthenticated);
      }
      var like := store.CreateMessage(conversation, auth.value, Some(LikeBody), None, None);
      store.Touch(conversation);
      loaded := loaded + [like];
      o := Pass;
    }

    /** `deleteForMe($message)`. */
    method DeleteForMe(auth: Option<Actor>, id: MessageId) returns (o: Outcome)
      requires store.Valid()
      modifies this`loaded, store`actions
      ensures store.Valid()
      ensures o == DeleteForMeOutcome(old(Hydrated()), FindMessage(old(store.messages), id), auth, old(store.participants))
      ensures o.Fail? ==> unchanged(this) && unchanged(store)
      ensures o.Pass? ==> loaded == Without(old(loaded), id)
      ensures o.Pass? ==> store.actions == old(store.actions) + {Delete(auth.value, OnMessage(id))}
    {
      var found := FindMessage(store.messages, id);
      o := DeleteForMeOutcome(Hydrated(), found, auth, store.participants);
      if o.Pass? {
        loaded := Without(loaded, id);
        store.RecordDelete(auth.value, id);
      }
    }

    /** The effect of `deleteForEveryone` once its guards pass: the message
        leaves the loaded list; a message that has a reply is only soft-deleted,
        any other is removed from the store. */
    method Withdraw(m: Message)
      requires store.Valid() && m in store.messages
      modifies this`loaded, store`messages
      ensures store.Valid()
      ensures loaded == Without(old(loaded), m.id)
      ensures HasReply(old(store.messages), m.id) ==> store.messages == SoftDeleted(old(store.messages), m.id)
      ensures HasReply(old(store.messages), m.id) ==> |store.messages| == |old(store.messages)|
      ensures !HasReply(old(store.messages), m.id) ==> store.messages == Without(old(store.messages), m.id)
      ensures !HasReply(old(store.messages), m.id) ==> |store.messages| < |old(store.messages)|
    {
      loaded := Without(loaded, m.id);
      if HasReply(store.messages, m.id) {
        store.SoftDelete(m.id);
      } else {
        store.ForceDeleteMessage(m.id);
      }
    }

    /** `deleteForEveryone($message)`. */
    method DeleteForEveryone(auth: Option<Actor>, id: MessageId) returns (o: Outcome)
      requires store.Valid()
      modifies this`loaded, store`messages
      ensures store.Valid()
      ensures o == DeleteForEveryoneOutcome(old(Hydrated()), FindMessage(old(store.messages), id), auth,
                                            old(store.participants))
      ensures o.Fail? ==> unchanged(this) && unchanged(store)
      ensures o.Pass? ==> loaded == Without(old(loaded), id)
      ensures o.Pass? && HasReply(old(store.messages), id) ==> store.messages == SoftDeleted(old(store.messages), id)
      ensures o.Pass? && !HasReply(old(store.messages), id) ==> store.messages == Without(old(store.messages), id)
      ensures o.Pass? && !HasReply(old(store.messages), id) ==> |store.messages| < |old(store.messages)|
    {
      var found := FindMessage(store.messages, id);
      o := DeleteForEveryoneOutcome(Hydrated(), found, auth, store.participants);
      if o.Pass? {
        Withdraw(found.value);
      }
    }

    /** `appendNewMessage($event)` for the broadcast of message `eventMessage`
        in conversation `eventConversation`, received by `auth`. A message that
        `find` does not return is `Fail(NotFound)` here; the source reads a
        property of null there, which the framework reports as a server error
        rather than a 404. */
    method AppendNewMessage(eventConversation: ConversationId, eventMessage: MessageId, auth: Actor)
      returns (o: Outcome)
      requires store.Valid()
      modifies this`loaded, store`readMarks
      ensures store.Valid()
      ensures var found := FindMessage(old(store.messages), eventMessage);
              o == if !old(Hydrated()) then Fail(NotFound)
                   else if eventConversation != conversation then Pass
                   else if found.None? then Fail(NotFound)
                   else Pass
      ensures var found := FindMessage(old(store.messages), eventMessage);
              if o.Pass? && eventConversation == conversation && found.value.sender != auth then
                loaded == old(loaded) + [found.value]
                && store.readMarks == old(store.readMarks)[ReadKey(found.value.conversation, auth) := store.clock]
              else
                loaded == old(loaded) && store.readMarks == old(store.readMarks)
      ensures o.Pass? && loaded != old(loaded) ==>
                ReadBy(store.Snapshot(), FindMessage(store.messages, eventMessage).value.conversation, auth)
    {
      if !Hydrated() {
        return Fail(NotFound);
      }
      o := Pass;
      if eventConversation != conversation {
        return;
      }
      var found := FindMessage(store.messages, eventMessage);
      if found.None? {
        return Fail(NotFound);
      }
      var m := found.value;
      if m.sender == auth {
        return;
      }
      loaded := loaded + [m];
      MarkAsReadClearsUnread(store.Snapshot(), m.conversation, auth, store.clock);
      store.MarkAsRead(m.conversation, Some(auth), None);
    }

    /** `deleteConversation()`. */
    method DeleteConversation(auth: Option<Actor>) returns (o: Outcome)
      requires store.Valid()
      modifies store
      ensures store.Valid()
      ensures o == if !old(Hydrated()) then Fail(NotFound)
                   else if auth.None? then Fail(Unauthenticated)
                   else if !BelongsTo(old(store.participants), conversation, auth.value) then Fail(NotAMember)
                   else Pass
      ensures o.Fail? ==> store.Snapshot() == old(store.Snapshot())
      ensures o.Pass? ==> store.Snapshot() == AfterDeleteFor(old(store.Snapshot()), conversation, auth.value)
      ensures store.SameCountersAndClock(old(store.clock), old(store.nextConversationId),
                                         old(store.nextMessageId), old(store.nextAttachmentId))
    {
      if !Hydrated() {
        return Fail(NotFound);
      }
      if auth.None? {
        return Fail(Unauthenticated);
      }
      o := store.DeleteFor(conversation, auth.value);
    }
  }

  /** `mount()`: opens conversation `id` for `auth`. */
  method Mount(store: Store, limiter: RateLimiter, id: ConversationId, auth: Option<Actor>)
    returns (o: Outcome, box: ChatBox?)
    ensures o == if auth.None? then Fail(Unauthenticated)
                 else if id !in store.conversations then Fail(NotFound)
                 else if !BelongsTo(store.participants, id, auth.value) then Fail(NotAMember)
                 else Pass
    ensures o.Fail? <==> box == null
    ensures o.Pass? ==>
      && box != null && fresh(box)
      && box.store == store && box.limiter == limiter && box.conversation == id
      && box.receiver == GetReceiver(store.conversations[id], RowsOf(store.participants, id), auth.value)
      && box.paginate == PageStep
      && box.loaded == Page(MessagesOf(store.messages, id), PageStep)
      && box.canLoadMore == (|MessagesOf(store.messages, id)| > |box.loaded|)
      && box.body == None && box.media == [] && box.files == [] && box.replyMessage == None
  {
    box := null;
    if auth.None? {
      return Fail(Unauthenticated), null;
    }
    if id !in store.conversations {
      return Fail(NotFound), null;
    }
    if !BelongsTo(store.participants, id, auth.value) {
      return Fail(NotAMember), null;
    }
    var receiver := GetReceiver(store.conversations[id], RowsOf(store.participants, id), auth.value);
    box := new ChatBox(store, limiter, id, receiver);
    box.LoadMessages();
    o := Pass;
  }
}
