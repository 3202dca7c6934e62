/** The rows of the conversation store, as values.

    Every actor reference in the store (a participant's `participantable`, a
    message's `sendable`, a read's `readable`, an action's `actor`) is a
    polymorphic pair of a model class name and an id. */
module Records {
  import opened Common

  type Time = int
  type ConversationId = nat
  type MessageId = nat
  type AttachmentId = nat

  /** A polymorphic actor reference: `(participantable_type, participantable_id)`. */
  datatype Actor = Actor(kind: string, id: int)

  datatype ConversationType = Private | Group

  datatype Role = Owner | Admin | Participant

  /** A conversation row: its `type` and its `updated_at`, which orders the chat list. */
  datatype ConversationRow = ConversationRow(kind: ConversationType, updatedAt: Time)

  /** A participant row; `exitedAt == None` is an active membership. */
  datatype ParticipantRow = ParticipantRow(
    conversation: ConversationId,
    actor: Actor,
    role: Role,
    exitedAt: Option<Time>)

  /** A message row. `trashed` is the soft-delete mark (`deleted_at` set). */
  datatype Message = Message(
    id: MessageId,
    conversation: ConversationId,
    sender: Actor,
    body: Option<string>,
    attachment: Option<AttachmentId>,
    replyId: Option<MessageId>,
    createdAt: Time,
    trashed: bool)

  /** What an action row points at (its polymorphic `actionable`). */
  datatype Target = OnMessage(message: MessageId) | OnConversation(conversation: ConversationId)

  /** An action row of type DELETE: `actor` has hidden `target` from their own view. */
  datatype Action = Delete(actor: Actor, target: Target)

  /** The key of a read row: one row per (conversation, readable). */
  datatype ReadKey = ReadKey(conversation: ConversationId, reader: Actor)

  /** The relations of the store at one instant. */
  datatype Db = Db(
    conversations: map<ConversationId, ConversationRow>,
    participants: seq<ParticipantRow>,
    messages: seq<Message>,
    readMarks: map<ReadKey, Time>,
    actions: set<Action>,
    groups: set<ConversationId>)

  /** Why an operation stopped before changing anything (HTTP status in brackets). */
  datatype Failure =
    | Unauthenticated      // [401]
    | NotFound             // [404] a model that is not (or no longer) in the store
    | NotAMember           // [403] the actor has no participant row in the conversation
    | NotOwner             // [403] the actor did not send the message
    | WrongConversation    // [403] the message belongs to another conversation
    | AlreadyMember        // [422]
    | CapacityExceeded     // [422] a private conversation already has two rows
    | EmptyMessage         // validation: no attachment and a blank body
    | ValidationFailed     // validation of the attachments failed (reported as a notice)
    | RateLimited          // [429]

  datatype Outcome = Pass | Fail(failure: Failure)

  datatype Result<T> = Ok(value: T) | Err(failure: Failure)
}
