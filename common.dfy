/** Shared value types of the collaborative editor: the records exchanged
    between the server's room coordinator and the chat and editor clients. */
module Common {

  /** An optional value; `None` stands for JavaScript's `undefined` / `null`. */
  datatype Option<+T> = None | Some(value: T)

  type UserId = string
  type SocketId = string
  type RoomId = string

  /** A participant, identified by a self-reported id. */
  datatype User = User(id: UserId, username: string)

  /** A chat message. The source spells the recipient field `recipant`. */
  datatype Message = Message(
    id: string,
    sender: User,
    content: string,
    recipient: Option<User>,
    isPrivate: bool)

  /** A selection in the shared document: `{index, length}`. */
  datatype Range = Range(index: int, length: int)

  /** The payload a client sends with `send-cursor-position`; a `None`
      position means "hide my cursor". */
  datatype CursorPosition = CursorPosition(id: UserId, user: User, position: Option<Range>)

  /** The payload a client receives with `receive-cursor-position`. */
  datatype CursorData = CursorData(userId: UserId, username: string, position: Option<Range>)

  /** One operation of a rich-text delta; the coordinator never looks inside. */
  datatype EditOp = InsertOp(text: string) | RetainOp(count: nat) | DeleteOp(count: nat)

  /** An edit delta: `{ops: [...]}`. */
  datatype Delta = Delta(ops: seq<EditOp>)
}
