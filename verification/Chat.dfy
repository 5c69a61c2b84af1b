/** Who belongs to a channel, who may say what, and how many messages there are. */
module Chat {
  import opened Types

  // UTF-8 text, as bytes.
  type Text = seq<byte>

  const NAME_MAX := 128
  const CHAT_MAX := 1024

  datatype Protocol =
    | AddUser(name: Text, key: PubKey)
    | NewChannel(nonce: nat, name: Text, owner: PubKey)
    | ChatMessage(text: Text)

  datatype ChatState = ChatState(id: ChannelId, owner: Option<NodeId>, users: map<NodeId, PubKey>, messageCount: u64)

  datatype Accepted = UserAdded(key: PubKey) | NewMessage(count: u64) | Nothing

  function EmptyChat(id: ChannelId): ChatState {
    ChatState(id, None, map[], 0)
  }

  // Inserting a known user replaces its key; a new one needs room.
  function Enroll(c: ChatState, max: nat, key: PubKey): Result<ChatState, ChatError> {
    if ComputeId(key) !in c.users && |c.users| >= max then Failure(MaxUsersExceeded)
    else Success(c.(users := c.users[ComputeId(key) := key]))
  }

  function Accept(c: ChatState, max: nat, id: ChannelId, author: NodeId, data: Protocol)
    : Result<(ChatState, Accepted), ChatError>
  {
    match data
    case NewChannel(_, _, owner) =>
      if id != c.id then Failure(UnexpectedId)
      else
        var c' :- Enroll(c, max, owner);
        Success((c'.(owner := Some(ComputeId(owner))), Nothing))
    case AddUser(_, key) =>
      if c.owner.None? then Failure(Uninitialized)
      else if author != c.owner.value then Failure(Unauthorized)
      else
        var c' :- Enroll(c, max, key);
        Success((c', UserAdded(key)))
    case ChatMessage(_) =>
      if author !in c.users then Failure(Unauthorized)
      else if c.messageCount == U64_MAX then Failure(ChatUnreachable)
      else Success((c.(messageCount := c.messageCount + 1), NewMessage(c.messageCount + 1)))
  }
}
