/** The chat as the source keeps it, updated in place. */
module ChatRoom {
  import opened Types
  import opened Chat

  class ChatRoom {
    const maxUsers: nat
    const id: ChannelId
    var owner: Option<NodeId>
    var users: map<NodeId, PubKey>
    var messageCount: u64

    ghost function State(): ChatState
      reads this
    {
      ChatState(id, owner, users, messageCount)
    }

    constructor (max: nat, id: ChannelId)
      ensures maxUsers == max && this.id == id && State() == EmptyChat(id)
    {
      maxUsers := max;
      this.id := id;
      owner := None;
      users := map[];
      messageCount := 0;
    }

    // `add_user`: a bounded map, in which a known key is replaced.
    method AddUser(key: PubKey) returns (r: Result<NodeId, ChatError>)
      modifies this
      ensures match Enroll(old(State()), maxUsers, key)
              case Success(c) => r == Success(ComputeId(key)) && State() == c
              case Failure(e) => r == Failure(e) && State() == old(State())
    {
      var node := ComputeId(key);
      if node !in users && |users| >= maxUsers {
        return Failure(MaxUsersExceeded);
      }
      users := users[node := key];
      return Success(node);
    }

    method AcceptMessage(channel: ChannelId, author: NodeId, message: Protocol)
      returns (r: Result<Accepted, ChatError>)
      modifies this
      ensures match Accept(old(State()), maxUsers, channel, author, message)
              case Success((c, accepted)) => r == Success(accepted) && State() == c
              case Failure(e) => r == Failure(e) && State() == old(State())
    {
      match message {
        case NewChannel(_, _, key) =>
          if channel != id {
            return Failure(UnexpectedId);
          }
          var ownerId :- AddUser(key);
          owner := Some(ownerId);
          return Success(Nothing);
        case AddUser(_, key) =>
          if owner.None? {
            return Failure(Uninitialized);
          }
          if author != owner.value {
            return Failure(Unauthorized);
          }
          var _ :- AddUser(key);
          return Success(UserAdded(key));
        case ChatMessage(_) =>
          if author !in users {
            return Failure(Unauthorized);
          }
          if messageCount == U64_MAX {
            return Failure(ChatUnreachable);
          }
          messageCount := messageCount + 1;
          return Success(NewMessage(messageCount));
      }
    }
  }
}
