/** When memory and the stored log agree: reopening a channel, failures after the point
    of no return, and delivering the same thing twice. */
module Recovery {
  import opened Types
  import opened Channel
  import opened Chat
  import opened Replicas
  import opened History

  // ---------------------------------------------------------------- reopening

  datatype Memory = Memory(table: Table, chat: ChatState)

  // One turn of the loop of `open_chat`. Unlike a live delivery it adds a new node
  // before it receives the message.
  function Reload(cfg: Config, mem: Memory, w: Wire): Result<Memory, ClientError> {
    match w
    case Malformed => Failure(SerializationFault)
    case Forged(from) => Failure(if from in mem.table.rows then CryptoFault else ChannelFault(UnknownNode))
    case Genuine(env) =>
      match Check(mem.table, env.from, env.message)
      case Some(e) => Failure(ChannelFault(e))
      case None =>
      match Accept(mem.chat, cfg.maxNodes, cfg.channel, env.from, env.message.data)
      case Failure(e) => Failure(ChatFault(e))
      case Success((chat, accepted)) =>
      match Admit(mem.table, cfg.maxNodes, accepted)
      case Failure(e) => Failure(ChannelFault(e))
      case Success(table) =>
      match Receive(table, env.from, env.message, env.id)
      case Failure(_) => Failure(Unreachable)
      case Success((received, _)) => Success(Memory(received, chat))
  }

  function Reopen(cfg: Config, frames: seq<Wire>): Result<Memory, ClientError> {
    if frames == [] then Success(Memory(Seeded(cfg.seed), EmptyChat(cfg.channel)))
    else
      var mem :- Reopen(cfg, frames[..|frames| - 1]);
      Reload(cfg, mem, frames[|frames| - 1])
  }

  function Stored(envs: seq<Envelope>): (frames: seq<Wire>)
    ensures |frames| == |envs|
  {
    seq(|envs|, i requires 0 <= i < |envs| => Genuine(envs[i]))
  }

  lemma ReloadMatchesDeliver(cfg: Config, r: Replica, env: Envelope)
    requires TableValid(r.table, cfg.maxNodes) && Deliver(cfg, r, env).error.None?
    ensures var r' := Deliver(cfg, r, env).state;
            Reload(cfg, Memory(r.table, r.chat), Genuine(env)) == Success(Memory(r'.table, r'.chat))
  {
    DeliverTable(cfg, r, env);
    DeliverEffect(cfg, r, env);
    hide Deliver;
    if env.message.data.AddUser? {
      AddNodeCommutes(r.table, cfg.maxNodes, env.message.data.key, env.from, env.message, env.id);
    }
  }

  /** Reopening a log with the seed it was written under rebuilds the live table and
      chat, in whichever order nodes are added. */
  lemma {:induction false} ReopenRebuilds(cfg: Config, envs: seq<Envelope>)
    requires Replay(cfg, envs).Some? && cfg.maxNodes > 0
    ensures var r := Replay(cfg, envs).value;
            Reopen(cfg, Stored(envs)) == Success(Memory(r.table, r.chat))
  {
    if envs != [] {
      var init := envs[..|envs| - 1];
      ReopenRebuilds(cfg, init);
      TableStaysValid(cfg, init);
      ReloadMatchesDeliver(cfg, Replay(cfg, init).value, envs[|envs| - 1]);
      assert Stored(envs)[..|init|] == Stored(init);
    }
  }

  lemma {:induction false} ReopenStops(cfg: Config, frames: seq<Wire>, k: nat)
    requires k <= |frames| && Reopen(cfg, frames[..k]).Failure?
    ensures Reopen(cfg, frames) == Reopen(cfg, frames[..k])
  {
    if k == |frames| {
      assert frames[..k] == frames;
    } else {
      assert frames[..|frames| - 1][..k] == frames[..k];
      ReopenStops(cfg, frames[..|frames| - 1], k);
    }
  }

  // The channel as it would be on storage that takes every record. Reopening writes none.
  function Roomiest(cfg: Config): Config {
    cfg.(fits := (entry: Entry) => true)
  }

  lemma ReloadIsDelivery(cfg: Config, r: Replica, env: Envelope)
    requires TableValid(r.table, cfg.maxNodes)
    ensures var step := Deliver(Roomiest(cfg), r, env);
            match Reload(cfg, Memory(r.table, r.chat), Genuine(env))
            case Success(mem) => step.error.None? && mem == Memory(step.state.table, step.state.chat)
            case Failure(e) => step.error == Some(e)
  {
    hide AddNode, Receive, Check, Accept, TableValid;
    ReceiveValid(r.table, cfg.maxNodes, env.from, env.message, env.id);
    AcceptedKind(cfg, r.chat, env);
    if Check(r.table, env.from, env.message).None? && env.message.data.AddUser? {
      AddNodeCommutes(r.table, cfg.maxNodes, env.message.data.key, env.from, env.message, env.id);
    }
  }

  /** Bytes that are not a member's envelope are reported alike when they arrive and when
      they are found in storage. */
  lemma ReloadFault(cfg: Config, mem: Memory, w: Wire)
    ensures WireFault(mem.table, w).Some? ==> Reload(cfg, mem, w) == Failure(WireFault(mem.table, w).value)
  {}

  lemma AcceptedKind(cfg: Config, c: ChatState, env: Envelope)
    ensures var accepted := Accept(c, cfg.maxNodes, cfg.channel, env.from, env.message.data);
            accepted.Success? ==>
              && (accepted.value.1.UserAdded? <==> env.message.data.AddUser?)
              && (accepted.value.1.UserAdded? ==> accepted.value.1.key == env.message.data.key)
  {}

  /** What is stored opens if and only if it replays, to the state it replays to, in
      whichever order nodes are added. */
  lemma {:induction false} OpensIfReplays(cfg: Config, envs: seq<Envelope>)
    requires cfg.maxNodes > 0
    ensures match Replay(Roomiest(cfg), envs)
            case Some(r) => Reopen(cfg, Stored(envs)) == Success(Memory(r.table, r.chat))
            case None => Reopen(cfg, Stored(envs)).Failure?
  {
    hide Reload, Deliver;
    if envs != [] {
      var init := envs[..|envs| - 1];
      OpensIfReplays(cfg, init);
      assert Stored(envs)[..|init|] == Stored(init);
      if Replay(Roomiest(cfg), init).Some? {
        TableStaysValid(Roomiest(cfg), init);
        ReloadIsDelivery(cfg, Replay(Roomiest(cfg), init).value, envs[|envs| - 1]);
      }
    }
  }

  lemma ReplaysAnywhere(cfg: Config, envs: seq<Envelope>)
    requires Replay(cfg, envs).Some?
    ensures Replay(Roomiest(cfg), envs) == Replay(cfg, envs)
  {
    RefitReplays(cfg, Roomiest(cfg), envs);
  }

  // Reopening what is stored gives back what is in memory.
  predicate Recalled(cfg: Config, r: Replica) {
    match Replay(Roomiest(cfg), Envs(r.log))
    case None => false
    case Some(x) => x.table == r.table && x.chat == r.chat
  }

  lemma LiveIsRecalled(cfg: Config, r: Replica)
    requires Live(cfg, r)
    ensures Recalled(cfg, r)
  {
    ReplaysAnywhere(cfg, Envs(r.log));
  }

  lemma ReopenByOther(cfg: Config, envs: seq<Envelope>)
    requires envs != [] && envs[0].from != ComputeId(cfg.seed)
    ensures Reopen(cfg, Stored(envs)) == Failure(ChannelFault(UnknownNode))
  {
    var one := Stored(envs)[..1];
    assert one[..0] == [] && one[0] == Genuine(envs[0]);
    assert Reopen(cfg, one[..0]).Success?;
    assert Reopen(cfg, one) == Failure(ChannelFault(UnknownNode));
    ReopenStops(cfg, Stored(envs), 1);
  }

  /** A log whose first record is the founder's opens if and only if it replays and the
      opener founded it: `open_chat` seeds the table with the opener's own key, and anyone
      else fails at the first record. */
  lemma ReopenOnlyByFounder(cfg: Config, envs: seq<Envelope>, opener: PubKey)
    requires cfg.maxNodes > 0 && envs != [] && envs[0].from == ComputeId(cfg.seed)
    ensures Reopen(cfg.(seed := opener), Stored(envs)).Success?
            <==> opener == cfg.seed && Replay(Roomiest(cfg), envs).Some?
    ensures opener != cfg.seed ==>
              Reopen(cfg.(seed := opener), Stored(envs)) == Failure(ChannelFault(UnknownNode))
  {
    hide Reopen, Replay;
    if opener == cfg.seed {
      assert cfg.(seed := opener) == cfg;
      OpensIfReplays(cfg, envs);
    } else {
      ReopenByOther(cfg.(seed := opener), envs);
    }
  }

  // ------------------------------------------------------------- late failures

  // The entry that a delivery which got past the chat would store.
  function EntryFor(r: Replica, env: Envelope): Entry
    requires r.table.newest in r.table.rows
  {
    var counts := env.message.data.ChatMessage? && r.chat.messageCount < U64_MAX;
    Entry(Max(MaxSequence(r.table), env.message.sequence),
          if counts then r.chat.messageCount + 1 else r.chat.messageCount, env)
  }

  // The message is admissible, but a user to add is already a node or finds the table
  // full, or the record does not fit a slab.
  predicate FailsLate(cfg: Config, r: Replica, env: Envelope)
    requires r.table.newest in r.table.rows
  {
    var data := env.message.data;
    && Check(r.table, env.from, env.message).None?
    && Accept(r.chat, cfg.maxNodes, cfg.channel, env.from, data).Success?
    && ((data.AddUser? && (ComputeId(data.key) in r.table.rows || |r.table.rows| >= cfg.maxNodes))
        || !cfg.fits(EntryFor(r, env)))
  }

  // What is left to go wrong once the check and the chat have let a message through.
  lemma PastTheChat(cfg: Config, r: Replica, env: Envelope)
    requires TableValid(r.table, cfg.maxNodes) && Check(r.table, env.from, env.message).None?
    requires Accept(r.chat, cfg.maxNodes, cfg.channel, env.from, env.message.data).Success?
    ensures env.from in r.table.rows && r.table.rows[env.from].sequence < env.message.sequence
    ensures var received := Receive(r.table, env.from, env.message, env.id);
            var (chat, accepted) := Accept(r.chat, cfg.maxNodes, cfg.channel, env.from, env.message.data).value;
            && received.Success?
            && received.value.0.rows.Keys == r.table.rows.Keys
            && |received.value.0.rows| == |r.table.rows|
            && received.value.0.rows[env.from].sequence == env.message.sequence
            && EntryFor(r, env) == Entry(received.value.1, chat.messageCount, env)
            && (accepted.UserAdded? <==> env.message.data.AddUser?)
            && (accepted.UserAdded? ==> accepted.key == env.message.data.key)
  {
    hide RowValid;
    ReceiveValid(r.table, cfg.maxNodes, env.from, env.message, env.id);
    var t' := Receive(r.table, env.from, env.message, env.id).value.0;
    UpdateSize(r.table.rows, env.from, t'.rows[env.from]);
  }

  lemma LateOutcome(cfg: Config, r: Replica, env: Envelope)
    requires TableValid(r.table, cfg.maxNodes) && FailsLate(cfg, r, env)
    ensures var step := Deliver(cfg, r, env);
            && step.error.Some?
            && step.state.log == r.log
            && env.from in r.table.rows
            && env.from in step.state.table.rows
            && r.table.rows[env.from].sequence < env.message.sequence
            && step.state.table.rows[env.from].sequence == env.message.sequence
  {
    hide Check, Accept, Receive, TableValid, EntryFor;
    PastTheChat(cfg, r, env);
  }

  lemma EarlyOutcome(cfg: Config, r: Replica, env: Envelope)
    requires TableValid(r.table, cfg.maxNodes) && !FailsLate(cfg, r, env)
    ensures Deliver(cfg, r, env).error.Some? ==> Deliver(cfg, r, env).state == r
    ensures Check(r.table, env.from, env.message).None?
            && Accept(r.chat, cfg.maxNodes, cfg.channel, env.from, env.message.data).Success?
            ==> Deliver(cfg, r, env).error.None?
  {
    hide Check, Accept, Receive, TableValid, EntryFor;
    if Check(r.table, env.from, env.message).None?
       && Accept(r.chat, cfg.maxNodes, cfg.channel, env.from, env.message.data).Success? {
      PastTheChat(cfg, r, env);
    }
  }

  /** After a delivery, memory is what the stored log replays to if and only if the
      delivery did not fail late; any other refusal changes nothing at all. */
  lemma MemoryMatchesLog(cfg: Config, r: Replica, env: Envelope)
    requires Live(cfg, r) && cfg.maxNodes > 0
    ensures TableValid(r.table, cfg.maxNodes)
    ensures Live(cfg, Deliver(cfg, r, env).state) <==> !FailsLate(cfg, r, env)
    ensures Deliver(cfg, r, env).error.Some? && !FailsLate(cfg, r, env) ==> Deliver(cfg, r, env).state == r
  {
    TableStaysValid(cfg, Envs(r.log));
    if FailsLate(cfg, r, env) {
      LateOutcome(cfg, r, env);
    } else {
      EarlyOutcome(cfg, r, env);
      if Deliver(cfg, r, env).error.None? {
        LiveStep(cfg, r, env);
      }
    }
  }

  // The errors of `add_node` and of a full slab, which come after memory has changed. No
  // earlier step reports one of them.
  predicate IsLate(e: ClientError) {
    || e == ChannelFault(NodeExists)
    || (e.ChannelFault? && e.channel.ClientMax?)
    || e == StorageFault(SlabFull)
  }

  /** So the error alone tells whether memory still matches the log. */
  lemma LateByError(cfg: Config, r: Replica, env: Envelope)
    requires TableValid(r.table, cfg.maxNodes)
    ensures var error := Deliver(cfg, r, env).error;
            (error.Some? && IsLate(error.value)) <==> FailsLate(cfg, r, env)
  {
    hide Receive, TableValid, EntryFor;
    DeliverValid(cfg, r, env);
    if Check(r.table, env.from, env.message).None?
       && Accept(r.chat, cfg.maxNodes, cfg.channel, env.from, env.message.data).Success? {
      PastTheChat(cfg, r, env);
    }
  }

  // The rows after a message has been received, and its user added unless there is one
  // already or no room.
  function RowsAfter(cfg: Config, r: Replica, env: Envelope): map<NodeId, Row>
    requires env.from in r.table.rows
  {
    var data := env.message.data;
    var rows := r.table.rows[env.from := Advance(r.table.rows[env.from], env)];
    if data.AddUser? && ComputeId(data.key) !in r.table.rows && |r.table.rows| < cfg.maxNodes
    then rows[ComputeId(data.key) := EmptyRow(data.key)] else rows
  }

  /** What a delivery reports, step by step: what the check objects to, else what the chat
      does, else that the user to add is a node or finds no row, else that the record has no
      room. A message that the check or the chat refuses leaves the replica as it was, and
      only one without an error leaves a record. */
  lemma DeliveryReports(cfg: Config, r: Replica, env: Envelope)
    requires TableValid(r.table, cfg.maxNodes)
    ensures var step := Deliver(cfg, r, env);
            var data := env.message.data;
            var check := Check(r.table, env.from, env.message);
            var accepted := Accept(r.chat, cfg.maxNodes, cfg.channel, env.from, data);
            if check.Some? then step == Outcome(r, Some(ChannelFault(check.value)))
            else if accepted.Failure? then step == Outcome(r, Some(ChatFault(accepted.error)))
            else if data.AddUser? && ComputeId(data.key) in r.table.rows then
              step.error == Some(ChannelFault(NodeExists)) && step.state.log == r.log
            else if data.AddUser? && |r.table.rows| >= cfg.maxNodes then
              step.error == Some(ChannelFault(ClientMax(cfg.maxNodes))) && step.state.log == r.log
            else if !cfg.fits(EntryFor(r, env)) then
              step.error == Some(StorageFault(SlabFull)) && step.state.log == r.log
            else step.error.None? && step.state.log == r.log + [EntryFor(r, env)]
  {
    hide Check, Accept, Receive, TableValid, EntryFor;
    if Check(r.table, env.from, env.message).None?
       && Accept(r.chat, cfg.maxNodes, cfg.channel, env.from, env.message.data).Success? {
      PastTheChat(cfg, r, env);
    }
  }

  /** A message that the check and the chat let through leaves, with or without an error, its
      sender's row advanced, its user added if that can be, and the chat as it accepted it. */
  lemma DeliveryLeaves(cfg: Config, r: Replica, env: Envelope)
    requires TableValid(r.table, cfg.maxNodes) && Check(r.table, env.from, env.message).None?
    requires Accept(r.chat, cfg.maxNodes, cfg.channel, env.from, env.message.data).Success?
    ensures var x := Deliver(cfg, r, env).state;
            && x.chat == Accept(r.chat, cfg.maxNodes, cfg.channel, env.from, env.message.data).value.0
            && env.from in r.table.rows && x.table.rows == RowsAfter(cfg, r, env)
  {
    hide Check, Accept, Receive, TableValid, EntryFor;
    PastTheChat(cfg, r, env);
    ReceivedRows(cfg, r, env);
  }

  lemma ReceivedRows(cfg: Config, r: Replica, env: Envelope)
    requires Receive(r.table, env.from, env.message, env.id).Success?
    ensures env.from in r.table.rows
    ensures Receive(r.table, env.from, env.message, env.id).value.0.rows
            == r.table.rows[env.from := Advance(r.table.rows[env.from], env)]
  {}

  // What is reported of bytes that are not a member's envelope.
  function WireFault(t: Table, w: Wire): Option<ClientError> {
    match w
    case Malformed => Some(SerializationFault)
    case Forged(from) => Some(if from in t.rows then CryptoFault else ChannelFault(UnknownNode))
    case Genuine(env) => if env.from in t.rows then None else Some(ChannelFault(UnknownNode))
  }

  /** Received bytes that are refused before memory has changed change nothing at all, and
      those that are not a member's envelope always are. */
  lemma WireRefused(cfg: Config, r: Replica, w: Wire)
    requires TableValid(r.table, cfg.maxNodes)
    ensures var step := DeliverWire(cfg, r, w);
            && (step.error.Some? && !IsLate(step.error.value) ==> step.state == r)
            && (WireFault(r.table, w).Some? ==> step == Outcome(r, WireFault(r.table, w)))
            && (step.error.None? ==> w.Genuine? && step == Deliver(cfg, r, w.env))
  {
    hide Deliver, RowValid;
    if w.Genuine? {
      LateByError(cfg, r, w.env);
      if !FailsLate(cfg, r, w.env) {
        EarlyOutcome(cfg, r, w.env);
      }
      UnknownIsChecked(cfg, r, w.env);
    }
  }

  lemma UnknownIsChecked(cfg: Config, r: Replica, env: Envelope)
    ensures env.from !in r.table.rows ==> Deliver(cfg, r, env) == Outcome(r, Some(ChannelFault(UnknownNode)))
  {}

  /** So on a live replica bytes leave memory equal to the log if and only if they were not
      refused late. */
  lemma WireKeepsLive(cfg: Config, r: Replica, w: Wire)
    requires Live(cfg, r) && cfg.maxNodes > 0
    ensures var step := DeliverWire(cfg, r, w);
            Live(cfg, step.state) <==> step.error.None? || !IsLate(step.error.value)
  {
    hide Deliver, Replay;
    TableStaysValid(cfg, Envs(r.log));
    WireRefused(cfg, r, w);
    if w.Genuine? {
      MemoryMatchesLog(cfg, r, w.env);
      LateByError(cfg, r, w.env);
    }
  }

  /** A concrete late failure: an owner who adds a node twice, here itself, is left with
      a table that its log does not explain. */
  lemma AddingTwiceRunsAhead()
    ensures var cfg := Config(1, PubKey(7), 4, (e: Entry) => true);
            var found := Envelope([], 10, 7, Message(7, 0, 1, NewChannel(0, [], PubKey(7))));
            var again := Envelope([], 11, 7, Message(7, 1, 2, AddUser([], PubKey(7))));
            var r := Deliver(cfg, Fresh(cfg), found).state;
            && Live(cfg, r)
            && Deliver(cfg, r, again).error == Some(ChannelFault(NodeExists))
            && !Live(cfg, Deliver(cfg, r, again).state)
  {
    var cfg := Config(1, PubKey(7), 4, (e: Entry) => true);
    var found := Envelope([], 10, 7, Message(7, 0, 1, NewChannel(0, [], PubKey(7))));
    var again := Envelope([], 11, 7, Message(7, 1, 2, AddUser([], PubKey(7))));
    FreshIsLive(cfg);
    assert Deliver(cfg, Fresh(cfg), found).error.None?;
    LiveStep(cfg, Fresh(cfg), found);
    var r := Deliver(cfg, Fresh(cfg), found).state;
    assert FailsLate(cfg, r, again);
    MemoryMatchesLog(cfg, r, again);
  }

  // The replica after any bytes have arrived, whatever became of them. What a device sends
  // itself is among them: `do_send` takes its message in like a received one.
  function After(cfg: Config, r: Replica, wires: seq<Wire>): Replica {
    if wires == [] then r
    else DeliverWire(cfg, After(cfg, r, wires[..|wires| - 1]), wires[|wires| - 1]).state
  }

  lemma RowsGrow(cfg: Config, r: Replica, w: Wire, n: NodeId)
    requires n in r.table.rows
    ensures var t := DeliverWire(cfg, r, w).state.table;
            n in t.rows && t.rows[n].sequence >= r.table.rows[n].sequence
  {}

  lemma {:induction false} AfterGrows(cfg: Config, r: Replica, wires: seq<Wire>, n: NodeId)
    requires n in r.table.rows
    ensures var t := After(cfg, r, wires).table;
            n in t.rows && t.rows[n].sequence >= r.table.rows[n].sequence
  {
    hide DeliverWire;
    if wires != [] {
      AfterGrows(cfg, r, wires[..|wires| - 1], n);
      RowsGrow(cfg, After(cfg, r, wires[..|wires| - 1]), wires[|wires| - 1], n);
    }
  }

  predicate Below(t: Table, n: NodeId, s: u64) {
    n in t.rows ==> t.rows[n].sequence < s
  }

  // Whatever a sender wrote, it wrote before a message of its own or after it.
  predicate Around(w: Wire, n: NodeId, s: u64) {
    w.Genuine? && w.env.from == n ==> w.env.message.sequence < s || s <= w.env.message.senderLast
  }

  lemma DeliverStaysBelow(cfg: Config, r: Replica, w: Wire, n: NodeId, s: u64)
    requires 0 < s && Below(r.table, n, s) && Around(w, n, s)
    ensures Below(DeliverWire(cfg, r, w).state.table, n, s)
  {}

  lemma {:induction false} AfterStaysBelow(cfg: Config, r: Replica, wires: seq<Wire>, n: NodeId, s: u64)
    requires 0 < s && Below(r.table, n, s) && forall i :: 0 <= i < |wires| ==> Around(wires[i], n, s)
    ensures Below(After(cfg, r, wires).table, n, s)
  {
    hide DeliverWire, Around, Below;
    if wires != [] {
      AfterStaysBelow(cfg, r, wires[..|wires| - 1], n, s);
      DeliverStaysBelow(cfg, After(cfg, r, wires[..|wires| - 1]), wires[|wires| - 1], n, s);
    }
  }

  // A message that continues after s is refused wherever its sender is below s.
  lemma RefusedBelow(own: Table, peer: Table, n: NodeId, s: u64, data: Protocol)
    requires n in own.rows && own.rows[n].sequence >= s && Below(peer, n, s)
    ensures var next := Address(own, n, data);
            next.Success? ==>
              && s <= next.value.senderLast
              && Check(peer, n, next.value)
                 == Some(if n in peer.rows
                         then MissingFromSender(n, peer.rows[n].sequence, next.value.senderLast) else UnknownNode)
  {}

  /** What a late failure of a sender's own message costs: whatever it writes at any later
      time comes after a message nobody holds, and whatever a peer receives, of that sender
      and of others, the peer refuses it. */
  lemma LateFailureSilencesSender(cfg: Config, r: Replica, env: Envelope, later: seq<Wire>, data: Protocol,
                                  peerCfg: Config, peer: Replica, heard: seq<Wire>)
    requires TableValid(r.table, cfg.maxNodes) && FailsLate(cfg, r, env)
    requires Below(peer.table, env.from, env.message.sequence)
    requires forall i :: 0 <= i < |heard| ==> Around(heard[i], env.from, env.message.sequence)
    ensures var next := Address(After(cfg, Deliver(cfg, r, env).state, later).table, env.from, data);
            var t := After(peerCfg, peer, heard).table;
            next.Success? ==>
              && env.message.sequence <= next.value.senderLast
              && Check(t, env.from, next.value)
                 == Some(if env.from in t.rows
                         then MissingFromSender(env.from, t.rows[env.from].sequence, next.value.senderLast)
                         else UnknownNode)
  {
    hide Deliver, After, Address, Check, TableValid;
    LateOutcome(cfg, r, env);
    AfterGrows(cfg, Deliver(cfg, r, env).state, later, env.from);
    AfterStaysBelow(peerCfg, peer, heard, env.from, env.message.sequence);
    RefusedBelow(After(cfg, Deliver(cfg, r, env).state, later).table, After(peerCfg, peer, heard).table, env.from,
                 env.message.sequence, data);
  }

  // A message that has been received, or has failed late, is not stored any more.
  lemma KnownNotStored(cfg: Config, r: Replica, w: Wire, env: Envelope)
    requires env.from in r.table.rows && r.table.rows[env.from].sequence >= env.message.sequence
    requires env !in Envs(r.log)
    ensures env !in Envs(DeliverWire(cfg, r, w).state.log)
    ensures Deliver(cfg, r, env) == Outcome(r, Some(ChannelFault(AlreadyReceived)))
  {
    var step := DeliverWire(cfg, r, w);
    if step.state.log != r.log {
      EnvsStep(cfg, r, w.env);
      assert w.env != env;
    }
  }

  lemma {:induction false} NeverStored(cfg: Config, r: Replica, env: Envelope, later: seq<Wire>)
    requires env.from in r.table.rows && r.table.rows[env.from].sequence >= env.message.sequence
    requires env !in Envs(r.log)
    ensures env !in Envs(After(cfg, r, later).log)
    ensures Deliver(cfg, After(cfg, r, later), env)
            == Outcome(After(cfg, r, later), Some(ChannelFault(AlreadyReceived)))
  {
    hide Deliver, DeliverWire;
    if later == [] {
      KnownNotStored(cfg, r, Malformed, env);
    } else {
      var init := later[..|later| - 1];
      NeverStored(cfg, r, env, init);
      AfterGrows(cfg, r, init, env.from);
      KnownNotStored(cfg, After(cfg, r, init), later[|later| - 1], env);
      AfterGrows(cfg, r, later, env.from);
      KnownNotStored(cfg, After(cfg, r, later), Malformed, env);
    }
  }

  /** What a late failure costs a receiver: whatever arrives afterwards, it answers that
      message as already received and never stores it. */
  lemma LateFailureLosesMessage(cfg: Config, r: Replica, env: Envelope, later: seq<Wire>)
    requires Live(cfg, r) && TableValid(r.table, cfg.maxNodes) && FailsLate(cfg, r, env)
    ensures var s := After(cfg, Deliver(cfg, r, env).state, later);
            && env !in Envs(s.log)
            && Deliver(cfg, s, env) == Outcome(s, Some(ChannelFault(AlreadyReceived)))
  {
    hide Deliver, After, TableValid, Replay;
    LateOutcome(cfg, r, env);
    TableIsHistory(cfg, Envs(r.log));
    assert NodeTells(r.table, Envs(r.log), env.from);
    if env in Envs(r.log) {
      BelowLast(Envs(r.log), env);
    }
    NeverStored(cfg, Deliver(cfg, r, env).state, env, later);
  }

  // ----------------------------------------------- reopening after a late failure

  lemma AppendLast(a: seq<Envelope>, b: seq<Envelope>, last: Envelope)
    ensures a + (b + [last]) == (a + b) + [last]
  {}

  lemma {:induction false} FilterSplit(xs: seq<Envelope>, ys: seq<Envelope>, q: Query)
    ensures Filter(xs + ys, q) == Filter(xs, q) + Filter(ys, q)
  {
    if ys == [] {
      FilterNothing(xs, ys, q);
    } else {
      hide Filter, Matches;
      var init, last := ys[..|ys| - 1], ys[|ys| - 1];
      FilterSplit(xs, init, q);
      FilterSnoc(xs + init, last, q);
      FilterSnoc(init, last, q);
      AppendLast(xs, init, last);
      AppendLast(Filter(xs, q), Filter(init, q), last);
      assert init + [last] == ys;
    }
  }

  lemma FilterNothing(xs: seq<Envelope>, ys: seq<Envelope>, q: Query)
    requires ys == []
    ensures Filter(xs + ys, q) == Filter(xs, q) + Filter(ys, q)
  {
    assert xs + ys == xs && Filter(ys, q) == [];
  }

  // What a replica stores after its row of a sender has reached s continues from s.
  predicate Continues(log: seq<Entry>, from: nat, n: NodeId, s: u64) {
    forall i :: from <= i < |log| && log[i].env.from == n ==> s <= log[i].env.message.senderLast
  }

  lemma DeliveryContinues(cfg: Config, r: Replica, w: Wire, from: nat, n: NodeId, s: u64)
    requires n in r.table.rows && r.table.rows[n].sequence >= s && from <= |r.log| && Continues(r.log, from, n, s)
    ensures var log := DeliverWire(cfg, r, w).state.log;
            r.log <= log && Continues(log, from, n, s)
  {}

  lemma {:induction false} AfterContinues(cfg: Config, r: Replica, wires: seq<Wire>, n: NodeId, s: u64)
    requires n in r.table.rows && r.table.rows[n].sequence >= s
    ensures r.log <= After(cfg, r, wires).log && Continues(After(cfg, r, wires).log, |r.log|, n, s)
  {
    hide DeliverWire;
    if wires != [] {
      var init := wires[..|wires| - 1];
      AfterContinues(cfg, r, init, n, s);
      AfterGrows(cfg, r, init, n);
      DeliveryContinues(cfg, After(cfg, r, init), wires[|wires| - 1], |r.log|, n, s);
    }
  }

  // A log that goes on from a message of a sender's that it does not hold replays to
  // nothing, under any seed.
  lemma GapDoesNotReplay(cfg: Config, envs: seq<Envelope>, k: nat, i: nat, s: u64)
    requires k <= i < |envs| && LastSequence(Chain(envs[..k], envs[i].from)) < s
    requires forall j :: k <= j < |envs| && envs[j].from == envs[i].from ==> s <= envs[j].message.senderLast
    ensures Replay(cfg, envs).None?
  {
    hide Replay, Filter, Linked;
    GapIsNotLinked(envs, k, i, s);
    if Replay(cfg, envs).Some? {
      ChainsAreLinked(cfg, envs, envs[i].from);
    }
  }

  lemma GapIsNotLinked(envs: seq<Envelope>, k: nat, i: nat, s: u64)
    requires k <= i < |envs| && LastSequence(Chain(envs[..k], envs[i].from)) < s
    requires forall j :: k <= j < |envs| && envs[j].from == envs[i].from ==> s <= envs[j].message.senderLast
    ensures !Linked(Chain(envs, envs[i].from))
  {
    hide Filter;
    var j := FirstFrom(envs, k, i);
    var before, all := Chain(envs[..k], envs[i].from), Chain(envs, envs[i].from);
    assert all[|before|].message.senderLast != LastSequence(all[..|before|]);
  }

  // Where the messages of a sender go on after the first k records.
  lemma FirstFrom(envs: seq<Envelope>, k: nat, i: nat) returns (j: nat)
    requires k <= i < |envs|
    ensures k <= j < |envs| && envs[j].from == envs[i].from
    ensures var before, all := Chain(envs[..k], envs[i].from), Chain(envs, envs[i].from);
            |before| < |all| && all[|before|] == envs[j] && all[..|before|] == before
  {
    hide Filter;
    var n, tail := envs[i].from, envs[k..];
    var before, rest := Chain(envs[..k], n), Chain(tail, n);
    assert envs == envs[..k] + tail && tail[i - k] == envs[i];
    FilterSplit(envs[..k], tail, From(n));
    FilterMember(tail, From(n), envs[i]);
    FilterMember(tail, From(n), rest[0]);
    var l :| 0 <= l < |tail| && tail[l] == rest[0];
    j := k + l;
    assert (before + rest)[..|before|] == before;
  }

  /** What a late failure does to reopening. While nothing more is stored, reopening gives
      back the replica from before it, and the lost message can be written again. Once a
      message of the same sender has been stored, whatever else arrived, the log replays to
      nothing and opens for nobody. */
  lemma ReopenAfterLateFailure(cfg: Config, r: Replica, env: Envelope, later: seq<Wire>, opener: PubKey)
    requires Live(cfg, r) && TableValid(r.table, cfg.maxNodes) && FailsLate(cfg, r, env)
    ensures var log := After(cfg, Deliver(cfg, r, env).state, later).log;
            && r.log <= log
            && (log == r.log ==> Reopen(cfg, Stored(Envs(log))) == Success(Memory(r.table, r.chat)))
            && ((exists i :: |r.log| <= i < |log| && log[i].env.from == env.from) ==>
                  Replay(Roomiest(cfg), Envs(log)).None?
                  && Reopen(cfg.(seed := opener), Stored(Envs(log))).Failure?)
  {
    hide Deliver, After, Replay, Reopen, Filter, TableValid, Linked;
    LateOutcome(cfg, r, env);
    HasRoom(r.table, cfg.maxNodes);
    var s := Deliver(cfg, r, env).state;
    AfterContinues(cfg, s, later, env.from, env.message.sequence);
    var log := After(cfg, s, later).log;
    var envs, k := Envs(log), |r.log|;
    ReopenRebuilds(cfg, Envs(r.log));
    if i :| k <= i < |log| && log[i].env.from == env.from {
      TableIsHistory(cfg, Envs(r.log));
      assert NodeTells(r.table, Envs(r.log), env.from);
      assert envs[..k] == Envs(r.log) && envs[i] == log[i].env;
      RowIsLast(r.table, Envs(r.log), env.from);
      GapDoesNotReplay(Roomiest(cfg), envs, k, i, env.message.sequence);
      GapDoesNotReplay(Roomiest(cfg.(seed := opener)), envs, k, i, env.message.sequence);
      OpensIfReplays(cfg.(seed := opener), envs);
    }
  }

  lemma RowIsLast(t: Table, envs: seq<Envelope>, n: NodeId)
    requires NodeTells(t, envs, n) && n in t.rows
    ensures t.rows[n].sequence == LastSequence(Chain(envs, n))
  {}

  /** For a device that only sends after a late failure of its own this is exact: its log
      opens if and only if none of its later messages was stored. */
  lemma SendsAfterLateFailure(cfg: Config, r: Replica, env: Envelope, later: seq<Wire>)
    requires Live(cfg, r) && TableValid(r.table, cfg.maxNodes) && FailsLate(cfg, r, env)
    requires forall i :: 0 <= i < |later| ==> later[i].Genuine? && later[i].env.from == env.from
    ensures var log := After(cfg, Deliver(cfg, r, env).state, later).log;
            Reopen(cfg, Stored(Envs(log))).Success? <==> log == r.log
  {
    hide Deliver, After, Replay, Reopen, TableValid;
    LateOutcome(cfg, r, env);
    var s := Deliver(cfg, r, env).state;
    var log := After(cfg, s, later).log;
    ReopenAfterLateFailure(cfg, r, env, later, cfg.seed);
    OnlyOwnStored(cfg, s, later, env.from);
    if log != r.log {
      assert log[|r.log|].env.from == env.from;
    }
  }

  lemma {:induction false} OnlyOwnStored(cfg: Config, r: Replica, wires: seq<Wire>, n: NodeId)
    requires forall i :: 0 <= i < |wires| ==> wires[i].Genuine? && wires[i].env.from == n
    ensures var log := After(cfg, r, wires).log;
            r.log <= log && forall i :: |r.log| <= i < |log| ==> log[i].env.from == n
  {
    hide Deliver;
    if wires != [] {
      var init, w := wires[..|wires| - 1], wires[|wires| - 1];
      OnlyOwnStored(cfg, r, init, n);
      StoresOwn(cfg, After(cfg, r, init), w.env);
    }
  }

  lemma StoresOwn(cfg: Config, r: Replica, env: Envelope)
    ensures var log := Deliver(cfg, r, env).state.log;
            log == r.log || (|log| == |r.log| + 1 && log[..|r.log|] == r.log && log[|r.log|].env == env)
  {}

  /** The error the founder then gets, when its next message is the one stored after the
      failure: the log is missing what was lost. */
  lemma NextSendIsMissed(cfg: Config, r: Replica, env: Envelope, next: Envelope)
    requires Live(cfg, r) && TableValid(r.table, cfg.maxNodes) && FailsLate(cfg, r, env)
    requires next.from == env.from && Deliver(cfg, Deliver(cfg, r, env).state, next).error.None?
    ensures var log := Deliver(cfg, Deliver(cfg, r, env).state, next).state.log;
            && env.from in r.table.rows
            && Reopen(cfg, Stored(Envs(log)))
               == Failure(ChannelFault(
                    MissingFromSender(env.from, r.table.rows[env.from].sequence, next.message.senderLast)))
  {
    hide Accept, Receive, AddNode, FailsLate;
    LateOutcome(cfg, r, env);
    var s := Deliver(cfg, r, env).state;
    DeliverEffect(cfg, s, next);
    HasRoom(r.table, cfg.maxNodes);
    ReopenRebuilds(cfg, Envs(r.log));
    hide Deliver, Replay, TableValid;
    EnvsStep(cfg, s, next);
    var envs := Envs(r.log) + [next];
    assert Stored(envs)[..|r.log|] == Stored(Envs(r.log));
    assert Stored(envs)[|r.log|] == Genuine(next);
  }

  // The messages of the example above, and what the owner says next.
  function OwnerFounds(): Envelope {
    Envelope([], 10, 7, Message(7, 0, 1, NewChannel(0, [], PubKey(7))))
  }

  function OwnerAddsItself(): Envelope {
    Envelope([], 11, 7, Message(7, 1, 2, AddUser([], PubKey(7))))
  }

  function OwnerSaysHello(): Envelope {
    Envelope([], 12, 7, Message(7, 2, 3, ChatMessage([])))
  }

  lemma HelloIsSent(cfg: Config)
    requires cfg == Config(1, PubKey(7), 4, (e: Entry) => true)
    ensures var r := Deliver(cfg, Fresh(cfg), OwnerFounds()).state;
            && Live(cfg, r) && Envs(r.log) == [OwnerFounds()]
            && TableValid(r.table, 4) && FailsLate(cfg, r, OwnerAddsItself())
            && r.table.rows == map[7 := Row(PubKey(7), 10, 1, 1)]
            && Deliver(cfg, Deliver(cfg, r, OwnerAddsItself()).state, OwnerSaysHello()).error.None?
            && Deliver(cfg, r, OwnerAddsItself()).state.log == r.log
  {
    FreshIsLive(cfg);
    assert Deliver(cfg, Fresh(cfg), OwnerFounds()).error.None?;
    LiveStep(cfg, Fresh(cfg), OwnerFounds());
    var r := Deliver(cfg, Fresh(cfg), OwnerFounds()).state;
    TableStaysValid(cfg, Envs(r.log));
    assert Envs(r.log) == [OwnerFounds()];
  }

  /** A concrete log that a late failure makes unreadable: the owner who added itself says
      hello, which is reported as sent and is stored, and it cannot open its channel any
      more. */
  lemma HelloAfterAddingTwice(cfg: Config)
    requires cfg == Config(1, PubKey(7), 4, (e: Entry) => true)
    ensures var r := Deliver(cfg, Fresh(cfg), OwnerFounds()).state;
            var sent := Deliver(cfg, Deliver(cfg, r, OwnerAddsItself()).state, OwnerSaysHello());
            && sent.error.None?
            && Envs(sent.state.log) == [OwnerFounds(), OwnerSaysHello()]
            && Founded(cfg, Envs(sent.state.log))
            && Reopen(cfg, Stored(Envs(sent.state.log))) == Failure(ChannelFault(MissingFromSender(7, 1, 2)))
  {
    hide Deliver, Replay, Reopen, FailsLate, TableValid;
    HelloIsSent(cfg);
    var r := Deliver(cfg, Fresh(cfg), OwnerFounds()).state;
    NextSendIsMissed(cfg, r, OwnerAddsItself(), OwnerSaysHello());
    EnvsStep(cfg, Deliver(cfg, r, OwnerAddsItself()).state, OwnerSaysHello());
  }

  // --------------------------------------------------------------- redelivery

  predicate Known(t: Table, w: Wire) {
    && w.Genuine?
    && w.env.from in t.rows
    && t.rows[w.env.from].sequence >= w.env.message.sequence
  }

  lemma KnownStays(cfg: Config, r: Replica, env: Envelope, w: Wire)
    requires Deliver(cfg, r, env).error.None? && (Known(r.table, w) || w == Genuine(env))
    ensures Known(Deliver(cfg, r, env).state.table, w)
  {
    DeliverEffect(cfg, r, env);
  }

  lemma SkippedIsKnown(cfg: Config, r: Replica, env: Envelope)
    requires Deliver(cfg, r, env).error == Some(ChannelFault(AlreadyReceived))
    ensures Deliver(cfg, r, env).state == r && Known(r.table, Genuine(env))
  {}

  lemma {:induction false} ReceivedIsKnown(cfg: Config, r: Replica, frames: seq<Wire>, i: nat)
    requires ReceiveAll(cfg, r, frames).error.None? && i < |frames|
    ensures Known(ReceiveAll(cfg, r, frames).state.table, frames[i])
  {
    hide Deliver;
    var init, w := frames[..|frames| - 1], frames[|frames| - 1];
    var before := ReceiveAll(cfg, r, init).state;
    if i < |init| {
      ReceivedIsKnown(cfg, r, init, i);
    }
    if DeliverWire(cfg, before, w).error.None? {
      KnownStays(cfg, before, w.env, frames[i]);
    } else {
      SkippedIsKnown(cfg, before, w.env);
    }
  }

  lemma {:induction false} KnownIsSkipped(cfg: Config, r: Replica, frames: seq<Wire>)
    requires forall i :: 0 <= i < |frames| ==> Known(r.table, frames[i])
    ensures ReceiveAll(cfg, r, frames) == Outcome(r, None)
  {
    if frames != [] {
      KnownIsSkipped(cfg, r, frames[..|frames| - 1]);
    }
  }

  /** Applying a buffer that was once applied in full changes nothing and reports no
      error. */
  lemma RedeliveryIsIdempotent(cfg: Config, r: Replica, frames: seq<Wire>)
    requires ReceiveAll(cfg, r, frames).error.None?
    ensures ReceiveAll(cfg, ReceiveAll(cfg, r, frames).state, frames) == ReceiveAll(cfg, r, frames)
  {
    var r' := ReceiveAll(cfg, r, frames).state;
    forall i | 0 <= i < |frames| ensures Known(r'.table, frames[i]) {
      ReceivedIsKnown(cfg, r, frames, i);
    }
    KnownIsSkipped(cfg, r', frames);
  }
}
