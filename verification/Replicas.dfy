/** One device's copy of a channel: the node table, the chat and the stored log,
    and the steps that move them. */
module Replicas {
  import opened Types
  import opened Channel
  import opened Chat

  // A sealed envelope: its bytes, their hash, and what they open to.
  datatype Envelope = Envelope(wire: seq<byte>, id: EnvelopeId, from: NodeId, message: Message<Protocol>)

  // What bytes from the network turn out to be: not an envelope, an envelope whose
  // signature or contents do not open under its sender's key, or a genuine one.
  datatype Wire = Malformed | Forged(from: NodeId) | Genuine(env: Envelope)

  datatype Entry = Entry(maxSequence: u64, messageCount: u64, env: Envelope)

  // `seed` is the key the table starts from; `fits` says which entries the storage can
  // hold in one slab.
  datatype Config = Config(channel: ChannelId, seed: PubKey, maxNodes: nat, fits: Entry -> bool)

  datatype Replica = Replica(table: Table, chat: ChatState, log: seq<Entry>)

  // The state after a step, which the source may have changed even when it reports
  // an error.
  datatype Outcome = Outcome(state: Replica, error: Option<ClientError>)

  function Fresh(cfg: Config): Replica {
    Replica(Seeded(cfg.seed), EmptyChat(cfg.channel), [])
  }

  function Admit(t: Table, max: nat, accepted: Accepted): Result<Table, ChannelError> {
    match accepted
    case UserAdded(key) => AddNode(t, max, key)
    case _ => Success(t)
  }

  // Check, accept, receive, add the node, store: in this order, each on the state the
  // one before left.
  function Deliver(cfg: Config, r: Replica, env: Envelope): Outcome {
    match Check(r.table, env.from, env.message)
    case Some(e) => Outcome(r, Some(ChannelFault(e)))
    case None =>
    match Accept(r.chat, cfg.maxNodes, cfg.channel, env.from, env.message.data)
    case Failure(e) => Outcome(r, Some(ChatFault(e)))
    case Success((chat, accepted)) =>
    match Receive(r.table, env.from, env.message, env.id)
    case Failure(_) => Outcome(r.(chat := chat), Some(Unreachable))
    case Success((received, max)) =>
    match Admit(received, cfg.maxNodes, accepted)
    case Failure(e) => Outcome(Replica(received, chat, r.log), Some(ChannelFault(e)))
    case Success(table) =>
    var entry := Entry(max, chat.messageCount, env);
    if cfg.fits(entry) then Outcome(Replica(table, chat, r.log + [entry]), None)
    else Outcome(Replica(table, chat, r.log), Some(StorageFault(SlabFull)))
  }

  // The row a node's accepted message leaves.
  function Advance(row: Row, env: Envelope): Row {
    Row(row.key, env.id, if row.first == 0 then env.message.sequence else row.first, env.message.sequence)
  }

  lemma DeliverEffect(cfg: Config, r: Replica, env: Envelope)
    requires Deliver(cfg, r, env).error.None?
    ensures var r' := Deliver(cfg, r, env).state;
            var data := env.message.data;
            && Check(r.table, env.from, env.message).None?
            && Accept(r.chat, cfg.maxNodes, cfg.channel, env.from, data).Success?
            && r'.chat == Accept(r.chat, cfg.maxNodes, cfg.channel, env.from, data).value.0
            && r.table.newest in r.table.rows
            && (data.AddUser? ==> ComputeId(data.key) !in r.table.rows && |r'.table.rows| <= cfg.maxNodes)
            && r'.table.rows == r.table.rows[env.from := Advance(r.table.rows[env.from], env)]
               + (if data.AddUser? then map[ComputeId(data.key) := EmptyRow(data.key)] else map[])
            && |r'.log| == |r.log| + 1
            && r'.log[..|r.log|] == r.log
            && r'.log[|r.log|] == Entry(r'.log[|r.log|].maxSequence, r'.chat.messageCount, env)
            && Receive(r.table, env.from, env.message, env.id).Success?
            && r'.log[|r.log|].maxSequence == Receive(r.table, env.from, env.message, env.id).value.1
            && cfg.fits(r'.log[|r.log|])
  {
  }

  // `do_receive`: the sender's key is looked up before the envelope is opened.
  function DeliverWire(cfg: Config, r: Replica, w: Wire): Outcome {
    match w
    case Malformed => Outcome(r, Some(SerializationFault))
    case Forged(from) =>
      Outcome(r, Some(if from in r.table.rows then CryptoFault else ChannelFault(UnknownNode)))
    case Genuine(env) => Deliver(cfg, r, env)
  }

  // The loop of `receive_buffer`: known messages are skipped, anything else that goes
  // wrong ends it.
  function ReceiveAll(cfg: Config, r: Replica, frames: seq<Wire>): Outcome {
    if frames == [] then Outcome(r, None)
    else
      var before := ReceiveAll(cfg, r, frames[..|frames| - 1]);
      if before.error.Some? then before
      else
        var step := DeliverWire(cfg, before.state, frames[|frames| - 1]);
        if step.error == Some(ChannelFault(AlreadyReceived)) then Outcome(step.state, None) else step
  }

  // ------------------------------------------------------------------- replay

  function Envs(log: seq<Entry>): (envs: seq<Envelope>)
    ensures |envs| == |log|
  {
    seq(|log|, i requires 0 <= i < |log| => log[i].env)
  }

  lemma EnvsStep(cfg: Config, r: Replica, env: Envelope)
    requires Deliver(cfg, r, env).error.None?
    ensures Envs(Deliver(cfg, r, env).state.log) == Envs(r.log) + [env]
  {
    DeliverEffect(cfg, r, env);
  }

  // The state that a run of successful deliveries leads to.
  function Replay(cfg: Config, envs: seq<Envelope>): (r: Option<Replica>)
    ensures r.Some? ==> Envs(r.value.log) == envs
  {
    if envs == [] then Some(Fresh(cfg))
    else
      match Replay(cfg, envs[..|envs| - 1])
      case None => None
      case Some(r) =>
        var step := Deliver(cfg, r, envs[|envs| - 1]);
        if step.error.Some? then None
        else
          EnvsStep(cfg, r, envs[|envs| - 1]);
          Some(step.state)
  }

  // What is in memory is what the stored log replays to.
  predicate Live(cfg: Config, r: Replica) {
    Replay(cfg, Envs(r.log)) == Some(r)
  }

  lemma FreshIsLive(cfg: Config)
    ensures Live(cfg, Fresh(cfg))
  {}

  lemma LiveStep(cfg: Config, r: Replica, env: Envelope)
    requires Live(cfg, r) && Deliver(cfg, r, env).error.None?
    ensures Live(cfg, Deliver(cfg, r, env).state)
    ensures Envs(Deliver(cfg, r, env).state.log) == Envs(r.log) + [env]
  {
    EnvsStep(cfg, r, env);
    assert (Envs(r.log) + [env])[..|r.log|] == Envs(r.log);
  }

  lemma {:induction false} ReplayPrefix(cfg: Config, envs: seq<Envelope>, k: nat)
    requires Replay(cfg, envs).Some? && k <= |envs|
    ensures Replay(cfg, envs[..k]).Some?
    ensures Replay(cfg, envs[..k]).value.log == Replay(cfg, envs).value.log[..k]
  {
    if k == |envs| {
      assert envs[..k] == envs;
    } else {
      var init := envs[..|envs| - 1];
      ReplayPrefix(cfg, init, k);
      assert init[..k] == envs[..k];
      assert Replay(cfg, envs).value.log[..|init|] == Replay(cfg, init).value.log;
      assert Replay(cfg, envs).value.log[..k] == Replay(cfg, init).value.log[..k];
    }
  }

  lemma RefitDelivers(cfg: Config, cfg': Config, r: Replica, env: Envelope)
    requires cfg' == cfg.(fits := cfg'.fits) && Deliver(cfg, r, env).error.None?
    requires var r' := Deliver(cfg, r, env).state; |r'.log| == |r.log| + 1 && cfg'.fits(r'.log[|r.log|])
    ensures Deliver(cfg', r, env) == Deliver(cfg, r, env)
  {}

  /** A log that one device's storage holds is the same replica on any other device whose
      storage has room for its entries. */
  lemma {:induction false} RefitReplays(cfg: Config, cfg': Config, envs: seq<Envelope>)
    requires cfg' == cfg.(fits := cfg'.fits) && Replay(cfg, envs).Some?
    requires forall i :: 0 <= i < |envs| ==> cfg'.fits(Replay(cfg, envs).value.log[i])
    ensures Replay(cfg', envs) == Replay(cfg, envs)
  {
    hide Deliver;
    if envs != [] {
      var init, last := envs[..|envs| - 1], envs[|envs| - 1];
      var r := Replay(cfg, init).value;
      DeliverEffect(cfg, r, last);
      forall i | 0 <= i < |init| ensures cfg'.fits(r.log[i]) {
        assert Replay(cfg, envs).value.log[..|init|][i] == r.log[i];
      }
      RefitReplays(cfg, cfg', init);
      RefitDelivers(cfg, cfg', r, last);
    }
  }
}
