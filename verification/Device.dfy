/** What a client's steps mean for its replica, and how the replica's log is stored as
    records. */
module Device {
  import opened Types
  import opened Channel
  import opened Chat
  import opened Codec
  import opened Slab
  import opened SlabStorage
  import opened Search
  import opened Replicas
  import opened History
  import opened LogIndex
  import opened Recovery
  import opened Sync

  // What a client gets from its cryptography: what received bytes turn out to be, and
  // the bytes of a message sealed by a node, unless the envelope has no room for it.
  datatype Crypto = Crypto(unseal: seq<byte> -> Wire, seal: (NodeId, Message<Protocol>) -> Option<seq<byte>>)

  // Envelopes are known by their bytes, and what is sealed opens to what was sealed.
  ghost predicate Authentic(crypto: Crypto) {
    && (forall bytes :: crypto.unseal(bytes).Genuine? ==> crypto.unseal(bytes).env.wire == bytes)
    && (forall n, m :: crypto.seal(n, m).Some? ==>
          var w := crypto.unseal(crypto.seal(n, m).value);
          w.Genuine? && w.env.from == n && w.env.message == m)
  }

  function RecordOf(entry: Entry): Record {
    Record(entry.maxSequence, entry.messageCount, entry.env.message.sequence, entry.env.from, entry.env.wire)
  }

  function Records(log: seq<Entry>): (recs: seq<Record>)
    ensures |recs| == |log|
  {
    seq(|log|, i requires 0 <= i < |log| => RecordOf(log[i]))
  }

  // A fresh slab of a given size has room for the entry.
  function FitsSlab(slabSize: nat): Entry -> bool {
    (entry: Entry) => HEADER + 4 + |EncodeRecord(RecordOf(entry))| <= slabSize
  }

  /** An envelope short enough for its slab is taken whatever indexes are stored with
      it. */
  lemma ShortIsRoomy(cfg: Config, slabSize: nat, env: Envelope)
    requires cfg.fits == FitsSlab(slabSize) && |env.wire| <= U64_MAX
    requires HEADER + 4 + |env.wire| + RECORD_OVERHEAD <= slabSize
    ensures Roomy(cfg, env)
  {
    forall max, count ensures cfg.fits(Entry(max, count, env)) {
      RecordSize(RecordOf(Entry(max, count, env)));
    }
  }

  // What `do_send` does to a replica.
  function Sending(cfg: Config, crypto: Crypto, r: Replica, node: NodeId, data: Protocol): Outcome {
    match Address(r.table, node, data)
    case Failure(e) => Outcome(r, Some(ChannelFault(e)))
    case Success(m) =>
      match crypto.seal(node, m)
      case None => Outcome(r, Some(CryptoFault))
      case Some(bytes) =>
        match crypto.unseal(bytes)
        case Genuine(env) => Deliver(cfg, r, env)
        case _ => Outcome(r, Some(CryptoFault))
  }

  // The slabs a step takes a writer for: one a stored record, and one for a record that
  // turns out too large.
  function SlabsUsed(r: Replica, step: Outcome): int {
    |step.state.log| - |r.log| + if step.error == Some(StorageFault(SlabFull)) then 1 else 0
  }

  // The text of the chat message with a number, counting from one.
  function Numbered(envs: seq<Envelope>, index: u64): Result<Text, ClientError> {
    var texts := Filter(envs, Texts);
    if envs == [] || index > |texts| then Failure(MessageIndexOutOfBounds)
    else if index == 0 then Failure(Unreachable)
    else
      match texts[index - 1].message.data
      case ChatMessage(text) => Success(text)
      case _ => Failure(Unreachable)
  }

  lemma UnknownIsRefused(cfg: Config, r: Replica, env: Envelope)
    requires env.from !in r.table.rows
    ensures Deliver(cfg, r, env) == Outcome(r, Some(ChannelFault(UnknownNode)))
  {}

  lemma CountsAreKeys(log: seq<Entry>)
    ensures Keys(Records(log), (record: Record) => record.messageCount) == Counts(log)
    ensures Keys(Records(log), (record: Record) => record.maxSequence) == Maxima(log)
  {}

  // What a lookup by index finds on any log.
  function LookedUp(r: Replica, index: u64): Result<Text, ClientError> {
    var p := FirstAtLeast(Counts(r.log), index);
    if p == |r.log| then Failure(MessageIndexOutOfBounds)
    else if r.log[p].env.from !in r.table.rows then Failure(ChannelFault(UnknownNode))
    else
      match r.log[p].env.message.data
      case ChatMessage(text) => Success(text)
      case _ => Failure(Unreachable)
  }

  // The same on the records of an array, which need not be those of the log in memory.
  function StoredLookup(crypto: Crypto, t: Table, recs: seq<Record>, index: u64): Result<Text, ClientError> {
    var p := FirstAtLeast(Keys(recs, (record: Record) => record.messageCount), index);
    if p == |recs| then Failure(MessageIndexOutOfBounds)
    else
      match crypto.unseal(recs[p].data)
      case Malformed => Failure(SerializationFault)
      case Forged(from) => Failure(if from in t.rows then CryptoFault else ChannelFault(UnknownNode))
      case Genuine(env) =>
        if env.from !in t.rows then Failure(ChannelFault(UnknownNode))
        else
          match env.message.data
          case ChatMessage(text) => Success(text)
          case _ => Failure(Unreachable)
  }

  /** A stored record that is not a member's envelope is reported as it would be on arrival. */
  lemma LookupFault(crypto: Crypto, t: Table, recs: seq<Record>, index: u64)
    ensures var p := FirstAtLeast(Keys(recs, (record: Record) => record.messageCount), index);
            p < |recs| && WireFault(t, crypto.unseal(recs[p].data)).Some? ==>
              StoredLookup(crypto, t, recs, index) == Failure(WireFault(t, crypto.unseal(recs[p].data)).value)
  {}

  /** A step takes a writer for at most one slab: when it stores a record, or finds no room
      for it. */
  lemma SlabForOne(cfg: Config, r: Replica, w: Wire)
    ensures var step := DeliverWire(cfg, r, w);
            SlabsUsed(r, step) == if step.error.None? || step.error == Some(StorageFault(SlabFull)) then 1 else 0
  {}

  lemma LookupOfLog(crypto: Crypto, r: Replica, index: u64)
    requires Unseals(crypto, r.log)
    ensures StoredLookup(crypto, r.table, Records(r.log), index) == LookedUp(r, index)
  {
    CountsAreKeys(r.log);
  }

  /** On a log that memory matches it finds the message with that number. */
  lemma LiveLookup(cfg: Config, r: Replica, index: u64)
    requires Live(cfg, r) && Founded(cfg, Envs(r.log)) && cfg.maxNodes > 0
    ensures LookedUp(r, index) == Numbered(Envs(r.log), index)
  {
    var envs := Envs(r.log);
    var p := FirstAtLeast(Counts(r.log), index);
    MessageLookup(cfg, envs, index);
    if p < |envs| {
      assert envs[p] in envs;
      TableIsHistory(cfg, envs);
      assert NodeTells(r.table, envs, envs[p].from);
      FilterMember(envs, From(envs[p].from), envs[p]);
      assert index == 0 ==> envs[p].message.data.NewChannel?;
    }
  }

  function ErrorOf(r: Result<(), ClientError>): Option<ClientError> {
    if r.Failure? then Some(r.error) else None
  }

  // After the check has passed, `receive` has no reason left to fail.
  lemma CheckedReceive(t: Table, max: nat, from: NodeId, m: Message<Protocol>, id: EnvelopeId)
    requires TableValid(t, max)
    ensures Check(t, from, m).None? ==> Channel.Receive(t, from, m, id).Success?
  {
    ReceiveValid(t, max, from, m, id);
  }

  // The records of a log say of their envelopes what a client stores with them.
  ghost predicate WellIndexed(crypto: Crypto, recs: seq<Record>) {
    forall i :: 0 <= i < |recs| && crypto.unseal(recs[i].data).Genuine? ==>
      var env := crypto.unseal(recs[i].data).env;
      recs[i].sequence == env.message.sequence && recs[i].sender == env.from
  }

  ghost function FramesOf(crypto: Crypto, recs: seq<Record>): (frames: seq<Wire>)
    ensures |frames| == |recs|
  {
    seq(|recs|, i requires 0 <= i < |recs| => crypto.unseal(recs[i].data))
  }

  // The entries are what the records and the envelopes in them say.
  ghost predicate Opens(crypto: Crypto, recs: seq<Record>, log: seq<Entry>) {
    && |log| == |recs|
    && (forall i :: 0 <= i < |recs| ==>
          && crypto.unseal(recs[i].data) == Genuine(log[i].env)
          && log[i].maxSequence == recs[i].maxSequence && log[i].messageCount == recs[i].messageCount)
  }

  ghost function EntriesOf(crypto: Crypto, recs: seq<Record>): (log: seq<Entry>)
    requires forall i :: 0 <= i < |recs| ==> crypto.unseal(recs[i].data).Genuine?
    ensures Opens(crypto, recs, log)
  {
    seq(|recs|, i requires 0 <= i < |recs| =>
      Entry(recs[i].maxSequence, recs[i].messageCount, crypto.unseal(recs[i].data).env))
  }

  lemma OpensAreRecords(crypto: Crypto, recs: seq<Record>, log: seq<Entry>)
    requires Authentic(crypto) && Opens(crypto, recs, log)
    ensures Unseals(crypto, log)
    ensures WellIndexed(crypto, recs) ==> Records(log) == recs
  {
    forall i | 0 <= i < |recs| && WellIndexed(crypto, recs) ensures Records(log)[i] == recs[i] {}
  }

  // Entries that their bytes unseal to are what their records open to.
  lemma RecordsOpen(crypto: Crypto, log: seq<Entry>, log': seq<Entry>)
    requires Unseals(crypto, log) && Opens(crypto, Records(log), log')
    ensures log' == log
  {
    forall i | 0 <= i < |log| ensures log'[i] == log[i] {
      assert Records(log)[i].data == log[i].env.wire;
    }
  }

  lemma UnknownFailsCheck(t: Table, from: NodeId, m: Message<Protocol>)
    requires from !in t.rows
    ensures Check(t, from, m) == Some(UnknownNode)
  {}

  lemma {:induction false} ReopenedAreGenuine(cfg: Config, frames: seq<Wire>)
    requires Reopen(cfg, frames).Success?
    ensures forall i :: 0 <= i < |frames| ==> frames[i].Genuine?
  {
    hide Reload;
    if frames != [] {
      var init, w := frames[..|frames| - 1], frames[|frames| - 1];
      ReopenedAreGenuine(cfg, init);
      ReloadedIsGenuine(cfg, Reopen(cfg, init).value, w);
    }
  }

  lemma ReloadedIsGenuine(cfg: Config, mem: Memory, w: Wire)
    requires Reload(cfg, mem, w).Success?
    ensures w.Genuine?
  {}

  /** Storage written by a replica opens, for the key it was seeded with, to that very
      replica. */
  lemma ReopenedIsTheSame(cfg: Config, crypto: Crypto, r: Replica)
    requires Authentic(crypto) && Live(cfg, r) && cfg.maxNodes > 0 && Unseals(crypto, r.log)
    ensures WellIndexed(crypto, Records(r.log))
    ensures Reopen(cfg, FramesOf(crypto, Records(r.log))) == Success(Memory(r.table, r.chat))
    ensures forall log :: Records(log) == Records(r.log) && Unseals(crypto, log) ==> log == r.log
  {
    assert FramesOf(crypto, Records(r.log)) == Stored(Envs(r.log));
    ReopenRebuilds(cfg, Envs(r.log));
    forall log | Records(log) == Records(r.log) && Unseals(crypto, log) ensures log == r.log {
      SameRecordsSameLog(crypto, log, r.log);
    }
  }

  // Every entry's envelope is what its bytes open to.
  ghost predicate Unseals(crypto: Crypto, log: seq<Entry>) {
    forall i :: 0 <= i < |log| ==> crypto.unseal(log[i].env.wire) == Genuine(log[i].env)
  }

  lemma LogSnoc(crypto: Crypto, log: seq<Entry>, entry: Entry)
    requires Unseals(crypto, log) && crypto.unseal(entry.env.wire) == Genuine(entry.env)
    ensures Unseals(crypto, log + [entry]) && Records(log + [entry]) == Records(log) + [RecordOf(entry)]
  {}

  lemma SameRecordsSameLog(crypto: Crypto, log: seq<Entry>, log': seq<Entry>)
    requires Records(log) == Records(log') && Unseals(crypto, log) && Unseals(crypto, log')
    ensures log == log'
  {
    assert |Records(log)| == |Records(log')|;
    forall i | 0 <= i < |log| ensures log[i] == log'[i] {
      assert Records(log)[i] == Records(log')[i];
    }
  }

  // ------------------------------------------------------------- when sending works

  // What `address` makes for a member.
  function NextMessage(t: Table, node: NodeId, data: Protocol): Message<Protocol>
    requires t.newest in t.rows && node in t.rows && MaxSequence(t) < U64_MAX
  {
    Message(t.newest, t.rows[node].sequence, MaxSequence(t) + 1, data)
  }

  // A founded channel; for a chat message a number, for a new user the owner's hand and
  // a free row.
  predicate MayWrite(cfg: Config, r: Replica, node: NodeId, data: Protocol) {
    && r.log != []
    && (data.ChatMessage? ==> r.chat.messageCount < U64_MAX)
    && (data.AddUser? ==>
          && node == ComputeId(cfg.seed)
          && ComputeId(data.key) !in r.table.rows
          && |r.table.rows| < cfg.maxNodes)
  }

  // Somebody to be, room in the counter, an envelope that holds the message, and a slab
  // that holds the record.
  predicate MaySend(cfg: Config, crypto: Crypto, r: Replica, node: NodeId, data: Protocol)
    requires r.table.newest in r.table.rows
  {
    && node in r.table.rows && MaxSequence(r.table) < U64_MAX
    && MayWrite(cfg, r, node, data)
    && match crypto.seal(node, NextMessage(r.table, node, data))
       case None => false
       case Some(bytes) => crypto.unseal(bytes).Genuine? && cfg.fits(EntryFor(r, crypto.unseal(bytes).env))
  }

  lemma AddressIs(t: Table, max: nat, node: NodeId, data: Protocol)
    requires TableValid(t, max) && node in t.rows && MaxSequence(t) < U64_MAX
    ensures Address(t, node, data) == Success(NextMessage(t, node, data))
  {
    assert t.rows[node].sequence <= MaxSequence(t);
  }

  // On a founded replica the chat accepts exactly what `MaySend` allows, short of a
  // late failure.
  lemma AcceptsIff(cfg: Config, r: Replica, node: NodeId, data: Protocol)
    requires Live(cfg, r) && Founded(cfg, Envs(r.log)) && !data.NewChannel? && node in r.table.rows
    ensures Accept(r.chat, cfg.maxNodes, cfg.channel, node, data).Success? <==>
            && r.log != []
            && (data.ChatMessage? ==> r.chat.messageCount < U64_MAX)
            && (data.AddUser? ==> node == ComputeId(cfg.seed)
                                  && (ComputeId(data.key) in r.table.rows || |r.table.rows| < cfg.maxNodes))
  {
    hide Replay, Deliver;
    ChatIsHistory(cfg, Envs(r.log));
    if r.log != [] {
      MembersAreNodes(cfg, Envs(r.log));
    }
    assert |r.chat.users| == |r.chat.users.Keys| && |r.table.rows.Keys| == |r.table.rows|;
  }

  // A message made by `address` is taken exactly when its sender may write it and the
  // record fits.
  lemma AddressedTaken(cfg: Config, r: Replica, env: Envelope)
    requires TableValid(r.table, cfg.maxNodes)
    requires Live(cfg, r) && Founded(cfg, Envs(r.log)) && !env.message.data.NewChannel?
    requires env.from in r.table.rows && MaxSequence(r.table) < U64_MAX
    requires env.message == NextMessage(r.table, env.from, env.message.data)
    ensures Deliver(cfg, r, env).error.None? <==>
            MayWrite(cfg, r, env.from, env.message.data) && cfg.fits(EntryFor(r, env))
  {
    hide Deliver, Replay, Accept, TableValid, Founded;
    AddressIs(r.table, cfg.maxNodes, env.from, env.message.data);
    AddressedIsAdmitted(r.table, cfg.maxNodes, env.from, env.message.data, env.id);
    AcceptsIff(cfg, r, env.from, env.message.data);
    AcceptedOrNot(cfg, r, env);
    if FailsLate(cfg, r, env) {
      LateOutcome(cfg, r, env);
    } else if Accept(r.chat, cfg.maxNodes, cfg.channel, env.from, env.message.data).Success? {
      EarlyOutcome(cfg, r, env);
    }
  }

  lemma AcceptedOrNot(cfg: Config, r: Replica, env: Envelope)
    ensures Deliver(cfg, r, env).error.None? ==>
              Accept(r.chat, cfg.maxNodes, cfg.channel, env.from, env.message.data).Success?
  {}

  /** A send that is refused before memory has changed changes nothing at all: what cannot
      be addressed or sealed, and what would be refused on receipt. Each is reported. */
  lemma SendRefused(cfg: Config, crypto: Crypto, r: Replica, node: NodeId, data: Protocol)
    requires Authentic(crypto) && TableValid(r.table, cfg.maxNodes)
    ensures var step := Sending(cfg, crypto, r, node, data);
            && (step.error.Some? && !IsLate(step.error.value) ==> step.state == r)
            && (node !in r.table.rows ==> step.error == Some(ChannelFault(UnknownNode)))
            && (node in r.table.rows && MaxSequence(r.table) == U64_MAX ==>
                  step.error == Some(ChannelFault(SequenceOverflow)))
            && (node in r.table.rows && MaxSequence(r.table) < U64_MAX ==>
                  var wire := crypto.seal(node, NextMessage(r.table, node, data));
                  if wire.None? then step.error == Some(CryptoFault)
                  else step == Deliver(cfg, r, crypto.unseal(wire.value).env))
  {
    hide Deliver;
    if node in r.table.rows {
      assert RowValid(r.table, node);
      if MaxSequence(r.table) < U64_MAX {
        AddressIs(r.table, cfg.maxNodes, node, data);
        var wire := crypto.seal(node, NextMessage(r.table, node, data));
        if wire.Some? {
          var env := crypto.unseal(wire.value).env;
          LateByError(cfg, r, env);
          if !FailsLate(cfg, r, env) {
            EarlyOutcome(cfg, r, env);
          }
        }
      }
    }
  }

  /** So on a live replica a send leaves memory equal to the log if and only if it did not
      fail late. */
  lemma SendKeepsLive(cfg: Config, crypto: Crypto, r: Replica, node: NodeId, data: Protocol)
    requires Authentic(crypto) && Live(cfg, r) && cfg.maxNodes > 0
    ensures var step := Sending(cfg, crypto, r, node, data);
            Live(cfg, step.state) <==> step.error.None? || !IsLate(step.error.value)
  {
    hide Deliver, Replay, Authentic;
    TableStaysValid(cfg, Envs(r.log));
    SendRefused(cfg, crypto, r, node, data);
    var step := Sending(cfg, crypto, r, node, data);
    if step.state != r || step.error.None? {
      var env := SentEnvelope(cfg, crypto, r, node, data);
      MemoryMatchesLog(cfg, r, env);
      LateByError(cfg, r, env);
    } else if IsLate(step.error.value) {
      var env := SentEnvelope(cfg, crypto, r, node, data);
      MemoryMatchesLog(cfg, r, env);
      LateByError(cfg, r, env);
    }
  }

  lemma SentEnvelope(cfg: Config, crypto: Crypto, r: Replica, node: NodeId, data: Protocol) returns (env: Envelope)
    requires var step := Sending(cfg, crypto, r, node, data);
             step.state != r || step.error.None? || IsLate(step.error.value)
    ensures Sending(cfg, crypto, r, node, data) == Deliver(cfg, r, env)
  {
    hide Deliver;
    var m := Address(r.table, node, data).value;
    env := crypto.unseal(crypto.seal(node, m).value).env;
  }

  /** On a replica whose memory matches its log, a send succeeds if and only if it may be
      made: no other branch of `do_send` can be taken. */
  lemma SendsSucceedIff(cfg: Config, crypto: Crypto, r: Replica, node: NodeId, data: Protocol)
    requires Authentic(crypto) && Live(cfg, r) && Founded(cfg, Envs(r.log))
    requires cfg.maxNodes > 0 && !data.NewChannel?
    ensures TableValid(r.table, cfg.maxNodes)
    ensures Sending(cfg, crypto, r, node, data).error.None? <==> MaySend(cfg, crypto, r, node, data)
  {
    hide Deliver, Replay, MayWrite, Founded, EntryFor;
    TableStaysValid(cfg, Envs(r.log));
    AddressedIsAdmitted(r.table, cfg.maxNodes, node, data, NO_ENVELOPE);
    if node in r.table.rows && MaxSequence(r.table) < U64_MAX {
      AddressIs(r.table, cfg.maxNodes, node, data);
      var sealedBytes := crypto.seal(node, NextMessage(r.table, node, data));
      if sealedBytes.Some? {
        AddressedTaken(cfg, r, crypto.unseal(sealedBytes.value).env);
      }
    }
  }
}
