/** A device that lost its memory: what opens from the bytes it left behind, and what the
    first message after that does to them. */
module Restart {
  import opened Types
  import opened Channel
  import opened Chat
  import opened Codec
  import opened Slab
  import opened SlabStorage
  import opened ChannelTable
  import opened Replicas
  import opened Search
  import opened History
  import opened LogIndex
  import opened Recovery
  import opened Device
  import opened Client

  lemma StoredFrames(crypto: Crypto, log: seq<Entry>)
    requires Unseals(crypto, log)
    ensures FramesOf(crypto, Records(log)) == Stored(Envs(log))
  {}

  lemma RecordsPrefix(crypto: Crypto, log: seq<Entry>, recs: seq<Record>)
    requires Unseals(crypto, log) && recs <= Records(log)
    ensures Records(log[..|recs|]) == recs && Unseals(crypto, log[..|recs|])
    ensures Envs(log[..|recs|]) == Envs(log)[..|recs|]
  {
    forall i | 0 <= i < |recs| ensures Records(log[..|recs|])[i] == recs[i] {
      assert recs[i] == Records(log)[i];
    }
  }

  // How much of a log an array shows to a reader at its head.
  ghost function ShownRecords(io: MemIO): nat
    reads io
  {
    |Flat(Shown(io))|
  }

  lemma ShownOfAll(io: MemIO)
    requires NoneEmpty(io.slabs) && Flat(io.slabs) != [] && io.slabCount <= |io.slabs|
    ensures 0 < ShownRecords(io) <= |Flat(io.slabs)| && Flat(Shown(io)) <= Flat(io.slabs)
    ensures ShownRecords(io) == |Flat(io.slabs)| <==> Shown(io) == io.slabs
    ensures ShownStop(io) == Success(())
  {
    hide Flat;
    EmptyFlat();
    ShownIsCounted(io);
    var visible := |Shown(io)|;
    FlatPrefix(io.slabs, visible);
    FlatAt(io.slabs[..visible], 0);
    AllIsVisible(io.slabs, visible);
  }

  lemma EmptyFlat()
    ensures Flat([]) == []
  {}

  /** The beginning of a log opens if and only if it replays and the opener founded it. */
  lemma PrefixOpens(cfg: Config, crypto: Crypto, log: seq<Entry>, n: nat, key: PubKey)
    requires Unseals(crypto, log) && cfg.maxNodes > 0
    requires 0 < n <= |log| && log[0].env.from == ComputeId(cfg.seed)
    ensures var result := Reopen(cfg.(seed := key), FramesOf(crypto, Records(log[..n])));
            if key != cfg.seed then result == Failure(ChannelFault(UnknownNode))
            else
              match Replay(Roomiest(cfg), Envs(log)[..n])
              case Some(x) => result == Success(Memory(x.table, x.chat))
              case None => result.Failure?
  {
    hide Deliver, Replay, Reopen, FramesOf, Stored;
    assert Envs(log[..n]) == Envs(log)[..n];
    StoredFrames(crypto, log[..n]);
    ReopenOnlyByFounder(cfg, Envs(log[..n]), key);
    OpensIfReplays(cfg, Envs(log[..n]));
    assert key == cfg.seed ==> cfg.(seed := key) == cfg;
  }

  lemma LivePrefix(cfg: Config, r: Replica, n: nat)
    requires Live(cfg, r) && n <= |r.log|
    ensures Replay(Roomiest(cfg), Envs(r.log)[..n]).Some?
    ensures var x := Replay(Roomiest(cfg), Envs(r.log)[..n]).value;
            x.log == r.log[..n] && Live(cfg, x)
  {
    hide Deliver, Replay;
    ReplayPrefix(cfg, Envs(r.log), n);
    ReplaysAnywhere(cfg, Envs(r.log)[..n]);
  }

  // An array with the records a client left opens for the founder if and only if those it
  // shows replay, and then to the replay of them: what the client had in memory if and only
  // if it shows every slab and memory matched the log. Any other key is turned away at the
  // first record.
  method OpenAgain(before: Client, key: PubKey, io: MemIO) returns (r: Result<Client, ClientError>)
    requires before.Valid() && before.log != [] && before.log[0].env.from == ComputeId(before.seed)
    requires io.Valid() && io.slabs == before.storage.io.slabs && io.slabSize == before.storage.io.slabSize
    ensures key != before.seed ==> r == Failure(ChannelFault(UnknownNode))
    ensures ShownRecords(io) <= |before.log|
    ensures key == before.seed ==>
              var replayed := Replay(Roomiest(before.Cfg()), Envs(before.log)[..ShownRecords(io)]);
              && (r.Success? <==> replayed.Some?)
              && (r.Success? ==>
                    && fresh(r.value) && fresh(r.value.state) && fresh(r.value.chat)
                    && r.value.Usable() && (io.Counted() ==> r.value.Valid())
                    && r.value.storage.io == io && r.value.Cfg() == before.Cfg() && r.value.node == ComputeId(key)
                    && r.value.Held()
                       == Replica(replayed.value.table, replayed.value.chat, before.log[..ShownRecords(io)]))
              && ((r.Success? && r.value.Held() == before.Held())
                  <==> Shown(io) == io.slabs && Recalled(before.Cfg(), before.Held()))
              && (Live(before.Cfg(), before.Held()) ==> r.Success? && Live(before.Cfg(), r.value.Held()))
  {
    hide Deliver, Replay, Stores, StoresBut, TableValid, Sorted, Rows, FitsSlab, Flat, Reopen, SlabTotal, Founded;
    hide FramesOf, Stored, Unseals, Authentic, WellIndexed, NoneEmpty, Opens, Records, Shown;
    ghost var cfg, held := before.Cfg(), before.Held();
    ghost var opening := Config(before.channelId, key, before.state.maxNodes, FitsSlab(io.slabSize));
    assert cfg.(seed := key) == opening;
    HasRoom(before.state.Table(), before.state.maxNodes);
    ShownOfAll(io);
    ghost var n := ShownRecords(io);
    RecordsPrefix(before.crypto, before.log, Flat(Shown(io)));
    PrefixOpens(cfg, before.crypto, before.log, n, key);
    WrittenIsIndexed(before.crypto, before.log);
    if Live(cfg, held) {
      LivePrefix(cfg, held, n);
    }
    assert Envs(before.log)[..|before.log|] == Envs(before.log);
    r := OpenChat(before.crypto, key, before.channelId, before.state.maxNodes, io);
    if r.Success? {
      RecordsOpen(before.crypto, before.log[..n], r.value.log);
      assert |r.value.log| == n;
    }
  }

  lemma WrittenIsIndexed(crypto: Crypto, log: seq<Entry>)
    requires Unseals(crypto, log)
    ensures WellIndexed(crypto, Records(log))
  {
    forall i | 0 <= i < |log| ensures crypto.unseal(Records(log)[i].data) == Genuine(log[i].env) {}
  }

  // `MemIO::new` over the bytes a client left counts no slab, so the first one is all that
  // comes back: what the client had if and only if it never wrote a second and memory
  // matched the log.
  method OpenBytes(before: Client, key: PubKey) returns (r: Result<Client, ClientError>)
    requires before.Valid() && before.log != [] && before.log[0].env.from == ComputeId(before.seed)
    ensures key != before.seed ==> r == Failure(ChannelFault(UnknownNode))
    ensures |before.storage.io.slabs| > 0 && |before.storage.io.slabs[0]| <= |before.log|
    ensures key == before.seed ==>
              var n := |before.storage.io.slabs[0]|;
              var replayed := Replay(Roomiest(before.Cfg()), Envs(before.log)[..n]);
              && (r.Success? <==> replayed.Some?)
              && (r.Success? ==>
                    && fresh(r.value) && r.value.Usable() && r.value.Cfg() == before.Cfg()
                    && fresh(r.value.storage.io) && r.value.storage.io.Valid()
                    && r.value.storage.io.data == before.storage.io.data
                    && r.value.storage.io.slabs == before.storage.io.slabs && r.value.storage.io.slabCount == 0
                    && r.value.Held() == Replica(replayed.value.table, replayed.value.chat, before.log[..n]))
              && ((r.Success? && r.value.Held() == before.Held())
                  <==> |before.storage.io.slabs| == 1 && Recalled(before.Cfg(), before.Held()))
              && (Live(before.Cfg(), before.Held()) ==> r.Success? && Live(before.Cfg(), r.value.Held()))
  {
    hide Deliver, Replay, Stores, StoresBut, TableValid, Sorted, Rows, FitsSlab, Flat, SlabTotal, Founded;
    hide Unseals, Authentic, Records, Recalled;
    EmptyFlat();
    assert Flat(before.storage.io.slabs) != [];
    var made := MemIO.New(before.storage.io.data, before.storage.io.slabSize, before.storage.io.slabs);
    FirstShown(made.value);
    r := OpenAgain(before, key, made.value);
  }

  lemma FirstShown(io: MemIO)
    requires io.slabs != [] && io.slabs[0] != [] && io.slabCount == 0
    ensures Shown(io) == [io.slabs[0]] && Flat(Shown(io)) == io.slabs[0] && ShownStop(io) == Success(())
    ensures Shown(io) == io.slabs <==> |io.slabs| == 1
  {
    assert Flat([io.slabs[0]][..0]) == [];
  }

  /** What a device whose memory is only the beginning of a stored log finds by an index: the
      message with that number in the whole log, whether or not its own counter has come so
      far, unless it does not know the author. */
  lemma LooksBeyond(cfg: Config, crypto: Crypto, r: Replica, t: Table, index: u64)
    requires Live(cfg, r) && Founded(cfg, Envs(r.log)) && cfg.maxNodes > 0 && Unseals(crypto, r.log)
    ensures var p := FirstAtLeast(Counts(r.log), index);
            StoredLookup(crypto, t, Records(r.log), index)
            == if p < |r.log| && r.log[p].env.from !in t.rows then Failure(ChannelFault(UnknownNode))
               else Numbered(Envs(r.log), index)
  {
    hide Replay, Numbered, Founded, Records, StoredLookup, Unseals;
    LookupOfLog(crypto, r.(table := t), index);
    LiveLookup(cfg, r, index);
    var p := FirstAtLeast(Counts(r.log), index);
    if p < |r.log| {
      AuthorIsNode(cfg, r, p);
    }
  }

  lemma AuthorIsNode(cfg: Config, r: Replica, p: nat)
    requires Live(cfg, r) && p < |r.log|
    ensures r.log[p].env.from in r.table.rows
  {
    hide Replay, Filter;
    TableIsHistory(cfg, Envs(r.log));
    var e := Envs(r.log)[p];
    assert NodeTells(r.table, Envs(r.log), e.from) && e in Envs(r.log);
    FilterMember(Envs(r.log), From(e.from), e);
  }

  // ------------------------------------------------------- the first record afterwards

  // A founder's later message says that something of its own comes before it.
  lemma SentContinues(cfg: Config, crypto: Crypto, r: Replica, node: NodeId, data: Protocol)
    requires Authentic(crypto) && Live(cfg, r) && r.log != []
    requires node == ComputeId(cfg.seed) && Sending(cfg, crypto, r, node, data).error.None?
    ensures var x := Sending(cfg, crypto, r, node, data).state;
            && |x.log| == |r.log| + 1 && node in r.table.rows
            && var e := x.log[|r.log|].env;
               && e.from == node
               && 0 < e.message.senderLast == r.table.rows[node].sequence < e.message.sequence
  {
    hide Deliver, Replay, Accept, Receive, Filter;
    var m := Address(r.table, node, data).value;
    var env := crypto.unseal(crypto.seal(node, m).value).env;
    DeliverEffect(cfg, r, env);
    TableIsHistory(cfg, Envs(r.log));
    assert NodeTells(r.table, Envs(r.log), node);
    Sync.FirstIsFounder(cfg, Envs(r.log));
    FilterMember(Envs(r.log), From(node), Envs(r.log)[0]);
    LinkedPositive(Chain(Envs(r.log), node));
  }

  lemma {:induction false} OneRecord(cfg: Config, w: Wire)
    ensures Reopen(cfg, [w]) == Reload(cfg, Memory(Seeded(cfg.seed), EmptyChat(cfg.channel)), w)
  {
    assert [w][..0] == [];
    assert Reopen(cfg, [w][..0]) == Success(Memory(Seeded(cfg.seed), EmptyChat(cfg.channel)));
  }

  lemma ContinuationDoesNotOpen(cfg: Config, e: Envelope)
    requires 0 < e.message.senderLast < e.message.sequence
    ensures Reopen(cfg, [Genuine(e)])
            == Failure(ChannelFault(
                 if e.from == ComputeId(cfg.seed) then MissingFromSender(e.from, 0, e.message.senderLast)
                 else UnknownNode))
  {
    OneRecord(cfg, Genuine(e));
  }

  // The first message of a channel, by whoever holds the key.
  predicate FoundsFor(e: Envelope, key: PubKey) {
    e.from == ComputeId(key) && e.message.senderLast == 0 && e.message.sequence == 1 && e.message.data.NewChannel?
  }

  /** A log of one record opens for a key if and only if that record founds a channel and is
      the key's own. */
  lemma OneRecordOpens(cfg: Config, e: Envelope)
    requires cfg.maxNodes > 0
    ensures Reopen(cfg, [Genuine(e)]).Success? <==> FoundsFor(e, cfg.seed)
  {
    OneRecord(cfg, Genuine(e));
    hide Reopen;
    SeededValid(cfg.seed, cfg.maxNodes);
    CheckedReceive(Seeded(cfg.seed), cfg.maxNodes, e.from, e.message, e.id);
  }

  // A device over bytes that `MemIO::new` has not counted takes in a message, and then
  // somebody opens the bytes. The message took the place of the first record, so they open
  // for nobody, unless it founds a channel itself.
  method ReceiveAfterRestart(client: Client, bytes: seq<byte>, key: PubKey)
    returns (got: Result<(), ClientError>, again: Result<Client, ClientError>)
    requires client.Usable() && client.storage.io.Valid()
    requires client.storage.io.slabCount == 0 && client.storage.io.slabs != []
    requires var step := DeliverWire(client.Cfg(), client.Held(), client.crypto.unseal(bytes));
             client.Free() >= SlabsUsed(client.Held(), step)
    modifies client`log, client.state, client.chat, client.storage.io, client.storage.io.data
    ensures got.Success? ==>
              && client.log != []
              && var last := client.log[|client.log| - 1];
                 && client.crypto.unseal(bytes) == Genuine(last.env)
                 && client.storage.io.slabs == old(client.storage.io.slabs)[0 := [RecordOf(last)]]
                 && (again.Success? <==> FoundsFor(last.env, key))
  {
    hide Deliver, Stores, StoresBut, TableValid, Sorted, Rows, FitsSlab, SlabTotal, Reopen, Records, Flat, FoundsFor;
    ghost var cfg, held := client.Cfg(), client.Held();
    got := client.DoReceive(bytes);
    if got.Failure? {
      return got, Failure(got.error);
    }
    ReceivedIsLast(cfg, held, client.crypto.unseal(bytes));
    again := OpenReplaced(client, key);
  }

  lemma ReceivedIsLast(cfg: Config, r: Replica, w: Wire)
    requires DeliverWire(cfg, r, w).error.None?
    ensures var x := DeliverWire(cfg, r, w).state;
            x.log != [] && w == Genuine(x.log[|x.log| - 1].env)
  {}

  // Opening bytes whose first slab holds the last message taken in.
  method OpenReplaced(client: Client, key: PubKey) returns (again: Result<Client, ClientError>)
    requires client.Usable() && client.storage.io.Valid() && client.log != []
    requires client.storage.io.slabs != []
    requires client.storage.io.slabs[0] == [RecordOf(client.log[|client.log| - 1])]
    ensures var e := client.log[|client.log| - 1].env;
            && (again.Success? <==> FoundsFor(e, key))
            && (0 < e.message.senderLast < e.message.sequence ==>
                  again == Failure(ChannelFault(
                    if e.from == ComputeId(key) then MissingFromSender(e.from, 0, e.message.senderLast)
                    else UnknownNode)))
  {
    hide Stores, StoresBut, TableValid, Sorted, Rows, FitsSlab, SlabTotal, Reopen, Records, Flat, FoundsFor;
    ghost var last := client.log[|client.log| - 1];
    var made := MemIO.New(client.storage.io.data, client.storage.io.slabSize, client.storage.io.slabs);
    FirstShown(made.value);
    assert FramesOf(client.crypto, [RecordOf(last)]) == [Genuine(last.env)];
    HasRoom(client.state.Table(), client.state.maxNodes);
    ghost var opening := Config(client.channelId, key, client.state.maxNodes, FitsSlab(made.value.slabSize));
    OneRecordOpens(opening, last.env);
    if 0 < last.env.message.senderLast < last.env.message.sequence {
      ContinuationDoesNotOpen(opening, last.env);
    }
    again := OpenChat(client.crypto, key, client.channelId, client.state.maxNodes, made.value);
  }

  // The founder opens bytes that `MemIO::new` has not counted, sends one message, and opens
  // the bytes again. The log is lost to everybody.
  method SendAfterRestart(client: Client, data: Protocol, key: PubKey)
    returns (sent: Result<(), ClientError>, again: Result<Client, ClientError>)
    requires client.Usable() && client.storage.io.Valid()
    requires Live(client.Cfg(), client.Held()) && client.log != []
    requires client.node == ComputeId(client.seed)
    requires client.storage.io.slabCount == 0 && client.storage.io.slabs != []
    requires var made := Sending(client.Cfg(), client.crypto, client.Held(), client.node, data);
             client.Free() >= SlabsUsed(client.Held(), made)
    modifies client`log, client.state, client.chat, client.storage.io, client.storage.io.data
    ensures sent.Success? ==>
              && client.log != []
              && var last := client.log[|client.log| - 1];
                 && client.log == old(client.log) + [last]
                 && client.storage.io.slabs == old(client.storage.io.slabs)[0 := [RecordOf(last)]]
                 && again == Failure(ChannelFault(
                      if key == client.seed then MissingFromSender(client.node, 0, last.env.message.senderLast)
                      else UnknownNode))
  {
    hide Deliver, Replay, Stores, StoresBut, TableValid, Sorted, Rows, FitsSlab, SlabTotal, Sending, Reopen;
    hide Records, Flat, FoundsFor;
    ghost var cfg, held := client.Cfg(), client.Held();
    sent := client.DoSend(data);
    if sent.Failure? {
      return sent, Failure(sent.error);
    }
    SentContinues(cfg, client.crypto, held, client.node, data);
    SentAppends(cfg, client.crypto, held, client.node, data);
    again := OpenReplaced(client, key);
  }

  lemma SentAppends(cfg: Config, crypto: Crypto, r: Replica, node: NodeId, data: Protocol)
    requires Sending(cfg, crypto, r, node, data).error.None?
    ensures var x := Sending(cfg, crypto, r, node, data).state;
            |x.log| == |r.log| + 1 && x.log == r.log + [x.log[|r.log|]]
  {}
}
