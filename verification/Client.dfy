/** A device: the channel, chat and storage it updates in place, step by step, and the
    messages of the sync protocol. */
module Client {
  import opened Types
  import opened Channel
  import opened Chat
  import opened Codec
  import opened Slab
  import opened SlabStorage
  import opened ChannelTable
  import opened ChatRoom
  import opened Search
  import opened Replicas
  import opened Recovery
  import opened Clocks
  import opened Device
  import opened Framing

  class Client {
    const crypto: Crypto
    const node: NodeId
    const channelId: ChannelId
    const state: ChannelState
    const chat: ChatRoom
    const storage: Storage
    // The key the table was seeded with, and the entries behind the stored records.
    ghost const seed: PubKey
    ghost var log: seq<Entry>

    // Memory is in order, and the storage can be written. The log is what memory took in,
    // whether or not it is still stored.
    ghost predicate Usable()
      reads this, state, chat, storage.io, storage.io.data
    {
      && Authentic(crypto)
      && state.Valid()
      && chat.id == channelId && chat.maxUsers == state.maxNodes
      && storage.io.Usable()
      && Unseals(crypto, log)
    }

    // The storage holds exactly the log, and counts every slab of it.
    ghost predicate Valid()
      reads this, state, chat, storage.io, storage.io.data
    {
      && Usable()
      && storage.io.Valid() && storage.io.Counted() && NoneEmpty(storage.io.slabs)
      && Flat(storage.io.slabs) == Records(log)
    }

    // What a step has done to the storage: nothing, or one slab written over the one the
    // count points at.
    ghost predicate Wrote(slabs: seq<seq<Record>>, count: nat, stored: bool)
      reads this, storage.io
      requires count <= |slabs|
    {
      if stored then
        log != [] && storage.io.slabCount == count + 1
        && storage.io.slabs == Put(slabs, count, [RecordOf(log[|log| - 1])])
      else storage.io.slabCount == count && storage.io.slabs == slabs
    }

    ghost function Cfg(): Config {
      Config(channelId, seed, state.maxNodes, FitsSlab(storage.io.slabSize))
    }

    ghost function Held(): Replica
      reads this, state, chat
    {
      Replica(state.Table(), chat.State(), log)
    }

    // Slabs that may still be written.
    ghost function Free(): int
      reads storage.io
    {
      storage.io.maxIndex - storage.io.slabCount
    }

    constructor (crypto: Crypto, node: NodeId, channelId: ChannelId, state: ChannelState, chat: ChatRoom,
                 storage: Storage, ghost seed: PubKey, ghost log: seq<Entry>)
      ensures this.crypto == crypto && this.node == node && this.channelId == channelId
      ensures this.state == state && this.chat == chat && this.storage == storage
      ensures this.seed == seed && this.log == log
    {
      this.crypto := crypto;
      this.node := node;
      this.channelId := channelId;
      this.state := state;
      this.chat := chat;
      this.storage := storage;
      this.seed := seed;
      this.log := log;
    }

    // -store it: one record in a slab of its own.
    method Store(maxSequence: u64, ghost env: Envelope, sequence: u64, from: NodeId, bytes: seq<byte>)
      returns (r: Result<(), StorageError>)
      requires Usable() && Free() > 0
      requires crypto.unseal(bytes) == Genuine(env) && env.wire == bytes
      requires env.from == from && env.message.sequence == sequence
      modifies this`log, storage.io, storage.io.data
      ensures Usable() && (old(Valid()) ==> Valid()) && (r.Success? ==> storage.io.Valid())
      ensures var entry := Entry(maxSequence, chat.messageCount, env);
              if Cfg().fits(entry) then r == Success(()) && log == old(log) + [entry]
              else r == Failure(SlabFull) && log == old(log)
      ensures Wrote(old(storage.io.slabs), old(storage.io.slabCount), r.Success?)
      ensures Free() + |log| == old(Free() + |log|)
    {
      hide Stores, StoresBut, Flat, Layout, TableValid, Sorted, Rows, EncodeRecord, SlabStart, SlabTotal, Authentic;
      hide Records, Unseals, InOrder, IsGreatest, ReadU32, ReadU64, HasAt, SameOutside;
      var record := Record(maxSequence, chat.messageCount, sequence, from, bytes);
      ghost var entry := Entry(maxSequence, chat.messageCount, env);
      ghost var slabs := storage.io.slabs;
      var writer := storage.GetWriter();
      var wrote := writer.WriteRecord(record);
      if wrote.Failure? {
        return Failure(SlabFull);
      }
      assert writer.pending == [record];
      writer.Commit();
      ValidIsUsable(storage.io);
      FlatSnoc(slabs, [record]);
      LogSnoc(crypto, log, entry);
      log := log + [entry];
      return Success(());
    }

    // The part that sending and receiving share: check, accept, receive, add, store.
    method TakeIn(ghost env: Envelope, from: NodeId, message: Message<Protocol>, id: EnvelopeId, bytes: seq<byte>)
      returns (r: Result<(), ClientError>)
      requires Usable() && Free() >= SlabsUsed(Held(), Deliver(Cfg(), Held(), env))
      requires crypto.unseal(bytes) == Genuine(env) && env == Envelope(bytes, id, from, message)
      modifies this`log, state, chat, storage.io, storage.io.data
      ensures Usable() && (old(Valid()) ==> Valid()) && (r.Success? ==> storage.io.Valid())
      ensures Outcome(Held(), ErrorOf(r)) == Deliver(Cfg(), old(Held()), env)
      ensures Wrote(old(storage.io.slabs), old(storage.io.slabCount), r.Success?)
      ensures Free() + |log| == old(Free() + |log|)
    {
      hide Stores, StoresBut, Flat, TableValid, Sorted, Rows, Authentic, FitsSlab, SlabTotal, Records;
      hide Check, Accept, Channel.Receive, Channel.AddNode;
      ghost var table, room := state.Table(), chat.State();
      CheckedReceive(table, state.maxNodes, from, message, id);
      var checked := state.CheckReceive(from, message);
      if checked.Failure? {
        return Failure(ChannelFault(checked.error));
      }
      var accepted := chat.AcceptMessage(channelId, from, message.data);
      if accepted.Failure? {
        return Failure(ChatFault(accepted.error));
      }
      var received := state.Receive(from, message, id);
      if received.Failure? {
        return Failure(Unreachable);
      }
      if accepted.value.UserAdded? {
        var added := state.AddNode(accepted.value.key);
        if added.Failure? {
          return Failure(ChannelFault(added.error));
        }
      }
      var stored := Store(received.value, env, message.sequence, from, bytes);
      if stored.Failure? {
        return Failure(StorageFault(stored.error));
      }
      return Success(());
    }

    method DoReceive(bytes: seq<byte>) returns (r: Result<(), ClientError>)
      requires Usable() && Free() >= SlabsUsed(Held(), DeliverWire(Cfg(), Held(), crypto.unseal(bytes)))
      modifies this`log, state, chat, storage.io, storage.io.data
      ensures Usable() && (old(Valid()) ==> Valid()) && (r.Success? ==> storage.io.Valid())
      ensures Outcome(Held(), ErrorOf(r)) == DeliverWire(Cfg(), old(Held()), crypto.unseal(bytes))
      ensures r.Failure? && !IsLate(r.error) ==> Held() == old(Held())
      ensures Wrote(old(storage.io.slabs), old(storage.io.slabCount), r.Success?)
      ensures Free() + |log| == old(Free() + |log|)
    {
      hide Deliver, Stores, StoresBut, Flat, Sorted, Rows, FitsSlab, SlabTotal, Records;
      WireRefused(Cfg(), Held(), crypto.unseal(bytes));
      var sealedEnvelope := crypto.unseal(bytes);
      match sealedEnvelope {
        case Malformed =>
          return Failure(SerializationFault);
        case Forged(from) =>
          var key := state.GetNodeKey(from);
          if key.Failure? {
            return Failure(ChannelFault(key.error));
          }
          return Failure(CryptoFault);
        case Genuine(env) =>
          var key := state.GetNodeKey(env.from);
          if key.Failure? {
            UnknownIsRefused(Cfg(), Held(), env);
            return Failure(ChannelFault(key.error));
          }
          r := TakeIn(env, env.from, env.message, env.id, bytes);
      }
    }

    method DoSend(data: Protocol) returns (r: Result<(), ClientError>)
      requires Usable() && Free() >= SlabsUsed(Held(), Sending(Cfg(), crypto, Held(), node, data))
      modifies this`log, state, chat, storage.io, storage.io.data
      ensures Usable() && (old(Valid()) ==> Valid()) && (r.Success? ==> storage.io.Valid())
      ensures Outcome(Held(), ErrorOf(r)) == Sending(Cfg(), crypto, old(Held()), node, data)
      ensures r.Failure? && !IsLate(r.error) ==> Held() == old(Held())
      ensures Wrote(old(storage.io.slabs), old(storage.io.slabCount), r.Success?)
      ensures Free() + |log| == old(Free() + |log|)
    {
      hide Deliver, Stores, StoresBut, Flat, Sorted, Rows, FitsSlab, SlabTotal, Records, Channel.Address;
      SendRefused(Cfg(), crypto, Held(), node, data);
      var addressed := state.Address(node, data);
      if addressed.Failure? {
        return Failure(ChannelFault(addressed.error));
      }
      var sealing := crypto.seal(node, addressed.value);
      if sealing.None? {
        return Failure(CryptoFault);
      }
      var env := crypto.unseal(sealing.value).env;
      r := TakeIn(env, node, addressed.value, env.id, sealing.value);
    }

    method SendMessage(text: Text) returns (r: Result<(), ClientError>)
      requires Usable()
      requires |text| <= 1024 ==>
                 Free() >= SlabsUsed(Held(), Sending(Cfg(), crypto, Held(), node, ChatMessage(text)))
      modifies this`log, state, chat, storage.io, storage.io.data
      ensures Usable() && (old(Valid()) ==> Valid()) && (r.Success? ==> storage.io.Valid())
      ensures |text| > 1024 ==> r == Failure(MessageTooLarge) && Held() == old(Held())
      ensures |text| <= 1024 ==>
                Outcome(Held(), ErrorOf(r)) == Sending(Cfg(), crypto, old(Held()), node, ChatMessage(text))
      ensures r.Failure? && !IsLate(r.error) ==> Held() == old(Held())
      ensures Wrote(old(storage.io.slabs), old(storage.io.slabCount), r.Success?)
      ensures Free() + |log| == old(Free() + |log|)
    {
      if |text| > CHAT_MAX {
        return Failure(MessageTooLarge);
      }
      r := DoSend(ChatMessage(text));
    }

    method AddNode(key: PubKey, name: Text) returns (r: Result<(), ClientError>)
      requires Usable()
      requires |name| <= 128 ==>
                 Free() >= SlabsUsed(Held(), Sending(Cfg(), crypto, Held(), node, AddUser(name, key)))
      modifies this`log, state, chat, storage.io, storage.io.data
      ensures Usable() && (old(Valid()) ==> Valid()) && (r.Success? ==> storage.io.Valid())
      ensures |name| > 128 ==> r == Failure(MessageTooLarge) && Held() == old(Held())
      ensures |name| <= 128 ==>
                Outcome(Held(), ErrorOf(r)) == Sending(Cfg(), crypto, old(Held()), node, AddUser(name, key))
      ensures r.Failure? && !IsLate(r.error) ==> Held() == old(Held())
      ensures Wrote(old(storage.io.slabs), old(storage.io.slabCount), r.Success?)
      ensures Free() + |log| == old(Free() + |log|)
    {
      if |name| > NAME_MAX {
        return Failure(MessageTooLarge);
      }
      r := DoSend(AddUser(name, key));
    }

    // What the first stored record that reaches the index says, after its author's key is
    // looked up.
    method GetMessage(index: u64) returns (r: Result<Text, ClientError>)
      requires Usable() && storage.io.Valid()
      ensures r == StoredLookup(crypto, state.Table(), Flat(storage.io.slabs), index)
      ensures Valid() ==> r == LookedUp(Held(), index)
    {
      hide Stores, StoresBut, Sorted, FitsSlab, SlabTotal, TableValid, SlabStart, At, Flat, Rows, Records;
      hide LookedUp, Unseals, Authentic;
      ghost var recs := Flat(storage.io.slabs);
      ghost var p := FirstAtLeast(Keys(recs, (record: Record) => record.messageCount), index);
      if Valid() {
        LookupOfLog(crypto, Held(), index);
      }
      var cursor := storage.GetCursorFromIndex(index);
      if cursor.value.None? {
        return Failure(MessageIndexOutOfBounds);
      }
      var found := storage.Read(cursor.value.value, p);
      var bytes := found.value.value.0;
      assert bytes == recs[p].data;
      match crypto.unseal(bytes) {
        case Malformed =>
          return Failure(SerializationFault);
        case Forged(from) =>
          var key := state.GetNodeKey(from);
          return Failure(if key.Success? then CryptoFault else ChannelFault(UnknownNode));
        case Genuine(env) =>
          var key := state.GetNodeKey(env.from);
          if key.Failure? {
            return Failure(ChannelFault(UnknownNode));
          }
          if !env.message.data.ChatMessage? {
            return Failure(Unreachable);
          }
          return Success(env.message.data.text);
      }
    }

    // ------------------------------------------------------------------- sync

    method FinishSyncRequest() returns (clocks: seq<Clock>)
      requires state.Valid()
      ensures clocks == Requested(state.nodes)
      ensures IsClockOf(clocks, state.Table())
    {
      clocks := [];
      for i := 0 to |state.nodes|
        invariant clocks == Requested(state.nodes[..i])
      {
        clocks := clocks + [Clock(state.nodes[i].node, state.nodes[i].sequence)];
      }
      assert state.nodes[..|state.nodes|] == state.nodes;
      RequestTellsTable(state.nodes, state.newest);
    }

    method StartSyncResponse(request: seq<Clock>) returns (r: Result<seq<Clock>, ClientError>)
      requires Usable()
      ensures r == if |Merge(state.nodes, request)| <= state.maxNodes then Success(Merge(state.nodes, request))
                   else Failure(Unreachable)
      ensures Ascends(request) ==>
                && (r.Success? <==> |NodesIn(state.nodes) + NodesOf(request)| <= state.maxNodes)
                && (r.Success? ==> IsMergedClock(r.value, state.Table().rows, request))
    {
      hide Stores, StoresBut, Flat, Rows, TableValid, FitsSlab, SlabTotal, Records, IsMergedClock, NodesIn, NodesOf;
      hide Merge, Sorted, Ascends, Rest;
      ghost var whole := Merge(state.nodes, request);
      if Ascends(request) {
        MergeIsMergedClock(state.nodes, request);
        MergeSize(state.nodes, request);
      }
      RestIsAll(state.nodes, request);
      var clocks: seq<Clock> := [];
      var requestIndex := 0;
      label outer:
      for i := 0 to |state.nodes|
        invariant requestIndex <= |request| && |clocks| <= state.maxNodes
        invariant clocks + Rest(state.nodes, request, i, requestIndex) == whole
      {
        var mine := state.nodes[i];
        while requestIndex < |request|
          invariant requestIndex <= |request| && |clocks| <= state.maxNodes
          invariant clocks + Rest(state.nodes, request, i, requestIndex) == whole
        {
          var theirs := request[requestIndex];
          if theirs.node > mine.node {
            break;
          }
          // The request's entry, whether or not this node has the same one.
          MergeTurn(state.nodes, request, i, requestIndex);
          ghost var next := if theirs.node == mine.node then i + 1 else i;
          Moved(clocks, theirs, Rest(state.nodes, request, next, requestIndex + 1), whole);
          if |clocks| >= state.maxNodes {
            return Failure(Unreachable);
          }
          clocks := clocks + [theirs];
          requestIndex := requestIndex + 1;
          if theirs.node == mine.node {
            continue outer;
          }
        }
        MergeTurn(state.nodes, request, i, requestIndex);
        Moved(clocks, FirstClock(mine), Rest(state.nodes, request, i + 1, requestIndex), whole);
        if |clocks| >= state.maxNodes {
          return Failure(Unreachable);
        }
        clocks := clocks + [FirstClock(mine)];
      }
      while requestIndex < |request|
        invariant requestIndex <= |request| && |clocks| <= state.maxNodes
        invariant clocks + Rest(state.nodes, request, |state.nodes|, requestIndex) == whole
      {
        MergeRest(state.nodes, request, requestIndex);
        Moved(clocks, request[requestIndex], Rest(state.nodes, request, |state.nodes|, requestIndex + 1), whole);
        if |clocks| >= state.maxNodes {
          return Failure(Unreachable);
        }
        clocks := clocks + [request[requestIndex]];
        requestIndex := requestIndex + 1;
      }
      MergeRest(state.nodes, request, requestIndex);
      assert clocks + [] == clocks;
      return Success(clocks);
    }

    // The longest run of stored envelopes, from the first whose maximum reaches the
    // least clock, that the buffer has room for. It goes on to where reading stops: the end
    // of the log when every slab is counted, the end of the slab when none is.
    method FillSendBuffer(clocks: seq<Clock>, buffer: array<byte>) returns (r: Result<(nat, nat), ClientError>)
      requires Usable() && storage.io.Valid() && buffer != storage.io.data
      modifies buffer
      ensures var slabs := storage.io.slabs;
              var c := StartIn(Keys(Flat(slabs), (record: Record) => record.maxSequence), clocks);
              if c == |Flat(slabs)| then r == Failure(Unreachable) && buffer[..] == old(buffer[..])
              else
                var end := End(slabs, storage.io.slabCount, SlabOf(slabs, c));
                FillsWith(Datas(Flat(slabs[..end])), c, Stop(storage.io.slabCount, end), r, old(buffer[..]), buffer[..])
      ensures Valid() ==>
                var c := StartAt(log, clocks);
                if c == |log| then r == Failure(Unreachable) && buffer[..] == old(buffer[..])
                else r.Success? && Filled(Wires(log), c, r.value.0, r.value.1, old(buffer[..]), buffer[..])
    {
      hide Stores, StoresBut, Rows, TableValid, Sorted, FitsSlab, SlabTotal, Flat, At, Filled, Holds, SlabStart;
      hide Records, Unseals, Authentic, End, SlabOf, Datas, Wires;
      ghost var slabs, count := storage.io.slabs, storage.io.slabCount;
      if Valid() {
        CountsAreKeys(log);
        DatasAreWires(log);
      }
      var min := GetMinSequence(clocks);
      if min.None? {
        return Failure(Unreachable);
      }
      ghost var c := FirstAtLeast(Keys(Flat(slabs), (record: Record) => record.maxSequence), min.value);
      var found := storage.GetCursorFromSequence(min.value);
      if found.value.None? {
        return Failure(Unreachable);
      }
      StandsInSlab(slabs, found.value.value, c);
      if Valid() {
        EndOfCounted(slabs, count, SlabOf(slabs, c));
        assert slabs[..|slabs|] == slabs;
      }
      var stop, filled, offset := FillFrom(found.value.value, c, buffer);
      if stop.Failure? {
        return Failure(StorageFault(stop.error));
      }
      return Success((filled, offset));
    }

    method FillFrom(start: Cursor, ghost c: nat, buffer: array<byte>)
      returns (stop: Result<(), StorageError>, count: nat, offset: nat)
      requires Usable() && storage.io.Valid() && buffer != storage.io.data && Before(storage.io.slabs, start, c)
      modifies buffer
      ensures var end := End(storage.io.slabs, storage.io.slabCount, start.slab);
              var items := Datas(Flat(storage.io.slabs[..end]));
              && Filled(items, c, count, offset, old(buffer[..]), buffer[..])
              && stop == if c + count == |items| then Stop(storage.io.slabCount, end) else Success(())
    {
      hide Stores, StoresBut, Rows, TableValid, Sorted, FitsSlab, SlabTotal, Flat, At, Filled, Holds, SlabStart, Copied;
      hide Overwrite, Frame, Reads, End, Unseals, Authentic, Short;
      ghost var slabs, slabCount, before := storage.io.slabs, storage.io.slabCount, buffer[..];
      HeadInside(slabs, slabCount, start, c);
      ghost var end := End(slabs, slabCount, start.slab);
      ghost var items := Datas(Flat(slabs[..end]));
      var cursor := start;
      offset, count := 0, 0;
      StartsFilled(items, c, before);
      while true
        invariant At(slabs, cursor, c + count) && start.slab <= cursor.slab < end
        invariant Copied(items, c, count, offset, before, buffer[..])
        decreases |items| - count
      {
        var entry := storage.Read(cursor, c + count);
        ReadStep(slabs, slabCount, start.slab, cursor, c + count, entry);
        CopiedInside(items, c, count, offset, before, buffer[..]);
        if entry.Failure? {
          FilledUp(items, c, count, offset, before, buffer[..]);
          return Failure(entry.error), count, offset;
        }
        if entry.value.None? {
          FilledUp(items, c, count, offset, before, buffer[..]);
          return Success(()), count, offset;
        }
        var (data, next) := entry.value.value;
        assert data == items[c + count];
        if buffer.Length - offset < |data| + 4 {
          FilledUp(items, c, count, offset, before, buffer[..]);
          return Success(()), count, offset;
        }
        ShownIsShort(storage.io, end, c + count);
        ghost var s0 := buffer[..];
        var frameEnd := AppendFrame(data, buffer, offset);
        FrameCopied(items, c, count, offset, before, s0, buffer[..]);
        offset := frameEnd;
        count := count + 1;
        cursor := next;
      }
    }

    method ReceiveBuffer(buffer: seq<byte>, count: nat) returns (r: Result<(), ClientError>)
      requires Usable()
      requires Free() >= SlabsUsed(Held(), ReceiveFrames(Cfg(), crypto, Held(), buffer, count).outcome)
      modifies this`log, state, chat, storage.io, storage.io.data
      ensures Usable() && (old(Valid()) ==> Valid())
      ensures Outcome(Held(), ErrorOf(r)) == ReceiveFrames(Cfg(), crypto, old(Held()), buffer, count).outcome
      ensures Free() + |log| == old(Free() + |log|)
    {
      hide DeliverWire, Stores, StoresBut, Rows, TableValid, Sorted, FitsSlab, SlabTotal, Flat, ReadU32, ReceiveFrames;
      ReceiveNothing(Cfg(), crypto, Held(), buffer);
      var offset := 0;
      for i := 0 to count
        invariant Usable() && (old(Valid()) ==> Valid())
        invariant Free() + |log| == old(Free() + |log|)
        invariant ReceiveFrames(Cfg(), crypto, old(Held()), buffer, i) == Progress(Outcome(Held(), None), offset)
      {
        NextFrame(Cfg(), crypto, old(Held()), buffer, i, count, Held(), offset);
        var lengthRead := ReadU32(buffer, offset);
        if lengthRead.Failure? {
          return Failure(StorageFault(lengthRead.error));
        }
        var (length, at) := lengthRead.value;
        var end := at + length;
        if end > |buffer| {
          return Failure(Unreachable);
        }
        offset := end;
        var received := DoReceive(buffer[at..end]);
        if received.Failure? && received.error != ChannelFault(AlreadyReceived) {
          return received;
        }
      }
      return Success(());
    }
  }

  // ------------------------------------------------------------- opening a channel

  // A device that knows a channel and the key its table starts from. It looks at nothing
  // that the storage may hold.
  method AddChannel(crypto: Crypto, node: NodeId, from: PubKey, channelId: ChannelId, maxNodes: nat, io: MemIO)
    returns (r: Result<Client, ClientError>)
    requires Authentic(crypto) && io.Usable()
    ensures maxNodes == 0 ==> r == Failure(ChannelFault(ClientMax(0)))
    ensures maxNodes > 0 ==>
              && r.Success? && fresh(r.value) && fresh(r.value.state) && fresh(r.value.chat)
              && r.value.storage.io == io && r.value.crypto == crypto && r.value.node == node
              && r.value.Usable() && (io.slabs == [] ==> r.value.Valid())
              && r.value.seed == from
              && r.value.channelId == channelId && r.value.state.maxNodes == maxNodes
              && r.value.Held() == Fresh(r.value.Cfg())
  {
    hide Stores, StoresBut, TableValid, Sorted, Rows, FitsSlab;
    var made := ChannelState.New(maxNodes, from);
    if made.Failure? {
      return Failure(ChannelFault(made.error));
    }
    var chat := new ChatRoom(maxNodes, channelId);
    var storage := new Storage(io);
    var client := new Client(crypto, node, channelId, made.value, chat, storage, from, []);
    return Success(client);
  }

  method InitChat(crypto: Crypto, key: PubKey, channelId: ChannelId, nonce: nat, name: Text, maxNodes: nat, io: MemIO)
    returns (r: Result<Client, ClientError>)
    requires Authentic(crypto) && io.Usable() && io.slabCount < io.maxIndex
    modifies io, io.data
    ensures |name| > 128 ==> r == Failure(StringTooLarge)
    ensures |name| <= 128 && maxNodes == 0 ==> r == Failure(ChannelFault(ClientMax(0)))
    ensures |name| <= 128 && maxNodes > 0 ==>
              var cfg := Config(channelId, key, maxNodes, FitsSlab(io.slabSize));
              var made := Sending(cfg, crypto, Fresh(cfg), ComputeId(key), NewChannel(nonce, name, key));
              if made.error.Some? then r == Failure(made.error.value)
              else r.Success? && fresh(r.value) && r.value.Usable() && r.value.Cfg() == cfg
                   && r.value.Held() == made.state && r.value.storage.io == io
                   && r.value.Wrote(old(io.slabs), old(io.slabCount), true)
                   && (old(io.slabs) == [] ==> r.value.Valid())
  {
    if |name| > NAME_MAX {
      return Failure(StringTooLarge);
    }
    r := AddChannel(crypto, ComputeId(key), key, channelId, maxNodes, io);
    if r.Failure? {
      return;
    }
    var sent := r.value.DoSend(NewChannel(nonce, name, key));
    if sent.Failure? {
      return Failure(sent.error);
    }
  }

  // One turn of the loop of `open_chat`, on the objects.
  method ReloadInto(state: ChannelState, chat: ChatRoom, ghost cfg: Config, w: Wire)
    returns (r: Result<(), ClientError>)
    requires state.Valid() && chat.maxUsers == state.maxNodes
    requires cfg.maxNodes == state.maxNodes && cfg.channel == chat.id
    modifies state, chat
    ensures state.Valid()
    ensures match Reload(cfg, Memory(old(state.Table()), old(chat.State())), w)
            case Success(mem) => r == Success(()) && mem == Memory(state.Table(), chat.State())
            case Failure(e) => r == Failure(e)
  {
    hide TableValid, Sorted, Rows, Check, Accept, Channel.Receive, Channel.AddNode;
    if w.Malformed? {
      return Failure(SerializationFault);
    }
    var from := if w.Genuine? then w.env.from else w.from;
    var key := state.GetNodeKey(from);
    if key.Failure? {
      if w.Genuine? {
        UnknownFailsCheck(state.Table(), from, w.env.message);
      }
      return Failure(ChannelFault(key.error));
    }
    if w.Forged? {
      return Failure(CryptoFault);
    }
    var message := w.env.message;
    var checked := state.CheckReceive(from, message);
    if checked.Failure? {
      return Failure(ChannelFault(checked.error));
    }
    var accepted := chat.AcceptMessage(chat.id, from, message.data);
    if accepted.Failure? {
      return Failure(ChatFault(accepted.error));
    }
    if accepted.value.UserAdded? {
      var added := state.AddNode(accepted.value.key);
      if added.Failure? {
        return Failure(ChannelFault(added.error));
      }
    }
    var received := state.Receive(from, message, w.env.id);
    if received.Failure? {
      return Failure(Unreachable);
    }
    return Success(());
  }

  // What `open_chat` makes of an array: it reloads every record that is shown, and then
  // meets what reading stops at.
  ghost function Opened(cfg: Config, crypto: Crypto, io: MemIO): Result<Memory, ClientError>
    reads io
  {
    var mem :- Reopen(cfg, FramesOf(crypto, Flat(Shown(io))));
    match ShownStop(io)
    case Failure(e) => Failure(StorageFault(e))
    case Success(_) => Success(mem)
  }

  // The loop of `open_chat`, from the head of the log to where reading stops.
  method ReloadAll(crypto: Crypto, storage: Storage, state: ChannelState, chat: ChatRoom, ghost cfg: Config)
    returns (r: Result<(), ClientError>)
    requires storage.io.Valid()
    requires state.Valid() && state.Table() == Seeded(cfg.seed) && chat.State() == EmptyChat(cfg.channel)
    requires chat.maxUsers == state.maxNodes == cfg.maxNodes
    modifies state, chat
    ensures state.Valid()
    ensures match Opened(cfg, crypto, storage.io)
            case Success(mem) => r == Success(()) && mem == Memory(state.Table(), chat.State())
            case Failure(e) => r == Failure(e)
  {
    hide Stores, StoresBut, TableValid, Sorted, Rows, Flat, At, Reload, SlabTotal, SlabStart, Holds, FramesOf, Reads;
    hide End;
    ghost var slabs, count := storage.io.slabs, storage.io.slabCount;
    ghost var shown, frames := Flat(Shown(storage.io)), FramesOf(crypto, Flat(Shown(storage.io)));
    assert frames[..|shown|] == frames;
    var start := storage.GetCursorFromSequence(0);
    if start.value.None? {
      NothingHeld(slabs);
      NoneStored();
      return Success(());
    }
    var cursor := start.value.value;
    HeadOfLog(slabs, cursor);
    HeadInside(slabs, count, cursor, 0);
    ghost var s := cursor.slab;
    ghost var p := 0;
    while true
      invariant p <= |shown| && At(slabs, cursor, p) && s <= cursor.slab < End(slabs, count, s)
      invariant state.Valid()
      invariant Reopen(cfg, frames[..p]) == Success(Memory(state.Table(), chat.State()))
      decreases |shown| - p
    {
      var found := storage.Read(cursor, p);
      ReadStep(slabs, count, s, cursor, p, found);
      if found.Failure? {
        return Failure(StorageFault(found.error));
      }
      if found.value.None? {
        return Success(());
      }
      var (data, next) := found.value.value;
      assert frames[..p + 1][..p] == frames[..p];
      FrameOf(crypto, shown, p);
      var reloaded := ReloadInto(state, chat, cfg, crypto.unseal(data));
      if reloaded.Failure? {
        ReopenStops(cfg, frames, p + 1);
        return Failure(reloaded.error);
      }
      p := p + 1;
      cursor := next;
    }
  }

  lemma NoneStored()
    ensures Flat([]) == []
  {}

  lemma FrameOf(crypto: Crypto, recs: seq<Record>, p: nat)
    requires p < |recs|
    ensures FramesOf(crypto, recs)[p] == crypto.unseal(recs[p].data)
  {}

  // `open_chat`: rebuild the table and the chat from what can be read.
  method OpenChat(crypto: Crypto, key: PubKey, channelId: ChannelId, maxNodes: nat, io: MemIO)
    returns (r: Result<Client, ClientError>)
    requires Authentic(crypto) && io.Valid()
    ensures maxNodes == 0 ==> r == Failure(ChannelFault(ClientMax(0)))
    ensures maxNodes > 0 ==>
              var cfg := Config(channelId, key, maxNodes, FitsSlab(io.slabSize));
              match Opened(cfg, crypto, io)
              case Failure(e) => r == Failure(e)
              case Success(mem) =>
                && r.Success? && fresh(r.value) && fresh(r.value.state) && fresh(r.value.chat)
                && r.value.Usable() && r.value.Cfg() == cfg && r.value.seed == key
                && r.value.crypto == crypto && r.value.node == ComputeId(key) && r.value.storage.io == io
                && r.value.Held().table == mem.table && r.value.Held().chat == mem.chat
                && Opens(crypto, Flat(Shown(io)), r.value.log)
                && (io.Counted() && NoneEmpty(io.slabs) && WellIndexed(crypto, Flat(io.slabs)) ==> r.value.Valid())
  {
    hide Stores, StoresBut, TableValid, Sorted, Rows, FitsSlab, Flat, Reopen, SlabTotal, SlabStart, FramesOf;
    hide Authentic, Unseals, Opens, WellIndexed;
    var made := ChannelState.New(maxNodes, key);
    if made.Failure? {
      return Failure(ChannelFault(made.error));
    }
    var state := made.value;
    var chat := new ChatRoom(maxNodes, channelId);
    var storage := new Storage(io);
    ghost var cfg := Config(channelId, key, maxNodes, FitsSlab(io.slabSize));
    ghost var recs := Flat(Shown(io));
    var reloaded := ReloadAll(crypto, storage, state, chat, cfg);
    if reloaded.Failure? {
      return Failure(reloaded.error);
    }
    ReopenedAreGenuine(cfg, FramesOf(crypto, recs));
    forall i | 0 <= i < |recs| ensures crypto.unseal(recs[i].data).Genuine? {
      FrameOf(crypto, recs, i);
    }
    ghost var log := EntriesOf(crypto, recs);
    OpensAreRecords(crypto, recs, log);
    ValidIsUsable(io);
    if NoneEmpty(io.slabs) {
      ShownIsCounted(io);
    }
    var client := new Client(crypto, ComputeId(key), channelId, state, chat, storage, key, log);
    return Success(client);
  }
}
