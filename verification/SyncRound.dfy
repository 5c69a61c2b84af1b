/** One round of the sync protocol between two devices, from the request to the last
    byte of the response. */
module SyncRound {
  import opened Types
  import opened Channel
  import opened Codec
  import opened Slab
  import opened SlabStorage
  import opened ChannelTable
  import opened Search
  import opened Replicas
  import opened History
  import opened LogIndex
  import opened Sync
  import opened Convergence
  import opened Clocks
  import opened Device
  import opened Framing
  import opened Client

  /** The node tables of two peers never need more rows than one of them has: whoever
      holds more of the owner's messages knows every node the other knows. */
  lemma UnionFits(cfg: Config, a: Replica, b: Replica)
    requires Peers(cfg, a, b)
    ensures |a.table.rows.Keys + b.table.rows.Keys| <= cfg.maxNodes
  {
    hide Deliver, Replay, Founded, Filter;
    var xs, ys, o := Envs(a.log), Envs(b.log), ComputeId(cfg.seed);
    assert Agree(xs, ys, o);
    if Covers(ys, xs, o) {
      CoversTable(cfg, b, a);
      assert a.table.rows.Keys + b.table.rows.Keys == b.table.rows.Keys;
    } else {
      CoversTable(cfg, a, b);
      assert a.table.rows.Keys + b.table.rows.Keys == a.table.rows.Keys;
    }
  }

  lemma CoversTable(cfg: Config, a: Replica, b: Replica)
    requires cfg.maxNodes > 0 && Live(cfg, a) && Live(cfg, b) && Founded(cfg, Envs(b.log))
    requires Covers(Envs(a.log), Envs(b.log), ComputeId(cfg.seed))
    ensures b.table.rows.Keys <= a.table.rows.Keys && |a.table.rows.Keys| <= cfg.maxNodes
  {
    hide Deliver, Replay, Founded, Covers, NodeTells;
    OwnerAddsAll(cfg, Envs(a.log), Envs(b.log));
    TableIsHistory(cfg, Envs(a.log));
    TableIsHistory(cfg, Envs(b.log));
    TableStaysValid(cfg, Envs(a.log));
    assert |a.table.rows| == |a.table.rows.Keys|;
  }

  lemma NodesAreRows(nodes: seq<NodeSequence>)
    requires Sorted(nodes)
    ensures NodesIn(nodes) == Rows(nodes).Keys
  {
    forall n ensures n in NodesIn(nodes) <==> n in Rows(nodes) {
      if n in NodesIn(nodes) {
        var i :| 0 <= i < |nodes| && nodes[i].node == n;
        RowsAt(nodes, i);
      } else if forall i :: 0 <= i < |nodes| ==> nodes[i].node != n {
        NotListed(nodes, n);
      }
    }
  }

  lemma RequestIsSorted(nodes: seq<NodeSequence>)
    requires Sorted(nodes)
    ensures Ascends(Requested(nodes))
    ensures NodesOf(Requested(nodes)) == NodesIn(nodes)
  {
    forall n ensures n in NodesOf(Requested(nodes)) <==> n in NodesIn(nodes) {
      if n in NodesIn(nodes) {
        var i :| 0 <= i < |nodes| && nodes[i].node == n;
        assert Requested(nodes)[i].node == n;
      }
    }
  }

  /** Between peers the merged clock fits its bound, and its least entry is a place to
      start from that skips nothing. */
  lemma RequestMerges(cfg: Config, a: Replica, b: Replica, mine: seq<NodeSequence>, theirs: seq<NodeSequence>)
    requires Peers(cfg, a, b) && Sorted(mine) && Sorted(theirs)
    requires Rows(mine) == b.table.rows && Rows(theirs) == a.table.rows
    ensures 0 < |Merge(mine, Requested(theirs))| <= cfg.maxNodes
    ensures BelowClocks(LeastOf(Merge(mine, Requested(theirs))), a.table, b.table)
    ensures IsLeastClock(LeastOf(Merge(mine, Requested(theirs))), a.table, b.table)
  {
    hide Deliver, Replay, Merge, Requested, Rows, Sorted, NodesIn, NodesOf, BelowClocks, LeastOf, Least;
    hide IsMergedClock, IsClockOf;
    var merged := Merge(mine, Requested(theirs));
    RequestIsSorted(theirs);
    NodesAreRows(mine);
    NodesAreRows(theirs);
    MergeSize(mine, Requested(theirs));
    UnionFits(cfg, a, b);
    assert b.table.rows.Keys + a.table.rows.Keys == a.table.rows.Keys + b.table.rows.Keys;
    TableStaysValid(cfg, Envs(b.log));
    assert b.table.newest in b.table.rows.Keys + a.table.rows.Keys;
    RequestTellsTable(theirs, a.table.newest);
    assert Table(Rows(theirs), a.table.newest) == a.table;
    MergeIsMergedClock(mine, Requested(theirs));
    LeastOfMerged(merged, Requested(theirs), a.table, b.table);
  }

  // As many records from c on as a buffer has room for: those up to m, and no more.
  predicate FillsTo(log: seq<Entry>, c: nat, m: nat, room: nat) {
    && c <= m <= |log|
    && |Frames(Wires(log[c..m]))| <= room
    && (m < |log| ==> |Frames(Wires(log[c..m + 1]))| > room)
  }

  lemma FilledFillsTo(log: seq<Entry>, c: nat, count: nat, offset: nat, before: seq<byte>, after: seq<byte>)
    requires Filled(Wires(log), c, count, offset, before, after)
    ensures c + count <= |log| && offset <= |after| && |after| == |before|
    ensures FillsTo(log, c, c + count, |before|)
    ensures after[..offset] == Frames(Wires(log[c..c + count]))
  {
    assert Wires(log)[c..c + count] == Wires(log[c..c + count]);
    if c + count < |log| {
      assert Wires(log[c..c + count + 1]) == Wires(log[c..c + count]) + [log[c + count].env.wire];
      FramesSnoc(Wires(log[c..c + count]), log[c + count].env.wire);
    }
  }

  /** There is only one such place, and it is the end of the log exactly when the whole
      suffix has room. */
  lemma FillsOnce(log: seq<Entry>, c: nat, m: nat, m': nat, room: nat)
    requires FillsTo(log, c, m, room) && c <= m' <= |log|
    ensures FillsTo(log, c, m', room) <==> m == m'
    ensures m == |log| <==> |Frames(Wires(log[c..]))| <= room
  {
    hide Frames;
    FramesGrow(log, c, m, m');
    FramesGrow(log, c, m', m);
    if m < |log| {
      FramesGrow(log, c, m + 1, m');
      FramesGrow(log, c, m + 1, |log|);
    }
    if m' < |log| {
      FramesGrow(log, c, m' + 1, m);
    }
    assert log[c..|log|] == log[c..];
  }

  lemma FramesGrow(log: seq<Entry>, c: nat, m: nat, m': nat)
    ensures c <= m <= m' <= |log| ==> |Frames(Wires(log[c..m]))| <= |Frames(Wires(log[c..m']))|
  {
    if c <= m <= m' <= |log| {
      assert Wires(log[c..m']) [..m - c] == Wires(log[c..m]);
      FramesPrefix(Wires(log[c..m']), m - c);
    }
  }

  lemma SameUnsealing(crypto: Crypto, crypto': Crypto, log: seq<Entry>)
    requires crypto.unseal == crypto'.unseal && Unseals(crypto, log)
    ensures Unseals(crypto', log)
  {}

  lemma FramesAreSlice(crypto: Crypto, log: seq<Entry>, c: nat, count: nat)
    requires Unseals(crypto, log) && c + count <= |log|
    ensures Unsealed(crypto, Wires(log[c..c + count])) == Slice(log, c, count)
  {}

  /** Whatever part of the responder's log found room in the buffer, the requester takes
      all of it without a refusal, as one exchange of those records, ends with the merge of
      both up to there, and needs a slab for no record but those it lacked. */
  lemma BufferMerges(cfg: Config, crypto: Crypto, a: Replica, b: Replica, start: u64,
                     count: nat, offset: nat, before: seq<byte>, after: seq<byte>)
    requires Peers(cfg, a, b) && BelowClocks(start, a.table, b.table) && AllRoomy(cfg, b.log)
    requires Unseals(crypto, b.log) && |before| < 0x1_0000_0000
    requires Filled(Wires(b.log), FirstAtLeast(Maxima(b.log), start), count, offset, before, after)
    ensures var c := FirstAtLeast(Maxima(b.log), start);
            var outcome := ReceiveFrames(cfg, crypto, a, after[..offset], count).outcome;
            && c + count <= |b.log|
            && outcome.error.None?
            && outcome == ReceiveAll(cfg, a, Slice(b.log, c, count))
            && CaughtUp(cfg, a, b, c + count, outcome.state)
            && SlabsUsed(a, outcome) <= |Missing(Envs(a.log), Envs(b.log))|
  {
    hide Deliver, Replay, ReceiveAll, ReceiveFrames, Unseals, Peers, BelowClocks, CaughtUp, Frames, Roomy, Missing;
    var c := FirstAtLeast(Maxima(b.log), start);
    var items := Wires(b.log[c..c + count]);
    var frames := Slice(b.log, c, count);
    FilledFillsTo(b.log, c, count, offset, before, after);
    assert HasAt(after[..offset], 0, Frames(items));
    FramesComeBack(cfg, crypto, a, after[..offset], items, count);
    FramesAreSlice(crypto, b.log, c, count);
    assert frames[..count] == frames;
    NothingSkipped(cfg, a, b, start);
    SliceIsRoomy(cfg, b.log, c, count);
    FramesMerge(cfg, a, b, c, frames);
    CaughtUpSize(cfg, a, b, c + count, ReceiveAll(cfg, a, frames).state);
  }

  lemma CaughtUpSize(cfg: Config, a: Replica, b: Replica, m: nat, x: Replica)
    requires CaughtUp(cfg, a, b, m, x)
    ensures |x.log| - |a.log| <= |Missing(Envs(a.log), Envs(b.log))| <= |b.log|
  {
    MissingPrefix(Envs(a.log), Envs(b.log), m);
  }

  lemma SliceIsRoomy(cfg: Config, log: seq<Entry>, c: nat, count: nat)
    requires AllRoomy(cfg, log) && c + count <= |log|
    ensures forall i :: 0 <= i < count ==> Roomy(cfg, Slice(log, c, count)[i].env)
  {
    forall i | 0 <= i < count ensures Roomy(cfg, Slice(log, c, count)[i].env) {
      assert Roomy(cfg, log[c + i].env);
    }
  }

  /** A round brings the requester nothing if and only if it already held everything that
      found room in the buffer. */
  lemma NothingNewExactly(cfg: Config, a: Replica, b: Replica, m: nat, x: Replica)
    requires Peers(cfg, a, b) && CaughtUp(cfg, a, b, m, x)
    ensures SameChains(Envs(x.log), Envs(a.log)) <==> Dominates(Envs(a.log), Envs(b.log)[..m])
  {
    hide Deliver, Replay, Filter;
    var xs, bs, zs := Envs(a.log), Envs(b.log), Envs(x.log);
    forall n ensures SameChain(zs, xs, n) <==> Covers(xs, bs[..m], n) {
      assert Merged(xs, bs[..m], zs, n) && Agree(xs, bs, n);
      FilterPrefix(bs, m, From(n));
    }
  }

  // What one round does to the requester: from record c of the responder's log on it takes
  // as many records as the buffer has room for, as one exchange of them. It ends with the
  // merge of both logs up to there. With no record to start from it takes none.
  ghost predicate IsRound(cfg: Config, a: Replica, b: Replica, c: nat, room: nat, reached: nat, x: Replica) {
    && FillsTo(b.log, c, reached, room)
    && CaughtUp(cfg, a, b, reached, x)
    && ReceiveAll(cfg, a, Slice(b.log, c, reached - c)) == Outcome(x, None)
  }

  // A scan that finds no record to start from leaves nothing to send.
  lemma NothingLeft(cfg: Config, a: Replica, b: Replica, start: u64, room: nat)
    requires Peers(cfg, a, b) && BelowClocks(start, a.table, b.table)
    requires FirstAtLeast(Maxima(b.log), start) == |b.log|
    ensures IsRound(cfg, a, b, |b.log|, room, |b.log|, a)
  {
    hide Deliver, Replay;
    assert Wires(b.log[|b.log|..|b.log|]) == [];
    NothingSkipped(cfg, a, b, start);
    assert Envs(b.log)[..|b.log|] == Envs(b.log);
    NothingToMerge(Envs(a.log), Envs(b.log));
    DominatedIsHeld(Envs(a.log), Envs(b.log));
  }

  // Request, merge, fill, receive, as two clients go through them. `reached` is how far
  // into the responder's log the requester gets.
  method SyncOnce(requester: Client, responder: Client, buffer: array<byte>)
    returns (r: Result<(), ClientError>, ghost reached: nat)
    requires requester.Usable() && responder.Valid()
    requires requester.crypto.unseal == responder.crypto.unseal
    requires requester.state.maxNodes == responder.state.maxNodes
    requires Peers(requester.Cfg(), requester.Held(), responder.Held())
    requires AllRoomy(requester.Cfg(), responder.log)
    requires requester.Free() >= |Missing(Envs(requester.log), Envs(responder.log))|
    requires buffer != requester.storage.io.data && buffer != responder.storage.io.data
    requires buffer.Length < 0x1_0000_0000
    modifies buffer
    modifies requester`log, requester.state, requester.chat, requester.storage.io, requester.storage.io.data
    ensures requester.Usable() && (old(requester.Valid()) ==> requester.Valid())
    ensures var a, b := old(requester.Held()), old(responder.Held());
            var c := StartAt(b.log, Merge(old(responder.state.nodes), Requested(old(requester.state.nodes))));
            && (if c < |b.log| then r.Success? else r == Failure(Unreachable))
            && (exists s :: IsLeastClock(s, a.table, b.table) && c == FirstAtLeast(Maxima(b.log), s))
            && IsRound(requester.Cfg(), a, b, c, buffer.Length, reached, requester.Held())
            && (HoldsBoth(a, b, requester.Held()) <==> RestIsHeld(a, b, reached))
  {
    hide Deliver, Replay, Peers, CaughtUp, AllRoomy, BelowClocks, Merge, LeastOf, Sorted, Rows, TableValid, Frames;
    hide Stores, StoresBut, Flat, Records, Unseals, FitsSlab, SlabTotal, Filled, HoldsBoth, FirstAtLeast;
    hide ReceiveFrames, Requested, FillsTo, ReceiveAll, RestIsHeld, Missing, Authentic;
    hide IsLeastClock, IsMergedClock, IsClockOf, Ascends, NodesIn, NodesOf, SlabOf, End, Datas, Wires, FillsWith;
    ghost var cfg, a, b := requester.Cfg(), requester.Held(), responder.Held();
    RequestMerges(cfg, a, b, responder.state.nodes, requester.state.nodes);
    ghost var start := LeastOf(Merge(responder.state.nodes, Requested(requester.state.nodes)));
    ghost var c := FirstAtLeast(Maxima(b.log), start);
    var request := requester.FinishSyncRequest();
    var merged := responder.StartSyncResponse(request);
    ghost var before := buffer[..];
    var filled := responder.FillSendBuffer(merged.value, buffer);
    if filled.Failure? {
      reached := |b.log|;
      NothingLeft(cfg, a, b, start, buffer.Length);
      HoldsBothIff(cfg, a, b, reached, a);
      return Failure(filled.error), reached;
    }
    var (count, offset) := filled.value;
    FilledFillsTo(b.log, c, count, offset, before, buffer[..]);
    SameUnsealing(responder.crypto, requester.crypto, b.log);
    BufferMerges(cfg, requester.crypto, a, b, start, count, offset, before, buffer[..]);
    r := requester.ReceiveBuffer(buffer[..offset], count);
    reached := c + count;
    HoldsBothIff(cfg, a, b, reached, requester.Held());
  }

  // Lists of the same table are the same list.
  lemma SameNodes(s: ChannelState, s': ChannelState, x: Replica, y: Replica)
    requires s.Valid() && s'.Valid() && s.Table() == x.table && s'.Table() == y.table && SameChannel(x, y)
    ensures s.nodes == s'.nodes
  {
    forall i | 0 <= i < |s.nodes| ensures ComputeId(s.nodes[i].publicKey) == s.nodes[i].node {
      RowsAt(s.nodes, i);
    }
    SortedIsCanonical(s.nodes, s'.nodes);
  }

  // The devices and the buffer share no memory.
  ghost predicate Apart(a: Client, b: Client, buffer: array<byte>) {
    && a != b && a.state != b.state && a.chat != b.chat
    && a.storage.io != b.storage.io && a.storage.io.data != b.storage.io.data
    && buffer != a.storage.io.data && buffer != b.storage.io.data
  }

  // The two rounds that bring two devices together. `reached` and `back` are how far each
  // gets into the other's log. Their slabs may differ in size.
  method SyncBothWays(a: Client, b: Client, buffer: array<byte>)
    returns (there: Result<(), ClientError>, home: Result<(), ClientError>, ghost reached: nat, ghost back: nat)
    requires a.Valid() && b.Valid() && Apart(a, b, buffer)
    requires a.crypto.unseal == b.crypto.unseal && Alike(a.Cfg(), b.Cfg())
    requires Peers(a.Cfg(), a.Held(), b.Held()) && |a.log| + 2 * |b.log| <= U64_MAX
    requires AllRoomy(a.Cfg(), a.log) && AllRoomy(a.Cfg(), b.log)
    requires AllRoomy(b.Cfg(), a.log) && AllRoomy(b.Cfg(), b.log)
    requires a.Free() >= |Missing(Envs(a.log), Envs(b.log))|
    requires b.Free() >= |Missing(Envs(b.log), Envs(a.log))|
    requires buffer.Length < 0x1_0000_0000
    modifies buffer
    modifies a`log, a.state, a.chat, a.storage.io, a.storage.io.data
    modifies b`log, b.state, b.chat, b.storage.io, b.storage.io.data
    ensures a.Valid() && b.Valid()
    ensures var c := StartAt(old(b.log), Merge(old(b.state.nodes), Requested(old(a.state.nodes))));
            && (if c < |old(b.log)| then there.Success? else there == Failure(Unreachable))
            && (exists s :: IsLeastClock(s, old(a.Held()).table, old(b.Held()).table)
                            && c == FirstAtLeast(Maxima(old(b.log)), s))
            && IsRound(a.Cfg(), old(a.Held()), old(b.Held()), c, buffer.Length, reached, a.Held())
    ensures var c := StartAt(a.log, Merge(a.state.nodes, Requested(old(b.state.nodes))));
            && (if c < |a.log| then home.Success? else home == Failure(Unreachable))
            && (exists s :: IsLeastClock(s, old(b.Held()).table, a.Held().table) && c == FirstAtLeast(Maxima(a.log), s))
            && IsRound(b.Cfg(), old(b.Held()), a.Held(), c, buffer.Length, back, b.Held())
    ensures reached == |old(b.log)| && back == |a.log| ==>
              SameChannel(a.Held(), b.Held()) && a.state.nodes == b.state.nodes
  {
    hide Deliver, Replay, Peers, CaughtUp, AllRoomy, Merge, LeastOf, Sorted, Rows, TableValid, Frames, SameChannel;
    hide Stores, StoresBut, Flat, Records, Unseals, FitsSlab, SlabTotal, HoldsBoth, FirstAtLeast, Requested;
    hide FillsTo, ReceiveAll, RestIsHeld, Missing, Authentic, StartAt, IsLeastClock;
    ghost var cfg, cfg', before, other := a.Cfg(), b.Cfg(), a.Held(), b.Held();
    there, reached := SyncOnce(a, b, buffer);
    ghost var x := a.Held();
    MergeStaysPeer(cfg, before, other, reached, x);
    MergeIsRoomy(cfg, cfg, before, other, reached, x);
    MergeIsRoomy(cfg, cfg', before, other, reached, x);
    MissingOfMerge(cfg, before, other, reached, x);
    RefitPeers(cfg, cfg', other, x);
    home, back := SyncOnce(b, a, buffer);
    if reached == |other.log| && back == |a.log| {
      MergeIsRoomy(cfg', cfg, other, x, back, b.Held());
      RefitCaughtUp(cfg', cfg, other, x, back, b.Held());
      BothCaughtUp(cfg, before, other, x, b.Held());
      SameNodes(a.state, b.state, x, b.Held());
    }
  }
}
