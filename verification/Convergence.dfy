/** What a full sync achieves: the requester's clock becomes the pointwise maximum, and
    two peers that sync both ways hold the same channel. */
module Convergence {
  import opened Types
  import opened Channel
  import opened Replicas
  import opened History
  import opened LogIndex
  import opened Search
  import opened Sync

  function ClockOf(t: Table, n: NodeId): u64 {
    if n in t.rows then t.rows[n].sequence else 0
  }

  // Some consecutive records of a log, from record c on, as they travel.
  function Slice(log: seq<Entry>, c: nat, count: nat): (frames: seq<Wire>)
    requires c + count <= |log|
    ensures |frames| == count && Carries(frames, log, c)
  {
    seq(count, i requires 0 <= i < count => Genuine(log[c + i].env))
  }

  function Suffix(log: seq<Entry>, c: nat): seq<Wire>
    requires c <= |log|
  {
    Slice(log, c, |log| - c)
  }

  // x has what a and b have together, and no more.
  ghost predicate HoldsBoth(a: Replica, b: Replica, x: Replica) {
    && x.table.rows.Keys == a.table.rows.Keys + b.table.rows.Keys
    && (forall n :: ClockOf(x.table, n) == Max(ClockOf(a.table, n), ClockOf(b.table, n)))
    && (forall e :: e in Envs(x.log) <==> e in Envs(a.log) || e in Envs(b.log))
  }

  ghost predicate AllRoomy(cfg: Config, log: seq<Entry>) {
    forall i :: 0 <= i < |log| ==> Roomy(cfg, log[i].env)
  }

  // The requester after one sync in which the whole suffix fits the buffer.
  function Synced(cfg: Config, a: Replica, b: Replica, start: u64): Outcome {
    ReceiveAll(cfg, a, Suffix(b.log, FirstAtLeast(Maxima(b.log), start)))
  }

  lemma SyncMerges(cfg: Config, a: Replica, b: Replica, start: u64)
    requires Peers(cfg, a, b) && BelowClocks(start, a.table, b.table) && AllRoomy(cfg, b.log)
    ensures Synced(cfg, a, b, start).error.None?
    ensures CaughtUp(cfg, a, b, |b.log|, Synced(cfg, a, b, start).state)
  {
    hide Deliver, Replay, ReceiveAll;
    var c := FirstAtLeast(Maxima(b.log), start);
    var frames := Suffix(b.log, c);
    NothingSkipped(cfg, a, b, start);
    forall i | 0 <= i < |frames| ensures Roomy(cfg, frames[i].env) {
      assert Roomy(cfg, b.log[c + i].env);
    }
    FramesMerge(cfg, a, b, c, frames);
  }

  lemma ClockIsLast(t: Table, xs: seq<Envelope>, n: NodeId)
    requires NodeTells(t, xs, n)
    ensures ClockOf(t, n) == LastSequence(Chain(xs, n)) && Linked(Chain(xs, n))
  {}

  lemma LongerIsLater(c: seq<Envelope>, d: seq<Envelope>)
    requires Linked(c) && Linked(d) && (c <= d || d <= c)
    ensures LastSequence(Longer(c, d)) == Max(LastSequence(c), LastSequence(d))
  {
    hide Linked;
    if c < d {
      LinkedGrows(c, d);
    } else if d < c {
      LinkedGrows(d, c);
    } else {
      assert c == d;
    }
  }

  lemma MergedClock(a: Table, b: Table, x: Table, xs: seq<Envelope>, ys: seq<Envelope>, zs: seq<Envelope>, n: NodeId)
    requires NodeTells(a, xs, n) && NodeTells(b, ys, n) && NodeTells(x, zs, n)
    requires Agree(xs, ys, n) && Merged(xs, ys, zs, n)
    ensures ClockOf(x, n) == Max(ClockOf(a, n), ClockOf(b, n))
  {
    ClockIsLast(a, xs, n);
    ClockIsLast(b, ys, n);
    ClockIsLast(x, zs, n);
    LongerIsLater(Chain(xs, n), Chain(ys, n));
  }

  lemma AddedUnion(xs: seq<Envelope>, ys: seq<Envelope>, zs: seq<Envelope>)
    requires Comparable(xs, ys) && IsMerge(xs, ys, zs)
    ensures Added(zs) == Added(xs) + Added(ys)
  {
    forall e ensures e in zs <==> e in xs || e in ys {
      MergedMembers(xs, ys, zs, e);
    }
    AddedMonotone(zs, xs);
    AddedMonotone(zs, ys);
    forall n | n in Added(zs) ensures n in Added(xs) + Added(ys) {
      AddedBy(zs, n);
      var j :| 0 <= j < |zs| && zs[j].message.data.AddUser? && ComputeId(zs[j].message.data.key) == n;
      assert zs[j] in zs;
      AddedBy(xs, n);
      AddedBy(ys, n);
    }
  }

  /** One full sync never meets a refusal, and leaves the requester with the pointwise
      maximum of the two clocks over the union of the two node tables, holding exactly
      the messages either of them held. */
  lemma CatchUp(cfg: Config, a: Replica, b: Replica, start: u64)
    requires Peers(cfg, a, b) && BelowClocks(start, a.table, b.table) && AllRoomy(cfg, b.log)
    ensures Synced(cfg, a, b, start).error.None?
    ensures Live(cfg, Synced(cfg, a, b, start).state)
    ensures HoldsBoth(a, b, Synced(cfg, a, b, start).state)
  {
    SyncMerges(cfg, a, b, start);
    var x := Synced(cfg, a, b, start).state;
    MergeMeans(cfg, a, b, x);
  }

  lemma MergeMeans(cfg: Config, a: Replica, b: Replica, x: Replica)
    requires Peers(cfg, a, b) && CaughtUp(cfg, a, b, |b.log|, x)
    ensures IsMerge(Envs(a.log), Envs(b.log), Envs(x.log))
    ensures HoldsBoth(a, b, x)
  {
    hide Deliver, Replay, HoldsBoth;
    assert Envs(b.log)[..|b.log|] == Envs(b.log);
    HoldsIfMerge(cfg, a, b, x);
  }

  lemma HoldsIfMerge(cfg: Config, a: Replica, b: Replica, x: Replica)
    requires Peers(cfg, a, b) && Live(cfg, x) && IsMerge(Envs(a.log), Envs(b.log), Envs(x.log))
    ensures HoldsBoth(a, b, x)
  {
    hide Deliver, Replay, NodeTells;
    var xs, ys, zs := Envs(a.log), Envs(b.log), Envs(x.log);
    TableIsHistory(cfg, xs);
    TableIsHistory(cfg, ys);
    TableIsHistory(cfg, zs);
    AddedUnion(xs, ys, zs);
    forall n ensures ClockOf(x.table, n) == Max(ClockOf(a.table, n), ClockOf(b.table, n)) {
      assert Agree(xs, ys, n) && Merged(xs, ys, zs, n);
      assert NodeTells(a.table, xs, n) && NodeTells(b.table, ys, n) && NodeTells(x.table, zs, n);
      MergedClock(a.table, b.table, x.table, xs, ys, zs, n);
    }
    forall e ensures e in zs <==> e in xs || e in ys {
      MergedMembers(xs, ys, zs, e);
    }
  }

  // Two copies of which one has every message of the other: it has each sender's in full.
  lemma AllMembersDominate(cfg: Config, xs: seq<Envelope>, ys: seq<Envelope>)
    requires Replay(cfg, ys).Some? && Comparable(xs, ys) && forall e :: e in ys ==> e in xs
    ensures Dominates(xs, ys)
  {
    hide Replay, Filter, Linked;
    TableIsHistory(cfg, ys);
    forall n ensures Covers(xs, ys, n) {
      assert Agree(xs, ys, n) && NodeTells(Replay(cfg, ys).value.table, ys, n);
      if Chain(xs, n) < Chain(ys, n) {
        var c, d := Chain(xs, n), Chain(ys, n);
        var e := d[|d| - 1];
        FilterMember(ys, From(n), e);
        FilterMember(xs, From(n), e);
        var i :| 0 <= i < |c| && c[i] == e;
        LinkedAscends(d, i, |d| - 1);
      }
    }
  }

  lemma MergeOfAll(own: seq<Envelope>, bs: seq<Envelope>, zs: seq<Envelope>, m: nat)
    requires m <= |bs| && Comparable(own, bs) && IsMerge(own, bs[..m], zs) && Dominates(zs, bs)
    ensures IsMerge(own, bs, zs)
  {
    hide Filter;
    forall n ensures Merged(own, bs, zs, n) {
      assert Agree(own, bs, n) && Merged(own, bs[..m], zs, n) && Covers(zs, bs, n);
      FilterPrefix(bs, m, From(n));
    }
  }

  // What the first m records do not bring, the requester had.
  ghost predicate RestIsHeld(a: Replica, b: Replica, m: nat) {
    forall i :: m <= i < |b.log| ==> b.log[i].env in Envs(a.log)
  }

  lemma RestHeldHoldsBoth(cfg: Config, a: Replica, b: Replica, m: nat, x: Replica)
    requires Peers(cfg, a, b) && CaughtUp(cfg, a, b, m, x) && RestIsHeld(a, b, m)
    ensures HoldsBoth(a, b, x)
  {
    hide Deliver, Replay, Filter, Founded;
    var own, bs, zs := Envs(a.log), Envs(b.log), Envs(x.log);
    ComparablePrefix(own, bs, m);
    forall e | e in bs ensures e in zs {
      var i :| 0 <= i < |bs| && bs[i] == e;
      assert b.log[i].env == e;
      assert i < m ==> bs[..m][i] == e;
      MergedMembers(own, bs[..m], zs, e);
    }
    AllMembersDominate(cfg, zs, bs);
    MergeOfAll(own, bs, zs, m);
    assert bs[..|bs|] == bs;
    HoldsIfMerge(cfg, a, b, x);
  }

  /** After a sync that got as far as record m the requester holds everything if and only
      if it had every record from there on before. */
  lemma HoldsBothIff(cfg: Config, a: Replica, b: Replica, m: nat, x: Replica)
    requires Peers(cfg, a, b) && CaughtUp(cfg, a, b, m, x)
    ensures HoldsBoth(a, b, x) <==> RestIsHeld(a, b, m)
  {
    hide Deliver, Replay, Filter, Founded, Linked;
    var own, bs, zs := Envs(a.log), Envs(b.log), Envs(x.log);
    if RestIsHeld(a, b, m) {
      RestHeldHoldsBoth(cfg, a, b, m, x);
    }
    if HoldsBoth(a, b, x) {
      ComparablePrefix(own, bs, m);
      forall i | m <= i < |b.log| ensures b.log[i].env in own {
        assert bs[i] == b.log[i].env && bs[i] in bs;
        MergedMembers(own, bs[..m], zs, bs[i]);
        if bs[i] in bs[..m] {
          var j :| 0 <= j < m && bs[j] == bs[i];
          NoRepeats(cfg, bs, j, i);
        }
      }
    }
  }

  // ------------------------------------------------------ equal chains, equal state

  predicate SameChain(xs: seq<Envelope>, ys: seq<Envelope>, n: NodeId) {
    Chain(xs, n) == Chain(ys, n)
  }

  ghost predicate SameChains(xs: seq<Envelope>, ys: seq<Envelope>) {
    forall n :: SameChain(xs, ys, n)
  }

  lemma SameMessages(xs: seq<Envelope>, ys: seq<Envelope>)
    requires SameChains(xs, ys)
    ensures multiset(xs) == multiset(ys)
  {
    forall e ensures multiset(xs)[e] == multiset(ys)[e] {
      assert SameChain(xs, ys, e.from);
      FilterCounts(xs, From(e.from), e);
      FilterCounts(ys, From(e.from), e);
    }
  }

  lemma SameCount(xs: seq<Envelope>, ys: seq<Envelope>, q: Query)
    requires multiset(xs) == multiset(ys)
    ensures |Filter(xs, q)| == |Filter(ys, q)|
  {
    var c, d := Filter(xs, q), Filter(ys, q);
    forall e ensures multiset(c)[e] == multiset(d)[e] {
      FilterCounts(xs, q, e);
      FilterCounts(ys, q, e);
    }
    assert multiset(c) == multiset(d);
    assert |c| == |multiset(c)| && |d| == |multiset(d)|;
  }

  // Different messages hash to different envelope ids.
  ghost predicate DistinctIds(envs: seq<Envelope>) {
    forall e, e' :: e in envs && e' in envs && e.id == e'.id ==> e == e'
  }

  lemma SameMembers(xs: seq<Envelope>, ys: seq<Envelope>)
    requires multiset(xs) == multiset(ys)
    ensures Added(xs) == Added(ys)
    ensures forall e :: e in xs <==> e in ys
    ensures xs == [] <==> ys == []
  {
    forall e ensures e in xs <==> e in ys {
      assert e in xs <==> e in multiset(xs);
      assert e in ys <==> e in multiset(ys);
    }
    AddedMonotone(xs, ys);
    AddedMonotone(ys, xs);
    if xs != [] {
      assert xs[0] in xs;
    }
    if ys != [] {
      assert ys[0] in ys;
    }
  }

  lemma SameRows(cfg: Config, x: Table, y: Table, xs: seq<Envelope>, ys: seq<Envelope>)
    requires TableTells(cfg, x, xs) && TableTells(cfg, y, ys) && SameChains(xs, ys) && Added(xs) == Added(ys)
    ensures x.rows == y.rows
  {
    assert x.rows.Keys == y.rows.Keys;
    forall n | n in x.rows ensures x.rows[n] == y.rows[n] {
      assert SameChain(xs, ys, n) && NodeTells(x, xs, n) && NodeTells(y, ys, n);
    }
  }

  // A positive row is its node's last message.
  lemma LastWitness(t: Table, xs: seq<Envelope>, n: NodeId) returns (e: Envelope)
    requires NodeTells(t, xs, n) && n in t.rows && t.rows[n].sequence > 0
    ensures e in xs && e.from == n && e.id == t.rows[n].id
  {
    var c := Chain(xs, n);
    e := c[|c| - 1];
    FilterMember(xs, From(n), e);
  }

  lemma SomethingSent(cfg: Config, xs: seq<Envelope>)
    requires Replay(cfg, xs).Some? && xs != []
    ensures MaxOver(xs) > 0
  {
    ReplayAt(cfg, xs, 0);
    MaxGrows(xs, 0, |xs|);
    assert xs[..|xs|] == xs;
  }

  // One node alone has the greatest sequence and, among those that share it, the greatest
  // id.
  predicate OnlyTop(t: Table)
    requires t.newest in t.rows
  {
    forall n :: n in t.rows && n != t.newest ==>
      t.rows[n].sequence != t.rows[t.newest].sequence || t.rows[n].id != t.rows[t.newest].id
  }

  /** The rows of a table determine its newest node if and only if one node alone is at the
      top. */
  lemma NewestIsDetermined(t: Table, max: nat)
    requires TableValid(t, max)
    ensures OnlyTop(t) <==> forall n :: n in t.rows && TableValid(Table(t.rows, n), max) ==> n == t.newest
  {
    var top := t.newest;
    forall n | n in t.rows && n != top
      ensures TableValid(Table(t.rows, n), max) <==>
              t.rows[n].sequence == t.rows[top].sequence && t.rows[n].id == t.rows[top].id
    {
      var t' := Table(t.rows, n);
      assert RowValid(t, n);
      if TableValid(t', max) {
        assert RowValid(t', top);
      }
    }
  }

  lemma SameNewest(x: Table, y: Table, max: nat)
    requires TableValid(x, max) && TableValid(y, max) && x.rows == y.rows && OnlyTop(x)
    ensures x == y
  {
    NewestIsDetermined(x, max);
    assert y == Table(x.rows, y.newest);
  }

  /** Envelope ids that differ for different messages leave one node at the top. */
  lemma DistinctIdsDecide(cfg: Config, x: Replica)
    requires Live(cfg, x) && cfg.maxNodes > 0 && DistinctIds(Envs(x.log))
    ensures x.table.newest in x.table.rows && OnlyTop(x.table)
  {
    hide Replay, Deliver, Filter, Linked;
    var xs := Envs(x.log);
    TableStaysValid(cfg, xs);
    TableIsHistory(cfg, xs);
    if xs != [] {
      SomethingSent(cfg, xs);
      forall n | n in x.table.rows && n != x.table.newest
        ensures x.table.rows[n].sequence != MaxSequence(x.table)
                || x.table.rows[n].id != x.table.rows[x.table.newest].id
      {
        if x.table.rows[n].sequence == MaxSequence(x.table) {
          assert NodeTells(x.table, xs, n) && NodeTells(x.table, xs, x.table.newest);
          var e := LastWitness(x.table, xs, n);
          var e' := LastWitness(x.table, xs, x.table.newest);
        }
      }
    } else {
      assert x.table.rows.Keys == {ComputeId(cfg.seed)} by { NoneAdded(); }
    }
  }

  lemma NoneAdded()
    ensures Added([]) == {}
  {}

  /** Two replicas that hold the same messages of every sender hold the same channel, in
      whatever order the messages came. */
  lemma SameChainsSameState(cfg: Config, x: Replica, y: Replica)
    requires cfg.maxNodes > 0 && Live(cfg, x) && Live(cfg, y)
    requires Founded(cfg, Envs(x.log)) && Founded(cfg, Envs(y.log))
    requires SameChains(Envs(x.log), Envs(y.log))
    ensures multiset(Envs(x.log)) == multiset(Envs(y.log))
    ensures x.table.rows == y.table.rows && x.chat == y.chat
    ensures x.table.newest in x.table.rows && (OnlyTop(x.table) ==> x.table == y.table)
  {
    hide Deliver, Replay, NodeTells;
    var xs, ys := Envs(x.log), Envs(y.log);
    SameMessages(xs, ys);
    SameCount(xs, ys, Texts);
    SameMembers(xs, ys);
    TableIsHistory(cfg, xs);
    TableIsHistory(cfg, ys);
    SameRows(cfg, x.table, y.table, xs, ys);
    ChatIsHistory(cfg, xs);
    ChatIsHistory(cfg, ys);
    assert x.chat.users == y.chat.users;
    TableStaysValid(cfg, xs);
    TableStaysValid(cfg, ys);
    if OnlyTop(x.table) {
      SameNewest(x.table, y.table, cfg.maxNodes);
    }
  }

  // What two devices agree on once each has everything the other has.
  ghost predicate SameChannel(x: Replica, y: Replica) {
    && multiset(Envs(x.log)) == multiset(Envs(y.log))
    && x.table.rows == y.table.rows
    && x.chat == y.chat
    && x.table.newest in x.table.rows && (OnlyTop(x.table) ==> x.table == y.table)
  }

  lemma BothCaughtUp(cfg: Config, a: Replica, b: Replica, x: Replica, y: Replica)
    requires Peers(cfg, a, b) && CaughtUp(cfg, a, b, |b.log|, x)
    requires Peers(cfg, b, x) && CaughtUp(cfg, b, x, |x.log|, y)
    ensures SameChannel(x, y)
  {
    hide Deliver, Replay, Filter, NodeTells;
    MergeMeans(cfg, a, b, x);
    MergeMeans(cfg, b, x, y);
    forall n ensures SameChain(Envs(x.log), Envs(y.log), n) {
      assert Agree(Envs(a.log), Envs(b.log), n);
      assert Merged(Envs(a.log), Envs(b.log), Envs(x.log), n) && Merged(Envs(b.log), Envs(x.log), Envs(y.log), n);
    }
    SameChainsSameState(cfg, x, y);
  }

  /** After a syncs from b and then b from a, both hold the same messages, node table,
      members and message count, and the same newest node when one alone is at the top. */
  lemma TwoWaySyncConverges(cfg: Config, a: Replica, b: Replica, start: u64, start': u64)
    requires Peers(cfg, a, b) && |a.log| + 2 * |b.log| <= U64_MAX
    requires AllRoomy(cfg, a.log) && AllRoomy(cfg, b.log)
    requires BelowClocks(start, a.table, b.table)
    requires BelowClocks(start', b.table, Synced(cfg, a, b, start).state.table)
    ensures var x := Synced(cfg, a, b, start);
            var y := Synced(cfg, b, x.state, start');
            x.error.None? && y.error.None? && SameChannel(x.state, y.state)
  {
    hide Deliver, Replay, ReceiveAll;
    SyncMerges(cfg, a, b, start);
    var x := Synced(cfg, a, b, start).state;
    MergeStaysPeer(cfg, a, b, |b.log|, x);
    MergeIsRoomy(cfg, cfg, a, b, |b.log|, x);
    SyncMerges(cfg, b, x, start');
    BothCaughtUp(cfg, a, b, x, Synced(cfg, b, x, start').state);
  }

  // After any part of a sync the two are still peers, now the other way round.
  lemma MergeStaysPeer(cfg: Config, a: Replica, b: Replica, m: nat, x: Replica)
    requires Peers(cfg, a, b) && CaughtUp(cfg, a, b, m, x) && |a.log| + 2 * |b.log| <= U64_MAX
    ensures Peers(cfg, b, x)
  {
    hide Deliver, Replay, Filter;
    forall n ensures Agree(Envs(b.log), Envs(x.log), n) {
      assert Agree(Envs(x.log), Envs(b.log), n);
    }
  }

  // Whatever storage takes the envelopes of both takes those of their merge.
  lemma MergeIsRoomy(cfg: Config, fit: Config, a: Replica, b: Replica, m: nat, x: Replica)
    requires Peers(cfg, a, b) && CaughtUp(cfg, a, b, m, x) && AllRoomy(fit, a.log) && AllRoomy(fit, b.log)
    ensures AllRoomy(fit, x.log)
  {
    hide Deliver, Replay, Filter, Roomy;
    var xs, ys, zs := Envs(a.log), Envs(b.log), Envs(x.log);
    ComparablePrefix(xs, ys, m);
    forall i | 0 <= i < |x.log| ensures Roomy(fit, x.log[i].env) {
      var e := x.log[i].env;
      assert zs[i] == e;
      MergedMembers(xs, ys[..m], zs, e);
      if e in xs {
        var j :| 0 <= j < |xs| && xs[j] == e;
        assert a.log[j].env == e;
      } else {
        var j :| 0 <= j < |ys[..m]| && ys[..m][j] == e;
        assert b.log[j].env == e;
      }
    }
  }

  // Two configurations of one channel, which may differ in their storage.
  predicate Alike(cfg: Config, cfg': Config) {
    cfg'.channel == cfg.channel && cfg'.seed == cfg.seed && cfg'.maxNodes == cfg.maxNodes
  }

  lemma RefitLive(cfg: Config, cfg': Config, r: Replica)
    requires Alike(cfg, cfg') && Live(cfg, r) && AllRoomy(cfg', r.log)
    ensures Live(cfg', r)
  {
    hide Replay, Deliver;
    forall i | 0 <= i < |r.log| ensures cfg'.fits(r.log[i]) {
      assert Roomy(cfg', r.log[i].env) && cfg'.fits(Entry(r.log[i].maxSequence, r.log[i].messageCount, r.log[i].env));
    }
    RefitReplays(cfg, cfg', Envs(r.log));
  }

  lemma RefitPeers(cfg: Config, cfg': Config, a: Replica, b: Replica)
    requires Alike(cfg, cfg') && Peers(cfg, a, b) && AllRoomy(cfg', a.log) && AllRoomy(cfg', b.log)
    ensures Peers(cfg', a, b)
  {
    hide Replay, Deliver, AllRoomy, Comparable;
    RefitLive(cfg, cfg', a);
    RefitLive(cfg, cfg', b);
  }

  lemma RefitCaughtUp(cfg: Config, cfg': Config, a: Replica, b: Replica, m: nat, x: Replica)
    requires Alike(cfg, cfg') && CaughtUp(cfg, a, b, m, x) && AllRoomy(cfg', b.log) && AllRoomy(cfg', x.log)
    ensures CaughtUp(cfg', a, b, m, x)
  {
    hide Replay, Deliver, AllRoomy, Comparable, Dominates, IsMerge, Missing;
    RefitLive(cfg, cfg', b);
    RefitLive(cfg, cfg', x);
  }

  lemma {:induction false} MissingCounts(xs: seq<Envelope>, ys: seq<Envelope>, e: Envelope)
    ensures multiset(Missing(xs, ys))[e] == if e in xs then 0 else multiset(ys)[e]
  {
    if ys != [] {
      var init := ys[..|ys| - 1];
      MissingCounts(xs, init, e);
      assert ys == init + [ys[|ys| - 1]];
    }
  }

  // What b lacks of the merge, it lacked of a.
  lemma MissingOfMerge(cfg: Config, a: Replica, b: Replica, m: nat, x: Replica)
    requires Peers(cfg, a, b) && CaughtUp(cfg, a, b, m, x)
    ensures |Missing(Envs(b.log), Envs(x.log))| <= |Missing(Envs(b.log), Envs(a.log))|
  {
    hide Deliver, Replay, Filter, Missing, Founded;
    var xs, ys, zs := Envs(a.log), Envs(b.log), Envs(x.log);
    var lacked, lacks := multiset(Missing(ys, xs)), multiset(Missing(ys, zs));
    forall e ensures lacks[e] <= lacked[e] {
      MissingCounts(ys, xs, e);
      MissingCounts(ys, zs, e);
      if e !in ys {
        var n := e.from;
        assert Merged(xs, ys[..m], zs, n);
        FilterCounts(xs, From(n), e);
        FilterCounts(zs, From(n), e);
        FilterMember(ys[..m], From(n), e);
        assert e !in multiset(Chain(ys[..m], n));
      }
    }
    assert lacked == lacks + (lacked - lacks);
    assert |Missing(ys, xs)| == |lacked| && |Missing(ys, zs)| == |lacks|;
  }
}
