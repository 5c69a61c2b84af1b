/** Catching up from a peer: nothing needed is skipped, nothing sent is refused, and
    two peers that sync both ways agree. */
module Sync {
  import opened Types
  import opened Channel
  import opened Chat
  import opened Replicas
  import opened History
  import opened LogIndex
  import opened Search
  import opened Recovery

  // ------------------------------------------------------------ comparing logs

  function Longer(c: seq<Envelope>, d: seq<Envelope>): seq<Envelope> {
    if |c| >= |d| then c else d
  }

  // Two copies of one sender's messages: one continues the other.
  predicate Agree(xs: seq<Envelope>, ys: seq<Envelope>, n: NodeId) {
    Chain(xs, n) <= Chain(ys, n) || Chain(ys, n) <= Chain(xs, n)
  }

  ghost predicate Comparable(xs: seq<Envelope>, ys: seq<Envelope>) {
    forall n :: Agree(xs, ys, n)
  }

  predicate Covers(xs: seq<Envelope>, ys: seq<Envelope>, n: NodeId) {
    Chain(ys, n) <= Chain(xs, n)
  }

  // Every sender's messages in ys are also in xs, in the same order.
  ghost predicate Dominates(xs: seq<Envelope>, ys: seq<Envelope>) {
    forall n :: Covers(xs, ys, n)
  }

  lemma DominatesMembers(xs: seq<Envelope>, ys: seq<Envelope>, e: Envelope)
    requires Dominates(xs, ys) && e in ys
    ensures e in xs
  {
    assert Covers(xs, ys, e.from);
    FilterMember(ys, From(e.from), e);
    FilterMember(xs, From(e.from), e);
  }

  lemma AddedMonotone(xs: seq<Envelope>, ys: seq<Envelope>)
    requires forall e :: e in ys && e.message.data.AddUser? ==> e in xs
    ensures Added(ys) <= Added(xs)
  {
    forall n | n in Added(ys) ensures n in Added(xs) {
      AddedBy(ys, n);
      var j :| 0 <= j < |ys| && ys[j].message.data.AddUser? && ComputeId(ys[j].message.data.key) == n;
      assert ys[j] in ys;
      AddedBy(xs, n);
    }
  }

  /** All AddUser records are the owner's, so whoever covers the owner's messages knows
      every member. */
  lemma OwnerAddsAll(cfg: Config, xs: seq<Envelope>, ys: seq<Envelope>)
    requires Replay(cfg, ys).Some? && Founded(cfg, ys)
    requires Covers(xs, ys, ComputeId(cfg.seed))
    ensures Added(ys) <= Added(xs)
  {
    ChatIsHistory(cfg, ys);
    var o := ComputeId(cfg.seed);
    forall e | e in ys && e.message.data.AddUser? ensures e in xs {
      FilterMember(ys, From(o), e);
      FilterMember(xs, From(o), e);
    }
    AddedMonotone(xs, ys);
  }

  // ------------------------------------------------------- one frame at a time

  // What is left of a peer's log after its first m records, seen by one who has them.
  ghost predicate Following(cfg: Config, x: Replica, b: Replica, m: nat) {
    && cfg.maxNodes > 0
    && Live(cfg, x) && Live(cfg, b)
    && Founded(cfg, Envs(x.log)) && Founded(cfg, Envs(b.log))
    && m <= |b.log|
    && Comparable(Envs(x.log), Envs(b.log))
    && Dominates(Envs(x.log), Envs(b.log)[..m])
  }

  lemma NextInChain(bs: seq<Envelope>, m: nat)
    requires m < |bs|
    ensures Chain(bs[..m + 1], bs[m].from) == Chain(bs[..m], bs[m].from) + [bs[m]]
    ensures Chain(bs[..m + 1], bs[m].from) <= Chain(bs, bs[m].from)
    ensures forall n :: n != bs[m].from ==> Chain(bs[..m + 1], n) == Chain(bs[..m], n)
  {
    assert bs[..m + 1] == bs[..m] + [bs[m]];
    forall n: NodeId
      ensures Chain(bs[..m + 1], n) == if n == bs[m].from then Chain(bs[..m], n) + [bs[m]] else Chain(bs[..m], n)
    {
      FilterSnoc(bs[..m], bs[m], From(n));
    }
    FilterPrefix(bs, m + 1, From(bs[m].from));
  }

  lemma HeldIsKnown(t: Table, xs: seq<Envelope>, i: nat, e: Envelope)
    requires NodeTells(t, xs, e.from) && i < |Chain(xs, e.from)| && Chain(xs, e.from)[i] == e
    ensures Check(t, e.from, e.message) == Some(AlreadyReceived)
  {
    var c := Chain(xs, e.from);
    if i < |c| - 1 {
      LinkedAscends(c, i, |c| - 1);
    }
  }

  // A frame the receiver already has is recognised as such.
  lemma HeldFrame(cfg: Config, x: Replica, b: Replica, m: nat)
    requires Following(cfg, x, b, m) && m < |b.log|
    requires var e := Envs(b.log)[m]; |Chain(Envs(x.log), e.from)| > |Chain(Envs(b.log)[..m], e.from)|
    ensures Deliver(cfg, x, Envs(b.log)[m]) == Outcome(x, Some(ChannelFault(AlreadyReceived)))
    ensures Covers(Envs(x.log), Envs(b.log)[..m + 1], Envs(b.log)[m].from)
  {
    var xs, bs := Envs(x.log), Envs(b.log);
    NextInChain(bs, m);
    assert Agree(xs, bs, bs[m].from);
    TableIsHistory(cfg, xs);
    HeldIsKnown(x.table, xs, |Chain(bs[..m], bs[m].from)|, bs[m]);
  }

  // A frame the receiver lacks passes the check, because it passed at the peer and
  // the receiver has everything the peer had then.
  lemma NewFrameChecks(cfg: Config, x: Replica, b: Replica, m: nat)
    requires Following(cfg, x, b, m) && m < |b.log|
    requires var e := Envs(b.log)[m]; Chain(Envs(x.log), e.from) == Chain(Envs(b.log)[..m], e.from)
    ensures Check(x.table, Envs(b.log)[m].from, Envs(b.log)[m].message).None?
  {
    var xs, bs := Envs(x.log), Envs(b.log);
    var e := bs[m];
    ReplayAt(cfg, bs, m);
    var t := Replay(cfg, bs[..m]).value.table;
    TableIsHistory(cfg, bs[..m]);
    TableIsHistory(cfg, xs);
    forall g | g in bs[..m] ensures g in xs {
      DominatesMembers(xs, bs[..m], g);
    }
    AddedMonotone(xs, bs[..m]);
    assert NodeTells(t, bs[..m], e.from) && NodeTells(x.table, xs, e.from);
    CauseCovered(xs, bs[..m], t, x.table, e.message.cause);
  }

  lemma CauseCovered(xs: seq<Envelope>, ys: seq<Envelope>, t: Table, t': Table, n: NodeId)
    requires NodeTells(t, ys, n) && NodeTells(t', xs, n) && Covers(xs, ys, n)
    ensures (if n in t.rows then t.rows[n].sequence else 0) <= (if n in t'.rows then t'.rows[n].sequence else 0)
  {
    if Chain(ys, n) < Chain(xs, n) {
      LinkedGrows(Chain(ys, n), Chain(xs, n));
    }
  }

  lemma FirstIsFounder(cfg: Config, envs: seq<Envelope>)
    requires Replay(cfg, envs).Some? && envs != []
    ensures envs[0].from == ComputeId(cfg.seed)
  {
    ReplayAt(cfg, envs, 0);
    assert envs[..0] == [];
  }

  lemma NotEmptyHanded(cfg: Config, x: Replica, b: Replica, m: nat)
    requires Following(cfg, x, b, m) && m < |b.log|
    requires var e := Envs(b.log)[m]; Chain(Envs(x.log), e.from) == Chain(Envs(b.log)[..m], e.from)
    ensures x.log == [] <==> m == 0
    ensures m == 0 ==> x == Fresh(cfg)
  {
    var xs, bs := Envs(x.log), Envs(b.log);
    if m == 0 && xs != [] {
      FirstIsFounder(cfg, xs);
      FirstIsFounder(cfg, bs);
      FilterMember(xs, From(bs[0].from), xs[0]);
      assert false;
    }
    if m > 0 {
      assert bs[0] in bs[..m];
      DominatesMembers(xs, bs[..m], bs[0]);
    }
  }

  // A user the peer's next record adds is new to the receiver, whose members and the
  // new one are all members at the peer.
  lemma AddedWithin(cfg: Config, xs: seq<Envelope>, bs: seq<Envelope>, m: nat)
    requires Replay(cfg, xs).Some? && Founded(cfg, xs) && Replay(cfg, bs).Some? && Founded(cfg, bs)
    requires m < |bs| && bs[m].message.data.AddUser? && Chain(xs, bs[m].from) == Chain(bs[..m], bs[m].from)
    ensures Added(xs) <= Added(bs[..m])
    ensures Added(xs) + {ComputeId(bs[m].message.data.key)} <= Added(bs)
  {
    ChatIsHistory(cfg, bs);
    assert bs[m] in bs && bs[m].from == ComputeId(cfg.seed);
    OwnerAddsAll(cfg, bs[..m], xs);
    FilterPrefix(bs, m, From(bs[m].from));
    OwnerAddsAll(cfg, bs, xs);
    AddedBy(bs, ComputeId(bs[m].message.data.key));
  }

  // Taking in the frame keeps the member set within the peer's.
  lemma MembersFit(cfg: Config, x: Replica, b: Replica, m: nat)
    requires Following(cfg, x, b, m) && m < |b.log|
    requires var e := Envs(b.log)[m]; Chain(Envs(x.log), e.from) == Chain(Envs(b.log)[..m], e.from)
    requires Envs(b.log)[m].message.data.AddUser?
    ensures var id := ComputeId(Envs(b.log)[m].message.data.key);
            id !in x.table.rows && |x.table.rows| < cfg.maxNodes
  {
    var xs, bs := Envs(x.log), Envs(b.log);
    var id := ComputeId(bs[m].message.data.key);
    AddedWithin(cfg, xs, bs, m);
    AddIsNew(cfg, bs, m);
    TableIsHistory(cfg, bs);
    TableIsHistory(cfg, xs);
    TableStaysValid(cfg, bs);
    Subset(x.table.rows.Keys + {id}, b.table.rows.Keys);
    assert |x.table.rows.Keys + {id}| == |x.table.rows.Keys| + 1;
    assert |b.table.rows| == |b.table.rows.Keys| && |x.table.rows| == |x.table.rows.Keys|;
  }

  lemma AddIsNew(cfg: Config, bs: seq<Envelope>, m: nat)
    requires Replay(cfg, bs).Some? && m < |bs| && bs[m].message.data.AddUser?
    ensures ComputeId(bs[m].message.data.key) !in {ComputeId(cfg.seed)} + Added(bs[..m])
  {
    ReplayAt(cfg, bs, m);
    DeliverEffect(cfg, Replay(cfg, bs[..m]).value, bs[m]);
    TableIsHistory(cfg, bs[..m]);
  }

  lemma {:induction false} Subset(s: set<NodeId>, t: set<NodeId>)
    requires s <= t
    ensures |s| <= |t|
  {
    if s != {} {
      var n :| n in s;
      Subset(s - {n}, t - {n});
    }
  }

  lemma MembersAccept(cfg: Config, c: ChatState, t: Table, count: nat, author: NodeId, data: Protocol)
    requires ChatIs(cfg, c, count, t.rows.Keys) && t.rows.Keys != {} && author in t.rows && count < U64_MAX
    requires !data.NewChannel?
    requires data.AddUser? ==> author == ComputeId(cfg.seed) && |t.rows| < cfg.maxNodes
    ensures Accept(c, cfg.maxNodes, cfg.channel, author, data).Success?
  {
    assert |c.users| == |c.users.Keys| == |t.rows.Keys| == |t.rows|;
  }

  lemma NewFrameAccepted(cfg: Config, x: Replica, b: Replica, m: nat)
    requires Following(cfg, x, b, m) && m < |b.log|
    requires var e := Envs(b.log)[m]; Chain(Envs(x.log), e.from) == Chain(Envs(b.log)[..m], e.from)
    requires |x.log| < U64_MAX
    ensures var e := Envs(b.log)[m];
            Accept(x.chat, cfg.maxNodes, cfg.channel, e.from, e.message.data).Success?
  {
    var xs, bs := Envs(x.log), Envs(b.log);
    var e := bs[m];
    NotEmptyHanded(cfg, x, b, m);
    if m == 0 {
      assert e.message.data.NewChannel?;
    } else {
      ChatIsHistory(cfg, xs);
      ChatIsHistory(cfg, bs);
      assert e in bs;
      TableIsHistory(cfg, xs);
      NewFrameChecks(cfg, x, b, m);
      if e.message.data.AddUser? {
        MembersFit(cfg, x, b, m);
      }
      MembersAccept(cfg, x.chat, x.table, |Filter(xs, Texts)|, e.from, e.message.data);
    }
  }

  // The storage takes the envelope whatever is stored beside it.
  ghost predicate Roomy(cfg: Config, env: Envelope) {
    forall max, count :: cfg.fits(Entry(max, count, env))
  }

  /** A frame the receiver lacks is taken in. */
  lemma NewFrameTaken(cfg: Config, x: Replica, b: Replica, m: nat)
    requires Following(cfg, x, b, m) && m < |b.log|
    requires var e := Envs(b.log)[m]; Chain(Envs(x.log), e.from) == Chain(Envs(b.log)[..m], e.from)
    requires |x.log| < U64_MAX && Roomy(cfg, Envs(b.log)[m])
    ensures Deliver(cfg, x, Envs(b.log)[m]).error.None?
  {
    var e := Envs(b.log)[m];
    NewFrameChecks(cfg, x, b, m);
    NewFrameAccepted(cfg, x, b, m);
    NotEmptyHanded(cfg, x, b, m);
    TableStaysValid(cfg, Envs(x.log));
    if FailsLate(cfg, x, e) {
      MembersFit(cfg, x, b, m);
    } else {
      EarlyOutcome(cfg, x, e);
    }
  }

  // -------------------------------------------------------------- a whole sync

  predicate Merged(xs: seq<Envelope>, ys: seq<Envelope>, zs: seq<Envelope>, n: NodeId) {
    Chain(zs, n) == Longer(Chain(xs, n), Chain(ys, n))
  }

  // For every sender, zs holds the longer of what xs and ys hold.
  ghost predicate IsMerge(xs: seq<Envelope>, ys: seq<Envelope>, zs: seq<Envelope>) {
    forall n :: Merged(xs, ys, zs, n)
  }

  lemma MergeFollows(xs: seq<Envelope>, bs: seq<Envelope>, zs: seq<Envelope>, m: nat)
    requires m <= |bs| && Comparable(xs, bs) && IsMerge(xs, bs[..m], zs)
    ensures Comparable(zs, bs) && Dominates(zs, bs[..m])
  {
    forall n: NodeId ensures Agree(zs, bs, n) && Covers(zs, bs[..m], n) {
      assert Agree(xs, bs, n) && Merged(xs, bs[..m], zs, n);
      FilterPrefix(bs, m, From(n));
    }
  }

  lemma FoundedStep(cfg: Config, x: Replica, b: Replica, m: nat)
    requires Following(cfg, x, b, m) && m < |b.log|
    requires var e := Envs(b.log)[m]; Chain(Envs(x.log), e.from) == Chain(Envs(b.log)[..m], e.from)
    ensures Founded(cfg, Envs(x.log) + [Envs(b.log)[m]])
  {
    NotEmptyHanded(cfg, x, b, m);
  }

  lemma MergedMembers(xs: seq<Envelope>, ys: seq<Envelope>, zs: seq<Envelope>, e: Envelope)
    requires Comparable(xs, ys) && IsMerge(xs, ys, zs)
    ensures e in zs <==> e in xs || e in ys
  {
    var n := e.from;
    assert Agree(xs, ys, n) && Merged(xs, ys, zs, n);
    FilterMember(xs, From(n), e);
    FilterMember(ys, From(n), e);
    FilterMember(zs, From(n), e);
  }

  // What is in ys and not in xs, in order.
  function Missing(xs: seq<Envelope>, ys: seq<Envelope>): (zs: seq<Envelope>)
    ensures |zs| <= |ys|
  {
    if ys == [] then []
    else
      var zs := Missing(xs, ys[..|ys| - 1]);
      if ys[|ys| - 1] in xs then zs else zs + [ys[|ys| - 1]]
  }

  lemma {:induction false} NothingMissing(xs: seq<Envelope>, ys: seq<Envelope>)
    ensures Missing(xs, ys) == [] <==> forall e :: e in ys ==> e in xs
  {
    if ys != [] {
      var init, last := ys[..|ys| - 1], ys[|ys| - 1];
      NothingMissing(xs, init);
      assert ys == init + [last];
    }
  }

  lemma {:induction false} MissingPrefix(xs: seq<Envelope>, ys: seq<Envelope>, k: nat)
    requires k <= |ys|
    ensures Missing(xs, ys[..k]) <= Missing(xs, ys)
  {
    if k < |ys| {
      MissingPrefix(xs, ys[..|ys| - 1], k);
      assert ys[..|ys| - 1][..k] == ys[..k];
    } else {
      assert ys[..k] == ys;
    }
  }

  lemma MissingSnoc(xs: seq<Envelope>, ys: seq<Envelope>, m: nat)
    requires m < |ys|
    ensures Missing(xs, ys[..m + 1]) == if ys[m] in xs then Missing(xs, ys[..m]) else Missing(xs, ys[..m]) + [ys[m]]
  {
    assert ys[..m + 1][..m] == ys[..m];
  }

  // Two replicas of one channel, either of which may be ahead for any sender.
  ghost predicate Peers(cfg: Config, a: Replica, b: Replica) {
    && cfg.maxNodes > 0
    && Live(cfg, a) && Live(cfg, b)
    && Founded(cfg, Envs(a.log)) && Founded(cfg, Envs(b.log))
    && Comparable(Envs(a.log), Envs(b.log))
    && |a.log| + |b.log| <= U64_MAX
  }

  // What a has become once b's first m records have reached it.
  ghost predicate CaughtUp(cfg: Config, a: Replica, b: Replica, m: nat, x: Replica) {
    && Following(cfg, x, b, m)
    && IsMerge(Envs(a.log), Envs(b.log)[..m], Envs(x.log))
    && |x.log| == |a.log| + |Missing(Envs(a.log), Envs(b.log)[..m])|
  }

  lemma ComparablePrefix(xs: seq<Envelope>, ys: seq<Envelope>, m: nat)
    requires Comparable(xs, ys) && m <= |ys|
    ensures Comparable(xs, ys[..m])
  {
    hide Filter;
    forall n ensures Agree(xs, ys[..m], n) {
      assert Agree(xs, ys, n);
      FilterPrefix(ys, m, From(n));
    }
  }

  /** The receiver has more of a sender's messages than came before the next frame if and
      only if it had that frame from the start. */
  lemma HeldFromTheStart(cfg: Config, a: Replica, b: Replica, m: nat, x: Replica)
    requires Peers(cfg, a, b) && m < |b.log| && CaughtUp(cfg, a, b, m, x)
    ensures var e := Envs(b.log)[m];
            e in Envs(a.log) <==> |Chain(Envs(x.log), e.from)| > |Chain(Envs(b.log)[..m], e.from)|
  {
    hide Deliver, Replay, Filter, Founded;
    var own, xs, bs := Envs(a.log), Envs(x.log), Envs(b.log);
    var e := bs[m];
    var f := e.from;
    ComparablePrefix(own, bs, m);
    assert Merged(own, bs[..m], xs, f) && Agree(own, bs, f) && Covers(xs, bs[..m], f);
    NextInChain(bs, m);
    if e in own && |Chain(xs, f)| == |Chain(bs[..m], f)| {
      MergedMembers(own, bs[..m], xs, e);
      FilterMember(xs, From(f), e);
      FilterMember(bs[..m], From(f), e);
      var i :| 0 <= i < m && bs[i] == e;
      NoRepeats(cfg, bs, i, m);
    }
    if |Chain(xs, f)| > |Chain(bs[..m], f)| {
      assert Chain(own, f)[|Chain(bs[..m], f)|] == e;
      FilterMember(own, From(f), e);
    }
  }

  // The merge with one record more: the same, or longer by that record.
  lemma MergeSnoc(own: seq<Envelope>, xs: seq<Envelope>, bs: seq<Envelope>, m: nat)
    requires m < |bs| && Comparable(own, bs) && IsMerge(own, bs[..m], xs) && Dominates(xs, bs[..m])
    ensures var f := bs[m].from;
            if |Chain(xs, f)| > |Chain(bs[..m], f)| then IsMerge(own, bs[..m + 1], xs)
            else Chain(xs, f) == Chain(bs[..m], f) && IsMerge(own, bs[..m + 1], xs + [bs[m]])
  {
    hide Filter;
    var f := bs[m].from;
    NextInChain(bs, m);
    assert Covers(xs, bs[..m], f) && Merged(own, bs[..m], xs, f) && Agree(own, bs, f);
    var xs' := if |Chain(xs, f)| > |Chain(bs[..m], f)| then xs else xs + [bs[m]];
    var upTo := bs[..m + 1];
    forall n ensures Merged(own, upTo, xs', n) {
      assert Merged(own, bs[..m], xs, n);
      FilterSnoc(xs, bs[m], From(n));
    }
  }

  // One frame from one end to the other of `receive_buffer`'s loop body.
  lemma MergeStep(cfg: Config, a: Replica, b: Replica, m: nat, x: Replica) returns (x': Replica)
    requires Peers(cfg, a, b) && m < |b.log| && CaughtUp(cfg, a, b, m, x)
    requires Roomy(cfg, Envs(b.log)[m])
    ensures var step := Deliver(cfg, x, Envs(b.log)[m]);
            (step == Outcome(x', None)
             || (step == Outcome(x, Some(ChannelFault(AlreadyReceived))) && x' == x))
    ensures CaughtUp(cfg, a, b, m + 1, x')
  {
    hide Deliver, Replay, Filter, Missing, Founded, IsMerge, Comparable, Dominates, Roomy;
    var own, xs, bs := Envs(a.log), Envs(x.log), Envs(b.log);
    var e := bs[m];
    x' := x;
    HeldFromTheStart(cfg, a, b, m, x);
    MissingSnoc(own, bs, m);
    MergeSnoc(own, xs, bs, m);
    if |Chain(xs, e.from)| > |Chain(bs[..m], e.from)| {
      HeldFrame(cfg, x, b, m);
    } else {
      NewFrameTaken(cfg, x, b, m);
      FoundedStep(cfg, x, b, m);
      LiveStep(cfg, x, e);
      x' := Deliver(cfg, x, e).state;
    }
    MergeFollows(own, bs, Envs(x'.log), m + 1);
  }

  // Consecutive records of a log from record c on, as they travel.
  predicate Carries(frames: seq<Wire>, log: seq<Entry>, c: nat) {
    && c + |frames| <= |log|
    && (forall i :: 0 <= i < |frames| ==> frames[i] == Genuine(log[c + i].env))
  }

  lemma ReceiveOneMore(cfg: Config, a: Replica, frames: seq<Wire>, x: Replica, e: Envelope, x': Replica)
    requires frames != [] && frames[|frames| - 1] == Genuine(e)
    requires ReceiveAll(cfg, a, frames[..|frames| - 1]) == Outcome(x, None)
    requires Deliver(cfg, x, e) == Outcome(x', None)
             || (Deliver(cfg, x, e) == Outcome(x, Some(ChannelFault(AlreadyReceived))) && x' == x)
    ensures ReceiveAll(cfg, a, frames) == Outcome(x', None)
  {}

  /** A peer that has everything before record c takes every frame from c on without an
      error, and ends with the merge of its own log and the sender's up to the last
      frame. */
  lemma {:induction false} FramesMerge(cfg: Config, a: Replica, b: Replica, c: nat, frames: seq<Wire>)
    requires Peers(cfg, a, b) && Carries(frames, b.log, c)
    requires Dominates(Envs(a.log), Envs(b.log)[..c])
    requires forall i :: 0 <= i < |frames| ==> Roomy(cfg, frames[i].env)
    ensures ReceiveAll(cfg, a, frames).error.None?
    ensures CaughtUp(cfg, a, b, c + |frames|, ReceiveAll(cfg, a, frames).state)
  {
    hide Deliver, Replay;
    if frames == [] {
      NothingToMerge(Envs(a.log), Envs(b.log)[..c]);
      DominatedIsHeld(Envs(a.log), Envs(b.log)[..c]);
    } else {
      var init, m := frames[..|frames| - 1], c + |frames| - 1;
      FramesMerge(cfg, a, b, c, init);
      var x := ReceiveAll(cfg, a, init).state;
      assert frames[|frames| - 1] == Genuine(Envs(b.log)[m]);
      var x' := MergeStep(cfg, a, b, m, x);
      ReceiveOneMore(cfg, a, frames, x, Envs(b.log)[m], x');
    }
  }

  lemma DominatedIsHeld(xs: seq<Envelope>, ys: seq<Envelope>)
    requires Dominates(xs, ys)
    ensures Missing(xs, ys) == []
  {
    forall e | e in ys ensures e in xs {
      DominatesMembers(xs, ys, e);
    }
    NothingMissing(xs, ys);
  }

  lemma NothingToMerge(xs: seq<Envelope>, ys: seq<Envelope>)
    requires Dominates(xs, ys)
    ensures IsMerge(xs, ys, xs)
  {
    forall n ensures Merged(xs, ys, xs, n) {
      assert Covers(xs, ys, n);
    }
  }

  // A lower bound of the clocks that `start_sync_response` merges: the requester's
  // sequence where it knows the node, the responder's first sequence where not.
  ghost predicate BelowClocks(start: u64, a: Table, b: Table) {
    && (forall n :: n in a.rows ==> start <= a.rows[n].sequence)
    && (forall n :: n in b.rows && n !in a.rows ==> start <= b.rows[n].first)
  }

  /** The scan skips nothing the requester needs: it has every record before the first
      one stored with a maximum at or above the least merged clock. In particular it
      has all of them when there is no such record, which is when filling fails. */
  lemma NothingSkipped(cfg: Config, a: Replica, b: Replica, start: u64)
    requires Peers(cfg, a, b) && BelowClocks(start, a.table, b.table)
    ensures Dominates(Envs(a.log), Envs(b.log)[..FirstAtLeast(Maxima(b.log), start)])
  {
    var own, bs := Envs(a.log), Envs(b.log);
    var p := FirstAtLeast(Maxima(b.log), start);
    assert forall i :: 0 <= i < p ==> b.log[i].maxSequence == Maxima(b.log)[i];
    forall n ensures Covers(own, bs[..p], n) {
      SkippedIsHeld(cfg, a, b, start, p, n);
    }
  }

  lemma SkippedIsHeld(cfg: Config, a: Replica, b: Replica, start: u64, p: nat, n: NodeId)
    requires Peers(cfg, a, b) && BelowClocks(start, a.table, b.table)
    requires p <= |b.log| && forall i :: 0 <= i < p ==> b.log[i].maxSequence < start
    ensures Covers(Envs(a.log), Envs(b.log)[..p], n)
  {
    var own, bs := Envs(a.log), Envs(b.log);
    FilterPrefix(bs, p, From(n));
    assert Agree(own, bs, n);
    if Chain(bs[..p], n) != [] {
      var j := LastOf(bs[..p], n);
      IndexPair(cfg, bs, j, j);
      TableIsHistory(cfg, own);
      TableIsHistory(cfg, bs);
      assert NodeTells(a.table, own, n) && NodeTells(b.table, bs, n);
      BelowMeansShorter(Chain(bs[..p], n), Chain(own, n), Chain(bs, n), start);
    }
  }

  // Of two stretches of one sender's messages, one that stays below `start` is not the
  // longer when the other reaches it, nor when the whole begins at it.
  lemma BelowMeansShorter(c: seq<Envelope>, d: seq<Envelope>, full: seq<Envelope>, start: u64)
    requires Linked(full) && c <= full && c != [] && LastSequence(c) < start
    requires d <= full || full <= d
    requires if d != [] then start <= LastSequence(d) else start <= full[0].message.sequence || start == 0
    ensures c <= d
  {
    hide Linked;
    if |d| < |c| {
      LinkedPrefix(c, full);
      assert d < c;
      if d != [] {
        LinkedGrows(d, c);
      } else if |c| > 1 {
        LinkedAscends(c, 0, |c| - 1);
      }
    }
  }
}
