/** All devices of one channel together: what holds in every state they can reach. */
module Network {
  import opened Types
  import opened Channel
  import opened Chat
  import opened Replicas
  import opened History
  import opened LogIndex
  import opened Search
  import opened Sync
  import opened Convergence

  type World = map<NodeId, Replica>

  // `Send` is what `send_message` and `add_node` do on a device's own replica, `Relay`
  // brings one stored envelope to another device, `Exchange` a buffer of consecutive
  // ones.
  datatype Action =
    | Join(node: NodeId)
    | Send(node: NodeId, data: Protocol, id: EnvelopeId, wire: seq<byte>)
    | Relay(to: NodeId, from: NodeId, k: nat)
    | Exchange(to: NodeId, from: NodeId, c: nat, count: nat)

  // `do_send`: address, then take the message in like any other.
  function DoSend(cfg: Config, r: Replica, node: NodeId, data: Protocol, id: EnvelopeId, wire: seq<byte>): Outcome {
    match Address(r.table, node, data)
    case Failure(e) => Outcome(r, Some(ChannelFault(e)))
    case Success(m) => Deliver(cfg, r, Envelope(wire, id, node, m))
  }

  // The state a device is left in by a step, unless the step failed after memory had
  // changed. A refusal before that is a step too: it changes nothing, except that a buffer
  // keeps the frames before the one that was refused.
  function Left(w: World, node: NodeId, step: Outcome): Option<World> {
    if step.error.Some? && Recovery.IsLate(step.error.value) then None else Some(w[node := step.state])
  }

  function Next(cfg: Config, w: World, action: Action): Option<World> {
    match action
    case Join(node) =>
      if node in w then None else Some(w[node := Fresh(cfg)])
    case Send(node, data, id, wire) =>
      if node !in w || data.NewChannel? then None
      else Left(w, node, DoSend(cfg, w[node], node, data, id, wire))
    case Relay(to, from, k) =>
      if to !in w || from !in w || k >= |w[from].log| then None
      else Left(w, to, Deliver(cfg, w[to], w[from].log[k].env))
    case Exchange(to, from, c, count) =>
      if to !in w || from !in w || c + count > |w[from].log| then None
      else Left(w, to, ReceiveAll(cfg, w[to], Slice(w[from].log, c, count)))
  }

  // `init_chat`: the founder's replica after the first record.
  function Founding(cfg: Config, nonce: nat, name: Text, id: EnvelopeId, wire: seq<byte>): Option<World> {
    var node := ComputeId(cfg.seed);
    var step := DoSend(cfg, Fresh(cfg), node, NewChannel(nonce, name, cfg.seed), id, wire);
    if step.error.Some? then None else Some(map[node := step.state])
  }

  function Run(cfg: Config, start: World, actions: seq<Action>): Option<World> {
    if actions == [] then Some(start)
    else
      match Run(cfg, start, actions[..|actions| - 1])
      case None => None
      case Some(w) => Next(cfg, w, actions[|actions| - 1])
  }

  // ------------------------------------------------------------- the invariant

  // What a sender has written: its messages in its own replica.
  function Own(w: World, n: NodeId): seq<Envelope> {
    if n in w then Chain(Envs(w[n].log), n) else []
  }

  ghost predicate SameOwn(w: World, w': World) {
    forall n :: Own(w, n) == Own(w', n)
  }

  ghost predicate Sound(cfg: Config, r: Replica) {
    Live(cfg, r) && Founded(cfg, Envs(r.log))
  }

  // A copy of a sender's messages is the beginning of what it has written.
  predicate CopiesOwn(w: World, r: Replica, n: NodeId) {
    Chain(Envs(r.log), n) <= Own(w, n)
  }

  ghost predicate Copies(w: World, r: Replica) {
    forall n :: CopiesOwn(w, r, n)
  }

  ghost predicate Inv(cfg: Config, w: World) {
    && cfg.maxNodes > 0
    && ComputeId(cfg.seed) in w
    && w[ComputeId(cfg.seed)].log != []
    && (forall a :: a in w ==> Sound(cfg, w[a]))
    && (forall a :: a in w ==> Copies(w, w[a]))
  }

  lemma OwnLinked(cfg: Config, w: World, n: NodeId)
    requires Inv(cfg, w)
    ensures Linked(Own(w, n))
  {
    if n in w {
      TableIsHistory(cfg, Envs(w[n].log));
      assert NodeTells(w[n].table, Envs(w[n].log), n);
    }
  }

  // --------------------------------------------------------------- taking a copy

  // The one message that can continue a copy of a sender's messages is the next one.
  lemma NextOf(own: seq<Envelope>, c: seq<Envelope>, e: Envelope)
    requires Linked(own) && c <= own && e in own && e.message.senderLast == LastSequence(c)
    ensures c + [e] <= own
  {
    hide Linked;
    var i :| 0 <= i < |own| && own[i] == e;
    LinkedAt(own, i);
    LinkedPrefix(own[..i], own);
    LinkedPrefix(c, own);
    if |c| < i {
      LinkedGrows(c, own[..i]);
    } else if i < |c| {
      LinkedGrows(own[..i], c);
    }
  }

  lemma ChainHead(envs: seq<Envelope>, n: NodeId)
    requires envs != [] && envs[0].from == n
    ensures Chain(envs, n) != [] && Chain(envs, n)[0] == envs[0]
  {
    FilterPrefix(envs, 1, From(n));
    assert envs[..1] == [] + [envs[0]];
    FilterSnoc([], envs[0], From(n));
  }

  lemma SeedFirst(cfg: Config, envs: seq<Envelope>)
    requires Replay(cfg, envs).Some? && Founded(cfg, envs) && envs != []
    ensures Chain(envs, ComputeId(cfg.seed)) != []
    ensures Chain(envs, ComputeId(cfg.seed))[0].message.data.NewChannel?
    ensures forall e :: e in envs && e.message.data.NewChannel? ==>
              e == envs[0] && e.from == ComputeId(cfg.seed) && e.message.data.owner == cfg.seed
  {
    FirstIsFounder(cfg, envs);
    ChainHead(envs, ComputeId(cfg.seed));
  }

  // What `Deliver` asked of the row it advanced.
  lemma DeliveredNext(cfg: Config, r: Replica, e: Envelope)
    requires Live(cfg, r) && Deliver(cfg, r, e).error.None?
    ensures e.message.senderLast == LastSequence(Chain(Envs(r.log), e.from)) < e.message.sequence
    ensures r.log == [] ==> e.from == ComputeId(cfg.seed)
  {
    DeliverEffect(cfg, r, e);
    TableIsHistory(cfg, Envs(r.log));
    assert NodeTells(r.table, Envs(r.log), e.from);
  }

  // A copied NewChannel is taken exactly by an empty log.
  lemma FoundedTake(cfg: Config, w: World, a: NodeId, e: Envelope)
    requires Inv(cfg, w) && a in w && e in Own(w, e.from)
    requires Deliver(cfg, w[a], e).error.None?
    ensures Founded(cfg, Envs(w[a].log) + [e])
  {
    hide Deliver, Replay, NodeTells;
    var o, envs := ComputeId(cfg.seed), Envs(w[a].log);
    assert Sound(cfg, w[a]) && Sound(cfg, w[o]) && Sound(cfg, w[e.from]);
    DeliveredNext(cfg, w[a], e);
    FilterMember(Envs(w[e.from].log), From(e.from), e);
    SeedFirst(cfg, Envs(w[e.from].log));
    SeedFirst(cfg, Envs(w[o].log));
    OwnLinked(cfg, w, o);
    if envs == [] {
      NextOf(Own(w, o), [], e);
    } else if e.message.data.NewChannel? {
      SeedFirst(cfg, envs);
      assert Copies(w, w[a]) && CopiesOwn(w, w[a], o);
      LinkedPrefix(Chain(envs, o), Own(w, o));
      LinkedPositive(Chain(envs, o));
      ChainHead(Envs(w[o].log), o);
      assert false;
    }
  }

  // Nobody takes back a message of its own.
  lemma OwnNotTaken(cfg: Config, w: World, a: NodeId, e: Envelope)
    requires Inv(cfg, w) && a in w && e in Own(w, e.from)
    requires Deliver(cfg, w[a], e).error.None?
    ensures e.from != a
  {
    hide Deliver, Replay, NodeTells;
    if e.from == a {
      assert Sound(cfg, w[a]);
      DeliveredNext(cfg, w[a], e);
      OwnLinked(cfg, w, a);
      NextOf(Own(w, a), Own(w, a), e);
      assert false;
    }
  }

  /** Taking in anything some device has written keeps the invariant. */
  lemma TakeKeeps(cfg: Config, w: World, a: NodeId, e: Envelope)
    requires Inv(cfg, w) && a in w && e in Own(w, e.from)
    requires Deliver(cfg, w[a], e).error.None?
    ensures Inv(cfg, w[a := Deliver(cfg, w[a], e).state])
    ensures SameOwn(w, w[a := Deliver(cfg, w[a], e).state])
  {
    hide Deliver, Replay, NodeTells, Filter, Linked, Founded;
    var r' := Deliver(cfg, w[a], e).state;
    var w' := w[a := r'];
    assert Sound(cfg, w[a]) && Copies(w, w[a]);
    LiveStep(cfg, w[a], e);
    FoundedTake(cfg, w, a, e);
    OwnNotTaken(cfg, w, a, e);
    DeliveredNext(cfg, w[a], e);
    OwnLinked(cfg, w, e.from);
    forall n ensures Own(w', n) == Own(w, n) {
      FilterSnoc(Envs(w[a].log), e, From(n));
    }
    assert CopiesOwn(w, w[a], e.from);
    NextOf(Own(w, e.from), Chain(Envs(w[a].log), e.from), e);
    forall n ensures CopiesOwn(w', r', n) {
      assert CopiesOwn(w, w[a], n);
      FilterSnoc(Envs(w[a].log), e, From(n));
    }
    forall b | b in w' ensures Copies(w', w'[b]) {
      if b != a {
        forall n ensures CopiesOwn(w', w'[b], n) {
          assert Copies(w, w[b]) && CopiesOwn(w, w[b], n);
        }
      }
    }
  }

  lemma StoredIsOwn(cfg: Config, w: World, b: NodeId, k: nat)
    requires Inv(cfg, w) && b in w && k < |w[b].log|
    ensures var e := w[b].log[k].env; e in Own(w, e.from)
  {
    var e := w[b].log[k].env;
    assert Envs(w[b].log)[k] == e;
    assert Copies(w, w[b]) && CopiesOwn(w, w[b], e.from);
    FilterMember(Envs(w[b].log), From(e.from), e);
  }

  ghost predicate Written(w: World, frames: seq<Wire>) {
    forall i :: 0 <= i < |frames| ==> frames[i].Genuine? && frames[i].env in Own(w, frames[i].env.from)
  }

  // A message that was not taken in late has been taken in or has changed nothing.
  lemma TakenOrUnchanged(cfg: Config, r: Replica, e: Envelope)
    requires Live(cfg, r) && cfg.maxNodes > 0
    requires var error := Deliver(cfg, r, e).error; error.Some? ==> !Recovery.IsLate(error.value)
    ensures Deliver(cfg, r, e).error.Some? ==> Deliver(cfg, r, e).state == r
  {
    TableStaysValid(cfg, Envs(r.log));
    Recovery.LateByError(cfg, r, e);
    Recovery.EarlyOutcome(cfg, r, e);
  }

  // One frame of a buffer, onto the state the ones before left.
  lemma TakeOneKeeps(cfg: Config, w: World, a: NodeId, x: Replica, e: Envelope) returns (x': Replica)
    requires a in w && Inv(cfg, w[a := x]) && e in Own(w[a := x], e.from)
    requires var error := Deliver(cfg, x, e).error; error.Some? ==> !Recovery.IsLate(error.value)
    ensures x' == Deliver(cfg, x, e).state
    ensures Inv(cfg, w[a := x'])
    ensures SameOwn(w[a := x], w[a := x'])
  {
    hide Deliver, Own, Replay;
    x' := Deliver(cfg, x, e).state;
    assert Sound(cfg, w[a := x][a]);
    if Deliver(cfg, x, e).error.None? {
      hide Inv;
      TakeKeeps(cfg, w[a := x], a, e);
      assert w[a := x][a := x'] == w[a := x'];
    } else {
      hide Inv;
      TakenOrUnchanged(cfg, x, e);
    }
  }

  // The loop over a buffer, one device taking what others have written, up to the end or
  // to a frame it refuses.
  lemma {:induction false} TakeAllKeeps(cfg: Config, w: World, a: NodeId, frames: seq<Wire>)
    requires Inv(cfg, w) && a in w && Written(w, frames)
    requires var error := ReceiveAll(cfg, w[a], frames).error; error.Some? ==> !Recovery.IsLate(error.value)
    ensures Inv(cfg, w[a := ReceiveAll(cfg, w[a], frames).state])
    ensures SameOwn(w, w[a := ReceiveAll(cfg, w[a], frames).state])
  {
    hide Deliver, Inv, Own;
    if frames == [] {
      assert w[a := w[a]] == w;
    } else {
      var init, e := frames[..|frames| - 1], frames[|frames| - 1].env;
      TakeAllKeeps(cfg, w, a, init);
      assert frames[|frames| - 1] == Genuine(e);
      if ReceiveAll(cfg, w[a], init).error.None? {
        var _ := TakeOneKeeps(cfg, w, a, ReceiveAll(cfg, w[a], init).state, e);
      }
    }
  }

  // ------------------------------------------------------------------- sending

  lemma SendKeeps(cfg: Config, w: World, a: NodeId, e: Envelope)
    requires Inv(cfg, w) && a in w && e.from == a && !e.message.data.NewChannel?
    requires Deliver(cfg, w[a], e).error.None?
    ensures Inv(cfg, w[a := Deliver(cfg, w[a], e).state])
  {
    hide Deliver, Replay, NodeTells, Filter, Linked;
    var r' := Deliver(cfg, w[a], e).state;
    var w' := w[a := r'];
    var o := ComputeId(cfg.seed);
    assert Sound(cfg, w[a]) && Copies(w, w[a]);
    LiveStep(cfg, w[a], e);
    DeliveredNext(cfg, w[a], e);
    assert w[a].log != [];
    forall n ensures CopiesOwn(w', r', n) && Own(w, n) <= Own(w', n) {
      assert CopiesOwn(w, w[a], n);
      FilterSnoc(Envs(w[a].log), e, From(n));
    }
    forall b | b in w' ensures Copies(w', w'[b]) {
      if b != a {
        forall n ensures CopiesOwn(w', w'[b], n) {
          assert Copies(w, w[b]) && CopiesOwn(w, w[b], n) && CopiesOwn(w', r', n);
        }
      }
    }
  }

  lemma JoinKeeps(cfg: Config, w: World, a: NodeId)
    requires Inv(cfg, w) && a !in w
    ensures Inv(cfg, w[a := Fresh(cfg)])
  {
    hide Deliver;
    var w' := w[a := Fresh(cfg)];
    FreshIsLive(cfg);
    forall n ensures Own(w', n) == Own(w, n) {}
    forall b | b in w' ensures Copies(w', w'[b]) {
      forall n ensures CopiesOwn(w', w'[b], n) {
        if b != a {
          assert Copies(w, w[b]) && CopiesOwn(w, w[b], n);
        }
      }
    }
  }

  // ------------------------------------------------------------ reachable states

  lemma FoundingHolds(cfg: Config, nonce: nat, name: Text, id: EnvelopeId, wire: seq<byte>)
    requires Founding(cfg, nonce, name, id, wire).Some?
    ensures Inv(cfg, Founding(cfg, nonce, name, id, wire).value)
  {
    var o := ComputeId(cfg.seed);
    var m := Address(Fresh(cfg).table, o, NewChannel(nonce, name, cfg.seed)).value;
    var e := Envelope(wire, id, o, m);
    FreshIsLive(cfg);
    LiveStep(cfg, Fresh(cfg), e);
    var r := Deliver(cfg, Fresh(cfg), e).state;
    DeliverEffect(cfg, Fresh(cfg), e);
    hide Deliver, Replay;
    assert Envs(Fresh(cfg).log) == [];
    assert Envs(r.log) == [e];
    var w: World := map[o := r];
    forall n ensures CopiesOwn(w, r, n) {
      FilterSnoc([], e, From(n));
      assert [] + [e] == [e];
    }
  }

  // The outcome of a step on a device's own replica that changed nothing.
  lemma UnchangedKeeps(cfg: Config, w: World, a: NodeId, x: Replica)
    requires Inv(cfg, w) && a in w && x == w[a]
    ensures Inv(cfg, w[a := x])
  {
    hide Inv;
    assert w[a := x] == w;
  }

  lemma SendLeaves(cfg: Config, w: World, a: NodeId, e: Envelope)
    requires Inv(cfg, w) && a in w && e.from == a && !e.message.data.NewChannel?
    requires var error := Deliver(cfg, w[a], e).error; error.Some? ==> !Recovery.IsLate(error.value)
    ensures Inv(cfg, w[a := Deliver(cfg, w[a], e).state])
  {
    hide Deliver, Replay;
    assert Sound(cfg, w[a]);
    if Deliver(cfg, w[a], e).error.None? {
      SendKeeps(cfg, w, a, e);
    } else {
      TakenOrUnchanged(cfg, w[a], e);
      UnchangedKeeps(cfg, w, a, Deliver(cfg, w[a], e).state);
    }
  }

  lemma NextKeeps(cfg: Config, w: World, action: Action)
    requires Inv(cfg, w) && Next(cfg, w, action).Some?
    ensures Inv(cfg, Next(cfg, w, action).value)
  {
    hide Deliver, Replay, ReceiveAll, Inv;
    match action
    case Join(node) =>
      JoinKeeps(cfg, w, node);
    case Send(node, data, id, wire) =>
      if Address(w[node].table, node, data).Success? {
        SendLeaves(cfg, w, node, Envelope(wire, id, node, Address(w[node].table, node, data).value));
      } else {
        UnchangedKeeps(cfg, w, node, w[node]);
      }
    case Relay(to, from, k) =>
      StoredIsOwn(cfg, w, from, k);
      assert w[to := w[to]] == w;
      var _ := TakeOneKeeps(cfg, w, to, w[to], w[from].log[k].env);
    case Exchange(to, from, c, count) =>
      var frames := Slice(w[from].log, c, count);
      forall i | 0 <= i < |frames| ensures frames[i].env in Own(w, frames[i].env.from) {
        StoredIsOwn(cfg, w, from, c + i);
      }
      TakeAllKeeps(cfg, w, to, frames);
  }

  /** Safety over every run: in every state reachable from the founding of a channel,
      each replica is the replay of its own log, and its copy of each sender's messages
      is the beginning of what that sender wrote. */
  lemma {:induction false} EveryRunIsSafe(cfg: Config, start: World, actions: seq<Action>)
    requires Inv(cfg, start) && Run(cfg, start, actions).Some?
    ensures Inv(cfg, Run(cfg, start, actions).value)
  {
    if actions != [] {
      EveryRunIsSafe(cfg, start, actions[..|actions| - 1]);
      NextKeeps(cfg, Run(cfg, start, actions[..|actions| - 1]).value, actions[|actions| - 1]);
    }
  }

  // ------------------------------------------------- what the invariant is good for

  /** Any two replicas agree, sender by sender, on their common prefix: no gap, no
      duplicate, no reordering. */
  lemma SendersAreOrdered(cfg: Config, w: World, a: NodeId, b: NodeId)
    requires Inv(cfg, w) && a in w && b in w
    ensures Comparable(Envs(w[a].log), Envs(w[b].log))
    ensures forall n :: Linked(Chain(Envs(w[a].log), n))
  {
    hide Deliver, Replay, Linked, Own;
    assert Sound(cfg, w[a]) && Copies(w, w[a]) && Copies(w, w[b]);
    forall n ensures Agree(Envs(w[a].log), Envs(w[b].log), n) && Linked(Chain(Envs(w[a].log), n)) {
      assert CopiesOwn(w, w[a], n) && CopiesOwn(w, w[b], n);
      OwnLinked(cfg, w, n);
      LinkedPrefix(Chain(Envs(w[a].log), n), Own(w, n));
    }
  }

  // One buffer with everything from the least merged clock on.
  function FullSync(w: World, a: NodeId, b: NodeId, start: u64): Action
    requires b in w
  {
    var c := FirstAtLeast(Maxima(w[b].log), start);
    Exchange(a, b, c, |w[b].log| - c)
  }

  /** In every reachable state any device syncs from any other. When there is a record to
      start from it meets no refusal and ends with everything either held, its clock the
      pointwise maximum; when there is none, which `fill_send_buffer` reports as an error,
      it has everything already. */
  lemma EverySyncSucceeds(cfg: Config, w: World, a: NodeId, b: NodeId, start: u64)
    requires Inv(cfg, w) && a in w && b in w
    requires |w[a].log| + |w[b].log| <= U64_MAX && AllRoomy(cfg, w[b].log)
    requires BelowClocks(start, w[a].table, w[b].table)
    ensures if FirstAtLeast(Maxima(w[b].log), start) == |w[b].log| then HoldsBoth(w[a], w[b], w[a])
            else
              && Synced(cfg, w[a], w[b], start).error.None?
              && Next(cfg, w, FullSync(w, a, b, start)).Some?
              && var w' := Next(cfg, w, FullSync(w, a, b, start)).value;
                 Inv(cfg, w') && a in w' && HoldsBoth(w[a], w[b], w'[a])
  {
    hide Deliver, Replay;
    InvGivesPeers(cfg, w, a, b);
    CatchUp(cfg, w[a], w[b], start);
    if FirstAtLeast(Maxima(w[b].log), start) < |w[b].log| {
      NextKeeps(cfg, w, FullSync(w, a, b, start));
    }
  }

  /** What a sync asks of two devices holds of any two in every reachable state. */
  lemma InvGivesPeers(cfg: Config, w: World, a: NodeId, b: NodeId)
    requires Inv(cfg, w) && a in w && b in w && |w[a].log| + |w[b].log| <= U64_MAX
    ensures Peers(cfg, w[a], w[b])
  {
    hide Deliver, Replay;
    assert Sound(cfg, w[a]) && Sound(cfg, w[b]);
    SendersAreOrdered(cfg, w, a, b);
  }

  // ------------------------------------------------------------------ restarting

  // The replica of a device that came back with the first k records of its log.
  function Back(cfg: Config, r: Replica, k: nat): Replica
    requires Live(cfg, r) && k <= |r.log|
  {
    ReplayPrefix(cfg, Envs(r.log), k);
    Replay(cfg, Envs(r.log)[..k]).value
  }

  lemma BackIsPrefix(cfg: Config, r: Replica, k: nat)
    requires Live(cfg, r) && Founded(cfg, Envs(r.log)) && k <= |r.log|
    ensures Live(cfg, Back(cfg, r, k)) && Founded(cfg, Envs(Back(cfg, r, k).log))
    ensures Envs(Back(cfg, r, k).log) == Envs(r.log)[..k]
    ensures forall n :: Chain(Envs(Back(cfg, r, k).log), n) <= Chain(Envs(r.log), n)
  {
    hide Filter, Deliver;
    ReplayPrefix(cfg, Envs(r.log), k);
    forall n: NodeId ensures Chain(Envs(r.log)[..k], n) <= Chain(Envs(r.log), n) {
      FilterPrefix(Envs(r.log), k, From(n));
    }
  }

  /** A restart keeps the invariant if and only if no other device holds more of the
      restarted one's messages than it came back with. */
  lemma RestartKeepsIff(cfg: Config, w: World, a: NodeId, k: nat)
    requires Inv(cfg, w) && a in w && Live(cfg, w[a]) && k <= |w[a].log| && (a == ComputeId(cfg.seed) ==> 0 < k)
    ensures var x := Back(cfg, w[a], k);
            Inv(cfg, w[a := x]) <==>
            forall b :: b in w && b != a ==> Chain(Envs(w[b].log), a) <= Chain(Envs(x.log), a)
  {
    hide Deliver, Replay, Filter, Linked, Back;
    assert Sound(cfg, w[a]) && Copies(w, w[a]);
    BackIsPrefix(cfg, w[a], k);
    var x := Back(cfg, w[a], k);
    var w' := w[a := x];
    if forall b :: b in w && b != a ==> Chain(Envs(w[b].log), a) <= Chain(Envs(x.log), a) {
      forall b | b in w' ensures Copies(w', w'[b]) {
        forall n ensures CopiesOwn(w', w'[b], n) {
          assert Copies(w, w[b]) && CopiesOwn(w, w[b], n);
        }
      }
    }
    if Inv(cfg, w') {
      forall b | b in w && b != a ensures Chain(Envs(w[b].log), a) <= Chain(Envs(x.log), a) {
        assert Copies(w', w'[b]) && CopiesOwn(w', w'[b], a);
      }
    }
  }

  /** A restarted device may sync from any other, and so get its own messages back. */
  lemma RestartedIsPeer(cfg: Config, w: World, a: NodeId, b: NodeId, k: nat)
    requires Inv(cfg, w) && a in w && b in w && Live(cfg, w[a]) && k <= |w[a].log|
    requires |w[a].log| + |w[b].log| <= U64_MAX
    ensures Peers(cfg, Back(cfg, w[a], k), w[b])
  {
    hide Deliver, Replay, Filter, Linked, Back;
    assert Sound(cfg, w[a]);
    InvGivesPeers(cfg, w, a, b);
    BackIsPrefix(cfg, w[a], k);
    var x := Back(cfg, w[a], k);
    forall n ensures Agree(Envs(x.log), Envs(w[b].log), n) {
      assert Agree(Envs(w[a].log), Envs(w[b].log), n);
    }
  }

  /** If it sends before it has caught up, every device that holds more of its messages
      refuses what it sends. */
  lemma ForkIsRefused(cfg: Config, x: Replica, peer: Replica, n: NodeId, data: Protocol)
    requires Live(cfg, x) && Live(cfg, peer) && Chain(Envs(x.log), n) < Chain(Envs(peer.log), n)
    ensures var next := Address(x.table, n, data);
            next.Success? ==>
              && n in peer.table.rows
              && var row := peer.table.rows[n].sequence;
                 Check(peer.table, n, next.value)
                 == Some(if row >= next.value.sequence then AlreadyReceived
                         else MissingFromSender(n, row, next.value.senderLast))
  {
    hide Deliver, Replay, Filter, Linked;
    TableIsHistory(cfg, Envs(x.log));
    TableIsHistory(cfg, Envs(peer.log));
    assert NodeTells(x.table, Envs(x.log), n) && NodeTells(peer.table, Envs(peer.log), n);
    LinkedGrows(Chain(Envs(x.log), n), Chain(Envs(peer.log), n));
  }

  /** A device that is handed message i of a sender can tell at once: it has it exactly
      when it holds more than i of that sender's messages; if it lacks an earlier one,
      the refusal names the sender, what the device has and what comes before; and it
      admits the message only as the very next one. */
  lemma GapsAreDetected(cfg: Config, w: World, a: NodeId, f: NodeId, i: nat)
    requires Inv(cfg, w) && a in w && f in w[a].table.rows && i < |Own(w, f)|
    ensures var e := Own(w, f)[i];
            var held := Chain(Envs(w[a].log), f);
            var verdict := Check(w[a].table, f, e.message);
            && (verdict == Some(AlreadyReceived) <==> i < |held|)
            && (i > |held| ==> verdict == Some(MissingFromSender(f, LastSequence(held), e.message.senderLast)))
            && (verdict.None? ==> i == |held|)
            && (i == |held| ==>
                  var cause, below := e.message.cause, e.message.sequence - 1;
                  verdict == if Reached(Envs(w[a].log), cause) < below
                             then Some(MissingFromSender(cause, Reached(Envs(w[a].log), cause), below)) else None)
  {
    hide Deliver, Replay;
    assert Sound(cfg, w[a]) && Copies(w, w[a]) && CopiesOwn(w, w[a], f);
    TableIsHistory(cfg, Envs(w[a].log));
    assert NodeTells(w[a].table, Envs(w[a].log), f);
    OwnLinked(cfg, w, f);
    GapInChain(Own(w, f), Chain(Envs(w[a].log), f), i);
    CheckIsVerdict(cfg, Envs(w[a].log), f, Own(w, f)[i].message);
  }

  lemma GapInChain(own: seq<Envelope>, held: seq<Envelope>, i: nat)
    requires Linked(own) && held <= own && i < |own|
    ensures i < |held| <==> own[i].message.sequence <= LastSequence(held)
    ensures i > |held| ==> LastSequence(held) < own[i].message.senderLast
    ensures i >= |held| ==> LastSequence(held) <= own[i].message.senderLast
    ensures i == |held| ==> LastSequence(held) == own[i].message.senderLast < own[i].message.sequence
  {
    hide Linked;
    LinkedAt(own, i);
    LinkedPrefix(own[..i], own);
    if i < |held| - 1 {
      LinkedAscends(own, i, |held| - 1);
    } else if |held| < i {
      LinkedGrows(held, own[..i]);
    } else if |held| == i {
      assert held == own[..i];
    }
  }
}
