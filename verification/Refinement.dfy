/** What clients do are steps of the network of all devices, so every run of them is safe. */
module Refinement {
  import opened Types
  import opened Channel
  import opened Chat
  import opened Replicas
  import opened Recovery
  import opened Sync
  import opened Network
  import opened Device
  import opened SyncRound

  /** A send on a device's own replica is a step of the network, with the same error and the
      same outcome, unless the message cannot be sealed, which changes nothing. */
  lemma SendIsStep(cfg: Config, crypto: Crypto, w: World, node: NodeId, data: Protocol)
    returns (id: EnvelopeId, wire: seq<byte>)
    requires Authentic(crypto) && node in w && !data.NewChannel?
    ensures var step := Sending(cfg, crypto, w[node], node, data);
            || step == Outcome(w[node], Some(CryptoFault))
            || (step == DoSend(cfg, w[node], node, data, id, wire)
                && (step.error.None? || !IsLate(step.error.value) ==>
                      Next(cfg, w, Send(node, data, id, wire)) == Some(w[node := step.state])))
  {
    hide Deliver;
    id, wire := 0, [];
    if Address(w[node].table, node, data).Success? {
      var m := Address(w[node].table, node, data).value;
      if crypto.seal(node, m).Some? {
        var env := crypto.unseal(crypto.seal(node, m).value).env;
        id, wire := env.id, env.wire;
        assert env == Envelope(wire, id, node, m);
      }
    }
  }

  /** What `init_chat` does on a new replica founds the network. */
  lemma InitIsFounding(cfg: Config, crypto: Crypto, nonce: nat, name: Text)
    returns (id: EnvelopeId, wire: seq<byte>)
    requires Authentic(crypto)
    requires var data := NewChannel(nonce, name, cfg.seed);
             Sending(cfg, crypto, Fresh(cfg), ComputeId(cfg.seed), data).error.None?
    ensures var made := Sending(cfg, crypto, Fresh(cfg), ComputeId(cfg.seed), NewChannel(nonce, name, cfg.seed));
            Founding(cfg, nonce, name, id, wire) == Some(map[ComputeId(cfg.seed) := made.state])
  {
    hide Deliver;
    var node, data := ComputeId(cfg.seed), NewChannel(nonce, name, cfg.seed);
    var m := Address(Fresh(cfg).table, node, data).value;
    var env := crypto.unseal(crypto.seal(node, m).value).env;
    id, wire := env.id, env.wire;
    assert env == Envelope(wire, id, node, m);
  }

  /** A round of the sync protocol between two devices is one too. */
  lemma RoundIsStep(cfg: Config, w: World, a: NodeId, b: NodeId, c: nat, room: nat, reached: nat, x: Replica)
    requires a in w && b in w && IsRound(cfg, w[a], w[b], c, room, reached, x)
    ensures Next(cfg, w, Exchange(a, b, c, reached - c)) == Some(w[a := x])
  {
    hide ReceiveAll, CaughtUp;
  }

  /** In every reachable state any two devices may start a round, and after it the state is
      again one of those. */
  lemma RoundsAreSafe(cfg: Config, w: World, a: NodeId, b: NodeId, c: nat, room: nat, reached: nat, x: Replica)
    requires Inv(cfg, w) && a in w && b in w && |w[a].log| + |w[b].log| <= U64_MAX
    ensures Peers(cfg, w[a], w[b])
    ensures IsRound(cfg, w[a], w[b], c, room, reached, x) ==> Inv(cfg, w[a := x])
  {
    hide Inv, IsRound, Peers;
    InvGivesPeers(cfg, w, a, b);
    if IsRound(cfg, w[a], w[b], c, room, reached, x) {
      RoundReaches(cfg, w[a], w[b], c, room, reached, x);
      RoundIsStep(cfg, w, a, b, c, room, reached, x);
      NextKeeps(cfg, w, Exchange(a, b, c, reached - c));
    }
  }

  lemma RoundReaches(cfg: Config, a: Replica, b: Replica, c: nat, room: nat, reached: nat, x: Replica)
    requires IsRound(cfg, a, b, c, room, reached, x)
    ensures c <= reached <= |b.log|
  {}

  /** And so are sends, whether they succeed or are refused before memory has changed. */
  lemma SendsAreSafe(cfg: Config, crypto: Crypto, w: World, node: NodeId, data: Protocol)
    requires Inv(cfg, w) && Authentic(crypto) && node in w && !data.NewChannel?
    requires var error := Sending(cfg, crypto, w[node], node, data).error; error.Some? ==> !IsLate(error.value)
    ensures Inv(cfg, w[node := Sending(cfg, crypto, w[node], node, data).state])
  {
    hide Inv, Sending, Next;
    var step := Sending(cfg, crypto, w[node], node, data);
    var id, wire := SendIsStep(cfg, crypto, w, node, data);
    if step == Outcome(w[node], Some(CryptoFault)) {
      UnchangedKeeps(cfg, w, node, step.state);
    } else {
      NextKeeps(cfg, w, Send(node, data, id, wire));
    }
  }
}
