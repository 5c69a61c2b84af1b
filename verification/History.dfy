/** What every run of successful steps keeps: the table and the chat are functions of
    the stored log, and the log is causally closed. */
module History {
  import opened Types
  import opened Channel
  import opened Chat
  import opened Replicas

  // ------------------------------------------------------------ reading a log

  datatype Query = From(node: NodeId) | Texts

  predicate Matches(q: Query, e: Envelope) {
    match q
    case From(n) => e.from == n
    case Texts => e.message.data.ChatMessage?
  }

  function Filter(envs: seq<Envelope>, q: Query): (c: seq<Envelope>)
    ensures |c| <= |envs|
  {
    if envs == [] then []
    else
      var c := Filter(envs[..|envs| - 1], q);
      if Matches(q, envs[|envs| - 1]) then c + [envs[|envs| - 1]] else c
  }

  // The messages of one sender, in log order.
  function Chain(envs: seq<Envelope>, n: NodeId): seq<Envelope> {
    Filter(envs, From(n))
  }

  function LastSequence(c: seq<Envelope>): u64 {
    if c == [] then 0 else c[|c| - 1].message.sequence
  }

  // The row that a sender's messages leave in the table.
  function RowOf(n: NodeId, c: seq<Envelope>): Row {
    if c == [] then EmptyRow(PubKey(n))
    else Row(PubKey(n), c[|c| - 1].id, c[0].message.sequence, c[|c| - 1].message.sequence)
  }

  // The nodes that AddUser records name.
  function Added(envs: seq<Envelope>): set<NodeId> {
    if envs == [] then {}
    else
      var e := envs[|envs| - 1].message.data;
      Added(envs[..|envs| - 1]) + if e.AddUser? then {ComputeId(e.key)} else {}
  }

  function Max(a: u64, b: u64): u64 {
    if a < b then b else a
  }

  // The greatest sequence in the log.
  function MaxOver(envs: seq<Envelope>): u64 {
    if envs == [] then 0 else Max(MaxOver(envs[..|envs| - 1]), envs[|envs| - 1].message.sequence)
  }

  lemma FilterSnoc(envs: seq<Envelope>, e: Envelope, q: Query)
    ensures Filter(envs + [e], q) == if Matches(q, e) then Filter(envs, q) + [e] else Filter(envs, q)
  {
    assert (envs + [e])[..|envs|] == envs;
  }

  lemma AddedSnoc(envs: seq<Envelope>, e: Envelope)
    ensures Added(envs + [e]) ==
            Added(envs) + if e.message.data.AddUser? then {ComputeId(e.message.data.key)} else {}
  {
    assert (envs + [e])[..|envs|] == envs;
  }

  lemma {:induction false} FilterPrefix(envs: seq<Envelope>, k: nat, q: Query)
    requires k <= |envs|
    ensures Filter(envs[..k], q) <= Filter(envs, q)
  {
    if k < |envs| {
      FilterPrefix(envs[..|envs| - 1], k, q);
      assert envs[..|envs| - 1][..k] == envs[..k];
    } else {
      assert envs[..k] == envs;
    }
  }

  lemma {:induction false} FilterCounts(envs: seq<Envelope>, q: Query, e: Envelope)
    ensures multiset(Filter(envs, q))[e] == if Matches(q, e) then multiset(envs)[e] else 0
  {
    if envs != [] {
      var init := envs[..|envs| - 1];
      FilterCounts(init, q, e);
      assert envs == init + [envs[|envs| - 1]];
    }
  }

  /** An element of a filtered log is matched and in the log, and conversely. */
  lemma FilterMember(envs: seq<Envelope>, q: Query, e: Envelope)
    ensures e in Filter(envs, q) <==> e in envs && Matches(q, e)
  {
    FilterCounts(envs, q, e);
    assert e in Filter(envs, q) <==> e in multiset(Filter(envs, q));
    assert e in envs <==> e in multiset(envs);
  }

  // ------------------------------------------------------------------- chains

  // Every message names its sender's one before, and counts upwards from it.
  predicate Linked(c: seq<Envelope>) {
    forall i :: 0 <= i < |c| ==>
      && c[i].message.senderLast == LastSequence(c[..i])
      && c[i].message.senderLast < c[i].message.sequence
  }

  lemma {:induction false} LinkedAscends(c: seq<Envelope>, i: nat, j: nat)
    requires Linked(c) && i < j < |c|
    ensures c[i].message.sequence < c[j].message.sequence
  {
    assert c[j].message.senderLast == LastSequence(c[..j]);
    if i < j - 1 {
      LinkedAscends(c, i, j - 1);
    }
  }

  lemma LinkedAt(c: seq<Envelope>, i: nat)
    requires Linked(c) && i < |c|
    ensures c[i].message.senderLast == LastSequence(c[..i]) < c[i].message.sequence
  {}

  lemma LinkedPositive(c: seq<Envelope>)
    requires Linked(c)
    ensures c != [] ==> c[0].message.senderLast == 0 < c[0].message.sequence && LastSequence(c) > 0
  {}

  lemma LinkedGrows(c: seq<Envelope>, d: seq<Envelope>)
    requires Linked(d) && c < d
    ensures LastSequence(c) < LastSequence(d)
  {
    if c == [] {
      assert d[|d| - 1].message.senderLast < d[|d| - 1].message.sequence;
    } else {
      LinkedAscends(d, |c| - 1, |d| - 1);
    }
  }

  lemma LinkedPrefix(c: seq<Envelope>, d: seq<Envelope>)
    requires Linked(d) && c <= d
    ensures Linked(c)
  {
    forall i | 0 <= i < |c|
      ensures c[i].message.senderLast == LastSequence(c[..i]) && c[i].message.senderLast < c[i].message.sequence
    {
      assert c[..i] == d[..i] && c[i] == d[i];
    }
  }

  // --------------------------------------------------------- table and history

  // What the table says of one node is what its messages say.
  predicate NodeTells(t: Table, envs: seq<Envelope>, n: NodeId) {
    && Linked(Chain(envs, n))
    && (n in t.rows ==> t.rows[n] == RowOf(n, Chain(envs, n)))
    && (n !in t.rows ==> Chain(envs, n) == [])
  }

  ghost predicate TableTells(cfg: Config, t: Table, envs: seq<Envelope>) {
    && t.rows.Keys == {ComputeId(cfg.seed)} + Added(envs)
    && (forall n :: NodeTells(t, envs, n))
  }

  lemma LinkedSnoc(c: seq<Envelope>, e: Envelope)
    requires Linked(c) && e.message.senderLast == LastSequence(c) && e.message.senderLast < e.message.sequence
    ensures Linked(c + [e])
  {
    var c' := c + [e];
    forall i | 0 <= i < |c'|
      ensures c'[i].message.senderLast == LastSequence(c'[..i]) && c'[i].message.senderLast < c'[i].message.sequence
    {
      assert c'[..i] == c[..i];
    }
  }

  lemma NodeTellsStep(cfg: Config, r: Replica, envs: seq<Envelope>, env: Envelope, n: NodeId)
    requires NodeTells(r.table, envs, n) && Deliver(cfg, r, env).error.None?
    ensures NodeTells(Deliver(cfg, r, env).state.table, envs + [env], n)
  {
    hide Deliver, Linked, Accept, Receive, Filter;
    DeliverEffect(cfg, r, env);
    FilterSnoc(envs, env, From(n));
    LinkedPositive(Chain(envs, n));
    if n == env.from {
      LinkedSnoc(Chain(envs, n), env);
    }
  }

  lemma NodesStep(cfg: Config, r: Replica, envs: seq<Envelope>, env: Envelope)
    requires r.table.rows.Keys == {ComputeId(cfg.seed)} + Added(envs) && Deliver(cfg, r, env).error.None?
    ensures Deliver(cfg, r, env).state.table.rows.Keys == {ComputeId(cfg.seed)} + Added(envs + [env])
  {
    DeliverEffect(cfg, r, env);
    hide Deliver;
    AddedSnoc(envs, env);
    assert r.table.rows[env.from := Advance(r.table.rows[env.from], env)].Keys == r.table.rows.Keys;
  }

  lemma TableTellsStep(cfg: Config, r: Replica, envs: seq<Envelope>, env: Envelope)
    requires TableTells(cfg, r.table, envs) && Deliver(cfg, r, env).error.None?
    ensures TableTells(cfg, Deliver(cfg, r, env).state.table, envs + [env])
  {
    hide Deliver, NodeTells;
    NodesStep(cfg, r, envs, env);
    var t', envs' := Deliver(cfg, r, env).state.table, envs + [env];
    forall n ensures NodeTells(t', envs', n) {
      assert NodeTells(r.table, envs, n);
      NodeTellsStep(cfg, r, envs, env, n);
    }
  }

  /** Over every run of successful steps, the table is exactly what the log's senders
      and AddUser records determine, and each sender's messages form a chain without a
      gap or a repeat. */
  lemma {:induction false} TableIsHistory(cfg: Config, envs: seq<Envelope>)
    requires Replay(cfg, envs).Some?
    ensures TableTells(cfg, Replay(cfg, envs).value.table, envs)
  {
    if envs != [] {
      var init, e := envs[..|envs| - 1], envs[|envs| - 1];
      TableIsHistory(cfg, init);
      TableTellsStep(cfg, Replay(cfg, init).value, init, e);
      assert init + [e] == envs;
    } else {
      assert forall n :: NodeTells(Seeded(cfg.seed), envs, n);
    }
  }

  // ---------------------------------------------------------- chat and history

  // NewChannel comes first, names the seed as owner, and never comes again: what
  // `init_chat` writes, and what the sends offered to callers cannot write.
  predicate Founded(cfg: Config, envs: seq<Envelope>) {
    && (forall i :: 0 <= i < |envs| ==> (envs[i].message.data.NewChannel? <==> i == 0))
    && (envs != [] ==> envs[0].message.data.NewChannel? && envs[0].message.data.owner == cfg.seed)
  }

  // Who belongs to the channel after a founded log.
  function Members(cfg: Config, envs: seq<Envelope>): set<NodeId> {
    if envs == [] then {} else {ComputeId(cfg.seed)} + Added(envs)
  }

  ghost predicate ChatIs(cfg: Config, c: ChatState, count: nat, members: set<NodeId>) {
    && c.id == cfg.channel
    && c.messageCount == count
    && c.owner == (if members == {} then None else Some(ComputeId(cfg.seed)))
    && c.users.Keys == members
    && (forall n :: n in c.users ==> c.users[n] == PubKey(n))
  }

  ghost predicate ChatTells(cfg: Config, c: ChatState, envs: seq<Envelope>) {
    ChatIs(cfg, c, |Filter(envs, Texts)|, Members(cfg, envs))
  }

  // The members after one more accepted message.
  function Joined(cfg: Config, members: set<NodeId>, data: Protocol): set<NodeId> {
    match data
    case NewChannel(_, _, _) => members + {ComputeId(cfg.seed)}
    case AddUser(_, key) => members + {ComputeId(key)}
    case ChatMessage(_) => members
  }

  lemma AcceptTells(cfg: Config, c: ChatState, count: nat, members: set<NodeId>, author: NodeId, data: Protocol)
    requires ChatIs(cfg, c, count, members)
    requires data.NewChannel? ==> data.owner == cfg.seed
    requires Accept(c, cfg.maxNodes, cfg.channel, author, data).Success?
    ensures ChatIs(cfg, Accept(c, cfg.maxNodes, cfg.channel, author, data).value.0,
                   if data.ChatMessage? then count + 1 else count, Joined(cfg, members, data))
    ensures data.AddUser? ==> author == ComputeId(cfg.seed)
    ensures !data.NewChannel? ==> members != {}
  {
    match data
    case NewChannel(_, _, _) =>
    case AddUser(_, _) =>
    case ChatMessage(_) =>
      assert author in members;
  }

  lemma MembersSnoc(cfg: Config, envs: seq<Envelope>, env: Envelope)
    requires env.message.data.NewChannel? <==> envs == []
    ensures Members(cfg, envs + [env]) == Joined(cfg, Members(cfg, envs), env.message.data)
  {
    AddedSnoc(envs, env);
    assert envs == [] ==> Added(envs) == {};
  }

  lemma ChatTellsStep(cfg: Config, r: Replica, envs: seq<Envelope>, env: Envelope)
    requires ChatTells(cfg, r.chat, envs) && Founded(cfg, envs + [env])
    requires Deliver(cfg, r, env).error.None?
    ensures ChatTells(cfg, Deliver(cfg, r, env).state.chat, envs + [env])
    ensures env.message.data.AddUser? ==> env.from == ComputeId(cfg.seed)
  {
    assert (envs + [env])[|envs|] == env;
    DeliverEffect(cfg, r, env);
    AcceptTells(cfg, r.chat, |Filter(envs, Texts)|, Members(cfg, envs), env.from, env.message.data);
    FilterSnoc(envs, env, Texts);
    MembersSnoc(cfg, envs, env);
  }

  lemma FoundedPrefix(cfg: Config, envs: seq<Envelope>, k: nat)
    requires Founded(cfg, envs) && k <= |envs|
    ensures Founded(cfg, envs[..k])
  {}

  /** Over every run of successful steps on a founded log, the chat is what the log
      determines: its message counter counts the chat messages, and its members are the
      owner and the users the owner added. */
  lemma {:induction false} ChatIsHistory(cfg: Config, envs: seq<Envelope>)
    requires Replay(cfg, envs).Some? && Founded(cfg, envs)
    ensures ChatTells(cfg, Replay(cfg, envs).value.chat, envs)
    ensures forall e :: e in envs && e.message.data.AddUser? ==> e.from == ComputeId(cfg.seed)
  {
    if envs != [] {
      var init, e := envs[..|envs| - 1], envs[|envs| - 1];
      FoundedPrefix(cfg, envs, |init|);
      ChatIsHistory(cfg, init);
      assert init + [e] == envs;
      ChatTellsStep(cfg, Replay(cfg, init).value, init, e);
    }
  }

  lemma ChainsAreLinked(cfg: Config, envs: seq<Envelope>, n: NodeId)
    requires Replay(cfg, envs).Some?
    ensures Linked(Chain(envs, n))
  {
    TableIsHistory(cfg, envs);
    assert NodeTells(Replay(cfg, envs).value.table, envs, n);
  }

  /** Chat users and table nodes are the same set once the channel is founded. */
  lemma MembersAreNodes(cfg: Config, envs: seq<Envelope>)
    requires Replay(cfg, envs).Some? && Founded(cfg, envs) && envs != []
    ensures Replay(cfg, envs).value.chat.users.Keys == Replay(cfg, envs).value.table.rows.Keys
  {
    TableIsHistory(cfg, envs);
    ChatIsHistory(cfg, envs);
  }

  /** Whoever wrote record k is the owner or was added by an earlier record of the
      owner's. */
  lemma AuthorsWereAdded(cfg: Config, envs: seq<Envelope>, k: nat)
    requires Replay(cfg, envs).Some? && Founded(cfg, envs) && k < |envs|
    ensures envs[k].from == ComputeId(cfg.seed)
            || exists j :: 0 <= j < k && envs[j].message.data.AddUser?
                           && ComputeId(envs[j].message.data.key) == envs[k].from
                           && envs[j].from == ComputeId(cfg.seed)
  {
    ReplayAt(cfg, envs, k);
    TableIsHistory(cfg, envs[..k]);
    ChatIsHistory(cfg, envs);
    if envs[k].from != ComputeId(cfg.seed) {
      AddedBy(envs[..k], envs[k].from);
    }
  }

  lemma {:induction false} AddedBy(envs: seq<Envelope>, n: NodeId)
    ensures n in Added(envs) <==>
            exists j :: 0 <= j < |envs| && envs[j].message.data.AddUser? && ComputeId(envs[j].message.data.key) == n
  {
    if envs != [] {
      AddedBy(envs[..|envs| - 1], n);
      assert forall j :: 0 <= j < |envs| - 1 ==> envs[..|envs| - 1][j] == envs[j];
    }
  }

  // ------------------------------------------------------------------ one step

  /** Record k of a replayed log was delivered, successfully, to the replay of the
      records before it. */
  lemma ReplayAt(cfg: Config, envs: seq<Envelope>, k: nat)
    requires Replay(cfg, envs).Some? && k < |envs|
    ensures Replay(cfg, envs[..k]).Some? && Replay(cfg, envs[..k + 1]).Some?
    ensures Deliver(cfg, Replay(cfg, envs[..k]).value, envs[k]).error.None?
    ensures Replay(cfg, envs[..k + 1]).value == Deliver(cfg, Replay(cfg, envs[..k]).value, envs[k]).state
    ensures Check(Replay(cfg, envs[..k]).value.table, envs[k].from, envs[k].message).None?
  {
    ReplayPrefix(cfg, envs, k);
    ReplayPrefix(cfg, envs, k + 1);
    assert envs[..k + 1][..k] == envs[..k];
  }

  /** A log is causally closed: before a record come its sender's previous message and,
      when its sequence exceeds one, a message of its cause at least as high as the
      sequence below it. */
  lemma CausallyClosed(cfg: Config, envs: seq<Envelope>, k: nat)
    requires Replay(cfg, envs).Some? && k < |envs|
    ensures var m := envs[k].message;
            && m.senderLast < m.sequence
            && (m.senderLast > 0 ==>
                  exists j :: 0 <= j < k && envs[j].from == envs[k].from && envs[j].message.sequence == m.senderLast)
            && (m.sequence > 1 ==>
                  exists j :: 0 <= j < k && envs[j].from == m.cause && envs[j].message.sequence >= m.sequence - 1)
  {
    ReplayAt(cfg, envs, k);
    TableIsHistory(cfg, envs[..k]);
    var t, m := Replay(cfg, envs[..k]).value.table, envs[k].message;
    assert NodeTells(t, envs[..k], envs[k].from) && NodeTells(t, envs[..k], m.cause);
    if m.senderLast > 0 {
      var _ := LastOf(envs[..k], envs[k].from);
    }
    if m.sequence > 1 {
      var _ := LastOf(envs[..k], m.cause);
    }
  }

  // No message of a sender is above its last.
  lemma BelowLast(envs: seq<Envelope>, e: Envelope)
    requires Linked(Chain(envs, e.from)) && e in envs
    ensures e.message.sequence <= LastSequence(Chain(envs, e.from))
    ensures Chain(envs, e.from) != []
  {
    hide Linked;
    var c := Chain(envs, e.from);
    FilterMember(envs, From(e.from), e);
    var i :| 0 <= i < |c| && c[i] == e;
    if i < |c| - 1 {
      LinkedAscends(c, i, |c| - 1);
    }
  }

  /** No message is stored twice. */
  lemma NoRepeats(cfg: Config, envs: seq<Envelope>, i: nat, j: nat)
    requires Replay(cfg, envs).Some? && i < j < |envs|
    ensures envs[i] != envs[j]
  {
    hide Replay, Deliver, Filter;
    if envs[i] == envs[j] {
      ReplayAt(cfg, envs, j);
      TableIsHistory(cfg, envs[..j]);
      assert envs[..j][i] in envs[..j];
      assert NodeTells(Replay(cfg, envs[..j]).value.table, envs[..j], envs[j].from);
      BelowLast(envs[..j], envs[j]);
    }
  }

  // What admission means for a log: the sender belongs, its message follows its last one,
  // and some message of its cause reaches the sequence below it.
  ghost predicate Follows(cfg: Config, envs: seq<Envelope>, from: NodeId, m: Message<Protocol>) {
    && (from == ComputeId(cfg.seed) || from in Added(envs))
    && m.senderLast == LastSequence(Chain(envs, from)) < m.sequence
    && (m.sequence <= 1 || exists e :: e in envs && e.from == m.cause && e.message.sequence >= m.sequence - 1)
  }

  /** A table that a log led to admits a message if and only if the message follows the
      log. */
  lemma AdmittedIff(cfg: Config, envs: seq<Envelope>, from: NodeId, m: Message<Protocol>)
    requires Replay(cfg, envs).Some?
    ensures Check(Replay(cfg, envs).value.table, from, m).None? <==> Follows(cfg, envs, from, m)
  {
    hide Replay;
    TableIsHistory(cfg, envs);
    var t := Replay(cfg, envs).value.table;
    assert NodeTells(t, envs, from) && NodeTells(t, envs, m.cause);
    if m.sequence > 1 {
      CauseReaches(t, envs, m.cause, m.sequence - 1);
    }
  }

  // The sequence up to which a log has a sender's messages, and who belongs to its table.
  function Reached(envs: seq<Envelope>, n: NodeId): u64 {
    LastSequence(Chain(envs, n))
  }

  predicate Belongs(cfg: Config, envs: seq<Envelope>, n: NodeId) {
    n == ComputeId(cfg.seed) || n in Added(envs)
  }

  // What a device that holds a log has to say to a message.
  function Verdict(cfg: Config, envs: seq<Envelope>, from: NodeId, m: Message<Protocol>): Option<ChannelError> {
    var held, below := Reached(envs, from), if m.sequence == 0 then 0 else m.sequence - 1;
    if !Belongs(cfg, envs, from) then Some(UnknownNode)
    else if m.sequence <= held then Some(AlreadyReceived)
    else if m.senderLast != held then Some(MissingFromSender(from, held, m.senderLast))
    else if Reached(envs, m.cause) < below then Some(MissingFromSender(m.cause, Reached(envs, m.cause), below))
    else None
  }

  /** After any run the check says of a message exactly what follows from the log: who is
      unknown, what was received, and of whom which sequence is held and which is missing. */
  lemma CheckIsVerdict(cfg: Config, envs: seq<Envelope>, from: NodeId, m: Message<Protocol>)
    requires Replay(cfg, envs).Some?
    ensures Check(Replay(cfg, envs).value.table, from, m) == Verdict(cfg, envs, from, m)
  {
    hide Replay, Filter, Linked;
    TableIsHistory(cfg, envs);
    var t := Replay(cfg, envs).value.table;
    assert NodeTells(t, envs, from) && NodeTells(t, envs, m.cause);
  }

  /** What a member addresses after any run: the next sequence of the whole log, after its
      own last message, and caused by a node that has sent the highest so far. Anyone else
      is unknown, and the counter may be at its end. */
  lemma AddressTellsLog(cfg: Config, envs: seq<Envelope>, from: NodeId, data: Protocol)
    requires Replay(cfg, envs).Some? && cfg.maxNodes > 0
    ensures var t := Replay(cfg, envs).value.table;
            var addressed := Address(t, from, data);
            if !Belongs(cfg, envs, from) then addressed == Failure(UnknownNode)
            else if MaxOver(envs) == U64_MAX then addressed == Failure(SequenceOverflow)
            else
              && addressed == Success(Message(t.newest, Reached(envs, from), MaxOver(envs) + 1, data))
              && Belongs(cfg, envs, t.newest) && Reached(envs, t.newest) == MaxOver(envs)
  {
    hide Replay, Filter, Linked;
    TableIsHistory(cfg, envs);
    TableStaysValid(cfg, envs);
    var t := Replay(cfg, envs).value.table;
    assert NodeTells(t, envs, from) && NodeTells(t, envs, t.newest);
    assert from in t.rows ==> RowValid(t, from);
  }

  // What a channel with these members and so many texts has to say to a message's contents.
  function ChatObjects(cfg: Config, members: set<NodeId>, texts: nat, id: ChannelId, author: NodeId, data: Protocol)
    : Option<ChatError>
  {
    var full := |members| >= cfg.maxNodes;
    match data
    case NewChannel(_, _, owner) =>
      if id != cfg.channel then Some(UnexpectedId)
      else if ComputeId(owner) !in members && full then Some(MaxUsersExceeded)
      else None
    case AddUser(_, key) =>
      if members == {} then Some(Uninitialized)
      else if author != ComputeId(cfg.seed) then Some(Unauthorized)
      else if ComputeId(key) !in members && full then Some(MaxUsersExceeded)
      else None
    case ChatMessage(_) =>
      if author !in members then Some(Unauthorized)
      else if texts >= U64_MAX then Some(ChatUnreachable)
      else None
  }

  // What it reports of one it accepts.
  function ChatReports(texts: nat, data: Protocol): Accepted
    requires texts < U64_MAX
  {
    match data
    case NewChannel(_, _, _) => Nothing
    case AddUser(_, key) => UserAdded(key)
    case ChatMessage(_) => NewMessage(texts + 1)
  }

  lemma AcceptOfMembers(cfg: Config, c: ChatState, texts: nat, members: set<NodeId>,
                        id: ChannelId, author: NodeId, data: Protocol)
    requires ChatIs(cfg, c, texts, members)
    ensures var accepted := Accept(c, cfg.maxNodes, id, author, data);
            var objects := ChatObjects(cfg, members, texts, id, author, data);
            if objects.Some? then accepted == Failure(objects.value)
            else accepted.Success? && (texts < U64_MAX ==> accepted.value.1 == ChatReports(texts, data))
  {
    assert |c.users| == |c.users.Keys| == |members|;
    match data
    case NewChannel(_, _, _) =>
    case AddUser(_, _) =>
    case ChatMessage(_) =>
  }

  /** On a founded log the chat refuses exactly this: the founding of another channel, users
      added before there is an owner, by anyone else or beyond the bound, texts of strangers,
      and a text too many to count. Otherwise it tells a new user's key from a text's
      number. The members are the owner and those it added, once there is a record. */
  lemma AcceptIsVerdict(cfg: Config, envs: seq<Envelope>, id: ChannelId, author: NodeId, data: Protocol)
    requires Replay(cfg, envs).Some? && Founded(cfg, envs)
    ensures var accepted := Accept(Replay(cfg, envs).value.chat, cfg.maxNodes, id, author, data);
            var texts := |Filter(envs, Texts)|;
            var objects := ChatObjects(cfg, Members(cfg, envs), texts, id, author, data);
            if objects.Some? then accepted == Failure(objects.value)
            else accepted.Success? && (texts < U64_MAX ==> accepted.value.1 == ChatReports(texts, data))
    ensures Members(cfg, envs) == {} <==> envs == []
  {
    hide Replay, Filter, Accept, ChatObjects, ChatReports, ChatIs;
    ChatIsHistory(cfg, envs);
    AcceptOfMembers(cfg, Replay(cfg, envs).value.chat, |Filter(envs, Texts)|, Members(cfg, envs), id, author, data);
  }

  /** What an accepted message leaves of any chat: a founding makes its owner the owner,
      whoever was, and a member; an added user is a member more; a text is one more. Nothing
      else changes. */
  lemma AcceptLeaves(c: ChatState, max: nat, id: ChannelId, author: NodeId, data: Protocol)
    requires Accept(c, max, id, author, data).Success?
    ensures var c' := Accept(c, max, id, author, data).value.0;
            && c'.id == c.id
            && c'.owner == (if data.NewChannel? then Some(ComputeId(data.owner)) else c.owner)
            && c'.messageCount as int == c.messageCount + (if data.ChatMessage? then 1 else 0)
            && c'.users.Keys == c.users.Keys + (match data
                                                case NewChannel(_, _, owner) => {ComputeId(owner)}
                                                case AddUser(_, key) => {ComputeId(key)}
                                                case ChatMessage(_) => {})
            && (data.AddUser? ==> c'.users[ComputeId(data.key)] == data.key)
            && (forall n :: n in c.users && !(data.AddUser? && n == ComputeId(data.key))
                            && !(data.NewChannel? && n == ComputeId(data.owner))
                            ==> c'.users[n] == c.users[n])
  {}

  lemma CauseReaches(t: Table, envs: seq<Envelope>, cause: NodeId, target: u64)
    requires NodeTells(t, envs, cause) && target > 0
    ensures (cause in t.rows && t.rows[cause].sequence >= target) <==>
            exists e :: e in envs && e.from == cause && e.message.sequence >= target
  {
    if cause in t.rows && t.rows[cause].sequence >= target {
      var j := LastOf(envs, cause);
      assert envs[j] in envs;
    }
    if e :| e in envs && e.from == cause && e.message.sequence >= target {
      BelowLast(envs, e);
    }
  }

  // Where in the log the last message of a sender is.
  lemma LastOf(envs: seq<Envelope>, n: NodeId) returns (j: nat)
    requires Chain(envs, n) != []
    ensures j < |envs| && envs[j].from == n && envs[j].message.sequence == LastSequence(Chain(envs, n))
  {
    var c := Chain(envs, n);
    FilterMember(envs, From(n), c[|c| - 1]);
    j :| 0 <= j < |envs| && envs[j] == c[|c| - 1];
  }

  // -------------------------------------------------------------- the counter

  /** The table stays valid over every run, and its maximum is the greatest sequence in
      the log. */
  lemma {:induction false} TableStaysValid(cfg: Config, envs: seq<Envelope>)
    requires Replay(cfg, envs).Some? && cfg.maxNodes > 0
    ensures TableValid(Replay(cfg, envs).value.table, cfg.maxNodes)
    ensures MaxSequence(Replay(cfg, envs).value.table) == MaxOver(envs)
  {
    if envs != [] {
      var init, e := envs[..|envs| - 1], envs[|envs| - 1];
      TableStaysValid(cfg, init);
      DeliverMax(cfg, Replay(cfg, init).value, e);
    }
  }

  /** Over every run the newest node's last message has the greatest sequence and, among
      the messages that share it, the greatest id. */
  lemma NewestIsGreatest(cfg: Config, envs: seq<Envelope>, n: NodeId)
    requires Replay(cfg, envs).Some? && cfg.maxNodes > 0 && n in Replay(cfg, envs).value.table.rows
    ensures var t := Replay(cfg, envs).value.table;
            && t.newest in t.rows
            && t.rows[t.newest].sequence >= t.rows[n].sequence
            && (t.rows[t.newest].sequence == t.rows[n].sequence ==> t.rows[t.newest].id >= t.rows[n].id)
  {
    hide Replay;
    TableStaysValid(cfg, envs);
    assert RowValid(Replay(cfg, envs).value.table, n);
  }

  // The three tables a delivery can leave.
  lemma DeliverTable(cfg: Config, r: Replica, env: Envelope)
    ensures var step := Deliver(cfg, r, env);
            var received := Receive(r.table, env.from, env.message, env.id);
            || step.state.table == r.table
            || (received.Success? && step.state.table == received.value.0)
            || (received.Success? && env.message.data.AddUser?
                && AddNode(received.value.0, cfg.maxNodes, env.message.data.key) == Success(step.state.table))
    ensures Deliver(cfg, r, env).error == Some(Unreachable) ==>
              Check(r.table, env.from, env.message).None? && Receive(r.table, env.from, env.message, env.id).Failure?
    ensures Deliver(cfg, r, env).error.None? ==> Deliver(cfg, r, env).state.table != r.table
  {
    if Deliver(cfg, r, env).error.None? {
      DeliverEffect(cfg, r, env);
    }
  }

  /** No delivery, successful or not, breaks the table, and none reaches a branch the
      source marks unreachable; a successful one stores the new maximum. */
  lemma DeliverValid(cfg: Config, r: Replica, env: Envelope)
    requires TableValid(r.table, cfg.maxNodes)
    ensures TableValid(Deliver(cfg, r, env).state.table, cfg.maxNodes)
    ensures Deliver(cfg, r, env).error != Some(Unreachable)
  {
    DeliverTable(cfg, r, env);
    ReceiveValid(r.table, cfg.maxNodes, env.from, env.message, env.id);
    var received := Receive(r.table, env.from, env.message, env.id);
    if received.Success? && env.message.data.AddUser? {
      AddNodeValid(received.value.0, cfg.maxNodes, env.message.data.key);
    }
  }

  lemma DeliverMax(cfg: Config, r: Replica, env: Envelope)
    requires TableValid(r.table, cfg.maxNodes) && Deliver(cfg, r, env).error.None?
    ensures TableValid(Deliver(cfg, r, env).state.table, cfg.maxNodes)
    ensures var max := MaxSequence(Deliver(cfg, r, env).state.table);
            && max == Max(MaxSequence(r.table), env.message.sequence)
            && max <= MaxSequence(r.table) + 1
            && |Deliver(cfg, r, env).state.log| == |r.log| + 1
            && Deliver(cfg, r, env).state.log[|r.log|].maxSequence == max
  {
    DeliverValid(cfg, r, env);
    DeliverTable(cfg, r, env);
    DeliverEffect(cfg, r, env);
    ReceiveValid(r.table, cfg.maxNodes, env.from, env.message, env.id);
    var received := Receive(r.table, env.from, env.message, env.id);
    if env.message.data.AddUser? {
      AddNodeValid(received.value.0, cfg.maxNodes, env.message.data.key);
    }
  }

  /** The counter cannot be jumped: after k records it is at most k, and every value up
      to it occurs. */
  lemma {:induction false} NoJump(cfg: Config, envs: seq<Envelope>, v: nat)
    requires Replay(cfg, envs).Some? && cfg.maxNodes > 0
    ensures MaxOver(envs) <= |envs|
    ensures 1 <= v <= MaxOver(envs) ==> exists i :: 0 <= i < |envs| && envs[i].message.sequence == v
  {
    if envs != [] {
      var init, e := envs[..|envs| - 1], envs[|envs| - 1];
      NoJump(cfg, init, v);
      TableStaysValid(cfg, init);
      DeliverMax(cfg, Replay(cfg, init).value, e);
      if 1 <= v <= MaxOver(init) {
        var i :| 0 <= i < |init| && init[i].message.sequence == v;
        assert envs[i].message.sequence == v;
      }
    }
  }
}
