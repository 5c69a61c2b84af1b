/** Causal admission: the bounded node table, what a message must prove to enter
    it, and the addressing of a new message. */
module Channel {
  import opened Types

  // ---------------------------------------------------------------- values

  datatype Message<+T> = Message(cause: NodeId, senderLast: u64, sequence: u64, data: T)

  datatype Row = Row(key: PubKey, id: EnvelopeId, first: u64, sequence: u64)

  // The table as a value: one row a node, and the node holding the newest message.
  datatype Table = Table(rows: map<NodeId, Row>, newest: NodeId)

  function EmptyRow(key: PubKey): Row {
    Row(key, NO_ENVELOPE, 0, 0)
  }

  function Seeded(key: PubKey): Table {
    Table(map[ComputeId(key) := EmptyRow(key)], ComputeId(key))
  }

  function AddNode(t: Table, max: nat, key: PubKey): Result<Table, ChannelError> {
    if ComputeId(key) in t.rows then Failure(NodeExists)
    else if |t.rows| >= max then Failure(ClientMax(max))
    else Success(t.(rows := t.rows[ComputeId(key) := EmptyRow(key)]))
  }

  // What `check_receive` objects to, if anything.
  function Check<T>(t: Table, from: NodeId, m: Message<T>): Option<ChannelError> {
    if from !in t.rows then Some(UnknownNode)
    else if t.rows[from].sequence >= m.sequence then Some(AlreadyReceived)
    else if t.rows[from].sequence != m.senderLast then
      Some(MissingFromSender(from, t.rows[from].sequence, m.senderLast))
    else
      var target := if m.sequence == 0 then 0 else m.sequence - 1;
      var have := if m.cause in t.rows then t.rows[m.cause].sequence else 0;
      if have < target then Some(MissingFromSender(m.cause, have, target)) else None
  }

  predicate Older(s1: u64, id1: EnvelopeId, s2: u64, id2: EnvelopeId) {
    s1 < s2 || (s1 == s2 && id1 < id2)
  }

  // The table after the message and the sequence stored with it. The source marks
  // a missing newest node as unreachable.
  function Receive<T>(t: Table, from: NodeId, m: Message<T>, id: EnvelopeId): Result<(Table, u64), ChannelError> {
    match Check(t, from, m)
    case Some(e) => Failure(e)
    case None =>
      if t.newest !in t.rows then Failure(ChannelUnreachable)
      else
        var current := t.rows[t.newest];
        var row := t.rows[from];
        var first := if row.first == 0 then m.sequence else row.first;
        var rows := t.rows[from := Row(row.key, id, first, m.sequence)];
        if Older(current.sequence, current.id, m.sequence, id)
        then Success((Table(rows, from), m.sequence))
        else Success((Table(rows, t.newest), current.sequence))
  }

  function Address<T>(t: Table, from: NodeId, data: T): Result<Message<T>, ChannelError> {
    if from !in t.rows then Failure(UnknownNode)
    else if t.newest !in t.rows then Failure(ChannelUnreachable)
    else
      var current := t.rows[t.newest];
      var last := if t.rows[from].sequence > current.sequence then t.rows[from].sequence else current.sequence;
      if last == U64_MAX then Failure(SequenceOverflow)
      else Success(Message(t.newest, t.rows[from].sequence, last + 1, data))
  }

  // ------------------------------------------------------------- invariant

  // What is asked of each row of a table.
  predicate RowValid(t: Table, n: NodeId)
    requires t.newest in t.rows && n in t.rows
  {
    && ComputeId(t.rows[n].key) == n
    && t.rows[n].first <= t.rows[n].sequence
    && (t.rows[n].first == 0 <==> t.rows[n].sequence == 0)
    && (t.rows[n].sequence == 0 ==> t.rows[n].id == NO_ENVELOPE)
    && !Older(t.rows[t.newest].sequence, t.rows[t.newest].id, t.rows[n].sequence, t.rows[n].id)
  }

  ghost predicate TableValid(t: Table, max: nat) {
    && t.newest in t.rows
    && |t.rows| <= max
    && (forall n :: n in t.rows ==> RowValid(t, n))
  }

  // The greatest sequence any row holds.
  function MaxSequence(t: Table): u64
    requires t.newest in t.rows
  {
    t.rows[t.newest].sequence
  }

  lemma SeededValid(key: PubKey, max: nat)
    requires max > 0
    ensures TableValid(Seeded(key), max)
    ensures Seeded(key) == Table(map[ComputeId(key) := Row(key, 0, 0, 0)], ComputeId(key))
  {}

  lemma HasRoom(t: Table, max: nat)
    requires TableValid(t, max)
    ensures max > 0
  {
    assert t.rows.Keys != {};
  }

  lemma AddNodeValid(t: Table, max: nat, key: PubKey)
    requires TableValid(t, max)
    ensures AddNode(t, max, key).Success? ==>
              TableValid(AddNode(t, max, key).value, max) && MaxSequence(AddNode(t, max, key).value) == MaxSequence(t)
  {}

  /** A node is added once, as one that has sent nothing, while there is room; a present one
      is reported as such even when there is not. */
  lemma AddNodeReports(t: Table, max: nat, key: PubKey)
    ensures var added := AddNode(t, max, key);
            if ComputeId(key) in t.rows then added == Failure(NodeExists)
            else if |t.rows| >= max then added == Failure(ClientMax(max))
            else
              && added.Success? && added.value.newest == t.newest
              && added.value.rows.Keys == t.rows.Keys + {ComputeId(key)}
              && added.value.rows[ComputeId(key)] == Row(key, 0, 0, 0)
              && (forall n :: n in t.rows ==> added.value.rows[n] == t.rows[n])
  {}

  lemma UpdateSize(m: map<NodeId, Row>, n: NodeId, row: Row)
    requires n in m
    ensures m[n := row].Keys == m.Keys && |m[n := row]| == |m|
  {
    assert m[n := row].Keys == m.Keys;
    assert |m[n := row]| == |m[n := row].Keys|;
  }

  lemma ReceiveRow<T>(t: Table, max: nat, from: NodeId, m: Message<T>, id: EnvelopeId, n: NodeId)
    requires TableValid(t, max) && Check(t, from, m).None? && n in t.rows
    ensures Receive(t, from, m, id).Success?
    ensures var t' := Receive(t, from, m, id).value.0;
            && t'.newest in t'.rows && n in t'.rows
            && RowValid(t', n)
            && t'.rows[n].sequence <= MaxSequence(t')
  {
    assert RowValid(t, from) && RowValid(t, n);
  }

  lemma ReceiveMax<T>(t: Table, max: nat, from: NodeId, m: Message<T>, id: EnvelopeId)
    requires TableValid(t, max) && Check(t, from, m).None?
    ensures Receive(t, from, m, id).Success?
    ensures var (t', s) := Receive(t, from, m, id).value;
            && t'.rows.Keys == t.rows.Keys
            && |t'.rows| == |t.rows|
            && t'.newest in t'.rows
            && s == MaxSequence(t')
            && MaxSequence(t) <= s <= MaxSequence(t) + 1
  {
    assert m.cause in t.rows ==> RowValid(t, m.cause);
    UpdateSize(t.rows, from, Receive(t, from, m, id).value.0.rows[from]);
  }

  /** On a valid table `receive` fails exactly when the check does, so the branches the
      source marks unreachable are dead; it keeps the invariant, returns the true
      maximum over the new table, and moves that maximum by at most one. */
  lemma ReceiveValid<T>(t: Table, max: nat, from: NodeId, m: Message<T>, id: EnvelopeId)
    requires TableValid(t, max)
    ensures Receive(t, from, m, id).Success? <==> Check(t, from, m).None?
    ensures Check(t, from, m).Some? ==> Receive(t, from, m, id) == Failure(Check(t, from, m).value)
    ensures Receive(t, from, m, id).Success? ==>
              var (t', s) := Receive(t, from, m, id).value;
              && TableValid(t', max)
              && s == MaxSequence(t')
              && (forall n :: n in t'.rows ==> t'.rows[n].sequence <= s)
              && MaxSequence(t) <= s <= MaxSequence(t) + 1
  {
    if Check(t, from, m).None? {
      ReceiveMax(t, max, from, m, id);
      var t' := Receive(t, from, m, id).value.0;
      forall n | n in t'.rows ensures RowValid(t', n) && t'.rows[n].sequence <= MaxSequence(t') {
        ReceiveRow(t, max, from, m, id, n);
      }
      hide Check, Receive, RowValid;
    }
  }

  /** A message made by `address` is always admitted by the table it was made on,
      becomes the newest, and raises the maximum by exactly one. */
  lemma AddressedIsAdmitted<T>(t: Table, max: nat, from: NodeId, data: T, id: EnvelopeId)
    requires TableValid(t, max)
    ensures Address(t, from, data).Success? <==> from in t.rows && MaxSequence(t) < U64_MAX
    ensures Address(t, from, data).Success? ==>
              var m := Address(t, from, data).value;
              && m.data == data
              && Receive(t, from, m, id).Success?
              && Receive(t, from, m, id).value.1 == MaxSequence(t) + 1
              && Receive(t, from, m, id).value.0.newest == from
  {
    assert from in t.rows ==> t.rows[from].sequence <= MaxSequence(t);
  }

  /** Adding a node before or after `receive` leads to the same table, and neither
      order changes the verdict on the message. */
  lemma AddNodeCommutes<T>(t: Table, max: nat, key: PubKey, from: NodeId, m: Message<T>, id: EnvelopeId)
    requires TableValid(t, max) && Check(t, from, m).None?
    ensures var received := Receive(t, from, m, id);
            && received.Success?
            && var after := AddNode(received.value.0, max, key);
            var before := AddNode(t, max, key);
            && (after.Failure? <==> before.Failure?)
            && (after.Failure? ==> after.error == before.error)
            && (before.Success? ==>
                  && Check(before.value, from, m).None?
                  && Receive(before.value, from, m, id) == Success((after.value, received.value.1)))
  {
    var t' := Receive(t, from, m, id).value.0;
    UpdateSize(t.rows, from, t'.rows[from]);
    if AddNode(t, max, key).Success? {
      var b := AddNode(t, max, key).value;
      assert b.rows[from] == t.rows[from] && b.rows[t.newest] == t.rows[t.newest];
      assert b.rows[from := t'.rows[from]] == t'.rows[ComputeId(key) := EmptyRow(key)];
    }
  }
}
