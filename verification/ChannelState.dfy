/** The node table as the source keeps it: a bounded list sorted by node id. */
module ChannelTable {
  import opened Types
  import opened Channel

  datatype NodeSequence = NodeSequence(publicKey: PubKey, node: NodeId, id: EnvelopeId, first: u64, sequence: u64)

  predicate Sorted(nodes: seq<NodeSequence>) {
    forall i, j :: 0 <= i < j < |nodes| ==> nodes[i].node < nodes[j].node
  }

  function RowOf(ns: NodeSequence): Row {
    Row(ns.publicKey, ns.id, ns.first, ns.sequence)
  }

  // The table that a list of nodes stands for.
  function Rows(nodes: seq<NodeSequence>): map<NodeId, Row> {
    if nodes == [] then map[]
    else
      var last := nodes[|nodes| - 1];
      Rows(nodes[..|nodes| - 1])[last.node := RowOf(last)]
  }

  lemma {:induction false} NotListed(nodes: seq<NodeSequence>, n: NodeId)
    requires forall i :: 0 <= i < |nodes| ==> nodes[i].node != n
    ensures n !in Rows(nodes)
  {
    if nodes != [] {
      NotListed(nodes[..|nodes| - 1], n);
    }
  }

  lemma {:induction false} RowsAt(nodes: seq<NodeSequence>, i: nat)
    requires Sorted(nodes) && i < |nodes|
    ensures nodes[i].node in Rows(nodes) && Rows(nodes)[nodes[i].node] == RowOf(nodes[i])
  {
    if i < |nodes| - 1 {
      RowsAt(nodes[..|nodes| - 1], i);
    }
  }

  lemma {:induction false} RowsSize(nodes: seq<NodeSequence>)
    requires Sorted(nodes)
    ensures |Rows(nodes)| == |nodes|
  {
    if nodes != [] {
      RowsSize(nodes[..|nodes| - 1]);
      NotListed(nodes[..|nodes| - 1], nodes[|nodes| - 1].node);
    }
  }

  lemma {:induction false} RowsUpdate(nodes: seq<NodeSequence>, i: nat, ns: NodeSequence)
    requires Sorted(nodes) && i < |nodes| && ns.node == nodes[i].node
    ensures Sorted(nodes[i := ns])
    ensures Rows(nodes[i := ns]) == Rows(nodes)[ns.node := RowOf(ns)]
  {
    var init, last := nodes[..|nodes| - 1], nodes[|nodes| - 1];
    if i < |init| {
      RowsUpdate(init, i, ns);
      assert nodes[i := ns][..|init|] == init[i := ns];
    } else {
      assert nodes[i := ns][..|init|] == init;
    }
  }

  lemma UpdatesCommute(m: map<NodeId, Row>, n: NodeId, row: Row, n': NodeId, row': Row)
    requires n != n'
    ensures m[n := row][n' := row'] == m[n' := row'][n := row]
  {
    var left, right := m[n := row][n' := row'], m[n' := row'][n := row];
    assert left.Keys == right.Keys;
    assert forall k :: k in left ==> left[k] == right[k];
  }

  function Insert(nodes: seq<NodeSequence>, i: nat, ns: NodeSequence): seq<NodeSequence>
    requires i <= |nodes|
  {
    nodes[..i] + [ns] + nodes[i..]
  }

  lemma InsertSorted(nodes: seq<NodeSequence>, i: nat, ns: NodeSequence)
    requires Sorted(nodes) && i <= |nodes|
    requires forall k :: 0 <= k < i ==> nodes[k].node < ns.node
    requires forall k :: i <= k < |nodes| ==> ns.node < nodes[k].node
    ensures Sorted(Insert(nodes, i, ns))
  {}

  lemma {:induction false} RowsInsert(nodes: seq<NodeSequence>, i: nat, ns: NodeSequence)
    requires i <= |nodes|
    requires forall k :: i <= k < |nodes| ==> ns.node < nodes[k].node
    ensures Rows(Insert(nodes, i, ns)) == Rows(nodes)[ns.node := RowOf(ns)]
  {
    var all := Insert(nodes, i, ns);
    if i < |nodes| {
      var init, last := nodes[..|nodes| - 1], nodes[|nodes| - 1];
      RowsInsert(init, i, ns);
      assert all[..|nodes|] == Insert(init, i, ns) && all[|nodes|] == last;
      UpdatesCommute(Rows(init), ns.node, RowOf(ns), last.node, RowOf(last));
    } else {
      assert all[..|nodes|] == nodes && all[|nodes|] == ns;
    }
  }

  /** A sorted list is the only sorted list of its table: two devices with the same table
      list the same nodes in the same order. */
  lemma {:induction false} SortedIsCanonical(xs: seq<NodeSequence>, ys: seq<NodeSequence>)
    requires Sorted(xs) && Sorted(ys) && Rows(xs) == Rows(ys)
    requires forall i :: 0 <= i < |xs| ==> ComputeId(xs[i].publicKey) == xs[i].node
    ensures xs == ys
  {
    RowsSize(xs);
    RowsSize(ys);
    if xs != [] {
      var x, y := xs[|xs| - 1], ys[|ys| - 1];
      SameLast(xs, ys);
      SameLast(ys, xs);
      RowsAt(xs, |xs| - 1);
      RowsAt(ys, |ys| - 1);
      NotListed(xs[..|xs| - 1], x.node);
      NotListed(ys[..|ys| - 1], y.node);
      assert Rows(xs[..|xs| - 1]) == Rows(xs) - {x.node};
      assert Rows(ys[..|ys| - 1]) == Rows(ys) - {y.node};
      SortedIsCanonical(xs[..|xs| - 1], ys[..|ys| - 1]);
    }
  }

  lemma SameLast(xs: seq<NodeSequence>, ys: seq<NodeSequence>)
    requires Sorted(xs) && Sorted(ys) && Rows(xs) == Rows(ys) && xs != [] && ys != []
    ensures xs[|xs| - 1].node <= ys[|ys| - 1].node
  {
    RowsAt(xs, |xs| - 1);
    if ys[|ys| - 1].node < xs[|xs| - 1].node {
      NotListed(ys, xs[|xs| - 1].node);
    }
  }

  // The standard library's binary search: where the id is, or where it belongs.
  method BinarySearch(nodes: seq<NodeSequence>, id: NodeId) returns (found: bool, index: nat)
    requires Sorted(nodes)
    ensures index <= |nodes|
    ensures found ==> index < |nodes| && nodes[index].node == id
    ensures !found ==> (forall k :: 0 <= k < index ==> nodes[k].node < id)
                       && (forall k :: index <= k < |nodes| ==> id < nodes[k].node)
    ensures found <==> id in Rows(nodes)
  {
    var lo, hi := 0, |nodes|;
    while lo < hi
      invariant 0 <= lo <= hi <= |nodes|
      invariant forall k :: 0 <= k < lo ==> nodes[k].node < id
      invariant forall k :: hi <= k < |nodes| ==> id < nodes[k].node
    {
      var mid := lo + (hi - lo) / 2;
      if nodes[mid].node == id {
        RowsAt(nodes, mid);
        return true, mid;
      } else if nodes[mid].node < id {
        lo := mid + 1;
      } else {
        hi := mid;
      }
    }
    NotListed(nodes, id);
    return false, lo;
  }

  class ChannelState {
    const maxNodes: nat
    var nodes: seq<NodeSequence>
    var newest: NodeId

    ghost predicate Valid()
      reads this
    {
      Sorted(nodes) && TableValid(Table(), maxNodes)
    }

    ghost function Table(): Table
      reads this
    {
      Channel.Table(Rows(nodes), newest)
    }

    constructor (max: nat, key: PubKey)
      requires max > 0
      ensures Valid() && maxNodes == max && Table() == Seeded(key)
    {
      maxNodes := max;
      nodes := [NodeSequence(key, ComputeId(key), NO_ENVELOPE, 0, 0)];
      newest := ComputeId(key);
      new;
      assert nodes[..0] == [];
      assert Rows(nodes[..0]) == map[];
      assert Rows(nodes) == Seeded(key).rows;
      SeededValid(key, max);
    }

    // `ChannelState::new`, which finds no room for its first row in an empty table.
    static method New(max: nat, key: PubKey) returns (r: Result<ChannelState, ChannelError>)
      ensures max == 0 ==> r == Failure(ClientMax(0))
      ensures max > 0 ==> r.Success? && fresh(r.value) && r.value.Valid()
                          && r.value.maxNodes == max && r.value.Table() == Seeded(key)
    {
      if max == 0 {
        return Failure(ClientMax(max));
      }
      var state := new ChannelState(max, key);
      return Success(state);
    }

    method AddNode(key: PubKey) returns (r: Result<(), ChannelError>)
      requires Valid()
      modifies this
      ensures Valid()
      ensures match Channel.AddNode(old(Table()), maxNodes, key)
              case Success(t) => r == Success(()) && Table() == t
              case Failure(e) => r == Failure(e) && Table() == old(Table())
    {
      AddNodeValid(Table(), maxNodes, key);
      RowsSize(nodes);
      var found, index := BinarySearch(nodes, ComputeId(key));
      if found {
        return Failure(NodeExists);
      }
      if |nodes| >= maxNodes {
        return Failure(ClientMax(maxNodes));
      }
      var record := NodeSequence(key, ComputeId(key), NO_ENVELOPE, 0, 0);
      InsertSorted(nodes, index, record);
      RowsInsert(nodes, index, record);
      nodes := Insert(nodes, index, record);
      return Success(());
    }

    method GetNodeKey(node: NodeId) returns (r: Result<PubKey, ChannelError>)
      requires Valid()
      ensures r == if node in Table().rows then Success(PubKey(node)) else Failure(UnknownNode)
    {
      var found, index := BinarySearch(nodes, node);
      if !found {
        return Failure(UnknownNode);
      }
      RowsAt(nodes, index);
      return Success(nodes[index].publicKey);
    }

    // `check_receive_worker`: the sender's place in the list, or what is wrong.
    method CheckReceive<T>(from: NodeId, m: Message<T>) returns (r: Result<nat, ChannelError>)
      requires Valid()
      ensures match Check(Table(), from, m)
              case Some(e) => r == Failure(e)
              case None => r.Success? && r.value < |nodes| && nodes[r.value].node == from
    {
      var found, index := BinarySearch(nodes, from);
      if !found {
        return Failure(UnknownNode);
      }
      RowsAt(nodes, index);
      var record := nodes[index];
      if record.sequence >= m.sequence {
        return Failure(AlreadyReceived);
      } else if record.sequence != m.senderLast {
        return Failure(MissingFromSender(from, record.sequence, m.senderLast));
      }
      var causeFound, causeIndex := BinarySearch(nodes, m.cause);
      var causeTarget := if m.sequence == 0 then 0 else m.sequence - 1;
      if causeFound {
        RowsAt(nodes, causeIndex);
        var cause := nodes[causeIndex];
        if cause.sequence < causeTarget {
          return Failure(MissingFromSender(cause.node, cause.sequence, causeTarget));
        }
      } else if causeTarget != 0 {
        return Failure(MissingFromSender(m.cause, 0, causeTarget));
      }
      return Success(index);
    }

    method GetCurrent() returns (r: Result<NodeSequence, ChannelError>)
      requires Valid()
      ensures r.Success? && r.value.node == newest && RowOf(r.value) == Table().rows[newest]
    {
      var found, index := BinarySearch(nodes, newest);
      if !found {
        return Failure(ChannelUnreachable);
      }
      RowsAt(nodes, index);
      return Success(nodes[index]);
    }

    method Receive<T>(from: NodeId, m: Message<T>, id: EnvelopeId) returns (r: Result<u64, ChannelError>)
      requires Valid()
      modifies this
      ensures Valid()
      ensures match Channel.Receive(old(Table()), from, m, id)
              case Success((t, max)) => r == Success(max) && Table() == t
              case Failure(e) => r == Failure(e) && Table() == old(Table())
    {
      ReceiveValid(Table(), maxNodes, from, m, id);
      var index :- CheckReceive(from, m);
      var found := GetCurrent();
      if found.Failure? {
        return Failure(ChannelUnreachable);
      }
      var current := found.value;
      var maxSequence: u64;
      if current.sequence < m.sequence || (current.sequence == m.sequence && current.id < id) {
        maxSequence := m.sequence;
        newest := from;
      } else {
        maxSequence := current.sequence;
      }
      RowsAt(nodes, index);
      var record := nodes[index].(sequence := m.sequence, id := id);
      if record.first == 0 {
        record := record.(first := m.sequence);
      }
      RowsUpdate(nodes, index, record);
      nodes := nodes[index := record];
      return Success(maxSequence);
    }

    method Address<T>(from: NodeId, data: T) returns (r: Result<Message<T>, ChannelError>)
      requires Valid()
      ensures r == Channel.Address(Table(), from, data)
    {
      var found, index := BinarySearch(nodes, from);
      if !found {
        return Failure(UnknownNode);
      }
      RowsAt(nodes, index);
      var record := nodes[index];
      var newestNode := GetCurrent();
      if newestNode.Failure? {
        return Failure(ChannelUnreachable);
      }
      var current := newestNode.value;
      var lastSequence := if record.sequence > current.sequence then record.sequence else current.sequence;
      if lastSequence == U64_MAX {
        return Failure(SequenceOverflow);
      }
      return Success(Message(current.node, record.sequence, lastSequence + 1, data));
    }
  }
}
