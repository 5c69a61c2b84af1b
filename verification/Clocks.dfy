/** Vector clocks: merging a request with the responder's nodes, and the least clock. */
module Clocks {
  import opened Types
  import opened Channel
  import opened ChannelTable
  import opened Replicas
  import opened History
  import opened Sync

  datatype Clock = Clock(node: NodeId, sequence: u64)

  predicate Ascends(clocks: seq<Clock>) {
    forall i, j :: 0 <= i < j < |clocks| ==> clocks[i].node < clocks[j].node
  }

  predicate Mentions(clocks: seq<Clock>, n: NodeId) {
    exists i :: 0 <= i < |clocks| && clocks[i].node == n
  }

  // `finish_sync_request`: the requester's clock, one entry a node.
  function Requested(nodes: seq<NodeSequence>): (clocks: seq<Clock>)
    ensures |clocks| == |nodes|
  {
    seq(|nodes|, i requires 0 <= i < |nodes| => Clock(nodes[i].node, nodes[i].sequence))
  }

  // What a request says of the table it was made from: every node, in order, with the
  // sequence of its last message.
  ghost predicate IsClockOf(clocks: seq<Clock>, t: Table) {
    && Ascends(clocks)
    && (forall i :: 0 <= i < |clocks| ==>
          clocks[i].node in t.rows && clocks[i].sequence == t.rows[clocks[i].node].sequence)
    && (forall n :: n in t.rows ==> Mentions(clocks, n))
  }

  /** The request carries the last sequence of every node in the table, and nothing else. */
  lemma RequestTellsTable(nodes: seq<NodeSequence>, newest: NodeId)
    requires Sorted(nodes)
    ensures IsClockOf(Requested(nodes), Table(Rows(nodes), newest))
  {
    var clocks := Requested(nodes);
    forall i | 0 <= i < |clocks|
      ensures clocks[i].node in Rows(nodes) && clocks[i].sequence == Rows(nodes)[clocks[i].node].sequence
    {
      RowsAt(nodes, i);
    }
    forall n | n in Rows(nodes) ensures Mentions(clocks, n) {
      var i := Listed(nodes, n);
      assert clocks[i].node == n;
    }
  }

  /** On a replica whose memory matches its log, that is the sequence of the last stored
      message of the node, or zero if there is none. */
  lemma RequestTellsLog(cfg: Config, r: Replica, clocks: seq<Clock>, i: nat)
    requires Live(cfg, r) && IsClockOf(clocks, r.table) && i < |clocks|
    ensures clocks[i].sequence == LastSequence(Chain(Envs(r.log), clocks[i].node))
  {
    hide Replay, Filter;
    TableIsHistory(cfg, Envs(r.log));
    assert NodeTells(r.table, Envs(r.log), clocks[i].node);
  }

  function FirstClock(ns: NodeSequence): Clock {
    Clock(ns.node, ns.first)
  }

  // The two-index walk of `start_sync_response`, on whatever the request holds.
  function Merge(mine: seq<NodeSequence>, theirs: seq<Clock>): seq<Clock> {
    if mine == [] then theirs
    else if theirs == [] || mine[0].node < theirs[0].node then [FirstClock(mine[0])] + Merge(mine[1..], theirs)
    else if theirs[0].node == mine[0].node then [theirs[0]] + Merge(mine[1..], theirs[1..])
    else [theirs[0]] + Merge(mine, theirs[1..])
  }

  // What is still to come of the walk once it stands at an entry of either list.
  function Rest(mine: seq<NodeSequence>, theirs: seq<Clock>, i: nat, j: nat): seq<Clock>
    requires i <= |mine| && j <= |theirs|
  {
    Merge(mine[i..], theirs[j..])
  }

  lemma RestIsAll(mine: seq<NodeSequence>, theirs: seq<Clock>)
    ensures Rest(mine, theirs, 0, 0) == Merge(mine, theirs)
  {
    assert mine[0..] == mine && theirs[0..] == theirs;
  }

  // One turn of the walk.
  lemma MergeTurn(mine: seq<NodeSequence>, theirs: seq<Clock>, i: nat, j: nat)
    requires i < |mine| && j <= |theirs|
    ensures Rest(mine, theirs, i, j) ==
            if j == |theirs| || mine[i].node < theirs[j].node
            then [FirstClock(mine[i])] + Rest(mine, theirs, i + 1, j)
            else if theirs[j].node == mine[i].node then [theirs[j]] + Rest(mine, theirs, i + 1, j + 1)
            else [theirs[j]] + Rest(mine, theirs, i, j + 1)
  {
    assert mine[i..][1..] == mine[i + 1..];
    if j < |theirs| {
      assert theirs[j..][1..] == theirs[j + 1..];
    }
  }

  // The request's entries that are left once the responder's are used up.
  lemma MergeRest(mine: seq<NodeSequence>, theirs: seq<Clock>, j: nat)
    requires j <= |theirs|
    ensures Rest(mine, theirs, |mine|, j) ==
            if j < |theirs| then [theirs[j]] + Rest(mine, theirs, |mine|, j + 1) else []
  {
    assert mine[|mine|..] == [];
    if j < |theirs| {
      assert theirs[j..] == [theirs[j]] + theirs[j + 1..];
    }
  }

  lemma Moved(clocks: seq<Clock>, c: Clock, rest: seq<Clock>, whole: seq<Clock>)
    requires clocks + ([c] + rest) == whole
    ensures (clocks + [c]) + rest == whole && |clocks| < |whole|
  {
    assert (clocks + [c]) + rest == clocks + ([c] + rest);
  }

  // One entry of a merge: the request's clock where it has the node, the responder's
  // first sequence where it has not.
  predicate FromEither(c: Clock, mine: map<NodeId, Row>, theirs: seq<Clock>) {
    || c in theirs
    || (!Mentions(theirs, c.node) && c.node in mine && c.sequence == mine[c.node].first)
  }

  ghost predicate IsMergedClock(out: seq<Clock>, mine: map<NodeId, Row>, theirs: seq<Clock>) {
    && Ascends(out)
    && (forall i :: 0 <= i < |out| ==> FromEither(out[i], mine, theirs))
    && (forall i :: 0 <= i < |theirs| ==> theirs[i] in out)
    && (forall n :: n in mine ==> Mentions(out, n))
  }

  lemma {:induction false} MergeMembers(mine: seq<NodeSequence>, theirs: seq<Clock>, c: Clock)
    ensures c in Merge(mine, theirs) ==> c in theirs || exists k :: 0 <= k < |mine| && c == FirstClock(mine[k])
    ensures c in theirs ==> c in Merge(mine, theirs)
    decreases |mine| + |theirs|
  {
    if mine != [] {
      if theirs == [] || mine[0].node < theirs[0].node {
        MergeMembers(mine[1..], theirs, c);
      } else if theirs[0].node == mine[0].node {
        MergeMembers(mine[1..], theirs[1..], c);
      } else {
        MergeMembers(mine, theirs[1..], c);
      }
    }
  }

  lemma MergeAbove(mine: seq<NodeSequence>, theirs: seq<Clock>, n: NodeId)
    requires forall k :: 0 <= k < |mine| ==> n < mine[k].node
    requires forall k :: 0 <= k < |theirs| ==> n < theirs[k].node
    ensures forall i :: 0 <= i < |Merge(mine, theirs)| ==> n < Merge(mine, theirs)[i].node
  {
    forall i | 0 <= i < |Merge(mine, theirs)| ensures n < Merge(mine, theirs)[i].node {
      MergeMembers(mine, theirs, Merge(mine, theirs)[i]);
    }
  }

  lemma AscendsCons(c: Clock, rest: seq<Clock>)
    requires Ascends(rest) && forall i :: 0 <= i < |rest| ==> c.node < rest[i].node
    ensures Ascends([c] + rest)
  {}

  lemma {:induction false} MergeAscends(mine: seq<NodeSequence>, theirs: seq<Clock>)
    requires Sorted(mine) && Ascends(theirs)
    ensures Ascends(Merge(mine, theirs))
    decreases |mine| + |theirs|
  {
    if mine != [] {
      if theirs == [] || mine[0].node < theirs[0].node {
        MergeAscends(mine[1..], theirs);
        MergeAbove(mine[1..], theirs, mine[0].node);
        AscendsCons(FirstClock(mine[0]), Merge(mine[1..], theirs));
      } else if theirs[0].node == mine[0].node {
        MergeAscends(mine[1..], theirs[1..]);
        MergeAbove(mine[1..], theirs[1..], theirs[0].node);
        AscendsCons(theirs[0], Merge(mine[1..], theirs[1..]));
      } else {
        MergeAscends(mine, theirs[1..]);
        MergeAbove(mine, theirs[1..], theirs[0].node);
        AscendsCons(theirs[0], Merge(mine, theirs[1..]));
      }
    }
  }

  lemma MentionsCons(c: Clock, rest: seq<Clock>, n: NodeId)
    ensures Mentions([c] + rest, n) <==> c.node == n || Mentions(rest, n)
  {
    if c.node == n {
      assert ([c] + rest)[0].node == n;
    }
    if Mentions(rest, n) {
      var i :| 0 <= i < |rest| && rest[i].node == n;
      assert ([c] + rest)[i + 1].node == n;
    }
  }

  lemma {:induction false} MergeMentions(mine: seq<NodeSequence>, theirs: seq<Clock>, n: NodeId)
    ensures Mentions(Merge(mine, theirs), n) <==>
            Mentions(theirs, n) || exists k :: 0 <= k < |mine| && mine[k].node == n
    decreases |mine| + |theirs|
  {
    if mine != [] {
      assert mine == [mine[0]] + mine[1..];
      if theirs != [] {
        assert theirs == [theirs[0]] + theirs[1..];
        MentionsCons(theirs[0], theirs[1..], n);
      }
      if theirs == [] || mine[0].node < theirs[0].node {
        MergeMentions(mine[1..], theirs, n);
        MentionsCons(FirstClock(mine[0]), Merge(mine[1..], theirs), n);
      } else if theirs[0].node == mine[0].node {
        MergeMentions(mine[1..], theirs[1..], n);
        MentionsCons(theirs[0], Merge(mine[1..], theirs[1..]), n);
      } else {
        MergeMentions(mine, theirs[1..], n);
        MentionsCons(theirs[0], Merge(mine, theirs[1..]), n);
      }
    }
  }

  // In ascending clocks a node has one entry.
  lemma OneEntry(clocks: seq<Clock>, c: Clock, d: Clock)
    requires Ascends(clocks) && c in clocks && d in clocks && c.node == d.node
    ensures c == d
  {}

  /** For ascending inputs the walk gives an ascending clock over the union of the nodes,
      with the request's value where it has the node and the responder's first sequence
      elsewhere. */
  lemma MergeIsMergedClock(mine: seq<NodeSequence>, theirs: seq<Clock>)
    requires Sorted(mine) && Ascends(theirs)
    ensures IsMergedClock(Merge(mine, theirs), Rows(mine), theirs)
  {
    var out := Merge(mine, theirs);
    MergeAscends(mine, theirs);
    forall i | 0 <= i < |theirs| ensures theirs[i] in out {
      MergeMembers(mine, theirs, theirs[i]);
    }
    forall i | 0 <= i < |out| ensures FromEither(out[i], Rows(mine), theirs) {
      var c := out[i];
      MergeMembers(mine, theirs, c);
      if Mentions(theirs, c.node) {
        var k :| 0 <= k < |theirs| && theirs[k].node == c.node;
        MergeMembers(mine, theirs, theirs[k]);
        OneEntry(out, c, theirs[k]);
      } else {
        assert c !in theirs by { NotMentioned(theirs, c); }
        FirstOfRow(mine, c);
      }
    }
    forall n | n in Rows(mine) ensures Mentions(out, n) {
      var k := Listed(mine, n);
      MergeMentions(mine, theirs, n);
    }
  }

  lemma NotMentioned(clocks: seq<Clock>, c: Clock)
    requires !Mentions(clocks, c.node)
    ensures c !in clocks
  {}

  lemma FirstOfRow(mine: seq<NodeSequence>, c: Clock)
    requires Sorted(mine) && exists k :: 0 <= k < |mine| && c == FirstClock(mine[k])
    ensures c.node in Rows(mine) && c.sequence == Rows(mine)[c.node].first
  {
    var k :| 0 <= k < |mine| && c == FirstClock(mine[k]);
    RowsAt(mine, k);
  }

  /** On a responder whose memory matches its log the first sequence is that of the node's
      first stored message, or zero if there is none. */
  lemma FirstTellsLog(cfg: Config, r: Replica, n: NodeId)
    requires Live(cfg, r) && n in r.table.rows
    ensures var c := Chain(Envs(r.log), n);
            r.table.rows[n].first == if c == [] then 0 else c[0].message.sequence
  {
    hide Replay, Filter;
    TableIsHistory(cfg, Envs(r.log));
    assert NodeTells(r.table, Envs(r.log), n);
  }

  function NodesOf(clocks: seq<Clock>): set<NodeId> {
    set i | 0 <= i < |clocks| :: clocks[i].node
  }

  function NodesIn(nodes: seq<NodeSequence>): set<NodeId> {
    set i | 0 <= i < |nodes| :: nodes[i].node
  }

  lemma {:induction false} AscendingSize(clocks: seq<Clock>)
    requires Ascends(clocks)
    ensures |NodesOf(clocks)| == |clocks|
  {
    if clocks != [] {
      var init, last := clocks[..|clocks| - 1], clocks[|clocks| - 1];
      AscendingSize(init);
      assert NodesOf(clocks) == NodesOf(init) + {last.node};
    }
  }

  /** So it outgrows its bound exactly when the union of the nodes does. */
  lemma MergeSize(mine: seq<NodeSequence>, theirs: seq<Clock>)
    requires Sorted(mine) && Ascends(theirs)
    ensures |Merge(mine, theirs)| == |NodesIn(mine) + NodesOf(theirs)|
  {
    var out := Merge(mine, theirs);
    MergeAscends(mine, theirs);
    AscendingSize(out);
    forall n ensures n in NodesOf(out) <==> n in NodesIn(mine) + NodesOf(theirs) {
      MergeMentions(mine, theirs, n);
      assert n in NodesOf(out) <==> Mentions(out, n);
      assert n in NodesOf(theirs) <==> Mentions(theirs, n);
    }
    assert NodesOf(out) == NodesIn(mine) + NodesOf(theirs);
  }

  // ------------------------------------------------------------------- the minimum

  predicate Least(clocks: seq<Clock>, k: u64) {
    && (forall i :: 0 <= i < |clocks| ==> k <= clocks[i].sequence)
    && (exists i :: 0 <= i < |clocks| && k == clocks[i].sequence)
  }

  function LeastOf(clocks: seq<Clock>): (k: u64)
    requires clocks != []
    ensures Least(clocks, k)
  {
    var init, last := clocks[..|clocks| - 1], clocks[|clocks| - 1].sequence;
    if init == [] then last
    else
      var k := LeastOf(init);
      assert forall i :: 0 <= i < |init| ==> init[i] == clocks[i];
      if last < k then last else k
  }

  lemma LeastIsOne(clocks: seq<Clock>, k: u64)
    requires Least(clocks, k)
    ensures k == LeastOf(clocks)
  {}

  method GetMinSequence(clocks: seq<Clock>) returns (r: Option<u64>)
    ensures r == if clocks == [] then None else Some(LeastOf(clocks))
  {
    if |clocks| == 0 {
      return None;
    }
    var min := clocks[0].sequence;
    for k := 0 to |clocks|
      invariant forall i :: 0 <= i < k ==> min <= clocks[i].sequence
      invariant exists i :: 0 <= i < |clocks| && min == clocks[i].sequence
    {
      if min > clocks[k].sequence {
        min := clocks[k].sequence;
      }
    }
    LeastIsOne(clocks, min);
    return Some(min);
  }

  // The least of what the requester has of the nodes it knows and of the responder's first
  // messages of the others.
  ghost predicate IsLeastClock(start: u64, a: Table, b: Table) {
    && BelowClocks(start, a, b)
    && ((exists n :: n in a.rows && start == a.rows[n].sequence)
        || (exists n :: n in b.rows && n !in a.rows && start == b.rows[n].first))
  }

  lemma OneLeastClock(s: u64, s': u64, a: Table, b: Table)
    requires IsLeastClock(s, a, b) && IsLeastClock(s', a, b)
    ensures s == s'
  {}

  lemma MergedIsBelow(merged: seq<Clock>, request: seq<Clock>, a: Table, b: Table, start: u64)
    requires IsMergedClock(merged, b.rows, request) && IsClockOf(request, a)
    requires forall i :: 0 <= i < |merged| ==> start <= merged[i].sequence
    ensures BelowClocks(start, a, b)
  {
    forall n | n in a.rows ensures start <= a.rows[n].sequence {
      var i :| 0 <= i < |request| && request[i].node == n;
      assert request[i] in merged;
    }
    forall n | n in b.rows && n !in a.rows ensures start <= b.rows[n].first {
      var i :| 0 <= i < |merged| && merged[i].node == n;
      assert FromEither(merged[i], b.rows, request);
    }
  }

  /** What the responder starts from is the least of the requester's last sequences and, for
      nodes the requester does not know, the responder's first ones. */
  lemma LeastOfMerged(merged: seq<Clock>, request: seq<Clock>, a: Table, b: Table)
    requires merged != [] && IsMergedClock(merged, b.rows, request) && IsClockOf(request, a)
    ensures IsLeastClock(LeastOf(merged), a, b)
  {
    var start := LeastOf(merged);
    MergedIsBelow(merged, request, a, b, start);
    var i :| 0 <= i < |merged| && start == merged[i].sequence;
    var c := merged[i];
    assert FromEither(c, b.rows, request);
    if c in request {
      assert c.node in a.rows && start == a.rows[c.node].sequence;
    } else {
      assert c.node in b.rows && c.node !in a.rows && start == b.rows[c.node].first;
    }
  }

  lemma Listed(nodes: seq<NodeSequence>, n: NodeId) returns (i: nat)
    requires Sorted(nodes) && n in Rows(nodes)
    ensures i < |nodes| && nodes[i].node == n && Rows(nodes)[n] == ChannelTable.RowOf(nodes[i])
  {
    if forall k :: 0 <= k < |nodes| ==> nodes[k].node != n {
      NotListed(nodes, n);
    }
    i :| 0 <= i < |nodes| && nodes[i].node == n;
    RowsAt(nodes, i);
  }
}
