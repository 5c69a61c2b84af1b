/** The two indexes stored with every record, and looking a message up by its number. */
module LogIndex {
  import opened Types
  import opened Replicas
  import opened History
  import opened Search

  function Maxima(log: seq<Entry>): (keys: seq<u64>)
    ensures |keys| == |log|
  {
    seq(|log|, i requires 0 <= i < |log| => log[i].maxSequence)
  }

  function Counts(log: seq<Entry>): (keys: seq<u64>)
    ensures |keys| == |log|
  {
    seq(|log|, i requires 0 <= i < |log| => log[i].messageCount)
  }

  lemma {:induction false} CountIsHistory(cfg: Config, envs: seq<Envelope>)
    requires Replay(cfg, envs).Some?
    ensures Replay(cfg, envs).value.chat.messageCount == |Filter(envs, Texts)|
  {
    if envs != [] {
      var init := envs[..|envs| - 1];
      CountIsHistory(cfg, init);
      DeliverEffect(cfg, Replay(cfg, init).value, envs[|envs| - 1]);
    }
  }

  /** What is stored beside record k: the greatest sequence and the number of chat
      messages up to and including it. */
  lemma StoredIndexes(cfg: Config, envs: seq<Envelope>, k: nat)
    requires Replay(cfg, envs).Some? && cfg.maxNodes > 0 && k < |envs|
    ensures var entry := Replay(cfg, envs).value.log[k];
            && entry.maxSequence == MaxOver(envs[..k + 1])
            && entry.messageCount == |Filter(envs[..k + 1], Texts)|
            && entry.env == envs[k]
  {
    ReplayAt(cfg, envs, k);
    ReplayPrefix(cfg, envs, k + 1);
    var r := Replay(cfg, envs[..k]).value;
    TableStaysValid(cfg, envs[..k]);
    TableStaysValid(cfg, envs[..k + 1]);
    CountIsHistory(cfg, envs[..k + 1]);
    DeliverMax(cfg, r, envs[k]);
    DeliverEffect(cfg, r, envs[k]);
    assert Envs(Replay(cfg, envs).value.log)[k] == envs[k];
  }

  lemma {:induction false} MaxGrows(envs: seq<Envelope>, i: nat, j: nat)
    requires i <= j <= |envs|
    ensures MaxOver(envs[..i]) <= MaxOver(envs[..j])
    ensures i < j ==> envs[i].message.sequence <= MaxOver(envs[..j])
  {
    if i < j {
      MaxGrows(envs, i, j - 1);
      assert envs[..j][..j - 1] == envs[..j - 1];
    }
  }

  lemma IndexPair(cfg: Config, envs: seq<Envelope>, i: nat, j: nat)
    requires Replay(cfg, envs).Some? && cfg.maxNodes > 0 && i <= j < |envs|
    ensures var log := Replay(cfg, envs).value.log;
            && log[i].maxSequence <= log[j].maxSequence
            && log[i].messageCount <= log[j].messageCount
            && envs[j].message.sequence <= log[j].maxSequence
  {
    hide Replay, Filter, MaxOver;
    StoredIndexes(cfg, envs, i);
    StoredIndexes(cfg, envs, j);
    MaxGrows(envs, i + 1, j + 1);
    MaxGrows(envs, j, j + 1);
    FilterPrefix(envs[..j + 1], i + 1, Texts);
    assert envs[..j + 1][..i + 1] == envs[..i + 1];
  }

  lemma KeysAscend(log: seq<Entry>)
    requires forall i, j :: 0 <= i <= j < |log| ==>
               log[i].maxSequence <= log[j].maxSequence && log[i].messageCount <= log[j].messageCount
    ensures Ascending(Maxima(log)) && Ascending(Counts(log))
  {}

  /** Over every run both stored indexes never decrease along the log, and no record's
      own sequence exceeds the maximum stored with it. */
  lemma IndexesAscend(cfg: Config, envs: seq<Envelope>)
    requires Replay(cfg, envs).Some? && cfg.maxNodes > 0
    ensures Ascending(Maxima(Replay(cfg, envs).value.log))
    ensures Ascending(Counts(Replay(cfg, envs).value.log))
    ensures forall k :: 0 <= k < |envs| ==> envs[k].message.sequence <= Replay(cfg, envs).value.log[k].maxSequence
  {
    var log := Replay(cfg, envs).value.log;
    forall i, j | 0 <= i <= j < |envs|
      ensures log[i].maxSequence <= log[j].maxSequence && log[i].messageCount <= log[j].messageCount
    {
      IndexPair(cfg, envs, i, j);
    }
    forall k | 0 <= k < |envs| ensures envs[k].message.sequence <= log[k].maxSequence {
      IndexPair(cfg, envs, k, k);
    }
    KeysAscend(log);
  }

  // Where a log goes over from entries below v to the others, by either index.
  predicate Splits(log: seq<Entry>, v: u64, p: nat, key: Entry -> u64) {
    && p <= |log|
    && (forall i :: 0 <= i < p ==> key(log[i]) < v)
    && (forall i :: p <= i < |log| ==> v <= key(log[i]))
  }

  lemma SplitsKeys(log: seq<Entry>, keys: seq<u64>, v: u64, p: nat, key: Entry -> u64)
    requires Ascending(keys) && |keys| == |log| && p <= |log|
    requires forall i :: 0 <= i < |log| ==> keys[i] == key(log[i])
    ensures p == FirstAtLeast(keys, v) <==> Splits(log, v, p, key)
  {
    SplitPoint(keys, v, p);
  }

  /** Over every run each of the two searches stops at the one point of the log that has
      every smaller key before it and every other key after it. */
  lemma SearchSplitsLog(cfg: Config, envs: seq<Envelope>, v: u64, p: nat)
    requires Replay(cfg, envs).Some? && cfg.maxNodes > 0 && p <= |envs|
    ensures var log := Replay(cfg, envs).value.log;
            && (p == FirstAtLeast(Maxima(log), v) <==> Splits(log, v, p, (e: Entry) => e.maxSequence))
            && (p == FirstAtLeast(Counts(log), v) <==> Splits(log, v, p, (e: Entry) => e.messageCount))
  {
    hide Replay, FirstAtLeast, Splits, Ascending;
    var log := Replay(cfg, envs).value.log;
    IndexesAscend(cfg, envs);
    SplitsKeys(log, Maxima(log), v, p, (e: Entry) => e.maxSequence);
    SplitsKeys(log, Counts(log), v, p, (e: Entry) => e.messageCount);
  }

  // The record at which a filtered log grows to i entries is the i-th of them.
  lemma FilterReaches(envs: seq<Envelope>, q: Query, p: nat, i: nat)
    requires p < |envs|
    requires |Filter(envs[..p], q)| < i <= |Filter(envs[..p + 1], q)|
    ensures i <= |Filter(envs, q)| && Matches(q, envs[p]) && envs[p] == Filter(envs, q)[i - 1]
  {
    hide Filter;
    FilterPrefix(envs, p + 1, q);
    assert envs[..p + 1] == envs[..p] + [envs[p]];
    FilterSnoc(envs[..p], envs[p], q);
  }

  lemma CountReaches(cfg: Config, envs: seq<Envelope>, p: nat, i: u64)
    requires Replay(cfg, envs).Some? && cfg.maxNodes > 0 && p < |envs| && 1 <= i
    requires Replay(cfg, envs).value.log[p].messageCount >= i
    requires p > 0 ==> Replay(cfg, envs).value.log[p - 1].messageCount < i
    ensures i <= |Filter(envs, Texts)|
    ensures envs[p].message.data.ChatMessage? && envs[p] == Filter(envs, Texts)[i - 1]
  {
    hide Replay, Filter, Matches;
    assert p == 0 ==> envs[..p] == [];
    NoneFiltered(Texts);
    StoredIndexes(cfg, envs, p);
    if p > 0 {
      StoredIndexes(cfg, envs, p - 1);
    }
    FilterReaches(envs, Texts, p, i);
    TextsAreChat(envs[p]);
  }

  lemma NoneFiltered(q: Query)
    ensures Filter([], q) == []
  {}

  lemma TextsAreChat(e: Envelope)
    ensures Matches(Texts, e) <==> e.message.data.ChatMessage?
  {}

  /** The index search for message i stops at the i-th chat message, never at a
      membership record that carries the same count; it finds nothing exactly when
      there are fewer than i messages, and index 0 finds the first record. */
  lemma MessageLookup(cfg: Config, envs: seq<Envelope>, i: u64)
    requires Replay(cfg, envs).Some? && cfg.maxNodes > 0
    ensures var p := FirstAtLeast(Counts(Replay(cfg, envs).value.log), i);
            && (p == |envs| <==> envs == [] || i > |Filter(envs, Texts)|)
            && (1 <= i <= |Filter(envs, Texts)| ==>
                  envs[p].message.data.ChatMessage? && envs[p] == Filter(envs, Texts)[i - 1])
            && (i == 0 ==> p == 0)
  {
    var counts := Counts(Replay(cfg, envs).value.log);
    var p := FirstAtLeast(counts, i);
    if envs != [] {
      StoredIndexes(cfg, envs, |envs| - 1);
      assert envs[..|envs|] == envs;
      assert counts[|envs| - 1] == |Filter(envs, Texts)|;
    }
    if p < |envs| && 1 <= i {
      assert p > 0 ==> counts[p - 1] < i;
      CountReaches(cfg, envs, p, i);
    }
  }
}
