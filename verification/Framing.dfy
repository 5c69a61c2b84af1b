/** Envelopes framed in a sync buffer: filling it from the log, and taking them out on
    the other side. */
module Framing {
  import opened Types
  import opened Codec
  import opened Slab
  import opened SlabStorage
  import opened Search
  import opened Replicas
  import opened History
  import opened LogIndex
  import opened Recovery
  import opened Clocks
  import opened Device

  function Wires(log: seq<Entry>): (items: seq<seq<byte>>)
    ensures |items| == |log|
  {
    seq(|log|, i requires 0 <= i < |log| => log[i].env.wire)
  }

  // The record to start sending from: the first whose maximum reaches the least clock.
  function StartIn(maxima: seq<u64>, clocks: seq<Clock>): (c: nat)
    ensures c <= |maxima|
  {
    if clocks == [] then |maxima| else FirstAtLeast(maxima, LeastOf(clocks))
  }

  /** That is the first record whose maximum some clock does not exceed, where every record
      before it is below all of them; without a clock there is none to start from. */
  lemma StartsAtLeast(maxima: seq<u64>, clocks: seq<Clock>, i: nat)
    requires i <= |maxima|
    ensures i == StartIn(maxima, clocks) <==>
            && (forall j, k :: 0 <= j < i && 0 <= k < |clocks| ==> maxima[j] < clocks[k].sequence)
            && (i < |maxima| ==> exists k :: 0 <= k < |clocks| && clocks[k].sequence <= maxima[i])
  {
    if clocks != [] {
      var least := LeastOf(clocks);
      var l :| 0 <= l < |clocks| && clocks[l].sequence == least;
      if (forall j, k :: 0 <= j < i && 0 <= k < |clocks| ==> maxima[j] < clocks[k].sequence)
         && (i < |maxima| ==> exists k :: 0 <= k < |clocks| && clocks[k].sequence <= maxima[i]) {
        forall j | 0 <= j < i ensures maxima[j] < least {
          assert maxima[j] < clocks[l].sequence;
        }
        FirstIsFirst(maxima, least, i);
      }
    }
  }

  function StartAt(log: seq<Entry>, clocks: seq<Clock>): (c: nat)
    ensures c <= |log|
  {
    StartIn(Maxima(log), clocks)
  }

  // The buffer holds `count` framed items from item c on, and is otherwise as it was.
  predicate Copied(items: seq<seq<byte>>, c: nat, count: nat, offset: nat, before: seq<byte>, after: seq<byte>) {
    && c + count <= |items|
    && |after| == |before| && offset <= |before|
    && after[..offset] == Frames(items[c..c + count])
    && after[offset..] == before[offset..]
  }

  // And no further item would have fitted.
  predicate Filled(items: seq<seq<byte>>, c: nat, count: nat, offset: nat, before: seq<byte>, after: seq<byte>) {
    && Copied(items, c, count, offset, before, after)
    && (c + count == |items| || |before| - offset < |items[c + count]| + 4)
  }

  lemma CopiedInside(items: seq<seq<byte>>, c: nat, count: nat, offset: nat, before: seq<byte>, after: seq<byte>)
    requires Copied(items, c, count, offset, before, after)
    ensures offset <= |after| == |before| && c + count <= |items|
  {}

  lemma StartsFilled(items: seq<seq<byte>>, c: nat, before: seq<byte>)
    requires c <= |items|
    ensures Copied(items, c, 0, 0, before, before)
  {
    assert items[c..c] == [];
  }

  lemma FilledUp(items: seq<seq<byte>>, c: nat, count: nat, offset: nat, before: seq<byte>, after: seq<byte>)
    requires Copied(items, c, count, offset, before, after)
    requires c + count == |items| || |before| - offset < |items[c + count]| + 4
    ensures Filled(items, c, count, offset, before, after)
  {}

  method AppendFrame(data: seq<byte>, buffer: array<byte>, offset: nat) returns (end: nat)
    requires offset + 4 + |data| <= buffer.Length && |data| < 0x1_0000_0000
    modifies buffer
    ensures end == offset + 4 + |data|
    ensures buffer[..] == Overwrite(old(buffer[..]), offset, Frame(data))
  {
    var _ := WriteU32(|data|, buffer, offset);
    Copy(data, buffer, offset + 4);
    return offset + 4 + |data|;
  }

  lemma FrameCopied(items: seq<seq<byte>>, c: nat, count: nat, offset: nat,
                    before: seq<byte>, s0: seq<byte>, s1: seq<byte>)
    requires Copied(items, c, count, offset, before, s0) && c + count < |items|
    requires var data := items[c + count];
             offset + 4 + |data| <= |s0| && s1 == Overwrite(s0, offset, Frame(data))
    ensures Copied(items, c, count + 1, offset + 4 + |items[c + count]|, before, s1)
  {
    var data := items[c + count];
    var end := offset + 4 + |data|;
    assert items[c..c + count + 1] == items[c..c + count] + [data];
    FramesSnoc(items[c..c + count], data);
    assert s1[..end] == s0[..offset] + Frame(data);
    assert s1[end..] == s0[end..];
    AfterUntouched(s0, before, offset, end, |before|);
  }

  // The envelopes in stored records.
  function Datas(recs: seq<Record>): (items: seq<seq<byte>>)
    ensures |items| == |recs|
  {
    seq(|recs|, i requires 0 <= i < |recs| => recs[i].data)
  }

  lemma DatasAreWires(log: seq<Entry>)
    ensures Datas(Records(log)) == Wires(log)
  {}

  predicate Short(recs: seq<Record>) {
    forall j :: 0 <= j < |recs| ==> |recs[j].data| < 0x1_0000_0000
  }

  lemma HeldAreShort(slab: seq<byte>, recs: seq<Record>)
    requires Holds(slab, recs)
    ensures Short(recs)
  {
    hide Frames, EncodeRecord, HasAt, ReadU32, BigEndian;
    forall j | 0 <= j < |recs| ensures |recs[j].data| < 0x1_0000_0000 {
      FrameFrom(slab, HEADER, Encoded(recs), j);
      RecordSizePositive(recs[j]);
    }
  }

  lemma {:induction false} FlatIsShort(slabs: seq<seq<Record>>)
    requires forall i :: 0 <= i < |slabs| ==> Short(slabs[i])
    ensures Short(Flat(slabs))
  {
    if slabs != [] {
      FlatIsShort(slabs[..|slabs| - 1]);
    }
  }

  // A stored envelope's length fits its length prefix.
  lemma StoredIsShort(io: MemIO)
    requires io.Valid()
    ensures Short(Flat(io.slabs))
  {
    hide Holds, Blank, SlabStart, SlabTotal, Short;
    forall i | 0 <= i < |io.slabs| ensures Short(io.slabs[i]) {
      assert StoresAt(io.data[..], io.slabSize, io.slabs, i);
      HeldAreShort(SlabBytes(io.data[..], io.slabSize, i), io.slabs[i]);
    }
    FlatIsShort(io.slabs);
  }

  lemma ShownIsShort(io: MemIO, end: nat, p: nat)
    requires io.Valid() && end <= |io.slabs| && p < |Flat(io.slabs[..end])|
    ensures |Flat(io.slabs[..end])[p].data| < 0x1_0000_0000
  {
    hide Flat, Stores;
    StoredIsShort(io);
    FlatPrefix(io.slabs, end);
    assert Flat(io.slabs[..end])[p] == Flat(io.slabs)[p];
  }

  // How `fill_send_buffer` ends: with the items from c on that the buffer has room for, or,
  // if it has room for all, with what reading stops at.
  ghost predicate FillsWith(items: seq<seq<byte>>, c: nat, stop: Result<(), StorageError>,
                            r: Result<(nat, nat), ClientError>, before: seq<byte>, after: seq<byte>)
  {
    exists count: nat, offset: nat ::
      && Filled(items, c, count, offset, before, after)
      && r == if c + count == |items| && stop.Failure? then Failure(StorageFault(stop.error))
              else Success((count, offset))
  }

  // -------------------------------------------------------------- receiving frames

  datatype Progress = Progress(outcome: Outcome, offset: nat)

  // What applying the first `count` frames of a buffer does, on any buffer.
  function ReceiveFrames(cfg: Config, crypto: Crypto, r: Replica, buffer: seq<byte>, count: nat): Progress {
    if count == 0 then Progress(Outcome(r, None), 0)
    else
      var before := ReceiveFrames(cfg, crypto, r, buffer, count - 1);
      if before.outcome.error.Some? then before
      else
        match ReadU32(buffer, before.offset)
        case Failure(e) => before.(outcome := Outcome(before.outcome.state, Some(StorageFault(e))))
        case Success((length, at)) =>
          if at + length > |buffer| then before.(outcome := Outcome(before.outcome.state, Some(Unreachable)))
          else
            var step := DeliverWire(cfg, before.outcome.state, crypto.unseal(buffer[at..at + length]));
            var known := step.error == Some(ChannelFault(AlreadyReceived));
            Progress(if known then Outcome(step.state, None) else step, at + length)
  }

  lemma {:induction false} ReceiveStops(cfg: Config, crypto: Crypto, r: Replica, buffer: seq<byte>, k: nat, count: nat)
    requires k <= count
    ensures ReceiveFrames(cfg, crypto, r, buffer, k).outcome.error.Some? ==>
              ReceiveFrames(cfg, crypto, r, buffer, count) == ReceiveFrames(cfg, crypto, r, buffer, k)
  {
    hide DeliverWire, ReadU32;
    if k < count {
      ReceiveStops(cfg, crypto, r, buffer, k, count - 1);
    }
  }

  lemma ReceiveNothing(cfg: Config, crypto: Crypto, r: Replica, buffer: seq<byte>)
    ensures ReceiveFrames(cfg, crypto, r, buffer, 0) == Progress(Outcome(r, None), 0)
  {}

  lemma WireSlabs(cfg: Config, r: Replica, w: Wire)
    ensures |r.log| <= |DeliverWire(cfg, r, w).state.log|
  {}

  // Later frames use no fewer slabs.
  lemma {:induction false} SlabsGrow(cfg: Config, crypto: Crypto, r: Replica, buffer: seq<byte>, k: nat, count: nat)
    requires k <= count
    ensures SlabsUsed(r, ReceiveFrames(cfg, crypto, r, buffer, k).outcome)
            <= SlabsUsed(r, ReceiveFrames(cfg, crypto, r, buffer, count).outcome)
  {
    hide DeliverWire, ReadU32;
    if k < count {
      SlabsGrow(cfg, crypto, r, buffer, k, count - 1);
      var before := ReceiveFrames(cfg, crypto, r, buffer, count - 1);
      if before.outcome.error.None? && ReadU32(buffer, before.offset).Success? {
        var (length, at) := ReadU32(buffer, before.offset).value;
        if at + length <= |buffer| {
          WireSlabs(cfg, before.outcome.state, crypto.unseal(buffer[at..at + length]));
        }
      }
    }
  }

  // One turn of the loop of `receive_buffer`, and what it means for the loop as a whole.
  lemma NextFrame(cfg: Config, crypto: Crypto, r: Replica, buffer: seq<byte>, i: nat, count: nat, x: Replica, at: nat)
    requires i < count && ReceiveFrames(cfg, crypto, r, buffer, i) == Progress(Outcome(x, None), at)
    ensures var all := ReceiveFrames(cfg, crypto, r, buffer, count).outcome;
            match ReadU32(buffer, at)
            case Failure(e) => all == Outcome(x, Some(StorageFault(e)))
            case Success((length, start)) =>
              if start + length > |buffer| then all == Outcome(x, Some(Unreachable))
              else
                var step := DeliverWire(cfg, x, crypto.unseal(buffer[start..start + length]));
                && |x.log| - |r.log| + SlabsUsed(x, step) <= SlabsUsed(r, all)
                && (if step.error == None || step.error == Some(ChannelFault(AlreadyReceived))
                    then ReceiveFrames(cfg, crypto, r, buffer, i + 1)
                         == Progress(Outcome(step.state, None), start + length)
                    else all == step)
  {
    hide DeliverWire, ReadU32;
    ReceiveStops(cfg, crypto, r, buffer, i + 1, count);
    SlabsGrow(cfg, crypto, r, buffer, i + 1, count);
  }

  /** A buffer that is refused before memory has changed leaves what the frames before the
      refused one left, and those were taken or known. */
  lemma {:induction false} BufferRefused(cfg: Config, crypto: Crypto, r: Replica, buffer: seq<byte>, count: nat)
    returns (k: nat)
    requires Live(cfg, r) && cfg.maxNodes > 0
    requires var error := ReceiveFrames(cfg, crypto, r, buffer, count).outcome.error;
             error.Some? ==> !IsLate(error.value)
    ensures k <= count
    ensures var all := ReceiveFrames(cfg, crypto, r, buffer, count).outcome;
            && ReceiveFrames(cfg, crypto, r, buffer, k).outcome == Outcome(all.state, None)
            && (all.error.None? <==> k == count)
            && Live(cfg, all.state)
  {
    hide DeliverWire, ReadU32, Replay, ReceiveFrames, Live;
    ReceiveNothing(cfg, crypto, r, buffer);
    if count == 0 {
      return 0;
    }
    ReceiveStops(cfg, crypto, r, buffer, count - 1, count);
    k := BufferRefused(cfg, crypto, r, buffer, count - 1);
    var before := ReceiveFrames(cfg, crypto, r, buffer, count - 1);
    if before.outcome.error.None? {
      var x := before.outcome.state;
      NextFrame(cfg, crypto, r, buffer, count - 1, count, x, before.offset);
      if ReadU32(buffer, before.offset).Success? {
        var (length, at) := ReadU32(buffer, before.offset).value;
        if at + length <= |buffer| {
          WireKept(cfg, x, crypto.unseal(buffer[at..at + length]));
          if ReceiveFrames(cfg, crypto, r, buffer, count).outcome.error.None? {
            k := count;
          }
        }
      }
    }
  }

  lemma WireKept(cfg: Config, r: Replica, w: Wire)
    requires Live(cfg, r) && cfg.maxNodes > 0
    ensures var step := DeliverWire(cfg, r, w);
            && (step.error.None? || !IsLate(step.error.value) ==> Live(cfg, step.state))
            && (step.error.Some? && !IsLate(step.error.value) ==> step.state == r)
  {
    hide DeliverWire, Replay;
    TableStaysValid(cfg, Envs(r.log));
    WireRefused(cfg, r, w);
    WireKeepsLive(cfg, r, w);
  }

  // The frames in a buffer, as far as they can be told apart, and where they end.
  function Parsed(crypto: Crypto, buffer: seq<byte>, count: nat): Option<(seq<Wire>, nat)> {
    if count == 0 then Some(([], 0))
    else
      match Parsed(crypto, buffer, count - 1)
      case None => None
      case Some((frames, offset)) =>
        match ReadU32(buffer, offset)
        case Failure(_) => None
        case Success((length, at)) =>
          if at + length > |buffer| then None
          else Some((frames + [crypto.unseal(buffer[at..at + length])], at + length))
  }

  // The frames do not depend on who receives them; a buffer that ends early is an error.
  lemma {:induction false} ReceivesParsed(cfg: Config, crypto: Crypto, r: Replica, buffer: seq<byte>, count: nat)
    ensures var p := ReceiveFrames(cfg, crypto, r, buffer, count);
            var parsed := Parsed(crypto, buffer, count);
            if parsed.Some? then
              && p.outcome == ReceiveAll(cfg, r, parsed.value.0)
              && (p.outcome.error.None? ==> p.offset == parsed.value.1)
            else p.outcome.error.Some?
  {
    hide DeliverWire, ReadU32;
    if count > 0 {
      ReceivesParsed(cfg, crypto, r, buffer, count - 1);
      if Parsed(crypto, buffer, count).Some? {
        var frames := Parsed(crypto, buffer, count).value.0;
        assert frames[..|frames| - 1] == Parsed(crypto, buffer, count - 1).value.0;
      }
    }
  }

  /** A buffer that ends before its next frame is reported, after the frames before that have
      been applied: fewer than four bytes are no length, and fewer than the length no
      envelope. */
  lemma BufferEndsEarly(cfg: Config, crypto: Crypto, r: Replica, buffer: seq<byte>, i: nat, count: nat, length: u32)
    requires i < count && Parsed(crypto, buffer, i).Some?
    requires ReceiveAll(cfg, r, Parsed(crypto, buffer, i).value.0).error.None?
    ensures var (frames, at) := Parsed(crypto, buffer, i).value;
            var all := ReceiveFrames(cfg, crypto, r, buffer, count).outcome;
            && (at + 4 > |buffer| ==>
                  all == Outcome(ReceiveAll(cfg, r, frames).state, Some(StorageFault(OutOfBounds))))
            && (HasAt(buffer, at, BigEndian(length, 4)) && at + 4 + length > |buffer| ==>
                  all == Outcome(ReceiveAll(cfg, r, frames).state, Some(Unreachable)))
  {
    hide DeliverWire, ReceiveFrames, ReceiveAll, Parsed, ReadU32;
    ReceivesParsed(cfg, crypto, r, buffer, i);
    var (frames, at) := Parsed(crypto, buffer, i).value;
    NextFrame(cfg, crypto, r, buffer, i, count, ReceiveAll(cfg, r, frames).state, at);
    ReadsWhatIsLeft(buffer, at);
    if HasAt(buffer, at, BigEndian(length, 4)) {
      ReadU32Back(buffer, at, length);
    }
  }

  /** A buffer of any bytes that was once applied without an error changes nothing when it
      is applied again, and reports none. */
  lemma BufferAppliesOnce(cfg: Config, crypto: Crypto, r: Replica, buffer: seq<byte>, count: nat)
    requires ReceiveFrames(cfg, crypto, r, buffer, count).outcome.error.None?
    ensures var once := ReceiveFrames(cfg, crypto, r, buffer, count).outcome;
            ReceiveFrames(cfg, crypto, once.state, buffer, count).outcome == once
  {
    hide DeliverWire, ReceiveFrames, ReceiveAll, Parsed;
    var once := ReceiveFrames(cfg, crypto, r, buffer, count).outcome;
    ReceivesParsed(cfg, crypto, r, buffer, count);
    ReceivesParsed(cfg, crypto, once.state, buffer, count);
    RedeliveryIsIdempotent(cfg, r, Parsed(crypto, buffer, count).value.0);
  }

  function Unsealed(crypto: Crypto, items: seq<seq<byte>>): (frames: seq<Wire>)
    ensures |frames| == |items|
  {
    seq(|items|, i requires 0 <= i < |items| => crypto.unseal(items[i]))
  }

  /** Framing round trip: applying k frames of a buffer that starts with framed envelopes
      is applying the first k envelopes, whatever follows them. */
  lemma {:induction false} FramesComeBack(cfg: Config, crypto: Crypto, r: Replica, buffer: seq<byte>,
                                          items: seq<seq<byte>>, k: nat)
    requires HasAt(buffer, 0, Frames(items)) && |buffer| < 0x1_0000_0000 && k <= |items|
    ensures var p := ReceiveFrames(cfg, crypto, r, buffer, k);
            && p.outcome == ReceiveAll(cfg, r, Unsealed(crypto, items)[..k])
            && (p.outcome.error.None? ==> p.offset == |Frames(items[..k])|)
  {
    hide DeliverWire, ReadU32, HasAt, BigEndian;
    var frames := Unsealed(crypto, items);
    if k > 0 {
      FramesComeBack(cfg, crypto, r, buffer, items, k - 1);
      assert frames[..k][..k - 1] == frames[..k - 1];
      FrameFrom(buffer, 0, items, k - 1);
      FrameBytes(buffer, |Frames(items[..k - 1])| + 4, items[k - 1]);
    }
  }

  lemma FrameBytes(buffer: seq<byte>, at: nat, item: seq<byte>)
    requires HasAt(buffer, at, item)
    ensures at + |item| <= |buffer| && buffer[at..at + |item|] == item
  {}
}
