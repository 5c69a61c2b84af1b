/** The log on bytes: an array cut into slabs, a writer for the next slab, and reading
    and searching across slabs. */
module SlabStorage {
  import opened Types
  import opened Codec
  import opened Slab
  import opened Search

  // ------------------------------------------------------------ writing to a buffer

  function Overwrite(s: seq<byte>, at: nat, src: seq<byte>): (s': seq<byte>)
    requires at + |src| <= |s|
    ensures |s'| == |s|
  {
    s[..at] + src + s[at + |src|..]
  }

  lemma OverwriteSpan(s: seq<byte>, at: nat, src: seq<byte>, lo: nat, hi: nat)
    requires lo <= at && at + |src| <= hi <= |s|
    ensures SameOutside(s, Overwrite(s, at, src), lo, hi)
    ensures Overwrite(s, at, src)[at..at + |src|] == src
  {
    var s' := Overwrite(s, at, src);
    assert s'[..lo] == s[..lo];
    assert s'[hi..] == s[hi..];
  }

  method Copy(src: seq<byte>, target: array<byte>, at: nat)
    requires at + |src| <= target.Length
    modifies target
    ensures target[..] == Overwrite(old(target[..]), at, src)
  {
    forall i | 0 <= i < |src| {
      target[at + i] := src[i];
    }
  }

  method WriteU32(value: u32, target: array<byte>, at: nat) returns (r: Result<nat, StorageError>)
    modifies target
    ensures at + 4 > target.Length ==> r == Failure(OutOfBounds) && target[..] == old(target[..])
    ensures at + 4 <= target.Length ==>
              r == Success(at + 4) && target[..] == Overwrite(old(target[..]), at, BigEndian(value, 4))
  {
    if at + 4 > target.Length {
      return Failure(OutOfBounds);
    }
    Copy(BigEndian(value, 4), target, at);
    return Success(at + 4);
  }

  method WriteU64(value: u64, target: array<byte>, at: nat) returns (r: Result<nat, StorageError>)
    modifies target
    ensures at + 8 > target.Length ==> r == Failure(OutOfBounds) && target[..] == old(target[..])
    ensures at + 8 <= target.Length ==>
              r == Success(at + 8) && target[..] == Overwrite(old(target[..]), at, BigEndian(value, 8))
  {
    if at + 8 > target.Length {
      return Failure(OutOfBounds);
    }
    Copy(BigEndian(value, 8), target, at);
    return Success(at + 8);
  }

  lemma Joined(s: seq<byte>, a: nat, b: nat, c: nat)
    requires a <= b <= c <= |s|
    ensures s[a..c] == s[a..b] + s[b..c]
  {}

  lemma ModSmall(n: nat, m: nat)
    requires n < m
    ensures n % m == n
  {}

  // -------------------------------------------------------------------- the array

  class MemIO {
    const slabSize: nat
    const maxIndex: nat
    const startOffset: nat
    const data: array<byte>
    var slabCount: nat
    // The records of every slab that holds any, counted or not.
    ghost var slabs: seq<seq<Record>>

    ghost predicate Shaped()
      reads this
    {
      && HEADER + 4 <= slabSize < 0x1_0000_0000
      && maxIndex == SlabTotal(data.Length, slabSize)
      && startOffset == 0
      && slabCount <= |slabs|
    }

    ghost predicate Valid()
      reads this, data
    {
      Shaped() && Stores(data[..], slabSize, slabs)
    }

    // Every slab with records is counted. `MemIO::new` counts none, so this fails on
    // bytes that already hold some.
    ghost predicate Counted()
      reads this
    {
      slabCount == |slabs|
    }

    // What a writer needs: the slab it writes next may hold anything, unless it is one
    // that no record is stored in.
    ghost predicate Usable()
      reads this, data
    {
      && Shaped()
      && StoresBut(data[..], slabSize, slabs, slabCount)
      && (Counted() ==> Stores(data[..], slabSize, slabs))
    }

    constructor (data: array<byte>, slabSize: nat, ghost slabs: seq<seq<Record>>)
      requires slabSize > 0
      ensures this.data == data && this.slabSize == slabSize && slabCount == 0 && this.slabs == slabs
      ensures maxIndex == SlabTotal(data.Length, slabSize) && startOffset == 0
      ensures HEADER + 4 <= slabSize < 0x1_0000_0000 && Stores(data[..], slabSize, slabs) ==> Valid()
    {
      this.slabSize := slabSize;
      this.maxIndex := data.Length / slabSize;
      this.startOffset := 0;
      this.data := data;
      this.slabCount := 0;
      this.slabs := slabs;
    }

    static method New(data: array<byte>, slabSize: nat, ghost slabs: seq<seq<Record>>)
      returns (r: Result<MemIO, StorageError>)
      ensures slabSize == 0 ==> r == Failure(StorageUnreachable)
      ensures slabSize > 0 ==>
                && r.Success? && fresh(r.value)
                && r.value.data == data && r.value.slabSize == slabSize
                && r.value.slabCount == 0 && r.value.slabs == slabs
                && (HEADER + 4 <= slabSize < 0x1_0000_0000 && Stores(data[..], slabSize, slabs) ==> r.value.Valid())
    {
      if slabSize == 0 {
        return Failure(StorageUnreachable);
      }
      var io := new MemIO(data, slabSize, slabs);
      return Success(io);
    }

    method GetSlab(index: nat) returns (r: Result<SlabView, StorageError>)
      requires Valid()
      ensures index >= maxIndex ==> r == Failure(OutOfBounds)
      ensures index < maxIndex ==> SlabStart(index, slabSize) + slabSize <= data.Length
      ensures index < maxIndex ==> r == SlabView.New(SlabBytes(data[..], slabSize, index), index)
    {
      if index >= maxIndex {
        return Failure(OutOfBounds);
      }
      SlabInside(index, slabSize, data.Length);
      ModSmall(index * slabSize, data.Length);
      var slabStart := (startOffset + index * slabSize) % data.Length;
      var slice := data[slabStart..slabStart + slabSize];
      assert slice == SlabBytes(data[..], slabSize, index);
      hide *;
      r := SlabView.New(slice, index);
    }

    // An encoder that runs out of room has already written what did fit.
    method WriteRecord(offset: nat, end: nat, record: Record) returns (r: Result<nat, StorageError>)
      requires offset + 4 <= end <= data.Length && end - offset < 0x1_0000_0000
      modifies data
      ensures SameOutside(old(data[..]), data[..], offset, end)
      ensures r == if |EncodeRecord(record)| <= end - offset - 4
                   then Success(offset + 4 + |EncodeRecord(record)|) else Failure(SlabFull)
      ensures r.Success? ==> data[..][offset..r.value] == Frame(EncodeRecord(record))
    {
      var target := offset + 4;
      var bytes := EncodeRecord(record);
      var fit := if |bytes| <= end - target then |bytes| else end - target;
      OverwriteSpan(data[..], target, bytes[..fit], offset, end);
      Copy(bytes[..fit], data, target);
      if fit < |bytes| {
        return Failure(SlabFull);
      }
      assert bytes[..fit] == bytes;
      ghost var mid := data[..];
      OverwriteSpan(mid, offset, BigEndian(|bytes|, 4), offset, end);
      OverwriteSpan(mid, offset, BigEndian(|bytes|, 4), offset, target);
      var _ := WriteU32(|bytes|, data, offset);
      AfterUntouched(mid, data[..], target, target, target + |bytes|);
      hide Overwrite, SameOutside;
      Joined(data[..], offset, target, target + |bytes|);
      return Success(target + |bytes|);
    }

    // The slab the count points at is replaced, whether or not records are stored in it.
    method Commit(recordCount: u32, maxSequence: u64, offset: nat, ghost recs: seq<Record>)
      requires Usable() && slabCount < maxIndex
      requires offset == SlabStart(slabCount, slabSize)
      requires recordCount == |recs| && maxSequence == LastMax(recs)
      requires HEADER + |Layout(recs)| <= slabSize && offset + slabSize <= data.Length
      requires data[..][offset + HEADER..offset + HEADER + |Layout(recs)|] == Layout(recs)
      modifies this, data
      ensures Valid() && slabCount == old(slabCount) + 1
      ensures slabs == Put(old(slabs), old(slabCount), recs)
      ensures SameOutside(old(data[..]), data[..], offset, offset + HEADER)
      ensures ReadU32(data[..], offset) == Success((recordCount, offset + 4))
      ensures ReadU64(data[..], offset + 4) == Success((maxSequence, offset + 12))
    {
      hide Layout, Holds, Stores, StoresBut, BigEndian, Overwrite, SlabStart, SlabTotal, ReadU32, ReadU64;
      ghost var before := data[..];
      OverwriteSpan(before, offset, BigEndian(recordCount, 4), offset, offset + 4);
      var _ := WriteU32(recordCount, data, offset);
      ghost var mid := data[..];
      OverwriteSpan(mid, offset + 4, BigEndian(maxSequence, 8), offset + 4, offset + HEADER);
      var _ := WriteU64(maxSequence, data, offset + 4);
      ghost var after := data[..];
      HeaderWritten(before, mid, after, offset, slabSize, recs);
      BeforeUntouched(mid, after, offset + 4, offset, offset + 4);
      ReadU32Back(after, offset, recordCount);
      ReadU64Back(after, offset + 4, maxSequence);
      HeaderPutsSlab(before, after, slabSize, slabs, slabCount, recs);
      slabs := Put(slabs, slabCount, recs);
      slabCount := slabCount + 1;
    }
  }

  lemma ValidIsUsable(io: MemIO)
    requires io.Valid()
    ensures io.Usable()
  {
    hide StoresAt;
  }

  // The two header writes of a commit, over the records behind them.
  lemma HeaderWritten(before: seq<byte>, mid: seq<byte>, after: seq<byte>, offset: nat, size: nat, recs: seq<Record>)
    requires offset + size <= |before| && HEADER + |Layout(recs)| <= size < 0x1_0000_0000
    requires before[offset + HEADER..offset + HEADER + |Layout(recs)|] == Layout(recs)
    requires SameOutside(before, mid, offset, offset + 4)
    requires SameOutside(mid, after, offset + 4, offset + HEADER)
    requires mid[offset..offset + 4] == BigEndian(|recs|, 4)
    requires after[offset + 4..offset + HEADER] == BigEndian(LastMax(recs), 8)
    ensures SameOutside(before, after, offset, offset + HEADER)
    ensures SameOutside(before, after, offset, offset + size)
    ensures |after| == |before| && Holds(after[offset..offset + size], recs)
  {
    hide Layout, BigEndian;
    var n := |Layout(recs)|;
    BeforeUntouched(mid, after, offset + 4, 0, offset);
    AfterUntouched(before, mid, offset + 4, offset + HEADER, |before|);
    assert before[..offset] == mid[..offset] == after[..offset];
    assert before[offset + HEADER..] == mid[offset + HEADER..] == after[offset + HEADER..];
    AfterUntouched(before, after, offset + HEADER, offset + size, |before|);
    BeforeUntouched(mid, after, offset + 4, offset, offset + 4);
    AfterUntouched(before, after, offset + HEADER, offset + HEADER, offset + HEADER + n);
    Sub(after, offset, offset + size, 0, 4);
    Sub(after, offset, offset + size, 4, HEADER);
    Sub(after, offset, offset + size, HEADER, HEADER + n);
  }

  // -------------------------------------------------------------------- the writer

  class SlabWriter {
    var count: u32
    var slabMaxSequence: u64
    const slabOffset: nat
    var offset: nat
    const end: nat
    const io: MemIO
    // What has been written and not committed.
    ghost var pending: seq<Record>

    ghost predicate Valid()
      reads this, io, io.data
    {
      && io.Usable() && io.slabCount < io.maxIndex
      && slabOffset == SlabStart(io.slabCount, io.slabSize)
      && end == slabOffset + io.slabSize <= io.data.Length
      && count == |pending| && InOrder(pending) && IsGreatest(slabMaxSequence, pending)
      && slabMaxSequence == LastMax(pending)
      && offset == slabOffset + HEADER + |Layout(pending)| <= end
      && io.data[..][slabOffset + HEADER..offset] == Layout(pending)
    }

    constructor (io: MemIO, offset: nat, end: nat)
      requires io.Usable() && io.slabCount < io.maxIndex
      requires offset == SlabStart(io.slabCount, io.slabSize) && end == offset + io.slabSize <= io.data.Length
      ensures Valid() && pending == [] && this.io == io
      ensures this.offset == offset + HEADER && this.end == end
    {
      this.count := 0;
      this.slabMaxSequence := 0;
      this.slabOffset := offset;
      this.offset := offset + HEADER;
      this.end := end;
      this.io := io;
      this.pending := [];
      new;
      assert io.data[..][slabOffset + HEADER..this.offset] == [];
    }

    // A record that cannot be written leaves the pending ones as they were, and every
    // stored slab but the one this writer stands in.
    method WriteRecord(record: Record) returns (r: Result<(), StorageError>)
      requires Valid() && offset + 4 <= end
      modifies this, io.data
      ensures Valid() && io.slabs == old(io.slabs) && io.slabCount == old(io.slabCount)
      ensures SameOutside(old(io.data[..]), io.data[..], old(offset), end)
      ensures r == if old(slabMaxSequence) > record.maxSequence then Failure(OutOfOrder)
                   else if |EncodeRecord(record)| > end - old(offset) - 4 then Failure(SlabFull)
                   else Success(())
      ensures pending == if r.Success? then old(pending) + [record] else old(pending)
    {
      hide Layout, Stores, StoresBut, SlabStart, SlabTotal, EncodeRecord, Frame;
      if slabMaxSequence > record.maxSequence {
        return Failure(OutOfOrder);
      }
      ghost var before := io.data[..];
      var wrote := io.WriteRecord(offset, end, record);
      WriteKeeps(before, io.data[..], io.slabSize, io.slabs, io.slabCount, slabOffset, offset, end, pending);
      if wrote.Failure? {
        return Failure(SlabFull);
      }
      RecordAppended(io.data[..], slabOffset + HEADER, offset, wrote.value, pending, record);
      InOrderSnoc(pending, record);
      LastIsGreatest(pending + [record]);
      count := count + 1;
      slabMaxSequence := record.maxSequence;
      offset := wrote.value;
      pending := pending + [record];
      return Success(());
    }

    method Commit()
      requires Valid()
      modifies io, io.data
      ensures io.Valid() && io.slabCount == old(io.slabCount) + 1
      ensures io.slabs == Put(old(io.slabs), old(io.slabCount), pending)
      ensures SameOutside(old(io.data[..]), io.data[..], slabOffset, slabOffset + HEADER)
      ensures IsGreatest(slabMaxSequence, pending)
      ensures ReadU32(io.data[..], slabOffset) == Success((|pending|, slabOffset + 4))
      ensures ReadU64(io.data[..], slabOffset + 4) == Success((slabMaxSequence, slabOffset + 12))
      ensures HasAt(io.data[..], slabOffset + 12, Layout(pending))
    {
      hide ReadU32, ReadU64, Stores, StoresBut, Layout, SlabStart, SlabTotal, InOrder, SameOutside;
      ghost var before := io.data[..];
      io.Commit(count, slabMaxSequence, slabOffset, pending);
      RecordsStay(before, io.data[..], slabOffset, offset, pending);
    }
  }

  lemma RecordsStay(before: seq<byte>, after: seq<byte>, slabOffset: nat, offset: nat, pending: seq<Record>)
    requires SameOutside(before, after, slabOffset, slabOffset + HEADER)
    requires slabOffset + HEADER <= offset <= |before|
    requires before[slabOffset + HEADER..offset] == Layout(pending)
    ensures HasAt(after, slabOffset + 12, Layout(pending))
  {
    hide Layout;
    AfterUntouched(before, after, slabOffset + HEADER, slabOffset + HEADER, offset);
  }

  lemma RecordAppended(after: seq<byte>, start: nat, offset: nat, next: nat, pending: seq<Record>, record: Record)
    requires start <= offset <= next <= |after|
    requires after[start..offset] == Layout(pending) && after[offset..next] == Frame(EncodeRecord(record))
    ensures after[start..next] == Layout(pending + [record])
    ensures 4 * (|pending| + 1) <= next - start
  {
    LayoutSnoc(pending, record);
    assert after[start..next] == after[start..offset] + after[offset..next];
    FramesLength(Encoded(pending + [record]));
  }

  // A write past the pending records leaves them, and every other slab, readable, and the
  // whole array when it is the first free slab that is written.
  lemma WriteKeeps(before: seq<byte>, after: seq<byte>, size: nat, slabs: seq<seq<Record>>, k: nat,
                   slabOffset: nat, offset: nat, end: nat, pending: seq<Record>)
    requires size >= HEADER && StoresBut(before, size, slabs, k) && k < SlabTotal(|before|, size)
    requires slabOffset == SlabStart(k, size) && end == slabOffset + size
    requires offset == slabOffset + HEADER + |Layout(pending)| <= end
    requires SameOutside(before, after, offset, end)
    requires before[slabOffset + HEADER..offset] == Layout(pending)
    ensures StoresBut(after, size, slabs, k)
    ensures k == |slabs| && Stores(before, size, slabs) ==> Stores(after, size, slabs)
    ensures after[slabOffset + HEADER..offset] == Layout(pending)
  {
    hide Layout, Stores, StoresBut, SlabStart, SlabTotal;
    ScratchKeepsOthers(before, after, size, slabs, k, offset, end);
    if k == |slabs| && Stores(before, size, slabs) {
      ScratchKeepsStores(before, after, size, slabs, offset, end);
    }
    BeforeUntouched(before, after, offset, slabOffset + HEADER, offset);
  }

  // -------------------------------------------------------------------- the log

  // All stored records, slab after slab.
  function Flat(slabs: seq<seq<Record>>): seq<Record> {
    if slabs == [] then [] else Flat(slabs[..|slabs| - 1]) + slabs[|slabs| - 1]
  }

  function Keys(recs: seq<Record>, key: Record -> u64): (keys: seq<u64>)
    ensures |keys| == |recs|
  {
    seq(|recs|, i requires 0 <= i < |recs| => key(recs[i]))
  }

  predicate NoneEmpty(slabs: seq<seq<Record>>) {
    forall i :: 0 <= i < |slabs| ==> slabs[i] != []
  }

  // The cursor stands before record p of the whole log. The end of one slab and the
  // start of the next are the same place.
  ghost predicate At(slabs: seq<seq<Record>>, c: Cursor, p: nat) {
    && c.slab < |slabs|
    && c.readCount <= |slabs[c.slab]| < 0x1_0000_0000
    && c == CursorAt(c.slab, slabs[c.slab], c.readCount)
    && p == |Flat(slabs[..c.slab])| + c.readCount
  }

  // It stands before one in its own slab.
  ghost predicate Before(slabs: seq<seq<Record>>, c: Cursor, p: nat) {
    At(slabs, c, p) && c.readCount < |slabs[c.slab]|
  }

  lemma FlatSnoc(slabs: seq<seq<Record>>, recs: seq<Record>)
    ensures Flat(slabs + [recs]) == Flat(slabs) + recs
  {
    assert (slabs + [recs])[..|slabs|] == slabs;
  }

  lemma {:induction false} FlatPrefix(slabs: seq<seq<Record>>, i: nat)
    requires i <= |slabs|
    ensures Flat(slabs[..i]) <= Flat(slabs)
  {
    if i < |slabs| {
      FlatPrefix(slabs[..|slabs| - 1], i);
      assert slabs[..|slabs| - 1][..i] == slabs[..i];
    } else {
      assert slabs[..i] == slabs;
    }
  }

  /** Record j of slab i is where the records of the slabs before it end, plus j. */
  lemma FlatAt(slabs: seq<seq<Record>>, i: nat)
    requires i < |slabs|
    ensures Flat(slabs[..i + 1]) == Flat(slabs[..i]) + slabs[i]
    ensures |Flat(slabs[..i])| + |slabs[i]| <= |Flat(slabs)|
    ensures forall j :: 0 <= j < |slabs[i]| ==> Flat(slabs)[|Flat(slabs[..i])| + j] == slabs[i][j]
  {
    hide Flat;
    assert slabs[..i + 1] == slabs[..i] + [slabs[i]];
    FlatSnoc(slabs[..i], slabs[i]);
    FlatPrefix(slabs, i + 1);
    var before := Flat(slabs[..i]);
    forall j | 0 <= j < |slabs[i]| ensures Flat(slabs)[|before| + j] == slabs[i][j] {
      assert Flat(slabs)[|before| + j] == (before + slabs[i])[|before| + j];
    }
  }

  class Storage {
    const io: MemIO

    constructor (io: MemIO)
      ensures this.io == io
    {
      this.io := io;
    }

    // The first record whose key is at or above v, in log order. It looks at every slab,
    // counted or not.
    method Search(key: Record -> u64, v: u64) returns (r: Result<Option<Cursor>, StorageError>)
      requires io.Valid()
      ensures var p := FirstAtLeast(Keys(Flat(io.slabs), key), v);
              if p < |Flat(io.slabs)| then r.Success? && r.value.Some? && Before(io.slabs, r.value.value, p)
              else r == Success(None)
    {
      hide SlabStart, SlabTotal, Holds, Blank, Flat, SlabBytes, Layout, ScannedTo, FirstAtLeast;
      hide SlabView.New, SlabView.Read, SlabView.GetHead;
      ghost var slabs := io.slabs;
      ScanStart(slabs, key, v);
      var index := io.startOffset;
      while true
        invariant index <= io.maxIndex
        invariant ScannedTo(slabs, index, key, v)
        decreases io.maxIndex - index
      {
        if index < io.maxIndex {
          SlabYields(io.data[..], io.slabSize, slabs, index, 0);
        }
        var got := io.GetSlab(index);
        if got == Failure(OutOfBounds) {
          NothingFound(slabs, index, key, v);
          return Success(None);
        }
        ghost var recs := if index < |slabs| then slabs[index] else [];
        var slab := got.value;
        var cursor := slab.GetHead();
        ghost var j := 0;
        var found := slab.Read(cursor).value;
        while found.Some?
          invariant j <= |recs|
          invariant recs != [] ==> cursor == CursorAt(index, recs, j)
          invariant found == if j < |recs| then Some((recs[j], CursorAt(index, recs, j + 1))) else None
          invariant forall k :: 0 <= k < j ==> key(recs[k]) < v
          decreases |recs| - j
        {
          var (record, next) := found.value;
          if key(record) >= v {
            FoundAt(slabs, index, j, key, v);
            return Success(Some(cursor));
          }
          cursor := next;
          j := j + 1;
          SlabYields(io.data[..], io.slabSize, slabs, index, j);
          found := slab.Read(cursor).value;
        }
        ScanOn(slabs, index, key, v);
        index := index + 1;
      }
    }

    // From the end of one slab it goes on to the next, as long as that one is counted.
    method Read(cursor: Cursor, ghost p: nat) returns (r: Result<Option<(seq<byte>, Cursor)>, StorageError>)
      requires io.Valid() && At(io.slabs, cursor, p)
      ensures Reads(io.slabs, io.slabCount, cursor, p, r)
    {
      hide SlabStart, SlabTotal, Holds, Blank, SlabBytes, Layout, Gives;
      hide SlabView.New, SlabView.Read, SlabView.GetHead;
      ghost var slabs, i, j := io.slabs, cursor.slab, cursor.readCount;
      FlatAt(slabs, i);
      SlabYields(io.data[..], io.slabSize, slabs, i, j);
      var slab := io.GetSlab(cursor.slab);
      var found := slab.value.Read(cursor).value;
      if found.Some? {
        GivesNext(slabs, i, j);
        return Success(Some((found.value.0.data, found.value.1)));
      }
      var nextIndex := cursor.slab + 1;
      if nextIndex >= io.slabCount {
        return Success(None);
      }
      FlatAt(slabs, nextIndex);
      SlabYields(io.data[..], io.slabSize, slabs, nextIndex, 0);
      slab := io.GetSlab(nextIndex);
      found := slab.value.Read(slab.value.GetHead()).value;
      if found.Some? {
        GivesNext(slabs, nextIndex, 0);
        return Success(Some((found.value.0.data, found.value.1)));
      }
      return Failure(StorageUnreachable);
    }

    method GetWriter() returns (writer: SlabWriter)
      requires io.Usable() && io.slabCount < io.maxIndex
      ensures fresh(writer) && writer.io == io && writer.Valid() && writer.pending == []
      ensures writer.end - writer.offset == io.slabSize - HEADER
    {
      var start := io.startOffset + io.slabCount * io.slabSize;
      SlabInside(io.slabCount, io.slabSize, io.data.Length);
      writer := new SlabWriter(io, start, start + io.slabSize);
    }

    method GetCursorFromSequence(sequence: u64) returns (r: Result<Option<Cursor>, StorageError>)
      requires io.Valid()
      ensures var p := FirstAtLeast(Keys(Flat(io.slabs), (record: Record) => record.maxSequence), sequence);
              if p < |Flat(io.slabs)| then r.Success? && r.value.Some? && Before(io.slabs, r.value.value, p)
              else r == Success(None)
    {
      r := Search((record: Record) => record.maxSequence, sequence);
    }

    method GetCursorFromIndex(messageIndex: u64) returns (r: Result<Option<Cursor>, StorageError>)
      requires io.Valid()
      ensures var p := FirstAtLeast(Keys(Flat(io.slabs), (record: Record) => record.messageCount), messageIndex);
              if p < |Flat(io.slabs)| then r.Success? && r.value.Some? && Before(io.slabs, r.value.value, p)
              else r == Success(None)
    {
      r := Search((record: Record) => record.messageCount, messageIndex);
    }
  }

  // What a read from position p gives: the data of record p and the place after it.
  ghost predicate Gives(slabs: seq<seq<Record>>, p: nat, r: Result<Option<(seq<byte>, Cursor)>, StorageError>) {
    && r.Success? && r.value.Some? && p < |Flat(slabs)|
    && r.value.value.0 == Flat(slabs)[p].data
    && At(slabs, r.value.value.1, p + 1)
  }

  // What a read gives: the next record of the slab, or of the next slab if that one is
  // counted, where an empty one is an error.
  ghost predicate Reads(slabs: seq<seq<Record>>, count: nat, cursor: Cursor, p: nat,
                        r: Result<Option<(seq<byte>, Cursor)>, StorageError>)
  {
    && cursor.slab < |slabs|
    && if cursor.readCount < |slabs[cursor.slab]| then Gives(slabs, p, r) && r.value.value.1.slab == cursor.slab
       else if cursor.slab + 1 >= count then r == Success(None)
       else
         && cursor.slab + 1 < |slabs|
         && if slabs[cursor.slab + 1] == [] then r == Failure(StorageUnreachable)
            else Gives(slabs, p, r) && r.value.value.1.slab == cursor.slab + 1
  }

  // Record j of slab i, read from a cursor before it.
  lemma GivesNext(slabs: seq<seq<Record>>, i: nat, j: nat)
    requires i < |slabs| && j < |slabs[i]| < 0x1_0000_0000
    ensures Gives(slabs, |Flat(slabs[..i])| + j,
                  Success(Some((slabs[i][j].data, CursorAt(i, slabs[i], j + 1)))))
    ensures CursorAt(i, slabs[i], j + 1).slab == i
  {
    FlatAt(slabs, i);
  }

  // ------------------------------------------------------------ steps of the search

  ghost predicate ScannedTo(slabs: seq<seq<Record>>, index: nat, key: Record -> u64, v: u64) {
    var done := Flat(if index < |slabs| then slabs[..index] else slabs);
    forall k :: 0 <= k < |done| ==> key(done[k]) < v
  }

  lemma ScanStart(slabs: seq<seq<Record>>, key: Record -> u64, v: u64)
    ensures ScannedTo(slabs, 0, key, v)
  {}

  lemma NothingFound(slabs: seq<seq<Record>>, index: nat, key: Record -> u64, v: u64)
    requires ScannedTo(slabs, index, key, v) && index >= |slabs|
    ensures FirstAtLeast(Keys(Flat(slabs), key), v) == |Flat(slabs)|
  {
    FirstIsFirst(Keys(Flat(slabs), key), v, |Flat(slabs)|);
  }

  lemma ScanOn(slabs: seq<seq<Record>>, index: nat, key: Record -> u64, v: u64)
    requires ScannedTo(slabs, index, key, v)
    requires index < |slabs| ==> forall k :: 0 <= k < |slabs[index]| ==> key(slabs[index][k]) < v
    ensures ScannedTo(slabs, index + 1, key, v)
  {
    if index < |slabs| {
      FlatAt(slabs, index);
      assert index + 1 == |slabs| ==> slabs[..index + 1] == slabs;
    }
  }

  lemma FoundAt(slabs: seq<seq<Record>>, index: nat, j: nat, key: Record -> u64, v: u64)
    requires ScannedTo(slabs, index, key, v) && index < |slabs| && j < |slabs[index]|
    requires forall k :: 0 <= k < j ==> key(slabs[index][k]) < v
    requires key(slabs[index][j]) >= v
    ensures FirstAtLeast(Keys(Flat(slabs), key), v) == |Flat(slabs[..index])| + j < |Flat(slabs)|
  {
    FlatAt(slabs, index);
    FlatPrefix(slabs, index);
    var keys, n := Keys(Flat(slabs), key), |Flat(slabs[..index])|;
    forall i | 0 <= i < n + j ensures keys[i] < v {
      if i < n {
        assert Flat(slabs)[i] == Flat(slabs[..index])[i];
      } else {
        assert Flat(slabs)[n + (i - n)] == slabs[index][i - n];
      }
    }
    FirstIsFirst(keys, v, n + j);
  }

  // What slab `index` of the array yields to a cursor before record j.
  lemma SlabYields(data: seq<byte>, size: nat, slabs: seq<seq<Record>>, index: nat, j: nat)
    requires size > 0 && Stores(data, size, slabs) && index < SlabTotal(|data|, size)
    requires j <= if index < |slabs| then |slabs[index]| else 0
    ensures SlabStart(index, size) + size <= |data|
    ensures var view := SlabView.New(SlabBytes(data, size, index), index);
            && view.Success?
            && if index < |slabs| then
                 && |slabs[index]| < 0x1_0000_0000
                 && view.value.GetHead() == CursorAt(index, slabs[index], 0)
                 && view.value.Read(CursorAt(index, slabs[index], j)) ==
                    Success(if j < |slabs[index]| then Some((slabs[index][j], CursorAt(index, slabs[index], j + 1)))
                            else None)
               else
                 view.value.Read(view.value.GetHead()) == Success(None)
  {
    assert StoresAt(data, size, slabs, index);
    hide SlabStart, SlabTotal, SlabBytes, Stores, Holds, Blank;
    if index < |slabs| {
      SlabReads(SlabBytes(data, size, index), index, slabs[index], j);
    } else {
      BlankReadsNothing(SlabBytes(data, size, index), index);
    }
  }

  // ------------------------------------------------------------------ reading on

  // Where a reader that starts in slab i stops: before the first slab that is not counted
  // or holds nothing.
  function End(slabs: seq<seq<Record>>, count: nat, i: nat): (end: nat)
    requires i < |slabs|
    ensures i < end <= |slabs|
    decreases |slabs| - i
  {
    if i + 1 >= count || i + 1 >= |slabs| || slabs[i + 1] == [] then i + 1 else End(slabs, count, i + 1)
  }

  lemma {:induction false} EndInside(slabs: seq<seq<Record>>, count: nat, s: nat, i: nat)
    requires s < |slabs| && s <= i < End(slabs, count, s)
    ensures End(slabs, count, i) == End(slabs, count, s)
    decreases i - s
  {
    if s < i {
      EndInside(slabs, count, s + 1, i);
    }
  }

  /** A reader that has no empty slab before it stops at the first one that is not counted,
      but not before the end of the slab it starts in. */
  lemma {:induction false} EndOfCounted(slabs: seq<seq<Record>>, count: nat, i: nat)
    requires NoneEmpty(slabs) && i < |slabs| && count <= |slabs|
    ensures End(slabs, count, i) == if i + 1 < count then count else i + 1
    decreases |slabs| - i
  {
    if i + 1 < count {
      EndOfCounted(slabs, count, i + 1);
    }
  }

  // What a reader finds when it gets there.
  function Stop(count: nat, end: nat): Result<(), StorageError> {
    if end < count then Failure(StorageUnreachable) else Success(())
  }

  /** One read on the way from slab s to where reading stops: record p and a place before
      the next, or the stop after the last of them. */
  lemma ReadStep(slabs: seq<seq<Record>>, count: nat, s: nat, cursor: Cursor, p: nat,
                 r: Result<Option<(seq<byte>, Cursor)>, StorageError>)
    requires count <= |slabs| && s < |slabs| && s <= cursor.slab < End(slabs, count, s)
    requires At(slabs, cursor, p) && Reads(slabs, count, cursor, p, r)
    ensures var end := End(slabs, count, s);
            var all := Flat(slabs[..end]);
            if p < |all| then
              && r.Success? && r.value.Some? && r.value.value.0 == all[p].data
              && At(slabs, r.value.value.1, p + 1) && s <= r.value.value.1.slab < end
            else
              && p == |all|
              && match Stop(count, end)
                 case Failure(e) => r == Failure(e)
                 case Success(_) => r == Success(None)
  {
    hide Flat;
    var i, end := cursor.slab, End(slabs, count, s);
    EndInside(slabs, count, s, i);
    FlatAt(slabs, i);
    FlatUpTo(slabs, i, end);
    if cursor.readCount == |slabs[i]| && i + 1 < end {
      FlatAt(slabs, i + 1);
      FlatUpTo(slabs, i + 1, end);
    }
    FlatPrefix(slabs, end);
  }

  lemma HeadInside(slabs: seq<seq<Record>>, count: nat, c: Cursor, p: nat)
    requires Before(slabs, c, p)
    ensures c.slab < |slabs| && c.slab < End(slabs, count, c.slab) && At(slabs, c, p)
    ensures p < |Flat(slabs[..End(slabs, count, c.slab)])|
  {
    hide Flat;
    FlatAt(slabs, c.slab);
    FlatUpTo(slabs, c.slab, End(slabs, count, c.slab));
  }

  // The records of the slabs up to i are the first of those up to end.
  lemma FlatUpTo(slabs: seq<seq<Record>>, i: nat, end: nat)
    requires i < end <= |slabs|
    ensures Flat(slabs[..i + 1]) <= Flat(slabs[..end])
  {
    assert slabs[..end][..i + 1] == slabs[..i + 1];
    FlatPrefix(slabs[..end], i + 1);
  }

  // The slab that holds record p of the log.
  function SlabOf(slabs: seq<seq<Record>>, p: nat): (i: nat)
    requires p < |Flat(slabs)|
    ensures i < |slabs|
  {
    if p >= |Flat(slabs[..|slabs| - 1])| then |slabs| - 1 else SlabOf(slabs[..|slabs| - 1], p)
  }

  lemma {:induction false} StandsInSlab(slabs: seq<seq<Record>>, c: Cursor, p: nat)
    requires Before(slabs, c, p)
    ensures p < |Flat(slabs)| && SlabOf(slabs, p) == c.slab
  {
    var init := slabs[..|slabs| - 1];
    FlatAt(slabs, c.slab);
    if c.slab < |init| {
      assert init[..c.slab] == slabs[..c.slab];
      StandsInSlab(init, c, p);
    }
  }

  // The first slab that holds a record, where every search from the head ends up.
  function FirstHeld(slabs: seq<seq<Record>>): (i: nat)
    ensures i <= |slabs|
    ensures forall k :: 0 <= k < i ==> slabs[k] == []
    ensures i < |slabs| ==> slabs[i] != []
  {
    if slabs == [] || slabs[0] != [] then 0
    else
      var i := FirstHeld(slabs[1..]);
      assert forall k :: 1 <= k < i + 1 ==> slabs[k] == slabs[1..][k - 1];
      i + 1
  }

  // The slabs that a reader from the head of the log gets to see, and what it finds after
  // them.
  ghost function Shown(io: MemIO): seq<seq<Record>>
    reads io
  {
    var i := FirstHeld(io.slabs);
    if i == |io.slabs| then [] else io.slabs[..End(io.slabs, io.slabCount, i)]
  }

  ghost function ShownStop(io: MemIO): Result<(), StorageError>
    reads io
  {
    if FirstHeld(io.slabs) == |io.slabs| then Success(()) else Stop(io.slabCount, |Shown(io)|)
  }

  /** From the head of an array without empty slabs one sees the counted ones, and the first
      in any case: all of them if they are counted, one if `MemIO::new` has just been. */
  lemma ShownIsCounted(io: MemIO)
    requires NoneEmpty(io.slabs) && io.slabCount <= |io.slabs|
    ensures Shown(io) == if io.slabs == [] then [] else io.slabs[..if 1 < io.slabCount then io.slabCount else 1]
    ensures ShownStop(io) == Success(())
    ensures io.Counted() ==> Shown(io) == io.slabs
  {
    if io.slabs != [] {
      assert io.slabs[0] != [];
      EndOfCounted(io.slabs, io.slabCount, 0);
    }
  }

  lemma NothingHeld(slabs: seq<seq<Record>>)
    requires Flat(slabs) == []
    ensures FirstHeld(slabs) == |slabs|
  {
    var i := FirstHeld(slabs);
    if i < |slabs| {
      FlatAt(slabs, i);
    }
  }

  // A cursor before the first record stands in the first slab that holds one.
  lemma HeadOfLog(slabs: seq<seq<Record>>, c: Cursor)
    requires Before(slabs, c, 0)
    ensures c.slab == FirstHeld(slabs) < |slabs|
  {
    var i := FirstHeld(slabs);
    if i < c.slab {
      FlatAt(slabs[..c.slab], i);
    }
  }

  /** Reading from a place in the log on gives the data of every later record up to where
      reading stops, in order, across slab boundaries. It ends without an error unless an
      empty slab is counted. */
  method ReadAll(storage: Storage, start: Cursor, ghost p: nat)
    returns (items: seq<seq<byte>>, stop: Result<(), StorageError>)
    requires storage.io.Valid() && At(storage.io.slabs, start, p)
    ensures start.slab < |storage.io.slabs|
    ensures var end := End(storage.io.slabs, storage.io.slabCount, start.slab);
            var all := Flat(storage.io.slabs[..end]);
            && stop == Stop(storage.io.slabCount, end)
            && p + |items| == |all|
            && (forall i :: 0 <= i < |items| ==> items[i] == all[p + i].data)
  {
    hide Flat, At, Stores, Reads;
    items := [];
    ghost var slabs, count := storage.io.slabs, storage.io.slabCount;
    AtInside(slabs, start, p);
    ghost var end := End(slabs, count, start.slab);
    ghost var all := Flat(slabs[..end]);
    var cursor := start;
    while true
      invariant At(slabs, cursor, p + |items|) && start.slab <= cursor.slab < end
      invariant forall i :: 0 <= i < |items| ==> p + i < |all| && items[i] == all[p + i].data
      decreases |all| - |items|
    {
      var found := storage.Read(cursor, p + |items|);
      ReadStep(slabs, count, start.slab, cursor, p + |items|, found);
      if found.Failure? {
        return items, Failure(found.error);
      }
      if found.value.None? {
        return items, Success(());
      }
      items := items + [found.value.value.0];
      cursor := found.value.value.1;
    }
  }

  lemma AtInside(slabs: seq<seq<Record>>, c: Cursor, p: nat)
    requires At(slabs, c, p)
    ensures c.slab < |slabs| && c.readCount <= |slabs[c.slab]|
  {}

  /** A reader sees the whole log if and only if it sees every slab. */
  lemma AllIsVisible(slabs: seq<seq<Record>>, visible: nat)
    requires NoneEmpty(slabs) && visible <= |slabs|
    ensures Flat(slabs[..visible]) == Flat(slabs) <==> visible == |slabs|
  {
    if visible < |slabs| {
      FlatAt(slabs, visible);
      assert slabs[visible] != [];
    } else {
      assert slabs[..visible] == slabs;
    }
  }
}
