/** One slab: a count, the greatest sequence, and length-prefixed records; and how a
    byte array is cut into slabs. */
module Slab {
  import opened Types
  import opened Codec

  datatype Cursor = Cursor(slab: nat, offset: nat, readCount: u32)

  // [count: u32][greatest sequence: u64][length: u32][record] [length: u32][record] ...
  const HEADER := 12

  datatype SlabView = SlabView(slab: nat, offset: nat, count: u32, slabMaxSequence: u64, records: seq<byte>) {
    static function New(data: seq<byte>, index: nat): Result<SlabView, StorageError> {
      var (count, offset) :- ReadU32(data, 0);
      var (slabMaxSequence, offset') :- ReadU64(data, offset);
      Success(SlabView(index, offset', count, slabMaxSequence, data))
    }

    function GetHead(): Cursor {
      Cursor(slab, offset, 0)
    }

    function Read(cursor: Cursor): Result<Option<(Record, Cursor)>, StorageError> {
      if cursor.readCount >= count then Success(None)
      else
        var (length, offset) :- ReadU32(records, cursor.offset);
        if length == 0 then Success(None)
        else if offset + length > |records| then Failure(CorruptDB)
        else
          match DecodeRecord(records[offset..offset + length])
          case None => Failure(PostcardError)
          case Some(record) =>
            Success(Some((record, cursor.(offset := offset + length, readCount := cursor.readCount + 1))))
    }
  }

  // ------------------------------------------------------------- what a slab holds

  // A stretch of a byte string.
  predicate HasAt(s: seq<byte>, start: nat, part: seq<byte>) {
    start + |part| <= |s| && s[start..start + |part|] == part
  }

  function Encoded(recs: seq<Record>): (items: seq<seq<byte>>)
    ensures |items| == |recs|
  {
    seq(|recs|, i requires 0 <= i < |recs| => EncodeRecord(recs[i]))
  }

  function Layout(recs: seq<Record>): seq<byte> {
    Frames(Encoded(recs))
  }

  function LastMax(recs: seq<Record>): u64 {
    if recs == [] then 0 else recs[|recs| - 1].maxSequence
  }

  // The maxima of a slab's records ascend, as `write_record` insists.
  predicate InOrder(recs: seq<Record>) {
    forall i, j :: 0 <= i < j < |recs| ==> recs[i].maxSequence <= recs[j].maxSequence
  }

  // No record exceeds it, and one has it, or there is none.
  predicate IsGreatest(max: u64, recs: seq<Record>) {
    && (forall i :: 0 <= i < |recs| ==> recs[i].maxSequence <= max)
    && if recs == [] then max == 0 else exists i :: 0 <= i < |recs| && recs[i].maxSequence == max
  }

  /** The last of ascending maxima is the greatest. */
  lemma LastIsGreatest(recs: seq<Record>)
    requires InOrder(recs)
    ensures IsGreatest(LastMax(recs), recs)
  {}

  lemma InOrderSnoc(recs: seq<Record>, r: Record)
    requires InOrder(recs) && (recs != [] ==> recs[|recs| - 1].maxSequence <= r.maxSequence)
    ensures InOrder(recs + [r])
  {}

  predicate Holds(slab: seq<byte>, recs: seq<Record>) {
    && |slab| < 0x1_0000_0000
    && HasAt(slab, 0, BigEndian(|recs|, 4))
    && HasAt(slab, 4, BigEndian(LastMax(recs), 8))
    && HasAt(slab, HEADER, Layout(recs))
  }

  // A slab whose count was never written.
  predicate Blank(slab: seq<byte>) {
    |slab| >= HEADER && HasAt(slab, 0, BigEndian(0, 4))
  }

  function CursorAt(index: nat, recs: seq<Record>, j: nat): Cursor
    requires j <= |recs| < 0x1_0000_0000
  {
    Cursor(index, HEADER + |Layout(recs[..j])|, j)
  }

  lemma LayoutSnoc(recs: seq<Record>, r: Record)
    ensures Layout(recs + [r]) == Layout(recs) + Frame(EncodeRecord(r))
  {
    assert Encoded(recs + [r]) == Encoded(recs) + [EncodeRecord(r)];
    FramesSnoc(Encoded(recs), EncodeRecord(r));
  }

  lemma HeldCount(slab: seq<byte>, recs: seq<Record>)
    requires Holds(slab, recs)
    ensures 4 * |recs| <= |slab| && |recs| < 0x1_0000_0000
  {
    FramesLength(Encoded(recs));
  }

  lemma SlabOpens(slab: seq<byte>, index: nat, recs: seq<Record>)
    requires Holds(slab, recs)
    ensures |recs| < 0x1_0000_0000
    ensures SlabView.New(slab, index) == Success(SlabView(index, HEADER, |recs|, LastMax(recs), slab))
  {
    HeldCount(slab, recs);
    ReadU32Back(slab, 0, |recs|);
    ReadU64Back(slab, 4, LastMax(recs));
  }

  lemma BlankReadsNothing(slab: seq<byte>, index: nat)
    requires Blank(slab)
    ensures SlabView.New(slab, index).Success?
    ensures var view := SlabView.New(slab, index).value; view.Read(view.GetHead()) == Success(None)
  {
    ReadU32Back(slab, 0, 0);
  }

  lemma Sub(s: seq<byte>, lo: nat, hi: nat, a: nat, b: nat)
    requires a <= b && lo + b <= hi <= |s|
    ensures s[lo..hi][a..b] == s[lo + a..lo + b]
  {
    assert forall i :: 0 <= i < b - a ==> s[lo..hi][a..b][i] == s[lo + a..lo + b][i];
  }

  lemma HasPart(s: seq<byte>, start: nat, part: seq<byte>, at: nat, small: seq<byte>)
    requires HasAt(s, start, part) && HasAt(part, at, small)
    ensures HasAt(s, start + at, small)
  {
    forall i | 0 <= i < |small| ensures s[start + at..start + at + |small|][i] == small[i] {
      assert part[at..at + |small|][i] == part[at + i];
      assert s[start..start + |part|][at + i] == s[start + (at + i)];
    }
  }

  lemma HasFrame(items: seq<seq<byte>>, j: nat)
    requires j < |items|
    ensures var at := |Frames(items[..j])|;
            && HasAt(Frames(items), at, BigEndian(|items[j]|, 4))
            && HasAt(Frames(items), at + 4, items[j])
            && |Frames(items[..j + 1])| == at + 4 + |items[j]|
  {
    FrameAt(items, j);
  }

  lemma HasU32(s: seq<byte>, at: nat, n: u32)
    requires HasAt(s, at, BigEndian(n, 4))
    ensures ReadU32(s, at) == Success((n, at + 4))
  {
    ReadU32Back(s, at, n);
  }

  // Where item j of frames that start at an offset is.
  lemma FrameFrom(s: seq<byte>, start: nat, items: seq<seq<byte>>, j: nat)
    requires HasAt(s, start, Frames(items)) && j < |items|
    requires |s| < 0x1_0000_0000
    ensures var at := start + |Frames(items[..j])|;
            && at + 4 + |items[j]| == start + |Frames(items[..j + 1])| <= |s|
            && |items[j]| < 0x1_0000_0000
            && ReadU32(s, at) == Success((|items[j]|, at + 4))
            && HasAt(s, at + 4, items[j])
  {
    hide Frames, BigEndian, HasAt, ReadU32;
    HasFrame(items, j);
    var at, n := |Frames(items[..j])|, |items[j]|;
    HasPart(s, start, Frames(items), at + 4, items[j]);
    HasLength(s, start + at + 4, items[j]);
    HasPart(s, start, Frames(items), at, BigEndian(n, 4));
    HasU32(s, start + at, n);
  }

  lemma HasLength(s: seq<byte>, at: nat, part: seq<byte>)
    requires HasAt(s, at, part)
    ensures at + |part| <= |s|
  {}

  /** Reading a slab from a cursor at record j gives record j and a cursor at the next,
      and nothing after the last. */
  lemma SlabReads(slab: seq<byte>, index: nat, recs: seq<Record>, j: nat)
    requires Holds(slab, recs) && j <= |recs|
    ensures |recs| < 0x1_0000_0000
    ensures SlabView.New(slab, index).Success?
    ensures var view := SlabView.New(slab, index).value;
            && view.GetHead() == CursorAt(index, recs, 0)
            && view.Read(CursorAt(index, recs, j)) ==
               Success(if j < |recs| then Some((recs[j], CursorAt(index, recs, j + 1))) else None)
  {
    hide Frames, EncodeRecord, DecodeRecord, BigEndian, FromBigEndian, ReadU32;
    SlabOpens(slab, index, recs);
    EmptyLayout(recs);
    if j < |recs| {
      var items := Encoded(recs);
      assert Encoded(recs[..j]) == items[..j] && Encoded(recs[..j + 1]) == items[..j + 1];
      FrameFrom(slab, HEADER, items, j);
      RecordSizePositive(recs[j]);
      RecordRoundTrip(recs[j]);
    }
  }

  /** What a slab whose records have been damaged reads as: a length of zero ends it, one
      beyond the slab is corruption, and less than a record is no record. */
  lemma DamagedSlab(view: SlabView, cursor: Cursor, length: u32)
    requires cursor.readCount < view.count && HasAt(view.records, cursor.offset, BigEndian(length, 4))
    ensures length == 0 ==> view.Read(cursor) == Success(None)
    ensures length > 0 && cursor.offset + 4 + length > |view.records| ==> view.Read(cursor) == Failure(CorruptDB)
    ensures forall r: Record, k: nat ::
              |r.data| <= U64_MAX && length == k < |EncodeRecord(r)| && 0 < k
              && HasAt(view.records, cursor.offset + 4, EncodeRecord(r)[..k])
              ==> view.Read(cursor) == Failure(PostcardError)
  {
    hide EncodeRecord, DecodeRecord, ReadU32;
    ReadU32Back(view.records, cursor.offset, length);
    forall r: Record, k: nat
      | |r.data| <= U64_MAX && length == k < |EncodeRecord(r)| && 0 < k
        && HasAt(view.records, cursor.offset + 4, EncodeRecord(r)[..k])
      ensures view.Read(cursor) == Failure(PostcardError)
    {
      TruncatedRecord(r, k);
    }
  }

  lemma EmptyLayout(recs: seq<Record>)
    ensures Layout(recs[..0]) == []
  {
    assert Encoded(recs[..0]) == [];
  }

  lemma RecordSizePositive(r: Record)
    ensures 0 < |EncodeRecord(r)| && |r.data| < |EncodeRecord(r)|
  {}

  // ------------------------------------------------------------ an array of slabs

  function SlabStart(i: nat, size: nat): nat {
    i * size
  }

  function SlabTotal(length: nat, size: nat): nat
    requires size > 0
  {
    length / size
  }

  function SlabBytes(data: seq<byte>, size: nat, i: nat): seq<byte>
    requires SlabStart(i, size) + size <= |data|
  {
    data[SlabStart(i, size)..SlabStart(i, size) + size]
  }

  lemma SlabInside(i: nat, size: nat, length: nat)
    requires size > 0 && i < SlabTotal(length, size)
    ensures SlabStart(i, size) + size <= length
  {
    assert (i + 1) * size <= (length / size) * size <= length;
  }

  lemma SlabsApart(i: nat, k: nat, size: nat)
    requires i < k
    ensures SlabStart(i, size) + size <= SlabStart(k, size)
  {
    assert (i + 1) * size <= k * size;
  }

  // What slab i of the array is: the records stored in it, or blank.
  predicate StoresAt(data: seq<byte>, size: nat, slabs: seq<seq<Record>>, i: nat) {
    && SlabStart(i, size) + size <= |data|
    && if i < |slabs| then Holds(SlabBytes(data, size, i), slabs[i]) else Blank(SlabBytes(data, size, i))
  }

  // Every slab but one, which may be half written.
  ghost predicate StoresBut(data: seq<byte>, size: nat, slabs: seq<seq<Record>>, k: nat)
    requires size > 0
  {
    && |slabs| <= SlabTotal(|data|, size)
    && (forall i :: 0 <= i < SlabTotal(|data|, size) && i != k ==> StoresAt(data, size, slabs, i))
  }

  predicate Stores(data: seq<byte>, size: nat, slabs: seq<seq<Record>>)
    requires size > 0
  {
    && |slabs| <= SlabTotal(|data|, size)
    && (forall i :: 0 <= i < SlabTotal(|data|, size) ==> StoresAt(data, size, slabs, i))
  }

  // The stored slabs once slab k holds other records.
  function Put(slabs: seq<seq<Record>>, k: nat, recs: seq<Record>): seq<seq<Record>>
    requires k <= |slabs|
  {
    if k < |slabs| then slabs[k := recs] else slabs + [recs]
  }

  /** Writing slab k keeps every stored slab if and only if k is the first free one, or
      what it held is written again. */
  lemma PutKeeps(slabs: seq<seq<Record>>, k: nat, recs: seq<Record>)
    requires k <= |slabs|
    ensures slabs <= Put(slabs, k, recs) <==> k == |slabs| || slabs[k] == recs
  {
    assert k < |slabs| ==> Put(slabs, k, recs)[k] == recs;
  }

  // The two byte strings differ only in slab k.
  predicate SameOutside(data: seq<byte>, data': seq<byte>, lo: nat, hi: nat) {
    && |data| == |data'| && lo <= hi <= |data|
    && data[..lo] == data'[..lo] && data[hi..] == data'[hi..]
  }

  lemma OthersUntouched(data: seq<byte>, data': seq<byte>, size: nat, k: nat, lo: nat, hi: nat, i: nat)
    requires SameOutside(data, data', lo, hi) && SlabStart(k, size) <= lo && hi <= SlabStart(k, size) + size
    requires i != k && SlabStart(i, size) + size <= |data|
    ensures SlabBytes(data, size, i) == SlabBytes(data', size, i)
  {
    hide SlabStart;
    if i < k {
      SlabsApart(i, k, size);
      BeforeUntouched(data, data', lo, SlabStart(i, size), SlabStart(i, size) + size);
    } else {
      SlabsApart(k, i, size);
      AfterUntouched(data, data', hi, SlabStart(i, size), SlabStart(i, size) + size);
    }
  }

  lemma BeforeUntouched(data: seq<byte>, data': seq<byte>, lo: nat, a: nat, b: nat)
    requires a <= b <= lo <= |data| && lo <= |data'| && data[..lo] == data'[..lo]
    ensures data[a..b] == data'[a..b]
  {
    Sub(data, 0, lo, a, b);
    Sub(data', 0, lo, a, b);
  }

  lemma AfterUntouched(data: seq<byte>, data': seq<byte>, hi: nat, a: nat, b: nat)
    requires hi <= a <= b <= |data| == |data'| && data[hi..] == data'[hi..]
    ensures data[a..b] == data'[a..b]
  {
    Sub(data, hi, |data|, a - hi, b - hi);
    Sub(data', hi, |data'|, a - hi, b - hi);
  }

  /** Writing inside slab k leaves all other slabs as they were. */
  lemma ScratchKeepsOthers(data: seq<byte>, data': seq<byte>, size: nat, slabs: seq<seq<Record>>, k: nat,
                           lo: nat, hi: nat)
    requires size > 0 && StoresBut(data, size, slabs, k)
    requires SameOutside(data, data', lo, hi)
    requires SlabStart(k, size) <= lo && hi <= SlabStart(k, size) + size
    ensures StoresBut(data', size, slabs, k)
  {
    hide SlabStart, SlabTotal, SlabBytes, Holds, Blank, SameOutside;
    SameLength(data, data', lo, hi);
    forall i | 0 <= i < SlabTotal(|data'|, size) && i != k ensures StoresAt(data', size, slabs, i) {
      assert StoresAt(data, size, slabs, i);
      OthersUntouched(data, data', size, k, lo, hi, i);
    }
  }

  lemma SameLength(data: seq<byte>, data': seq<byte>, lo: nat, hi: nat)
    requires SameOutside(data, data', lo, hi)
    ensures |data| == |data'|
  {}

  /** Writing anywhere behind a blank slab's count changes nothing that can be read. */
  lemma ScratchKeepsStores(data: seq<byte>, data': seq<byte>, size: nat, slabs: seq<seq<Record>>, lo: nat, hi: nat)
    requires size >= HEADER && Stores(data, size, slabs) && |slabs| < SlabTotal(|data|, size)
    requires SameOutside(data, data', lo, hi)
    requires SlabStart(|slabs|, size) + HEADER <= lo && hi <= SlabStart(|slabs|, size) + size
    ensures Stores(data', size, slabs)
  {
    hide SlabStart, SlabTotal, Layout;
    var k := |slabs|;
    ScratchKeepsOthers(data, data', size, slabs, k, lo, hi);
    assert StoresAt(data, size, slabs, k);
    BeforeUntouched(data, data', lo, SlabStart(k, size), SlabStart(k, size) + 4);
    Sub(data, SlabStart(k, size), SlabStart(k, size) + size, 0, 4);
    Sub(data', SlabStart(k, size), SlabStart(k, size) + size, 0, 4);
    assert StoresAt(data', size, slabs, k);
  }

  /** Writing the header of slab k over records already laid out behind it makes exactly
      that slab hold them, whatever it held. */
  lemma HeaderPutsSlab(data: seq<byte>, data': seq<byte>, size: nat, slabs: seq<seq<Record>>, k: nat,
                       recs: seq<Record>)
    requires size >= HEADER && StoresBut(data, size, slabs, k) && k <= |slabs| && k < SlabTotal(|data|, size)
    requires SameOutside(data, data', SlabStart(k, size), SlabStart(k, size) + size)
    requires SlabStart(k, size) + size <= |data| && Holds(SlabBytes(data', size, k), recs)
    ensures Stores(data', size, Put(slabs, k, recs))
  {
    hide SlabStart, SlabTotal, SlabBytes, Holds, Blank;
    ScratchKeepsOthers(data, data', size, slabs, k, SlabStart(k, size), SlabStart(k, size) + size);
    var slabs' := Put(slabs, k, recs);
    forall i | 0 <= i < SlabTotal(|data'|, size) ensures StoresAt(data', size, slabs', i) {
      if i != k {
        assert StoresAt(data', size, slabs, i);
      }
    }
  }
}
