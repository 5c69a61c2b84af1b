/** Bytes: big-endian integers, length-prefixed frames, and the record layout
    (LEB128 varints, as in the "Varint Encoded Integers" section of the postcard
    wire format). */
module Codec {
  import opened Types

  // ------------------------------------------------------ big-endian integers

  function Pow256(k: nat): (p: nat)
    ensures p > 0
  {
    if k == 0 then 1 else 256 * Pow256(k - 1)
  }

  // The low k bytes of n, most significant first.
  function BigEndian(n: nat, k: nat): (s: seq<byte>)
    ensures |s| == k
  {
    if k == 0 then [] else BigEndian(n / 256, k - 1) + [n % 256]
  }

  function FromBigEndian(s: seq<byte>): nat {
    if s == [] then 0 else FromBigEndian(s[..|s| - 1]) * 256 + s[|s| - 1]
  }

  lemma {:induction false} BigEndianRoundTrip(n: nat, k: nat)
    requires n < Pow256(k)
    ensures FromBigEndian(BigEndian(n, k)) == n
  {
    if k > 0 {
      BigEndianRoundTrip(n / 256, k - 1);
      assert BigEndian(n, k)[..k - 1] == BigEndian(n / 256, k - 1);
    }
  }

  /** Byte i is the digit of n at place k - 1 - i to the base of 256: the most significant
      comes first. */
  lemma {:induction false} BigEndianDigit(n: nat, k: nat, i: nat)
    requires i < k
    ensures BigEndian(n, k)[i] == (n / Pow256(k - 1 - i)) % 256
  {
    if i == k - 1 {
      assert Pow256(0) == 1;
    } else {
      BigEndianDigit(n / 256, k - 1, i);
      DivideTwice(n, Pow256(k - 2 - i));
    }
  }

  lemma MultipleIsFar(d: nat, k: int)
    ensures k >= 1 ==> d * k >= d
    ensures k <= -1 ==> d * k + d <= 0
  {
    if k >= 1 {
      assert d * k >= d * 1;
    } else if k <= -1 {
      assert d * k <= d * -1;
    }
  }

  lemma QuotientIs(n: nat, d: nat, q: nat, rest: nat)
    requires rest < d && n == d * q + rest
    ensures n / d == q
  {
    var q', rest' := n / d, n % d;
    assert n == d * q' + rest';
    assert d * (q' - q) == d * q' - d * q;
    MultipleIsFar(d, q' - q);
  }

  lemma DivideTwice(n: nat, m: nat)
    requires m > 0
    ensures n / 256 / m == n / (256 * m)
  {
    var q, s := n / 256 / m, n / 256 % m;
    assert n == 256 * (m * q + s) + n % 256;
    assert 256 * (m * q + s) == (256 * m) * q + 256 * s;
    QuotientIs(n, 256 * m, q, 256 * s + n % 256);
  }

  lemma {:induction false} FromBigEndianBound(s: seq<byte>)
    ensures FromBigEndian(s) < Pow256(|s|)
  {
    if s != [] {
      FromBigEndianBound(s[..|s| - 1]);
    }
  }

  lemma Widths()
    ensures Pow256(4) == 0x1_0000_0000
    ensures Pow256(8) == 0x1_0000_0000_0000_0000
    ensures Pow256(32) == 0x1_0000000000000000_0000000000000000_0000000000000000_0000000000000000
  {
    assert Pow256(8) == 0x1_0000_0000_0000_0000;
    assert Pow256(16) == 0x1_0000000000000000_0000000000000000;
    assert Pow256(24) == 0x1_0000000000000000_0000000000000000_0000000000000000;
  }

  // `read_u32`: the number at an offset and the offset past it.
  function ReadU32(data: seq<byte>, at: nat): Result<(u32, nat), StorageError> {
    if at + 4 > |data| then Failure(OutOfBounds)
    else
      FromBigEndianBound(data[at..at + 4]);
      Widths();
      Success((FromBigEndian(data[at..at + 4]), at + 4))
  }

  function ReadU64(data: seq<byte>, at: nat): Result<(u64, nat), StorageError> {
    if at + 8 > |data| then Failure(OutOfBounds)
    else
      FromBigEndianBound(data[at..at + 8]);
      Widths();
      Success((FromBigEndian(data[at..at + 8]), at + 8))
  }

  lemma ReadU32Back(data: seq<byte>, at: nat, n: u32)
    requires at + 4 <= |data| && data[at..at + 4] == BigEndian(n, 4)
    ensures ReadU32(data, at) == Success((n, at + 4))
  {
    Widths();
    BigEndianRoundTrip(n, 4);
  }

  lemma ReadU64Back(data: seq<byte>, at: nat, n: u64)
    requires at + 8 <= |data| && data[at..at + 8] == BigEndian(n, 8)
    ensures ReadU64(data, at) == Success((n, at + 8))
  {
    Widths();
    BigEndianRoundTrip(n, 8);
  }

  /** Reading fails exactly when too few bytes are left. */
  lemma ReadsWhatIsLeft(data: seq<byte>, at: nat)
    ensures if at + 4 <= |data| then ReadU32(data, at) == Success((FromBigEndian(data[at..at + 4]), at + 4))
            else ReadU32(data, at) == Failure(OutOfBounds)
    ensures if at + 8 <= |data| then ReadU64(data, at) == Success((FromBigEndian(data[at..at + 8]), at + 8))
            else ReadU64(data, at) == Failure(OutOfBounds)
  {}

  /** Any bytes are the big-endian form of the number they read as. */
  lemma {:induction false} BytesRoundTrip(s: seq<byte>)
    ensures BigEndian(FromBigEndian(s), |s|) == s
  {
    if s != [] {
      BytesRoundTrip(s[..|s| - 1]);
      assert s == s[..|s| - 1] + [s[|s| - 1]];
    }
  }

  // ------------------------------------------------------------------ varints

  function EncodeVarint(n: nat): (s: seq<byte>)
    ensures |s| > 0
  {
    if n < 128 then [n] else [128 + n % 128] + EncodeVarint(n / 128)
  }

  // At most `limit` bytes, the value and what follows it.
  function DecodeVarint(s: seq<byte>, limit: nat): Option<(nat, seq<byte>)> {
    if limit == 0 || s == [] then None
    else if s[0] < 128 then Some((s[0], s[1..]))
    else match DecodeVarint(s[1..], limit - 1)
      case None => None
      case Some((high, rest)) => Some((s[0] - 128 + 128 * high, rest))
  }

  function Pow128(k: nat): (p: nat)
    ensures p > 0
  {
    if k == 0 then 1 else 128 * Pow128(k - 1)
  }

  lemma {:induction false} VarintRoundTrip(n: nat, limit: nat, rest: seq<byte>)
    requires 0 < limit && n < Pow128(limit)
    ensures DecodeVarint(EncodeVarint(n) + rest, limit) == Some((n, rest))
    ensures |EncodeVarint(n)| <= limit
  {
    var s := EncodeVarint(n) + rest;
    if n < 128 {
      assert s[1..] == rest;
    } else {
      VarintRoundTrip(n / 128, limit - 1, rest);
      assert s[1..] == EncodeVarint(n / 128) + rest;
    }
  }

  const VARINT64_MAX := 10

  function DecodeU64(s: seq<byte>): Option<(u64, seq<byte>)> {
    match DecodeVarint(s, VARINT64_MAX)
    case None => None
    case Some((n, rest)) => if n <= U64_MAX then Some((n, rest)) else None
  }

  lemma U64RoundTrip(n: u64, rest: seq<byte>)
    ensures DecodeU64(EncodeVarint(n) + rest) == Some((n, rest))
    ensures |EncodeVarint(n)| <= VARINT64_MAX
  {
    assert Pow128(5) == 0x8_0000_0000;
    assert Pow128(10) == 0x40_0000_0000_0000_0000;
    VarintRoundTrip(n, VARINT64_MAX, rest);
  }

  /** Seven bits a byte, the lowest first, and the high bit set on all but the last. */
  lemma {:induction false} VarintByte(n: nat, i: nat)
    requires i < |EncodeVarint(n)|
    ensures EncodeVarint(n)[i] == (n / Pow128(i)) % 128 + if i + 1 < |EncodeVarint(n)| then 128 else 0
  {
    if i > 0 {
      VarintByte(n / 128, i - 1);
      DivideAgain(n, Pow128(i - 1));
    }
  }

  lemma DivideAgain(n: nat, m: nat)
    requires m > 0
    ensures n / 128 / m == n / (128 * m)
  {
    var q, s := n / 128 / m, n / 128 % m;
    assert n == 128 * (m * q + s) + n % 128;
    assert 128 * (m * q + s) == (128 * m) * q + 128 * s;
    QuotientIs(n, 128 * m, q, 128 * s + n % 128);
  }

  /** Ten bytes that all announce another are no number. */
  lemma EndlessVarint(s: seq<byte>)
    requires |s| >= 10 && forall i :: 0 <= i < 10 ==> s[i] >= 128
    ensures DecodeU64(s) == None
  {
    Endless(s, 10);
  }

  /** Nor is one that exceeds eight bytes. */
  lemma TooGreatVarint(n: nat, rest: seq<byte>)
    requires U64_MAX < n < Pow128(10)
    ensures DecodeU64(EncodeVarint(n) + rest) == None
  {
    VarintRoundTrip(n, VARINT64_MAX, rest);
  }

  lemma {:induction false} Endless(s: seq<byte>, limit: nat)
    requires |s| >= limit && forall i :: 0 <= i < limit ==> s[i] >= 128
    ensures DecodeVarint(s, limit) == None
  {
    if limit > 0 {
      Endless(s[1..], limit - 1);
    }
  }

  // The beginning of an encoded number and what follows it.
  lemma {:induction false} VarintBegun(n: nat, limit: nat, rest: seq<byte>, k: nat)
    requires 0 < limit && n < Pow128(limit) && k <= |EncodeVarint(n)| + |rest|
    ensures DecodeVarint((EncodeVarint(n) + rest)[..k], limit)
            == if k < |EncodeVarint(n)| then None else Some((n, rest[..k - |EncodeVarint(n)|]))
  {
    var e := EncodeVarint(n);
    if k >= |e| {
      assert (e + rest)[..k] == e + rest[..k - |e|];
      VarintRoundTrip(n, limit, rest[..k - |e|]);
    } else if k > 0 {
      VarintBegun(n / 128, limit - 1, rest, k - 1);
      assert (e + rest)[..k][1..] == (EncodeVarint(n / 128) + rest)[..k - 1];
    }
  }

  lemma U64Begun(n: u64, rest: seq<byte>, k: nat)
    requires k <= |EncodeVarint(n)| + |rest|
    ensures DecodeU64((EncodeVarint(n) + rest)[..k])
            == if k < |EncodeVarint(n)| then None else Some((n, rest[..k - |EncodeVarint(n)|]))
  {
    assert Pow128(5) == 0x8_0000_0000;
    assert Pow128(10) == 0x40_0000_0000_0000_0000;
    VarintBegun(n, VARINT64_MAX, rest, k);
  }

  // ------------------------------------------------------------------ records

  datatype Record = Record(maxSequence: u64, messageCount: u64, sequence: u64, sender: NodeId, data: seq<byte>)

  function EncodeRecord(r: Record): (s: seq<byte>)
    ensures |s| > 0
  {
    EncodeVarint(r.maxSequence) + (EncodeVarint(r.messageCount) + (EncodeVarint(r.sequence)
    + (BigEndian(r.sender, 32) + (EncodeVarint(|r.data|) + r.data))))
  }

  function DecodeRecord(s: seq<byte>): Option<Record> {
    match DecodeU64(s)
    case None => None
    case Some((maxSequence, s1)) =>
    match DecodeU64(s1)
    case None => None
    case Some((messageCount, s2)) =>
    match DecodeU64(s2)
    case None => None
    case Some((sequence, s3)) =>
    if |s3| < 32 then None else
    match DecodeU64(s3[32..])
    case None => None
    case Some((length, s4)) =>
    if length > |s4| then None
    else
      FromBigEndianBound(s3[..32]);
      Widths();
      Some(Record(maxSequence, messageCount, sequence, FromBigEndian(s3[..32]), s4[..length]))
  }

  lemma RecordRoundTrip(r: Record)
    requires |r.data| <= U64_MAX
    ensures DecodeRecord(EncodeRecord(r)) == Some(r)
  {
    var s4 := EncodeVarint(|r.data|) + r.data;
    var s3 := BigEndian(r.sender, 32) + s4;
    var s2 := EncodeVarint(r.sequence) + s3;
    var s1 := EncodeVarint(r.messageCount) + s2;
    U64RoundTrip(r.maxSequence, s1);
    U64RoundTrip(r.messageCount, s2);
    U64RoundTrip(r.sequence, s3);
    assert s3[..32] == BigEndian(r.sender, 32) && s3[32..] == s4;
    Widths();
    BigEndianRoundTrip(r.sender, 32);
    U64RoundTrip(|r.data|, r.data);
    assert r.data[..|r.data|] == r.data;
    assert BigEndian(r.sender, 32) + (EncodeVarint(|r.data|) + r.data) == s3;
  }

  /** The fields follow each other as they are declared: maximum, count and sequence, the
      sender's 32 bytes, and the data behind its length. */
  lemma FieldsInOrder(r: Record)
    requires |r.data| <= U64_MAX
    ensures var first := DecodeU64(EncodeRecord(r));
            && first.Some? && first.value.0 == r.maxSequence
            && var second := DecodeU64(first.value.1);
            && second.Some? && second.value.0 == r.messageCount
            && var third := DecodeU64(second.value.1);
            && third.Some? && third.value.0 == r.sequence
            && |third.value.1| >= 32 && third.value.1[..32] == BigEndian(r.sender, 32)
            && DecodeU64(third.value.1[32..]) == Some((|r.data|, r.data))
  {
    hide EncodeVarint, DecodeU64, BigEndian;
    var s4 := EncodeVarint(|r.data|) + r.data;
    var s3 := BigEndian(r.sender, 32) + s4;
    var s2 := EncodeVarint(r.sequence) + s3;
    var s1 := EncodeVarint(r.messageCount) + s2;
    U64RoundTrip(r.maxSequence, s1);
    U64RoundTrip(r.messageCount, s2);
    U64RoundTrip(r.sequence, s3);
    assert s3[..32] == BigEndian(r.sender, 32) && s3[32..] == s4;
    U64RoundTrip(|r.data|, r.data);
  }

  /** The beginning of a record is no record. */
  lemma TruncatedRecord(r: Record, k: nat)
    requires |r.data| <= U64_MAX && k < |EncodeRecord(r)|
    ensures DecodeRecord(EncodeRecord(r)[..k]) == None
  {
    hide EncodeVarint, DecodeU64, BigEndian, FromBigEndian;
    var s4 := EncodeVarint(|r.data|) + r.data;
    var s3 := BigEndian(r.sender, 32) + s4;
    var s2 := EncodeVarint(r.sequence) + s3;
    var s1 := EncodeVarint(r.messageCount) + s2;
    U64Begun(r.maxSequence, s1, k);
    var k1 := k - |EncodeVarint(r.maxSequence)|;
    if k1 >= 0 {
      U64Begun(r.messageCount, s2, k1);
      var k2 := k1 - |EncodeVarint(r.messageCount)|;
      if k2 >= 0 {
        U64Begun(r.sequence, s3, k2);
        var k3 := k2 - |EncodeVarint(r.sequence)|;
        if k3 >= 32 {
          SenderBegun(r.sender, s4, k3);
          U64Begun(|r.data|, r.data, k3 - 32);
        }
      }
    }
  }

  lemma SenderBegun(sender: NodeId, s4: seq<byte>, k: nat)
    requires 32 <= k <= 32 + |s4|
    ensures (BigEndian(sender, 32) + s4)[..k][32..] == s4[..k - 32]
  {
    hide BigEndian;
  }

  // What a record adds to its data at most: four varints and a node id.
  const RECORD_OVERHEAD := 4 * VARINT64_MAX + 32

  lemma RecordSize(r: Record)
    requires |r.data| <= U64_MAX
    ensures |r.data| < |EncodeRecord(r)| <= |r.data| + RECORD_OVERHEAD
  {
    U64RoundTrip(r.maxSequence, []);
    U64RoundTrip(r.messageCount, []);
    U64RoundTrip(r.sequence, []);
    U64RoundTrip(|r.data|, []);
  }

  // ------------------------------------------------------------------- frames

  // A four-byte length and the bytes it counts: the layout of a slab's records
  // and of a sync buffer's envelopes.
  function Frame(data: seq<byte>): seq<byte> {
    BigEndian(|data|, 4) + data
  }

  function Frames(items: seq<seq<byte>>): seq<byte> {
    if items == [] then [] else Frames(items[..|items| - 1]) + Frame(items[|items| - 1])
  }

  lemma FramesSnoc(items: seq<seq<byte>>, item: seq<byte>)
    ensures Frames(items + [item]) == Frames(items) + Frame(item)
  {
    assert (items + [item])[..|items|] == items;
  }

  lemma {:induction false} FramesPrefix(items: seq<seq<byte>>, j: nat)
    requires j <= |items|
    ensures Frames(items[..j]) <= Frames(items)
  {
    if j < |items| {
      FramesPrefix(items[..|items| - 1], j);
      assert items[..|items| - 1][..j] == items[..j];
    } else {
      assert items[..j] == items;
    }
  }

  lemma {:induction false} FramesLength(items: seq<seq<byte>>)
    ensures |Frames(items)| >= 4 * |items|
  {
    if items != [] {
      FramesLength(items[..|items| - 1]);
    }
  }

  /** Item j of a run of frames sits right after the first j of them. */
  lemma FrameAt(items: seq<seq<byte>>, j: nat)
    requires j < |items|
    ensures var at := |Frames(items[..j])|;
            && at + 4 + |items[j]| <= |Frames(items)|
            && |Frames(items[..j + 1])| == at + 4 + |items[j]|
            && Frames(items)[at..at + 4] == BigEndian(|items[j]|, 4)
            && Frames(items)[at + 4..at + 4 + |items[j]|] == items[j]
  {
    FramesPrefix(items, j + 1);
    assert items[..j + 1] == items[..j] + [items[j]];
    FramesSnoc(items[..j], items[j]);
  }
}
