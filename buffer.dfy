/**
 * The parts of Node's `Buffer` that the query client relies on: `slice`,
 * `indexOf(0, offset)`, the little-endian `read*` methods (which throw a
 * RangeError past the end of the buffer) and the NUL-terminated string read
 * built from `slice` and `indexOf`.
 */
module NodeBuffer {
  import opened Wrappers
  import opened Bytes

  /** How `slice` normalises an index: negative counts from the end, then clamp to [0, length]. */
  function AdjustOffset(offset: int, length: nat): (r: nat)
    ensures r <= length
    ensures 0 <= offset <= length ==> r == offset
    ensures offset < 0 && offset + length >= 0 ==> r == offset + length
  {
    if offset < 0 then (if offset + length > 0 then offset + length else 0)
    else if offset < length then offset
    else length
  }

  /** `b.slice(start, end)`: never throws; an end at or before the start gives an empty buffer. */
  function Slice(b: Bytes, start: int, end: int): (r: Bytes)
    ensures 0 <= start <= end <= |b| ==> r == b[start..end]
    ensures |r| <= |b|
  {
    var s := AdjustOffset(start, |b|);
    var e := AdjustOffset(end, |b|);
    if e > s then b[s..e] else []
  }

  /** `b.slice(start)`: everything from start on, empty when start is past the end. */
  function SliceFrom(b: Bytes, start: nat): (r: Bytes)
    ensures start <= |b| ==> r == b[start..]
    ensures start >= |b| ==> r == []
  {
    b[AdjustOffset(start, |b|)..]
  }

  /** `b.indexOf(0, offset)`: the first NUL at or after offset, or -1 when there is none. */
  function IndexOfNul(b: Bytes, offset: nat): (r: int)
    decreases |b| - offset
    ensures r == -1 || (offset <= r < |b| && b[r] == 0)
  {
    if offset >= |b| then -1
    else if b[offset] == 0 then offset
    else IndexOfNul(b, offset + 1)
  }

  /** The NUL indexOf finds is the first one, and -1 means there is none at or after offset. */
  lemma {:induction false} IndexOfNulFirst(b: Bytes, offset: nat)
    decreases |b| - offset
    ensures IndexOfNul(b, offset) >= 0 ==> forall k :: offset <= k < IndexOfNul(b, offset) ==> b[k] != 0
    ensures IndexOfNul(b, offset) == -1 <==> forall k :: offset <= k < |b| ==> b[k] != 0
  {
    if offset < |b| && b[offset] != 0 {
      IndexOfNulFirst(b, offset + 1);
    }
  }

  /**
   * The string read every decoder repeats: `s = b.slice(o, b.indexOf(0, o)); o += s.length + 1`.
   * Returns the string and the advanced cursor. It never throws.
   */
  function ReadCString(b: Bytes, offset: nat): (r: (Bytes, nat))
    ensures r.1 == offset + |r.0| + 1
    ensures 0 !in r.0
  {
    IndexOfNulFirst(b, offset);
    var s := Slice(b, offset, IndexOfNul(b, offset));
    (s, offset + |s| + 1)
  }

  /** With a NUL at or after the cursor, the string is everything before the first one and the cursor moves past it. */
  lemma ReadCStringTerminated(b: Bytes, offset: nat, k: nat)
    requires offset <= k < |b| && b[k] == 0
    requires forall j :: offset <= j < k ==> b[j] != 0
    ensures ReadCString(b, offset) == (b[offset..k], k + 1)
  {
    IndexOfNulFirst(b, offset);
  }

  /**
   * Without a NUL the source computes `b.slice(o, -1)`: the string stops one byte before the
   * end of the buffer, and the cursor lands on the end (or one step beyond when it was already there).
   */
  lemma ReadCStringUnterminated(b: Bytes, offset: nat)
    requires forall j :: offset <= j < |b| ==> b[j] != 0
    ensures offset < |b| ==> ReadCString(b, offset) == (b[offset..|b| - 1], |b|)
    ensures offset >= |b| ==> ReadCString(b, offset) == ([], offset + 1)
  {
    IndexOfNulFirst(b, offset);
  }

  /** Reading back a written NUL-terminated string returns it and moves past the terminator. */
  lemma ReadCStringWritten(p: Bytes, s: Bytes, q: Bytes)
    requires 0 !in s
    ensures ReadCString(p + s + [0] + q, |p|) == (s, |p| + |s| + 1)
  {
    var b := p + s + [0] + q;
    forall j | |p| <= j < |p| + |s| ensures b[j] != 0 {
      assert b[j] == s[j - |p|];
    }
    ReadCStringTerminated(b, |p|, |p| + |s|);
    assert b[|p|..|p| + |s|] == s;
  }

  /** The unsigned little-endian integer of n bytes at offset; a RangeError unless all n bytes exist. */
  function ReadUIntLE(b: Bytes, offset: nat, n: nat): (r: Result<nat>)
    ensures r.Err? ==> r.error == RangeError
    ensures r.Ok? <==> offset + n <= |b|
    ensures r.Ok? ==> r.value < Pow256(n)
  {
    if offset + n <= |b| then Ok(UIntLE(b[offset..offset + n])) else Err(RangeError)
  }

  /** `b.readInt8(offset)` */
  function ReadInt8(b: Bytes, offset: nat): (r: Result<int8>)
    ensures r.Err? ==> r.error == RangeError
    ensures r.Ok? <==> offset < |b|
  {
    if offset + 1 <= |b| then
      Pow256Values();
      Ok(ToSigned(UIntLE(b[offset..offset + 1]), 1))
    else Err(RangeError)
  }

  /** `b.readInt16LE(offset)` */
  function ReadInt16LE(b: Bytes, offset: nat): (r: Result<int16>)
    ensures r.Err? ==> r.error == RangeError
    ensures r.Ok? <==> offset + 2 <= |b|
  {
    if offset + 2 <= |b| then
      Pow256Values();
      Ok(ToSigned(UIntLE(b[offset..offset + 2]), 2))
    else Err(RangeError)
  }

  /** `b.readInt32LE(offset)` */
  function ReadInt32LE(b: Bytes, offset: nat): (r: Result<int32>)
    ensures r.Err? ==> r.error == RangeError
    ensures r.Ok? <==> offset + 4 <= |b|
  {
    if offset + 4 <= |b| then
      Pow256Values();
      Ok(ToSigned(UIntLE(b[offset..offset + 4]), 4))
    else Err(RangeError)
  }

  /** `b.readBigUInt64LE(offset)` */
  function ReadBigUInt64LE(b: Bytes, offset: nat): (r: Result<uint64>)
    ensures r.Err? ==> r.error == RangeError
    ensures r.Ok? <==> offset + 8 <= |b|
  {
    if offset + 8 <= |b| then
      Pow256Values();
      Ok(UIntLE(b[offset..offset + 8]))
    else Err(RangeError)
  }

  /** `b.readFloatLE(offset)`, kept as its four raw bytes. */
  function ReadFloatLE(b: Bytes, offset: nat): (r: Result<Bytes>)
    ensures r.Err? ==> r.error == RangeError
    ensures r.Ok? <==> offset + 4 <= |b|
    ensures r.Ok? ==> r.value == b[offset..offset + 4]
  {
    if offset + 4 <= |b| then Ok(b[offset..offset + 4]) else Err(RangeError)
  }

  /** An n-byte two's complement value written at offset |p| reads back unchanged. */
  lemma ReadIntLEWritten(p: Bytes, v: int, n: nat, q: Bytes)
    requires n > 0 && -(Pow256(n) / 2) <= v < Pow256(n) / 2
    ensures ReadUIntLE(p + IntLEBytes(v, n) + q, |p|, n).Ok?
    ensures ToSigned(ReadUIntLE(p + IntLEBytes(v, n) + q, |p|, n).value, n) == v
  {
    var b := p + IntLEBytes(v, n) + q;
    assert b[|p|..|p| + n] == IntLEBytes(v, n);
    IntLERoundTrip(v, n);
  }

  lemma ReadInt8Written(p: Bytes, v: int8, q: Bytes)
    ensures ReadInt8(p + IntLEBytes(v, 1) + q, |p|) == Ok(v)
  {
    Pow256Values();
    ReadIntLEWritten(p, v, 1, q);
  }

  lemma ReadInt16LEWritten(p: Bytes, v: int16, q: Bytes)
    ensures ReadInt16LE(p + IntLEBytes(v, 2) + q, |p|) == Ok(v)
  {
    Pow256Values();
    ReadIntLEWritten(p, v, 2, q);
  }

  /** `writeInt32LE` followed by `readInt32LE` at the same offset is the identity on every int32. */
  lemma ReadInt32LEWritten(p: Bytes, v: int32, q: Bytes)
    ensures ReadInt32LE(p + IntLEBytes(v, 4) + q, |p|) == Ok(v)
  {
    Pow256Values();
    ReadIntLEWritten(p, v, 4, q);
  }

  lemma ReadBigUInt64LEWritten(p: Bytes, v: uint64, q: Bytes)
    ensures ReadBigUInt64LE(p + UIntLEBytes(v, 8) + q, |p|) == Ok(v)
  {
    Pow256Values();
    var b := p + UIntLEBytes(v, 8) + q;
    assert b[|p|..|p| + 8] == UIntLEBytes(v, 8);
    UIntLERoundTrip(v, 8);
  }

  /** A buffer that starts with p and then s is p, s and whatever follows. */
  lemma PrefixSplit(b: Bytes, p: Bytes, s: Bytes)
    requires p + s <= b
    ensures b == p + s + b[|p| + |s|..]
  {
    var rest := b[|p| + |s|..];
    assert forall i :: 0 <= i < |b| ==> b[i] == (p + s + rest)[i];
  }

  /** Reads at the end of a known prefix p of b: they see what was written right after p. */
  lemma ReadInt16LEAt(b: Bytes, p: Bytes, v: int16)
    requires p + IntLEBytes(v, 2) <= b
    ensures ReadInt16LE(b, |p|) == Ok(v)
  {
    PrefixSplit(b, p, IntLEBytes(v, 2));
    ReadInt16LEWritten(p, v, b[|p| + 2..]);
  }

  lemma ReadBigUInt64LEAt(b: Bytes, p: Bytes, v: uint64)
    requires p + UIntLEBytes(v, 8) <= b
    ensures ReadBigUInt64LE(b, |p|) == Ok(v)
  {
    PrefixSplit(b, p, UIntLEBytes(v, 8));
    ReadBigUInt64LEWritten(p, v, b[|p| + 8..]);
  }

  lemma ReadCStringAt(b: Bytes, p: Bytes, s: Bytes)
    requires 0 !in s
    requires p + s + [0] <= b
    ensures ReadCString(b, |p|) == (s, |p| + |s| + 1) == (s, |p + s + [0]|)
  {
    PrefixSplit(b, p + s, [0]);
    assert b == p + s + [0] + b[|p| + |s| + 1..];
    ReadCStringWritten(p, s, b[|p| + |s| + 1..]);
  }

  /** A prefix of a prefix of b is a prefix of b. */
  lemma PrefixShrink(b: Bytes, p: Bytes, s: Bytes)
    requires p + s <= b
    ensures p <= b
  {
    assert forall i :: 0 <= i < |p| ==> p[i] == (p + s)[i];
  }

  lemma ReadInt8At(b: Bytes, p: Bytes, v: int8)
    requires p + IntLEBytes(v, 1) <= b
    ensures ReadInt8(b, |p|) == Ok(v)
  {
    PrefixSplit(b, p, IntLEBytes(v, 1));
    ReadInt8Written(p, v, b[|p| + 1..]);
  }

  lemma SliceAt(b: Bytes, p: Bytes, s: Bytes)
    requires p + s <= b
    ensures Slice(b, |p|, |p| + |s|) == s
  {
    assert b[|p|..|p| + |s|] == (p + s)[|p|..];

  }

  lemma ReadInt32LEAt(b: Bytes, p: Bytes, v: int32)
    requires p + IntLEBytes(v, 4) <= b
    ensures ReadInt32LE(b, |p|) == Ok(v)
  {
    PrefixSplit(b, p, IntLEBytes(v, 4));
    ReadInt32LEWritten(p, v, b[|p| + 4..]);
  }

  lemma ReadFloatLEAt(b: Bytes, p: Bytes, f: Bytes)
    requires |f| == 4 && p + f <= b
    ensures ReadFloatLE(b, |p|) == Ok(f)
  {
    SliceAt(b, p, f);
  }
}
