/** Archive segment files: length-prefixed frames padded to eight bytes. The
    rkyv form of a record is a parameter. */
module Segment {
  import opened Wrappers
  import opened Bytes
  import opened Errors
  import opened Kar1
  import opened Kar1Laws
  import opened Records
  import opened Seqs

  const FRAME_HEADER_LEN := 16
  const FRAME_ALIGN := 8

  datatype TypedRecord<+T> = TypedRecord(position: BPosition, value: T)

  /** The archived form of a payload. */
  datatype Rkyv<!T> = Rkyv(toBytes: T -> Bytes, fromBytes: Bytes -> Option<T>)

  ghost predicate Sound<T(!new)>(c: Rkyv<T>) {
    forall x :: c.fromBytes(c.toBytes(x)) == Some(x)
  }

  // ----- writing

  function Zeros(n: nat): (z: Bytes)
    ensures |z| == n
    ensures forall i :: 0 <= i < n ==> z[i] == 0
  {
    seq(n, _ => 0)
  }

  function PadLen(n: nat): (k: nat)
    ensures k < 8 && (n + k) % 8 == 0
  {
    if n % FRAME_ALIGN == 0 then 0 else FRAME_ALIGN - n % FRAME_ALIGN
  }

  /** The frame of a record without its padding. */
  function FrameBytes<T>(c: Rkyv<T>, rec: TypedRecord<T>): (f: Bytes)
    ensures |f| == FRAME_HEADER_LEN + |c.toBytes(rec.value)|
  {
    var payload := c.toBytes(rec.value);
    Le(4, FRAME_HEADER_LEN + |payload|)
    + (Zeros(4) + (Le(4, Unsigned(rec.position.termId)) + (Le(4, Unsigned(rec.position.termOffset)) + payload)))
  }

  predicate FrameFits<T>(c: Rkyv<T>, rec: TypedRecord<T>) {
    FRAME_HEADER_LEN + |c.toBytes(rec.value)| <= U32_MAX
  }

  predicate AllFit<T>(c: Rkyv<T>, recs: seq<TypedRecord<T>>) {
    forall i :: 0 <= i < |recs| ==> FrameFits(c, recs[i])
  }

  function Padded<T>(c: Rkyv<T>, rec: TypedRecord<T>): (p: Bytes)
    ensures FrameBytes(c, rec) <= p && |p| % FRAME_ALIGN == 0
  {
    hide FrameBytes;
    FrameBytes(c, rec) + Zeros(PadLen(|FrameBytes(c, rec)|))
  }

  /** The file that writing `recs` in order gives. */
  function SegmentBytes<T>(c: Rkyv<T>, recs: seq<TypedRecord<T>>): Bytes {
    if recs == [] then [] else Padded(c, recs[0]) + SegmentBytes(c, recs[1..])
  }

  lemma {:induction false} SegmentAppend<T>(c: Rkyv<T>, a: seq<TypedRecord<T>>, b: seq<TypedRecord<T>>)
    ensures SegmentBytes(c, a + b) == SegmentBytes(c, a) + SegmentBytes(c, b)
  {
    hide Padded;
    if a == [] {
      assert a + b == b;
    } else {
      SegmentAppend(c, a[1..], b);
      assert (a + b)[0] == a[0] && (a + b)[1..] == a[1..] + b;
      Assoc(Padded(c, a[0]), SegmentBytes(c, a[1..]), SegmentBytes(c, b));
    }
  }

  lemma AlignedSum(a: nat, b: nat)
    requires a % FRAME_ALIGN == 0 && b % FRAME_ALIGN == 0
    ensures (a + b) % FRAME_ALIGN == 0
  {
  }

  lemma {:induction false} SegmentAligned<T>(c: Rkyv<T>, recs: seq<TypedRecord<T>>)
    ensures |SegmentBytes(c, recs)| % FRAME_ALIGN == 0
  {
    hide Padded;
    if recs != [] {
      SegmentAligned(c, recs[1..]);
      AlignedSum(|Padded(c, recs[0])|, |SegmentBytes(c, recs[1..])|);
    }
  }

  /** A segment file under construction. */
  class SegmentWriter<T(!new)> {
    const rkyv: Rkyv<T>
    var out: Bytes
    ghost var written: seq<TypedRecord<T>>

    ghost predicate Valid()
      reads this
    {
      out == SegmentBytes(rkyv, written)
    }

    constructor (rkyv: Rkyv<T>)
      ensures Valid() && written == [] && this.rkyv == rkyv
    {
      this.rkyv := rkyv;
      out, written := [], [];
    }

    /** Append one frame, then zero bytes up to the next boundary. */
    method AppendFrame(rec: TypedRecord<T>)
      requires Valid() && FrameFits(rkyv, rec)
      modifies this
      ensures Valid() && written == old(written) + [rec]
    {
      var payload := rkyv.toBytes(rec.value);
      out := out + Le(4, FRAME_HEADER_LEN + |payload|);
      out := out + Zeros(4);
      out := out + Le(4, Unsigned(rec.position.termId));
      out := out + Le(4, Unsigned(rec.position.termOffset));
      out := out + payload;
      assert out == old(out) + FrameBytes(rkyv, rec);
      PadFrame(rec, old(out));
      written := written + [rec];
    }

    /** Pad the frame just appended behind `before`. */
    method PadFrame(rec: TypedRecord<T>, ghost before: Bytes)
      requires before == SegmentBytes(rkyv, written) && out == before + FrameBytes(rkyv, rec)
      modifies this
      ensures out == SegmentBytes(rkyv, written + [rec]) && written == old(written)
    {
      hide FrameBytes;
      SegmentAligned(rkyv, written);
      Pad(|FrameBytes(rkyv, rec)|);
      SegmentAppend(rkyv, written, [rec]);
      assert SegmentBytes(rkyv, [rec]) == Padded(rkyv, rec);
      assert out == before + Padded(rkyv, rec);
    }

    /** The padding loop, for a buffer that ends with a frame of `n` bytes
        that starts on a boundary. */
    method Pad(ghost n: nat)
      requires |out| >= n && (|out| - n) % FRAME_ALIGN == 0
      modifies this
      ensures out == old(out) + Zeros(PadLen(n)) && written == old(written)
    {
      ghost var k := 0;
      while |out| % FRAME_ALIGN != 0
        invariant k <= PadLen(n) && out == old(out) + Zeros(k) && written == old(written)
        decreases PadLen(n) - k
      {
        out := out + [0];
        k := k + 1;
      }
    }
  }

  // ----- reading

  /** What one call of `next` answers on the unread bytes `buf` at offset
      `at`, and how far it moves. */
  datatype Step<+T> = End | Item(item: Outcome<TypedRecord<T>>, consumed: nat)

  predicate AllZero(b: Bytes) {
    forall i :: 0 <= i < |b| ==> b[i] == 0
  }

  function Min(a: nat, b: nat): nat {
    if a <= b then a else b
  }

  function Next<T>(c: Rkyv<T>, buf: Bytes, at: nat): (s: Step<T>)
    ensures s.Item? ==> FRAME_HEADER_LEN <= s.consumed <= |buf|
  {
    if |buf| < FRAME_HEADER_LEN then End else
      var len := LeValue(buf[..4]);
      if len == 0 then
        if AllZero(buf) then End else Item(Err(Corruption(at)), |buf|)
      else if len < FRAME_HEADER_LEN then Item(Err(Corruption(at)), |buf|)
      else if len > |buf| then End
      else
        LeCanonical(buf[8..12]);
        LeCanonical(buf[12..16]);
        var position := BPosition(Signed(LeValue(buf[8..12])), Signed(LeValue(buf[12..16])));
        var rec := match c.fromBytes(buf[FRAME_HEADER_LEN..len])
                   case Some(value) => Ok(TypedRecord(position, value))
                   case None => Err(Codec);
        Item(rec, Min(len + PadLen(len), |buf|))
  }

  /** Every item the reader yields from `buf` on. */
  function Items<T>(c: Rkyv<T>, buf: Bytes, at: nat): seq<Outcome<TypedRecord<T>>>
    decreases |buf|
  {
    match Next(c, buf, at)
    case End => []
    case Item(item, n) => [item] + Items(c, buf[n..], at + n)
  }

  /** The offline reader: an iterator over a segment file's bytes. */
  class TypedSegmentReader<T(!new)> {
    const rkyv: Rkyv<T>
    const bytes: Bytes
    var pos: nat

    ghost predicate Valid()
      reads this
    {
      pos <= |bytes|
    }

    /** The items still to come. */
    ghost function Left(): seq<Outcome<TypedRecord<T>>>
      requires Valid()
      reads this
    {
      Items(rkyv, bytes[pos..], pos)
    }

    constructor (rkyv: Rkyv<T>, bytes: Bytes)
      ensures Valid() && Left() == Items(rkyv, bytes, 0)
    {
      this.rkyv, this.bytes, pos := rkyv, bytes, 0;
      new;
      assert bytes[0..] == bytes;
    }

    method NextItem() returns (r: Option<Outcome<TypedRecord<T>>>)
      requires Valid()
      modifies this
      ensures Valid()
      ensures if old(Left()) == [] then r == None && pos == old(pos)
              else r == Some(old(Left())[0]) && Left() == old(Left())[1..]
    {
      if pos + FRAME_HEADER_LEN > |bytes| {
        return None;
      }
      ghost var start := pos;
      var buf := bytes[pos..];
      var len := LeValue(buf[..4]);
      if len == 0 && AllZero(buf) {
        return None;
      }
      if len < FRAME_HEADER_LEN {
        r := Some(Err(Corruption(pos)));
        pos := |bytes|; // fuse the iterator
        assert bytes[pos..] == buf[|buf|..];
        return;
      }
      if pos + len > |bytes| {
        return None;
      }
      LeCanonical(buf[8..12]);
      LeCanonical(buf[12..16]);
      var position := BPosition(Signed(LeValue(buf[8..12])), Signed(LeValue(buf[12..16])));
      match rkyv.fromBytes(buf[FRAME_HEADER_LEN..len]) {
        case Some(value) => r := Some(Ok(TypedRecord(position, value)));
        case None => r := Some(Err(Codec));
      }
      var aligned := len + PadLen(len);
      pos := pos + Min(aligned, |bytes| - pos);
      assert bytes[pos..] == buf[pos - start..];
    }
  }

  // ----- what the reader recovers

  function AllOk<T>(recs: seq<TypedRecord<T>>): seq<Outcome<TypedRecord<T>>> {
    Map(rec => Ok(rec), recs)
  }

  /** The fields of a frame read back from any buffer it starts. */
  lemma FrameFields<T(!new)>(c: Rkyv<T>, rec: TypedRecord<T>, buf: Bytes)
    requires FrameFits(c, rec) && FrameBytes(c, rec) <= buf
    ensures LeValue(buf[..4]) == |FrameBytes(c, rec)|
    ensures LeValue(buf[8..12]) == Unsigned(rec.position.termId)
    ensures LeValue(buf[12..16]) == Unsigned(rec.position.termOffset)
    ensures buf[FRAME_HEADER_LEN..|FrameBytes(c, rec)|] == c.toBytes(rec.value)
  {
    var f := FrameBytes(c, rec);
    var n := |f|;
    assert buf[..4] == f[..4] == Le(4, n);
    assert buf[8..12] == f[8..12] == Le(4, Unsigned(rec.position.termId));
    assert buf[12..16] == f[12..16] == Le(4, Unsigned(rec.position.termOffset));
    assert buf[16..n] == f[16..n] == c.toBytes(rec.value);
    LeRoundTrip(4, n);
    LeRoundTrip(4, Unsigned(rec.position.termId));
    LeRoundTrip(4, Unsigned(rec.position.termOffset));
  }

  lemma SignedUnsigned(n: i32)
    ensures Signed(Unsigned(n)) == n
  {
  }

  /** A frame without its padding, by the documented offsets. */
  predicate FrameTable<T>(c: Rkyv<T>, rec: TypedRecord<T>, b: Bytes) {
    && |b| >= 16 && LeValue(b[..4]) == |b| && b[4..8] == [0, 0, 0, 0]
    && LeValue(b[8..12]) == Unsigned(rec.position.termId) && LeValue(b[12..16]) == Unsigned(rec.position.termOffset)
    && b[16..] == c.toBytes(rec.value)
  }

  /** What is written is a frame of that table, and nothing else fits it. */
  lemma FrameTableIff<T(!new)>(c: Rkyv<T>, rec: TypedRecord<T>, b: Bytes)
    requires FrameFits(c, rec)
    ensures FrameBytes(c, rec) == b <==> FrameTable(c, rec, b)
  {
    hide Le;
    hide LeValue;
    if FrameBytes(c, rec) == b {
      FrameFields(c, rec, b);
      assert b[4..8] == Zeros(4) == [0, 0, 0, 0];
    }
    if FrameTable(c, rec, b) {
      assert Pow256(4) == 0x1_0000_0000;
      WordIff(b[..4], |b|);
      WordIff(b[8..12], Unsigned(rec.position.termId));
      WordIff(b[12..16], Unsigned(rec.position.termOffset));
      assert b == b[..4] + (b[4..8] + (b[8..12] + (b[12..16] + b[16..])));
      assert b[4..8] == Zeros(4);
    }
  }

  /** The item of a whole frame: its record, or the codec error when rkyv
      refuses the payload. */
  ghost predicate ReadsAs<T>(c: Rkyv<T>, rec: TypedRecord<T>, item: Outcome<TypedRecord<T>>) {
    match c.fromBytes(c.toBytes(rec.value))
    case Some(value) => item == Ok(TypedRecord(rec.position, value))
    case None => item == Err(Codec)
  }

  lemma NextReadsFrame<T(!new)>(c: Rkyv<T>, rec: TypedRecord<T>, buf: Bytes, at: nat)
    requires FrameFits(c, rec) && FrameBytes(c, rec) <= buf
    ensures Next(c, buf, at).Item? && ReadsAs(c, rec, Next(c, buf, at).item)
    ensures Next(c, buf, at).consumed == Min(|Padded(c, rec)|, |buf|)
  {
    FrameFields(c, rec, buf);
    SignedUnsigned(rec.position.termId);
    SignedUnsigned(rec.position.termOffset);
  }

  lemma FrameThenItems<T(!new)>(c: Rkyv<T>, rec: TypedRecord<T>, tail: Bytes, at: nat)
    requires FrameFits(c, rec)
    ensures
      var items := Items(c, Padded(c, rec) + tail, at);
      items != [] && ReadsAs(c, rec, items[0]) && items[1..] == Items(c, tail, at + |Padded(c, rec)|)
  {
    hide Next;
    hide FrameBytes;
    hide ReadsAs;
    var buf := Padded(c, rec) + tail;
    assert FrameBytes(c, rec) <= buf;
    NextReadsFrame(c, rec, buf, at);
    assert buf[|Padded(c, rec)|..] == tail;
  }

  /** For any codec: every frame gives its own item, a refused payload costs
      only its own record, and what follows is read all the same. */
  lemma {:induction false} EveryFrameIsRead<T(!new)>(c: Rkyv<T>, recs: seq<TypedRecord<T>>, tail: Bytes, at: nat)
    requires AllFit(c, recs)
    ensures
      var items := Items(c, SegmentBytes(c, recs) + tail, at);
      && |items| >= |recs|
      && (forall k :: 0 <= k < |recs| ==> ReadsAs(c, recs[k], items[k]))
      && items[|recs|..] == Items(c, tail, at + |SegmentBytes(c, recs)|)
    decreases |recs|
  {
    hide Next;
    hide FrameBytes;
    hide Padded;
    hide Items;
    hide ReadsAs;
    var items := Items(c, SegmentBytes(c, recs) + tail, at);
    if recs == [] {
      assert SegmentBytes(c, recs) + tail == tail;
    } else {
      var head, rest := Padded(c, recs[0]), SegmentBytes(c, recs[1..]);
      Assoc(head, rest, tail);
      FrameThenItems(c, recs[0], rest + tail, at);
      EveryFrameIsRead(c, recs[1..], tail, at + |head|);
      assert items[1..][|recs| - 1..] == items[|recs|..];
      forall k | 0 <= k < |recs| ensures ReadsAs(c, recs[k], items[k]) {
        assert k > 0 ==> items[k] == items[1..][k - 1];
      }
    }
  }

  /** Records written whole are read whole, whatever follows them. */
  lemma ReadsWrittenPrefix<T(!new)>(c: Rkyv<T>, recs: seq<TypedRecord<T>>, tail: Bytes, at: nat)
    requires Sound(c) && AllFit(c, recs)
    ensures Items(c, SegmentBytes(c, recs) + tail, at)
            == AllOk(recs) + Items(c, tail, at + |SegmentBytes(c, recs)|)
  {
    hide Items;
    hide SegmentBytes;
    EveryFrameIsRead(c, recs, tail, at);
    var items := Items(c, SegmentBytes(c, recs) + tail, at);
    forall k | 0 <= k < |recs| ensures items[k] == AllOk(recs)[k] {
      assert ReadsAs(c, recs[k], items[k]);
    }
    assert items == items[..|recs|] + items[|recs|..];
    assert items[..|recs|] == AllOk(recs);
  }

  /** A pre-allocated zero tail ends the stream without an error. */
  lemma ZeroTailEndsCleanly<T(!new)>(c: Rkyv<T>, recs: seq<TypedRecord<T>>, z: nat)
    requires Sound(c) && AllFit(c, recs)
    ensures Items(c, SegmentBytes(c, recs) + Zeros(z), 0) == AllOk(recs)
  {
    hide Items;
    hide SegmentBytes;
    ReadsWrittenPrefix(c, recs, Zeros(z), 0);
    ZerosYieldNothing(c, z, |SegmentBytes(c, recs)|);
    assert AllOk(recs) + [] == AllOk(recs);
  }

  lemma ZerosYieldNothing<T(!new)>(c: Rkyv<T>, z: nat, at: nat)
    ensures Items(c, Zeros(z), at) == []
  {
    if z >= FRAME_HEADER_LEN {
      ZeroWord(Zeros(z)[..4]);
    }
  }

  /** A frame torn before its last byte yields nothing. */
  lemma TornFrameEnds<T(!new)>(c: Rkyv<T>, rec: TypedRecord<T>, torn: Bytes, at: nat)
    requires FrameFits(c, rec) && torn < FrameBytes(c, rec)
    ensures Items(c, torn, at) == []
  {
    if |torn| >= FRAME_HEADER_LEN {
      FrameFields(c, rec, FrameBytes(c, rec));
      assert torn[..4] == FrameBytes(c, rec)[..4];
    }
  }

  /** Where the frame of record `k` ends in the file, padding excluded. */
  function FrameEnd<T>(c: Rkyv<T>, recs: seq<TypedRecord<T>>, k: nat): nat
    requires k < |recs|
  {
    |SegmentBytes(c, recs[..k])| + |FrameBytes(c, recs[k])|
  }

  lemma NoBytesNoItems<T(!new)>(c: Rkyv<T>, at: nat)
    ensures Items(c, [], at) == []
  {
  }

  lemma CutAfter(a: Bytes, b: Bytes, cut: nat)
    requires |a| <= cut <= |a| + |b|
    ensures (a + b)[..cut] == a + b[..cut - |a|]
  {
  }

  /** A cut that ends inside the next frame yields nothing of it. */
  lemma CutBeforeFrameEnd<T(!new)>(c: Rkyv<T>, rest: seq<TypedRecord<T>>, n: nat, at: nat)
    requires AllFit(c, rest) && n <= |SegmentBytes(c, rest)|
    requires rest != [] ==> n < |FrameBytes(c, rest[0])|
    ensures Items(c, SegmentBytes(c, rest)[..n], at) == []
  {
    hide Next;
    hide FrameBytes;
    hide Items;
    if rest == [] {
      NoBytesNoItems(c, at);
      assert SegmentBytes(c, rest)[..n] == [];
    } else {
      var frame := FrameBytes(c, rest[0]);
      assert SegmentBytes(c, rest)[..n] == frame[..n];
      TornFrameEnds(c, rest[0], frame[..n], at);
    }
  }

  lemma CutBetween<T(!new)>(c: Rkyv<T>, kept: seq<TypedRecord<T>>, rest: seq<TypedRecord<T>>, cut: nat)
    requires Sound(c) && AllFit(c, kept) && AllFit(c, rest)
    requires |SegmentBytes(c, kept)| <= cut <= |SegmentBytes(c, kept)| + |SegmentBytes(c, rest)|
    requires rest != [] ==> cut < |SegmentBytes(c, kept)| + |FrameBytes(c, rest[0])|
    ensures Items(c, (SegmentBytes(c, kept) + SegmentBytes(c, rest))[..cut], 0) == AllOk(kept)
  {
    hide SegmentBytes;
    hide FrameBytes;
    hide Items;
    hide Next;
    var start := |SegmentBytes(c, kept)|;
    var torn := SegmentBytes(c, rest)[..cut - start];
    CutAfter(SegmentBytes(c, kept), SegmentBytes(c, rest), cut);
    ReadsWrittenPrefix(c, kept, torn, 0);
    CutBeforeFrameEnd(c, rest, cut - start, start);
    assert AllOk(kept) + [] == AllOk(kept);
  }

  lemma LastFrameReads<T(!new)>(c: Rkyv<T>, last: TypedRecord<T>, torn: Bytes, at: nat)
    requires Sound(c) && FrameFits(c, last) && FrameBytes(c, last) <= torn <= Padded(c, last)
    ensures Items(c, torn, at) == [Ok(last)]
  {
    hide Next;
    hide FrameBytes;
    NextReadsFrame(c, last, torn, at);
    NoBytesNoItems(c, at + |torn|);
    assert torn[|torn|..] == [];
  }

  lemma CutInPadding<T(!new)>(c: Rkyv<T>, kept: seq<TypedRecord<T>>, last: TypedRecord<T>, cut: nat)
    requires Sound(c) && AllFit(c, kept) && FrameFits(c, last)
    requires |SegmentBytes(c, kept)| + |FrameBytes(c, last)| <= cut <= |SegmentBytes(c, kept)| + |Padded(c, last)|
    ensures Items(c, (SegmentBytes(c, kept) + Padded(c, last))[..cut], 0) == AllOk(kept) + [Ok(last)]
  {
    hide SegmentBytes;
    hide FrameBytes;
    hide Padded;
    hide Items;
    hide Next;
    var start := |SegmentBytes(c, kept)|;
    var torn := Padded(c, last)[..cut - start];
    CutAfter(SegmentBytes(c, kept), Padded(c, last), cut);
    ReadsWrittenPrefix(c, kept, torn, 0);
    LastFrameReads(c, last, torn, start);
  }

  lemma SegmentSplit<T>(c: Rkyv<T>, recs: seq<TypedRecord<T>>, n: nat)
    requires n <= |recs|
    ensures SegmentBytes(c, recs) == SegmentBytes(c, recs[..n]) + SegmentBytes(c, recs[n..])
    ensures n > 0 ==> SegmentBytes(c, recs[..n]) == SegmentBytes(c, recs[..n - 1]) + Padded(c, recs[n - 1])
  {
    hide Padded;
    SegmentAppend(c, recs[..n], recs[n..]);
    assert recs == recs[..n] + recs[n..];
    if n > 0 {
      SegmentAppend(c, recs[..n - 1], [recs[n - 1]]);
      assert recs[..n] == recs[..n - 1] + [recs[n - 1]];
      assert SegmentBytes(c, [recs[n - 1]]) == Padded(c, recs[n - 1]);
    }
  }

  /** Cutting the file anywhere keeps exactly the records whose frames end at
      or before the cut, and never an error. */
  lemma CutKeepsWholeFrames<T(!new)>(c: Rkyv<T>, recs: seq<TypedRecord<T>>, cut: nat, n: nat)
    requires Sound(c) && AllFit(c, recs)
    requires cut <= |SegmentBytes(c, recs)| && n <= |recs|
    requires forall k :: 0 <= k < n ==> FrameEnd(c, recs, k) <= cut
    requires n < |recs| ==> cut < FrameEnd(c, recs, n)
    ensures Items(c, SegmentBytes(c, recs)[..cut], 0) == AllOk(recs[..n])
  {
    hide SegmentBytes;
    hide FrameBytes;
    hide Padded;
    hide Items;
    hide Next;
    SegmentSplit(c, recs, n);
    var start := |SegmentBytes(c, recs[..n])|;
    if start <= cut {
      CutBetween(c, recs[..n], recs[n..], cut);
    } else {
      NoRecordsNoBytes(c, recs[..n]);
      assert FrameEnd(c, recs, n - 1) <= cut;
      CutInPadding(c, recs[..n - 1], recs[n - 1], cut);
      assert SegmentBytes(c, recs)[..cut] == SegmentBytes(c, recs[..n])[..cut];
      assert AllOk(recs[..n]) == AllOk(recs[..n - 1]) + [Ok(recs[n - 1])];
    }
  }

  lemma NoRecordsNoBytes<T>(c: Rkyv<T>, recs: seq<TypedRecord<T>>)
    ensures recs == [] ==> SegmentBytes(c, recs) == []
  {
  }

  /** Where a frame should start, a length below the header's is corruption,
      reported after every earlier record and ending the stream, unless the
      rest of the file is all zero: then the stream just ends. */
  lemma ShortLengthDecides<T(!new)>(c: Rkyv<T>, before: seq<TypedRecord<T>>, tail: Bytes)
    requires Sound(c) && AllFit(c, before)
    requires |tail| >= FRAME_HEADER_LEN && LeValue(tail[..4]) < FRAME_HEADER_LEN
    ensures Items(c, SegmentBytes(c, before) + tail, 0)
            == AllOk(before) + if AllZero(tail) then [] else [Err(Corruption(|SegmentBytes(c, before)|))]
  {
    hide SegmentBytes;
    hide Next;
    hide Items;
    ReadsWrittenPrefix(c, before, tail, 0);
    BadStart(c, tail, |SegmentBytes(c, before)|);
  }

  lemma BadStart<T(!new)>(c: Rkyv<T>, tail: Bytes, at: nat)
    requires |tail| >= FRAME_HEADER_LEN && LeValue(tail[..4]) < FRAME_HEADER_LEN
    ensures Items(c, tail, at) == if AllZero(tail) then [] else [Err(Corruption(at))]
  {
    hide Next;
    BadLength(c, tail, at);
    NoBytesNoItems(c, at + |tail|);
    assert tail[|tail|..] == [];
  }

  lemma BadLength<T>(c: Rkyv<T>, tail: Bytes, at: nat)
    requires |tail| >= FRAME_HEADER_LEN && LeValue(tail[..4]) < FRAME_HEADER_LEN
    ensures Next(c, tail, at) == if AllZero(tail) then End else Item(Err(Corruption(at)), |tail|)
  {
    ZeroPart(tail, 0, 4);
    ZeroWord(tail[..4]);
  }

  /** So wiping the length word of a frame with a frame behind it is reported. */
  lemma WipedLengthIsCorruption<T(!new)>(c: Rkyv<T>, before: seq<TypedRecord<T>>, wiped: TypedRecord<T>,
                                         after: seq<TypedRecord<T>>)
    requires Sound(c) && AllFit(c, before) && FrameFits(c, wiped) && AllFit(c, after) && after != []
    ensures
      var at := |SegmentBytes(c, before)|;
      Items(c, SegmentBytes(c, before) + (Zeros(4) + Padded(c, wiped)[4..] + SegmentBytes(c, after)), 0)
      == AllOk(before) + [Err(Corruption(at))]
  {
    hide Items;
    hide FrameBytes;
    var buf := Zeros(4) + Padded(c, wiped)[4..] + SegmentBytes(c, after);
    var m := |Padded(c, wiped)|;
    assert buf[m..] == SegmentBytes(c, after);
    assert FrameBytes(c, after[0]) <= buf[m..];
    FrameFields(c, after[0], buf[m..]);
    assert buf[m..m + 4] == buf[m..][..4];
    ZeroWord(buf[m..m + 4]);
    ZeroPart(buf, m, m + 4);
    assert buf[..4] == Zeros(4);
    ZeroWord(buf[..4]);
    ShortLengthDecides(c, before, buf);
  }

  lemma {:induction false} ZeroWord(b: Bytes)
    ensures AllZero(b) ==> LeValue(b) == 0
  {
    if b != [] {
      ZeroWord(b[1..]);
    }
  }

  lemma ZeroPart(b: Bytes, i: nat, j: nat)
    requires i <= j <= |b|
    ensures AllZero(b) ==> AllZero(b[i..j])
  {
  }

  /** No bytes at all make the reader yield more than one item in sixteen. */
  lemma {:induction false} ItemsAreBounded<T(!new)>(c: Rkyv<T>, buf: Bytes, at: nat)
    ensures FRAME_HEADER_LEN * |Items(c, buf, at)| <= |buf|
    decreases |buf|
  {
    if Next(c, buf, at).Item? {
      var n := Next(c, buf, at).consumed;
      ItemsAreBounded(c, buf[n..], at + n);
    }
  }
}
