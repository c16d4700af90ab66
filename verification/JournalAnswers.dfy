/** What reconciling, applying and committing come to, byte for byte and answer for answer, said of the
    files and the images alone. */
module JournalAnswers {
  import opened Wrappers
  import opened Journal
  import opened JournalRuns
  import opened Commits

  // ---- Pieces written over an image

  predicate Over(r: Record, p: nat) {
    r.offset <= p < r.offset + |r.bytes|
  }

  /** `b` is what the last of the pieces over `p` puts there, or what was there if none is. */
  ghost predicate LastSays(was: u8, pieces: seq<Record>, p: nat, b: u8) {
    || (b == was && forall i | 0 <= i < |pieces| :: !Over(pieces[i], p))
    || exists i :: 0 <= i < |pieces| && Over(pieces[i], p) && b == pieces[i].bytes[p - pieces[i].offset]
                   && forall j | i < j < |pieces| :: !Over(pieces[j], p)
  }

  /** There is a byte at `p` once the pieces are written. */
  ghost predicate Reached(image: seq<u8>, pieces: seq<Record>, p: nat) {
    p < |image| || exists i :: 0 <= i < |pieces| && pieces[i].bytes != [] && p < pieces[i].offset + |pieces[i].bytes|
  }

  /** Every byte is what the last piece over it says; a piece past the end lengthens the image to its own
      end, with zeros before it. */
  ghost predicate IsWritten(image: seq<u8>, pieces: seq<Record>, after: seq<u8>) {
    && (forall p: nat :: Reached(image, pieces, p) <==> p < |after|)
    && (forall p | 0 <= p < |after| :: LastSays(if p < |image| then image[p] else 0, pieces, p, after[p]))
  }

  lemma LastSaysMore(was: u8, pieces: seq<Record>, last: Record, p: nat, b: u8)
    requires LastSays(was, pieces, p, b) && !Over(last, p)
    ensures LastSays(was, pieces + [last], p, b)
  {
    var more := pieces + [last];
    assert forall i | 0 <= i < |pieces| :: more[i] == pieces[i];
    if exists i :: 0 <= i < |pieces| && Over(pieces[i], p) && b == pieces[i].bytes[p - pieces[i].offset]
                   && forall j | i < j < |pieces| :: !Over(pieces[j], p) {
      var i :| 0 <= i < |pieces| && Over(pieces[i], p) && b == pieces[i].bytes[p - pieces[i].offset]
               && forall j | i < j < |pieces| :: !Over(pieces[j], p);
      assert Over(more[i], p);
    }
  }

  lemma LastSaysIt(was: u8, pieces: seq<Record>, last: Record, p: nat)
    requires Over(last, p)
    ensures LastSays(was, pieces + [last], p, last.bytes[p - last.offset])
  {
    assert (pieces + [last])[|pieces|] == last;
  }

  lemma LongerBy(image: seq<u8>, pieces: seq<Record>, last: Record, between: seq<u8>, p: nat)
    requires IsWritten(image, pieces, between)
    ensures Reached(image, pieces + [last], p) <==> p < |WriteAt(between, last.offset, last.bytes)|
  {
    var more := pieces + [last];
    assert more[|pieces|] == last && forall i | 0 <= i < |pieces| :: more[i] == pieces[i];
    assert Reached(image, pieces, p) <==> p < |between|;
    if p < |between| && p >= |image| {
      var i :| 0 <= i < |pieces| && pieces[i].bytes != [] && p < pieces[i].offset + |pieces[i].bytes|;
      assert more[i].bytes != [];
    }
  }

  lemma WrittenOnce(image: seq<u8>, pieces: seq<Record>, last: Record, between: seq<u8>)
    requires IsWritten(image, pieces, between)
    ensures IsWritten(image, pieces + [last], WriteAt(between, last.offset, last.bytes))
  {
    var after := WriteAt(between, last.offset, last.bytes);
    forall p: nat
      ensures Reached(image, pieces + [last], p) <==> p < |after|
    {
      LongerBy(image, pieces, last, between, p);
    }
    forall p | 0 <= p < |after|
      ensures LastSays(if p < |image| then image[p] else 0, pieces + [last], p, after[p])
    {
      ByteWritten(image, pieces, last, between, p);
    }
  }

  lemma ByteWritten(image: seq<u8>, pieces: seq<Record>, last: Record, between: seq<u8>, p: nat)
    requires IsWritten(image, pieces, between) && p < |WriteAt(between, last.offset, last.bytes)|
    ensures LastSays(if p < |image| then image[p] else 0, pieces + [last], p,
                     WriteAt(between, last.offset, last.bytes)[p])
  {
    var was := if p < |image| then image[p] else 0;
    if Over(last, p) {
      LastSaysIt(was, pieces, last, p);
    } else if p < |between| {
      LastSaysMore(was, pieces, last, p, between[p]);
    } else {
      NothingOver(image, pieces, between, p);
      LastSaysMore(was, pieces, last, p, 0);
    }
  }

  lemma NothingOver(image: seq<u8>, pieces: seq<Record>, between: seq<u8>, p: nat)
    requires IsWritten(image, pieces, between) && p >= |between|
    ensures p >= |image| && forall i | 0 <= i < |pieces| :: !Over(pieces[i], p)
  {
    assert !Reached(image, pieces, p);
  }

  /** **Putting pieces back in turn leaves what the last of them over each byte says.** */
  lemma {:induction false} RestoredIs(image: seq<u8>, pieces: seq<Record>)
    ensures IsWritten(image, pieces, Restored(image, pieces))
    decreases |pieces|
  {
    if pieces != [] {
      var t := |pieces| - 1;
      RestoredIs(image, pieces[..t]);
      WrittenOnce(image, pieces[..t], pieces[t], Restored(image, pieces[..t]));
      assert pieces[..t] + [pieces[t]] == pieces;
    }
  }

  /** What of each extent lies below the staged length. */
  function Clamped(extents: seq<Extent>, len: nat): (pieces: seq<Record>)
    ensures |pieces| == |extents|
    ensures forall i | 0 <= i < |extents| :: pieces[i].offset == extents[i].offset
  {
    seq(|extents|, i requires 0 <= i < |extents| =>
      Record(extents[i].offset, extents[i].data[..Take(extents[i].offset, extents[i].data, len)]))
  }

  /** A byte is an extent's exactly where it is beneath it and below the staged length. */
  lemma ClampedOver(extents: seq<Extent>, len: nat, i: nat, p: nat)
    requires i < |extents|
    ensures var e := extents[i];
      && (Over(Clamped(extents, len)[i], p) <==> e.offset <= p < e.offset + |e.data| && p < len)
      && (Over(Clamped(extents, len)[i], p) ==> Clamped(extents, len)[i].bytes[p - e.offset] == e.data[p - e.offset])
  {
  }

  lemma {:induction false} AppliedAsPieces(image: seq<u8>, extents: seq<Extent>, len: nat)
    ensures Applied(image, extents, len) == Restored(image, Clamped(extents, len))
    decreases |extents|
  {
    if extents != [] {
      var t := |extents| - 1;
      AppliedAsPieces(image, extents[..t], len);
      assert Clamped(extents, len)[..t] == Clamped(extents[..t], len);
    }
  }

  /** **The new image, byte for byte**: the staged extents in order, each as far as the staged length, over
      the old image. */
  lemma AfterIs(before: seq<u8>, capture: Capture)
    ensures IsWritten(before, Clamped(capture.extents, capture.len), After(before, capture))
  {
    AppliedAsPieces(before, capture.extents, capture.len);
    RestoredIs(before, Clamped(capture.extents, capture.len));
  }

  /** As many whole pieces as `k`, and `upto` bytes of the next. */
  function Begun(pieces: seq<Record>, k: nat, upto: nat): seq<Record> {
    if k >= |pieces| then pieces
    else pieces[..k] + [Record(pieces[k].offset, First(pieces[k].bytes, upto))]
  }

  /** Interrupted partway, either way: the pieces begun and no others are written. */
  lemma PartlyRestoredIs(image: seq<u8>, pieces: seq<Record>, k: nat, upto: nat)
    ensures IsWritten(image, Begun(pieces, k, upto), PartlyRestored(image, pieces, k, upto))
  {
    RestoredIs(image, Begun(pieces, k, upto));
    if k < |pieces| {
      assert Begun(pieces, k, upto)[..k] == pieces[..k];
    }
  }

  lemma PartlyAppliedIs(image: seq<u8>, capture: Capture, k: nat, upto: nat)
    ensures IsWritten(image, Begun(Clamped(capture.extents, capture.len), k, upto),
                      PartlyApplied(image, capture, k, upto))
  {
    var pieces := Clamped(capture.extents, capture.len);
    PartlyRestoredIs(image, pieces, k, upto);
    if k < |capture.extents| {
      AppliedAsPieces(image, capture.extents[..k], capture.len);
      assert pieces[..k] == Clamped(capture.extents[..k], capture.len);
    } else {
      AppliedAsPieces(image, capture.extents, capture.len);
    }
  }

  // ---- What is recorded

  lemma {:induction false} BeneathIsCovered(before: seq<u8>, extents: seq<Extent>, p: nat)
    requires |before| < U64_LIMIT && Beneath(Originals(before, extents), p)
    ensures p < |before| && Covered(extents, p)
  {
    var records := Originals(before, extents);
    var i :| 0 <= i < |records| && records[i].offset <= p < records[i].offset + |records[i].bytes|;
    var rest := Originals(before, extents[1..]);
    if extents[0].offset < |before| && i == 0 {
      assert extents[0].offset <= p < extents[0].offset + |extents[0].data|;
    } else {
      var j := if extents[0].offset < |before| then i - 1 else i;
      assert records[i] == rest[j];
      BeneathIsCovered(before, extents[1..], p);
      var x :| 0 <= x < |extents[1..]| && extents[1..][x].offset <= p < extents[1..][x].offset + |extents[1..][x].data|;
      assert extents[x + 1] == extents[1..][x];
    }
  }

  /** **The journal holds the image's own bytes, those a commit will overwrite and no others.** */
  lemma RecordedIff(before: seq<u8>, extents: seq<Extent>, p: nat)
    requires |before| < U64_LIMIT
    ensures Original(before, Originals(before, extents))
    ensures Beneath(Originals(before, extents), p) <==> p < |before| && Covered(extents, p)
  {
    OriginalsAre(before, extents);
    if Beneath(Originals(before, extents), p) {
      BeneathIsCovered(before, extents, p);
    }
    if p < |before| && Covered(extents, p) {
      OriginalsCover(before, extents, p);
    }
  }

  function OneRecord(before: seq<u8>, e: Extent): seq<Record> {
    if e.offset >= |before| then []
    else [Record(e.offset, before[e.offset..e.offset + Take(e.offset, e.data, |before|)])]
  }

  lemma RecordedFrom(before: seq<u8>, extents: seq<Extent>)
    requires |before| < U64_LIMIT && extents != []
    ensures Originals(before, extents) == OneRecord(before, extents[0]) + Originals(before, extents[1..])
  {
  }

  lemma OneAlone(before: seq<u8>, e: Extent)
    requires |before| < U64_LIMIT
    ensures Originals(before, [e]) == OneRecord(before, e)
  {
    RecordedFrom(before, [e]);
    assert [e][1..] == [] && Originals(before, []) == [];
    assert OneRecord(before, e) + [] == OneRecord(before, e);
  }

  /** One record an extent, where the image reaches it, and as far as it does; none where it does not. */
  lemma OneRecorded(before: seq<u8>, e: Extent, end: nat)
    requires |before| < U64_LIMIT
    requires end == if e.offset + |e.data| < |before| then e.offset + |e.data| else |before|
    ensures Originals(before, [e]) == if e.offset < |before| then [Record(e.offset, before[e.offset..end])] else []
  {
    OneAlone(before, e);
    assert e.offset < |before| ==> e.offset + Take(e.offset, e.data, |before|) == end;
  }

  /** Those of several come in the extents' order. */
  lemma {:induction false} RecordedInOrder(before: seq<u8>, extents: seq<Extent>, e: Extent)
    requires |before| < U64_LIMIT
    ensures Originals(before, extents + [e]) == Originals(before, extents) + Originals(before, [e])
  {
    if extents == [] {
      assert [] + [e] == [e];
    } else {
      assert (extents + [e])[1..] == extents[1..] + [e];
      RecordedInOrder(before, extents[1..], e);
    }
  }

  // ---- What reconciling answers

  /** The sidecar says how an image was before, and this image is between the lengths it says. */
  ghost predicate Fits(image: seq<u8>, file: seq<u8>, original: u64, len: u64, records: seq<Record>) {
    Says(file, original, len, records) && original <= |image| <= len
  }

  /** **Reconciling stands exactly where** there is no sidecar, or it was torn, or what it says fits the
      image. */
  lemma ReconciledIff(d: Disk, retiring: Retiring)
    ensures Reconcile(d, retiring).1 == Reconciled <==>
      || d.sidecar.None? || !SealsItself(d.sidecar.value)
      || exists original: u64, len: u64, records: seq<Record> :: Fits(d.image, d.sidecar.value, original, len, records)
  {
    if d.sidecar.Some? {
      var file := d.sidecar.value;
      UnarmedIff(file);
      if Reconcile(d, retiring).1 == Reconciled && Verify(file).Armed? {
        var h := Verify(file).value;
        HeaderInRange(file);
        assert Fits(d.image, file, h.original, h.len, Walk(file, h, HEADER_LEN, h.count).value);
      }
    }
  }

  lemma HeaderInRange(file: seq<u8>)
    requires Verify(file).Armed?
    ensures Verify(file).value.original < U64_LIMIT && Verify(file).value.len < U64_LIMIT
  {
  }

  /** Where it says what fits, the image comes back as it says: so long, and every byte what the last record
      over it holds, or as it was. */
  lemma FittingRollsBack(d: Disk, retiring: Retiring, original: u64, len: u64, records: seq<Record>)
    requires d.sidecar.Some? && Fits(d.image, d.sidecar.value, original, len, records)
    ensures var (after, verdict) := Reconcile(d, retiring);
      && verdict == Reconciled && after == Retired(d.(image := after.image), retiring)
      && |after.image| == original
      && forall p | 0 <= p < original :: LastSays(d.image[p], records, p, after.image[p])
  {
    SaysIff(d.sidecar.value, original, len, records);
    RestoredIs(d.image, records);
    RestoredLength(d.image, original, records);
  }

  /** Stopped on the way, it has written what it had begun of the records, and the sidecar is there still. */
  lemma FittingInterrupted(d: Disk, restoring: Restoring, retiring: Retiring,
                           original: u64, len: u64, records: seq<Record>)
    requires d.sidecar.Some? && Fits(d.image, d.sidecar.value, original, len, records) && !restoring.Whole?
    ensures var (after, verdict) := Reconciling(d, restoring, retiring);
      && verdict == Interrupted && after.sidecar == d.sidecar
      && match restoring
         case Stopped(k, upto) => IsWritten(d.image, Begun(records, k, upto), after.image)
         case Unflushed => after.image == Reconcile(d, retiring).0.image
         case _ => after.image == d.image
  {
    if restoring.Stopped? {
      PartlyRestoredIs(d.image, records, restoring.k, restoring.upto);
    }
  }

  lemma RestoredLength(image: seq<u8>, original: u64, records: seq<Record>)
    requires original <= |image|
    requires forall i | 0 <= i < |records| :: records[i].offset + |records[i].bytes| <= original
    ensures |Restored(image, records)| == |image|
  {
    RestoredIs(image, records);
    assert !Reached(image, records, |image|);
    assert |image| > 0 ==> Reached(image, records, |image| - 1);
  }

  /** **And nowhere else is a byte of the image touched**; where it is refused, nothing is. */
  lemma OtherwiseUntouched(d: Disk, restoring: Restoring, retiring: Retiring)
    requires d.sidecar.None? ||
      forall original: u64, len: u64, records: seq<Record> :: !Fits(d.image, d.sidecar.value, original, len, records)
    ensures var (after, verdict) := Reconciling(d, restoring, retiring);
      && after.image == d.image && (verdict != Reconciled ==> after == d)
  {
    if d.sidecar.Some? && Verify(d.sidecar.value).Armed? {
      var file, h := d.sidecar.value, Verify(d.sidecar.value).value;
      HeaderInRange(file);
      if Walk(file, h, HEADER_LEN, h.count).Some? {
        assert !Fits(d.image, file, h.original, h.len, Walk(file, h, HEADER_LEN, h.count).value);
      }
    }
  }

  /** A sealed sidecar is refused for another image exactly where its two lengths are in order and the image
      is not between them; anything else it is refused for is its own contradiction. */
  lemma MismatchIff(d: Disk, retiring: Retiring, original: u64, len: u64)
    requires d.sidecar.Some? && SealsItself(d.sidecar.value)
    requires d.sidecar.value[8..16] == Le64(original) && d.sidecar.value[16..24] == Le64(len)
    ensures Reconcile(d, retiring).1 == RefusedMismatch <==>
      original <= len && (|d.image| < original || len < |d.image|)
    ensures Reconcile(d, retiring).1 in {Reconciled, RefusedMismatch, RefusedContradiction}
  {
    ReadBack(d.sidecar.value, 8, original);
    ReadBack(d.sidecar.value, 16, len);
    UnarmedIff(d.sidecar.value);
  }

  /** An image longer than its journal covers, as a stale sidecar may find it: refused, and left alone. */
  lemma LongerImageRefused(retiring: Retiring)
    ensures var d := Disk(seq(30, _ => 7), Some(Written(10, 20, [])));
      Reconcile(d, retiring) == (d, RefusedMismatch)
  {
    WrittenSays(Written(10, 20, []), 10, 20, []);
  }

  // ---- The bytes of a journal

  /** The seal is FNV-1a of sixty-four bits: two of its published values. */
  lemma SealCheckValues()
    ensures Fnv(FNV_SEED, []) == 0xcbf29ce484222325 && Fnv(FNV_SEED, [0x61]) == 0xaf63dc4c8601ec8c
  {
    FnvOfOne(FNV_SEED, 0x61);
    MixedA(FNV_SEED, 0x61);
  }

  lemma FnvOfOne(hash: u64, b: u8)
    ensures Fnv(hash, [b]) == Mix(hash, b)
  {
    assert [b][..0] == [];
  }

  lemma MixedA(hash: u64, b: u8)
    requires hash == FNV_SEED && b == 0x61
    ensures Mix(hash, b) == 0xaf63dc4c8601ec8c
  {
    LowXored(0x25, b);
    MixIs(hash, b, 0xcbf29ce4842223, 0x25, 0x44, 0xcbf29ce5de, 0xaf63dc4c8601ec8c);
  }

  lemma LowXored(a: nat, b: nat)
    requires a == 0x25 && b == 0x61
    ensures Xor(a, b, 8) == 0x44
  {
    HighXored(4, 12);
    XorFrom(9, 24, 6, 8);
    XorFrom(18, 48, 7, 17);
    XorFrom(a, b, 8, 34);
  }

  lemma HighXored(a: nat, b: nat)
    requires a == 4 && b == 12
    ensures Xor(a, b, 5) == 8
  {
    XorFrom(0, 0, 1, 0);
    XorFrom(0, 1, 2, 0);
    XorFrom(1, 3, 3, 1);
    XorFrom(2, 6, 4, 2);
    XorFrom(a, b, 5, 4);
  }

  lemma XorFrom(a: nat, b: nat, k: nat, rest: nat)
    requires k > 0 && Xor(a / 2, b / 2, k - 1) == rest
    ensures Xor(a, b, k) == (a + b) % 2 + 2 * rest
  {
  }

  lemma MixIs(hash: u64, b: u8, high: nat, low: u8, mixed: nat, over: nat, after: u64)
    requires hash == high * 256 + low && Xor(low, b, 8) == mixed
    requires (high * 256 + mixed) * FNV_PRIME == over * U64_LIMIT + after
    ensures Mix(hash, b) == after
  {
    assert hash / 256 == high && hash % 256 == low;
    RemainderIs((high * 256 + mixed) * FNV_PRIME, over, after);
  }

  lemma RemainderIs(n: nat, over: nat, rest: u64)
    requires n == over * U64_LIMIT + rest
    ensures n % U64_LIMIT == rest
  {
  }

  /** A sealed file is what it seals, and then the hash of that, low byte first. */
  lemma SealLayout(body: seq<u8>)
    ensures |Sealed(body)| == |body| + 8 && Sealed(body)[..|body|] == body
    ensures Number(Sealed(body)[|body|..]) == Fnv(FNV_SEED, body)
  {
    Power256Of8();
    NumberOfLe(Fnv(FNV_SEED, body), 8);
    assert Sealed(body)[|body|..] == Le64(Fnv(FNV_SEED, body));
  }

  lemma {:induction false} NoMore(k: nat)
    ensures Le(0, k) == seq(k, _ => 0)
  {
    if k > 0 {
      NoMore(k - 1);
    }
  }

  lemma Small(n: nat)
    requires n < 256
    ensures Le64(n) == [n, 0, 0, 0, 0, 0, 0, 0]
  {
    NoMore(7);
    assert n / 256 == 0 && seq(7, _ => 0) == [0, 0, 0, 0, 0, 0, 0];
  }

  lemma Numbers()
    ensures Le64(2) == [2, 0, 0, 0, 0, 0, 0, 0] && Le64(100) == [100, 0, 0, 0, 0, 0, 0, 0]
    ensures Le64(356) == [100, 1, 0, 0, 0, 0, 0, 0]
  {
    Small(2);
    Small(100);
    NoMore(6);
    assert Le(356, 8) == [100] + Le(1, 7) && Le(1, 7) == [1] + Le(0, 6);
    assert seq(6, _ => 0) == [0, 0, 0, 0, 0, 0];
  }

  /** A journal of two records over an image of a hundred bytes to be two hundred and fifty-six longer,
      byte by byte: the mark, the two lengths, the count, and each record's offset, length and bytes. */
  lemma Layout()
    ensures Body(100, 356, [Record(0, [1, 2, 3, 4]), Record(96, [9, 9, 9, 9])]) ==
      ['R' as int, 'M' as int, 'N' as int, 'U' as int, 'N' as int, 'D' as int, 'O' as int, '1' as int]
      + [100, 0, 0, 0, 0, 0, 0, 0] + [100, 1, 0, 0, 0, 0, 0, 0] + [2, 0, 0, 0, 0, 0, 0, 0]
      + ([0, 0, 0, 0, 0, 0, 0, 0] + [4, 0, 0, 0, 0, 0, 0, 0] + [1, 2, 3, 4]
      + ([96, 0, 0, 0, 0, 0, 0, 0] + [4, 0, 0, 0, 0, 0, 0, 0] + [9, 9, 9, 9]))
  {
    HeaderLayout();
    RecordLayout(0, [1, 2, 3, 4]);
    RecordLayout(96, [9, 9, 9, 9]);
    TwoRecords(Record(0, [1, 2, 3, 4]), Record(96, [9, 9, 9, 9]));
  }

  lemma HeaderLayout()
    ensures HeaderBytes(100, 356, 2) ==
      ['R' as int, 'M' as int, 'N' as int, 'U' as int, 'N' as int, 'D' as int, 'O' as int, '1' as int]
      + [100, 0, 0, 0, 0, 0, 0, 0] + [100, 1, 0, 0, 0, 0, 0, 0] + [2, 0, 0, 0, 0, 0, 0, 0]
  {
    Numbers();
  }

  lemma RecordLayout(offset: nat, bytes: seq<u8>)
    requires offset < 256 && |bytes| == 4
    ensures RecordBytes(Record(offset, bytes)) == [offset, 0, 0, 0, 0, 0, 0, 0] + [4, 0, 0, 0, 0, 0, 0, 0] + bytes
  {
    Small(offset);
    Small(4);
  }

  lemma TwoRecords(a: Record, b: Record)
    requires |a.bytes| < U64_LIMIT && |b.bytes| < U64_LIMIT
    ensures RecordsBytes([a, b]) == RecordBytes(a) + RecordBytes(b)
  {
    assert [a, b][1..] == [b] && [b][1..] == [];
    assert RecordsBytes([b]) == RecordBytes(b) + [] == RecordBytes(b);
  }

  // ---- What a commit answers

  /** Undoing finds the journal armed, or emptied. */
  predicate Undoable(faults: Faults) {
    if faults.applying.Through? && !faults.retiring.Kept? then !faults.restoring.Unread? else faults.restoring.Whole?
  }

  /** **A commit is answered done exactly where** its journal was durable, its apply through, and its sidecar
      emptied and flushed, or it had nothing to write and its flush stood; and its session is lost exactly
      where it had begun to apply, did not get so far, and could not undo it. */
  lemma CommitAnswersIff(d: Disk, capture: Capture, faults: Faults)
    requires Staged(d.image, capture)
    ensures var answer := Commit(d, capture, faults).1;
      var begun := capture.extents != [] && faults.recording == Recorded;
      var stood := begun && faults.applying == Through && faults.retiring in {Gone, Emptied};
      && (answer == Done <==> stood || (capture.extents == [] && faults.flushed))
      && (answer == Failed(false) <==> begun && !stood && !Undoable(faults))
  {
    var before := d.image;
    if capture.extents != [] && faults.recording.Recorded? && !(faults.applying.Through? && !faults.retiring.Kept?) {
      ImageAppliedIsTorn(before, capture, faults.applying);
      UndoKeepsTorn(before, capture, ImageApplied(before, capture, faults.applying), faults);
    } else {
      EmptiedLeaves(After(before, capture), faults, Gone);
    }
  }

  /** And one answered done leaves nothing beside the image, or an empty file, unless it wrote nothing. */
  lemma DoneRetires(d: Disk, capture: Capture, faults: Faults)
    requires Staged(d.image, capture) && Commit(d, capture, faults).1 == Done
    ensures var after := Commit(d, capture, faults).0;
      if capture.extents == [] then after == d
      else after.sidecar == (if faults.retiring == Gone then None else Some([]))
  {
  }

  /** And one that fails with its session usable leaves there what the clearing away came to. */
  lemma FailureClears(d: Disk, capture: Capture, faults: Faults)
    requires Staged(d.image, capture) && capture.extents != [] && Commit(d, capture, faults).1 == Failed(true)
    ensures var after := Commit(d, capture, faults).0;
      && (faults.clearing == Gone ==> after.sidecar == None)
      && (faults.clearing in {Emptied, NotFlushed} ==> after.sidecar == Some([]))
  {
    if faults.recording.Recorded? {
      var applied := ImageApplied(d.image, capture, faults.applying);
      SidecarCleared(Disk(applied, Some(JournalOf(d.image, capture))), faults);
      SidecarCleared(Disk(applied, Some([])), faults);
    }
  }

  lemma SidecarCleared(d: Disk, faults: Faults)
    requires d.sidecar.Some?
    ensures Undone(d, faults).1 == Failed(true) ==> Undone(d, faults).0.sidecar == Retired(d, faults.clearing).sidecar
  {
  }

  /** A recording cut short leaves just the bytes it got to, from the front. */
  lemma ShortIs(d: Disk, capture: Capture, written: nat)
    requires Staged(d.image, capture)
    ensures var after, journal := JournalWritten(d, capture, Short(written)), JournalOf(d.image, capture);
      && after.image == d.image && after.sidecar.Some? && after.sidecar.value <= journal
      && |after.sidecar.value| == if written < |journal| then written else |journal|
  {
  }
}
