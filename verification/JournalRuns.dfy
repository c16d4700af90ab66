/** What the undo journal promises: that it reads back as it was written and not otherwise, that it
    restores the old image whatever was torn, and that a commit interrupted anywhere comes back as
    wholly the old image or wholly the new one. */
module JournalRuns {
  import opened Wrappers
  import opened Journal

  // ---- The format, both ways

  lemma {:induction false} LeOfNumber(s: seq<u8>)
    ensures Le(Number(s), |s|) == s
  {
    if s != [] {
      LeOfNumber(s[1..]);
      assert Number(s) % 256 == s[0] && Number(s) / 256 == Number(s[1..]);
      assert s == [s[0]] + s[1..];
    }
  }

  lemma ReadIff(s: seq<u8>, at: nat, n: u64)
    requires at + 8 <= |s|
    ensures Read64(s, at) == n <==> s[at..at + 8] == Le64(n)
  {
    if s[at..at + 8] == Le64(n) {
      ReadBack(s, at, n);
    }
    LeOfNumber(s[at..at + 8]);
  }

  /** A record list sits in a file from `at`, with nothing between the records and the end of the body. */
  ghost predicate Holds(file: seq<u8>, header: Header, at: nat, records: seq<Record>)
    requires at <= header.body <= |file|
  {
    && (forall i | 0 <= i < |records| :: records[i].offset + |records[i].bytes| <= header.original)
    && file[at..header.body] == RecordsBytes(records)
  }

  lemma RecordParts(r: Record, rest: seq<u8>)
    requires |r.bytes| < U64_LIMIT
    ensures var tail := RecordBytes(r) + rest;
      && tail[..8] == Le64(r.offset) && tail[8..16] == Le64(|r.bytes|)
      && tail[16..16 + |r.bytes|] == r.bytes && tail[16 + |r.bytes|..] == rest
  {
  }

  lemma SliceOfSlice(file: seq<u8>, at: nat, end: nat, from: nat, to: nat)
    requires at + to <= end <= |file| && from <= to
    ensures file[at..end][from..to] == file[at + from..at + to]
  {
    var a, b := file[at..end][from..to], file[at + from..at + to];
    assert |a| == |b| && forall i | 0 <= i < |a| :: a[i] == file[at + from + i] == b[i];
  }

  lemma SplitRecord(file: seq<u8>, header: Header, at: nat, r: Record, rest: seq<Record>)
    requires at <= header.body <= |file| && |r.bytes| < U64_LIMIT && Sized(rest)
    requires file[at..header.body] == RecordBytes(r) + RecordsBytes(rest)
    ensures var end := at + 16 + |r.bytes|;
      && end <= header.body && Read64(file, at) == r.offset && Read64(file, at + 8) == |r.bytes|
      && file[at + 16..end] == r.bytes && file[end..header.body] == RecordsBytes(rest)
  {
    var length, body := |r.bytes|, header.body;
    RecordParts(r, RecordsBytes(rest));
    SliceOfSlice(file, at, body, 0, 8);
    SliceOfSlice(file, at, body, 8, 16);
    SliceOfSlice(file, at, body, 16, 16 + length);
    SliceOfSlice(file, at, body, 16 + length, body - at);
    ReadIff(file, at, r.offset);
    ReadIff(file, at + 8, length);
  }

  lemma JoinRecord(file: seq<u8>, header: Header, at: nat, r: Record, rest: seq<Record>)
    requires at + 16 + |r.bytes| <= header.body <= |file|
    requires |r.bytes| < U64_LIMIT && Sized(rest)
    requires Read64(file, at) == r.offset && Read64(file, at + 8) == |r.bytes|
    requires file[at + 16..at + 16 + |r.bytes|] == r.bytes
    requires file[at + 16 + |r.bytes|..header.body] == RecordsBytes(rest)
    ensures file[at..header.body] == RecordBytes(r) + RecordsBytes(rest)
  {
    ReadIff(file, at, r.offset);
    ReadIff(file, at + 8, |r.bytes|);
    FourSlices(file, at, at + 16 + |r.bytes|, header.body);
  }

  lemma FourSlices(file: seq<u8>, at: nat, end: nat, body: nat)
    requires at + 16 <= end <= body <= |file|
    ensures file[at..body] == file[at..at + 8] + file[at + 8..at + 16] + file[at + 16..end] + file[end..body]
  {
  }

  /** The walk finds `records` exactly when the body is those records, each within the old image. */
  lemma {:induction false} WalkIff(file: seq<u8>, header: Header, at: nat, count: nat, records: seq<Record>)
    requires at <= header.body <= |file| && header.original < U64_LIMIT
    ensures Walk(file, header, at, count) == Some(records)
       <==> (|records| == count && Sized(records) && Holds(file, header, at, records))
    decreases count
  {
    if count == 0 {
      assert at == header.body <==> file[at..header.body] == [];
    } else {
      if |records| == count && Sized(records) && Holds(file, header, at, records) {
        assert records == [records[0]] + records[1..];
        WalkFinds(file, header, at, count, records[0], records[1..]);
      }
      if Walk(file, header, at, count) == Some(records) {
        WalkMeans(file, header, at, count, records);
      }
    }
  }

  lemma WalkStep(file: seq<u8>, header: Header, at: nat, count: nat, r: Record, rest: seq<Record>)
    requires at + 16 + |r.bytes| <= header.body <= |file| && count > 0
    requires Read64(file, at) == r.offset && Read64(file, at + 8) == |r.bytes|
    requires file[at + 16..at + 16 + |r.bytes|] == r.bytes && r.offset + |r.bytes| <= header.original
    requires Walk(file, header, at + 16 + |r.bytes|, count - 1) == Some(rest)
    ensures Walk(file, header, at, count) == Some([r] + rest)
  {
  }

  lemma HoldsRest(file: seq<u8>, header: Header, at: nat, r: Record, rest: seq<Record>)
    requires at <= header.body <= |file| && Sized([r] + rest) && Holds(file, header, at, [r] + rest)
    ensures |r.bytes| < U64_LIMIT && at + 16 + |r.bytes| <= header.body
    ensures var end := at + 16 + |r.bytes|;
      && Read64(file, at) == r.offset && Read64(file, at + 8) == |r.bytes|
      && file[at + 16..end] == r.bytes && r.offset + |r.bytes| <= header.original
      && Sized(rest) && Holds(file, header, end, rest)
  {
    var all := [r] + rest;
    assert all[0] == r && all[1..] == rest;
    RestSized(all);
    SplitRecord(file, header, at, r, rest);
    assert forall i | 0 <= i < |rest| :: rest[i] == all[i + 1];
  }

  lemma WalkFinds(file: seq<u8>, header: Header, at: nat, count: nat, r: Record, rest: seq<Record>)
    requires at <= header.body <= |file| && header.original < U64_LIMIT && count > 0
    requires |rest| + 1 == count && Sized([r] + rest) && Holds(file, header, at, [r] + rest)
    ensures Walk(file, header, at, count) == Some([r] + rest)
    decreases count, 0
  {
    HoldsRest(file, header, at, r, rest);
    WalkIff(file, header, at + 16 + |r.bytes|, count - 1, rest);
    WalkStep(file, header, at, count, r, rest);
  }

  lemma WalkSteps(file: seq<u8>, header: Header, at: nat, count: nat, records: seq<Record>)
    returns (r: Record, rest: seq<Record>)
    requires at <= header.body <= |file| && count > 0 && Walk(file, header, at, count) == Some(records)
    ensures records == [r] + rest && |r.bytes| < U64_LIMIT && at + 16 + |r.bytes| <= header.body
    ensures Read64(file, at) == r.offset && Read64(file, at + 8) == |r.bytes|
    ensures file[at + 16..at + 16 + |r.bytes|] == r.bytes && r.offset + |r.bytes| <= header.original
    ensures Walk(file, header, at + 16 + |r.bytes|, count - 1) == Some(rest)
  {
    r := records[0];
    rest := Walk(file, header, at + 16 + Read64(file, at + 8), count - 1).value;
  }

  lemma HoldsJoin(file: seq<u8>, header: Header, at: nat, r: Record, rest: seq<Record>)
    requires at + 16 + |r.bytes| <= header.body <= |file| && |r.bytes| < U64_LIMIT && Sized(rest)
    requires Read64(file, at) == r.offset && Read64(file, at + 8) == |r.bytes|
    requires file[at + 16..at + 16 + |r.bytes|] == r.bytes && r.offset + |r.bytes| <= header.original
    requires Holds(file, header, at + 16 + |r.bytes|, rest)
    ensures Sized([r] + rest) && Holds(file, header, at, [r] + rest)
  {
    JoinRecord(file, header, at, r, rest);
    var all := [r] + rest;
    assert all[1..] == rest;
  }

  lemma WalkMeans(file: seq<u8>, header: Header, at: nat, count: nat, records: seq<Record>)
    requires at <= header.body <= |file| && header.original < U64_LIMIT && count > 0
    requires Walk(file, header, at, count) == Some(records)
    ensures |records| == count && Sized(records) && Holds(file, header, at, records)
    decreases count, 0
  {
    var r, rest := WalkSteps(file, header, at, count, records);
    WalkIff(file, header, at + 16 + |r.bytes|, count - 1, rest);
    HoldsJoin(file, header, at, r, rest);
  }

  /** A journal as recording writes one. */
  function Written(original: u64, len: u64, records: seq<Record>): seq<u8>
    requires |records| < U64_LIMIT && Sized(records)
  {
    Sealed(Body(original, len, records))
  }

  ghost predicate Recordable(original: u64, len: u64, records: seq<Record>) {
    && original <= len && |records| < U64_LIMIT && Sized(records)
    && forall i | 0 <= i < |records| :: records[i].offset + |records[i].bytes| <= original
  }

  lemma HeaderReads(file: seq<u8>, original: u64, len: u64, count: u64)
    requires |file| >= HEADER_LEN
    ensures file[..HEADER_LEN] == HeaderBytes(original, len, count)
       <==> (file[..8] == MAGIC && Read64(file, 8) == original && Read64(file, 16) == len && Read64(file, 24) == count)
  {
    ReadIff(file, 8, original);
    ReadIff(file, 16, len);
    ReadIff(file, 24, count);
    var h := file[..HEADER_LEN];
    assert h == file[..8] + file[8..16] + file[16..24] + file[24..32];
    var b := HeaderBytes(original, len, count);
    assert b[..8] == MAGIC && b[8..16] == Le64(original) && b[16..24] == Le64(len) && b[24..32] == Le64(count);
    assert h[..8] == file[..8] && h[8..16] == file[8..16] && h[16..24] == file[16..24] && h[24..32] == file[24..32];
  }

  lemma SealReads(file: seq<u8>)
    requires |file| >= SEAL_LEN
    ensures Fnv(FNV_SEED, file[..|file| - SEAL_LEN]) == Read64(file, |file| - SEAL_LEN)
       <==> file == Sealed(file[..|file| - SEAL_LEN])
  {
    var body := file[..|file| - SEAL_LEN];
    SealAt(file, |body|, Fnv(FNV_SEED, body));
  }

  lemma SealAt(file: seq<u8>, at: nat, hash: u64)
    requires at + SEAL_LEN == |file|
    ensures Read64(file, at) == hash <==> file == file[..at] + Le64(hash)
  {
    ReadIff(file, at, hash);
    assert file[at..at + 8] == file[at..];
    assert file == file[..at] + file[at..];
    assert file == file[..at] + Le64(hash) ==> file[at..] == (file[..at] + Le64(hash))[at..] == Le64(hash);
  }

  /** What a file says when it is read: its lengths and its records. */
  ghost predicate Says(file: seq<u8>, original: u64, len: u64, records: seq<Record>) {
    Verify(file).Armed?
    && var h := Verify(file).value;
       h.original == original && h.len == len && Walk(file, h, HEADER_LEN, h.count) == Some(records)
  }

  /** **Round trip, both ways**: a file is armed and says these records exactly when it is, byte for byte,
      what recording them writes. */
  lemma SaysIff(file: seq<u8>, original: u64, len: u64, records: seq<Record>)
    ensures Says(file, original, len, records)
       <==> (Recordable(original, len, records) && file == Written(original, len, records))
  {
    if Recordable(original, len, records) && file == Written(original, len, records) {
      WrittenSays(file, original, len, records);
    }
    if Says(file, original, len, records) {
      SaidIsWritten(file, original, len, records);
    }
  }

  lemma WrittenSays(file: seq<u8>, original: u64, len: u64, records: seq<Record>)
    requires Recordable(original, len, records) && file == Written(original, len, records)
    ensures Says(file, original, len, records)
  {
    var body := Body(original, len, records);
    var header := Header(original, len, |records|, |body|);
    assert file[..|file| - SEAL_LEN] == body;
    SealReads(file);
    assert file[..HEADER_LEN] == body[..HEADER_LEN] == HeaderBytes(original, len, |records|);
    HeaderReads(file, original, len, |records|);
    assert file[HEADER_LEN..header.body] == RecordsBytes(records);
    WalkIff(file, header, HEADER_LEN, |records|, records);
  }

  lemma SaidIsWritten(file: seq<u8>, original: u64, len: u64, records: seq<Record>)
    requires Says(file, original, len, records)
    ensures Recordable(original, len, records) && file == Written(original, len, records)
  {
    var header := Verify(file).value;
    WalkIff(file, header, HEADER_LEN, header.count, records);
    HeaderReads(file, original, len, header.count);
    SealReads(file);
    assert file[..header.body] == file[..HEADER_LEN] + file[HEADER_LEN..header.body];
  }

  // ---- Rolling back, whatever was torn

  /** Byte `p` lies beneath one of the extents. */
  ghost predicate Covered(extents: seq<Extent>, p: nat) {
    exists i :: 0 <= i < |extents| && extents[i].offset <= p < extents[i].offset + |extents[i].data|
  }

  /** Any image a commit can leave partway: each byte of the old image is as it was or lies beneath a
      staged write, whatever is there now; and the length is between the two. */
  ghost predicate Torn(before: seq<u8>, capture: Capture, image: seq<u8>) {
    && |before| <= |image| <= capture.len
    && forall p | 0 <= p < |before| :: image[p] == before[p] || Covered(capture.extents, p)
  }

  ghost predicate Beneath(records: seq<Record>, p: nat) {
    exists i :: 0 <= i < |records| && records[i].offset <= p < records[i].offset + |records[i].bytes|
  }

  /** The record holds the old image's own bytes. */
  ghost predicate FromImage(before: seq<u8>, r: Record) {
    r.offset + |r.bytes| <= |before| && r.bytes == before[r.offset..r.offset + |r.bytes|]
  }

  ghost predicate Original(before: seq<u8>, records: seq<Record>) {
    forall i | 0 <= i < |records| :: FromImage(before, records[i])
  }

  lemma {:induction false} OriginalsAre(before: seq<u8>, extents: seq<Extent>)
    requires |before| < U64_LIMIT
    ensures Original(before, Originals(before, extents)) && |Originals(before, extents)| <= |extents|
  {
    if extents != [] {
      var first, rest := extents[0], Originals(before, extents[1..]);
      OriginalsAre(before, extents[1..]);
      if first.offset < |before| {
        var r := Record(first.offset, before[first.offset..first.offset + Take(first.offset, first.data, |before|)]);
        assert FromImage(before, r) && Originals(before, extents) == [r] + rest;
        assert forall i | 0 <= i < |rest| :: ([r] + rest)[i + 1] == rest[i];
      } else {
        assert Originals(before, extents) == rest;
      }
    }
  }

  lemma {:induction false} OriginalsCover(before: seq<u8>, extents: seq<Extent>, p: nat)
    requires |before| < U64_LIMIT && p < |before| && Covered(extents, p)
    ensures Beneath(Originals(before, extents), p)
  {
    var i :| 0 <= i < |extents| && extents[i].offset <= p < extents[i].offset + |extents[i].data|;
    var rest, all := Originals(before, extents[1..]), Originals(before, extents);
    if i == 0 {
      assert all[0].offset <= p < all[0].offset + |all[0].bytes|;
    } else {
      assert extents[1..][i - 1] == extents[i];
      OriginalsCover(before, extents[1..], p);
      var j :| 0 <= j < |rest| && rest[j].offset <= p < rest[j].offset + |rest[j].bytes|;
      assert all[j + |all| - |rest|] == rest[j];
    }
  }

  /** Writing original bytes back over a torn image puts back every byte beneath them, and tears
      nothing. */
  lemma {:induction false} RestoredBytes(before: seq<u8>, image: seq<u8>, records: seq<Record>)
    requires |before| <= |image| && Original(before, records)
    ensures |Restored(image, records)| == |image|
    ensures forall p | 0 <= p < |image| ::
      Restored(image, records)[p] == if p < |before| && Beneath(records, p) then before[p] else image[p]
    decreases |records|
  {
    if records != [] {
      var t := |records| - 1;
      var last, fewer := records[t], records[..t];
      RestoredBytes(before, image, fewer);
      var partly := Restored(image, fewer);
      forall p | 0 <= p < |image|
        ensures Beneath(records, p) <==> Beneath(fewer, p) || last.offset <= p < last.offset + |last.bytes|
      {
        BeneathLast(records, p);
      }
      assert Restored(image, records) == WriteAt(partly, last.offset, last.bytes);
      assert FromImage(before, last);
    }
  }

  lemma BeneathLast(records: seq<Record>, p: nat)
    requires records != []
    ensures var t := |records| - 1; var last := records[t];
      Beneath(records, p) <==> Beneath(records[..t], p) || last.offset <= p < last.offset + |last.bytes|
  {
    var t := |records| - 1;
    if Beneath(records[..t], p) {
      var i :| 0 <= i < t && records[..t][i].offset <= p < records[..t][i].offset + |records[..t][i].bytes|;
      assert records[i] == records[..t][i];
    }
    if Beneath(records, p) && !(records[t].offset <= p < records[t].offset + |records[t].bytes|) {
      var i :| 0 <= i < |records| && records[i].offset <= p < records[i].offset + |records[i].bytes|;
      assert records[..t][i] == records[i];
    }
  }

  /** What recording a commit's journal writes. */
  ghost function JournalOf(before: seq<u8>, capture: Capture): seq<u8>
    requires Staged(before, capture)
  {
    OriginalsRecordable(before, capture);
    Written(|before|, capture.len, Originals(before, capture.extents))
  }

  /** The staged writes never shrink the image. */
  ghost predicate Staged(before: seq<u8>, capture: Capture) {
    |before| <= capture.len && |capture.extents| < U64_LIMIT
  }

  lemma OriginalsSized(before: seq<u8>, records: seq<Record>)
    requires Original(before, records) && |before| < U64_LIMIT
    ensures Sized(records)
  {
    assert forall i | 0 <= i < |records| :: FromImage(before, records[i]);
  }

  lemma OriginalsRecordable(before: seq<u8>, capture: Capture)
    requires Staged(before, capture)
    ensures Recordable(|before|, capture.len, Originals(before, capture.extents))
  {
    OriginalsAre(before, capture.extents);
    OriginalsSized(before, Originals(before, capture.extents));
  }

  lemma JournalSays(before: seq<u8>, capture: Capture)
    requires Staged(before, capture)
    ensures Says(JournalOf(before, capture), |before|, capture.len, Originals(before, capture.extents))
  {
    OriginalsRecordable(before, capture);
    WrittenSays(JournalOf(before, capture), |before|, capture.len, Originals(before, capture.extents));
  }

  /** **Rollback**: with the journal armed, reconciling gives the old image back, byte for byte and length
      for length, from any torn image. */
  lemma ReconcileRollsBack(before: seq<u8>, capture: Capture, image: seq<u8>, retiring: Retiring)
    requires Staged(before, capture) && Torn(before, capture, image)
    ensures var d := Disk(image, Some(JournalOf(before, capture)));
      Reconcile(d, retiring) == (Retired(d.(image := before), retiring), Reconciled)
  {
    JournalSays(before, capture);
    RestoredWhole(before, capture, image);
    SaidRollsBack(image, JournalOf(before, capture), |before|, capture.len,
                  Originals(before, capture.extents), retiring);
  }

  lemma SaidRollsBack(image: seq<u8>, file: seq<u8>, original: u64, len: u64, records: seq<Record>, retiring: Retiring)
    requires Says(file, original, len, records) && original <= |image| <= len
    ensures var back := Disk(SetLen(Restored(image, records), original), Some(file));
      Reconcile(Disk(image, Some(file)), retiring) == (Retired(back, retiring), Reconciled)
  {
  }

  lemma RestoredWhole(before: seq<u8>, capture: Capture, image: seq<u8>)
    requires Staged(before, capture) && Torn(before, capture, image)
    ensures SetLen(Restored(image, Originals(before, capture.extents)), |before|) == before
  {
    var records := Originals(before, capture.extents);
    OriginalsAre(before, capture.extents);
    RestoredBytes(before, image, records);
    forall p | 0 <= p < |before| && Covered(capture.extents, p)
      ensures Beneath(records, p)
    {
      OriginalsCover(before, capture.extents, p);
    }
    assert SetLen(Restored(image, records), |before|) == before;
  }

  // ---- A journal torn while it was written

  /** Record lists of one length laid over the same bytes are one list: the format is prefix-free. */
  lemma {:induction false} PrefixFree(bytes: seq<u8>, a: seq<Record>, b: seq<Record>)
    requires Sized(a) && Sized(b) && |a| == |b|
    requires RecordsBytes(a) <= bytes && RecordsBytes(b) <= bytes
    ensures a == b
    decreases |a|
  {
    if a != [] {
      RestSized(a);
      RestSized(b);
      FirstRecord(bytes, a[0], a[1..]);
      FirstRecord(bytes, b[0], b[1..]);
      assert a[0] == b[0];
      PrefixFree(bytes[16 + |a[0].bytes|..], a[1..], b[1..]);
      assert a == [a[0]] + a[1..] && b == [b[0]] + b[1..];
    }
  }

  lemma RestSized(a: seq<Record>)
    requires a != [] && Sized(a)
    ensures Sized(a[1..]) && RecordsBytes(a) == RecordBytes(a[0]) + RecordsBytes(a[1..])
  {
  }

  lemma Inside(bytes: seq<u8>, whole: seq<u8>, end: nat, rest: seq<u8>)
    requires end <= |whole| && whole <= bytes && bytes[end..|whole|] == rest
    ensures rest <= bytes[end..]
  {
    assert bytes[end..|whole|] == bytes[end..][..|whole| - end];
  }

  lemma FirstRecord(bytes: seq<u8>, r: Record, rest: seq<Record>)
    requires |r.bytes| < U64_LIMIT && Sized(rest) && RecordBytes(r) + RecordsBytes(rest) <= bytes
    ensures var end := 16 + |r.bytes|;
      && end <= |bytes| && Read64(bytes, 0) == r.offset && Read64(bytes, 8) == |r.bytes|
      && bytes[16..end] == r.bytes && RecordsBytes(rest) <= bytes[end..]
  {
    var whole := RecordBytes(r) + RecordsBytes(rest);
    assert bytes[0..|whole|] == whole;
    SplitRecord(bytes, Header(0, 0, 0, |whole|), 0, r, rest);
    Inside(bytes, whole, 16 + |r.bytes|, RecordsBytes(rest));
  }

  /** A journal that begins as another does is that other, whole. */
  lemma OnePrefix(original: u64, len: u64, records: seq<Record>, start: u64, end: u64, others: seq<Record>)
    requires Recordable(original, len, records) && Recordable(start, end, others)
    requires Written(start, end, others) <= Written(original, len, records)
    ensures start == original && end == len && others == records
  {
    var whole, file := Written(original, len, records), Written(start, end, others);
    assert file[..HEADER_LEN] == HeaderBytes(start, end, |others|);
    assert whole[..HEADER_LEN] == HeaderBytes(original, len, |records|);
    assert file[..HEADER_LEN] == whole[..HEADER_LEN];
    HeaderReads(whole, original, len, |records|);
    HeaderReads(whole, start, end, |others|);
    RecordsLead(whole, original, len, records);
    RecordsLead(file, start, end, others);
    assert file[HEADER_LEN..] <= whole[HEADER_LEN..];
    PrefixFree(whole[HEADER_LEN..], records, others);
  }

  lemma RecordsLead(file: seq<u8>, original: u64, len: u64, records: seq<Record>)
    requires Recordable(original, len, records) && file == Written(original, len, records)
    ensures RecordsBytes(records) <= file[HEADER_LEN..]
  {
    var body := Body(original, len, records);
    assert file[HEADER_LEN..|body|] == RecordsBytes(records);
    assert file[HEADER_LEN..|body|] <= file[HEADER_LEN..];
  }

  /** A journal cut short never says anything: it is not armed, or it contradicts itself. */
  lemma CutSaysNothing(original: u64, len: u64, records: seq<Record>, cut: nat,
                       start: u64, end: u64, others: seq<Record>)
    requires Recordable(original, len, records) && cut < |Written(original, len, records)|
    ensures !Says(Written(original, len, records)[..cut], start, end, others)
  {
    var file := Written(original, len, records)[..cut];
    SaysIff(file, start, end, others);
    if Recordable(start, end, others) && file == Written(start, end, others) {
      OnePrefix(original, len, records, start, end, others);
    }
  }

  /** A file whose last bytes are the seal of those before them, and that begins as a journal does. */
  predicate SealsItself(file: seq<u8>) {
    && |file| >= HEADER_LEN + SEAL_LEN && file[..8] == MAGIC
    && file == Sealed(file[..|file| - SEAL_LEN])
  }

  lemma UnarmedIff(file: seq<u8>)
    ensures Verify(file).Unarmed? <==> !SealsItself(file)
  {
    if |file| >= HEADER_LEN + SEAL_LEN {
      SealReads(file);
    }
  }

  /** **However recording is interrupted, reconciling leaves the image alone**: a sidecar cut short
      proves the commit never reached it. The image opens, unless the cut falls where the bytes before it
      seal themselves: then it is refused. */
  lemma CutJournalIsHarmless(before: seq<u8>, capture: Capture, cut: nat, retiring: Retiring)
    requires Staged(before, capture) && cut < |JournalOf(before, capture)|
    ensures var file := JournalOf(before, capture)[..cut];
      var (after, verdict) := Reconcile(Disk(before, Some(file)), retiring);
      && after.image == before
      && (verdict == Reconciled <==> !SealsItself(file))
  {
    var records := Originals(before, capture.extents);
    OriginalsRecordable(before, capture);
    var file := JournalOf(before, capture)[..cut];
    UnarmedIff(file);
    if Verify(file).Armed? {
      var h := Verify(file).value;
      if Walk(file, h, HEADER_LEN, h.count).Some? {
        CutSaysNothing(|before|, capture.len, records, cut,
                       h.original, h.len, Walk(file, h, HEADER_LEN, h.count).value);
      }
    }
  }

  /** How many records there are depends on the image's length alone. */
  lemma {:induction false} AsManyOriginals(a: seq<u8>, b: seq<u8>, extents: seq<Extent>)
    requires |a| == |b| < U64_LIMIT
    ensures |Originals(a, extents)| == |Originals(b, extents)|
  {
    if extents != [] {
      AsManyOriginals(a, b, extents[1..]);
    }
  }

  /** The capture's first extent overwrites the front of the image, eight bytes of it at least. */
  predicate OverFront(capture: Capture) {
    capture.extents != [] && capture.extents[0].offset == 0 && |capture.extents[0].data| >= 8
  }

  lemma FirstOriginal(before: seq<u8>, capture: Capture)
    requires 0 < |before| < U64_LIMIT && OverFront(capture)
    ensures var records := Originals(before, capture.extents);
      records != []
      && records[0] == Record(0, before[..Take(0, capture.extents[0].data, |before|)])
  {
    assert before[0..0 + Take(0, capture.extents[0].data, |before|)]
        == before[..Take(0, capture.extents[0].data, |before|)];
  }

  /** What the journal of any image of `n` bytes begins with: its header, and that of its first record. */
  ghost function Head(n: nat, capture: Capture): (h: seq<u8>)
    requires 8 <= n <= capture.len && |capture.extents| < U64_LIMIT && OverFront(capture)
    ensures |h| == 48
  {
    var blank: seq<u8> := seq(n, _ => 0);
    OriginalsAre(blank, capture.extents);
    HeaderBytes(n, capture.len, |Originals(blank, capture.extents)|)
    + Le64(0) + Le64(Take(0, capture.extents[0].data, n))
  }

  /** An image whose first eight bytes seal that. */
  ghost function SealedBy(n: nat, capture: Capture): (before: seq<u8>)
    requires 8 <= n <= capture.len && |capture.extents| < U64_LIMIT && OverFront(capture)
    ensures |before| == n
  {
    Le64(Fnv(FNV_SEED, Head(n, capture))) + seq(n - 8, _ => 0)
  }

  lemma JournalBegins(before: seq<u8>, capture: Capture)
    requires Staged(before, capture) && 8 <= |before| && OverFront(capture)
    ensures Head(|before|, capture) + before[..8] <= JournalOf(before, capture)
    ensures |JournalOf(before, capture)| > 56
  {
    var records, take := Originals(before, capture.extents), Take(0, capture.extents[0].data, |before|);
    OriginalsRecordable(before, capture);
    AsManyOriginals(before, seq(|before|, _ => 0), capture.extents);
    FirstOriginal(before, capture);
    RestSized(records);
    var header := HeaderBytes(|before|, capture.len, |records|);
    RecordBegins(header, records[0], before[..8], RecordsBytes(records[1..]));
    assert Sealed(header + RecordsBytes(records))
        == header + RecordsBytes(records) + Le64(Fnv(FNV_SEED, header + RecordsBytes(records)));
  }

  lemma RecordBegins(header: seq<u8>, r: Record, first: seq<u8>, rest: seq<u8>)
    requires |r.bytes| < U64_LIMIT && first <= r.bytes
    ensures header + Le64(r.offset) + Le64(|r.bytes|) + first <= header + (RecordBytes(r) + rest)
  {
    assert header + (RecordBytes(r) + rest)
        == header + Le64(r.offset) + Le64(|r.bytes|) + (first + r.bytes[|first|..] + rest);
  }

  /** **Such a cut there is, over an image of any length**: eight bytes or more, the first of them to be
      overwritten, may be such that power failing at the fifty-sixth byte of their journal leaves them
      unopened ever after, whatever becomes of the sidecar's retirement. */
  lemma CutSealsItself(n: nat, capture: Capture, retiring: Retiring) returns (before: seq<u8>)
    requires 8 <= n <= capture.len && |capture.extents| < U64_LIMIT && OverFront(capture)
    ensures |before| == n && Staged(before, capture) && 56 < |JournalOf(before, capture)|
    ensures var start := Disk(before, Some(JournalOf(before, capture)[..56]));
      SealsItself(start.sidecar.value) && Reconcile(start, retiring) == (start, RefusedContradiction)
  {
    before := SealedBy(n, capture);
    JournalBegins(before, capture);
    var head, whole := Head(n, capture), JournalOf(before, capture);
    assert whole[..56] == Sealed(head) by {
      assert before[..8] == Le64(Fnv(FNV_SEED, head));
      assert whole[..56] == head + before[..8];
    }
    SealedHead(n, capture, Sealed(head));
    Overrunning(before, Sealed(head), Verify(Sealed(head)).value, retiring);
  }

  lemma SealedHead(n: nat, capture: Capture, file: seq<u8>)
    requires 8 <= n <= capture.len && |capture.extents| < U64_LIMIT && OverFront(capture)
    requires file == Sealed(Head(n, capture))
    ensures SealsItself(file) && Verify(file).Armed?
    ensures var h := Verify(file).value;
      h.original == n && h.len == capture.len && Walk(file, h, HEADER_LEN, h.count) == None
  {
    var head := Head(n, capture);
    var blank: seq<u8> := seq(n, _ => 0);
    var count, take := |Originals(blank, capture.extents)|, Take(0, capture.extents[0].data, n);
    FirstOriginal(blank, capture);
    OriginalsAre(blank, capture.extents);
    HeadSlices(file, head, n, capture.len, count, take);
    HeaderReads(file, n, capture.len, count);
    ReadBack(file, 40, take);
    UnarmedIff(file);
  }

  lemma HeadSlices(file: seq<u8>, head: seq<u8>, original: u64, len: u64, count: u64, take: u64)
    requires file == Sealed(head) && head == HeaderBytes(original, len, count) + Le64(0) + Le64(take)
    ensures |file| == 56 && file[..8] == MAGIC && file[..48] == head
    ensures file[..HEADER_LEN] == HeaderBytes(original, len, count) && file[40..48] == Le64(take)
  {
    assert file[..48] == head && head[..8] == MAGIC;
    assert file[..8] == head[..8] && file[..HEADER_LEN] == head[..HEADER_LEN] && file[40..48] == head[40..48];
  }

  lemma Overrunning(before: seq<u8>, file: seq<u8>, h: Header, retiring: Retiring)
    requires Verify(file) == Armed(h) && h.original == |before| <= h.len
    requires Walk(file, h, HEADER_LEN, h.count) == None
    ensures Reconcile(Disk(before, Some(file)), retiring) == (Disk(before, Some(file)), RefusedContradiction)
  {
  }

  /** So it may befall one extent of the cache, over an image just as long. */
  lemma SomeCutSealsItself(retiring: Retiring) returns (before: seq<u8>, capture: Capture)
    ensures Cached(capture) && Staged(before, capture) && |before| == EXTENT && 56 < |JournalOf(before, capture)|
    ensures var start := Disk(before, Some(JournalOf(before, capture)[..56]));
      SealsItself(start.sidecar.value) && Reconcile(start, retiring) == (start, RefusedContradiction)
  {
    capture := Capture([Extent(0, seq(EXTENT, _ => 0))], EXTENT);
    before := CutSealsItself(EXTENT, capture, retiring);
  }

  // ---- What becomes of the sidecar

  /** A reconciliation that succeeds leaves no sidecar exactly where there was none or it could be removed;
      one that does not succeed leaves it as it is. */
  lemma SidecarGoneIff(d: Disk, restoring: Restoring, retiring: Retiring)
    ensures var (after, verdict) := Reconciling(d, restoring, retiring);
      && (verdict == Reconciled ==> (after.sidecar == None <==> d.sidecar == None || retiring == Gone))
      && (verdict != Reconciled ==> after.sidecar == d.sidecar)
  {
  }

  /** Rolled back and answered so, with the journal still beside the image. */
  lemma SidecarStays(before: seq<u8>, capture: Capture, image: seq<u8>)
    requires Staged(before, capture) && Torn(before, capture, image)
    ensures var journal := Some(JournalOf(before, capture));
      Reconcile(Disk(image, journal), Kept) == (Disk(before, journal), Reconciled)
  {
    ReconcileRollsBack(before, capture, image, Kept);
  }

  // ---- The commit, interrupted anywhere

  function After(before: seq<u8>, capture: Capture): seq<u8> {
    Applied(before, capture.extents, capture.len)
  }

  /** Nothing beside the image would change it: where a file there says what an old image held, this is
      that image. */
  ghost predicate Settled(d: Disk) {
    d.sidecar.Some? ==>
      forall original: u64, len: u64, records: seq<Record> | Says(d.sidecar.value, original, len, records) ::
        original == |d.image| && Original(d.image, records)
  }

  lemma BeginningSettles(before: seq<u8>, capture: Capture, file: seq<u8>)
    requires Staged(before, capture) && file <= JournalOf(before, capture)
    ensures Settled(Disk(before, Some(file)))
  {
    var mine := Originals(before, capture.extents);
    OriginalsRecordable(before, capture);
    OriginalsAre(before, capture.extents);
    forall original: u64, len: u64, records: seq<Record> | Says(file, original, len, records)
      ensures original == |before| && records == mine
    {
      SaysIff(file, original, len, records);
      OnePrefix(|before|, capture.len, mine, original, len, records);
    }
  }

  lemma PutBackOwn(image: seq<u8>, records: seq<Record>, k: nat, upto: nat)
    requires Original(image, records)
    ensures PartlyRestored(image, records, k, upto) == image
  {
    if k < |records| {
      RestoredBytes(image, image, records[..k]);
      assert Restored(image, records[..k]) == image;
      assert FromImage(image, records[k]);
      var bytes := First(records[k].bytes, upto);
      assert WriteAt(image, records[k].offset, bytes) == image;
    } else {
      RestoredBytes(image, image, records);
    }
  }

  /** Reconciling a settled disk changes no byte of the image, however far it gets, and leaves it settled. */
  lemma SettledStays(d: Disk, restoring: Restoring, retiring: Retiring)
    requires Settled(d)
    ensures var after := Reconciling(d, restoring, retiring).0;
      after.image == d.image && (after == d || after == Retired(d, retiring)) && Settled(after)
  {
    if d.sidecar.Some? && Verify(d.sidecar.value).Armed? {
      var h := Verify(d.sidecar.value).value;
      match Walk(d.sidecar.value, h, HEADER_LEN, h.count)
      case None =>
      case Some(records) =>
        assert Says(d.sidecar.value, h.original, h.len, records);
        PutBackOwn(d.image, records, |records|, 0);
        if restoring.Stopped? {
          PutBackOwn(d.image, records, restoring.k, restoring.upto);
        }
    }
  }

  /** What touches the disk during a commit and during a recovery, one step at a time; a crash between
      two steps touches nothing. */
  datatype Step =
    | Create                      // the sidecar is made, empty
    | Append(upto: nat)           // recording writes on
    | Abandon(retiring: Retiring) // recording failed, or what was beside the image is done with
    | Write(image: seq<u8>)       // applying: any bytes beneath the staged writes, any growth
    | Retire(retiring: Retiring)  // the apply is through and flushed; the sidecar is emptied, removed
    | Restore(image: seq<u8>)     // reconciling: some original bytes are back
    | Cut                         // reconciling: every original byte is back, and the length with it
    | Drop(retiring: Retiring)    // reconciling: the image is the old one; the sidecar goes
    | Discard(retiring: Retiring) // reconciling: the sidecar is not armed, and goes, whatever the image is

  ghost predicate Enabled(before: seq<u8>, capture: Capture, d: Disk, step: Step)
    requires Staged(before, capture)
  {
    var journal := JournalOf(before, capture);
    match step
    case Create => d.image == before
    case Append(upto) =>
      d.image == before && d.sidecar.Some? && |d.sidecar.value| <= upto <= |journal|
      && d.sidecar.value == journal[..|d.sidecar.value|]
    case Abandon(_) => d.image == before && d.sidecar.Some?
    case Write(image) =>
      d.sidecar == Some(journal) && |d.image| <= |image| <= capture.len
      && forall p | 0 <= p < |d.image| && p < |before| :: image[p] == d.image[p] || Covered(capture.extents, p)
    case Retire(_) => d.sidecar == Some(journal) && d.image == After(before, capture)
    case Restore(image) =>
      d.sidecar == Some(journal) && |image| == |d.image|
      && forall p | 0 <= p < |d.image| && p < |before| :: image[p] == d.image[p] || image[p] == before[p]
    case Cut => d.sidecar == Some(journal) && before <= d.image
    case Drop(_) => d.sidecar == Some(journal) && d.image == before
    case Discard(_) => d.sidecar.Some? && !SealsItself(d.sidecar.value)
  }

  ghost function Next(before: seq<u8>, capture: Capture, d: Disk, step: Step): Disk
    requires Staged(before, capture)
  {
    match step
    case Create => d.(sidecar := Some([]))
    case Append(upto) => d.(sidecar := Some(First(JournalOf(before, capture), upto)))
    case Abandon(retiring) => Retired(d, retiring)
    case Write(image) => d.(image := image)
    case Retire(retiring) => Retired(d, retiring)
    case Restore(image) => d.(image := image)
    case Cut => d.(image := before)
    case Drop(retiring) => Retired(d, retiring)
    case Discard(retiring) => Retired(d, retiring)
  }

  ghost predicate Run(before: seq<u8>, capture: Capture, d: Disk, steps: seq<Step>, last: Disk)
    requires Staged(before, capture)
    decreases |steps|
  {
    if steps == [] then d == last
    else
      Enabled(before, capture, d, steps[0])
      && Run(before, capture, Next(before, capture, d, steps[0]), steps[1..], last)
  }

  /** The image is the old one, beside it nothing, what was there to begin with, or some of the journal. */
  ghost predicate Untouched(start: Disk, capture: Capture, d: Disk)
    requires Staged(start.image, capture)
  {
    d.image == start.image
    && (d.sidecar.None? || d.sidecar == start.sidecar || d.sidecar.value <= JournalOf(start.image, capture))
  }

  ghost predicate Committed(before: seq<u8>, capture: Capture, d: Disk) {
    d.image == After(before, capture) && (d.sidecar.None? || d.sidecar.value == [])
  }

  /** The three states a disk can be found in. */
  ghost predicate Found(start: Disk, capture: Capture, d: Disk)
    requires Staged(start.image, capture)
  {
    || Untouched(start, capture, d)
    || (d.sidecar == Some(JournalOf(start.image, capture)) && Torn(start.image, capture, d.image))
    || Committed(start.image, capture, d)
  }

  lemma StepKeepsFound(start: Disk, capture: Capture, d: Disk, step: Step)
    requires Staged(start.image, capture) && Found(start, capture, d) && Enabled(start.image, capture, d, step)
    ensures Found(start, capture, Next(start.image, capture, d, step))
  {
    var journal := JournalOf(start.image, capture);
    assert [] <= journal && |journal| > 0;
    if step.Discard? {
      JournalSealsItself(start.image, capture);
    }
  }

  lemma JournalSealsItself(before: seq<u8>, capture: Capture)
    requires Staged(before, capture)
    ensures SealsItself(JournalOf(before, capture))
  {
    JournalSays(before, capture);
    UnarmedIff(JournalOf(before, capture));
  }

  lemma {:induction false} RunKeepsFound(start: Disk, capture: Capture, d: Disk, steps: seq<Step>, last: Disk)
    requires Staged(start.image, capture) && Found(start, capture, d)
    requires Run(start.image, capture, d, steps, last)
    ensures Found(start, capture, last)
    decreases |steps|
  {
    if steps != [] {
      StepKeepsFound(start, capture, d, steps[0]);
      RunKeepsFound(start, capture, Next(start.image, capture, d, steps[0]), steps[1..], last);
    }
  }

  /** **Interruption never invents a third state**: stop a commit, its undoing or its recovery anywhere, as
      often as you like, and the next reconciliation leaves wholly the old image or wholly the new one:
      the new one exactly where the journal was retired, and where it differs from the old. It refuses,
      with the old image untouched, only a journal cut short that seals itself, or what it would have
      refused before the commit began. */
  lemma CrashAtomic(start: Disk, capture: Capture, steps: seq<Step>, d: Disk, retiring: Retiring)
    requires Settled(start) && Staged(start.image, capture) && Run(start.image, capture, start, steps, d)
    ensures var (after, verdict) := Reconcile(d, retiring);
      && after.image == (if Committed(start.image, capture, d) then After(start.image, capture) else start.image)
      && (verdict == Reconciled <==>
            || d.sidecar.None? || d.sidecar.value == JournalOf(start.image, capture)
            || !SealsItself(d.sidecar.value)
            || (d == start && Reconcile(start, retiring).1 == Reconciled))
  {
    RunKeepsFound(start, capture, start, steps, d);
    FoundReconciles(start, capture, d, retiring);
  }

  lemma FoundReconciles(start: Disk, capture: Capture, d: Disk, retiring: Retiring)
    requires Settled(start) && Staged(start.image, capture) && Found(start, capture, d)
    ensures var (after, verdict) := Reconcile(d, retiring);
      && after.image == (if Committed(start.image, capture, d) then After(start.image, capture) else start.image)
      && (verdict == Reconciled <==>
            || d.sidecar.None? || d.sidecar.value == JournalOf(start.image, capture)
            || !SealsItself(d.sidecar.value)
            || (d == start && Reconcile(start, retiring).1 == Reconciled))
  {
    if d.sidecar.Some? {
      var file, journal := d.sidecar.value, JournalOf(start.image, capture);
      UnarmedIff(file);
      if file == journal {
        ReconcileRollsBack(start.image, capture, d.image, retiring);
        assert journal != [];
      } else if d == start {
        SettledStays(d, Whole, retiring);
      } else if d.image == start.image && file <= journal {
        assert file == journal[..|file|];
        CutJournalIsHarmless(start.image, capture, |file|, retiring);
      }
    }
  }

  // ---- What the code does is made of those steps

  /** A staged write applied as far as any byte of it is a `Write`. */
  lemma ApplyingWrites(before: seq<u8>, capture: Capture, image: seq<u8>, i: nat, upto: nat)
    requires Staged(before, capture) && Torn(before, capture, image) && i < |capture.extents|
    requires upto <= Take(capture.extents[i].offset, capture.extents[i].data, capture.len)
    ensures var e := capture.extents[i];
      Enabled(before, capture, Disk(image, Some(JournalOf(before, capture))),
              Write(WriteAt(image, e.offset, e.data[..upto])))
  {
  }

  // ---- What the seal catches

  lemma {:induction false} XorInjective(a: nat, b: nat, c: nat, k: nat)
    requires a < Power2(k) && b < Power2(k) && Xor(a, c, k) == Xor(b, c, k)
    ensures a == b
  {
    if k > 0 {
      LowBit(a, b, c, Xor(a / 2, c / 2, k - 1), Xor(b / 2, c / 2, k - 1));
      XorInjective(a / 2, b / 2, c / 2, k - 1);
    }
  }

  lemma LowBit(a: nat, b: nat, c: nat, x: nat, y: nat)
    requires (a + c) % 2 + 2 * x == (b + c) % 2 + 2 * y
    ensures a % 2 == b % 2 && x == y
  {
  }

  lemma {:induction false} XorCommutes(a: nat, b: nat, k: nat)
    ensures Xor(a, b, k) == Xor(b, a, k)
  {
    if k > 0 {
      XorCommutes(a / 2, b / 2, k - 1);
    }
  }

  /** The FNV prime is odd, so multiplying by it loses nothing in 64 bits. */
  lemma TimesPrimeInjective(x: u64, y: u64)
    requires (x * FNV_PRIME) % U64_LIMIT == (y * FNV_PRIME) % U64_LIMIT
    ensures x == y
  {
    var k := (x * FNV_PRIME) / U64_LIMIT - (y * FNV_PRIME) / U64_LIMIT;
    assert (x - y) * FNV_PRIME == k * U64_LIMIT;
    assert FNV_PRIME * 0xce965057aff6957b == 1 + 0xce9650590f * U64_LIMIT;
    assert x - y == U64_LIMIT * (k * 0xce965057aff6957b - (x - y) * 0xce9650590f);
  }

  lemma LowBytes(g: u64, h: u64, x: u8, y: u8)
    requires ((g / 256 * 256 + x) * FNV_PRIME) % U64_LIMIT == ((h / 256 * 256 + y) * FNV_PRIME) % U64_LIMIT
    ensures g / 256 == h / 256 && x == y
  {
    TimesPrimeInjective(g / 256 * 256 + x, h / 256 * 256 + y);
  }

  lemma MixSeesHash(g: u64, h: u64, b: u8)
    requires Mix(g, b) == Mix(h, b)
    ensures g == h
  {
    LowBytes(g, h, Xor8(g % 256, b), Xor8(h % 256, b));
    assert Power2(8) == 256;
    XorInjective(g % 256, h % 256, b, 8);
  }

  lemma MixSeesByte(g: u64, b: u8, c: u8)
    requires Mix(g, b) == Mix(g, c)
    ensures b == c
  {
    LowBytes(g, g, Xor8(g % 256, b), Xor8(g % 256, c));
    assert Power2(8) == 256;
    XorCommutes(g % 256, b, 8);
    XorCommutes(g % 256, c, 8);
    XorInjective(b, c, g % 256, 8);
  }

  lemma {:induction false} FnvInjective(g: u64, h: u64, bytes: seq<u8>)
    requires Fnv(g, bytes) == Fnv(h, bytes)
    ensures g == h
    decreases |bytes|
  {
    if bytes != [] {
      var t := |bytes| - 1;
      MixSeesHash(Fnv(g, bytes[..t]), Fnv(h, bytes[..t]), bytes[t]);
      FnvInjective(g, h, bytes[..t]);
    }
  }

  lemma FnvSeesOneByte(hash: u64, bytes: seq<u8>, at: nat, b: u8)
    requires at < |bytes| && bytes[at] != b
    ensures Fnv(hash, bytes[at := b]) != Fnv(hash, bytes)
  {
    var head, tail := bytes[..at], bytes[at + 1..];
    assert bytes == (head + [bytes[at]]) + tail && bytes[at := b] == (head + [b]) + tail;
    FnvConcat(hash, head + [bytes[at]], tail);
    FnvConcat(hash, head + [b], tail);
    assert (head + [b])[..at] == head && (head + [bytes[at]])[..at] == head;
    if Fnv(hash, bytes[at := b]) == Fnv(hash, bytes) {
      FnvInjective(Fnv(hash, head + [b]), Fnv(hash, head + [bytes[at]]), tail);
      MixSeesByte(Fnv(hash, head), b, bytes[at]);
    }
  }

  lemma SealsDiffer(file: seq<u8>, at: nat, seal: u64, hash: u64)
    requires at + SEAL_LEN == |file| && file[at..] == Le64(seal) && seal != hash
    ensures Read64(file, at) != hash
  {
    assert file[at..at + 8] == file[at..];
    ReadBack(file, at, seal);
  }

  /** **A journal with any one byte changed is not armed**, wherever the byte is, the seal included. */
  lemma OneByteDisarms(original: u64, len: u64, records: seq<Record>, at: nat, b: u8)
    requires Recordable(original, len, records) && at < |Written(original, len, records)|
    requires Written(original, len, records)[at] != b
    ensures Verify(Written(original, len, records)[at := b]).Unarmed?
  {
    var body := Body(original, len, records);
    var file, hash := Written(original, len, records), Fnv(FNV_SEED, body);
    var changed, size := file[at := b], |body|;
    if at < size {
      assert changed[..size] == body[at := b];
      FnvSeesOneByte(FNV_SEED, body, at, b);
      assert changed[size..] == Le64(hash);
      SealsDiffer(changed, size, hash, Fnv(FNV_SEED, changed[..size]));
    } else {
      assert changed[..size] == body;
      SealAt(changed, size, hash);
      assert changed[at] != file[at];
    }
  }
}
