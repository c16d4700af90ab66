/** Committing and reconciling as the library does them: streams moved through a bounded buffer, over one
    image and its sidecar. */
module Recovery {
  import opened Wrappers
  import opened Journal
  import opened JournalRuns
  import opened Commits
  import opened JournalAnswers

  /** Writes the sidecar piece by piece, hashing everything written. */
  class SealedWriter {
    var file: seq<u8>
    var hash: u64

    ghost predicate Valid()
      reads this
    {
      hash == Fnv(FNV_SEED, file)
    }

    constructor ()
      ensures Valid() && file == []
    {
      file, hash := [], FNV_SEED;
    }

    method Write(bytes: seq<u8>)
      requires Valid()
      modifies this
      ensures Valid() && file == old(file) + bytes
    {
      hash := Extend(hash, bytes);
      FnvConcat(FNV_SEED, file, bytes);
      file := file + bytes;
    }

    method Seal() returns (sealed: seq<u8>)
      requires Valid()
      ensures sealed == Sealed(file)
    {
      sealed := file + Le64(hash);
    }
  }

  method Extend(hash: u64, bytes: seq<u8>) returns (extended: u64)
    ensures extended == Fnv(hash, bytes)
  {
    extended := hash;
    for i := 0 to |bytes|
      invariant extended == Fnv(hash, bytes[..i])
    {
      assert bytes[..i + 1][..i] == bytes[..i];
      extended := Mix(extended, bytes[i]);
    }
    assert bytes[..|bytes|] == bytes;
  }

  /** Hashes the body against the seal, a buffer at a time, keeping the header as it goes by. */
  method VerifySealed(file: seq<u8>) returns (reading: Reading<Header>)
    ensures reading == Verify(file)
  {
    if |file| < HEADER_LEN + SEAL_LEN {
      return Unarmed;
    }
    var body := |file| - SEAL_LEN;
    var header: seq<u8> := [];
    var hash := FNV_SEED;
    var at := 0;
    while at < body
      invariant 0 <= at <= body && hash == Fnv(FNV_SEED, file[..at])
      invariant at > 0 ==> header == file[..HEADER_LEN]
    {
      var take := if body - at < CHUNK then body - at else CHUNK;
      var buffer := file[at..at + take];
      if at == 0 {
        header := buffer[..HEADER_LEN];
      }
      ChunkStep(file, at, take);
      hash := Extend(hash, buffer);
      at := at + take;
    }
    HeaderSlices(file);
    if hash != Read64(file, body) || header[..8] != MAGIC {
      return Unarmed;
    }
    if Read64(header, 16) < Read64(header, 8) {
      return Contradiction;
    }
    reading := Armed(Header(Read64(header, 8), Read64(header, 16), Read64(header, 24), body));
  }

  lemma ChunkStep(file: seq<u8>, at: nat, take: nat)
    requires at + take <= |file|
    ensures Fnv(Fnv(FNV_SEED, file[..at]), file[at..at + take]) == Fnv(FNV_SEED, file[..at + take])
    ensures at == 0 && take >= HEADER_LEN ==> file[at..at + take][..HEADER_LEN] == file[..HEADER_LEN]
  {
    FnvConcat(FNV_SEED, file[..at], file[at..at + take]);
    assert file[..at] + file[at..at + take] == file[..at + take];
  }

  lemma HeaderSlices(file: seq<u8>)
    requires |file| >= HEADER_LEN
    ensures var header := file[..HEADER_LEN];
      && header[..8] == file[..8] && Read64(header, 8) == Read64(file, 8)
      && Read64(header, 16) == Read64(file, 16) && Read64(header, 24) == Read64(file, 24)
  {
    var header := file[..HEADER_LEN];
    assert header[8..16] == file[8..16] && header[16..24] == file[16..24] && header[24..32] == file[24..32];
  }

  lemma {:induction false} RecordsConcat(a: seq<Record>, b: seq<Record>)
    requires Sized(a) && Sized(b)
    ensures Sized(a + b) && RecordsBytes(a + b) == RecordsBytes(a) + RecordsBytes(b)
  {
    if a == [] {
      assert a + b == b;
    } else {
      var rest := a[1..];
      RecordsConcat(rest, b);
      assert (a + b)[0] == a[0] && (a + b)[1..] == rest + b;
      assert RecordBytes(a[0]) + (RecordsBytes(rest) + RecordsBytes(b))
          == (RecordBytes(a[0]) + RecordsBytes(rest)) + RecordsBytes(b);
    }
  }

  /** What recording writes for some of the extents. */
  ghost function OriginalBytes(image: seq<u8>, extents: seq<Extent>): seq<u8>
    requires |image| < U64_LIMIT
  {
    OriginalSized(image, extents);
    RecordsBytes(Originals(image, extents))
  }

  lemma OriginalSized(image: seq<u8>, extents: seq<Extent>)
    requires |image| < U64_LIMIT
    ensures Sized(Originals(image, extents))
  {
    OriginalsAre(image, extents);
    OriginalsSized(image, Originals(image, extents));
  }

  lemma MoreBytes(image: seq<u8>, extents: seq<Extent>, e: Extent)
    requires |image| < U64_LIMIT
    ensures OriginalBytes(image, extents + [e]) == OriginalBytes(image, extents) + OriginalBytes(image, [e])
  {
    RecordedInOrder(image, extents, e);
    OriginalSized(image, extents);
    OriginalSized(image, [e]);
    RecordsConcat(Originals(image, extents), Originals(image, [e]));
  }

  /** What recording writes for one extent. */
  function BytesOfOne(image: seq<u8>, e: Extent): seq<u8>
    requires |image| < U64_LIMIT
  {
    if e.offset >= |image| then []
    else
      var take := Take(e.offset, e.data, |image|);
      Le64(e.offset) + Le64(take) + image[e.offset..e.offset + take]
  }

  lemma OneIs(image: seq<u8>, e: Extent)
    requires |image| < U64_LIMIT
    ensures OriginalBytes(image, []) == [] && OriginalBytes(image, [e]) == BytesOfOne(image, e)
  {
    assert [e][1..] == [] && Originals(image, []) == [];
    if e.offset < |image| {
      var r := Journal.Record(e.offset, image[e.offset..e.offset + Take(e.offset, e.data, |image|)]);
      assert Originals(image, [e]) == [r] && [r][1..] == [];
      assert RecordsBytes([r]) == RecordBytes(r) + [] == RecordBytes(r);
    }
  }

  lemma BytesStep(image: seq<u8>, extents: seq<Extent>, i: nat, file: seq<u8>)
    requires |image| < U64_LIMIT && i < |extents|
    ensures file + OriginalBytes(image, extents[..i + 1])
         == file + OriginalBytes(image, extents[..i]) + BytesOfOne(image, extents[i])
  {
    MoreBytes(image, extents[..i], extents[i]);
    OneIs(image, extents[i]);
    assert extents[..i + 1] == extents[..i] + [extents[i]];
  }

  lemma BytesStart(image: seq<u8>, extents: seq<Extent>, file: seq<u8>)
    requires |image| < U64_LIMIT
    ensures file == file + OriginalBytes(image, extents[..0])
    ensures extents[..|extents|] == extents
  {
    assert extents[..0] == [] && Originals(image, []) == [];
  }

  lemma JournalIs(image: seq<u8>, capture: Capture)
    requires Staged(image, capture)
    ensures |Originals(image, capture.extents)| < U64_LIMIT
    ensures JournalOf(image, capture)
         == Sealed(HeaderBytes(|image|, capture.len, |Originals(image, capture.extents)|)
                   + OriginalBytes(image, capture.extents))
  {
    OriginalsRecordable(image, capture);
  }

  ghost function Onto(records: seq<Record>, rest: Option<seq<Record>>): Option<seq<Record>> {
    match rest
    case None => None
    case Some(more) => Some(records + more)
  }

  lemma OntoOne(records: seq<Record>, r: Record, rest: Option<seq<Record>>)
    ensures Onto(records, Onto([r], rest)) == Onto(records + [r], rest)
  {
    if rest.Some? {
      assert records + ([r] + rest.value) == (records + [r]) + rest.value;
    }
  }

  lemma OntoEnds(records: seq<Record>, rest: Option<seq<Record>>)
    ensures Onto([], rest) == rest && Onto(records, Some([])) == Some(records)
  {
    if rest.Some? {
      assert [] + rest.value == rest.value;
    }
    assert records + [] == records;
  }

  lemma WalkEnds(file: seq<u8>, header: Header, at: nat, records: seq<Record>)
    requires at <= header.body <= |file| && Onto(records, Walk(file, header, at, 0)).Some?
    ensures Onto(records, Walk(file, header, at, 0)) == Some(records)
  {
    OntoEnds(records, None);
  }

  lemma WriteAtJoins(image: seq<u8>, offset: nat, a: seq<u8>, b: seq<u8>)
    requires offset + |a| + |b| <= |image|
    ensures WriteAt(WriteAt(image, offset, a), offset + |a|, b) == WriteAt(image, offset, a + b)
  {
    var x, y := WriteAt(WriteAt(image, offset, a), offset + |a|, b), WriteAt(image, offset, a + b);
    assert |x| == |y| && forall p | 0 <= p < |x| :: x[p] == y[p];
  }

  /** The first `done` bytes from `at` in the file, put into the image. */
  ghost function Put(image: seq<u8>, offset: nat, file: seq<u8>, at: nat, done: nat): seq<u8>
    requires at + done <= |file|
  {
    WriteAt(image, offset, file[at..at + done])
  }

  lemma PutNothing(image: seq<u8>, offset: nat, file: seq<u8>, at: nat)
    requires at <= |file|
    ensures Put(image, offset, file, at, 0) == image
  {
    assert file[at..at + 0] == [];
  }

  lemma PutStep(image: seq<u8>, offset: nat, file: seq<u8>, at: nat, done: nat, take: nat)
    requires at + done + take <= |file| && offset + done + take <= |image|
    ensures WriteAt(Put(image, offset, file, at, done), offset + done, file[at + done..at + done + take])
         == Put(image, offset, file, at, done + take)
  {
    WriteAtJoins(image, offset, file[at..at + done], file[at + done..at + done + take]);
    assert file[at..at + done] + file[at + done..at + done + take] == file[at..at + done + take];
  }

  lemma RestoredStep(image: seq<u8>, records: seq<Record>, r: Record)
    ensures Restored(image, records + [r]) == WriteAt(Restored(image, records), r.offset, r.bytes)
  {
    assert (records + [r])[..|records|] == records;
  }

  /** The record at `at`, where there is a whole one within the old image. */
  function RecordAt(file: seq<u8>, header: Header, at: nat): Option<Record>
    requires at <= header.body <= |file|
  {
    if header.body - at < 16 || Read64(file, at + 8) > header.body - (at + 16)
       || Read64(file, at) + Read64(file, at + 8) > header.original then None
    else Some(Journal.Record(Read64(file, at), file[at + 16..at + 16 + Read64(file, at + 8)]))
  }

  lemma WalkOnto(file: seq<u8>, header: Header, at: nat, left: nat, records: seq<Record>)
    requires at <= header.body <= |file| && left > 0
    ensures var r := RecordAt(file, header, at);
      Onto(records, Walk(file, header, at, left)) ==
      if r.None? then None
      else Onto(records + [r.value], Walk(file, header, at + 16 + |r.value.bytes|, left - 1))
  {
    var r := RecordAt(file, header, at);
    if r.Some? {
      OntoOne(records, r.value, Walk(file, header, at + 16 + |r.value.bytes|, left - 1));
    }
  }

  /** The walk, having met `records`, is at `at` with `left` still to meet. */
  ghost predicate Met(all: seq<Journal.Record>, file: seq<u8>, header: Header, at: nat, left: nat,
                      records: seq<Journal.Record>) {
    at <= header.body <= |file| && Some(all) == Onto(records, Walk(file, header, at, left))
  }

  lemma MetNext(all: seq<Journal.Record>, file: seq<u8>, header: Header, at: nat, left: nat,
                records: seq<Journal.Record>)
    requires Met(all, file, header, at, left, records) && left > 0
    ensures RecordAt(file, header, at).Some?
    ensures var r := RecordAt(file, header, at).value; var end := at + 16 + |r.bytes|;
      && end <= header.body && r.bytes == file[at + 16..end] && r.offset + |r.bytes| <= header.original
      && |records| < |all| && all[..|records|] == records && all[|records|] == r
      && Met(all, file, header, end, left - 1, records + [r])
  {
    WalkOnto(file, header, at, left, records);
    var r := RecordAt(file, header, at).value;
    var more := Walk(file, header, at + 16 + |r.bytes|, left - 1).value;
    assert all == records + [r] + more;
  }

  lemma {:induction false} WalkCount(file: seq<u8>, header: Header, at: nat, count: nat)
    requires at <= header.body <= |file| && Walk(file, header, at, count).Some?
    ensures |Walk(file, header, at, count).value| == count
    decreases count
  {
    if count > 0 {
      WalkCount(file, header, at + 16 + Read64(file, at + 8), count - 1);
    }
  }

  class Host {
    var image: seq<u8>
    var sidecar: Option<seq<u8>>

    ghost function Now(): Disk
      reads this
    {
      Disk(image, sidecar)
    }

    method CountBeneath(extents: seq<Extent>) returns (count: nat)
      requires |image| < U64_LIMIT
      ensures count == |Originals(image, extents)|
    {
      count := 0;
      for i := 0 to |extents|
        invariant count == |Originals(image, extents[..i])|
      {
        RecordedInOrder(image, extents[..i], extents[i]);
        assert extents[..i + 1] == extents[..i] + [extents[i]];
        if extents[i].offset < |image| {
          count := count + 1;
        }
      }
      assert extents[..|extents|] == extents;
    }

    method RecordEach(writer: SealedWriter, extents: seq<Extent>)
      requires writer.Valid() && |image| < U64_LIMIT
      modifies writer
      ensures writer.Valid() && writer.file == old(writer.file) + OriginalBytes(image, extents)
    {
      BytesStart(image, extents, writer.file);
      for i := 0 to |extents|
        invariant writer.Valid() && writer.file == old(writer.file) + OriginalBytes(image, extents[..i])
      {
        BytesStep(image, extents, i, old(writer.file));
        RecordOne(writer, extents[i]);
      }
    }

    method RecordOne(writer: SealedWriter, e: Extent)
      requires writer.Valid() && |image| < U64_LIMIT
      modifies writer
      ensures writer.Valid() && writer.file == old(writer.file) + BytesOfOne(image, e)
    {
      if e.offset < |image| {
        var take := Take(e.offset, e.data, |image|);
        writer.Write(Le64(e.offset) + Le64(take) + image[e.offset..e.offset + take]);
      }
    }

    method WriteBody(capture: Capture, count: u64) returns (sealed: seq<u8>)
      requires |image| < U64_LIMIT
      ensures sealed == Sealed(HeaderBytes(|image|, capture.len, count) + OriginalBytes(image, capture.extents))
    {
      var writer := new SealedWriter();
      var header := HeaderBytes(|image|, capture.len, count);
      writer.Write(header);
      assert [] + header == header;
      RecordEach(writer, capture.extents);
      sealed := writer.Seal();
    }

    /** Makes the bytes a commit will overwrite durable before the first of them changes. */
    method Record(capture: Capture, recording: Recording) returns (recorded: bool)
      requires Staged(image, capture)
      modifies this`sidecar
      ensures Now() == JournalWritten(old(Now()), capture, recording) && recorded == recording.Recorded?
    {
      recorded := recording.Recorded?;
      if recording.Unmade? {
        return;
      }
      JournalIs(image, capture);
      var count := CountBeneath(capture.extents);
      var sealed := WriteBody(capture, count);
      sidecar := Some(if recorded then sealed else First(sealed, recording.written));
    }

    method WriteThrough(offset: nat, data: seq<u8>)
      modifies this`image
      ensures image == WriteAt(old(image), offset, data)
    {
      image := WriteAt(image, offset, data);
    }

    method WriteExtents(capture: Capture, k: nat)
      requires k <= |capture.extents|
      modifies this`image
      ensures image == Applied(old(image), capture.extents[..k], capture.len)
    {
      for i := 0 to k
        invariant image == Applied(old(image), capture.extents[..i], capture.len)
      {
        var e := capture.extents[i];
        AppliedStep(old(image), capture, i);
        var take := Take(e.offset, e.data, capture.len);
        if take > 0 {
          WriteThrough(e.offset, e.data[..take]);
        }
      }
    }

    /** Writes the staged extents through, each clamped to the staged length. */
    method Apply(capture: Capture, applying: Applying) returns (through: bool)
      modifies this`image
      ensures image == ImageApplied(old(image), capture, applying) && through == applying.Through?
    {
      through := applying.Through?;
      AllExtents(capture);
      if through || applying.k >= |capture.extents| {
        WriteExtents(capture, |capture.extents|);
      } else {
        WriteExtents(capture, applying.k);
        var e := capture.extents[applying.k];
        WriteThrough(e.offset, First(e.data[..Take(e.offset, e.data, capture.len)], applying.upto));
      }
    }

    method PutChunk(file: seq<u8>, at: nat, offset: nat, done: nat, take: nat, ghost was: seq<u8>)
      requires at + done + take <= |file| && offset + done + take <= |was|
      requires image == Put(was, offset, file, at, done)
      modifies this`image
      ensures image == Put(was, offset, file, at, done + take)
    {
      PutStep(was, offset, file, at, done, take);
      WriteThrough(offset + done, file[at + done..at + done + take]);
    }

    /** Puts one record's bytes back, a buffer at a time. */
    method PutBack(file: seq<u8>, at: nat, offset: nat, length: nat)
      requires at + length <= |file| && offset + length <= |image|
      modifies this`image
      ensures image == Put(old(image), offset, file, at, length)
    {
      PutNothing(image, offset, file, at);
      var done := 0;
      while done < length
        invariant done <= length && image == Put(old(image), offset, file, at, done)
      {
        var take := if length - done < CHUNK then length - done else CHUNK;
        PutChunk(file, at, offset, done, take, old(image));
        done := done + take;
      }
    }

    /** Walks the records without writing: whether they are whole and lie within the old image. */
    method Validate(file: seq<u8>, header: Header) returns (whole: bool)
      requires HEADER_LEN <= header.body <= |file|
      ensures whole <==> Walk(file, header, HEADER_LEN, header.count).Some?
    {
      ghost var records: seq<Journal.Record> := [];
      var at, left := HEADER_LEN, header.count;
      OntoEnds([], Walk(file, header, at, left));
      while left > 0
        invariant HEADER_LEN <= at <= header.body
        invariant Walk(file, header, HEADER_LEN, header.count) == Onto(records, Walk(file, header, at, left))
        decreases left
      {
        WalkOnto(file, header, at, left, records);
        var r := RecordAt(file, header, at);
        if r.None? {
          return false;
        }
        records := records + [r.value];
        at := at + 16 + |r.value.bytes|;
        left := left - 1;
      }
      whole := at == header.body;
    }

    /** Puts back the record at `at`. */
    method PutRecord(file: seq<u8>, header: Header, at: nat, left: nat,
                     ghost was: seq<u8>, ghost all: seq<Journal.Record>, ghost records: seq<Journal.Record>)
      returns (end: nat)
      requires Met(all, file, header, at, left, records) && left > 0 && header.original <= |image|
      requires image == Restored(was, records)
      modifies this`image
      ensures |image| == |old(image)| && |records| < |all|
      ensures Met(all, file, header, end, left - 1, records + [all[|records|]])
      ensures image == Restored(was, records + [all[|records|]])
    {
      MetNext(all, file, header, at, left, records);
      var r := RecordAt(file, header, at).value;
      RestoredStep(was, records, r);
      PutBack(file, at + 16, r.offset, |r.bytes|);
      end := at + 16 + |r.bytes|;
    }

    /** The same walk, each record's bytes put back as it is met, until `k` are. */
    method PutRecords(file: seq<u8>, header: Header, k: nat, ghost all: seq<Journal.Record>)
      returns (at: nat, left: nat, ghost records: seq<Journal.Record>)
      requires HEADER_LEN <= header.body <= |file| && header.original <= |image|
      requires Walk(file, header, HEADER_LEN, header.count) == Some(all)
      modifies this`image
      ensures Met(all, file, header, at, left, records) && image == Restored(old(image), records)
      ensures |image| == |old(image)| && (left > 0 ==> |records| == k) && |records| <= k
    {
      records, at, left := [], HEADER_LEN, header.count;
      OntoEnds([], Some(all));
      while left > 0 && header.count - left < k
        invariant Met(all, file, header, at, left, records) && image == Restored(old(image), records)
        invariant |image| == |old(image)| && |records| + left == header.count && |records| <= k
        decreases left
      {
        at := PutRecord(file, header, at, left, old(image), all, records);
        records := records + [all[|records|]];
        left := left - 1;
      }
    }

    /** So many records' bytes put back whole, and `upto` bytes of the next. */
    method PutAllBack(file: seq<u8>, header: Header, k: nat, upto: nat)
      requires HEADER_LEN <= header.body <= |file| && header.original <= |image|
      requires Walk(file, header, HEADER_LEN, header.count).Some?
      modifies this`image
      ensures image == PartlyRestored(old(image), Walk(file, header, HEADER_LEN, header.count).value, k, upto)
    {
      ghost var all := Walk(file, header, HEADER_LEN, header.count).value;
      var at, left, records := PutRecords(file, header, k, all);
      if left > 0 {
        MetNext(all, file, header, at, left, records);
        PutPart(file, at + 16, RecordAt(file, header, at).value, upto);
      } else {
        WalkEnds(file, header, at, records);
      }
    }

    method PutPart(file: seq<u8>, at: nat, r: Journal.Record, upto: nat)
      requires at + |r.bytes| <= |file| && r.bytes == file[at..at + |r.bytes|] && r.offset + |r.bytes| <= |image|
      modifies this`image
      ensures image == WriteAt(old(image), r.offset, First(r.bytes, upto))
    {
      var length := |First(r.bytes, upto)|;
      assert First(r.bytes, upto) == file[at..at + length];
      PutBack(file, at, r.offset, length);
    }

    /** Reconciles an interrupted commit from its sidecar: validation runs to the end before the first
        byte is put back. */
    method Reconcile(restoring: Restoring, retiring: Retiring) returns (verdict: Verdict)
      modifies this
      ensures (Now(), verdict) == Reconciling(old(Now()), restoring, retiring)
    {
      if sidecar.None? {
        return Reconciled;
      }
      if restoring.Unread? {
        return Interrupted;
      }
      var file := sidecar.value;
      var reading := VerifySealed(file);
      match reading {
        case Unarmed =>
        case Contradiction => return RefusedContradiction;
        case Armed(header) =>
          if |image| < header.original || |image| > header.len {
            return RefusedMismatch;
          }
          var whole := Validate(file, header);
          if !whole {
            return RefusedContradiction;
          }
          var back := RollBack(file, header, restoring);
          if !back {
            return Interrupted;
          }
      }
      var _ := Retire(retiring);
      verdict := Reconciled;
    }

    /** Puts the original bytes back, then the length. */
    method RollBack(file: seq<u8>, header: Header, restoring: Restoring) returns (back: bool)
      requires HEADER_LEN <= header.body <= |file| && header.original <= |image| && !restoring.Unread?
      requires Walk(file, header, HEADER_LEN, header.count).Some?
      modifies this`image
      ensures back == restoring.Whole?
      ensures var records := Walk(file, header, HEADER_LEN, header.count).value;
        image == if restoring.Stopped? then PartlyRestored(old(image), records, restoring.k, restoring.upto)
                 else SetLen(Restored(old(image), records), header.original)
    {
      back := restoring.Whole?;
      if restoring.Stopped? {
        PutAllBack(file, header, restoring.k, restoring.upto);
      } else {
        WalkCount(file, header, HEADER_LEN, header.count);
        PutAllBack(file, header, header.count, 0);
        image := SetLen(image, header.original);
      }
    }

    /** Empties the sidecar and flushes it, then removes it if it can. */
    method Retire(retiring: Retiring) returns (retired: bool)
      modifies this`sidecar
      ensures Now() == Retired(old(Now()), retiring) && retired == Retires(retiring)
    {
      retired := Retires(retiring);
      if !retiring.Kept? {
        sidecar := Some([]);
      }
      if retiring.Gone? {
        sidecar := None;
      }
    }

    /** The commit point, over a capture of every write it will make. */
    method Commit(capture: Capture, faults: Faults) returns (answer: Answer)
      requires Staged(image, capture)
      modifies this
      ensures (Now(), answer) == Commits.Commit(old(Now()), capture, faults)
    {
      if capture.extents == [] {
        return if faults.flushed then Done else Failed(true);
      }
      var recorded := Record(capture, faults.recording);
      if !recorded {
        var _ := Retire(faults.clearing);
        return Failed(true);
      }
      var applied := Apply(capture, faults.applying);
      if applied {
        applied := Retire(faults.retiring);
      }
      if !applied {
        var verdict := Reconcile(faults.restoring, faults.clearing);
        return Failed(verdict == Reconciled);
      }
      answer := Done;
    }
  }
}
