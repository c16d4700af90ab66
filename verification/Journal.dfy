/** The undo journal beneath the commit point: its sealed format, what recording writes, and what
    reconciling from it does to the image. Bytes are numbers here. */
module Journal {
  import opened Wrappers

  type u8 = n: nat | n < 256

  /** "RMNUNDO1" */
  const MAGIC: seq<u8> := [0x52, 0x4d, 0x4e, 0x55, 0x4e, 0x44, 0x4f, 0x31]
  const HEADER_LEN: nat := 32
  const SEAL_LEN: nat := 8
  const CHUNK: nat := 64 * 1024

  const FNV_SEED: u64 := 0xcbf2_9ce4_8422_2325
  const FNV_PRIME: nat := 0x0000_0100_0000_01b3

  // ---- Numbers and the seal

  /** The `k` low bytes of `n`, least significant first. */
  function Le(n: nat, k: nat): (s: seq<u8>)
    ensures |s| == k
  {
    if k == 0 then [] else [n % 256] + Le(n / 256, k - 1)
  }

  function Number(s: seq<u8>): nat {
    if s == [] then 0 else s[0] + 256 * Number(s[1..])
  }

  function Le64(n: u64): (s: seq<u8>)
    ensures |s| == 8
  {
    Le(n, 8)
  }

  function Power256(k: nat): nat {
    if k == 0 then 1 else 256 * Power256(k - 1)
  }

  lemma {:induction false} NumberOfLe(n: nat, k: nat)
    requires n < Power256(k)
    ensures Number(Le(n, k)) == n
  {
    if k > 0 {
      NumberOfLe(n / 256, k - 1);
      assert Le(n, k)[1..] == Le(n / 256, k - 1);
    }
  }

  lemma {:induction false} NumberBound(s: seq<u8>)
    ensures Number(s) < Power256(|s|)
  {
    if s != [] {
      NumberBound(s[1..]);
    }
  }

  lemma Power256Of8()
    ensures Power256(8) == U64_LIMIT
  {
    assert Power256(4) == 0x1_0000_0000;
  }

  function Read64(s: seq<u8>, at: nat): u64
    requires at + 8 <= |s|
  {
    NumberBound(s[at..at + 8]);
    Power256Of8();
    Number(s[at..at + 8])
  }

  lemma ReadBack(s: seq<u8>, at: nat, n: u64)
    requires at + 8 <= |s| && s[at..at + 8] == Le64(n)
    ensures Read64(s, at) == n
  {
    Power256Of8();
    NumberOfLe(n, 8);
  }

  /** Bitwise exclusive or on `k` bits. */
  function Xor(a: nat, b: nat, k: nat): (x: nat)
    ensures x < Power2(k)
  {
    if k == 0 then 0 else (a + b) % 2 + 2 * Xor(a / 2, b / 2, k - 1)
  }

  function Power2(k: nat): nat {
    if k == 0 then 1 else 2 * Power2(k - 1)
  }

  function Xor8(a: u8, b: u8): u8 {
    assert Power2(8) == 256;
    Xor(a, b, 8)
  }

  /** One byte through FNV-1a: exclusive-or into the low byte, multiply, keep 64 bits. */
  function Mix(hash: u64, b: u8): u64 {
    ((hash / 256 * 256 + Xor8(hash % 256, b)) * FNV_PRIME) % U64_LIMIT
  }

  function Fnv(hash: u64, bytes: seq<u8>): u64
    decreases |bytes|
  {
    if bytes == [] then hash else Mix(Fnv(hash, bytes[..|bytes| - 1]), bytes[|bytes| - 1])
  }

  lemma {:induction false} FnvConcat(hash: u64, a: seq<u8>, b: seq<u8>)
    ensures Fnv(hash, a + b) == Fnv(Fnv(hash, a), b)
    decreases |b|
  {
    if b == [] {
      assert a + b == a;
    } else {
      var t := |b| - 1;
      assert (a + b)[..|a + b| - 1] == a + b[..t];
      FnvConcat(hash, a, b[..t]);
    }
  }

  function Sealed(body: seq<u8>): seq<u8> {
    body + Le64(Fnv(FNV_SEED, body))
  }

  // ---- The image and what is staged over it

  /** An altered extent of the staged writes. */
  datatype Extent = Extent(offset: u64, data: seq<u8>)

  /** The staged writes, and the length the image has once they are applied. */
  datatype Capture = Capture(extents: seq<Extent>, len: u64)

  /** How much the session cache alters, evicts and stages at a time. */
  const EXTENT: nat := 64 * 1024

  /** What the cache stages: whole extents at their own places, in order. */
  predicate Cached(capture: Capture) {
    && (forall i | 0 <= i < |capture.extents| ::
          |capture.extents[i].data| == EXTENT && capture.extents[i].offset % EXTENT == 0)
    && (forall i, j | 0 <= i < j < |capture.extents| :: capture.extents[i].offset < capture.extents[j].offset)
  }

  /** A file written past its end is filled with zeros up to where the write begins. */
  function WriteAt(image: seq<u8>, offset: nat, data: seq<u8>): (after: seq<u8>)
    ensures |after| == if data == [] || offset + |data| <= |image| then |image| else offset + |data|
    ensures forall p | 0 <= p < |after| && offset <= p < offset + |data| :: after[p] == data[p - offset]
    ensures forall p | 0 <= p < |image| && !(offset <= p < offset + |data|) :: after[p] == image[p]
    ensures forall p | |image| <= p < |after| && p < offset :: after[p] == 0
  {
    if data == [] then image
    else
      var padded := if offset > |image| then image + seq(offset - |image|, i => 0) else image;
      if offset + |data| <= |padded| then padded[..offset] + data + padded[offset + |data|..]
      else padded[..offset] + data
  }

  /** How much of an extent there is below `len`. */
  function Take(offset: nat, data: seq<u8>, len: nat): (take: nat)
    ensures take <= |data|
  {
    if offset >= len then 0 else if len - offset < |data| then len - offset else |data|
  }

  /** The image with the first extents written through, each clamped to the staged length. */
  function Applied(image: seq<u8>, extents: seq<Extent>, len: nat): seq<u8>
    decreases |extents|
  {
    if extents == [] then image
    else
      var last := extents[|extents| - 1];
      var take := Take(last.offset, last.data, len);
      WriteAt(Applied(image, extents[..|extents| - 1], len), last.offset, last.data[..take])
  }

  // ---- The journal's bytes

  /** Bytes to put back at an offset. */
  datatype Record = Record(offset: u64, bytes: seq<u8>)

  /** The image's own bytes beneath each extent, as far as the image reaches. */
  function Originals(image: seq<u8>, extents: seq<Extent>): seq<Record>
    requires |image| < U64_LIMIT
  {
    if extents == [] then []
    else
      var first := extents[0];
      (if first.offset >= |image| then []
       else [Record(first.offset, image[first.offset..first.offset + Take(first.offset, first.data, |image|)])])
      + Originals(image, extents[1..])
  }

  function RecordBytes(r: Record): seq<u8>
    requires |r.bytes| < U64_LIMIT
  {
    Le64(r.offset) + Le64(|r.bytes|) + r.bytes
  }

  predicate Sized(records: seq<Record>) {
    forall i | 0 <= i < |records| :: |records[i].bytes| < U64_LIMIT
  }

  function RecordsBytes(records: seq<Record>): seq<u8>
    requires Sized(records)
  {
    if records == [] then [] else RecordBytes(records[0]) + RecordsBytes(records[1..])
  }

  function HeaderBytes(original: u64, len: u64, count: u64): (h: seq<u8>)
    ensures |h| == HEADER_LEN
  {
    MAGIC + Le64(original) + Le64(len) + Le64(count)
  }

  function Body(original: u64, len: u64, records: seq<Record>): seq<u8>
    requires |records| < U64_LIMIT && Sized(records)
  {
    HeaderBytes(original, len, |records|) + RecordsBytes(records)
  }

  // ---- Reading one back

  datatype Reading<+T> = Unarmed | Contradiction | Armed(value: T)

  datatype Header = Header(original: u64, len: u64, count: u64, body: nat)

  /** A short, unsealed or unmarked file was torn while it was written; one that is sealed is believed,
      and refused where it contradicts itself. */
  function Verify(file: seq<u8>): (r: Reading<Header>)
    ensures r.Armed? ==> HEADER_LEN <= r.value.body <= |file|
  {
    if |file| < HEADER_LEN + SEAL_LEN then Unarmed
    else
      var body := |file| - SEAL_LEN;
      if Fnv(FNV_SEED, file[..body]) != Read64(file, body) || file[..8] != MAGIC then Unarmed
      else if Read64(file, 16) < Read64(file, 8) then Contradiction
      else Armed(Header(Read64(file, 8), Read64(file, 16), Read64(file, 24), body))
  }

  /** The records from `at` on, if exactly `count` of them fill the body and lie within the old image. */
  function Walk(file: seq<u8>, header: Header, at: nat, count: nat): Option<seq<Record>>
    requires at <= header.body <= |file|
    decreases count
  {
    if count == 0 then (if at == header.body then Some([]) else None)
    else if header.body - at < 16 then None
    else
      var offset, length := Read64(file, at), Read64(file, at + 8);
      if length > header.body - (at + 16) || offset + length > header.original then None
      else
        match Walk(file, header, at + 16 + length, count - 1)
        case None => None
        case Some(rest) => Some([Record(offset, file[at + 16..at + 16 + length])] + rest)
  }

  function Restored(image: seq<u8>, records: seq<Record>): seq<u8>
    decreases |records|
  {
    if records == [] then image
    else
      var last := records[|records| - 1];
      WriteAt(Restored(image, records[..|records| - 1]), last.offset, last.bytes)
  }

  /** The file set to a length. */
  function SetLen(image: seq<u8>, len: nat): seq<u8> {
    if len <= |image| then image[..len] else image + seq(len - |image|, i => 0)
  }

  /** As many of the bytes as there are, up to `n`. */
  function First(bytes: seq<u8>, n: nat): seq<u8> {
    if n <= |bytes| then bytes[..n] else bytes
  }

  /** The first `k` records put back, and `upto` bytes of the next. */
  function PartlyRestored(image: seq<u8>, records: seq<Record>, k: nat, upto: nat): seq<u8> {
    if k >= |records| then Restored(image, records)
    else WriteAt(Restored(image, records[..k]), records[k].offset, First(records[k].bytes, upto))
  }

  // ---- Reconciling

  /** What a lost process leaves: the image, and the sidecar if there is one. */
  datatype Disk = Disk(image: seq<u8>, sidecar: Option<seq<u8>>)

  datatype Verdict = Reconciled | RefusedContradiction | RefusedMismatch | Interrupted

  /** Retiring empties the sidecar, flushes it and removes it. Failing to empty it or to flush it is an
      error, which a commit heeds and a reconciliation does not; failing to remove it is none. */
  datatype Retiring = Gone | Emptied | NotFlushed | Kept

  function Retired(d: Disk, retiring: Retiring): Disk {
    match retiring
    case Gone => d.(sidecar := None)
    case Emptied => d.(sidecar := Some([]))
    case NotFlushed => d.(sidecar := Some([]))
    case Kept => d
  }

  /** How far reconciling gets before the host refuses it. */
  datatype Restoring =
    | Unread                     // the sidecar cannot be read through
    | Stopped(k: nat, upto: nat) // so many records are back, and so many bytes of the next
    | Unflushed                  // the old length is set, but the flush fails
    | Whole

  /** An armed journal rolls the image back; a torn one proves it was never touched; a sealed one that
      contradicts itself or the image is refused, and nothing is written. */
  function Reconciling(d: Disk, restoring: Restoring, retiring: Retiring): (Disk, Verdict) {
    if d.sidecar.None? then (d, Reconciled)
    else if restoring.Unread? then (d, Interrupted)
    else match Verify(d.sidecar.value)
      case Unarmed => (Retired(d, retiring), Reconciled)
      case Contradiction => (d, RefusedContradiction)
      case Armed(header) =>
        if |d.image| < header.original || |d.image| > header.len then (d, RefusedMismatch)
        else match Walk(d.sidecar.value, header, HEADER_LEN, header.count)
          case None => (d, RefusedContradiction)
          case Some(records) => RollingBack(d, header, records, restoring, retiring)
  }

  function RollingBack(d: Disk, header: Header, records: seq<Record>, restoring: Restoring, retiring: Retiring)
    : (Disk, Verdict)
  {
    var back := d.(image := SetLen(Restored(d.image, records), header.original));
    match restoring
    case Unread => (d, Interrupted)
    case Stopped(k, upto) => (d.(image := PartlyRestored(d.image, records, k, upto)), Interrupted)
    case Unflushed => (back, Interrupted)
    case Whole => (Retired(back, retiring), Reconciled)
  }

  /** Reconciling with nothing in its way but the removal of the sidecar. */
  function Reconcile(d: Disk, retiring: Retiring): (Disk, Verdict) {
    Reconciling(d, Whole, retiring)
  }
}
