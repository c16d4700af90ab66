/** The commit point: record, apply, retire, and where one fails, undo. What a commit answers, what it
    leaves, and that everything it does to the disk is a run of the steps a crash may fall between. */
module Commits {
  import opened Wrappers
  import opened Journal
  import opened JournalRuns

  // ---- The commit, and what the host may refuse it

  /** Whether the journal is made durable; short of that, how much of it is written. */
  datatype Recording = Recorded | Unmade | Short(written: nat)

  /** Whether the apply is through and flushed; short of that, how many extents are written, and how many
      bytes of the next. */
  datatype Applying = Through | Partly(k: nat, upto: nat)

  /** Everything the host may refuse in one commit. `retiring` is the journal's retirement when the apply
      is through, `clearing` the one after a failure. */
  datatype Faults = Faults(
    flushed: bool, recording: Recording, applying: Applying, retiring: Retiring,
    restoring: Restoring, clearing: Retiring)

  /** A commit that fails leaves its session usable unless it could not be undone. */
  datatype Answer = Done | Failed(usable: bool)

  function PartlyApplied(image: seq<u8>, capture: Capture, k: nat, upto: nat): seq<u8> {
    if k >= |capture.extents| then After(image, capture)
    else
      var e := capture.extents[k];
      WriteAt(Applied(image, capture.extents[..k], capture.len), e.offset,
              First(e.data[..Take(e.offset, e.data, capture.len)], upto))
  }

  function ImageApplied(image: seq<u8>, capture: Capture, applying: Applying): seq<u8> {
    match applying
    case Through => After(image, capture)
    case Partly(k, upto) => PartlyApplied(image, capture, k, upto)
  }

  ghost function JournalWritten(d: Disk, capture: Capture, recording: Recording): Disk
    requires Staged(d.image, capture)
  {
    match recording
    case Recorded => d.(sidecar := Some(JournalOf(d.image, capture)))
    case Unmade => d
    case Short(written) => d.(sidecar := Some(First(JournalOf(d.image, capture), written)))
  }

  /** Retiring is an error unless the sidecar is emptied and flushed. */
  predicate Retires(retiring: Retiring) {
    retiring.Gone? || retiring.Emptied?
  }

  ghost function Commit(d: Disk, capture: Capture, faults: Faults): (Disk, Answer)
    requires Staged(d.image, capture)
  {
    var recorded := JournalWritten(d, capture, faults.recording);
    var applied := recorded.(image := ImageApplied(d.image, capture, faults.applying));
    if capture.extents == [] then (d, if faults.flushed then Done else Failed(true))
    else if !faults.recording.Recorded? then (Retired(recorded, faults.clearing), Failed(true))
    else if !faults.applying.Through? then Undone(applied, faults)
    else if !Retires(faults.retiring) then Undone(Retired(applied, faults.retiring), faults)
    else (Retired(applied, faults.retiring), Done)
  }

  function Undone(d: Disk, faults: Faults): (Disk, Answer) {
    var (after, verdict) := Reconciling(d, faults.restoring, faults.clearing);
    (after, Failed(verdict == Reconciled))
  }

  // ---- What a commit leaves

  /** The journal durable, the apply through, and the sidecar empty: from there nothing brings the old
      image back. */
  predicate Lands(faults: Faults) {
    faults.recording.Recorded? && faults.applying.Through? && !faults.retiring.Kept?
  }

  function Landed(image: seq<u8>, capture: Capture, faults: Faults): seq<u8> {
    if Lands(faults) then After(image, capture) else image
  }

  lemma {:induction false} AppliedIsTorn(before: seq<u8>, capture: Capture, k: nat)
    requires Staged(before, capture) && k <= |capture.extents|
    ensures Torn(before, capture, Applied(before, capture.extents[..k], capture.len))
  {
    if k > 0 {
      var e := capture.extents[k - 1];
      AppliedIsTorn(before, capture, k - 1);
      var image := Applied(before, capture.extents[..k - 1], capture.len);
      var take := Take(e.offset, e.data, capture.len);
      AppliedStep(before, capture, k - 1);
      ApplyingWrites(before, capture, image, k - 1, take);
    }
  }

  lemma AppliedStep(before: seq<u8>, capture: Capture, k: nat)
    requires k < |capture.extents|
    ensures var e := capture.extents[k];
      Applied(before, capture.extents[..k + 1], capture.len)
      == WriteAt(Applied(before, capture.extents[..k], capture.len), e.offset,
                 e.data[..Take(e.offset, e.data, capture.len)])
  {
    assert capture.extents[..k + 1][..k] == capture.extents[..k];
  }

  lemma PartlyAppliedIsTorn(before: seq<u8>, capture: Capture, k: nat, upto: nat)
    requires Staged(before, capture)
    ensures Torn(before, capture, PartlyApplied(before, capture, k, upto))
  {
    if k < |capture.extents| {
      var e := capture.extents[k];
      AppliedIsTorn(before, capture, k);
      FirstOfTake(e.data, Take(e.offset, e.data, capture.len), upto);
      ApplyingWrites(before, capture, Applied(before, capture.extents[..k], capture.len), k,
                     |First(e.data[..Take(e.offset, e.data, capture.len)], upto)|);
    } else {
      AllExtents(capture);
      AppliedIsTorn(before, capture, |capture.extents|);
    }
  }

  lemma AllExtents(capture: Capture)
    ensures capture.extents[..|capture.extents|] == capture.extents
  {
  }

  lemma FirstOfTake(data: seq<u8>, take: nat, upto: nat)
    requires take <= |data|
    ensures var first := First(data[..take], upto); |first| <= take && first == data[..|first|]
  {
  }

  lemma ImageAppliedIsTorn(before: seq<u8>, capture: Capture, applying: Applying)
    requires Staged(before, capture)
    ensures Torn(before, capture, ImageApplied(before, capture, applying))
  {
    match applying
    case Through => PartlyAppliedIsTorn(before, capture, |capture.extents|, 0);
    case Partly(k, upto) => PartlyAppliedIsTorn(before, capture, k, upto);
  }

  lemma EmptySettles(image: seq<u8>)
    ensures Settled(Disk(image, None)) && Settled(Disk(image, Some([]))) && Verify([]).Unarmed?
  {
  }

  /** A record that fails leaves the image untouched and settled. */
  lemma UnrecordedSettles(d: Disk, capture: Capture, faults: Faults)
    requires Settled(d) && Staged(d.image, capture)
    ensures var after := Retired(JournalWritten(d, capture, faults.recording), faults.clearing);
      after.image == d.image && Settled(after)
  {
    EmptySettles(d.image);
    var journal := JournalOf(d.image, capture);
    match faults.recording
    case Recorded => BeginningSettles(d.image, capture, journal);
    case Unmade =>
    case Short(written) => BeginningSettles(d.image, capture, First(journal, written));
  }

  /** The image is `image`, at once where the session stays usable and at the next opening where it does
      not; and the disk is settled. */
  ghost predicate Leaves(after: Disk, answer: Answer, image: seq<u8>, retiring: Retiring) {
    var (reopened, verdict) := Reconcile(after, retiring);
    && (answer != Failed(false) ==> after.image == image && Settled(after))
    && (answer == Failed(false) ==> verdict == Reconciled)
    && reopened.image == image && Settled(reopened)
  }

  lemma SettledLeaves(after: Disk, answer: Answer, retiring: Retiring)
    requires Settled(after) && answer != Failed(false)
    ensures Leaves(after, answer, after.image, retiring)
  {
    SettledStays(after, Whole, retiring);
  }

  /** Undoing from the armed journal, where it succeeds, gives the old image back; where it does not, the
      next reconciliation does. */
  lemma UndoLeaves(before: seq<u8>, capture: Capture, image: seq<u8>, faults: Faults, retiring: Retiring)
    requires Staged(before, capture) && Torn(before, capture, image)
    ensures var (after, answer) := Undone(Disk(image, Some(JournalOf(before, capture))), faults);
      answer != Done && Leaves(after, answer, before, retiring)
  {
    var start := Disk(image, Some(JournalOf(before, capture)));
    var (after, answer) := Undone(start, faults);
    UndoKeepsTorn(before, capture, image, faults);
    EmptySettles(before);
    BeginningSettles(before, capture, JournalOf(before, capture));
    if answer == Failed(true) {
      ReconcileRollsBack(before, capture, image, faults.clearing);
      SettledLeaves(after, answer, retiring);
    } else {
      ReconcileRollsBack(before, capture, after.image, retiring);
    }
  }

  /** Undoing from an emptied sidecar leaves the image as it is, and says it is undone. */
  lemma EmptiedLeaves(image: seq<u8>, faults: Faults, retiring: Retiring)
    ensures var (after, answer) := Undone(Disk(image, Some([])), faults);
      answer == Failed(!faults.restoring.Unread?) && Leaves(after, answer, image, retiring)
  {
    EmptySettles(image);
    SettledStays(Disk(image, Some([])), faults.restoring, faults.clearing);
    SettledStays(Undone(Disk(image, Some([])), faults).0, Whole, retiring);
  }

  /** However far undoing gets, the journal is there until the old image is, and the image never worse
      than torn. */
  lemma UndoKeepsTorn(before: seq<u8>, capture: Capture, image: seq<u8>, faults: Faults)
    requires Staged(before, capture) && Torn(before, capture, image)
    ensures var start := Disk(image, Some(JournalOf(before, capture)));
      var (after, verdict) := Reconciling(start, faults.restoring, faults.clearing);
      && (verdict == Reconciled <==> faults.restoring.Whole?)
      && (verdict != Reconciled ==> after.sidecar == start.sidecar && Torn(before, capture, after.image))
  {
    JournalSays(before, capture);
    RestoredWhole(before, capture, image);
    match faults.restoring
    case Stopped(k, upto) => PartlyRestoredIsTorn(before, capture, image, k, upto);
    case _ =>
  }

  lemma PartlyRestoredIsTorn(before: seq<u8>, capture: Capture, image: seq<u8>, k: nat, upto: nat)
    requires Staged(before, capture) && Torn(before, capture, image)
    ensures var partly := PartlyRestored(image, Originals(before, capture.extents), k, upto);
      && |partly| == |image| && Torn(before, capture, partly)
      && forall p | 0 <= p < |before| :: partly[p] == image[p] || partly[p] == before[p]
  {
    OriginalsAre(before, capture.extents);
    PartlyRestoredBytes(before, image, Originals(before, capture.extents), k, upto);
  }

  lemma PartlyRestoredBytes(before: seq<u8>, image: seq<u8>, records: seq<Record>, k: nat, upto: nat)
    requires |before| <= |image| && Original(before, records)
    ensures var partly := PartlyRestored(image, records, k, upto);
      && |partly| == |image|
      && forall p | 0 <= p < |image| :: partly[p] == image[p] || (p < |before| && partly[p] == before[p])
  {
    if k < |records| {
      RestoredBytes(before, image, records[..k]);
      assert FromImage(before, records[k]);
      OwnBytesOver(before, Restored(image, records[..k]), records[k], upto);
    } else {
      RestoredBytes(before, image, records);
    }
  }

  lemma OwnBytesOver(before: seq<u8>, image: seq<u8>, r: Record, upto: nat)
    requires |before| <= |image| && FromImage(before, r)
    ensures var after := WriteAt(image, r.offset, First(r.bytes, upto));
      && |after| == |image|
      && forall p | 0 <= p < |image| :: after[p] == image[p] || (p < |before| && after[p] == before[p])
  {
    assert First(r.bytes, upto) == before[r.offset..r.offset + |First(r.bytes, upto)|];
  }

  /** **What a commit leaves**: wholly the new image where it lands and wholly the old one where it does
      not, at once where the session stays usable and at the next opening where it does not; and the disk
      settled, so that the next commit may begin. An answer of `Done` means the new image. */
  lemma CommitIsWhole(d: Disk, capture: Capture, faults: Faults, retiring: Retiring)
    requires Settled(d) && Staged(d.image, capture)
    ensures var (after, answer) := Commit(d, capture, faults);
      && Leaves(after, answer, Landed(d.image, capture, faults), retiring)
      && (answer == Done ==> Landed(d.image, capture, faults) == After(d.image, capture))
  {
    var (after, answer) := Commit(d, capture, faults);
    if capture.extents == [] {
      SettledLeaves(d, answer, retiring);
    } else if !faults.recording.Recorded? {
      UnrecordedSettles(d, capture, faults);
      SettledLeaves(after, answer, retiring);
    } else if faults.applying.Through? && !faults.retiring.Kept? {
      AppliedLeaves(d, capture, faults, retiring);
    } else {
      ImageAppliedIsTorn(d.image, capture, faults.applying);
      UndoLeaves(d.image, capture, ImageApplied(d.image, capture, faults.applying), faults, retiring);
    }
  }

  /** Once the apply is through and the sidecar emptied, the image is the new one for good. */
  lemma AppliedLeaves(d: Disk, capture: Capture, faults: Faults, retiring: Retiring)
    requires Staged(d.image, capture) && capture.extents != [] && Lands(faults)
    ensures var (after, answer) := Commit(d, capture, faults);
      Leaves(after, answer, After(d.image, capture), retiring)
  {
    var image := After(d.image, capture);
    EmptySettles(image);
    if Retires(faults.retiring) {
      SettledLeaves(Commit(d, capture, faults).0, Done, retiring);
    } else {
      EmptiedLeaves(image, faults, retiring);
    }
  }

  /** A failed commit promises the old image, at once or at the next opening. **It keeps the promise
      exactly when** the apply did not get through, or the sidecar was not emptied, or there was nothing
      to change: a flush that fails after the sidecar is emptied leaves nothing to undo from. */
  lemma FailedKeepsOldIff(d: Disk, capture: Capture, faults: Faults, retiring: Retiring)
    requires Settled(d) && Staged(d.image, capture) && Commit(d, capture, faults).1.Failed?
    ensures var (after, answer) := Commit(d, capture, faults);
      var image := if answer.usable then after.image else Reconcile(after, retiring).0.image;
      image == d.image <==>
        || !(faults.recording.Recorded? && faults.applying.Through? && faults.retiring.NotFlushed?)
        || After(d.image, capture) == d.image
  {
    CommitIsWhole(d, capture, faults, retiring);
  }

  /** **Any commit may end so**: the sidecar emptied, its flush refused. The answer is an error, the session
      says it is undone, and the image is the new one. */
  lemma FailedYetLanded(d: Disk, capture: Capture)
    requires Staged(d.image, capture) && capture.extents != []
    ensures Commit(d, capture, Faults(true, Recorded, Through, NotFlushed, Whole, Gone))
         == (Disk(After(d.image, capture), None), Failed(true))
  {
    EmptySettles(After(d.image, capture));
  }

  /** One extent of the cache, written over an image just as long. */
  lemma SomeFailedYetLanded() returns (d: Disk, capture: Capture, image: seq<u8>)
    ensures Cached(capture) && Staged(d.image, capture) && Settled(d) && |d.image| == EXTENT && image != d.image
    ensures Commit(d, capture, Faults(true, Recorded, Through, NotFlushed, Whole, Gone))
         == (Disk(image, None), Failed(true))
  {
    d, image := Disk(seq(EXTENT, _ => 0), None), seq(EXTENT, _ => 1);
    capture := Capture([Extent(0, image)], EXTENT);
    OneExtentOver(d.image, image, capture);
    FailedYetLanded(d, capture);
    assert image[0] != d.image[0];
  }

  lemma OneExtentOver(before: seq<u8>, data: seq<u8>, capture: Capture)
    requires |before| == |data| == capture.len && capture.extents == [Extent(0, data)]
    ensures After(before, capture) == data
  {
    AppliedStep(before, capture, 0);
    assert capture.extents[..1] == capture.extents && data[..|data|] == data;
    assert WriteAt(before, 0, data) == data;
  }

  // ---- Any number of commits, one after another

  /** A commit that answers, and how the next opening's retirement ends where its session could not undo
      it; or one lost partway, and how the next opening's retirement ends. */
  datatype Attempt =
    | Answered(capture: Capture, faults: Faults, reopening: Retiring)
    | Lost(capture: Capture, steps: seq<Step>, left: Disk, reopening: Retiring)

  ghost function Attempted(d: Disk, a: Attempt): Disk
    requires Staged(d.image, a.capture)
  {
    match a
    case Answered(capture, faults, reopening) =>
      var (after, answer) := Commit(d, capture, faults);
      if answer == Failed(false) then Reconcile(after, reopening).0 else after
    case Lost(_, _, left, reopening) => Reconcile(left, reopening).0
  }

  /** Each commit is staged over the image as it then is, and a lost one got to `left` by its steps. */
  ghost predicate Possible(d: Disk, a: Attempt) {
    && Staged(d.image, a.capture)
    && (a.Lost? ==> Run(d.image, a.capture, d, a.steps, a.left))
  }

  ghost predicate History(d: Disk, attempts: seq<Attempt>, last: Disk)
    decreases |attempts|
  {
    if attempts == [] then d == last
    else Possible(d, attempts[0]) && History(Attempted(d, attempts[0]), attempts[1..], last)
  }

  ghost predicate Counts(image: seq<u8>, a: Attempt) {
    match a
    case Answered(_, faults, _) => Lands(faults)
    case Lost(capture, _, left, _) => Committed(image, capture, left)
  }

  /** The captures that landed, applied to the image in order. */
  ghost function AllLanded(image: seq<u8>, attempts: seq<Attempt>): seq<u8>
    decreases |attempts|
  {
    if attempts == [] then image
    else AllLanded(if Counts(image, attempts[0]) then After(image, attempts[0].capture) else image, attempts[1..])
  }

  /** What a crash leaves is settled once it is reconciled, even where reconciling refuses it. */
  lemma FoundSettles(start: Disk, capture: Capture, d: Disk, retiring: Retiring)
    requires Settled(start) && Staged(start.image, capture) && Found(start, capture, d)
    ensures Settled(Reconcile(d, retiring).0)
  {
    var journal := JournalOf(start.image, capture);
    EmptySettles(d.image);
    BeginningSettles(start.image, capture, journal);
    if d.sidecar == Some(journal) {
      ReconcileRollsBack(start.image, capture, d.image, retiring);
      EmptySettles(start.image);
    } else {
      if d.sidecar.Some? && d.image == start.image && d.sidecar.value <= journal {
        BeginningSettles(start.image, capture, d.sidecar.value);
      }
      SettledStays(d, Whole, retiring);
    }
  }

  lemma AttemptIsWhole(d: Disk, a: Attempt)
    requires Settled(d) && Possible(d, a)
    ensures var after := Attempted(d, a);
      Settled(after) && after.image == if Counts(d.image, a) then After(d.image, a.capture) else d.image
  {
    match a
    case Answered(capture, faults, reopening) => CommitIsWhole(d, capture, faults, reopening);
    case Lost(capture, steps, left, reopening) =>
      CrashAtomic(d, capture, steps, left, reopening);
      RunKeepsFound(d, capture, d, steps, left);
      FoundSettles(d, capture, left, reopening);
  }

  /** **Any number of commits, failing however they do and lost wherever they are**: the image is the first
      one with the captures that landed applied to it, whole and in order, and no byte of any other. */
  lemma {:induction false} HistoryIsWhole(d: Disk, attempts: seq<Attempt>, last: Disk)
    requires Settled(d) && History(d, attempts, last)
    ensures last.image == AllLanded(d.image, attempts) && Settled(last)
    decreases |attempts|
  {
    if attempts != [] {
      AttemptIsWhole(d, attempts[0]);
      HistoryIsWhole(Attempted(d, attempts[0]), attempts[1..], last);
    }
  }

  // ---- Everything a commit does to the disk is a run

  lemma {:induction false} RunsJoin(before: seq<u8>, capture: Capture, a: Disk, first: seq<Step>, b: Disk,
                                    second: seq<Step>, c: Disk)
    requires Staged(before, capture) && Run(before, capture, a, first, b) && Run(before, capture, b, second, c)
    ensures Run(before, capture, a, first + second, c)
    decreases |first|
  {
    SplitFirst(first, second);
    if first != [] {
      RunsJoin(before, capture, Next(before, capture, a, first[0]), first[1..], b, second, c);
      StepFirst(before, capture, a, first[0], first[1..] + second, c);
    }
  }

  lemma SplitFirst(first: seq<Step>, second: seq<Step>)
    ensures first + second == if first == [] then second else [first[0]] + (first[1..] + second)
  {
  }

  lemma StepFirst(before: seq<u8>, capture: Capture, d: Disk, step: Step, rest: seq<Step>, last: Disk)
    requires Staged(before, capture) && Enabled(before, capture, d, step)
    requires Run(before, capture, Next(before, capture, d, step), rest, last)
    ensures Run(before, capture, d, [step] + rest, last)
  {
    assert ([step] + rest)[1..] == rest;
  }

  lemma OneStep(before: seq<u8>, capture: Capture, d: Disk, step: Step)
    requires Staged(before, capture) && Enabled(before, capture, d, step)
    ensures Run(before, capture, d, [step], Next(before, capture, d, step))
  {
    assert [step][1..] == [];
  }

  lemma StepMore(before: seq<u8>, capture: Capture, a: Disk, steps: seq<Step>, b: Disk, step: Step)
    requires Staged(before, capture) && Run(before, capture, a, steps, b) && Enabled(before, capture, b, step)
    ensures Run(before, capture, a, steps + [step], Next(before, capture, b, step))
  {
    OneStep(before, capture, b, step);
    RunsJoin(before, capture, a, steps, b, [step], Next(before, capture, b, step));
  }

  /** Recording, as far as any byte of the journal. */
  lemma RecordingRuns(d: Disk, capture: Capture, recording: Recording) returns (steps: seq<Step>)
    requires Staged(d.image, capture)
    ensures Run(d.image, capture, d, steps, JournalWritten(d, capture, recording))
  {
    var journal := JournalOf(d.image, capture);
    if recording.Unmade? {
      steps := [];
    } else {
      var upto := if recording.Recorded? || recording.written > |journal| then |journal| else recording.written;
      OneStep(d.image, capture, d, Create);
      StepMore(d.image, capture, d, [Create], d.(sidecar := Some([])), Append(upto));
      assert journal[..|journal|] == journal;
      steps := [Create] + [Append(upto)];
    }
  }

  /** Writing the first `k` extents whole, in order, one `Write` each. */
  lemma {:induction false} AppliedRuns(before: seq<u8>, capture: Capture, k: nat) returns (steps: seq<Step>)
    requires Staged(before, capture) && k <= |capture.extents|
    ensures var journal := Some(JournalOf(before, capture));
      Run(before, capture, Disk(before, journal), steps,
          Disk(Applied(before, capture.extents[..k], capture.len), journal))
  {
    steps := [];
    if k > 0 {
      var journal := Some(JournalOf(before, capture));
      var e := capture.extents[k - 1];
      var image := Applied(before, capture.extents[..k - 1], capture.len);
      var take := Take(e.offset, e.data, capture.len);
      var fewer := AppliedRuns(before, capture, k - 1);
      AppliedIsTorn(before, capture, k - 1);
      ApplyingWrites(before, capture, image, k - 1, take);
      AppliedStep(before, capture, k - 1);
      var write := Write(WriteAt(image, e.offset, e.data[..take]));
      StepMore(before, capture, Disk(before, journal), fewer, Disk(image, journal), write);
      steps := fewer + [write];
    }
  }

  /** Applying, as far as any byte of any extent. */
  lemma PartlyAppliedRuns(before: seq<u8>, capture: Capture, k: nat, upto: nat) returns (steps: seq<Step>)
    requires Staged(before, capture)
    ensures var journal := Some(JournalOf(before, capture));
      Run(before, capture, Disk(before, journal), steps, Disk(PartlyApplied(before, capture, k, upto), journal))
  {
    if k >= |capture.extents| {
      AllExtents(capture);
      steps := AppliedRuns(before, capture, |capture.extents|);
    } else {
      var journal, e := Some(JournalOf(before, capture)), capture.extents[k];
      var image := Applied(before, capture.extents[..k], capture.len);
      var first := First(e.data[..Take(e.offset, e.data, capture.len)], upto);
      var fewer := AppliedRuns(before, capture, k);
      AppliedIsTorn(before, capture, k);
      FirstOfTake(e.data, Take(e.offset, e.data, capture.len), upto);
      ApplyingWrites(before, capture, image, k, |first|);
      StepMore(before, capture, Disk(before, journal), fewer, Disk(image, journal),
               Write(WriteAt(image, e.offset, first)));
      steps := fewer + [Write(WriteAt(image, e.offset, first))];
    }
  }

  lemma ImageAppliedRuns(before: seq<u8>, capture: Capture, applying: Applying) returns (steps: seq<Step>)
    requires Staged(before, capture)
    ensures var journal := Some(JournalOf(before, capture));
      Run(before, capture, Disk(before, journal), steps, Disk(ImageApplied(before, capture, applying), journal))
  {
    match applying
    case Through => steps := PartlyAppliedRuns(before, capture, |capture.extents|, 0);
    case Partly(k, upto) => steps := PartlyAppliedRuns(before, capture, k, upto);
  }

  /** Putting the original bytes back, as far as any byte of any record, is a run; and so is setting the
      length, once they are all back. */
  lemma PuttingBackRuns(before: seq<u8>, capture: Capture, image: seq<u8>, restoring: Restoring)
    returns (steps: seq<Step>)
    requires Staged(before, capture) && Torn(before, capture, image)
    ensures var journal, records := Some(JournalOf(before, capture)), Originals(before, capture.extents);
      Run(before, capture, Disk(image, journal), steps,
          match restoring
          case Unread => Disk(image, journal)
          case Stopped(k, upto) => Disk(PartlyRestored(image, records, k, upto), journal)
          case Unflushed => Disk(before, journal)
          case Whole => Disk(before, journal))
  {
    var journal, records := Some(JournalOf(before, capture)), Originals(before, capture.extents);
    var start := Disk(image, journal);
    if restoring.Unread? {
      steps := [];
    } else if restoring.Stopped? {
      var partly := PartlyRestored(image, records, restoring.k, restoring.upto);
      PartlyRestoredIsTorn(before, capture, image, restoring.k, restoring.upto);
      OneStep(before, capture, start, Restore(partly));
      steps := [Restore(partly)];
    } else {
      var restored := Restored(image, records);
      PartlyRestoredIsTorn(before, capture, image, |records|, 0);
      RestoredWhole(before, capture, image);
      OneStep(before, capture, start, Restore(restored));
      StepMore(before, capture, start, [Restore(restored)], Disk(restored, journal), Cut);
      steps := [Restore(restored)] + [Cut];
    }
  }

  /** **Reconciling whatever a crash left is a run**, however far it gets and however it retires the
      sidecar. */
  lemma ReconcilingRuns(start: Disk, capture: Capture, d: Disk, restoring: Restoring, retiring: Retiring)
    returns (steps: seq<Step>)
    requires Settled(start) && Staged(start.image, capture) && Found(start, capture, d)
    ensures Run(start.image, capture, d, steps, Reconciling(d, restoring, retiring).0)
  {
    var after := Reconciling(d, restoring, retiring).0;
    if d.sidecar == Some(JournalOf(start.image, capture)) {
      steps := RollingBackRuns(start.image, capture, d.image, restoring, retiring);
    } else if after == d {
      steps := [];
    } else if d.image == start.image {
      UntouchedStays(start, capture, d, restoring, retiring);
      OneStep(start.image, capture, d, Abandon(retiring));
      steps := [Abandon(retiring)];
    } else {
      EmptySettles(d.image);
      UnarmedIff([]);
      OneStep(start.image, capture, d, Discard(retiring));
      steps := [Discard(retiring)];
    }
  }

  lemma UntouchedStays(start: Disk, capture: Capture, d: Disk, restoring: Restoring, retiring: Retiring)
    requires Settled(start) && Staged(start.image, capture) && Found(start, capture, d) && d.image == start.image
    ensures var after := Reconciling(d, restoring, retiring).0; after == d || after == Retired(d, retiring)
  {
    EmptySettles(d.image);
    if d.sidecar.Some? && d.sidecar.value <= JournalOf(start.image, capture) {
      BeginningSettles(start.image, capture, d.sidecar.value);
    }
    SettledStays(d, restoring, retiring);
  }

  lemma RollingBackRuns(before: seq<u8>, capture: Capture, image: seq<u8>, restoring: Restoring, retiring: Retiring)
    returns (steps: seq<Step>)
    requires Staged(before, capture) && Torn(before, capture, image)
    ensures var d := Disk(image, Some(JournalOf(before, capture)));
      Run(before, capture, d, steps, Reconciling(d, restoring, retiring).0)
  {
    var d := Disk(image, Some(JournalOf(before, capture)));
    steps := PuttingBackRuns(before, capture, image, restoring);
    JournalSays(before, capture);
    RestoredWhole(before, capture, image);
    if restoring.Whole? {
      StepMore(before, capture, d, steps, d.(image := before), Drop(retiring));
      steps := steps + [Drop(retiring)];
    }
  }

  /** **The commit is a run of the steps a crash may fall between**, however it goes: so `CrashAtomic`
      speaks of every disk its recording, its applying, its retirement and its undoing pass through. */
  lemma CommitRuns(d: Disk, capture: Capture, faults: Faults) returns (steps: seq<Step>)
    requires Settled(d) && Staged(d.image, capture)
    ensures Run(d.image, capture, d, steps, Commit(d, capture, faults).0)
  {
    if capture.extents == [] {
      steps := [];
      return;
    }
    steps := RecordingRuns(d, capture, faults.recording);
    var recorded := JournalWritten(d, capture, faults.recording);
    if !faults.recording.Recorded? {
      var more := ClearingRuns(d, capture, recorded, faults.clearing);
      RunsJoin(d.image, capture, d, steps, recorded, more, Retired(recorded, faults.clearing));
      steps := steps + more;
    } else {
      var more := AppliedOnRuns(d, capture, faults);
      RunsJoin(d.image, capture, d, steps, recorded, more, Commit(d, capture, faults).0);
      steps := steps + more;
    }
  }

  /** Clearing away what recording left, which makes a sidecar where there was none. */
  lemma ClearingRuns(start: Disk, capture: Capture, d: Disk, clearing: Retiring) returns (steps: seq<Step>)
    requires Staged(start.image, capture) && d.image == start.image
    ensures Run(start.image, capture, d, steps, Retired(d, clearing))
  {
    if Retired(d, clearing) == d {
      steps := [];
    } else {
      var step := if d.sidecar.Some? then Abandon(clearing) else Create;
      OneStep(start.image, capture, d, step);
      steps := [step];
    }
  }

  /** From the armed journal on. */
  lemma AppliedOnRuns(d: Disk, capture: Capture, faults: Faults) returns (steps: seq<Step>)
    requires Settled(d) && Staged(d.image, capture) && capture.extents != [] && faults.recording.Recorded?
    ensures Run(d.image, capture, JournalWritten(d, capture, Recorded), steps, Commit(d, capture, faults).0)
  {
    var before, recorded := d.image, JournalWritten(d, capture, Recorded);
    var applied := recorded.(image := ImageApplied(before, capture, faults.applying));
    ImageAppliedIsTorn(before, capture, faults.applying);
    steps := ImageAppliedRuns(before, capture, faults.applying);
    var reached := applied;
    if faults.applying.Through? {
      reached := Retired(applied, faults.retiring);
      StepMore(before, capture, recorded, steps, applied, Step.Retire(faults.retiring));
      steps := steps + [Step.Retire(faults.retiring)];
    }
    if Commit(d, capture, faults).1 != Done {
      var more := ReconcilingRuns(d, capture, reached, faults.restoring, faults.clearing);
      RunsJoin(before, capture, recorded, steps, reached, more, Commit(d, capture, faults).0);
      steps := steps + more;
    }
  }
}
