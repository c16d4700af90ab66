/** What each door answers and leaves, and how long what it keeps stays open. */
module DoorAnswers {
  import opened Wrappers
  import opened Doors

  // ---- Each door

  /** What the two file doors check first, in their order; what they read afterwards is the sources. */
  predicate Heard(request: Request) {
    request.session && request.format && request.declared
  }

  lemma FirstRefusals(request: Request, outcome: Outcome, missing: bool, invalid: bool)
    requires Refusing(request, missing, invalid).Some? ==> outcome == Refused(Refusing(request, missing, invalid).value)
    requires Refusing(request, missing, invalid).None? ==> outcome.Loaded? || outcome.why == CoreRefused
    ensures outcome == Refused(NullSession) <==> !request.session
    ensures outcome == Refused(NullFormat) <==> request.session && !request.format
    ensures outcome == Refused(Undeclared) <==> request.session && request.format && !request.declared
    ensures outcome == Refused(NullSources) <==> Heard(request) && missing
    ensures outcome == Refused(NotOpen) <==> Heard(request) && !missing && invalid
  {
  }

  /** **One file**: refused for the first fault there is, nothing touched; refused by the core, closed; loaded, its
      handle is kept open under the identity answered, and none is closed. */
  lemma MediaAnswers(b: Books, request: Request, source: Handle)
    ensures var (after, outcome) := MediaLoaded(b, request, source);
      var bad := source == 0 || source == -1;
      && (outcome == Refused(NullSession) <==> !request.session)
      && (outcome == Refused(NullFormat) <==> request.session && !request.format)
      && (outcome == Refused(Undeclared) <==> request.session && request.format && !request.declared)
      && (outcome == Refused(NotOpen) <==> Heard(request) && bad)
      && (!Heard(request) || bad ==> outcome.Refused? && after == b)
      && (Heard(request) && !bad && !request.accepted ==>
            outcome == Refused(CoreRefused) && after == b.(open := b.open - {source}, closed := b.closed + [source]))
      && (Heard(request) && !bad && request.accepted ==>
            outcome == Loaded(b.next) && after.closed == b.closed
            && after == b.(open := b.open - {source}, held := b.held + [Kept(b.next, [source])], next := b.next + 1))
  {
    var outcome := MediaLoaded(b, request, source).1;
    FirstRefusals(request, outcome, false, Invalid(source));
    assert Named([source]) == {source};
  }

  /** **Many files**: the same, for all of them together. */
  lemma CollectionAnswers(b: Books, request: Request, sources: Array)
    requires WellFormed(sources)
    ensures var (after, outcome) := CollectionLoaded(b, request, sources);
      var raw := if sources.pointer == None then [] else sources.pointer.value[..sources.count];
      var missing := sources.pointer == None && sources.count > 0;
      var bad := exists i :: 0 <= i < |raw| && (raw[i] == 0 || raw[i] == -1);
      && (outcome == Refused(NullSession) <==> !request.session)
      && (outcome == Refused(NullFormat) <==> request.session && !request.format)
      && (outcome == Refused(Undeclared) <==> request.session && request.format && !request.declared)
      && (outcome == Refused(NullSources) <==> Heard(request) && missing)
      && (outcome == Refused(NotOpen) <==> Heard(request) && !missing && bad)
      && (!Heard(request) || missing || bad ==> outcome.Refused? && after == b)
      && (Heard(request) && !missing && !bad && !request.accepted ==>
            outcome == Refused(CoreRefused) && after == b.(open := b.open - Named(raw), closed := b.closed + raw))
      && (Heard(request) && !missing && !bad && request.accepted ==>
            outcome == Loaded(b.next) && after.closed == b.closed
            && after == b.(open := b.open - Named(raw), held := b.held + [Kept(b.next, raw)], next := b.next + 1))
  {
    var raw, outcome := Members(sources), CollectionLoaded(b, request, sources).1;
    AnyInvalidIff(raw);
    FirstRefusals(request, outcome, sources.pointer.None? && sources.count > 0, AnyInvalid(raw));
  }

  lemma AnyInvalidIff(raw: seq<Handle>)
    ensures AnyInvalid(raw) <==> exists i :: 0 <= i < |raw| && (raw[i] == 0 || raw[i] == -1)
  {
    if i: int :| 0 <= i < |raw| && (raw[i] == 0 || raw[i] == -1) {
      assert Invalid(raw[i]);
    }
  }

  /** **A discovery or a source**: whatever it is answered it is consumed, but for a null one, which is refused
      before anything is read; loaded, it rides no handle, and none is opened or closed. */
  lemma BoxAnswers(b: Books, door: Door, request: Request, box: Option<Box>)
    ensures var (after, outcome) := BoxLoaded(b, door, request, box);
      var heard := request.session && match door {
        case Declared => request.format && request.declared
        case Plain => true
        case WithDevice(given, known) => given && known
      };
      && (outcome == Refused(NullBox) <==> box == None)
      && (outcome == Refused(NullSession) <==> box != None && !request.session)
      && (box == None ==> after == b)
      && (box != None ==> after.boxes == b.boxes - {box.value} && after.consumed == b.consumed + [box.value])
      && (outcome.Loaded? <==> box != None && heard && request.accepted)
      && (outcome == Refused(CoreRefused) <==> box != None && heard && !request.accepted)
      && (outcome.Loaded? ==>
            outcome.id == b.next && after.held == b.held + [Kept(b.next, [])] && after.next == b.next + 1)
      && (outcome.Refused? ==> after.held == b.held && after.next == b.next)
      && after.open == b.open && after.closed == b.closed
  {
  }

  /** And which of the other refusals it is. */
  lemma BoxRefusals(b: Books, door: Door, request: Request, box: Box)
    requires request.session
    ensures var outcome := BoxLoaded(b, door, request, Some(box)).1;
      match door
      case Declared =>
        && (outcome == Refused(NullFormat) <==> !request.format)
        && (outcome == Refused(Undeclared) <==> request.format && !request.declared)
      case Plain => outcome.Loaded? || outcome == Refused(CoreRefused)
      case WithDevice(given, known) =>
        && (outcome == Refused(NullDevice) <==> !given)
        && (outcome == Refused(UnknownDevice) <==> given && !known)
  {
  }

  // ---- What a release closes

  /** Media are kept in the order they were loaded, each under an identity of its own. */
  ghost predicate Ordered(b: Books) {
    && (forall i, j | 0 <= i < j < |b.held| :: b.held[i].id < b.held[j].id)
    && (forall i | 0 <= i < |b.held| :: b.held[i].id < b.next)
  }

  lemma {:induction false} ReleasedIs(held: seq<Kept>, at: nat)
    requires at < |held| && forall i, j | 0 <= i < j < |held| :: held[i].id < held[j].id
    ensures Released(held, held[at].id) == (held[..at] + held[at + 1..], held[at].files)
  {
    if at == 0 {
      assert held[..0] + held[1..] == held[1..];
    } else {
      var rest := held[1..];
      ReleasedIs(rest, at - 1);
      RestWithout(held, rest, at);
    }
  }

  lemma RestWithout(held: seq<Kept>, rest: seq<Kept>, at: nat)
    requires 0 < at < |held| && rest == held[1..]
    ensures rest[at - 1] == held[at]
    ensures [held[0]] + (rest[..at - 1] + rest[at..]) == held[..at] + held[at + 1..]
  {
    assert rest[at..] == held[at + 1..] && held[..at] == [held[0]] + rest[..at - 1];
  }

  lemma {:induction false} ReleasedNone(held: seq<Kept>, id: MediaId)
    requires forall i | 0 <= i < |held| :: held[i].id != id
    ensures Released(held, id) == (held, [])
  {
    if held != [] {
      ReleasedNone(held[1..], id);
      assert held == [held[0]] + held[1..];
    }
  }

  lemma StepKeepsOrdered(b: Books, step: Step)
    requires Ordered(b) && Enabled(b, step)
    ensures Ordered(Next(b, step)) && b.next <= Next(b, step).next
  {
    if step.Release? {
      if at: nat :| at < |b.held| && b.held[at].id == step.id {
        ReleasedIs(b.held, at);
      } else {
        ReleasedNone(b.held, step.id);
      }
    }
  }

  lemma {:induction false} RunKeepsOrdered(b: Books, steps: seq<Step>, last: Books)
    requires Ordered(b) && Run(b, steps, last)
    ensures Ordered(last) && b.next <= last.next
    decreases |steps|
  {
    if steps != [] {
      StepKeepsOrdered(b, steps[0]);
      RunKeepsOrdered(Next(b, steps[0]), steps[1..], last);
    }
  }

  /** **Releasing a medium closes exactly the files it keeps**, in order, and no other medium loses any. */
  lemma ReleaseCloses(b: Books, kept: Kept)
    requires Ordered(b) && kept in b.held
    ensures var after := Next(b, Release(kept.id));
      && after == b.(held := after.held, closed := b.closed + kept.files) && |after.held| == |b.held| - 1
      && (forall k: Kept | k.id != kept.id :: k in after.held <==> k in b.held)
      && (forall k <- after.held :: k.id != kept.id)
  {
    var at :| 0 <= at < |b.held| && b.held[at] == kept;
    ReleaseClosesAt(b, at);
  }

  /** And releasing an identity that is not kept closes none. */
  lemma ReleaseOfNone(b: Books, id: MediaId)
    requires forall k <- b.held :: k.id != id
    ensures Next(b, Release(id)) == b
  {
    ReleasedNone(b.held, id);
  }

  lemma ReleaseClosesAt(b: Books, at: nat)
    requires Ordered(b) && at < |b.held|
    ensures var id := b.held[at].id; var after := Next(b, Release(id));
      && after == b.(held := after.held, closed := b.closed + b.held[at].files) && |after.held| == |b.held| - 1
      && (forall k <- b.held :: k.id == id ==> k == b.held[at])
      && (forall k: Kept | k.id != id :: k in after.held <==> k in b.held)
      && (forall k <- after.held :: k.id != id)
  {
    ReleasedIs(b.held, at);
    WithoutOne(b.held, at);
  }

  lemma WithoutOne(held: seq<Kept>, at: nat)
    requires at < |held| && forall i, j | 0 <= i < j < |held| :: held[i].id < held[j].id
    ensures var rest := held[..at] + held[at + 1..];
      && (forall k: Kept | k.id != held[at].id :: k in rest <==> k in held)
      && (forall k <- rest :: k.id != held[at].id)
      && (forall k <- held :: k.id == held[at].id ==> k == held[at])
  {
    var rest := held[..at] + held[at + 1..];
    forall k: Kept | k.id != held[at].id && k in held
      ensures k in rest
    {
      var i :| 0 <= i < |held| && held[i] == k;
      assert rest[if i < at then i else i - 1] == k;
    }
  }

  /** Freeing the session closes every file of every medium, medium by medium. */
  lemma FreeCloses(b: Books)
    ensures var after := Next(b, Free);
      && after.held == [] && b.closed <= after.closed && after.open == b.open
      && multiset(after.closed) == multiset(b.closed) + Held(b.held)
  {
    AllFilesAre(b.held);
  }

  /** No other step closes what is kept: what it closes was the caller's. */
  lemma StepCloses(b: Books, step: Step)
    requires Enabled(b, step) && !step.Release? && !step.Free?
    ensures b.held <= Next(b, step).held && b.closed <= Next(b, step).closed
    ensures forall i | |b.closed| <= i < |Next(b, step).closed| :: Next(b, step).closed[i] in b.open
  {
    if step.Collection? {
      forall h <- Members(step.sources) | !AnyInvalid(Members(step.sources))
        ensures h in b.open
      {
        var i :| 0 <= i < |Members(step.sources)| && Members(step.sources)[i] == h;
      }
    }
  }

  // ---- How long

  lemma {:induction false} KeptUntilReleased(b: Books, steps: seq<Step>, last: Books, kept: Kept)
    requires Ordered(b) && Run(b, steps, last) && kept in b.held
    requires forall i | 0 <= i < |steps| :: steps[i] != Release(kept.id) && steps[i] != Free
    ensures kept in last.held
    decreases |steps|
  {
    if steps != [] {
      StepKeepsOrdered(b, steps[0]);
      StepLeavesKept(b, steps[0], kept);
      KeptUntilReleased(Next(b, steps[0]), steps[1..], last, kept);
    }
  }

  lemma StepLeavesKept(b: Books, step: Step, kept: Kept)
    requires Ordered(b) && Enabled(b, step) && kept in b.held && step != Release(kept.id) && step != Free
    ensures kept in Next(b, step).held
  {
    if step.Release? {
      if other :| other in b.held && other.id == step.id {
        ReleaseCloses(b, other);
      } else {
        ReleaseOfNone(b, step.id);
      }
    } else {
      StepCloses(b, step);
      var i :| 0 <= i < |b.held| && b.held[i] == kept;
      assert Next(b, step).held[i] == kept;
    }
  }

  lemma {:induction false} RunsJoin(a: Books, first: seq<Step>, b: Books, second: seq<Step>, c: Books)
    requires Run(a, first, b) && Run(b, second, c)
    ensures Run(a, first + second, c)
    decreases |first|
  {
    if first == [] {
      assert first + second == second;
    } else {
      RunsJoin(Next(a, first[0]), first[1..], b, second, c);
      assert (first + second)[1..] == first[1..] + second;
    }
  }

  lemma {:induction false} HeldHas(held: seq<Kept>, kept: Kept, h: Handle)
    requires kept in held && h in kept.files
    ensures Held(held)[h] >= 1
  {
    if held[0] == kept {
      assert multiset(kept.files)[h] >= 1;
    } else {
      HeldHas(held[1..], kept, h);
    }
  }

  /** **What a medium keeps is open, and the library's, for as long as it is kept**: from the load that answered with
      it, whatever else is called, until it is released or the session freed; where no call named a handle twice. */
  lemma KeptIsOpen(steps: seq<Step>, b: Books, more: seq<Step>, last: Books, kept: Kept, h: Handle)
    requires Run(EMPTY, steps, b) && Run(b, more, last) && NoneDoubles(steps + more)
    requires kept in b.held && h in kept.files
    requires forall i | 0 <= i < |more| :: more[i] != Release(kept.id) && more[i] != Free
    ensures kept in last.held && h in last.handles && h !in last.closed && h !in last.open
  {
    RunKeepsOrdered(EMPTY, steps, b);
    KeptUntilReleased(b, more, last, kept);
    RunsJoin(EMPTY, steps, b, more, last);
    HandlesHaveOneOwnerIff(steps + more, last);
    HeldHas(last.held, kept, h);
    assert Places(last)[h] <= 1;
    assert multiset(last.closed)[h] == 0 && multiset(last.open)[h] == 0;
  }

  /** And then it is closed, once: by the release, which closes what that medium keeps and nothing else. */
  lemma ReleasedOnce(steps: seq<Step>, b: Books, kept: Kept, h: Handle)
    requires Run(EMPTY, steps, b) && NoneDoubles(steps) && kept in b.held && h in kept.files
    ensures var after := Next(b, Release(kept.id));
      multiset(after.closed)[h] == 1 && after.closed == b.closed + kept.files && h !in after.open
  {
    RunKeepsOrdered(EMPTY, steps, b);
    ReleaseCloses(b, kept);
    HandlesHaveOneOwnerIff(steps, b);
    OnceInFiles(b, kept, h);
  }

  lemma OnceInFiles(b: Books, kept: Kept, h: Handle)
    requires OneOwnerEach(b) && kept in b.held && h in kept.files
    ensures multiset(kept.files)[h] == 1 && multiset(b.closed)[h] == 0 && h !in b.open
  {
    FilesWithin(b.held, kept);
    assert multiset(kept.files)[h] >= 1;
    assert Places(b)[h] <= 1;
    assert multiset(b.open)[h] == 0;
  }

  lemma {:induction false} FilesWithin(held: seq<Kept>, kept: Kept)
    requires kept in held
    ensures multiset(kept.files) <= Held(held)
  {
    if held[0] != kept {
      FilesWithin(held[1..], kept);
    }
  }
}
