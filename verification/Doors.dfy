/** The load doors across the C surface, and who owns what a caller hands them: the operating system's
    file handles, and the boxed discoveries, file sources and source lists. A handle here is one opening
    of a file, so no two openings share one. */
module Doors {
  import opened Wrappers

  type Handle = int
  type Box = nat
  type MediaId = nat

  datatype Refusal =
    | NullSession | NullFormat | Undeclared | NullSources | NotOpen
    | NullBox | NullDevice | UnknownDevice
    | CoreRefused

  datatype Outcome = Loaded(id: MediaId) | Refused(why: Refusal)

  /** A pooled medium and the files it keeps until it is released. */
  datatype Kept = Kept(id: MediaId, files: seq<Handle>)

  /** What the caller has open and in hand, what the library keeps and has closed, what boxes it has
      consumed, and everything that was ever opened or boxed. */
  datatype Books = Books(
    open: set<Handle>, held: seq<Kept>, closed: seq<Handle>, handles: set<Handle>,
    boxes: set<Box>, consumed: seq<Box>, minted: set<Box>,
    next: MediaId)

  const EMPTY := Books({}, [], [], {}, {}, [], {}, 0)

  /** What a door is told besides its source: whether the session and format are given, whether the
      format's declaration stands, and whether the core takes what it is given. */
  datatype Request = Request(session: bool, format: bool, declared: bool, accepted: bool)

  /** An address and a count, as C passes an array. */
  datatype Array = Array(pointer: Option<seq<Handle>>, count: nat)

  predicate WellFormed(sources: Array) {
    sources.pointer.Some? ==> sources.count <= |sources.pointer.value|
  }

  function Members(sources: Array): seq<Handle>
    requires WellFormed(sources)
  {
    if sources.pointer.None? then [] else sources.pointer.value[..sources.count]
  }

  function Named(raw: seq<Handle>): set<Handle> {
    set h | h in raw
  }

  /** The two values no open file has. */
  predicate Invalid(h: Handle) {
    h == 0 || h == -1
  }

  predicate AnyInvalid(raw: seq<Handle>) {
    exists i :: 0 <= i < |raw| && Invalid(raw[i])
  }

  /** Which refusal a declared load meets before any handle is adopted, if it meets one. */
  function Refusing(request: Request, missing: bool, invalid: bool): Option<Refusal> {
    if !request.session then Some(NullSession)
    else if !request.format then Some(NullFormat)
    else if !request.declared then Some(Undeclared)
    else if missing then Some(NullSources)
    else if invalid then Some(NotOpen)
    else None
  }

  /** Adopting makes each handle a file of the library's: kept by the medium, or closed with the refusal. */
  function Adopted(b: Books, raw: seq<Handle>, accepted: bool): (Books, Outcome) {
    var taken := b.(open := b.open - Named(raw));
    if accepted then (taken.(held := b.held + [Kept(b.next, raw)], next := b.next + 1), Loaded(b.next))
    else (taken.(closed := b.closed + raw), Refused(CoreRefused))
  }

  function MediaLoaded(b: Books, request: Request, source: Handle): (Books, Outcome) {
    match Refusing(request, false, Invalid(source))
    case Some(why) => (b, Refused(why))
    case None => Adopted(b, [source], request.accepted)
  }

  function CollectionLoaded(b: Books, request: Request, sources: Array): (Books, Outcome)
    requires WellFormed(sources)
  {
    match Refusing(request, sources.pointer.None? && sources.count > 0, AnyInvalid(Members(sources)))
    case Some(why) => (b, Refused(why))
    case None => Adopted(b, Members(sources), request.accepted)
  }

  /** The doors that take a box: the declared ones, the plain discovery and the discovery with a device. */
  datatype Door = Declared | Plain | WithDevice(given: bool, known: bool)

  function DoorRefusing(door: Door, request: Request): Option<Refusal> {
    if !request.session then Some(NullSession)
    else match door
      case Declared =>
        if !request.format then Some(NullFormat) else if !request.declared then Some(Undeclared) else None
      case Plain => None
      case WithDevice(given, known) => if !given then Some(NullDevice) else if !known then Some(UnknownDevice) else None
  }

  /** The box is taken before anything can fail; what was in it rides no handle of the caller's. */
  function BoxLoaded(b: Books, door: Door, request: Request, box: Option<Box>): (Books, Outcome) {
    if box.None? then (b, Refused(NullBox))
    else
      var taken := b.(boxes := b.boxes - {box.value}, consumed := b.consumed + [box.value]);
      match DoorRefusing(door, request)
      case Some(why) => (taken, Refused(why))
      case None =>
        if request.accepted then
          (taken.(held := b.held + [Kept(b.next, [])], next := b.next + 1), Loaded(b.next))
        else (taken, Refused(CoreRefused))
  }

  /** Closes every file the medium kept. */
  function Released(held: seq<Kept>, id: MediaId): (seq<Kept>, seq<Handle>) {
    if held == [] then ([], [])
    else if held[0].id == id then (held[1..], held[0].files)
    else
      var (rest, files) := Released(held[1..], id);
      ([held[0]] + rest, files)
  }

  /** Closes every file of every medium, as the session is freed. */
  function AllFiles(held: seq<Kept>): seq<Handle> {
    if held == [] then [] else held[0].files + AllFiles(held[1..])
  }

  datatype Step =
    | Open(h: Handle)      // the caller opens a file
    | Close(h: Handle)     // the caller closes one it still has
    | Mint(box: Box)       // a discovery or a source is handed out
    | Drop(box: Box)       // the caller frees one it still has
    | Media(request: Request, source: Handle)
    | Collection(request: Request, sources: Array)
    | Through(door: Door, request: Request, given: Option<Box>)
    | Release(id: MediaId)
    | Free                 // the session itself

  /** What the C contract asks of a caller: a valid handle or box it passes is its own to give. */
  ghost predicate Enabled(b: Books, step: Step) {
    match step
    case Open(h) => h !in b.handles && !Invalid(h)
    case Close(h) => h in b.open
    case Mint(box) => box !in b.minted
    case Drop(box) => box in b.boxes
    case Media(_, source) => Invalid(source) || source in b.open
    case Collection(_, sources) => WellFormed(sources) && forall h <- Members(sources) :: Invalid(h) || h in b.open
    case Through(_, _, box) => box.Some? ==> box.value in b.boxes
    case Release(_) => true
    case Free => true
  }

  function Next(b: Books, step: Step): Books
    requires step.Collection? ==> WellFormed(step.sources)
  {
    match step
    case Open(h) => b.(open := b.open + {h}, handles := b.handles + {h})
    case Close(h) => b.(open := b.open - {h}, closed := b.closed + [h])
    case Mint(box) => b.(boxes := b.boxes + {box}, minted := b.minted + {box})
    case Drop(box) => b.(boxes := b.boxes - {box}, consumed := b.consumed + [box])
    case Media(request, source) => MediaLoaded(b, request, source).0
    case Collection(request, sources) => CollectionLoaded(b, request, sources).0
    case Through(door, request, box) => BoxLoaded(b, door, request, box).0
    case Release(id) => b.(held := Released(b.held, id).0, closed := b.closed + Released(b.held, id).1)
    case Free => b.(held := [], closed := b.closed + AllFiles(b.held))
  }

  ghost predicate Run(b: Books, steps: seq<Step>, last: Books)
    decreases |steps|
  {
    if steps == [] then b == last
    else Enabled(b, steps[0]) && Run(Next(b, steps[0]), steps[1..], last)
  }

  // ---- The handle ledger

  ghost function Held(held: seq<Kept>): multiset<Handle> {
    if held == [] then multiset{} else multiset(held[0].files) + Held(held[1..])
  }

  /** Every place a handle can be, counted: open with the caller, a file of the library's, or closed. */
  ghost function Places(b: Books): multiset<Handle> {
    multiset(b.open) + Held(b.held) + multiset(b.closed)
  }

  /** How many files beyond one a handle a step makes: an adopted collection naming a handle twice makes
      two files over it. */
  ghost function Surplus(b: Books, step: Step): nat
    requires step.Collection? ==> WellFormed(step.sources)
  {
    if step.Collection? && Refusing(step.request, step.sources.pointer.None? && step.sources.count > 0,
                                    AnyInvalid(Members(step.sources))).None?
    then Repeats(Members(step.sources)) else 0
  }

  ghost function Repeats(raw: seq<Handle>): nat {
    DistinctAtMost(raw);
    |raw| - |Named(raw)|
  }

  lemma {:induction false} DistinctAtMost(raw: seq<Handle>)
    ensures |Named(raw)| <= |raw|
    ensures |Named(raw)| == |raw| <==> forall i, j | 0 <= i < j < |raw| :: raw[i] != raw[j]
  {
    if raw != [] {
      var t := |raw| - 1;
      DistinctAtMost(raw[..t]);
      var before := Named(raw[..t]);
      assert raw == raw[..t] + [raw[t]];
      assert Named(raw) == before + {raw[t]};
      assert raw[t] in before <==> exists i :: 0 <= i < t && raw[i] == raw[t];
    }
  }

  lemma {:induction false} HeldAppend(held: seq<Kept>, k: Kept)
    ensures Held(held + [k]) == Held(held) + multiset(k.files)
  {
    if held == [] {
      assert held + [k] == [k] && [k][1..] == [];
    } else {
      assert (held + [k])[1..] == held[1..] + [k];
      HeldAppend(held[1..], k);
    }
  }

  lemma {:induction false} ReleasedMoves(held: seq<Kept>, id: MediaId)
    ensures Held(held) == Held(Released(held, id).0) + multiset(Released(held, id).1)
  {
    if held != [] && held[0].id != id {
      ReleasedMoves(held[1..], id);
      var (rest, files) := Released(held[1..], id);
      assert ([held[0]] + rest)[1..] == rest;
    }
  }

  lemma {:induction false} AllFilesAre(held: seq<Kept>)
    ensures multiset(AllFiles(held)) == Held(held)
  {
    if held != [] {
      AllFilesAre(held[1..]);
    }
  }

  lemma SetSplits(s: set<Handle>, part: set<Handle>)
    requires part <= s
    ensures multiset(s) == multiset(s - part) + multiset(part)
  {
  }

  lemma {:induction false} SetWithin(raw: seq<Handle>)
    ensures multiset(Named(raw)) <= multiset(raw)
  {
    forall h
      ensures multiset(Named(raw))[h] <= multiset(raw)[h]
    {
      assert h in raw <==> h in multiset(raw);
    }
  }

  /** Adopting handles the caller has open moves each to the library's side, and makes one file more for
      each repeat. */
  lemma AdoptedPlaces(b: Books, raw: seq<Handle>, accepted: bool)
    requires forall h <- raw :: h in b.open
    ensures var after := Adopted(b, raw, accepted).0;
      Places(b) <= Places(after) && |Places(after)| == |Places(b)| + Repeats(raw)
  {
    var part := Named(raw);
    var after := Adopted(b, raw, accepted).0;
    forall h <- part
      ensures h in b.open
    {
    }
    SetSplits(b.open, part);
    SetWithin(raw);
    HeldAppend(b.held, Kept(b.next, raw));
    var rest := multiset(b.open - part) + Held(b.held) + multiset(b.closed);
    assert Places(b) == rest + multiset(part);
    assert Places(after) == rest + multiset(raw);
  }

  /** Nothing left the ledger, each opening added one handle to it, and `surplus` files are too many. */
  ghost predicate Balanced(b: Books, after: Books, surplus: nat) {
    && b.handles <= after.handles && after.open <= after.handles
    && Places(b) + multiset(after.handles - b.handles) <= Places(after)
    && |Places(after)| == |Places(b)| + |after.handles - b.handles| + surplus
  }

  lemma Moved(b: Books, after: Books)
    requires after.handles == b.handles && after.open <= b.handles && Places(after) == Places(b)
    ensures Balanced(b, after, 0)
  {
    assert after.handles - b.handles == {};
  }

  lemma OpenedBalanced(b: Books, h: Handle)
    requires h !in b.handles && b.open <= b.handles
    ensures Balanced(b, b.(open := b.open + {h}, handles := b.handles + {h}), 0)
  {
    var after := b.(open := b.open + {h}, handles := b.handles + {h});
    SetSplits(after.open, {h});
    assert after.open - {h} == b.open && after.handles - b.handles == {h};
    assert Places(after) == Places(b) + multiset{h};
  }

  lemma AdoptedBalanced(b: Books, raw: seq<Handle>, accepted: bool)
    requires b.open <= b.handles && forall h <- raw :: h in b.open
    ensures Balanced(b, Adopted(b, raw, accepted).0, Repeats(raw))
  {
    AdoptedPlaces(b, raw, accepted);
    var after := Adopted(b, raw, accepted).0;
    assert after.handles - b.handles == {};
  }

  lemma CollectionBalanced(b: Books, request: Request, sources: Array)
    requires Enabled(b, Collection(request, sources)) && b.open <= b.handles
    ensures Balanced(b, CollectionLoaded(b, request, sources).0, Surplus(b, Collection(request, sources)))
  {
    var raw := Members(sources);
    if Refusing(request, sources.pointer.None? && sources.count > 0, AnyInvalid(raw)).None? {
      forall h <- raw
        ensures h in b.open
      {
        var i :| 0 <= i < |raw| && raw[i] == h;
        assert !Invalid(raw[i]);
      }
      AdoptedBalanced(b, raw, request.accepted);
    } else {
      Moved(b, b);
    }
  }

  lemma MediaBalanced(b: Books, request: Request, source: Handle)
    requires Enabled(b, Media(request, source)) && b.open <= b.handles
    ensures Balanced(b, MediaLoaded(b, request, source).0, 0)
  {
    if Refusing(request, false, Invalid(source)).None? {
      DistinctAtMost([source]);
      AdoptedBalanced(b, [source], request.accepted);
    } else {
      Moved(b, b);
    }
  }

  lemma ThroughBalanced(b: Books, door: Door, request: Request, given: Option<Box>)
    requires b.open <= b.handles
    ensures Balanced(b, BoxLoaded(b, door, request, given).0, 0)
  {
    HeldAppend(b.held, Kept(b.next, []));
    Moved(b, BoxLoaded(b, door, request, given).0);
  }

  lemma ClosedBalanced(b: Books, step: Step)
    requires Enabled(b, step) && b.open <= b.handles && (step.Close? || step.Release? || step.Free?)
    ensures Balanced(b, Next(b, step), 0)
  {
    match step {
      case Close(h) => SetSplits(b.open, {h});
      case Release(id) => ReleasedMoves(b.held, id);
      case Free => AllFilesAre(b.held);
    }
    Moved(b, Next(b, step));
  }

  lemma StepBalanced(b: Books, step: Step)
    requires Enabled(b, step) && b.open <= b.handles
    ensures Balanced(b, Next(b, step), Surplus(b, step))
  {
    match step {
      case Open(h) => OpenedBalanced(b, h);
      case Media(request, source) => MediaBalanced(b, request, source);
      case Collection(request, sources) => CollectionBalanced(b, request, sources);
      case Through(door, request, given) => ThroughBalanced(b, door, request, given);
      case Mint(_) => Moved(b, Next(b, step));
      case Drop(_) => Moved(b, Next(b, step));
      case _ => ClosedBalanced(b, step);
    }
  }

  ghost function RunSurplus(b: Books, steps: seq<Step>, last: Books): nat
    requires Run(b, steps, last)
    decreases |steps|
  {
    if steps == [] then 0 else Surplus(b, steps[0]) + RunSurplus(Next(b, steps[0]), steps[1..], last)
  }

  /** Every handle that was ever opened is somewhere in the ledger. */
  ghost predicate Ledger(b: Books) {
    b.open <= b.handles && multiset(b.handles) <= Places(b)
  }

  lemma {:induction false} RunBalances(b: Books, steps: seq<Step>, last: Books)
    requires Run(b, steps, last) && Ledger(b)
    ensures Ledger(last)
    ensures |Places(last)| - |last.handles| == |Places(b)| - |b.handles| + RunSurplus(b, steps, last)
    decreases |steps|
  {
    if steps != [] {
      var after := Next(b, steps[0]);
      StepBalanced(b, steps[0]);
      SetSplits(after.handles, b.handles);
      RunBalances(after, steps[1..], last);
    }
  }

  /** Every handle is wholly the caller's, wholly a file of the library's, or closed, once. */
  ghost predicate OneOwnerEach(b: Books) {
    Places(b) == multiset(b.handles)
  }

  lemma SameSize(small: multiset<Handle>, large: multiset<Handle>)
    requires small <= large && |small| == |large|
    ensures small == large
  {
    assert large == small + (large - small);
  }

  /** The checks a collection passes before any of it is adopted: what the caller gave, and nothing the
      library has found out. */
  predicate Checked(request: Request, sources: Array)
    requires WellFormed(sources)
  {
    && request.session && request.format && request.declared
    && !(sources.pointer.None? && sources.count > 0) && !AnyInvalid(Members(sources))
  }

  ghost predicate Twice(raw: seq<Handle>) {
    exists i, j :: 0 <= i < j < |raw| && raw[i] == raw[j]
  }

  /** A call that hands one handle over twice: a collection past every check with a handle at two
      places. */
  ghost predicate Doubles(step: Step) {
    step.Collection? && WellFormed(step.sources)
    && Checked(step.request, step.sources) && Twice(Members(step.sources))
  }

  /** A step makes a file too many exactly when it is such a call. */
  lemma SurplusIff(b: Books, step: Step)
    requires step.Collection? ==> WellFormed(step.sources)
    ensures Surplus(b, step) > 0 <==> Doubles(step)
  {
    if step.Collection? {
      DistinctAtMost(Members(step.sources));
    }
  }

  ghost predicate NoneDoubles(steps: seq<Step>) {
    forall i | 0 <= i < |steps| :: !Doubles(steps[i])
  }

  lemma {:induction false} NoSurplusIff(b: Books, steps: seq<Step>, last: Books)
    requires Run(b, steps, last)
    ensures RunSurplus(b, steps, last) == 0 <==> NoneDoubles(steps)
    decreases |steps|
  {
    if steps != [] {
      SurplusIff(b, steps[0]);
      NoSurplusIff(Next(b, steps[0]), steps[1..], last);
      assert forall i | 0 < i < |steps| :: steps[i] == steps[1..][i - 1];
    }
  }

  /** **The handle ledger, over every run and every outcome**: each handle a caller opened has one owner
      and is closed at most once, exactly when no call handed over a checked collection with a handle at
      two places. */
  lemma HandlesHaveOneOwnerIff(steps: seq<Step>, b: Books)
    requires Run(EMPTY, steps, b)
    ensures OneOwnerEach(b) <==> NoneDoubles(steps)
    ensures multiset(b.handles) <= Places(b)
  {
    RunBalances(EMPTY, steps, b);
    NoSurplusIff(EMPTY, steps, b);
    if NoneDoubles(steps) {
      SameSize(multiset(b.handles), Places(b));
    }
  }

  /** The condition bites: one open handle, named twice to a load that is then refused, is closed twice. */
  lemma ClosedTwice(h: Handle) returns (steps: seq<Step>, b: Books)
    requires !Invalid(h)
    ensures Run(EMPTY, steps, b) && b.handles == {h} && b.closed == [h, h] && !OneOwnerEach(b)
  {
    var request := Request(true, true, true, false);
    var sources := Array(Some([h, h]), 2);
    steps := [Open(h), Collection(request, sources)];
    var opened1 := Next(EMPTY, steps[0]);
    assert Members(sources) == [h, h];
    b := Next(opened1, steps[1]);
    assert steps[1..] == [steps[1]] && steps[1..][1..] == [];
    assert Run(opened1, steps[1..], b);
    assert multiset(b.closed)[h] == 2 && multiset(b.handles)[h] == 1;
  }

  lemma {:induction false} FreedHoldsNothing(b: Books, steps: seq<Step>, last: Books)
    requires Run(b, steps, last) && steps != [] && steps[|steps| - 1] == Free
    ensures last.held == []
    decreases |steps|
  {
    if |steps| > 1 {
      FreedHoldsNothing(Next(b, steps[0]), steps[1..], last);
    }
  }

  /** **Freeing the session leaves each handle ever opened with the caller, or closed exactly once**, and
      closes no other: exactly when no call handed one over twice. */
  lemma FreedOrKeptIff(steps: seq<Step>, b: Books)
    requires Run(EMPTY, steps, b) && steps != [] && steps[|steps| - 1] == Free
    ensures NoneDoubles(steps) <==>
      forall h :: multiset(b.closed)[h] == if h in b.handles && h !in b.open then 1 else 0
  {
    RunBalances(EMPTY, steps, b);
    HandlesHaveOneOwnerIff(steps, b);
    FreedHoldsNothing(EMPTY, steps, b);
    assert Places(b) == multiset(b.open) + multiset(b.closed);
    EachOnceIff(b.open, multiset(b.closed), b.handles);
  }

  lemma EachOnceIff(open: set<Handle>, closed: multiset<Handle>, handles: set<Handle>)
    requires open <= handles
    ensures multiset(open) + closed == multiset(handles)
       <==> forall h :: closed[h] == if h in handles && h !in open then 1 else 0
  {
    if multiset(open) + closed == multiset(handles) {
      forall h
        ensures closed[h] == if h in handles && h !in open then 1 else 0
      {
        assert (multiset(open) + closed)[h] == multiset(handles)[h];
      }
    }
    if forall h :: closed[h] == if h in handles && h !in open then 1 else 0 {
      forall h
        ensures (multiset(open) + closed)[h] == multiset(handles)[h]
      {
        assert closed[h] == if h in handles && h !in open then 1 else 0;
      }
    }
  }

  /** The collection door adopts every member or none: refused before the last check, nothing at all has
      changed; past it, every member is a file of the library's, kept by the new medium or closed. */
  lemma CollectionIsAllOrNone(b: Books, request: Request, sources: Array)
    requires WellFormed(sources)
    ensures var (after, outcome) := CollectionLoaded(b, request, sources);
      && (!Checked(request, sources) <==> outcome.Refused? && outcome.why != CoreRefused)
      && (!Checked(request, sources) ==> after == b)
      && (Checked(request, sources) ==>
            && (forall h <- Members(sources) :: h !in after.open)
            && (outcome.Loaded? <==> request.accepted)
            && Held(after.held) + multiset(after.closed)
                 == Held(b.held) + multiset(b.closed) + multiset(Members(sources)))
  {
    HeldAppend(b.held, Kept(b.next, Members(sources)));
  }

  // ---- The box ledger

  /** Every box is in the caller's hands or was consumed, and was consumed once at most. */
  ghost predicate BoxesSound(b: Books) {
    && b.boxes <= b.minted
    && (forall box :: multiset(b.consumed)[box] == if box in b.minted && box !in b.boxes then 1 else 0)
  }

  lemma ConsumeKeeps(b: Books, box: Box, after: Books)
    requires BoxesSound(b) && box in b.boxes
    requires after.boxes == b.boxes - {box} && after.consumed == b.consumed + [box] && after.minted == b.minted
    ensures BoxesSound(after)
  {
  }

  lemma MintKeeps(b: Books, box: Box, after: Books)
    requires BoxesSound(b) && box !in b.minted
    requires after.boxes == b.boxes + {box} && after.minted == b.minted + {box} && after.consumed == b.consumed
    ensures BoxesSound(after)
  {
  }

  lemma SameBoxes(b: Books, after: Books)
    requires BoxesSound(b)
    requires after.boxes == b.boxes && after.consumed == b.consumed && after.minted == b.minted
    ensures BoxesSound(after)
  {
  }

  lemma StepKeepsBoxes(b: Books, step: Step)
    requires BoxesSound(b) && Enabled(b, step)
    ensures BoxesSound(Next(b, step))
  {
    var after := Next(b, step);
    match step {
      case Mint(box) => MintKeeps(b, box, after);
      case Drop(box) => ConsumeKeeps(b, box, after);
      case Through(_, _, given) =>
        if given.Some? { ConsumeKeeps(b, given.value, after); } else { SameBoxes(b, after); }
      case _ => SameBoxes(b, after);
    }
  }

  /** **Each discovery, source or source list handed to a door is consumed exactly once**, whatever the
      outcome, over every run; one the caller still has was never consumed. */
  lemma {:induction false} BoxesConsumedOnce(b: Books, steps: seq<Step>, last: Books)
    requires BoxesSound(b) && Run(b, steps, last)
    ensures BoxesSound(last)
    ensures forall i | 0 <= i < |steps| && steps[i].Through? && steps[i].given.Some? ::
      multiset(last.consumed)[steps[i].given.value] == 1
    decreases |steps|
  {
    if steps != [] {
      var after := Next(b, steps[0]);
      StepKeepsBoxes(b, steps[0]);
      BoxesConsumedOnce(after, steps[1..], last);
      if steps[0].Through? && steps[0].given.Some? {
        ConsumedStays(after, steps[1..], last, steps[0].given.value);
      }
      assert forall i | 0 < i < |steps| :: steps[i] == steps[1..][i - 1];
    }
  }

  lemma {:induction false} ConsumedStays(b: Books, steps: seq<Step>, last: Books, box: Box)
    requires BoxesSound(b) && Run(b, steps, last) && box in b.minted && box !in b.boxes
    ensures BoxesSound(last) && box in last.minted && box !in last.boxes
    decreases |steps|
  {
    if steps != [] {
      StepKeepsBoxes(b, steps[0]);
      ConsumedStays(Next(b, steps[0]), steps[1..], last, box);
    }
  }

  // ---- The doors, step by step

  class Binding {
    var open: set<Handle>
    var held: seq<Kept>
    var closed: seq<Handle>
    var boxes: set<Box>
    var consumed: seq<Box>
    var next: MediaId
    ghost var handles: set<Handle>
    ghost var minted: set<Box>

    ghost function Now(): Books
      reads this
    {
      Books(open, held, closed, handles, boxes, consumed, minted, next)
    }

    constructor ()
      ensures Now() == EMPTY
    {
      open, held, closed, boxes, consumed, next, handles, minted := {}, [], [], {}, [], 0, {}, {};
    }

    /** The core's load over the files it now owns: the medium keeps them, or they are closed. */
    method CoreLoad(files: seq<Handle>, accepted: bool) returns (outcome: Outcome)
      modifies this`held, this`closed, this`next
      ensures Now() == if accepted
        then old(Now()).(held := old(held) + [Kept(old(next), files)], next := old(next) + 1)
        else old(Now()).(closed := old(closed) + files)
      ensures outcome == if accepted then Loaded(old(next)) else Refused(CoreRefused)
    {
      if !accepted {
        closed := closed + files;
        return Refused(CoreRefused);
      }
      outcome := Loaded(next);
      held := held + [Kept(next, files)];
      next := next + 1;
    }

    method LoadMedia(request: Request, source: Handle) returns (outcome: Outcome)
      modifies this
      ensures (Now(), outcome) == MediaLoaded(old(Now()), request, source)
    {
      if !request.session {
        return Refused(NullSession);
      }
      if !request.format {
        return Refused(NullFormat);
      }
      if !request.declared {
        return Refused(Undeclared);
      }
      if source == 0 || source == -1 {
        return Refused(NotOpen);
      }
      assert Named([source]) == {source};
      open := open - {source};
      outcome := CoreLoad([source], request.accepted);
    }

    /** Whether any of the handles is one no open file has; nothing is touched. */
    method CheckEach(raw: seq<Handle>) returns (invalid: bool)
      ensures invalid == AnyInvalid(raw)
    {
      for i := 0 to |raw|
        invariant !AnyInvalid(raw[..i])
      {
        if raw[i] == 0 || raw[i] == -1 {
          assert Invalid(raw[i]);
          return true;
        }
      }
      assert raw[..|raw|] == raw;
      invalid := false;
    }

    method AdoptEach(raw: seq<Handle>) returns (files: seq<Handle>)
      modifies this`open
      ensures files == raw && open == old(open) - Named(raw)
    {
      files := [];
      for i := 0 to |raw|
        invariant files == raw[..i] && open == old(open) - Named(raw[..i])
      {
        assert raw[..i + 1] == raw[..i] + [raw[i]];
        assert Named(raw[..i + 1]) == Named(raw[..i]) + {raw[i]};
        files := files + [raw[i]];
        open := open - {raw[i]};
      }
      assert raw[..|raw|] == raw;
    }

    method LoadCollection(request: Request, sources: Array) returns (outcome: Outcome)
      requires WellFormed(sources)
      modifies this
      ensures (Now(), outcome) == CollectionLoaded(old(Now()), request, sources)
    {
      if !request.session {
        return Refused(NullSession);
      }
      if !request.format {
        return Refused(NullFormat);
      }
      if !request.declared {
        return Refused(Undeclared);
      }
      if sources.pointer.None? && sources.count > 0 {
        return Refused(NullSources);
      }
      var raw := if sources.count == 0 then [] else sources.pointer.value[..sources.count];
      assert raw == Members(sources);
      var invalid := CheckEach(raw);
      if invalid {
        return Refused(NotOpen);
      }
      var files := AdoptEach(raw);
      outcome := CoreLoad(files, request.accepted);
    }

    /** The box is taken first: from there on every way out has consumed it. */
    method LoadBox(door: Door, request: Request, box: Option<Box>) returns (outcome: Outcome)
      modifies this
      ensures (Now(), outcome) == BoxLoaded(old(Now()), door, request, box)
    {
      if box.None? {
        return Refused(NullBox);
      }
      boxes := boxes - {box.value};
      consumed := consumed + [box.value];
      if !request.session {
        return Refused(NullSession);
      }
      match door {
        case Declared =>
          if !request.format {
            return Refused(NullFormat);
          }
          if !request.declared {
            return Refused(Undeclared);
          }
        case Plain =>
        case WithDevice(given, known) =>
          if !given {
            return Refused(NullDevice);
          }
          if !known {
            return Refused(UnknownDevice);
          }
      }
      outcome := CoreLoad([], request.accepted);
      assert closed == old(closed);
    }
  }
}
