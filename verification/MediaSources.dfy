/** The Python binding's load sources: objects that can be consumed once, and the shapes a load
    takes them in. */
module MediaSources {
  import opened Wrappers

  datatype Error =
    | Consumed           // an earlier load has it, or this one already does
    | NotFileSource(at: nat)
    | FileSourceAmongFiles(at: nat)
    | NotOpen            // no file, no descriptor, or one that cannot be duplicated

  /** What the core minted: one file of a medium's namespace. */
  type Core = nat

  type Descriptor = nat

  /** A file source the caller holds. It is emptied by the load that consumes it. */
  class FileSource {
    var inner: Option<Core>

    constructor Over(source: Core)
      ensures inner == Some(source)
    {
      inner := Some(source);
    }

    method Take() returns (r: Result<Core, Error>)
      modifies this
      ensures r == if old(inner).Some? then Ok(old(inner).value) else Err(Consumed)
      ensures inner == None
    {
      if inner.None? {
        return Err(Consumed);
      }
      r := Ok(inner.value);
      inner := None;
    }
  }

  /** Python objects as a load sees them. */
  datatype Object =
    | Source(source: FileSource)
    | File(descriptor: Descriptor)  // anything with a fileno(), or a raw descriptor
    | Stranger                      // anything else

  datatype Argument = One(given: Object) | Many(objects: seq<Object>)

  datatype MediaSource =
    | Entry(core: Core)
    | Entries(cores: seq<Core>)
    | Artifact(file: Descriptor)
    | Artifacts(files: seq<Descriptor>)

  /** The process's open descriptors: the caller's, and the library's own duplicates of them. */
  class Descriptors {
    var callers: set<Descriptor>
    var copies: map<Descriptor, Descriptor>
    var next: Descriptor

    ghost predicate Valid()
      reads this
    {
      (forall d <- copies :: d < next) && (forall d <- callers :: d < next)
    }

    constructor (callers: set<Descriptor>, next: Descriptor)
      requires forall d <- callers :: d < next
      ensures Valid() && this.callers == callers && copies == map[]
    {
      this.callers, this.copies, this.next := callers, map[], next;
    }

    method Duplicate(given: Object) returns (r: Result<Descriptor, Error>)
      requires Valid()
      modifies this`copies, this`next
      ensures Valid() && next >= old(next)
      ensures r.Ok? <==> given.File? && given.descriptor in callers
      ensures r.Ok? ==> r.value !in old(copies) && copies == old(copies)[r.value := given.descriptor]
      ensures r.Err? ==> copies == old(copies) && r.error == NotOpen
    {
      if !given.File? || given.descriptor !in callers {
        return Err(NotOpen);
      }
      r := Ok(next);
      copies := copies[next := given.descriptor];
      next := next + 1;
    }

    /** What dropping a vector of files does. */
    method Close(files: seq<Descriptor>)
      requires Valid()
      modifies this`copies
      ensures Valid() && copies == old(copies) - (set d | d in files)
    {
      copies := copies - (set d | d in files);
    }
  }

  function SourcesOf(objects: seq<Object>): set<FileSource> {
    set i | 0 <= i < |objects| && objects[i].Source? :: objects[i].source
  }

  function SourcesIn(argument: Argument): set<FileSource> {
    SourcesOf(match argument case One(given) => [given] case Many(objects) => objects)
  }

  /** The member a list of file sources is refused at: no file source, one already consumed, or one
      that appeared before. */
  ghost predicate Offends(objects: seq<Object>, at: nat)
    requires at < |objects|
    reads SourcesOf(objects)
  {
    !objects[at].Source? || objects[at].source.inner.None? || objects[at] in objects[..at]
  }

  ghost predicate FirstOffence(objects: seq<Object>, at: nat)
    reads SourcesOf(objects)
  {
    && at <= |objects|
    && (forall k | 0 <= k < at :: !Offends(objects, k))
    && (at < |objects| ==> Offends(objects, at))
  }

  /** A list whose first member is a file source: each is taken in turn. */
  method TakeEach(objects: seq<Object>) returns (r: Result<seq<Core>, Error>, ghost taken: nat)
    modifies SourcesOf(objects)
    ensures old(FirstOffence(objects, taken))
    ensures r.Ok? <==> taken == |objects|
    ensures r.Ok? ==> |r.value| == |objects|
    ensures r.Ok? ==>
      forall k | 0 <= k < |objects| :: objects[k].Source? && old(objects[k].source.inner) == Some(r.value[k])
    ensures r.Err? ==> r.error == if objects[taken].Source? then Consumed else NotFileSource(taken)
    ensures forall s <- SourcesOf(objects) ::
      s.inner == if s in SourcesOf(objects[..taken]) then None else old(s.inner)
  {
    var entries: seq<Core> := [];
    taken := 0;
    var at := 0;
    while at < |objects|
      invariant 0 <= at <= |objects| && taken == at == |entries|
      invariant forall k | 0 <= k < at :: old(!Offends(objects, k)) && old(objects[k].source.inner) == Some(entries[k])
      invariant forall s <- SourcesOf(objects) ::
        s.inner == if s in SourcesOf(objects[..at]) then None else old(s.inner)
    {
      if !objects[at].Source? {
        return Err(NotFileSource(at)), taken;
      }
      TakenSources(objects, at);
      var core := objects[at].source.Take();
      if core.Err? {
        return Err(core.error), taken;
      }
      entries := entries + [core.value];
      at := at + 1;
      taken := at;
    }
    r := Ok(entries);
  }

  /** Among file sources, appearing before is being the source of an earlier member. */
  lemma TakenSources(objects: seq<Object>, at: nat)
    requires at < |objects| && objects[at].Source?
    ensures objects[at] in objects[..at] <==> objects[at].source in SourcesOf(objects[..at])
    ensures SourcesOf(objects[..at + 1]) == SourcesOf(objects[..at]) + {objects[at].source}
    ensures objects[at].source in SourcesOf(objects)
  {
    var before, after := objects[..at], objects[..at + 1];
    if objects[at].source in SourcesOf(before) {
      var i :| 0 <= i < |before| && before[i].Source? && before[i].source == objects[at].source;
      assert before[i] == objects[at];
    }
    if objects[at] in before {
      var i :| 0 <= i < |before| && before[i] == objects[at];
      assert before[i].source in SourcesOf(before);
    }
    forall s <- SourcesOf(before)
      ensures s in SourcesOf(after)
    {
      var i :| 0 <= i < |before| && before[i].Source? && before[i].source == s;
      assert after[i] == before[i];
    }
    assert after[at].source in SourcesOf(after);
  }

  /** The member a list of opened files is refused at. */
  predicate Unopenable(given: Object, callers: set<Descriptor>) {
    !given.File? || given.descriptor !in callers
  }

  ghost predicate FirstUnopenable(objects: seq<Object>, callers: set<Descriptor>, at: nat) {
    && at <= |objects|
    && (forall k | 0 <= k < at :: !Unopenable(objects[k], callers))
    && (at < |objects| ==> Unopenable(objects[at], callers))
  }

  /** Any other list: each member is duplicated, and a refusal closes the duplicates made so far. */
  method DuplicateEach(objects: seq<Object>, descriptors: Descriptors)
    returns (r: Result<seq<Descriptor>, Error>, ghost copied: nat)
    requires descriptors.Valid()
    modifies descriptors`copies, descriptors`next
    ensures descriptors.Valid()
    ensures FirstUnopenable(objects, descriptors.callers, copied)
    ensures r.Ok? <==> copied == |objects|
    ensures r.Ok? ==> CopiesOf(objects, r.value, old(descriptors.copies), descriptors.copies)
    ensures r.Err? ==> descriptors.copies == old(descriptors.copies)
    ensures r.Err? ==> r.error == if objects[copied].Source? then FileSourceAmongFiles(copied) else NotOpen
  {
    var handles: seq<Descriptor> := [];
    copied := 0;
    var at := 0;
    while at < |objects|
      invariant 0 <= at <= |objects| && copied == at && descriptors.Valid()
      invariant forall k | 0 <= k < at :: !Unopenable(objects[k], descriptors.callers)
      invariant CopiesOf(objects[..at], handles, old(descriptors.copies), descriptors.copies)
    {
      if objects[at].Source? {
        descriptors.Close(handles);
        return Err(FileSourceAmongFiles(at)), copied;
      }
      var copy := descriptors.Duplicate(objects[at]);
      if copy.Err? {
        descriptors.Close(handles);
        return Err(copy.error), copied;
      }
      handles := handles + [copy.value];
      at := at + 1;
      copied := at;
    }
    assert objects[..at] == objects;
    r := Ok(handles);
  }

  /** One fresh duplicate for each member, in order, and no other descriptor copied. */
  ghost predicate CopiesOf(objects: seq<Object>, files: seq<Descriptor>,
                           before: map<Descriptor, Descriptor>, after: map<Descriptor, Descriptor>) {
    && |files| == |objects|
    && (forall i, j | 0 <= i < j < |files| :: files[i] != files[j])
    && (forall k | 0 <= k < |files| :: files[k] !in before && objects[k].File?
         && files[k] in after && after[files[k]] == objects[k].descriptor)
    && after - (set d | d in files) == before
  }

  predicate LeadsWithSource(objects: seq<Object>) {
    objects != [] && objects[0].Source?
  }

  /** A source alone is always consumed; in a list led by one, those before the offending member. */
  predicate Consumes(argument: Argument, reached: nat, s: FileSource)
    requires argument.Many? ==> reached <= |argument.objects|
  {
    match argument
    case One(given) => given == Source(s)
    case Many(objects) => LeadsWithSource(objects) && s in SourcesOf(objects[..reached])
  }

  /** A list led by a file source is accepted exactly when its members are distinct file sources,
      none consumed: so no source is ever taken twice. */
  lemma AcceptedIff(objects: seq<Object>)
    ensures FirstOffence(objects, |objects|) <==> (AllLive(objects) && Distinct(objects))
  {
    if FirstOffence(objects, |objects|) {
      forall k | 0 <= k < |objects|
        ensures LiveAt(objects, k) && objects[k] !in objects[..k]
      {
        assert !Offends(objects, k);
      }
      forall j, k | 0 <= j < k < |objects|
        ensures objects[j] != objects[k]
      {
        assert objects[..k][j] == objects[j];
      }
    }
    if AllLive(objects) && Distinct(objects) {
      forall k | 0 <= k < |objects|
        ensures !Offends(objects, k)
      {
        assert LiveAt(objects, k);
      }
    }
  }

  ghost predicate LiveAt(objects: seq<Object>, at: nat)
    requires at < |objects|
    reads SourcesOf(objects)
  {
    objects[at].Source? && objects[at].source.inner.Some?
  }

  ghost predicate AllLive(objects: seq<Object>)
    reads SourcesOf(objects)
  {
    forall k | 0 <= k < |objects| :: LiveAt(objects, k)
  }

  ghost predicate Distinct(objects: seq<Object>) {
    forall j, k | 0 <= j < k < |objects| :: objects[j] != objects[k]
  }

  /** No live source is named for the first time past a member the list is refused at; and none at all in
      a list no source leads. */
  ghost predicate NoneBehind(objects: seq<Object>)
    reads SourcesOf(objects)
  {
    forall k | 0 <= k < |objects| && LiveAt(objects, k) && objects[k] !in objects[..k] ::
      LeadsWithSource(objects) && forall j | 0 <= j < k :: !Offends(objects, j)
  }

  lemma FirstNamed(objects: seq<Object>, s: FileSource) returns (k: nat)
    requires s in SourcesOf(objects)
    ensures k < |objects| && objects[k] == Source(s) && objects[k] !in objects[..k]
  {
    k := 0;
    while objects[k] != Source(s)
      invariant k < |objects| && Source(s) in objects[k..] && Source(s) !in objects[..k]
      decreases |objects| - k
    {
      k := k + 1;
    }
  }

  lemma NamedEarly(objects: seq<Object>, reached: nat, k: nat)
    requires k < reached <= |objects| && objects[k].Source?
    ensures objects[k].source in SourcesOf(objects[..reached])
  {
    assert objects[..reached][k] == objects[k];
  }

  /** **A list's live sources are all consumed exactly when none is behind the member it is refused at**,
      or all are live and it is accepted. */
  lemma ConsumesAllIff(objects: seq<Object>, reached: nat)
    requires reached <= |objects| && (LeadsWithSource(objects) ==> FirstOffence(objects, reached))
    ensures (forall s <- SourcesOf(objects) | s.inner.Some? :: Consumes(Many(objects), reached, s))
       <==> NoneBehind(objects)
  {
    if NoneBehind(objects) {
      forall s <- SourcesOf(objects) | s.inner.Some?
        ensures Consumes(Many(objects), reached, s)
      {
        var k := FirstNamed(objects, s);
        assert LiveAt(objects, k) && !Offends(objects, k);
        NamedEarly(objects, reached, k);
      }
    }
    if forall s <- SourcesOf(objects) | s.inner.Some? :: Consumes(Many(objects), reached, s) {
      forall k | 0 <= k < |objects| && LiveAt(objects, k) && objects[k] !in objects[..k]
        ensures LeadsWithSource(objects) && k < reached
      {
        assert Consumes(Many(objects), reached, objects[k].source);
        var i :| 0 <= i < |objects[..reached]| && objects[..reached][i] == objects[k];
        assert objects[i] == objects[k];
      }
    }
  }

  /** Why a list is refused at a member. */
  function RefusedAt(objects: seq<Object>, at: nat): Error
    requires at < |objects|
  {
    if LeadsWithSource(objects) then (if objects[at].Source? then Consumed else NotFileSource(at))
    else (if objects[at].Source? then FileSourceAmongFiles(at) else NotOpen)
  }

  /** A list, one kind of source throughout. */
  method SourcesListed(objects: seq<Object>, descriptors: Descriptors)
    returns (r: Result<MediaSource, Error>, ghost reached: nat)
    requires descriptors.Valid()
    modifies SourcesOf(objects), descriptors`copies, descriptors`next
    ensures descriptors.Valid()
    ensures r.Ok? ==>
      if LeadsWithSource(objects) then
        r.value.Entries? && |r.value.cores| == |objects|
        && forall k | 0 <= k < |objects| :: objects[k].Source? && old(objects[k].source.inner) == Some(r.value.cores[k])
      else r.value.Artifacts? && CopiesOf(objects, r.value.files, old(descriptors.copies), descriptors.copies)
    ensures reached <= |objects| && (r.Ok? <==> reached == |objects|)
    ensures r.Err? ==> r.error == RefusedAt(objects, reached)
    ensures LeadsWithSource(objects) ==> old(FirstOffence(objects, reached))
    ensures !LeadsWithSource(objects) ==> FirstUnopenable(objects, descriptors.callers, reached)
    ensures forall s <- SourcesOf(objects) ::
      s.inner == if Consumes(Many(objects), reached, s) then None else old(s.inner)
    ensures r.Err? || r.value.Entries? ==> descriptors.copies == old(descriptors.copies)
  {
    if objects != [] && objects[0].Source? {
      var cores, taken := TakeEach(objects);
      reached := taken;
      r := match cores case Ok(cores) => Ok(Entries(cores)) case Err(error) => Err(error);
    } else {
      var files, copied := DuplicateEach(objects, descriptors);
      reached := copied;
      r := match files case Ok(files) => Ok(Artifacts(files)) case Err(error) => Err(error);
    }
  }

  /** What one argument is taken for, the refusals included, and which sources that consumes. */
  method MediaSourceOf(argument: Argument, descriptors: Descriptors)
    returns (r: Result<MediaSource, Error>, ghost reached: nat)
    requires descriptors.Valid()
    modifies SourcesIn(argument), descriptors`copies, descriptors`next
    ensures descriptors.Valid()
    // Which shape, and what is in it.
    ensures r.Ok? ==> match argument {
      case One(Source(s)) => old(s.inner).Some? && r.value == Entry(old(s.inner).value)
      case One(given) =>
        r.value.Artifact? && CopiesOf([given], [r.value.file], old(descriptors.copies), descriptors.copies)
      case Many(objects) =>
        if LeadsWithSource(objects) then
          r.value.Entries? && |r.value.cores| == |objects|
          && forall k | 0 <= k < |objects| ::
               objects[k].Source? && old(objects[k].source.inner) == Some(r.value.cores[k])
        else r.value.Artifacts? && CopiesOf(objects, r.value.files, old(descriptors.copies), descriptors.copies)
    }
    // Exactly when it is refused: `reached` members were taken or duplicated before the offending one.
    ensures r.Ok? <==> match argument {
      case One(Source(s)) => old(s.inner).Some?
      case One(given) => !Unopenable(given, descriptors.callers)
      case Many(objects) => reached == |objects|
    }
    ensures argument.Many? ==> reached <= |argument.objects|
    ensures argument.Many? && LeadsWithSource(argument.objects) ==> old(FirstOffence(argument.objects, reached))
    ensures argument.Many? && !LeadsWithSource(argument.objects) ==>
      FirstUnopenable(argument.objects, descriptors.callers, reached)
    ensures r.Err? ==> r.error == match argument {
      case One(given) => if given.Source? then Consumed else NotOpen
      case Many(objects) => RefusedAt(objects, reached)
    }
    // What is consumed: the sources before the offending member, and none at all among opened files.
    ensures forall s <- SourcesIn(argument) :: s.inner == if Consumes(argument, reached, s) then None else old(s.inner)
    // No descriptor outlives a refusal, and none is copied for file sources.
    ensures r.Err? || r.value.Entry? || r.value.Entries? ==> descriptors.copies == old(descriptors.copies)
  {
    reached := 0;
    match argument
    case One(given) =>
      if given.Source? {
        assert given.source in SourcesOf([given]) by { TakenSources([given], 0); }
        assert SourcesOf([given]) == {given.source} by { TakenSources([given], 0); }
        var core := given.source.Take();
        r := match core case Ok(core) => Ok(Entry(core)) case Err(error) => Err(error);
      } else {
        var copy := descriptors.Duplicate(given);
        r := match copy case Ok(file) => Ok(Artifact(file)) case Err(error) => Err(error);
      }
    case Many(objects) => r, reached := SourcesListed(objects, descriptors);
  }

  /** **An argument leaves no source live exactly when** it is one object, or a list with none behind the
      member it is refused at. */
  method AllConsumed(argument: Argument, descriptors: Descriptors) returns (r: Result<MediaSource, Error>)
    requires descriptors.Valid()
    modifies SourcesIn(argument), descriptors`copies, descriptors`next
    ensures (forall s <- SourcesIn(argument) :: s.inner.None?)
       <==> (argument.Many? ==> old(NoneBehind(argument.objects)))
  {
    if argument.Many? {
      forall k: nat | k <= |argument.objects|
                    && (LeadsWithSource(argument.objects) ==> FirstOffence(argument.objects, k))
        ensures (forall s <- SourcesIn(argument) | s.inner.Some? :: Consumes(argument, k, s))
           <==> NoneBehind(argument.objects)
      {
        ConsumesAllIff(argument.objects, k);
      }
    }
    ghost var reached;
    r, reached := MediaSourceOf(argument, descriptors);
  }

  /** A list led by a source may leave one live: refused at its second member, it never comes to its third. */
  method ThirdNotReached(a: FileSource, between: Descriptor, b: FileSource, descriptors: Descriptors)
    returns (r: Result<MediaSource, Error>)
    requires a != b && a.inner.Some? && b.inner.Some? && descriptors.Valid()
    modifies a, b, descriptors`copies, descriptors`next
    ensures r == Err(NotFileSource(1)) && a.inner.None? && b.inner == old(b.inner)
  {
    var objects := [Source(a), File(between), Source(b)];
    assert a in SourcesOf(objects) && b in SourcesOf(objects) by {
      assert objects[0].source == a && objects[2].source == b;
    }
    assert !Offends(objects, 0) && Offends(objects, 1);
    ghost var reached;
    r, reached := MediaSourceOf(Many(objects), descriptors);
    assert SourcesOf(objects[..1]) == {a};
  }

  /** And one led by an opened file leaves them all. */
  method NoneReached(first: Descriptor, a: FileSource, descriptors: Descriptors)
    returns (r: Result<MediaSource, Error>)
    requires a.inner.Some? && descriptors.Valid()
    modifies a, descriptors`copies, descriptors`next
    ensures r.Err? && a.inner == old(a.inner) && descriptors.copies == old(descriptors.copies)
  {
    var objects := [File(first), Source(a)];
    assert a in SourcesOf(objects) by {
      assert objects[1].source == a;
    }
    ghost var reached;
    r, reached := MediaSourceOf(Many(objects), descriptors);
    assert Unopenable(objects[1], descriptors.callers);
  }
}
