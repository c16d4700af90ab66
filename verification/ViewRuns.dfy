/** What the view tables are worth, in every state a session can reach. */
module ViewRuns {
  import opened Wrappers
  import opened Devices
  import opened Pools
  import opened PoolRuns
  import opened PoolFrames
  import opened Views

  /** One view an attachment, one attachment a view, each of a live device and saying what it is. */
  ghost predicate DeviceRowsAgree<D>(views: seq<DeviceRow<D>>, core: Core) {
    && (forall i, j | 0 <= i < j < |views| ::
          views[i].attachment != views[j].attachment && views[i].view != views[j].view)
    && (forall i | 0 <= i < |views| ::
          HasDevice(core, views[i].attachment)
          && views[i] == Minted(views[i].view, views[i].attachment, DeviceAt(core, views[i].attachment).slot))
  }

  /** One view an identity, one identity a view, each of a live medium; but for `stale`, each saying what
      its medium says. */
  ghost predicate MediumRowsAgree<M>(media: seq<MediumRow<M>>, core: Core, stale: Option<MediaId>) {
    && (forall i, j | 0 <= i < j < |media| :: media[i].id != media[j].id && media[i].view != media[j].view)
    && (forall k | 0 <= k < |media| :: HasMedium(core, media[k].id))
    && (forall k | 0 <= k < |media| && stale != Some(media[k].id) :: media[k].facts == FactsOf(core, media[k].id))
  }

  ghost predicate Agrees<D, M>(w: World<D, M>) {
    Sound(w.core) && DeviceRowsAgree(w.views, w.core) && MediumRowsAgree(w.media, w.core, None)
  }

  // ---- Each step keeps it

  lemma DeviceRowsKept<D>(views: seq<DeviceRow<D>>, core: Core, after: Core)
    requires DeviceRowsAgree(views, core)
    requires forall i | 0 <= i < |views| :: KeepsDevice(core, after, views[i].attachment)
    ensures DeviceRowsAgree(views, after)
  {
  }

  lemma MediumRowsKept<M>(media: seq<MediumRow<M>>, core: Core, after: Core)
    requires MediumRowsAgree(media, core, None)
    requires forall k | 0 <= k < |media| :: KeepsMedium(core, after, media[k].id)
    ensures MediumRowsAgree(media, after, None)
  {
  }

  lemma CoreKept<D, M>(w: World<D, M>, after: Core)
    requires Agrees(w) && Sound(after) && Preserves(w.core, after, None, None)
    ensures Agrees(w.(core := after))
  {
    DeviceRowsKept(w.views, w.core, after);
    MediumRowsKept(w.media, w.core, after);
  }

  lemma MintKeeps<D>(views: seq<DeviceRow<D>>, core: Core, a: AttachmentId, spare: D)
    requires DeviceRowsAgree(views, core) && forall i | 0 <= i < |views| :: views[i].view != spare
    requires HasDevice(core, a) && DeviceRowAt(views, a) == |views|
    ensures DeviceRowsAgree(views + [Minted(spare, a, DeviceAt(core, a).slot)], core)
  {
  }

  lemma DeviceViewKeeps<D, M>(w: World<D, M>, a: AttachmentId, spare: D)
    requires Agrees(w) && NewDevice(w, DeviceViewAt(w, a, spare).0, spare)
    ensures Agrees(DeviceViewAt(w, a, spare).0)
  {
    if DeviceRowAt(w.views, a) == |w.views| && HasDevice(w.core, a) {
      MintKeeps(w.views, w.core, a, spare);
    }
  }

  lemma MediumViewKeeps<D, M>(w: World<D, M>, id: MediaId, spare: M)
    requires Sound(w.core) && DeviceRowsAgree(w.views, w.core) && MediumRowsAgree(w.media, w.core, Some(id))
    requires HasMedium(w.core, id) && NewMedium(w, MediumView(w, id, spare).0, spare)
    ensures Agrees(MediumView(w, id, spare).0)
  {
  }

  lemma {:induction false} WithoutNoDevice<D>(views: seq<DeviceRow<D>>, a: AttachmentId)
    requires forall i | 0 <= i < |views| :: views[i].attachment != a
    ensures WithoutDevice(views, a) == views
  {
    if views != [] {
      WithoutNoDevice(views[1..], a);
    }
  }

  lemma {:induction false} WithoutDeviceIs<D>(views: seq<DeviceRow<D>>, a: AttachmentId, at: nat)
    requires forall i, j | 0 <= i < j < |views| :: views[i].attachment != views[j].attachment
    requires at < |views| && views[at].attachment == a
    ensures WithoutDevice(views, a) == views[..at] + views[at + 1..]
  {
    if at == 0 {
      WithoutNoDevice(views[1..], a);
    } else {
      var rest := views[1..];
      WithoutDeviceIs(rest, a, at - 1);
      assert views[..at] == [views[0]] + rest[..at - 1] && views[at + 1..] == rest[at..];
    }
  }

  lemma {:induction false} WithoutNoMedium<M>(media: seq<MediumRow<M>>, id: MediaId)
    requires forall i | 0 <= i < |media| :: media[i].id != id
    ensures WithoutMedium(media, id) == media
  {
    if media != [] {
      WithoutNoMedium(media[1..], id);
    }
  }

  lemma {:induction false} WithoutMediumIs<M>(media: seq<MediumRow<M>>, id: MediaId, at: nat)
    requires forall i, j | 0 <= i < j < |media| :: media[i].id != media[j].id
    requires at < |media| && media[at].id == id
    ensures WithoutMedium(media, id) == media[..at] + media[at + 1..]
  {
    if at == 0 {
      WithoutNoMedium(media[1..], id);
    } else {
      var rest := media[1..];
      WithoutMediumIs(rest, id, at - 1);
      assert media[..at] == [media[0]] + rest[..at - 1] && media[at + 1..] == rest[at..];
    }
  }

  lemma WithoutDeviceRows<D>(views: seq<DeviceRow<D>>, a: AttachmentId)
    requires forall i, j | 0 <= i < j < |views| :: views[i].attachment != views[j].attachment
    ensures var at := DeviceRowAt(views, a);
      WithoutDevice(views, a) == if at < |views| then views[..at] + views[at + 1..] else views
  {
    var at := DeviceRowAt(views, a);
    if at < |views| { WithoutDeviceIs(views, a, at); } else { WithoutNoDevice(views, a); }
  }

  lemma WithoutMediumRows<M>(media: seq<MediumRow<M>>, id: MediaId)
    requires forall i, j | 0 <= i < j < |media| :: media[i].id != media[j].id
    ensures var at := MediumRowAt(media, id);
      WithoutMedium(media, id) == if at < |media| then media[..at] + media[at + 1..] else media
  {
    var at := MediumRowAt(media, id);
    if at < |media| { WithoutMediumIs(media, id, at); } else { WithoutNoMedium(media, id); }
  }

  lemma WithoutDeviceRow<D>(views: seq<DeviceRow<D>>, a: AttachmentId, i: nat)
    requires forall i, j | 0 <= i < j < |views| :: views[i].attachment != views[j].attachment
    requires i < |WithoutDevice(views, a)|
    ensures var from := if i < DeviceRowAt(views, a) then i else i + 1;
      from < |views| && WithoutDevice(views, a)[i] == views[from] && views[from].attachment != a
  {
    WithoutDeviceRows(views, a);
  }

  lemma WithoutMediumRow<M>(media: seq<MediumRow<M>>, id: MediaId, k: nat)
    requires forall i, j | 0 <= i < j < |media| :: media[i].id != media[j].id
    requires k < |WithoutMedium(media, id)|
    ensures var from := if k < MediumRowAt(media, id) then k else k + 1;
      from < |media| && WithoutMedium(media, id)[k] == media[from] && media[from].id != id
  {
    WithoutMediumRows(media, id);
  }

  lemma WithoutDeviceAgrees<D>(views: seq<DeviceRow<D>>, core: Core, after: Core, a: AttachmentId)
    requires DeviceRowsAgree(views, core) && forall b | a != b :: KeepsDevice(core, after, b)
    ensures DeviceRowsAgree(WithoutDevice(views, a), after)
    ensures DeviceRowAt(WithoutDevice(views, a), a) == |WithoutDevice(views, a)|
  {
    var rest := WithoutDevice(views, a);
    forall i | 0 <= i < |rest|
      ensures var from := if i < DeviceRowAt(views, a) then i else i + 1;
        from < |views| && rest[i] == views[from] && rest[i].attachment != a
        && KeepsDevice(core, after, rest[i].attachment)
    {
      WithoutDeviceRow(views, a, i);
    }
  }

  lemma WithoutMediumDistinct<M>(media: seq<MediumRow<M>>, core: Core, id: MediaId)
    requires MediumRowsAgree(media, core, None)
    ensures var rest := WithoutMedium(media, id);
      forall i, j | 0 <= i < j < |rest| :: rest[i].id != rest[j].id && rest[i].view != rest[j].view
  {
    WithoutMediumRows(media, id);
  }

  lemma WithoutMediumAgrees<M>(media: seq<MediumRow<M>>, core: Core, after: Core, id: MediaId)
    requires MediumRowsAgree(media, core, None)
    requires forall other: MediaId | other != id :: KeepsMedium(core, after, other)
    ensures MediumRowsAgree(WithoutMedium(media, id), after, None)
    ensures MediumRowAt(WithoutMedium(media, id), id) == |WithoutMedium(media, id)|
  {
    WithoutMediumDistinct(media, core, id);
    var rest := WithoutMedium(media, id);
    forall k | 0 <= k < |rest|
      ensures rest[k].id != id && HasMedium(after, rest[k].id) && rest[k].facts == FactsOf(after, rest[k].id)
    {
      WithoutMediumRow(media, id, k);
      assert KeepsMedium(core, after, rest[k].id);
    }
  }

  lemma AddedKeeps<D, M>(w: World<D, M>, added: (Core, Result<AttachmentId, Error>), spare: D)
    requires Agrees(w) && Sound(added.0) && Preserves(w.core, added.0, None, None)
    requires NewDevice(w, Added(w, added, spare).0, spare)
    ensures Agrees(Added(w, added, spare).0)
  {
    CoreKept(w, added.0);
    if added.1.Ok? && Parse(Display(added.1.value)).Some? {
      DeviceViewKeeps(w.(core := added.0), Parse(Display(added.1.value)).value, spare);
    }
  }

  lemma LoadedKeeps<D, M>(w: World<D, M>, build: Build, spare: M)
    requires Agrees(w) && NewMedium(w, Loaded(w, Pools.Load(w.core, build), spare).0, spare)
    ensures Agrees(Loaded(w, Pools.Load(w.core, build), spare).0)
  {
    var (core, result) := Pools.Load(w.core, build);
    if result.Ok? {
      AdmitKeepsSound(w.core, build.state);
      AdmitPreserves(w.core, build.state);
      CoreKept(w, core);
      MediumViewKeeps(w.(core := core), result.value, spare);
    }
  }

  lemma RecordedKeeps<D, M>(w: World<D, M>, id: MediaId, article: string, device: DeviceType, spare: M)
    requires Agrees(w) && NewMedium(w, Next(w, RecordAs(id, article, device, spare)), spare)
    ensures Agrees(Next(w, RecordAs(id, article, device, spare)))
  {
    var (core, result) := Pools.RecordAs(w.core, id, article, device);
    if result.Ok? {
      RecordAsKeepsSound(w.core, id, article, device);
      RecordAsPreserves(w.core, id, article, device);
      DeviceRowsKept(w.views, w.core, core);
      forall k | 0 <= k < |w.media|
        ensures HasMedium(core, w.media[k].id)
        ensures w.media[k].id != id ==> w.media[k].facts == FactsOf(core, w.media[k].id)
      {
        assert w.media[k].id != id ==> KeepsMedium(w.core, core, w.media[k].id);
      }
      MediumViewKeeps(w.(core := core), id, spare);
    }
  }

  lemma ReleasedDeviceKeeps<D, M>(w: World<D, M>, text: string)
    requires Agrees(w)
    ensures Agrees(ReleasedDevice(w, text).0)
  {
    if Parse(text).Some? {
      var a := Parse(text).value;
      ReleaseDeviceKeepsSound(w.core, a);
      ReleasedDeviceRows(w, a);
    }
  }

  lemma ReleasedDeviceRows<D, M>(w: World<D, M>, a: AttachmentId)
    requires Agrees(w)
    ensures var core := Pools.ReleaseDevice(w.core, a).0;
      DeviceRowsAgree(WithoutDevice(w.views, a), core) && MediumRowsAgree(w.media, core, None)
  {
    var core := Pools.ReleaseDevice(w.core, a).0;
    ReleaseDevicePreserves(w.core, a);
    WithoutDeviceAgrees(w.views, w.core, core, a);
    MediumRowsKept(w.media, w.core, core);
  }

  lemma ReleasedMediaKeeps<D, M>(w: World<D, M>, id: MediaId)
    requires Agrees(w)
    ensures Agrees(ReleasedMedia(w, id).0)
  {
    var core := Pools.ReleaseMedia(w.core, id).0;
    ReleaseMediaKeepsSound(w.core, id);
    ReleaseMediaPreserves(w.core, id);
    WithoutMediumAgrees(w.media, w.core, core, id);
    DeviceRowsKept(w.views, w.core, core);
  }

  lemma DeviceStepKeeps<D, M>(w: World<D, M>, step: Step<D, M>)
    requires Agrees(w) && Enabled(w, step)
    requires step.AddDevice? || step.AddDeviceFor? || step.Insert? || step.Eject?
    ensures Agrees(Next(w, step))
  {
    match step
    case AddDevice(text, index, spare) =>
      if SlotFromId(text).Some? {
        var slot := SlotFromId(text).value;
        var at := if index.Some? then index.value else LowestFree(w.core, slot);
        PlaceKeepsSound(w.core, slot, at);
        PlacePreserves(w.core, slot, at);
        AddedKeeps(w, Pools.AddDevice(w.core, slot, index), spare);
      }
    case AddDeviceFor(build, spare) =>
      AddDeviceForIsOneAct(w.core, build);
      AddDeviceForPreserves(w.core, build);
      AddedKeeps(w, Pools.AddDeviceFor(w.core, build), spare);
    case Insert(a, id) =>
      if HasDevice(w.core, a) {
        InsertKeepsSound(w.core, a, id);
        InsertPreserves(w.core, a, id);
        CoreKept(w, Pools.Insert(w.core, a, id).0);
      }
    case Eject(a) =>
      if HasDevice(w.core, a) {
        EjectKeepsSound(w.core, a);
        EjectPreserves(w.core, a);
        CoreKept(w, Pools.Eject(w.core, a).0);
      }
  }

  lemma LoadStepKeeps<D, M>(w: World<D, M>, step: Step<D, M>)
    requires Agrees(w) && Enabled(w, step) && (step.Load? || step.LoadAs?)
    ensures Agrees(Next(w, step))
  {
    match step
    case Load(build, spare) => LoadedKeeps(w, build, spare);
    case LoadAs(build, recorded, device, spare) =>
      if device in recorded && build.Built? && build.state.content.Space? {
        LoadedKeeps(w, build.(state := build.state.(content := Space(Some(device)))), spare);
      } else if device in recorded {
        LoadedKeeps(w, build, spare);
      }
  }

  lemma StepKeepsAgrees<D, M>(w: World<D, M>, step: Step<D, M>)
    requires Agrees(w) && Enabled(w, step)
    ensures Agrees(Next(w, step))
  {
    match step {
      case FindDevice(text, spare) =>
        if Parse(text).Some? {
          DeviceViewKeeps(w, Parse(text).value, spare);
        }
      case ReleaseDevice(text) => ReleasedDeviceKeeps(w, text);
      case DeviceMedium(a, spare) =>
        if LinkedMedium(w.core, a).Some? {
          LinksAgree(w.core, a, LinkedMedium(w.core, a).value);
          MediumViewKeeps(w, LinkedMedium(w.core, a).value, spare);
        }
      case Load(_, _) => LoadStepKeeps(w, step);
      case LoadAs(_, _, _, _) => LoadStepKeeps(w, step);
      case FindMedium(id, spare) =>
        if HasMedium(w.core, id) {
          MediumViewKeeps(w, id, spare);
        }
      case ReleaseMedia(id) => ReleasedMediaKeeps(w, id);
      case RecordAs(id, article, device, spare) => RecordedKeeps(w, id, article, device, spare);
      case _ => DeviceStepKeeps(w, step);
    }
  }

  lemma {:induction false} RunKeepsAgrees<D, M>(w: World<D, M>, steps: seq<Step<D, M>>, last: World<D, M>)
    requires Agrees(w) && Run(w, steps, last)
    ensures Agrees(last)
    decreases |steps|
  {
    if steps != [] {
      StepKeepsAgrees(w, steps[0]);
      RunKeepsAgrees(Next(w, steps[0]), steps[1..], last);
    }
  }

  /** **In every state a session can reach** the tables agree with the pool. */
  lemma ViewsAgree<D, M>(steps: seq<Step<D, M>>, w: World<D, M>)
    requires Run(Opened(), steps, w)
    ensures Agrees(w)
  {
    RunKeepsAgrees(Opened<D, M>(), steps, w);
  }

  // ---- A cached answer is the answer

  /** Handing out a cached view with no look at the core answers exactly as looking would: there is a
      view just where there is a device, and what the view says is what one minted now would say. */
  lemma DeviceLookupIsCurrent<D, M>(w: World<D, M>, a: AttachmentId, spare: D)
    requires DeviceRowsAgree(w.views, w.core)
    ensures DeviceViewAt(w, a, spare).1.Some? <==> HasDevice(w.core, a)
    ensures DeviceViewAt(w, a, spare).1.Some? ==>
      Says(DeviceViewAt(w, a, spare).0.views, DeviceViewAt(w, a, spare).1.value, a, w.core)
  {
    if HasDevice(w.core, a) && DeviceRowAt(w.views, a) == |w.views| {
      MintedRowAt(w.views, Minted(spare, a, DeviceAt(w.core, a).slot));
    }
  }

  /** The row for `a` is `view`'s, and says what the device at `a` is. */
  ghost predicate Says<D>(views: seq<DeviceRow<D>>, view: D, a: AttachmentId, core: Core)
    requires HasDevice(core, a)
  {
    var at := DeviceRowAt(views, a);
    at < |views| && views[at] == Minted(view, a, DeviceAt(core, a).slot)
  }

  lemma MintedRowAt<D>(views: seq<DeviceRow<D>>, row: DeviceRow<D>)
    requires DeviceRowAt(views, row.attachment) == |views|
    ensures DeviceRowAt(views + [row], row.attachment) == |views|
  {
    assert (views + [row])[|views|].attachment == row.attachment;
    assert forall i | 0 <= i < |views| :: (views + [row])[i] == views[i];
  }

  /** A medium view that was looked up says what its medium says. */
  lemma MediumLookupIsCurrent<D, M>(w: World<D, M>, id: MediaId, spare: M)
    ensures var (after, view) := MediumView(w, id, spare);
      var at := MediumRowAt(after.media, id);
      after.core == w.core && at < |after.media| && after.media[at] == MediumRow(view, id, FactsOf(w.core, id))
  {
    var after := MediumView(w, id, spare).0;
    var at := MediumRowAt(w.media, id);
    assert after.media[at].id == id;
    assert MediumRowAt(after.media, id) == at;
  }

  /** Through a link, no absent medium is ever viewed: the slot's identity is in the pool, and the medium
      found there names the slot back. */
  lemma LinkedMediumIsPooled<D, M>(steps: seq<Step<D, M>>, w: World<D, M>, a: AttachmentId)
    requires Run(Opened(), steps, w) && LinkedMedium(w.core, a).Some?
    ensures var id := LinkedMedium(w.core, a).value;
      HasMedium(w.core, id) && MediumAt(w.core, id).link == Some(a)
      && SlotOf(MediumAt(w.core, id).state.content) == Some(DeviceAt(w.core, a).slot)
  {
    ViewsAgree(steps, w);
    LinksAgree(w.core, a, LinkedMedium(w.core, a).value);
  }

  lemma RowsOfReleased<D, M>(w: World<D, M>, text: string, a: AttachmentId)
    requires Agrees(w) && Parse(text) == Some(a) && ReleasedDevice(w, text).1
    ensures DeviceRowAt(ReleasedDevice(w, text).0.views, a) == |ReleasedDevice(w, text).0.views|
  {
    ReleaseDevicePreserves(w.core, a);
    WithoutDeviceAgrees(w.views, w.core, Pools.ReleaseDevice(w.core, a).0, a);
  }

  lemma PlacedView<D, M>(w: World<D, M>, slot: DeviceSlot, a: AttachmentId, spare: D)
    requires DeviceRowAt(w.views, a) == |w.views| && !HasDevice(w.core, a) && a.prefix == Prefix(slot)
    ensures var placed := w.(core := Place(w.core, slot, a.index).0);
      var (after, view) := DeviceViewAt(placed, a, spare);
      view == Some(spare) && after.views == w.views + [Minted(spare, a, slot)]
  {
    PlacePreserves(w.core, slot, a.index);
  }

  /** A device released and another added in its place: the view answered is a new object, and it says
      what the new device is, whatever type the released one was. */
  lemma ReaddedIsCurrent<D, M>(w: World<D, M>, text: string, a: AttachmentId, slot: DeviceSlot, spare: D)
    requires Agrees(w) && Parse(text) == Some(a) && ReleasedDevice(w, text).1 && a.prefix == Prefix(slot)
    ensures var released := ReleasedDevice(w, text).0;
      var (after, answer) := Added(released, Pools.AddDevice(released.core, slot, Some(a.index)), spare);
      answer == TheDevice(Some(spare)) && after.views == released.views + [Minted(spare, a, slot)]
  {
    var released := ReleasedDevice(w, text).0;
    RowsOfReleased(w, text, a);
    ReleaseDeviceKeepsMedia(w.core, a);
    DisplayParses(AttachmentId(Prefix(slot), a.index));
    PlacedView(released, slot, a, spare);
  }

  // ---- A view stays the same object until what it names is released

  ghost predicate HoldsDevice<D, M>(w: World<D, M>, a: AttachmentId, d: D) {
    var at := DeviceRowAt(w.views, a);
    at < |w.views| && w.views[at].view == d
  }

  ghost predicate HoldsMedium<D, M>(w: World<D, M>, id: MediaId, m: M) {
    var at := MediumRowAt(w.media, id);
    at < |w.media| && w.media[at].view == m
  }

  lemma {:induction false} DeviceRowAfter<D>(views: seq<DeviceRow<D>>, more: seq<DeviceRow<D>>, a: AttachmentId)
    requires DeviceRowAt(views, a) < |views|
    ensures DeviceRowAt(views + more, a) == DeviceRowAt(views, a)
  {
    assert (views + more)[DeviceRowAt(views, a)].attachment == a;
    assert forall i | 0 <= i < |views| :: (views + more)[i] == views[i];
  }

  lemma DeviceViewHolds<D, M>(w: World<D, M>, b: AttachmentId, spare: D, a: AttachmentId, d: D)
    requires HoldsDevice(w, a, d)
    ensures HoldsDevice(DeviceViewAt(w, b, spare).0, a, d)
  {
    var after := DeviceViewAt(w, b, spare).0;
    if after.views != w.views {
      DeviceRowAfter(w.views, after.views[|w.views|..], a);
      assert after.views == w.views + after.views[|w.views|..];
    }
  }

  lemma DeviceRowFrom<D>(first: DeviceRow<D>, rest: seq<DeviceRow<D>>, a: AttachmentId)
    ensures DeviceRowAt([first] + rest, a) == if first.attachment == a then 0 else 1 + DeviceRowAt(rest, a)
  {
    assert ([first] + rest)[1..] == rest;
  }

  lemma WithoutDeviceFrom<D>(views: seq<DeviceRow<D>>, a: AttachmentId)
    requires views != []
    ensures var rest := WithoutDevice(views[1..], a);
      WithoutDevice(views, a) == if views[0].attachment == a then rest else [views[0]] + rest
  {
  }

  /** The same row stands for `b` in both tables. */
  ghost predicate SameRow<D>(views: seq<DeviceRow<D>>, rest: seq<DeviceRow<D>>, b: AttachmentId) {
    && DeviceRowAt(views, b) < |views| && DeviceRowAt(rest, b) < |rest|
    && rest[DeviceRowAt(rest, b)] == views[DeviceRowAt(views, b)]
  }

  lemma SameRowFirst<D>(first: DeviceRow<D>, tail: seq<DeviceRow<D>>, rest: seq<DeviceRow<D>>)
    ensures SameRow([first] + tail, [first] + rest, first.attachment)
  {
  }

  lemma SameRowLater<D>(first: DeviceRow<D>, tail: seq<DeviceRow<D>>, rest: seq<DeviceRow<D>>, b: AttachmentId)
    requires SameRow(tail, rest, b) && first.attachment != b
    ensures SameRow([first] + tail, rest, b) && SameRow([first] + tail, [first] + rest, b)
  {
    DeviceRowFrom(first, tail, b);
    DeviceRowFrom(first, rest, b);
  }

  lemma {:induction false} WithoutOtherDevice<D>(views: seq<DeviceRow<D>>, a: AttachmentId, b: AttachmentId)
    requires a != b && DeviceRowAt(views, b) < |views|
    ensures SameRow(views, WithoutDevice(views, a), b)
  {
    var first, tail := views[0], views[1..];
    WithoutDeviceFrom(views, a);
    assert views == [first] + tail;
    if first.attachment == b {
      SameRowFirst(first, tail, WithoutDevice(tail, a));
    } else {
      DeviceRowFrom(first, tail, b);
      WithoutOtherDevice(tail, a, b);
      SameRowLater(first, tail, WithoutDevice(tail, a), b);
    }
  }

  /** `step` releases the device at `a`, or asks to. */
  predicate Releases<D, M>(step: Step<D, M>, a: AttachmentId) {
    step.ReleaseDevice? && Parse(step.text) == Some(a)
  }

  /** The steps that add, find and release devices are the ones that touch the table of their views. */
  predicate OnDevices<D, M>(step: Step<D, M>) {
    step.AddDevice? || step.AddDeviceFor? || step.FindDevice? || step.ReleaseDevice?
  }

  lemma ViewsUntouched<D, M>(w: World<D, M>, step: Step<D, M>)
    requires !OnDevices(step)
    ensures Next(w, step).views == w.views
  {
  }

  lemma ReleaseHoldsDevice<D, M>(w: World<D, M>, text: string, a: AttachmentId, d: D)
    requires HoldsDevice(w, a, d) && Parse(text) != Some(a)
    ensures HoldsDevice(ReleasedDevice(w, text).0, a, d)
  {
    if Parse(text).Some? {
      WithoutOtherDevice(w.views, Parse(text).value, a);
    }
  }

  lemma StepHoldsDevice<D, M>(w: World<D, M>, step: Step<D, M>, a: AttachmentId, d: D)
    requires HoldsDevice(w, a, d) && !Releases(step, a)
    ensures HoldsDevice(Next(w, step), a, d)
  {
    if step.ReleaseDevice? {
      ReleaseHoldsDevice(w, step.text, a, d);
    } else if OnDevices(step) {
      LookupHoldsDevice(w, step, a, d);
    } else {
      ViewsUntouched(w, step);
    }
  }

  lemma LookupHoldsDevice<D, M>(w: World<D, M>, step: Step<D, M>, a: AttachmentId, d: D)
    requires HoldsDevice(w, a, d) && (step.AddDevice? || step.AddDeviceFor? || step.FindDevice?)
    ensures HoldsDevice(Next(w, step), a, d)
  {
    match step
    case AddDevice(text, index, spare) => AddHolds(w, text, index, spare, a, d);
    case AddDeviceFor(build, spare) => AddedHolds(w, Pools.AddDeviceFor(w.core, build), spare, a, d);
    case FindDevice(text, spare) =>
      if Parse(text).Some? {
        DeviceViewHolds(w, Parse(text).value, spare, a, d);
      }
  }

  lemma AddHolds<D, M>(w: World<D, M>, text: string, index: Option<u32>, spare: D, a: AttachmentId, d: D)
    requires HoldsDevice(w, a, d)
    ensures HoldsDevice(Next(w, AddDevice(text, index, spare)), a, d)
  {
    if SlotFromId(text).Some? {
      AddedHolds(w, Pools.AddDevice(w.core, SlotFromId(text).value, index), spare, a, d);
    }
  }

  lemma AddedHolds<D, M>(w: World<D, M>, added: (Core, Result<AttachmentId, Error>), spare: D, a: AttachmentId, d: D)
    requires HoldsDevice(w, a, d)
    ensures HoldsDevice(Added(w, added, spare).0, a, d)
  {
    if added.1.Ok? && Parse(Display(added.1.value)).Some? {
      DeviceViewHolds(w.(core := added.0), Parse(Display(added.1.value)).value, spare, a, d);
    }
  }

  lemma {:induction false} DeviceViewStays<D, M>(w: World<D, M>, steps: seq<Step<D, M>>, last: World<D, M>,
                                                 a: AttachmentId, d: D)
    requires Agrees(w) && Run(w, steps, last) && HoldsDevice(w, a, d)
    requires forall i | 0 <= i < |steps| :: !Releases(steps[i], a)
    ensures HoldsDevice(last, a, d)
    decreases |steps|
  {
    if steps != [] {
      StepKeepsAgrees(w, steps[0]);
      StepHoldsDevice(w, steps[0], a, d);
      DeviceViewStays(Next(w, steps[0]), steps[1..], last, a, d);
    }
  }

  /** **Identity**: from the moment a view of a device is handed out until that device is released,
      every lookup of it, by any text that names it, answers with the same object. */
  lemma SameDeviceView<D, M>(w: World<D, M>, steps: seq<Step<D, M>>, last: World<D, M>,
                             a: AttachmentId, d: D, text: string, spare: D)
    requires Agrees(w) && Run(w, steps, last) && HoldsDevice(w, a, d) && Parse(text) == Some(a)
    requires forall i | 0 <= i < |steps| :: !Releases(steps[i], a)
    ensures DeviceView(last, text, spare) == (last, Some(d))
  {
    DeviceViewStays(w, steps, last, a, d);
  }

  lemma MediumViewHolds<D, M>(w: World<D, M>, other: MediaId, spare: M, id: MediaId, m: M)
    requires HoldsMedium(w, id, m)
    ensures HoldsMedium(MediumView(w, other, spare).0, id, m)
  {
    var after := MediumView(w, other, spare).0;
    var at := MediumRowAt(w.media, id);
    assert after.media[at].id == id;
    assert forall k | 0 <= k < |w.media| :: after.media[k].id == w.media[k].id;
    assert MediumRowAt(after.media, id) == at;
  }

  lemma MediumRowFrom<M>(first: MediumRow<M>, rest: seq<MediumRow<M>>, id: MediaId)
    ensures MediumRowAt([first] + rest, id) == if first.id == id then 0 else 1 + MediumRowAt(rest, id)
  {
    assert ([first] + rest)[1..] == rest;
  }

  lemma WithoutMediumFrom<M>(media: seq<MediumRow<M>>, id: MediaId)
    requires media != []
    ensures var rest := WithoutMedium(media[1..], id);
      WithoutMedium(media, id) == if media[0].id == id then rest else [media[0]] + rest
  {
  }

  ghost predicate SameMedium<M>(media: seq<MediumRow<M>>, rest: seq<MediumRow<M>>, id: MediaId) {
    && MediumRowAt(media, id) < |media| && MediumRowAt(rest, id) < |rest|
    && rest[MediumRowAt(rest, id)] == media[MediumRowAt(media, id)]
  }

  lemma SameMediumFirst<M>(first: MediumRow<M>, tail: seq<MediumRow<M>>, rest: seq<MediumRow<M>>)
    ensures SameMedium([first] + tail, [first] + rest, first.id)
  {
  }

  lemma SameMediumLater<M>(first: MediumRow<M>, tail: seq<MediumRow<M>>, rest: seq<MediumRow<M>>, id: MediaId)
    requires SameMedium(tail, rest, id) && first.id != id
    ensures SameMedium([first] + tail, rest, id) && SameMedium([first] + tail, [first] + rest, id)
  {
    MediumRowFrom(first, tail, id);
    MediumRowFrom(first, rest, id);
  }

  lemma {:induction false} WithoutOtherMedium<M>(media: seq<MediumRow<M>>, id: MediaId, other: MediaId)
    requires id != other && MediumRowAt(media, other) < |media|
    ensures SameMedium(media, WithoutMedium(media, id), other)
  {
    var first, tail := media[0], media[1..];
    WithoutMediumFrom(media, id);
    assert media == [first] + tail;
    if first.id == other {
      SameMediumFirst(first, tail, WithoutMedium(tail, id));
    } else {
      MediumRowFrom(first, tail, other);
      WithoutOtherMedium(tail, id, other);
      SameMediumLater(first, tail, WithoutMedium(tail, id), other);
    }
  }

  lemma LoadedHolds<D, M>(w: World<D, M>, loaded: (Core, Result<MediaId, Error>), spare: M, id: MediaId, m: M)
    requires HoldsMedium(w, id, m)
    ensures HoldsMedium(Loaded(w, loaded, spare).0, id, m)
  {
    if loaded.1.Ok? {
      MediumViewHolds(w.(core := loaded.0), loaded.1.value, spare, id, m);
    }
  }

  lemma MediaUntouched<D, M>(w: World<D, M>, step: Step<D, M>)
    requires OnDevices(step) || step.Insert? || step.Eject?
    ensures Next(w, step).media == w.media
  {
  }

  lemma RecordHoldsMedium<D, M>(w: World<D, M>, step: Step<D, M>, id: MediaId, m: M)
    requires step.RecordAs? && HoldsMedium(w, id, m)
    ensures HoldsMedium(Next(w, step), id, m)
  {
    var core := Pools.RecordAs(w.core, step.id, step.article, step.device).0;
    MediumViewHolds(w.(core := core), step.id, step.spareM, id, m);
  }

  lemma StepHoldsMedium<D, M>(w: World<D, M>, step: Step<D, M>, id: MediaId, m: M)
    requires forall i, j | 0 <= i < j < |w.media| :: w.media[i].id != w.media[j].id
    requires HoldsMedium(w, id, m) && step != ReleaseMedia(id)
    ensures HoldsMedium(Next(w, step), id, m)
  {
    match step {
      case DeviceMedium(a, spare) =>
        if LinkedMedium(w.core, a).Some? {
          MediumViewHolds(w, LinkedMedium(w.core, a).value, spare, id, m);
        }
      case Load(build, spare) => LoadedHolds(w, Pools.Load(w.core, build), spare, id, m);
      case LoadAs(build, recorded, device, spare) =>
        LoadedHolds(w, Pools.LoadAs(w.core, build, recorded, device), spare, id, m);
      case FindMedium(other, spare) => MediumViewHolds(w, other, spare, id, m);
      case ReleaseMedia(other) => WithoutOtherMedium(w.media, other, id);
      case RecordAs(_, _, _, _) => RecordHoldsMedium(w, step, id, m);
      case _ => MediaUntouched(w, step);
    }
  }

  /** And the same for a medium: one object until the medium is released, its facts current at every
      lookup. */
  lemma {:induction false} SameMediumView<D, M>(w: World<D, M>, steps: seq<Step<D, M>>, last: World<D, M>,
                                               id: MediaId, m: M, spare: M)
    requires Agrees(w) && Run(w, steps, last) && HoldsMedium(w, id, m)
    requires forall i | 0 <= i < |steps| :: steps[i] != ReleaseMedia(id)
    ensures HoldsMedium(last, id, m) && MediumView(last, id, spare).1 == m && HasMedium(last.core, id)
    decreases |steps|
  {
    if steps != [] {
      StepKeepsAgrees(w, steps[0]);
      StepHoldsMedium(w, steps[0], id, m);
      SameMediumView(Next(w, steps[0]), steps[1..], last, id, m, spare);
    }
  }

  // ---- Release is final

  lemma AddStepRevivesNone<D, M>(w: World<D, M>, step: Step<D, M>, id: MediaId)
    requires Sound(w.core) && (step.AddDevice? || step.AddDeviceFor?)
    ensures NoRevival(w.core, Next(w, step).core, id) && w.core.next <= Next(w, step).core.next
  {
    match step
    case AddDevice(_, _, _) =>
    case AddDeviceFor(build, _) => AddDeviceForPreserves(w.core, build);
  }

  lemma DeviceStepRevivesNone<D, M>(w: World<D, M>, step: Step<D, M>, id: MediaId)
    requires Sound(w.core) && (step.ReleaseDevice? || step.Insert? || step.Eject?)
    ensures NoRevival(w.core, Next(w, step).core, id) && w.core.next <= Next(w, step).core.next
  {
    match step
    case ReleaseDevice(text) =>
      if Parse(text).Some? {
        ReleaseDevicePreserves(w.core, Parse(text).value);
      }
    case Insert(a, other) =>
      if HasDevice(w.core, a) {
        InsertPreserves(w.core, a, other);
      }
    case Eject(a) =>
      if HasDevice(w.core, a) {
        EjectPreserves(w.core, a);
      }
  }

  lemma LoadStepRevivesNone<D, M>(w: World<D, M>, step: Step<D, M>, id: MediaId)
    requires Sound(w.core) && (step.Load? || step.LoadAs?)
    ensures NoRevival(w.core, Next(w, step).core, id) && w.core.next <= Next(w, step).core.next
  {
    var build := step.build;
    if step.LoadAs? && build.Built? && build.state.content.Space? {
      AdmitRevivesNone(w.core, build.(state := build.state.(content := Space(Some(step.device)))), id);
    } else {
      AdmitRevivesNone(w.core, build, id);
    }
  }

  lemma LookupRevivesNone<D, M>(w: World<D, M>, step: Step<D, M>, id: MediaId)
    requires step.FindDevice? || step.DeviceMedium? || step.FindMedium?
    ensures NoRevival(w.core, Next(w, step).core, id) && w.core.next <= Next(w, step).core.next
  {
  }

  lemma MediumStepRevivesNone<D, M>(w: World<D, M>, step: Step<D, M>, id: MediaId)
    requires Sound(w.core) && (step.ReleaseMedia? || step.RecordAs?)
    ensures NoRevival(w.core, Next(w, step).core, id) && w.core.next <= Next(w, step).core.next
  {
    match step
    case ReleaseMedia(other) => ReleaseMediaPreserves(w.core, other);
    case RecordAs(other, article, device, _) => RecordAsPreserves(w.core, other, article, device);
  }

  lemma StepRevivesNone<D, M>(w: World<D, M>, step: Step<D, M>, id: MediaId)
    requires Sound(w.core)
    ensures NoRevival(w.core, Next(w, step).core, id) && w.core.next <= Next(w, step).core.next
  {
    match step {
      case AddDevice(_, _, _) => AddStepRevivesNone(w, step, id);
      case AddDeviceFor(_, _) => AddStepRevivesNone(w, step, id);
      case Load(_, _) => LoadStepRevivesNone(w, step, id);
      case LoadAs(_, _, _, _) => LoadStepRevivesNone(w, step, id);
      case FindDevice(_, _) => LookupRevivesNone(w, step, id);
      case DeviceMedium(_, _) => LookupRevivesNone(w, step, id);
      case FindMedium(_, _) => LookupRevivesNone(w, step, id);
      case ReleaseMedia(_) => MediumStepRevivesNone(w, step, id);
      case RecordAs(_, _, _, _) => MediumStepRevivesNone(w, step, id);
      case _ => DeviceStepRevivesNone(w, step, id);
    }
  }

  lemma AdmitRevivesNone(core: Core, build: Build, id: MediaId)
    requires Sound(core)
    ensures NoRevival(core, Pools.Load(core, build).0, id) && core.next <= Pools.Load(core, build).0.next
  {
    if build.Built? {
      AdmitPreserves(core, build.state);
    }
  }

  /** **A released medium's identity is never handed to another**: whatever happens afterwards, it names
      nothing, and no view ever names it. */
  lemma {:induction false} NeverRevived<D, M>(w: World<D, M>, steps: seq<Step<D, M>>, last: World<D, M>, id: MediaId)
    requires Agrees(w) && Run(w, steps, last) && id < w.core.next && !HasMedium(w.core, id)
    ensures !HasMedium(last.core, id) && MediumRowAt(last.media, id) == |last.media|
    decreases |steps|
  {
    if steps != [] {
      StepKeepsAgrees(w, steps[0]);
      StepRevivesNone(w, steps[0], id);
      NeverRevived(Next(w, steps[0]), steps[1..], last, id);
    }
  }
}
