/** The session as a caller across the C surface has it: the core, and the two tables of borrowed views
    that name its devices and media by identity. Views are compared as objects; here an object is a
    token of any type, and the table rows are what is in it. */
module Views {
  import opened Wrappers
  import opened Devices
  import opened Pools

  /** What a medium view caches; all absent once its medium is gone. */
  datatype Facts = Facts(
    path: Option<string>, imagePath: Option<string>, article: Option<string>, deviceType: Option<string>)

  datatype DeviceRow<D> = DeviceRow(view: D, attachment: AttachmentId, slot: string, deviceType: Option<string>)

  datatype MediumRow<M> = MediumRow(view: M, id: MediaId, facts: Facts)

  datatype World<D, M> = World(core: Core, views: seq<DeviceRow<D>>, media: seq<MediumRow<M>>)

  function TypeText(device: Option<DeviceType>): Option<string> {
    match device
    case Some(d) => Some(DeviceId(d))
    case None => None
  }

  function SlotType(slot: DeviceSlot): Option<DeviceType> {
    if slot.Recorded? then Some(slot.device) else None
  }

  function FactsOf(core: Core, id: MediaId): Facts {
    if HasMedium(core, id) then
      var state := MediumAt(core, id).state;
      Facts(state.path, state.imagePath, Some(state.article), TypeText(DeviceOf(state.content)))
    else Facts(None, None, None, None)
  }

  function DeviceRowAt<D>(views: seq<DeviceRow<D>>, a: AttachmentId): (at: nat)
    ensures at <= |views| && (forall i | 0 <= i < at :: views[i].attachment != a)
    ensures at < |views| ==> views[at].attachment == a
  {
    if views == [] || views[0].attachment == a then 0 else 1 + DeviceRowAt(views[1..], a)
  }

  function MediumRowAt<M>(media: seq<MediumRow<M>>, id: MediaId): (at: nat)
    ensures at <= |media| && (forall i | 0 <= i < at :: media[i].id != id)
    ensures at < |media| ==> media[at].id == id
  {
    if media == [] || media[0].id == id then 0 else 1 + MediumRowAt(media[1..], id)
  }

  function Minted<D>(spare: D, a: AttachmentId, slot: DeviceSlot): DeviceRow<D> {
    DeviceRow(spare, a, SlotId(slot), TypeText(SlotType(slot)))
  }

  // ---- The lookups: a view already handed out is handed out again, with no look at the core

  function DeviceViewAt<D, M>(w: World<D, M>, a: AttachmentId, spare: D): (r: (World<D, M>, Option<D>))
    ensures r.0.core == w.core && r.0.media == w.media
  {
    var at := DeviceRowAt(w.views, a);
    if at < |w.views| then (w, Some(w.views[at].view))
    else if !HasDevice(w.core, a) then (w, None)
    else (w.(views := w.views + [Minted(spare, a, DeviceAt(w.core, a).slot)]), Some(spare))
  }

  function DeviceView<D, M>(w: World<D, M>, text: string, spare: D): (r: (World<D, M>, Option<D>))
    ensures r.0.core == w.core && r.0.media == w.media
  {
    match Parse(text)
    case None => (w, None)
    case Some(a) => DeviceViewAt(w, a, spare)
  }

  /** Restates a cached view's facts, or mints one; whether the pool holds `id` is not asked. */
  function MediumView<D, M>(w: World<D, M>, id: MediaId, spare: M): (r: (World<D, M>, M))
    ensures r.0.core == w.core && r.0.views == w.views
  {
    var at := MediumRowAt(w.media, id);
    if at < |w.media| then
      (w.(media := w.media[at := w.media[at].(facts := FactsOf(w.core, id))]), w.media[at].view)
    else (w.(media := w.media + [MediumRow(spare, id, FactsOf(w.core, id))]), spare)
  }

  // ---- The verbs

  datatype Step<D, M> =
    | AddDevice(slot: string, index: Option<u32>, spareD: D)
    | AddDeviceFor(build: Build, spareD: D)
    | FindDevice(text: string, spareD: D)
    | ReleaseDevice(text: string)
    | Insert(seat: AttachmentId, id: MediaId)
    | Eject(seat: AttachmentId)
    | DeviceMedium(seat: AttachmentId, spareM: M)
    | Load(build: Build, spareM: M)
    | LoadAs(build: Build, recorded: set<DeviceType>, device: DeviceType, spareM: M)
    | FindMedium(id: MediaId, spareM: M)
    | ReleaseMedia(id: MediaId)
    | RecordAs(id: MediaId, article: string, device: DeviceType, spareM: M)

  datatype Answer<D, M> = TheDevice(d: Option<D>) | TheMedium(m: Option<M>) | Done(ok: bool)

  function AnsweredDevice<D, M>(found: (World<D, M>, Option<D>)): (World<D, M>, Answer<D, M>) {
    (found.0, TheDevice(found.1))
  }

  function AnsweredMedium<D, M>(found: (World<D, M>, M)): (World<D, M>, Answer<D, M>) {
    (found.0, TheMedium(Some(found.1)))
  }

  /** Adding answers through the identity's own text, as the binding does. */
  function Added<D, M>(w: World<D, M>, added: (Core, Result<AttachmentId, Error>), spare: D)
    : (r: (World<D, M>, Answer<D, M>))
    ensures r.0.core == added.0 && r.0.media == w.media
  {
    match added.1
    case Err(_) => (w.(core := added.0), TheDevice(None))
    case Ok(a) => AnsweredDevice(DeviceView(w.(core := added.0), Display(a), spare))
  }

  function Loaded<D, M>(w: World<D, M>, loaded: (Core, Result<MediaId, Error>), spare: M)
    : (r: (World<D, M>, Answer<D, M>))
    ensures r.0.core == loaded.0 && r.0.views == w.views
  {
    match loaded.1
    case Err(_) => (w.(core := loaded.0), TheMedium(None))
    case Ok(id) => AnsweredMedium(MediumView(w.(core := loaded.0), id, spare))
  }

  function WithoutDevice<D>(views: seq<DeviceRow<D>>, a: AttachmentId): seq<DeviceRow<D>> {
    if views == [] then []
    else (if views[0].attachment != a then [views[0]] else []) + WithoutDevice(views[1..], a)
  }

  function WithoutMedium<M>(media: seq<MediumRow<M>>, id: MediaId): seq<MediumRow<M>> {
    if media == [] then []
    else (if media[0].id != id then [media[0]] else []) + WithoutMedium(media[1..], id)
  }

  function ReleasedDevice<D, M>(w: World<D, M>, text: string): (World<D, M>, bool) {
    match Parse(text)
    case None => (w, false)
    case Some(a) =>
      var (core, result) := Pools.ReleaseDevice(w.core, a);
      if result.Ok? then (w.(core := core, views := WithoutDevice(w.views, a)), true) else (w, false)
  }

  function ReleasedMedia<D, M>(w: World<D, M>, id: MediaId): (World<D, M>, bool) {
    var (core, result) := Pools.ReleaseMedia(w.core, id);
    if result.Ok? then (w.(core := core, media := WithoutMedium(w.media, id)), true) else (w, false)
  }

  /** A view is restated after the layout is recorded, since the medium's device has changed. */
  function RecordedAs<D, M>(w: World<D, M>, id: MediaId, article: string, device: DeviceType, spare: M)
    : (World<D, M>, bool)
  {
    var (core, result) := Pools.RecordAs(w.core, id, article, device);
    if result.Ok? then (MediumView(w.(core := core), id, spare).0, true) else (w, false)
  }

  function LinkedMedium(core: Core, a: AttachmentId): Option<MediaId> {
    if HasDevice(core, a) then DeviceAt(core, a).medium else None
  }

  function Act<D, M>(w: World<D, M>, step: Step<D, M>): (World<D, M>, Answer<D, M>) {
    match step
    case AddDevice(text, index, spare) =>
      (match SlotFromId(text)
       case None => (w, TheDevice(None))
       case Some(slot) => Added(w, Pools.AddDevice(w.core, slot, index), spare))
    case AddDeviceFor(build, spare) => Added(w, Pools.AddDeviceFor(w.core, build), spare)
    case FindDevice(text, spare) => AnsweredDevice(DeviceView(w, text, spare))
    case ReleaseDevice(text) => (ReleasedDevice(w, text).0, Done(ReleasedDevice(w, text).1))
    case Insert(a, id) =>
      if !HasDevice(w.core, a) then (w, Done(false))
      else (w.(core := Pools.Insert(w.core, a, id).0), Done(Pools.Insert(w.core, a, id).1.Ok?))
    case Eject(a) =>
      if !HasDevice(w.core, a) then (w, Done(false))
      else (w.(core := Pools.Eject(w.core, a).0), Done(Pools.Eject(w.core, a).1.Ok?))
    case DeviceMedium(a, spare) =>
      (match LinkedMedium(w.core, a)
       case None => (w, TheMedium(None))
       case Some(id) => AnsweredMedium(MediumView(w, id, spare)))
    case Load(build, spare) => Loaded(w, Pools.Load(w.core, build), spare)
    case LoadAs(build, recorded, device, spare) => Loaded(w, Pools.LoadAs(w.core, build, recorded, device), spare)
    case FindMedium(id, spare) =>
      if !HasMedium(w.core, id) then (w, TheMedium(None)) else AnsweredMedium(MediumView(w, id, spare))
    case ReleaseMedia(id) => (ReleasedMedia(w, id).0, Done(ReleasedMedia(w, id).1))
    case RecordAs(id, article, device, spare) =>
      (RecordedAs(w, id, article, device, spare).0, Done(RecordedAs(w, id, article, device, spare).1))
  }

  function Next<D, M>(w: World<D, M>, step: Step<D, M>): World<D, M> {
    Act(w, step).0
  }

  ghost predicate NewDevice<D, M>(w: World<D, M>, after: World<D, M>, spare: D) {
    |after.views| == |w.views| || forall i | 0 <= i < |w.views| :: w.views[i].view != spare
  }

  ghost predicate NewMedium<D, M>(w: World<D, M>, after: World<D, M>, spare: M) {
    |after.media| == |w.media| || forall k | 0 <= k < |w.media| :: w.media[k].view != spare
  }

  /** Where a step mints an object, it is none of those in the tables. */
  ghost predicate Enabled<D, M>(w: World<D, M>, step: Step<D, M>) {
    && (step.AddDevice? || step.AddDeviceFor? || step.FindDevice? ==> NewDevice(w, Next(w, step), step.spareD))
    && (step.DeviceMedium? || step.Load? || step.LoadAs? || step.FindMedium? || step.RecordAs? ==>
          NewMedium(w, Next(w, step), step.spareM))
  }

  ghost predicate Run<D, M>(w: World<D, M>, steps: seq<Step<D, M>>, last: World<D, M>)
    decreases |steps|
  {
    if steps == [] then w == last
    else Enabled(w, steps[0]) && Run(Next(w, steps[0]), steps[1..], last)
  }

  function Opened<D, M>(): World<D, M> {
    World(EMPTY, [], [])
  }
}
