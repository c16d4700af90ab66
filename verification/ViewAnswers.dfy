/** What every call across the C surface is answered, and what is so afterwards, in every state a session can
    reach: `ViewsAgree` gives `Agrees` in each. */
module ViewAnswers {
  import opened Wrappers
  import opened Devices
  import opened Pools
  import opened PoolRuns
  import opened PoolFrames
  import opened PoolAnswers
  import opened Views
  import opened ViewRuns

  /** A view's facts are its medium's, each in its own place. */
  ghost predicate Describes(facts: Facts, state: State) {
    && facts.path == state.path && facts.imagePath == state.imagePath && facts.article == Some(state.article)
    && match state.content
       case Files => facts.deviceType == None
       case Space(None) => facts.deviceType == None
       case Authored(_, None) => facts.deviceType == None
       case Space(Some(device)) => facts.deviceType == Some(DeviceId(device))
       case Flux(device) => facts.deviceType == Some(DeviceId(device))
       case Authored(_, Some(device)) => facts.deviceType == Some(DeviceId(device))
  }

  lemma FactsDescribe(core: Core, id: MediaId)
    ensures HasMedium(core, id) ==> Describes(FactsOf(core, id), MediumAt(core, id).state)
    ensures !HasMedium(core, id) ==> FactsOf(core, id) == Facts(None, None, None, None)
  {
  }

  /** `view` is the row of `id`, and says what the medium is. */
  ghost predicate ViewOf<M>(media: seq<MediumRow<M>>, core: Core, id: MediaId, view: M) {
    && HasMedium(core, id)
    && exists k :: 0 <= k < |media| && media[k].view == view && media[k].id == id
                   && Describes(media[k].facts, MediumAt(core, id).state)
  }

  lemma MediumViewAnswers<D, M>(w: World<D, M>, id: MediaId, spare: M)
    requires HasMedium(w.core, id)
    ensures var (after, view) := MediumView(w, id, spare); ViewOf(after.media, w.core, id, view)
  {
    MediumLookupIsCurrent(w, id, spare);
    FactsDescribe(w.core, id);
    var (after, view) := MediumView(w, id, spare);
    assert after.media[MediumRowAt(after.media, id)].view == view;
  }

  // ---- Devices

  /** What a device's view says: the slot as it is spelled, and its type, which an archive receiver has not. */
  function DeviceRowSaid<D>(view: D, a: AttachmentId, text: string): DeviceRow<D> {
    DeviceRow(view, a, text, if text == "archive" then None else Some(text))
  }

  lemma MintedSays<D>(view: D, a: AttachmentId, slot: DeviceSlot)
    ensures Minted(view, a, slot) == DeviceRowSaid(view, a, SlotId(slot))
  {
    SlotFromIdIff("archive", slot);
  }

  /** **Adding a device** answers with a new view exactly where the slot is one there is and its place, named or
      the lowest free, has none; then the place holds that device, empty, and the view says so. */
  lemma AddDeviceAnswers<D, M>(w: World<D, M>, text: string, index: Option<u32>, spare: D)
    requires Agrees(w)
    ensures var (after, answer) := Act(w, AddDevice(text, index, spare));
      match SlotFromId(text)
      case None => answer == TheDevice(None) && after == w
      case Some(slot) =>
        var a := AttachmentId(Prefix(slot), if index.Some? then index.value else LowestFree(w.core, slot));
        if HasDevice(w.core, a) then answer == TheDevice(None) && after == w
        else
          answer == TheDevice(Some(spare)) && after.media == w.media
          && after.views == w.views + [DeviceRowSaid(spare, a, text)]
          && after.core == w.core.(devices := w.core.devices + [StorageDevice(a, slot, None)])
  {
    if SlotFromId(text).Some? {
      var slot := SlotFromId(text).value;
      SlotFromIdIff(text, slot);
      PlacedAnswers(w, slot, if index.Some? then index.value else LowestFree(w.core, slot), spare);
      assert Act(w, AddDevice(text, index, spare)) == Added(w, Pools.AddDevice(w.core, slot, index), spare);
    }
  }

  lemma PlacedAnswers<D, M>(w: World<D, M>, slot: DeviceSlot, index: u32, spare: D)
    requires Agrees(w)
    ensures var a := AttachmentId(Prefix(slot), index);
      var (after, answer) := Added(w, Place(w.core, slot, index), spare);
      if HasDevice(w.core, a) then answer == TheDevice(None) && after == w
      else
        answer == TheDevice(Some(spare)) && after.media == w.media
        && after.views == w.views + [DeviceRowSaid(spare, a, SlotId(slot))]
        && after.core == w.core.(devices := w.core.devices + [StorageDevice(a, slot, None)])
  {
    var a := AttachmentId(Prefix(slot), index);
    if !HasDevice(w.core, a) {
      DisplayParses(a);
      NoViewOfNone(w, a);
      PlacedView(w, slot, a, spare);
      MintedSays(spare, a, slot);
    }
  }

  lemma NoViewOfNone<D, M>(w: World<D, M>, a: AttachmentId)
    requires Agrees(w) && !HasDevice(w.core, a)
    ensures DeviceRowAt(w.views, a) == |w.views|
  {
  }

  /** `view` is the row of the device at `a`, and says what the device is. */
  ghost predicate DeviceViewOf<D>(views: seq<DeviceRow<D>>, core: Core, a: AttachmentId, view: D) {
    && HasDevice(core, a)
    && exists i :: 0 <= i < |views| && views[i] == DeviceRowSaid(view, a, SlotId(DeviceAt(core, a).slot))
  }

  lemma DeviceViewAnswers<D, M>(w: World<D, M>, a: AttachmentId, spare: D)
    requires Agrees(w)
    ensures var (after, view) := DeviceViewAt(w, a, spare);
      && (view.Some? <==> HasDevice(w.core, a)) && (view.None? ==> after == w)
      && (view.Some? ==> DeviceViewOf(after.views, w.core, a, view.value))
  {
    DeviceLookupIsCurrent(w, a, spare);
    var (after, view) := DeviceViewAt(w, a, spare);
    if view.Some? {
      MintedSays(view.value, a, DeviceAt(w.core, a).slot);
      assert after.views[DeviceRowAt(after.views, a)] == Minted(view.value, a, DeviceAt(w.core, a).slot);
    }
  }

  /** **Finding a device** answers exactly where the text names one there is, with a view that says what it is. */
  lemma FindDeviceAnswers<D, M>(w: World<D, M>, text: string, spare: D)
    requires Agrees(w)
    ensures var (after, answer) := Act(w, FindDevice(text, spare));
      var named := Parse(text).Some? && HasDevice(w.core, Parse(text).value);
      && answer.TheDevice? && after.core == w.core && after.media == w.media
      && (answer.d.Some? <==> named) && (!named ==> after == w)
      && (named ==> DeviceViewOf(after.views, w.core, Parse(text).value, answer.d.value))
  {
    assert Act(w, FindDevice(text, spare)) == AnsweredDevice(DeviceView(w, text, spare));
    if Parse(text).Some? {
      DeviceViewAnswers(w, Parse(text).value, spare);
    }
  }

  /** **Releasing a device** by a text stands exactly where the text names one there is, occupied or not; then
      neither the device nor a view of it is left, every other device is as it was, and every medium is pooled
      still, its views as they were. */
  lemma ReleaseDeviceAnswers<D, M>(w: World<D, M>, text: string)
    requires Agrees(w)
    ensures var (after, answer) := Act(w, ReleaseDevice(text));
      var named := Parse(text).Some? && HasDevice(w.core, Parse(text).value);
      && answer == Done(named) && (!named ==> after == w)
      && (named ==> ReleasedFrom(w, after, Parse(text).value))
  {
    assert Act(w, ReleaseDevice(text)) == (ReleasedDevice(w, text).0, Done(ReleasedDevice(w, text).1));
    if Parse(text).Some? {
      PoolAnswers.ReleaseDeviceAnswers(w.core, Parse(text).value);
      if HasDevice(w.core, Parse(text).value) {
        ReleasedDeviceIs(w, text, Parse(text).value);
      }
    }
  }

  ghost predicate ReleasedFrom<D, M>(w: World<D, M>, after: World<D, M>, a: AttachmentId) {
    && Without(w.core, a, after.core) && after.media == w.media
    && (forall i | 0 <= i < |after.views| :: after.views[i].attachment != a)
  }

  lemma ReleasedDeviceIs<D, M>(w: World<D, M>, text: string, a: AttachmentId)
    requires Agrees(w) && Parse(text) == Some(a) && HasDevice(w.core, a)
    ensures ReleasedDevice(w, text).1 && ReleasedFrom(w, ReleasedDevice(w, text).0, a)
  {
    ReleaseStands(w, text, a);
    RowsOfReleased(w, text, a);
    var core := Pools.ReleaseDevice(w.core, a).0;
    ReleasedCore(w.core, a, core);
    ReleasedRows(w, a, core, ReleasedDevice(w, text).0);
  }

  lemma ReleaseStands<D, M>(w: World<D, M>, text: string, a: AttachmentId)
    requires Sound(w.core) && Parse(text) == Some(a) && HasDevice(w.core, a)
    ensures var core := Pools.ReleaseDevice(w.core, a).0;
      ReleasedDevice(w, text) == (w.(core := core, views := WithoutDevice(w.views, a)), true)
  {
    PoolAnswers.ReleaseDeviceAnswers(w.core, a);
  }

  /** Every device but `a`, and every medium in its place with its state. */
  ghost predicate Without(core: Core, a: AttachmentId, after: Core) {
    && !HasDevice(after, a) && |after.media| == |core.media|
    && (forall b | b != a && HasDevice(core, b) :: HasDevice(after, b) && DeviceAt(after, b) == DeviceAt(core, b))
    && (forall k | 0 <= k < |core.media| ::
          after.media[k].id == core.media[k].id && after.media[k].state == core.media[k].state)
  }

  lemma ReleasedCore(core: Core, a: AttachmentId, after: Core)
    requires Sound(core) && HasDevice(core, a) && after == Pools.ReleaseDevice(core, a).0
    ensures Without(core, a, after)
  {
    PoolAnswers.ReleaseDeviceAnswers(core, a);
  }

  lemma ReleasedRows<D, M>(w: World<D, M>, a: AttachmentId, core: Core, after: World<D, M>)
    requires after.core == core && after.media == w.media && DeviceRowAt(after.views, a) == |after.views|
    requires Without(w.core, a, core)
    ensures ReleasedFrom(w, after, a)
  {
  }

  // ---- Links

  /** **Inserting** stands exactly where the device is there and empty, and the medium is pooled, in no slot, and
      recorded by that device; **ejecting** exactly where there is a medium. Neither touches a view. */
  lemma InsertAnswers<D, M>(w: World<D, M>, a: AttachmentId, id: MediaId)
    requires Agrees(w)
    ensures var (after, answer) := Act(w, Insert(a, id));
      var may := HasDevice(w.core, a) && DeviceAt(w.core, a).medium.None? && HasMedium(w.core, id)
                 && MediumAt(w.core, id).link.None?
                 && SlotOf(MediumAt(w.core, id).state.content) == Some(DeviceAt(w.core, a).slot);
      && answer == Done(may) && after.views == w.views && after.media == w.media
      && (!may ==> after == w)
      && (may ==> Relinked(w.core, after.core, a, Some(id), id, Some(a)))
  {
    if HasDevice(w.core, a) {
      PoolAnswers.InsertAnswers(w.core, a, id);
    }
  }

  lemma EjectAnswers<D, M>(w: World<D, M>, a: AttachmentId)
    requires Agrees(w)
    ensures var (after, answer) := Act(w, Eject(a));
      && answer == Done(LinkedMedium(w.core, a).Some?) && after.views == w.views && after.media == w.media
      && match LinkedMedium(w.core, a)
         case None => after == w
         case Some(id) => Relinked(w.core, after.core, a, None, id, None)
  {
    if HasDevice(w.core, a) {
      PoolAnswers.EjectAnswers(w.core, a);
    }
  }

  /** **Asking for the medium in a slot** answers with the view of the very medium that is there. */
  lemma DeviceMediumAnswers<D, M>(w: World<D, M>, a: AttachmentId, spare: M)
    requires Agrees(w)
    ensures var (after, answer) := Act(w, DeviceMedium(a, spare));
      if HasDevice(w.core, a) && DeviceAt(w.core, a).medium.Some?
      then Viewed(w, after, answer, DeviceAt(w.core, a).medium.value)
      else after == w && answer == TheMedium(None)
  {
    DeviceMediumActs(w, a, spare);
    if LinkedMedium(w.core, a).Some? {
      LinksAgree(w.core, a, LinkedMedium(w.core, a).value);
      ViewedAnswers(w, LinkedMedium(w.core, a).value, spare);
    }
  }

  lemma DeviceMediumActs<D, M>(w: World<D, M>, a: AttachmentId, spare: M)
    ensures Act(w, DeviceMedium(a, spare)) ==
      match LinkedMedium(w.core, a)
      case None => (w, TheMedium(None))
      case Some(id) => AnsweredMedium(MediumView(w, id, spare))
  {
  }

  // ---- Media

  /** One medium more is pooled, and viewed; nothing else differs. */
  ghost predicate Pooled<D, M>(w: World<D, M>, after: World<D, M>, state: State, view: M) {
    && after.core == w.core.(media := w.core.media + [Medium(w.core.next, state, None)], next := w.core.next + 1)
    && after.views == w.views && ViewOf(after.media, after.core, w.core.next, view)
  }

  /** **Loading** answers with a view of the medium just pooled, which says what the artifact came to. */
  lemma LoadAnswers<D, M>(w: World<D, M>, build: Build, spare: M)
    requires Agrees(w)
    ensures var (after, answer) := Act(w, Load(build, spare));
      var may := build.Built? && !build.foreign && build.state.content != Space(None) && build.partitions;
      && answer == TheMedium(if may then Some(spare) else None)
      && (if may then Pooled(w, after, build.state, spare) else after == w)
  {
    PoolAnswers.LoadAnswers(w.core, build);
    LoadActs(w, build, spare);
    if build.Built? {
      LoadedAnswers(w, Pools.Load(w.core, build), build.state, spare);
    }
  }

  lemma LoadActs<D, M>(w: World<D, M>, build: Build, spare: M)
    ensures Act(w, Load(build, spare)) == Loaded(w, Pools.Load(w.core, build), spare)
  {
  }

  lemma LoadedAnswers<D, M>(w: World<D, M>, loaded: (Core, Result<MediaId, Error>), state: State, spare: M)
    requires Agrees(w) && (loaded.1.Err? ==> loaded.0 == w.core)
    requires loaded.1.Ok? ==> loaded.1.value == w.core.next
    requires loaded.1.Ok? ==>
      loaded.0 == w.core.(media := w.core.media + [Medium(w.core.next, state, None)], next := w.core.next + 1)
    ensures var (after, answer) := Loaded(w, loaded, spare);
      && answer == TheMedium(if loaded.1.Ok? then Some(spare) else None)
      && (if loaded.1.Ok? then Pooled(w, after, state, spare) else after == w)
  {
    if loaded.1.Ok? {
      NewestAnswers(w, loaded.0, spare);
    }
  }

  lemma NewestAnswers<D, M>(w: World<D, M>, core: Core, spare: M)
    requires Agrees(w) && |core.media| == |w.core.media| + 1 && core.media[..|w.core.media|] == w.core.media
    requires core.media[|w.core.media|].id == w.core.next
    ensures var (after, view) := MediumView(w.(core := core), w.core.next, spare);
      view == spare && ViewOf(after.media, core, w.core.next, spare)
  {
    assert Shelf(core.media, w.core.next) == |w.core.media| by {
      assert forall k | 0 <= k < |w.core.media| ::
        core.media[k] == w.core.media[k] && w.core.media[k].id != w.core.next;
    }
    assert forall k | 0 <= k < |w.media| :: w.media[k].id != w.core.next;
    MediumViewAnswers(w.(core := core), w.core.next, spare);
  }

  /** **Loading as declared** does the same for a device the format records; of a space the view names it. */
  lemma LoadAsAnswers<D, M>(w: World<D, M>, build: Build, recorded: set<DeviceType>, device: DeviceType, spare: M)
    requires Agrees(w)
    ensures var (after, answer) := Act(w, LoadAs(build, recorded, device, spare));
      var may := device in recorded && build.Built? && !build.foreign && build.partitions;
      && answer == TheMedium(if may then Some(spare) else None)
      && (if may then Pooled(w, after, Declared(build.state, device), spare) else after == w)
  {
    PoolAnswers.LoadAsAnswers(w.core, build, recorded, device);
    LoadAsActs(w, build, recorded, device, spare);
    if build.Built? {
      LoadedAnswers(w, Pools.LoadAs(w.core, build, recorded, device), Declared(build.state, device), spare);
    }
  }

  lemma LoadAsActs<D, M>(w: World<D, M>, build: Build, recorded: set<DeviceType>, device: DeviceType, spare: M)
    ensures Act(w, LoadAs(build, recorded, device, spare))
         == Loaded(w, Pools.LoadAs(w.core, build, recorded, device), spare)
  {
  }

  /** **Finding a medium** answers exactly where the pool holds it. */
  lemma FindMediumAnswers<D, M>(w: World<D, M>, id: MediaId, spare: M)
    requires Agrees(w)
    ensures var (after, answer) := Act(w, FindMedium(id, spare));
      if HasMedium(w.core, id) then Viewed(w, after, answer, id) else after == w && answer == TheMedium(None)
  {
    FindMediumActs(w, id, spare);
    if HasMedium(w.core, id) {
      ViewedAnswers(w, id, spare);
    }
  }

  lemma FindMediumActs<D, M>(w: World<D, M>, id: MediaId, spare: M)
    ensures Act(w, FindMedium(id, spare))
         == if HasMedium(w.core, id) then AnsweredMedium(MediumView(w, id, spare)) else (w, TheMedium(None))
  {
  }

  /** The answer is a view of the medium, and nothing but the table of media views differs. */
  ghost predicate Viewed<D, M>(w: World<D, M>, after: World<D, M>, answer: Answer<D, M>, id: MediaId) {
    && after.core == w.core && after.views == w.views && answer.TheMedium? && answer.m.Some?
    && ViewOf(after.media, w.core, id, answer.m.value)
  }

  lemma ViewedAnswers<D, M>(w: World<D, M>, id: MediaId, spare: M)
    requires HasMedium(w.core, id)
    ensures var (after, answer) := AnsweredMedium(MediumView(w, id, spare)); Viewed(w, after, answer, id)
  {
    MediumViewAnswers(w, id, spare);
  }

  /** **Releasing a medium** stands exactly where there is one; then neither it nor a view of it is left, the slot
      it was in is empty, and every other medium is as it was. */
  lemma ReleaseMediaAnswers<D, M>(w: World<D, M>, id: MediaId)
    requires Agrees(w)
    ensures var (after, answer) := Act(w, ReleaseMedia(id));
      && answer == Done(HasMedium(w.core, id)) && after.views == w.views
      && (answer == Done(false) ==> after == w)
      && (answer == Done(true) ==>
            && !HasMedium(after.core, id)
            && (forall k | 0 <= k < |after.media| :: after.media[k].id != id)
            && (forall other | other != id && HasMedium(w.core, other) ::
                  HasMedium(after.core, other) && MediumAt(after.core, other) == MediumAt(w.core, other))
            && |after.core.devices| == |w.core.devices|
            && forall i | 0 <= i < |w.core.devices| :: after.core.devices[i] ==
                 if w.core.devices[i].medium == Some(id) then w.core.devices[i].(medium := None)
                 else w.core.devices[i])
  {
    PoolAnswers.ReleaseMediaAnswers(w.core, id);
    if HasMedium(w.core, id) {
      ReleaseMediaLeavesMedia(w.core, id);
      ReleaseMediaLeavesDevices(w.core, id);
      ReleasedMediaKeeps(w, id);
    }
  }

  /** **Recording a layout** stands exactly where there is a blank of that article to record it onto; then its view
      names the device, and everything else it says is as it was. */
  lemma RecordAsAnswers<D, M>(w: World<D, M>, id: MediaId, article: string, device: DeviceType, spare: M)
    requires Agrees(w)
    ensures var (after, answer) := Act(w, RecordAs(id, article, device, spare));
      var may := HasMedium(w.core, id) && MediumAt(w.core, id).state.content == Authored(false, None)
                 && MediumAt(w.core, id).state.article == article;
      answer == Done(may) && after.views == w.views && (if may then Bound(w, after, id, device) else after == w)
  {
    PoolAnswers.RecordAsAnswers(w.core, id, article, device);
    RecordAsActs(w, id, article, device, spare);
    if Pools.RecordAs(w.core, id, article, device).1.Ok? {
      RecordedIs(w, Pools.RecordAs(w.core, id, article, device).0, id, device, spare);
    }
  }

  lemma RecordAsActs<D, M>(w: World<D, M>, id: MediaId, article: string, device: DeviceType, spare: M)
    ensures Act(w, RecordAs(id, article, device, spare)) ==
      var (core, result) := Pools.RecordAs(w.core, id, article, device);
      if result.Ok? then (MediumView(w.(core := core), id, spare).0, Done(true)) else (w, Done(false))
  {
  }

  /** The medium is recorded by `device`, and some view of it says so. */
  ghost predicate Bound<D, M>(w: World<D, M>, after: World<D, M>, id: MediaId, device: DeviceType)
    requires HasMedium(w.core, id)
  {
    && HasMedium(after.core, id) && after.core.devices == w.core.devices
    && MediumAt(after.core, id).state == MediumAt(w.core, id).state.(content := Authored(false, Some(device)))
    && exists k :: 0 <= k < |after.media| && ViewOf(after.media, after.core, id, after.media[k].view)
  }

  lemma RecordedIs<D, M>(w: World<D, M>, core: Core, id: MediaId, device: DeviceType, spare: M)
    requires HasMedium(w.core, id) && |core.media| == |w.core.media| && core.devices == w.core.devices
    requires forall k | 0 <= k < |core.media| ::
      core.media[k] ==
        if w.core.media[k].id == id
        then w.core.media[k].(state := w.core.media[k].state.(content := Authored(false, Some(device))))
        else w.core.media[k]
    ensures Bound(w, MediumView(w.(core := core), id, spare).0, id, device)
  {
    ShelfKept(w.core.media, core.media, id);
    MediumViewAnswers(w.(core := core), id, spare);
    MediumLookupIsCurrent(w.(core := core), id, spare);
  }

  /** **Adding a device for an artifact** answers exactly where the artifact is taken and its bay has room: one new
      device, in the lowest free place, holding one new medium, and one new view of it. */
  lemma AddDeviceForAnswers<D, M>(w: World<D, M>, build: Build, spare: D)
    requires Agrees(w)
    ensures var (after, answer) := Act(w, AddDeviceFor(build, spare));
      after.media == w.media && answer.TheDevice?
      && if !Acceptable(build) then after == w && answer.d == None
         else
           var slot := SlotOf(build.state.content).value;
           var a := AttachmentId(Prefix(slot), LowestFree(w.core, slot));
           if HasDevice(w.core, a) then after == w && answer.d == None
           else answer.d == Some(spare) && AddedWith(w, after, a, slot, build.state, spare)
  {
    AddDeviceForIsOneAct(w.core, build);
    AddDeviceForActs(w, build, spare);
    if Acceptable(build) {
      var slot := SlotOf(build.state.content).value;
      var a := AttachmentId(Prefix(slot), LowestFree(w.core, slot));
      if !HasDevice(w.core, a) {
        AddedForAnswers(w, Pools.AddDeviceFor(w.core, build).0, a, slot, spare);
      }
    }
  }

  lemma AddDeviceForActs<D, M>(w: World<D, M>, build: Build, spare: D)
    ensures Act(w, AddDeviceFor(build, spare)) == Added(w, Pools.AddDeviceFor(w.core, build), spare)
  {
  }

  ghost predicate AddedWith<D, M>(w: World<D, M>, after: World<D, M>, a: AttachmentId, slot: DeviceSlot,
                                  state: State, view: D) {
    && after.views == w.views + [DeviceRowSaid(view, a, SlotId(slot))]
    && HasDevice(after.core, a) && DeviceAt(after.core, a) == StorageDevice(a, slot, Some(w.core.next))
    && HasMedium(after.core, w.core.next) && MediumAt(after.core, w.core.next) == Medium(w.core.next, state, Some(a))
  }

  lemma AddedForAnswers<D, M>(w: World<D, M>, core: Core, a: AttachmentId, slot: DeviceSlot, spare: D)
    requires Agrees(w) && !HasDevice(w.core, a) && a.prefix == Prefix(slot)
    requires HasDevice(core, a) && DeviceAt(core, a).slot == slot
    ensures var (after, answer) := Added(w, (core, Ok(a)), spare);
      answer == TheDevice(Some(spare)) && after.views == w.views + [DeviceRowSaid(spare, a, SlotId(slot))]
  {
    DisplayParses(a);
    NoViewOfNone(w, a);
    MintedSays(spare, a, slot);
  }
}
