/** The session and its views as the binding keeps them: vectors of boxed objects beside the core,
    updated in place. Each method is one step of the tables' model. */
module Sessions {
  import opened Wrappers
  import opened Devices
  import opened Pools
  import opened PoolRuns
  import opened PoolFrames
  import opened Views
  import opened ViewAnswers

  /** A borrowed view of a device. What it caches is settled when it is minted. */
  class RemanenceDevice {
    const attachment: AttachmentId
    const slot: string
    const deviceType: Option<string>

    constructor (attachment: AttachmentId, slot: DeviceSlot)
      ensures this.attachment == attachment && this.slot == SlotId(slot)
      ensures this.deviceType == TypeText(SlotType(slot))
    {
      this.attachment := attachment;
      this.slot := SlotId(slot);
      this.deviceType := TypeText(SlotType(slot));
    }
  }

  /** A borrowed view of a medium. What it caches is restated at every lookup. */
  class RemanenceMedium {
    const id: MediaId
    var path: Option<string>
    var imagePath: Option<string>
    var article: Option<string>
    var deviceType: Option<string>

    constructor (id: MediaId)
      ensures this.id == id && Cached() == Facts(None, None, None, None)
    {
      this.id := id;
      path, imagePath, article, deviceType := None, None, None, None;
    }

    ghost function Cached(): Facts
      reads this
    {
      Facts(path, imagePath, article, deviceType)
    }

    /** The cached facts become those of the identity in `core`: all absent once it holds no such medium. */
    method Refresh(core: Core)
      modifies this
      ensures Cached() == FactsOf(core, id)
    {
      if HasMedium(core, id) {
        var state := MediumAt(core, id).state;
        path, imagePath, article := state.path, state.imagePath, Some(state.article);
        deviceType := TypeText(DeviceOf(state.content));
      } else {
        path, imagePath, article, deviceType := None, None, None, None;
      }
    }
  }

  ghost function DeviceRowOf(view: RemanenceDevice): DeviceRow<RemanenceDevice> {
    DeviceRow(view, view.attachment, view.slot, view.deviceType)
  }

  ghost function MediumRowOf(view: RemanenceMedium): MediumRow<RemanenceMedium>
    reads view
  {
    MediumRow(view, view.id, view.Cached())
  }

  ghost function DeviceRows(views: seq<RemanenceDevice>): (rows: seq<DeviceRow<RemanenceDevice>>)
    ensures |rows| == |views| && forall i | 0 <= i < |views| :: rows[i] == DeviceRowOf(views[i])
  {
    seq(|views|, i requires 0 <= i < |views| => DeviceRowOf(views[i]))
  }

  ghost function MediumRows(media: seq<RemanenceMedium>): (rows: seq<MediumRow<RemanenceMedium>>)
    reads media
    ensures |rows| == |media| && forall k | 0 <= k < |media| :: rows[k] == MediumRowOf(media[k])
  {
    seq(|media|, k requires 0 <= k < |media| reads media => MediumRowOf(media[k]))
  }

  class RemanenceSession {
    var core: Core
    var views: seq<RemanenceDevice>
    var media: seq<RemanenceMedium>

    ghost function Now(): World<RemanenceDevice, RemanenceMedium>
      reads this, media
    {
      World(core, DeviceRows(views), MediumRows(media))
    }

    /** Each medium view is boxed once. */
    ghost predicate Valid()
      reads this
    {
      forall i, j | 0 <= i < j < |media| :: media[i] != media[j]
    }

    constructor ()
      ensures Valid() && Now() == Opened()
    {
      core, views, media := EMPTY, [], [];
    }

    // ---- Devices

    method DevicePosition(a: AttachmentId) returns (at: nat)
      ensures at == DeviceRowAt(Now().views, a)
    {
      at := 0;
      while at < |views|
        invariant at <= |views| && forall i | 0 <= i < at :: views[i].attachment != a
      {
        if views[at].attachment == a {
          assert DeviceRows(views)[at].attachment == a;
          return;
        }
        at := at + 1;
      }
    }

    method MintDevice(a: AttachmentId) returns (view: RemanenceDevice)
      requires HasDevice(core, a)
      modifies this`views
      ensures forall i | 0 <= i < |old(views)| :: old(views)[i] != view
      ensures Now() == old(Now()).(views := old(Now()).views + [Minted(view, a, DeviceAt(core, a).slot)])
    {
      view := new RemanenceDevice(a, DeviceAt(core, a).slot);
      views := views + [view];
      assert DeviceRows(views) == old(DeviceRows(views)) + [DeviceRowOf(view)];
    }

    /** The borrowed view for one attachment, the one already handed out where there is one. */
    method DeviceViewAt(a: AttachmentId) returns (view: Option<RemanenceDevice>)
      modifies this`views
      ensures view.Some? ==> Views.DeviceViewAt(old(Now()), a, view.value) == (Now(), view)
      ensures view.Some? ==> NewDevice(old(Now()), Now(), view.value)
      ensures view.None? ==> Now() == old(Now()) && DeviceRowAt(Now().views, a) == |views| && !HasDevice(core, a)
    {
      var at := DevicePosition(a);
      if at < |views| {
        return Some(views[at]);
      }
      if !HasDevice(core, a) {
        return None;
      }
      var minted := MintDevice(a);
      view := Some(minted);
    }

    method DeviceView(text: string) returns (view: Option<RemanenceDevice>)
      modifies this`views
      ensures view.Some? ==> Views.DeviceView(old(Now()), text, view.value) == (Now(), view)
      ensures view.Some? ==> NewDevice(old(Now()), Now(), view.value)
      ensures view.None? ==> Now() == old(Now()) && Unanswered(Now(), text)
    {
      var parsed := Parse(text);
      if parsed.None? {
        return None;
      }
      view := DeviceViewAt(parsed.value);
    }

    /** The end of every addition: the core as it is now, and the view of the device added. */
    method AnswerDevice(added: (Core, Result<AttachmentId, Error>)) returns (view: Option<RemanenceDevice>)
      requires added.1.Ok? ==> HasDevice(added.0, added.1.value)
      requires added.1.Ok? ==> Parse(Display(added.1.value)) == Some(added.1.value)
      modifies this`core, this`views
      ensures view.Some? <==> added.1.Ok?
      ensures view.Some? ==> Added(old(Now()), added, view.value) == (Now(), TheDevice(view))
      ensures view.Some? ==> NewDevice(old(Now()), Now(), view.value)
      ensures view.None? ==> Now() == old(Now()).(core := added.0)
    {
      core := added.0;
      if added.1.Err? {
        return None;
      }
      view := DeviceView(Display(added.1.value));
    }

    /** Adds a device in the slot named, or the lowest free one, and answers through its identity. */
    method AddDevice(text: string, index: Option<u32>) returns (view: Option<RemanenceDevice>)
      modifies this`core, this`views
      ensures view.Some? ==> Act(old(Now()), Step.AddDevice(text, index, view.value)) == (Now(), TheDevice(view))
      ensures view.Some? ==> NewDevice(old(Now()), Now(), view.value)
      ensures view.None? ==> Now() == old(Now()) && AddRefused(core, text, index)
    {
      var slot := SlotFromId(text);
      if slot.None? {
        return None;
      }
      var added := PlaceDevice(slot.value, index);
      AddedParses(core, slot.value, index);
      view := AnswerDevice(added);
    }

    method PlaceDevice(slot: DeviceSlot, index: Option<u32>) returns (added: (Core, Result<AttachmentId, Error>))
      ensures added == Pools.AddDevice(core, slot, index)
    {
      var at: u32;
      if index.Some? {
        at := index.value;
      } else {
        at := LowestFreeIndex(core, slot);
      }
      added := Place(core, slot, at);
    }

    /** Adds a device for one artifact, with the medium in it. */
    method AddDeviceFor(build: Build) returns (view: Option<RemanenceDevice>)
      modifies this`core, this`views
      ensures view.Some? ==> Act(old(Now()), Step.AddDeviceFor(build, view.value)) == (Now(), TheDevice(view))
      ensures view.Some? ==> NewDevice(old(Now()), Now(), view.value)
      ensures view.None? <==> Pools.AddDeviceFor(old(core), build).1.Err?
      ensures view.None? ==> Now() == old(Now()).(core := Pools.AddDeviceFor(old(core), build).0)
    {
      AddedForParses(core, build);
      view := AnswerDevice(Pools.AddDeviceFor(core, build));
    }

    method ReleaseDeviceAt(a: AttachmentId) returns (ok: bool)
      modifies this`core, this`views
      ensures ok == Pools.ReleaseDevice(old(core), a).1.Ok?
      ensures Now() == if !ok then old(Now()) else
        old(Now()).(core := Pools.ReleaseDevice(old(core), a).0, views := WithoutDevice(old(Now()).views, a))
    {
      var (after, result) := Pools.ReleaseDevice(core, a);
      if result.Err? {
        return false;
      }
      core := after;
      RetainDevices(a);
      ok := true;
    }

    /** Releases the device, and drops every view of it. */
    method ReleaseDevice(text: string) returns (ok: bool)
      modifies this`core, this`views
      ensures (Now(), ok) == ReleasedDevice(old(Now()), text)
    {
      var parsed := Parse(text);
      if parsed.None? {
        return false;
      }
      ok := ReleaseDeviceAt(parsed.value);
    }

    method RetainDevices(a: AttachmentId)
      modifies this`views
      ensures Now() == old(Now()).(views := WithoutDevice(old(Now()).views, a))
    {
      var kept: seq<RemanenceDevice> := [];
      for i := 0 to |views|
        invariant views == old(views) && DeviceRows(kept) == WithoutDevice(DeviceRows(views[..i]), a)
      {
        WithoutDeviceAppend(DeviceRows(views[..i]), DeviceRowOf(views[i]), a);
        assert DeviceRows(views[..i + 1]) == DeviceRows(views[..i]) + [DeviceRowOf(views[i])];
        if views[i].attachment != a {
          assert DeviceRows(kept + [views[i]]) == DeviceRows(kept) + [DeviceRowOf(views[i])];
          kept := kept + [views[i]];
        }
      }
      assert views[..|views|] == views;
      views := kept;
    }

    /** Links a pooled medium into the slot of the device viewed, found again by its identity. */
    method Insert(device: RemanenceDevice, id: MediaId) returns (ok: bool)
      requires device in views
      modifies this`core
      ensures Act(old(Now()), Step.Insert(device.attachment, id)) == (Now(), Done(ok))
    {
      if !HasDevice(core, device.attachment) {
        return false;
      }
      var (after, result) := Pools.Insert(core, device.attachment, id);
      core := after;
      ok := result.Ok?;
    }

    method Eject(device: RemanenceDevice) returns (ok: bool)
      requires device in views
      modifies this`core
      ensures Act(old(Now()), Step.Eject(device.attachment)) == (Now(), Done(ok))
    {
      if !HasDevice(core, device.attachment) {
        return false;
      }
      var (after, result) := Pools.Eject(core, device.attachment);
      core := after;
      ok := result.Ok?;
    }

    // ---- Media

    method MediumPosition(id: MediaId) returns (at: nat)
      ensures at == MediumRowAt(Now().media, id)
    {
      at := 0;
      while at < |media|
        invariant at <= |media| && forall k | 0 <= k < at :: media[k].id != id
      {
        if media[at].id == id {
          assert MediumRows(media)[at].id == id;
          return;
        }
        at := at + 1;
      }
    }

    /** Mints, or restates and re-uses, the borrowed view of `id`. */
    method MediumView(id: MediaId) returns (view: RemanenceMedium)
      requires Valid()
      modifies this`media, media
      ensures Valid() && Views.MediumView(old(Now()), id, view) == (Now(), view)
      ensures NewMedium(old(Now()), Now(), view)
    {
      var at := MediumPosition(id);
      if at < |media| {
        view := media[at];
        view.Refresh(core);
        assert MediumRows(media) == old(MediumRows(media))[at := MediumRowOf(view)];
        return;
      }
      view := MintMedium(id);
    }

    method MintMedium(id: MediaId) returns (view: RemanenceMedium)
      requires Valid() && MediumRowAt(Now().media, id) == |media|
      modifies this`media
      ensures Valid() && Now() == old(Now()).(media := old(Now()).media + [MediumRow(view, id, FactsOf(core, id))])
      ensures NewMedium(old(Now()), Now(), view)
    {
      view := new RemanenceMedium(id);
      view.Refresh(core);
      media := media + [view];
      assert MediumRows(media) == old(MediumRows(media)) + [MediumRowOf(view)];
    }

    /** Every load's end: the core as it is now, and a view of the medium pooled; or the refusal. */
    method AnswerMedium(loaded: (Core, Result<MediaId, Error>)) returns (view: Option<RemanenceMedium>)
      requires Valid()
      modifies this`core, this`media, media
      ensures Valid() && (view.Some? <==> loaded.1.Ok?)
      ensures view.Some? ==> Loaded(old(Now()), loaded, view.value) == (Now(), TheMedium(view))
      ensures view.Some? ==> NewMedium(old(Now()), Now(), view.value)
      ensures view.None? ==> Now() == old(Now()).(core := loaded.0)
    {
      core := loaded.0;
      if loaded.1.Err? {
        return None;
      }
      var minted := MediumView(loaded.1.value);
      view := Some(minted);
    }

    method Load(build: Build) returns (view: Option<RemanenceMedium>)
      requires Valid()
      modifies this`core, this`media, media
      ensures Valid()
      ensures view.Some? ==> Act(old(Now()), Step.Load(build, view.value)) == (Now(), TheMedium(view))
      ensures view.Some? ==> NewMedium(old(Now()), Now(), view.value)
      ensures view.None? ==> Now() == old(Now()) && Pools.Load(core, build).1.Err?
    {
      view := AnswerMedium(Pools.Load(core, build));
    }

    method LoadAs(build: Build, recorded: set<DeviceType>, device: DeviceType) returns (view: Option<RemanenceMedium>)
      requires Valid()
      modifies this`core, this`media, media
      ensures Valid()
      ensures view.Some? ==>
        Loaded(old(Now()), Pools.LoadAs(old(core), build, recorded, device), view.value) == (Now(), TheMedium(view))
      ensures view.Some? ==> NewMedium(old(Now()), Now(), view.value)
      ensures view.None? ==> Now() == old(Now()) && Pools.LoadAs(core, build, recorded, device).1.Err?
    {
      view := AnswerMedium(Pools.LoadAs(core, build, recorded, device));
    }

    method FindMedium(id: MediaId) returns (view: Option<RemanenceMedium>)
      requires Valid()
      modifies this`media, media
      ensures Valid() && (view.Some? <==> HasMedium(core, id))
      ensures view.Some? ==> Act(old(Now()), Step.FindMedium(id, view.value)) == (Now(), TheMedium(view))
      ensures view.Some? ==> NewMedium(old(Now()), Now(), view.value)
      ensures view.None? ==> Now() == old(Now())
    {
      if !HasMedium(core, id) {
        return None;
      }
      ghost var before := Now();
      var minted := MediumView(id);
      FindMediumActs(before, id, minted);
      view := Some(minted);
    }

    /** The medium in the slot of the device viewed. Whether the pool holds it is not asked. */
    method DeviceMedium(device: RemanenceDevice) returns (view: Option<RemanenceMedium>)
      requires Valid() && device in views
      modifies this`media, media
      ensures Valid() && (view.Some? <==> LinkedMedium(core, device.attachment).Some?)
      ensures view.Some? ==>
        Act(old(Now()), Step.DeviceMedium(device.attachment, view.value)) == (Now(), TheMedium(view))
      ensures view.Some? ==> NewMedium(old(Now()), Now(), view.value)
      ensures view.None? ==> Now() == old(Now())
    {
      if !HasDevice(core, device.attachment) || DeviceAt(core, device.attachment).medium.None? {
        return None;
      }
      ghost var before := Now();
      var minted := MediumView(DeviceAt(core, device.attachment).medium.value);
      DeviceMediumActs(before, device.attachment, minted);
      view := Some(minted);
    }

    /** Releases the medium, and drops every view of it. */
    method ReleaseMedia(id: MediaId) returns (ok: bool)
      requires Valid()
      modifies this`core, this`media
      ensures Valid() && (Now(), ok) == ReleasedMedia(old(Now()), id)
    {
      var (after, result) := Pools.ReleaseMedia(core, id);
      if result.Err? {
        return false;
      }
      core := after;
      RetainMedia(id);
      ok := true;
    }

    method RetainMedia(id: MediaId)
      requires Valid()
      modifies this`media
      ensures Valid() && Now() == old(Now()).(media := WithoutMedium(old(Now()).media, id))
    {
      var kept: seq<RemanenceMedium> := [];
      for k := 0 to |media|
        invariant media == old(media) && MediumRows(kept) == WithoutMedium(MediumRows(media[..k]), id)
      {
        WithoutMediumAppend(MediumRows(media[..k]), MediumRowOf(media[k]), id);
        assert MediumRows(media[..k + 1]) == MediumRows(media[..k]) + [MediumRowOf(media[k])];
        if media[k].id != id {
          assert MediumRows(kept + [media[k]]) == MediumRows(kept) + [MediumRowOf(media[k])];
          kept := kept + [media[k]];
        }
      }
      assert media[..|media|] == media;
      WithoutKeepsDistinct(MediumRows(media), id);
      BoxedOnce(kept);
      media := kept;
    }

    /** What the binding asks of the core before the view is restated. */
    method RecordCore(id: MediaId, article: string, device: DeviceType) returns (ok: bool)
      modifies this`core
      ensures (core, ok)
           == (Pools.RecordAs(old(core), id, article, device).0, Pools.RecordAs(old(core), id, article, device).1.Ok?)
    {
      var (after, result) := Pools.RecordAs(core, id, article, device);
      core := after;
      ok := result.Ok?;
    }

    /** Records a layout onto a blank; the view is restated, since the medium's device has changed. */
    method RecordAs(id: MediaId, article: string, device: DeviceType) returns (view: Option<RemanenceMedium>)
      requires Valid()
      modifies this`core, this`media, media
      ensures Valid()
      ensures view.Some? ==> (Now(), true) == RecordedAs(old(Now()), id, article, device, view.value)
      ensures view.Some? ==> NewMedium(old(Now()), Now(), view.value)
      ensures view.None? ==> Now() == old(Now()) && Pools.RecordAs(core, id, article, device).1.Err?
    {
      var ok := RecordCore(id, article, device);
      if !ok {
        return None;
      }
      var restated := MediumView(id);
      view := Some(restated);
    }
  }

  lemma {:induction false} WithoutDeviceAppend<D>(views: seq<DeviceRow<D>>, row: DeviceRow<D>, a: AttachmentId)
    ensures WithoutDevice(views + [row], a) == WithoutDevice(views, a) + if row.attachment != a then [row] else []
  {
    if views != [] {
      assert (views + [row])[1..] == views[1..] + [row];
      WithoutDeviceAppend(views[1..], row, a);
    } else {
      assert (views + [row])[1..] == [];
    }
  }

  lemma {:induction false} WithoutMediumAppend<M>(media: seq<MediumRow<M>>, row: MediumRow<M>, id: MediaId)
    ensures WithoutMedium(media + [row], id) == WithoutMedium(media, id) + if row.id != id then [row] else []
  {
    if media != [] {
      assert (media + [row])[1..] == media[1..] + [row];
      WithoutMediumAppend(media[1..], row, id);
    } else {
      assert (media + [row])[1..] == [];
    }
  }

  ghost predicate EachOnce<M>(media: seq<MediumRow<M>>) {
    forall i, j | 0 <= i < j < |media| :: media[i].view != media[j].view
  }

  lemma {:induction false} WithoutKeepsDistinct<M>(media: seq<MediumRow<M>>, id: MediaId)
    requires EachOnce(media)
    ensures EachOnce(WithoutMedium(media, id))
    ensures forall row <- WithoutMedium(media, id) :: row in media
  {
    if media != [] {
      var first, tail := media[0], WithoutMedium(media[1..], id);
      WithoutKeepsDistinct(media[1..], id);
      forall k | 0 <= k < |tail|
        ensures tail[k] in media && tail[k].view != first.view
      {
        assert tail[k] in tail;
        var j :| 0 <= j < |media[1..]| && media[1..][j] == tail[k];
        assert media[j + 1] == tail[k];
      }
      assert EachOnce([first] + tail);
      assert WithoutMedium(media, id) == if first.id != id then [first] + tail else tail;
    }
  }

  lemma BoxedOnce(media: seq<RemanenceMedium>)
    requires EachOnce(MediumRows(media))
    ensures forall i, j | 0 <= i < j < |media| :: media[i] != media[j]
  {
    assert forall i | 0 <= i < |media| :: MediumRows(media)[i].view == media[i];
  }

  predicate AddRefused(core: Core, text: string, index: Option<u32>) {
    SlotFromId(text).None? || Pools.AddDevice(core, SlotFromId(text).value, index).1.Err?
  }

  lemma AddedParses(core: Core, slot: DeviceSlot, index: Option<u32>)
    ensures var (added, result) := Pools.AddDevice(core, slot, index);
      result.Ok? ==> HasDevice(added, result.value) && Parse(Display(result.value)) == Some(result.value)
  {
    PlaceParses(core, slot, if index.Some? then index.value else LowestFree(core, slot));
  }

  lemma PlaceParses(core: Core, slot: DeviceSlot, index: u32)
    ensures var (added, result) := Place(core, slot, index);
      result.Ok? ==> HasDevice(added, result.value) && Parse(Display(result.value)) == Some(result.value)
  {
    PlacedParses(slot, index);
  }

  lemma PlacedParses(slot: DeviceSlot, index: u32)
    ensures Parse(Display(AttachmentId(Prefix(slot), index))) == Some(AttachmentId(Prefix(slot), index))
  {
    DisplayParses(AttachmentId(Prefix(slot), index));
  }

  lemma AddedForParses(core: Core, build: Build)
    ensures var (added, result) := Pools.AddDeviceFor(core, build);
      result.Ok? ==> HasDevice(added, result.value) && Parse(Display(result.value)) == Some(result.value)
  {
    var (added, result) := Pools.AddDeviceFor(core, build);
    if result.Ok? {
      var slot := SlotOf(build.state.content).value;
      PlacedParses(slot, LowestFree(core, slot));
      var placed := Place(core, slot, LowestFree(core, slot)).0;
      InsertPreserves(Admit(placed, build.state).0, result.value, Admit(placed, build.state).1);
      assert KeepsDevice(Admit(placed, build.state).0, added, result.value);
    }
  }

  /** Nothing to view: no identity, or neither a view nor a device there. */
  predicate Unanswered<D, M>(w: World<D, M>, text: string) {
    match Parse(text)
    case None => true
    case Some(a) => DeviceRowAt(w.views, a) == |w.views| && !HasDevice(w.core, a)
  }
}
