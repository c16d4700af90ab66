/** What an operation of the session core leaves as it was, for every device and medium it does not
    name: this is what the views over them rely on. */
module PoolFrames {
  import opened Wrappers
  import opened Devices
  import opened Pools
  import opened PoolRuns

  ghost predicate KeepsDevice(core: Core, after: Core, a: AttachmentId) {
    HasDevice(core, a) ==> HasDevice(after, a) && DeviceAt(after, a).slot == DeviceAt(core, a).slot
  }

  ghost predicate KeepsMedium(core: Core, after: Core, id: MediaId) {
    HasMedium(core, id) ==> HasMedium(after, id) && MediumAt(after, id).state == MediumAt(core, id).state
  }

  /** An identity issued before does not come to name a medium it did not. */
  ghost predicate NoRevival(core: Core, after: Core, id: MediaId) {
    id < core.next && HasMedium(after, id) ==> HasMedium(core, id)
  }

  /** Every device but `dropped` is still there with its slot, and every medium but `changed` with its
      state. */
  ghost predicate Preserves(core: Core, after: Core, dropped: Option<AttachmentId>, changed: Option<MediaId>) {
    && (forall a | dropped != Some(a) :: KeepsDevice(core, after, a))
    && (forall id: MediaId | changed != Some(id) :: KeepsMedium(core, after, id))
    && (forall id: MediaId :: NoRevival(core, after, id))
    && core.next <= after.next
  }

  /** Devices and media changed in place, the devices' slots and the media's states as they were. */
  ghost predicate InPlace(core: Core, after: Core) {
    && |core.devices| == |after.devices| && |core.media| == |after.media| && core.next == after.next
    && (forall i | 0 <= i < |core.devices| ::
          after.devices[i].attachment == core.devices[i].attachment && after.devices[i].slot == core.devices[i].slot)
    && (forall k | 0 <= k < |core.media| ::
          after.media[k].id == core.media[k].id && after.media[k].state == core.media[k].state)
  }

  lemma SeatKept(before: seq<StorageDevice>, after: seq<StorageDevice>, a: AttachmentId)
    requires |before| == |after| && forall i | 0 <= i < |before| :: before[i].attachment == after[i].attachment
    ensures Seat(before, a) == Seat(after, a)
  {
  }

  lemma InPlacePreserves(core: Core, after: Core)
    requires InPlace(core, after)
    ensures Preserves(core, after, None, None)
  {
    forall a
      ensures KeepsDevice(core, after, a)
    {
      SeatKept(core.devices, after.devices, a);
    }
    forall id: MediaId
      ensures KeepsMedium(core, after, id) && NoRevival(core, after, id)
    {
      ShelfKept(core.media, after.media, id);
    }
  }

  lemma AdmitPreserves(core: Core, state: State)
    requires Sound(core)
    ensures var (after, id) := Admit(core, state);
      Preserves(core, after, None, None) && HasMedium(after, id) && MediumAt(after, id).state == state
  {
    var (after, id) := Admit(core, state);
    forall other: MediaId
      ensures KeepsMedium(core, after, other) && NoRevival(core, after, other)
    {
      if HasMedium(core, other) {
        ShelfGrows(core.media, Medium(id, state, None), other);
      }
    }
    assert after.media[|core.media|].id == id;
    assert Shelf(after.media, id) == |core.media|;
  }

  lemma PlacePreserves(core: Core, slot: DeviceSlot, index: u32)
    ensures var (after, result) := Place(core, slot, index);
      Preserves(core, after, None, None) && (result.Ok? ==> DeviceAt(after, result.value).slot == slot)
  {
    var (after, result) := Place(core, slot, index);
    if result.Ok? {
      forall a
        ensures KeepsDevice(core, after, a)
      {
        if HasDevice(core, a) {
          SeatGrows(core.devices, StorageDevice(result.value, slot, None), a);
        }
      }
      assert after.devices[|core.devices|].attachment == result.value;
      assert Seat(after.devices, result.value) == |core.devices|;
    }
  }

  lemma InsertPreserves(core: Core, a: AttachmentId, id: MediaId)
    requires HasDevice(core, a)
    ensures Preserves(core, Insert(core, a, id).0, None, None)
  {
    InPlacePreserves(core, Insert(core, a, id).0);
  }

  lemma EjectPreserves(core: Core, a: AttachmentId)
    requires HasDevice(core, a)
    ensures Preserves(core, Eject(core, a).0, None, None)
  {
    InPlacePreserves(core, Eject(core, a).0);
  }

  lemma DropKeepsSeat(devices: seq<StorageDevice>, at: nat, a: AttachmentId)
    requires at < |devices| && DevicesSound(devices)
    requires Seat(devices, a) < |devices| && a != devices[at].attachment
    ensures var rest := devices[..at] + devices[at + 1..];
      Seat(rest, a) < |rest| && rest[Seat(rest, a)] == devices[Seat(devices, a)]
  {
    var rest := devices[..at] + devices[at + 1..];
    var i := Seat(devices, a);
    var to := if i < at then i else i - 1;
    assert rest[to] == devices[i];
    SeatIs(rest, to);
  }

  lemma DiscardKeepsDevice(core: Core, a: AttachmentId, b: AttachmentId)
    requires DevicesSound(core.devices) && HasDevice(core, a) && a != b
    ensures KeepsDevice(core, core.(devices := Discard(core.devices, a)), b)
  {
    if HasDevice(core, b) {
      DiscardKeepsSeat(core.devices, a, b);
    }
  }

  lemma DiscardKeepsSeat(devices: seq<StorageDevice>, a: AttachmentId, b: AttachmentId)
    requires DevicesSound(devices) && Seat(devices, a) < |devices| && a != b && Seat(devices, b) < |devices|
    ensures var rest := Discard(devices, a);
      Seat(rest, b) < |rest| && rest[Seat(rest, b)] == devices[Seat(devices, b)]
  {
    DiscardIs(devices, a);
    DropKeepsSeat(devices, Seat(devices, a), b);
  }

  lemma DiscardPreserves(core: Core, a: AttachmentId)
    requires DevicesSound(core.devices) && HasDevice(core, a)
    ensures Preserves(core, core.(devices := Discard(core.devices, a)), Some(a), None)
  {
    forall b | a != b
      ensures KeepsDevice(core, core.(devices := Discard(core.devices, a)), b)
    {
      DiscardKeepsDevice(core, a, b);
    }
  }

  lemma PreservesThrough(core: Core, between: Core, after: Core,
                         dropped: Option<AttachmentId>, changed: Option<MediaId>)
    requires Preserves(core, between, None, None) && Preserves(between, after, dropped, changed)
    ensures Preserves(core, after, dropped, changed)
  {
    forall a | dropped != Some(a)
      ensures KeepsDevice(core, after, a)
    {
      assert KeepsDevice(core, between, a) && KeepsDevice(between, after, a);
    }
    forall id: MediaId
      ensures changed != Some(id) ==> KeepsMedium(core, after, id)
      ensures NoRevival(core, after, id)
    {
      assert KeepsMedium(core, between, id) && NoRevival(core, between, id) && NoRevival(between, after, id);
    }
  }

  lemma MaybeEjected(core: Core, a: AttachmentId, ejected: Core)
    requires Sound(core) && HasDevice(core, a)
    requires ejected == if DeviceAt(core, a).medium.Some? then Eject(core, a).0 else core
    ensures Preserves(core, ejected, None, None) && DevicesSound(ejected.devices) && HasDevice(ejected, a)
  {
    InPlacePreserves(core, ejected);
    assert KeepsDevice(core, ejected, a);
    EjectKeepsSound(core, a);
  }

  lemma ReleaseDevicePreserves(core: Core, a: AttachmentId)
    requires Sound(core)
    ensures Preserves(core, ReleaseDevice(core, a).0, Some(a), None)
  {
    if HasDevice(core, a) {
      var ejected := if DeviceAt(core, a).medium.Some? then Eject(core, a).0 else core;
      MaybeEjected(core, a, ejected);
      DiscardPreserves(ejected, a);
      PreservesThrough(core, ejected, ReleaseDevice(core, a).0, Some(a), None);
    }
  }

  lemma ReleaseMediaPreserves(core: Core, id: MediaId)
    requires Sound(core)
    ensures Preserves(core, ReleaseMedia(core, id).0, None, Some(id))
  {
    if HasMedium(core, id) {
      var after := ReleaseMedia(core, id).0;
      ReleaseMediaLeavesMedia(core, id);
      forall a
        ensures KeepsDevice(core, after, a)
      {
        SeatKept(core.devices, after.devices, a);
      }
    }
  }

  lemma RecordAsPreserves(core: Core, id: MediaId, article: string, device: DeviceType)
    ensures Preserves(core, RecordAs(core, id, article, device).0, None, Some(id))
    ensures RecordAs(core, id, article, device).1.Ok? ==> HasMedium(RecordAs(core, id, article, device).0, id)
  {
    var after := RecordAs(core, id, article, device).0;
    forall other: MediaId
      ensures other != id ==> KeepsMedium(core, after, other)
      ensures NoRevival(core, after, other) && (HasMedium(core, other) ==> HasMedium(after, other))
    {
      ShelfKept(core.media, after.media, other);
    }
  }

  lemma AddDeviceForPreserves(core: Core, build: Build)
    requires Sound(core)
    ensures Preserves(core, AddDeviceFor(core, build).0, None, None)
  {
    AddDeviceForIsOneAct(core, build);
    var (after, result) := AddDeviceFor(core, build);
    if result.Ok? {
      var slot := SlotOf(build.state.content).value;
      var (placed, a) := AddDevice(core, slot, None);
      PlacePreserves(core, slot, LowestFree(core, slot));
      PlaceKeepsSound(core, slot, LowestFree(core, slot));
      AdmitPreserves(placed, build.state);
      PlacedInsert(core, slot, build.state);
      var admitted := Admit(placed, build.state).0;
      InsertPreserves(admitted, a.value, core.next);
      PreservesThrough(core, placed, admitted, None, None);
      PreservesThrough(core, admitted, after, None, None);
    }
  }
}
