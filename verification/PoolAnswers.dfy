/** What every operation of the session core answers, and the whole of what it changes: when each stands,
    which refusal it is otherwise, and that a refusal changes nothing. */
module PoolAnswers {
  import opened Wrappers
  import opened Devices
  import opened Pools
  import opened PoolRuns

  /** What each reading says recorded it, and the slot it goes in. */
  lemma ReadingsGoIn(d: DeviceType, coordinates: bool)
    ensures SlotOf(Space(Some(d))) == SlotOf(Flux(d)) == SlotOf(Authored(coordinates, Some(d))) == Some(Recorded(d))
    ensures SlotOf(Files) == Some(Archive) && SlotOf(Space(None)) == SlotOf(Authored(coordinates, None)) == None
    ensures DeviceOf(Space(Some(d))) == DeviceOf(Flux(d)) == DeviceOf(Authored(coordinates, Some(d))) == Some(d)
    ensures DeviceOf(Files) == DeviceOf(Space(None)) == DeviceOf(Authored(coordinates, None)) == None
  {
  }

  // ---- Devices

  /** A device is added exactly where its place is free: empty, last, and with nothing else changed. */
  lemma PlaceAnswers(core: Core, slot: DeviceSlot, index: u32)
    ensures var a := AttachmentId(Prefix(slot), index);
      Place(core, slot, index) ==
        if exists i :: 0 <= i < |core.devices| && core.devices[i].attachment == a then (core, Err(SlotTaken))
        else (core.(devices := core.devices + [StorageDevice(a, slot, None)]), Ok(a))
  {
  }

  /** The slot at `a` holds `medium` and the medium `id` is in `link`, and nothing else differs. */
  ghost predicate Relinked(core: Core, after: Core, a: AttachmentId, medium: Option<MediaId>,
                           id: MediaId, link: Option<AttachmentId>) {
    && after.next == core.next && |after.devices| == |core.devices| && |after.media| == |core.media|
    && (forall i | 0 <= i < |core.devices| :: after.devices[i]
         == if core.devices[i].attachment == a then core.devices[i].(medium := medium) else core.devices[i])
    && (forall k | 0 <= k < |core.media| :: after.media[k]
         == if core.media[k].id == id then core.media[k].(link := link) else core.media[k])
  }

  /** A slot already in use, an identity nothing has, a medium already in a slot, a blank, a medium another
      device recorded: insertion is refused for the first of these there is, and for nothing else. */
  lemma InsertAnswers(core: Core, a: AttachmentId, id: MediaId)
    requires Sound(core) && HasDevice(core, a)
    ensures var (after, result) := Insert(core, a, id);
      var d := DeviceAt(core, a);
      && (result.Ok? ==> Relinked(core, after, a, Some(id), id, Some(a)))
      && (result.Err? ==> after == core)
      && (result.Ok? <==> d.medium.None? && HasMedium(core, id) && MediumAt(core, id).link.None?
                          && SlotOf(MediumAt(core, id).state.content) == Some(d.slot))
      && (d.medium.Some? <==> result == Err(Occupied))
      && (d.medium.None? && !HasMedium(core, id) <==> result == Err(NoSuchMedium))
      && (d.medium.None? && HasMedium(core, id) && MediumAt(core, id).link.Some? <==> result == Err(AlreadyLinked))
      && (d.medium.None? && HasMedium(core, id) && MediumAt(core, id).link.None? ==>
            && (result == Err(AssumesNoDevice) <==> SlotOf(MediumAt(core, id).state.content).None?)
            && (result == Err(WrongDevice) <==> SlotOf(MediumAt(core, id).state.content) !in {None, Some(d.slot)}))
  {
    if Insert(core, a, id).1.Ok? {
      SetMediumIs(core, a, Some(id));
      SetLinkIs(core, id, Some(a));
    }
  }

  lemma SetMediumIs(core: Core, a: AttachmentId, medium: Option<MediaId>)
    requires DevicesSound(core.devices)
    ensures var after := SetMedium(core.devices, a, medium);
      |after| == |core.devices| && forall i | 0 <= i < |after| ::
        after[i] == if core.devices[i].attachment == a then core.devices[i].(medium := medium) else core.devices[i]
  {
    forall i | 0 <= i < |core.devices| && core.devices[i].attachment == a
      ensures Seat(core.devices, a) == i
    {
      SeatIs(core.devices, i);
    }
  }

  lemma SetLinkIs(core: Core, id: MediaId, link: Option<AttachmentId>)
    requires MediaSound(core.media, core.next)
    ensures var after := SetLink(core.media, id, link);
      |after| == |core.media| && forall k | 0 <= k < |after| ::
        after[k] == if core.media[k].id == id then core.media[k].(link := link) else core.media[k]
  {
    forall k | 0 <= k < |core.media| && core.media[k].id == id
      ensures Shelf(core.media, id) == k
    {
      ShelfIs(core.media, k);
    }
  }

  /** Ejecting answers with the medium there was, or that there is none; both ends are let go, and both
      stay where they are. */
  lemma EjectAnswers(core: Core, a: AttachmentId)
    requires Sound(core) && HasDevice(core, a)
    ensures var (after, result) := Eject(core, a);
      match DeviceAt(core, a).medium
      case None => after == core && result == Err(NothingToEject)
      case Some(id) => result == Ok(id) && HasMedium(core, id) && Relinked(core, after, a, None, id, None)
  {
    var medium := DeviceAt(core, a).medium;
    if medium.Some? {
      SetMediumIs(core, a, None);
      SetLinkIs(core, medium.value, None);
    }
  }

  /** **A device is released exactly where there is one, held medium or not**; then its slot is free, every
      other device is as it was and in order, and every medium is pooled, the one it held in no slot. */
  lemma ReleaseDeviceAnswers(core: Core, a: AttachmentId)
    requires Sound(core)
    ensures var (after, result) := ReleaseDevice(core, a);
      && result == (if HasDevice(core, a) then Ok(()) else Err(NoSuchDevice))
      && (result.Err? ==> after == core)
      && (result.Ok? ==>
            && !HasDevice(after, a) && after.next == core.next && |after.media| == |core.media|
            && (forall b | b != a :: HasDevice(after, b) <==> HasDevice(core, b))
            && (forall b | b != a && HasDevice(core, b) :: DeviceAt(after, b) == DeviceAt(core, b))
            && (forall k | 0 <= k < |core.media| :: after.media[k]
                 == if core.media[k].link == Some(a) then core.media[k].(link := None) else core.media[k]))
  {
    if HasDevice(core, a) {
      ReleaseDeviceKeepsMedia(core, a);
      var ejected := if DeviceAt(core, a).medium.Some? then Eject(core, a).0 else core;
      EjectedDevices(core, a, ejected);
      forall b | b != a
        ensures Seat(Discard(ejected.devices, a), b) < |Discard(ejected.devices, a)| <==> HasDevice(core, b)
        ensures HasDevice(core, b) ==> DeviceAt(ReleaseDevice(core, a).0, b) == DeviceAt(core, b)
      {
        OtherSeat(core.devices, ejected.devices, a, b);
      }
    }
  }

  lemma EjectedDevices(core: Core, a: AttachmentId, ejected: Core)
    requires Sound(core) && HasDevice(core, a)
    requires ejected == if DeviceAt(core, a).medium.Some? then Eject(core, a).0 else core
    ensures SameBut(core.devices, ejected.devices, a)
  {
    SetMediumIs(core, a, None);
  }

  /** The same devices in the same order, but for what is in the one at `a`. */
  ghost predicate SameBut(devices: seq<StorageDevice>, after: seq<StorageDevice>, a: AttachmentId) {
    && |after| == |devices|
    && forall i | 0 <= i < |devices| ::
         after[i].attachment == devices[i].attachment && (devices[i].attachment != a ==> after[i] == devices[i])
  }

  lemma {:induction false} OtherSeat(devices: seq<StorageDevice>, after: seq<StorageDevice>, a: AttachmentId,
                                     b: AttachmentId)
    requires SameBut(devices, after, a) && a != b
    ensures var rest := Discard(after, a);
      && (Seat(rest, b) < |rest| <==> Seat(devices, b) < |devices|)
      && (Seat(devices, b) < |devices| ==> rest[Seat(rest, b)] == devices[Seat(devices, b)])
  {
    if devices != [] {
      OtherSeat(devices[1..], after[1..], a, b);
      DiscardFrom(after, a);
      SeatFrom(after[0], Discard(after[1..], a), b);
    }
  }

  lemma DiscardFrom(devices: seq<StorageDevice>, a: AttachmentId)
    requires devices != []
    ensures var rest := Discard(devices[1..], a);
      Discard(devices, a) == if devices[0].attachment == a then rest else [devices[0]] + rest
  {
  }

  lemma SeatFrom(first: StorageDevice, rest: seq<StorageDevice>, b: AttachmentId)
    ensures Seat([first] + rest, b) == if first.attachment == b then 0 else 1 + Seat(rest, b)
  {
    assert ([first] + rest)[1..] == rest;
  }

  // ---- Media

  /** A load stands exactly where the artifact can be read and built, is of the format's family, says what
      recorded it, and bears its partitions; then the pool has one medium more, last, with the next identity,
      the state it was built with, and no slot. */
  lemma LoadAnswers(core: Core, build: Build)
    ensures var (after, result) := Load(core, build);
      && (result.Ok? <==> build.Built? && !build.foreign && build.state.content != Space(None) && build.partitions)
      && (result.Err? ==> after == core)
      && (result.Ok? ==>
            result.value == core.next && after.next == core.next + 1 && after.devices == core.devices
            && after.media == core.media + [Medium(core.next, build.state, None)])
      && (result == Err(ForeignFamily) <==> build.Built? && build.foreign)
      && (result == Err(UndeclaredDevice) <==> build.Built? && !build.foreign && build.state.content == Space(None))
      && (result == Err(Unloadable) <==>
            build.Refused? || (!build.foreign && build.state.content != Space(None) && !build.partitions))
  {
  }

  /** What a space says recorded it is what is declared; any other reading says so itself. */
  function Declared(state: State, device: DeviceType): State {
    state.(content := if state.content.Space? then Space(Some(device)) else state.content)
  }

  /** The declared load is the same, for a device the format records and no other; whatever the reading said or
      did not say, a space is then recorded by the device declared. */
  lemma LoadAsAnswers(core: Core, build: Build, recorded: set<DeviceType>, device: DeviceType)
    ensures var (after, result) := LoadAs(core, build, recorded, device);
      && (result.Ok? <==> device in recorded && build.Built? && !build.foreign && build.partitions)
      && (result.Err? ==> after == core)
      && (result == Err(NeverRecordedBy) <==> device !in recorded)
      && (result == Err(ForeignFamily) <==> device in recorded && build.Built? && build.foreign)
      && (result == Err(Unloadable) <==>
            device in recorded && (build.Refused? || (!build.foreign && !build.partitions)))
      && (result.Ok? ==>
            result.value == core.next && after.next == core.next + 1 && after.devices == core.devices
            && after.media == core.media + [Medium(core.next, Declared(build.state, device), None)])
  {
  }

  /** A medium is released exactly where there is one. */
  lemma ReleaseMediaAnswers(core: Core, id: MediaId)
    ensures var (after, result) := ReleaseMedia(core, id);
      result == (if HasMedium(core, id) then Ok(()) else Err(NoSuchMedium)) && (result.Err? ==> after == core)
  {
  }

  /** A layout is recorded onto a pooled blank of the right article, never recorded and with no coordinates of
      its own, and onto nothing else; then that device recorded it, and nothing else differs. */
  lemma RecordAsAnswers(core: Core, id: MediaId, article: string, device: DeviceType)
    requires Sound(core)
    ensures var (after, result) := RecordAs(core, id, article, device);
      && (result.Ok? <==> HasMedium(core, id) && MediumAt(core, id).state.content == Authored(false, None)
                          && MediumAt(core, id).state.article == article)
      && (result.Err? ==> after == core)
      && (result == Err(NoSuchMedium) <==> !HasMedium(core, id))
      && (HasMedium(core, id) ==>
            var state := MediumAt(core, id).state;
            && (result == Err(NotABlank) <==> !state.content.Authored?)
            && (result == Err(AlreadyRecorded) <==> state.content.Authored? && state.content.recorded.Some?)
            && (result == Err(CoordinatesStated) <==> state.content == Authored(true, None))
            && (result == Err(WrongArticle) <==> state.content == Authored(false, None) && state.article != article))
      && (result.Ok? ==>
            after.devices == core.devices && after.next == core.next && |after.media| == |core.media|
            && forall k | 0 <= k < |core.media| :: after.media[k] ==
                 if core.media[k].id == id
                 then core.media[k].(state := core.media[k].state.(content := Authored(false, Some(device))))
                 else core.media[k])
  {
    if HasMedium(core, id) {
      forall k | 0 <= k < |core.media| && core.media[k].id == id
        ensures Shelf(core.media, id) == k
      {
        ShelfIs(core.media, k);
      }
    }
  }

  /** Which refusal the one act meets: the artifact's, then the bay's, then the partitions'. */
  lemma AddDeviceForRefusals(core: Core, build: Build)
    requires Sound(core)
    ensures var result := AddDeviceFor(core, build).1;
      match build
      case Refused => result == Err(Unloadable)
      case Built(state, foreign, partitions) =>
        && (result == Err(ForeignFamily) <==> foreign)
        && (result == Err(UndeclaredDevice) <==> !foreign && SlotOf(state.content) == None)
        && (!foreign && SlotOf(state.content).Some? ==>
              var slot := SlotOf(state.content).value;
              var taken := HasDevice(core, AttachmentId(Prefix(slot), LowestFree(core, slot)));
              && (result == Err(SlotTaken) <==> taken)
              && (result == Err(Unloadable) <==> !taken && !partitions))
  {
    if build.Built? && !build.foreign && SlotOf(build.state.content).Some? {
      var slot := SlotOf(build.state.content).value;
      if AddDevice(core, slot, None).1.Ok? && build.partitions {
        PlacedInsert(core, slot, build.state);
      }
    }
  }
}
