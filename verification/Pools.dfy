/** The session core: the devices configured in it, the media it holds, and the links between them.
    Building a medium's state from an artifact is outside the model: what it comes to is a
    parameter of the load. */
module Pools {
  import opened Wrappers
  import opened Devices

  datatype Error =
    | SlotTaken | NoSuchDevice | NoSuchMedium
    | Occupied | AlreadyLinked | AssumesNoDevice | WrongDevice | NothingToEject
    | Unloadable | ForeignFamily | UndeclaredDevice | NeverRecordedBy
    | NotABlank | AlreadyRecorded | CoordinatesStated | WrongArticle

  type MediaId = nat

  /** What a medium is behind its name: block content, an archive, a flux recording, or a medium
      created by its author, blank until a layout is recorded onto it. */
  datatype Content =
    | Space(device: Option<DeviceType>)
    | Files
    | Flux(recorder: DeviceType)
    | Authored(coordinates: bool, recorded: Option<DeviceType>)

  /** A medium before it is pooled. */
  datatype State = State(content: Content, path: Option<string>, imagePath: Option<string>, article: string)

  datatype Medium = Medium(id: MediaId, state: State, link: Option<AttachmentId>)

  datatype StorageDevice = StorageDevice(attachment: AttachmentId, slot: DeviceSlot, medium: Option<MediaId>)

  datatype Core = Core(devices: seq<StorageDevice>, media: seq<Medium>, next: MediaId)

  const EMPTY := Core([], [], 0)

  function DeviceOf(content: Content): Option<DeviceType> {
    match content
    case Space(device) => device
    case Files => None
    case Flux(recorder) => Some(recorder)
    case Authored(_, recorded) => recorded
  }

  /** The slot a medium goes in: an archive in the receiver, a blank in none. */
  function SlotOf(content: Content): Option<DeviceSlot> {
    if content.Files? then Some(Archive)
    else match DeviceOf(content)
      case Some(device) => Some(Recorded(device))
      case None => None
  }

  // ---- Lookups: the first match from the front, as a search through a vector finds it

  function Seat(devices: seq<StorageDevice>, a: AttachmentId): (at: nat)
    ensures at <= |devices| && (forall i | 0 <= i < at :: devices[i].attachment != a)
    ensures at < |devices| ==> devices[at].attachment == a
  {
    if devices == [] || devices[0].attachment == a then 0 else 1 + Seat(devices[1..], a)
  }

  function Shelf(media: seq<Medium>, id: MediaId): (at: nat)
    ensures at <= |media| && (forall i | 0 <= i < at :: media[i].id != id)
    ensures at < |media| ==> media[at].id == id
  {
    if media == [] || media[0].id == id then 0 else 1 + Shelf(media[1..], id)
  }

  predicate HasDevice(core: Core, a: AttachmentId) {
    Seat(core.devices, a) < |core.devices|
  }

  predicate HasMedium(core: Core, id: MediaId) {
    Shelf(core.media, id) < |core.media|
  }

  function DeviceAt(core: Core, a: AttachmentId): StorageDevice
    requires HasDevice(core, a)
  {
    core.devices[Seat(core.devices, a)]
  }

  function MediumAt(core: Core, id: MediaId): Medium
    requires HasMedium(core, id)
  {
    core.media[Shelf(core.media, id)]
  }

  // ---- The media pool

  /** What building a state from the caller's source came to. */
  datatype Build = Refused | Built(state: State, foreign: bool, partitions: bool)

  function Admit(core: Core, state: State): (Core, MediaId) {
    (core.(media := core.media + [Medium(core.next, state, None)], next := core.next + 1), core.next)
  }

  /** Every load's last step: an artifact of a foreign family, a reading that cannot say what recorded
      it and a partition scheme the content does not bear are refused before anything is pooled. */
  function Load(core: Core, build: Build): (Core, Result<MediaId, Error>) {
    if build.Refused? then (core, Err(Unloadable))
    else if build.foreign then (core, Err(ForeignFamily))
    else if build.state.content == Space(None) then (core, Err(UndeclaredDevice))
    else if !build.partitions then (core, Err(Unloadable))
    else
      var (admitted, id) := Admit(core, build.state);
      (admitted, Ok(id))
  }

  /** The declared reading of a discovery: the device must be one its format records. */
  function LoadAs(core: Core, build: Build, recorded: set<DeviceType>, device: DeviceType)
    : (Core, Result<MediaId, Error>)
  {
    if device !in recorded then (core, Err(NeverRecordedBy))
    else if build.Built? && build.state.content.Space? then
      Load(core, build.(state := build.state.(content := Space(Some(device)))))
    else Load(core, build)
  }

  function SetMedium(devices: seq<StorageDevice>, a: AttachmentId, medium: Option<MediaId>): seq<StorageDevice> {
    var at := Seat(devices, a);
    if at < |devices| then devices[at := devices[at].(medium := medium)] else devices
  }

  function SetLink(media: seq<Medium>, id: MediaId, link: Option<AttachmentId>): seq<Medium> {
    var at := Shelf(media, id);
    if at < |media| then media[at := media[at].(link := link)] else media
  }

  /** Severs the medium's link, then takes it out of the pool. */
  function ReleaseMedia(core: Core, id: MediaId): (Core, Result<(), Error>) {
    if !HasMedium(core, id) then (core, Err(NoSuchMedium))
    else
      var at := Shelf(core.media, id);
      var link := core.media[at].link;
      var devices := if link.Some? then SetMedium(core.devices, link.value, None) else core.devices;
      (core.(devices := devices, media := core.media[..at] + core.media[at + 1..]), Ok(()))
  }

  /** Records a layout onto a blank, once: `device` is the drive the layout is recorded for. */
  function RecordAs(core: Core, id: MediaId, article: string, device: DeviceType): (Core, Result<(), Error>) {
    if !HasMedium(core, id) then (core, Err(NoSuchMedium))
    else
      var at := Shelf(core.media, id);
      var state := core.media[at].state;
      if !state.content.Authored? then (core, Err(NotABlank))
      else if state.content.recorded.Some? then (core, Err(AlreadyRecorded))
      else if state.content.coordinates then (core, Err(CoordinatesStated))
      else if state.article != article then (core, Err(WrongArticle))
      else
        var written := state.(content := state.content.(recorded := Some(device)));
        (core.(media := core.media[at := core.media[at].(state := written)]), Ok(()))
  }

  // ---- The device set

  /** The indices taken in a bay. */
  function Used(devices: seq<StorageDevice>, prefix: string): set<nat> {
    set i | 0 <= i < |devices| && devices[i].attachment.prefix == prefix :: devices[i].attachment.index
  }

  /** The least number from `from` up that is not in `used`. */
  function FirstFree(used: set<nat>, from: nat): nat
    decreases |used|
  {
    if from in used then FirstFree(used - {from}, from + 1) else from
  }

  function LowestFree(core: Core, slot: DeviceSlot): u32 {
    FirstFree(Used(core.devices, Prefix(slot)), 0) % U32_LIMIT
  }

  /** Puts a fresh, empty device in a slot, unless something is there. */
  function Place(core: Core, slot: DeviceSlot, index: u32): (r: (Core, Result<AttachmentId, Error>))
    ensures r.1.Ok? ==> HasDevice(r.0, r.1.value)
  {
    var a := AttachmentId(Prefix(slot), index);
    if HasDevice(core, a) then (core, Err(SlotTaken))
    else
      var devices := core.devices + [StorageDevice(a, slot, None)];
      assert devices[|core.devices|].attachment == a;
      (core.(devices := devices), Ok(a))
  }

  function AddDevice(core: Core, slot: DeviceSlot, index: Option<u32>): (Core, Result<AttachmentId, Error>) {
    Place(core, slot, if index.Some? then index.value else LowestFree(core, slot))
  }

  function Discard(devices: seq<StorageDevice>, a: AttachmentId): seq<StorageDevice> {
    if devices == [] then []
    else (if devices[0].attachment == a then [] else [devices[0]]) + Discard(devices[1..], a)
  }

  /** Links a pooled medium into a slot: the slot is empty, the medium is in no other slot, and it was
      recorded by the very device the slot is typed by. */
  function Insert(core: Core, a: AttachmentId, id: MediaId): (Core, Result<(), Error>)
    requires HasDevice(core, a)
  {
    if DeviceAt(core, a).medium.Some? then (core, Err(Occupied))
    else if !HasMedium(core, id) then (core, Err(NoSuchMedium))
    else if MediumAt(core, id).link.Some? then (core, Err(AlreadyLinked))
    else if SlotOf(MediumAt(core, id).state.content).None? then (core, Err(AssumesNoDevice))
    else if SlotOf(MediumAt(core, id).state.content).value != DeviceAt(core, a).slot then (core, Err(WrongDevice))
    else (core.(media := SetLink(core.media, id, Some(a)), devices := SetMedium(core.devices, a, Some(id))), Ok(()))
  }

  function Eject(core: Core, a: AttachmentId): (Core, Result<MediaId, Error>)
    requires HasDevice(core, a)
  {
    var medium := DeviceAt(core, a).medium;
    if medium.None? then (core, Err(NothingToEject))
    else
      (core.(media := SetLink(core.media, medium.value, None), devices := SetMedium(core.devices, a, None)),
       Ok(medium.value))
  }

  /** Ejects first, so the medium stays pooled; then the slot is freed. */
  function ReleaseDevice(core: Core, a: AttachmentId): (Core, Result<(), Error>) {
    if !HasDevice(core, a) then (core, Err(NoSuchDevice))
    else
      var ejected := if DeviceAt(core, a).medium.Some? then Eject(core, a).0 else core;
      (ejected.(devices := Discard(ejected.devices, a)), Ok(()))
  }

  /** Adds a device of the type the artifact's format records, pools the medium and inserts it, as one
      act: whatever refuses leaves neither a slot nor a pooled medium behind. */
  function AddDeviceFor(core: Core, build: Build): (Core, Result<AttachmentId, Error>) {
    if build.Refused? || build.foreign then (core, Err(if build.Refused? then Unloadable else ForeignFamily))
    else match SlotOf(build.state.content)
      case None => (core, Err(UndeclaredDevice))
      case Some(slot) =>
        match Place(core, slot, LowestFree(core, slot)) {
          case (_, Err(error)) => (core, Err(error))
          case (placed, Ok(a)) =>
            if !build.partitions then (placed.(devices := Discard(placed.devices, a)), Err(Unloadable))
            else
              var (admitted, id) := Admit(placed, build.state);
              match Insert(admitted, a, id) {
                case (inserted, Ok(_)) => (inserted, Ok(a))
                case (_, Err(error)) =>
                  (placed.(devices := Discard(placed.devices, a), next := admitted.next), Err(error))
              }
        }
  }
}
