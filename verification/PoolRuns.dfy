/** What every operation of the session core keeps, what each undoes, and what it leaves alone. */
module PoolRuns {
  import opened Wrappers
  import opened Devices
  import opened Pools

  /** The two ends of a link: the slot names the medium, the medium names the slot, and the medium was
      recorded by the device the slot is typed by. */
  predicate Linked(d: StorageDevice, m: Medium) {
    d.medium == Some(m.id) && m.link == Some(d.attachment) && SlotOf(m.state.content) == Some(d.slot)
  }

  ghost predicate DevicesSound(devices: seq<StorageDevice>) {
    && (forall i, j | 0 <= i < j < |devices| :: devices[i].attachment != devices[j].attachment)
    && (forall i | 0 <= i < |devices| :: devices[i].attachment.prefix == Prefix(devices[i].slot))
  }

  /** Identities are issued in load order and only ever count up; every reading says what recorded it. */
  ghost predicate MediaSound(media: seq<Medium>, next: MediaId) {
    && (forall i, j | 0 <= i < j < |media| :: media[i].id < media[j].id)
    && (forall k | 0 <= k < |media| :: media[k].id < next && media[k].state.content != Space(None))
  }

  /** Every occupied slot has its other end. */
  ghost predicate SlotsLinked(core: Core) {
    forall i | 0 <= i < |core.devices| && core.devices[i].medium.Some? ::
      HasMedium(core, core.devices[i].medium.value)
      && Linked(core.devices[i], MediumAt(core, core.devices[i].medium.value))
  }

  /** Every linked medium has its other end. */
  ghost predicate MediaLinked(core: Core) {
    forall k | 0 <= k < |core.media| && core.media[k].link.Some? ::
      HasDevice(core, core.media[k].link.value)
      && Linked(DeviceAt(core, core.media[k].link.value), core.media[k])
  }

  ghost predicate Sound(core: Core) {
    && DevicesSound(core.devices) && MediaSound(core.media, core.next)
    && SlotsLinked(core) && MediaLinked(core)
  }

  /** **A lookup through a link finds the very medium, and back**: a slot holds `id` exactly when the
      pool's medium `id` names that slot. */
  lemma LinksAgree(core: Core, a: AttachmentId, id: MediaId)
    requires Sound(core)
    ensures (HasDevice(core, a) && DeviceAt(core, a).medium == Some(id))
       <==> (HasMedium(core, id) && MediumAt(core, id).link == Some(a))
  {
  }

  // The same two facts with no position named, which is how an edit is followed through them.

  ghost predicate SlotsPaired(devices: seq<StorageDevice>, media: seq<Medium>) {
    forall i | 0 <= i < |devices| && devices[i].medium.Some? ::
      exists k :: 0 <= k < |media| && Linked(devices[i], media[k])
  }

  ghost predicate MediaPaired(devices: seq<StorageDevice>, media: seq<Medium>) {
    forall k | 0 <= k < |media| && media[k].link.Some? ::
      exists i :: 0 <= i < |devices| && Linked(devices[i], media[k])
  }

  lemma SeatIs(devices: seq<StorageDevice>, at: nat)
    requires at < |devices| && DevicesSound(devices)
    ensures Seat(devices, devices[at].attachment) == at
  {
  }

  lemma ShelfIs(media: seq<Medium>, at: nat)
    requires at < |media| && forall i, j | 0 <= i < j < |media| :: media[i].id < media[j].id
    ensures Shelf(media, media[at].id) == at
  {
  }

  lemma SlotsLinkedIff(core: Core)
    requires MediaSound(core.media, core.next)
    ensures SlotsLinked(core) <==> SlotsPaired(core.devices, core.media)
  {
    if SlotsPaired(core.devices, core.media) {
      forall i | 0 <= i < |core.devices| && core.devices[i].medium.Some?
        ensures HasMedium(core, core.devices[i].medium.value)
             && Linked(core.devices[i], MediumAt(core, core.devices[i].medium.value))
      {
        var k :| 0 <= k < |core.media| && Linked(core.devices[i], core.media[k]);
        ShelfIs(core.media, k);
      }
    }
  }

  lemma MediaLinkedIff(core: Core)
    requires DevicesSound(core.devices)
    ensures MediaLinked(core) <==> MediaPaired(core.devices, core.media)
  {
    if MediaPaired(core.devices, core.media) {
      forall k | 0 <= k < |core.media| && core.media[k].link.Some?
        ensures HasDevice(core, core.media[k].link.value)
             && Linked(DeviceAt(core, core.media[k].link.value), core.media[k])
      {
        var i :| 0 <= i < |core.devices| && Linked(core.devices[i], core.media[k]);
        SeatIs(core.devices, i);
      }
    }
  }

  // ---- Each operation keeps it

  lemma ShelfGrows(media: seq<Medium>, m: Medium, id: MediaId)
    requires Shelf(media, id) < |media|
    ensures Shelf(media + [m], id) == Shelf(media, id)
    ensures (media + [m])[Shelf(media, id)] == media[Shelf(media, id)]
  {
    assert (media + [m])[Shelf(media, id)].id == id;
    assert forall k | 0 <= k < |media| :: (media + [m])[k] == media[k];
  }

  lemma AdmitKeepsSound(core: Core, state: State)
    requires Sound(core) && state.content != Space(None)
    ensures Sound(Admit(core, state).0)
  {
    var after := Admit(core, state).0;
    forall i | 0 <= i < |core.devices| && core.devices[i].medium.Some?
      ensures HasMedium(after, core.devices[i].medium.value)
           && Linked(core.devices[i], MediumAt(after, core.devices[i].medium.value))
    {
      ShelfGrows(core.media, Medium(core.next, state, None), core.devices[i].medium.value);
    }
  }

  /** `d` at `seat` and `m` at `shelf` may be changed to be linked to each other, or to nothing. */
  ghost predicate Edit(devices: seq<StorageDevice>, media: seq<Medium>, seat: nat, shelf: nat,
                       d: StorageDevice, m: Medium) {
    && seat < |devices| && shelf < |media|
    && m.id == media[shelf].id && d.attachment == devices[seat].attachment
    && (Linked(d, m) || (d.medium.None? && m.link.None?))
    && (Linked(devices[seat], media[shelf]) || (devices[seat].medium.None? && media[shelf].link.None?))
  }

  lemma EditKeepsSlotsPaired(devices: seq<StorageDevice>, media: seq<Medium>, seat: nat, shelf: nat,
                             d: StorageDevice, m: Medium)
    requires SlotsPaired(devices, media) && Edit(devices, media, seat, shelf, d, m)
    requires forall i, j | 0 <= i < j < |devices| :: devices[i].attachment != devices[j].attachment
    ensures SlotsPaired(devices[seat := d], media[shelf := m])
  {
    var ds, ms := devices[seat := d], media[shelf := m];
    forall i | 0 <= i < |ds| && ds[i].medium.Some?
      ensures exists k :: 0 <= k < |ms| && Linked(ds[i], ms[k])
    {
      if i == seat {
        assert Linked(ds[i], ms[shelf]);
      } else {
        var k :| 0 <= k < |media| && Linked(devices[i], media[k]);
        assert Linked(ds[i], ms[k]);
      }
    }
  }

  lemma EditKeepsMediaPaired(devices: seq<StorageDevice>, media: seq<Medium>, seat: nat, shelf: nat,
                             d: StorageDevice, m: Medium)
    requires MediaPaired(devices, media) && Edit(devices, media, seat, shelf, d, m)
    requires forall i, j | 0 <= i < j < |media| :: media[i].id < media[j].id
    ensures MediaPaired(devices[seat := d], media[shelf := m])
  {
    var ds, ms := devices[seat := d], media[shelf := m];
    forall k | 0 <= k < |ms| && ms[k].link.Some?
      ensures exists i :: 0 <= i < |ds| && Linked(ds[i], ms[k])
    {
      if k == shelf {
        assert Linked(ds[seat], ms[k]);
      } else {
        var i :| 0 <= i < |devices| && Linked(devices[i], media[k]);
        assert Linked(ds[i], ms[k]);
      }
    }
  }

  lemma EditKeepsSlotsLinked(core: Core, after: Core, seat: nat, shelf: nat, d: StorageDevice, m: Medium)
    requires DevicesSound(core.devices) && MediaSound(core.media, core.next) && MediaSound(after.media, after.next)
    requires SlotsLinked(core) && Edit(core.devices, core.media, seat, shelf, d, m)
    requires after == core.(devices := core.devices[seat := d], media := core.media[shelf := m])
    ensures SlotsLinked(after)
  {
    SlotsLinkedIff(core);
    EditKeepsSlotsPaired(core.devices, core.media, seat, shelf, d, m);
    SlotsLinkedIff(after);
  }

  lemma EditKeepsMediaLinked(core: Core, after: Core, seat: nat, shelf: nat, d: StorageDevice, m: Medium)
    requires DevicesSound(core.devices) && MediaSound(core.media, core.next) && DevicesSound(after.devices)
    requires MediaLinked(core) && Edit(core.devices, core.media, seat, shelf, d, m)
    requires after == core.(devices := core.devices[seat := d], media := core.media[shelf := m])
    ensures MediaLinked(after)
  {
    MediaLinkedIff(core);
    EditKeepsMediaPaired(core.devices, core.media, seat, shelf, d, m);
    MediaLinkedIff(after);
  }

  lemma EditKeepsSound(core: Core, seat: nat, shelf: nat, d: StorageDevice, m: Medium)
    requires Sound(core) && Edit(core.devices, core.media, seat, shelf, d, m)
    requires d.slot == core.devices[seat].slot && m.state == core.media[shelf].state
    ensures Sound(core.(devices := core.devices[seat := d], media := core.media[shelf := m]))
  {
    var after := core.(devices := core.devices[seat := d], media := core.media[shelf := m]);
    EditKeepsSlotsLinked(core, after, seat, shelf, d, m);
    EditKeepsMediaLinked(core, after, seat, shelf, d, m);
  }

  lemma InsertKeepsSound(core: Core, a: AttachmentId, id: MediaId)
    requires Sound(core) && HasDevice(core, a)
    ensures Sound(Insert(core, a, id).0)
  {
    if Insert(core, a, id).1.Ok? {
      var seat, shelf := Seat(core.devices, a), Shelf(core.media, id);
      EditKeepsSound(core, seat, shelf,
                     core.devices[seat].(medium := Some(id)), core.media[shelf].(link := Some(a)));
    }
  }

  lemma EjectKeepsSound(core: Core, a: AttachmentId)
    requires Sound(core) && HasDevice(core, a)
    ensures Sound(Eject(core, a).0)
  {
    if DeviceAt(core, a).medium.Some? {
      var seat, shelf := Seat(core.devices, a), Shelf(core.media, DeviceAt(core, a).medium.value);
      EditKeepsSound(core, seat, shelf,
                     core.devices[seat].(medium := None), core.media[shelf].(link := None));
    }
  }

  lemma SeatGrows(devices: seq<StorageDevice>, d: StorageDevice, a: AttachmentId)
    requires Seat(devices, a) < |devices|
    ensures Seat(devices + [d], a) == Seat(devices, a)
    ensures (devices + [d])[Seat(devices, a)] == devices[Seat(devices, a)]
  {
    assert (devices + [d])[Seat(devices, a)].attachment == a;
    assert forall i | 0 <= i < |devices| :: (devices + [d])[i] == devices[i];
  }

  lemma PlaceKeepsSound(core: Core, slot: DeviceSlot, index: u32)
    requires Sound(core)
    ensures Sound(Place(core, slot, index).0)
  {
    var (after, result) := Place(core, slot, index);
    if result.Ok? {
      forall k | 0 <= k < |core.media| && core.media[k].link.Some?
        ensures HasDevice(after, core.media[k].link.value)
             && Linked(DeviceAt(after, core.media[k].link.value), core.media[k])
      {
        SeatGrows(core.devices, StorageDevice(result.value, slot, None), core.media[k].link.value);
      }
    }
  }

  lemma {:induction false} DiscardIs(devices: seq<StorageDevice>, a: AttachmentId)
    requires forall i, j | 0 <= i < j < |devices| :: devices[i].attachment != devices[j].attachment
    ensures var at := Seat(devices, a);
      Discard(devices, a) == if at < |devices| then devices[..at] + devices[at + 1..] else devices
  {
    if devices != [] {
      DiscardIs(devices[1..], a);
    }
  }

  /** Taking out an empty device or an unlinked medium leaves every link whole. */
  lemma DropDeviceKeepsLinks(devices: seq<StorageDevice>, media: seq<Medium>, at: nat)
    requires MediaPaired(devices, media) && at < |devices| && devices[at].medium.None?
    ensures MediaPaired(devices[..at] + devices[at + 1..], media)
  {
    var ds := devices[..at] + devices[at + 1..];
    forall k | 0 <= k < |media| && media[k].link.Some?
      ensures exists i :: 0 <= i < |ds| && Linked(ds[i], media[k])
    {
      var i :| 0 <= i < |devices| && Linked(devices[i], media[k]);
      assert Linked(ds[if i < at then i else i - 1], media[k]);
    }
  }

  lemma DropMediumKeepsLinks(devices: seq<StorageDevice>, media: seq<Medium>, at: nat)
    requires SlotsPaired(devices, media) && at < |media| && media[at].link.None?
    ensures SlotsPaired(devices, media[..at] + media[at + 1..])
  {
    var ms := media[..at] + media[at + 1..];
    forall i | 0 <= i < |devices| && devices[i].medium.Some?
      ensures exists k :: 0 <= k < |ms| && Linked(devices[i], ms[k])
    {
      var k :| 0 <= k < |media| && Linked(devices[i], media[k]);
      assert Linked(devices[i], ms[if k < at then k else k - 1]);
    }
  }

  lemma DropDeviceKeepsSound(core: Core, at: nat, after: Core)
    requires Sound(core) && at < |core.devices| && core.devices[at].medium.None?
    requires after == core.(devices := core.devices[..at] + core.devices[at + 1..])
    ensures Sound(after)
  {
    MediaLinkedIff(core);
    DropDeviceKeepsLinks(core.devices, core.media, at);
    MediaLinkedIff(after);
  }

  lemma DiscardKeepsSound(core: Core, a: AttachmentId, after: Core)
    requires Sound(core) && HasDevice(core, a) && DeviceAt(core, a).medium.None?
    requires after == core.(devices := Discard(core.devices, a))
    ensures Sound(after)
  {
    DiscardIs(core.devices, a);
    DropDeviceKeepsSound(core, Seat(core.devices, a), after);
  }

  lemma DropMediumKeepsSound(core: Core, at: nat)
    requires Sound(core) && at < |core.media| && core.media[at].link.None?
    ensures Sound(core.(media := core.media[..at] + core.media[at + 1..]))
  {
    var after := core.(media := core.media[..at] + core.media[at + 1..]);
    SlotsLinkedIff(core);
    DropMediumKeepsLinks(core.devices, core.media, at);
    SlotsLinkedIff(after);
  }

  lemma ReleaseDeviceKeepsSound(core: Core, a: AttachmentId)
    requires Sound(core)
    ensures Sound(ReleaseDevice(core, a).0)
  {
    if HasDevice(core, a) {
      var ejected := if DeviceAt(core, a).medium.Some? then Eject(core, a).0 else core;
      EjectKeepsSound(core, a);
      EjectLeaves(core, a);
      DiscardKeepsSound(ejected, a, ReleaseDevice(core, a).0);
    }
  }

  lemma EjectLeaves(core: Core, a: AttachmentId)
    requires Sound(core) && HasDevice(core, a)
    ensures var after := Eject(core, a).0; HasDevice(after, a) && DeviceAt(after, a).medium.None?
  {
    var seat := Seat(core.devices, a);
    var after := Eject(core, a).0;
    assert after.devices[seat].attachment == a;
    assert Seat(after.devices, a) == seat;
  }

  lemma ReleaseMediaKeepsSound(core: Core, id: MediaId)
    requires Sound(core)
    ensures Sound(ReleaseMedia(core, id).0)
  {
    if HasMedium(core, id) {
      var at := Shelf(core.media, id);
      var m := core.media[at];
      if m.link.Some? {
        var seat := Seat(core.devices, m.link.value);
        var d := core.devices[seat].(medium := None);
        EditKeepsSound(core, seat, at, d, m.(link := None));
        var severed := core.(devices := core.devices[seat := d], media := core.media[at := m.(link := None)]);
        DropMediumKeepsSound(severed, at);
        assert severed.media[..at] + severed.media[at + 1..] == core.media[..at] + core.media[at + 1..];
      } else {
        DropMediumKeepsSound(core, at);
      }
    }
  }

  lemma StateKeepsSound(core: Core, at: nat, state: State)
    requires Sound(core) && at < |core.media| && core.media[at].link.None? && state.content != Space(None)
    ensures Sound(core.(media := core.media[at := core.media[at].(state := state)]))
  {
    var after := core.(media := core.media[at := core.media[at].(state := state)]);
    forall i | 0 <= i < |core.devices| && core.devices[i].medium.Some?
      ensures HasMedium(after, core.devices[i].medium.value)
           && Linked(core.devices[i], MediumAt(after, core.devices[i].medium.value))
    {
      ShelfKept(core.media, after.media, core.devices[i].medium.value);
    }
  }

  /** A blank goes in no slot, so binding a device to it cannot break a link. */
  lemma RecordAsKeepsSound(core: Core, id: MediaId, article: string, device: DeviceType)
    requires Sound(core)
    ensures Sound(RecordAs(core, id, article, device).0)
  {
    var (after, result) := RecordAs(core, id, article, device);
    if result.Ok? {
      var at := Shelf(core.media, id);
      assert SlotOf(core.media[at].state.content).None?;
      StateKeepsSound(core, at, after.media[at].state);
    }
  }

  lemma ShelfKept(before: seq<Medium>, after: seq<Medium>, id: MediaId)
    requires |before| == |after| && forall i | 0 <= i < |before| :: before[i].id == after[i].id
    ensures Shelf(before, id) == Shelf(after, id)
  {
  }

  // ---- The lowest free slot of a bay

  lemma {:induction false} FirstFreeIs(used: set<nat>, from: nat, n: nat)
    requires from <= n && n !in used && forall m | from <= m < n :: m in used
    ensures FirstFree(used, from) == n
    decreases n - from
  {
    if from < n {
      FirstFreeIs(used - {from}, from + 1, n);
    }
  }

  ghost predicate Rising(s: seq<nat>) {
    forall i, j | 0 <= i < j < |s| :: s[i] <= s[j]
  }

  function SortedInto(s: seq<nat>, n: nat): seq<nat> {
    if s == [] || n <= s[0] then [n] + s else [s[0]] + SortedInto(s[1..], n)
  }

  lemma {:induction false} SortedIntoIs(s: seq<nat>, n: nat)
    requires Rising(s)
    ensures Rising(SortedInto(s, n)) && forall x :: x in SortedInto(s, n) <==> x in s || x == n
  {
    if s != [] && n > s[0] {
      SortedIntoIs(s[1..], n);
      var rest := SortedInto(s[1..], n);
      assert forall x :: x in s <==> x == s[0] || x in s[1..];
      forall j | 0 <= j < |rest|
        ensures s[0] <= rest[j]
      {
        assert rest[j] in rest;
        if rest[j] != n {
          var k :| 0 <= k < |s[1..]| && s[1..][k] == rest[j];
          assert s[k + 1] == rest[j];
        }
      }
    }
  }

  /** The indices taken in the bay, sorted. */
  method SortedIndices(core: Core, slot: DeviceSlot) returns (used: seq<nat>)
    ensures Rising(used) && forall x :: x in used <==> x in Used(core.devices, Prefix(slot))
  {
    used := [];
    for i := 0 to |core.devices|
      invariant Rising(used)
      invariant forall x :: x in used <==> x in Used(core.devices[..i], Prefix(slot))
    {
      var d := core.devices[i];
      UsedGrows(core.devices[..i], d, Prefix(slot));
      assert core.devices[..i + 1] == core.devices[..i] + [d];
      if d.attachment.prefix == Prefix(slot) {
        SortedIntoIs(used, d.attachment.index);
        used := SortedInto(used, d.attachment.index);
      }
    }
    assert core.devices[..|core.devices|] == core.devices;
  }

  /** Sorts the indices taken in the bay and walks up them until one is missing. */
  method LowestFreeIndex(core: Core, slot: DeviceSlot) returns (next: u32)
    ensures next == LowestFree(core, slot)
  {
    var used := SortedIndices(core, slot);
    ghost var taken := Used(core.devices, Prefix(slot));
    ghost var n: nat := 0;
    next := 0;
    var i := 0;
    while i < |used|
      invariant 0 <= i <= |used| && n <= U32_LIMIT && next == n % U32_LIMIT
      invariant forall m: nat | m < n :: m in taken
      invariant forall k | 0 <= k < i :: used[k] < n
      invariant n > 0 ==> i > 0 && n - 1 <= used[i - 1]
    {
      if used[i] == next {
        next := (next + 1) % U32_LIMIT;
        n := n + 1;
      } else if used[i] > next {
        break;
      }
      i := i + 1;
    }
    assert n !in taken by {
      assert n in used ==> n in taken;
    }
    FirstFreeIs(taken, 0, n);
  }

  lemma UsedGrows(devices: seq<StorageDevice>, d: StorageDevice, prefix: string)
    ensures Used(devices + [d], prefix)
         == Used(devices, prefix) + if d.attachment.prefix == prefix then {d.attachment.index} else {}
  {
    var more := devices + [d];
    assert forall i | 0 <= i < |devices| :: more[i] == devices[i];
    forall x <- Used(devices, prefix)
      ensures x in Used(more, prefix)
    {
      var i :| 0 <= i < |devices| && devices[i].attachment.prefix == prefix && devices[i].attachment.index == x;
      assert more[i].attachment.index == x;
    }
    if d.attachment.prefix == prefix {
      assert more[|devices|].attachment.index in Used(more, prefix);
    }
  }

  lemma {:induction false} FirstFreeBound(used: set<nat>, from: nat)
    ensures from <= FirstFree(used, from) <= from + |used| && FirstFree(used, from) !in used
    ensures forall m | from <= m < FirstFree(used, from) :: m in used
    decreases |used|
  {
    if from in used {
      FirstFreeBound(used - {from}, from + 1);
      forall m | from <= m < FirstFree(used, from)
        ensures m in used
      {
        assert m == from || m in used - {from};
      }
    }
  }

  lemma {:induction false} UsedBound(devices: seq<StorageDevice>, prefix: string)
    ensures |Used(devices, prefix)| <= |devices|
  {
    if devices == [] {
      assert Used(devices, prefix) == {};
    } else {
      var t := |devices| - 1;
      UsedBound(devices[..t], prefix);
      UsedGrows(devices[..t], devices[t], prefix);
      assert devices == devices[..t] + [devices[t]];
    }
  }

  /** The index chosen is free and every lower one in the bay is taken, so adding a device without
      naming an index is never refused. */
  lemma LowestFreeIsFree(core: Core, slot: DeviceSlot)
    requires |core.devices| < U32_LIMIT
    ensures forall i: u32 :: i < LowestFree(core, slot) ==> HasDevice(core, AttachmentId(Prefix(slot), i))
    ensures !HasDevice(core, AttachmentId(Prefix(slot), LowestFree(core, slot)))
    ensures AddDevice(core, slot, None).1 == Ok(AttachmentId(Prefix(slot), LowestFree(core, slot)))
  {
    var used := Used(core.devices, Prefix(slot));
    FirstFreeBound(used, 0);
    UsedBound(core.devices, Prefix(slot));
    var n := LowestFree(core, slot);
    assert n == FirstFree(used, 0);
    forall i | 0 <= i < |core.devices|
      ensures core.devices[i].attachment != AttachmentId(Prefix(slot), n)
    {
      assert core.devices[i].attachment.prefix == Prefix(slot) ==> core.devices[i].attachment.index in used;
    }
    forall i: u32 | i < n
      ensures HasDevice(core, AttachmentId(Prefix(slot), i))
    {
      assert i in used;
      var at :| 0 <= at < |core.devices| && core.devices[at].attachment.prefix == Prefix(slot)
        && core.devices[at].attachment.index == i;
      assert core.devices[at].attachment == AttachmentId(Prefix(slot), i);
    }
  }

  // ---- What one operation undoes, and what it leaves alone

  lemma SetMediumBack(devices: seq<StorageDevice>, a: AttachmentId, medium: Option<MediaId>)
    requires Seat(devices, a) < |devices|
    ensures var set1 := SetMedium(devices, a, medium);
      Seat(set1, a) == Seat(devices, a) && SetMedium(set1, a, devices[Seat(devices, a)].medium) == devices
  {
    var at, set1 := Seat(devices, a), SetMedium(devices, a, medium);
    assert set1[at].attachment == a && Seat(set1, a) == at;
    assert set1[at].(medium := devices[at].medium) == devices[at];
  }

  lemma SetLinkBack(media: seq<Medium>, id: MediaId, link: Option<AttachmentId>)
    requires Shelf(media, id) < |media|
    ensures var set1 := SetLink(media, id, link);
      Shelf(set1, id) == Shelf(media, id) && SetLink(set1, id, media[Shelf(media, id)].link) == media
  {
    var at, set1 := Shelf(media, id), SetLink(media, id, link);
    assert set1[at].id == id && Shelf(set1, id) == at;
    assert set1[at].(link := media[at].link) == media[at];
  }

  /** Ejecting undoes inserting, exactly. */
  lemma EjectUndoesInsert(core: Core, a: AttachmentId, id: MediaId)
    requires HasDevice(core, a) && Insert(core, a, id).1.Ok?
    ensures var inserted := Insert(core, a, id).0;
      HasDevice(inserted, a) && Eject(inserted, a) == (core, Ok(id))
  {
    SetMediumBack(core.devices, a, Some(id));
    SetLinkBack(core.media, id, Some(a));
  }

  /** And a medium that was ejected goes back where it was: the slot cannot refuse it. */
  lemma InsertUndoesEject(core: Core, a: AttachmentId)
    requires Sound(core) && HasDevice(core, a) && Eject(core, a).1.Ok?
    ensures var (ejected, id) := Eject(core, a);
      HasDevice(ejected, a) && Insert(ejected, a, id.value) == (core, Ok(()))
  {
    SetMediumBack(core.devices, a, None);
    SetLinkBack(core.media, Eject(core, a).1.value, None);
  }

  lemma EjectedLinks(core: Core, a: AttachmentId, k: nat)
    requires Sound(core) && HasDevice(core, a) && k < |core.media|
    ensures Eject(core, a).0.media[k]
         == if core.media[k].link == Some(a) then core.media[k].(link := None) else core.media[k]
  {
    if core.media[k].link == Some(a) {
      ShelfIs(core.media, k);
    }
  }

  /** Releasing a device frees its slot and keeps every medium pooled, in order, with its state. */
  lemma ReleaseDeviceKeepsMedia(core: Core, a: AttachmentId)
    requires Sound(core) && HasDevice(core, a)
    ensures var after := ReleaseDevice(core, a).0;
      && !HasDevice(after, a) && after.next == core.next && |after.media| == |core.media|
      && forall k | 0 <= k < |core.media| :: after.media[k]
           == if core.media[k].link == Some(a) then core.media[k].(link := None) else core.media[k]
  {
    var ejected := if DeviceAt(core, a).medium.Some? then Eject(core, a).0 else core;
    forall k | 0 <= k < |core.media|
      ensures ejected.media[k] == if core.media[k].link == Some(a) then core.media[k].(link := None) else core.media[k]
    {
      EjectedLinks(core, a, k);
    }
    EjectKeepsSound(core, a);
    DiscardIs(ejected.devices, a);
  }

  lemma DroppedMedium(media: seq<Medium>, at: nat, next: MediaId)
    requires MediaSound(media, next) && at < |media|
    ensures var rest := media[..at] + media[at + 1..];
      && Shelf(rest, media[at].id) == |rest|
      && forall k | 0 <= k < |media| && k != at ::
           Shelf(rest, media[k].id) == (if k < at then k else k - 1) && rest[Shelf(rest, media[k].id)] == media[k]
  {
    var rest := media[..at] + media[at + 1..];
    forall k | 0 <= k < |media| && k != at
      ensures Shelf(rest, media[k].id) == (if k < at then k else k - 1) && rest[Shelf(rest, media[k].id)] == media[k]
    {
      var to := if k < at then k else k - 1;
      assert rest[to] == media[k];
      ShelfIs(rest, to);
    }
  }

  /** Releasing a medium takes it out of the pool; every other medium answers as before. */
  lemma ReleaseMediaLeavesMedia(core: Core, id: MediaId)
    requires Sound(core) && HasMedium(core, id)
    ensures var after := ReleaseMedia(core, id).0;
      && !HasMedium(after, id) && after.next == core.next
      && (forall other | other != id :: HasMedium(after, other) <==> HasMedium(core, other))
      && (forall other | other != id && HasMedium(core, other) :: MediumAt(after, other) == MediumAt(core, other))
  {
    var at := Shelf(core.media, id);
    DroppedMedium(core.media, at, core.next);
    var rest := core.media[..at] + core.media[at + 1..];
    forall other | other != id
      ensures Shelf(rest, other) < |rest| <==> HasMedium(core, other)
      ensures HasMedium(core, other) ==> rest[Shelf(rest, other)] == MediumAt(core, other)
    {
      var k, to := Shelf(core.media, other), Shelf(rest, other);
      assert k < |core.media| ==> core.media[k].id == other;
      if to < |rest| {
        assert rest[to] == core.media[if to < at then to else to + 1];
      }
    }
  }

  /** The slot it was in is empty afterwards, and no other slot is touched. */
  lemma ReleaseMediaLeavesDevices(core: Core, id: MediaId)
    requires Sound(core) && HasMedium(core, id)
    ensures var after := ReleaseMedia(core, id).0;
      && |after.devices| == |core.devices|
      && forall i | 0 <= i < |core.devices| :: after.devices[i]
           == if core.devices[i].medium == Some(id) then core.devices[i].(medium := None) else core.devices[i]
  {
    var after := ReleaseMedia(core, id).0;
    forall i | 0 <= i < |core.devices| && core.devices[i].medium == Some(id)
      ensures after.devices[i] == core.devices[i].(medium := None)
    {
      SeatIs(core.devices, i);
    }
  }

  // ---- The one-act convenience

  lemma DiscardUndoesPlace(core: Core, slot: DeviceSlot, index: u32)
    requires DevicesSound(core.devices) && Place(core, slot, index).1.Ok?
    ensures Discard(Place(core, slot, index).0.devices, AttachmentId(Prefix(slot), index)) == core.devices
  {
    var a := AttachmentId(Prefix(slot), index);
    var devices := Place(core, slot, index).0.devices;
    assert devices[|core.devices|].attachment == a;
    DiscardIs(devices, a);
    assert Seat(devices, a) == |core.devices|;
  }

  /** What the load half of the convenience cannot be refused for. */
  predicate Acceptable(build: Build) {
    build.Built? && !build.foreign && SlotOf(build.state.content).Some? && build.partitions
  }

  lemma PlacedInsert(core: Core, slot: DeviceSlot, state: State)
    requires Sound(core) && AddDevice(core, slot, None).1.Ok? && SlotOf(state.content) == Some(slot)
    ensures var (placed, a) := AddDevice(core, slot, None);
      var (admitted, id) := Admit(placed, state);
      Sound(admitted) && HasDevice(admitted, a.value) && Insert(admitted, a.value, id).1.Ok?
  {
    PlaceKeepsSound(core, slot, LowestFree(core, slot));
    var (placed, a) := AddDevice(core, slot, None);
    AdmitKeepsSound(placed, state);
    var (admitted, id) := Admit(placed, state);
    assert admitted.media[|placed.media|].id == id;
    assert Shelf(admitted.media, id) == |placed.media|;
    assert placed.devices[|core.devices|].attachment == a.value;
    assert Seat(placed.devices, a.value) == |core.devices|;
  }

  lemma InsertedLinks(core: Core, a: AttachmentId, id: MediaId)
    requires Sound(core) && HasDevice(core, a) && Insert(core, a, id).1.Ok?
    ensures var after := Insert(core, a, id).0;
      && Sound(after) && HasDevice(after, a) && HasMedium(after, id)
      && Linked(DeviceAt(after, a), MediumAt(after, id)) && MediumAt(after, id).state == MediumAt(core, id).state
  {
    InsertKeepsSound(core, a, id);
    SetMediumBack(core.devices, a, Some(id));
    SetLinkBack(core.media, id, Some(a));
  }

  /** **One act**: `add_device_for` either leaves the session exactly as it was, or has added one device
      in the lowest free slot of its bay holding one new medium; its insert is never what refuses, so
      it is refused exactly where the artifact is or the bay is full. */
  lemma AddDeviceForIsOneAct(core: Core, build: Build)
    requires Sound(core)
    ensures var (after, result) := AddDeviceFor(core, build);
      && Sound(after)
      && (result.Ok? <==>
            Acceptable(build) && AddDevice(core, SlotOf(build.state.content).value, None).1.Ok?)
      && (result.Err? ==> after == core)
      && (result.Ok? ==>
            AddDevice(core, SlotOf(build.state.content).value, None).1 == result
            && HasDevice(after, result.value) && HasMedium(after, core.next) && after.next == core.next + 1
            && Linked(DeviceAt(after, result.value), MediumAt(after, core.next))
            && MediumAt(after, core.next).state == build.state)
  {
    if build.Built? && !build.foreign && SlotOf(build.state.content).Some? {
      var slot := SlotOf(build.state.content).value;
      var (placed, a) := AddDevice(core, slot, None);
      if a.Ok? && build.partitions {
        PlacedInsert(core, slot, build.state);
        var (admitted, id) := Admit(placed, build.state);
        InsertedLinks(admitted, a.value, id);
        assert admitted.media[|placed.media|].id == id && Shelf(admitted.media, id) == |placed.media|;
      } else if a.Ok? {
        DiscardUndoesPlace(core, slot, LowestFree(core, slot));
      }
    }
  }
}
