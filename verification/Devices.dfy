/** The devices a slot may hold, and the attachment identities that name the slots. */
module Devices {
  import opened Wrappers

  datatype DeviceType =
    | Commodore1541 | HeathH17 | HeathH37 | HeathH37Dd48 | HeathH37Dd | Pc35Hd | Pc525Hd | SectorFloppy
    | MbrSector | MbrBlock | Gpt
    | CdRom

  /** A slot is typed by a recording device of one type, or is the archive receiver. */
  datatype DeviceSlot = Recorded(device: DeviceType) | Archive

  const ALL: seq<DeviceType> := [
    Commodore1541, HeathH17, HeathH37, HeathH37Dd48, HeathH37Dd, Pc35Hd, Pc525Hd, SectorFloppy,
    MbrSector, MbrBlock, Gpt,
    CdRom
  ]

  function DeviceId(device: DeviceType): string {
    match device
    case Commodore1541 => "c1541"
    case HeathH17 => "h17"
    case HeathH37 => "h37"
    case HeathH37Dd48 => "h37-dd48"
    case HeathH37Dd => "h37-dd"
    case Pc35Hd => "pc-3.5-hd"
    case Pc525Hd => "pc-5.25-hd"
    case SectorFloppy => "sector-floppy"
    case MbrSector => "mbr-sector-hd"
    case MbrBlock => "mbr-block-hd"
    case Gpt => "gpt-hd"
    case CdRom => "cdrom"
  }

  function SlotId(slot: DeviceSlot): string {
    match slot
    case Recorded(device) => DeviceId(device)
    case Archive => "archive"
  }

  /** The bay a slot is in: several device types share one. */
  function Prefix(slot: DeviceSlot): string {
    match slot
    case Recorded(Commodore1541) => "cbmfloppy"
    case Recorded(HeathH17) => "heathfloppy"
    case Recorded(HeathH37) => "heathfloppy"
    case Recorded(HeathH37Dd48) => "heathfloppy"
    case Recorded(HeathH37Dd) => "heathfloppy"
    case Recorded(Pc35Hd) => "pcfloppy"
    case Recorded(Pc525Hd) => "pcfloppy"
    case Recorded(SectorFloppy) => "floppy"
    case Recorded(MbrSector) => "hdd"
    case Recorded(MbrBlock) => "hdd"
    case Recorded(Gpt) => "hdd"
    case Recorded(CdRom) => "cdrom"
    case Archive => "arc"
  }

  function FindDevice(devices: seq<DeviceType>, id: string): Option<DeviceType> {
    if devices == [] then None
    else if DeviceId(devices[0]) == id then Some(devices[0])
    else FindDevice(devices[1..], id)
  }

  function DeviceFromId(id: string): Option<DeviceType> {
    FindDevice(ALL, id)
  }

  function SlotFromId(id: string): Option<DeviceSlot> {
    if id == "archive" then Some(Archive)
    else match DeviceFromId(id)
      case Some(device) => Some(Recorded(device))
      case None => None
  }

  lemma {:induction false} FindDeviceIff(devices: seq<DeviceType>, id: string)
    ensures FindDevice(devices, id).Some? ==>
      FindDevice(devices, id).value in devices && DeviceId(FindDevice(devices, id).value) == id
    ensures FindDevice(devices, id).None? ==> forall d <- devices :: DeviceId(d) != id
  {
    if devices != [] {
      FindDeviceIff(devices[1..], id);
    }
  }

  lemma DeviceIdInjective(a: DeviceType, b: DeviceType)
    requires DeviceId(a) == DeviceId(b)
    ensures a == b
  {
    var i, j := DeviceId(a), DeviceId(b);
    assert |i| == |j| && (forall k | 0 <= k < |i| :: i[k] == j[k]);
  }

  lemma Listed(device: DeviceType)
    ensures device in ALL
  {
    match device
    case Commodore1541 => assert ALL[0] == device;
    case HeathH17 => assert ALL[1] == device;
    case HeathH37 => assert ALL[2] == device;
    case HeathH37Dd48 => assert ALL[3] == device;
    case HeathH37Dd => assert ALL[4] == device;
    case Pc35Hd => assert ALL[5] == device;
    case Pc525Hd => assert ALL[6] == device;
    case SectorFloppy => assert ALL[7] == device;
    case MbrSector => assert ALL[8] == device;
    case MbrBlock => assert ALL[9] == device;
    case Gpt => assert ALL[10] == device;
    case CdRom => assert ALL[11] == device;
  }

  /** A spelling resolves to the one slot that is spelled so, and every slot's own spelling resolves. */
  lemma SlotFromIdIff(id: string, slot: DeviceSlot)
    ensures SlotFromId(id) == Some(slot) <==> SlotId(slot) == id
  {
    FindDeviceIff(ALL, id);
    if slot.Recorded? {
      Listed(slot.device);
      if SlotId(slot) == id && DeviceFromId(id).Some? {
        DeviceIdInjective(slot.device, DeviceFromId(id).value);
      }
      assert DeviceId(slot.device) != "archive";
    }
  }

  /** The spellings a caller writes, and the bay each goes in. */
  lemma Spelled()
    ensures SlotFromId("c1541") == Some(Recorded(Commodore1541)) && Prefix(Recorded(Commodore1541)) == "cbmfloppy"
    ensures SlotFromId("h17") == Some(Recorded(HeathH17)) && SlotFromId("h37") == Some(Recorded(HeathH37))
    ensures SlotFromId("h37-dd48") == Some(Recorded(HeathH37Dd48)) && SlotFromId("h37-dd") == Some(Recorded(HeathH37Dd))
    ensures SlotFromId("pc-3.5-hd") == Some(Recorded(Pc35Hd)) && SlotFromId("pc-5.25-hd") == Some(Recorded(Pc525Hd))
    ensures SlotFromId("sector-floppy") == Some(Recorded(SectorFloppy)) && Prefix(Recorded(SectorFloppy)) == "floppy"
    ensures SlotFromId("mbr-sector-hd") == Some(Recorded(MbrSector))
    ensures SlotFromId("mbr-block-hd") == Some(Recorded(MbrBlock)) && SlotFromId("gpt-hd") == Some(Recorded(Gpt))
    ensures SlotFromId("cdrom") == Some(Recorded(CdRom)) && Prefix(Recorded(CdRom)) == "cdrom"
    ensures SlotFromId("archive") == Some(Archive) && Prefix(Archive) == "arc"
    ensures forall d | d in {HeathH17, HeathH37, HeathH37Dd48, HeathH37Dd} :: Prefix(Recorded(d)) == "heathfloppy"
    ensures forall d | d in {Pc35Hd, Pc525Hd} :: Prefix(Recorded(d)) == "pcfloppy"
    ensures forall d | d in {MbrSector, MbrBlock, Gpt} :: Prefix(Recorded(d)) == "hdd"
  {
    SpelledAs("c1541", Commodore1541);
    SpelledAs("h17", HeathH17);
    SpelledAs("h37", HeathH37);
    SpelledAs("h37-dd48", HeathH37Dd48);
    SpelledAs("h37-dd", HeathH37Dd);
    SpelledAs("pc-3.5-hd", Pc35Hd);
    SpelledAs("pc-5.25-hd", Pc525Hd);
    SpelledAs("sector-floppy", SectorFloppy);
    SpelledAs("mbr-sector-hd", MbrSector);
    SpelledAs("mbr-block-hd", MbrBlock);
    SpelledAs("gpt-hd", Gpt);
    SpelledAs("cdrom", CdRom);
  }

  lemma SpelledAs(id: string, device: DeviceType)
    requires DeviceId(device) == id
    ensures SlotFromId(id) == Some(Recorded(device))
  {
    SlotFromIdIff(id, Recorded(device));
  }

  // ---- Attachment identities

  const U32_LIMIT: nat := 0x1_0000_0000

  type u32 = n: nat | n < U32_LIMIT

  /** A place in the machine, such as `hdd0`: its bay and its index in the bay. */
  datatype AttachmentId = AttachmentId(prefix: string, index: u32)

  ghost predicate ClaimedPrefix(prefix: string) {
    exists slot :: Prefix(slot) == prefix
  }

  predicate Digit(c: char) {
    '0' <= c <= '9'
  }

  predicate AllDigits(s: string) {
    forall i | 0 <= i < |s| :: Digit(s[i])
  }

  function DigitOf(n: nat): (c: char)
    requires n < 10
    ensures Digit(c) && c as int - '0' as int == n
  {
    ('0' as int + n) as char
  }

  function Decimal(n: nat): (s: string)
    ensures s != "" && AllDigits(s)
  {
    if n < 10 then [DigitOf(n)] else Decimal(n / 10) + [DigitOf(n % 10)]
  }

  function Value(s: string): nat
    requires AllDigits(s)
  {
    if s == "" then 0 else Value(s[..|s| - 1]) * 10 + (s[|s| - 1] as int - '0' as int)
  }

  function Display(a: AttachmentId): string {
    a.prefix + Decimal(a.index)
  }

  /** The bays some claimed device fills, in the order the devices are listed. */
  function Bays(devices: seq<DeviceType>): seq<string> {
    if devices == [] then [Prefix(Archive)] else [Prefix(Recorded(devices[0]))] + Bays(devices[1..])
  }

  function FirstDigit(s: string): (at: nat)
    ensures at <= |s| && (forall i | 0 <= i < at :: !Digit(s[i]))
    ensures at < |s| ==> Digit(s[at])
  {
    if s == "" || Digit(s[0]) then 0 else 1 + FirstDigit(s[1..])
  }

  /** Splits at the first digit; the bay must be claimed and the rest a 32-bit number. */
  function Parse(text: string): Option<AttachmentId> {
    var split := FirstDigit(text);
    if split == |text| then None
    else if text[..split] !in Bays(ALL) then None
    else if !AllDigits(text[split..]) || Value(text[split..]) >= U32_LIMIT then None
    else Some(AttachmentId(text[..split], Value(text[split..])))
  }

  lemma {:induction false} DecimalValue(n: nat)
    ensures Value(Decimal(n)) == n
  {
    if n >= 10 {
      DecimalValue(n / 10);
      assert Decimal(n)[..|Decimal(n)| - 1] == Decimal(n / 10);
    }
  }

  lemma {:induction false} BaysAre(devices: seq<DeviceType>, prefix: string)
    ensures prefix in Bays(devices) <==> prefix == "arc" || exists d :: d in devices && Prefix(Recorded(d)) == prefix
  {
    if devices != [] {
      BaysAre(devices[1..], prefix);
      assert forall d :: d in devices <==> d == devices[0] || d in devices[1..];
    }
  }

  lemma ClaimedIsABay(prefix: string)
    ensures prefix in Bays(ALL) <==> ClaimedPrefix(prefix)
  {
    BaysAre(ALL, prefix);
    if prefix == "arc" {
      assert Prefix(Archive) == prefix;
    } else if prefix in Bays(ALL) {
      var d :| d in ALL && Prefix(Recorded(d)) == prefix;
    } else if ClaimedPrefix(prefix) {
      var slot :| Prefix(slot) == prefix;
      Listed(slot.device);
    }
  }

  lemma NoDigitInPrefix(slot: DeviceSlot)
    ensures forall i | 0 <= i < |Prefix(slot)| :: !Digit(Prefix(slot)[i])
  {
  }

  lemma {:induction false} SplitAt(prefix: string, digits: string)
    requires (forall i | 0 <= i < |prefix| :: !Digit(prefix[i])) && digits != "" && Digit(digits[0])
    ensures FirstDigit(prefix + digits) == |prefix|
  {
    if prefix == "" {
      assert prefix + digits == digits;
    } else {
      assert (prefix + digits)[1..] == prefix[1..] + digits;
      SplitAt(prefix[1..], digits);
    }
  }

  /** `text` is the bay of `a` followed by digits worth its index. */
  predicate Names(text: string, a: AttachmentId) {
    && |text| > |a.prefix| && text[..|a.prefix|] == a.prefix
    && AllDigits(text[|a.prefix|..]) && Value(text[|a.prefix|..]) == a.index
  }

  lemma NamedSplits(text: string, a: AttachmentId)
    requires ClaimedPrefix(a.prefix) && Names(text, a)
    ensures FirstDigit(text) == |a.prefix|
  {
    var slot :| Prefix(slot) == a.prefix;
    NoDigitInPrefix(slot);
    SplitAt(a.prefix, text[|a.prefix|..]);
    assert text == a.prefix + text[|a.prefix|..];
  }

  /** A text names `a` exactly when it is `a`'s bay followed by digits worth `a`'s index: leading
      zeros are allowed, so one place has many texts. */
  lemma ParseIff(text: string, a: AttachmentId)
    ensures Parse(text) == Some(a) <==> ClaimedPrefix(a.prefix) && Names(text, a)
  {
    ClaimedIsABay(a.prefix);
    if ClaimedPrefix(a.prefix) && Names(text, a) {
      NamedSplits(text, a);
    }
  }

  /** **Round trip**: the text of a place names that place. */
  lemma DisplayParses(a: AttachmentId)
    requires ClaimedPrefix(a.prefix)
    ensures Parse(Display(a)) == Some(a)
  {
    DecimalValue(a.index);
    assert Display(a)[..|a.prefix|] == a.prefix && Display(a)[|a.prefix|..] == Decimal(a.index);
    ParseIff(Display(a), a);
  }

  function Power10(k: nat): (p: nat)
    ensures p > 0
  {
    if k == 0 then 1 else 10 * Power10(k - 1)
  }

  lemma Tenths(n: nat, p: nat)
    requires p > 0
    ensures n / 10 / p == n / (10 * p)
  {
    var q := n / (10 * p);
    assert n == q * (10 * p) + n % (10 * p);
    assert q * p <= n / 10 < (q + 1) * p;
    QuotientIs(n / 10, p, q);
  }

  lemma QuotientIs(n: nat, p: nat, q: nat)
    requires p > 0 && q * p <= n < (q + 1) * p
    ensures n / p == q
  {
    var d := n / p;
    assert n == d * p + n % p;
    if d > q {
      AtLeastOne(d - q, p);
    }
    if d < q {
      AtLeastOne(q - d, p);
    }
  }

  lemma AtLeastOne(x: nat, p: nat)
    requires x >= 1
    ensures x * p >= p
  {
    assert x * p == p + (x - 1) * p;
  }

  /** The text of an index has its digits in the order they are read: the last is the units. */
  lemma {:induction false} DecimalDigit(n: nat, k: nat)
    requires k < |Decimal(n)|
    ensures Decimal(n)[|Decimal(n)| - 1 - k] == DigitOf(n / Power10(k) % 10)
    decreases k
  {
    if n >= 10 && k > 0 {
      DecimalDigit(n / 10, k - 1);
      Tenths(n, Power10(k - 1));
    }
  }

  /** And no zero in front of them makes a difference. */
  lemma {:induction false} LeadingZero(digits: string)
    requires AllDigits(digits)
    ensures AllDigits("0" + digits) && Value("0" + digits) == Value(digits)
    decreases |digits|
  {
    var all := "0" + digits;
    if digits != "" {
      var t := |digits| - 1;
      LeadingZero(digits[..t]);
      assert all[..|all| - 1] == "0" + digits[..t];
    } else {
      assert all[..0] == "";
    }
  }

  lemma {:induction false} ShortestDigits(digits: string)
    requires digits != "" && AllDigits(digits)
    ensures |Decimal(Value(digits))| <= |digits|
    decreases |digits|
  {
    var t := |digits| - 1;
    ValueTenth(digits);
    if Value(digits) >= 10 {
      ShortestDigits(digits[..t]);
    }
  }

  lemma ValueTenth(digits: string)
    requires digits != "" && AllDigits(digits)
    ensures var t := |digits| - 1;
      AllDigits(digits[..t]) && Value(digits) / 10 == Value(digits[..t]) && (Value(digits) >= 10 ==> digits[..t] != "")
  {
  }

  /** Of all the texts that name a place its own is the shortest. */
  lemma DisplayIsShortest(text: string, a: AttachmentId)
    requires Parse(text) == Some(a)
    ensures |Display(a)| <= |text|
  {
    ParseIff(text, a);
    ShortestDigits(text[|a.prefix|..]);
  }
}
