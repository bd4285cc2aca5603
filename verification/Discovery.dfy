/** Discovery: one record per device, merged from its AirPlay and its RAOP announcements. */
module Discovery {
  import opened Wrappers
  import opened ByteStrings

  type Mac = Bytes
  type Address = Bytes
  type Uuid = Bytes

  datatype Version = Version(major: u32, minor: u32, patch: u32)

  const NO_VERSION := Version(0, 0, 0)

  datatype Device = Device(
    id: Mac, name: string, model: string, manufacturer: Option<string>, serialNumber: Option<string>,
    addresses: seq<Address>, port: u16,
    features: u64, requiredSenderFeatures: Option<u64>, publicKey: Option<Bytes>, sourceVersion: Version,
    firmwareVersion: Option<string>, osVersion: Option<string>, protocolVersion: Option<string>,
    requiresPassword: bool, statusFlags: u64, accessControl: Option<byte>,
    pairingIdentity: Option<string>, systemPairingIdentity: Option<string>,
    bluetoothAddress: Option<string>, homekitHomeId: Option<string>,
    groupId: Option<Uuid>, isGroupLeader: bool, groupPublicName: Option<string>,
    groupContainsDiscoverableLeader: bool, homeGroupId: Option<string>, householdId: Option<string>,
    parentGroupId: Option<Uuid>, parentGroupContainsDiscoverableLeader: bool, tightSyncId: Option<Uuid>,
    raopPort: Option<u16>, raopEncryptionTypes: Option<Bytes>, raopCodecs: Option<Bytes>,
    raopTransport: Option<string>, raopMetadataTypes: Option<Bytes>, raopDigestAuth: bool,
    vodkaVersion: Option<string>)

  function Or<T>(first: Option<T>, second: Option<T>): Option<T> {
    if first.Some? then first else second
  }

  // ----- Addresses -----

  /** Appends those of `extra` that are not there yet. */
  function AddMissing(base: seq<Address>, extra: seq<Address>): seq<Address> {
    if extra == [] then base
    else
      var before := AddMissing(base, extra[..|extra| - 1]);
      var last := extra[|extra| - 1];
      if last in before then before else before + [last]
  }

  ghost predicate Distinct(addresses: seq<Address>) {
    forall i, j :: 0 <= i < j < |addresses| ==> addresses[i] != addresses[j]
  }

  /** Nothing in `added` is in `base` or comes twice. */
  ghost predicate New(base: seq<Address>, added: seq<Address>) {
    Distinct(added) && forall i :: 0 <= i < |added| ==> added[i] !in base
  }

  lemma {:induction false} KeepsAllAndAddsOnce(base: seq<Address>, extra: seq<Address>)
    ensures
      var all := AddMissing(base, extra);
      && base <= all
      && (forall x :: x in all <==> x in base || x in extra)
      && New(base, all[|base|..])
  {
    if extra != [] {
      var front, last := extra[..|extra| - 1], extra[|extra| - 1];
      KeepsAllAndAddsOnce(base, front);
      var before := AddMissing(base, front);
      assert extra == front + [last];
      assert before == base + before[|base|..];
      if last !in before {
        assert (before + [last])[|base|..] == before[|base|..] + [last];
      }
    }
  }

  /** Where an address comes first. */
  function FirstIndex(addresses: seq<Address>, x: Address): (r: nat)
    requires x in addresses
    ensures r < |addresses| && addresses[r] == x && x !in addresses[..r]
  {
    var front := addresses[..|addresses| - 1];
    if x in front then
      assert front[..FirstIndex(front, x)] == addresses[..FirstIndex(front, x)];
      FirstIndex(front, x)
    else |addresses| - 1
  }

  /** The added addresses come in the order in which `extra` first has them. */
  ghost predicate InOrderOf(added: seq<Address>, extra: seq<Address>) {
    && (forall i :: 0 <= i < |added| ==> added[i] in extra)
    && (forall i, j :: 0 <= i < j < |added| ==> FirstIndex(extra, added[i]) < FirstIndex(extra, added[j]))
  }

  lemma {:induction false} AddsInOrder(base: seq<Address>, extra: seq<Address>)
    ensures |base| <= |AddMissing(base, extra)| && InOrderOf(AddMissing(base, extra)[|base|..], extra)
  {
    if extra != [] {
      var front, last := extra[..|extra| - 1], extra[|extra| - 1];
      AddsInOrder(base, front);
      KeepsAllAndAddsOnce(base, front);
      var before := AddMissing(base, front);
      var added := before[|base|..];
      assert InOrderOf(added, extra);
      if last !in before {
        assert (before + [last])[|base|..] == added + [last];
      }
    }
  }

  lemma {:induction false} NothingMissing(base: seq<Address>, extra: seq<Address>)
    requires forall i :: 0 <= i < |extra| ==> extra[i] in base
    ensures AddMissing(base, extra) == base
  {
    if extra != [] { NothingMissing(base, extra[..|extra| - 1]); }
  }

  /** Adding a list that starts with the base and goes on with new addresses gives that list. */
  lemma {:induction false} AddsTheRest(base: seq<Address>, added: seq<Address>)
    requires New(base, added)
    ensures AddMissing(base, base + added) == base + added
    decreases |added|
  {
    if added == [] {
      assert base + added == base;
      NothingMissing(base, base);
    } else {
      var front, last := added[..|added| - 1], added[|added| - 1];
      AddsTheRest(base, front);
      assert (base + added)[..|base + added| - 1] == base + front;
      assert base + added == (base + front) + [last];
    }
  }

  // ----- Merging -----

  function Merge(airplay: Device, raop: Device): Device {
    airplay.(
      model := if airplay.model == "" then raop.model else airplay.model,
      addresses := AddMissing(airplay.addresses, raop.addresses),
      publicKey := Or(airplay.publicKey, raop.publicKey),
      sourceVersion := if airplay.sourceVersion == NO_VERSION then raop.sourceVersion else airplay.sourceVersion,
      firmwareVersion := Or(airplay.firmwareVersion, raop.firmwareVersion),
      osVersion := Or(airplay.osVersion, raop.osVersion),
      requiresPassword := airplay.requiresPassword || raop.requiresPassword,
      statusFlags := if airplay.statusFlags != 0 then airplay.statusFlags else raop.statusFlags,
      raopPort := raop.raopPort, raopEncryptionTypes := raop.raopEncryptionTypes,
      raopCodecs := raop.raopCodecs, raopTransport := raop.raopTransport,
      raopMetadataTypes := raop.raopMetadataTypes, raopDigestAuth := raop.raopDigestAuth,
      vodkaVersion := raop.vodkaVersion)
  }

  lemma MergeIdempotent(d: Device)
    ensures Merge(d, d) == d
  {
    NothingMissing(d.addresses, d.addresses);
  }

  lemma AddressesAbsorb(base: seq<Address>, extra: seq<Address>)
    ensures
      var all := AddMissing(base, extra);
      AddMissing(all, extra) == all && AddMissing(base, all) == all
  {
    var all := AddMissing(base, extra);
    KeepsAllAndAddsOnce(base, extra);
    NothingMissing(all, extra);
    assert all == base + all[|base|..];
    AddsTheRest(base, all[|base|..]);
  }

  /** Hearing again what has already been merged changes nothing, from either side. */
  lemma MergeAbsorbsRaop(a: Device, r: Device)
    ensures Merge(Merge(a, r), r) == Merge(a, r)
  {
    AddressesAbsorb(a.addresses, r.addresses);
  }

  lemma MergeAbsorbsAirplay(a: Device, r: Device)
    ensures Merge(a, Merge(a, r)) == Merge(a, r)
  {
    AddressesAbsorb(a.addresses, r.addresses);
  }

  // ----- Events -----

  /** `device` is nothing when the announcement could not be read; `id` when the removed name has no MAC. */
  datatype Event =
    | Resolved(isRaop: bool, device: Option<Device>)
    | Removed(isRaop: bool, id: Option<Mac>)
    | OtherEvent

  datatype BrowseEvent = DeviceAdded(device: Device) | DeviceUpdated(device: Device) | DeviceRemoved(id: Mac)

  datatype Handled = Handled(devices: map<Mac, Device>, note: Option<BrowseEvent>)

  function Combine(existing: Device, isRaop: bool, device: Device): Device {
    if isRaop then Merge(existing, device) else Merge(device, existing)
  }

  function Handle(devices: map<Mac, Device>, event: Event): Handled {
    match event
    case Resolved(isRaop, Some(device)) =>
      if device.id !in devices then Handled(devices[device.id := device], Some(DeviceAdded(device)))
      else
        var merged := Combine(devices[device.id], isRaop, device);
        Handled(devices[device.id := merged], Some(DeviceUpdated(merged)))
    case Removed(true, Some(id)) =>
      if id in devices then Handled(devices - {id}, Some(DeviceRemoved(id))) else Handled(devices, None)
    case _ => Handled(devices, None)
  }

  function Browse(events: seq<Event>): map<Mac, Device> {
    if events == [] then map[]
    else Handle(Browse(events[..|events| - 1]), events[|events| - 1]).devices
  }

  function Lookup(devices: map<Mac, Device>, id: Mac): Option<Device> {
    if id in devices then Some(devices[id]) else None
  }

  /** What one event does to the record of one device. */
  function Update(record: Option<Device>, id: Mac, event: Event): Option<Device> {
    match event
    case Resolved(isRaop, Some(device)) =>
      if device.id != id then record
      else if record.None? then Some(device)
      else Some(Combine(record.value, isRaop, device))
    case Removed(true, Some(removed)) => if removed == id then None else record
    case _ => record
  }

  /** Devices do not influence each other. */
  lemma HandleUpdates(devices: map<Mac, Device>, event: Event, id: Mac)
    ensures Lookup(Handle(devices, event).devices, id) == Update(Lookup(devices, id), id, event)
  {}

  // ----- What a subscriber learns -----

  /** The notification of each event of a run, if it has one. */
  function Notes(events: seq<Event>): seq<BrowseEvent> {
    if events == [] then []
    else
      var front, last := events[..|events| - 1], events[|events| - 1];
      Notes(front) + match Handle(Browse(front), last).note case None => [] case Some(note) => [note]
  }

  /** What a subscriber makes of a note: additions must be new to it, updates and removals must not be. */
  function Learned(known: map<Mac, Device>, note: BrowseEvent): Option<map<Mac, Device>> {
    match note
    case DeviceAdded(d) => if d.id in known then None else Some(known[d.id := d])
    case DeviceUpdated(d) => if d.id !in known then None else Some(known[d.id := d])
    case DeviceRemoved(id) => if id !in known then None else Some(known - {id})
  }

  /** A subscriber's picture of the devices. */
  function Picture(notes: seq<BrowseEvent>): Option<map<Mac, Device>> {
    if notes == [] then Some(map[])
    else
      match Picture(notes[..|notes| - 1])
      case None => None
      case Some(known) => Learned(known, notes[|notes| - 1])
  }

  lemma HandleKeepsId(devices: map<Mac, Device>, event: Event)
    requires forall id :: id in devices ==> devices[id].id == id
    ensures forall id :: id in Handle(devices, event).devices ==> Handle(devices, event).devices[id].id == id
  {}

  lemma {:induction false} KeysAreIds(events: seq<Event>)
    ensures forall id :: id in Browse(events) ==> Browse(events)[id].id == id
  {
    if events != [] {
      KeysAreIds(events[..|events| - 1]);
      HandleKeepsId(Browse(events[..|events| - 1]), events[|events| - 1]);
    }
  }

  lemma PictureSnoc(notes: seq<BrowseEvent>, note: BrowseEvent)
    ensures Picture(notes + [note])
            == match Picture(notes) case None => None case Some(known) => Learned(known, note)
  {
    assert (notes + [note])[..|notes|] == notes;
  }

  lemma NoteIsLearned(devices: map<Mac, Device>, event: Event)
    requires forall id :: id in devices ==> devices[id].id == id
    ensures match Handle(devices, event).note
            case None => Handle(devices, event).devices == devices
            case Some(note) => Learned(devices, note) == Some(Handle(devices, event).devices)
  {}

  lemma NotesGoOn(notes: seq<BrowseEvent>, devices: map<Mac, Device>, event: Event)
    requires Picture(notes) == Some(devices) && forall id :: id in devices ==> devices[id].id == id
    ensures
      var more := match Handle(devices, event).note case None => [] case Some(note) => [note];
      Picture(notes + more) == Some(Handle(devices, event).devices)
  {
    NoteIsLearned(devices, event);
    match Handle(devices, event).note
    case None => assert notes + [] == notes;
    case Some(note) => PictureSnoc(notes, note);
  }

  /** In every run a subscriber that goes by the notifications alone knows exactly the devices there are. */
  lemma {:induction false} SubscribersKnowAll(events: seq<Event>)
    ensures Picture(Notes(events)) == Some(Browse(events))
  {
    if events != [] {
      var front, last := events[..|events| - 1], events[|events| - 1];
      SubscribersKnowAll(front);
      KeysAreIds(front);
      NotesGoOn(Notes(front), Browse(front), last);
    }
  }

  // ----- A device whose announcements do not change -----

  /** Which of the two announcements have been heard since the device was last removed. */
  datatype Seen = Seen(airplay: bool, raop: bool)

  function SeenSince(events: seq<Event>, id: Mac): Seen {
    if events == [] then Seen(false, false)
    else
      var before := SeenSince(events[..|events| - 1], id);
      match events[|events| - 1]
      case Resolved(isRaop, Some(device)) =>
        if device.id != id then before
        else if isRaop then before.(raop := true) else before.(airplay := true)
      case Removed(true, Some(removed)) => if removed == id then Seen(false, false) else before
      case _ => before
  }

  /** Every announcement of the device is one of these two. */
  ghost predicate Announces(events: seq<Event>, a: Device, r: Device) {
    forall i :: 0 <= i < |events| ==>
      (events[i].Resolved? && events[i].device.Some? && events[i].device.value.id == a.id ==>
        events[i].device.value == if events[i].isRaop then r else a)
  }

  function Expected(seen: Seen, a: Device, r: Device): Option<Device> {
    if seen.airplay && seen.raop then Some(Merge(a, r))
    else if seen.airplay then Some(a)
    else if seen.raop then Some(r)
    else None
  }

  /** Whatever the order and the repeats, the record depends only on which announcements were heard. */
  lemma {:induction false} Converges(events: seq<Event>, a: Device, r: Device)
    requires a.id == r.id && Announces(events, a, r)
    ensures Lookup(Browse(events), a.id) == Expected(SeenSince(events, a.id), a, r)
  {
    if events != [] {
      var before, event := events[..|events| - 1], events[|events| - 1];
      Converges(before, a, r);
      HandleUpdates(Browse(before), event, a.id);
      MergeIdempotent(a);
      MergeIdempotent(r);
      MergeAbsorbsRaop(a, r);
      MergeAbsorbsAirplay(a, r);
    }
  }

  ghost predicate Heard(events: seq<Event>, isRaop: bool, d: Device) {
    exists i :: 0 <= i < |events| && events[i] == Resolved(isRaop, Some(d))
  }

  ghost predicate NotRemoved(events: seq<Event>, id: Mac) {
    forall i :: 0 <= i < |events| ==> events[i] != Removed(true, Some(id))
  }

  lemma {:induction false} HeardIsSeen(events: seq<Event>, isRaop: bool, d: Device)
    requires NotRemoved(events, d.id) && Heard(events, isRaop, d)
    ensures if isRaop then SeenSince(events, d.id).raop else SeenSince(events, d.id).airplay
  {
    var front, last := events[..|events| - 1], events[|events| - 1];
    if last != Resolved(isRaop, Some(d)) {
      assert Heard(front, isRaop, d);
      HeardIsSeen(front, isRaop, d);
    }
  }

  /** Both announcements, in any order and as often as you like, and no removal: the merged record. */
  lemma BothMerge(events: seq<Event>, a: Device, r: Device)
    requires a.id == r.id && Announces(events, a, r) && NotRemoved(events, a.id)
    requires Heard(events, false, a) && Heard(events, true, r)
    ensures Lookup(Browse(events), a.id) == Some(Merge(a, r))
  {
    Converges(events, a, r);
    HeardIsSeen(events, false, a);
    HeardIsSeen(events, true, r);
  }

  // ----- A device whose announcements do change -----

  /** The latest announcement of each kind, and every address heard, since the device was last removed. */
  datatype Facts = Facts(airplay: Option<Device>, raop: Option<Device>, addresses: set<Address>)

  const NO_FACTS := Facts(None, None, {})

  function AddressSet(addresses: seq<Address>): set<Address> {
    set x | x in addresses
  }

  function FactsSince(events: seq<Event>, id: Mac): Facts {
    if events == [] then NO_FACTS
    else Learn(FactsSince(events[..|events| - 1], id), id, events[|events| - 1])
  }

  function Learn(facts: Facts, id: Mac, event: Event): Facts {
    match event
    case Resolved(isRaop, Some(device)) =>
      if device.id != id then facts
      else
        var more := facts.(addresses := facts.addresses + AddressSet(device.addresses));
        if isRaop then more.(raop := Some(device)) else more.(airplay := Some(device))
    case Removed(true, Some(removed)) => if removed == id then NO_FACTS else facts
    case _ => facts
  }

  /** Everything an AirPlay announcement decides by itself, and what it decides when it says anything. */
  ghost predicate FollowsAirplay(d: Device, a: Device) {
    && d.name == a.name && d.port == a.port && d.features == a.features
    && d.manufacturer == a.manufacturer && d.serialNumber == a.serialNumber
    && d.requiredSenderFeatures == a.requiredSenderFeatures && d.protocolVersion == a.protocolVersion
    && d.accessControl == a.accessControl && d.pairingIdentity == a.pairingIdentity
    && d.systemPairingIdentity == a.systemPairingIdentity && d.bluetoothAddress == a.bluetoothAddress
    && d.homekitHomeId == a.homekitHomeId && d.groupId == a.groupId && d.isGroupLeader == a.isGroupLeader
    && d.groupPublicName == a.groupPublicName && d.homeGroupId == a.homeGroupId
    && d.groupContainsDiscoverableLeader == a.groupContainsDiscoverableLeader
    && d.householdId == a.householdId && d.parentGroupId == a.parentGroupId
    && d.parentGroupContainsDiscoverableLeader == a.parentGroupContainsDiscoverableLeader
    && d.tightSyncId == a.tightSyncId
    && (a.model != "" ==> d.model == a.model)
    && (a.sourceVersion != NO_VERSION ==> d.sourceVersion == a.sourceVersion)
    && (a.statusFlags != 0 ==> d.statusFlags == a.statusFlags)
    && (a.publicKey.Some? ==> d.publicKey == a.publicKey)
    && (a.firmwareVersion.Some? ==> d.firmwareVersion == a.firmwareVersion)
    && (a.osVersion.Some? ==> d.osVersion == a.osVersion)
    && (a.requiresPassword ==> d.requiresPassword)
  }

  ghost predicate FollowsRaop(d: Device, r: Device) {
    && d.raopPort == r.raopPort && d.raopEncryptionTypes == r.raopEncryptionTypes
    && d.raopCodecs == r.raopCodecs && d.raopTransport == r.raopTransport
    && d.raopMetadataTypes == r.raopMetadataTypes && d.raopDigestAuth == r.raopDigestAuth
    && d.vodkaVersion == r.vodkaVersion
  }

  ghost predicate Reflects(record: Option<Device>, id: Mac, facts: Facts) {
    match record
    case None => facts == NO_FACTS
    case Some(d) =>
      && d.id == id
      && (facts.airplay.Some? || facts.raop.Some?)
      && AddressSet(d.addresses) == facts.addresses
      && (facts.airplay.Some? ==> FollowsAirplay(d, facts.airplay.value))
      && (facts.raop.Some? ==> FollowsRaop(d, facts.raop.value))
  }

  lemma MergedAddresses(base: seq<Address>, extra: seq<Address>)
    ensures AddressSet(AddMissing(base, extra)) == AddressSet(base) + AddressSet(extra)
  {
    KeepsAllAndAddsOnce(base, extra);
  }

  /** The AirPlay side of a merge goes on following whom it followed, and so does the RAOP side. */
  lemma MergeFollows(airplay: Device, raop: Device, a: Device, r: Device)
    ensures FollowsAirplay(airplay, a) ==> FollowsAirplay(Merge(airplay, raop), a)
    ensures FollowsRaop(raop, r) ==> FollowsRaop(Merge(airplay, raop), r)
  {}

  lemma MergeReflects(airplay: Device, raop: Device, id: Mac, facts: Facts)
    requires airplay.id == id && (facts.airplay.Some? || facts.raop.Some?)
    requires facts.airplay.Some? ==> FollowsAirplay(airplay, facts.airplay.value)
    requires facts.raop.Some? ==> FollowsRaop(raop, facts.raop.value)
    requires AddressSet(airplay.addresses) + AddressSet(raop.addresses) == facts.addresses
    ensures Reflects(Some(Merge(airplay, raop)), id, facts)
  {
    MergedAddresses(airplay.addresses, raop.addresses);
    if facts.airplay.Some? { MergeFollows(airplay, raop, facts.airplay.value, raop); }
    if facts.raop.Some? { MergeFollows(airplay, raop, airplay, facts.raop.value); }
  }

  lemma UpdateReflects(record: Option<Device>, id: Mac, facts: Facts, event: Event)
    requires Reflects(record, id, facts)
    ensures Reflects(Update(record, id, event), id, Learn(facts, id, event))
  {
    if event.Resolved? && event.device.Some? && event.device.value.id == id && record.Some? {
      if event.isRaop {
        MergeReflects(record.value, event.device.value, id, Learn(facts, id, event));
      } else {
        MergeReflects(event.device.value, record.value, id, Learn(facts, id, event));
      }
    }
  }

  /**
   * In every run the record of a device holds every address heard since its last removal, its RAOP part is
   * that of the latest RAOP announcement and the rest follows the latest AirPlay announcement.
   */
  lemma {:induction false} RecordReflects(events: seq<Event>, id: Mac)
    ensures Reflects(Lookup(Browse(events), id), id, FactsSince(events, id))
  {
    if events != [] {
      var before, event := events[..|events| - 1], events[|events| - 1];
      RecordReflects(before, id);
      HandleUpdates(Browse(before), event, id);
      UpdateReflects(Lookup(Browse(before), id), id, FactsSince(before, id), event);
    }
  }

  // ----- What either kind of announcement may tell -----

  /** Something an announcement tells, or leaves open. */
  type Teller<!V> = Device -> Option<V>

  /** What the latest AirPlay announcement to tell it has told, and the first RAOP one. */
  datatype Told<V> = Told(airplay: Option<V>, raop: Option<V>)

  function Hear<V>(told: Told<V>, id: Mac, tells: Teller<V>, event: Event): Told<V> {
    match event
    case Resolved(isRaop, Some(device)) =>
      if device.id != id then told
      else if isRaop then told.(raop := Or(told.raop, tells(device)))
      else told.(airplay := Or(tells(device), told.airplay))
    case Removed(true, Some(removed)) => if removed == id then Told(None, None) else told
    case _ => told
  }

  function ToldSince<V>(events: seq<Event>, id: Mac, tells: Teller<V>): Told<V> {
    if events == [] then Told(None, None)
    else Hear(ToldSince(events[..|events| - 1], id, tells), id, tells, events[|events| - 1])
  }

  /** A merge tells what its AirPlay side does, and else what its RAOP side does. */
  ghost predicate Preferred<V(!new)>(tells: Teller<V>) {
    forall a, r :: tells(Merge(a, r)) == Or(tells(a), tells(r))
  }

  ghost predicate Tells<V>(record: Option<Device>, told: Told<V>, tells: Teller<V>) {
    match record
    case None => told == Told(None, None)
    case Some(d) => tells(d) == Or(told.airplay, told.raop)
  }

  ghost predicate CombinesTold<V>(tells: Teller<V>, d: Device, isRaop: bool, device: Device) {
    tells(Combine(d, isRaop, device)) == if isRaop then Or(tells(d), tells(device)) else Or(tells(device), tells(d))
  }

  lemma MergeCombines<V(!new)>(tells: Teller<V>, d: Device, isRaop: bool, device: Device)
    requires Preferred(tells)
    ensures CombinesTold(tells, d, isRaop, device)
  {
    assert isRaop ==> tells(Merge(d, device)) == Or(tells(d), tells(device));
    assert !isRaop ==> tells(Merge(device, d)) == Or(tells(device), tells(d));
  }

  /** One record more, told of by the answers alone. */
  lemma HearTells<V>(before: Option<V>, after: Option<V>, told: Told<V>, isRaop: bool, said: Option<V>)
    requires before == Or(told.airplay, told.raop)
    requires after == if isRaop then Or(before, said) else Or(said, before)
    ensures after == if isRaop then Or(told.airplay, Or(told.raop, said)) else Or(Or(said, told.airplay), told.raop)
  {}

  predicate Adds(record: Option<Device>, id: Mac, event: Event) {
    event.Resolved? && event.device.Some? && event.device.value.id == id && record.Some?
  }

  lemma UpdateTells<V>(record: Option<Device>, id: Mac, told: Told<V>, tells: Teller<V>, event: Event)
    requires Tells(record, told, tells)
    requires Adds(record, id, event) ==> CombinesTold(tells, record.value, event.isRaop, event.device.value)
    ensures Tells(Update(record, id, event), Hear(told, id, tells, event), tells)
  {
    if Adds(record, id, event) {
      var d, device := record.value, event.device.value;
      HearTells(tells(d), tells(Combine(d, event.isRaop, device)), told, event.isRaop, tells(device));
    }
  }

  /**
   * In every run such a field is what the latest AirPlay announcement that has it says since the last removal,
   * and if none does, what the first RAOP announcement that has it says.
   */
  lemma {:induction false} RecordTells<V(!new)>(events: seq<Event>, id: Mac, tells: Teller<V>)
    requires Preferred(tells)
    ensures Tells(Lookup(Browse(events), id), ToldSince(events, id, tells), tells)
  {
    if events != [] {
      var before, event := events[..|events| - 1], events[|events| - 1];
      RecordTells(before, id, tells);
      HandleUpdates(Browse(before), event, id);
      var record := Lookup(Browse(before), id);
      if Adds(record, id, event) { MergeCombines(tells, record.value, event.isRaop, event.device.value); }
      UpdateTells(record, id, ToldSince(before, id, tells), tells, event);
    }
  }

  ghost predicate AlwaysTells<V>(events: seq<Event>, id: Mac, tells: Teller<V>) {
    Tells(Lookup(Browse(events), id), ToldSince(events, id, tells), tells)
  }

  function TellsModel(d: Device): Option<string> { if d.model == "" then None else Some(d.model) }

  function TellsSource(d: Device): Option<Version> {
    if d.sourceVersion == Version(0, 0, 0) then None else Some(d.sourceVersion)
  }

  function TellsStatus(d: Device): Option<u64> { if d.statusFlags == 0 then None else Some(d.statusFlags) }

  function TellsPassword(d: Device): Option<bool> { if d.requiresPassword then Some(true) else None }

  function TellsKey(d: Device): Option<Bytes> { d.publicKey }

  function TellsFirmware(d: Device): Option<string> { d.firmwareVersion }

  function TellsSystem(d: Device): Option<string> { d.osVersion }

  lemma MergeTells(a: Device, r: Device)
    ensures
      var d := Merge(a, r);
      && TellsModel(d) == Or(TellsModel(a), TellsModel(r))
      && TellsSource(d) == Or(TellsSource(a), TellsSource(r))
      && TellsStatus(d) == Or(TellsStatus(a), TellsStatus(r))
      && TellsPassword(d) == Or(TellsPassword(a), TellsPassword(r))
      && TellsKey(d) == Or(TellsKey(a), TellsKey(r))
      && TellsFirmware(d) == Or(TellsFirmware(a), TellsFirmware(r))
      && TellsSystem(d) == Or(TellsSystem(a), TellsSystem(r))
  {}

  /** These are the fields for which RAOP is asked when AirPlay is silent. */
  lemma FieldsFallBack(events: seq<Event>, id: Mac)
    ensures AlwaysTells(events, id, TellsModel) && AlwaysTells(events, id, TellsSource)
    ensures AlwaysTells(events, id, TellsStatus) && AlwaysTells(events, id, TellsPassword)
    ensures AlwaysTells(events, id, TellsKey) && AlwaysTells(events, id, TellsFirmware)
    ensures AlwaysTells(events, id, TellsSystem)
  {
    forall a, r
      ensures TellsModel(Merge(a, r)) == Or(TellsModel(a), TellsModel(r))
      ensures TellsSource(Merge(a, r)) == Or(TellsSource(a), TellsSource(r))
      ensures TellsStatus(Merge(a, r)) == Or(TellsStatus(a), TellsStatus(r))
      ensures TellsPassword(Merge(a, r)) == Or(TellsPassword(a), TellsPassword(r))
      ensures TellsKey(Merge(a, r)) == Or(TellsKey(a), TellsKey(r))
      ensures TellsFirmware(Merge(a, r)) == Or(TellsFirmware(a), TellsFirmware(r))
      ensures TellsSystem(Merge(a, r)) == Or(TellsSystem(a), TellsSystem(r))
    {
      MergeTells(a, r);
    }
    RecordTells(events, id, TellsModel);
    RecordTells(events, id, TellsSource);
    RecordTells(events, id, TellsStatus);
    RecordTells(events, id, TellsPassword);
    RecordTells(events, id, TellsKey);
    RecordTells(events, id, TellsFirmware);
    RecordTells(events, id, TellsSystem);
  }

  // ----- The browser -----

  method MergeDeviceInfo(airplay: Device, raop: Device) returns (merged: Device)
    ensures merged == Merge(airplay, raop)
  {
    var addresses := airplay.addresses;
    var i := 0;
    while i < |raop.addresses|
      invariant i <= |raop.addresses|
      invariant addresses == AddMissing(airplay.addresses, raop.addresses[..i])
    {
      assert raop.addresses[..i + 1][..i] == raop.addresses[..i];
      if raop.addresses[i] !in addresses {
        addresses := addresses + [raop.addresses[i]];
      }
      i := i + 1;
    }
    assert raop.addresses[..i] == raop.addresses;
    merged := airplay.(
      model := if airplay.model == "" then raop.model else airplay.model,
      addresses := addresses,
      publicKey := Or(airplay.publicKey, raop.publicKey),
      sourceVersion := if airplay.sourceVersion == NO_VERSION then raop.sourceVersion else airplay.sourceVersion,
      firmwareVersion := Or(airplay.firmwareVersion, raop.firmwareVersion),
      osVersion := Or(airplay.osVersion, raop.osVersion),
      requiresPassword := airplay.requiresPassword || raop.requiresPassword,
      statusFlags := if airplay.statusFlags != 0 then airplay.statusFlags else raop.statusFlags,
      raopPort := raop.raopPort, raopEncryptionTypes := raop.raopEncryptionTypes,
      raopCodecs := raop.raopCodecs, raopTransport := raop.raopTransport,
      raopMetadataTypes := raop.raopMetadataTypes, raopDigestAuth := raop.raopDigestAuth,
      vodkaVersion := raop.vodkaVersion);
  }

  class ServiceBrowser {
    var devices: map<Mac, Device>

    constructor ()
      ensures devices == map[]
    {
      devices := map[];
    }

    method HandleServiceEvent(event: Event) returns (note: Option<BrowseEvent>)
      modifies this
      ensures Handled(devices, note) == Handle(old(devices), event)
    {
      note := None;
      match event
      case Resolved(isRaop, Some(device)) =>
        if device.id !in devices {
          devices := devices[device.id := device];
          note := Some(DeviceAdded(device));
        } else {
          var existing := devices[device.id];
          var merged;
          if isRaop {
            merged := MergeDeviceInfo(existing, device);
          } else {
            merged := MergeDeviceInfo(device, existing);
          }
          devices := devices[device.id := merged];
          note := Some(DeviceUpdated(merged));
        }
      case Removed(true, Some(id)) =>
        if id in devices {
          devices := devices - {id};
          note := Some(DeviceRemoved(id));
        }
      case _ =>
    }
  }
}
