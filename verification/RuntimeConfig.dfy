/** The two-slot configuration commit of main/config/runtime_config.c: write the inactive
    slot, read it back, flip the flag; at boot the valid slot of the higher generation wins. */
module RuntimeConfig {
  import opened Wrappers
  import opened ChecksumRegister
  import opened SlotChecksum

  const SCHEMA_VERSION := 3
  const MAX_TCP_ENDPOINTS := 8
  const CONFIG_MAGIC := 0x47435731
  const GENERATION_MAX := 0xFFFF_FFFF

  /** The fields the validator reads, and the struct's memory image for the checksum. */
  datatype Config = Config(
    schemaVersion: nat, gatewayId: string, tcpEndpointCount: nat,
    mqttQos: nat, lwtQos: nat, platformType: nat, reportMode: nat,
    baudRate: nat, rtuTimeoutMs: nat, serverEnabled: bool, serverPort: nat,
    image: seq<bv8>)

  predicate Validate(c: Config) {
    && c.schemaVersion == SCHEMA_VERSION
    && c.gatewayId != ""
    && c.tcpEndpointCount <= MAX_TCP_ENDPOINTS
    && c.mqttQos <= 2 && c.lwtQos <= 2
    && c.platformType <= 1 && c.reportMode <= 1
    && 1200 <= c.baudRate <= 1000000
    && 20 <= c.rtuTimeoutMs <= 30000
    && (c.serverEnabled ==> c.serverPort != 0)
  }

  // ---- Stored slots and boot selection ----

  datatype Stored = Stored(magic: nat, generation: nat, crc32: bv32, config: Config)

  /** A slot of NVS; `sizeMatches` says that the blob has the size of the current layout. */
  datatype Slot = Missing | Blob(sizeMatches: bool, stored: Stored)

  predicate SlotValid(s: Slot) {
    && s.Blob? && s.sizeMatches
    && s.stored.magic == CONFIG_MAGIC
    && s.stored.config.schemaVersion == SCHEMA_VERSION
    && s.stored.crc32 == Crc32(s.stored.config.image)
    && Validate(s.stored.config)
  }

  /** A stored slot whose image is damaged in at most two neighbouring bytes is refused. */
  lemma DamagedSlotRefused(s: Slot, damaged: Slot, before: seq<bv8>, x: bv8, y: bv8, x': bv8, y': bv8, after: seq<bv8>)
    requires SlotValid(s) && damaged.Blob?
    requires s.stored.config.image == before + [x, y] + after
    requires damaged.stored.config.image == before + [x', y'] + after
    requires damaged.stored.crc32 == s.stored.crc32 && (x != x' || y != y')
    ensures !SlotValid(damaged)
  {
    Crc32Sound();
    BurstChangesFold(CRC32, 0xFFFF_FFFF, before, x, y, x', y', after);
    NotInjective(Fold(CRC32, 0xFFFF_FFFF, before + [x, y] + after), Fold(CRC32, 0xFFFF_FFFF, before + [x', y'] + after));
  }

  lemma NotInjective(a: bv32, b: bv32)
    requires a != b
    ensures !a != !b
  {}

  datatype Name = A | B

  function Other(n: Name): Name { if n.A? then B else A }

  /** The NVS keys runtime_a, runtime_b and runtime_active (an absent flag reads as 0). */
  datatype Nvs = Nvs(a: Slot, b: Slot, active: nat) {
    function Read(n: Name): Slot { if n.A? then a else b }
    function Write(n: Name, s: Slot): Nvs { if n.A? then this.(a := s) else this.(b := s) }
    // The slot a save overwrites.
    function Target(): Name { if active == 0 then B else A }
  }

  datatype Ram = Ram(config: Config, generation: nat)

  function Selected(n: Nvs): Option<Name> {
    if SlotValid(n.b) && (!SlotValid(n.a) || n.b.stored.generation > n.a.stored.generation) then Some(B)
    else if SlotValid(n.a) then Some(A)
    else None
  }

  /** What boot takes from NVS; None means that the defaults are used. */
  function Load(n: Nvs): Option<Ram> {
    match Selected(n)
    case None => None
    case Some(name) => Some(Ram(n.Read(name).stored.config, n.Read(name).stored.generation))
  }

  function NextGeneration(g: nat): nat { if g == GENERATION_MAX then 1 else g + 1 }

  function Image(r: Ram): Slot {
    Blob(true, Stored(CONFIG_MAGIC, NextGeneration(r.generation), Crc32(r.config.image), r.config))
  }

  // ---- One save, with every way it can end ----

  /** How a save ends: normally, with an error from one of its calls, or by losing power.
      A commit that fails has still stored its key. */
  datatype Fate =
    | Completes
    | OpenFails | WriteFails | CommitFails | FlagFails | FlagCommitFails
    | CutBeforeWrite | CutTearing(torn: Slot) | CutAfterWrite | CutAfterFlag

  datatype Outcome = Saved | Failed | PowerLost

  datatype Device = Device(nvs: Nvs, ram: Ram)

  function Flip(active: nat): nat { if active == 0 then 1 else 0 }

  function AfterSave(d: Device, fate: Fate): (Device, Outcome) {
    var written := d.nvs.Write(d.nvs.Target(), Image(d.ram));
    var flagged := written.(active := Flip(d.nvs.active));
    match fate
    case OpenFails => (d, Failed)
    case WriteFails => (d, Failed)
    case CutBeforeWrite => (d, PowerLost)
    case CutTearing(torn) => (d.(nvs := d.nvs.Write(d.nvs.Target(), torn)), PowerLost)
    case CutAfterWrite => (d.(nvs := written), PowerLost)
    case CommitFails => (d.(nvs := written), Failed)
    case _ =>
      if !Validate(d.ram.config) then (d.(nvs := written), Failed)
      else match fate
        case FlagFails => (d.(nvs := written), Failed)
        case CutAfterFlag => (d.(nvs := flagged), PowerLost)
        case FlagCommitFails => (d.(nvs := flagged), Failed)
        case _ => (Device(flagged, d.ram.(generation := NextGeneration(d.ram.generation))), Saved)
  }

  /** runtime_config_set: an error restores the previous RAM copy. */
  function AfterSet(d: Device, config: Config, fate: Fate): (Device, Outcome) {
    if !Validate(config) then (d, Failed)
    else
      var (saved, outcome) := AfterSave(d.(ram := d.ram.(config := config)), fate);
      if outcome.Failed? then (saved.(ram := saved.ram.(config := d.ram.config)), Failed) else (saved, outcome)
  }

  /** runtime_config_init for the current schema: an unusable NVS gets the defaults saved. */
  function AfterBoot(n: Nvs, defaults: Config, fate: Fate): (Device, Outcome) {
    match Load(n)
    case Some(ram) => (Device(n, ram), Saved)
    case None => AfterSave(Device(n, Ram(defaults, 0)), fate)
  }

  class ConfigStore {
    var slotA: Slot
    var slotB: Slot
    var active: nat
    var config: Config
    var generation: nat

    ghost function Abs(): Device
      reads this
    {
      Device(Nvs(slotA, slotB, active), Ram(config, generation))
    }

    method SaveLocked(fate: Fate) returns (outcome: Outcome)
      modifies this
      ensures (Abs(), outcome) == AfterSave(old(Abs()), fate)
    {
      var stored := Image(Ram(config, generation));
      if fate.OpenFails? { return Failed; }
      if fate.CutBeforeWrite? { return PowerLost; }
      var flag := active;
      var target := if flag == 0 then B else A;
      if fate.WriteFails? { return Failed; }
      if target.A? { slotA := if fate.CutTearing? then fate.torn else stored; }
      else { slotB := if fate.CutTearing? then fate.torn else stored; }
      if fate.CutTearing? || fate.CutAfterWrite? { return PowerLost; }
      if fate.CommitFails? { return Failed; }
      var verify := if target.A? then slotA else slotB;
      if !SlotValid(verify) || verify.stored.generation != stored.stored.generation
         || verify.stored.config != stored.stored.config
      {
        return Failed;
      }
      flag := if flag == 0 then 1 else 0;
      if fate.FlagFails? { return Failed; }
      active := flag;
      if fate.CutAfterFlag? { return PowerLost; }
      if fate.FlagCommitFails? { return Failed; }
      generation := stored.stored.generation;
      return Saved;
    }

    method Set(newConfig: Config, fate: Fate) returns (outcome: Outcome)
      modifies this
      ensures (Abs(), outcome) == AfterSet(old(Abs()), newConfig, fate)
    {
      if !Validate(newConfig) { return Failed; }
      var previous := config;
      config := newConfig;
      outcome := SaveLocked(fate);
      if outcome.Failed? { config := previous; }
    }

    method Init(defaults: Config, fate: Fate) returns (outcome: Outcome)
      modifies this
      ensures (Abs(), outcome) == AfterBoot(old(Abs()).nvs, defaults, fate)
    {
      generation := 0;
      config := defaults;
      var validA, validB := SlotValid(slotA), SlotValid(slotB);
      if validA || validB {
        var selected := if validB && (!validA || slotB.stored.generation > slotA.stored.generation) then slotB else slotA;
        config := selected.stored.config;
        generation := selected.stored.generation;
        return Saved;
      }
      outcome := SaveLocked(fate);
    }
  }

  // ---- When a save that reported success is the one boot loads ----

  /** Exactly when the other slot cannot outrank the fresh one; on a tie slot A wins. */
  lemma CompletedSaveLoadsIff(d: Device, config: Config)
    requires Validate(config)
    ensures var after := AfterSet(d, config, Completes).0;
            var target := d.nvs.Target();
            var other := d.nvs.Read(Other(target));
            Selected(after.nvs) == Some(target) <==>
              || !SlotValid(other)
              || other.stored.generation < NextGeneration(d.ram.generation)
              || (other.stored.generation == NextGeneration(d.ram.generation) && target == A)
  {
    var after := AfterSet(d, config, Completes).0;
    assert SlotValid(after.nvs.Read(d.nvs.Target()));
  }

  // The RAM copy is what boot would load, and generations have room to grow.
  ghost predicate Settled(d: Device, room: nat) {
    Load(d.nvs) == Some(d.ram) && d.ram.generation + room < GENERATION_MAX
  }

  // The flag names the slot that boot would load.
  ghost predicate FlagNamesNewest(n: Nvs) {
    Selected(n) == Some(Other(n.Target()))
  }

  // ---- Histories ----

  datatype Event = Attempt(config: Config, fate: Fate) | Restart

  function Step(d: Device, e: Event, defaults: Config): Device {
    match e
    case Restart => AfterBoot(d.nvs, defaults, Completes).0
    case Attempt(config, fate) =>
      var (after, outcome) := AfterSet(d, config, fate);
      if outcome.PowerLost? then AfterBoot(after.nvs, defaults, Completes).0 else after
  }

  /** The abstract cell the two slots implement: one atomic value. */
  function CellAfter(current: Config, e: Event): Config {
    if e.Attempt? && Validate(e.config) && e.fate in {Completes, CutAfterWrite, CutAfterFlag} then e.config
    else current
  }

  // Completed saves, saves refused before anything is stored, restarts, and power cuts at any
  // point; a torn blob is allowed only while the flag names the newest slot.
  ghost predicate Admissible(d: Device, e: Event) {
    e.Attempt? ==>
      match e.fate
      case Completes | OpenFails | WriteFails | CutBeforeWrite | CutAfterWrite | CutAfterFlag => true
      case CutTearing(torn) => !SlotValid(torn) && FlagNamesNewest(d.nvs)
      case _ => !Validate(e.config)
  }

  // Whatever the flag says, a freshly written slot outranks the other one.
  lemma FreshSlotWins(d: Device, config: Config, active: nat)
    requires Settled(d, 1) && Validate(config)
    ensures var n := d.nvs.Write(d.nvs.Target(), Image(Ram(config, d.ram.generation))).(active := active);
            Selected(n) == Some(d.nvs.Target()) && Load(n) == Some(Ram(config, d.ram.generation + 1))
  {
    assert SlotValid(Image(Ram(config, d.ram.generation)));
  }

  // A slot boot does not select can be overwritten by an invalid one.
  lemma TearingUnselected(d: Device, torn: Slot)
    requires Load(d.nvs) == Some(d.ram) && FlagNamesNewest(d.nvs) && !SlotValid(torn)
    ensures Load(d.nvs.Write(d.nvs.Target(), torn)) == Some(d.ram)
  {}

  lemma CompletedRefines(d: Device, config: Config, room: nat)
    requires Settled(d, room + 1) && Validate(config)
    ensures Settled(AfterSet(d, config, Completes).0, room)
    ensures AfterSet(d, config, Completes).0.ram.config == config
  {
    FreshSlotWins(d, config, Flip(d.nvs.active));
  }

  lemma CutRefines(d: Device, config: Config, fate: Fate, defaults: Config, room: nat)
    requires Settled(d, room + 1) && Validate(config) && (fate.CutAfterWrite? || fate.CutAfterFlag?)
    ensures AfterSet(d, config, fate).1 == PowerLost
    ensures var rebooted := AfterBoot(AfterSet(d, config, fate).0.nvs, defaults, Completes).0;
            Settled(rebooted, room) && rebooted.ram.config == config
  {
    FreshSlotWins(d, config, d.nvs.active);
    FreshSlotWins(d, config, Flip(d.nvs.active));
  }

  lemma StepRefinesCell(d: Device, e: Event, defaults: Config, room: nat)
    requires Settled(d, room + 1) && Admissible(d, e)
    ensures Settled(Step(d, e, defaults), room)
    ensures Step(d, e, defaults).ram.config == CellAfter(d.ram.config, e)
  {
    if e.Attempt? && Validate(e.config) {
      match e.fate {
        case Completes => CompletedRefines(d, e.config, room);
        case CutAfterWrite => CutRefines(d, e.config, e.fate, defaults, room);
        case CutAfterFlag => CutRefines(d, e.config, e.fate, defaults, room);
        case CutTearing(torn) => TearingUnselected(d, torn);
        case _ =>
      }
    }
  }

  function Run(d: Device, es: seq<Event>, defaults: Config): Device
    decreases es
  {
    if es == [] then d else Run(Step(d, es[0], defaults), es[1..], defaults)
  }

  function CellRun(current: Config, es: seq<Event>): Config
    decreases es
  {
    if es == [] then current else CellRun(CellAfter(current, es[0]), es[1..])
  }

  ghost predicate AllAdmissible(d: Device, es: seq<Event>, defaults: Config)
    decreases es
  {
    es == [] || (Admissible(d, es[0]) && AllAdmissible(Step(d, es[0], defaults), es[1..], defaults))
  }

  /** Crash refinement: over every admissible history the device behaves as an atomic cell,
      and a restart at the end still loads that cell's value. */
  lemma {:induction false} CrashRefinement(d: Device, es: seq<Event>, defaults: Config)
    requires Settled(d, |es|) && AllAdmissible(d, es, defaults)
    ensures var end := Run(d, es, defaults);
            && end.ram.config == CellRun(d.ram.config, es)
            && AfterBoot(end.nvs, defaults, Completes).0.ram == end.ram
    decreases es
  {
    if es == [] {
    } else {
      StepRefinesCell(d, es[0], defaults, |es| - 1);
      CrashRefinement(Step(d, es[0], defaults), es[1..], defaults);
    }
  }

  /** The first boot of an empty NVS reaches a settled state whose flag names the newest slot. */
  lemma FirstBootSettles(defaults: Config)
    requires Validate(defaults)
    ensures var d := AfterBoot(Nvs(Missing, Missing, 0), defaults, Completes).0;
            d.ram == Ram(defaults, 1) && Load(d.nvs) == Some(d.ram) && FlagNamesNewest(d.nvs)
  {
    assert SlotValid(Image(Ram(defaults, 0)));
  }

  /** A completed save re-establishes that the flag names the newest slot. */
  lemma CompletedSaveFlags(d: Device, config: Config)
    requires Settled(d, 1) && Validate(config)
    ensures FlagNamesNewest(AfterSet(d, config, Completes).0.nvs)
  {
    assert SlotValid(Image(Ram(config, d.ram.generation)));
  }

  /** A torn blob write keeps the current configuration exactly when the flag names the
      newest slot, so that the write went to the other one (or both hold the same). */
  lemma TornWriteSafeIff(d: Device, config: Config, torn: Slot)
    requires Load(d.nvs) == Some(d.ram) && Validate(config) && !SlotValid(torn)
    ensures Load(AfterSet(d, config, CutTearing(torn)).0.nvs) == Some(d.ram) <==>
              FlagNamesNewest(d.nvs) || SameTwice(d.nvs)
  {}

  // Both slots valid with the same generation and content: either copy may be lost.
  ghost predicate SameTwice(n: Nvs) {
    SlotValid(n.a) && SlotValid(n.b) && n.a.stored.generation == n.b.stored.generation
    && n.a.stored.config == n.b.stored.config
  }

  /** A power cut between the slot and the flag leaves the flag on the older slot, so a torn
      write during the next save loses the configuration then current. */
  lemma TornAfterInterruptedSave(d: Device, first: Config, second: Config, torn: Slot, defaults: Config)
    requires Settled(d, 2) && Validate(first) && Validate(second) && !SlotValid(torn)
    ensures var rebooted := AfterBoot(AfterSet(d, first, CutAfterWrite).0.nvs, defaults, Completes).0;
            && rebooted.ram.config == first && !FlagNamesNewest(rebooted.nvs)
            && Load(AfterSet(rebooted, second, CutTearing(torn)).0.nvs) != Some(rebooted.ram)
  {
    FreshSlotWins(d, first, d.nvs.active);
    var rebooted := AfterBoot(AfterSet(d, first, CutAfterWrite).0.nvs, defaults, Completes).0;
    TornWriteSafeIff(rebooted, second, torn);
  }

  /** A save that fails leaves the next boot on the previous configuration exactly when it
      failed before the blob was stored. */
  lemma FailedSaveLoadsIff(d: Device, config: Config, fate: Fate)
    requires Settled(d, 1) && Validate(config)
    requires fate in {OpenFails, WriteFails, CommitFails, FlagFails, FlagCommitFails}
    ensures var (after, outcome) := AfterSet(d, config, fate);
            && outcome == Failed && after.ram == d.ram
            && (Load(after.nvs) == Some(d.ram) <==> fate in {OpenFails, WriteFails})
  {
    assert SlotValid(Image(Ram(config, d.ram.generation)));
  }

  /** A failed flag commit can make a later, acknowledged save lose to the rejected one: both
      carry the same generation and slot A wins the tie. */
  lemma AcknowledgedSaveLost(d: Device, rejected: Config, saved: Config)
    requires Settled(d, 1) && d.nvs.active == 1 && Selected(d.nvs) == Some(B)
    requires Validate(rejected) && Validate(saved)
    ensures var d1 := AfterSet(d, rejected, FlagCommitFails);
            var d2 := AfterSet(d1.0, saved, Completes);
            d1.1 == Failed && d2.1 == Saved && Load(d2.0.nvs) == Some(Ram(rejected, d.ram.generation + 1))
  {
    assert SlotValid(Image(Ram(rejected, d.ram.generation)));
    assert SlotValid(Image(Ram(saved, d.ram.generation)));
  }

  // ---- Only legal configurations ----

  /** Every setting is in its range. */
  predicate Legal(c: Config) {
    && c.schemaVersion == 3 && c.gatewayId != "" && c.tcpEndpointCount <= 8
    && c.mqttQos in {0, 1, 2} && c.lwtQos in {0, 1, 2} && c.platformType in {0, 1} && c.reportMode in {0, 1}
    && 1200 <= c.baudRate <= 1_000_000 && 20 <= c.rtuTimeoutMs <= 30_000
    && !(c.serverEnabled && c.serverPort == 0)
  }

  /** An undisturbed change is accepted exactly when the configuration is legal. A refused one
      touches neither NVS nor RAM. */
  lemma SetAcceptsIff(d: Device, config: Config)
    ensures var (after, outcome) := AfterSet(d, config, Completes);
            && (outcome == Saved <==> Legal(config))
            && (outcome == Saved ==> after.ram.config == config)
            && (outcome != Saved ==> after == d)
  {}

  lemma StepStaysLegal(d: Device, e: Event, defaults: Config)
    requires Legal(d.ram.config) && Legal(defaults)
    ensures Legal(Step(d, e, defaults).ram.config)
  {}

  /** Whatever NVS holds and however saves end, torn writes included, the configuration in use is
      legal over every history. */
  lemma {:induction false} AlwaysLegal(d: Device, es: seq<Event>, defaults: Config)
    requires Legal(d.ram.config) && Legal(defaults)
    ensures Legal(Run(d, es, defaults).ram.config)
    decreases |es|
  {
    if es != [] {
      StepStaysLegal(d, es[0], defaults);
      AlwaysLegal(Step(d, es[0], defaults), es[1..], defaults);
    }
  }

  /** A slot counts exactly when it has the current size and magic number, its checksum matches its
      image, and its configuration is legal. */
  lemma SlotValidIff(s: Slot)
    ensures SlotValid(s) <==>
              && s.Blob? && s.sizeMatches && s.stored.magic == 0x47435731
              && s.stored.crc32 == Crc32(s.stored.config.image) && Legal(s.stored.config)
  {}

  /** A completed save counts generations from 1 and skips 0 when they wrap. */
  lemma SavedGeneration(d: Device, config: Config)
    requires Legal(config)
    ensures var ram := AfterSet(d, config, Completes).0.ram;
            ram.generation == if d.ram.generation == 0xFFFF_FFFF then 1 else d.ram.generation + 1
  {}

  /** Boot does not know of the wrap: a save at the last generation reports success, and the boot
      after it loads the configuration before it. */
  lemma WrapLosesSave(d: Device, config: Config)
    requires Load(d.nvs) == Some(d.ram) && d.ram.generation == 0xFFFF_FFFF && FlagNamesNewest(d.nvs) && Legal(config)
    ensures var (after, outcome) := AfterSet(d, config, Completes);
            outcome == Saved && Load(after.nvs) == Some(d.ram)
  {}

  /** The read-back keeps an illegal configuration from being acknowledged, however the save ends:
      a boot that finds nothing to load cannot save illegal defaults. */
  lemma IllegalNeverSaved(d: Device, fate: Fate)
    requires !Legal(d.ram.config)
    ensures AfterSave(d, fate).1 != Saved && AfterSave(d, fate).0.ram == d.ram
  {}

  // The stored slot wins whatever the flag says; the flag names it once it is flipped.
  lemma WrittenFlag(d: Device, config: Config)
    requires Settled(d, 1) && Legal(config)
    ensures var written := d.nvs.Write(d.nvs.Target(), Image(Ram(config, d.ram.generation)));
            !FlagNamesNewest(written) && FlagNamesNewest(written.(active := Flip(d.nvs.active)))
  {
    FreshSlotWins(d, config, d.nvs.active);
    FreshSlotWins(d, config, Flip(d.nvs.active));
  }

  lemma TornFlag(n: Nvs, torn: Slot)
    requires FlagNamesNewest(n) && !SlotValid(torn)
    ensures FlagNamesNewest(n.Write(n.Target(), torn))
  {}

  /** A change of a settled device leaves the flag on the newest slot unless it ends between storing
      the slot and storing the flag. */
  lemma FlagAfterSaveIff(d: Device, config: Config, fate: Fate)
    requires Settled(d, 1) && FlagNamesNewest(d.nvs) && Legal(config)
    requires fate.CutTearing? ==> !SlotValid(fate.torn)
    ensures FlagNamesNewest(AfterSet(d, config, fate).0.nvs) <==> !(fate.CutAfterWrite? || fate.CommitFails? || fate.FlagFails?)
  {
    WrittenFlag(d, config);
    if fate.CutTearing? { TornFlag(d.nvs, fate.torn); }
  }
}
