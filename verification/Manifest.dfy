/** From the firmware's memory map to the hardware manifest: hal/hal-arm64/src/memory.rs
    and the fixed-capacity tables of hal/hal-manifest/src/raw.rs. */
module Manifest {
  import opened Bits
  import opened Options
  import opened LittleEndian

  const MAX_MEMORY_REGIONS: nat := 256
  const MAX_COMPUTE_DEVICES: nat := 32
  const MAX_PERIPHERAL_DEVICES: nat := 32
  const MAX_POWER_DOMAINS: nat := 16
  const QEMU_VIRT_DEFAULT_GICD_BASE: U64 := 0x0800_0000
  const TWO32: nat := 0x1_0000_0000

  datatype RegionKind = Usable | Reserved | AcpiReclaimable | AcpiNvs | Mmio | KernelImage | BootReserved

  datatype MemoryRegion = MemoryRegion(base: nat, length: nat, kind: RegionKind, behindIommu: bool)

  /** `details` stands for the fields the manifest only copies. */
  datatype Device = Device(details: nat, index: nat)
  datatype Compute = Compute(device: Device)
  datatype Peripheral = Peripheral(device: Device)
  datatype PowerDomain = PowerDomain(details: nat)

  // ---------------------------------------------------------------------------
  // The firmware's map
  // ---------------------------------------------------------------------------

  const HEADER_SIZE: nat := 16
  const DESCRIPTOR_SIZE: nat := 40

  datatype Descriptor = Descriptor(ty: nat, physicalStart: nat, pages: nat)

  function MapSize(map_: seq<Byte>): nat
    requires |map_| >= HEADER_SIZE
  {
    Read(map_, 0, 8)
  }

  function EntrySize(map_: seq<Byte>): nat
    requires |map_| >= HEADER_SIZE
  {
    Read(map_, 8, 8)
  }

  /** What `from_uefi_memory_map` demands of its caller. */
  predicate IsMemoryMap(map_: seq<Byte>) {
    |map_| >= HEADER_SIZE && HEADER_SIZE + MapSize(map_) <= |map_|
  }

  function DescriptorAt(map_: seq<Byte>, at: nat): Descriptor
    requires at + DESCRIPTOR_SIZE <= |map_|
  {
    Descriptor(Read(map_, at, 4), Read(map_, at + 8, 8), Read(map_, at + 24, 8))
  }

  function ClassifyUefiType(ty: nat): RegionKind {
    match ty
    case 1 | 2 | 3 | 4 | 7 => Usable
    case 9 => AcpiReclaimable
    case 10 => AcpiNvs
    case 11 | 12 => Mmio
    case _ => Reserved
  }

  function RegionOf(d: Descriptor): MemoryRegion {
    MemoryRegion(d.physicalStart, d.pages * 4096 % TWO64, ClassifyUefiType(d.ty), false)
  }

  /** How many whole entries the map holds; entries too short for a descriptor hold none. */
  function EntryCount(mapSize: nat, entrySize: nat): nat {
    if entrySize < DESCRIPTOR_SIZE then 0 else mapSize / entrySize
  }

  lemma EntryInside(mapSize: nat, entrySize: nat, k: nat)
    requires k < EntryCount(mapSize, entrySize)
    ensures k * entrySize + entrySize <= mapSize
  {
    MulStep(k, mapSize / entrySize, entrySize);
  }

  /** Walking `k` entries leaves room for another exactly when there are more than `k`. */
  lemma EntriesLeft(mapSize: nat, entrySize: nat, k: nat)
    requires entrySize >= DESCRIPTOR_SIZE && k * entrySize <= mapSize
    ensures mapSize - k * entrySize >= entrySize <==> k < EntryCount(mapSize, entrySize)
  {
    if k < mapSize / entrySize {
      EntryInside(mapSize, entrySize, k);
    } else if mapSize / entrySize < k {
      MulStep(mapSize / entrySize, k, entrySize);
    }
  }

  function EntryAt(map_: seq<Byte>, k: nat): Descriptor
    requires IsMemoryMap(map_) && k < EntryCount(MapSize(map_), EntrySize(map_))
  {
    EntryInside(MapSize(map_), EntrySize(map_), k);
    DescriptorAt(map_, HEADER_SIZE + k * EntrySize(map_))
  }

  /** The regions the firmware reports, in its order. */
  function Regions(map_: seq<Byte>): (r: seq<MemoryRegion>)
    requires IsMemoryMap(map_)
    ensures |r| == EntryCount(MapSize(map_), EntrySize(map_))
  {
    var n := EntryCount(MapSize(map_), EntrySize(map_));
    seq(n, k requires 0 <= k < n => RegionOf(EntryAt(map_, k)))
  }

  class DescriptorIter {
    const map_: seq<Byte>
    const descriptorSize: nat
    var current: nat
    var remaining: nat

    constructor (map_: seq<Byte>)
      requires IsMemoryMap(map_)
      ensures this.map_ == map_ && descriptorSize == EntrySize(map_)
      ensures current == HEADER_SIZE && remaining == MapSize(map_)
    {
      this.map_ := map_;
      descriptorSize := EntrySize(map_);
      current := HEADER_SIZE;
      remaining := MapSize(map_);
    }

    /** The iterator stands before entry `k`. */
    ghost predicate Before(k: nat)
      reads this
    {
      && IsMemoryMap(map_) && descriptorSize == EntrySize(map_)
      && current == HEADER_SIZE + k * descriptorSize && current + remaining == HEADER_SIZE + MapSize(map_)
      && k <= EntryCount(MapSize(map_), descriptorSize)
    }

    /** Yields entry `k`, or nothing once every whole entry was yielded. */
    method Next(ghost k: nat) returns (d: Option<Descriptor>)
      requires Before(k)
      modifies this
      ensures k < EntryCount(MapSize(map_), descriptorSize) ==> d == Some(EntryAt(map_, k)) && Before(k + 1)
      ensures k == EntryCount(MapSize(map_), descriptorSize) ==> d == None && Before(k)
    {
      if descriptorSize >= DESCRIPTOR_SIZE {
        EntriesLeft(MapSize(map_), descriptorSize, k);
      }
      if remaining < descriptorSize || descriptorSize < DESCRIPTOR_SIZE {
        return None;
      }
      d := Some(DescriptorAt(map_, current));
      current := current + descriptorSize;
      remaining := remaining - descriptorSize;
      assert (k + 1) * descriptorSize == k * descriptorSize + descriptorSize;
    }
  }

  // ---------------------------------------------------------------------------
  // Tables of fixed capacity
  // ---------------------------------------------------------------------------

  function First<T>(xs: seq<T>, cap: nat): seq<T> {
    if |xs| <= cap then xs else xs[..cap]
  }

  function Surplus(n: nat, cap: nat): nat {
    if n <= cap then 0 else n - cap
  }

  function Marked(regions: seq<MemoryRegion>, iommu: bool): (r: seq<MemoryRegion>)
    ensures |r| == |regions|
  {
    seq(|regions|, i requires 0 <= i < |regions| => if iommu then regions[i].(behindIommu := true) else regions[i])
  }

  class Memory {
    const regions: array<MemoryRegion>
    var regionCount: nat
    var droppedRegionCount: nat
    var iommuPresent: bool
    var gicdBase: U64

    ghost predicate Valid()
      reads this
    {
      regions.Length == MAX_MEMORY_REGIONS && regionCount <= MAX_MEMORY_REGIONS
    }

    function PhysicalMemoryMap(): seq<MemoryRegion>
      requires Valid()
      reads this, regions
    {
      regions[..regionCount]
    }

    /** `smmuPresent` and `gicd` are what the ACPI walk found. */
    constructor FromUefiMemoryMap(map_: seq<Byte>, smmuPresent: bool, gicd: Option<U64>)
      requires IsMemoryMap(map_)
      ensures Valid() && fresh(regions) && iommuPresent == smmuPresent
      ensures PhysicalMemoryMap() == Marked(First(Regions(map_), MAX_MEMORY_REGIONS), smmuPresent)
      ensures droppedRegionCount == Surplus(|Regions(map_)|, MAX_MEMORY_REGIONS)
      ensures gicdBase == (if gicd.Some? then gicd.value else 0x0800_0000)
    {
      hide Regions, IsMemoryMap, First, EntryAt, DescriptorIter.Before;
      regions := new MemoryRegion[MAX_MEMORY_REGIONS](_ => MemoryRegion(0, 0, Reserved, false));
      regionCount := 0;
      droppedRegionCount := 0;
      iommuPresent := smmuPresent;
      gicdBase := if gicd.Some? then gicd.value else QEMU_VIRT_DEFAULT_GICD_BASE;
      new;
      ghost var all := Regions(map_);
      var iter := new DescriptorIter(map_);
      StartsBefore(iter, map_);
      EmptyFirst<MemoryRegion>(MAX_MEMORY_REGIONS);
      var entry := iter.Next(0);
      ghost var k: nat := 0;
      assert all[..0] == [];
      while entry.Some?
        invariant Valid() && fresh(iter) && iommuPresent == smmuPresent
        invariant gicdBase == if gicd.Some? then gicd.value else QEMU_VIRT_DEFAULT_GICD_BASE
        invariant k <= |all| && (entry.Some? <==> k < |all|)
        invariant k < |all| ==> RegionOf(entry.value) == all[k] && iter.Before(k + 1)
        invariant PhysicalMemoryMap() == First(all[..k], MAX_MEMORY_REGIONS)
        invariant droppedRegionCount == Surplus(k, MAX_MEMORY_REGIONS)
        decreases |all| - k
      {
        NextOfFirst(all, k, MAX_MEMORY_REGIONS);
        Track(entry.value, all, k);
        k := k + 1;
        entry := iter.Next(k);
        RegionIs(map_, k);
      }
      assert all[..k] == all;
      if smmuPresent {
        MarkAll();
      } else {
        Unmarked(PhysicalMemoryMap());
      }
    }

    /** The scan's body: the descriptor is stored or counted. */
    method Track(d: Descriptor, ghost all: seq<MemoryRegion>, ghost k: nat)
      requires Valid() && k < |all| && RegionOf(d) == all[k]
      requires PhysicalMemoryMap() == First(all[..k], MAX_MEMORY_REGIONS)
      requires droppedRegionCount == Surplus(k, MAX_MEMORY_REGIONS)
      modifies this, regions
      ensures Valid() && iommuPresent == old(iommuPresent) && gicdBase == old(gicdBase)
      ensures PhysicalMemoryMap() == First(all[..k + 1], MAX_MEMORY_REGIONS)
      ensures droppedRegionCount == Surplus(k + 1, MAX_MEMORY_REGIONS)
    {
      NextOfFirst(all, k, MAX_MEMORY_REGIONS);
      FirstFills(all[..k], MAX_MEMORY_REGIONS);
      hide First, RegionOf;
      if regionCount >= MAX_MEMORY_REGIONS {
        droppedRegionCount := droppedRegionCount + 1;
      } else {
        regions[regionCount] := RegionOf(d);
        regionCount := regionCount + 1;
      }
    }

    /** The pass over the stored regions when an SMMU was found. */
    method MarkAll()
      requires Valid()
      modifies regions
      ensures PhysicalMemoryMap() == Marked(old(PhysicalMemoryMap()), true)
    {
      for i := 0 to regionCount
        invariant forall j :: 0 <= j < i ==> regions[j] == old(regions[j]).(behindIommu := true)
        invariant forall j :: i <= j < regionCount ==> regions[j] == old(regions[j])
      {
        regions[i] := regions[i].(behindIommu := true);
      }
    }
  }

  lemma StartsBefore(iter: DescriptorIter, map_: seq<Byte>)
    requires IsMemoryMap(map_) && iter.map_ == map_ && iter.descriptorSize == EntrySize(map_)
    requires iter.current == HEADER_SIZE && iter.remaining == MapSize(map_)
    ensures iter.Before(0)
    ensures 0 < |Regions(map_)| ==> RegionOf(EntryAt(map_, 0)) == Regions(map_)[0]
  {
  }

  lemma RegionIs(map_: seq<Byte>, k: nat)
    requires IsMemoryMap(map_)
    ensures k < |Regions(map_)| ==> RegionOf(EntryAt(map_, k)) == Regions(map_)[k]
  {
  }

  lemma EmptyFirst<T>(cap: nat)
    ensures First<T>([], cap) == []
  {
  }

  lemma {:induction false} FirstFills<T>(xs: seq<T>, cap: nat)
    ensures |First(xs, cap)| < cap <==> |xs| < cap
    ensures |First(xs, cap)| <= cap
  {
  }

  lemma {:induction false} Unmarked(regions: seq<MemoryRegion>)
    ensures Marked(regions, false) == regions
  {
  }

  lemma {:induction false} NextOfFirst<T>(all: seq<T>, k: nat, cap: nat)
    requires k < |all|
    ensures First(all[..k + 1], cap) == if k < cap then First(all[..k], cap) + [all[k]] else First(all[..k], cap)
    ensures Surplus(k + 1, cap) == if k < cap then Surplus(k, cap) else Surplus(k, cap) + 1
  {
    assert all[..k + 1] == all[..k] + [all[k]];
    if k >= cap {
      assert all[..k + 1][..cap] == all[..cap] && all[..k][..cap] == all[..cap];
    }
  }

  // ---------------------------------------------------------------------------
  // The manifest
  // ---------------------------------------------------------------------------

  /** A table's contents and its count of entries dropped, kept in 32 bits. */
  datatype Ledger<T> = Ledger(held: seq<T>, dropped: nat)

  function Pushed<T>(l: Ledger<T>, x: T, cap: nat): Ledger<T> {
    if |l.held| < cap then l.(held := l.held + [x]) else l.(dropped := (l.dropped + 1) % TWO32)
  }

  /** The ledger after pushing every element of `xs` into an empty table. */
  function Account<T>(xs: seq<T>, cap: nat): Ledger<T> {
    Ledger(First(xs, cap), Surplus(|xs|, cap) % TWO32)
  }

  function IndexedCompute(xs: seq<Compute>): (r: seq<Compute>)
    ensures |r| == |xs|
  {
    seq(|xs|, i requires 0 <= i < |xs| => Compute(xs[i].device.(index := i)))
  }

  function IndexedPeripherals(xs: seq<Peripheral>): (r: seq<Peripheral>)
    ensures |r| == |xs|
  {
    seq(|xs|, i requires 0 <= i < |xs| => Peripheral(xs[i].device.(index := i)))
  }

  /** Pushing the next element keeps the account: it is the invariant of every loop that
      fills a table. */
  lemma {:induction false} PushKeepsAccount<T>(xs: seq<T>, k: nat, cap: nat)
    requires k < |xs|
    ensures Pushed(Account(xs[..k], cap), xs[k], cap) == Account(xs[..k + 1], cap)
  {
    NextOfFirst(xs, k, cap);
    WrapNext(Surplus(k, cap));
  }

  lemma WrapNext(n: nat)
    ensures (n % TWO32 + 1) % TWO32 == (n + 1) % TWO32
  {
  }

  /** Held and dropped entries add up to those offered, unless 2^32 or more were dropped. */
  lemma {:induction false} NothingIsLost<T>(xs: seq<T>, cap: nat)
    requires cap > 0
    ensures |Account(xs, cap).held| + Account(xs, cap).dropped == |xs| <==> |xs| < cap + TWO32
    ensures |Account(xs, cap).held| == (if |xs| < cap then |xs| else cap)
    ensures forall i :: 0 <= i < |xs| && i < cap ==> Account(xs, cap).held[i] == xs[i]
    ensures |xs| < cap + TWO32 ==> (Account(xs, cap).dropped > 0 <==> |xs| > cap)
  {
  }

  class HardwareManifest {
    const memoryRegions: array<MemoryRegion>
    const computeDevices: array<Compute>
    const peripheralDevices: array<Peripheral>
    const powerDomains: array<PowerDomain>
    var memoryRegionCount: nat
    var computeDeviceCount: nat
    var peripheralDeviceCount: nat
    var powerDomainCount: nat
    var truncatedMemoryRegions: nat
    var truncatedComputeDevices: nat
    var truncatedPeripheralDevices: nat
    var truncatedPowerDomains: nat

    ghost predicate Valid()
      reads this
    {
      && memoryRegions.Length == MAX_MEMORY_REGIONS && memoryRegionCount <= MAX_MEMORY_REGIONS
      && computeDevices.Length == MAX_COMPUTE_DEVICES && computeDeviceCount <= MAX_COMPUTE_DEVICES
      && peripheralDevices.Length == MAX_PERIPHERAL_DEVICES && peripheralDeviceCount <= MAX_PERIPHERAL_DEVICES
      && powerDomains.Length == MAX_POWER_DOMAINS && powerDomainCount <= MAX_POWER_DOMAINS
    }

    function MemoryLedger(): Ledger<MemoryRegion>
      requires Valid()
      reads this, memoryRegions
    {
      Ledger(memoryRegions[..memoryRegionCount], truncatedMemoryRegions)
    }

    function ComputeLedger(): Ledger<Compute>
      requires Valid()
      reads this, computeDevices
    {
      Ledger(computeDevices[..computeDeviceCount], truncatedComputeDevices)
    }

    function PeripheralLedger(): Ledger<Peripheral>
      requires Valid()
      reads this, peripheralDevices
    {
      Ledger(peripheralDevices[..peripheralDeviceCount], truncatedPeripheralDevices)
    }

    function PowerLedger(): Ledger<PowerDomain>
      requires Valid()
      reads this, powerDomains
    {
      Ledger(powerDomains[..powerDomainCount], truncatedPowerDomains)
    }

    predicate HasTruncation()
      reads this
    {
      || truncatedMemoryRegions > 0
      || truncatedComputeDevices > 0
      || truncatedPeripheralDevices > 0
      || truncatedPowerDomains > 0
    }

    constructor Zeroed()
      ensures Valid() && fresh(memoryRegions) && fresh(computeDevices) && fresh(peripheralDevices) && fresh(powerDomains)
      ensures MemoryLedger() == Ledger([], 0) && ComputeLedger() == Ledger([], 0)
      ensures PeripheralLedger() == Ledger([], 0) && PowerLedger() == Ledger([], 0)
    {
      memoryRegions := new MemoryRegion[MAX_MEMORY_REGIONS](_ => MemoryRegion(0, 0, Reserved, false));
      computeDevices := new Compute[MAX_COMPUTE_DEVICES](_ => Compute(Device(0, 0)));
      peripheralDevices := new Peripheral[MAX_PERIPHERAL_DEVICES](_ => Peripheral(Device(0, 0)));
      powerDomains := new PowerDomain[MAX_POWER_DOMAINS](_ => PowerDomain(0));
      memoryRegionCount, computeDeviceCount, peripheralDeviceCount, powerDomainCount := 0, 0, 0, 0;
      truncatedMemoryRegions, truncatedComputeDevices := 0, 0;
      truncatedPeripheralDevices, truncatedPowerDomains := 0, 0;
    }

    method PushMemoryRegion(region: MemoryRegion) returns (ok: bool)
      requires Valid()
      modifies this, memoryRegions
      ensures Valid() && MemoryLedger() == Pushed(old(MemoryLedger()), region, MAX_MEMORY_REGIONS)
      ensures ok <==> old(memoryRegionCount) < 256
      ensures ComputeLedger() == old(ComputeLedger())
      ensures PeripheralLedger() == old(PeripheralLedger()) && PowerLedger() == old(PowerLedger())
    {
      var idx := memoryRegionCount;
      if idx >= MAX_MEMORY_REGIONS {
        truncatedMemoryRegions := (truncatedMemoryRegions + 1) % TWO32;
        return false;
      }
      memoryRegions[idx] := region;
      memoryRegionCount := memoryRegionCount + 1;
      return true;
    }

    /** The device takes its slot's number. */
    method PushComputeDevice(device: Compute) returns (ok: bool)
      requires Valid()
      modifies this, computeDevices
      ensures Valid()
      ensures ComputeLedger() == Pushed(old(ComputeLedger()), Compute(device.device.(index := old(computeDeviceCount))), MAX_COMPUTE_DEVICES)
      ensures ok <==> old(computeDeviceCount) < 32
      ensures MemoryLedger() == old(MemoryLedger())
      ensures PeripheralLedger() == old(PeripheralLedger()) && PowerLedger() == old(PowerLedger())
    {
      var idx := computeDeviceCount;
      if idx >= MAX_COMPUTE_DEVICES {
        truncatedComputeDevices := (truncatedComputeDevices + 1) % TWO32;
        return false;
      }
      computeDevices[idx] := Compute(device.device.(index := idx));
      computeDeviceCount := computeDeviceCount + 1;
      return true;
    }

    method PushPeripheralDevice(device: Peripheral) returns (ok: bool)
      requires Valid()
      modifies this, peripheralDevices
      ensures Valid()
      ensures PeripheralLedger() ==
              Pushed(old(PeripheralLedger()), Peripheral(device.device.(index := old(peripheralDeviceCount))), MAX_PERIPHERAL_DEVICES)
      ensures ok <==> old(peripheralDeviceCount) < 32
      ensures MemoryLedger() == old(MemoryLedger())
      ensures ComputeLedger() == old(ComputeLedger()) && PowerLedger() == old(PowerLedger())
    {
      var idx := peripheralDeviceCount;
      if idx >= MAX_PERIPHERAL_DEVICES {
        truncatedPeripheralDevices := (truncatedPeripheralDevices + 1) % TWO32;
        return false;
      }
      peripheralDevices[idx] := Peripheral(device.device.(index := idx));
      peripheralDeviceCount := peripheralDeviceCount + 1;
      return true;
    }

    method PushPowerDomain(domain: PowerDomain) returns (ok: bool)
      requires Valid()
      modifies this, powerDomains
      ensures Valid() && PowerLedger() == Pushed(old(PowerLedger()), domain, MAX_POWER_DOMAINS)
      ensures ok <==> old(powerDomainCount) < 16
      ensures MemoryLedger() == old(MemoryLedger())
      ensures ComputeLedger() == old(ComputeLedger()) && PeripheralLedger() == old(PeripheralLedger())
    {
      var idx := powerDomainCount;
      if idx >= MAX_POWER_DOMAINS {
        truncatedPowerDomains := (truncatedPowerDomains + 1) % TWO32;
        return false;
      }
      powerDomains[idx] := domain;
      powerDomainCount := powerDomainCount + 1;
      return true;
    }

    method FillMemoryRegions(regions: seq<MemoryRegion>)
      requires Valid() && MemoryLedger() == Ledger([], 0)
      modifies this, memoryRegions
      ensures Valid() && MemoryLedger() == Account(regions, MAX_MEMORY_REGIONS)
      ensures ComputeLedger() == old(ComputeLedger())
      ensures PeripheralLedger() == old(PeripheralLedger())
      ensures PowerLedger() == old(PowerLedger())
    {
      ghost var all := regions;
      EmptyAccount<MemoryRegion>(MAX_MEMORY_REGIONS);
      assert all[..0] == [];
      for k := 0 to |regions|
        invariant Valid() && MemoryLedger() == Account(all[..k], MAX_MEMORY_REGIONS)
        invariant ComputeLedger() == old(ComputeLedger())
        invariant PeripheralLedger() == old(PeripheralLedger())
        invariant PowerLedger() == old(PowerLedger())
      {
        PushKeepsAccount(all, k, MAX_MEMORY_REGIONS);
        FirstFills(all[..k], MAX_MEMORY_REGIONS);
        var _ := PushMemoryRegion(regions[k]);
      }
      assert all[..|regions|] == all;
    }

    method FillComputeDevices(devices: seq<Compute>)
      requires Valid() && ComputeLedger() == Ledger([], 0)
      modifies this, computeDevices
      ensures Valid() && ComputeLedger() == Account(IndexedCompute(devices), MAX_COMPUTE_DEVICES)
      ensures MemoryLedger() == old(MemoryLedger())
      ensures PeripheralLedger() == old(PeripheralLedger())
      ensures PowerLedger() == old(PowerLedger())
    {
      ghost var all := IndexedCompute(devices);
      EmptyAccount<Compute>(MAX_COMPUTE_DEVICES);
      assert all[..0] == [];
      for k := 0 to |devices|
        invariant Valid() && ComputeLedger() == Account(all[..k], MAX_COMPUTE_DEVICES)
        invariant MemoryLedger() == old(MemoryLedger())
        invariant PeripheralLedger() == old(PeripheralLedger())
        invariant PowerLedger() == old(PowerLedger())
      {
        PushKeepsAccount(all, k, MAX_COMPUTE_DEVICES);
        FirstFills(all[..k], MAX_COMPUTE_DEVICES);
        var _ := PushComputeDevice(devices[k]);
      }
      assert all[..|devices|] == all;
    }

    method FillPeripheralDevices(devices: seq<Peripheral>)
      requires Valid() && PeripheralLedger() == Ledger([], 0)
      modifies this, peripheralDevices
      ensures Valid() && PeripheralLedger() == Account(IndexedPeripherals(devices), MAX_PERIPHERAL_DEVICES)
      ensures MemoryLedger() == old(MemoryLedger())
      ensures ComputeLedger() == old(ComputeLedger())
      ensures PowerLedger() == old(PowerLedger())
    {
      ghost var all := IndexedPeripherals(devices);
      EmptyAccount<Peripheral>(MAX_PERIPHERAL_DEVICES);
      assert all[..0] == [];
      for k := 0 to |devices|
        invariant Valid() && PeripheralLedger() == Account(all[..k], MAX_PERIPHERAL_DEVICES)
        invariant MemoryLedger() == old(MemoryLedger())
        invariant ComputeLedger() == old(ComputeLedger())
        invariant PowerLedger() == old(PowerLedger())
      {
        PushKeepsAccount(all, k, MAX_PERIPHERAL_DEVICES);
        FirstFills(all[..k], MAX_PERIPHERAL_DEVICES);
        var _ := PushPeripheralDevice(devices[k]);
      }
      assert all[..|devices|] == all;
    }

    method FillPowerDomains(domains: seq<PowerDomain>)
      requires Valid() && PowerLedger() == Ledger([], 0)
      modifies this, powerDomains
      ensures Valid() && PowerLedger() == Account(domains, MAX_POWER_DOMAINS)
      ensures MemoryLedger() == old(MemoryLedger())
      ensures ComputeLedger() == old(ComputeLedger())
      ensures PeripheralLedger() == old(PeripheralLedger())
    {
      ghost var all := domains;
      EmptyAccount<PowerDomain>(MAX_POWER_DOMAINS);
      assert all[..0] == [];
      for k := 0 to |domains|
        invariant Valid() && PowerLedger() == Account(all[..k], MAX_POWER_DOMAINS)
        invariant MemoryLedger() == old(MemoryLedger())
        invariant ComputeLedger() == old(ComputeLedger())
        invariant PeripheralLedger() == old(PeripheralLedger())
      {
        PushKeepsAccount(all, k, MAX_POWER_DOMAINS);
        FirstFills(all[..k], MAX_POWER_DOMAINS);
        var _ := PushPowerDomain(domains[k]);
      }
      assert all[..|domains|] == all;
    }
  }

  lemma EmptyAccount<T>(cap: nat)
    ensures Account<T>([], cap) == Ledger([], 0)
  {
  }

  /** What the finished manifest reports about a firmware map: its first regions, and how
      many more there were. */
  function MapAccount(map_: seq<Byte>, smmuPresent: bool): Ledger<MemoryRegion>
    requires IsMemoryMap(map_)
  {
    Account(Marked(Regions(map_), smmuPresent), MAX_MEMORY_REGIONS)
  }

  /** Dropping in the scan and folding the count in later is the same as one account. */
  lemma {:induction false} TwoStagesAreOne(regions: seq<MemoryRegion>, iommu: bool, cap: nat)
    ensures Account(Marked(regions, iommu), cap) == Ledger(Marked(First(regions, cap), iommu), Surplus(|regions|, cap) % TWO32)
  {
    assert Marked(First(regions, cap), iommu) == First(Marked(regions, iommu), cap);
  }

  lemma {:induction false} FitsWhole<T>(xs: seq<T>, cap: nat)
    requires |xs| <= cap
    ensures Account(xs, cap) == Ledger(xs, 0)
  {
  }

  /** `built_hardware_manifest`; the device lists are what the other scans found. */
  method BuiltHardwareManifest(memory: Memory, compute: seq<Compute>, peripherals: seq<Peripheral>, domains: seq<PowerDomain>)
    returns (m: HardwareManifest)
    requires memory.Valid()
    ensures fresh(m) && m.Valid()
    ensures m.MemoryLedger() == Ledger(memory.PhysicalMemoryMap(), memory.droppedRegionCount % TWO32)
    ensures m.ComputeLedger() == Account(IndexedCompute(compute), MAX_COMPUTE_DEVICES)
    ensures m.PeripheralLedger() == Account(IndexedPeripherals(peripherals), MAX_PERIPHERAL_DEVICES)
    ensures m.PowerLedger() == Account(domains, MAX_POWER_DOMAINS)
  {
    hide Account, IndexedCompute, IndexedPeripherals;
    m := new HardwareManifest.Zeroed();
    m.FillMemoryRegions(memory.PhysicalMemoryMap());
    FitsWhole(memory.PhysicalMemoryMap(), MAX_MEMORY_REGIONS);
    m.truncatedMemoryRegions := (m.truncatedMemoryRegions + memory.droppedRegionCount % TWO32) % TWO32;
    m.FillComputeDevices(compute);
    m.FillPeripheralDevices(peripherals);
    m.FillPowerDomains(domains);
  }

  /** Something offered did not fit its table. */
  predicate Overflows(map_: seq<Byte>, compute: seq<Compute>, peripherals: seq<Peripheral>, domains: seq<PowerDomain>)
    requires IsMemoryMap(map_)
  {
    || |Regions(map_)| > 256
    || |compute| > 32
    || |peripherals| > 32
    || |domains| > 16
  }

  /** The scan of the firmware map followed by the assembly of the manifest. */
  method Discover(map_: seq<Byte>, smmuPresent: bool, gicd: Option<U64>, compute: seq<Compute>, peripherals: seq<Peripheral>,
                  domains: seq<PowerDomain>)
    returns (m: HardwareManifest)
    requires IsMemoryMap(map_)
    ensures fresh(m) && m.Valid()
    ensures m.MemoryLedger() == MapAccount(map_, smmuPresent)
    ensures m.ComputeLedger() == Account(IndexedCompute(compute), MAX_COMPUTE_DEVICES)
    ensures m.PeripheralLedger() == Account(IndexedPeripherals(peripherals), MAX_PERIPHERAL_DEVICES)
    ensures m.PowerLedger() == Account(domains, MAX_POWER_DOMAINS)
    ensures |Regions(map_)| < TWO32 && |compute| < TWO32 && |peripherals| < TWO32 && |domains| < TWO32 ==>
              (m.HasTruncation() <==> Overflows(map_, compute, peripherals, domains))
  {
    hide IsMemoryMap, Regions, Account, Marked, First, IndexedCompute, IndexedPeripherals;
    var memory := new Memory.FromUefiMemoryMap(map_, smmuPresent, gicd);
    TwoStagesAreOne(Regions(map_), smmuPresent, MAX_MEMORY_REGIONS);
    m := BuiltHardwareManifest(memory, compute, peripherals, domains);
    NothingIsLost(Marked(Regions(map_), smmuPresent), MAX_MEMORY_REGIONS);
    NothingIsLost(IndexedCompute(compute), MAX_COMPUTE_DEVICES);
    NothingIsLost(IndexedPeripherals(peripherals), MAX_PERIPHERAL_DEVICES);
    NothingIsLost(domains, MAX_POWER_DOMAINS);
  }

  /** The counts a manifest gives for a map of n entries add up to n, and the regions it
      holds are the map's own first ones, unless 2^32 or more entries did not fit. */
  lemma {:induction false} MapIsAccountedFor(map_: seq<Byte>, smmuPresent: bool)
    requires IsMemoryMap(map_)
    ensures var n := |Regions(map_)|; var l := MapAccount(map_, smmuPresent);
            && (|l.held| + l.dropped == n <==> n < 256 + TWO32)
            && |l.held| == (if n < 256 then n else 256)
            && (n < 256 + TWO32 ==> (l.dropped > 0 <==> n > 256))
    ensures forall i :: 0 <= i < |MapAccount(map_, smmuPresent).held| ==>
              MapAccount(map_, smmuPresent).held[i].(behindIommu := false) == Regions(map_)[i]
  {
    NothingIsLost(Marked(Regions(map_), smmuPresent), MAX_MEMORY_REGIONS);
  }
}
