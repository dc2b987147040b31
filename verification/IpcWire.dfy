/** The words on the wire: where each field of each of the twelve message types stands in
    the messages of ipc-protocol/src/codec.rs, by number. */
module IpcWire {
  import opened Bits
  import opened Options
  import opened IpcMessages
  import opened IpcCodec
  import opened IpcShapes

  /** Word `i` holds `v`: all of it, its low 32 bits, or as a truth value. */
  predicate Whole(w: seq<U64>, i: nat, v: U64) {
    i < |w| && w[i] == v
  }

  predicate Half(w: seq<U64>, i: nat, v: U32) {
    i < |w| && w[i] % 0x1_0000_0000 == v
  }

  predicate Flag(w: seq<U64>, i: nat, v: bool) {
    i < |w| && (v <==> w[i] != 0)
  }

  /** Word `i` numbers `v` in the list `all`, whose first entry has the number `first`. */
  predicate Numbered<T(==)>(w: seq<U64>, i: nat, first: nat, all: seq<T>, v: T) {
    i < |w| && first <= w[i] < first + |all| && all[w[i] - first] == v
  }

  predicate FsRequestAt(op: nat, w: seq<U64>, v: FsRequest) {
    match v
    case Open(path, flags) => op == 1 && Half(w, 0, path) && Half(w, 1, flags)
    case Read(handle, offset, len, cap) => op == 2 && Half(w, 0, handle) && Whole(w, 1, offset) && Half(w, 2, len) && Half(w, 3, cap)
    case Write(handle, offset, len, cap) => op == 3 && Half(w, 0, handle) && Whole(w, 1, offset) && Half(w, 2, len) && Half(w, 3, cap)
    case Stat(path) => op == 4 && Half(w, 0, path)
    case Close(handle) => op == 5 && Half(w, 0, handle)
  }

  predicate FsResponseAt(op: nat, w: seq<U64>, v: FsResponse) {
    match v
    case Opened(handle) => op == 1 && Half(w, 0, handle)
    case Read(bytes) => op == 2 && Half(w, 0, bytes)
    case Written(bytes) => op == 3 && Half(w, 0, bytes)
    case Stat(size, is_dir) => op == 4 && Whole(w, 0, size) && Flag(w, 1, is_dir)
    case Closed => op == 5
    case Error(code) =>
      op == 6 && Numbered(w, 0, 1, [NotFound, FsErrorCode.Denied, BadHandle, BadPath, FsErrorCode.Unsupported,
                                    FsErrorCode.BadSharedRegion, Io], code)
  }

  predicate DriverRequestAt(op: nat, w: seq<U64>, v: DriverRequest) {
    match v
    case Probe => op == 1
    case Irq(line) => op == 2 && Half(w, 0, line)
    case ReadBlocks(lba, count, cap) => op == 3 && Whole(w, 0, lba) && Half(w, 1, count) && Half(w, 2, cap)
    case WriteBlocks(lba, count, cap) => op == 4 && Whole(w, 0, lba) && Half(w, 1, count) && Half(w, 2, cap)
    case Quiesce => op == 5
    case SendFrame(len) => op == 6 && Half(w, 0, len)
    case PollFrame => op == 7
  }

  predicate DriverResponseAt(op: nat, w: seq<U64>, v: DriverResponse) {
    match v
    case Ready(size, count) => op == 1 && Half(w, 0, size) && Whole(w, 1, count)
    case Completed(sectors) => op == 2 && Half(w, 0, sectors)
    case Failed(code) =>
      op == 3 && Numbered(w, 0, 1, [ProbeFailed, OutOfRange, DriverErrorCode.BadSharedRegion, DeviceIo,
                                    DriverErrorCode.Unsupported, NoData, DriverBusy], code)
    case FrameSent => op == 4
    case FrameReceived(len) => op == 5 && Half(w, 0, len)
  }

  predicate DisplayRequestAt(op: nat, w: seq<U64>, v: DisplayRequest) {
    match v
    case CreateSurface => op == 1
    case CommitBuffer(surface, cap, width, height) =>
      op == 2 && Half(w, 0, surface) && Half(w, 1, cap) && Half(w, 2, width) && Half(w, 3, height)
    case DestroySurface(surface) => op == 3 && Half(w, 0, surface)
    case SubscribeInput => op == 4
    case QueryOutputs => op == 5
  }

  predicate DisplayResponseAt(op: nat, w: seq<U64>, v: DisplayResponse) {
    match v
    case SurfaceCreated(surface) => op == 1 && Half(w, 0, surface)
    case Committed => op == 2
    case Destroyed => op == 3
    case InputSubscribed => op == 4
    case OutputTopology(count, width, height, refresh) =>
      op == 5 && Half(w, 0, count) && Half(w, 1, width) && Half(w, 2, height) && Half(w, 3, refresh)
    case Error(code) => op == 6 && Numbered(w, 0, 1, [BadSurface, BadBuffer, DisplayErrorCode.Unsupported], code)
  }

  predicate MmRequestAt(op: nat, w: seq<U64>, v: MmRequest) {
    match v
    case Register(thread, resident, c) =>
      op == 1 && Half(w, 0, thread) && Whole(w, 1, resident) && Numbered(w, 2, 0, [Protected, Normal, Sacrificial], c)
    case Unregister(thread) => op == 2 && Half(w, 0, thread)
    case QueryVictim => op == 3
    case QueryTotalResident => op == 4
    case RegisterSwapRegion(thread, region, bytes, touched) =>
      op == 5 && Half(w, 0, thread) && Half(w, 1, region) && Whole(w, 2, bytes) && Whole(w, 3, touched)
    case UnregisterSwapRegion(thread, region) => op == 6 && Half(w, 0, thread) && Half(w, 1, region)
    case QuerySwapVictim => op == 7
    case RegisterComputePool(pool, kind, capacity, used) =>
      op == 8 && Half(w, 0, pool) && Numbered(w, 1, 0, [Cpu, Gpu, Npu, Tpu, Fpga], kind) && Whole(w, 2, capacity) && Whole(w, 3, used)
    case QueryComputePool(bytes, preferred) =>
      && op == 9 && Whole(w, 0, bytes) && Whole(w, 1, if preferred.Some? then 1 else 0)
      && (preferred.Some? ==> Numbered(w, 2, 0, [Cpu, Gpu, Npu, Tpu, Fpga], preferred.value))
  }

  predicate MmResponseAt(op: nat, w: seq<U64>, v: MmResponse) {
    match v
    case Registered => op == 1
    case Unregistered => op == 2
    case Victim(thread) => op == 3 && Half(w, 0, thread)
    case TotalResident(bytes) => op == 4 && Whole(w, 0, bytes)
    case Error(code) => op == 5 && Numbered(w, 0, 1, [MmErrorCode.Unsupported], code)
    case SwapRegionRegistered => op == 6
    case SwapRegionUnregistered => op == 7
    case SwapVictim(thread, region) => op == 8 && Half(w, 0, thread) && Half(w, 1, region)
    case ComputePoolRegistered => op == 9
    case ComputePoolChosen(pool) => op == 10 && Half(w, 0, pool)
  }

  predicate NetRequestAt(op: nat, w: seq<U64>, v: NetBypassRequest) {
    match v
    case RequestDirectNic(nic) => op == 1 && Half(w, 0, nic)
    case Release(handle) => op == 2 && Half(w, 0, handle)
    case RelayFrame => op == 3
  }

  predicate NetResponseAt(op: nat, w: seq<U64>, v: NetBypassResponse) {
    match v
    case Granted(handle, rx, tx, len) => op == 1 && Half(w, 0, handle) && Half(w, 1, rx) && Half(w, 2, tx) && Half(w, 3, len)
    case Denied => op == 2
    case Released => op == 3
    case Relayed => op == 4
  }

  predicate SecurityRequestAt(op: nat, w: seq<U64>, v: SecurityRequest) {
    match v
    case CapGrant(target, cap, rights) => op == 1 && Half(w, 0, target) && Half(w, 1, cap) && Half(w, 2, rights)
    case CapRevoke(cap) => op == 2 && Half(w, 0, cap)
  }

  predicate SecurityResponseAt(op: nat, w: seq<U64>, v: SecurityResponse) {
    match v
    case Granted(dst) => op == 1 && Half(w, 0, dst)
    case Revoked(freed) => op == 2 && Half(w, 0, freed)
    case Error(code) => op == 3 && Numbered(w, 0, 1, [SecurityErrorCode.Unsupported, UnknownService, KernelRejected], code)
  }

  /** The message carries the value: namespace in the top byte of the tag, version 1 in bits
      8 to 23, the opcode in the low byte, the fields in their words. */
  predicate Carries(m: SmallMessage, x: Payload) {
    var ns, op, w := m.tag / 0x100_0000_0000_0000, m.tag % 256, m.words;
    && m.tag / 256 % 0x1_0000 == 1
    && match x
       case AFsRequest(v) => ns == 1 && FsRequestAt(op, w, v)
       case AnFsResponse(v) => ns == 1 && FsResponseAt(op, w, v)
       case ADriverRequest(v) => ns == 2 && DriverRequestAt(op, w, v)
       case ADriverResponse(v) => ns == 2 && DriverResponseAt(op, w, v)
       case ADisplayRequest(v) => ns == 3 && DisplayRequestAt(op, w, v)
       case ADisplayResponse(v) => ns == 3 && DisplayResponseAt(op, w, v)
       case ANetRequest(v) => ns == 4 && NetRequestAt(op, w, v)
       case ANetResponse(v) => ns == 4 && NetResponseAt(op, w, v)
       case AnMmRequest(v) => ns == 5 && MmRequestAt(op, w, v)
       case AnMmResponse(v) => ns == 5 && MmResponseAt(op, w, v)
       case ASecurityRequest(v) => ns == 6 && SecurityRequestAt(op, w, v)
       case ASecurityResponse(v) => ns == 6 && SecurityResponseAt(op, w, v)
  }

  lemma FsIsCarried(p: Protocol, m: SmallMessage)
    requires p.FsAsk? || p.FsReply?
    ensures Decode(p, m).Ok? ==> Carries(m, Decode(p, m).value)
  {
    hide Opcode, Label;
    OpcodeMeaning(Home(p), m);
  }

  lemma DriverIsCarried(p: Protocol, m: SmallMessage)
    requires p.DriverAsk? || p.DriverReply?
    ensures Decode(p, m).Ok? ==> Carries(m, Decode(p, m).value)
  {
    hide Opcode, Label;
    OpcodeMeaning(Home(p), m);
  }

  lemma DisplayIsCarried(p: Protocol, m: SmallMessage)
    requires p.DisplayAsk? || p.DisplayReply?
    ensures Decode(p, m).Ok? ==> Carries(m, Decode(p, m).value)
  {
    hide Opcode, Label;
    OpcodeMeaning(Home(p), m);
  }

  lemma MmRequestIsCarried(p: Protocol, m: SmallMessage)
    requires p.MmAsk?
    ensures Decode(p, m).Ok? ==> Carries(m, Decode(p, m).value)
  {
    hide Opcode, Label;
    OpcodeMeaning(Home(p), m);
  }

  lemma MmResponseIsCarried(p: Protocol, m: SmallMessage)
    requires p.MmReply?
    ensures Decode(p, m).Ok? ==> Carries(m, Decode(p, m).value)
  {
    hide Opcode, Label;
    OpcodeMeaning(Home(p), m);
  }

  lemma NetIsCarried(p: Protocol, m: SmallMessage)
    requires p.NetAsk? || p.NetReply?
    ensures Decode(p, m).Ok? ==> Carries(m, Decode(p, m).value)
  {
    hide Opcode, Label;
    OpcodeMeaning(Home(p), m);
  }

  lemma SecurityIsCarried(p: Protocol, m: SmallMessage)
    requires p.SecurityAsk? || p.SecurityReply?
    ensures Decode(p, m).Ok? ==> Carries(m, Decode(p, m).value)
  {
    hide Opcode, Label;
    OpcodeMeaning(Home(p), m);
  }

  /** Whatever a decoder accepts, the message carries. */
  lemma DecodedIsCarried(p: Protocol, m: SmallMessage)
    ensures Decode(p, m).Ok? ==> Carries(m, Decode(p, m).value)
  {
    hide Decode, Carries;
    match p
    case FsAsk | FsReply => FsIsCarried(p, m);
    case DriverAsk | DriverReply => DriverIsCarried(p, m);
    case DisplayAsk | DisplayReply => DisplayIsCarried(p, m);
    case MmAsk => MmRequestIsCarried(p, m);
    case MmReply => MmResponseIsCarried(p, m);
    case NetAsk | NetReply => NetIsCarried(p, m);
    case SecurityAsk | SecurityReply => SecurityIsCarried(p, m);
  }

  /** And what an encoder prints, its message carries. */
  lemma EncodedIsCarried(x: Payload)
    ensures Carries(Encode(x), x)
  {
    hide Decode, Encode, Carries;
    RoundTrip(x);
    DecodedIsCarried(Speaks(x), Encode(x));
  }
}
